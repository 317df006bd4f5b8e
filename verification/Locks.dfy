/**
 * The locks of the file-system calls: which each call takes and gives back, in order, and why no set of
 * processes running any calls can deadlock.
 */
module Locks {

  /** One lock per table, and one per inode entry, buffer and process (kernel/include/fs.h, sched.h). */
  datatype Lock =
    | ProcTable
    | Proc(p: nat)
    | OpenFiles
    | Mounts
    | ICache
    | Inode(i: nat)
    | Buffers
    | Buffer(b: nat)

  /** The order in which locks may nest. Locks of one rank never nest. */
  function Rank(l: Lock): (r: nat)
    ensures r < 8
  {
    match l
    case ProcTable => 0
    case Proc(_) => 1
    case OpenFiles => 2
    case Mounts => 3
    case ICache => 4
    case Inode(_) => 5
    case Buffers => 6
    case Buffer(_) => 7
  }

  /** `Use` is the work on what a lock protects. */
  datatype Act = Acquire(l: Lock) | Use(l: Lock) | Release(l: Lock)

  // ---------- What each call does with locks ----------

  function Within(l: Lock, body: seq<Act>): seq<Act> {
    [Acquire(l), Use(l)] + body + [Release(l)]
  }

  /** bget, and so bread: kernel/fs/block.c:143-158 */
  const BREAD: seq<Act> := Within(Buffers, [])

  /** kernel/fs/block.c:38-55 */
  function Bwrite(b: nat): seq<Act> {
    Within(Buffer(b), [])
  }

  /** kernel/fs/block.c:73-76 */
  function Brelease(b: nat): seq<Act> {
    Within(Buffer(b), [])
  }

  /** A block opened and given back. */
  function Visit(b: nat): seq<Act> {
    BREAD + Brelease(b)
  }

  function Visits(bs: seq<nat>): seq<Act> {
    if bs == [] then [] else Visit(bs[0]) + Visits(bs[1..])
  }

  /** An inode written back through buffer `b`: kernel/fs/inode.c:53-55 */
  function WriteBack(b: nat): seq<Act> {
    BREAD + Bwrite(b)
  }

  /** A call of the file system, with the entries and buffers it happens to meet. */
  datatype Call =
    | SbRead(b: nat)                                    // kernel/fs/superblock.c:10-17
    | Iget(miss: bool, flush: bool, w: nat, b: nat)     // kernel/fs/inode.c:20-41
    | Iput(i: nat, dirty: bool, b: nat)                 // kernel/fs/inode.c:50-58
    | Ifree(i: nat, b: nat, maps: seq<nat>)             // kernel/fs/inode.c:116-127
    | Ialloc(maps: seq<nat>, miss: bool, flush: bool, w: nat, b: nat, back: seq<nat>) // kernel/fs/inode.c:85-110
    | Balloc(maps: seq<nat>)                            // kernel/fs/block.c:81-112
    | Bfree(b: nat)                                     // kernel/fs/block.c:116-125
    | Lookup(blocks: seq<nat>)                          // kernel/fs/namei.c:35-54
    | Fget(held: bool, i: nat, dirty: bool, b: nat)     // kernel/fs/open_close.c:98-120
    | Fdget                                             // kernel/fs/open_close.c:129-136
    | SetSlot(p: nat)                                   // kernel/fs/open_close.c:55-57
    | Close(last: bool, i: nat, dirty: bool, b: nat)    // kernel/fs/open_close.c:78-89
    | Transfer(p: nat, blocks: seq<nat>)                // kernel/fs/read_write.c:32-72, 95-135

  function PutInode(i: nat, dirty: bool, b: nat): seq<Act> {
    Within(Inode(i), if dirty then WriteBack(b) else [])
  }

  /** A hit, or an entry recycled: written back through buffer `w` if dirty, then filled through buffer `b`. */
  function GetInode(miss: bool, flush: bool, w: nat, b: nat): seq<Act> {
    Within(ICache, if miss then (if flush then WriteBack(w) else []) + Visit(b) else [])
  }

  function Script(c: Call): seq<Act> {
    match c
    case SbRead(b) => Within(Mounts, Visit(b))
    case Iget(miss, flush, w, b) => GetInode(miss, flush, w, b)
    case Iput(i, dirty, b) => PutInode(i, dirty, b)
    case Ifree(i, b, maps) => Within(Inode(i), WriteBack(b) + Visits(maps))
    case Ialloc(maps, miss, flush, w, b, back) => Visits(maps) + GetInode(miss, flush, w, b) + Visits(back)
    case Balloc(maps) => Visits(maps) + BREAD
    case Bfree(b) => Visit(b)
    case Lookup(blocks) => Visits(blocks)
    case Fget(held, i, dirty, b) => Within(OpenFiles, if held then PutInode(i, dirty, b) else [])
    case Fdget => Within(ProcTable, [])
    case SetSlot(p) => Within(Proc(p), [])
    case Close(last, i, dirty, b) => Within(OpenFiles, if last then PutInode(i, dirty, b) else [])
    case Transfer(p, blocks) => Within(Proc(p), []) + Visits(blocks)
  }

  function Program(cs: seq<Call>): seq<Act> {
    if cs == [] then [] else Script(cs[0]) + Program(cs[1..])
  }

  // ---------- Discipline ----------

  ghost predicate Above(held: set<Lock>, l: Lock) {
    forall m :: m in held ==> Rank(m) < Rank(l)
  }

  /**
   * From `held`, the actions take locks in rank order, work only under the lock of what they work on, give back only what
   * is held, and end holding `end`.
   */
  ghost predicate Disciplined(held: set<Lock>, acts: seq<Act>, end: set<Lock>)
    decreases |acts|
  {
    if acts == [] then held == end
    else
      match acts[0]
      case Acquire(l) => Above(held, l) && Disciplined(held + {l}, acts[1..], end)
      case Use(l) => l in held && Disciplined(held, acts[1..], end)
      case Release(l) => l in held && Disciplined(held - {l}, acts[1..], end)
  }

  lemma {:induction false} Chain(h: set<Lock>, xs: seq<Act>, m: set<Lock>, ys: seq<Act>, e: set<Lock>)
    requires Disciplined(h, xs, m) && Disciplined(m, ys, e)
    ensures Disciplined(h, xs + ys, e)
    decreases |xs|
  {
    if xs == [] {
      assert xs + ys == ys;
    } else {
      assert (xs + ys)[0] == xs[0] && (xs + ys)[1..] == xs[1..] + ys;
      match xs[0]
      case Acquire(l) => Chain(h + {l}, xs[1..], m, ys, e);
      case Use(l) => Chain(h, xs[1..], m, ys, e);
      case Release(l) => Chain(h - {l}, xs[1..], m, ys, e);
    }
  }

  lemma Nest(h: set<Lock>, l: Lock, body: seq<Act>)
    requires Above(h, l) && Disciplined(h + {l}, body, h + {l})
    ensures Disciplined(h, Within(l, body), h)
  {
    assert l !in h;
    assert (h + {l}) - {l} == h;
    assert Disciplined(h + {l}, [Release(l)], h) by {
      assert [Release(l)][1..] == [];
    }
    Chain(h + {l}, body, h + {l}, [Release(l)], h);
    var w := Within(l, body);
    assert w[0] == Acquire(l) && w[1] == Use(l) && w[1..][1..] == body + [Release(l)];
  }

  /** Every lock held ranks below `r`. */
  ghost predicate Below(h: set<Lock>, r: nat) {
    forall m :: m in h ==> Rank(m) < r
  }

  lemma Simple(h: set<Lock>, l: Lock)
    requires Below(h, Rank(l))
    ensures Disciplined(h, Within(l, []), h)
  {
    Nest(h, l, []);
  }

  lemma VisitOk(h: set<Lock>, b: nat)
    requires Below(h, 6)
    ensures Disciplined(h, Visit(b), h)
  {
    Simple(h, Buffers);
    Simple(h, Buffer(b));
    Chain(h, BREAD, h, Brelease(b), h);
  }

  lemma WriteBackOk(h: set<Lock>, b: nat)
    requires Below(h, 6)
    ensures Disciplined(h, WriteBack(b), h)
  {
    Simple(h, Buffers);
    Simple(h, Buffer(b));
    Chain(h, BREAD, h, Bwrite(b), h);
  }

  lemma {:induction false} VisitsOk(h: set<Lock>, bs: seq<nat>)
    requires Below(h, 6)
    ensures Disciplined(h, Visits(bs), h)
  {
    if bs != [] {
      VisitOk(h, bs[0]);
      VisitsOk(h, bs[1..]);
      Chain(h, Visit(bs[0]), h, Visits(bs[1..]), h);
    }
  }

  lemma PutInodeOk(h: set<Lock>, i: nat, dirty: bool, b: nat)
    requires Below(h, 5)
    ensures Disciplined(h, PutInode(i, dirty, b), h)
  {
    WriteBackOk(h + {Inode(i)}, b);
    Nest(h, Inode(i), if dirty then WriteBack(b) else []);
  }

  lemma NestVisit(h: set<Lock>, l: Lock, b: nat)
    requires Below(h, Rank(l)) && Rank(l) < 6
    ensures Disciplined(h, Within(l, Visit(b)), h)
  {
    VisitOk(h + {l}, b);
    hide Visit;
    Nest(h, l, Visit(b));
  }

  lemma IgetOk(h: set<Lock>, miss: bool, flush: bool, w: nat, b: nat)
    requires Below(h, Rank(ICache))
    ensures Disciplined(h, GetInode(miss, flush, w, b), h)
  {
    var k := h + {ICache};
    VisitOk(k, b);
    WriteBackOk(k, w);
    hide Visit, WriteBack;
    var first := if flush then WriteBack(w) else [];
    Chain(k, first, k, Visit(b), k);
    Nest(h, ICache, if miss then first + Visit(b) else []);
  }

  lemma IfreeOk(h: set<Lock>, i: nat, b: nat, maps: seq<nat>)
    requires Below(h, Rank(Inode(i)))
    ensures Disciplined(h, Script(Ifree(i, b, maps)), h)
  {
    var k := h + {Inode(i)};
    WriteBackOk(k, b);
    VisitsOk(k, maps);
    hide Visits, WriteBack;
    Chain(k, WriteBack(b), k, Visits(maps), k);
    Nest(h, Inode(i), WriteBack(b) + Visits(maps));
  }

  lemma TableOk(h: set<Lock>, put: bool, i: nat, dirty: bool, b: nat)
    requires Below(h, Rank(OpenFiles))
    ensures Disciplined(h, Within(OpenFiles, if put then PutInode(i, dirty, b) else []), h)
  {
    PutInodeOk(h + {OpenFiles}, i, dirty, b);
    hide PutInode;
    Nest(h, OpenFiles, if put then PutInode(i, dirty, b) else []);
  }

  /** Every call takes locks in rank order and returns holding exactly what it entered with: nothing. */
  lemma ScriptOk(c: Call)
    ensures Disciplined({}, Script(c), {})
  {
    hide Disciplined, Visit, Visits, WriteBack, PutInode, GetInode, Within;
    match c
    case SbRead(b) => NestVisit({}, Mounts, b);
    case Iget(miss, flush, w, b) => IgetOk({}, miss, flush, w, b);
    case Iput(i, dirty, b) => PutInodeOk({}, i, dirty, b);
    case Ifree(i, b, maps) => IfreeOk({}, i, b, maps);
    case Ialloc(maps, miss, flush, w, b, back) =>
      VisitsOk({}, maps);
      IgetOk({}, miss, flush, w, b);
      VisitsOk({}, back);
      Chain({}, Visits(maps), {}, GetInode(miss, flush, w, b), {});
      Chain({}, Visits(maps) + GetInode(miss, flush, w, b), {}, Visits(back), {});
    case Balloc(maps) =>
      VisitsOk({}, maps);
      Simple({}, Buffers);
      Chain({}, Visits(maps), {}, BREAD, {});
    case Bfree(b) => VisitOk({}, b);
    case Lookup(blocks) => VisitsOk({}, blocks);
    case Fget(held, i, dirty, b) => TableOk({}, held, i, dirty, b);
    case Fdget => Simple({}, ProcTable);
    case SetSlot(p) => Simple({}, Proc(p));
    case Close(last, i, dirty, b) => TableOk({}, last, i, dirty, b);
    case Transfer(p, blocks) =>
      Simple({}, Proc(p));
      VisitsOk({}, blocks);
      Chain({}, Within(Proc(p), []), {}, Visits(blocks), {});
  }

  lemma {:induction false} ProgramOk(cs: seq<Call>)
    ensures Disciplined({}, Program(cs), {})
  {
    if cs != [] {
      ScriptOk(cs[0]);
      ProgramOk(cs[1..]);
      Chain({}, Script(cs[0]), {}, Program(cs[1..]), {});
    }
  }

  // ---------- Processes ----------

  /** A process: the locks it holds and the actions left to it. */
  datatype Process = Process(held: set<Lock>, todo: seq<Act>)

  type System = seq<Process>

  /** No two processes hold one lock. */
  ghost predicate Exclusive(s: System) {
    forall i, j, l :: 0 <= i < j < |s| && l in s[i].held ==> l !in s[j].held
  }

  ghost predicate Inv(s: System) {
    && Exclusive(s)
    && forall i :: 0 <= i < |s| ==> Disciplined(s[i].held, s[i].todo, {})
  }

  /** Process `i` needs lock `l` next. */
  predicate Wants(s: System, i: nat, l: Lock) {
    i < |s| && s[i].todo != [] && s[i].todo[0] == Acquire(l)
  }

  /** `i` waits for `j`: an edge of the wait-for graph. */
  ghost predicate WaitsFor(s: System, i: nat, j: nat) {
    i < |s| && j < |s| && exists l :: Wants(s, i, l) && l in s[j].held
  }

  /** A process takes its next action: a release at once, an acquisition when nobody holds the lock. */
  ghost predicate Next(s: System, t: System, i: nat) {
    && i < |s| && |t| == |s| && s[i].todo != []
    && t == s[i := t[i]] && t[i].todo == s[i].todo[1..]
    && match s[i].todo[0]
       case Acquire(l) => (forall j :: 0 <= j < |s| ==> l !in s[j].held) && t[i].held == s[i].held + {l}
       case Use(_) => t[i].held == s[i].held
       case Release(l) => l in s[i].held && t[i].held == s[i].held - {l}
  }

  /** A run: the processes that moved, and the states they passed through. */
  ghost predicate IsRun(states: seq<System>, moves: seq<nat>) {
    && |states| == |moves| + 1
    && forall k :: 0 <= k < |moves| ==> Next(states[k], states[k + 1], moves[k])
  }

  lemma NextInv(s: System, t: System, i: nat)
    requires Inv(s) && Next(s, t, i)
    ensures Inv(t)
  {
  }

  lemma {:induction false} RunInv(states: seq<System>, moves: seq<nat>)
    requires IsRun(states, moves) && Inv(states[0])
    ensures Inv(states[|moves|])
    decreases |moves|
  {
    if moves != [] {
      var n := |moves| - 1;
      assert forall k :: 0 <= k < n ==> Next(states[k], states[k + 1], moves[..n][k]);
      RunInv(states[..n + 1], moves[..n]);
      assert Next(states[n], states[n + 1], moves[n]);
      hide Inv;
      NextInv(states[n], states[n + 1], moves[n]);
    }
  }

  /** Every machine starts with processes that hold nothing and have calls to make. */
  lemma StartInv(s: System, calls: seq<seq<Call>>)
    requires |calls| == |s| && forall i :: 0 <= i < |s| ==> s[i] == Process({}, Program(calls[i]))
    ensures Inv(s)
  {
    hide Program, Disciplined;
    forall i | 0 <= i < |s| ensures Disciplined(s[i].held, s[i].todo, {}) {
      ProgramOk(calls[i]);
    }
  }

  // ---------- One at a time ----------

  /** Process `i` is about to work on what `l` protects. */
  predicate Uses(s: System, i: nat, l: Lock) {
    i < |s| && s[i].todo != [] && s[i].todo[0] == Use(l)
  }

  /** Whatever the calls and the interleaving, no two processes are at work on one table at once. */
  lemma OneAtATime(calls: seq<seq<Call>>, states: seq<System>, moves: seq<nat>, i: nat, j: nat, l: Lock)
    requires IsRun(states, moves) && |calls| == |states[0]|
    requires forall p :: 0 <= p < |calls| ==> states[0][p] == Process({}, Program(calls[p]))
    requires Uses(states[|moves|], i, l) && Uses(states[|moves|], j, l)
    ensures i == j
  {
    hide Program, Inv, Next;
    StartInv(states[0], calls);
    RunInv(states, moves);
    UserHolds(states[|moves|], i, l);
    UserHolds(states[|moves|], j, l);
    HeldOnce(states[|moves|], i, j, l);
  }

  lemma UserHolds(s: System, i: nat, l: Lock)
    requires Inv(s) && Uses(s, i, l)
    ensures l in s[i].held
  {
    assert Disciplined(s[i].held, s[i].todo, {});
  }

  lemma HeldOnce(s: System, i: nat, j: nat, l: Lock)
    requires Inv(s) && i < |s| && j < |s| && l in s[i].held && l in s[j].held
    ensures i == j
  {
  }

  /** What a call reads or changes. */
  function Needs(c: Call): set<Lock> {
    match c
    case SbRead(b) => {Mounts, Buffers, Buffer(b)}
    case Iget(miss, flush, w, b) => {ICache} + if miss then {Buffers, Buffer(b)} + (if flush then {Buffer(w)} else {}) else {}
    case Iput(i, dirty, b) => {Inode(i)} + if dirty then {Buffers, Buffer(b)} else {}
    case Ifree(i, b, maps) => {Inode(i), Buffers, Buffer(b)} + set m | m in maps :: Buffer(m)
    case Ialloc(maps, miss, flush, w, b, back) =>
      (set m | m in maps :: Buffer(m)) + {ICache}
      + (if miss then {Buffers, Buffer(b)} + (if flush then {Buffer(w)} else {}) else {})
      + set m | m in back :: Buffer(m)
    case Balloc(maps) => (set m | m in maps :: Buffer(m)) + {Buffers}
    case Bfree(b) => {Buffers, Buffer(b)}
    case Lookup(blocks) => set m | m in blocks :: Buffer(m)
    case Fget(held, i, dirty, b) => {OpenFiles} + if held then {Inode(i)} else {}
    case Fdget => {ProcTable}
    case SetSlot(p) => {Proc(p)}
    case Close(last, i, dirty, b) => {OpenFiles} + if last then {Inode(i)} else {}
    case Transfer(p, blocks) => {Proc(p)} + set m | m in blocks :: Buffer(m)
  }

  lemma WithinUses(l: Lock, body: seq<Act>)
    ensures Use(l) in Within(l, body) && forall a :: a in body ==> a in Within(l, body)
  {
    var w := Within(l, body);
    assert w[1] == Use(l) && forall k :: 0 <= k < |body| ==> w[k + 2] == body[k];
  }

  lemma VisitUses(b: nat)
    ensures Use(Buffers) in Visit(b) && Use(Buffer(b)) in Visit(b)
    ensures Use(Buffers) in WriteBack(b) && Use(Buffer(b)) in WriteBack(b)
  {
    hide Within;
    WithinUses(Buffers, []);
    WithinUses(Buffer(b), []);
  }

  lemma {:induction false} VisitsUse(bs: seq<nat>)
    ensures forall b :: b in bs ==> Use(Buffer(b)) in Visits(bs)
  {
    hide Visit;
    if bs != [] {
      VisitUses(bs[0]);
      VisitsUse(bs[1..]);
      assert forall b :: b in bs ==> b == bs[0] || b in bs[1..];
    }
  }

  lemma GetUses(miss: bool, flush: bool, w: nat, b: nat)
    ensures Use(ICache) in GetInode(miss, flush, w, b)
    ensures miss ==> Use(Buffers) in GetInode(miss, flush, w, b) && Use(Buffer(b)) in GetInode(miss, flush, w, b)
    ensures miss && flush ==> Use(Buffer(w)) in GetInode(miss, flush, w, b)
  {
    hide Within, Visit, WriteBack;
    VisitUses(b);
    VisitUses(w);
    WithinUses(ICache, if miss then (if flush then WriteBack(w) else []) + Visit(b) else []);
  }

  lemma PutUses(i: nat, dirty: bool, b: nat)
    ensures Use(Inode(i)) in PutInode(i, dirty, b)
    ensures dirty ==> Use(Buffers) in PutInode(i, dirty, b) && Use(Buffer(b)) in PutInode(i, dirty, b)
  {
    hide Within, WriteBack;
    VisitUses(b);
    WithinUses(Inode(i), if dirty then WriteBack(b) else []);
  }

  /** Each call does its work: on every table it reads or changes, and by `ScriptOk` under the lock of that table. */
  lemma ScriptWorks(c: Call, l: Lock)
    requires l in Needs(c)
    ensures Use(l) in Script(c)
  {
    hide Within, Visit, Visits, WriteBack, GetInode, PutInode;
    match c
    case SbRead(b) => VisitUses(b); WithinUses(Mounts, Visit(b));
    case Iget(miss, flush, w, b) => GetUses(miss, flush, w, b);
    case Iput(i, dirty, b) => PutUses(i, dirty, b);
    case Ifree(i, b, maps) => VisitUses(b); VisitsUse(maps); WithinUses(Inode(i), WriteBack(b) + Visits(maps));
    case Ialloc(maps, miss, flush, w, b, back) => VisitsUse(maps); VisitsUse(back); GetUses(miss, flush, w, b);
    case Balloc(maps) => VisitsUse(maps); WithinUses(Buffers, []);
    case Bfree(b) => VisitUses(b);
    case Lookup(blocks) => VisitsUse(blocks);
    case Fget(held, i, dirty, b) => PutUses(i, dirty, b); WithinUses(OpenFiles, if held then PutInode(i, dirty, b) else []);
    case Fdget => WithinUses(ProcTable, []);
    case SetSlot(p) => WithinUses(Proc(p), []);
    case Close(last, i, dirty, b) => PutUses(i, dirty, b); WithinUses(OpenFiles, if last then PutInode(i, dirty, b) else []);
    case Transfer(p, blocks) => VisitsUse(blocks); WithinUses(Proc(p), []);
  }

  // ---------- No deadlock ----------

  /** Along an edge of the wait-for graph the rank of the lock wanted goes up. */
  lemma WantHigher(s: System, i: nat, j: nat, l: Lock, m: Lock)
    requires Inv(s) && Wants(s, i, l) && j < |s| && l in s[j].held && Wants(s, j, m)
    ensures Rank(l) < Rank(m)
  {
  }

  /** A path in the wait-for graph. */
  ghost predicate IsPath(s: System, path: seq<nat>) {
    |path| > 0 && forall k :: 0 <= k < |path| - 1 ==> WaitsFor(s, path[k], path[k + 1])
  }

  lemma {:induction false} PathClimbs(s: System, path: seq<nat>, l: Lock, m: Lock)
    requires Inv(s) && IsPath(s, path) && |path| > 1
    requires Wants(s, path[0], l) && Wants(s, path[|path| - 1], m)
    ensures Rank(l) < Rank(m)
    decreases |path|
  {
    assert WaitsFor(s, path[0], path[1]);
    var k :| Wants(s, path[0], k) && k in s[path[1]].held;
    hide Inv;
    if |path| == 2 {
      WantHigher(s, path[0], path[1], l, m);
    } else {
      assert WaitsFor(s, path[1], path[2]);
      var n :| Wants(s, path[1], n) && n in s[path[2]].held;
      WantHigher(s, path[0], path[1], l, n);
      var rest := path[1..];
      forall j | 0 <= j < |rest| - 1 ensures WaitsFor(s, rest[j], rest[j + 1]) {
        assert WaitsFor(s, path[j + 1], path[j + 2]);
      }
      PathClimbs(s, rest, n, m);
    }
  }

  /** The wait-for graph has no cycle. */
  lemma NoCycle(s: System, path: seq<nat>)
    requires Inv(s) && IsPath(s, path) && |path| > 1
    ensures path[0] != path[|path| - 1]
  {
    assert WaitsFor(s, path[0], path[1]);
    var l :| Wants(s, path[0], l) && l in s[path[1]].held;
    hide Inv;
    if path[0] == path[|path| - 1] {
      PathClimbs(s, path, l, l);
    }
  }

  /** From a process with work left, following who waits for whom ends at one that can move. */
  lemma {:induction false} SomeoneMoves(s: System, i: nat) returns (j: nat, t: System)
    requires Inv(s) && i < |s| && s[i].todo != []
    ensures Next(s, t, j)
    decreases match s[i].todo[0] case Acquire(l) => 8 - Rank(l) case Use(_) => 0 case Release(_) => 0
  {
    assert Disciplined(s[i].held, s[i].todo, {});
    match s[i].todo[0]
    case Release(l) =>
      j := i;
      t := s[i := Process(s[i].held - {l}, s[i].todo[1..])];
    case Use(_) =>
      j := i;
      t := s[i := Process(s[i].held, s[i].todo[1..])];
    case Acquire(l) =>
      if h :| 0 <= h < |s| && l in s[h].held {
        assert Disciplined(s[h].held, s[h].todo, {});
        assert s[h].todo != [];
        if s[h].todo[0].Acquire? {
          WantHigher(s, i, h, l, s[h].todo[0].l);
        }
        j, t := SomeoneMoves(s, h);
      } else {
        j := i;
        t := s[i := Process(s[i].held + {l}, s[i].todo[1..])];
      }
  }

  /** Whatever calls the processes make and however they are interleaved, a state with work left is not stuck. */
  lemma NoDeadlock(calls: seq<seq<Call>>, states: seq<System>, moves: seq<nat>, i: nat) returns (j: nat, t: System)
    requires IsRun(states, moves)
    requires |calls| == |states[0]|
    requires forall p :: 0 <= p < |calls| ==> states[0][p] == Process({}, Program(calls[p]))
    requires i < |states[|moves|]| && states[|moves|][i].todo != []
    ensures Next(states[|moves|], t, j)
  {
    hide Program, Inv, Next;
    StartInv(states[0], calls);
    RunInv(states, moves);
    j, t := SomeoneMoves(states[|moves|], i);
  }

  /** When a process has nothing left to do it holds nothing. */
  lemma DoneHoldsNothing(s: System, i: nat)
    requires Inv(s) && i < |s| && s[i].todo == []
    ensures s[i].held == {}
  {
  }

  /** Runs are finite: each step uses up one action. */
  function Work(s: System): nat {
    if s == [] then 0 else |s[0].todo| + Work(s[1..])
  }

  lemma {:induction false} WorkFalls(s: System, t: System, i: nat)
    requires Next(s, t, i)
    ensures Work(t) == Work(s) - 1
    decreases |s|
  {
    if i == 0 {
      assert t[1..] == s[1..];
    } else {
      assert t[0] == s[0];
      assert Next(s[1..], t[1..], i - 1) by {
        assert t[1..] == s[1..][i - 1 := t[1..][i - 1]];
        assert forall j :: 0 <= j < |s| - 1 ==> s[1..][j] == s[j + 1];
      }
      WorkFalls(s[1..], t[1..], i - 1);
    }
  }

  lemma {:induction false} RunsEnd(states: seq<System>, moves: seq<nat>)
    requires IsRun(states, moves)
    ensures Work(states[0]) == Work(states[|moves|]) + |moves|
    decreases |moves|
  {
    if moves != [] {
      var n := |moves| - 1;
      assert forall k :: 0 <= k < n ==> Next(states[k], states[k + 1], moves[..n][k]);
      RunsEnd(states[..n + 1], moves[..n]);
      WorkFalls(states[n], states[n + 1], moves[n]);
    }
  }
}
