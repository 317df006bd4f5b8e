/**
 * Transparency of the buffer cache: over every run, a machine that caches and one that does not
 * give the same answers, hold the same blocks and agree on who uses what.
 */
module CacheRuns {
  import opened Blocks
  import opened CacheSpec

  /** One call on the cache. After `Open`, block `a` is named by the handle that was returned. */
  datatype Op =
    | Open(a: Addr)                     // bread
    | Zero(a: Addr)                     // bget, and the block zeroed: how a new block is opened
    | Put(a: Addr, i: nat, v: byte)     // a store into b_data, marked dirty
    | Sync(a: Addr)                     // bwrite
    | Close(a: Addr)                    // brelease

  // ---------- The machine with a cache ----------

  function Handle(c: Cache, a: Addr): nat {
    FindTag(c.bufs, a, 0)
  }

  function UsersOf(c: Cache, a: Addr): nat {
    if Handle(c, a) < |c.bufs| then c.bufs[Handle(c, a)].count else 0
  }

  predicate DirtyAt(c: Cache, a: Addr) {
    Handle(c, a) < |c.bufs| && c.bufs[Handle(c, a)].dirty
  }

  /** One step and the block it shows to the caller, if any; `None` is a panic. */
  function Step(c: Cache, op: Op): Option<(Cache, Option<Block>)> {
    match op
    case Open(a) =>
      if a !in c.disk then None else
      (match Bread(c, a)
       case None => None
       case Some((d, h)) => Some((d, Some(d.bufs[h].data))))
    case Zero(a) =>
      if a !in c.disk then None else
      (match Bzero(c, a)
       case None => None
       case Some((d, h)) => Some((d, Some(d.bufs[h].data))))
    case Put(a, i, v) =>
      if Live(c, Handle(c, a)) && i < BLK_SZ then Some((Store(c, Handle(c, a), i, v), None)) else None
    case Sync(a) =>
      if Live(c, Handle(c, a)) then Some((Bwrite(c, Handle(c, a)), None)) else None
    case Close(a) =>
      if Live(c, Handle(c, a)) then Some((Brelease(c, Handle(c, a)), None)) else None
  }

  function Run(c: Cache, ops: seq<Op>): Option<(Cache, seq<Option<Block>>)>
    decreases |ops|
  {
    if ops == [] then Some((c, []))
    else
      match Step(c, ops[0])
      case None => None
      case Some((d, out)) =>
        match Run(d, ops[1..])
        case None => None
        case Some((e, outs)) => Some((e, [out] + outs))
  }

  // ---------- The machine without one ----------

  /** A plain disk, the uses outstanding on each block, and the blocks written since their last `Sync`. */
  datatype Flat = Flat(disk: Disk, users: multiset<Addr>, dirty: set<Addr>)

  predicate Legal(f: Flat, op: Op) {
    match op
    case Open(a) => a in f.disk
    case Zero(a) => a in f.disk
    case Put(a, i, v) => a in f.disk && f.users[a] > 0 && i < BLK_SZ
    case Sync(a) => f.users[a] > 0
    case Close(a) => f.users[a] > 0
  }

  function FlatStep(f: Flat, op: Op): (Flat, Option<Block>)
    requires Legal(f, op)
  {
    match op
    case Open(a) =>
      (Flat(f.disk, f.users + multiset{a}, if f.users[a] == 0 then f.dirty - {a} else f.dirty), Some(f.disk[a]))
    case Zero(a) =>
      (Flat(f.disk[a := ZeroBlock()], f.users + multiset{a}, f.dirty + {a}), Some(ZeroBlock()))
    case Put(a, i, v) =>
      (Flat(f.disk[a := f.disk[a][i := v]], f.users, f.dirty + {a}), None)
    case Sync(a) =>
      (if a in f.dirty then Flat(f.disk, f.users - multiset{a}, f.dirty - {a}) else f, None)
    case Close(a) =>
      (f.(users := f.users - multiset{a}), None)
  }

  function FlatRun(f: Flat, ops: seq<Op>): Option<(Flat, seq<Option<Block>>)>
    decreases |ops|
  {
    if ops == [] then Some((f, []))
    else if !Legal(f, ops[0]) then None
    else
      var (g, out) := FlatStep(f, ops[0]);
      match FlatRun(g, ops[1..])
      case None => None
      case Some((e, outs)) => Some((e, [out] + outs))
  }

  // ---------- Refinement ----------

  ghost predicate Agree(c: Cache, f: Flat, a: Addr) {
    && UsersOf(c, a) == f.users[a]
    && (f.users[a] > 0 ==> (DirtyAt(c, a) <==> a in f.dirty))
  }

  ghost predicate Rel(c: Cache, f: Flat) {
    && Inv(c)
    && View(c) == f.disk
    && (forall a :: a in c.disk ==> Agree(c, f, a))
    && (forall a :: a in f.users ==> a in c.disk)
  }

  lemma HandleOf(c: Cache, h: nat)
    requires Tags(c) && h < |c.bufs| && c.bufs[h].addr != NO_ADDR
    ensures Handle(c, c.bufs[h].addr) == h
    ensures UsersOf(c, c.bufs[h].addr) == c.bufs[h].count && DirtyAt(c, c.bufs[h].addr) == c.bufs[h].dirty
  {
  }

  /** A block whose tag neither enters nor leaves buffer `h` keeps its users and its dirty mark. */
  lemma Elsewhere(c: Cache, d: Cache, h: nat, x: Addr)
    requires Tags(c) && Tags(d) && Touches(c, d, h) && x in c.disk
    requires x != c.bufs[h].addr && x != d.bufs[h].addr
    ensures UsersOf(c, x) == UsersOf(d, x) && DirtyAt(c, x) == DirtyAt(d, x)
  {
    var i := Handle(c, x);
    if i < |c.bufs| {
      assert d.bufs[i] == c.bufs[i];
      HandleOf(d, i);
    } else {
      assert forall j :: 0 <= j < |d.bufs| ==> d.bufs[j].addr != x;
    }
  }

  lemma {:induction false} Recycled(c: Cache, d: Cache, h: nat)
    requires Tags(c) && Tags(d) && Touches(c, d, h)
    requires c.bufs[h].addr != NO_ADDR && d.bufs[h].addr != c.bufs[h].addr
    ensures UsersOf(d, c.bufs[h].addr) == 0
  {
  }

  /** Opening a block counts from the users it had. */
  lemma OpenUsers(c: Cache, d: Cache, h: nat, a: Addr)
    requires Tags(c) && Tags(d) && Touches(c, d, h) && a in c.disk && d.bufs[h].addr == a
    requires c.bufs[h].addr == a || c.bufs[h].count == 0
    ensures UsersOf(c, a) == c.bufs[h].count
    ensures c.bufs[h].count > 0 ==> DirtyAt(c, a) == c.bufs[h].dirty
  {
  }

  /** At the block operated on: its new count and mark are buffer `h`'s. */
  lemma AgreeHere(c: Cache, d: Cache, g: Flat, h: nat, a: Addr)
    requires Tags(c) && Tags(d) && Touches(c, d, h) && a in c.disk
    requires d.bufs[h].addr == a || (d.bufs[h].addr == NO_ADDR && c.bufs[h].addr == a)
    requires d.bufs[h].count == g.users[a]
    requires g.users[a] > 0 ==> (d.bufs[h].dirty <==> a in g.dirty)
    ensures Agree(d, g, a)
  {
  }

  /** At any other block: untouched, or a tag nobody used that was recycled. */
  lemma AgreeThere(c: Cache, f: Flat, d: Cache, g: Flat, h: nat, a: Addr, x: Addr)
    requires Tags(c) && Tags(d) && Touches(c, d, h) && x in c.disk && x != a && Agree(c, f, x)
    requires g.users[x] == f.users[x] && (x in g.dirty <==> x in f.dirty)
    requires d.bufs[h].addr == a || (d.bufs[h].addr == NO_ADDR && c.bufs[h].addr == a)
    requires c.bufs[h].addr == a || c.bufs[h].count == 0
    ensures Agree(d, g, x)
  {
    assert x != NO_ADDR;
    hide Tags, FindTag, Handle, UsersOf, DirtyAt;
    if x == c.bufs[h].addr {
      HandleOf(c, h);
      Recycled(c, d, h);
    } else {
      Elsewhere(c, d, h, x);
    }
  }

  /** All that changes when buffer `h`, before or after, carries `a`. */
  lemma RelStep(c: Cache, f: Flat, d: Cache, g: Flat, h: nat, a: Addr)
    requires Rel(c, f) && Inv(d) && Touches(c, d, h) && View(d) == g.disk && a in c.disk
    requires forall x :: x != a ==> g.users[x] == f.users[x] && (x in g.dirty <==> x in f.dirty)
    requires d.bufs[h].addr == a || (d.bufs[h].addr == NO_ADDR && c.bufs[h].addr == a)
    requires c.bufs[h].addr == a || c.bufs[h].count == 0
    requires d.bufs[h].count == g.users[a]
    requires g.users[a] > 0 ==> (d.bufs[h].dirty <==> a in g.dirty)
    ensures Rel(d, g)
  {
    assert Tags(c) && Tags(d);
    hide Tags, CleanBut, Inv, View, Agree;
    AgreeHere(c, d, g, h, a);
    forall x | x in c.disk && x != a ensures Agree(d, g, x) {
      AgreeThere(c, f, d, g, h, a, x);
    }
    forall x | x in g.users ensures x in d.disk {
      assert x != a ==> x in f.users;
    }
  }

  /** What a step of the plain machine does to its books. */
  lemma FlatBooks(f: Flat, op: Op)
    requires Legal(f, op)
    ensures var (g, out) := FlatStep(f, op);
      && (forall x :: x != op.a ==> g.users[x] == f.users[x] && (x in g.dirty <==> x in f.dirty))
      && g.users[op.a] == f.users[op.a] + (if op.Open? || op.Zero? then 1
                                           else if op.Close? || (op.Sync? && op.a in f.dirty) then -1 else 0)
      && (op.a in g.dirty <==> op.Put? || op.Zero? || (op.a in f.dirty && !op.Sync? && !(op.Open? && f.users[op.a] == 0)))
      && g.disk == (if op.Put? then f.disk[op.a := f.disk[op.a][op.i := op.v]]
                    else if op.Zero? then f.disk[op.a := ZeroBlock()] else f.disk)
  {
  }

  lemma RelAt(c: Cache, f: Flat, a: Addr)
    requires Rel(c, f) && a in c.disk
    ensures Inv(c) && Tags(c) && View(c) == f.disk && a in f.disk && Agree(c, f, a)
  {
  }

  lemma OpenRefines(c: Cache, f: Flat, a: Addr)
    requires Rel(c, f) && a in c.disk && Bread(c, a).Some?
    ensures Legal(f, Open(a))
    ensures var (d, h) := Bread(c, a).value;
      Rel(d, FlatStep(f, Open(a)).0) && d.bufs[h].data == f.disk[a]
  {
    hide Bread, Tags, FindTag, CleanBut, Handle, View, UsersOf, DirtyAt, FlatStep, Rel;
    RelAt(c, f, a);
    BreadEffect(c, a);
    var (d, h) := Bread(c, a).value;
    FlatBooks(f, Open(a));
    OpenUsers(c, d, h, a);
    RelStep(c, f, d, FlatStep(f, Open(a)).0, h, a);
  }

  lemma ZeroRefines(c: Cache, f: Flat, a: Addr)
    requires Rel(c, f) && a in c.disk && Bzero(c, a).Some?
    ensures Legal(f, Zero(a))
    ensures var (d, h) := Bzero(c, a).value;
      Rel(d, FlatStep(f, Zero(a)).0) && d.bufs[h].data == ZeroBlock()
  {
    hide Bzero, Tags, FindTag, CleanBut, Handle, View, UsersOf, DirtyAt, FlatStep, Rel, ZeroBlock;
    RelAt(c, f, a);
    BzeroFill(c, a);
    BgetInv(c, a);
    BzeroEffect(c, a);
    var (d, h) := Bzero(c, a).value;
    FlatBooks(f, Zero(a));
    OpenUsers(c, d, h, a);
    RelStep(c, f, d, FlatStep(f, Zero(a)).0, h, a);
  }

  lemma LiveUsers(c: Cache, f: Flat, a: Addr)
    requires Rel(c, f) && Live(c, Handle(c, a))
    ensures a in c.disk && c.bufs[Handle(c, a)].addr == a
    ensures f.users[a] == c.bufs[Handle(c, a)].count
    ensures c.bufs[Handle(c, a)].dirty <==> a in f.dirty
  {
  }

  lemma HandleRefines(c: Cache, f: Flat, op: Op)
    requires Rel(c, f) && !op.Open? && !op.Zero? && Step(c, op).Some?
    ensures Legal(f, op)
    ensures var (d, out) := Step(c, op).value; var (g, out') := FlatStep(f, op); Rel(d, g) && out == out'
  {
    var h := Handle(c, op.a);
    var (d, out) := Step(c, op).value;
    LiveUsers(c, f, op.a);
    assert Inv(c) && View(c) == f.disk;
    hide Rel, Inv, View, FindTag, Handle, FlatStep;
    FlatBooks(f, op);
    match op {
      case Put(a, i, v) => StoreEffect(c, h, i, v);
      case Sync(a) => BwriteEffect(c, h); SyncTag(c, h);
      case Close(a) => BreleaseEffect(c, h);
    }
    RelStep(c, f, d, FlatStep(f, op).0, h, op.a);
  }

  /** A step that does not panic is legal on the plain machine, shows the same block, and keeps the machines agreed. */
  lemma StepRefines(c: Cache, f: Flat, op: Op)
    requires Rel(c, f) && Step(c, op).Some?
    ensures Legal(f, op)
    ensures var (d, out) := Step(c, op).value; var (g, out') := FlatStep(f, op); Rel(d, g) && out == out'
  {
    hide Rel;
    if op.Open? {
      OpenRefines(c, f, op.a);
    } else if op.Zero? {
      ZeroRefines(c, f, op.a);
    } else {
      HandleRefines(c, f, op);
    }
  }

  lemma SyncTag(c: Cache, h: nat)
    requires Live(c, h)
    ensures var d := Bwrite(c, h);
      d.bufs[h].addr == c.bufs[h].addr || (d.bufs[h].addr == NO_ADDR && d.bufs[h].count == 0)
  {
  }

  /**
   * Every run of the cached machine that does not panic is, answer for answer, the run of the
   * uncached one, and ends in states that agree.
   */
  lemma {:induction false} Transparent(c: Cache, f: Flat, ops: seq<Op>)
    requires Rel(c, f) && Run(c, ops).Some?
    ensures FlatRun(f, ops).Some?
    ensures var (d, outs) := Run(c, ops).value; var (g, outs') := FlatRun(f, ops).value;
      Rel(d, g) && outs == outs'
    decreases |ops|
  {
    if ops != [] {
      StepRefines(c, f, ops[0]);
      hide Rel, Step, FlatStep, Legal;
      var (d, _) := Step(c, ops[0]).value;
      Transparent(d, FlatStep(f, ops[0]).0, ops[1..]);
    }
  }

  // ---------- What a last bwrite leaves ----------

  predicate Opens(op: Op, a: Addr) {
    (op.Open? || op.Zero?) && op.a == a
  }

  /** A block that is in no buffer stays out of them until it is opened. */
  lemma StaysOut(c: Cache, op: Op, a: Addr)
    requires Inv(c) && a in c.disk && !Cached(c, a) && !Opens(op, a) && Step(c, op).Some?
    ensures var d := Step(c, op).value.0; Inv(d) && a in d.disk && !Cached(d, a)
  {
    hide View, Tags, CleanBut, Bread, Bzero, Bwrite, Brelease, Store, Inv;
    NoAddr(c);
    if op.Open? {
      BreadEffect(c, op.a);
    } else if op.Zero? {
      BzeroEffect(c, op.a);
    } else {
      var h := Handle(c, op.a);
      match op {
        case Put(_, i, v) => StoreEffect(c, h, i, v);
        case Sync(_) => BwriteEffect(c, h);
        case Close(_) => BreleaseEffect(c, h);
      }
    }
  }

  lemma NoAddr(c: Cache)
    requires Inv(c)
    ensures NO_ADDR !in c.disk
  {
  }

  lemma {:induction false} StaysOutLong(c: Cache, ops: seq<Op>, a: Addr)
    requires Inv(c) && a in c.disk && !Cached(c, a) && Run(c, ops).Some?
    requires forall k :: 0 <= k < |ops| ==> !Opens(ops[k], a)
    ensures !Cached(Run(c, ops).value.0, a)
    decreases |ops|
  {
    hide Step, Inv, Cached, Opens;
    if ops != [] {
      StaysOut(c, ops[0], a);
      StaysOutLong(Step(c, ops[0]).value.0, ops[1..], a);
    }
  }

  /** After a bwrite that took the last use of a block, no buffer carries the block until it is opened again. */
  lemma SyncLeavesNothing(c: Cache, f: Flat, a: Addr, ops: seq<Op>)
    requires Rel(c, f) && f.users[a] == 1 && a in f.dirty && Run(c, [Sync(a)] + ops).Some?
    requires forall k :: 0 <= k < |ops| ==> !Opens(ops[k], a)
    ensures !Cached(Run(c, [Sync(a)] + ops).value.0, a)
  {
    hide View, Tags, CleanBut, Inv, Rel, Bwrite, Cached, Handle, Blank;
    assert ([Sync(a)] + ops)[0] == Sync(a) && ([Sync(a)] + ops)[1..] == ops;
    LiveUsers(c, f, a);
    RelAt(c, f, a);
    BwriteEffect(c, Handle(c, a));
    StaysOutLong(Bwrite(c, Handle(c, a)), ops, a);
  }

  /** The run of a freshly booted table. */
  lemma BootAgrees(c: Cache)
    requires Inv(c) && forall i :: 0 <= i < |c.bufs| ==> c.bufs[i].count == 0
    ensures Rel(c, Flat(View(c), multiset{}, {}))
  {
  }
}
