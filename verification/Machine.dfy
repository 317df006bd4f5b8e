/**
 * The file system as its callers see it: files that are byte sequences, descriptors that lead to a place in a file,
 * and what each call answers and changes. No blocks, buffers, counts or locks.
 */
module Machine {
  import Bitmap
  import opened Blocks
  import opened DiskInodes
  import opened Volume
  import opened FsState
  import opened Files
  import opened FileSteps
  import opened FileSys
  import opened Descriptors
  import opened Paths

  datatype Call =
    | OpenCall(pid: nat, path: seq<byte>, cwd: nat, flags: nat)
    | CloseCall(pid: nat, fd: int)
    | WriteCall(pid: nat, fd: int, buf: seq<byte>)
    | ReadCall(pid: nat, fd: int, buffsize: nat)
    | SeekCall(pid: nat, fd: int, offset: int, whence: Whence)
    | NameCall(path: seq<byte>, cwd: nat)
    | PutCall(i: nat)
    | AllocCall(dev: nat)
    | FreeCall(i: nat)

  datatype Answer =
    | Refused
    | Done
    | Fd(fd: nat)
    | Count(n: nat)
    | Bytes(bs: seq<byte>)
    | Offset(off: nat)
    | Entry(i: nat)

  /**
   * Files and free space, descriptors, open files; the inode that each entry of the inode cache names, and how many
   * uses of each inode there are; the size of the open-file table.
   */
  datatype System = System(s: State, filp: map<Desc, nat>, open: map<nat, Cursor>,
                           core: seq<InoId>, uses: imap<InoId, nat>, nfiles: nat)

  /** `(i_mode & IFMT) == IFREG` (kernel/include/fs.h:9-10): the four type bits are 1000. */
  predicate IsRegular(d: DInode) {
    d.mode / 0x1000 % 16 == 8
  }

  /** The same for IFDIR: 0100. */
  predicate IsDirectory(d: DInode) {
    d.mode / 0x1000 % 16 == 4
  }

  lemma TypeNibble(m: bv16)
    ensures (m as nat) / 0x1000 == 8 <==> m & 0xf000 == 0x8000
    ensures (m as nat) / 0x1000 == 4 <==> m & 0xf000 == 0x4000
  {
  }

  /** `(i_mode & IFMT) == IFREG` and `== IFDIR` on the low sixteen bits of the mode; IFMT is 0170000. */
  lemma TypeBits(d: DInode, m: bv16, above: nat)
    requires d.mode == m as nat + 0x1_0000 * above
    ensures IsRegular(d) <==> m & 0xf000 == 0x8000
    ensures IsDirectory(d) <==> m & 0xf000 == 0x4000
  {
    TypeNibble(m);
    Sixteen(d.mode, m as nat, above);
  }

  lemma Sixteen(n: nat, low: nat, above: nat)
    requires low < 0x1_0000 && n == low + 0x1_0000 * above
    ensures n / 0x1000 % 16 == low / 0x1000
  {
    assert n / 0x1000 == low / 0x1000 + 16 * above;
  }

  lemma TypeOfByte(b: byte)
    ensures (b as nat) / 16 == 8 <==> b & 0xf0 == 0x80
    ensures (b as nat) / 16 == 4 <==> b & 0xf0 == 0x40
  {
  }

  /** The same on the disk: the upper half of the second byte of the inode. */
  lemma TypeByte(s: seq<byte>)
    requires |s| == DINODE_SZ
    ensures IsRegular(Decode(s)) <==> s[1] & 0xf0 == 0x80
    ensures IsDirectory(Decode(s)) <==> s[1] & 0xf0 == 0x40
  {
    hide Decode, Number;
    Layout(s);
    LittleEnd(s[0..4]);
    TypeOfByte(s[1]);
    var low, above := s[0] as nat + 0x100 * s[1] as nat, s[2] as nat + 0x100 * s[3] as nat;
    Sixteen(Decode(s).mode, low, above);
    assert low / 0x1000 == s[1] as nat / 16;
  }

  lemma NotBoth(d: DInode)
    ensures !(IsRegular(d) && IsDirectory(d))
  {
  }

  /** The open file a descriptor leads to. */
  function At(m: System, pid: nat, fd: int): Option<nat> {
    if 0 <= fd && Desc(pid, fd) in m.filp && m.filp[Desc(pid, fd)] in m.open then Some(m.filp[Desc(pid, fd)]) else None
  }

  function Moved(m: System, f: nat, off: nat): System
    requires f in m.open
  {
    m.(open := m.open[f := m.open[f].(off := off)])
  }

  ghost predicate Wrote1(sbs: Supers, m: System, f: nat, buf: seq<byte>, a: Answer, n: System)
    requires f in m.open
  {
    var c := m.open[f];
    && a.Count? && a.n <= |buf| && c.id in m.s.ino && c.id.dev < |m.s.free|
    && AsMuchAsFits(m.s, c.id, c.off, |buf|, a.n)
    && Wrote(sbs, m.s, n.s, c.id, c.off, buf[..a.n])
    && n == Moved(m, f, c.off + a.n).(s := n.s)
  }

  ghost predicate Read1(m: System, f: nat, buffsize: nat, a: Answer, n: System)
    requires f in m.open
  {
    var c := m.open[f];
    && c.id in m.s.ino && |m.s.ino[c.id].addr| == NADDR
    && var content := Content(m.s, c.id);
       && c.off <= |content|
       && var k := if c.off + buffsize <= |content| then buffsize else |content| - c.off;
          a == Bytes(content[c.off..c.off + k]) && n == Moved(m, f, c.off + k)
  }

  ghost predicate Sought1(m: System, f: nat, offset: int, whence: Whence, a: Answer, n: System)
    requires f in m.open
  {
    var c := m.open[f];
    var off := SeekTo(c.off, offset, whence);
    && c.id in m.s.ino
    && if 0 < off < m.s.ino[c.id].size then a == Offset(off) && n == Moved(m, f, off) else a == Refused && n == m
  }

  /** Nobody has the file open. */
  ghost predicate Unopened(open: map<nat, Cursor>, id: InoId) {
    forall g :: g in open ==> open[g].id != id
  }

  // ---------- Room ----------

  function UsesOf(m: System, id: InoId): nat {
    if id in m.uses then m.uses[id] else 0
  }

  /** Every entry of the inode cache holds an inode somebody uses. */
  ghost predicate AllUsed(m: System) {
    forall i :: 0 <= i < |m.core| ==> m.core[i].num != 0 && UsesOf(m, m.core[i]) > 0
  }

  /** The inodes there is no room to use once more: the count is full, or the inode has no entry and can get none. */
  ghost function FullIn(m: System): iset<InoId> {
    iset id: InoId | id.num != 0 && (UsesOf(m, id) == MAX_COUNT || (UsesOf(m, id) == 0 && AllUsed(m)))
  }

  /** An entry in use keeps its inode. */
  ghost predicate CoreKept(m: System, n: System) {
    && |n.core| == |m.core|
    && (forall i :: 0 <= i < |m.core| && m.core[i].num != 0 && UsesOf(m, m.core[i]) > 0 ==> n.core[i] == m.core[i])
  }

  /** One more descriptor can lead to the file. */
  ghost predicate FileRoom(open: map<nat, Cursor>, filp: map<Desc, nat>, nfiles: nat, id: InoId) {
    if Unopened(open, id) then exists f :: 0 <= f < nfiles && f !in open
    else exists g :: g in open && open[g].id == id && |Users(filp, g)| < MAX_COUNT
  }

  predicate InCore(m: System, i: nat) {
    i < |m.core| && m.core[i].num != 0
  }

  // ---------- What the calls do ----------

  /** The directory a path starts from: the root's entry, or the caller's working directory. */
  function Start(m: System, path: seq<byte>, cwd: nat): InoId
    requires InCore(m, 0) && InCore(m, cwd)
  {
    if path != [] && path[0] == SLASH then m.core[0] else m.core[cwd]
  }

  function Names(path: seq<byte>): seq<Name> {
    Components(if path != [] && path[0] == SLASH then path[1..] else path)
  }

  /** The path leads to an inode, and there is room for every inode on the way. */
  ghost predicate CanName(sbs: Supers, m: System, path: seq<byte>, cwd: nat) {
    && InCore(m, 0) && InCore(m, cwd)
    && CanWalk(sbs, m.s, FullIn(m), Start(m, path, cwd), Names(path))
    && Walk(sbs, m.s, Start(m, path, cwd), Names(path)).Some?
  }

  /** Entry `i` is the inode the path leads to, and the caller has one use of it. */
  ghost predicate Named1(sbs: Supers, m: System, path: seq<byte>, cwd: nat, i: nat, n: System)
    requires CanName(sbs, m, path, cwd)
  {
    var id := Walk(sbs, m.s, Start(m, path, cwd), Names(path)).value;
    && i < |n.core| && n.core[i] == id && id.num != 0
    && n == m.(core := n.core, uses := m.uses[id := UsesOf(m, id) + 1]) && CoreKept(m, n)
  }

  /** A use of the entry's inode can be given up: the one an open file may hold stays. */
  ghost predicate Held(m: System, i: nat) {
    InCore(m, i) && UsesOf(m, m.core[i]) > if Unopened(m.open, m.core[i]) then 0 else 1
  }

  ghost predicate Put1(m: System, i: nat, n: System)
    requires Held(m, i)
  {
    n == m.(uses := m.uses[m.core[i] := (UsesOf(m, m.core[i]) - 1) as nat])
  }

  /** The call must succeed: the path leads to a regular file, and there is room for everything on the way. */
  ghost predicate CanOpen(sbs: Supers, m: System, pid: nat, path: seq<byte>, cwd: nat) {
    && CanName(sbs, m, path, cwd)
    && var to := Walk(sbs, m.s, Start(m, path, cwd), Names(path)).value;
       && to in m.s.ino && IsRegular(m.s.ino[to])
       && FileRoom(m.open, m.filp, m.nfiles, to) && !NoSlot(m.filp, pid)
  }

  /** Open file `f` now leads to the file: as before if somebody had it open, else from its start. */
  ghost predicate Joined(open: map<nat, Cursor>, id: InoId, f: nat, now: map<nat, Cursor>) {
    if Unopened(open, id) then f !in open && now == open[f := Cursor(id, 0)]
    else f in open && open[f].id == id && now == open
  }

  ghost predicate Opened1(sbs: Supers, m: System, pid: nat, path: seq<byte>, cwd: nat, fd: nat, n: System)
    requires CanOpen(sbs, m, pid, path, cwd)
  {
    var d, id := Desc(pid, fd), Walk(sbs, m.s, Start(m, path, cwd), Names(path)).value;
    && IsLowest(m.filp, pid, fd) && d in n.filp && n.filp == m.filp[d := n.filp[d]]
    && n.filp[d] < m.nfiles && Joined(m.open, id, n.filp[d], n.open)
    && n.uses == (if Unopened(m.open, id) then m.uses[id := UsesOf(m, id) + 1] else m.uses)
    && n.s == m.s && n.nfiles == m.nfiles && CoreKept(m, n)
  }

  ghost predicate Closed1(m: System, d: Desc, n: System)
    requires d in m.filp && m.filp[d] in m.open
  {
    var f, id := m.filp[d], m.open[m.filp[d]].id;
    && n.filp == m.filp - {d}
    && n.s == m.s && n.core == m.core && n.nfiles == m.nfiles
    && if Users(n.filp, f) == {} then
         UsesOf(m, id) > 0 && n.open == m.open - {f} && n.uses == m.uses[id := (UsesOf(m, id) - 1) as nat]
       else n.open == m.open && n.uses == m.uses
  }

  /** The entry holds an inode, no directory, that somebody uses and nobody has open. */
  ghost predicate CanFree(m: System, i: nat) {
    && InCore(m, i) && UsesOf(m, m.core[i]) > 0
    && m.core[i] in m.s.ino && !IsDirectory(m.s.ino[m.core[i]]) && Unopened(m.open, m.core[i])
  }

  ghost predicate Freed1(m: System, i: nat, n: System)
    requires CanFree(m, i)
  {
    var id := m.core[i];
    && |m.s.ino[id].addr| == NADDR && id.dev < |m.s.free| && id.dev < |m.s.freeIno|
    && n == m.(s := Unlinked(Emptied(m.s, id, NADDR), id), core := m.core[i := InoId(0, 0)], uses := m.uses[id := 0])
  }

  /** Entry `i` is the inode of the free number the scan chooses, taken now, and the caller has one use of it. */
  ghost predicate Numbered1(m: System, dev: nat, i: nat, n: System) {
    && dev < |m.s.freeIno| && i < |n.core|
    && var id := n.core[i];
       && id.dev == dev && id.num != 0 && Bitmap.IsFirst(m.s.freeIno[dev], id.num)
       && n == m.(s := m.s.(freeIno := m.s.freeIno[dev := m.s.freeIno[dev] - {id.num}]), core := n.core,
                  uses := m.uses[id := UsesOf(m, id) + 1])
       && CoreKept(m, n)
  }

  /** No number is free, or there is no room in core for the inode of the one the scan chooses. */
  ghost predicate NoNumber(m: System, dev: nat) {
    dev >= |m.s.freeIno| || m.s.freeIno[dev] == {}
    || exists num :: Bitmap.IsFirst(m.s.freeIno[dev], num) && InoId(dev, num) in FullIn(m)
  }

  /** The call changes nothing anyone can see; entries nobody used may hold other inodes. */
  ghost predicate Nothing(m: System, n: System) {
    n == m.(core := n.core) && CoreKept(m, n)
  }

  /** What a call answers, and the system it leaves. */
  ghost predicate Does(sbs: Supers, m: System, call: Call, a: Answer, n: System) {
    match call
    case OpenCall(pid, path, cwd, _) =>
      if CanOpen(sbs, m, pid, path, cwd) then a.Fd? && Opened1(sbs, m, pid, path, cwd, a.fd, n)
      else a == Refused && Nothing(m, n)
    case CloseCall(pid, fd) =>
      if At(m, pid, fd).Some? then a == Done && Closed1(m, Desc(pid, fd), n) else a == Refused && n == m
    case WriteCall(pid, fd, buf) =>
      if At(m, pid, fd).Some? then Wrote1(sbs, m, At(m, pid, fd).value, buf, a, n) else a == Refused && n == m
    case ReadCall(pid, fd, buffsize) =>
      if At(m, pid, fd).Some? then Read1(m, At(m, pid, fd).value, buffsize, a, n) else a == Refused && n == m
    case SeekCall(pid, fd, offset, whence) =>
      if At(m, pid, fd).Some? then Sought1(m, At(m, pid, fd).value, offset, whence, a, n) else a == Refused && n == m
    case NameCall(path, cwd) =>
      if CanName(sbs, m, path, cwd) then a.Entry? && Named1(sbs, m, path, cwd, a.i, n) else a == Refused && Nothing(m, n)
    case PutCall(i) =>
      if Held(m, i) then a == Done && Put1(m, i, n) else a == Refused && n == m
    case AllocCall(dev) =>
      if NoNumber(m, dev) then a == Refused && Nothing(m, n) else a.Entry? && Numbered1(m, dev, a.i, n)
    case FreeCall(i) =>
      if CanFree(m, i) then a == Done && Freed1(m, i, n) else a == Refused && n == m
  }

  /** A path to anything but a regular file is refused, whatever its type bits are. */
  lemma OpensOnlyFiles(sbs: Supers, m: System, pid: nat, path: seq<byte>, cwd: nat, flags: nat, a: Answer, n: System,
                       id: InoId, mode: bv16, above: nat)
    requires Does(sbs, m, OpenCall(pid, path, cwd, flags), a, n)
    requires InCore(m, 0) && InCore(m, cwd) && Walk(sbs, m.s, Start(m, path, cwd), Names(path)) == Some(id)
    requires id in m.s.ino && m.s.ino[id].mode == mode as nat + 0x1_0000 * above
    ensures a.Fd? ==> mode & 0xf000 == 0x8000
    ensures mode & 0xf000 != 0x8000 ==> a == Refused && Nothing(m, n)
  {
    hide CanWalk, Walk, FileRoom, FullIn, NoSlot, Opened1, Nothing, IsRegular;
    TypeBits(m.s.ino[id], mode, above);
  }

  /** A run: the systems passed through, the calls made and the answers given. */
  ghost predicate IsRun(sbs: Supers, trace: seq<System>, calls: seq<Call>, answers: seq<Answer>) {
    && |trace| == |calls| + 1 && |answers| == |calls|
    && forall k :: 0 <= k < |calls| ==> Does(sbs, trace[k], calls[k], answers[k], trace[k + 1])
  }

  // ---------- Isolation ----------

  /** The call writes to the file, or frees it. */
  predicate Touches(m: System, call: Call, id: InoId) {
    match call
    case WriteCall(pid, fd, _) => At(m, pid, fd).Some? && m.open[At(m, pid, fd).value].id == id
    case FreeCall(i) => i < |m.core| && m.core[i] == id
    case _ => false
  }

  ghost predicate SameFile(s: State, t: State, id: InoId) {
    && id in s.ino && id in t.ino
    && |s.ino[id].addr| == |t.ino[id].addr| == NADDR
    && Content(t, id) == Content(s, id)
  }

  lemma StepLeaves(sbs: Supers, m: System, call: Call, a: Answer, n: System, id: InoId)
    requires Does(sbs, m, call, a, n) && !Touches(m, call, id)
    requires id in m.s.ino && |m.s.ino[id].addr| == NADDR
    ensures SameFile(m.s, n.s, id)
  {
    hide ContentOf, Splice, Walk, Components, IsRegular;
  }

  /** Whatever the processes do, a file that no call writes to or frees keeps its contents. */
  lemma {:induction false} Isolation(sbs: Supers, trace: seq<System>, calls: seq<Call>, answers: seq<Answer>, id: InoId)
    requires IsRun(sbs, trace, calls, answers)
    requires forall k :: 0 <= k < |calls| ==> !Touches(trace[k], calls[k], id)
    requires id in trace[0].s.ino && |trace[0].s.ino[id].addr| == NADDR
    ensures SameFile(trace[0].s, trace[|calls|].s, id)
    decreases |calls|
  {
    hide Does, Touches, Content;
    if calls != [] {
      var n := |calls| - 1;
      assert IsRun(sbs, trace[..n + 1], calls[..n], answers[..n]) by {
        assert forall k :: 0 <= k < n ==> Does(sbs, trace[k], calls[k], answers[k], trace[k + 1]);
      }
      Isolation(sbs, trace[..n + 1], calls[..n], answers[..n], id);
      StepLeaves(sbs, trace[n], calls[n], answers[n], trace[n + 1], id);
    }
  }

  /**
   * Bytes written through one descriptor are the bytes read through any other that stands at the same place of the
   * same file, after any calls by any processes that do not touch that file.
   */
  lemma ReadSeesWrite(sbs: Supers, trace: seq<System>, calls: seq<Call>, answers: seq<Answer>, f: nat, g: nat)
    requires IsRun(sbs, trace, calls, answers) && |calls| >= 2
    requires calls[0].WriteCall? && At(trace[0], calls[0].pid, calls[0].fd) == Some(f) && f in trace[0].open
    requires forall k :: 0 < k < |calls| - 1 ==> !Touches(trace[k], calls[k], trace[0].open[f].id)
    requires var last := |calls| - 1;
      && calls[last].ReadCall? && At(trace[last], calls[last].pid, calls[last].fd) == Some(g)
      && g in trace[last].open && trace[last].open[g] == trace[0].open[f]
      && answers[0] == Count(calls[last].buffsize)
    ensures calls[|calls| - 1].buffsize <= |calls[0].buf|
    ensures answers[|calls| - 1] == Bytes(calls[0].buf[..calls[|calls| - 1].buffsize])
  {
    hide Wrote, ContentOf, Touches;
    var last, c, n := |calls| - 1, trace[0].open[f], calls[|calls| - 1].buffsize;
    assert Does(sbs, trace[0], calls[0], answers[0], trace[1]);
    assert Does(sbs, trace[last], calls[last], answers[last], trace[last + 1]);
    WroteBytes(sbs, trace[0].s, trace[1].s, c.id, c.off, calls[0].buf[..n]);
    assert IsRun(sbs, trace[1..last + 1], calls[1..last], answers[1..last]) by {
      forall k | 0 <= k < last - 1
        ensures Does(sbs, trace[1..last + 1][k], calls[1..last][k], answers[1..last][k], trace[1..last + 1][k + 1])
      {
        assert Does(sbs, trace[k + 1], calls[k + 1], answers[k + 1], trace[k + 2]);
      }
    }
    Isolation(sbs, trace[1..last + 1], calls[1..last], answers[1..last], c.id);
  }

  // ---------- How much a write stores ----------

  /**
   * A write answers the largest length there was room for, and takes a block for each slot it needed one for: a write
   * inside the file's own blocks is always whole.
   */
  lemma WriteCount(sbs: Supers, m: System, pid: nat, fd: int, buf: seq<byte>, a: Answer, n: System)
    requires Does(sbs, m, WriteCall(pid, fd, buf), a, n) && At(m, pid, fd).Some?
    ensures var c := m.open[At(m, pid, fd).value];
      && a.Count? && c.id in m.s.ino && c.id.dev < |m.s.free| == |n.s.free|
      && (forall k: nat :: k <= |buf| ==> (HasRoom(m.s, c.id, c.off, k) <==> k <= a.n))
      && (Missing(m.s.ino[c.id].addr, c.off, |buf|) == {} && c.off + |buf| <= MAX_SIZE ==> a.n == |buf|)
      && |n.s.free[c.id.dev]| + |Missing(m.s.ino[c.id].addr, c.off, a.n)| == |m.s.free[c.id.dev]|
  {
    hide Missing, OnlyFile, SameFields, Content, Splice, Supplied;
    var c := m.open[At(m, pid, fd).value];
    AsMuchIff(m.s, c.id, c.off, |buf|, a.n);
    WroteOnly(sbs, m.s, n.s, c.id, c.off, buf[..a.n]);
    OnlyFileHas(sbs, m.s, n.s, c.id);
    SuppliedSize(m.s.ino[c.id].addr, n.s.ino[c.id].addr, Missing(m.s.ino[c.id].addr, c.off, a.n), m.s.free[c.id.dev],
                 n.s.free[c.id.dev]);
  }

  // ---------- Allocation undone ----------

  /** An inode just allocated can be freed by its caller, and then every file, block and number is as it was. */
  lemma AllocThenFree(sbs: Supers, m: System, dev: nat, a: Answer, n: System, b: Answer, o: System)
    requires FreeInodesBlank(sbs, m.s) && Tidy(m) && dev < |sbs|
    requires Does(sbs, m, AllocCall(dev), a, n) && a.Entry? && Does(sbs, n, FreeCall(a.i), b, o)
    ensures a.i < |n.core| && b == Done && o.s == m.s && o.open == m.open && o.filp == m.filp
    ensures forall x: InoId :: UsesOf(o, x) == if x == n.core[a.i] then 0 else UsesOf(m, x)
  {
    hide IsRegular, IsDirectory, Bitmap.IsFirst, NO_INODE, Emptied, Unlinked, FullIn, CoreKept, NoNumber;
    var id := n.core[a.i];
    FirstIsIn(m.s.freeIno[dev], id.num);
    assert id == InoId(dev, id.num) && m.s.ino[id] == NO_INODE;
    BlankIsPlain();
    assert CanFree(n, a.i);
    EmptyBlank(n.s, id);
    assert m.s.freeIno[dev] - {id.num} + {id.num} == m.s.freeIno[dev];
  }

  lemma FirstIsIn(s: set<nat>, p: nat)
    requires Bitmap.IsFirst(s, p)
    ensures p in s
  {
  }

  lemma BlankIsPlain()
    ensures !IsRegular(NO_INODE) && !IsDirectory(NO_INODE) && |NO_INODE.addr| == NADDR
  {
  }

  /** A blank inode names no block, so freeing it frees its number and nothing else. */
  lemma EmptyBlank(s: State, id: InoId)
    requires id in s.ino && s.ino[id] == NO_INODE && id.dev < |s.free| && id.dev < |s.freeIno|
    ensures |s.ino[id].addr| == NADDR
    ensures Unlinked(Emptied(s, id, NADDR), id) == s.(freeIno := s.freeIno[id.dev := s.freeIno[id.dev] + {id.num}])
  {
    assert NO_INODE.addr == ZeroUpto(NO_INODE.addr, NADDR);
    assert Files.Named(NO_INODE.addr, NADDR) == {};
    assert s.free[id.dev] + {} == s.free[id.dev];
  }

  // ---------- Cursors ----------

  /**
   * A seek undoes a read: back by the length read from where the cursor stands, to the place it stood at, or, SEEK_END
   * counting as it does, by that length from the end of what was read.
   */
  lemma SeekUndoesRead(sbs: Supers, m: System, pid: nat, fd: int, size: nat, bs: seq<byte>, n: System, offset: int,
                       whence: Whence, a: Answer, o: System)
    requires Does(sbs, m, ReadCall(pid, fd, size), Answer.Bytes(bs), n) && bs != [] && At(m, pid, fd).Some?
    requires m.open[At(m, pid, fd).value].off > 0
    requires Does(sbs, n, SeekCall(pid, fd, offset, whence), a, o)
    requires match whence
      case SeekCur => offset == -|bs|
      case SeekEnd => offset == |bs|
      case SeekSet => offset == m.open[At(m, pid, fd).value].off
    ensures a == Offset(m.open[At(m, pid, fd).value].off) && o == m
  {
    var f := At(m, pid, fd).value;
    var c := m.open[f];
    ContentSize(m.s, c.id);
    assert n.open[f].off == c.off + |bs|;
    assert n.open[f := n.open[f].(off := c.off)] == m.open;
  }

  /** The bytes a row of reads has given. */
  function Given(answers: seq<Answer>): seq<byte> {
    if answers == [] then []
    else Given(answers[..|answers| - 1]) + if answers[|answers| - 1].Bytes? then answers[|answers| - 1].bs else []
  }

  /** Reads through one descriptor, of whatever sizes, and nothing between them. */
  predicate OnlyReads(calls: seq<Call>, pid: nat, fd: int) {
    forall k :: 0 <= k < |calls| ==>
      calls[k].ReadCall? && calls[k].pid == pid && calls[k].fd == fd && calls[k].buffsize > 0
  }

  lemma ReadStep(sbs: Supers, m: System, pid: nat, fd: int, size: nat, a: Answer, n: System)
    requires Does(sbs, m, ReadCall(pid, fd, size), a, n) && At(m, pid, fd).Some?
    ensures var f := At(m, pid, fd).value; var c := m.open[f];
      && a.Bytes? && c.id in m.s.ino && |m.s.ino[c.id].addr| == NADDR
      && var content := Content(m.s, c.id);
         && c.off + |a.bs| <= |content| && a.bs == content[c.off..c.off + |a.bs|]
         && (a.bs == [] && size > 0 ==> c.off == |content|)
         && n == Moved(m, f, c.off + |a.bs|) && At(n, pid, fd) == Some(f)
  {
    hide Content;
  }

  /** From `m` to `n` the cursor of open file `f` moved over the bytes `got`, and nothing else changed. */
  ghost predicate ReadTo(m: System, f: nat, got: seq<byte>, n: System) {
    && f in m.open && m.open[f].id in m.s.ino && |m.s.ino[m.open[f].id].addr| == NADDR
    && var content, off := Content(m.s, m.open[f].id), m.open[f].off;
       off + |got| <= |content| && got == content[off..off + |got|] && n == Moved(m, f, off + |got|)
  }

  /** Nothing of open file `f` is left after the bytes `got`. */
  ghost predicate ReadAll(m: System, f: nat, got: seq<byte>)
    requires f in m.open && m.open[f].id in m.s.ino && |m.s.ino[m.open[f].id].addr| == NADDR
  {
    m.open[f].off + |got| == |Content(m.s, m.open[f].id)|
  }

  lemma ReadOn(sbs: Supers, m: System, f: nat, got: seq<byte>, n: System, pid: nat, fd: int, size: nat, a: Answer,
               o: System)
    requires ReadTo(m, f, got, n) && At(n, pid, fd) == Some(f) && Does(sbs, n, ReadCall(pid, fd, size), a, o)
    ensures a.Bytes? && ReadTo(m, f, got + a.bs, o) && At(o, pid, fd) == Some(f)
    ensures a.bs == [] && size > 0 ==> ReadAll(m, f, got)
  {
    hide Content, Does;
    ReadStep(sbs, n, pid, fd, size, a, o);
    SliceJoin(Content(m.s, m.open[f].id), m.open[f].off, got, a.bs);
  }

  /**
   * Whatever sizes a process reads with, what it gets is the file from its cursor on, in order and without gaps; an
   * empty answer says that it has got everything.
   */
  lemma {:induction false} ReadsInOrder(sbs: Supers, trace: seq<System>, calls: seq<Call>, answers: seq<Answer>, pid: nat,
                                        fd: int)
    requires IsRun(sbs, trace, calls, answers) && OnlyReads(calls, pid, fd) && At(trace[0], pid, fd).Some?
    requires calls != []
    ensures var f := At(trace[0], pid, fd).value;
      && ReadTo(trace[0], f, Given(answers), trace[|calls|]) && At(trace[|calls|], pid, fd) == Some(f)
      && (answers[|calls| - 1] == Answer.Bytes([]) ==> ReadAll(trace[0], f, Given(answers)))
    decreases |calls|
  {
    hide Does, ReadTo, ReadAll;
    var n, f := |calls| - 1, At(trace[0], pid, fd).value;
    assert Does(sbs, trace[n], calls[n], answers[n], trace[n + 1]);
    if n == 0 {
      FirstRead(sbs, trace[0], pid, fd, calls[0].buffsize, answers[0], trace[1]);
      OneGiven(answers);
    } else {
      LessRun(sbs, trace, calls, answers);
      ReadsInOrder(sbs, trace[..n + 1], calls[..n], answers[..n], pid, fd);
      ReadOn(sbs, trace[0], f, Given(answers[..n]), trace[n], pid, fd, calls[n].buffsize, answers[n], trace[n + 1]);
      if answers[n] == Answer.Bytes([]) {
        NothingGiven(answers);
      }
    }
  }

  lemma FirstRead(sbs: Supers, m: System, pid: nat, fd: int, size: nat, a: Answer, n: System)
    requires Does(sbs, m, ReadCall(pid, fd, size), a, n) && At(m, pid, fd).Some?
    ensures var f := At(m, pid, fd).value;
      a.Bytes? && ReadTo(m, f, a.bs, n) && At(n, pid, fd) == Some(f) && (a.bs == [] && size > 0 ==> ReadAll(m, f, a.bs))
  {
    hide Content, Does;
    ReadStep(sbs, m, pid, fd, size, a, n);
  }

  lemma NothingGiven(answers: seq<Answer>)
    requires answers != [] && answers[|answers| - 1] == Answer.Bytes([])
    ensures Given(answers) == Given(answers[..|answers| - 1])
  {
  }

  lemma LessRun(sbs: Supers, trace: seq<System>, calls: seq<Call>, answers: seq<Answer>)
    requires IsRun(sbs, trace, calls, answers) && calls != []
    ensures var n := |calls| - 1; IsRun(sbs, trace[..n + 1], calls[..n], answers[..n])
  {
    hide Does;
    var n := |calls| - 1;
    assert forall k :: 0 <= k < n ==> Does(sbs, trace[k], calls[k], answers[k], trace[k + 1]);
  }

  lemma SliceJoin(content: seq<byte>, off: nat, got: seq<byte>, more: seq<byte>)
    requires off + |got| + |more| <= |content|
    requires got == content[off..off + |got|] && more == content[off + |got|..off + |got| + |more|]
    ensures |got + more| == |got| + |more| && got + more == content[off..off + |got + more|]
  {
  }

  lemma OneGiven(answers: seq<Answer>)
    requires |answers| == 1 && answers[0].Bytes?
    ensures Given(answers) == answers[0].bs
  {
    assert answers[..0] == [];
  }

  // ---------- Names stay ----------

  /** Open files are regular files, and no file is open twice. */
  ghost predicate Tidy(m: System) {
    && (forall g :: g in m.open ==> m.open[g].id in m.s.ino && IsRegular(m.s.ino[m.open[g].id]))
    && (forall g, h :: g in m.open && h in m.open && m.open[g].id == m.open[h].id ==> g == h)
  }

  /** What a successful open tells. */
  lemma OpenedIs(sbs: Supers, m: System, pid: nat, path: seq<byte>, cwd: nat, fd: nat, n: System) returns (id: InoId, f: nat)
    requires CanOpen(sbs, m, pid, path, cwd) && Opened1(sbs, m, pid, path, cwd, fd, n)
    ensures id in m.s.ino && IsRegular(m.s.ino[id]) && n.s == m.s && CoreKept(m, n)
    ensures Joined(m.open, id, f, n.open)
    ensures n.uses == if Unopened(m.open, id) then m.uses[id := UsesOf(m, id) + 1] else m.uses
  {
    hide Walk, CanWalk, IsRegular, Joined, FileRoom, Unopened, IsLowest, NoSlot, FullIn;
    id, f := Walk(sbs, m.s, Start(m, path, cwd), Names(path)).value, n.filp[Desc(pid, fd)];
  }

  lemma JoinedTidy(m: System, id: InoId, f: nat, n: System)
    requires Tidy(m) && id in m.s.ino && IsRegular(m.s.ino[id]) && n.s == m.s && Joined(m.open, id, f, n.open)
    ensures Tidy(n)
  {
    hide IsRegular;
  }

  lemma WroteTidy(sbs: Supers, m: System, f: nat, buf: seq<byte>, a: Answer, n: System)
    requires Tidy(m) && f in m.open && Wrote1(sbs, m, f, buf, a, n)
    ensures Tidy(n)
  {
    hide Wrote, Content, BlocksKept, AsMuchAsFits;
    WroteOnly(sbs, m.s, n.s, m.open[f].id, m.open[f].off, buf[..a.n]);
  }

  lemma StepTidy(sbs: Supers, m: System, call: Call, a: Answer, n: System)
    requires Does(sbs, m, call, a, n) && Tidy(m)
    ensures Tidy(n)
  {
    hide Wrote1, CanOpen, CanName, Opened1, Content, NoNumber, IsRegular, IsDirectory, Bitmap.IsFirst, CoreKept;
    match call {
      case OpenCall(pid, path, cwd, _) =>
        if CanOpen(sbs, m, pid, path, cwd) {
          var id, f := OpenedIs(sbs, m, pid, path, cwd, a.fd, n);
          JoinedTidy(m, id, f, n);
        }
      case WriteCall(pid, fd, buf) =>
        if At(m, pid, fd).Some? {
          WroteTidy(sbs, m, At(m, pid, fd).value, buf, a, n);
        }
      case _ =>
    }
  }

  /** Inode `id`, and every block it names, are what they were. */
  ghost predicate SameInode(s: State, t: State, id: InoId) {
    && id in s.ino && id in t.ino && t.ino[id] == s.ino[id] && t.data.Keys == s.data.Keys
    && (forall k :: 0 <= k < |s.ino[id].addr| && s.ino[id].addr[k] != 0 && BlockOf(s, id, k) in s.data ==>
         t.data[BlockOf(s, id, k)] == s.data[BlockOf(s, id, k)])
  }

  /** No call changes a directory, nor any block it names. */
  lemma StepKeepsOther(sbs: Supers, m: System, call: Call, a: Answer, n: System, id: InoId)
    requires Does(sbs, m, call, a, n) && Tidy(m) && id in m.s.ino && IsDirectory(m.s.ino[id])
    ensures SameInode(m.s, n.s, id)
  {
    hide ContentOf, Splice, CanName, CanOpen, Opened1, IsRegular, IsDirectory, Content, NoNumber, Bitmap.IsFirst, CoreKept,
      AsMuchAsFits, Wrote;
    NotBoth(m.s.ino[id]);
    match call {
      case OpenCall(pid, path, cwd, _) =>
        if CanOpen(sbs, m, pid, path, cwd) {
          var to, f := OpenedIs(sbs, m, pid, path, cwd, a.fd, n);
        }
      case WriteCall(pid, fd, buf) =>
        if At(m, pid, fd).Some? {
          var f := At(m, pid, fd).value;
          WroteOnly(sbs, m.s, n.s, m.open[f].id, m.open[f].off, buf[..a.n]);
          OnlyFileKeeps(sbs, m.s, n.s, m.open[f].id, id);
        }
      case _ =>
    }
  }

  lemma WroteOnly(sbs: Supers, s: State, t: State, id: InoId, off: nat, bs: seq<byte>)
    requires Wrote(sbs, s, t, id, off, bs)
    ensures OnlyFile(sbs, s, t, id) && SameFields(s.ino[id], t.ino[id])
  {
    hide OnlyFile, SameFields, Missing, Took, Content, Splice;
  }

  lemma OnlyFileKeeps(sbs: Supers, s: State, t: State, id: InoId, x: InoId)
    requires OnlyFile(sbs, s, t, id) && x in s.ino && x != id
    ensures SameInode(s, t, x)
  {
    hide Content;
  }

  lemma {:induction false} SameSearch(s: State, t: State, dir: InoId, name: Name, k: nat)
    requires SameInode(s, t, dir) && k <= |s.ino[dir].addr|
    ensures FindInSlots(dir.dev, t.ino[dir].addr, t.data, name, k) == FindInSlots(dir.dev, s.ino[dir].addr, s.data, name, k)
    decreases |s.ino[dir].addr| - k
  {
    hide FindInBlock;
    if k < |s.ino[dir].addr| {
      assert BlockOf(s, dir, k) == Addr(dir.dev, s.ino[dir].addr[k]);
      SameSearch(s, t, dir, name, k + 1);
    }
  }

  /** Every inode a name is looked up in on the way is there, and is a directory. */
  ghost predicate ThroughDirs(sbs: Supers, s: State, from: InoId, names: seq<Name>)
    decreases |names|
  {
    names == [] ||
    (&& from in s.ino && IsDirectory(s.ino[from])
     && match Lookup(sbs, s, from, names[0])
        case None => true
        case Some(next) => ThroughDirs(sbs, s, next, names[1..]))
  }

  lemma {:induction false} StepKeepsPath(sbs: Supers, m: System, call: Call, a: Answer, n: System, from: InoId, names: seq<Name>)
    requires Does(sbs, m, call, a, n) && Tidy(m) && ThroughDirs(sbs, m.s, from, names)
    ensures Walk(sbs, n.s, from, names) == Walk(sbs, m.s, from, names) && ThroughDirs(sbs, n.s, from, names)
    decreases |names|
  {
    hide Does, Tidy, FindInSlots, IsDirectory;
    if names != [] {
      StepKeepsOther(sbs, m, call, a, n, from);
      SameSearch(m.s, n.s, from, names[0], 0);
      var next := Lookup(sbs, m.s, from, names[0]);
      if next.Some? {
        StepKeepsPath(sbs, m, call, a, n, next.value, names[1..]);
      }
    }
  }

  /** A caller gives up a use of the inode. */
  predicate GivesUp(m: System, call: Call, id: InoId) {
    call.PutCall? && call.i < |m.core| && m.core[call.i] == id
  }

  /** Somebody holds a use of the entry's inode besides the one an open file may hold, and nobody gives that up. */
  lemma StepHolds(sbs: Supers, m: System, call: Call, a: Answer, n: System, i: nat)
    requires Does(sbs, m, call, a, n) && Tidy(m) && Held(m, i) && !GivesUp(m, call, m.core[i])
    requires call.FreeCall? && CanFree(m, call.i) ==> m.core[call.i] != m.core[i]
    ensures Held(n, i) && n.core[i] == m.core[i]
  {
    hide CanOpen, CanName, Opened1, Closed1, Named1, Numbered1, Freed1, Wrote1, Read1, NoNumber, Held, CanFree, GivesUp, Tidy;
    HeldIn(m, i);
    match call {
      case OpenCall(pid, path, cwd, _) =>
        if CanOpen(sbs, m, pid, path, cwd) {
          var id, f := OpenedIs(sbs, m, pid, path, cwd, a.fd, n);
          JoinedHolds(m, id, f, n, i);
        } else {
          NothingHolds(m, n, i);
        }
      case CloseCall(pid, fd) =>
        if At(m, pid, fd).Some? {
          ClosedHolds(m, Desc(pid, fd), n, i);
        }
      case NameCall(path, cwd) =>
        if CanName(sbs, m, path, cwd) {
          NamedHolds(sbs, m, path, cwd, a.i, n, i);
        } else {
          NothingHolds(m, n, i);
        }
      case AllocCall(dev) =>
        if NoNumber(m, dev) {
          NothingHolds(m, n, i);
        } else {
          NumberedHolds(m, dev, a.i, n, i);
        }
      case PutCall(j) =>
        if Held(m, j) {
          PutHolds(m, call, n, i);
        }
      case FreeCall(j) =>
        if CanFree(m, j) {
          FreedHolds(m, j, n, i);
        }
      case WriteCall(pid, fd, buf) =>
        if At(m, pid, fd).Some? {
          WroteHolds(sbs, m, At(m, pid, fd).value, buf, a, n, i);
        }
      case ReadCall(pid, fd, buffsize) =>
        if At(m, pid, fd).Some? {
          ReadHolds(m, At(m, pid, fd).value, buffsize, a, n, i);
        }
      case SeekCall(pid, fd, offset, whence) =>
        if At(m, pid, fd).Some? {
          SoughtHolds(m, At(m, pid, fd).value, offset, whence, a, n, i);
        }
    }
  }

  lemma NothingHolds(m: System, n: System, i: nat)
    requires Held(m, i) && Nothing(m, n)
    ensures Held(n, i) && InCore(m, i) && n.core[i] == m.core[i]
  {
  }

  lemma NamedHolds(sbs: Supers, m: System, path: seq<byte>, cwd: nat, j: nat, n: System, i: nat)
    requires CanName(sbs, m, path, cwd) && Named1(sbs, m, path, cwd, j, n) && Held(m, i)
    ensures Held(n, i) && InCore(m, i) && n.core[i] == m.core[i]
  {
    hide CanName, Walk;
    UsedMore(m, n.core[j], n, i);
  }

  lemma NumberedHolds(m: System, dev: nat, j: nat, n: System, i: nat)
    requires Numbered1(m, dev, j, n) && Held(m, i)
    ensures Held(n, i) && InCore(m, i) && n.core[i] == m.core[i]
  {
    hide Bitmap.IsFirst;
    UsedMore(m, n.core[j], n, i);
  }

  lemma PutHolds(m: System, call: Call, n: System, i: nat)
    requires Held(m, i) && call.PutCall? && !GivesUp(m, call, m.core[i]) && Held(m, call.i) && Put1(m, call.i, n)
    ensures Held(n, i) && n.core[i] == m.core[i]
  {
  }

  lemma FreedHolds(m: System, j: nat, n: System, i: nat)
    requires Held(m, i) && CanFree(m, j) && Freed1(m, j, n) && m.core[j] != m.core[i]
    ensures Held(n, i) && n.core[i] == m.core[i]
  {
    hide IsDirectory, Emptied, Unlinked;
  }

  lemma WroteHolds(sbs: Supers, m: System, f: nat, buf: seq<byte>, a: Answer, n: System, i: nat)
    requires Held(m, i) && f in m.open && Wrote1(sbs, m, f, buf, a, n)
    ensures Held(n, i) && n.core[i] == m.core[i]
  {
    hide Wrote, AsMuchAsFits;
    SameFilesOpen(m, n, m.core[i]);
  }

  lemma ReadHolds(m: System, f: nat, buffsize: nat, a: Answer, n: System, i: nat)
    requires Held(m, i) && f in m.open && Read1(m, f, buffsize, a, n)
    ensures Held(n, i) && n.core[i] == m.core[i]
  {
    hide Content;
    SameFilesOpen(m, n, m.core[i]);
  }

  lemma SoughtHolds(m: System, f: nat, offset: int, whence: Whence, a: Answer, n: System, i: nat)
    requires Held(m, i) && f in m.open && Sought1(m, f, offset, whence, a, n)
    ensures Held(n, i) && n.core[i] == m.core[i]
  {
    SameFilesOpen(m, n, m.core[i]);
  }

  lemma ClosedHolds(m: System, d: Desc, n: System, i: nat)
    requires Held(m, i) && Tidy(m) && d in m.filp && m.filp[d] in m.open && Closed1(m, d, n)
    ensures Held(n, i) && n.core[i] == m.core[i]
  {
    hide Closed1, Tidy;
    ClosedUses(m, d, n, m.core[i]);
  }

  lemma UsedMore(m: System, id: InoId, n: System, i: nat)
    requires Held(m, i) && CoreKept(m, n) && n.open == m.open && n.uses == m.uses[id := UsesOf(m, id) + 1]
    ensures Held(n, i) && n.core[i] == m.core[i]
  {
  }

  lemma SameFilesOpen(m: System, n: System, id: InoId)
    requires n.uses == m.uses && n.open.Keys == m.open.Keys && forall g :: g in m.open ==> n.open[g].id == m.open[g].id
    ensures UsesOf(n, id) == UsesOf(m, id) && (Unopened(n.open, id) <==> Unopened(m.open, id))
  {
  }

  lemma JoinedHolds(m: System, id: InoId, f: nat, n: System, i: nat)
    requires Held(m, i) && CoreKept(m, n) && Joined(m.open, id, f, n.open)
    requires n.uses == if Unopened(m.open, id) then m.uses[id := UsesOf(m, id) + 1] else m.uses
    ensures Held(n, i) && n.core[i] == m.core[i]
  {
    var x := m.core[i];
    if Unopened(m.open, id) && x != id {
      assert Unopened(m.open, x) ==> Unopened(n.open, x);
    }
  }

  lemma ClosedUses(m: System, d: Desc, n: System, id: InoId)
    requires Tidy(m) && d in m.filp && m.filp[d] in m.open && Closed1(m, d, n)
    requires UsesOf(m, id) > if Unopened(m.open, id) then 0 else 1
    ensures n.core == m.core
    ensures UsesOf(n, id) > if Unopened(n.open, id) then 0 else 1
  {
    hide IsRegular;
    var f := m.filp[d];
    if Users(n.filp, f) == {} && m.open[f].id == id {
      assert !Unopened(m.open, id);
      assert Unopened(n.open, id);
    } else {
      assert UsesOf(n, id) == UsesOf(m, id);
      assert Unopened(m.open, id) ==> Unopened(n.open, id);
      if !Unopened(m.open, id) {
        var g :| g in m.open && m.open[g].id == id;
        assert Unopened(n.open, id) || UsesOf(n, id) > 1;
      }
    }
  }

  /**
   * Over any run a directory the kernel holds, the root or a working directory, stays in its entry, and every path
   * from it through directories goes on leading where it led.
   */
  lemma {:induction false} PathsStay(sbs: Supers, trace: seq<System>, calls: seq<Call>, answers: seq<Answer>, i: nat,
                                     names: seq<Name>)
    requires IsRun(sbs, trace, calls, answers) && Tidy(trace[0]) && Held(trace[0], i)
    requires var dir := trace[0].core[i];
      dir in trace[0].s.ino && IsDirectory(trace[0].s.ino[dir]) && ThroughDirs(sbs, trace[0].s, dir, names)
    requires forall k :: 0 <= k < |calls| ==> !GivesUp(trace[k], calls[k], trace[0].core[i])
    ensures var end, dir := trace[|calls|], trace[0].core[i];
      && Tidy(end) && Held(end, i) && end.core[i] == dir
      && SameInode(trace[0].s, end.s, dir) && ThroughDirs(sbs, end.s, dir, names)
      && Walk(sbs, end.s, dir, names) == Walk(sbs, trace[0].s, dir, names)
    decreases |calls|
  {
    hide Does, Tidy, Held, IsDirectory, Walk, ThroughDirs, CanFree, GivesUp;
    HeldIn(trace[0], i);
    if calls != [] {
      var n := |calls| - 1;
      assert IsRun(sbs, trace[..n + 1], calls[..n], answers[..n]) by {
        assert forall k :: 0 <= k < n ==> Does(sbs, trace[k], calls[k], answers[k], trace[k + 1]);
      }
      PathsStay(sbs, trace[..n + 1], calls[..n], answers[..n], i, names);
      OneMoreStep(sbs, trace[n], calls[n], answers[n], trace[n + 1], i, names);
    }
  }

  lemma HeldIn(m: System, i: nat)
    requires Held(m, i)
    ensures InCore(m, i)
  {
  }

  lemma NotFreed(m: System, call: Call, i: nat)
    requires InCore(m, i) && m.core[i] in m.s.ino && IsDirectory(m.s.ino[m.core[i]])
    ensures call.FreeCall? && CanFree(m, call.i) ==> m.core[call.i] != m.core[i]
  {
    hide IsDirectory;
  }

  lemma OneMoreStep(sbs: Supers, m: System, call: Call, a: Answer, n: System, i: nat, names: seq<Name>)
    requires Does(sbs, m, call, a, n) && Tidy(m) && Held(m, i) && !GivesUp(m, call, m.core[i])
    requires m.core[i] in m.s.ino && IsDirectory(m.s.ino[m.core[i]]) && ThroughDirs(sbs, m.s, m.core[i], names)
    ensures Tidy(n) && Held(n, i) && n.core[i] == m.core[i]
    ensures SameInode(m.s, n.s, m.core[i]) && ThroughDirs(sbs, n.s, m.core[i], names)
    ensures Walk(sbs, n.s, m.core[i], names) == Walk(sbs, m.s, m.core[i], names)
  {
    hide Does, Tidy, Held, IsDirectory, Walk, ThroughDirs, CanFree, GivesUp;
    HeldIn(m, i);
    NotFreed(m, call, i);
    StepTidy(sbs, m, call, a, n);
    StepHolds(sbs, m, call, a, n, i);
    HeldIn(n, i);
    StepKeepsOther(sbs, m, call, a, n, m.core[i]);
    StepKeepsPath(sbs, m, call, a, n, m.core[i], names);
  }
}
