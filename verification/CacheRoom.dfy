/** When the buffer cache runs out: its panics, told from the outside. */
module CacheRoom {
  import opened Blocks
  import opened CacheSpec
  import opened CacheRuns
  import opened Tally

  function Uses(bufs: seq<Buffer>): (us: seq<Use<Addr>>)
    ensures |us| == |bufs| && forall i :: 0 <= i < |us| ==> us[i] == Use(bufs[i].addr, bufs[i].count)
  {
    seq(|bufs|, i requires 0 <= i < |bufs| => Use(bufs[i].addr, bufs[i].count))
  }

  /** The cache finds a buffer to recycle exactly when fewer blocks are in use than there are buffers. */
  lemma RoomIff(c: Cache)
    requires Tags(c)
    ensures FindFree(c.bufs, 0) < |c.bufs| <==> |TagsInUse(Uses(c.bufs))| < |c.bufs|
  {
    assert TagsApart(Uses(c.bufs)) by {
      assert forall i :: 0 <= i < |c.bufs| && c.bufs[i].count > 0 ==> c.bufs[i].addr != NO_ADDR;
    }
    hide Tags, TagsApart, TagsInUse;
    AllUsedIff(Uses(c.bufs));
    var f := FindFree(c.bufs, 0);
    assert f < |c.bufs| ==> Uses(c.bufs)[f].count == 0;
  }

  function Used(f: Flat): set<Addr> {
    set a | a in f.users
  }

  lemma SameUsed(c: Cache, f: Flat)
    requires Rel(c, f)
    ensures Used(f) == TagsInUse(Uses(c.bufs))
  {
    var us := Uses(c.bufs);
    forall a | a in f.users
      ensures a in TagsInUse(us)
    {
      assert Agree(c, f, a);
      assert us[Handle(c, a)].tag in TagsInUse(us);
    }
    forall i | 0 <= i < |us| && us[i].count > 0
      ensures us[i].tag in f.users
    {
      HandleOf(c, i);
      assert Agree(c, f, c.bufs[i].addr);
    }
  }

  /** What a plain machine that can keep `room` blocks in use, each by MAX_COUNT users, allows. */
  predicate Allowed(f: Flat, room: nat, op: Op) {
    && Legal(f, op)
    && (op.Open? || op.Zero? ==> f.users[op.a] < MAX_COUNT && (f.users[op.a] > 0 || |Used(f)| < room))
  }

  lemma OpensIff(c: Cache, a: Addr)
    requires a in c.disk
    ensures var t, f := FindTag(c.bufs, a, 0), FindFree(c.bufs, 0);
      Bread(c, a).Some? == Bzero(c, a).Some? == if t < |c.bufs| then c.bufs[t].count != MAX_COUNT else f < |c.bufs|
  {
    hide Load, Bump, Flush, ZeroBlock;
  }

  lemma UsersAt(c: Cache, f: Flat, a: Addr)
    requires Rel(c, f) && a in c.disk
    ensures var t := FindTag(c.bufs, a, 0);
      && f.users[a] == (if t < |c.bufs| then c.bufs[t].count else 0)
      && (t < |c.bufs| ==> c.bufs[t].count <= MAX_COUNT) && Tags(c) && a in f.disk
  {
    RelAt(c, f, a);
  }

  lemma OpenIff(c: Cache, f: Flat, a: Addr)
    requires Rel(c, f) && a in c.disk
    ensures Step(c, Open(a)).Some? <==> Allowed(f, |c.bufs|, Open(a))
    ensures Step(c, Zero(a)).Some? <==> Allowed(f, |c.bufs|, Zero(a))
  {
    hide Tags, TagsInUse, Used, Rel, Bread, Bzero;
    SameUsed(c, f);
    UsersAt(c, f, a);
    RoomIff(c);
    OpensIff(c, a);
    var t, free := FindTag(c.bufs, a, 0), FindFree(c.bufs, 0);
    assert t < |c.bufs| && c.bufs[t].count == 0 ==> free < |c.bufs|;
  }

  /** A step panics exactly when the plain machine with that room would not allow it. */
  lemma StepIff(c: Cache, f: Flat, op: Op)
    requires Rel(c, f)
    ensures Step(c, op).Some? <==> Allowed(f, |c.bufs|, op)
  {
    assert View(c) == f.disk;
    match op
    case Open(a) =>
      if a in c.disk {
        OpenIff(c, f, a);
      }
    case Zero(a) =>
      if a in c.disk {
        OpenIff(c, f, a);
      }
    case Put(a, _, _) => LiveIff(c, f, a);
    case Sync(a) => LiveIff(c, f, a);
    case Close(a) => LiveIff(c, f, a);
  }

  lemma LiveIff(c: Cache, f: Flat, a: Addr)
    requires Rel(c, f)
    ensures Live(c, Handle(c, a)) <==> f.users[a] > 0
    ensures f.users[a] > 0 ==> a in c.disk
  {
  }

  predicate AllAllowed(f: Flat, room: nat, ops: seq<Op>)
    decreases |ops|
  {
    ops == [] || (Allowed(f, room, ops[0]) && AllAllowed(FlatStep(f, ops[0]).0, room, ops[1..]))
  }

  lemma SameRoom(c: Cache, op: Op)
    requires Step(c, op).Some?
    ensures |Step(c, op).value.0.bufs| == |c.bufs|
  {
  }

  /** A run of the cache ends without a panic if and only if the plain machine with that room allows every step. */
  lemma {:induction false} RunIff(c: Cache, f: Flat, ops: seq<Op>)
    requires Rel(c, f)
    ensures Run(c, ops).Some? <==> AllAllowed(f, |c.bufs|, ops)
    decreases |ops|
  {
    hide Rel, Step, FlatStep, Allowed;
    if ops != [] {
      StepIff(c, f, ops[0]);
      if Step(c, ops[0]).Some? {
        SameRoom(c, ops[0]);
        StepRefines(c, f, ops[0]);
        RunIff(Step(c, ops[0]).value.0, FlatStep(f, ops[0]).0, ops[1..]);
      }
    }
  }
}
