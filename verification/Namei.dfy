/** kernel/fs/namei.c: the walk over directories kept in blocks. */
module Namei {
  import opened Blocks
  import opened CacheSpec
  import opened CacheClient
  import opened BlockIO
  import opened DiskInodes
  import opened Volume
  import opened InodeSpec
  import opened InodeCache
  import opened FsState
  import opened Files
  import opened FileSteps
  import opened FileSys
  import opened InodeUses
  import opened Paths

  // ---------- Looking a name up in a directory ----------

  /** The inner loop of dir_lookup, an entry at a time. */
  method SearchBlock(b: Block, name: Name) returns (r: Option<nat>)
    ensures r == FindInBlock(b, name, 0)
  {
    hide EntryIs, EntryNum;
    var j := 0;
    while j < DENT_PER_BLK
      invariant j <= DENT_PER_BLK
      invariant FindInBlock(b, name, 0) == FindInBlock(b, name, j)
    {
      if EntryIs(b, j, name) {
        return Some(EntryNum(b, j));
      }
      j := j + 1;
    }
    return None;
  }

  /** kernel/fs/namei.c:35-54: the inode number under `name` in the directory of entry `i`. */
  method DirLookup(fs: FileSystem, i: nat, name: Name) returns (r: Option<nat>)
    requires fs.Valid() && i < fs.it.inodes.Length && fs.it.inodes[i].id.num != 0
    modifies fs.it.bt, fs.it.bt.blocks
    ensures fs.Valid() && SameUse(old(fs.it.bt.State()), fs.it.bt.State()) && fs.V() == old(fs.V())
    ensures fs.it.inodes[i].id in fs.S().ino
    ensures var id := fs.it.inodes[i].id; r == FindInSlots(id.dev, fs.S().ino[id].addr, fs.S().data, name, 0)
  {
    hide Ready, View, Core, InUse, SameUse, FilesOpen, Inos, FreeBlks, FreeInos, DataOf, FindInBlock;
    ghost var c0, v, es := fs.it.bt.State(), fs.V(), fs.it.inodes[..];
    EntryNow(fs.it.sbs, v, es, fs.own, i);
    SameUseSelf(c0);
    var id, addr := fs.it.inodes[i].id, fs.it.inodes[i].din.addr;
    ghost var data := DataOf(fs.it.sbs, v);
    var k := 0;
    while k < NADDR
      invariant k <= NADDR
      invariant Ready(fs.it.bt.State()) && SameUse(c0, fs.it.bt.State()) && fs.V() == v
      invariant FindInSlots(id.dev, addr, data, name, 0) == FindInSlots(id.dev, addr, data, name, k)
    {
      if addr[k] != 0 {
        SlotOnDisk(fs.it.sbs, v, es, fs.own, i, k);
        r := LookupIn(fs, Addr(id.dev, addr[k]), name, c0);
        if r.Some? {
          return;
        }
      }
      k := k + 1;
    }
    return None;
  }

  /** One block of a directory: bread, search, brelease. */
  method LookupIn(fs: FileSystem, a: Addr, name: Name, ghost c0: Cache) returns (r: Option<nat>)
    requires Ready(fs.it.bt.State()) && SameUse(c0, fs.it.bt.State()) && a in fs.V()
    modifies fs.it.bt, fs.it.bt.blocks
    ensures Ready(fs.it.bt.State()) && SameUse(c0, fs.it.bt.State()) && fs.V() == old(fs.V())
    ensures r == FindInBlock(old(fs.V())[a], name, 0)
  {
    hide Ready, Holding, View, SameUse, FindInBlock;
    ghost var c, v := fs.it.bt.State(), fs.V();
    var h := OpenBlock(fs.it.bt, a);
    r := SearchBlock(fs.it.bt.blocks[h].data, name);
    CloseBlock(fs.it.bt, h, c, a);
    SameBlock(v, a);
    SameUseTrans(c0, c, fs.it.bt.State());
  }

  lemma EntryNow(sbs: Supers, v: Disk, es: seq<Inode>, own: map<Addr, Owner>, i: nat)
    requires Core(sbs, v, es, own) && i < |es| && es[i].id.num != 0
    ensures es[i].id in Inos(sbs, v, es) && Inos(sbs, v, es)[es[i].id] == es[i].din && |es[i].din.addr| == NADDR
    ensures ValidId(sbs, es[i].id) && Distinct(es)
  {
    EntryAbs(sbs, v, es, i);
    assert EntryOk(sbs, v, es[i]);
    hide Inos, InoAt, Sound, Mounted;
  }

  // ---------- Walking a path ----------

  datatype NameResult = Found(entry: nat) | NotFound | OutOfInodes

  const ROOT_ENTRY: nat := 0

  /** Takes one use of inode `id` on behalf of the walk. */
  method TakeUse(fs: FileSystem, id: InoId, ghost es0: seq<Inode>) returns (r: Option<nat>)
    requires fs.Valid() && ValidId(fs.it.sbs, id) && SameUses(es0, fs.it.inodes[..])
    requires Orderly(es0) && UsedStay(es0, fs.it.inodes[..])
    modifies fs.it.bt, fs.it.bt.blocks, fs.it.inodes
    ensures fs.Valid() && fs.S() == old(fs.S()) && SameUse(old(fs.it.bt.State()), fs.it.bt.State())
    ensures r.None? <==> NoRoom(es0, id)
    ensures UsedStay(es0, fs.it.inodes[..])
    ensures r.None? ==> SameUses(es0, fs.it.inodes[..])
    ensures r.Some? ==> Taken(fs.it.inodes[..], fs.files[..], r.value, id) && OneMore(es0, fs.it.inodes[..], id)
    ensures OpenOf(fs.files[..], fs.it.inodes[..]) == old(OpenOf(fs.files[..], fs.it.inodes[..]))
  {
    hide Ready, View, Core, InUse, SameUse, FilesOpen, Gets, NoRoom, SameUses, OneMore, Abs, Taken, Distinct, OpenOf, Orderly,
      UsedStay;
    ghost var v, es, own := fs.V(), fs.it.inodes[..], fs.own;
    CoreDistinct(fs.it.sbs, v, es, own);
    CoreOrderly(fs.it.sbs, v, es, own);
    SameRoomNow(es0, es, id);
    r := fs.GetInodeUse(id);
    if r.Some? {
      CoreDistinct(fs.it.sbs, fs.V(), fs.it.inodes[..], fs.own);
      OneMoreAfter(es0, es, fs.it.inodes[..], r.value, id);
      TakenNow(fs.it.sbs, v, es, fs.it.inodes[..], fs.files[..], r.value, id);
      OpenAfterGet(fs.it.sbs, v, es, fs.it.inodes[..], fs.files[..], r.value, id);
      StayAfterGet(es0, es, fs.it.inodes[..], r.value, id);
    }
  }

  lemma SameRoomNow(es0: seq<Inode>, es: seq<Inode>, id: InoId)
    requires Orderly(es0) && Orderly(es) && UsedStay(es0, es) && SameUses(es0, es) && id.num != 0
    ensures NoRoom(es, id) <==> NoRoom(es0, id)
  {
    hide NoRoom, Orderly, SameUses;
    SameRoom(es0, es, id);
  }

  /** Entry `i` is inode `id`, and the walk holds a use of it that no open file counts on. */
  ghost predicate Taken(es: seq<Inode>, files: seq<File>, i: nat, id: InoId) {
    i < |es| && es[i].id == id && id.num != 0 && Spare(es, files, i)
  }

  lemma CoreDistinct(sbs: Supers, v: Disk, es: seq<Inode>, own: map<Addr, Owner>)
    requires Core(sbs, v, es, own)
    ensures Distinct(es)
  {
  }

  lemma TakenNow(sbs: Supers, v: Disk, es: seq<Inode>, fs: seq<Inode>, files: seq<File>, i: nat, id: InoId)
    requires FilesOpen(sbs, v, es, files) && Gets(es, fs, i, id) && id.num != 0
    ensures Taken(fs, files, i, id)
  {
  }

  /** Gives the walk's use of entry `i` up. */
  method DropUse(fs: FileSystem, i: nat, id: InoId, ghost es0: seq<Inode>)
    requires fs.Valid() && Taken(fs.it.inodes[..], fs.files[..], i, id) && OneMore(es0, fs.it.inodes[..], id)
    requires UsedStay(es0, fs.it.inodes[..])
    modifies fs.it.bt, fs.it.bt.blocks, fs.it.inodes
    ensures fs.Valid() && fs.S() == old(fs.S()) && SameUse(old(fs.it.bt.State()), fs.it.bt.State())
    ensures SameUses(es0, fs.it.inodes[..]) && UsedStay(es0, fs.it.inodes[..])
    ensures OpenOf(fs.files[..], fs.it.inodes[..]) == old(OpenOf(fs.files[..], fs.it.inodes[..]))
  {
    hide Ready, View, Core, InUse, SameUse, FilesOpen, SameUses, OneMore, Abs, Distinct, NamedByFile, LessUsed, OpenOf, UsedStay;
    CoreDistinct(fs.it.sbs, fs.V(), fs.it.inodes[..], fs.own);
    StayAfterPut(es0, fs.it.inodes[..], i);
    PutBack(es0, fs.it.inodes[..], i);
    OpenAfterPut(fs.files[..], fs.it.inodes[..], i);
    fs.PutInodeUse(i);
  }

  /** One turn of the walk: the component from `pos` on, looked up in the directory held. */
  lemma WalkNext(sbs: Supers, s: State, full: iset<InoId>, from: InoId, path: seq<byte>, pos: nat, e: nat)
    requires pos < |path| && e == EndOf(path, pos)
    ensures Walk(sbs, s, from, Components(path[pos..])) ==
      match Lookup(sbs, s, from, path[pos..e])
      case None => None
      case Some(next) => Walk(sbs, s, next, Components(path[if e < |path| then e + 1 else e..]))
    ensures CanWalk(sbs, s, full, from, Components(path[pos..])) ==
      (from !in full &&
       match Lookup(sbs, s, from, path[pos..e])
       case None => true
       case Some(next) => CanWalk(sbs, s, full, next, Components(path[if e < |path| then e + 1 else e..])))
  {
    hide Lookup, EndOf;
    EndOfSuffix(path, pos);
    var rest := path[pos..];
    assert rest[..e - pos] == path[pos..e];
    if e < |path| {
      assert rest[e - pos + 1..] == path[e + 1..];
    } else {
      assert path[e..] == [];
    }
  }

  /** The end of the component at `pos`: the inner loop of namei. */
  method SkipComponent(path: seq<byte>, pos: nat) returns (e: nat)
    requires pos <= |path|
    ensures e == EndOf(path, pos)
  {
    e := pos;
    while e < |path| && path[e] != SLASH
      invariant pos <= e <= |path| && EndOf(path, pos) == EndOf(path, e)
    {
      e := e + 1;
    }
  }

  /**
   * kernel/fs/namei.c:9-33. The walk holds one use at a time; the caller gets one use of the inode found, and
   * every other inode is used as before.
   */
  method NamePath(fs: FileSystem, path: seq<byte>, cwd: nat) returns (r: NameResult)
    requires fs.Valid() && cwd < fs.it.inodes.Length && fs.it.inodes[cwd].id.num != 0
    requires ROOT_ENTRY < fs.it.inodes.Length && fs.it.inodes[ROOT_ENTRY].id.num != 0
    modifies fs.it.bt, fs.it.bt.blocks, fs.it.inodes
    ensures fs.Valid() && fs.S() == old(fs.S()) && SameUse(old(fs.it.bt.State()), fs.it.bt.State())
    ensures var es0, es := old(fs.it.inodes[..]), fs.it.inodes[..];
      var abs := path != [] && path[0] == SLASH;
      var to := Walk(fs.it.sbs, fs.S(), es0[if abs then ROOT_ENTRY else cwd].id, Components(path[if abs then 1 else 0..]));
      match r
      case Found(i) => i < |es| && to == Some(es[i].id) && Spare(es, fs.files[..], i) && OneMore(es0, es, es[i].id)
      case NotFound => to == None && SameUses(es0, es)
      case OutOfInodes => SameUses(es0, es)
    ensures UsedStay(old(fs.it.inodes[..]), fs.it.inodes[..])
    ensures var es0 := old(fs.it.inodes[..]);
      var abs := path != [] && path[0] == SLASH;
      r == OutOfInodes <==>
        !CanWalk(fs.it.sbs, fs.S(), Full(es0), es0[if abs then ROOT_ENTRY else cwd].id, Components(path[if abs then 1 else 0..]))
    ensures OpenOf(fs.files[..], fs.it.inodes[..]) == old(OpenOf(fs.files[..], fs.it.inodes[..]))
  {
    hide Ready, View, Core, InUse, SameUse, FilesOpen, NoRoom, SameUses, OneMore, Abs, Taken, Distinct, Walk, Components,
      Inos, EndOf, Lookup, OpenOf, CanWalk, Full, UsedStay;
    var start, pos := cwd, 0;
    if path != [] && path[0] == SLASH {
      start, pos := ROOT_ENTRY, 1;
    }
    r := WalkFrom(fs, path, start, pos);
  }

  method WalkFrom(fs: FileSystem, path: seq<byte>, start: nat, first: nat) returns (r: NameResult)
    requires fs.Valid() && start < fs.it.inodes.Length && fs.it.inodes[start].id.num != 0 && first <= |path|
    modifies fs.it.bt, fs.it.bt.blocks, fs.it.inodes
    ensures fs.Valid() && fs.S() == old(fs.S()) && SameUse(old(fs.it.bt.State()), fs.it.bt.State())
    ensures var es0, es := old(fs.it.inodes[..]), fs.it.inodes[..];
      var to := Walk(fs.it.sbs, fs.S(), es0[start].id, Components(path[first..]));
      match r
      case Found(i) => i < |es| && to == Some(es[i].id) && Spare(es, fs.files[..], i) && OneMore(es0, es, es[i].id)
      case NotFound => to == None && SameUses(es0, es)
      case OutOfInodes => SameUses(es0, es)
    ensures UsedStay(old(fs.it.inodes[..]), fs.it.inodes[..])
    ensures var es0 := old(fs.it.inodes[..]);
      r == OutOfInodes <==> !CanWalk(fs.it.sbs, fs.S(), Full(es0), es0[start].id, Components(path[first..]))
    ensures OpenOf(fs.files[..], fs.it.inodes[..]) == old(OpenOf(fs.files[..], fs.it.inodes[..]))
  {
    hide Ready, View, Core, InUse, SameUse, FilesOpen, NoRoom, SameUses, OneMore, Abs, Taken, Distinct, Walk, Components,
      Inos, EndOf, Lookup, FindInSlots, Spare, OpenOf, CanWalk, Full, Orderly, UsedStay;
    ghost var c0, s0, es0, from := fs.it.bt.State(), fs.S(), fs.it.inodes[..], fs.it.inodes[start].id;
    EntryNow(fs.it.sbs, fs.V(), es0, fs.own, start);
    SameUsesSelf(es0);
    CoreOrderly(fs.it.sbs, fs.V(), es0, fs.own);
    ghost var full := Full(es0);
    var id := fs.it.inodes[start].id;
    FullIs(es0, id);
    NoWalk(fs.it.sbs, s0, full, id, Components(path[first..]));
    var t := TakeUse(fs, id, es0);
    if t.None? {
      return OutOfInodes;
    }
    var i, pos := t.value, first;
    while pos < |path|
      invariant pos <= |path| && ValidId(fs.it.sbs, id)
      invariant fs.Valid() && fs.S() == s0 && SameUse(c0, fs.it.bt.State())
      invariant Taken(fs.it.inodes[..], fs.files[..], i, id) && OneMore(es0, fs.it.inodes[..], id)
      invariant OpenOf(fs.files[..], fs.it.inodes[..]) == old(OpenOf(fs.files[..], fs.it.inodes[..]))
      invariant Walk(fs.it.sbs, s0, from, Components(path[first..])) == Walk(fs.it.sbs, s0, id, Components(path[pos..]))
      invariant id !in full && UsedStay(es0, fs.it.inodes[..])
      invariant CanWalk(fs.it.sbs, s0, full, from, Components(path[first..]))
        == CanWalk(fs.it.sbs, s0, full, id, Components(path[pos..]))
    {
      var e := SkipComponent(path, pos);
      WalkNext(fs.it.sbs, s0, full, id, path, pos, e);
      var next := Step(fs, i, id, path[pos..e], c0, es0);
      if next.None? {
        return NotFound;
      }
      id := next.value;
      pos := if e < |path| then e + 1 else e;
      FullIs(es0, id);
      NoWalk(fs.it.sbs, s0, full, id, Components(path[pos..]));
      ghost var c := fs.it.bt.State();
      t := TakeUse(fs, id, es0);
      SameUseTrans(c0, c, fs.it.bt.State());
      if t.None? {
        return OutOfInodes;
      }
      i := t.value;
    }
    WalkEnd(fs.it.sbs, s0, full, id, path, pos);
    TakenFacts(fs.it.inodes[..], fs.files[..], i, id);
    return Found(i);
  }

  /** Looks the name up in the directory held, and lets the directory go. */
  method Step(fs: FileSystem, i: nat, id: InoId, name: Name, ghost c0: Cache, ghost es0: seq<Inode>)
    returns (next: Option<InoId>)
    requires fs.Valid() && SameUse(c0, fs.it.bt.State())
    requires Taken(fs.it.inodes[..], fs.files[..], i, id) && OneMore(es0, fs.it.inodes[..], id)
    requires UsedStay(es0, fs.it.inodes[..])
    modifies fs.it.bt, fs.it.bt.blocks, fs.it.inodes
    ensures fs.Valid() && fs.S() == old(fs.S()) && SameUse(c0, fs.it.bt.State()) && SameUses(es0, fs.it.inodes[..])
    ensures UsedStay(es0, fs.it.inodes[..])
    ensures next == Lookup(fs.it.sbs, fs.S(), id, name)
    ensures next.Some? ==> ValidId(fs.it.sbs, next.value)
    ensures OpenOf(fs.files[..], fs.it.inodes[..]) == old(OpenOf(fs.files[..], fs.it.inodes[..]))
  {
    hide Ready, View, Core, InUse, SameUse, FilesOpen, SameUses, OneMore, Abs, Taken, Distinct, Lookup, FindInSlots, OpenOf,
      UsedStay;
    ghost var s, c := fs.S(), fs.it.bt.State();
    TakenFacts(fs.it.inodes[..], fs.files[..], i, id);
    var n := DirLookup(fs, i, name);
    LookupIs(fs.it.sbs, s, id, name);
    SameUseTrans(c0, c, fs.it.bt.State());
    c := fs.it.bt.State();
    DropUse(fs, i, id, es0);
    SameUseTrans(c0, c, fs.it.bt.State());
    if n.None? || !ValidId(fs.it.sbs, InoId(id.dev, n.value)) {
      return None;
    }
    return Some(InoId(id.dev, n.value));
  }

  lemma LookupIs(sbs: Supers, s: State, dir: InoId, name: Name)
    requires dir in s.ino
    ensures Lookup(sbs, s, dir, name) ==
      match FindInSlots(dir.dev, s.ino[dir].addr, s.data, name, 0)
      case None => None
      case Some(n) => if ValidId(sbs, InoId(dir.dev, n)) then Some(InoId(dir.dev, n)) else None
  {
  }

  lemma TakenFacts(es: seq<Inode>, files: seq<File>, i: nat, id: InoId)
    requires Taken(es, files, i, id)
    ensures i < |es| && es[i].id == id && id.num != 0 && Spare(es, files, i)
  {
  }

  /** The inodes there is no room to use once more. */
  ghost function Full(es: seq<Inode>): iset<InoId> {
    iset id: InoId | id.num != 0 && NoRoom(es, id)
  }

  lemma FullIs(es: seq<Inode>, id: InoId)
    requires id.num != 0
    ensures id in Full(es) <==> NoRoom(es, id)
  {
  }

  lemma NoWalk(sbs: Supers, s: State, full: iset<InoId>, from: InoId, names: seq<Name>)
    ensures from in full ==> !CanWalk(sbs, s, full, from, names)
  {
  }

  lemma SameUsesSelf(es: seq<Inode>)
    ensures SameUses(es, es) && UsedStay(es, es)
  {
  }

  lemma WalkEnd(sbs: Supers, s: State, full: iset<InoId>, id: InoId, path: seq<byte>, pos: nat)
    requires pos == |path|
    ensures Walk(sbs, s, id, Components(path[pos..])) == Some(id)
    ensures CanWalk(sbs, s, full, id, Components(path[pos..])) == (id !in full)
  {
  }
}
