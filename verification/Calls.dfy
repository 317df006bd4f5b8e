/** The system calls put together: sys_open from a path, and runs of calls by any processes. */
module Calls {
  import Bitmap
  import opened Blocks
  import opened CacheSpec
  import opened CacheClient
  import opened DiskInodes
  import opened Volume
  import opened InodeSpec
  import opened InodeCache
  import opened FsState
  import opened Files
  import opened FileSteps
  import opened FileSys
  import opened Descriptors
  import opened Machine
  import opened Paths
  import opened InodeUses
  import opened Namei

  // ---------- The machine as its callers see it ----------

  ghost function Ids(es: seq<Inode>): seq<InoId> {
    seq(|es|, i requires 0 <= i < |es| => es[i].id)
  }

  ghost function UsesMap(es: seq<Inode>): imap<InoId, nat> {
    imap id: InoId | id.num != 0 :: Uses(es, id)
  }

  ghost function Now(dt: DescriptorTable): System
    reads dt, dt.fs, dt.fs.it, dt.fs.it.bt, dt.fs.it.bt.blocks, dt.fs.it.inodes, dt.fs.files
  {
    System(dt.fs.S(), dt.filp, OpenOf(dt.fs.files[..], dt.fs.it.inodes[..]), Ids(dt.fs.it.inodes[..]),
           UsesMap(dt.fs.it.inodes[..]), dt.fs.files.Length)
  }

  lemma UsesSame(es: seq<Inode>, fs: seq<Inode>)
    requires SameUses(es, fs)
    ensures UsesMap(fs) == UsesMap(es)
  {
    hide Uses;
  }

  lemma UsesMore(es: seq<Inode>, fs: seq<Inode>, id: InoId)
    requires OneMore(es, fs, id) && id.num != 0
    ensures UsesMap(fs) == UsesMap(es)[id := Uses(es, id) + 1]
  {
    hide Uses;
  }

  /** Dropping a use of an entry drops one use of its inode. */
  lemma UsesLess(es: seq<Inode>, i: nat)
    requires Distinct(es) && i < |es| && es[i].id.num != 0 && es[i].count > 0
    ensures Uses(es, es[i].id) > 0
    ensures UsesMap(LessUsed(es, i)) == UsesMap(es)[es[i].id := (Uses(es, es[i].id) - 1) as nat]
    ensures Ids(LessUsed(es, i)) == Ids(es)
  {
    UsesOfEntry(es, i);
    var fs := LessUsed(es, i);
    forall x: InoId | x.num != 0
      ensures Uses(fs, x) == if x == es[i].id then Uses(es, x) - 1 else Uses(es, x)
    {
      SameFind(es, fs, x);
      var r := FindIno(es, x, 0);
      assert r < |es| && r == i ==> x == es[i].id;
    }
  }

  /** Emptying an entry leaves its inode without uses in core. */
  lemma UsesWiped(es: seq<Inode>, i: nat)
    requires Distinct(es) && i < |es| && es[i].id.num != 0
    ensures UsesMap(Wiped(es, i)) == UsesMap(es)[es[i].id := 0]
    ensures Ids(Wiped(es, i)) == Ids(es)[i := InoId(0, 0)]
  {
    hide Uses;
    var fs := Wiped(es, i);
    forall x: InoId | x.num != 0
      ensures Uses(fs, x) == if x == es[i].id then 0 else Uses(es, x)
    {
      WipedUses(es, i, x);
    }
  }

  lemma WipedUses(es: seq<Inode>, i: nat, x: InoId)
    requires Distinct(es) && i < |es| && es[i].id.num != 0 && x.num != 0
    ensures Uses(Wiped(es, i), x) == if x == es[i].id then 0 else Uses(es, x)
  {
    var fs, r := Wiped(es, i), FindIno(es, x, 0);
    if r < |es| && x != es[i].id {
      assert fs[r] == es[r];
      UsesOfEntry(fs, r);
    } else {
      UsesOfNone(fs, x);
    }
  }

  lemma StayIsKept(es: seq<Inode>, fs: seq<Inode>, m: System, n: System)
    requires Orderly(es) && UsedStay(es, fs)
    requires m.core == Ids(es) && m.uses == UsesMap(es) && n.core == Ids(fs)
    ensures CoreKept(m, n)
  {
    hide Uses;
    forall i | 0 <= i < |es| && es[i].id.num != 0 && UsesOf(m, es[i].id) > 0
      ensures fs[i].id == es[i].id
    {
      UsesOfEntry(es, i);
    }
  }

  lemma SameFullSet(es: seq<Inode>, m: System)
    requires Orderly(es) && m.core == Ids(es) && m.uses == UsesMap(es)
    ensures FullIn(m) == Full(es)
  {
    hide Uses, NoRoom, Orderly, AllUsed, AllInUse;
    AllUsedIs(es, m);
    forall id: InoId | id.num != 0
      ensures NoRoom(es, id) <==> UsesOf(m, id) == MAX_COUNT || (UsesOf(m, id) == 0 && AllUsed(m))
    {
      NoRoomIs(es, id);
    }
  }

  lemma AllUsedIs(es: seq<Inode>, m: System)
    requires Orderly(es) && m.core == Ids(es) && m.uses == UsesMap(es)
    ensures AllUsed(m) <==> AllInUse(es)
  {
    hide Uses;
    forall i | 0 <= i < |es|
      ensures es[i].count != 0 <==> m.core[i].num != 0 && UsesOf(m, m.core[i]) > 0
    {
      if es[i].id.num != 0 {
        UsesOfEntry(es, i);
      }
    }
  }

  // ---------- sys_open ----------

  lemma BlankIsNotRegular()
    ensures !IsRegular(NO_INODE)
  {
  }

  /** A regular file is an allocated inode: the number of every free inode is the number of a blank one. */
  lemma RegularIsAllocated(sbs: Supers, v: Disk, es: seq<Inode>, own: map<Addr, Owner>, i: nat)
    requires Core(sbs, v, es, own) && i < |es| && es[i].id.num != 0 && es[i].count > 0 && IsRegular(es[i].din)
    ensures InUse(sbs, v, es, i)
  {
    EntryNow(sbs, v, es, own, i);
    BlankIsNotRegular();
    hide Inos, InoAt, Owns, FilesOk, Mounted, ICacheInv, FreeInodesBlank, NO_INODE, IsRegular;
    FreeIsBlank(sbs, Abs(sbs, v, es), es[i].id);
  }

  lemma FreeIsBlank(sbs: Supers, s: State, id: InoId)
    requires FreeInodesBlank(sbs, s) && id.dev < |sbs|
    ensures id.num in s.freeIno[id.dev] ==> id in s.ino && s.ino[id] == NO_INODE
  {
  }

  /**
   * kernel/fs/open_close.c:14-60. A slot is given out exactly when the path leads to a regular file and there is room
   * for everything on the way; it then leads to that file. However the call ends, no use is lost or left over.
   */
  method Open(dt: DescriptorTable, pid: nat, path: seq<byte>, cwd: nat, flags: nat) returns (r: Option<nat>)
    requires dt.Valid() && cwd < dt.fs.it.inodes.Length && dt.fs.it.inodes[cwd].id.num != 0
    requires ROOT_ENTRY < dt.fs.it.inodes.Length && dt.fs.it.inodes[ROOT_ENTRY].id.num != 0
    modifies dt, dt.fs.it.bt, dt.fs.it.bt.blocks, dt.fs.it.inodes, dt.fs.files
    ensures dt.Valid() && SameUse(old(dt.fs.it.bt.State()), dt.fs.it.bt.State())
    ensures r.Some? <==> CanOpen(dt.fs.it.sbs, old(Now(dt)), pid, path, cwd)
    ensures r.None? ==> Nothing(old(Now(dt)), Now(dt))
    ensures r.Some? ==> Opened1(dt.fs.it.sbs, old(Now(dt)), pid, path, cwd, r.value, Now(dt))
  {
    hide Walk, CanWalk, Components, Spare, OneMore, SameUses, IsRegular, LessUsed, GotFile, NamedByFile, Counted, Core, Abs,
      FilesOpen, Ready, View, Distinct, InUse, SameUse, OpenOf, Joined, FileRoom, UsesMap, Ids, UsedStay, Orderly, Full,
      FullIn, NoSlot, IsLowest, CoreKept, UsesOf, Unopened;
    ghost var c0, m, es0 := dt.fs.it.bt.State(), Now(dt), dt.fs.it.inodes[..];
    CoreOrderly(dt.fs.it.sbs, dt.fs.V(), es0, dt.fs.own);
    SameFullSet(es0, m);
    StartIs(m, es0, path, cwd);
    var n := NamePath(dt.fs, path, cwd);
    ghost var c1 := dt.fs.it.bt.State();
    if !n.Found? {
      UsesSame(es0, dt.fs.it.inodes[..]);
      StayIsKept(es0, dt.fs.it.inodes[..], m, Now(dt));
      return None;
    }
    var i := n.entry;
    SpareIsTagged(dt.fs.it.sbs, dt.fs.V(), dt.fs.it.inodes[..], dt.fs.own, dt.fs.files[..], i);
    ghost var id := dt.fs.it.inodes[i].id;
    r := OpenFound(dt, pid, i, flags, es0);
    SameUseTrans(c0, c1, dt.fs.it.bt.State());
    StayIsKept(es0, dt.fs.it.inodes[..], m, Now(dt));
    UsesAre(es0, m, id);
    if r.Some? && Unopened(m.open, id) {
      UsesMore(es0, dt.fs.it.inodes[..], id);
    } else {
      UsesSame(es0, dt.fs.it.inodes[..]);
    }
  }

  lemma UsesAre(es: seq<Inode>, m: System, id: InoId)
    requires m.uses == UsesMap(es) && id.num != 0
    ensures UsesOf(m, id) == Uses(es, id)
  {
  }

  lemma StartIs(m: System, es: seq<Inode>, path: seq<byte>, cwd: nat)
    requires m.core == Ids(es) && cwd < |es| && es[cwd].id.num != 0 && ROOT_ENTRY < |es| && es[ROOT_ENTRY].id.num != 0
    ensures InCore(m, 0) && InCore(m, cwd)
    ensures var abs := path != [] && path[0] == SLASH;
      && Start(m, path, cwd) == es[if abs then ROOT_ENTRY else cwd].id
      && Names(path) == Components(path[if abs then 1 else 0..])
  {
    assert path[0..] == path;
  }

  /** From the inode the walk found on: kernel/fs/open_close.c:29-57. */
  method OpenFound(dt: DescriptorTable, pid: nat, i: nat, flags: nat, ghost es0: seq<Inode>) returns (r: Option<nat>)
    requires dt.Valid() && i < dt.fs.it.inodes.Length && Spare(dt.fs.it.inodes[..], dt.fs.files[..], i)
    requires dt.fs.it.inodes[i].id.num != 0 && OneMore(es0, dt.fs.it.inodes[..], dt.fs.it.inodes[i].id)
    requires UsedStay(es0, dt.fs.it.inodes[..])
    modifies dt, dt.fs.it.bt, dt.fs.it.bt.blocks, dt.fs.it.inodes, dt.fs.files
    ensures dt.Valid() && dt.fs.S() == old(dt.fs.S()) && SameUse(old(dt.fs.it.bt.State()), dt.fs.it.bt.State())
    ensures UsedStay(es0, dt.fs.it.inodes[..]) && old(dt.fs.it.inodes[i].id) in dt.fs.S().ino
    ensures var id := old(dt.fs.it.inodes[i].id);
      r.Some? <==>
        (IsRegular(dt.fs.S().ino[id]) && !NoSlot(old(dt.filp), pid)
         && FileRoom(old(Now(dt)).open, old(dt.filp), dt.fs.files.Length, id))
    ensures r.None? ==> dt.filp == old(dt.filp) && Now(dt).open == old(Now(dt)).open && SameUses(es0, dt.fs.it.inodes[..])
    ensures r.Some? ==>
      var es, d, id := dt.fs.it.inodes[..], Desc(pid, r.value), old(dt.fs.it.inodes[i].id);
      && IsLowest(old(dt.filp), pid, r.value) && d in dt.filp && dt.filp == old(dt.filp)[d := dt.filp[d]]
      && dt.filp[d] < dt.fs.files.Length && Joined(old(Now(dt)).open, id, dt.filp[d], Now(dt).open)
      && (if Unopened(old(Now(dt)).open, id) then OneMore(es0, es, id) else SameUses(es0, es))
  {
    hide OneMore, SameUses, IsRegular, Counted, Core, Abs, FilesOpen, Ready, View, Spare, LessUsed, GotFile, NamedByFile,
      Distinct, InUse, SameUse, OpenOf, Joined, FilesFull, FileRoom, UsesMap, Ids, UsedStay, NoSlot, IsLowest, Unopened;
    ghost var files0, es1, id := dt.fs.files[..], dt.fs.it.inodes[..], dt.fs.it.inodes[i].id;
    SpareUse(es1, files0, i);
    CoreDistinct(dt.fs.it.sbs, dt.fs.V(), es1, dt.fs.own);
    PutBack(es0, es1, i);
    OpenAfterPut(files0, es1, i);
    StayAfterPut(es0, es1, i);
    EntryState(dt.fs.it.sbs, dt.fs.V(), es1, dt.fs.own, i);
    if !IsRegular(dt.fs.it.inodes[i].din) {
      dt.fs.PutInodeUse(i);
      return None;
    }
    RegularIsAllocated(dt.fs.it.sbs, dt.fs.V(), es1, dt.fs.own, i);
    OnceNamed(dt.fs.it.sbs, dt.fs.V(), es1, files0);
    AllLead(dt.fs.it.sbs, dt.fs.V(), es1, files0);
    RoomIsRoom(files0, es1, dt.filp, i);
    r := dt.SysOpen(pid, i, flags);
    if r.Some? {
      GotFileFacts(files0, dt.fs.files[..], dt.filp[Desc(pid, r.value)], i);
      OpenJoined(files0, es1, dt.fs.files[..], dt.filp[Desc(pid, r.value)], i);
      OpenAfterPut(dt.fs.files[..], es1, i);
    }
  }

  /** Room in the open-file table, told from descriptors and open files. */
  lemma RoomIsRoom(files: seq<File>, es: seq<Inode>, filp: map<Desc, nat>, i: nat)
    requires Counted(filp, files) && Distinct(es) && i < |es| && es[i].id.num != 0
    requires forall f, g :: 0 <= f < g < |files| && files[f].count > 0 && files[g].count > 0 ==>
      files[f].inode != files[g].inode
    requires forall f :: 0 <= f < |files| ==> files[f].count <= MAX_COUNT
    requires forall f :: 0 <= f < |files| && files[f].count > 0 ==> files[f].inode < |es|
    ensures FileRoom(OpenOf(files, es), filp, |files|, es[i].id) <==> !FilesFull(files, i)
    ensures Unopened(OpenOf(files, es), es[i].id) <==> !NamedByFile(files, i)
  {
    hide Users;
    var open, id := OpenOf(files, es), es[i].id;
    NamedIs(files, es, i);
    if NamedByFile(files, i) {
      var f :| 0 <= f < |files| && files[f].count > 0 && files[f].inode == i;
      assert open[f].id == id && |Users(filp, f)| == files[f].count;
      assert forall g :: g in open && open[g].id == id ==> g == f;
    } else {
      assert forall f :: 0 <= f < |files| ==> (f in open <==> files[f].count > 0);
    }
  }

  lemma NamedIs(files: seq<File>, es: seq<Inode>, i: nat)
    requires Distinct(es) && i < |es| && es[i].id.num != 0
    ensures Unopened(OpenOf(files, es), es[i].id) <==> !NamedByFile(files, i)
  {
    var open := OpenOf(files, es);
    if NamedByFile(files, i) {
      var f :| 0 <= f < |files| && files[f].count > 0 && files[f].inode == i;
      assert f in open && open[f].id == es[i].id;
    }
  }

  /** What fget does to the table is joining the file. */
  lemma OpenJoined(files: seq<File>, es: seq<Inode>, after: seq<File>, f: nat, i: nat)
    requires GotFile(files, after, f, i) && Distinct(es) && i < |es| && es[i].id.num != 0
    ensures Joined(OpenOf(files, es), es[i].id, f, OpenOf(after, es))
  {
  }

  /** An empty entry has no users. */
  lemma SpareIsTagged(sbs: Supers, v: Disk, es: seq<Inode>, own: map<Addr, Owner>, files: seq<File>, i: nat)
    requires Core(sbs, v, es, own) && Spare(es, files, i)
    ensures es[i].id.num != 0
  {
    assert EntryOk(sbs, v, es[i]);
  }

  lemma EntryState(sbs: Supers, v: Disk, es: seq<Inode>, own: map<Addr, Owner>, i: nat)
    requires Core(sbs, v, es, own) && i < |es| && es[i].id.num != 0
    ensures es[i].id in Abs(sbs, v, es).ino && Abs(sbs, v, es).ino[es[i].id] == es[i].din
  {
    hide Core;
    EntryNow(sbs, v, es, own, i);
  }

  // ---------- One call ----------

  /** A descriptor that is set leads to a live entry. */
  lemma LeadsTo(dt: DescriptorTable, d: Desc)
    requires dt.Valid() && d in dt.filp
    ensures var f := dt.filp[d];
      && f < dt.fs.files.Length && dt.fs.files[f].count > 0 && dt.fs.files[f].inode < dt.fs.it.inodes.Length
      && f in Now(dt).open
      && Now(dt).open[f] == Cursor(dt.fs.it.inodes[dt.fs.files[f].inode].id, dt.fs.files[f].off)
  {
    hide Core, Abs, Ready, View, InUse, Counted, FilesOpen;
    LiveSlot(dt.filp, dt.fs.files[..], d);
    OpenFileFacts(dt.fs.it.sbs, dt.fs.V(), dt.fs.it.inodes[..], dt.fs.files[..], dt.filp[d]);
  }

  /** Moving a cursor moves that cursor. */
  lemma OpenMoved(files: seq<File>, es: seq<Inode>, after: seq<File>, fs: seq<Inode>, f: nat, off: nat)
    requires |fs| == |es| && forall i :: 0 <= i < |es| ==> fs[i].id == es[i].id && fs[i].count == es[i].count
    requires f < |files| && files[f].count > 0 && files[f].inode < |es|
    requires after == files[f := files[f].(off := off)]
    ensures f in OpenOf(files, es)
    ensures OpenOf(after, fs) == OpenOf(files, es)[f := OpenOf(files, es)[f].(off := off)] && Ids(fs) == Ids(es)
    ensures UsesMap(fs) == UsesMap(es)
  {
    forall x: InoId | x.num != 0
      ensures Uses(fs, x) == Uses(es, x)
    {
      SameFind(es, fs, x);
    }
  }

  lemma CountsStay(filp: map<Desc, nat>, files: seq<File>, after: seq<File>)
    requires Counted(filp, files) && |after| == |files|
    requires forall f :: 0 <= f < |files| ==> after[f].count == files[f].count
    ensures Counted(filp, after)
  {
  }

  lemma GrewIds(es: seq<Inode>, fs: seq<Inode>)
    requires Grew(es, fs)
    ensures |fs| == |es| && forall i :: 0 <= i < |es| ==> fs[i].id == es[i].id && fs[i].count == es[i].count
  {
  }

  method DoWrite(dt: DescriptorTable, pid: nat, fd: int, buf: seq<byte>) returns (a: Answer)
    requires dt.Valid()
    modifies dt.fs`own, dt.fs.it.bt, dt.fs.it.bt.blocks, dt.fs.it.inodes, dt.fs.files
    ensures dt.Valid() && Does(dt.fs.it.sbs, old(Now(dt)), WriteCall(pid, fd, buf), a, Now(dt))
    ensures SameUse(old(dt.fs.it.bt.State()), dt.fs.it.bt.State())
  {
    hide Core, Abs, FilesOpen, Ready, View, InUse, SameUse, Counted, Wrote, Grew, OpenOf, Ids, UsesMap, AsMuchAsFits;
    SameUseSelf(dt.fs.it.bt.State());
    if fd < 0 || Desc(pid, fd) !in dt.filp {
      return Refused;
    }
    LeadsTo(dt, Desc(pid, fd));
    var f := dt.filp[Desc(pid, fd)];
    ghost var files, es := dt.fs.files[..], dt.fs.it.inodes[..];
    var n := dt.fs.SysWrite(f, buf);
    CountsStay(dt.filp, files, dt.fs.files[..]);
    GrewIds(es, dt.fs.it.inodes[..]);
    OpenMoved(files, es, dt.fs.files[..], dt.fs.it.inodes[..], f, files[f].off + n);
    return Count(n);
  }

  method DoRead(dt: DescriptorTable, pid: nat, fd: int, buffsize: nat) returns (a: Answer)
    requires dt.Valid()
    modifies dt.fs.it.bt, dt.fs.it.bt.blocks, dt.fs.files
    ensures dt.Valid() && Does(dt.fs.it.sbs, old(Now(dt)), ReadCall(pid, fd, buffsize), a, Now(dt))
    ensures SameUse(old(dt.fs.it.bt.State()), dt.fs.it.bt.State())
  {
    hide Core, Abs, FilesOpen, Ready, View, InUse, SameUse, Counted, OpenOf, Ids, Content, UsesMap;
    SameUseSelf(dt.fs.it.bt.State());
    if fd < 0 || Desc(pid, fd) !in dt.filp {
      return Refused;
    }
    LeadsTo(dt, Desc(pid, fd));
    var f := dt.filp[Desc(pid, fd)];
    ghost var files, es := dt.fs.files[..], dt.fs.it.inodes[..];
    var buf := new byte[buffsize](_ => 0);
    var n := dt.fs.SysRead(f, buf, buffsize);
    CountsStay(dt.filp, files, dt.fs.files[..]);
    OpenMoved(files, es, dt.fs.files[..], es, f, files[f].off + n);
    ghost var content := Content(dt.fs.S(), es[files[f].inode].id);
    assert buf[..n] == content[files[f].off..files[f].off + n];
    return Bytes(buf[..n]);
  }

  method DoSeek(dt: DescriptorTable, pid: nat, fd: int, offset: int, whence: Whence) returns (a: Answer)
    requires dt.Valid()
    modifies dt.fs.files
    ensures dt.Valid() && Does(dt.fs.it.sbs, old(Now(dt)), SeekCall(pid, fd, offset, whence), a, Now(dt))
    ensures SameUse(old(dt.fs.it.bt.State()), dt.fs.it.bt.State())
  {
    hide Core, Abs, FilesOpen, Ready, View, InUse, SameUse, Counted, OpenOf, Ids, UsesMap;
    SameUseSelf(dt.fs.it.bt.State());
    if fd < 0 || Desc(pid, fd) !in dt.filp {
      return Refused;
    }
    LeadsTo(dt, Desc(pid, fd));
    var f := dt.filp[Desc(pid, fd)];
    ghost var files, es := dt.fs.files[..], dt.fs.it.inodes[..];
    OpenFileFacts(dt.fs.it.sbs, dt.fs.V(), es, files, f);
    UsedTag(dt.fs.it.sbs, dt.fs.V(), es, files[f].inode);
    EntryState(dt.fs.it.sbs, dt.fs.V(), es, dt.fs.own, files[f].inode);
    var r := dt.fs.SysSeek(f, offset, whence);
    CountsStay(dt.filp, files, dt.fs.files[..]);
    OpenMoved(files, es, dt.fs.files[..], es, f, dt.fs.files[f].off);
    if r.None? {
      assert dt.fs.files[..] == files;
      return Refused;
    }
    return Offset(r.value);
  }

  lemma ClosedOpen(filp: map<Desc, nat>, files: seq<File>, es: seq<Inode>, filp': map<Desc, nat>, files': seq<File>,
                   es': seq<Inode>, d: Desc)
    requires Counted(filp, files) && Closed(filp, files, es, filp', files', es', d) && Orderly(es)
    requires forall f :: 0 <= f < |files| && files[f].count > 0 ==> files[f].inode < |es|
    ensures d in filp && filp' == filp - {d} && Ids(es') == Ids(es)
    ensures filp[d] in OpenOf(files, es)
    ensures var f, id := filp[d], OpenOf(files, es)[filp[d]].id;
      if Users(filp', f) == {} then
        OpenOf(files', es') == OpenOf(files, es) - {f}
        && Uses(es, id) > 0 && id.num != 0 && UsesMap(es') == UsesMap(es)[id := (Uses(es, id) - 1) as nat]
      else OpenOf(files', es') == OpenOf(files, es) && UsesMap(es') == UsesMap(es)
  {
    hide Uses, UsesMap, Ids;
    LiveSlot(filp, files, d);
    LastUser(filp, files, d);
    var f := filp[d];
    if Users(filp', f) == {} {
      UsesLess(es, files[f].inode);
    }
  }

  method DoClose(dt: DescriptorTable, pid: nat, fd: int) returns (a: Answer)
    requires dt.Valid()
    modifies dt, dt.fs.it.bt, dt.fs.it.bt.blocks, dt.fs.it.inodes, dt.fs.files
    ensures dt.Valid() && Does(dt.fs.it.sbs, old(Now(dt)), CloseCall(pid, fd), a, Now(dt))
    ensures SameUse(old(dt.fs.it.bt.State()), dt.fs.it.bt.State())
  {
    hide Core, Abs, FilesOpen, Ready, View, InUse, SameUse, Counted, OpenOf, Ids, Closed, Users, UsesMap, Orderly;
    ghost var m, filp, files, es := Now(dt), dt.filp, dt.fs.files[..], dt.fs.it.inodes[..];
    CoreOrderly(dt.fs.it.sbs, dt.fs.V(), es, dt.fs.own);
    AllLead(dt.fs.it.sbs, dt.fs.V(), es, files);
    SlotsInRange(filp, files);
    var ok := dt.SysClose(pid, fd);
    if !ok {
      return Refused;
    }
    ghost var d := Desc(pid, fd);
    ClosedOpen(filp, files, es, dt.filp, dt.fs.files[..], dt.fs.it.inodes[..], d);
    if Users(dt.filp, filp[d]) == {} {
      UsesAre(es, m, m.open[filp[d]].id);
    }
    return Done;
  }

  lemma AllLead(sbs: Supers, v: Disk, es: seq<Inode>, files: seq<File>)
    requires FilesOpen(sbs, v, es, files)
    ensures forall f :: 0 <= f < |files| && files[f].count > 0 ==> files[f].inode < |es|
  {
    forall f | 0 <= f < |files| && files[f].count > 0
      ensures files[f].inode < |es|
    {
      OpenFileFacts(sbs, v, es, files, f);
    }
  }

  lemma SlotsInRange(filp: map<Desc, nat>, files: seq<File>)
    requires Counted(filp, files)
    ensures forall d :: d in filp ==> d.fd < NR_OFILES
  {
  }

  /** kernel/fs/inode.c:85-110; the caller has the use of the new inode that ialloc returns. */
  method DoAlloc(dt: DescriptorTable, dev: nat) returns (a: Answer)
    requires dt.Valid()
    modifies dt.fs.it.bt, dt.fs.it.bt.blocks, dt.fs.it.inodes
    ensures dt.Valid() && Does(dt.fs.it.sbs, old(Now(dt)), AllocCall(dev), a, Now(dt))
    ensures SameUse(old(dt.fs.it.bt.State()), dt.fs.it.bt.State())
  {
    hide Core, Abs, FilesOpen, Ready, View, InUse, SameUse, Gets, NO_INODE, OpenOf, UsesMap, Orderly, UsedStay, SameUses,
      OneMore, Full, FullIn, CoreKept, NoRoom, Distinct, Bitmap.IsFirst, NoNumberFor;
    ghost var m, v0, es0, files := Now(dt), dt.fs.V(), dt.fs.it.inodes[..], dt.fs.files[..];
    SameUseSelf(dt.fs.it.bt.State());
    CoreShape(dt.fs.it.sbs, v0, es0, dt.fs.own);
    CoreOrderly(dt.fs.it.sbs, v0, es0, dt.fs.own);
    SameFullSet(es0, m);
    KeptSelf(m);
    if dev >= |dt.fs.it.sbs| {
      return Refused;
    }
    NumbersValid(dt.fs.it.sbs, v0, es0, dt.fs.own, dev);
    NoNumberIs(m, es0, dev);
    var r := dt.fs.Ialloc(dev);
    if r.None? {
      return Refused;
    }
    var i := r.value;
    ghost var es := dt.fs.it.inodes[..];
    UsedTag(dt.fs.it.sbs, dt.fs.V(), es, i);
    SameUsesSelf(es0);
    CoreDistinct(dt.fs.it.sbs, v0, es0, dt.fs.own);
    CoreDistinct(dt.fs.it.sbs, dt.fs.V(), es, dt.fs.own);
    GetsOneMore(es0, es, i, es[i].id);
    UsesMore(es0, es, es[i].id);
    UsesAre(es0, m, es[i].id);
    StayAfterGet(es0, es0, es, i, es[i].id);
    StayIsKept(es0, es, m, Now(dt));
    OpenAfterGet(dt.fs.it.sbs, v0, es0, es, files, i, es[i].id);
    return Entry(i);
  }

  lemma NumbersValid(sbs: Supers, v: Disk, es: seq<Inode>, own: map<Addr, Owner>, dev: nat)
    requires Core(sbs, v, es, own) && dev < |sbs| && dev < |Abs(sbs, v, es).freeIno|
    ensures forall num :: num in Abs(sbs, v, es).freeIno[dev] ==> num != 0
  {
    hide Mounted, ICacheInv, Owns, FilesOk, Inos, DataOf, FreeBlks, FreeInos;
  }

  lemma NoNumberIs(m: System, es: seq<Inode>, dev: nat)
    requires dev < |m.s.freeIno| && FullIn(m) == Full(es) && forall num :: num in m.s.freeIno[dev] ==> num != 0
    ensures NoNumber(m, dev) <==> NoNumberFor(m.s.freeIno[dev], es, dev)
  {
    hide NoRoom, FullIn;
    forall num | Bitmap.IsFirst(m.s.freeIno[dev], num)
      ensures InoId(dev, num) in FullIn(m) <==> NoRoom(es, InoId(dev, num))
    {
      FullIs(es, InoId(dev, num));
    }
  }

  // ---------- Uses held by callers ----------

  /** kernel/fs/namei.c:9-33; the caller has its use of the inode found. */
  method DoName(dt: DescriptorTable, path: seq<byte>, cwd: nat) returns (a: Answer)
    requires dt.Valid()
    modifies dt.fs.it.bt, dt.fs.it.bt.blocks, dt.fs.it.inodes
    ensures dt.Valid() && Does(dt.fs.it.sbs, old(Now(dt)), NameCall(path, cwd), a, Now(dt))
    ensures SameUse(old(dt.fs.it.bt.State()), dt.fs.it.bt.State())
  {
    hide Core, Abs, FilesOpen, Ready, View, InUse, SameUse, Spare, OneMore, SameUses, Counted, OpenOf, UsesMap, CanWalk, Walk,
      Components, Orderly, UsedStay, Full, FullIn, CoreKept, UsesOf;
    ghost var m, es0 := Now(dt), dt.fs.it.inodes[..];
    SameUseSelf(dt.fs.it.bt.State());
    KeptSelf(m);
    if cwd >= dt.fs.it.inodes.Length || dt.fs.it.inodes[cwd].id.num == 0
      || ROOT_ENTRY >= dt.fs.it.inodes.Length || dt.fs.it.inodes[ROOT_ENTRY].id.num == 0 {
      return Refused;
    }
    CoreOrderly(dt.fs.it.sbs, dt.fs.V(), es0, dt.fs.own);
    SameFullSet(es0, m);
    StartIs(m, es0, path, cwd);
    var n := NamePath(dt.fs, path, cwd);
    ghost var es := dt.fs.it.inodes[..];
    StayIsKept(es0, es, m, Now(dt));
    if !n.Found? {
      UsesSame(es0, es);
      return Refused;
    }
    SpareIsTagged(dt.fs.it.sbs, dt.fs.V(), es, dt.fs.own, dt.fs.files[..], n.entry);
    UsesAre(es0, m, es[n.entry].id);
    UsesMore(es0, es, es[n.entry].id);
    return Entry(n.entry);
  }

  /** kernel/fs/inode.c:46-62, for a use that is not an open file's. */
  method DoPut(dt: DescriptorTable, i: nat) returns (a: Answer)
    requires dt.Valid()
    modifies dt.fs.it.bt, dt.fs.it.bt.blocks, dt.fs.it.inodes
    ensures dt.Valid() && Does(dt.fs.it.sbs, old(Now(dt)), PutCall(i), a, Now(dt))
    ensures SameUse(old(dt.fs.it.bt.State()), dt.fs.it.bt.State())
  {
    hide Core, Abs, FilesOpen, Ready, View, InUse, SameUse, OpenOf, Distinct, LessUsed, UsesMap, Unopened, UsesOf;
    ghost var m, files, es := Now(dt), dt.fs.files[..], dt.fs.it.inodes[..];
    SameUseSelf(dt.fs.it.bt.State());
    if i >= dt.fs.it.inodes.Length || dt.fs.it.inodes[i].id.num == 0 {
      return Refused;
    }
    CoreDistinct(dt.fs.it.sbs, dt.fs.V(), es, dt.fs.own);
    EntryUses(es, m, i);
    NamedIs(files, es, i);
    var named := exists f :: 0 <= f < dt.fs.files.Length && dt.fs.files[f].count > 0 && dt.fs.files[f].inode == i;
    assert named == NamedByFile(files, i);
    if dt.fs.it.inodes[i].count <= if named then 1 else 0 {
      return Refused;
    }
    UsesLess(es, i);
    UsesAre(es, m, es[i].id);
    OpenAfterPut(files, es, i);
    dt.fs.PutInodeUse(i);
    return Done;
  }

  // ---------- Freeing ----------

  /** An entry no open file names is the entry of a file nobody has open. */
  lemma NotOpen(files: seq<File>, es: seq<Inode>, i: nat)
    requires Distinct(es) && i < |es| && es[i].id.num != 0
    requires forall f :: 0 <= f < |files| ==> files[f].count == 0 || files[f].inode != i
    ensures Unopened(OpenOf(files, es), es[i].id)
    ensures OpenOf(files, Wiped(es, i)) == OpenOf(files, es)
  {
  }

  lemma IsOpen(files: seq<File>, es: seq<Inode>, f: nat)
    requires f < |files| && files[f].count > 0 && files[f].inode < |es|
    ensures !Unopened(OpenOf(files, es), es[files[f].inode].id)
  {
    assert f in OpenOf(files, es);
  }

  /** Uses of an entry's inode, as the machine sees them. */
  lemma EntryUses(es: seq<Inode>, m: System, i: nat)
    requires Distinct(es) && i < |es| && es[i].id.num != 0 && m.core == Ids(es) && m.uses == UsesMap(es)
    ensures InCore(m, i) && m.core[i] == es[i].id && UsesOf(m, es[i].id) == es[i].count
  {
    UsesOfEntry(es, i);
  }

  method DoFree(dt: DescriptorTable, i: nat) returns (a: Answer)
    requires dt.Valid()
    modifies dt.fs`own, dt.fs.it.bt, dt.fs.it.bt.blocks, dt.fs.it.inodes
    ensures dt.Valid() && Does(dt.fs.it.sbs, old(Now(dt)), FreeCall(i), a, Now(dt))
    ensures SameUse(old(dt.fs.it.bt.State()), dt.fs.it.bt.State())
  {
    hide Core, Abs, FilesOpen, Ready, View, InUse, SameUse, OpenOf, Distinct, Wiped, Emptied, Unlinked, IsDirectory, UsesMap,
      Unopened, UsesOf;
    ghost var m, files, es := Now(dt), dt.fs.files[..], dt.fs.it.inodes[..];
    SameUseSelf(dt.fs.it.bt.State());
    if i >= dt.fs.it.inodes.Length || dt.fs.it.inodes[i].id.num == 0 {
      return Refused;
    }
    CoreDistinct(dt.fs.it.sbs, dt.fs.V(), es, dt.fs.own);
    EntryUses(es, m, i);
    EntryState(dt.fs.it.sbs, dt.fs.V(), es, dt.fs.own, i);
    if dt.fs.it.inodes[i].count == 0 || IsDirectory(dt.fs.it.inodes[i].din) {
      return Refused;
    }
    if f :| 0 <= f < dt.fs.files.Length && dt.fs.files[f].count > 0 && dt.fs.files[f].inode == i {
      IsOpen(files, es, f);
      return Refused;
    }
    NotOpen(files, es, i);
    UsesWiped(es, i);
    dt.fs.Ifree(i);
    return Done;
  }

  method DoOpen(dt: DescriptorTable, pid: nat, path: seq<byte>, cwd: nat, flags: nat) returns (a: Answer)
    requires dt.Valid()
    modifies dt, dt.fs.it.bt, dt.fs.it.bt.blocks, dt.fs.it.inodes, dt.fs.files
    ensures dt.Valid() && Does(dt.fs.it.sbs, old(Now(dt)), OpenCall(pid, path, cwd, flags), a, Now(dt))
    ensures SameUse(old(dt.fs.it.bt.State()), dt.fs.it.bt.State())
  {
    hide Core, Abs, FilesOpen, Ready, View, InUse, SameUse, Counted, Opened1, OpenOf, UsesMap, CanWalk, Walk, Components,
      FileRoom, NoSlot, Orderly, IsRegular;
    SameUseSelf(dt.fs.it.bt.State());
    CoreOrderly(dt.fs.it.sbs, dt.fs.V(), dt.fs.it.inodes[..], dt.fs.own);
    KeptSelf(Now(dt));
    if cwd >= dt.fs.it.inodes.Length || dt.fs.it.inodes[cwd].id.num == 0
      || ROOT_ENTRY >= dt.fs.it.inodes.Length || dt.fs.it.inodes[ROOT_ENTRY].id.num == 0 {
      return Refused;
    }
    var r := Open(dt, pid, path, cwd, flags);
    return if r.Some? then Fd(r.value) else Refused;
  }

  lemma KeptSelf(m: System)
    ensures CoreKept(m, m)
  {
  }

  /** One call of one process. */
  method Perform(dt: DescriptorTable, call: Call) returns (a: Answer)
    requires dt.Valid()
    modifies dt, dt.fs`own, dt.fs.it.bt, dt.fs.it.bt.blocks, dt.fs.it.inodes, dt.fs.files
    ensures dt.Valid() && Does(dt.fs.it.sbs, old(Now(dt)), call, a, Now(dt))
    ensures SameUse(old(dt.fs.it.bt.State()), dt.fs.it.bt.State())
  {
    hide *;
    match call {
      case OpenCall(pid, path, cwd, flags) => a := DoOpen(dt, pid, path, cwd, flags);
      case CloseCall(pid, fd) => a := DoClose(dt, pid, fd);
      case WriteCall(pid, fd, buf) => a := DoWrite(dt, pid, fd, buf);
      case ReadCall(pid, fd, buffsize) => a := DoRead(dt, pid, fd, buffsize);
      case SeekCall(pid, fd, offset, whence) => a := DoSeek(dt, pid, fd, offset, whence);
      case NameCall(path, cwd) => a := DoName(dt, path, cwd);
      case PutCall(i) => a := DoPut(dt, i);
      case AllocCall(dev) => a := DoAlloc(dt, dev);
      case FreeCall(i) => a := DoFree(dt, i);
    }
  }

  // ---------- Runs ----------

  /**
   * Any run of calls by any processes is a run of the machine of files and cursors, answer for answer. It ends with
   * every descriptor counted, and with free and owned blocks disjoint and in the same total number as ever.
   */
  method Run(dt: DescriptorTable, calls: seq<Call>) returns (answers: seq<Answer>, ghost trace: seq<System>)
    requires dt.Valid()
    modifies dt, dt.fs`own, dt.fs.it.bt, dt.fs.it.bt.blocks, dt.fs.it.inodes, dt.fs.files
    ensures dt.Valid()
    ensures IsRun(dt.fs.it.sbs, trace, calls, answers)
    ensures SameUse(old(dt.fs.it.bt.State()), dt.fs.it.bt.State())
    ensures trace[0] == old(Now(dt)) && trace[|calls|] == Now(dt)
    ensures |dt.fs.S().free| == |dt.fs.it.sbs|
    ensures forall d :: 0 <= d < |dt.fs.it.sbs| ==>
      dt.fs.S().free[d] !! OwnedOn(dt.fs.own, d)
      && |dt.fs.S().free[d]| + |OwnedOn(dt.fs.own, d)| == |DataBlocks(dt.fs.it.sbs[d])|
  {
    hide Does, Now, OwnedOn, DataBlocks, DescriptorTable.Valid, FileSystem.S, SameUse;
    ghost var c0 := dt.fs.it.bt.State();
    SameUseSelf(c0);
    answers, trace := [], [Now(dt)];
    for k := 0 to |calls|
      invariant dt.Valid() && SameUse(c0, dt.fs.it.bt.State())
      invariant |answers| == k && |trace| == k + 1
      invariant trace[0] == old(Now(dt)) && trace[k] == Now(dt)
      invariant forall j :: 0 <= j < k ==> Does(dt.fs.it.sbs, trace[j], calls[j], answers[j], trace[j + 1])
    {
      ghost var c := dt.fs.it.bt.State();
      var a := Perform(dt, calls[k]);
      SameUseTrans(c0, c, dt.fs.it.bt.State());
      answers := answers + [a];
      trace := trace + [Now(dt)];
    }
    AllConserved(dt);
  }

  lemma AllConserved(dt: DescriptorTable)
    requires dt.Valid()
    ensures |dt.fs.S().free| == |dt.fs.it.sbs|
    ensures forall d :: 0 <= d < |dt.fs.it.sbs| ==>
      dt.fs.S().free[d] !! OwnedOn(dt.fs.own, d)
      && |dt.fs.S().free[d]| + |OwnedOn(dt.fs.own, d)| == |DataBlocks(dt.fs.it.sbs[d])|
  {
    hide OwnedOn, DataBlocks, Abs, Owns, Mounted, ICacheInv, FreeInodesBlank, FilesOk, View, Ready, FilesOpen, Counted;
    OwnsShape(dt.fs.it.sbs, dt.fs.S(), dt.fs.own);
    forall d | 0 <= d < |dt.fs.it.sbs|
      ensures dt.fs.S().free[d] !! OwnedOn(dt.fs.own, d)
      ensures |dt.fs.S().free[d]| + |OwnedOn(dt.fs.own, d)| == |DataBlocks(dt.fs.it.sbs[d])|
    {
      Conserved(dt.fs.it.sbs, dt.fs.S(), dt.fs.own, d);
    }
  }

  lemma OwnsShape(sbs: Supers, s: State, own: map<Addr, Owner>)
    requires Owns(sbs, s, own)
    ensures |s.free| == |sbs|
  {
  }
}
