/** A small volume with a root directory, a regular file and a device node in it, and the kernel started on it. */
module Boot {
  import opened Blocks
  import opened CacheSpec
  import opened CacheClient
  import opened BufferCache
  import opened Bitmap
  import opened FreeMap
  import opened DiskInodes
  import opened Volume
  import opened InodeSpec
  import opened InodeCache
  import opened FsState
  import opened Files
  import opened FileSteps
  import opened FileSys
  import opened Descriptors
  import opened Paths
  import opened InodeUses
  import opened Namei
  import opened Machine
  import opened Calls

  // ---------- Bitmaps of any run of positions ----------

  /** The bitmap of a block in which exactly the positions from `lo` to `hi` are free. */
  function Bits(lo: nat, hi: nat): (ws: seq<word>)
    requires hi <= WORD_BITS * WORDS
    ensures |ws| == WORDS
  {
    if hi <= lo then seq(WORDS, _ => 0) else SetBit(Bits(lo, hi - 1), hi - 1)
  }

  lemma {:induction false} FreeBits(lo: nat, hi: nat)
    requires hi <= WORD_BITS * WORDS
    ensures forall p :: p in Free(Bits(lo, hi)) <==> lo <= p < hi
    decreases hi
  {
    hide Free, SetBit;
    if hi <= lo {
      NoneFree(Bits(lo, hi));
    } else {
      FreeBits(lo, hi - 1);
      SetAdds(Bits(lo, hi - 1), hi - 1);
    }
  }

  /** The block that holds a bitmap. */
  function MapBlk(ws: seq<word>): Block
    requires |ws| == WORDS
  {
    seq(BLK_SZ, i requires 0 <= i < BLK_SZ => if i % 2 == 0 then Lo(ws[i / 2]) else Hi(ws[i / 2]))
  }

  lemma WordOfBytes(w: word)
    ensures WordOf(Lo(w), Hi(w)) == w
  {
  }

  lemma WordsOfBlock(ws: seq<word>)
    requires |ws| == WORDS
    ensures Words(MapBlk(ws)) == ws
  {
    hide WordOf, Lo, Hi;
    forall i | 0 <= i < WORDS
      ensures Words(MapBlk(ws))[i] == ws[i]
    {
      WordOfBytes(ws[i]);
    }
  }

  // ---------- The volume ----------

  const ROOT := InoId(0, 1)
  const FILE := InoId(0, 2)
  const DEVICE := InoId(0, 3)
  const NAME: Name := [102]
  const NODE: Name := [100]

  function RootDir(): (d: DInode)
    ensures |d.addr| == NADDR
  {
    DInode(0x41ff, 1, 0, 0, 40, [5, 0, 0, 0, 0, 0, 0, 0], 0, 0, 0)
  }

  function PlainFile(): (d: DInode)
    ensures |d.addr| == NADDR
  {
    DInode(0x81ff, 1, 0, 0, 2, [6, 0, 0, 0, 0, 0, 0, 0], 0, 0, 0)
  }

  /** A character device: IFCHR, 0020000. */
  function DeviceNode(): (d: DInode)
    ensures |d.addr| == NADDR
  {
    DInode(0x21ff, 1, 0, 0, 0, [0, 0, 0, 0, 0, 0, 0, 0], 0, 0, 0)
  }

  function InodeNo(num: nat): (d: DInode)
    ensures |d.addr| == NADDR
  {
    if num == 1 then RootDir() else if num == 2 then PlainFile() else if num == 3 then DeviceNode() else NO_INODE
  }

  lemma FitsSmall(d: DInode)
    requires |d.addr| == NADDR && forall i :: 0 <= i < 16 ==> Row(d)[i] < 0x1_0000_0000
    ensures Fits(d)
  {
    assert Pow256(4) == 0x1_0000_0000;
    assert Pow256(8) >= Pow256(4);
    assert forall i :: 0 <= i < 16 ==> WIDTHS[i] == 4 || WIDTHS[i] == 8;
  }

  lemma Modes()
    ensures IsDirectory(RootDir()) && !IsRegular(RootDir()) && IsRegular(PlainFile()) && !IsDirectory(PlainFile())
    ensures RootDir() != NO_INODE && PlainFile() != NO_INODE && DeviceNode() != NO_INODE
  {
  }

  /** Blocks 2, 3 and 4 are the inode table and the two maps; 5 to 7 are data. */
  function Sbs(): Supers {
    [Superblock(8, 2, 1, 3, 1, 4, 1)]
  }

  /** The inodes one after the other; there is no inode 0. */
  function Table(): Block {
    Rows(Encode(RootDir()), Encode(PlainFile()), Encode(DeviceNode()))
  }

  function Rows(r: seq<byte>, f: seq<byte>, d: seq<byte>): Block
    requires |r| == |f| == |d| == 112
  {
    ZeroBlock()[..112] + r + f + d + ZeroBlock()[448..]
  }

  /** The entries of the root: number 2 under the name "f", and number 3 under the name "d". */
  function RootEntries(): (es: seq<Dirent>)
    ensures |es| == 2 && forall e :: e in es ==> WfDirent(e)
  {
    assert Pow256(8) > 256;
    [Dirent(2, NAME), Dirent(3, NODE)]
  }

  function DirBlock(): Block {
    DirBytes(RootEntries()) + ZeroBlock()[80..]
  }

  /** The file holds "hi". */
  function FileBlock(): Block {
    [104, 105] + ZeroBlock()[2..]
  }

  function DiskOf(table: Block, blks: Block, nums: Block, dir: Block, file: Block): Disk {
    map[Addr(0, 1) := ZeroBlock(), Addr(0, 2) := table, Addr(0, 3) := blks, Addr(0, 4) := nums, Addr(0, 5) := dir,
        Addr(0, 6) := file, Addr(0, 7) := ZeroBlock()]
  }

  lemma DiskOfIs(table: Block, blks: Block, nums: Block, dir: Block, file: Block)
    ensures var v := DiskOf(table, blks, nums, dir, file);
      && (forall a :: a in v <==> a.dev == 0 && 1 <= a.blk <= 7)
      && v[Addr(0, 2)] == table && v[Addr(0, 3)] == blks && v[Addr(0, 4)] == nums && v[Addr(0, 5)] == dir
      && v[Addr(0, 6)] == file
  {
    hide ZeroBlock;
  }

  function BootDisk(): Disk {
    DiskOf(Table(), MapBlk(Bits(7, 8)), MapBlk(Bits(4, 36)), DirBlock(), FileBlock())
  }

  lemma BlocksAre()
    ensures var v := BootDisk();
      && (forall a :: a in v <==> a.dev == 0 && 1 <= a.blk <= 7)
      && v[Addr(0, 2)] == Table() && v[Addr(0, 3)] == MapBlk(Bits(7, 8)) && v[Addr(0, 4)] == MapBlk(Bits(4, 36))
      && v[Addr(0, 5)] == DirBlock() && v[Addr(0, 6)] == FileBlock()
  {
    hide DiskOf, Table, MapBlk, Bits, DirBlock, FileBlock;
    DiskOfIs(Table(), MapBlk(Bits(7, 8)), MapBlk(Bits(4, 36)), DirBlock(), FileBlock());
  }

  /** The inode cache as the kernel starts: the root in the first entry, in use. */
  function Entries(n: nat): (es: seq<Inode>)
    requires n >= 2
    ensures |es| == n
  {
    seq(n, i => if i == 0 then Inode(RootDir(), ROOT, false, 1) else EmptyEntry())
  }

  lemma IsMounted()
    ensures Mounted(Sbs(), BootDisk())
  {
    hide BootDisk, Sbs, DirBlock, FileBlock, MapBlk, Bits, Table;
    BlocksAre();
    SbsIs();
    IsWf();
  }

  lemma IsWf()
    ensures |Sbs()| == 1 && WfSuper(Sbs()[0])
  {
    assert Pow256(4) == 0x1_0000_0000;
  }

  lemma NumbersAre(id: InoId)
    requires ValidId(Sbs(), id)
    ensures id.dev == 0 && 0 < id.num < 36 && InoBlk(Sbs(), id) == Addr(0, 2)
  {
    hide Sbs;
    SbsIs();
  }

  lemma SbsIs()
    ensures |Sbs()| == 1 && Sbs()[0].inoTable == 2 && Sbs()[0].inoLen == 1
    ensures Sbs()[0].freeBlk == 3 && Sbs()[0].freeBlkLen == 1 && Sbs()[0].freeIno == 4 && Sbs()[0].freeInoLen == 1
    ensures Sbs()[0].size == 8
  {
  }

  lemma TableSlots(num: nat)
    requires num < 36
    ensures Decode(SlotOf(Table(), num)) == InodeNo(num)
  {
    hide SlotOf, Encode, Decode, RootDir, PlainFile, DeviceNode, NO_INODE, Rows, AllZero;
    SlotIs(Table(), num);
    RowsAre(Encode(RootDir()), Encode(PlainFile()), Encode(DeviceNode()), num);
    FitsAll();
    DecodeEncode(RootDir());
    DecodeEncode(PlainFile());
    DecodeEncode(DeviceNode());
    if num == 0 || num > 3 {
      DecodeZeros(SlotOf(Table(), num));
    }
  }

  lemma RowsAre(r: seq<byte>, f: seq<byte>, d: seq<byte>, num: nat)
    requires |r| == |f| == |d| == 112 && num < 36
    ensures var s := Rows(r, f, d)[num * 112..][..112];
      if num == 1 then s == r else if num == 2 then s == f else if num == 3 then s == d else AllZero(s)
  {
    var t := Rows(r, f, d);
    assert t[num * 112..][..112] == t[num * 112..num * 112 + 112];
    assert t[112..224] == r && t[224..336] == f && t[336..448] == d;
  }

  lemma DiskInoIs(id: InoId)
    requires ValidId(Sbs(), id)
    ensures InoBlk(Sbs(), id) in BootDisk()
    ensures DiskIno(Sbs(), BootDisk(), id) == InodeNo(id.num)
  {
    hide BootDisk, Sbs, SlotOf, Decode, RootDir, PlainFile, DeviceNode, NO_INODE, Table, MapBlk, Bits, DirBlock,
      FileBlock, InoBlk, ValidId;
    NumbersAre(id);
    BlocksAre();
    TableSlots(id.num);
    assert id == InoId(0, id.num);
  }

  lemma FitsAll()
    ensures Fits(RootDir()) && Fits(PlainFile()) && Fits(DeviceNode())
  {
    FitsSmall(RootDir());
    FitsSmall(PlainFile());
    FitsSmall(DeviceNode());
  }

  lemma CacheOk(n: nat)
    requires n >= 2
    ensures ICacheInv(Sbs(), BootDisk(), Entries(n))
  {
    hide BootDisk, RootDir, DiskIno, InoBlk, Fits, NO_INODE;
    var es := Entries(n);
    FitsAll();
    DiskInoIs(ROOT);
    EmptyIsOk(Sbs(), BootDisk());
    forall i | 0 <= i < n
      ensures EntryOk(Sbs(), BootDisk(), es[i])
    {
    }
  }

  lemma InoAtIs(n: nat, id: InoId)
    requires n >= 2 && ValidId(Sbs(), id)
    ensures InoBlk(Sbs(), id) in BootDisk()
    ensures InoAt(Sbs(), BootDisk(), Entries(n), id) == InodeNo(id.num)
  {
    hide BootDisk, Sbs, RootDir, PlainFile, DeviceNode, DiskIno, InoBlk, NO_INODE, InoAt, FindIno;
    var es := Entries(n);
    DiskInoIs(id);
    EmptyIsOk(Sbs(), BootDisk());
    if id == ROOT {
      assert es[0].id == ROOT && forall i :: 1 <= i < n ==> es[i].id == NO_ID;
      InoOfEntry(Sbs(), BootDisk(), es, 0);
    } else {
      assert id.num != 0;
      InoOfDisk(Sbs(), BootDisk(), es, id);
    }
  }

  /** Three inodes, one free data block, free numbers from 4 on. */
  ghost predicate IsBootState(s: State) {
    && (forall id :: id in s.ino <==> ValidId(Sbs(), id))
    && (forall id :: id in s.ino ==> s.ino[id] == InodeNo(id.num))
    && |s.free| == |s.freeIno| == 1
    && (forall p :: p in s.free[0] <==> p == 7) && (forall p :: p in s.freeIno[0] <==> 4 <= p < 36)
    && (forall a :: a in s.data <==> a.dev == 0 && 5 <= a.blk <= 7)
    && s.data[Addr(0, 5)] == DirBlock() && s.data[Addr(0, 6)] == FileBlock()
  }

  lemma InosAre(n: nat)
    requires n >= 2
    ensures var ino := Inos(Sbs(), BootDisk(), Entries(n));
      && (forall id :: id in ino <==> ValidId(Sbs(), id))
      && (forall id :: id in ino ==> ino[id] == InodeNo(id.num))
  {
    hide BootDisk, Sbs, RootDir, PlainFile, DeviceNode, InoAt, NO_INODE, InoBlk, Entries;
    forall id: InoId | ValidId(Sbs(), id)
      ensures InoBlk(Sbs(), id) in BootDisk()
      ensures InoAt(Sbs(), BootDisk(), Entries(n), id) == InodeNo(id.num)
    {
      InoAtIs(n, id);
    }
  }

  lemma FreeAre()
    ensures var free, freeIno := FreeBlks(Sbs(), BootDisk()), FreeInos(Sbs(), BootDisk());
      && |free| == |freeIno| == 1
      && (forall p :: p in free[0] <==> p == 7) && (forall p :: p in freeIno[0] <==> 4 <= p < 36)
  {
    hide BootDisk, Sbs, FreeSet, Bits, MapBlk, Table, DirBlock, FileBlock;
    SbsIs();
    BlocksAre();
    MapIs(3, 7, 8);
    MapIs(4, 4, 36);
  }

  lemma DataAre()
    ensures var data := DataOf(Sbs(), BootDisk());
      (forall a :: a in data <==> a.dev == 0 && 5 <= a.blk <= 7)
      && data[Addr(0, 5)] == DirBlock() && data[Addr(0, 6)] == FileBlock()
  {
    hide BootDisk, Sbs, IsDataAddr, Bits, MapBlk, Table, DirBlock, FileBlock;
    BlocksAre();
    forall a: Addr
      ensures IsDataAddr(Sbs(), a) <==> a.dev == 0 && 5 <= a.blk <= 7
    {
      DataIs(a);
    }
  }

  lemma StateIs(n: nat)
    requires n >= 2
    ensures IsBootState(Abs(Sbs(), BootDisk(), Entries(n)))
  {
    hide BootDisk, Sbs, Inos, FreeBlks, FreeInos, DataOf, RootDir, PlainFile, DeviceNode, NO_INODE, DirBlock,
      FileBlock, Entries, ValidId;
    InosAre(n);
    FreeAre();
    DataAre();
  }

  lemma MapIs(start: nat, lo: nat, hi: nat)
    requires hi <= BITS_PER_BLK && Addr(0, start) in BootDisk() && BootDisk()[Addr(0, start)] == MapBlk(Bits(lo, hi))
    ensures forall p :: p in FreeSet(BootDisk(), 0, start, 1) <==> lo <= p < hi
  {
    hide BootDisk, MapBlk, Bits, Has, Words;
    WordsOfBlock(Bits(lo, hi));
    FreeBits(lo, hi);
    forall p: nat | p < BITS_PER_BLK
      ensures IsFree(BootDisk(), 0, start, p) <==> lo <= p < hi
    {
      assert p / BITS_PER_BLK == 0 && p % BITS_PER_BLK == p;
      assert Has(Bits(lo, hi), p) <==> p in Free(Bits(lo, hi));
    }
  }

  function Owned(): map<Addr, Owner> {
    map[Addr(0, 5) := Owner(ROOT, 0), Addr(0, 6) := Owner(FILE, 0)]
  }

  lemma DataIs(a: Addr)
    ensures IsDataAddr(Sbs(), a) <==> a.dev == 0 && 5 <= a.blk <= 7
  {
    hide Sbs;
    SbsIs();
  }

  lemma IsSound(s: State)
    requires IsBootState(s)
    ensures Sound(Sbs(), s, Owned())
  {
    OwnsIt(s);
    FilesFit(s);
    NumbersBlank(s);
  }

  lemma OwnsIt(s: State)
    requires IsBootState(s)
    ensures Owns(Sbs(), s, Owned())
  {
    hide IsDataAddr, Sbs, DirBlock, FileBlock;
    SbsIs();
    forall a: Addr
      ensures IsDataAddr(Sbs(), a) <==> a.dev == 0 && 5 <= a.blk <= 7
    {
      DataIs(a);
    }
  }

  lemma FilesFit(s: State)
    requires IsBootState(s)
    ensures FilesOk(s)
  {
    hide Sbs, ValidId, Fits, DirBlock, FileBlock;
    FitsAll();
    BlankOk();
  }

  lemma NumbersBlank(s: State)
    requires IsBootState(s)
    ensures FreeInodesBlank(Sbs(), s)
  {
    hide Sbs, DirBlock, FileBlock, RootDir, PlainFile, DeviceNode;
    SbsIs();
  }

  // ---------- The kernel on it ----------

  lemma RootNames()
    ensures FindInBlock(DirBlock(), NAME, 0) == Some(2) && FindInBlock(DirBlock(), NODE, 0) == Some(3)
  {
    var es := RootEntries();
    hide FindInBlock, DirBytes;
    assert DirBlock()[..80] == DirBytes(es);
    assert forall i :: 80 <= i < BLK_SZ ==> DirBlock()[i] == 0;
    hide DirBlock, FileBlock;
    assert HoldsEntries(DirBlock(), es);
    assert es[1..][1..] == [];
    DirectoryReadsBack(DirBlock(), es, NAME);
    DirectoryReadsBack(DirBlock(), es, NODE);
  }

  lemma RootHasFile(s: State)
    requires IsBootState(s)
    ensures Lookup(Sbs(), s, ROOT, NAME) == Some(FILE) && Lookup(Sbs(), s, ROOT, NODE) == Some(DEVICE)
  {
    hide Sbs, EntryIs, EntryNum, DirBlock, FileBlock, FindInBlock;
    SbsIs();
    RootNames();
    assert RootDir().addr[0] == 5 && s.ino[ROOT] == RootDir();
    assert ValidId(Sbs(), FILE) && ValidId(Sbs(), DEVICE);
  }

  /** What callers see at the start. */
  ghost predicate AtStart(m: System, n: nat)
    requires n >= 2
  {
    && IsBootState(m.s) && m.filp == map[] && m.open == map[]
    && m.core == Ids(Entries(n)) && m.uses == UsesMap(Entries(n)) && m.nfiles > 0
  }

  /** The root is held, it is a directory, and nothing is open. */
  lemma StartsTidy(m: System, n: nat)
    requires n >= 2 && AtStart(m, n)
    ensures Tidy(m) && Held(m, 0) && m.core[0] == ROOT && ROOT in m.s.ino && IsDirectory(m.s.ino[ROOT])
  {
    hide Uses, UsesMap, RootDir, PlainFile, DeviceNode, DirBlock, FileBlock, Sbs, EmptyEntry, IsRegular, IsDirectory;
    SbsIs();
    Modes();
    RootUses(m, n);
  }

  lemma RootUses(m: System, n: nat)
    requires n >= 2 && AtStart(m, n)
    ensures InCore(m, 0) && m.core[0] == ROOT && UsesOf(m, ROOT) == 1 && UsesOf(m, FILE) == 0
    ensures UsesOf(m, DEVICE) == 0
    ensures m.core[1].num == 0
  {
    hide Uses, RootDir, IsBootState;
    var es := Entries(n);
    assert es[0] == Inode(RootDir(), ROOT, false, 1);
    assert forall i :: 1 <= i < n ==> es[i] == EmptyEntry();
    UsesOfEntry(es, 0);
    UsesOfNone(es, FILE);
    UsesOfNone(es, DEVICE);
  }

  /** From the start, "/f" leads to the file and "/d" to the device. */
  lemma NamesFile(m: System, n: nat)
    requires n >= 2 && AtStart(m, n)
    ensures CanName(Sbs(), m, [SLASH] + NAME, 0) && CanName(Sbs(), m, [SLASH] + NODE, 0)
    ensures Walk(Sbs(), m.s, Machine.Start(m, [SLASH] + NAME, 0), Names([SLASH] + NAME)) == Some(FILE)
    ensures Walk(Sbs(), m.s, Machine.Start(m, [SLASH] + NODE, 0), Names([SLASH] + NODE)) == Some(DEVICE)
  {
    hide Uses, UsesMap, RootDir, PlainFile, DeviceNode, DirBlock, FileBlock, Sbs, Lookup, IsRegular, Entries, Walk,
      CanWalk;
    RootUses(m, n);
    RootHasFile(m.s);
    assert !AllUsed(m);
    OneStep(m, NAME, FILE);
    OneStep(m, NODE, DEVICE);
  }

  lemma OneStep(m: System, name: Name, to: InoId)
    requires |name| == 1 && name[0] != SLASH && InCore(m, 0) && Lookup(Sbs(), m.s, m.core[0], name) == Some(to)
    requires m.core[0] !in FullIn(m) && to !in FullIn(m)
    ensures CanName(Sbs(), m, [SLASH] + name, 0)
    ensures Walk(Sbs(), m.s, Machine.Start(m, [SLASH] + name, 0), Names([SLASH] + name)) == Some(to)
  {
    hide Lookup, FullIn, Sbs;
    var path := [SLASH] + name;
    assert path[1..] == name;
    OneComponent(name);
    assert Names(path) == [name] && [name][1..] == [];
    assert Walk(Sbs(), m.s, to, []) == Some(to);
    assert CanWalk(Sbs(), m.s, FullIn(m), to, []);
  }

  /** So any process can open it: a kernel that refuses every call is not this one. */
  lemma OpensFile(m: System, n: nat, pid: nat)
    requires n >= 2 && AtStart(m, n)
    ensures CanOpen(Sbs(), m, pid, [SLASH] + NAME, 0)
  {
    hide Uses, UsesMap, RootDir, PlainFile, DeviceNode, DirBlock, FileBlock, Sbs, IsRegular, Entries, CanName, Walk;
    NamesFile(m, n);
    Modes();
    FileIsThere(m.s);
    assert 0 !in m.open;
    assert Desc(pid, 3) !in m.filp;
  }

  lemma OneComponent(name: Name)
    requires |name| == 1 && name[0] != SLASH
    ensures Components(name) == [name]
  {
    EndIs(name, 0, 1);
    assert name[..1] == name;
  }

  /** The device has a name and an inode, and yet no open of it is answered by a descriptor. */
  lemma DeviceRefused(m: System, n: nat, pid: nat, flags: nat, a: Answer, o: System)
    requires n >= 2 && AtStart(m, n) && Does(Sbs(), m, OpenCall(pid, [SLASH] + NODE, 0, flags), a, o)
    ensures CanName(Sbs(), m, [SLASH] + NODE, 0) && a == Refused && o.filp == map[] && o.open == map[]
  {
    hide Uses, UsesMap, RootDir, PlainFile, DirBlock, FileBlock, Sbs, IsRegular, Entries, CanName, Walk, Does;
    NamesFile(m, n);
    DeviceIsThere(m.s);
    RootUses(m, n);
    OpensOnlyFiles(Sbs(), m, pid, [SLASH] + NODE, 0, flags, a, o, DEVICE, 0x21ff, 0);
  }

  lemma DeviceIsThere(s: State)
    requires IsBootState(s)
    ensures DEVICE in s.ino && s.ino[DEVICE].mode == 0x21ff
  {
    hide Sbs, RootDir, PlainFile, DirBlock, FileBlock, NO_INODE;
    SbsIs();
    assert ValidId(Sbs(), DEVICE);
  }

  /** What the first reader of "/f" gets: the file from its first byte on. */
  lemma ReadsFile(m: System, n: nat, pid: nat, flags: nat, a: Answer, o: System, b: Answer, e: System)
    requires n >= 2 && AtStart(m, n) && Does(Sbs(), m, OpenCall(pid, [SLASH] + NAME, 0, flags), a, o)
    requires a.Fd? ==> Does(Sbs(), o, ReadCall(pid, a.fd, 10), b, e)
    ensures a == Fd(3) && b == Answer.Bytes([104, 105])
  {
    hide Uses, UsesMap, RootDir, PlainFile, DeviceNode, DirBlock, FileBlock, Sbs, IsRegular, Entries, CanName,
      CanOpen, Walk, Content, FullIn, CoreKept, IsBootState, NoSlot;
    OpensFile(m, n, pid);
    NamesFile(m, n);
    FileContent(m.s);
    assert CanOpen(Sbs(), m, pid, [SLASH] + NAME, 0);
    NoneOpen(m, FILE);
    assert Desc(pid, 3) !in m.filp;
  }

  lemma NoneOpen(m: System, id: InoId)
    requires m.open == map[]
    ensures Unopened(m.open, id)
  {
  }

  lemma FileContent(s: State)
    requires IsBootState(s)
    ensures FILE in s.ino && |s.ino[FILE].addr| == NADDR && Content(s, FILE) == [104, 105]
  {
    hide Sbs, RootDir, DeviceNode, DirBlock, NO_INODE;
    FileIsThere(s);
    var c := Content(s, FILE);
    assert PlainFile().addr[0] == 6;
    assert c[0] == ByteAt(0, PlainFile(), s.data, 0) == FileBlock()[0];
    assert c[1] == ByteAt(0, PlainFile(), s.data, 1) == FileBlock()[1];
  }

  /** The tables of the kernel, started on the volume. */
  method Start(nrBuf: nat, nrInode: nat, nrFiles: nat) returns (dt: DescriptorTable)
    requires nrBuf > 0 && nrInode >= 2 && nrFiles > 0
    ensures fresh(dt) && fresh(dt.fs) && fresh(dt.fs.it.bt) && fresh(dt.fs.it.bt.blocks)
    ensures fresh(dt.fs.it.inodes) && fresh(dt.fs.files)
    ensures dt.Valid() && dt.fs.it.sbs == Sbs() && AtStart(Now(dt), nrInode)
  {
    hide BootDisk, Sbs, IsBootState, View, Core, FilesOpen, Mounted, OpenOf, UsesMap, Ids, Entries, EmptyEntry, Abs,
      Owned, Ready, Inv, Sound, ICacheInv, Counted, RootDir, NO_INODE, NO_ADDR, FindTag, FindFree, ViewAt, DeviceNode,
      PlainFile, FreeBlks, FreeInos, Inos, DataOf;
    SourceOk();
    var bt := new BufferTable(nrBuf, BootDisk());
    AllReady(bt.State());
    IsMounted();
    var it := new InodeTable(bt, nrInode, Sbs());
    it.inodes[0] := Inode(RootDir(), ROOT, false, 1);
    EntriesAre(it.inodes[..], nrInode);
    CacheOk(nrInode);
    StateIs(nrInode);
    IsSound(Abs(Sbs(), BootDisk(), Entries(nrInode)));
    CoreIs(Sbs(), BootDisk(), Entries(nrInode), Owned());
    var fs := new FileSystem(it, nrFiles, Owned());
    dt := new DescriptorTable(fs);
    NoneLead(fs.files[..], it.inodes[..]);
  }

  // ---------- Runs that free what they take ----------

  lemma FirstNumber(s: State)
    requires IsBootState(s)
    ensures Bitmap.IsFirst(s.freeIno[0], 15)
  {
    hide Sbs, RootDir, PlainFile, DeviceNode, DirBlock, FileBlock;
    assert 15 in s.freeIno[0];
  }

  /** From the start the first number given out is 15, the last free one of the first word; freeing it undoes it all. */
  lemma AllocatesAndFrees(m: System, n: nat, a: Answer, o: System, b: Answer, e: System)
    requires n >= 2 && AtStart(m, n) && Does(Sbs(), m, AllocCall(0), a, o)
    requires a.Entry? ==> Does(Sbs(), o, FreeCall(a.i), b, e)
    ensures a.Entry? && a.i < |o.core| && o.core[a.i] == InoId(0, 15) && UsesOf(o, InoId(0, 15)) == 1
    ensures b == Done && e.s == m.s
  {
    hide Uses, UsesMap, RootDir, PlainFile, DeviceNode, DirBlock, FileBlock, Sbs, IsRegular, IsDirectory,
      Bitmap.IsFirst, Emptied, Unlinked, Entries, EmptyEntry, IsBootState, CoreKept;
    FirstNumber(m.s);
    NumbersBlank(m.s);
    NumberUnused(m, n);
    Bitmap.FirstExists(m.s.freeIno[0]);
    RootUses(m, n);
    SbsIs();
    assert !AllUsed(m);
    assert InoId(0, 15) !in FullIn(m);
    assert !NoNumber(m, 0);
    StartsTidy(m, n);
    AllocThenFree(Sbs(), m, 0, a, o, b, e);
  }

  lemma NumberUnused(m: System, n: nat)
    requires n >= 2 && AtStart(m, n)
    ensures UsesOf(m, InoId(0, 15)) == 0 && |m.s.freeIno| == 1 && m.s.freeIno[0] != {}
  {
    hide Uses, RootDir, PlainFile, DeviceNode, DirBlock, FileBlock, Sbs;
    var es := Entries(n);
    assert es[0] == Inode(RootDir(), ROOT, false, 1);
    assert forall i :: 1 <= i < n ==> es[i] == EmptyEntry();
    UsesOfNone(es, InoId(0, 15));
    assert 15 in m.s.freeIno[0];
  }

  /** Freeing the one file frees its block and its number. */
  lemma FreesFile(m: System, n: nat, a: Answer, o: System, b: Answer, e: System)
    requires n >= 2 && AtStart(m, n) && Does(Sbs(), m, NameCall([SLASH] + NAME, 0), a, o)
    requires a.Entry? ==> Does(Sbs(), o, FreeCall(a.i), b, e)
    ensures a.Entry? && a.i < |o.core| && o.core[a.i] == FILE && b == Done
    ensures |e.s.free| == |e.s.freeIno| == 1 && e.s.free[0] == {6, 7} && e.s.freeIno[0] == m.s.freeIno[0] + {2}
    ensures FILE in e.s.ino && e.s.ino[FILE] == NO_INODE
  {
    hide Uses, UsesMap, RootDir, PlainFile, DeviceNode, DirBlock, FileBlock, Sbs, IsRegular, IsDirectory, Emptied,
      Unlinked, Entries, EmptyEntry, CoreKept, FullIn, CanWalk, Walk, Components, NO_INODE, IsBootState;
    NamesFile(m, n);
    FileIsThere(m.s);
    Modes();
    assert CanFree(o, a.i);
    FileGone(m.s);
  }

  lemma FileIsThere(s: State)
    requires IsBootState(s)
    ensures FILE in s.ino && s.ino[FILE] == PlainFile()
  {
    hide Sbs, RootDir, PlainFile, DeviceNode, DirBlock, FileBlock, NO_INODE;
    SbsIs();
    assert ValidId(Sbs(), FILE);
  }

  lemma FileGone(s: State)
    requires IsBootState(s) && FILE in s.ino && s.ino[FILE] == PlainFile()
    ensures |s.free| == |s.freeIno| == 1
    ensures var t := Unlinked(Emptied(s, FILE, NADDR), FILE);
      && |t.free| == |t.freeIno| == 1 && t.free[0] == {6, 7} && t.freeIno[0] == s.freeIno[0] + {2}
      && FILE in t.ino && t.ino[FILE] == NO_INODE
  {
    hide Sbs, DirBlock, FileBlock, RootDir, NO_INODE;
    assert PlainFile().addr[..NADDR] == PlainFile().addr == [6, 0, 0, 0, 0, 0, 0, 0];
    assert 6 in PlainFile().addr[..NADDR];
    assert Files.Named(PlainFile().addr, NADDR) == {6};
    assert s.free[0] == {7};
  }

  /** The kernel started, and such a run made. */
  method FileFreed(nrBuf: nat, nrInode: nat, nrFiles: nat) returns (dt: DescriptorTable)
    requires nrBuf > 0 && nrInode >= 2 && nrFiles > 0
    ensures fresh(dt) && dt.Valid() && |dt.fs.S().free| == 1 && dt.fs.S().free[0] == {6, 7}
    ensures FILE in dt.fs.S().ino && dt.fs.S().ino[FILE] == NO_INODE
  {
    hide *;
    dt := Start(nrBuf, nrInode, nrFiles);
    ghost var m := Now(dt);
    var a := Perform(dt, NameCall([SLASH] + NAME, 0));
    ghost var o := Now(dt);
    var i := match a case Entry(j) => j case _ => 0;
    var b := Perform(dt, FreeCall(i));
    FreesFile(m, nrInode, a, o, b, Now(dt));
    NowIs(dt);
  }

  lemma NowIs(dt: DescriptorTable)
    ensures Now(dt).s == dt.fs.S()
  {
  }

  lemma SourceOk()
    ensures NO_ADDR !in BootDisk()
  {
    hide DirBlock, FileBlock, MapBlk, Bits, Table, BootDisk;
    BlocksAre();
  }

  lemma AllReady(c: Cache)
    requires Inv(c) && |c.bufs| > 0 && forall i :: 0 <= i < |c.bufs| ==> c.bufs[i] == Empty()
    ensures Ready(c)
  {
    assert c.bufs[0].count == 0;
  }

  lemma EntriesAre(es: seq<Inode>, n: nat)
    requires n >= 2 && |es| == n && es[0] == Inode(RootDir(), ROOT, false, 1)
    requires forall i :: 1 <= i < n ==> es[i] == EmptyEntry()
    ensures es == Entries(n)
  {
  }

  lemma CoreIs(sbs: Supers, v: Disk, es: seq<Inode>, own: map<Addr, Owner>)
    requires Mounted(sbs, v) && ICacheInv(sbs, v, es) && Sound(sbs, Abs(sbs, v, es), own)
    ensures Core(sbs, v, es, own)
  {
  }

  lemma NoneLead(files: seq<File>, es: seq<Inode>)
    requires forall f :: 0 <= f < |files| ==> files[f].count == 0
    ensures OpenOf(files, es) == map[]
  {
  }
}
