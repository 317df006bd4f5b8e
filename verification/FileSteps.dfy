/** One step of a file operation on blocks and inode entries, and the step it is on files. */
module FileSteps {
  import opened Blocks
  import opened DiskInodes
  import opened Bitmap
  import opened FreeMap
  import opened Volume
  import opened InodeSpec
  import opened FsState
  import opened Files

  /** Everything but who holds which buffer: blocks `v`, inode entries `es` and block owners `own` agree. */
  ghost predicate Core(sbs: Supers, v: Disk, es: seq<Inode>, own: map<Addr, Owner>) {
    Mounted(sbs, v) && ICacheInv(sbs, v, es) && Sound(sbs, Abs(sbs, v, es), own)
  }

  /** Entry `i` is an allocated inode some process uses. */
  ghost predicate InUse(sbs: Supers, v: Disk, es: seq<Inode>, i: nat) {
    && i < |es| && es[i].id.num != 0 && es[i].count > 0
    && es[i].id.dev < |sbs|
    && es[i].id.num !in FreeInos(sbs, v)[es[i].id.dev]
  }

  /** The same inodes in the same entries, with the same users, and none shorter. */
  ghost predicate Grew(es: seq<Inode>, fs: seq<Inode>) {
    && |fs| == |es|
    && (forall i :: 0 <= i < |es| ==>
         fs[i].id == es[i].id && fs[i].count == es[i].count && fs[i].din.size >= es[i].din.size)
  }

  lemma GrewSelf(es: seq<Inode>)
    ensures Grew(es, es)
  {
  }

  lemma GrewMore(es: seq<Inode>, fs: seq<Inode>, gs: seq<Inode>)
    requires Grew(es, fs) && Grew(fs, gs)
    ensures Grew(es, gs)
  {
  }

  lemma GrewEdit(es: seq<Inode>, i: nat, d: DInode)
    requires i < |es| && d.size >= es[i].din.size
    ensures Grew(es, Edited(es, i, d))
  {
  }

  lemma ICacheKeep(sbs: Supers, v: Disk, w: Disk, es: seq<Inode>)
    requires Mounted(sbs, v) && ICacheInv(sbs, v, es) && v.Keys == w.Keys
    requires forall a :: a in v && a.dev < |sbs| && InTable(sbs[a.dev], a.blk) ==> w[a] == v[a]
    ensures ICacheInv(sbs, w, es)
  {
  }

  /** Entry `i` is an inode some process uses, its number free or not. */
  ghost predicate InHand(es: seq<Inode>, i: nat) {
    i < |es| && es[i].id.num != 0 && es[i].count > 0
  }

  lemma InHandFacts(sbs: Supers, v: Disk, es: seq<Inode>, own: map<Addr, Owner>, i: nat)
    requires Core(sbs, v, es, own) && InHand(es, i)
    ensures es[i].id.dev < |sbs|
    ensures var s := Abs(sbs, v, es); var id := es[i].id;
      && Shaped(sbs, s) && id in s.ino && s.ino[id] == es[i].din && WfFile(es[i].din) && ValidId(sbs, id)
      && |es[i].din.addr| == NADDR && WfSuper(sbs[id.dev])
  {
    EntryAbs(sbs, v, es, i);
    hide InoAt, FreeSet, ICacheInv, Owns, FreeInodesBlank, WfFile, WfSuper;
  }

  /** An inode that is not blank is allocated. */
  lemma NotBlank(sbs: Supers, v: Disk, es: seq<Inode>, own: map<Addr, Owner>, i: nat)
    requires Core(sbs, v, es, own) && InHand(es, i)
    ensures es[i].din == NO_INODE || InUse(sbs, v, es, i)
  {
    EntryAbs(sbs, v, es, i);
    hide InoAt, FreeSet, ICacheInv, Owns, FilesOk, NO_INODE, Mounted, ValidId, Inos, DataOf, FreeBlks;
    var s, id := Abs(sbs, v, es), es[i].id;
    assert id == InoId(id.dev, id.num);
  }

  /** Facts about an entry in use. */
  lemma InUseFacts(sbs: Supers, v: Disk, es: seq<Inode>, own: map<Addr, Owner>, i: nat)
    requires Core(sbs, v, es, own) && InUse(sbs, v, es, i)
    ensures var s := Abs(sbs, v, es); var id := es[i].id;
      && Shaped(sbs, s) && id in s.ino && s.ino[id] == es[i].din && WfFile(es[i].din)
      && id.num !in s.freeIno[id.dev] && ValidId(sbs, id)
      && |es[i].din.addr| == NADDR && WfSuper(sbs[id.dev])
  {
    InHandFacts(sbs, v, es, own, i);
    hide Inos, FreeSet, Core, Shaped, WfFile, WfSuper;
  }

  /** A slot that is not zero names a data block on the disk. */
  lemma SlotOnDisk(sbs: Supers, v: Disk, es: seq<Inode>, own: map<Addr, Owner>, i: nat, k: nat)
    requires Core(sbs, v, es, own) && i < |es| && es[i].id.num != 0
    requires k < |es[i].din.addr| && es[i].din.addr[k] != 0
    ensures var a := Addr(es[i].id.dev, es[i].din.addr[k]);
      a in v && IsDataAddr(sbs, a) && a in DataOf(sbs, v) && DataOf(sbs, v)[a] == v[a]
  {
    EntryAbs(sbs, v, es, i);
    var s := Abs(sbs, v, es);
    assert |s.ino[es[i].id].addr| == NADDR;
    var a := BlockOf(s, es[i].id, k);
    assert a in own && OwnedWell(sbs, s, own, a);
    hide InoAt, FreeSet, ICacheInv, Owns, FreeInodesBlank, WfFile, FilesOk;
  }

  // ---------- Storing a byte ----------

  lemma StoreStep(sbs: Supers, v: Disk, es: seq<Inode>, own: map<Addr, Owner>, i: nat, off: nat, x: byte)
    requires Core(sbs, v, es, own) && InUse(sbs, v, es, i)
    requires |es[i].din.addr| == NADDR && off / BLK_SZ < NADDR && off <= es[i].din.size
    requires es[i].din.addr[off / BLK_SZ] != 0
    ensures var a := Addr(es[i].id.dev, es[i].din.addr[off / BLK_SZ]);
      a in v &&
      var w := v[a := v[a][off % BLK_SZ := x]];
      var fs := Edited(es, i, Grown(es[i].din, off + 1));
      && Core(sbs, w, fs, own) && InUse(sbs, w, fs, i)
      && WroteTaking(sbs, Abs(sbs, v, es), Abs(sbs, w, fs), es[i].id, off, [x], {})
  {
    InUseFacts(sbs, v, es, own, i);
    SlotOnDisk(sbs, v, es, own, i, off / BLK_SZ);
    hide InoAt, FreeSet, ICacheInv, Sound, WfFile, WfSuper, WroteTaking, DataOf, Mounted, Inos, ValidId, IsDataAddr, FreeBlks,
      Shaped;
    var s, id := Abs(sbs, v, es), es[i].id;
    var a := Addr(id.dev, es[i].din.addr[off / BLK_SZ]);
    var b := v[a][off % BLK_SZ := x];
    var w := v[a := b];
    var d := Grown(es[i].din, off + 1);
    DataAbs(sbs, v, es, a, b);
    DataKeeps(sbs, v, es, a, b);
    EditAbs(sbs, w, es, i, d);
    assert Abs(sbs, w, Edited(es, i, d)) == PutByte(s, id, off, x);
    PutByteStep(sbs, s, own, id, off, x);
    PutByteWrote(sbs, s, own, id, off, x);
    PutByteOk(es[i].din, off);
    FileFits(d);
    EditedInv(sbs, w, es, i, d);
  }

  lemma FileFits(d: DInode)
    requires WfFile(d)
    ensures Fits(d)
  {
  }

  /** Storing into a data block keeps the volumes mounted and the inode cache coherent. */
  lemma DataKeeps(sbs: Supers, v: Disk, es: seq<Inode>, a: Addr, b: Block)
    requires Mounted(sbs, v) && ICacheInv(sbs, v, es) && a in v && IsDataAddr(sbs, a)
    ensures Mounted(sbs, v[a := b]) && ICacheInv(sbs, v[a := b], es)
    ensures FreeInos(sbs, v[a := b]) == FreeInos(sbs, v)
  {
    DataAbs(sbs, v, es, a, b);
    hide EntryOk, Distinct, InoAt, FreeSet, DataOf;
    ICacheKeep(sbs, v, v[a := b], es);
  }

  // ---------- Giving a slot a block ----------

  /** A position claimed from the free map is a data block nobody owns, on the disk, with a number `i_addr` can hold. */
  lemma ClaimedIsData(sbs: Supers, v: Disk, es: seq<Inode>, own: map<Addr, Owner>, dev: nat, p: nat)
    requires Core(sbs, v, es, own) && dev < |sbs|
    requires p < sbs[dev].freeBlkLen * BITS_PER_BLK && IsFree(v, dev, sbs[dev].freeBlk, p)
    ensures p in FreeBlks(sbs, v)[dev] && IsDataAddr(sbs, Addr(dev, p)) && Addr(dev, p) in v
    ensures 0 < p < Pow256(8) && WfSuper(sbs[dev])
  {
    hide InoAt, ICacheInv, FreeInodesBlank, FilesOk, OwnedWell, IsFree, Pow256;
    var s := Abs(sbs, v, es);
    assert p in s.free[dev];
    assert IsDataAddr(sbs, Addr(dev, p));
  }

  /** Writing the free map keeps the volumes mounted and the inode cache coherent. */
  lemma MapKeeps(sbs: Supers, v: Disk, w: Disk, es: seq<Inode>, a: Addr)
    requires Mounted(sbs, v) && ICacheInv(sbs, v, es) && a in v && a in w && w == v[a := w[a]]
    requires a.dev < |sbs| && !InTable(sbs[a.dev], a.blk)
    ensures Mounted(sbs, w) && ICacheInv(sbs, w, es) && w.Keys == v.Keys
  {
    hide EntryOk, Distinct, InTable;
    ICacheKeep(sbs, v, w, es);
  }

  lemma BlkBitKeeps(sbs: Supers, v: Disk, w: Disk, es: seq<Inode>, dev: nat, p: nat, free: bool)
    requires Mounted(sbs, v) && ICacheInv(sbs, v, es) && dev < |sbs| && p < sbs[dev].freeBlkLen * BITS_PER_BLK
    requires BitWritten(v, w, dev, sbs[dev].freeBlk, p, free)
    ensures Mounted(sbs, w) && ICacheInv(sbs, w, es) && w.Keys == v.Keys
  {
    var a := MapBlock(dev, sbs[dev].freeBlk, p);
    assert WfSuper(sbs[dev]) && Between(a.blk, sbs[dev].freeBlk, sbs[dev].freeBlkLen);
    hide Mounted, ICacheInv, SetBit, ClearBit, Words;
    MapKeeps(sbs, v, w, es, a);
  }

  lemma FreeIs(sbs: Supers, v: Disk, es: seq<Inode>, dev: nat)
    requires dev < |sbs|
    ensures dev < |Abs(sbs, v, es).free| && dev < |Abs(sbs, v, es).freeIno|
    ensures Abs(sbs, v, es).free[dev] == FreeSet(v, dev, sbs[dev].freeBlk, sbs[dev].freeBlkLen)
    ensures Abs(sbs, v, es).freeIno[dev] == FreeSet(v, dev, sbs[dev].freeIno, sbs[dev].freeInoLen)
  {
  }

  /** balloc, zeroed and recorded in slot `k` of `i_addr`: no byte of any file changes. */
  lemma GrowStep(sbs: Supers, v: Disk, w: Disk, es: seq<Inode>, own: map<Addr, Owner>, i: nat, k: nat, p: nat, off: nat)
    requires Core(sbs, v, es, own) && InUse(sbs, v, es, i)
    requires k < NADDR && |es[i].din.addr| == NADDR && es[i].din.addr[k] == 0 && off <= es[i].din.size
    requires var dev := es[i].id.dev;
      && IsFirst(FreeSet(v, dev, sbs[dev].freeBlk, sbs[dev].freeBlkLen), p)
      && p < sbs[dev].freeBlkLen * BITS_PER_BLK && IsFree(v, dev, sbs[dev].freeBlk, p)
      && BitWritten(v, w, dev, sbs[dev].freeBlk, p, false)
    ensures var id := es[i].id; var a := Addr(id.dev, p);
      var d := es[i].din.(addr := es[i].din.addr[k := p]);
      && a in w && p != 0
      && Core(sbs, w[a := ZeroBlock()], Edited(es, i, d), own[a := Owner(id, k)])
      && InUse(sbs, w[a := ZeroBlock()], Edited(es, i, d), i)
      && WroteTaking(sbs, Abs(sbs, v, es), Abs(sbs, w[a := ZeroBlock()], Edited(es, i, d)), id, off, [], {k})
  {
    InUseFacts(sbs, v, es, own, i);
    var s, id := Abs(sbs, v, es), es[i].id;
    ClaimedIsData(sbs, v, es, own, id.dev, p);
    FreeIs(sbs, v, es, id.dev);
    hide InoAt, FreeSet, ICacheInv, Sound, WfFile, WfSuper, WroteTaking, DataOf, Mounted, Inos, ValidId, IsDataAddr, FreeBlks,
      BitWritten, Pow256, ZeroBlock, IsFirst;
    var a := Addr(id.dev, p);
    var d := es[i].din.(addr := es[i].din.addr[k := p]);
    var x := w[a := ZeroBlock()];
    BlkBitAbs(sbs, v, w, es, id.dev, p, false);
    BlkBitKeeps(sbs, v, w, es, id.dev, p, false);
    DataAbs(sbs, w, es, a, ZeroBlock());
    DataKeeps(sbs, w, es, a, ZeroBlock());
    EditAbs(sbs, x, es, i, d);
    assert Abs(sbs, x, Edited(es, i, d)) == AddBlock(s, id, k, p);
    AddBlockStep(sbs, s, own, id, k, p);
    AddBlockWrote(sbs, s, own, id, k, p, off);
    AddBlockOk(es[i].din, k, p);
    FileFits(d);
    EditedInv(sbs, x, es, i, d);
  }

  // ---------- Freeing an inode (kernel/fs/inode.c:112-130) ----------

  lemma EmptyFileOk(d: DInode)
    requires WfFile(d)
    ensures WfFile(d.(size := 0))
  {
  }

  lemma TruncSound(sbs: Supers, s: State, own: map<Addr, Owner>, id: InoId)
    requires Sound(sbs, s, own) && Shaped(sbs, s) && id in s.ino && id.dev < |sbs|
    ensures Sound(sbs, s.(ino := s.ino[id := s.ino[id].(size := 0)]), own)
  {
    var t := s.(ino := s.ino[id := s.ino[id].(size := 0)]);
    EmptyFileOk(s.ino[id]);
    SameAddrsOwns(sbs, s, t, own);
    if id.num in s.freeIno[id.dev] {
      assert id == InoId(id.dev, id.num);
      assert t.ino == s.ino;
    } else {
      SameInodeFree(sbs, s, t, own, id);
    }
    hide Owns, WfFile, FreeInodesBlank;
  }

  lemma TruncStep(sbs: Supers, v: Disk, es: seq<Inode>, own: map<Addr, Owner>, i: nat)
    requires Core(sbs, v, es, own) && InHand(es, i)
    ensures var fs := Edited(es, i, es[i].din.(size := 0)); var s := Abs(sbs, v, es); var id := es[i].id;
      && Core(sbs, v, fs, own) && InHand(fs, i)
      && id in s.ino && Abs(sbs, v, fs) == s.(ino := s.ino[id := s.ino[id].(size := 0)])
  {
    InHandFacts(sbs, v, es, own, i);
    hide InoAt, FreeSet, ICacheInv, Sound, WfFile, DataOf, Mounted, Inos, ValidId, FreeBlks, Shaped;
    EmptyFileOk(es[i].din);
    FileFits(es[i].din.(size := 0));
    EditedInv(sbs, v, es, i, es[i].din.(size := 0));
    EditAbs(sbs, v, es, i, es[i].din.(size := 0));
    TruncSound(sbs, Abs(sbs, v, es), own, es[i].id);
  }

  /** Setting the bit of a block and clearing the slot that named it. */
  lemma DropStep(sbs: Supers, v: Disk, w: Disk, es: seq<Inode>, own: map<Addr, Owner>, i: nat, k: nat)
    requires Core(sbs, v, es, own) && InUse(sbs, v, es, i) && es[i].din.size == 0
    requires k < NADDR && |es[i].din.addr| == NADDR && es[i].din.addr[k] != 0
    requires BitWritten(v, w, es[i].id.dev, sbs[es[i].id.dev].freeBlk, es[i].din.addr[k], true)
    ensures var s, id := Abs(sbs, v, es), es[i].id;
      var fs := Edited(es, i, es[i].din.(addr := es[i].din.addr[k := 0]));
      && Shaped(sbs, s) && id in s.ino
      && Core(sbs, w, fs, own - {Addr(id.dev, es[i].din.addr[k])}) && InUse(sbs, w, fs, i)
      && Abs(sbs, w, fs) == DropBlock(s, id, k)
  {
    InUseFacts(sbs, v, es, own, i);
    SlotOnDisk(sbs, v, es, own, i, k);
    var s, id := Abs(sbs, v, es), es[i].id;
    var p := es[i].din.addr[k];
    assert p < sbs[id.dev].freeBlkLen * BITS_PER_BLK;
    hide InoAt, FreeSet, ICacheInv, Sound, WfFile, DataOf, Mounted, Inos, ValidId, FreeBlks, BitWritten, WfSuper;
    var d := es[i].din.(addr := es[i].din.addr[k := 0]);
    BlkBitAbs(sbs, v, w, es, id.dev, p, true);
    BlkBitKeeps(sbs, v, w, es, id.dev, p, true);
    EditAbs(sbs, w, es, i, d);
    assert Abs(sbs, w, Edited(es, i, d)) == DropBlock(s, id, k);
    DropBlockStep(sbs, s, own, id, k);
    DropBlockOk(es[i].din, k);
    FileFits(d);
    EditedInv(sbs, w, es, i, d);
  }

  lemma SlotBit(sbs: Supers, v: Disk, es: seq<Inode>, own: map<Addr, Owner>, i: nat, k: nat)
    requires Core(sbs, v, es, own) && InUse(sbs, v, es, i) && k < |es[i].din.addr| && es[i].din.addr[k] != 0
    ensures MapBlock(es[i].id.dev, sbs[es[i].id.dev].freeBlk, es[i].din.addr[k]) in v
  {
    InUseFacts(sbs, v, es, own, i);
    SlotOnDisk(sbs, v, es, own, i, k);
    var sb, p := sbs[es[i].id.dev], es[i].din.addr[k];
    assert p / BITS_PER_BLK < sb.freeBlkLen;
    hide Sound, ICacheInv, Abs;
  }

  /** Once it holds no block, an inode can be wiped and its number freed. */
  lemma WipeSound(sbs: Supers, s: State, own: map<Addr, Owner>, id: InoId)
    requires Sound(sbs, s, own) && Shaped(sbs, s) && id in s.ino && ValidId(sbs, id)
    requires forall k :: 0 <= k < NADDR ==> s.ino[id].addr[k] == 0
    ensures var t := s.(ino := s.ino[id := NO_INODE], freeIno := s.freeIno[id.dev := s.freeIno[id.dev] + {id.num}]);
      Sound(sbs, t, own)
  {
    var t := s.(ino := s.ino[id := NO_INODE], freeIno := s.freeIno[id.dev := s.freeIno[id.dev] + {id.num}]);
    BlankOk();
    assert s.ino[id].addr == NO_INODE.addr;
    SameAddrsOwns(sbs, s, t, own);
    hide Owns, WfFile;
  }

  lemma BlankOk()
    ensures WfFile(NO_INODE)
  {
  }

  lemma InoBitKeeps(sbs: Supers, v: Disk, w: Disk, es: seq<Inode>, dev: nat, p: nat, free: bool)
    requires Mounted(sbs, v) && ICacheInv(sbs, v, es) && dev < |sbs| && p < sbs[dev].freeInoLen * BITS_PER_BLK
    requires BitWritten(v, w, dev, sbs[dev].freeIno, p, free)
    ensures Mounted(sbs, w) && ICacheInv(sbs, w, es) && w.Keys == v.Keys
  {
    var a := MapBlock(dev, sbs[dev].freeIno, p);
    assert WfSuper(sbs[dev]) && Between(a.blk, sbs[dev].freeIno, sbs[dev].freeInoLen);
    hide Mounted, ICacheInv, SetBit, ClearBit, Words;
    MapKeeps(sbs, v, w, es, a);
  }

  /** The slot zeroed, the entry dropped, the bit of the number set. */
  ghost function Unlinked(s: State, id: InoId): State
    requires id.dev < |s.freeIno|
  {
    s.(ino := s.ino[id := NO_INODE], freeIno := s.freeIno[id.dev := s.freeIno[id.dev] + {id.num}])
  }

  lemma NumInMap(sbs: Supers, v: Disk, id: InoId)
    requires Mounted(sbs, v) && ValidId(sbs, id)
    ensures id.num < sbs[id.dev].freeInoLen * BITS_PER_BLK
    ensures MapBlock(id.dev, sbs[id.dev].freeIno, id.num) in v
  {
  }

  lemma WipeStep(sbs: Supers, v: Disk, w: Disk, es: seq<Inode>, own: map<Addr, Owner>, i: nat, bs: seq<byte>)
    requires Core(sbs, v, es, own) && InHand(es, i) && |es[i].din.addr| == NADDR && es[i].id.dev < |sbs|
    requires forall k :: 0 <= k < NADDR ==> es[i].din.addr[k] == 0
    requires |bs| == DINODE_SZ && AllZero(bs) && InoBlk(sbs, es[i].id) in v
    requires BitWritten(WriteIno(sbs, v, es[i].id, bs), w, es[i].id.dev, sbs[es[i].id.dev].freeIno, es[i].id.num, true)
    ensures var s, id := Abs(sbs, v, es), es[i].id;
      id.dev < |s.freeIno| && Core(sbs, w, Wiped(es, i), own) && Abs(sbs, w, Wiped(es, i)) == Unlinked(s, id)
  {
    InHandFacts(sbs, v, es, own, i);
    WipeInv(sbs, v, es, i, bs);
    DecodeZeros(bs);
    hide InoAt, FreeSet, ICacheInv, Sound, WfFile, DataOf, Mounted, Inos, ValidId, FreeBlks, BitWritten, WfSuper, EntryOk,
      WriteIno, InoBlk, Wiped, NO_INODE, FreeInos;
    var s, id := Abs(sbs, v, es), es[i].id;
    var x := WriteIno(sbs, v, id, bs);
    WipeAbs(sbs, v, es, i, bs);
    WriteKeys(sbs, v, id, bs);
    StillMounted(sbs, v, x);
    NumInMap(sbs, x, id);
    InoBitAbs(sbs, x, w, Wiped(es, i), id.dev, id.num, true);
    InoBitKeeps(sbs, x, w, Wiped(es, i), id.dev, id.num, true);
    WipeSound(sbs, s, own, id);
  }

  // ---------- Allocating an inode (kernel/fs/inode.c:85-110) ----------

  /** Clearing the bit of a free number: the inode it names is blank. */
  lemma NumberStep(sbs: Supers, v: Disk, w: Disk, es: seq<Inode>, own: map<Addr, Owner>, dev: nat, p: nat)
    requires Core(sbs, v, es, own) && dev < |sbs|
    requires p < sbs[dev].freeInoLen * BITS_PER_BLK && IsFree(v, dev, sbs[dev].freeIno, p)
    requires BitWritten(v, w, dev, sbs[dev].freeIno, p, false)
    ensures var s, id := Abs(sbs, v, es), InoId(dev, p);
      && dev < |s.freeIno| && p in s.freeIno[dev] && ValidId(sbs, id) && id in s.ino && s.ino[id] == NO_INODE
      && Core(sbs, w, es, own) && s.freeIno[dev] == FreeSet(v, dev, sbs[dev].freeIno, sbs[dev].freeInoLen)
      && Abs(sbs, w, es) == s.(freeIno := s.freeIno[dev := s.freeIno[dev] - {p}])
  {
    hide InoAt, ICacheInv, Owns, FilesOk, BitWritten, Inos, DataOf, FreeBlks, Mounted, IsFree, ValidId, NO_INODE;
    var s := Abs(sbs, v, es);
    assert p in s.freeIno[dev] && InoId(dev, p) in s.ino;
    InoBitAbs(sbs, v, w, es, dev, p, false);
    InoBitKeeps(sbs, v, w, es, dev, p, false);
    NumberSound(sbs, s, own, dev, p);
  }

  lemma NumberSound(sbs: Supers, s: State, own: map<Addr, Owner>, dev: nat, p: nat)
    requires Sound(sbs, s, own) && dev < |s.freeIno|
    ensures Sound(sbs, s.(freeIno := s.freeIno[dev := s.freeIno[dev] - {p}]), own)
  {
    SameAddrsOwns(sbs, s, s.(freeIno := s.freeIno[dev := s.freeIno[dev] - {p}]), own);
    hide Owns, WfFile;
  }

  // ---------- A volume nothing has been stored on ----------

  /** Every inode blank, every data block free. */
  ghost predicate Fresh(sbs: Supers, s: State) {
    && |s.free| == |s.freeIno| == |sbs|
    && (forall id :: id in s.ino ==> s.ino[id] == NO_INODE)
    && (forall d, p :: 0 <= d < |sbs| ==> (p in s.free[d] <==> IsDataAddr(sbs, Addr(d, p))))
    && (forall d, n :: 0 <= d < |sbs| && n in s.freeIno[d] ==> ValidId(sbs, InoId(d, n)) && InoId(d, n) in s.ino)
  }

  /** Such a volume is sound, with no block owned: the place every run can start from. */
  lemma FreshIsSound(sbs: Supers, s: State)
    requires Fresh(sbs, s)
    ensures Sound(sbs, s, map[])
  {
    BlankOk();
    hide IsDataAddr, WfFile;
    assert |NO_INODE.addr| == NADDR && forall k :: 0 <= k < NADDR ==> NO_INODE.addr[k] == 0;
    forall a: Addr | IsDataAddr(sbs, a)
      ensures a.dev < |sbs| && a.blk in s.free[a.dev]
    {
      DataDev(sbs, a);
      assert a == Addr(a.dev, a.blk);
    }
  }

  lemma DataDev(sbs: Supers, a: Addr)
    requires IsDataAddr(sbs, a)
    ensures a.dev < |sbs|
  {
  }
}
