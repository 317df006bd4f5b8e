/** What buffers, inode entries and bits stand for: inodes by number, free positions, data blocks. */
module FsState {
  import opened Blocks
  import opened DiskInodes
  import opened FreeMap
  import opened Volume
  import opened InodeSpec

  /**
   * `ino`: the inode of every number; `free[d]` and `freeIno[d]`: the free blocks and inode numbers of
   * device `d`; `data`: the data blocks.
   */
  datatype State = State(ino: imap<InoId, DInode>, free: seq<set<nat>>, freeIno: seq<set<nat>>, data: Disk)

  predicate IsDataAddr(sbs: Supers, a: Addr) {
    a.dev < |sbs| && IsData(sbs[a.dev], a.blk)
  }

  ghost function Inos(sbs: Supers, v: Disk, es: seq<Inode>): imap<InoId, DInode> {
    imap id: InoId | ValidId(sbs, id) && InoBlk(sbs, id) in v :: InoAt(sbs, v, es, id)
  }

  ghost function FreeBlks(sbs: Supers, v: Disk): seq<set<nat>> {
    seq(|sbs|, d requires 0 <= d < |sbs| => FreeSet(v, d, sbs[d].freeBlk, sbs[d].freeBlkLen))
  }

  ghost function FreeInos(sbs: Supers, v: Disk): seq<set<nat>> {
    seq(|sbs|, d requires 0 <= d < |sbs| => FreeSet(v, d, sbs[d].freeIno, sbs[d].freeInoLen))
  }

  ghost function DataOf(sbs: Supers, v: Disk): Disk {
    map a | a in v && IsDataAddr(sbs, a) :: v[a]
  }

  ghost function Abs(sbs: Supers, v: Disk, es: seq<Inode>): State {
    State(Inos(sbs, v, es), FreeBlks(sbs, v), FreeInos(sbs, v), DataOf(sbs, v))
  }

  // ---------- Writing one kind of block leaves the meaning of the others ----------

  lemma SameFreeSet(v: Disk, w: Disk, dev: nat, start: nat, len: nat)
    requires v.Keys == w.Keys
    requires forall a: Addr :: a in v && a.dev == dev && Between(a.blk, start, len) ==> w[a] == v[a]
    ensures FreeSet(w, dev, start, len) == FreeSet(v, dev, start, len)
  {
  }

  lemma SameInos(sbs: Supers, v: Disk, w: Disk, es: seq<Inode>)
    requires Mounted(sbs, v) && v.Keys == w.Keys
    requires forall a :: a in v && a.dev < |sbs| && InTable(sbs[a.dev], a.blk) ==> w[a] == v[a]
    ensures Inos(sbs, w, es) == Inos(sbs, v, es)
  {
    hide Decode, SlotOf, FindIno, Mounted, InTable;
    forall id | ValidId(sbs, id) && InoBlk(sbs, id) in v ensures InoAt(sbs, w, es, id) == InoAt(sbs, v, es, id) {
      InoBlkInTable(sbs, v, id);
    }
    InosEqual(sbs, v, es, w, es);
  }

  lemma InosEqual(sbs: Supers, v: Disk, es: seq<Inode>, w: Disk, fs: seq<Inode>)
    requires v.Keys == w.Keys
    requires forall id :: ValidId(sbs, id) && InoBlk(sbs, id) in v ==> InoAt(sbs, w, fs, id) == InoAt(sbs, v, es, id)
    ensures Inos(sbs, w, fs) == Inos(sbs, v, es)
  {
  }

  lemma TableWriteAbs(sbs: Supers, v: Disk, w: Disk, es: seq<Inode>, fs: seq<Inode>)
    requires Mounted(sbs, v) && SameButTables(sbs, v, w)
    ensures Abs(sbs, w, fs) == Abs(sbs, v, es).(ino := Inos(sbs, w, fs))
  {
    hide Inos, FreeBlks, FreeInos, DataOf, Mounted, SameButTables;
    MapsKept(sbs, v, w);
    DataKept(sbs, v, w);
  }

  lemma DataKept(sbs: Supers, v: Disk, w: Disk)
    requires SameButTables(sbs, v, w)
    ensures DataOf(sbs, w) == DataOf(sbs, v)
  {
  }

  lemma MapsKept(sbs: Supers, v: Disk, w: Disk)
    requires Mounted(sbs, v) && SameButTables(sbs, v, w)
    ensures FreeBlks(sbs, w) == FreeBlks(sbs, v) && FreeInos(sbs, w) == FreeInos(sbs, v)
  {
    hide FreeSet, Mounted, SameButTables;
    forall d | 0 <= d < |sbs|
      ensures FreeSet(w, d, sbs[d].freeBlk, sbs[d].freeBlkLen) == FreeSet(v, d, sbs[d].freeBlk, sbs[d].freeBlkLen)
      ensures FreeSet(w, d, sbs[d].freeIno, sbs[d].freeInoLen) == FreeSet(v, d, sbs[d].freeIno, sbs[d].freeInoLen)
    {
      MapsOutside(sbs, v, w, d);
    }
  }

  lemma MapsOutside(sbs: Supers, v: Disk, w: Disk, d: nat)
    requires Mounted(sbs, v) && SameButTables(sbs, v, w) && d < |sbs|
    ensures FreeSet(w, d, sbs[d].freeBlk, sbs[d].freeBlkLen) == FreeSet(v, d, sbs[d].freeBlk, sbs[d].freeBlkLen)
    ensures FreeSet(w, d, sbs[d].freeIno, sbs[d].freeInoLen) == FreeSet(v, d, sbs[d].freeIno, sbs[d].freeInoLen)
  {
    hide FreeSet;
    assert WfSuper(sbs[d]);
    SameFreeSet(v, w, d, sbs[d].freeBlk, sbs[d].freeBlkLen);
    SameFreeSet(v, w, d, sbs[d].freeIno, sbs[d].freeInoLen);
  }

  /** iget, iput and the cache below them change no part of the state. */
  lemma AlikeAbs(sbs: Supers, v: Disk, es: seq<Inode>, w: Disk, fs: seq<Inode>)
    requires Mounted(sbs, v) && SameButTables(sbs, v, w) && SameInodes(sbs, v, es, w, fs)
    ensures Abs(sbs, w, fs) == Abs(sbs, v, es)
  {
    hide InoAt, FreeSet, Mounted;
    InosEqual(sbs, v, es, w, fs);
    TableWriteAbs(sbs, v, w, es, fs);
  }

  /** Storing into a data block changes that data block. */
  lemma DataAbs(sbs: Supers, v: Disk, es: seq<Inode>, a: Addr, b: Block)
    requires Mounted(sbs, v) && a in v && IsDataAddr(sbs, a)
    ensures var s := Abs(sbs, v, es); Abs(sbs, v[a := b], es) == s.(data := s.data[a := b])
  {
    hide InoAt, FreeSet;
    var w := v[a := b];
    SameInos(sbs, v, w, es);
    forall d | 0 <= d < |sbs|
      ensures FreeSet(w, d, sbs[d].freeBlk, sbs[d].freeBlkLen) == FreeSet(v, d, sbs[d].freeBlk, sbs[d].freeBlkLen)
      ensures FreeSet(w, d, sbs[d].freeIno, sbs[d].freeInoLen) == FreeSet(v, d, sbs[d].freeIno, sbs[d].freeInoLen)
    {
      SameFreeSet(v, w, d, sbs[d].freeBlk, sbs[d].freeBlkLen);
      SameFreeSet(v, w, d, sbs[d].freeIno, sbs[d].freeInoLen);
    }
  }

  lemma BlkBitAbs(sbs: Supers, v: Disk, w: Disk, es: seq<Inode>, dev: nat, p: nat, free: bool)
    requires Mounted(sbs, v) && dev < |sbs| && p < sbs[dev].freeBlkLen * BITS_PER_BLK
    requires BitWritten(v, w, dev, sbs[dev].freeBlk, p, free)
    ensures var s := Abs(sbs, v, es);
      Abs(sbs, w, es) == s.(free := s.free[dev := if free then s.free[dev] + {p} else s.free[dev] - {p}])
  {
    var sb := sbs[dev];
    var a := MapBlock(dev, sb.freeBlk, p);
    assert WfSuper(sb) && Between(a.blk, sb.freeBlk, sb.freeBlkLen) && !InTable(sb, a.blk)
        && !Between(a.blk, sb.freeIno, sb.freeInoLen);
    SetAfter(v, w, dev, sb.freeBlk, sb.freeBlkLen, p, free);
    MapWriteAbs(sbs, v, w, es, a);
    hide InoAt, FreeSet, BitWritten;
  }

  lemma InoBitAbs(sbs: Supers, v: Disk, w: Disk, es: seq<Inode>, dev: nat, p: nat, free: bool)
    requires Mounted(sbs, v) && dev < |sbs| && p < sbs[dev].freeInoLen * BITS_PER_BLK
    requires BitWritten(v, w, dev, sbs[dev].freeIno, p, free)
    ensures var s := Abs(sbs, v, es);
      Abs(sbs, w, es) == s.(freeIno := s.freeIno[dev := if free then s.freeIno[dev] + {p} else s.freeIno[dev] - {p}])
  {
    var sb := sbs[dev];
    var a := MapBlock(dev, sb.freeIno, p);
    assert WfSuper(sb) && Between(a.blk, sb.freeIno, sb.freeInoLen) && !InTable(sb, a.blk)
        && !Between(a.blk, sb.freeBlk, sb.freeBlkLen);
    SetAfter(v, w, dev, sb.freeIno, sb.freeInoLen, p, free);
    MapWriteAbs(sbs, v, w, es, a);
    hide InoAt, FreeSet, BitWritten;
  }

  /** Writing a block outside the tables and the data keeps both, and every free map the block is not in. */
  lemma MapWriteAbs(sbs: Supers, v: Disk, w: Disk, es: seq<Inode>, a: Addr)
    requires Mounted(sbs, v) && a in v && a in w && w == v[a := w[a]] && a.dev < |sbs|
    requires !InTable(sbs[a.dev], a.blk) && !IsData(sbs[a.dev], a.blk)
    ensures Inos(sbs, w, es) == Inos(sbs, v, es) && DataOf(sbs, w) == DataOf(sbs, v)
    ensures forall d :: 0 <= d < |sbs| && (d != a.dev || !Between(a.blk, sbs[d].freeBlk, sbs[d].freeBlkLen)) ==>
      FreeBlks(sbs, w)[d] == FreeBlks(sbs, v)[d]
    ensures forall d :: 0 <= d < |sbs| && (d != a.dev || !Between(a.blk, sbs[d].freeIno, sbs[d].freeInoLen)) ==>
      FreeInos(sbs, w)[d] == FreeInos(sbs, v)[d]
  {
    hide InoAt, FreeSet, Mounted;
    SameInos(sbs, v, w, es);
    forall d | 0 <= d < |sbs| && (d != a.dev || !Between(a.blk, sbs[d].freeBlk, sbs[d].freeBlkLen))
      ensures FreeBlks(sbs, w)[d] == FreeBlks(sbs, v)[d]
    {
      SameFreeSet(v, w, d, sbs[d].freeBlk, sbs[d].freeBlkLen);
    }
    forall d | 0 <= d < |sbs| && (d != a.dev || !Between(a.blk, sbs[d].freeIno, sbs[d].freeInoLen))
      ensures FreeInos(sbs, w)[d] == FreeInos(sbs, v)[d]
    {
      SameFreeSet(v, w, d, sbs[d].freeIno, sbs[d].freeInoLen);
    }
  }

  /** The inode in core is the inode of its number. */
  lemma EntryAbs(sbs: Supers, v: Disk, es: seq<Inode>, i: nat)
    requires ICacheInv(sbs, v, es) && i < |es| && es[i].id.num != 0
    ensures es[i].id in Inos(sbs, v, es) && Inos(sbs, v, es)[es[i].id] == es[i].din && ValidId(sbs, es[i].id)
  {
    assert EntryOk(sbs, v, es[i]);
    InoOfEntry(sbs, v, es, i);
    hide InoAt;
  }

  /** Changing the inode in core changes that inode. */
  lemma EditInos(sbs: Supers, v: Disk, es: seq<Inode>, i: nat, d: DInode)
    requires Distinct(es) && i < |es| && es[i].id.num != 0 && ValidId(sbs, es[i].id) && InoBlk(sbs, es[i].id) in v
    ensures Inos(sbs, v, Edited(es, i, d)) == Inos(sbs, v, es)[es[i].id := d]
  {
    hide InoAt, Edited, Distinct;
    forall x | ValidId(sbs, x) && InoBlk(sbs, x) in v
      ensures InoAt(sbs, v, Edited(es, i, d), x) == if x == es[i].id then d else InoAt(sbs, v, es, x)
    {
      EditedView(sbs, v, es, i, d, x);
    }
  }

  lemma EditAbs(sbs: Supers, v: Disk, es: seq<Inode>, i: nat, d: DInode)
    requires ICacheInv(sbs, v, es) && i < |es| && es[i].id.num != 0
    ensures var s := Abs(sbs, v, es); Abs(sbs, v, Edited(es, i, d)) == s.(ino := s.ino[es[i].id := d])
  {
    assert EntryOk(sbs, v, es[i]) && Distinct(es);
    hide InoAt, EntryOk, ICacheInv, Edited;
    EditInos(sbs, v, es, i, d);
  }

  // ---------- Wiping an inode (kernel/fs/inode.c:118-121) ----------

  function Wiped(es: seq<Inode>, i: nat): seq<Inode>
    requires i < |es|
  {
    es[i := Inode(NO_INODE, NO_ID, false, 0)]
  }

  lemma WipeInv(sbs: Supers, v: Disk, es: seq<Inode>, i: nat, bs: seq<byte>)
    requires ICacheInv(sbs, v, es) && i < |es| && es[i].id.num != 0 && |bs| == DINODE_SZ
    ensures EntryOk(sbs, v, es[i])
    ensures ICacheInv(sbs, WriteIno(sbs, v, es[i].id, bs), Wiped(es, i))
  {
    assert EntryOk(sbs, v, es[i]);
    var w := WriteIno(sbs, v, es[i].id, bs);
    assert EntryOk(sbs, w, Wiped(es, i)[i]);
    hide WriteIno, EntryOk;
    forall j | 0 <= j < |es| && j != i ensures EntryOk(sbs, w, Wiped(es, i)[j]) {
      KeptEntry(sbs, v, es[i].id, bs, es[j]);
    }
  }

  lemma KeptEntry(sbs: Supers, v: Disk, id: InoId, bs: seq<byte>, x: Inode)
    requires id.dev < |sbs| && InoBlk(sbs, id) in v && |bs| == DINODE_SZ && EntryOk(sbs, v, x) && x.id != id
    ensures EntryOk(sbs, WriteIno(sbs, v, id, bs), x)
  {
    hide WriteIno, DiskIno, Fits, InoBlk, ValidId;
    WriteKeys(sbs, v, id, bs);
    if x.id.num != 0 {
      WriteOneInode(sbs, v, id, bs, x.id);
    }
  }

  /** Wiping inode `id` on disk and dropping its entry wipes that inode, and no other. */
  lemma WipeView(sbs: Supers, v: Disk, es: seq<Inode>, i: nat, bs: seq<byte>, x: InoId)
    requires Distinct(es) && i < |es| && es[i].id.num != 0 && es[i].id.dev < |sbs| && InoBlk(sbs, es[i].id) in v
    requires |bs| == DINODE_SZ && Decode(bs) == NO_INODE
    requires x.num != 0 && x.dev < |sbs| && InoBlk(sbs, x) in v
    ensures var w := WriteIno(sbs, v, es[i].id, bs);
      InoBlk(sbs, x) in w && InoAt(sbs, w, Wiped(es, i), x) == if x == es[i].id then NO_INODE else InoAt(sbs, v, es, x)
  {
    var w := WriteIno(sbs, v, es[i].id, bs);
    WriteKeys(sbs, v, es[i].id, bs);
    WriteOneInode(sbs, v, es[i].id, bs, x);
    hide WriteIno, DiskIno, FindIno, InoBlk, Decode;
    if x == es[i].id {
      InoOfDisk(sbs, w, Wiped(es, i), x);
    } else {
      EntryMoved(sbs, w, es, Wiped(es, i), i, x);
      SameDiskIno(sbs, v, w, es, x);
    }
  }

  lemma SameDiskIno(sbs: Supers, v: Disk, w: Disk, es: seq<Inode>, x: InoId)
    requires x.dev < |sbs| && InoBlk(sbs, x) in v && InoBlk(sbs, x) in w
    requires DiskIno(sbs, v, x) == DiskIno(sbs, w, x)
    ensures InoAt(sbs, v, es, x) == InoAt(sbs, w, es, x)
  {
  }

  lemma WipeAbs(sbs: Supers, v: Disk, es: seq<Inode>, i: nat, bs: seq<byte>)
    requires Mounted(sbs, v) && ICacheInv(sbs, v, es) && i < |es| && es[i].id.num != 0
    requires |bs| == DINODE_SZ && Decode(bs) == NO_INODE && EntryOk(sbs, v, es[i])
    ensures var w := WriteIno(sbs, v, es[i].id, bs); var s := Abs(sbs, v, es);
      Abs(sbs, w, Wiped(es, i)) == s.(ino := s.ino[es[i].id := NO_INODE])
  {
    hide InoAt, WriteIno, Wiped, Decode, FreeSet, Mounted, Distinct;
    var id := es[i].id;
    var w := WriteIno(sbs, v, id, bs);
    WriteKeys(sbs, v, id, bs);
    InoBlkInTable(sbs, v, id);
    WriteOnlyTable(sbs, v, id, bs);
    TableWriteAbs(sbs, v, w, es, Wiped(es, i));
    forall x | ValidId(sbs, x) && InoBlk(sbs, x) in v
      ensures InoAt(sbs, w, Wiped(es, i), x) == if x == id then NO_INODE else InoAt(sbs, v, es, x)
    {
      WipeView(sbs, v, es, i, bs, x);
    }
  }
}
