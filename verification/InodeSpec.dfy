/** The inode cache of kernel/fs/inode.c: what its state means. */
module InodeSpec {
  import opened Blocks
  import opened DiskInodes
  import opened Volume

  /** `struct inode` (kernel/include/fs.h:101-123), less its lock; `id.num == 0` in an empty entry. */
  datatype Inode = Inode(din: DInode, id: InoId, dirty: bool, count: nat)

  const NO_ID := InoId(0, 0)

  function FindIno(inodes: seq<Inode>, id: InoId, i: nat): (r: nat)
    requires i <= |inodes|
    ensures i <= r <= |inodes|
    ensures r < |inodes| ==> inodes[r].id == id
    ensures forall j :: i <= j < r ==> inodes[j].id != id
    decreases |inodes| - i
  {
    if i == |inodes| || inodes[i].id == id then i else FindIno(inodes, id, i + 1)
  }

  /** The inode table as the kernel sees it: the entry in core if there is one, else the disk. */
  function InoAt(sbs: Supers, v: Disk, inodes: seq<Inode>, id: InoId): DInode
    requires id.dev < |sbs| && InoBlk(sbs, id) in v
  {
    var i := FindIno(inodes, id, 0);
    if i < |inodes| then inodes[i].din else DiskIno(sbs, v, id)
  }

  ghost predicate EntryOk(sbs: Supers, v: Disk, e: Inode) {
    && e.count <= MAX_COUNT && |e.din.addr| == NADDR
    && (e.id.num == 0 ==> e.id == NO_ID && e.count == 0 && !e.dirty)
    && (e.id.num != 0 ==>
        && e.id.dev < |sbs| && ValidId(sbs, e.id) && InoBlk(sbs, e.id) in v
        && Fits(e.din)
        && (!e.dirty ==> e.din == DiskIno(sbs, v, e.id)))
  }

  /** Where the entry is to be written exists, and so do its address slots. */
  ghost predicate Placed(sbs: Supers, v: Disk, e: Inode) {
    e.id.dev < |sbs| && InoBlk(sbs, e.id) in v && |e.din.addr| == NADDR
  }

  ghost predicate Distinct(inodes: seq<Inode>) {
    forall i, j :: 0 <= i < j < |inodes| && inodes[i].id == inodes[j].id ==> inodes[i].id.num == 0
  }

  ghost predicate ICacheInv(sbs: Supers, v: Disk, inodes: seq<Inode>) {
    && Distinct(inodes)
    && (forall i :: 0 <= i < |inodes| ==> EntryOk(sbs, v, inodes[i]))
  }

  /** The two states show the same inodes. */
  ghost predicate SameInodes(sbs: Supers, v: Disk, es: seq<Inode>, w: Disk, fs: seq<Inode>) {
    forall id :: ValidId(sbs, id) && InoBlk(sbs, id) in v && InoBlk(sbs, id) in w ==>
      InoAt(sbs, w, fs, id) == InoAt(sbs, v, es, id)
  }

  lemma InoOfEntry(sbs: Supers, v: Disk, inodes: seq<Inode>, i: nat)
    requires Distinct(inodes) && i < |inodes| && inodes[i].id.num != 0
    requires inodes[i].id.dev < |sbs| && InoBlk(sbs, inodes[i].id) in v
    ensures FindIno(inodes, inodes[i].id, 0) == i
    ensures InoAt(sbs, v, inodes, inodes[i].id) == inodes[i].din
  {
  }

  lemma InoOfDisk(sbs: Supers, v: Disk, inodes: seq<Inode>, id: InoId)
    requires id.dev < |sbs| && InoBlk(sbs, id) in v
    requires forall i :: 0 <= i < |inodes| ==> inodes[i].id != id
    ensures InoAt(sbs, v, inodes, id) == DiskIno(sbs, v, id)
  {
  }

  function Cleaned(inodes: seq<Inode>, i: nat): seq<Inode>
    requires i < |inodes|
  {
    inodes[i := inodes[i].(dirty := false)]
  }

  lemma OtherEntry(sbs: Supers, v: Disk, e: Inode, x: Inode)
    requires EntryOk(sbs, v, e) && e.id.num != 0 && EntryOk(sbs, v, x) && x.id != e.id
    ensures EntryOk(sbs, WriteIno(sbs, v, e.id, Encode(e.din)), x)
  {
    hide WriteIno, DiskIno, Encode, Fits, InoBlk, ValidId;
    WriteKeys(sbs, v, e.id, Encode(e.din));
    if x.id.num != 0 {
      WriteOneInode(sbs, v, e.id, Encode(e.din), x.id);
    }
  }

  lemma ThisEntry(sbs: Supers, v: Disk, e: Inode)
    requires EntryOk(sbs, v, e) && e.id.num != 0
    ensures EntryOk(sbs, WriteIno(sbs, v, e.id, Encode(e.din)), e.(dirty := false))
  {
    hide WriteIno, DiskIno, Encode, Fits, InoBlk, ValidId;
    WriteKeys(sbs, v, e.id, Encode(e.din));
    WriteOneInode(sbs, v, e.id, Encode(e.din), e.id);
    DecodeEncode(e.din);
  }

  lemma CleanedInv(sbs: Supers, v: Disk, inodes: seq<Inode>, i: nat)
    requires ICacheInv(sbs, v, inodes) && i < |inodes| && inodes[i].id.num != 0
    requires EntryOk(sbs, v, inodes[i]) && Placed(sbs, v, inodes[i])
    ensures ICacheInv(sbs, WriteIno(sbs, v, inodes[i].id, Encode(inodes[i].din)), Cleaned(inodes, i))
  {
    hide EntryOk, WriteIno, Encode, InoBlk;
    forall j | 0 <= j < |inodes|
      ensures EntryOk(sbs, WriteIno(sbs, v, inodes[i].id, Encode(inodes[i].din)), Cleaned(inodes, i)[j])
    {
      if j == i {
        ThisEntry(sbs, v, inodes[i]);
      } else {
        OtherEntry(sbs, v, inodes[i], inodes[j]);
      }
    }
  }

  lemma CleanedView(sbs: Supers, v: Disk, inodes: seq<Inode>, i: nat, id: InoId)
    requires ICacheInv(sbs, v, inodes) && i < |inodes| && inodes[i].id.num != 0
    requires EntryOk(sbs, v, inodes[i])
    requires id.dev < |sbs| && InoBlk(sbs, id) in v
    ensures var w := WriteIno(sbs, v, inodes[i].id, Encode(inodes[i].din));
      InoBlk(sbs, id) in w && InoAt(sbs, w, Cleaned(inodes, i), id) == InoAt(sbs, v, inodes, id)
  {
    hide WriteIno, DiskIno, Encode, Fits, ICacheInv, FindIno, InoBlk;
    var e := inodes[i];
    SameFind(inodes, Cleaned(inodes, i), id);
    WriteKeys(sbs, v, e.id, Encode(e.din));
    if id != e.id {
      WriteOneInode(sbs, v, e.id, Encode(e.din), id);
    } else {
      var r := FindIno(inodes, id, 0);
      assert r <= i;
    }
  }

  /** Writing a dirty entry back, and marking it clean, changes no inode anyone can see. */
  lemma CleanedSame(sbs: Supers, v: Disk, inodes: seq<Inode>, i: nat)
    requires ICacheInv(sbs, v, inodes) && i < |inodes| && inodes[i].id.num != 0
    requires EntryOk(sbs, v, inodes[i]) && Placed(sbs, v, inodes[i])
    ensures SameInodes(sbs, v, inodes, WriteIno(sbs, v, inodes[i].id, Encode(inodes[i].din)), Cleaned(inodes, i))
  {
    hide ICacheInv, InoAt, EntryOk, Encode, WriteIno, InoBlk;
    var w := WriteIno(sbs, v, inodes[i].id, Encode(inodes[i].din));
    forall id | ValidId(sbs, id) && InoBlk(sbs, id) in v && InoBlk(sbs, id) in w
      ensures InoAt(sbs, w, Cleaned(inodes, i), id) == InoAt(sbs, v, inodes, id)
    {
      CleanedView(sbs, v, inodes, i, id);
    }
  }

  lemma WriteOnlyTable(sbs: Supers, v: Disk, id: InoId, bs: seq<byte>)
    requires id.dev < |sbs| && InoBlk(sbs, id) in v && |bs| == DINODE_SZ
    requires InTable(sbs[id.dev], InoBlk(sbs, id).blk)
    ensures SameButTables(sbs, v, WriteIno(sbs, v, id, bs))
  {
  }

  lemma WriteKeys(sbs: Supers, v: Disk, id: InoId, bs: seq<byte>)
    requires id.dev < |sbs| && InoBlk(sbs, id) in v && |bs| == DINODE_SZ
    ensures WriteIno(sbs, v, id, bs).Keys == v.Keys
  {
  }

  lemma SameFind(es: seq<Inode>, fs: seq<Inode>, id: InoId)
    requires |es| == |fs| && forall j :: 0 <= j < |es| ==> es[j].id == fs[j].id
    ensures FindIno(es, id, 0) == FindIno(fs, id, 0)
  {
  }

  // ---------- The other ways an entry changes ----------

  /** Entry `i`, which nobody uses and nothing is owed to the disk for, becomes inode `id` as read from disk. */
  lemma FilledEntry(sbs: Supers, v: Disk, id: InoId, count: nat)
    requires ValidId(sbs, id) && InoBlk(sbs, id) in v && count <= MAX_COUNT
    ensures EntryOk(sbs, v, Inode(DiskIno(sbs, v, id), id, false, count))
  {
    hide Decode, Fits;
    DecodeFits(SlotOf(v[InoBlk(sbs, id)], id.num));
  }

  lemma FilledInv(sbs: Supers, v: Disk, es: seq<Inode>, i: nat, id: InoId, count: nat)
    requires ICacheInv(sbs, v, es) && i < |es| && count <= MAX_COUNT
    requires ValidId(sbs, id) && InoBlk(sbs, id) in v
    requires forall j :: 0 <= j < |es| ==> es[j].id != id
    ensures ICacheInv(sbs, v, es[i := Inode(DiskIno(sbs, v, id), id, false, count)])
  {
    hide EntryOk;
    FilledEntry(sbs, v, id, count);
  }

  lemma FilledView(sbs: Supers, v: Disk, es: seq<Inode>, i: nat, id: InoId, count: nat, x: InoId)
    requires ICacheInv(sbs, v, es) && i < |es| && (es[i].id.num == 0 || !es[i].dirty) && count <= MAX_COUNT
    requires ValidId(sbs, id) && InoBlk(sbs, id) in v && ValidId(sbs, x) && InoBlk(sbs, x) in v
    requires forall j :: 0 <= j < |es| ==> es[j].id != id
    ensures InoAt(sbs, v, es[i := Inode(DiskIno(sbs, v, id), id, false, count)], x) == InoAt(sbs, v, es, x)
  {
    var fs := es[i := Inode(DiskIno(sbs, v, id), id, false, count)];
    FilledInv(sbs, v, es, i, id, count);
    assert EntryOk(sbs, v, es[i]);
    hide DiskIno, EntryOk, FindIno;
    if x == id {
      InoOfEntry(sbs, v, fs, i);
      InoOfDisk(sbs, v, es, id);
    } else {
      EntryMoved(sbs, v, es, fs, i, x);
    }
  }

  /** An inode that entry `i` does not become is seen as before, whether it sat in `i` (clean), elsewhere, or on disk. */
  lemma EntryMoved(sbs: Supers, v: Disk, es: seq<Inode>, fs: seq<Inode>, i: nat, x: InoId)
    requires Distinct(es) && Distinct(fs) && i < |es| && |fs| == |es| && fs == es[i := fs[i]]
    requires x.num != 0 && x.dev < |sbs| && InoBlk(sbs, x) in v && fs[i].id != x
    requires es[i].id == x ==> es[i].din == DiskIno(sbs, v, x)
    ensures InoAt(sbs, v, fs, x) == InoAt(sbs, v, es, x)
  {
    hide DiskIno;
    var r := FindIno(es, x, 0);
    if r < |es| && r != i {
      assert fs[r] == es[r];
      InoOfEntry(sbs, v, fs, r);
    } else {
      if r == i {
        assert forall j :: 0 <= j < |es| && j != i ==> es[j].id != x;
      }
      InoOfDisk(sbs, v, fs, x);
    }
  }

  lemma FilledSame(sbs: Supers, v: Disk, es: seq<Inode>, i: nat, id: InoId, count: nat)
    requires ICacheInv(sbs, v, es) && i < |es| && (es[i].id.num == 0 || !es[i].dirty) && count <= MAX_COUNT
    requires ValidId(sbs, id) && InoBlk(sbs, id) in v
    requires forall j :: 0 <= j < |es| ==> es[j].id != id
    ensures SameInodes(sbs, v, es, v, es[i := Inode(DiskIno(sbs, v, id), id, false, count)])
  {
    hide ICacheInv, InoAt, DiskIno, InoBlk;
    var fs := es[i := Inode(DiskIno(sbs, v, id), id, false, count)];
    forall x | ValidId(sbs, x) && InoBlk(sbs, x) in v ensures InoAt(sbs, v, fs, x) == InoAt(sbs, v, es, x) {
      FilledView(sbs, v, es, i, id, count, x);
    }
  }

  /** Taking and dropping uses. */
  lemma CountedInv(sbs: Supers, v: Disk, es: seq<Inode>, i: nat, n: nat)
    requires ICacheInv(sbs, v, es) && i < |es| && es[i].id.num != 0 && n <= MAX_COUNT
    ensures ICacheInv(sbs, v, es[i := es[i].(count := n)])
  {
  }

  lemma CountedSame(sbs: Supers, v: Disk, es: seq<Inode>, i: nat, n: nat)
    requires i < |es|
    ensures SameInodes(sbs, v, es, v, es[i := es[i].(count := n)])
  {
    hide DiskIno, FindIno;
    var fs := es[i := es[i].(count := n)];
    forall x | ValidId(sbs, x) && InoBlk(sbs, x) in v ensures InoAt(sbs, v, fs, x) == InoAt(sbs, v, es, x) {
      SameFind(es, fs, x);
    }
  }

  /** Changing the inode in core: everyone sees that inode change, and no other. */
  function Edited(es: seq<Inode>, i: nat, d: DInode): seq<Inode>
    requires i < |es|
  {
    es[i := es[i].(din := d, dirty := true)]
  }

  lemma EditedInv(sbs: Supers, v: Disk, es: seq<Inode>, i: nat, d: DInode)
    requires ICacheInv(sbs, v, es) && i < |es| && es[i].id.num != 0 && Fits(d)
    ensures ICacheInv(sbs, v, Edited(es, i, d))
  {
  }

  lemma EditedView(sbs: Supers, v: Disk, es: seq<Inode>, i: nat, d: DInode, x: InoId)
    requires Distinct(es) && i < |es| && es[i].id.num != 0
    requires x.dev < |sbs| && InoBlk(sbs, x) in v
    ensures InoAt(sbs, v, Edited(es, i, d), x) == if x == es[i].id then d else InoAt(sbs, v, es, x)
  {
    hide DiskIno;
    SameFind(es, Edited(es, i, d), x);
    if x == es[i].id {
      InoOfEntry(sbs, v, es, i);
    }
  }

  lemma SameInodesTrans(sbs: Supers, v: Disk, es: seq<Inode>, w: Disk, fs: seq<Inode>, x: Disk, gs: seq<Inode>)
    requires v.Keys == w.Keys == x.Keys
    requires SameInodes(sbs, v, es, w, fs) && SameInodes(sbs, w, fs, x, gs)
    ensures SameInodes(sbs, v, es, x, gs)
  {
  }
}
