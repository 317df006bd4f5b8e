/** The inode cache of kernel/fs/inode.c over the buffer cache, updated in place. */
module InodeCache {
  import opened Blocks
  import opened CacheSpec
  import opened CacheClient
  import opened BufferCache
  import opened BlockIO
  import opened DiskInodes
  import opened Volume
  import opened InodeSpec

  /** What iget does to the table: entry `i` is, or becomes, inode `id` with one more use. */
  ghost predicate Gets(es: seq<Inode>, fs: seq<Inode>, i: nat, id: InoId) {
    && |fs| == |es| && i < |es| && fs == es[i := fs[i]]
    && fs[i].id == id && fs[i].count == es[i].count + 1
    && (es[i].id == id || es[i].count == 0)
  }

  /** iget has nowhere to put the inode: it is not in core and every entry is in use, or its count is full. */
  ghost predicate NoRoom(es: seq<Inode>, id: InoId) {
    || (exists i :: 0 <= i < |es| && es[i].id == id && es[i].count == MAX_COUNT)
    || (forall i :: 0 <= i < |es| ==> es[i].id != id && es[i].count != 0)
  }

  /** The global `icache` (kernel/include/fs.h:227-230); a `struct inode *` is an index into `inodes`. */
  class InodeTable {
    const bt: BufferTable
    const inodes: array<Inode>
    const sbs: Supers

    ghost predicate Valid()
      reads this, bt, bt.blocks, inodes
    {
      && Ready(bt.State())
      && Mounted(sbs, View(bt.State()))
      && ICacheInv(sbs, View(bt.State()), inodes[..])
    }

    /** The whole table and cache look as they did, but for where things are kept. */
    ghost predicate Alike(c: Cache, es: seq<Inode>)
      reads this, bt, bt.blocks, inodes
    {
      && SameUse(c, bt.State())
      && SameButTables(sbs, View(c), View(bt.State()))
      && SameInodes(sbs, View(c), es, View(bt.State()), inodes[..])
    }

    constructor (bt: BufferTable, nrInode: nat, sbs: Supers)
      requires Ready(bt.State()) && Mounted(sbs, View(bt.State()))
      ensures this.bt == bt && this.sbs == sbs && fresh(inodes) && inodes.Length == nrInode
      ensures Valid() && forall i :: 0 <= i < nrInode ==> inodes[i] == EmptyEntry()
    {
      hide Ready, Mounted, View, NO_INODE;
      this.bt, this.sbs := bt, sbs;
      inodes := new Inode[nrInode](_ => EmptyEntry());
      new;
      EmptyIsOk(sbs, View(bt.State()));
    }

    /** Copies `bs` into the block held, `memcpy(&b->b_data[off], bs, |bs|)`. */
    method CopyIn(h: nat, off: nat, bs: seq<byte>, ghost c: Cache, ghost a: Addr)
      requires Holding(c, bt.State(), h, a) && off + |bs| <= BLK_SZ && bs != [] && h < bt.blocks.Length
      modifies bt.blocks
      ensures Holding(c, bt.State(), h, a)
      ensures bt.blocks[h].data == Patch(old(bt.blocks[h].data), off, bs) && bt.blocks[h].dirty
    {
      hide Holding;
      ghost var b := bt.blocks[h].data;
      var k := 0;
      while k < |bs|
        invariant k <= |bs|
        invariant Holding(c, bt.State(), h, a)
        invariant bt.blocks[h].data == Patch(b, off, bs[..k])
        invariant k > 0 ==> bt.blocks[h].dirty
      {
        StoreByte(bt, h, off + k, bs[k], c, a);
        PatchOne(b, off, bs, k);
        k := k + 1;
      }
      assert bs[..k] == bs;
    }

    /** Overwrites inode `id` on disk: bread, memcpy, bwrite. */
    method PutInode(id: InoId, bs: seq<byte>)
      requires Ready(bt.State()) && id.dev < |sbs| && InoBlk(sbs, id) in View(bt.State()) && |bs| == DINODE_SZ
      modifies bt, bt.blocks
      ensures Ready(bt.State()) && SameUse(old(bt.State()), bt.State())
      ensures View(bt.State()) == WriteIno(sbs, old(View(bt.State())), id, bs)
      ensures old(Mounted(sbs, View(bt.State()))) && ValidId(sbs, id) ==>
        Mounted(sbs, View(bt.State())) && BytesOf(Table(sbs, View(bt.State()), id.dev), id.num, bs)
    {
      hide Ready, Holding, View, SameUse, Patch, Slot, Decode, Mounted, ValidId, BytesOf, Table;
      ghost var c := bt.State();
      if Mounted(sbs, View(c)) && ValidId(sbs, id) {
        WrittenBytes(sbs, View(c), id, bs);
      }
      var a := InoBlk(sbs, id);
      var h := OpenBlock(bt, a);
      CopyIn(h, Slot(id.num), bs, c, a);
      WriteBlock(bt, h, c, a);
    }

    /** Writes entry `i` to its slot on disk and marks it clean: kernel/fs/inode.c:53-56. */
    method WriteBack(i: nat)
      requires Valid() && i < inodes.Length && inodes[i].id.num != 0
      modifies bt, bt.blocks, inodes
      ensures Valid() && Alike(old(bt.State()), old(inodes[..]))
      ensures inodes[..] == Cleaned(old(inodes[..]), i)
      ensures old(Placed(sbs, View(bt.State()), inodes[i]))
      ensures View(bt.State()) == WriteIno(sbs, old(View(bt.State())), old(inodes[i].id), Encode(old(inodes[i].din)))
    {
      hide Ready, View, Mounted, ICacheInv, EntryOk, SameUse, SameInodes, SameButTables, Encode, WriteIno, InTable, InoBlk;
      ghost var c, es := bt.State(), inodes[..];
      EntryPlaced(sbs, View(c), es, i);
      WroteBack(sbs, View(c), es, i);
      PutInode(inodes[i].id, Encode(inodes[i].din));
      inodes[i] := inodes[i].(dirty := false);
      assert inodes[..] == Cleaned(es, i);
    }

    /** Reads inode `id` from its slot on disk. */
    method FetchInode(id: InoId) returns (d: DInode)
      requires Ready(bt.State()) && id.dev < |sbs| && InoBlk(sbs, id) in View(bt.State())
      modifies bt, bt.blocks
      ensures Ready(bt.State()) && SameUse(old(bt.State()), bt.State())
      ensures View(bt.State()) == old(View(bt.State()))
      ensures d == DiskIno(sbs, old(View(bt.State())), id)
      ensures Mounted(sbs, View(bt.State())) && ValidId(sbs, id) ==> IsInode(Table(sbs, View(bt.State()), id.dev), id.num, d)
    {
      hide Ready, Holding, View, SameUse, Slot, SlotOf, Decode, Mounted, ValidId, IsInode, Table;
      ghost var c := bt.State();
      if Mounted(sbs, View(c)) && ValidId(sbs, id) {
        DiskInoBytes(sbs, View(c), id);
      }
      var a := InoBlk(sbs, id);
      var h := OpenBlock(bt, a);
      d := Decode(SlotOf(bt.blocks[h].data, id.num));
      CloseBlock(bt, h, c, a);
      SameBlock(View(c), a);
    }

    /** Recycles entry `f` for inode `id`: kernel/fs/inode.c:32-39. */
    method Recycle(f: nat, id: InoId)
      requires Valid() && f < inodes.Length && inodes[f].count == 0 && ValidId(sbs, id)
      requires forall j :: 0 <= j < inodes.Length ==> inodes[j].id != id
      modifies bt, bt.blocks, inodes
      ensures Valid() && Alike(old(bt.State()), old(inodes[..]))
      ensures Gets(old(inodes[..]), inodes[..], f, id)
      ensures inodes[f].count == 1 && !inodes[f].dirty
      ensures IsInode(Table(sbs, View(bt.State()), id.dev), id.num, inodes[f].din)
    {
      hide Ready, View, Mounted, ICacheInv, EntryOk, SameUse, SameInodes, SameButTables, DiskIno, InoBlk, WriteIno, Encode,
        IsInode, Table;
      ghost var c, es := bt.State(), inodes[..];
      AlikeSelf(sbs, c, es);
      DirtyIsTagged(sbs, View(c), es, f);
      if inodes[f].dirty {
        WriteBack(f);
      }
      ghost var d, fs := bt.State(), inodes[..];
      InoBlkInTable(sbs, View(d), id);
      var din := FetchInode(id);
      SameUseTrans(c, d, bt.State());
      Filled(sbs, View(c), es, View(d), fs, f, id);
      inodes[f] := Inode(din, id, false, 1);
      assert inodes[..] == fs[f := Inode(DiskIno(sbs, View(d), id), id, false, 1)];
    }

    /** kernel/fs/inode.c:15-44 */
    method Iget(id: InoId) returns (r: Option<nat>)
      requires Valid() && ValidId(sbs, id)
      modifies bt, bt.blocks, inodes
      ensures Valid() && Alike(old(bt.State()), old(inodes[..]))
      ensures r.None? <==> NoRoom(old(inodes[..]), id)
      ensures r.None? ==> bt.State() == old(bt.State()) && inodes[..] == old(inodes[..])
      ensures r.Some? ==> Gets(old(inodes[..]), inodes[..], r.value, id)
      ensures r.Some? && old(inodes[..])[r.value].id == id ==>
        inodes[r.value] == old(inodes[..])[r.value].(count := old(inodes[..])[r.value].count + 1)
      ensures r.Some? && old(inodes[..])[r.value].id != id ==>
        && inodes[r.value].count == 1 && !inodes[r.value].dirty
        && IsInode(Table(sbs, View(bt.State()), id.dev), id.num, inodes[r.value].din)
        && (forall j :: 0 <= j < r.value ==> old(inodes[..])[j].count > 0)
    {
      hide Ready, View, Mounted, ICacheInv, EntryOk, SameUse, SameInodes, SameButTables, IsInode, Table;
      ghost var c, es := bt.State(), inodes[..];
      AlikeSelf(sbs, c, es);
      TagsDistinct(sbs, View(c), es);
      var free: Option<nat> := None;
      var i := 0;
      while i < inodes.Length
        invariant i <= inodes.Length
        invariant forall j :: 0 <= j < i ==> inodes[j].id != id
        invariant free.None? ==> forall j :: 0 <= j < i ==> inodes[j].count != 0
        invariant free.Some? ==> free.value < i && inodes[free.value].count == 0
        invariant free.Some? ==> forall j :: 0 <= j < free.value ==> inodes[j].count != 0
      {
        if inodes[i].id == id {
          if inodes[i].count == MAX_COUNT {
            return None;
          }
          CountOk(sbs, View(c), es, i);
          inodes[i] := inodes[i].(count := inodes[i].count + 1);
          assert inodes[..] == es[i := es[i].(count := es[i].count + 1)];
          CountedInv(sbs, View(c), es, i, es[i].count + 1);
          CountedSame(sbs, View(c), es, i, es[i].count + 1);
          return Some(i);
        } else if inodes[i].count == 0 && free.None? {
          free := Some(i);
        }
        i := i + 1;
      }
      if free.None? {
        return None;
      }
      Recycle(free.value, id);
      return free;
    }

    /** kernel/fs/inode.c:46-62 */
    method Iput(i: nat)
      requires Valid() && i < inodes.Length && inodes[i].id.num != 0 && inodes[i].count > 0
      modifies bt, bt.blocks, inodes
      ensures Valid() && Alike(old(bt.State()), old(inodes[..]))
      ensures var e := old(inodes[i]); inodes[..] == old(inodes[..])[i := e.(dirty := false, count := e.count - 1)]
    {
      hide Ready, View, Mounted, ICacheInv, EntryOk, SameUse, SameInodes, SameButTables, WriteIno, Encode, InoBlk, Placed;
      ghost var c, es := bt.State(), inodes[..];
      AlikeSelf(sbs, c, es);
      if inodes[i].dirty {
        WriteBack(i);
      }
      ghost var d, fs := bt.State(), inodes[..];
      Irelease(i);
      KeysAlike(sbs, View(c), View(d));
      SameInodesTrans(sbs, View(c), es, View(d), fs, View(d), inodes[..]);
    }

    /** kernel/fs/inode.c:72-83 */
    method Irelease(i: nat)
      requires Valid() && i < inodes.Length && inodes[i].id.num != 0 && inodes[i].count > 0
      modifies inodes
      ensures Valid() && Alike(old(bt.State()), old(inodes[..]))
      ensures inodes[..] == old(inodes[..])[i := old(inodes[i]).(count := old(inodes[i].count) - 1)]
    {
      hide Ready, View, Mounted, ICacheInv, EntryOk, SameUse, SameInodes, SameButTables;
      ghost var v, es := View(bt.State()), inodes[..];
      AlikeSelf(sbs, bt.State(), es);
      CountOk(sbs, v, es, i);
      inodes[i] := inodes[i].(count := inodes[i].count - 1);
      assert inodes[..] == es[i := es[i].(count := es[i].count - 1)];
      CountedInv(sbs, v, es, i, es[i].count - 1);
      CountedSame(sbs, v, es, i, es[i].count - 1);
    }
  }

  lemma AlikeSelf(sbs: Supers, c: Cache, es: seq<Inode>)
    ensures SameUse(c, c) && SameButTables(sbs, View(c), View(c)) && SameInodes(sbs, View(c), es, View(c), es)
  {
  }

  lemma KeysAlike(sbs: Supers, v: Disk, w: Disk)
    requires SameButTables(sbs, v, w)
    ensures v.Keys == w.Keys
  {
  }

  lemma DirtyIsTagged(sbs: Supers, v: Disk, es: seq<Inode>, i: nat)
    requires ICacheInv(sbs, v, es) && i < |es|
    ensures es[i].dirty ==> es[i].id.num != 0
  {
  }

  lemma CountOk(sbs: Supers, v: Disk, es: seq<Inode>, i: nat)
    requires ICacheInv(sbs, v, es) && i < |es|
    ensures es[i].count <= MAX_COUNT
  {
  }

  lemma TagsDistinct(sbs: Supers, v: Disk, es: seq<Inode>)
    requires ICacheInv(sbs, v, es)
    ensures forall i, j :: 0 <= i < j < |es| && es[i].id == es[j].id ==> es[i].id.num == 0
    ensures forall i :: 0 <= i < |es| ==> es[i].count <= MAX_COUNT
  {
  }

  /** From `es`, entry `f` was cleaned if it had to be (giving `fs`) and then refilled. */
  lemma Filled(sbs: Supers, v: Disk, es: seq<Inode>, w: Disk, fs: seq<Inode>, f: nat, id: InoId)
    requires Mounted(sbs, w) && ICacheInv(sbs, w, fs) && ValidId(sbs, id) && InoBlk(sbs, id) in w
    requires SameButTables(sbs, v, w) && SameInodes(sbs, v, es, w, fs)
    requires f < |es| && |fs| == |es| && !fs[f].dirty && (fs == es || fs == Cleaned(es, f))
    requires forall j :: 0 <= j < |es| ==> es[j].id != id
    ensures var gs := fs[f := Inode(DiskIno(sbs, w, id), id, false, 1)];
      ICacheInv(sbs, w, gs) && SameInodes(sbs, v, es, w, gs)
  {
    hide Mounted, ICacheInv, SameInodes, SameButTables, DiskIno, InoBlk;
    KeysAlike(sbs, v, w);
    FilledInv(sbs, w, fs, f, id, 1);
    FilledSame(sbs, w, fs, f, id, 1);
    SameInodesTrans(sbs, v, es, w, fs, w, fs[f := Inode(DiskIno(sbs, w, id), id, false, 1)]);
  }

  function EmptyEntry(): Inode {
    Inode(NO_INODE, NO_ID, false, 0)
  }

  lemma EmptyIsOk(sbs: Supers, v: Disk)
    ensures EmptyEntry().count == 0 && EmptyEntry().id == NO_ID && EntryOk(sbs, v, EmptyEntry())
  {
  }

  lemma WroteBack(sbs: Supers, v: Disk, es: seq<Inode>, i: nat)
    requires Mounted(sbs, v) && ICacheInv(sbs, v, es) && i < |es| && es[i].id.num != 0
    requires EntryOk(sbs, v, es[i]) && Placed(sbs, v, es[i]) && InTable(sbs[es[i].id.dev], InoBlk(sbs, es[i].id).blk)
    ensures var w := WriteIno(sbs, v, es[i].id, Encode(es[i].din));
      && Mounted(sbs, w) && ICacheInv(sbs, w, Cleaned(es, i))
      && SameButTables(sbs, v, w) && SameInodes(sbs, v, es, w, Cleaned(es, i))
  {
    hide Mounted, ICacheInv, EntryOk, SameInodes, Encode, WriteIno, InTable, InoBlk;
    CleanedInv(sbs, v, es, i);
    CleanedSame(sbs, v, es, i);
    WriteOnlyTable(sbs, v, es[i].id, Encode(es[i].din));
    StillMounted(sbs, v, WriteIno(sbs, v, es[i].id, Encode(es[i].din)));
  }

  lemma PatchOne(b: Block, off: nat, bs: seq<byte>, k: nat)
    requires k < |bs| && off + |bs| <= BLK_SZ
    ensures Patch(b, off, bs[..k])[off + k := bs[k]] == Patch(b, off, bs[..k + 1])
  {
  }

  lemma EntryPlaced(sbs: Supers, v: Disk, es: seq<Inode>, i: nat)
    requires Mounted(sbs, v) && ICacheInv(sbs, v, es) && i < |es| && es[i].id.num != 0
    ensures EntryOk(sbs, v, es[i]) && Placed(sbs, v, es[i]) && ValidId(sbs, es[i].id)
    ensures InTable(sbs[es[i].id.dev], InoBlk(sbs, es[i].id).blk)
  {
  }
}
