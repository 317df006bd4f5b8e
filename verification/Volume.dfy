/** Mounted volumes: where a superblock places the inode table, the two free maps and the data blocks. */
module Volume {
  import opened Blocks
  import opened DiskInodes

  /** `struct superblock` (kernel/include/fs.h:168-194), the fields that lay the volume out. */
  datatype Superblock = Superblock(size: nat, inoTable: nat, inoLen: nat, freeBlk: nat, freeBlkLen: nat,
                                   freeIno: nat, freeInoLen: nat)

  type Supers = seq<Superblock>

  datatype InoId = InoId(dev: nat, num: nat)

  predicate Between(b: nat, start: nat, len: nat) {
    start <= b < start + len
  }

  predicate InTable(sb: Superblock, b: nat) {
    Between(b, sb.inoTable, sb.inoLen)
  }

  /** Blocks 0 and 1 hold the boot code and the superblock (kernel/fs/superblock.c:12). */
  predicate IsData(sb: Superblock, b: nat) {
    && 2 <= b < sb.size
    && !InTable(sb, b)
    && !Between(b, sb.freeBlk, sb.freeBlkLen)
    && !Between(b, sb.freeIno, sb.freeInoLen)
  }

  predicate Apart(s: nat, n: nat, t: nat, m: nat) {
    s + n <= t || t + m <= s
  }

  predicate WfSuper(sb: Superblock) {
    && 2 <= sb.inoTable && sb.inoTable + sb.inoLen <= sb.size
    && 2 <= sb.freeBlk && sb.freeBlk + sb.freeBlkLen <= sb.size
    && 2 <= sb.freeIno && sb.freeIno + sb.freeInoLen <= sb.size
    && Apart(sb.inoTable, sb.inoLen, sb.freeBlk, sb.freeBlkLen)
    && Apart(sb.inoTable, sb.inoLen, sb.freeIno, sb.freeInoLen)
    && Apart(sb.freeBlk, sb.freeBlkLen, sb.freeIno, sb.freeInoLen)
    && sb.size < Pow256(8)
    && sb.size <= sb.freeBlkLen * BITS_PER_BLK
    && sb.inoLen * INO_PER_BLK <= sb.freeInoLen * BITS_PER_BLK
  }

  /** Every volume is well formed and its blocks, from the superblock on, are on the disk. */
  ghost predicate Mounted(sbs: Supers, v: Disk) {
    && (forall d :: 0 <= d < |sbs| ==> WfSuper(sbs[d]))
    && (forall a: Addr :: a.dev < |sbs| && 1 <= a.blk < sbs[a.dev].size ==> a in v)
  }

  lemma StillMounted(sbs: Supers, v: Disk, w: Disk)
    requires Mounted(sbs, v) && v.Keys == w.Keys
    ensures Mounted(sbs, w)
  {
  }

  predicate ValidId(sbs: Supers, id: InoId) {
    id.dev < |sbs| && 0 < id.num < sbs[id.dev].inoLen * INO_PER_BLK
  }

  /** `BLK_ADDR` of kernel/fs/inode.c:8 */
  function InoBlk(sbs: Supers, id: InoId): Addr
    requires id.dev < |sbs|
  {
    Addr(id.dev, sbs[id.dev].inoTable + id.num / INO_PER_BLK)
  }

  lemma InoBlkInTable(sbs: Supers, v: Disk, id: InoId)
    requires Mounted(sbs, v) && ValidId(sbs, id)
    ensures InoBlk(sbs, id) in v && InTable(sbs[id.dev], InoBlk(sbs, id).blk)
  {
  }

  /** The inode the disk holds. */
  function DiskIno(sbs: Supers, v: Disk, id: InoId): (d: DInode)
    requires id.dev < |sbs| && InoBlk(sbs, id) in v
    ensures |d.addr| == NADDR
  {
    Decode(SlotOf(v[InoBlk(sbs, id)], id.num))
  }

  /** The disk after inode `id` is overwritten. */
  function WriteIno(sbs: Supers, v: Disk, id: InoId, bs: seq<byte>): Disk
    requires id.dev < |sbs| && InoBlk(sbs, id) in v && |bs| == DINODE_SZ
  {
    v[InoBlk(sbs, id) := Patch(v[InoBlk(sbs, id)], Slot(id.num), bs)]
  }

  /** `(block, slot)` is injective: writing one inode leaves every other, in the same block or not. */
  lemma WriteOneInode(sbs: Supers, v: Disk, id: InoId, bs: seq<byte>, x: InoId)
    requires id.dev < |sbs| && InoBlk(sbs, id) in v && |bs| == DINODE_SZ
    requires x.dev < |sbs| && InoBlk(sbs, x) in v
    ensures DiskIno(sbs, WriteIno(sbs, v, id, bs), x) == if x == id then Decode(bs) else DiskIno(sbs, v, x)
  {
    hide Decode, Patch, SlotOf;
    if InoBlk(sbs, x) == InoBlk(sbs, id) {
      OneSlot(v[InoBlk(sbs, id)], id.num, bs, x.num);
      assert x.num / INO_PER_BLK == id.num / INO_PER_BLK;
    }
  }

  /** Only blocks of inode tables differ. */
  ghost predicate SameButTables(sbs: Supers, v: Disk, w: Disk) {
    && v.Keys == w.Keys
    && (forall a :: a in v && !(a.dev < |sbs| && InTable(sbs[a.dev], a.blk)) ==> w[a] == v[a])
  }

  // ---------- The table as one row of bytes ----------

  /** What the inodes of one block take: thirty-six times 112 bytes. */
  const FULL: nat := 4032

  ghost predicate OnDisk(v: Disk, dev: nat, start: nat, len: nat) {
    forall a: Addr :: a.dev == dev && Between(a.blk, start, len) ==> a in v
  }

  /** The inodes of `len` blocks from `start` on, block after block; the tail of a block holds no inode. */
  ghost function TableBytes(v: Disk, dev: nat, start: nat, len: nat): (s: seq<byte>)
    requires OnDisk(v, dev, start, len)
    ensures |s| == len * FULL
    decreases len
  {
    if len == 0 then [] else TableBytes(v, dev, start, len - 1) + v[Addr(dev, start + len - 1)][..FULL]
  }

  lemma {:induction false} TableAt(v: Disk, dev: nat, start: nat, len: nat, k: nat)
    requires k < len && OnDisk(v, dev, start, len)
    ensures Addr(dev, start + k) in v && (k + 1) * FULL <= len * FULL
    ensures TableBytes(v, dev, start, len)[k * FULL..(k + 1) * FULL] == v[Addr(dev, start + k)][..FULL]
    decreases len
  {
    if k < len - 1 {
      TableAt(v, dev, start, len - 1, k);
    }
  }

  /** The table of device `dev`. */
  ghost function Table(sbs: Supers, v: Disk, dev: nat): seq<byte>
    requires Mounted(sbs, v) && dev < |sbs|
  {
    TableOnDisk(sbs, v, dev);
    TableBytes(v, dev, sbs[dev].inoTable, sbs[dev].inoLen)
  }

  lemma TableOnDisk(sbs: Supers, v: Disk, dev: nat)
    requires Mounted(sbs, v) && dev < |sbs|
    ensures OnDisk(v, dev, sbs[dev].inoTable, sbs[dev].inoLen)
  {
    assert WfSuper(sbs[dev]);
  }

  /** The bytes that follow those of inodes 0 to `num - 1`. */
  ghost predicate BytesOf(table: seq<byte>, num: nat, bs: seq<byte>) {
    num * 112 + 112 <= |table| && table[num * 112..num * 112 + 112] == bs
  }

  /** Inode `num` is the 112 bytes after those of inodes 0 to `num - 1`, wherever blocks begin and end. */
  lemma InodeInTable(sbs: Supers, v: Disk, id: InoId)
    requires Mounted(sbs, v) && ValidId(sbs, id)
    ensures InoBlk(sbs, id) in v && BytesOf(Table(sbs, v, id.dev), id.num, SlotOf(v[InoBlk(sbs, id)], id.num))
  {
    hide TableBytes, SlotOf, WfSuper;
    TableOnDisk(sbs, v, id.dev);
    var sb, k := sbs[id.dev], id.num / INO_PER_BLK;
    TableAt(v, id.dev, sb.inoTable, sb.inoLen, k);
    InBlock(Table(sbs, v, id.dev), v[Addr(id.dev, sb.inoTable + k)], k, id.num);
  }

  lemma InBlock(table: seq<byte>, b: Block, k: nat, num: nat)
    requires k == num / INO_PER_BLK && (k + 1) * FULL <= |table| && table[k * FULL..(k + 1) * FULL] == b[..FULL]
    ensures BytesOf(table, num, SlotOf(b, num))
  {
    hide SlotOf;
    var j := num % INO_PER_BLK;
    SlotIs(b, num);
    assert num * 112 == k * FULL + j * 112;
    SubOf(table, k * FULL, b[..FULL], j * 112, 112);
    SubOf(b, 0, b[..FULL], j * 112, 112);
    assert b[j * 112..j * 112 + 112] == b[j * 112..][..112];
  }

  /** A stretch of a stretch. */
  lemma SubOf(s: seq<byte>, lo: nat, t: seq<byte>, at: nat, n: nat)
    requires lo + |t| <= |s| && s[lo..lo + |t|] == t && at + n <= |t|
    ensures s[lo + at..lo + at + n] == t[at..at + n]
  {
    var x, y := s[lo + at..lo + at + n], t[at..at + n];
    forall i | 0 <= i < n
      ensures x[i] == y[i]
    {
      assert x[i] == s[lo + (at + i)] == s[lo..lo + |t|][at + i];
    }
  }

  /** Inode `num` of a table of inodes. */
  ghost predicate IsInode(table: seq<byte>, num: nat, d: DInode) {
    num * 112 + 112 <= |table| && d == Decode(table[num * 112..num * 112 + 112])
  }

  /** What inode `id` is, told from the bytes of the table. */
  lemma DiskInoBytes(sbs: Supers, v: Disk, id: InoId)
    requires Mounted(sbs, v) && ValidId(sbs, id)
    ensures InoBlk(sbs, id) in v && IsInode(Table(sbs, v, id.dev), id.num, DiskIno(sbs, v, id))
  {
    hide SlotOf, Decode, Table;
    InodeInTable(sbs, v, id);
  }

  /** Overwriting an inode puts the bytes there. */
  lemma WrittenBytes(sbs: Supers, v: Disk, id: InoId, bs: seq<byte>)
    requires Mounted(sbs, v) && ValidId(sbs, id) && InoBlk(sbs, id) in v && |bs| == DINODE_SZ
    ensures var w := WriteIno(sbs, v, id, bs); Mounted(sbs, w) && BytesOf(Table(sbs, w, id.dev), id.num, bs)
  {
    hide SlotOf, Table, Patch, Slot;
    var w := WriteIno(sbs, v, id, bs);
    StillMounted(sbs, v, w);
    OneSlot(v[InoBlk(sbs, id)], id.num, bs, id.num);
    InodeInTable(sbs, w, id);
  }
}
