/** Files as byte sequences, and who owns each block: the state kernel/fs/read_write.c and inode.c work on. */
module Files {
  import opened Blocks
  import opened DiskInodes
  import opened Volume
  import opened FsState
  import Bitmap

  /** Slot `k` of `i_addr` of inode `id`. */
  datatype Owner = Owner(id: InoId, k: nat)

  const MAX_SIZE: nat := 32768 // NADDR * BLK_SZ

  function BlockOf(s: State, id: InoId, k: nat): Addr
    requires id in s.ino && k < |s.ino[id].addr|
  {
    Addr(id.dev, s.ino[id].addr[k])
  }

  // ---------- Ownership ----------

  ghost predicate Shaped(sbs: Supers, s: State) {
    && |s.free| == |s.freeIno| == |sbs|
    && (forall id :: id in s.ino ==> |s.ino[id].addr| == NADDR)
  }

  /** `own` names the one address slot that holds each block that is not free. */
  ghost predicate Owns(sbs: Supers, s: State, own: map<Addr, Owner>) {
    && Shaped(sbs, s)
    && (forall a :: a in own ==> OwnedWell(sbs, s, own, a))
    && (forall id, k :: id in s.ino && 0 <= k < NADDR && BlockOf(s, id, k).blk != 0 ==>
         BlockOf(s, id, k) in own && own[BlockOf(s, id, k)] == Owner(id, k))
    && (forall a :: IsDataAddr(sbs, a) ==> a in own || a.blk in s.free[a.dev])
    && (forall d, p :: 0 <= d < |sbs| && p in s.free[d] ==> IsDataAddr(sbs, Addr(d, p)))
  }

  ghost predicate OwnedWell(sbs: Supers, s: State, own: map<Addr, Owner>, a: Addr)
    requires Shaped(sbs, s) && a in own
  {
    && IsDataAddr(sbs, a)
    && a.blk !in s.free[a.dev]
    && own[a].id in s.ino && own[a].k < NADDR
    && BlockOf(s, own[a].id, own[a].k) == a
  }

  /** Free inode numbers are numbers of wiped inodes. */
  ghost predicate FreeInodesBlank(sbs: Supers, s: State) {
    && |s.freeIno| == |sbs|
    && (forall d, n :: 0 <= d < |sbs| && n in s.freeIno[d] ==>
         ValidId(sbs, InoId(d, n)) && InoId(d, n) in s.ino && s.ino[InoId(d, n)] == NO_INODE)
  }

  // ---------- Contents ----------

  ghost predicate WfFile(d: DInode) {
    && Fits(d)
    && d.size <= MAX_SIZE
    && (forall k :: 0 <= k < NADDR && k * BLK_SZ < d.size ==> d.addr[k] != 0)
  }

  ghost predicate FilesOk(s: State) {
    forall id :: id in s.ino ==> WfFile(s.ino[id])
  }

  function ByteAt(dev: nat, d: DInode, data: Disk, i: nat): byte
    requires |d.addr| == NADDR
  {
    if i / BLK_SZ < NADDR && Addr(dev, d.addr[i / BLK_SZ]) in data
    then data[Addr(dev, d.addr[i / BLK_SZ])][i % BLK_SZ] else 0
  }

  function ContentOf(dev: nat, d: DInode, data: Disk): (c: seq<byte>)
    requires |d.addr| == NADDR
    ensures |c| == d.size
    ensures forall i :: 0 <= i < |c| ==> c[i] == ByteAt(dev, d, data, i)
  {
    seq(d.size, i requires 0 <= i < d.size => ByteAt(dev, d, data, i))
  }

  /** The bytes of file `id`. */
  ghost function Content(s: State, id: InoId): seq<byte>
    requires id in s.ino && |s.ino[id].addr| == NADDR
  {
    ContentOf(id.dev, s.ino[id], s.data)
  }

  /** `c` with `bs` written over it from `off` on, longer if need be. */
  function Splice(c: seq<byte>, off: nat, bs: seq<byte>): (r: seq<byte>)
    requires off <= |c|
    ensures |r| == if off + |bs| > |c| then off + |bs| else |c|
    ensures r[off..off + |bs|] == bs
  {
    c[..off] + bs + if off + |bs| < |c| then c[off + |bs|..] else []
  }

  lemma SpliceTwice(c: seq<byte>, off: nat, bs: seq<byte>, cs: seq<byte>)
    requires off <= |c|
    ensures off + |bs| <= |Splice(c, off, bs)|
    ensures Splice(Splice(c, off, bs), off + |bs|, cs) == Splice(c, off, bs + cs)
  {
  }

  lemma SpliceNone(c: seq<byte>, off: nat)
    requires off <= |c|
    ensures Splice(c, off, []) == c
  {
  }

  // ---------- Storing one byte ----------

  function Grown(d: DInode, size: nat): DInode {
    if size > d.size then d.(size := size) else d
  }

  /** One turn of the loop of sys_write: byte `off` of file `id` becomes `v`. */
  ghost function PutByte(s: State, id: InoId, off: nat, v: byte): State
    requires id in s.ino && off / BLK_SZ < |s.ino[id].addr| && BlockOf(s, id, off / BLK_SZ) in s.data
  {
    var a := BlockOf(s, id, off / BLK_SZ);
    s.(data := s.data[a := s.data[a][off % BLK_SZ := v]], ino := s.ino[id := Grown(s.ino[id], off + 1)])
  }

  lemma OwnersDiffer(sbs: Supers, s: State, own: map<Addr, Owner>, x: InoId, j: nat, y: InoId, k: nat)
    requires Owns(sbs, s, own) && x in s.ino && y in s.ino && j < NADDR && k < NADDR
    requires s.ino[x].addr[j] != 0 && BlockOf(s, x, j) == BlockOf(s, y, k)
    ensures x == y && j == k
  {
  }

  lemma PutByteOwns(sbs: Supers, s: State, own: map<Addr, Owner>, id: InoId, off: nat, v: byte)
    requires Owns(sbs, s, own) && id in s.ino && off / BLK_SZ < NADDR && BlockOf(s, id, off / BLK_SZ) in s.data
    ensures Owns(sbs, PutByte(s, id, off, v), own)
  {
    var t := PutByte(s, id, off, v);
    assert forall x :: x in t.ino ==> x in s.ino && t.ino[x].addr == s.ino[x].addr;
    SameAddrsOwns(sbs, s, t, own);
  }

  /** Ownership is a matter of addresses and free positions only. */
  lemma SameAddrsOwns(sbs: Supers, s: State, t: State, own: map<Addr, Owner>)
    requires Owns(sbs, s, own) && t.free == s.free && |t.freeIno| == |s.freeIno|
    requires forall x :: x in t.ino <==> x in s.ino
    requires forall x :: x in t.ino ==> t.ino[x].addr == s.ino[x].addr
    ensures Owns(sbs, t, own)
  {
    forall a | a in own ensures OwnedWell(sbs, t, own, a) {
      assert OwnedWell(sbs, s, own, a);
    }
    forall id, k | id in t.ino && 0 <= k < NADDR && BlockOf(t, id, k).blk != 0
      ensures BlockOf(t, id, k) in own && own[BlockOf(t, id, k)] == Owner(id, k)
    {
      assert BlockOf(s, id, k) == BlockOf(t, id, k);
    }
  }

  /** The byte lands where it should in its own file ... */
  lemma PutByteContent(sbs: Supers, s: State, own: map<Addr, Owner>, id: InoId, off: nat, v: byte)
    requires Owns(sbs, s, own) && id in s.ino && off / BLK_SZ < NADDR && BlockOf(s, id, off / BLK_SZ) in s.data
    requires WfFile(s.ino[id]) && s.ino[id].addr[off / BLK_SZ] != 0 && off <= s.ino[id].size
    ensures Content(PutByte(s, id, off, v), id) == Splice(Content(s, id), off, [v])
  {
    var t := PutByte(s, id, off, v);
    var a := BlockOf(s, id, off / BLK_SZ);
    var c, r := Content(s, id), Splice(Content(s, id), off, [v]);
    forall i | 0 <= i < |Content(t, id)| ensures Content(t, id)[i] == r[i] {
      if i == off {
      } else {
        assert r[i] == c[i];
        if BlockOf(s, id, i / BLK_SZ) == a {
          OwnersDiffer(sbs, s, own, id, off / BLK_SZ, id, i / BLK_SZ);
          assert i % BLK_SZ != off % BLK_SZ;
        }
      }
    }
  }

  /** ... and in no other. */
  lemma PutByteElsewhere(sbs: Supers, s: State, own: map<Addr, Owner>, id: InoId, off: nat, v: byte, x: InoId)
    requires Owns(sbs, s, own) && id in s.ino && off / BLK_SZ < NADDR && BlockOf(s, id, off / BLK_SZ) in s.data
    requires s.ino[id].addr[off / BLK_SZ] != 0 && x in s.ino && x != id && WfFile(s.ino[x])
    ensures Content(PutByte(s, id, off, v), x) == Content(s, x)
  {
    var t := PutByte(s, id, off, v);
    var a := BlockOf(s, id, off / BLK_SZ);
    forall i | 0 <= i < |Content(s, x)| ensures Content(t, x)[i] == Content(s, x)[i] {
      assert BlockOf(s, x, i / BLK_SZ) != a;
    }
  }

  lemma PutByteOk(d: DInode, off: nat)
    requires WfFile(d) && off / BLK_SZ < NADDR && d.addr[off / BLK_SZ] != 0 && off <= d.size
    ensures WfFile(Grown(d, off + 1))
  {
  }

  /** No block that another inode names is touched, past its size or not. */
  lemma PutByteBlocks(sbs: Supers, s: State, own: map<Addr, Owner>, id: InoId, off: nat, v: byte)
    requires Owns(sbs, s, own) && id in s.ino && off / BLK_SZ < NADDR && BlockOf(s, id, off / BLK_SZ) in s.data
    requires s.ino[id].addr[off / BLK_SZ] != 0
    ensures BlocksKept(s, PutByte(s, id, off, v), id)
  {
    forall x, k | x in s.ino && x != id && 0 <= k < NADDR && BlockOf(s, x, k).blk != 0
      ensures BlockOf(s, x, k) != BlockOf(s, id, off / BLK_SZ)
    {
      assert own[BlockOf(s, x, k)] == Owner(x, k);
      assert own[BlockOf(s, id, off / BLK_SZ)] == Owner(id, off / BLK_SZ);
    }
  }

  // ---------- A block joins a file, and leaves it ----------

  /** balloc and the record of its block in slot `k` (kernel/fs/read_write.c:129). */
  ghost function AddBlock(s: State, id: InoId, k: nat, p: nat): State
    requires id in s.ino && k < |s.ino[id].addr| && id.dev < |s.free|
  {
    State(s.ino[id := s.ino[id].(addr := s.ino[id].addr[k := p])],
          s.free[id.dev := s.free[id.dev] - {p}], s.freeIno, s.data[Addr(id.dev, p) := ZeroBlock()])
  }

  lemma AddBlockOwns(sbs: Supers, s: State, own: map<Addr, Owner>, id: InoId, k: nat, p: nat)
    requires Owns(sbs, s, own) && id in s.ino && id.dev < |sbs| && k < NADDR
    requires s.ino[id].addr[k] == 0 && p in s.free[id.dev] && p != 0
    ensures Addr(id.dev, p) !in own
    ensures Owns(sbs, AddBlock(s, id, k, p), own[Addr(id.dev, p) := Owner(id, k)])
  {
    var a := Addr(id.dev, p);
    var t, own' := AddBlock(s, id, k, p), own[a := Owner(id, k)];
    forall x | x in own' ensures OwnedWell(sbs, t, own', x) {
      if x != a {
        assert OwnedWell(sbs, s, own, x);
      }
    }
    forall x, j | x in t.ino && 0 <= j < NADDR && BlockOf(t, x, j).blk != 0
      ensures BlockOf(t, x, j) in own' && own'[BlockOf(t, x, j)] == Owner(x, j)
    {
      if x != id || j != k {
        assert BlockOf(t, x, j) == BlockOf(s, x, j);
        assert own[BlockOf(s, x, j)] == Owner(x, j);
      }
    }
  }

  /** A block that was free is in nobody's contents, so nobody's contents change. */
  lemma AddBlockContent(sbs: Supers, s: State, own: map<Addr, Owner>, id: InoId, k: nat, p: nat, x: InoId)
    requires Owns(sbs, s, own) && id in s.ino && id.dev < |sbs| && k < NADDR
    requires s.ino[id].addr[k] == 0 && p in s.free[id.dev] && p != 0
    requires x in s.ino && WfFile(s.ino[x])
    ensures Content(AddBlock(s, id, k, p), x) == Content(s, x)
  {
    var t, a := AddBlock(s, id, k, p), Addr(id.dev, p);
    forall i | 0 <= i < |Content(s, x)| ensures Content(t, x)[i] == Content(s, x)[i] {
      var j := i / BLK_SZ;
      assert s.ino[x].addr[j] != 0;
      assert BlockOf(s, x, j) in own && OwnedWell(sbs, s, own, BlockOf(s, x, j));
      assert BlockOf(s, x, j) != a;
    }
  }

  /** Nor is a block that was free named by anyone. */
  lemma AddBlockBlocks(sbs: Supers, s: State, own: map<Addr, Owner>, id: InoId, k: nat, p: nat)
    requires Owns(sbs, s, own) && id in s.ino && id.dev < |sbs| && k < NADDR
    requires s.ino[id].addr[k] == 0 && p in s.free[id.dev] && p != 0 && Addr(id.dev, p) in s.data
    ensures BlocksKept(s, AddBlock(s, id, k, p), id)
  {
    forall x, j | x in s.ino && x != id && 0 <= j < NADDR && BlockOf(s, x, j).blk != 0
      ensures BlockOf(s, x, j) != Addr(id.dev, p)
    {
      assert OwnedWell(sbs, s, own, BlockOf(s, x, j));
    }
  }

  lemma AddBlockOk(d: DInode, k: nat, p: nat)
    requires WfFile(d) && k < NADDR && d.addr[k] == 0 && p < Pow256(8)
    ensures WfFile(d.(addr := d.addr[k := p]))
  {
  }

  /** bfree and the clearing of slot `k` (the plan of kernel/fs/inode.c:122-125). */
  ghost function DropBlock(s: State, id: InoId, k: nat): State
    requires id in s.ino && k < |s.ino[id].addr| && id.dev < |s.free|
  {
    s.(ino := s.ino[id := s.ino[id].(addr := s.ino[id].addr[k := 0])],
       free := s.free[id.dev := s.free[id.dev] + {s.ino[id].addr[k]}])
  }

  lemma DropBlockOwns(sbs: Supers, s: State, own: map<Addr, Owner>, id: InoId, k: nat)
    requires Owns(sbs, s, own) && id in s.ino && id.dev < |sbs| && k < NADDR && s.ino[id].addr[k] != 0
    ensures Owns(sbs, DropBlock(s, id, k), own - {BlockOf(s, id, k)})
  {
    var a := BlockOf(s, id, k);
    var t, own' := DropBlock(s, id, k), own - {a};
    assert OwnedWell(sbs, s, own, a);
    forall x | x in own' ensures OwnedWell(sbs, t, own', x) {
      assert OwnedWell(sbs, s, own, x);
    }
    forall x, j | x in t.ino && 0 <= j < NADDR && BlockOf(t, x, j).blk != 0
      ensures BlockOf(t, x, j) in own' && own'[BlockOf(t, x, j)] == Owner(x, j)
    {
      assert BlockOf(t, x, j) == BlockOf(s, x, j);
      assert own[BlockOf(s, x, j)] == Owner(x, j);
    }
  }

  // ---------- What a write has done so far ----------

  /** What every state between calls satisfies. */
  ghost predicate Sound(sbs: Supers, s: State, own: map<Addr, Owner>) {
    Owns(sbs, s, own) && FreeInodesBlank(sbs, s) && FilesOk(s)
  }

  /** Every block that a slot of another inode names is on both, and the same. */
  ghost predicate BlocksKept(s: State, t: State, id: InoId)
    requires forall x :: x in s.ino ==> |s.ino[x].addr| == NADDR
  {
    && t.data.Keys == s.data.Keys
    && (forall x, k :: x in s.ino && x != id && 0 <= k < NADDR && BlockOf(s, x, k).blk != 0 && BlockOf(s, x, k) in s.data ==>
         t.data[BlockOf(s, x, k)] == s.data[BlockOf(s, x, k)])
  }

  /** The same inode, but for its size and for slots that named no block. */
  ghost predicate SameFields(d: DInode, e: DInode) {
    && e == d.(size := e.size, addr := e.addr)
    && |e.addr| == |d.addr|
    && (forall k :: 0 <= k < |d.addr| && d.addr[k] != 0 ==> e.addr[k] == d.addr[k])
  }

  // ---------- Which blocks a write takes ----------

  /** The slots that `n` bytes from `off` on lie in, and that name no block. */
  function Missing(addr: seq<nat>, off: nat, n: nat): set<nat> {
    set k: nat | k < |addr| && n > 0 && off / BLK_SZ <= k && k * BLK_SZ < off + n && addr[k] == 0
  }

  /** The blocks that slots `ks` name. */
  function BlocksAt(addr: seq<nat>, ks: set<nat>): set<nat>
    requires forall k :: k in ks ==> k < |addr|
  {
    set k | k in ks :: addr[k]
  }

  ghost predicate AllBelow(ks: set<nat>, js: set<nat>) {
    forall j, k :: j in ks && k in js ==> j < k
  }

  function Before(ks: set<nat>, k: nat): set<nat> {
    set j | j in ks && j < k
  }

  /**
   * Slots `ks`, and no others, each got a block of its own out of `free`, in order, each time the choice of the scan;
   * `left` is what is left of it.
   */
  ghost predicate Supplied(addr: seq<nat>, now: seq<nat>, ks: set<nat>, free: set<nat>, left: set<nat>) {
    && |now| == |addr|
    && (forall k :: k in ks ==> k < |addr| && addr[k] == 0 && now[k] != 0 && now[k] in free)
    && (forall k :: 0 <= k < |addr| && k !in ks ==> now[k] == addr[k])
    && (forall j, k :: j in ks && k in ks && now[j] == now[k] ==> j == k)
    && (forall k :: k in ks ==> Bitmap.IsFirst(free - BlocksAt(now, Before(ks, k)), now[k]))
    && left == free - BlocksAt(now, ks)
  }

  /** File `id` took blocks for slots `ks` from the free blocks of its device. */
  ghost predicate Took(s: State, t: State, id: InoId, ks: set<nat>)
    requires id in s.ino && id in t.ino
  {
    && id.dev < |s.free| && |t.free| == |s.free|
    && t.free == s.free[id.dev := t.free[id.dev]]
    && Supplied(s.ino[id].addr, t.ino[id].addr, ks, s.free[id.dev], t.free[id.dev])
  }

  lemma SuppliedNone(addr: seq<nat>, free: set<nat>)
    ensures Supplied(addr, addr, {}, free, free)
  {
  }

  lemma SuppliedOne(addr: seq<nat>, k: nat, p: nat, free: set<nat>)
    requires k < |addr| && addr[k] == 0 && Bitmap.IsFirst(free, p) && p != 0
    ensures Supplied(addr, addr[k := p], {k}, free, free - {p})
  {
    assert BlocksAt(addr[k := p], {k}) == {p};
    assert free - BlocksAt(addr[k := p], Before({k}, k)) == free;
  }

  lemma SuppliedMore(a: seq<nat>, b: seq<nat>, c: seq<nat>, ks: set<nat>, js: set<nat>, f: set<nat>, g: set<nat>, h: set<nat>)
    requires Supplied(a, b, ks, f, g) && Supplied(b, c, js, g, h) && AllBelow(ks, js)
    ensures Supplied(a, c, ks + js, f, h)
  {
    hide Bitmap.IsFirst;
    assert forall k :: k in ks ==> k !in js && c[k] == b[k] && b[k] in BlocksAt(b, ks);
    assert BlocksAt(c, ks + js) == BlocksAt(b, ks) + BlocksAt(c, js);
    forall k | k in ks + js
      ensures Bitmap.IsFirst(f - BlocksAt(c, Before(ks + js, k)), c[k])
    {
      if k in ks {
        assert BlocksAt(c, Before(ks + js, k)) == BlocksAt(b, Before(ks, k));
      } else {
        assert f - BlocksAt(c, Before(ks + js, k)) == g - BlocksAt(c, Before(js, k));
      }
    }
  }

  lemma {:induction false} AsMany(addr: seq<nat>, ks: set<nat>)
    requires forall k :: k in ks ==> k < |addr|
    requires forall j, k :: j in ks && k in ks && addr[j] == addr[k] ==> j == k
    ensures |BlocksAt(addr, ks)| == |ks|
    decreases |ks|
  {
    if ks != {} {
      var k :| k in ks;
      AsMany(addr, ks - {k});
      assert BlocksAt(addr, ks) == BlocksAt(addr, ks - {k}) + {addr[k]};
    }
  }

  lemma SuppliedSize(addr: seq<nat>, now: seq<nat>, ks: set<nat>, free: set<nat>, left: set<nat>)
    requires Supplied(addr, now, ks, free, left)
    ensures |left| + |ks| == |free|
  {
    AsMany(now, ks);
    assert free == left + BlocksAt(now, ks);
  }

  /** There is room for `n` bytes from `off` on: they end where files may end, and each slot that lacks a block gets one. */
  ghost predicate HasRoom(s: State, id: InoId, off: nat, n: nat)
    requires id in s.ino && id.dev < |s.free|
  {
    off + n <= MAX_SIZE && |Missing(s.ino[id].addr, off, n)| <= |s.free[id.dev]|
  }

  /** `n` of `len` bytes: as many as there is room for. */
  ghost predicate AsMuchAsFits(s: State, id: InoId, off: nat, len: nat, n: nat)
    requires id in s.ino && id.dev < |s.free|
  {
    n <= len && HasRoom(s, id, off, n) && (n < len ==> !HasRoom(s, id, off, n + 1))
  }

  lemma Fewer(small: set<nat>, large: set<nat>)
    requires small <= large
    ensures |small| <= |large|
  {
    assert large == small + (large - small);
  }

  /** So a count below the length means that no larger one had room, and the whole is stored when there is room for it. */
  lemma AsMuchIff(s: State, id: InoId, off: nat, len: nat, n: nat)
    requires id in s.ino && id.dev < |s.free| && AsMuchAsFits(s, id, off, len, n)
    ensures forall m: nat :: m <= len ==> (HasRoom(s, id, off, m) <==> m <= n)
    ensures n == len <==> HasRoom(s, id, off, len)
  {
    var addr := s.ino[id].addr;
    forall m: nat | m <= len
      ensures HasRoom(s, id, off, m) <==> m <= n
    {
      if m <= n {
        Fewer(Missing(addr, off, m), Missing(addr, off, n));
      } else {
        Fewer(Missing(addr, off, n + 1), Missing(addr, off, m));
      }
    }
  }

  lemma MissingNext(addr: seq<nat>, off: nat, n: nat, k: nat)
    requires k == (off + n) / BLK_SZ && k < |addr|
    ensures Missing(addr, off, n + 1) == Missing(addr, off, n) + if addr[k] == 0 then {k} else {}
  {
    assert k * BLK_SZ <= off + n < (k + 1) * BLK_SZ;
    forall j: nat | j < |addr| && addr[j] == 0
      ensures j in Missing(addr, off, n + 1) <==> j in Missing(addr, off, n) || j == k
    {
      if j < k {
        assert (j + 1) * BLK_SZ <= off + n;
      }
    }
  }

  /** The next byte lacks a block exactly when its slot is still empty. */
  lemma SuppliedNext(addr: seq<nat>, now: seq<nat>, off: nat, n: nat, free: set<nat>, left: set<nat>)
    requires Supplied(addr, now, Missing(addr, off, n), free, left) && (off + n) / BLK_SZ < |addr|
    ensures var k := (off + n) / BLK_SZ;
      && Missing(addr, off, n + 1) == Missing(addr, off, n) + (if now[k] == 0 then {k} else {})
      && (now[k] == 0 ==> AllBelow(Missing(addr, off, n), {k}))
  {
    MissingNext(addr, off, n, (off + n) / BLK_SZ);
    assert forall j :: j in Missing(addr, off, n) ==> j <= (off + n) / BLK_SZ;
    hide Missing, Bitmap.IsFirst;
  }

  /** Where the write can go no further, there is no room for one byte more. */
  lemma StopsFull(s: State, t: State, id: InoId, off: nat, n: nat)
    requires id in s.ino && id in t.ino && Took(s, t, id, Missing(s.ino[id].addr, off, n)) && off + n <= MAX_SIZE
    ensures HasRoom(s, id, off, n)
    ensures off + n == MAX_SIZE ==> !HasRoom(s, id, off, n + 1)
    ensures var k := (off + n) / BLK_SZ;
      k < |t.ino[id].addr| && t.ino[id].addr[k] == 0 && t.free[id.dev] == {} ==> !HasRoom(s, id, off, n + 1)
  {
    hide Missing;
    var addr, now, k := s.ino[id].addr, t.ino[id].addr, (off + n) / BLK_SZ;
    SuppliedSize(addr, now, Missing(addr, off, n), s.free[id.dev], t.free[id.dev]);
    if k < |now| {
      SuppliedNext(addr, now, off, n, s.free[id.dev], t.free[id.dev]);
    }
  }

  /** Two stretches of bytes, the second where the first ended, lack what the whole lacks. */
  lemma MissingTwice(addr: seq<nat>, now: seq<nat>, off: nat, n: nat, m: nat, free: set<nat>, left: set<nat>)
    requires Supplied(addr, now, Missing(addr, off, n), free, left)
    ensures Missing(addr, off, n + m) == Missing(addr, off, n) + Missing(now, off + n, m)
    ensures AllBelow(Missing(addr, off, n), Missing(now, off + n, m))
  {
    hide Bitmap.IsFirst;
    forall k: nat | k < |addr|
      ensures k in Missing(addr, off, n + m) <==> k in Missing(addr, off, n) || k in Missing(now, off + n, m)
    {
      Stretches(off, n, m, k);
    }
  }

  lemma Stretches(off: nat, n: nat, m: nat, k: nat)
    ensures off / BLK_SZ <= k && k * BLK_SZ < off + n + m && n + m > 0 <==>
      (off / BLK_SZ <= k && k * BLK_SZ < off + n && n > 0) ||
      ((off + n) / BLK_SZ <= k && k * BLK_SZ < off + n + m && m > 0)
  {
  }

  /** Nothing but file `id`, free blocks and unowned data differs. */
  ghost predicate OnlyFile(sbs: Supers, s: State, t: State, id: InoId) {
    && Shaped(sbs, s) && Shaped(sbs, t)
    && (forall x :: x in t.ino <==> x in s.ino)
    && id in s.ino
    && (forall x :: x in s.ino && x != id ==> t.ino[x] == s.ino[x] && Content(t, x) == Content(s, x))
    && t.freeIno == s.freeIno
    && BlocksKept(s, t, id)
  }

  /** Byte `i` of block `a` is among the `n` bytes from `off` on of a file with these slots. */
  ghost predicate Hit(dev: nat, addr: seq<nat>, a: Addr, i: nat, off: nat, n: nat) {
    exists k: nat :: k < |addr| && addr[k] != 0 && Addr(dev, addr[k]) == a && off <= k * BLK_SZ + i < off + n
  }

  /** No other byte of any data block changed, in use or not, but that a block just taken reads as zeros. */
  ghost predicate BytesKept(dev: nat, addr: seq<nat>, v: Disk, w: Disk, off: nat, n: nat, fresh_: set<nat>) {
    && w.Keys == v.Keys
    && (forall a, i :: a in v && 0 <= i < BLK_SZ && !Hit(dev, addr, a, i, off, n) ==>
         w[a][i] == if a.dev == dev && a.blk in fresh_ then 0 else v[a][i])
  }

  lemma BytesKeptNone(dev: nat, addr: seq<nat>, v: Disk, off: nat)
    ensures BytesKept(dev, addr, v, v, off, 0, {})
  {
  }

  lemma BytesKeptOne(dev: nat, addr: seq<nat>, v: Disk, off: nat, b: byte)
    requires off / BLK_SZ < |addr| && addr[off / BLK_SZ] != 0 && Addr(dev, addr[off / BLK_SZ]) in v
    ensures var a := Addr(dev, addr[off / BLK_SZ]);
      BytesKept(dev, addr, v, v[a := v[a][off % BLK_SZ := b]], off, 1, {})
  {
    var k := off / BLK_SZ;
    var a := Addr(dev, addr[k]);
    assert off == k * BLK_SZ + off % BLK_SZ;
    assert Hit(dev, addr, a, off % BLK_SZ, off, 1);
  }

  lemma BytesKeptNew(dev: nat, addr: seq<nat>, v: Disk, p: nat, off: nat)
    requires Addr(dev, p) in v
    ensures BytesKept(dev, addr, v, v[Addr(dev, p) := ZeroBlock()], off, 0, {p})
  {
  }

  /** Bytes missed by the whole are missed by each part. */
  lemma MissedTwice(dev: nat, now: seq<nat>, later: seq<nat>, a: Addr, i: nat, off: nat, n: nat, m: nat)
    requires |later| == |now| && forall k :: 0 <= k < |now| && now[k] != 0 ==> later[k] == now[k]
    requires !Hit(dev, later, a, i, off, n + m)
    ensures !Hit(dev, now, a, i, off, n) && !Hit(dev, later, a, i, off + n, m)
  {
  }

  lemma BytesKeptTwice(dev: nat, now: seq<nat>, later: seq<nat>, u: Disk, v: Disk, w: Disk, off: nat, n: nat, m: nat,
                       x: set<nat>, y: set<nat>)
    requires |later| == |now| && forall k :: 0 <= k < |now| && now[k] != 0 ==> later[k] == now[k]
    requires BytesKept(dev, now, u, v, off, n, x) && BytesKept(dev, later, v, w, off + n, m, y)
    ensures BytesKept(dev, later, u, w, off, n + m, x + y)
  {
    hide Hit;
    forall a, i | a in u && 0 <= i < BLK_SZ && !Hit(dev, later, a, i, off, n + m)
      ensures w[a][i] == if a.dev == dev && a.blk in x + y then 0 else u[a][i]
    {
      MissedTwice(dev, now, later, a, i, off, n, m);
    }
  }

  /**
   * From `s` to `t`, bytes `bs` went into file `id` from `off` on, slots `ks` of it took a free block each, and no other
   * file changed.
   */
  ghost predicate WroteTaking(sbs: Supers, s: State, t: State, id: InoId, off: nat, bs: seq<byte>, ks: set<nat>) {
    && OnlyFile(sbs, s, t, id)
    && SameFields(s.ino[id], t.ino[id])
    && off <= |Content(s, id)|
    && Content(t, id) == Splice(Content(s, id), off, bs)
    && Took(s, t, id, ks)
    && BytesKept(id.dev, t.ino[id].addr, s.data, t.data, off, |bs|, Gained(t, id, ks))
  }

  /** The blocks that slots `ks` of a file name. */
  function Gained(t: State, id: InoId, ks: set<nat>): set<nat>
    requires id in t.ino
  {
    set k | k in ks && k < |t.ino[id].addr| :: t.ino[id].addr[k]
  }

  /** The write of `bs`: blocks are taken for the slots its bytes lie in that had none. */
  ghost predicate Wrote(sbs: Supers, s: State, t: State, id: InoId, off: nat, bs: seq<byte>) {
    id in s.ino && WroteTaking(sbs, s, t, id, off, bs, Missing(s.ino[id].addr, off, |bs|))
  }

  lemma WroteNothing(sbs: Supers, s: State, id: InoId, off: nat)
    requires Shaped(sbs, s) && id in s.ino && id.dev < |sbs| && off <= s.ino[id].size
    ensures Wrote(sbs, s, s, id, off, [])
  {
    hide Supplied, Content, BytesKept;
    BytesKeptNone(id.dev, s.ino[id].addr, s.data, off);
    assert Gained(s, id, {}) == {};
    ContentSize(s, id);
    SpliceNone(Content(s, id), off);
    SuppliedNone(s.ino[id].addr, s.free[id.dev]);
    assert Missing(s.ino[id].addr, off, 0) == {};
  }

  lemma ContentSize(s: State, id: InoId)
    requires id in s.ino && |s.ino[id].addr| == NADDR
    ensures |Content(s, id)| == s.ino[id].size
  {
  }

  lemma OnlyFileHas(sbs: Supers, s: State, t: State, id: InoId)
    requires OnlyFile(sbs, s, t, id)
    ensures id in s.ino && id in t.ino && |s.ino[id].addr| == |t.ino[id].addr| == NADDR
  {
    hide BlocksKept, Content;
  }

  /** Two stretches of a write, the second where the first ended, are one. */
  lemma TakingMore(sbs: Supers, s: State, t: State, u: State, id: InoId, off: nat, bs: seq<byte>, cs: seq<byte>,
                   ks: set<nat>, js: set<nat>)
    requires WroteTaking(sbs, s, t, id, off, bs, ks) && WroteTaking(sbs, t, u, id, off + |bs|, cs, js)
    requires AllBelow(ks, js)
    ensures WroteTaking(sbs, s, u, id, off, bs + cs, ks + js)
  {
    hide ContentOf, Splice, SameFields, BlocksKept, Supplied, BytesKept;
    Later(s.ino[id], t.ino[id], u.ino[id], ks, js, s.free[id.dev], t.free[id.dev], u.free[id.dev]);
    assert Gained(u, id, ks + js) == Gained(t, id, ks) + Gained(u, id, js);
    BytesKeptTwice(id.dev, t.ino[id].addr, u.ino[id].addr, s.data, t.data, u.data, off, |bs|, |cs|, Gained(t, id, ks),
                   Gained(u, id, js));
    SpliceTwice(Content(s, id), off, bs, cs);
    SameFieldsTwice(s.ino[id], t.ino[id], u.ino[id]);
    BlocksKeptTwice(s, t, u, id);
    SuppliedMore(s.ino[id].addr, t.ino[id].addr, u.ino[id].addr, ks, js, s.free[id.dev], t.free[id.dev], u.free[id.dev]);
  }

  /** Slots that had a block keep it. */
  lemma Later(d: DInode, e: DInode, f: DInode, ks: set<nat>, js: set<nat>, x: set<nat>, y: set<nat>, z: set<nat>)
    requires Supplied(d.addr, e.addr, ks, x, y) && Supplied(e.addr, f.addr, js, y, z)
    ensures |f.addr| == |e.addr| && forall k :: 0 <= k < |e.addr| && e.addr[k] != 0 ==> f.addr[k] == e.addr[k]
    ensures forall k :: k in ks ==> k < |e.addr| && f.addr[k] == e.addr[k]
  {
    hide Bitmap.IsFirst;
  }

  /** Two writes in a row, the second where the first ended, are one. */
  lemma WroteMore(sbs: Supers, s: State, t: State, u: State, id: InoId, off: nat, bs: seq<byte>, cs: seq<byte>)
    requires Wrote(sbs, s, t, id, off, bs) && Wrote(sbs, t, u, id, off + |bs|, cs)
    ensures Wrote(sbs, s, u, id, off, bs + cs)
  {
    hide Missing, AllBelow, ContentOf, Splice, SameFields, BlocksKept, Supplied, OnlyFile, BytesKept;
    OnlyFileHas(sbs, s, t, id);
    var addr, now := s.ino[id].addr, t.ino[id].addr;
    MissingTwice(addr, now, off, |bs|, |cs|, s.free[id.dev], t.free[id.dev]);
    TakingMore(sbs, s, t, u, id, off, bs, cs, Missing(addr, off, |bs|), Missing(now, off + |bs|, |cs|));
  }

  /** What giving slot `k` a block takes. */
  function NewSlot(addr: seq<nat>, k: nat): set<nat>
    requires k < |addr|
  {
    if addr[k] == 0 then {k} else {}
  }

  /** `bs` is written, and the byte after it has a block. */
  ghost predicate InSlot(sbs: Supers, s: State, t: State, id: InoId, off: nat, bs: seq<byte>) {
    id in s.ino && WroteTaking(sbs, s, t, id, off, bs, Missing(s.ino[id].addr, off, |bs| + 1))
  }

  lemma NoNewSlot(sbs: Supers, s: State, t: State, id: InoId, off: nat, bs: seq<byte>)
    requires Wrote(sbs, s, t, id, off, bs) && id in t.ino
    requires var k := (off + |bs|) / BLK_SZ; k < |t.ino[id].addr| && t.ino[id].addr[k] != 0
    ensures InSlot(sbs, s, t, id, off, bs)
  {
    hide Missing, Content, Splice, SameFields, OnlyFile, BytesKept;
    OnlyFileHas(sbs, s, t, id);
    SuppliedNext(s.ino[id].addr, t.ino[id].addr, off, |bs|, s.free[id.dev], t.free[id.dev]);
    assert Missing(s.ino[id].addr, off, |bs|) + {} == Missing(s.ino[id].addr, off, |bs|);
  }

  /** A write that goes no further has stored as much as there was room for. */
  lemma Stops(sbs: Supers, s: State, t: State, id: InoId, off: nat, bs: seq<byte>, len: nat)
    requires Wrote(sbs, s, t, id, off, bs) && |bs| <= len && off + |bs| <= MAX_SIZE && id in t.ino
    requires var k := (off + |bs|) / BLK_SZ;
      || |bs| == len || off + |bs| == MAX_SIZE
      || (k < |t.ino[id].addr| && t.ino[id].addr[k] == 0 && id.dev < |t.free| && t.free[id.dev] == {})
    ensures id in s.ino && id.dev < |s.free| && AsMuchAsFits(s, id, off, len, |bs|)
  {
    hide Missing, Content, Splice, SameFields, OnlyFile, Supplied, HasRoom, BytesKept;
    OnlyFileHas(sbs, s, t, id);
    StopsFull(s, t, id, off, |bs|);
  }

  /** The slot of the next byte has a block: found there, or just taken. */
  lemma NextSlot(sbs: Supers, s: State, t: State, u: State, id: InoId, off: nat, bs: seq<byte>)
    requires Wrote(sbs, s, t, id, off, bs) && (off + |bs|) / BLK_SZ < NADDR && |t.ino[id].addr| == NADDR
    requires var k := (off + |bs|) / BLK_SZ;
      WroteTaking(sbs, t, u, id, off + |bs|, [], NewSlot(t.ino[id].addr, k))
    ensures InSlot(sbs, s, u, id, off, bs)
  {
    hide Missing, ContentOf, Splice, SameFields, BlocksKept, Supplied, BytesKept;
    var addr, now, k := s.ino[id].addr, t.ino[id].addr, (off + |bs|) / BLK_SZ;
    assert |addr| == NADDR;
    SuppliedNext(addr, now, off, |bs|, s.free[id.dev], t.free[id.dev]);
    TakingMore(sbs, s, t, u, id, off, bs, [], Missing(addr, off, |bs|), NewSlot(now, k));
    assert bs + [] == bs;
  }

  /** And the byte goes into it. */
  lemma NextByte(sbs: Supers, s: State, t: State, u: State, id: InoId, off: nat, bs: seq<byte>, x: byte)
    requires InSlot(sbs, s, t, id, off, bs)
    requires WroteTaking(sbs, t, u, id, off + |bs|, [x], {})
    ensures Wrote(sbs, s, u, id, off, bs + [x])
  {
    hide Missing, WroteTaking;
    var ks := Missing(s.ino[id].addr, off, |bs| + 1);
    TakingMore(sbs, s, t, u, id, off, bs, [x], ks, {});
    assert ks + {} == ks && |bs + [x]| == |bs| + 1;
  }

  lemma SameFieldsTwice(d: DInode, e: DInode, f: DInode)
    requires SameFields(d, e) && SameFields(e, f)
    ensures SameFields(d, f)
  {
  }

  lemma BlocksKeptTwice(s: State, t: State, u: State, id: InoId)
    requires forall x :: x in s.ino ==> |s.ino[x].addr| == NADDR
    requires forall x :: x in t.ino ==> |t.ino[x].addr| == NADDR
    requires forall x :: x in s.ino && x != id ==> x in t.ino && t.ino[x] == s.ino[x]
    requires BlocksKept(s, t, id) && BlocksKept(t, u, id)
    ensures BlocksKept(s, u, id)
  {
    forall x, k | x in s.ino && x != id && 0 <= k < NADDR && BlockOf(s, x, k).blk != 0 && BlockOf(s, x, k) in s.data
      ensures u.data[BlockOf(s, x, k)] == s.data[BlockOf(s, x, k)]
    {
      assert BlockOf(t, x, k) == BlockOf(s, x, k);
    }
  }

  lemma SameInodeFree(sbs: Supers, s: State, t: State, own: map<Addr, Owner>, id: InoId)
    requires FreeInodesBlank(sbs, s) && t.freeIno == s.freeIno && id.dev < |sbs| && id.num !in s.freeIno[id.dev]
    requires forall x :: x in t.ino <==> x in s.ino
    requires forall x :: x in s.ino && x != id ==> t.ino[x] == s.ino[x]
    ensures FreeInodesBlank(sbs, t)
  {
  }

  lemma AddBlockStep(sbs: Supers, s: State, own: map<Addr, Owner>, id: InoId, k: nat, p: nat)
    requires Sound(sbs, s, own) && id in s.ino && id.dev < |sbs| && id.num !in s.freeIno[id.dev] && k < NADDR
    requires s.ino[id].addr[k] == 0 && p in s.free[id.dev] && 0 < p < Pow256(8)
    ensures Sound(sbs, AddBlock(s, id, k, p), own[Addr(id.dev, p) := Owner(id, k)])
  {
    AddBlockOwns(sbs, s, own, id, k, p);
    AddBlockOk(s.ino[id], k, p);
    hide Owns, WfFile, FreeInodesBlank;
    SameInodeFree(sbs, s, AddBlock(s, id, k, p), own, id);
  }

  lemma AddBlockWrote(sbs: Supers, s: State, own: map<Addr, Owner>, id: InoId, k: nat, p: nat, off: nat)
    requires Sound(sbs, s, own) && Shaped(sbs, s) && id in s.ino && id.dev < |sbs| && k < NADDR
    requires s.ino[id].addr[k] == 0 && Bitmap.IsFirst(s.free[id.dev], p) && 0 < p && off <= s.ino[id].size
    requires Addr(id.dev, p) in s.data
    ensures WroteTaking(sbs, s, AddBlock(s, id, k, p), id, off, [], {k})
  {
    hide Owns, WfFile, FreeInodesBlank, ContentOf, Splice, BlocksKept, Supplied, BytesKept;
    SuppliedOne(s.ino[id].addr, k, p, s.free[id.dev]);
    BytesKeptNew(id.dev, s.ino[id].addr[k := p], s.data, p, off);
    assert Gained(AddBlock(s, id, k, p), id, {k}) == {p};
    AddBlockBlocks(sbs, s, own, id, k, p);
    var t := AddBlock(s, id, k, p);
    assert Shaped(sbs, t);
    forall x | x in s.ino ensures Content(t, x) == Content(s, x) {
      AddBlockContent(sbs, s, own, id, k, p, x);
    }
    SpliceNone(Content(s, id), off);
  }

  lemma PutByteStep(sbs: Supers, s: State, own: map<Addr, Owner>, id: InoId, off: nat, v: byte)
    requires Sound(sbs, s, own) && id in s.ino && id.dev < |sbs| && id.num !in s.freeIno[id.dev]
    requires off / BLK_SZ < NADDR && BlockOf(s, id, off / BLK_SZ) in s.data
    requires s.ino[id].addr[off / BLK_SZ] != 0 && off <= s.ino[id].size
    ensures Sound(sbs, PutByte(s, id, off, v), own)
  {
    PutByteOwns(sbs, s, own, id, off, v);
    PutByteOk(s.ino[id], off);
    hide Owns, WfFile, FreeInodesBlank;
    SameInodeFree(sbs, s, PutByte(s, id, off, v), own, id);
  }

  lemma PutByteWrote(sbs: Supers, s: State, own: map<Addr, Owner>, id: InoId, off: nat, v: byte)
    requires Sound(sbs, s, own) && Shaped(sbs, s) && id in s.ino && id.dev < |sbs|
    requires off / BLK_SZ < NADDR && BlockOf(s, id, off / BLK_SZ) in s.data
    requires s.ino[id].addr[off / BLK_SZ] != 0 && off <= s.ino[id].size
    ensures WroteTaking(sbs, s, PutByte(s, id, off, v), id, off, [v], {})
  {
    hide Owns, FreeInodesBlank, ContentOf, WfFile, Splice, BlocksKept, Supplied, BytesKept;
    SuppliedNone(s.ino[id].addr, s.free[id.dev]);
    BytesKeptOne(id.dev, s.ino[id].addr, s.data, off, v);
    assert Gained(PutByte(s, id, off, v), id, {}) == {};
    PutByteBlocks(sbs, s, own, id, off, v);
    var u := PutByte(s, id, off, v);
    assert Shaped(sbs, u);
    forall x | x in s.ino && x != id ensures Content(u, x) == Content(s, x) {
      PutByteElsewhere(sbs, s, own, id, off, v, x);
    }
    PutByteContent(sbs, s, own, id, off, v);
  }

  lemma DropBlockOk(d: DInode, k: nat)
    requires WfFile(d) && k < NADDR && d.size == 0
    ensures WfFile(d.(addr := d.addr[k := 0]))
  {
  }

  lemma DropBlockStep(sbs: Supers, s: State, own: map<Addr, Owner>, id: InoId, k: nat)
    requires Sound(sbs, s, own) && id in s.ino && id.dev < |sbs| && id.num !in s.freeIno[id.dev] && k < NADDR
    requires s.ino[id].addr[k] != 0 && s.ino[id].size == 0
    ensures Sound(sbs, DropBlock(s, id, k), own - {BlockOf(s, id, k)})
  {
    DropBlockOwns(sbs, s, own, id, k);
    DropBlockOk(s.ino[id], k);
    hide Owns, WfFile, FreeInodesBlank;
    SameInodeFree(sbs, s, DropBlock(s, id, k), own, id);
  }

  /** The address slots with the first `k` cleared. */
  function ZeroUpto(addr: seq<nat>, k: nat): (r: seq<nat>)
    requires k <= |addr|
    ensures |r| == |addr|
  {
    seq(k, _ => 0) + addr[k..]
  }

  /** The blocks the first `k` slots name. */
  function Named(addr: seq<nat>, k: nat): set<nat>
    requires k <= |addr|
  {
    set b | b in addr[..k] && b != 0
  }

  /** File `id` emptied, its first `k` slots given back. */
  ghost function Emptied(s: State, id: InoId, k: nat): State
    requires id in s.ino && k <= |s.ino[id].addr| && id.dev < |s.free|
  {
    s.(ino := s.ino[id := s.ino[id].(size := 0, addr := ZeroUpto(s.ino[id].addr, k))],
       free := s.free[id.dev := s.free[id.dev] + Named(s.ino[id].addr, k)])
  }

  lemma EmptiedStart(s: State, id: InoId)
    requires id in s.ino && id.dev < |s.free|
    ensures Emptied(s, id, 0) == s.(ino := s.ino[id := s.ino[id].(size := 0)])
    ensures ZeroUpto(s.ino[id].addr, 0) == s.ino[id].addr
  {
    assert ZeroUpto(s.ino[id].addr, 0) == s.ino[id].addr;
    assert s.free[id.dev] + Named(s.ino[id].addr, 0) == s.free[id.dev];
    assert s.free[id.dev := s.free[id.dev]] == s.free;
  }

  lemma UptoNext(addr: seq<nat>, k: nat)
    requires k < |addr|
    ensures ZeroUpto(addr, k)[k] == addr[k] && ZeroUpto(addr, k + 1) == ZeroUpto(addr, k)[k := 0]
    ensures Named(addr, k + 1) == if addr[k] == 0 then Named(addr, k) else Named(addr, k) + {addr[k]}
  {
  }

  lemma EmptiedNext(s: State, id: InoId, k: nat)
    requires id in s.ino && k < |s.ino[id].addr| && id.dev < |s.free|
    ensures var t := Emptied(s, id, k);
      && ZeroUpto(s.ino[id].addr, k)[k] == s.ino[id].addr[k]
      && ZeroUpto(s.ino[id].addr, k + 1) == ZeroUpto(s.ino[id].addr, k)[k := 0]
      && (s.ino[id].addr[k] == 0 ==> Emptied(s, id, k + 1) == t)
      && (s.ino[id].addr[k] != 0 ==> Emptied(s, id, k + 1) == DropBlock(t, id, k))
  {
    UptoNext(s.ino[id].addr, k);
    hide ZeroUpto, Named;
    var addr, t := s.ino[id].addr, Emptied(s, id, k);
    if addr[k] == 0 {
      assert ZeroUpto(addr, k)[k := 0] == ZeroUpto(addr, k);
    } else {
      var u := DropBlock(t, id, k);
      assert u.ino == Emptied(s, id, k + 1).ino;
      assert s.free[id.dev] + Named(addr, k) + {addr[k]} == s.free[id.dev] + Named(addr, k + 1);
      assert u.free == Emptied(s, id, k + 1).free;
    }
  }

  // ---------- What ownership comes to ----------

  /** The data blocks of a device. */
  function DataBlocks(sb: Superblock): set<nat> {
    set b: nat | b < sb.size && IsData(sb, b)
  }

  function OwnedOn(own: map<Addr, Owner>, dev: nat): set<nat> {
    set a | a in own && a.dev == dev :: a.blk
  }

  /** Each data block is free, or held by exactly one slot of exactly one allocated inode, and never both. */
  lemma OneOwner(sbs: Supers, s: State, own: map<Addr, Owner>, a: Addr)
    requires Sound(sbs, s, own) && IsDataAddr(sbs, a)
    ensures a.blk in s.free[a.dev] <==> a !in own
    ensures a.blk in s.free[a.dev] ==> forall id, k :: id in s.ino && 0 <= k < NADDR ==> BlockOf(s, id, k) != a
    ensures a in own ==>
      var o := own[a];
      && o.id in s.ino && o.k < NADDR && BlockOf(s, o.id, o.k) == a
      && o.id.dev < |sbs| && o.id.num !in s.freeIno[o.id.dev]
      && forall id, k :: id in s.ino && 0 <= k < NADDR && BlockOf(s, id, k) == a ==> id == o.id && k == o.k
  {
    if a in own {
      var o := own[a];
      assert OwnedWell(sbs, s, own, a);
      assert s.ino[o.id].addr[o.k] != 0;
      assert o.id == InoId(o.id.dev, o.id.num);
    }
  }

  /** Free blocks and owned blocks make up the data area, so their numbers always add up to the same. */
  lemma Conserved(sbs: Supers, s: State, own: map<Addr, Owner>, dev: nat)
    requires Owns(sbs, s, own) && dev < |sbs|
    ensures s.free[dev] !! OwnedOn(own, dev) && s.free[dev] + OwnedOn(own, dev) == DataBlocks(sbs[dev])
    ensures |s.free[dev]| + |OwnedOn(own, dev)| == |DataBlocks(sbs[dev])|
  {
    forall b | b in OwnedOn(own, dev) ensures b in DataBlocks(sbs[dev]) && b !in s.free[dev] {
      assert OwnedWell(sbs, s, own, Addr(dev, b));
    }
    forall b | b in s.free[dev] ensures b in DataBlocks(sbs[dev]) {
      assert IsDataAddr(sbs, Addr(dev, b));
    }
    forall b | b in DataBlocks(sbs[dev]) ensures b in s.free[dev] + OwnedOn(own, dev) {
      assert IsDataAddr(sbs, Addr(dev, b));
    }
    assert s.free[dev] + OwnedOn(own, dev) == DataBlocks(sbs[dev]);
  }

  /** What was written is what is read back, from the cursor the write began at. */
  lemma ReadBack(sbs: Supers, s: State, t: State, id: InoId, off: nat, bs: seq<byte>)
    requires Wrote(sbs, s, t, id, off, bs)
    ensures off + |bs| <= |Content(t, id)| && Content(t, id)[off..off + |bs|] == bs
    ensures Content(t, id)[..off] == Content(s, id)[..off]
    ensures off + |bs| < |Content(s, id)| ==> Content(t, id)[off + |bs|..] == Content(s, id)[off + |bs|..]
    ensures off + |bs| >= |Content(s, id)| ==> |Content(t, id)| == off + |bs|
  {
    hide Took, Missing, BytesKept;
  }
}
