/** Numbers below 256 are bytes. */
module Octets {
  lemma ByteOfNumber(n: nat)
    requires n < 256
    ensures (n as bv8) as nat == n
  {
  }
}

/** On-disk inodes: their bytes, and where kernel/fs/inode.c finds them. */
module DiskInodes {
  import opened Blocks
  import opened Octets

  /**
   * `struct d_inode` (kernel/include/fs.h:81-94) with the sizes of an x86_64 compiler: mode_t, uid_t and
   * gid_t take 4 bytes, size_t, blk_t and time_t take 8, and i_nlink is padded to 4.
   */
  datatype DInode = DInode(mode: nat, nlink: nat, uid: nat, gid: nat, size: nat, addr: seq<nat>,
                           ctime: nat, atime: nat, mtime: nat)

  /** The bound of `i_addr` (kernel/include/fs.h:89, 110). */
  const NADDR: nat := 8

  const DINODE_SZ: nat := 112
  const INO_PER_BLK: nat := 36

  const WIDTHS: seq<nat> := [4, 4, 4, 4, 8, 8, 8, 8, 8, 8, 8, 8, 8, 8, 8, 8]

  // ---------- Little-endian integers ----------

  function Pow256(w: nat): (r: nat)
    ensures r > 0
  {
    if w == 0 then 1 else 256 * Pow256(w - 1)
  }

  function Bytes(n: nat, w: nat): (s: seq<byte>)
    ensures |s| == w
  {
    if w == 0 then [] else [(n % 256) as byte] + Bytes(n / 256, w - 1)
  }

  function Number(s: seq<byte>): nat {
    if s == [] then 0 else s[0] as nat + 256 * Number(s[1..])
  }

  lemma {:induction false} NumberOfBytes(n: nat, w: nat)
    requires n < Pow256(w)
    ensures Number(Bytes(n, w)) == n
  {
    if w > 0 {
      ByteOfNumber(n % 256);
      NumberOfBytes(n / 256, w - 1);
      assert Bytes(n, w)[1..] == Bytes(n / 256, w - 1);
    }
  }

  lemma {:induction false} NumberFits(s: seq<byte>)
    ensures Number(s) < Pow256(|s|)
  {
    if s != [] {
      NumberFits(s[1..]);
    }
  }

  // ---------- A record as a row of integers ----------

  function Sum(ws: seq<nat>): nat {
    if ws == [] then 0 else ws[0] + Sum(ws[1..])
  }

  function Pack(vs: seq<nat>, ws: seq<nat>): (s: seq<byte>)
    requires |vs| == |ws|
    ensures |s| == Sum(ws)
  {
    if ws == [] then [] else Bytes(vs[0], ws[0]) + Pack(vs[1..], ws[1..])
  }

  function Unpack(s: seq<byte>, ws: seq<nat>): (vs: seq<nat>)
    requires |s| == Sum(ws)
    ensures |vs| == |ws|
  {
    if ws == [] then [] else [Number(s[..ws[0]])] + Unpack(s[ws[0]..], ws[1..])
  }

  ghost predicate InWidth(vs: seq<nat>, ws: seq<nat>)
    requires |vs| == |ws|
  {
    forall i :: 0 <= i < |vs| ==> vs[i] < Pow256(ws[i])
  }

  lemma {:induction false} UnpackPack(vs: seq<nat>, ws: seq<nat>)
    requires |vs| == |ws| && InWidth(vs, ws)
    ensures Unpack(Pack(vs, ws), ws) == vs
  {
    if ws != [] {
      var s := Pack(vs, ws);
      assert s[..ws[0]] == Bytes(vs[0], ws[0]) && s[ws[0]..] == Pack(vs[1..], ws[1..]);
      assert vs[0] < Pow256(ws[0]);
      NumberOfBytes(vs[0], ws[0]);
      assert InWidth(vs[1..], ws[1..]);
      UnpackPack(vs[1..], ws[1..]);
      assert vs == [vs[0]] + vs[1..];
    }
  }

  lemma WidthsSum()
    ensures |WIDTHS| == 16 && Sum(WIDTHS) == DINODE_SZ
  {
    assert Sum([8, 8, 8, 8]) == 32;
    assert Sum([8, 8, 8, 8, 8, 8, 8, 8]) == 64 by {
      assert [8, 8, 8, 8, 8, 8, 8, 8][1..][1..][1..][1..] == [8, 8, 8, 8];
    }
    assert WIDTHS[1..][1..][1..][1..] == [8, 8, 8, 8, 8, 8, 8, 8, 8, 8, 8, 8];
    assert WIDTHS[1..][1..][1..][1..][1..][1..][1..][1..] == [8, 8, 8, 8, 8, 8, 8, 8];
  }

  // ---------- Inodes as bytes ----------

  function Row(d: DInode): (vs: seq<nat>)
    requires |d.addr| == NADDR
    ensures |vs| == 16
  {
    [d.mode, d.nlink, d.uid, d.gid, d.size] + d.addr + [d.ctime, d.atime, d.mtime]
  }

  function OfRow(vs: seq<nat>): (d: DInode)
    requires |vs| == 16
    ensures |d.addr| == NADDR
  {
    DInode(vs[0], vs[1], vs[2], vs[3], vs[4], vs[5..13], vs[13], vs[14], vs[15])
  }

  /** The fields hold what their C types can. */
  ghost predicate Fits(d: DInode) {
    |d.addr| == NADDR && |WIDTHS| == 16 && InWidth(Row(d), WIDTHS)
  }

  function Encode(d: DInode): (s: seq<byte>)
    requires |d.addr| == NADDR
    ensures |s| == DINODE_SZ
  {
    WidthsSum();
    Pack(Row(d), WIDTHS)
  }

  function Decode(s: seq<byte>): (d: DInode)
    requires |s| == DINODE_SZ
    ensures |d.addr| == NADDR
  {
    WidthsSum();
    OfRow(Unpack(s, WIDTHS))
  }

  /** What is written back is what is read in. */
  lemma DecodeEncode(d: DInode)
    requires Fits(d)
    ensures Decode(Encode(d)) == d
  {
    WidthsSum();
    UnpackPack(Row(d), WIDTHS);
    hide Pack, Unpack;
    assert OfRow(Row(d)) == d;
  }

  /** A cleared slot is the free inode: no size, no blocks. */
  const NO_INODE := DInode(0, 0, 0, 0, 0, [0, 0, 0, 0, 0, 0, 0, 0], 0, 0, 0)

  predicate AllZero(s: seq<byte>) {
    forall i :: 0 <= i < |s| ==> s[i] == 0
  }

  lemma {:induction false} NumberOfZeros(s: seq<byte>)
    requires AllZero(s)
    ensures Number(s) == 0
  {
    if s != [] {
      NumberOfZeros(s[1..]);
    }
  }

  lemma {:induction false} UnpackZeros(s: seq<byte>, ws: seq<nat>)
    requires |s| == Sum(ws) && AllZero(s)
    ensures forall i :: 0 <= i < |ws| ==> Unpack(s, ws)[i] == 0
  {
    if ws != [] {
      NumberOfZeros(s[..ws[0]]);
      UnpackZeros(s[ws[0]..], ws[1..]);
    }
  }

  lemma ZeroRow(vs: seq<nat>)
    requires |vs| == 16 && forall i :: 0 <= i < 16 ==> vs[i] == 0
    ensures OfRow(vs) == NO_INODE
  {
  }

  lemma DecodeZeros(s: seq<byte>)
    requires |s| == DINODE_SZ && AllZero(s)
    ensures Decode(s) == NO_INODE
  {
    hide Unpack, AllZero, OfRow, NO_INODE;
    WidthsSum();
    UnpackZeros(s, WIDTHS);
    ZeroRow(Unpack(s, WIDTHS));
  }

  lemma {:induction false} UnpackFits(s: seq<byte>, ws: seq<nat>)
    requires |s| == Sum(ws)
    ensures InWidth(Unpack(s, ws), ws)
  {
    if ws != [] {
      NumberFits(s[..ws[0]]);
      UnpackFits(s[ws[0]..], ws[1..]);
    }
  }

  lemma RowOfRow(vs: seq<nat>)
    requires |vs| == 16
    ensures Row(OfRow(vs)) == vs
  {
  }

  lemma DecodeFits(s: seq<byte>)
    requires |s| == DINODE_SZ
    ensures Fits(Decode(s))
  {
    hide Unpack, Row, OfRow;
    WidthsSum();
    UnpackFits(s, WIDTHS);
    RowOfRow(Unpack(s, WIDTHS));
  }

  // ---------- Slots of a block ----------

  /** A block with `bs` copied in at `off`. */
  function Patch(b: Block, off: nat, bs: seq<byte>): (r: Block)
    requires off + |bs| <= BLK_SZ
  {
    b[..off] + bs + b[off + |bs|..]
  }

  /** `BLK_OFF` times the size of an inode (kernel/fs/inode.c:9, 34). */
  function Slot(num: nat): (r: nat)
    ensures r + DINODE_SZ <= BLK_SZ
  {
    num % INO_PER_BLK * DINODE_SZ
  }

  function SlotOf(b: Block, num: nat): (s: seq<byte>)
    ensures |s| == DINODE_SZ
  {
    b[Slot(num)..Slot(num) + DINODE_SZ]
  }

  /** Writing one slot of a block leaves the bytes of every other slot. */
  lemma OneSlot(b: Block, num: nat, bs: seq<byte>, other: nat)
    requires |bs| == DINODE_SZ
    ensures SlotOf(Patch(b, Slot(num), bs), other) ==
      if other % INO_PER_BLK == num % INO_PER_BLK then bs else SlotOf(b, other)
  {
  }

  // ---------- Where everything lies ----------

  /** Four bytes, and eight, as numbers: the low one first. */
  lemma LittleEnd(s: seq<byte>)
    requires |s| == 4
    ensures Number(s) == s[0] as nat + 0x100 * s[1] as nat + 0x1_0000 * s[2] as nat + 0x100_0000 * s[3] as nat
  {
    assert s[3..][1..] == [] && s[2..][1..] == s[3..] && s[1..][1..] == s[2..];
    assert Number(s[3..]) == s[3] as nat + 256 * Number([]);
    assert Number(s[2..]) == s[2] as nat + 256 * Number(s[3..]);
    assert Number(s[1..]) == s[1] as nat + 256 * Number(s[2..]);
  }

  lemma {:induction false} NumberJoin(s: seq<byte>, t: seq<byte>)
    ensures Number(s + t) == Number(s) + Pow256(|s|) * Number(t)
  {
    if s == [] {
      assert s + t == t;
    } else {
      assert (s + t)[1..] == s[1..] + t;
      NumberJoin(s[1..], t);
      TimesMore(s[0] as nat, Number(s[1..]), Pow256(|s| - 1), Number(t));
    }
  }

  lemma TimesMore(a: nat, b: nat, p: nat, c: nat)
    ensures a + 256 * (b + p * c) == a + 256 * b + (256 * p) * c
  {
  }

  lemma LittleEnd8(s: seq<byte>)
    requires |s| == 8
    ensures Number(s) == Number(s[..4]) + 0x1_0000_0000 * Number(s[4..])
  {
    assert s == s[..4] + s[4..];
    assert Pow256(4) == 0x1_0000_0000;
    NumberJoin(s[..4], s[4..]);
  }

  lemma {:induction false} FieldAt(s: seq<byte>, ws: seq<nat>, k: nat)
    requires |s| == Sum(ws) && k < |ws|
    ensures Sum(ws[..k]) + ws[k] <= |s| && Unpack(s, ws)[k] == Number(s[Sum(ws[..k])..Sum(ws[..k]) + ws[k]])
    decreases k
  {
    hide Number;
    if k > 0 {
      var t, xs := s[ws[0]..], ws[1..];
      FieldAt(t, xs, k - 1);
      assert ws[..k][1..] == xs[..k - 1];
      LaterSlice(s, ws[0], Sum(xs[..k - 1]), ws[k]);
    }
  }

  lemma LaterSlice(s: seq<byte>, skip: nat, off: nat, len: nat)
    requires skip + off + len <= |s|
    ensures s[skip..][off..off + len] == s[skip + off..skip + off + len]
  {
  }

  lemma {:induction false} SumSplit(ws: seq<nat>, k: nat)
    requires k < |ws|
    ensures Sum(ws[..k + 1]) == Sum(ws[..k]) + ws[k]
  {
    if k == 0 {
      assert ws[..1][1..] == [];
    } else {
      SumSplit(ws[1..], k - 1);
      assert ws[..k + 1][1..] == ws[1..][..k] && ws[..k][1..] == ws[1..][..k - 1];
    }
  }

  /** Where field `k` starts: four of four bytes, then all of eight. */
  lemma {:induction false} Offset(k: nat)
    requires k <= 16
    ensures Sum(WIDTHS[..k]) == if k <= 4 then 4 * k else 8 * k - 16
    decreases k
  {
    if k > 0 {
      Offset(k - 1);
      SumSplit(WIDTHS, k - 1);
    }
  }

  /** The bytes of each field of `struct d_inode`, as an x86_64 compiler places them. */
  lemma Layout(s: seq<byte>)
    requires |s| == DINODE_SZ
    ensures var d := Decode(s);
      && d.mode == Number(s[0..4]) && d.nlink == Number(s[4..8]) && d.uid == Number(s[8..12]) && d.gid == Number(s[12..16])
      && d.size == Number(s[16..24])
      && (forall k :: 0 <= k < NADDR ==> d.addr[k] == Number(s[24 + 8 * k..32 + 8 * k]))
      && d.ctime == Number(s[88..96]) && d.atime == Number(s[96..104]) && d.mtime == Number(s[104..112])
  {
    WidthsSum();
    hide Unpack, Sum, Number;
    forall k | 0 <= k < 16
      ensures var lo := if k <= 4 then 4 * k else 8 * k - 16;
        lo + WIDTHS[k] <= 112 && Unpack(s, WIDTHS)[k] == Number(s[lo..lo + WIDTHS[k]])
    {
      FieldAt(s, WIDTHS, k);
      Offset(k);
    }
  }

  /** The first `n` slots of a block, one after the other. */
  function FirstSlots(b: Block, n: nat): seq<byte> {
    if n == 0 then [] else FirstSlots(b, n - 1) + SlotOf(b, n - 1)
  }

  /** Inodes lie in a block in the order of their numbers, from its first byte on, with nothing in between. */
  lemma {:induction false} SlotsInOrder(b: Block, n: nat)
    requires n <= INO_PER_BLK
    ensures FirstSlots(b, n) == b[..n * DINODE_SZ]
    decreases n
  {
    if n > 0 {
      SlotsInOrder(b, n - 1);
      OneSlotOn(b, n - 1);
      hide SlotOf;
      assert b[..(n - 1) * DINODE_SZ] + b[(n - 1) * DINODE_SZ..n * DINODE_SZ] == b[..n * DINODE_SZ];
    }
  }

  lemma OneSlotOn(b: Block, k: nat)
    requires k < INO_PER_BLK
    ensures (k + 1) * DINODE_SZ <= BLK_SZ && SlotOf(b, k) == b[k * DINODE_SZ..(k + 1) * DINODE_SZ]
  {
  }

  /** And the slots repeat from block to block. */
  lemma SlotIs(b: Block, num: nat)
    ensures SlotOf(b, num) == b[num % INO_PER_BLK * DINODE_SZ..][..DINODE_SZ]
  {
    var k := num % INO_PER_BLK;
    SlotsInOrder(b, k);
    SlotsInOrder(b, k + 1);
    assert FirstSlots(b, k + 1) == FirstSlots(b, k) + SlotOf(b, k);
    assert b[..(k + 1) * DINODE_SZ][k * DINODE_SZ..] == SlotOf(b, k) == b[k * DINODE_SZ..][..DINODE_SZ];
    assert SlotOf(b, num) == SlotOf(b, k);
  }
}
