/** Free maps kept in disk blocks: the scans of balloc (kernel/fs/block.c:93-112) and ialloc (kernel/fs/inode.c:97-107). */
module FreeMap {
  import opened Blocks
  import opened CacheSpec
  import opened CacheClient
  import opened BufferCache
  import opened BlockIO
  import opened Bitmap

  const WORDS: nat := 2048

  // ---------- A block seen as words, little end first ----------

  function WordOf(lo: byte, hi: byte): word {
    ((hi as word) << 8) | (lo as word)
  }

  function Lo(w: word): byte {
    (w & 0xff) as byte
  }

  function Hi(w: word): byte {
    (w >> 8) as byte
  }

  function Words(b: Block): (ws: seq<word>)
    ensures |ws| == WORDS
    ensures forall i :: 0 <= i < WORDS ==> ws[i] == WordOf(b[2 * i], b[2 * i + 1])
  {
    seq(WORDS, i requires 0 <= i < WORDS => WordOf(b[2 * i], b[2 * i + 1]))
  }

  lemma StoreWord(b: Block, i: nat, w: word)
    requires i < WORDS
    ensures Words(b[2 * i := Lo(w)][2 * i + 1 := Hi(w)]) == Words(b)[i := w]
  {
  }

  // ---------- The set a free map stands for ----------

  predicate IsFree(view: Disk, dev: nat, start: nat, p: nat) {
    && Addr(dev, start + p / BITS_PER_BLK) in view
    && Has(Words(view[Addr(dev, start + p / BITS_PER_BLK)]), p % BITS_PER_BLK)
  }

  /** The bits of a byte, the low one first. */
  const MASKS: seq<byte> := [1, 2, 4, 8, 16, 32, 64, 128]

  predicate Meets(b: byte, m: byte) {
    b & m != 0
  }

  lemma LowRaw(lo: byte, hi: byte, k: word, m: byte)
    requires k < 8 && (m as word) == (1 as word) << k
    ensures Bit(WordOf(lo, hi), k) <==> Meets(lo, m)
  {
  }

  lemma HighRaw(lo: byte, hi: byte, k: word, m: byte)
    requires k < 8 && (m as word) == (1 as word) << k
    ensures Bit(WordOf(lo, hi), k + 8) <==> Meets(hi, m)
  {
  }

  lemma MaskIs(j: nat)
    requires j < 8
    ensures |MASKS| == 8 && BitNo(j) < 8 && BitNo(j + 8) == BitNo(j) + 8 && (MASKS[j] as word) == (1 as word) << BitNo(j)
  {
    match j {
      case 0 =>
      case 1 =>
      case 2 =>
      case 3 =>
      case 4 =>
      case 5 =>
      case 6 =>
      case 7 =>
    }
  }

  lemma WordBit(lo: byte, hi: byte, j: nat)
    requires j < 16
    ensures BitNo(j) < 16 && (Bit(WordOf(lo, hi), BitNo(j)) <==> Meets(if j < 8 then lo else hi, MASKS[j % 8]))
  {
    hide Bit, BitNo, WordOf, MASKS, Meets;
    MaskIs(j % 8);
    if j < 8 {
      LowRaw(lo, hi, BitNo(j), MASKS[j]);
    } else {
      HighRaw(lo, hi, BitNo(j - 8), MASKS[j - 8]);
    }
  }

  lemma HasBit(b: Block, q: nat)
    requires q < BITS_PER_BLK
    ensures Has(Words(b), q) <==> Meets(b[q / 8], MASKS[q % 8])
  {
    hide Bit, BitNo, WordOf, MASKS, Meets;
    var i, j := q / 16, q % 16;
    WordBit(b[2 * i], b[2 * i + 1], j);
    assert q / 8 == 2 * i + if j < 8 then 0 else 1;
    assert j % 8 == q % 8;
  }

  /** Position `p` of a map is bit `p % 8` of byte `p / 8`, bytes counted over its blocks. */
  lemma FreeIsBit(view: Disk, dev: nat, start: nat, p: nat)
    requires Addr(dev, start + p / 8 / BLK_SZ) in view
    ensures IsFree(view, dev, start, p) <==> view[Addr(dev, start + p / 8 / BLK_SZ)][p / 8 % BLK_SZ] & MASKS[p % 8] != 0
  {
    hide Has, Words;
    BytePlace(p);
    HasBit(view[Addr(dev, start + p / 8 / BLK_SZ)], p % BITS_PER_BLK);
  }

  lemma BytePlace(p: nat)
    ensures p / BITS_PER_BLK == p / 8 / BLK_SZ && p % BITS_PER_BLK / 8 == p / 8 % BLK_SZ && p % BITS_PER_BLK % 8 == p % 8
  {
  }

  function FreeSet(view: Disk, dev: nat, start: nat, len: nat): set<nat> {
    set p: nat | p < len * BITS_PER_BLK && IsFree(view, dev, start, p)
  }

  function MapBlock(dev: nat, start: nat, p: nat): Addr {
    Addr(dev, start + p / BITS_PER_BLK)
  }

  /** The free map is on the disk, all of it. */
  ghost predicate MapOnDisk(view: Disk, dev: nat, start: nat, len: nat) {
    forall a: Addr :: a.dev == dev && start <= a.blk < start + len ==> a in view
  }

  lemma UpdateAt(view: Disk, dev: nat, start: nat, p: nat, b: Block, q: nat)
    requires MapBlock(dev, start, p) in view
    requires p / BITS_PER_BLK == q / BITS_PER_BLK
    ensures IsFree(view[MapBlock(dev, start, p) := b], dev, start, q) <==> Has(Words(b), q % BITS_PER_BLK)
  {
  }

  /** From `v` to `w`, bit `p` of the map is set (`free`) or cleared, and nothing else on the disk changes. */
  ghost predicate BitWritten(v: Disk, w: Disk, dev: nat, start: nat, p: nat, free: bool) {
    var a := MapBlock(dev, start, p);
    && a in v && a in w
    && w == v[a := w[a]]
    && Words(w[a]) == if free then SetBit(Words(v[a]), p % BITS_PER_BLK) else ClearBit(Words(v[a]), p % BITS_PER_BLK)
  }

  lemma FreeAfter(v: Disk, w: Disk, dev: nat, start: nat, p: nat, free: bool, q: nat)
    requires BitWritten(v, w, dev, start, p, free)
    ensures IsFree(w, dev, start, q) <==> if q == p then free else IsFree(v, dev, start, q)
  {
    hide Has, SetBit, ClearBit, Words;
    var a := MapBlock(dev, start, p);
    if p / BITS_PER_BLK == q / BITS_PER_BLK {
      UpdateAt(v, dev, start, p, w[a], q);
      if free {
        SetAt(Words(v[a]), p % BITS_PER_BLK, q % BITS_PER_BLK);
      } else {
        ClearAt(Words(v[a]), p % BITS_PER_BLK, q % BITS_PER_BLK);
      }
    } else {
      assert MapBlock(dev, start, q) != a;
    }
  }

  /** Clearing the bit of `p` takes exactly `p` from the set; setting it adds exactly `p`. */
  lemma SetAfter(v: Disk, w: Disk, dev: nat, start: nat, len: nat, p: nat, free: bool)
    requires p < len * BITS_PER_BLK && BitWritten(v, w, dev, start, p, free)
    ensures FreeSet(w, dev, start, len) ==
      if free then FreeSet(v, dev, start, len) + {p} else FreeSet(v, dev, start, len) - {p}
  {
    hide IsFree, BitWritten;
    forall q: nat | q < len * BITS_PER_BLK
      ensures IsFree(w, dev, start, q) <==> if q == p then free else IsFree(v, dev, start, q)
    {
      FreeAfter(v, w, dev, start, p, free, q);
    }
  }

  lemma WordsInjective(b: Block, d: Block)
    requires Words(b) == Words(d)
    ensures b == d
  {
    hide Words, WordOf;
    forall k | 0 <= k < BLK_SZ ensures b[k] == d[k] {
      var i := k / 2;
      assert 0 <= i < WORDS && (k == 2 * i || k == 2 * i + 1);
      assert Words(b)[i] == Words(d)[i];
      SameBytes(b[2 * i], b[2 * i + 1], d[2 * i], d[2 * i + 1]);
    }
  }

  lemma SameBytes(lo: byte, hi: byte, lo': byte, hi': byte)
    requires WordOf(lo, hi) == WordOf(lo', hi')
    ensures lo == lo' && hi == hi'
  {
  }

  /** Giving back a position just claimed restores every byte of the disk. */
  lemma ReleaseUndoesClaim(v: Disk, w: Disk, x: Disk, dev: nat, start: nat, p: nat)
    requires IsFree(v, dev, start, p)
    requires BitWritten(v, w, dev, start, p, false) && BitWritten(w, x, dev, start, p, true)
    ensures x == v
  {
    var a := MapBlock(dev, start, p);
    ClaimThenFree(Words(v[a]), p % BITS_PER_BLK);
    hide Has, SetBit, ClearBit, Words;
    WordsInjective(x[a], v[a]);
  }

  // ---------- On the cached disk ----------

  /** Copies out the bitmap a buffer holds: `(bitmap *) b->b_data`. */
  method LoadWords(b: Block) returns (ws: array<word>)
    ensures fresh(ws) && ws[..] == Words(b)
  {
    ws := new word[WORDS](i requires 0 <= i < WORDS => WordOf(b[2 * i], b[2 * i + 1]));
    hide WordOf;
    assert ws[..] == Words(b);
  }

  /** Stores word `i` through a handle, byte by byte. */
  method PutWord(bt: BufferTable, h: nat, i: nat, w: word, ghost c: Cache, ghost a: Addr)
    requires Holding(c, bt.State(), h, a) && i < WORDS && h < bt.blocks.Length
    modifies bt.blocks
    ensures Holding(c, bt.State(), h, a)
    ensures Words(bt.blocks[h].data) == Words(old(bt.blocks[h].data))[i := w]
  {
    StoreWord(bt.blocks[h].data, i, w);
    hide Holding, Words, Lo, Hi;
    StoreByte(bt, h, 2 * i, Lo(w), c, a);
    StoreByte(bt, h, 2 * i + 1, Hi(w), c, a);
  }

  /** No position of map blocks `[0, off)` is free. */
  ghost predicate NoneFreeBelow(v: Disk, dev: nat, start: nat, off: nat) {
    forall p: nat :: p < off * BITS_PER_BLK ==> !IsFree(v, dev, start, p)
  }

  /** `p` is free, no earlier map block has a free position, and `p` is the choice of get_free_pos in its block. */
  ghost predicate IsChoice(v: Disk, dev: nat, start: nat, p: nat) {
    && MapBlock(dev, start, p) in v
    && IsFirstFree(Words(v[MapBlock(dev, start, p)]), p % BITS_PER_BLK)
    && NoneFreeBelow(v, dev, start, p / BITS_PER_BLK)
  }

  lemma ChoiceIsFree(v: Disk, dev: nat, start: nat, p: nat)
    requires IsChoice(v, dev, start, p)
    ensures IsFree(v, dev, start, p)
  {
  }

  /** Over the whole map that is the choice among its free positions. */
  lemma ChoiceIsFirst(v: Disk, dev: nat, start: nat, len: nat, p: nat)
    requires IsChoice(v, dev, start, p) && p < len * BITS_PER_BLK
    ensures IsFirst(FreeSet(v, dev, start, len), p)
  {
    forall q | q in FreeSet(v, dev, start, len)
      ensures q / WORD_BITS >= p / WORD_BITS && (q / WORD_BITS == p / WORD_BITS ==> q <= p)
    {
      NotBefore(v, dev, start, p, q);
    }
    ChoiceIsFree(v, dev, start, p);
  }

  lemma NotBefore(v: Disk, dev: nat, start: nat, p: nat, q: nat)
    requires IsChoice(v, dev, start, p) && IsFree(v, dev, start, q)
    ensures q / WORD_BITS >= p / WORD_BITS && (q / WORD_BITS == p / WORD_BITS ==> q <= p)
  {
    hide Has, Words;
    InOrder(p, q);
    BelowBlock(q, p / BITS_PER_BLK);
    if q / BITS_PER_BLK == p / BITS_PER_BLK {
      assert q % BITS_PER_BLK in Free(Words(v[MapBlock(dev, start, p)]));
    }
  }

  lemma BelowBlock(q: nat, off: nat)
    ensures q / BITS_PER_BLK < off <==> q < off * BITS_PER_BLK
  {
  }

  /** The order of words and positions, block by block. */
  lemma InOrder(p: nat, q: nat)
    ensures q / BITS_PER_BLK > p / BITS_PER_BLK ==> q / WORD_BITS > p / WORD_BITS
    ensures q / BITS_PER_BLK == p / BITS_PER_BLK ==>
      && q / WORD_BITS - p / WORD_BITS == q % BITS_PER_BLK / WORD_BITS - p % BITS_PER_BLK / WORD_BITS
      && q - p == q % BITS_PER_BLK - p % BITS_PER_BLK
  {
    WordInBlock(p);
    WordInBlock(q);
  }

  lemma WordInBlock(p: nat)
    ensures p / WORD_BITS == p / BITS_PER_BLK * WORDS + p % BITS_PER_BLK / WORD_BITS
    ensures p % BITS_PER_BLK / WORD_BITS < WORDS
  {
  }

  /** Passing over block `off`: allocation fails only when every word of every block is zero. */
  lemma NoneInBlock(v: Disk, dev: nat, start: nat, off: nat)
    requires NoneFreeBelow(v, dev, start, off)
    requires Addr(dev, start + off) in v && Free(Words(v[Addr(dev, start + off)])) == {}
    ensures NoneFreeBelow(v, dev, start, off + 1)
  {
    hide Has, Words;
    forall p: nat | off * BITS_PER_BLK <= p < (off + 1) * BITS_PER_BLK ensures !IsFree(v, dev, start, p) {
      assert p / BITS_PER_BLK == off;
      assert p % BITS_PER_BLK !in Free(Words(v[Addr(dev, start + off)]));
    }
  }

  lemma NoneAtAll(v: Disk, dev: nat, start: nat, len: nat)
    requires NoneFreeBelow(v, dev, start, len)
    ensures FreeSet(v, dev, start, len) == {}
  {
  }

  lemma NoneBelowStart(v: Disk, dev: nat, start: nat)
    ensures NoneFreeBelow(v, dev, start, 0)
  {
  }

  lemma TakenInBlock(v: Disk, dev: nat, start: nat, off: nat, pos: nat, b: Block)
    requires Addr(dev, start + off) in v && NoneFreeBelow(v, dev, start, off)
    requires IsFirstFree(Words(v[Addr(dev, start + off)]), pos)
    requires Words(b) == ClearBit(Words(v[Addr(dev, start + off)]), pos)
    ensures IsChoice(v, dev, start, off * BITS_PER_BLK + pos)
    ensures BitWritten(v, v[Addr(dev, start + off) := b], dev, start, off * BITS_PER_BLK + pos, false)
    ensures pos < BITS_PER_BLK
  {
    var p := off * BITS_PER_BLK + pos;
    assert p / BITS_PER_BLK == off && p % BITS_PER_BLK == pos;
    hide Has, ClearBit, Words;
  }

  lemma InMap(view: Disk, dev: nat, start: nat, len: nat, off: nat)
    requires MapOnDisk(view, dev, start, len) && off < len
    ensures Addr(dev, start + off) in view
  {
  }

  /**
   * Claims a position of the map of `len` blocks at `start`: reads the blocks in order, takes the choice of
   * get_free_pos in the first block that has one, and clears its bit.
   */
  method ClaimPos(bt: BufferTable, dev: nat, start: nat, len: nat) returns (r: Option<nat>)
    requires Ready(bt.State()) && MapOnDisk(View(bt.State()), dev, start, len)
    modifies bt, bt.blocks
    ensures Ready(bt.State()) && SameUse(old(bt.State()), bt.State())
    ensures r.None? ==> FreeSet(View(old(bt.State())), dev, start, len) == {} && View(bt.State()) == View(old(bt.State()))
    ensures r.Some? ==>
      && r.value < len * BITS_PER_BLK
      && IsChoice(View(old(bt.State())), dev, start, r.value)
      && BitWritten(View(old(bt.State())), View(bt.State()), dev, start, r.value, false)
  {
    hide *;
    ghost var v := View(bt.State());
    NoneBelowStart(v, dev, start);
    SameUseSelf(bt.State());
    var off := 0;
    while off < len
      invariant off <= len
      invariant Ready(bt.State()) && SameUse(old(bt.State()), bt.State()) && View(bt.State()) == v
      invariant NoneFreeBelow(v, dev, start, off)
    {
      ghost var c := bt.State();
      InMap(v, dev, start, len, off);
      r := ClaimInBlock(bt, dev, start, off);
      SameUseTrans(old(bt.State()), c, bt.State());
      if r.Some? {
        return;
      }
      off := off + 1;
    }
    NoneAtAll(v, dev, start, len);
    return None;
  }

  /** One turn of the scan. */
  method ClaimInBlock(bt: BufferTable, dev: nat, start: nat, off: nat) returns (r: Option<nat>)
    requires Ready(bt.State()) && Addr(dev, start + off) in View(bt.State())
    requires NoneFreeBelow(View(bt.State()), dev, start, off)
    modifies bt, bt.blocks
    ensures Ready(bt.State()) && SameUse(old(bt.State()), bt.State())
    ensures r.None? ==> View(bt.State()) == View(old(bt.State()))
    ensures r.None? ==> NoneFreeBelow(View(old(bt.State())), dev, start, off + 1)
    ensures r.Some? ==>
      && r.value < (off + 1) * BITS_PER_BLK
      && IsChoice(View(old(bt.State())), dev, start, r.value)
      && BitWritten(View(old(bt.State())), View(bt.State()), dev, start, r.value, false)
  {
    hide *;
    ghost var c := bt.State();
    var a := Addr(dev, start + off);
    var h := OpenBlock(bt, a);
    r := ClaimInWords(bt, h, c, a);
    if r.None? {
      NoneInBlock(View(c), dev, start, off);
      CloseBlock(bt, h, c, a);
      SameBlock(View(c), a);
    } else {
      TakenInBlock(View(c), dev, start, off, r.value, bt.blocks[h].data);
      CloseBlock(bt, h, c, a);
      r := Some(off * BITS_PER_BLK + r.value);
    }
  }

  /** The words of the block held: find the free position and clear its bit. */
  method ClaimInWords(bt: BufferTable, h: nat, ghost c: Cache, ghost a: Addr) returns (r: Option<nat>)
    requires Holding(c, bt.State(), h, a) && h < bt.blocks.Length
    modifies bt.blocks
    ensures Holding(c, bt.State(), h, a)
    ensures var ws := Words(old(bt.blocks[h].data));
      match r
      case None => Free(ws) == {} && bt.blocks[h].data == old(bt.blocks[h].data)
      case Some(pos) => IsFirstFree(ws, pos) && Words(bt.blocks[h].data) == ClearBit(ws, pos)
  {
    hide Holding, Has, Words;
    ghost var d := bt.State();
    var ws := LoadWords(bt.blocks[h].data);
    assert bt.State() == d;
    r := GetFreePos(ws);
    if r.Some? {
      assert r.value < WORD_BITS * |ws[..]|;
      UnsetPos(ws, r.value);
      assert bt.State() == d;
      PutWord(bt, h, r.value / WORD_BITS, ws[r.value / WORD_BITS], c, a);
    }
  }

  /** kernel/fs/block.c:116-125, on either free map */
  method ReleasePos(bt: BufferTable, dev: nat, start: nat, p: nat)
    requires Ready(bt.State()) && MapBlock(dev, start, p) in View(bt.State())
    modifies bt, bt.blocks
    ensures Ready(bt.State()) && SameUse(old(bt.State()), bt.State())
    ensures BitWritten(View(old(bt.State())), View(bt.State()), dev, start, p, true)
  {
    hide Ready, Holding, View, SameUse, BitWritten, Words, SetBit;
    ghost var c := bt.State();
    var a := MapBlock(dev, start, p);
    var h := OpenBlock(bt, a);
    FreeInWords(bt, h, p % BITS_PER_BLK, c, a);
    IsWritten(View(c), dev, start, p, bt.blocks[h].data, true);
    CloseBlock(bt, h, c, a);
  }

  lemma IsWritten(v: Disk, dev: nat, start: nat, p: nat, b: Block, free: bool)
    requires MapBlock(dev, start, p) in v
    requires var ws := Words(v[MapBlock(dev, start, p)]);
      Words(b) == if free then SetBit(ws, p % BITS_PER_BLK) else ClearBit(ws, p % BITS_PER_BLK)
    ensures BitWritten(v, v[MapBlock(dev, start, p) := b], dev, start, p, free)
  {
  }

  method FreeInWords(bt: BufferTable, h: nat, pos: nat, ghost c: Cache, ghost a: Addr)
    requires Holding(c, bt.State(), h, a) && h < bt.blocks.Length && pos < BITS_PER_BLK
    modifies bt.blocks
    ensures Holding(c, bt.State(), h, a)
    ensures Words(bt.blocks[h].data) == SetBit(Words(old(bt.blocks[h].data)), pos)
  {
    hide Holding, Has, Words;
    ghost var d := bt.State();
    var ws := LoadWords(bt.blocks[h].data);
    assert bt.State() == d;
    SetPos(ws, pos);
    assert bt.State() == d;
    PutWord(bt, h, pos / WORD_BITS, ws[pos / WORD_BITS], c, a);
  }
}
