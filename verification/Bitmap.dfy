/** The free-position bitmaps of kernel/fs/bitmap.c. A 1 bit marks a free position. */
module Bitmap {
  import opened Blocks

  /** `typedef unsigned short bitmap` (kernel/include/fs.h:64) */
  type word = bv16

  const WORD_BITS: nat := 16

  /** A bit's number inside its word, and back. */
  function BitNo(j: nat): (k: word)
    requires j < WORD_BITS
  {
    j as word
  }

  lemma BitNoIs(j: nat)
    requires j < WORD_BITS
    ensures BitNo(j) < 16 && BitNo(j) as nat == j
  {
  }

  predicate Bit(w: word, k: word)
    requires k < 16
  {
    w & ((1 as word) << k) != 0
  }

  function WithBit(w: word, k: word): word
    requires k < 16
  {
    w | ((1 as word) << k)
  }

  function WithoutBit(w: word, k: word): word
    requires k < 16
  {
    w & !((1 as word) << k)
  }

  predicate Has(ws: seq<word>, p: nat)
    requires p < WORD_BITS * |ws|
  {
    BitNoIs(p % WORD_BITS);
    Bit(ws[p / WORD_BITS], BitNo(p % WORD_BITS))
  }

  /** The set of positions a bitmap stands for. */
  function Free(ws: seq<word>): set<nat> {
    set p: nat | p < WORD_BITS * |ws| && Has(ws, p)
  }

  function SetBit(ws: seq<word>, p: nat): seq<word>
    requires p < WORD_BITS * |ws|
  {
    BitNoIs(p % WORD_BITS);
    ws[p / WORD_BITS := WithBit(ws[p / WORD_BITS], BitNo(p % WORD_BITS))]
  }

  function ClearBit(ws: seq<word>, p: nat): seq<word>
    requires p < WORD_BITS * |ws|
  {
    BitNoIs(p % WORD_BITS);
    ws[p / WORD_BITS := WithoutBit(ws[p / WORD_BITS], BitNo(p % WORD_BITS))]
  }

  // ---------- Bits of one word ----------

  lemma SetRaw(w: word, j: word, k: word)
    requires j < 16 && k < 16
    ensures (w | ((1 as word) << j)) & ((1 as word) << k) != 0 <==> j == k || w & ((1 as word) << k) != 0
  {
  }

  lemma SetInWord(w: word, j: word, k: word)
    requires j < 16 && k < 16
    ensures Bit(WithBit(w, j), k) <==> j == k || Bit(w, k)
  {
    SetRaw(w, j, k);
  }

  lemma ClearRaw(w: word, j: word, k: word)
    requires j < 16 && k < 16
    ensures (w & !((1 as word) << j)) & ((1 as word) << k) != 0 <==> j != k && w & ((1 as word) << k) != 0
  {
  }

  lemma ClearInWord(w: word, j: word, k: word)
    requires j < 16 && k < 16
    ensures Bit(WithoutBit(w, j), k) <==> j != k && Bit(w, k)
  {
    ClearRaw(w, j, k);
  }

  lemma PutBack(w: word, m: word)
    requires w & m == m
    ensures (w & !m) | m == w
  {
  }

  lemma ZeroWord(w: word)
    ensures w == 0 <==> forall k: word :: k < 16 ==> !Bit(w, k)
  {
    if w != 0 {
      assert Bit(w, 0) || Bit(w, 1) || Bit(w, 2) || Bit(w, 3) || Bit(w, 4) || Bit(w, 5) || Bit(w, 6) || Bit(w, 7)
          || Bit(w, 8) || Bit(w, 9) || Bit(w, 10) || Bit(w, 11) || Bit(w, 12) || Bit(w, 13) || Bit(w, 14) || Bit(w, 15);
    }
  }

  // ---------- Positions of the whole map ----------

  /** Word and bit of a position, as one. */
  lemma At(i: nat, k: word)
    requires k < 16
    ensures (WORD_BITS * i + k as nat) / WORD_BITS == i && BitNo((WORD_BITS * i + k as nat) % WORD_BITS) == k
  {
  }

  lemma BitOf(k: word)
    requires k < 16
    ensures k as nat < WORD_BITS && BitNo(k as nat) == k
  {
  }

  lemma BitNoSame(i: nat, j: nat)
    requires i < WORD_BITS && j < WORD_BITS
    ensures BitNo(i) == BitNo(j) <==> i == j
  {
    BitNoIs(i);
    BitNoIs(j);
  }

  lemma HasUpdate(ws: seq<word>, i: nat, w: word, q: nat)
    requires i < |ws| && q < WORD_BITS * |ws| && BitNo(q % WORD_BITS) < 16
    ensures Has(ws[i := w], q) <==> if q / WORD_BITS == i then Bit(w, BitNo(q % WORD_BITS)) else Has(ws, q)
  {
  }

  lemma SetAt(ws: seq<word>, p: nat, q: nat)
    requires p < WORD_BITS * |ws| && q < WORD_BITS * |ws|
    ensures Has(SetBit(ws, p), q) <==> q == p || Has(ws, q)
  {
    hide Bit, WithBit, BitNo;
    var i, j, k := p / WORD_BITS, p % WORD_BITS, q % WORD_BITS;
    BitNoIs(j);
    BitNoIs(k);
    BitNoSame(j, k);
    SetInWord(ws[i], BitNo(j), BitNo(k));
    HasUpdate(ws, i, WithBit(ws[i], BitNo(j)), q);
  }

  lemma ClearAt(ws: seq<word>, p: nat, q: nat)
    requires p < WORD_BITS * |ws| && q < WORD_BITS * |ws|
    ensures Has(ClearBit(ws, p), q) <==> q != p && Has(ws, q)
  {
    hide Bit, WithoutBit, BitNo;
    var i, j, k := p / WORD_BITS, p % WORD_BITS, q % WORD_BITS;
    BitNoIs(j);
    BitNoIs(k);
    BitNoSame(j, k);
    ClearInWord(ws[i], BitNo(j), BitNo(k));
    HasUpdate(ws, i, WithoutBit(ws[i], BitNo(j)), q);
  }

  lemma SetAdds(ws: seq<word>, p: nat)
    requires p < WORD_BITS * |ws|
    ensures Free(SetBit(ws, p)) == Free(ws) + {p}
  {
    hide Has;
    forall q: nat | q < WORD_BITS * |ws| ensures Has(SetBit(ws, p), q) <==> q == p || Has(ws, q) {
      SetAt(ws, p, q);
    }
  }

  lemma ClearRemoves(ws: seq<word>, p: nat)
    requires p < WORD_BITS * |ws|
    ensures Free(ClearBit(ws, p)) == Free(ws) - {p}
  {
    hide Has;
    forall q: nat | q < WORD_BITS * |ws| ensures Has(ClearBit(ws, p), q) <==> q != p && Has(ws, q) {
      ClearAt(ws, p, q);
    }
  }

  /** Freeing a position just claimed, or claiming one just freed, restores every word. */
  lemma ClaimThenFree(ws: seq<word>, p: nat)
    requires p < WORD_BITS * |ws|
    ensures p in Free(ws) ==> SetBit(ClearBit(ws, p), p) == ws
    ensures p !in Free(ws) ==> ClearBit(SetBit(ws, p), p) == ws
  {
  }

  /** kernel/fs/bitmap.c:29-35 */
  method SetPos(b: array<word>, pos: nat)
    requires pos < WORD_BITS * b.Length
    modifies b
    ensures b[..] == SetBit(old(b[..]), pos)
    ensures Free(b[..]) == old(Free(b[..])) + {pos}
  {
    SetAdds(b[..], pos);
    hide Has, WithBit, BitNo;
    var i, j := pos / WORD_BITS, pos % WORD_BITS;
    BitNoIs(j);
    b[i] := WithBit(b[i], BitNo(j));
  }

  /** kernel/fs/bitmap.c:38-43 */
  method UnsetPos(b: array<word>, pos: nat)
    requires pos < WORD_BITS * b.Length
    modifies b
    ensures b[..] == ClearBit(old(b[..]), pos)
    ensures Free(b[..]) == old(Free(b[..])) - {pos}
  {
    ClearRemoves(b[..], pos);
    hide Has, WithoutBit, BitNo;
    var i, j := pos / WORD_BITS, pos % WORD_BITS;
    BitNoIs(j);
    b[i] := WithoutBit(b[i], BitNo(j));
  }

  /** The choice among a set of positions: the first word that has one, and the last of that word. */
  ghost predicate IsFirst(s: set<nat>, p: nat) {
    && p in s
    && (forall q :: q in s ==> q / WORD_BITS >= p / WORD_BITS)
    && (forall q :: q in s && q / WORD_BITS == p / WORD_BITS ==> q <= p)
  }

  /** There is one in every set that is not empty, and only one. */
  lemma {:induction false} FirstExists(s: set<nat>)
    requires s != {}
    ensures exists p :: IsFirst(s, p)
    ensures forall p, q :: IsFirst(s, p) && IsFirst(s, q) ==> p == q
    decreases |s|
  {
    var x :| x in s;
    if s == {x} {
      assert IsFirst(s, x);
    } else {
      FirstExists(s - {x});
      var p :| IsFirst(s - {x}, p);
      assert s == s - {x} + {x};
      assert IsFirst(s, p) || IsFirst(s, x);
    }
  }

  ghost predicate IsFirstFree(ws: seq<word>, p: nat) {
    IsFirst(Free(ws), p)
  }

  lemma NoneFree(ws: seq<word>)
    ensures Free(ws) == {} <==> forall i :: 0 <= i < |ws| ==> ws[i] == 0
  {
    hide Bit, BitNo;
    forall i | 0 <= i < |ws| && Free(ws) == {} ensures ws[i] == 0 {
      forall k: word | k < 16 ensures !Bit(ws[i], k) {
        At(i, k);
        BitOf(k);
        assert WORD_BITS * i + k as nat !in Free(ws);
      }
      ZeroWord(ws[i]);
    }
    forall p: nat | p < WORD_BITS * |ws| && ws[p / WORD_BITS] == 0 ensures p !in Free(ws) {
      ZeroWord(0);
      BitNoIs(p % WORD_BITS);
    }
  }

  lemma FirstFree(ws: seq<word>, i: nat, j: nat)
    requires i < |ws| && j < WORD_BITS && Has([ws[i]], j)
    requires forall k :: 0 <= k < i ==> ws[k] == 0
    requires forall k: nat :: j < k < WORD_BITS ==> !Has([ws[i]], k)
    ensures IsFirstFree(ws, WORD_BITS * i + j)
  {
    var p := WORD_BITS * i + j;
    assert p / WORD_BITS == i;
    InWord(ws, p);
    hide Has;
    forall q | q in Free(ws) ensures q / WORD_BITS >= i && (q / WORD_BITS == i ==> q <= p) {
      InWord(ws, q);
      NoneFree([ws[q / WORD_BITS]]);
      assert q % WORD_BITS in Free([ws[q / WORD_BITS]]);
      assert q == WORD_BITS * (q / WORD_BITS) + q % WORD_BITS;
    }
  }

  lemma InWord(ws: seq<word>, q: nat)
    requires q < WORD_BITS * |ws|
    ensures Has(ws, q) <==> Has([ws[q / WORD_BITS]], q % WORD_BITS)
  {
  }

  /** The bit loop, kernel/fs/bitmap.c:22-24: it runs to the end of the word, so the last free bit wins. */
  method LastFreeBit(w: word) returns (r: nat)
    requires w != 0
    ensures r < WORD_BITS && Has([w], r)
    ensures forall k: nat :: r < k < WORD_BITS ==> !Has([w], k)
  {
    hide Bit, BitNo;
    NoneFree([w]);
    assert exists k :: k in Free([w]);
    var found: Option<nat> := None;
    var j := 0;
    while j < WORD_BITS
      invariant j <= WORD_BITS
      invariant found.None? ==> forall k: nat :: k < j ==> !Has([w], k)
      invariant found.Some? ==> found.value < j && Has([w], found.value)
      invariant found.Some? ==> forall k: nat :: found.value < k < j ==> !Has([w], k)
    {
      BitNoIs(j);
      if Bit(w, BitNo(j)) {
        found := Some(j);
      }
      j := j + 1;
    }
    assert forall k :: k in Free([w]) ==> Has([w], k);
    return found.value;
  }

  /** kernel/fs/bitmap.c:6-27 */
  method GetFreePos(b: array<word>) returns (r: Option<nat>)
    ensures r.None? <==> Free(b[..]) == {}
    ensures r.None? <==> forall i :: 0 <= i < b.Length ==> b[i] == 0
    ensures r.Some? ==> IsFirstFree(b[..], r.value)
  {
    hide Bit;
    NoneFree(b[..]);
    var i := 0;
    while i < b.Length && b[i] == 0
      invariant i <= b.Length
      invariant forall k :: 0 <= k < i ==> b[k] == 0
    {
      i := i + 1;
    }
    if i == b.Length {
      return None;
    }
    var j := LastFreeBit(b[i]);
    hide Has, Free;
    FirstFree(b[..], i, j);
    return Some(WORD_BITS * i + j);
  }
}
