/** kernel/fs/block.c and kernel/fs/bitmap.c as written, and exactly when they do what they should. */
module AsWritten {
  import opened Blocks
  import opened CacheSpec
  import opened Bitmap

  // ---------- The buffer cache ----------

  /** Recycling that does not write a dirty buffer back (kernel/fs/block.c:151-159). */
  function Bget(c: Cache, a: Addr): (r: Option<(Cache, nat)>)
    ensures r.Some? ==> |r.value.0.bufs| == |c.bufs| && r.value.1 < |c.bufs| && r.value.0.bufs[r.value.1].addr == a
  {
    var t := FindTag(c.bufs, a, 0);
    if t < |c.bufs| then Some((c, t))
    else
      var f := FindFree(c.bufs, 0);
      if f < |c.bufs| then Some((c.(bufs := c.bufs[f := c.bufs[f].(addr := a, dirty := false)]), f)) else None
  }

  /** Reading over a buffer nobody uses, dirty or not, and counting only then (kernel/fs/block.c:20-31). */
  function Bread(c: Cache, a: Addr): (r: Option<(Cache, nat)>)
    requires a in c.disk
    ensures r.Some? ==> |r.value.0.bufs| == |c.bufs| && r.value.1 < |c.bufs|
  {
    match Bget(c, a)
    case None => None
    case Some((d, h)) =>
      var b := d.bufs[h];
      if b.count == 0 then Some((d.(bufs := d.bufs[h := b.(data := c.disk[a], count := 1)]), h)) else Some((d, h))
  }

  /** The buffer bread settles on: the one with the tag, else the first one free. */
  function Chosen(c: Cache, a: Addr): nat {
    var t := FindTag(c.bufs, a, 0);
    if t < |c.bufs| then t else FindFree(c.bufs, 0)
  }

  /** A buffer whose data is nowhere else, and that nobody is using. */
  predicate Unsaved(c: Cache, h: nat) {
    h < |c.bufs| && c.bufs[h].count == 0 && c.bufs[h].dirty
    && c.bufs[h].addr in c.disk && c.bufs[h].data != c.disk[c.bufs[h].addr]
  }

  lemma TagKept(c: Cache, a: Addr, d: Cache, h: nat)
    requires Inv(c) && a in c.disk && Bread(c, a) == Some((d, h))
    ensures d.disk == c.disk && Tags(d) && Touches(c, d, h) && h == Chosen(c, a) && d.bufs[h].addr == a
    ensures c.bufs[h].addr == a || (c.bufs[h].count == 0 && !Cached(c, a))
    ensures d.bufs[h] == if c.bufs[h].count > 0 then c.bufs[h]
                         else c.bufs[h].(addr := a, data := c.disk[a], count := 1, dirty := d.bufs[h].dirty)
  {
    var f := FindFree(c.bufs, 0);
    if FindTag(c.bufs, a, 0) == |c.bufs| {
      assert forall i :: 0 <= i < |c.bufs| ==> c.bufs[i].addr != a;
    }
  }

  /** What was in a buffer nobody used is replaced by what the disk has. */
  lemma LostView(c: Cache, a: Addr, d: Cache, h: nat)
    requires Inv(c) && a in c.disk && Bread(c, a) == Some((d, h)) && c.bufs[h].addr != NO_ADDR && c.bufs[h].count == 0
    ensures c.bufs[h].addr in c.disk && ViewAt(d, c.bufs[h].addr) == c.disk[c.bufs[h].addr]
    ensures ViewAt(c, c.bufs[h].addr) == c.bufs[h].data
  {
    TagKept(c, a, d, h);
    ViewOfTag(c, h);
    ViewOfTag(d, h);
    if c.bufs[h].addr != a {
      OtherTags(c, h);
      assert !Cached(d, c.bufs[h].addr);
      ViewOfDisk(d, c.bufs[h].addr);
    }
  }

  lemma OtherViews(c: Cache, a: Addr, d: Cache, h: nat, x: Addr)
    requires Inv(c) && a in c.disk && Bread(c, a) == Some((d, h)) && x in c.disk && x != c.bufs[h].addr
    ensures ViewAt(d, x) == ViewAt(c, x)
  {
    TagKept(c, a, d, h);
    if x == a {
      ViewOfDisk(c, a);
      ViewOfTag(d, h);
    } else {
      ViewElsewhere(c, d, h, x);
    }
  }

  /** As written, bread keeps every block's contents if and only if it does not settle on unsaved data. */
  lemma BreadKeepsViewIff(c: Cache, a: Addr)
    requires Inv(c) && a in c.disk && Bread(c, a).Some?
    ensures View(Bread(c, a).value.0) == View(c) <==> !Unsaved(c, Chosen(c, a))
  {
    var (d, h) := Bread(c, a).value;
    TagKept(c, a, d, h);
    var t := c.bufs[h].addr;
    assert Tags(c) && CleanBut(c, -1) && t != NO_ADDR ==> t in c.disk;
    if c.bufs[h].count > 0 {
      SameView(c, d);
    } else {
      hide Bread, Chosen, FindTag, Tags, Touches, Cached;
      if t != NO_ADDR {
        LostView(c, a, d, h);
      }
      if !Unsaved(c, h) {
        forall x | x in c.disk
          ensures ViewAt(d, x) == ViewAt(c, x)
        {
          if x != t {
            OtherViews(c, a, d, h, x);
          }
        }
      } else {
        assert View(d)[t] != View(c)[t];
      }
    }
  }

  /** Storing a byte the disk does not have and releasing the block, with no write between, leaves unsaved data. */
  lemma StoreLeavesUnsaved(c: Cache, h: nat, i: nat, v: byte)
    requires Inv(c) && Live(c, h) && c.bufs[h].count == 1 && i < BLK_SZ && v != c.disk[c.bufs[h].addr][i]
    ensures var d := Store(c, h, i, v); Live(d, h) && Unsaved(Brelease(d, h), h)
  {
  }

  lemma SameView(c: Cache, d: Cache)
    requires d.disk == c.disk && |d.bufs| == |c.bufs| && d.bufs == c.bufs
    ensures View(d) == View(c)
  {
  }

  /** As written, bread adds the caller to the count if and only if nobody had the block before. */
  lemma BreadCountsIff(c: Cache, a: Addr)
    requires Inv(c) && a in c.disk && Bread(c, a).Some?
    ensures var (d, h) := Bread(c, a).value;
      d.bufs[h].count == c.bufs[h].count + 1 <==> c.bufs[Chosen(c, a)].count == 0
  {
  }

  // ---------- The bitmap ----------

  /** `pos / sizeof(*b)*8` and `pos % sizeof(*b)*8`, with words of two bytes (kernel/fs/bitmap.c:31-32, 39-40). */
  function Target(pos: nat): nat {
    WORD_BITS * (pos / 2 * 8) + pos % 2 * 8
  }

  lemma TargetIff(pos: nat)
    ensures Target(pos) / WORD_BITS == pos / 2 * 8 && Target(pos) % WORD_BITS == pos % 2 * 8
    ensures Target(pos) == pos <==> pos == 0
  {
  }

  /** set_pos as written; `None` is a store past the end of the map. */
  function SetPosAsWritten(ws: seq<word>, pos: nat): Option<seq<word>> {
    if Target(pos) < WORD_BITS * |ws| then Some(SetBit(ws, Target(pos))) else None
  }

  /** It frees its position if and only if that is position 0, or it and the one really set were free already. */
  lemma SetPosIff(ws: seq<word>, pos: nat)
    requires pos < WORD_BITS * |ws|
    ensures (exists r :: SetPosAsWritten(ws, pos) == Some(r) && Free(r) == Free(ws) + {pos}) <==>
      pos == 0 || (Target(pos) < WORD_BITS * |ws| && pos in Free(ws) && Target(pos) in Free(ws))
  {
    hide Free, SetBit, Target;
    TargetIff(pos);
    if Target(pos) < WORD_BITS * |ws| {
      var r := SetBit(ws, Target(pos));
      assert SetPosAsWritten(ws, pos) == Some(r);
      SetAdds(ws, Target(pos));
      SameUnion(Free(ws), Target(pos), pos);
    }
  }

  lemma SameUnion(s: set<nat>, x: nat, y: nat)
    ensures s + {x} == s + {y} <==> x == y || (x in s && y in s)
  {
    assert x in s + {x} && y in s + {y};
    assert x in s ==> s + {x} == s;
    assert y in s ==> s + {y} == s;
  }

  /** A word with every bit but one set, that one as it was (kernel/fs/bitmap.c:42). */
  function WithOthers(w: word, k: word): word
    requires k < 16
  {
    w | !((1 as word) << k)
  }

  lemma OthersRaw(w: word, j: word, k: word)
    requires j < 16 && k < 16
    ensures (w | !((1 as word) << j)) & ((1 as word) << k) != 0 <==> j != k || w & ((1 as word) << k) != 0
  {
  }

  lemma OthersInWord(w: word, j: word, k: word)
    requires j < 16 && k < 16
    ensures Bit(WithOthers(w, j), k) <==> j != k || Bit(w, k)
  {
    OthersRaw(w, j, k);
  }

  /** unset_pos as written: the wrong word and bit, and OR; `None` is a store past the end of the map. */
  function UnsetPosAsWritten(ws: seq<word>, pos: nat): Option<seq<word>> {
    var t := Target(pos);
    if t < WORD_BITS * |ws| then
      BitNoIs(t % WORD_BITS);
      Some(ws[t / WORD_BITS := WithOthers(ws[t / WORD_BITS], BitNo(t % WORD_BITS))])
    else None
  }

  /** What it frees: every position of the word it changes but the one it means to clear. */
  lemma UnsetAdds(ws: seq<word>, pos: nat, q: nat)
    requires Target(pos) < WORD_BITS * |ws| && q < WORD_BITS * |ws|
    ensures var t, r := Target(pos), UnsetPosAsWritten(ws, pos).value;
      |r| == |ws| && (q in Free(r) <==> q in Free(ws) || (q / WORD_BITS == t / WORD_BITS && q != t))
  {
    hide Bit, WithOthers, BitNo, Target;
    var t := Target(pos);
    var i, j, k := t / WORD_BITS, t % WORD_BITS, q % WORD_BITS;
    BitNoIs(j);
    BitNoIs(k);
    BitNoSame(j, k);
    OthersInWord(ws[i], BitNo(j), BitNo(k));
    HasUpdate(ws, i, WithOthers(ws[i], BitNo(j)), q);
  }

  /** Every position that shares a word with the target, but the target, is free. */
  ghost predicate OthersFree(ws: seq<word>, t: nat) {
    forall q: nat :: q / WORD_BITS == t / WORD_BITS && q != t ==> q in Free(ws)
  }

  /**
   * It takes its position from the free ones if and only if the word it changes lies in the map, the position was
   * taken already, and so nothing was to be done, and every other position of that word was free already.
   */
  lemma UnsetPosIff(ws: seq<word>, pos: nat)
    requires pos < WORD_BITS * |ws|
    ensures (exists r :: UnsetPosAsWritten(ws, pos) == Some(r) && Free(r) == Free(ws) - {pos}) <==>
      Target(pos) < WORD_BITS * |ws| && pos !in Free(ws) && OthersFree(ws, Target(pos))
  {
    hide Has, BitNo, WithOthers, Target;
    var t := Target(pos);
    if t < WORD_BITS * |ws| {
      var r := UnsetPosAsWritten(ws, pos).value;
      assert UnsetPosAsWritten(ws, pos) == Some(r);
      UnsetFree(ws, pos);
      if Free(r) == Free(ws) - {pos} {
        OthersThere(ws, r, t);
      }
    }
  }

  lemma UnsetFree(ws: seq<word>, pos: nat)
    requires Target(pos) < WORD_BITS * |ws|
    ensures var t, r := Target(pos), UnsetPosAsWritten(ws, pos).value;
      && |r| == |ws| && Free(ws) <= Free(r)
      && (forall q: nat | q < WORD_BITS * |ws| ::
           q in Free(r) <==> q in Free(ws) || (q / WORD_BITS == t / WORD_BITS && q != t))
      && (forall q: nat | q in Free(r) :: q < WORD_BITS * |ws|)
  {
    hide Has, BitNo, WithOthers, Target, Free;
    forall q: nat | q < WORD_BITS * |ws|
      ensures var t, r := Target(pos), UnsetPosAsWritten(ws, pos).value;
        q in Free(r) <==> q in Free(ws) || (q / WORD_BITS == t / WORD_BITS && q != t)
    {
      UnsetAdds(ws, pos, q);
    }
    UnsetAdds(ws, pos, Target(pos));
    InRange(ws);
    InRange(UnsetPosAsWritten(ws, pos).value);
  }

  lemma InRange(ws: seq<word>)
    ensures forall q: nat | q in Free(ws) :: q < WORD_BITS * |ws|
  {
  }

  lemma OthersThere(ws: seq<word>, r: seq<word>, t: nat)
    requires t < WORD_BITS * |ws| && Free(r) <= Free(ws)
    requires forall q: nat | q < WORD_BITS * |ws| ::
      q in Free(r) <==> q in Free(ws) || (q / WORD_BITS == t / WORD_BITS && q != t)
    ensures OthersFree(ws, t)
  {
    hide Free;
    forall q: nat | q / WORD_BITS == t / WORD_BITS && q != t
      ensures q in Free(ws)
    {
      assert q < WORD_BITS * |ws|;
      assert q in Free(r);
    }
  }

  /** Of a position that is taken, other than 0, set_pos as written frees another one, or stores past the map. */
  lemma SetPosMisses(ws: seq<word>, pos: nat)
    requires 0 < pos < WORD_BITS * |ws| && pos !in Free(ws)
    ensures match SetPosAsWritten(ws, pos)
      case None => true
      case Some(r) => Free(r) == Free(ws) + {Target(pos)} && Target(pos) != pos && pos !in Free(r)
  {
    hide Free, SetBit, Target;
    TargetIff(pos);
    if Target(pos) < WORD_BITS * |ws| {
      SetAdds(ws, Target(pos));
    }
  }

  /** Position 5 of a map with nothing free: 264 is freed instead. */
  lemma SetPosExample(n: nat)
    requires n > 16
    ensures var ws := seq(n, _ => 0 as word);
      Free(ws) == {} && SetPosAsWritten(ws, 5).Some? && Free(SetPosAsWritten(ws, 5).value) == {264}
  {
    var ws := seq(n, _ => 0 as word);
    NoneFree(ws);
    hide Free, SetBit;
    SetPosMisses(ws, 5);
  }

  /** Of a position that is free, as get_free_pos finds it, unset_pos as written claims nothing. */
  lemma UnsetPosMisses(ws: seq<word>, pos: nat)
    requires pos < WORD_BITS * |ws| && pos in Free(ws)
    ensures match UnsetPosAsWritten(ws, pos)
      case None => true
      case Some(r) => Free(ws) <= Free(r) && pos in Free(r)
  {
    hide Has, BitNo, WithOthers, Target, Free;
    if Target(pos) < WORD_BITS * |ws| {
      UnsetFree(ws, pos);
    }
  }

  /** The one free position of a word, found and then claimed as written: all sixteen are free. */
  lemma UnsetPosExample()
    ensures UnsetPosAsWritten([1], 0) == Some([0xffff])
    ensures IsFirstFree([1], 0) && forall q: nat :: q < WORD_BITS ==> q in Free([0xffff])
  {
    hide Bit, BitNo;
    BitNoIs(0);
    TargetIff(0);
    assert BitNo(0) == 0;
    OneBit();
    var ws: seq<word> := [1];
    assert Target(0) == 0 && ws[0 := 0xffff] == [0xffff];
    forall q: nat | q < WORD_BITS
      ensures (q in Free([1]) <==> q == 0) && q in Free([0xffff])
    {
      BitNoIs(q);
      BitNoSame(q, 0);
      OneBitOnly(BitNo(q));
    }
  }

  lemma OneBit()
    ensures WithOthers(1, 0) == 0xffff
  {
  }

  lemma OneBitOnly(k: word)
    requires k < 16
    ensures (Bit(1, k) <==> k == 0) && Bit(0xffff, k)
  {
  }
}
