/** busybox/cksum.c: the table-driven CRC of a file, and what it detects. */
module Crc {
  import opened Blocks
  import opened CrcSteps
  import opened CrcTable

  function Wide(ch: byte): bv32 {
    ch as bv32
  }

  function Low(x: bv32): bv32 {
    x & 0xff
  }

  function High(x: bv32): bv32 {
    x & 0xffffff00
  }

  function Shr8(x: bv32): bv32 {
    x >> 8
  }

  /** `& 0xff` as an index of the table. */
  function Index(x: bv32): bv8 {
    (x & 0xff) as bv8
  }

  lemma LowIsIndex(x: bv32)
    ensures Index(x) as bv32 == Low(x)
  {
  }

  /** The macro CRC32 (busybox/cksum.c:17). */
  function Update(crc: bv32, ch: byte): bv32 {
    Xor(Shr8(crc), Entry(Index(Xor(crc, Wide(ch)))))
  }

  /** One byte of the division, with no table (section 8 of RFC 1952). */
  function Divide(crc: bv32, ch: byte): bv32 {
    Step8(Xor(crc, Wide(ch)))
  }

  // ---------- The table form is the division ----------

  /** A state whose low byte is zero only shifts. */
  lemma Slide(h: bv32)
    requires Low(h) == 0
    ensures Step8(h) == Shr8(h)
  {
  }

  lemma Split(x: bv32)
    ensures Xor(High(x), Low(x)) == x && Low(High(x)) == 0 && Shr8(High(x)) == Shr8(x)
  {
  }

  lemma ByteLeavesHigh(crc: bv32, ch: byte)
    ensures Shr8(Xor(crc, Wide(ch))) == Shr8(crc)
  {
  }

  /** One use of the table is eight steps of division. */
  lemma UpdateIsDivision(crc: bv32, ch: byte)
    ensures Update(crc, ch) == Divide(crc, ch)
  {
    hide Xor, Wide, Low, High, Shr8, Step8, Entry, Index;
    var x := Xor(crc, Wide(ch));
    Split(x);
    ByteLeavesHigh(crc, ch);
    LowIsIndex(x);
    TableIsDivision(Index(x));
    Slide(High(x));
    Step8Linear(High(x), Low(x));
  }

  // ---------- Files ----------

  function Fold(crc: bv32, file: seq<byte>): bv32
    decreases |file|
  {
    if file == [] then crc else Fold(Update(crc, file[0]), file[1..])
  }

  function Remainder(crc: bv32, file: seq<byte>): bv32
    decreases |file|
  {
    if file == [] then crc else Remainder(Divide(crc, file[0]), file[1..])
  }

  function Not(x: bv32): bv32 {
    !x
  }

  const ALL_ONES: bv32 := 0xffffffff

  /** What cksum prints: from all ones, complemented (busybox/cksum.c:127, 142). */
  function Cksum(file: seq<byte>): bv32 {
    Not(Fold(ALL_ONES, file))
  }

  lemma {:induction false} FoldIsRemainder(crc: bv32, file: seq<byte>)
    ensures Fold(crc, file) == Remainder(crc, file)
    decreases |file|
  {
    hide Update, Divide;
    if file != [] {
      UpdateIsDivision(crc, file[0]);
      FoldIsRemainder(Update(crc, file[0]), file[1..]);
    }
  }

  /** For every file, the checksum is the complement of the bit-by-bit remainder from all ones. */
  lemma CksumIsDivision(file: seq<byte>)
    ensures Cksum(file) == Not(Remainder(ALL_ONES, file))
  {
    hide Fold, Remainder, Not, ALL_ONES;
    FoldIsRemainder(ALL_ONES, file);
  }

  lemma {:induction false} FoldMore(crc: bv32, file: seq<byte>, ch: byte)
    ensures Fold(crc, file + [ch]) == Update(Fold(crc, file), ch)
    decreases |file|
  {
    hide Update;
    if file == [] {
      assert (file + [ch])[1..] == [];
    } else {
      assert (file + [ch])[1..] == file[1..] + [ch];
      FoldMore(Update(crc, file[0]), file[1..], ch);
    }
  }

  /** busybox/cksum.c:124-143, over the octets of the file. */
  method Crc32(file: seq<byte>) returns (crc: bv32)
    ensures crc == Not(Remainder(ALL_ONES, file))
  {
    hide Update, Not, Remainder, ALL_ONES;
    crc := ALL_ONES;
    assert file[..0] == [];
    for i := 0 to |file|
      invariant crc == Fold(ALL_ONES, file[..i])
    {
      FoldMore(ALL_ONES, file[..i], file[i]);
      assert file[..i + 1] == file[..i] + [file[i]];
      crc := Update(crc, file[i]);
    }
    assert file[..|file|] == file;
    FoldIsRemainder(ALL_ONES, file);
    crc := Not(crc);
  }

  // ---------- Bit by bit ----------

  function One(b: bool): bv32 {
    if b then 1 else 0
  }

  /** The division fed with bits: each is added to the low end of the state before a step. */
  function Feed(crc: bv32, bits: seq<bool>): bv32
    decreases |bits|
  {
    if bits == [] then crc else Feed(Step(Xor(crc, One(bits[0]))), bits[1..])
  }

  /** The low `n` bits of a word, lowest first. */
  function BitsOf(w: bv32, n: nat): (bits: seq<bool>)
    ensures |bits| == n
  {
    if n == 0 then [] else [Odd(w)] + BitsOf(Shr(w), n - 1)
  }

  function Steps(x: bv32, n: nat): bv32
    decreases n
  {
    if n == 0 then x else Steps(Step(x), n - 1)
  }

  function Down(w: bv32, n: nat): bv32
    decreases n
  {
    if n == 0 then w else Down(Shr(w), n - 1)
  }

  lemma LowBitFirst(crc: bv32, w: bv32)
    ensures Step(Xor(crc, w)) == Xor(Step(Xor(crc, One(Odd(w)))), Shr(w))
  {
    var b := One(Odd(w));
    var rest := Xor(w, b);
    OddOut(crc, w);
    hide Step, Xor, Odd, Shr;
    StepLinear(Xor(crc, b), rest);
  }

  lemma OddOut(crc: bv32, w: bv32)
    ensures var b := One(Odd(w)); var rest := Xor(w, b);
      Xor(Xor(crc, b), rest) == Xor(crc, w) && Step(rest) == Shr(w)
  {
  }

  /** Bits fed one at a time and the same bits added at once make the same difference. */
  lemma {:induction false} FeedWord(crc: bv32, w: bv32, n: nat)
    requires Down(w, n) == 0
    ensures Feed(crc, BitsOf(w, n)) == Steps(Xor(crc, w), n)
    decreases n
  {
    hide Step, Odd, Shr, One;
    if n == 0 {
      XorZero(crc);
    } else {
      hide Xor;
      LowBitFirst(crc, w);
      FeedWord(Step(Xor(crc, One(Odd(w)))), Shr(w), n - 1);
      assert BitsOf(w, n)[1..] == BitsOf(Shr(w), n - 1);
    }
  }

  lemma XorZero(x: bv32)
    ensures Xor(x, 0) == x
  {
  }

  lemma EightDown(w: bv32, n: nat)
    ensures Down(w, n + 8) == Down(Shr8(w), n)
  {
    EightShifts(w);
    hide Shr, Shr8;
    var a := Shr(Shr(w));
    var b := Shr(Shr(a));
    var c := Shr(Shr(b));
    assert Down(w, n + 8) == Down(a, n + 6) == Down(b, n + 4) == Down(c, n + 2) == Down(Shr(Shr(c)), n);
  }

  lemma EightShifts(w: bv32)
    ensures Shr(Shr(Shr(Shr(Shr(Shr(Shr(Shr(w)))))))) == Shr8(w)
  {
  }

  lemma EightSteps(x: bv32)
    ensures Steps(x, 8) == Step8(x)
  {
    hide Step;
    var y := Step4(x);
    assert Steps(x, 8) == Steps(Step2(x), 6) == Steps(y, 4) == Steps(Step2(y), 2) == Steps(Step4(y), 0);
  }

  lemma DownNone(w: bv32)
    ensures Down(w, 0) == w
  {
  }

  lemma WideIsShort(ch: byte)
    ensures Shr8(Wide(ch)) == 0
  {
  }

  /** A byte enters the division as its eight bits, lowest first. */
  lemma ByteIsBits(crc: bv32, ch: byte)
    ensures Divide(crc, ch) == Feed(crc, BitsOf(Wide(ch), 8))
  {
    hide Wide, Step8, Steps, Down, Feed, BitsOf, Shr8, Xor;
    WideIsShort(ch);
    EightDown(Wide(ch), 0);
    DownNone(Shr8(Wide(ch)));
    FeedWord(crc, Wide(ch), 8);
    EightSteps(Xor(crc, Wide(ch)));
  }

  /** A file as a string of bits, the low bit of each byte first. */
  function FileBits(file: seq<byte>): (bits: seq<bool>)
    ensures |bits| == 8 * |file|
  {
    if file == [] then [] else BitsOf(Wide(file[0]), 8) + FileBits(file[1..])
  }

  lemma {:induction false} FeedAppend(crc: bv32, a: seq<bool>, b: seq<bool>)
    ensures Feed(crc, a + b) == Feed(Feed(crc, a), b)
    decreases |a|
  {
    hide Step, Xor, One;
    if a == [] {
      assert a + b == b;
    } else {
      assert (a + b)[1..] == a[1..] + b;
      FeedAppend(Step(Xor(crc, One(a[0]))), a[1..], b);
    }
  }

  /** The remainder of a file is that of its bits. */
  lemma {:induction false} RemainderIsFeed(crc: bv32, file: seq<byte>)
    ensures Remainder(crc, file) == Feed(crc, FileBits(file))
    decreases |file|
  {
    hide Divide, Feed, BitsOf, Wide;
    if file == [] {
      FeedNone(crc);
    } else {
      ByteIsBits(crc, file[0]);
      RemainderIsFeed(Divide(crc, file[0]), file[1..]);
      FeedAppend(crc, BitsOf(Wide(file[0]), 8), FileBits(file[1..]));
    }
  }

  lemma FeedNone(crc: bv32)
    ensures Feed(crc, []) == crc
  {
  }

  // ---------- States that come together ----------

  /** The bits from `n` on. */
  function Above(n: nat): bv32 {
    if n == 0 then 0xffffffff else Shl(Above(n - 1))
  }

  function Shl(x: bv32): bv32 {
    x << 1
  }

  function And(x: bv32, y: bv32): bv32 {
    x & y
  }

  /** Bits run up to the top. */
  predicate UpToTop(w: bv32) {
    (w << 1) & !w == 0
  }

  lemma UpToTopShl(w: bv32)
    requires UpToTop(w)
    ensures UpToTop(Shl(w))
  {
  }

  lemma HasTop(w: bv32)
    requires UpToTop(w) && w != 0
    ensures w & 0x80000000 != 0
  {
  }

  lemma {:induction false} AboveUpToTop(n: nat)
    ensures UpToTop(Above(n))
  {
    hide UpToTop, Shl;
    if n == 0 {
      OnesUpToTop();
    } else {
      AboveUpToTop(n - 1);
      UpToTopShl(Above(n - 1));
    }
  }

  lemma OnesUpToTop()
    ensures UpToTop(0xffffffff)
  {
  }

  lemma {:induction false} AboveNotZero(n: nat, m: nat)
    requires n <= m && Above(m) != 0
    ensures Above(n) != 0
    decreases m - n
  {
    if n < m {
      AboveNotZero(n + 1, m);
    }
  }

  lemma TopAbove(n: nat)
    requires n <= 31
    ensures Above(n) & 0x80000000 != 0
  {
    assert Above(8) == 0xffffff00;
    assert Above(16) == 0xffff0000;
    assert Above(24) == 0xff000000;
    assert Above(31) == 0x80000000;
    AboveNotZero(n, 31);
    AboveUpToTop(n);
    HasTop(Above(n));
  }

  /** A step that leaves the top bit clear was a shift. */
  lemma Back(u: bv32, m: bv32)
    requires m & 0x80000000 != 0 && And(Step(u), m) == 0
    ensures !Odd(u) && And(u, Shl(m)) == 0
  {
  }

  lemma LowBitOut(x: bv32, y: bv32, a: bool, b: bool, m: bv32)
    requires And(Xor(Xor(x, One(a)), Xor(y, One(b))), Shl(m)) == 0
    ensures And(Xor(x, y), Shl(m)) == 0
  {
  }

  lemma OneBack(x: bv32, y: bv32, a: bool, b: bool, n: nat)
    requires n <= 30 && And(Xor(Step(Xor(x, One(a))), Step(Xor(y, One(b)))), Above(n)) == 0
    ensures And(Xor(x, y), Above(n + 1)) == 0
  {
    hide And, Xor, One, Step, Shl, Odd;
    var u, w := Xor(x, One(a)), Xor(y, One(b));
    StepLinear(u, w);
    TopAbove(n);
    Back(Xor(u, w), Above(n));
    LowBitOut(x, y, a, b, Above(n));
  }

  /** Before `n` bits bring two states together, they differ in their low `n` bits only. */
  lemma {:induction false} LowBitsOnly(x: bv32, y: bv32, a: seq<bool>, b: seq<bool>)
    requires |a| == |b| <= 31 && Feed(x, a) == Feed(y, b)
    ensures And(Xor(x, y), Above(|a|)) == 0
    decreases |a|
  {
    if a == [] {
      XorSelf(x);
    } else {
      hide And, Xor, One, Step, Above;
      LowBitsOnly(Step(Xor(x, One(a[0]))), Step(Xor(y, One(b[0]))), a[1..], b[1..]);
      OneBack(x, y, a[0], b[0], |a| - 1);
    }
  }

  lemma XorSelf(x: bv32)
    ensures Xor(x, x) == 0 && And(0, 0xffffffff) == 0
  {
  }

  lemma FirstBitShows(x: bv32, a: bool, b: bool, m: bv32)
    requires m & 0x80000000 != 0 && And(Xor(Step(Xor(x, One(a))), Step(Xor(x, One(b)))), m) == 0
    ensures a == b
  {
    hide And, Step;
    StepLinear(Xor(x, One(a)), Xor(x, One(b)));
    Back(Xor(Xor(x, One(a)), Xor(x, One(b))), m);
  }

  /** From one state, two strings of at most thirty-two bits lead to one state only if they are the same. */
  lemma {:induction false} WindowBits(x: bv32, a: seq<bool>, b: seq<bool>)
    requires |a| == |b| <= 32 && Feed(x, a) == Feed(x, b)
    ensures a == b
    decreases |a|
  {
    hide Xor, One, Step, And;
    if a != [] {
      var n := |a| - 1;
      LowBitsOnly(Step(Xor(x, One(a[0]))), Step(Xor(x, One(b[0]))), a[1..], b[1..]);
      TopAbove(n);
      FirstBitShows(x, a[0], b[0], Above(n));
      WindowBits(Step(Xor(x, One(a[0]))), a[1..], b[1..]);
    }
  }

  /** Thirty-two is as many as that: from every state, these two strings of thirty-three bits lead to one. */
  lemma LongerMissed(x: bv32)
    ensures Feed(x, [true] + BitsOf(POLY, 32)) == Feed(x, [false] + BitsOf(0, 32))
  {
    ShortWords();
    hide Xor, Step, Down, BitsOf, POLY, Steps;
    assert ([true] + BitsOf(POLY, 32))[1..] == BitsOf(POLY, 32) && ([false] + BitsOf(0, 32))[1..] == BitsOf(0, 32);
    StepLinear(x, 1);
    FeedWord(Step(Xor(x, 1)), POLY, 32);
    FeedWord(Step(Xor(x, 0)), 0, 32);
    XorZero(x);
    XorZero(Step(x));
    AddTwice(Step(x));
  }

  lemma ShortWords()
    ensures Down(POLY, 32) == 0 && Down(0, 32) == 0 && Step(1) == POLY
  {
    hide Down;
    EightDown(POLY, 24);
    EightDown(0xedb883, 16);
    EightDown(0xedb8, 8);
    EightDown(0xed, 0);
    DownNone(0);
    EightDown(0, 24);
    EightDown(0, 16);
    EightDown(0, 8);
    EightDown(0, 0);
  }

  lemma AddTwice(x: bv32)
    ensures Xor(Xor(x, POLY), POLY) == x
  {
  }

  lemma XorCancels(x: bv32, y: bv32, z: bv32)
    requires Xor(x, z) == Xor(y, z)
    ensures x == y
  {
  }

  /** The same bits never bring two different states together. */
  lemma {:induction false} FeedInjective(x: bv32, y: bv32, bits: seq<bool>)
    requires Feed(x, bits) == Feed(y, bits)
    ensures x == y
    decreases |bits|
  {
    hide Xor, One, Step;
    if bits != [] {
      var b := One(bits[0]);
      FeedInjective(Step(Xor(x, b)), Step(Xor(y, b)), bits[1..]);
      StepInjective(Xor(x, b), Xor(y, b));
      XorCancels(x, y, b);
    }
  }

  // ---------- What the checksum detects ----------

  lemma NotInjective(x: bv32, y: bv32)
    requires Not(x) == Not(y)
    ensures x == y
  {
  }

  lemma ByteShows(b: byte, c: byte)
    requires BitsOf(Wide(b), 8) == BitsOf(Wide(c), 8)
    ensures b == c
  {
    hide BitsOf, Feed, Step8, Xor;
    ByteIsBits(0, b);
    ByteIsBits(0, c);
    Step8Injective(Xor(0, Wide(b)), Xor(0, Wide(c)));
    WideShows(b, c);
  }

  lemma WideShows(b: byte, c: byte)
    requires Xor(0, Wide(b)) == Xor(0, Wide(c))
    ensures b == c
  {
  }

  lemma {:induction false} SameBitsSameFile(f: seq<byte>, g: seq<byte>)
    requires |f| == |g| && FileBits(f) == FileBits(g)
    ensures f == g
    decreases |f|
  {
    hide BitsOf, Wide;
    if f != [] {
      assert FileBits(f)[..8] == BitsOf(Wide(f[0]), 8) && FileBits(g)[..8] == BitsOf(Wide(g[0]), 8);
      assert FileBits(f)[8..] == FileBits(f[1..]) && FileBits(g)[8..] == FileBits(g[1..]);
      ByteShows(f[0], g[0]);
      SameBitsSameFile(f[1..], g[1..]);
      assert f == [f[0]] + f[1..] && g == [g[0]] + g[1..];
    }
  }

  lemma SplitThree(crc: bv32, before: seq<bool>, window: seq<bool>, after: seq<bool>)
    ensures Feed(crc, before + window + after) == Feed(Feed(Feed(crc, before), window), after)
  {
    hide Feed;
    FeedAppend(crc, before + window, after);
    FeedAppend(crc, before, window);
  }

  lemma SameFeedSameBits(crc: bv32, f: seq<bool>, g: seq<bool>, at: nat)
    requires |f| == |g| && (forall k :: 0 <= k < |f| && !(at <= k < at + 32) ==> f[k] == g[k])
    requires Feed(crc, f) == Feed(crc, g)
    ensures f == g
  {
    hide Feed;
    var lo := if at < |f| then at else |f|;
    var hi := if at + 32 < |f| then at + 32 else |f|;
    assert f == f[..lo] + f[lo..hi] + f[hi..];
    assert g == f[..lo] + g[lo..hi] + f[hi..];
    SplitThree(crc, f[..lo], f[lo..hi], f[hi..]);
    SplitThree(crc, f[..lo], g[lo..hi], f[hi..]);
    var s := Feed(crc, f[..lo]);
    FeedInjective(Feed(s, f[lo..hi]), Feed(s, g[lo..hi]), f[hi..]);
    WindowBits(s, f[lo..hi], g[lo..hi]);
  }

  /** Two files of one length that differ, and only within thirty-two consecutive bits, never share a checksum. */
  lemma BurstDetected(f: seq<byte>, g: seq<byte>, at: nat)
    requires |f| == |g|
    requires forall k :: 0 <= k < 8 * |f| && !(at <= k < at + 32) ==> FileBits(f)[k] == FileBits(g)[k]
    ensures Cksum(f) == Cksum(g) <==> f == g
  {
    hide Fold, Remainder, Not, ALL_ONES, FileBits, Feed;
    if Cksum(f) == Cksum(g) {
      CksumIsDivision(f);
      CksumIsDivision(g);
      NotInjective(Remainder(ALL_ONES, f), Remainder(ALL_ONES, g));
      RemainderIsFeed(ALL_ONES, f);
      RemainderIsFeed(ALL_ONES, g);
      SameFeedSameBits(ALL_ONES, FileBits(f), FileBits(g), at);
      SameBitsSameFile(f, g);
    }
  }

  lemma {:induction false} BitsOfFile(file: seq<byte>, k: nat)
    requires k < 8 * |file|
    ensures FileBits(file)[k] == BitsOf(Wide(file[k / 8]), 8)[k % 8]
    decreases |file|
  {
    hide BitsOf, Wide;
    if k >= 8 {
      BitsOfFile(file[1..], k - 8);
    }
  }

  /** In particular within four consecutive bytes. */
  lemma BytesDetected(f: seq<byte>, g: seq<byte>, at: nat)
    requires |f| == |g| && (forall k :: 0 <= k < |f| && !(at <= k < at + 4) ==> f[k] == g[k])
    ensures Cksum(f) == Cksum(g) <==> f == g
  {
    hide Cksum, FileBits, BitsOf, Wide;
    forall k | 0 <= k < 8 * |f| && !(8 * at <= k < 8 * at + 32)
      ensures FileBits(f)[k] == FileBits(g)[k]
    {
      BitsOfFile(f, k);
      BitsOfFile(g, k);
      assert f[k / 8] == g[k / 8];
    }
    BurstDetected(f, g, 8 * at);
  }

  // ---------- Known values ----------

  /** A word as four bytes, the low one first. */
  function FourOf(w: bv32): (s: seq<byte>)
    ensures |s| == 4
  {
    [(w & 0xff) as bv8, ((w >> 8) & 0xff) as bv8, ((w >> 16) & 0xff) as bv8, (w >> 24) as bv8]
  }

  lemma {:induction false} BitsSplit(w: bv32, k: nat, n: nat)
    ensures BitsOf(w, k + n) == BitsOf(w, k) + BitsOf(Down(w, k), n)
    decreases k
  {
    hide Odd, Shr;
    if k > 0 {
      BitsSplit(Shr(w), k - 1, n);
    }
  }

  /** The words differ only in bits of `m`. */
  predicate SameBut(b: bv32, w: bv32, m: bv32) {
    (b ^ w) & !m == 0
  }

  lemma SameFirst(b: bv32, w: bv32, m: bv32)
    requires SameBut(b, w, Shl(m))
    ensures Odd(b) == Odd(w) && SameBut(Shr(b), Shr(w), m)
  {
  }

  lemma {:induction false} SameLowBits(b: bv32, w: bv32, n: nat)
    requires SameBut(b, w, Above(n))
    ensures BitsOf(b, n) == BitsOf(w, n)
    decreases n
  {
    hide Odd, Shr, Shl, SameBut;
    if n > 0 {
      SameFirst(b, w, Above(n - 1));
      SameLowBits(Shr(b), Shr(w), n - 1);
    }
  }

  lemma ByteBits(b: bv32, w: bv32)
    requires Low(w) == b
    ensures BitsOf(b, 8) == BitsOf(w, 8)
  {
    assert Above(8) == 0xffffff00;
    hide BitsOf, Above;
    SameLowBits(b, w, 8);
  }

  lemma FourParts(w: bv32)
    ensures var s := FourOf(w);
      && Wide(s[0]) == Low(w) && Wide(s[1]) == Low(Shr8(w)) && Wide(s[2]) == Low(Shr8(Shr8(w)))
      && Wide(s[3]) == Low(Shr8(Shr8(Shr8(w)))) && Shr8(Shr8(Shr8(Shr8(w)))) == 0
  {
  }

  lemma OneByteOff(w: bv32, n: nat)
    ensures BitsOf(w, n + 8) == BitsOf(Low(w), 8) + BitsOf(Shr8(w), n)
  {
    hide BitsOf, Down, Low, Shr8;
    BitsSplit(w, 8, n);
    EightDown(w, 0);
    DownNone(Shr8(w));
    ByteBits(Low(w), w);
  }

  /** Four bytes, the low one first, are the thirty-two bits of the word. */
  lemma FourBits(w: bv32)
    ensures FileBits(FourOf(w)) == BitsOf(w, 32) && Down(w, 32) == 0
  {
    hide BitsOf, Down, Low, Shr8, Wide, FourOf;
    FourParts(w);
    var s, w1, w2, w3 := FourOf(w), Shr8(w), Shr8(Shr8(w)), Shr8(Shr8(Shr8(w)));
    OneByteOff(w, 24);
    OneByteOff(w1, 16);
    OneByteOff(w2, 8);
    OneByteOff(w3, 0);
    NoBits(Shr8(w3));
    assert s[1..][1..] == s[2..] && s[2..][1..] == s[3..] && s[3..][1..] == [];
    assert FileBits(s[3..]) == BitsOf(Wide(s[3]), 8) + FileBits([]);
    assert FileBits(s[2..]) == BitsOf(Wide(s[2]), 8) + FileBits(s[3..]);
    assert FileBits(s[1..]) == BitsOf(Wide(s[1]), 8) + FileBits(s[2..]);
    EightDown(w, 24);
    EightDown(w1, 16);
    EightDown(w2, 8);
    EightDown(w3, 0);
    DownNone(0);
  }

  lemma NoBits(w: bv32)
    ensures BitsOf(w, 0) == []
  {
  }

  lemma AllSteps()
    ensures Steps(0xffffffff, 32) == 0xdebb20e3
  {
    OnesStepped();
    hide Steps, Step8;
    MoreSteps(0xffffffff, 24);
    MoreSteps(0x2dfd1072, 16);
    MoreSteps(0xbe26ed00, 8);
    MoreSteps(0xbe26ed, 0);
    NoSteps(0xdebb20e3);
  }

  lemma OnesStepped()
    ensures Step8(0xffffffff) == 0x2dfd1072 && Step8(0x2dfd1072) == 0xbe26ed00
    ensures Step8(0xbe26ed00) == 0xbe26ed && Step8(0xbe26ed) == 0xdebb20e3
  {
  }

  lemma NoSteps(x: bv32)
    ensures Steps(x, 0) == x
  {
  }

  lemma MoreSteps(x: bv32, n: nat)
    ensures Steps(x, n + 8) == Steps(Step8(x), n)
  {
    hide Step;
    var y := Step4(x);
    assert Steps(x, n + 8) == Steps(Step2(x), n + 6) == Steps(y, n + 4) == Steps(Step2(y), n + 2) == Steps(Step4(y), n);
  }

  lemma {:induction false} BitsJoin(f: seq<byte>, g: seq<byte>)
    ensures FileBits(f + g) == FileBits(f) + FileBits(g)
    decreases |f|
  {
    hide BitsOf, Wide;
    if f == [] {
      assert f + g == g;
    } else {
      assert (f + g)[1..] == f[1..] + g;
      BitsJoin(f[1..], g);
    }
  }

  lemma Complement(x: bv32)
    ensures Xor(x, Not(x)) == 0xffffffff && Not(0xdebb20e3) == 0x2144df1c
  {
  }

  /** A file followed by its own checksum, low byte first, has the same checksum whatever the file. */
  lemma Residue(f: seq<byte>)
    ensures Cksum(f + FourOf(Cksum(f))) == 0x2144df1c
  {
    hide Fold, Remainder, Feed, FileBits, BitsOf, Steps, Xor, Down, Not, FourOf;
    var s, g := Remainder(ALL_ONES, f), f + FourOf(Cksum(f));
    CksumIsDivision(f);
    CksumIsDivision(g);
    RemainderIsFeed(ALL_ONES, f);
    RemainderIsFeed(ALL_ONES, g);
    BitsJoin(f, FourOf(Cksum(f)));
    FourBits(Cksum(f));
    FeedAppend(ALL_ONES, FileBits(f), BitsOf(Cksum(f), 32));
    FeedWord(s, Cksum(f), 32);
    Complement(s);
    AllSteps();
  }

  lemma EmptyFile()
    ensures Cksum([]) == 0
  {
  }

  /** The checksum of "123456789". */
  lemma CheckValue()
    ensures Cksum([49, 50, 51, 52, 53, 54, 55, 56, 57]) == 0xcbf43926
  {
    Digits();
    var f: seq<byte> := [49, 50, 51, 52, 53, 54, 55, 56, 57];
    CksumIsDivision(f);
    hide Divide, Fold;
    assert f[1..][1..][1..] == [52, 53, 54, 55, 56, 57] && f[3..] == [52, 53, 54, 55, 56, 57];
    assert f[3..][1..][1..][1..] == [55, 56, 57];
    assert Remainder(0xffffffff, f) == Remainder(0x77b79c2d, [52, 53, 54, 55, 56, 57]);
    assert Remainder(0x77b79c2d, [52, 53, 54, 55, 56, 57]) == Remainder(0xf68d2c9e, [55, 56, 57]);
    assert Remainder(0xf68d2c9e, [55, 56, 57]) == 0x340bc6d9;
  }

  lemma Digits()
    ensures Divide(0xffffffff, 49) == 0x7c231048 && Divide(0x7c231048, 50) == 0xb0acbb32
    ensures Divide(0xb0acbb32, 51) == 0x77b79c2d && Divide(0x77b79c2d, 52) == 0x641c1f5c
    ensures Divide(0x641c1f5c, 53) == 0x340ac5e3 && Divide(0x340ac5e3, 54) == 0xf68d2c9e
    ensures Divide(0xf68d2c9e, 55) == 0xaffc9660 && Divide(0xaffc9660, 56) == 0x651f2550
    ensures Divide(0x651f2550, 57) == 0x340bc6d9
  {
  }
}
