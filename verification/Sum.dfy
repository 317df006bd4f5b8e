/** busybox/sum.c: the sixteen-bit rotate-and-add checksum, and what it detects. */
module Sum {
  const WORD := 0x10000

  /** A sixteen-bit right rotation: the low bit comes back at the top. */
  function Rotate(c: nat): (r: nat)
    requires c < WORD
    ensures r < WORD
  {
    c / 2 + (c % 2) * 0x8000
  }

  type Bits = s: seq<nat> | forall k :: 0 <= k < |s| ==> s[k] < 2

  function Pow2(n: nat): nat {
    if n == 0 then 1 else 2 * Pow2(n - 1)
  }

  /** The number a string of bits stands for, bit 0 first. */
  function Value(bits: Bits): (v: nat)
    ensures v < Pow2(|bits|)
  {
    if bits == [] then 0 else bits[0] + 2 * Value(bits[1..])
  }

  lemma {:induction false} ValueTop(bits: Bits, top: nat)
    requires top < 2
    ensures Value(bits + [top]) == Value(bits) + top * Pow2(|bits|)
  {
    if bits == [] {
      assert (bits + [top])[1..] == [];
    } else {
      assert (bits + [top])[1..] == bits[1..] + [top];
      ValueTop(bits[1..], top);
    }
  }

  lemma SixteenBits()
    ensures Pow2(15) == 0x8000 && Pow2(16) == WORD
  {
    assert Pow2(5) == 32 && Pow2(10) == 1024;
  }

  lemma FirstBit(first: nat, rest: Bits)
    requires first < 2
    ensures Value([first] + rest) == first + 2 * Value(rest)
  {
    assert ([first] + rest)[1..] == rest;
  }

  lemma RotateIs(first: nat, v: nat)
    requires first < 2 && v < 0x8000
    ensures first + 2 * v < WORD && Rotate(first + 2 * v) == v + first * 0x8000
  {
    assert (first + 2 * v) / 2 == v;
  }

  /** On strings of sixteen bits the step is the rotation: the first bit becomes the last. */
  lemma RotateMovesBits(first: nat, rest: Bits)
    requires first < 2 && |rest| == 15
    ensures Value([first] + rest) < WORD && Rotate(Value([first] + rest)) == Value(rest + [first])
  {
    SixteenBits();
    hide Pow2, Value, Rotate;
    FirstBit(first, rest);
    ValueTop(rest, first);
    RotateIs(first, Value(rest));
  }

  /** What one byte does to the sum (busybox/sum.c:46-48). */
  function Mix(c: nat, octet: nat): (r: nat)
    requires c < WORD && octet < 256
    ensures r < WORD
  {
    (Rotate(c) + octet) % WORD
  }

  type Octets = s: seq<nat> | forall k :: 0 <= k < |s| ==> s[k] < 256

  function SumFrom(c: nat, file: Octets): (r: nat)
    requires c < WORD
    ensures r < WORD
    decreases |file|
  {
    if file == [] then c else SumFrom(Mix(c, file[0]), file[1..])
  }

  // ---------- A step can be undone ----------

  lemma RotateInjective(c: nat, d: nat)
    requires c < WORD && d < WORD && Rotate(c) == Rotate(d)
    ensures c == d
  {
  }

  lemma AddInjective(x: nat, y: nat, z: nat)
    requires x < WORD && y < WORD && z < WORD && (x + z) % WORD == (y + z) % WORD
    ensures x == y
  {
  }

  /** For one byte, different states go to different states. */
  lemma MixState(c: nat, d: nat, octet: nat)
    requires c < WORD && d < WORD && octet < 256 && Mix(c, octet) == Mix(d, octet)
    ensures c == d
  {
    AddInjective(Rotate(c), Rotate(d), octet);
    RotateInjective(c, d);
  }

  /** From one state, different bytes go to different states. */
  lemma MixByte(c: nat, a: nat, b: nat)
    requires c < WORD && a < 256 && b < 256 && Mix(c, a) == Mix(c, b)
    ensures a == b
  {
  }

  lemma {:induction false} SumInjective(c: nat, d: nat, file: Octets)
    requires c < WORD && d < WORD && SumFrom(c, file) == SumFrom(d, file)
    ensures c == d
    decreases |file|
  {
    hide Mix;
    if file != [] {
      SumInjective(Mix(c, file[0]), Mix(d, file[0]), file[1..]);
      MixState(c, d, file[0]);
    }
  }

  /** Files that agree in every byte but one have the same sum only if they agree there too. */
  lemma {:induction false} OneByteFrom(c: nat, f: Octets, g: Octets, at: nat)
    requires c < WORD && |f| == |g| && at < |f|
    requires forall k :: 0 <= k < |f| && k != at ==> f[k] == g[k]
    requires SumFrom(c, f) == SumFrom(c, g)
    ensures f[at] == g[at]
    decreases |f|
  {
    hide Mix;
    if at == 0 {
      assert f[1..] == g[1..];
      SumInjective(Mix(c, f[0]), Mix(c, g[0]), f[1..]);
      MixByte(c, f[0], g[0]);
    } else {
      OneByteFrom(Mix(c, f[0]), f[1..], g[1..], at - 1);
    }
  }

  /** Changing one byte of a file always changes its sum. */
  lemma OneByteDetected(f: Octets, g: Octets, at: nat)
    requires |f| == |g| && at < |f|
    requires forall k :: 0 <= k < |f| && k != at ==> f[k] == g[k]
    ensures SumFrom(0, f) == SumFrom(0, g) <==> f == g
  {
    if SumFrom(0, f) == SumFrom(0, g) {
      OneByteFrom(0, f, g, at);
    }
  }

  lemma {:induction false} SumMore(c: nat, file: Octets, octet: nat)
    requires c < WORD && octet < 256
    ensures SumFrom(c, file + [octet]) == Mix(SumFrom(c, file), octet)
    decreases |file|
  {
    hide Mix;
    if file == [] {
      assert (file + [octet])[1..] == [];
    } else {
      assert (file + [octet])[1..] == file[1..] + [octet];
      SumMore(Mix(c, file[0]), file[1..], octet);
    }
  }

  // ---------- Two changed bytes ----------

  lemma {:induction false} SumAppend(c: nat, a: Octets, b: Octets)
    requires c < WORD
    ensures SumFrom(c, a + b) == SumFrom(SumFrom(c, a), b)
    decreases |a|
  {
    hide Mix;
    if a == [] {
      assert a + b == b;
    } else {
      assert (a + b)[1..] == a[1..] + b;
      SumAppend(Mix(c, a[0]), a[1..], b);
    }
  }

  lemma SumAround(file: Octets, j: nat)
    requires j < |file|
    ensures SumFrom(0, file) == SumFrom(Mix(SumFrom(0, file[..j]), file[j]), file[j + 1..])
  {
    hide Mix, SumFrom;
    assert file == file[..j + 1] + file[j + 1..] && file[..j + 1] == file[..j] + [file[j]];
    SumAppend(0, file[..j + 1], file[j + 1..]);
    SumMore(0, file[..j], file[j]);
  }

  lemma SameMod(x: nat, y: nat, a: nat, b: nat)
    ensures (x + a) % WORD == (y + b) % WORD <==> (x - y) % WORD == (b - a) % WORD
  {
    assert x + a == (x - y) - (b - a) + (y + b);
  }

  /**
   * Files that differ at two places, `i` and then `j`, have one sum if and only if the second change makes up for what the
   * first has become by then: the difference of the two sums before `j`, rotated once more.
   */
  lemma TwoBytesIff(f: Octets, g: Octets, i: nat, j: nat)
    requires |f| == |g| && i < j < |f|
    requires forall k :: 0 <= k < |f| && k != i && k != j ==> f[k] == g[k]
    ensures SumFrom(0, f) == SumFrom(0, g) <==>
      (Rotate(SumFrom(0, f[..j])) - Rotate(SumFrom(0, g[..j]))) % WORD == (g[j] - f[j]) % WORD
  {
    hide SumFrom, Rotate;
    SumAround(f, j);
    SumAround(g, j);
    assert f[j + 1..] == g[j + 1..];
    var x, y := SumFrom(0, f[..j]), SumFrom(0, g[..j]);
    if SumFrom(0, f) == SumFrom(0, g) {
      SumInjective(Mix(x, f[j]), Mix(y, g[j]), f[j + 1..]);
    }
    SameMod(Rotate(x), Rotate(y), f[j], g[j]);
  }

  /** The sums before `j`, told from where the files part. */
  lemma SumsBefore(f: Octets, g: Octets, i: nat, j: nat)
    requires |f| == |g| && i < j < |f|
    requires forall k :: 0 <= k < |f| && k != i && k != j ==> f[k] == g[k]
    ensures var c, between := SumFrom(0, f[..i]), f[i + 1..j];
      && SumFrom(0, f[..j]) == SumFrom(Mix(c, f[i]), between)
      && SumFrom(0, g[..j]) == SumFrom(Mix(c, g[i]), between)
  {
    hide SumFrom, Mix;
    SumAround(f[..j], i);
    SumAround(g[..j], i);
    assert f[..j][..i] == g[..j][..i] == f[..i];
    assert f[..j][i + 1..] == g[..j][i + 1..] == f[i + 1..j];
  }

  lemma HalfChange(r: nat, a: nat, a': nat, b: nat, b': nat)
    requires r + a < WORD && r + a' < WORD && a < 256 && a' < 256 && b < 256 && b' < 256
    ensures (Rotate(r + a) - Rotate(r + a')) % WORD == (b' - b) % WORD <==> a + 2 * b == a' + 2 * b'
  {
  }

  lemma NoCarry(c: nat, octet: nat)
    requires c < WORD && octet < 256 && Rotate(c) + octet < WORD
    ensures SumFrom(Mix(c, octet), []) == Rotate(c) + octet
  {
  }

  /** Next to each other, and with no carry out of the sum, a change goes unseen exactly after one twice as large. */
  lemma NextBytesIff(f: Octets, g: Octets, i: nat)
    requires |f| == |g| && i + 1 < |f|
    requires forall k :: 0 <= k < |f| && k != i && k != i + 1 ==> f[k] == g[k]
    requires var r := Rotate(SumFrom(0, f[..i])); r + f[i] < WORD && r + g[i] < WORD
    ensures SumFrom(0, f) == SumFrom(0, g) <==> f[i] + 2 * f[i + 1] == g[i] + 2 * g[i + 1]
  {
    hide *;
    TwoBytesIff(f, g, i, i + 1);
    SumsBefore(f, g, i, i + 1);
    var c := SumFrom(0, f[..i]);
    assert f[i + 1..i + 1] == [];
    NoCarry(c, f[i]);
    NoCarry(c, g[i]);
    HalfChange(Rotate(c), f[i], g[i], f[i + 1], g[i + 1]);
  }

  /** For instance, a two is rotated into the one that comes after it. */
  lemma TwoBytesMissed()
    ensures SumFrom(0, [0, 1]) == SumFrom(0, [2, 0])
  {
  }

  /** The sum of "abc". */
  lemma SumOfAbc()
    ensures SumFrom(0, [97, 98, 99]) == 16556
  {
    assert SumFrom(0, [97, 98, 99]) == SumFrom(97, [98, 99]) == SumFrom(32914, [99]) == 16556;
  }

  /** busybox/sum.c:39-54. */
  method Checksum(file: Octets) returns (checksum: nat)
    ensures checksum < WORD && checksum == SumFrom(0, file)
  {
    checksum := 0;
    for i := 0 to |file|
      invariant checksum < WORD && checksum == SumFrom(0, file[..i])
    {
      SumMore(0, file[..i], file[i]);
      assert file[..i + 1] == file[..i] + [file[i]];
      checksum := checksum / 2 + (checksum % 2) * 0x8000;
      checksum := checksum + file[i];
      checksum := checksum % WORD;
    }
    assert file[..|file|] == file;
  }
}
