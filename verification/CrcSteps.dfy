/** Division by the AUTODIN II polynomial, a bit at a time: the algebra of one step. */
module CrcSteps {

  /** x^32 + x^26 + ... + 1 (busybox/cksum.c:19-21), low-order coefficient in the top bit. */
  const POLY: bv32 := 0xedb88320

  function Odd(x: bv32): bool {
    x & 1 == 1
  }

  function Shr(x: bv32): bv32 {
    x >> 1
  }

  function Xor(x: bv32, y: bv32): bv32 {
    x ^ y
  }

  function Step(x: bv32): bv32 {
    if Odd(x) then Xor(Shr(x), POLY) else Shr(x)
  }

  function Step2(x: bv32): bv32 {
    Step(Step(x))
  }

  function Step4(x: bv32): bv32 {
    Step2(Step2(x))
  }

  /** Eight steps: one byte. */
  function Step8(x: bv32): bv32 {
    Step4(Step4(x))
  }

  // ---------- A step is linear ----------

  lemma Parity(x: bv32, y: bv32)
    ensures Odd(Xor(x, y)) <==> Odd(x) != Odd(y)
  {
  }

  lemma ShrLinear(x: bv32, y: bv32)
    ensures Shr(Xor(x, y)) == Xor(Shr(x), Shr(y))
  {
  }

  lemma Both(a: bv32, b: bv32)
    ensures Xor(Xor(a, POLY), Xor(b, POLY)) == Xor(a, b)
  {
  }

  lemma OneSide(a: bv32, b: bv32)
    ensures Xor(Xor(a, POLY), b) == Xor(Xor(a, b), POLY)
    ensures Xor(b, Xor(a, POLY)) == Xor(Xor(b, a), POLY)
  {
  }

  lemma StepLinear(x: bv32, y: bv32)
    ensures Step(Xor(x, y)) == Xor(Step(x), Step(y))
  {
    hide Xor, Shr, Odd, POLY;
    Parity(x, y);
    ShrLinear(x, y);
    Both(Shr(x), Shr(y));
    OneSide(Shr(x), Shr(y));
    OneSide(Shr(y), Shr(x));
  }

  lemma Step2Linear(x: bv32, y: bv32)
    ensures Step2(Xor(x, y)) == Xor(Step2(x), Step2(y))
  {
    hide Xor, Step;
    StepLinear(x, y);
    StepLinear(Step(x), Step(y));
  }

  lemma Step4Linear(x: bv32, y: bv32)
    ensures Step4(Xor(x, y)) == Xor(Step4(x), Step4(y))
  {
    hide Xor, Step2;
    Step2Linear(x, y);
    Step2Linear(Step2(x), Step2(y));
  }

  lemma Step8Linear(x: bv32, y: bv32)
    ensures Step8(Xor(x, y)) == Xor(Step8(x), Step8(y))
  {
    hide Xor, Step4;
    Step4Linear(x, y);
    Step4Linear(Step4(x), Step4(y));
  }

  // ---------- A step can be undone ----------

  /** The top coefficient of the polynomial is 1, so the top bit of a state tells what was divided out. */
  lemma StepInjective(x: bv32, y: bv32)
    requires Step(x) == Step(y)
    ensures x == y
  {
  }

  lemma Step2Injective(x: bv32, y: bv32)
    requires Step2(x) == Step2(y)
    ensures x == y
  {
  }

  lemma Step4Injective(x: bv32, y: bv32)
    requires Step4(x) == Step4(y)
    ensures x == y
  {
    hide Step2;
    Step2Injective(Step2(x), Step2(y));
    Step2Injective(x, y);
  }

  lemma Step8Injective(x: bv32, y: bv32)
    requires Step8(x) == Step8(y)
    ensures x == y
  {
    hide Step4;
    Step4Injective(Step4(x), Step4(y));
    Step4Injective(x, y);
  }
}
