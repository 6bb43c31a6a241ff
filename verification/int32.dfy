/** The C# `int` type (System.Int32) and its bitwise exclusive-or, which works
    on the 32-bit two's-complement representation. Exclusive-or is defined
    bit by bit on naturals, so that its laws are proved by induction rather
    than left to the solver's bit-vector theory. */
module Int32 {

  const TWO_TO_THE_32: int := 0x1_0000_0000

  newtype int32 = x: int | -0x8000_0000 <= x < 0x8000_0000

  function Pow2(k: nat): (p: nat)
    ensures p >= 1
  {
    if k == 0 then 1 else 2 * Pow2(k - 1)
  }

  /** Bitwise exclusive-or of two naturals: the low bits are compared, the
      rest are combined recursively. */
  function XorNat(a: nat, b: nat): (x: nat)
    decreases a + b
  {
    if a == 0 && b == 0 then 0
    else 2 * XorNat(a / 2, b / 2) + (if a % 2 == b % 2 then 0 else 1)
  }

  /** Exclusive-or of two `k`-bit numbers is a `k`-bit number. */
  lemma {:induction false} XorNatBound(a: nat, b: nat, k: nat)
    requires a < Pow2(k) && b < Pow2(k)
    ensures XorNat(a, b) < Pow2(k)
  {
    if a == 0 && b == 0 {
    } else {
      assert k > 0;
      XorNatBound(a / 2, b / 2, k - 1);
    }
  }

  /** Applying exclusive-or with the same operand twice gives back the
      other operand. */
  lemma {:induction false} XorNatCancel(a: nat, b: nat)
    ensures XorNat(a, XorNat(a, b)) == b
    decreases a + b
  {
    if a == 0 && b == 0 {
    } else {
      XorNatCancel(a / 2, b / 2);
      var c := XorNat(a, b);
      assert c / 2 == XorNat(a / 2, b / 2);
      assert c % 2 == (if a % 2 == b % 2 then 0 else 1);
    }
  }

  lemma {:induction false} XorNatZero(b: nat)
    ensures XorNat(0, b) == b
    decreases b
  {
    if b != 0 {
      XorNatZero(b / 2);
    }
  }

  lemma {:induction false} XorNatZeroRight(a: nat)
    ensures XorNat(a, 0) == a
    decreases a
  {
    if a != 0 {
      XorNatZeroRight(a / 2);
    }
  }

  lemma {:induction false} Pow2Add(a: nat, b: nat)
    ensures Pow2(a + b) == Pow2(a) * Pow2(b)
  {
    if a > 0 {
      Pow2Add(a - 1, b);
    }
  }

  lemma Pow2ThirtyTwo()
    ensures Pow2(32) == TWO_TO_THE_32
  {
    assert Pow2(8) == 256;
    Pow2Add(8, 8);
    Pow2Add(16, 16);
  }

  /** The two's-complement bit pattern of `x`, read as an unsigned number. */
  function Unsigned(x: int32): (n: nat)
    ensures n < TWO_TO_THE_32
    ensures x >= 0 ==> n == x as int
    ensures x < 0 ==> n == x as int + TWO_TO_THE_32
  {
    if x < 0 then x as int + TWO_TO_THE_32 else x as int
  }

  /** The `int` whose two's-complement bit pattern is `n`. */
  function Signed(n: nat): (x: int32)
    requires n < TWO_TO_THE_32
    ensures Unsigned(x) == n
  {
    if n < 0x8000_0000 then n as int32 else (n - TWO_TO_THE_32) as int32
  }

  /** C# `a ^ b` on two `int` operands. */
  function Xor(a: int32, b: int32): (x: int32)
    ensures Unsigned(x) == XorNat(Unsigned(a), Unsigned(b))
  {
    Pow2ThirtyTwo();
    XorNatBound(Unsigned(a), Unsigned(b), 32);
    Signed(XorNat(Unsigned(a), Unsigned(b)))
  }

  /** Zero is the identity of `^`. */
  lemma XorZero(x: int32)
    ensures Xor(0, x) == x
    ensures Xor(x, 0) == x
  {
    XorNatZero(Unsigned(x));
    XorNatZeroRight(Unsigned(x));
  }

  /** `a ^ (a ^ b) == b`: exclusive-or with a fixed value is its own
      inverse. */
  lemma XorCancel(a: int32, b: int32)
    ensures Xor(a, Xor(a, b)) == b
  {
    XorNatCancel(Unsigned(a), Unsigned(b));
  }

  /** Exclusive-or with a fixed value is injective. */
  lemma XorInjective(a: int32, b: int32, c: int32)
    ensures Xor(a, b) == Xor(a, c) <==> b == c
  {
    if Xor(a, b) == Xor(a, c) {
      XorCancel(a, b);
      XorCancel(a, c);
    }
  }
}
