/** Bit arithmetic of `u64`, on natural numbers and by halving. */
module Bits {
  const U64_BITS: nat := 64
  const U64_LIMIT: nat := 0x1_0000_0000_0000_0000
  type u64 = n: nat | n < U64_LIMIT

  function Pow2(e: nat): (p: nat)
    ensures p >= 1
  {
    if e == 0 then 1 else 2 * Pow2(e - 1)
  }

  /** The bits of x from position s up. */
  function High(x: nat, s: nat): nat {
    if s == 0 then x else High(x / 2, s - 1)
  }

  /** `x >> s`. The amount is taken modulo the width, as optimised builds do. */
  function Shr(x: nat, s: nat): nat {
    High(x, s % U64_BITS)
  }

  /** `(x >> i) & 1`. */
  function Bit(x: nat, i: nat): nat {
    High(x, i) % 2
  }

  function Xor(a: nat, b: nat): nat
    decreases a + b
  {
    if a == 0 && b == 0 then 0 else 2 * Xor(a / 2, b / 2) + (if a % 2 != b % 2 then 1 else 0)
  }

  function CountOnes(n: nat): nat {
    if n == 0 then 0 else n % 2 + CountOnes(n / 2)
  }

  function TrailingZeros(n: u64): nat {
    if n == 0 then U64_BITS else if n % 2 == 1 then 0 else 1 + TrailingZeros(n / 2)
  }

  /** Zero bits of `n` above its highest one bit, in a word of `width` bits. */
  function LeadingZeros(n: nat, width: nat): (z: nat)
    ensures z <= width
  {
    if width == 0 || n >= Pow2(width - 1) then 0 else 1 + LeadingZeros(n, width - 1)
  }

  function BitLength(n: nat): nat {
    if n == 0 then 0 else 1 + BitLength(n / 2)
  }

  lemma {:induction false} Pow2Monotone(a: nat, b: nat)
    requires a <= b
    ensures Pow2(a) <= Pow2(b)
    ensures a < b ==> Pow2(a) < Pow2(b)
    decreases b
  {
    if a < b { Pow2Monotone(a, b - 1); }
  }

  lemma Pow2Double(e: nat)
    ensures Pow2(e + 1) == 2 * Pow2(e)
  {
  }

  lemma {:induction false} Pow2Sum(a: nat, b: nat)
    ensures Pow2(a + b) == Pow2(a) * Pow2(b)
  {
    if a > 0 { Pow2Sum(a - 1, b); }
  }

  lemma Pow2Word()
    ensures Pow2(63) == 0x8000_0000_0000_0000 && Pow2(64) == U64_LIMIT
  {
    Pow2Half();
    Pow2Sum(32, 32);
    Pow2Double(63);
  }

  lemma Pow2Half()
    ensures Pow2(32) == 0x1_0000_0000
  {
    assert Pow2(8) == 0x100;
    Pow2Sum(8, 8);
    Pow2Sum(16, 16);
  }

  lemma {:induction false} BitLengthIs(n: nat, e: nat)
    requires Pow2(e) <= n < Pow2(e + 1)
    ensures BitLength(n) == e + 1
  {
    if e > 0 { BitLengthIs(n / 2, e - 1); }
  }

  lemma {:induction false} BitLengthAtMost(n: nat, e: nat)
    ensures BitLength(n) <= e <==> n < Pow2(e)
  {
    if n > 0 && e > 0 { BitLengthAtMost(n / 2, e - 1); }
  }

  /** The position of the highest one bit, counted from either end. */
  lemma {:induction false} LeadingZerosBitLength(n: nat, width: nat)
    requires n < Pow2(width)
    ensures LeadingZeros(n, width) + BitLength(n) == width
  {
    if width > 0 {
      if n >= Pow2(width - 1) {
        BitLengthIs(n, width - 1);
      } else {
        LeadingZerosBitLength(n, width - 1);
      }
    }
  }

  lemma {:induction false} XorBelow(a: nat, b: nat, e: nat)
    requires a < Pow2(e) && b < Pow2(e)
    ensures Xor(a, b) < Pow2(e)
    decreases e
  {
    if e > 0 && (a > 0 || b > 0) { XorBelow(a / 2, b / 2, e - 1); }
  }

  lemma {:induction false} XorZero(a: nat, b: nat)
    ensures Xor(a, b) == 0 <==> a == b
    decreases a + b
  {
    if a > 0 || b > 0 { XorZero(a / 2, b / 2); }
  }

  /** A top bit set on both sides cancels. */
  lemma {:induction false} XorBothHigh(a: nat, b: nat, e: nat)
    requires a < Pow2(e) && b < Pow2(e)
    ensures Xor(a + Pow2(e), b + Pow2(e)) == Xor(a, b)
  {
    if e > 0 {
      HalveHigh(a, e);
      HalveHigh(b, e);
      XorBothHigh(a / 2, b / 2, e - 1);
    }
  }

  /** A top bit set on one side only stays. */
  lemma {:induction false} XorOneHigh(a: nat, b: nat, e: nat)
    requires a < Pow2(e) && b < Pow2(e)
    ensures Pow2(e) <= Xor(a, b + Pow2(e)) < Pow2(e + 1)
  {
    if e == 0 {
      assert Xor(0, 1) == 2 * Xor(0, 0) + 1;
    } else {
      HalveHigh(b, e);
      XorOneHigh(a / 2, b / 2, e - 1);
    }
  }

  /** Numbers that differ only in their low bits agree above them. */
  lemma {:induction false} XorBelowSameHigh(a: nat, b: nat, s: nat)
    requires Xor(a, b) < Pow2(s)
    ensures High(a, s) == High(b, s)
    decreases s
  {
    if s == 0 {
      XorZero(a, b);
    } else {
      XorBelowSameHigh(a / 2, b / 2, s - 1);
    }
  }

  lemma HalveHigh(a: nat, e: nat)
    requires e > 0
    ensures (a + Pow2(e)) / 2 == a / 2 + Pow2(e - 1)
    ensures (a + Pow2(e)) % 2 == a % 2
  {
  }

  /** Shifting by less keeps a higher bit apart. */
  lemma {:induction false} HighSum(a: nat, e: nat, t: nat)
    requires t <= e
    ensures High(a + Pow2(e), t) == High(a, t) + Pow2(e - t)
  {
    if t > 0 {
      HalveHigh(a, e);
      HighSum(a / 2, e - 1, t - 1);
    }
  }

  lemma {:induction false} HighBelow(a: nat, e: nat, t: nat)
    requires t <= e && a < Pow2(e)
    ensures High(a, t) < Pow2(e - t)
  {
    if t > 0 { HighBelow(a / 2, e - 1, t - 1); }
  }

  lemma {:induction false} HighMonotone(a: nat, b: nat, t: nat)
    requires a <= b
    ensures High(a, t) <= High(b, t)
    decreases t
  {
    if t > 0 { HighMonotone(a / 2, b / 2, t - 1); }
  }

  lemma {:induction false} CountOnesHigh(a: nat, e: nat)
    requires a < Pow2(e)
    ensures CountOnes(a + Pow2(e)) == CountOnes(a) + 1
  {
    if e == 0 {
      assert CountOnes(1) == 1 + CountOnes(0);
    } else {
      HalveHigh(a, e);
      CountOnesHigh(a / 2, e - 1);
    }
  }

  lemma {:induction false} CountOnesPositive(a: nat)
    ensures CountOnes(a) == 0 <==> a == 0
  {
    if a > 0 { CountOnesPositive(a / 2); }
  }

  /** Taking one away borrows from just above the trailing zeros. */
  lemma {:induction false} TrailingZerosBorrow(m: u64)
    requires m > 0
    ensures High(m - 1, TrailingZeros(m)) + 1 == High(m, TrailingZeros(m))
  {
    if m % 2 == 0 {
      var t := TrailingZeros(m / 2);
      assert TrailingZeros(m) == t + 1 && High(m, t + 1) == High(m / 2, t);
      assert (m - 1) / 2 == m / 2 - 1 && High(m - 1, t + 1) == High(m / 2 - 1, t);
      TrailingZerosBorrow(m / 2);
    }
  }

  lemma {:induction false} TrailingZerosHigh(m: u64, e: nat)
    requires 0 < m < Pow2(e) && m + Pow2(e) < U64_LIMIT
    ensures TrailingZeros(m + Pow2(e)) == TrailingZeros(m)
  {
    HalveHigh(m, e);
    if m % 2 == 0 { TrailingZerosHigh(m / 2, e - 1); }
  }

  lemma {:induction false} TrailingZerosPow2(e: nat)
    requires Pow2(e) < U64_LIMIT
    ensures TrailingZeros(Pow2(e)) == e
  {
    if e > 0 { TrailingZerosPow2(e - 1); }
  }

  lemma {:induction false} TrailingZerosBelow(m: u64, e: nat)
    requires 0 < m < Pow2(e)
    ensures TrailingZeros(m) < e
  {
    if m % 2 == 0 { TrailingZerosBelow(m / 2, e - 1); }
  }

  /** Adding a power of two above bit i leaves bit i as it was. */
  lemma BitHigh(a: nat, e: nat, i: nat)
    requires i < e
    ensures Bit(a + Pow2(e), i) == Bit(a, i)
  {
    HighSum(a, e, i);
    assert Pow2(e - i) == 2 * Pow2(e - i - 1);
  }

  lemma BitTop(a: nat, e: nat)
    requires a < Pow2(e)
    ensures Bit(a + Pow2(e), e) == 1
    ensures Bit(a, e) == 0
  {
    HighSum(a, e, e);
    HighBelow(a, e, e);
  }
}
