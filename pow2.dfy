/**
 * The two power-of-two helpers of the analysis utilities, at T = 32-bit
 * unsigned (`bv32`). Both work with bit tricks on the machine word; their
 * contracts speak of the word's numeric value `Val(x)` and of powers of two
 * as natural numbers, so that "divides", "odd quotient" and "least power of
 * two at least n" have their ordinary arithmetic meaning.
 */
module PowerOfTwo {

  // ---------------------------------------------------------------------
  // Arithmetic on naturals

  /** v is 1, or an even number whose half is a power of two. */
  ghost predicate IsPow2(v: nat)
    decreases v
  {
    v == 1 || (v > 1 && v % 2 == 0 && IsPow2(v / 2))
  }

  /** Of two distinct powers of two, the smaller is at most half the larger. */
  lemma {:induction false} Pow2Gap(p: nat, q: nat)
    requires IsPow2(p) && IsPow2(q) && p < q
    ensures 2 * p <= q
    decreases q
  {
    if p != 1 {
      Pow2Gap(p / 2, q / 2);
    }
  }

  /** p is the least power of two that is at least n. */
  ghost predicate IsLeastPow2AtLeast(p: nat, n: nat)
  {
    IsPow2(p) && n <= p && forall q: nat :: IsPow2(q) && n <= q ==> p <= q
  }

  /** A power of two in [n, 2n) is the least power of two at least n. */
  lemma LeastPow2(p: nat, n: nat)
    requires IsPow2(p) && n <= p < 2 * n
    ensures IsLeastPow2AtLeast(p, n)
  {
    forall q: nat | IsPow2(q) && n <= q
      ensures p <= q
    {
      if q < p {
        Pow2Gap(q, p);
      }
    }
  }

  /** b divides a exactly q times. */
  lemma DivExact(a: nat, b: nat, q: nat)
    requires b > 0 && a == b * q
    ensures a % b == 0 && a / b == q
  {
    var d, m := a / b, a % b;
    var k: int := q - d;
    assert a == b * d + m && 0 <= m < b;
    assert b * k == m;
    assert k >= 1 ==> b * k >= b;
    assert k <= -1 ==> b * k + b <= 0;
  }

  // ---------------------------------------------------------------------
  // Single bit-vector facts, each kept in a lemma of its own so that the
  // solver meets one of them at a time

  lemma HalfLess(x: bv32)
    requires x != 0
    ensures x >> 1 < x
  {
  }

  lemma LowBitIsZeroOrOne(x: bv32)
    ensures x & 1 == 0 || x & 1 == 1
  {
  }

  lemma Recompose(x: bv32)
    ensures x == ((x >> 1) << 1) | (x & 1)
  {
  }

  lemma EvenNonZeroHalf(x: bv32)
    requires x != 0 && x & 1 == 0
    ensures x >> 1 != 0
  {
  }

  lemma OddZeroHalf(x: bv32)
    requires x & 1 == 1 && x >> 1 == 0
    ensures x == 1
  {
  }

  lemma HalfDecEven(x: bv32)
    requires x != 0 && x & 1 == 0
    ensures (x - 1) >> 1 == (x >> 1) - 1 && (x - 1) & 1 == 1
  {
  }

  lemma HalfDecOdd(x: bv32)
    requires x & 1 == 1
    ensures (x - 1) >> 1 == x >> 1 && (x - 1) & 1 == 0
  {
  }

  lemma SingleBitDouble(x: bv32)
    requires x & 1 == 0 && x >> 1 != 0 && (x >> 1) & ((x >> 1) - 1) == 0
    ensures x != 0 && x & (x - 1) == 0
  {
  }

  lemma SingleBitBound(x: bv32)
    requires x != 0 && x & (x - 1) == 0
    ensures x <= 0x8000_0000
  {
  }

  lemma LowestBitEven(n: bv32)
    requires n != 0 && n & 1 == 0
    ensures (n & !(n - 1)) >> 1 == (n >> 1) & !((n >> 1) - 1)
    ensures (n & !(n - 1)) & 1 == 0
  {
  }

  lemma LowestBitOdd(n: bv32)
    requires n & 1 == 1
    ensures n & !(n - 1) == 1
  {
  }

  lemma LowestBitIsLowest(n: bv32)
    requires n != 0
    ensures n & (n & !(n - 1)) != 0 && n & ((n & !(n - 1)) - 1) == 0
  {
  }

  lemma PredTopClear(n: bv32)
    requires n != 0 && n <= 0x8000_0000
    ensures (n - 1) & 0x8000_0000 == 0
  {
  }

  lemma PredTopSet(n: bv32)
    requires n > 0x8000_0000
    ensures (n - 1) & 0x8000_0000 != 0
  {
  }

  lemma AllOnesTop(m: bv32)
    requires m & (m + 1) == 0
    ensures m & 0x8000_0000 == 0 ==> m + 1 != 0
    ensures m & 0x8000_0000 != 0 ==> m + 1 == 0
  {
  }

  // ---------------------------------------------------------------------
  // The numeric value of a 32-bit word

  /** 1 if the low bit of x is set, else 0. */
  ghost function LowBit(x: bv32): nat
  {
    if x & 1 == 1 then 1 else 0
  }

  /** The value of x as a natural number: its low bit plus twice the value of the rest. */
  ghost function Val(x: bv32): nat
    decreases x
  {
    if x == 0 then 0 else 2 * Val(x >> 1) + LowBit(x)
  }

  lemma ValStep(x: bv32)
    ensures Val(x) == 2 * Val(x >> 1) + LowBit(x)
  {
    if x == 0 {
      assert x >> 1 == 0 && x & 1 == 0;
    }
  }

  lemma {:induction false} ValPositive(x: bv32)
    requires x != 0
    ensures Val(x) > 0
    decreases x
  {
    ValStep(x);
    if x & 1 != 1 {
      EvenNonZeroHalf(x);
      HalfLess(x);
      ValPositive(x >> 1);
    }
  }

  /** Distinct words have distinct values. */
  lemma {:induction false} ValInjective(a: bv32, b: bv32)
    requires Val(a) == Val(b)
    ensures a == b
    decreases Val(a)
  {
    if a == 0 || b == 0 {
      if a != 0 {
        ValPositive(a);
      } else if b != 0 {
        ValPositive(b);
      }
    } else {
      ValStep(a);
      ValStep(b);
      LowBitIsZeroOrOne(a);
      LowBitIsZeroOrOne(b);
      assert LowBit(a) == LowBit(b);
      ValPositive(a);
      ValInjective(a >> 1, b >> 1);
      Recompose(a);
      Recompose(b);
    }
  }

  /** Decrementing a non-zero word decrements its value. */
  lemma {:induction false} ValDecrement(x: bv32)
    requires x != 0
    ensures Val(x - 1) + 1 == Val(x)
    decreases Val(x)
  {
    ValStep(x);
    ValStep(x - 1);
    LowBitIsZeroOrOne(x);
    if x & 1 == 0 {
      HalfDecEven(x);
      EvenNonZeroHalf(x);
      ValPositive(x >> 1);
      ValDecrement(x >> 1);
    } else {
      HalfDecOdd(x);
    }
  }

  /** A word whose value is a power of two has exactly one bit set, so it is at most 2^31. */
  lemma {:induction false} Pow2Word(x: bv32)
    requires IsPow2(Val(x))
    ensures x != 0 && x & (x - 1) == 0 && x <= 0x8000_0000
    decreases Val(x)
  {
    ValStep(x);
    LowBitIsZeroOrOne(x);
    if x != 0 {
      if x & 1 == 1 {
        if x >> 1 != 0 {
          ValPositive(x >> 1);
        }
        OddZeroHalf(x);
      } else {
        EvenNonZeroHalf(x);
        ValPositive(x >> 1);
        Pow2Word(x >> 1);
        SingleBitDouble(x);
      }
      SingleBitBound(x);
    }
  }

  // ---------------------------------------------------------------------
  // highestPowOf2Divisor

  /** The lowest set bit of an even n is twice the lowest set bit of n / 2. */
  lemma LowestSetBitEven(n: bv32)
    requires n != 0 && n & 1 == 0
    requires IsPow2(Val((n >> 1) & !((n >> 1) - 1)))
    requires Val(n >> 1) % Val((n >> 1) & !((n >> 1) - 1)) == 0
    requires (Val(n >> 1) / Val((n >> 1) & !((n >> 1) - 1))) % 2 == 1
    ensures IsPow2(Val(n & !(n - 1)))
    ensures Val(n) % Val(n & !(n - 1)) == 0
    ensures (Val(n) / Val(n & !(n - 1))) % 2 == 1
  {
    var r := n & !(n - 1);
    var m := n >> 1;
    var s := m & !(m - 1);
    ValStep(n);
    ValStep(r);
    LowestBitEven(n);
    assert Val(n) == 2 * Val(m);
    assert Val(r) == 2 * Val(s);
    DoubledOddMultiple(Val(m), Val(s));
  }

  /** Doubling both a number and a power-of-two divisor of it keeps an odd quotient. */
  lemma DoubledOddMultiple(a: nat, p: nat)
    requires IsPow2(p) && a % p == 0 && (a / p) % 2 == 1
    ensures IsPow2(2 * p) && (2 * a) % (2 * p) == 0 && ((2 * a) / (2 * p)) % 2 == 1
  {
    Pow2Double(p);
    var q := a / p;
    ExactQuotient(a, p);
    DoubleFactor(p, q);
    DivExact(2 * a, 2 * p, q);
  }

  lemma Pow2Double(p: nat)
    requires IsPow2(p)
    ensures p > 0 && IsPow2(2 * p)
  {
    assert (2 * p) / 2 == p;
  }

  lemma ExactQuotient(a: nat, p: nat)
    requires p > 0 && a % p == 0
    ensures a == p * (a / p)
  {
  }

  lemma DoubleFactor(p: nat, q: nat)
    ensures 2 * (p * q) == (2 * p) * q
  {
  }

  /** A power of two divides every larger power of two. */
  lemma {:induction false} Pow2DividesLarger(p: nat, q: nat)
    requires IsPow2(p) && IsPow2(q) && p <= q
    ensures q % p == 0
    decreases q
  {
    if p == 1 {
      DivExact(q, 1, q);
    } else {
      Pow2DividesLarger(p / 2, q / 2);
      var k := (q / 2) / (p / 2);
      ExactQuotient(q / 2, p / 2);
      DoubleFactor(p / 2, k);
      DivExact(q, p, k);
    }
  }

  lemma DividesTrans(a: nat, b: nat, c: nat)
    requires b > 0 && c > 0 && a % b == 0 && b % c == 0
    ensures a % c == 0
  {
    var x, y := a / b, b / c;
    ExactQuotient(a, b);
    ExactQuotient(b, c);
    MulAssocNat(c, y, x);
    DivExact(a, c, y * x);
  }

  lemma MulAssocNat(x: nat, y: nat, z: nat)
    ensures (x * y) * z == x * (y * z)
  {
  }

  lemma MoveFactor(p: nat, k: nat)
    ensures (2 * p) * k == p * (2 * k)
  {
  }

  /**
   * A power of two that divides a with an odd quotient is the greatest
   * power of two dividing a: a larger one would leave an even quotient.
   */
  lemma OddQuotientIsGreatest(a: nat, p: nat, q: nat)
    requires IsPow2(p) && a % p == 0 && (a / p) % 2 == 1
    requires IsPow2(q) && a % q == 0
    ensures q <= p
  {
    if q > p {
      Pow2Gap(p, q);
      Pow2Double(p);
      Pow2DividesLarger(2 * p, q);
      DividesTrans(a, q, 2 * p);
      var k := a / (2 * p);
      ExactQuotient(a, 2 * p);
      MoveFactor(p, k);
      DivExact(a, p, 2 * k);
      assert false;
    }
  }

  lemma LowestSetBitOdd(n: bv32)
    requires n & 1 == 1
    ensures Val(n & !(n - 1)) == 1
  {
    LowestBitOdd(n);
    var one: bv32 := 1;
    ValStep(one);
    assert one >> 1 == 0 && one & 1 == 1;
  }

  /**
   * For non-zero n, n & ~(n - 1) is n's lowest set bit: its value is a power
   * of two that divides the value of n with an odd quotient.
   */
  lemma {:induction false} LowestSetBitDivides(n: bv32)
    requires n != 0
    ensures IsPow2(Val(n & !(n - 1)))
    ensures Val(n) % Val(n & !(n - 1)) == 0
    ensures (Val(n) / Val(n & !(n - 1))) % 2 == 1
    decreases Val(n)
  {
    ValStep(n);
    LowBitIsZeroOrOne(n);
    if n & 1 == 0 {
      EvenNonZeroHalf(n);
      ValPositive(n >> 1);
      LowestSetBitDivides(n >> 1);
      LowestSetBitEven(n);
    } else {
      LowestSetBitOdd(n);
      DivExact(Val(n), 1, Val(n));
    }
  }

  /**
   * highestPowOf2Divisor: for non-zero n, the largest power of two dividing
   * n (a power of two r with r | n and n / r odd), which is n's lowest set
   * bit; for n == 0, 1 << (32 - 2).
   */
  function HighestPowOf2Divisor(n: bv32): (r: bv32)
    ensures n == 0 ==> r == 1 << 30
    ensures n != 0 ==> IsPow2(Val(r)) && Val(n) % Val(r) == 0 && (Val(n) / Val(r)) % 2 == 1
    ensures n != 0 ==> n & r != 0 && n & (r - 1) == 0
  {
    if n == 0 then
      1 << 30
    else
      LowestSetBitDivides(n);
      LowestBitIsLowest(n);
      n & !(n - 1)
  }

  /** No power of two dividing a non-zero n exceeds highestPowOf2Divisor(n). */
  lemma HighestPowOf2DivisorIsGreatest(n: bv32, q: nat)
    requires n != 0 && IsPow2(q) && Val(n) % q == 0
    ensures q <= Val(HighestPowOf2Divisor(n))
  {
    var r := HighestPowOf2Divisor(n);
    OddQuotientIsGreatest(Val(n), Val(r), q);
  }

  // ---------------------------------------------------------------------
  // nextPowOf2

  /** All bits from the highest set bit of x downward. */
  function TopMask(x: bv32): (r: bv32)
    ensures r == 0 <==> x == 0
    decreases x
  {
    if x == 0 then 0 else (TopMask(x >> 1) << 1) | 1
  }

  /**
   * t is an all-ones mask that covers x and shares its top bit, and t
   * leaves bit 31 clear when x does.
   */
  predicate MaskCovers(x: bv32, t: bv32)
  {
    && t & (t + 1) == 0
    && x & !t == 0
    && (t & !(t >> 1)) & !x == 0
    && (x & 0x8000_0000 == 0 ==> t & 0x8000_0000 == 0)
  }

  /** TopMask(x) is an all-ones mask that covers x and shares its top bit. */
  lemma {:induction false} TopMaskCovers(x: bv32)
    ensures MaskCovers(x, TopMask(x))
    decreases x
  {
    if x == 0 {
      MaskZero();
    } else {
      HalfLess(x);
      var y := x >> 1;
      TopMaskCovers(y);
      MaskStep(x, TopMask(y), TopMask(x));
    }
  }

  lemma MaskZero()
    ensures MaskCovers(0, 0)
  {
  }

  /** Shifting a covering all-ones mask of x >> 1 up by one bit and setting bit 0 covers x. */
  lemma MaskStep(x: bv32, t: bv32, t': bv32)
    requires x != 0 && t' == (t << 1) | 1
    requires MaskCovers(x >> 1, t)
    ensures MaskCovers(x, t')
  {
    MaskStepAllOnes(t, t');
    MaskStepCovers(x, t, t');
    MaskStepTop(x, t, t');
  }

  lemma MaskStepAllOnes(t: bv32, t': bv32)
    requires t' == (t << 1) | 1 && t & (t + 1) == 0
    ensures t' & (t' + 1) == 0
  {
  }

  lemma MaskStepCovers(x: bv32, t: bv32, t': bv32)
    requires t' == (t << 1) | 1 && (x >> 1) & !t == 0
    ensures x & !t' == 0
  {
  }

  lemma MaskStepTop(x: bv32, t: bv32, t': bv32)
    requires x != 0 && t' == (t << 1) | 1
    requires t & (t + 1) == 0
    requires (x >> 1) & !t == 0
    requires (t & !(t >> 1)) & !(x >> 1) == 0
    ensures (t' & !(t' >> 1)) & !x == 0
    ensures x & 0x8000_0000 == 0 ==> t' & 0x8000_0000 == 0
  {
  }

  /** The value of TopMask(x) is 2^k - 1, at least Val(x) and below 2 * Val(x). */
  lemma {:induction false} TopMaskValue(x: bv32)
    ensures IsPow2(Val(TopMask(x)) + 1)
    ensures Val(x) <= Val(TopMask(x))
    ensures x != 0 ==> Val(TopMask(x)) < 2 * Val(x)
    decreases x
  {
    if x != 0 {
      var y := x >> 1;
      var t := TopMask(y);
      TopMaskValue(y);
      TopMaskCovers(y);
      assert ((t << 1) | 1) >> 1 == t && ((t << 1) | 1) & 1 == 1;
      assert Val(TopMask(x)) == 2 * Val(t) + 1;
      if y != 0 {
        ValPositive(y);
      }
    }
  }

  /**
   * The state between rounds of the smearing loop: x lies within the
   * all-ones mask m and already holds the top i bits of m.
   */
  predicate Smeared(x: bv32, m: bv32, i: bv32)
  {
    && (i == 1 || i == 2 || i == 4 || i == 8 || i == 16 || i == 32)
    && x & !m == 0
    && (m & !(m >> i)) & !x == 0
  }

  lemma SmearStart(x: bv32, m: bv32)
    requires MaskCovers(x, m)
    ensures Smeared(x, m, 1)
  {
  }

  /**
   * One round of the smearing loop: if x lies within the all-ones mask m and
   * already holds the top i bits of m, then x | (x >> i) still lies within m
   * and holds its top 2 * i bits.
   */
  lemma SmearStep(x: bv32, m: bv32, i: bv32, x': bv32, i': bv32)
    requires i < 32 && Smeared(x, m, i)
    requires m & (m + 1) == 0
    requires x' == x | (x >> i) && i' == i << 1
    ensures Smeared(x', m, i')
  {
    if i == 1 {} else if i == 2 {} else if i == 4 {} else if i == 8 {} else {}
  }

  /**
   * One past TopMask(n - 1): for 0 < n <= 2^31 its value is the least power
   * of two at least Val(n); above 2^31 the increment wraps to 0.
   */
  lemma TopMaskSuccessor(n: bv32)
    requires n != 0
    ensures n <= 0x8000_0000 ==> IsLeastPow2AtLeast(Val(TopMask(n - 1) + 1), Val(n))
    ensures n > 0x8000_0000 ==> TopMask(n - 1) + 1 == 0
  {
    var x := n - 1;
    var m := TopMask(x);
    TopMaskCovers(x);
    AllOnesTop(m);
    if n <= 0x8000_0000 {
      PredTopClear(n);
      TopMaskValue(x);
      ValDecrement(n);
      ValDecrement(m + 1);
      LeastPow2(Val(m + 1), Val(n));
    } else {
      PredTopSet(n);
    }
  }

  /** After the last round the mask is complete. */
  lemma SmearDone(x: bv32, m: bv32, i: bv32)
    requires !(i < 32) && Smeared(x, m, i)
    ensures x == m
  {
  }

  /** What nextPowOf2 promises, for r one past TopMask(n - 1). */
  lemma NextPowOf2Result(n: bv32, r: bv32)
    requires n != 0 && r == TopMask(n - 1) + 1
    ensures 0 < n <= 0x8000_0000 ==> IsLeastPow2AtLeast(Val(r), Val(n))
    ensures IsPow2(Val(n)) ==> r == n
    ensures n > 0x8000_0000 ==> r == 0
  {
    TopMaskSuccessor(n);
    if IsPow2(Val(n)) {
      Pow2Word(n);
      ValInjective(r, n);
    }
  }

  /**
   * nextPowOf2: 1 for 0; for 1 <= n <= 2^31 the least power of two at least
   * n, so a power of two maps to itself; and 0 above 2^31, where the final
   * increment wraps around.
   */
  method NextPowOf2(n: bv32) returns (r: bv32)
    ensures n == 0 ==> r == 1
    ensures 0 < n <= 0x8000_0000 ==> IsLeastPow2AtLeast(Val(r), Val(n))
    ensures IsPow2(Val(n)) ==> r == n
    ensures n > 0x8000_0000 ==> r == 0
  {
    if n == 0 {
      return 1;
    }
    var x := n - 1;
    TopMaskCovers(x);
    x := Smear(x, TopMask(x));
    r := x + 1;
    NextPowOf2Result(n, r);
  }

  /**
   * The five rounds x |= x >> i for i = 1, 2, 4, 8, 16 of nextPowOf2: they
   * set every bit below the highest set bit of x.
   */
  method Smear(x0: bv32, ghost m: bv32) returns (x: bv32)
    requires MaskCovers(x0, m)
    ensures x == m
  {
    x := x0;
    var i: bv32 := 1;
    SmearStart(x, m);
    while i < 32
      invariant Smeared(x, m, i)
    {
      var x', i' := x | (x >> i), i << 1;
      SmearStep(x, m, i, x', i');
      x, i := x', i';
    }
    SmearDone(x, m, i);
  }
}
