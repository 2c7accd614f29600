/**
 * The small integer and sequence helpers of Triton's analysis utilities:
 * convertType, product, ceil and reorder.  Machine integers are unbounded
 * here except in ProductAsWritten, which keeps the 32-bit accumulator that
 * std::accumulate uses when it is seeded with the literal 1.
 */
module Utility {

  // ---------------------------------------------------------------------
  // convertType
  // ---------------------------------------------------------------------

  /**
   * convertType: pushes the conversion of each input element onto a fresh
   * vector, in order.  `convert` stands for the constructor call T_OUT(i).
   */
  method ConvertType<TIn, TOut>(input: seq<TIn>, convert: TIn -> TOut) returns (out: seq<TOut>)
    ensures |out| == |input|
    ensures forall i :: 0 <= i < |input| ==> out[i] == convert(input[i])
  {
    out := [];
    for k := 0 to |input|
      invariant |out| == k
      invariant forall i :: 0 <= i < k ==> out[i] == convert(input[i])
    {
      out := out + [convert(input[k])];
    }
  }

  // ---------------------------------------------------------------------
  // product
  // ---------------------------------------------------------------------

  /**
   * product: the left fold ((1 * a0) * a1) * ... of std::accumulate with
   * std::multiplies, on unbounded integers.  It is 0 exactly when some
   * factor is 0, and non-negative factors give a non-negative product.
   */
  function Product(arr: seq<int>): (r: int)
    ensures arr == [] ==> r == 1
    ensures r == 0 <==> exists i :: 0 <= i < |arr| && arr[i] == 0
    ensures (forall i :: 0 <= i < |arr| ==> arr[i] >= 0) ==> r >= 0
    decreases |arr|
  {
    if arr == [] then 1
    else
      var init := arr[..|arr| - 1];
      var p := Product(init);
      assert forall i :: 0 <= i < |init| ==> init[i] == arr[i];
      ZeroProduct(p, arr[|arr| - 1]);
      p * arr[|arr| - 1]
  }

  lemma ZeroProduct(x: int, y: int)
    ensures x * y == 0 <==> x == 0 || y == 0
    ensures x >= 0 && y >= 0 ==> x * y >= 0
  {
  }

  /** The product of a concatenation is the product of the products. */
  lemma {:induction false} ProductConcat(a: seq<int>, b: seq<int>)
    ensures Product(a + b) == Product(a) * Product(b)
    decreases |b|
  {
    if b == [] {
      assert a + b == a;
    } else {
      var b' := b[..|b| - 1];
      var x := b[|b| - 1];
      assert (a + b)[..|a + b| - 1] == a + b';
      ProductConcat(a, b');
      calc {
        Product(a + b);
        Product(a + b') * x;
        (Product(a) * Product(b')) * x;
        { MulAssoc(Product(a), Product(b'), x); }
        Product(a) * (Product(b') * x);
        Product(a) * Product(b);
      }
    }
  }

  lemma MulAssoc(x: int, y: int, z: int)
    ensures (x * y) * z == x * (y * z)
  {
  }

  /** The value of a 32-bit signed int that a 64-bit result is narrowed to (two's complement). */
  function Wrap32(x: int): (r: int)
    ensures -0x8000_0000 <= r < 0x8000_0000
    ensures (r - x) % 0x1_0000_0000 == 0
    ensures -0x8000_0000 <= x < 0x8000_0000 ==> r == x
  {
    (x + 0x8000_0000) % 0x1_0000_0000 - 0x8000_0000
  }

  /** std::accumulate(first, last, acc, std::multiplies{}) with an int accumulator. */
  function AccumulateInt(acc: int, arr: seq<int>): (r: int)
    ensures arr == [] ==> r == acc
    ensures arr != [] ==> InInt32(r)
    decreases |arr|
  {
    if arr == [] then acc else AccumulateInt(Wrap32(acc * arr[0]), arr[1..])
  }

  /**
   * product exactly as written for Int = int64_t: the initial value 1 is an
   * int, so every intermediate product is narrowed to 32 bits.
   */
  function ProductAsWritten(arr: seq<int>): (r: int)
    ensures InInt32(r)
    ensures arr == [] ==> r == 1
  {
    AccumulateInt(1, arr)
  }

  predicate InInt32(x: int)
  {
    -0x8000_0000 <= x < 0x8000_0000
  }

  /**
   * While every partial product fits in an int, the accumulator is exact,
   * so the program's product agrees with the mathematical one.
   */
  lemma {:induction false} AccumulateExact(arr: seq<int>, k: nat)
    requires k <= |arr|
    requires forall j :: 0 <= j <= |arr| ==> InInt32(Product(arr[..j]))
    ensures AccumulateInt(Product(arr[..k]), arr[k..]) == Product(arr)
    decreases |arr| - k
  {
    if k == |arr| {
      assert arr[..k] == arr;
    } else {
      assert arr[..k + 1][..k] == arr[..k];
      assert Product(arr[..k + 1]) == Product(arr[..k]) * arr[k];
      assert InInt32(Product(arr[..k + 1]));
      assert arr[k..][1..] == arr[k + 1..];
      AccumulateExact(arr, k + 1);
    }
  }

  lemma ProductAsWrittenExact(arr: seq<int>)
    requires forall j :: 0 <= j <= |arr| ==> InInt32(Product(arr[..j]))
    ensures ProductAsWritten(arr) == Product(arr)
  {
    assert arr[..0] == [];
    assert arr[0..] == arr;
    AccumulateExact(arr, 0);
  }

  /** A 64-bit shape [65536, 65536] has 2^32 elements, but the int accumulator yields 0. */
  lemma ProductAsWrittenOverflows()
    ensures Product([65536, 65536]) == 0x1_0000_0000
    ensures ProductAsWritten([65536, 65536]) == 0
  {
    assert [65536, 65536][..1] == [65536];
    assert [65536][..0] == [];
    assert [65536, 65536][1..] == [65536];
    assert [65536][1..] == [];
  }

  // ---------------------------------------------------------------------
  // ceil
  // ---------------------------------------------------------------------

  function Abs(x: int): nat
  {
    if x < 0 then -x else x
  }

  /** rem is a remainder of a by b under truncating division: below b in magnitude, zero or of a's sign. */
  predicate TruncRemainder(a: int, b: int, rem: int)
  {
    Abs(rem) < Abs(b) && (rem == 0 || (rem > 0) == (a > 0))
  }

  /** C++ integer division, which truncates towards zero. */
  function TruncDiv(a: int, b: int): (q: int)
    requires b != 0
    ensures TruncRemainder(a, b, a - q * b)
    ensures a >= 0 && b > 0 ==> q == a / b
  {
    var d := Abs(a) / Abs(b);
    var q := if (a < 0) == (b < 0) then d else -d;
    TruncQuotient(a, b, d, q);
    q
  }

  lemma TruncQuotient(a: int, b: int, d: int, q: int)
    requires b != 0 && d == Abs(a) / Abs(b)
    requires q == if (a < 0) == (b < 0) then d else -d
    ensures TruncRemainder(a, b, a - q * b)
  {
    var r0 := Abs(a) % Abs(b);
    EuclidNat(Abs(a), Abs(b));
    var p := d * Abs(b);
    assert Abs(a) == p + r0;
    SignedProduct(d, b);
    var qb := q * b;
    assert qb == (if a < 0 then -p else p);
    if a < 0 {
      assert a - qb == -r0;
    } else {
      assert a - qb == r0;
    }
  }

  lemma EuclidNat(x: nat, y: nat)
    requires y > 0
    ensures x == (x / y) * y + x % y && 0 <= x % y < y
    ensures (x / y) * y >= 0
  {
  }

  lemma SignedProduct(d: int, b: int)
    ensures d * b == (if b < 0 then -(d * Abs(b)) else d * Abs(b))
    ensures (-d) * b == -(d * b)
  {
  }

  /**
   * ceil(m, n) == (m + n - 1) / n with C++ division, for any signs.  For
   * m >= 0 and n > 0 the result is a count of n-sized blocks that covers m,
   * and one block fewer would not.
   */
  function Ceil(m: int, n: int): (r: int)
    requires n != 0
    ensures TruncRemainder(m + n - 1, n, m + n - 1 - r * n)
    ensures m >= 0 && n > 0 ==> r >= 0 && r * n >= m && (r - 1) * n < m
  {
    var r := TruncDiv(m + n - 1, n);
    CeilBounds(m, n);
    r
  }

  lemma CeilBounds(m: int, n: int)
    requires n != 0
    ensures m >= 0 && n > 0 ==>
      var r := (m + n - 1) / n; r >= 0 && r * n >= m && (r - 1) * n < m
  {
    if m >= 0 && n > 0 {
      var a := m + n - 1;
      var r := a / n;
      var rem := a % n;
      assert a == r * n + rem && 0 <= rem < n;
      assert (r - 1) * n == r * n - n;
    }
  }

  /** ceil is the least block count that covers m. */
  lemma CeilLeast(m: int, n: int, k: int)
    requires m >= 0 && n > 0
    requires k * n >= m
    ensures Ceil(m, n) <= k
  {
    var r := Ceil(m, n);
    if r > k {
      assert r - 1 >= k;
      MulMono(k, r - 1, n);
      assert false;
    }
  }

  lemma MulMono(x: int, y: int, n: int)
    requires x <= y && n > 0
    ensures x * n <= y * n
  {
  }

  // ---------------------------------------------------------------------
  // reorder
  // ---------------------------------------------------------------------

  predicate InRange(order: seq<nat>, n: nat)
  {
    forall i :: 0 <= i < |order| ==> order[i] < n
  }

  /** The sequence whose i-th element is input[order[i]]. */
  function Gather<T>(input: seq<T>, order: seq<nat>): (r: seq<T>)
    requires InRange(order, |input|)
    ensures |r| == |order|
    ensures forall i :: 0 <= i < |order| ==> r[i] == input[order[i]]
    decreases |order|
  {
    if order == [] then []
    else Gather(input, order[..|order| - 1]) + [input[order[|order| - 1]]]
  }

  /**
   * reorder: a vector of rank default values, then result[i] := input[order[i]]
   * for every index i of order.  The source asserts that input and order
   * have the same size, and order's values must index input.
   */
  method Reorder<T(0)>(input: seq<T>, order: seq<nat>) returns (result: seq<T>)
    requires |input| == |order|
    requires InRange(order, |input|)
    ensures result == Gather(input, order)
  {
    var rank := |order|;
    var a := new T[rank];
    for k := 0 to rank
      invariant forall i :: 0 <= i < k ==> a[i] == input[order[i]]
    {
      a[k] := input[order[k]];
    }
    result := a[..];
  }

  /** The identity order 0, 1, ..., n - 1. */
  function Iota(n: nat): (r: seq<nat>)
    ensures |r| == n
    ensures forall i :: 0 <= i < n ==> r[i] == i
  {
    if n == 0 then [] else Iota(n - 1) + [n - 1]
  }

  /** Reordering by the identity order returns the input unchanged. */
  lemma GatherIdentity<T>(input: seq<T>)
    ensures InRange(Iota(|input|), |input|)
    ensures Gather(input, Iota(|input|)) == input
  {
  }

  /** Two reorders in a row are one reorder by the composed order. */
  lemma GatherCompose<T>(input: seq<T>, p: seq<nat>, q: seq<nat>)
    requires InRange(p, |input|) && InRange(q, |p|)
    ensures InRange(Gather(p, q), |input|)
    ensures Gather(Gather(input, p), q) == Gather(input, Gather(p, q))
  {
  }

  /** q undoes p: p[q[i]] == i for every index of q. */
  predicate RightInverse(p: seq<nat>, q: seq<nat>)
    requires InRange(q, |p|)
  {
    forall i :: 0 <= i < |q| ==> p[q[i]] == i
  }

  /** Reordering by p and then by an inverse of p restores the input. */
  lemma GatherInverse<T>(input: seq<T>, p: seq<nat>, q: seq<nat>)
    requires |p| == |input| && |q| == |input|
    requires InRange(p, |input|) && InRange(q, |p|)
    requires RightInverse(p, q)
    ensures Gather(Gather(input, p), q) == input
  {
    GatherCompose(input, p, q);
    assert Gather(p, q) == Iota(|input|);
  }
}
