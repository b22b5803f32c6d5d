/** The 64-bit arithmetic every figure of the engine rests on. */
module Units {

  datatype Option<+T> = None | Some(value: T)

  const TWO_63 := 0x8000_0000_0000_0000
  const TWO_64 := 0x1_0000_0000_0000_0000

  /** Amount, Shares and the accumulator are Go int64 values. */
  const MAX_AMOUNT := TWO_63 - 1

  predicate IsInt64(x: int) {
    -TWO_63 <= x < TWO_63
  }

  /** The value an unchecked Go int64 operation leaves when its exact result is x. */
  function Wrap64(x: int): (r: int)
    ensures IsInt64(r)
    ensures IsInt64(x) ==> r == x
  {
    (x + TWO_63) % TWO_64 - TWO_63
  }

  /** The value a Go uint64 holds as an int64 conversion (`int64(x)`, `Amount(x)`). */
  function AsInt64(x: nat): (r: int)
    requires x < TWO_64
    ensures IsInt64(r)
    ensures r == if x < TWO_63 then x else x - TWO_64
  {
    Wrap64(x)
  }

  function Min(a: int, b: int): int { if a <= b then a else b }

  function Max(a: int, b: int): int { if a >= b then a else b }

  function Sum(xs: seq<int>): int { if xs == [] then 0 else xs[0] + Sum(xs[1..]) }

  function Abs(x: int): nat { if x < 0 then -x else x }

  /** |v| as a uint64; none for the one int64 whose magnitude has no positive int64. */
  function AbsU64(v: int): Option<nat> {
    if v == -TWO_63 then None else Some(Abs(v))
  }

  /** Go's `/` on int64: truncation toward zero. */
  function TruncDiv(a: int, b: int): int
    requires b != 0
  {
    if (a < 0) == (b < 0) then Abs(a) / Abs(b) else -(Abs(a) / Abs(b))
  }

  /** Amount.Add: the sum, or none on overflow. */
  function AddChecked(a: int, b: int): Option<int> {
    var s := Wrap64(a + b);
    if (a > 0 && b > 0 && s < 0) || (a < 0 && b < 0 && s >= 0) then None else Some(s)
  }

  /** a*num/den through a 128-bit product held as two 64-bit words. */
  function MulDiv(a: int, num: int, den: int): Option<int> {
    if den == 0 || AbsU64(a).None? || AbsU64(num).None? || AbsU64(den).None? then None
    else
      var x, n, d := Abs(a), Abs(num), Abs(den);
      var hi, lo := (x * n) / TWO_64, (x * n) % TWO_64;
      if hi >= d then None
      else
        var q := (hi * TWO_64 + lo) / d;
        if q > MAX_AMOUNT then None
        else Some(if ((a < 0) != (num < 0)) != (den < 0) then -q else q)
  }

  /** Addition reports overflow exactly when the true sum has no int64. */
  lemma AddCheckedExact(a: int, b: int)
    requires IsInt64(a) && IsInt64(b)
    ensures AddChecked(a, b) == if IsInt64(a + b) then Some(a + b) else None
  {
    if a + b >= TWO_63 {
      assert Wrap64(a + b) == a + b - TWO_64;
    } else if a + b < -TWO_63 {
      assert Wrap64(a + b) == a + b + TWO_64;
    }
  }

  lemma QuotientBound(p: nat, d: nat, bound: nat)
    requires d > 0
    ensures p >= bound * d <==> p / d >= bound
  {
    if p >= bound * d {
      if p / d < bound {
        MulMono(d, p / d + 1, bound);
      }
    } else if p / d >= bound {
      MulMono(d, bound, p / d);
    }
  }

  lemma MulMono(k: nat, a: int, b: int)
    requires a <= b
    ensures k * a <= k * b && a * k <= b * k
  {
  }

  /**
   * The two-word computation returns the truncated exact quotient whenever that
   * quotient fits an Amount, and fails in every other case: division by zero, an
   * operand equal to the smallest int64, or a quotient too large.
   */
  lemma MulDivExact(a: int, num: int, den: int)
    requires IsInt64(a) && IsInt64(num) && IsInt64(den)
    ensures MulDiv(a, num, den).Some? <==>
              && den != 0 && a != -TWO_63 && num != -TWO_63 && den != -TWO_63
              && Abs(TruncDiv(a * num, den)) <= MAX_AMOUNT
    ensures MulDiv(a, num, den).Some? ==> MulDiv(a, num, den).value == TruncDiv(a * num, den)
  {
    if den != 0 && a != -TWO_63 && num != -TWO_63 && den != -TWO_63 {
      var p, d := Abs(a) * Abs(num), Abs(den);
      AbsProduct(a, num);
      SignOfProduct(a, num);
      TwoWords(p, d);
      ZeroDiv(d);
      FloorBounds(p, d);
    }
  }

  /** The two words put back together are the product, and the high one tells whether the quotient needs a third. */
  lemma TwoWords(p: nat, d: nat)
    requires d > 0
    ensures p / TWO_64 * TWO_64 + p % TWO_64 == p
    ensures p / TWO_64 >= d <==> p / d >= TWO_64
  {
    QuotientBound(p, d, TWO_64);
    QuotientBound(p, TWO_64, d);
  }

  lemma CancelFactor(k: int, a: int, b: int)
    requires k > 0 && a * k <= b * k
    ensures a <= b
  {
    if a > b { MulMono(k, b + 1, a); }
  }

  lemma ZeroDiv(d: nat)
    requires d > 0
    ensures 0 / d == 0
  {
  }

  lemma SignOfProduct(a: int, b: int)
    ensures a * b == 0 || ((a * b < 0) <==> ((a < 0) != (b < 0)))
  {
    if a > 0 && b > 0 { assert a * b > 0; }
    if a < 0 && b < 0 { assert a * b > 0; }
    if a > 0 && b < 0 { assert a * b < 0; }
    if a < 0 && b > 0 { assert a * b < 0; }
  }

  lemma AbsProduct(a: int, b: int)
    ensures Abs(a * b) == Abs(a) * Abs(b)
  {
    SignOfProduct(a, b);
    if a < 0 && b < 0 { assert (-a) * (-b) == a * b; }
    if a < 0 && b >= 0 { assert (-a) * b == -(a * b); }
    if a >= 0 && b < 0 { assert a * (-b) == -(a * b); }
  }

  /** The form the accounting paths use: non-negative operands, so the quotient is the floor. */
  lemma MulDivFloor(a: int, num: int, den: int)
    requires 0 <= a <= MAX_AMOUNT && 0 <= num <= MAX_AMOUNT && 0 < den <= MAX_AMOUNT
    ensures a * num >= 0
    ensures MulDiv(a, num, den) == if a * num / den <= MAX_AMOUNT then Some(a * num / den) else None
  {
    MulDivExact(a, num, den);
    MulMono(a, 0, num);
  }

  /** The floor of a proper fraction never exceeds the whole, so it always fits. */
  lemma MulDivFraction(a: int, num: int, den: int)
    requires 0 <= a <= MAX_AMOUNT && 0 <= num <= den <= MAX_AMOUNT && 0 < den
    ensures MulDiv(a, num, den) == Some(a * num / den)
    ensures 0 <= a * num / den <= a
    ensures a * num / den * den <= a * num < (a * num / den + 1) * den
  {
    MulDivFloor(a, num, den);
    FloorBounds(a * num, den);
    MulMono(a, num, den);
    if a * num / den > a { MulMono(den, a + 1, a * num / den); }
  }

  lemma FloorBounds(p: int, d: int)
    requires d > 0
    ensures p / d * d <= p < (p / d + 1) * d
    ensures p >= 0 ==> p / d >= 0
  {
    var q, r := p / d, p % d;
    assert p == q * d + r && 0 <= r < d;
    OneMoreTime(q, d);
    if q < 0 { MulMono(d, q, -1); }
  }

  lemma OneMoreTime(q: int, d: int)
    ensures (q + 1) * d == q * d + d
  {
  }

  /** q is the floor of p/d exactly when it brackets it. */
  lemma FloorUnique(p: int, d: int, q: int)
    requires d > 0 && q * d <= p < (q + 1) * d
    ensures p / d == q
  {
    FloorBounds(p, d);
    if p / d < q { MulMono(d, p / d + 1, q); }
    if p / d > q { MulMono(d, q + 1, p / d); }
  }

  /** q is num / den, rounded down. */
  ghost predicate FloorOf(q: int, num: int, den: int) { den > 0 && q * den <= num < (q + 1) * den }

  lemma FloorOfIs(q: int, num: int, den: int)
    requires den > 0
    ensures FloorOf(q, num, den) <==> q == num / den
  {
    FloorBounds(num, den);
    if FloorOf(q, num, den) { FloorUnique(num, den, q); }
  }

  lemma OneFloor(q1: int, q2: int, num: int, den: int)
    requires FloorOf(q1, num, den) && FloorOf(q2, num, den)
    ensures q1 == q2
  {
    FloorOfIs(q1, num, den);
    FloorOfIs(q2, num, den);
  }

  lemma DivModUnique(a: int, d: int, q: int, r: int)
    requires d > 0 && a == q * d + r && 0 <= r < d
    ensures a / d == q && a % d == r
  {
    assert (q + 1) * d == q * d + d;
    FloorUnique(a, d, q);
  }

  lemma FloorMono(p: int, q: int, d: int)
    requires d > 0 && p <= q
    ensures p / d <= q / d
  {
    FloorBounds(p, d);
    FloorBounds(q, d);
    if p / d > q / d { MulMono(d, q / d + 1, p / d); }
  }

  // ----- powers -----

  function Pow(b: nat, k: nat): nat { if k == 0 then 1 else b * Pow(b, k - 1) }

  lemma {:induction false} PowAdd(b: nat, j: nat, k: nat)
    ensures Pow(b, j + k) == Pow(b, j) * Pow(b, k)
  {
    if j > 0 {
      PowAdd(b, j - 1, k);
      Reassociate(b, Pow(b, j - 1), Pow(b, k));
    }
  }

  lemma Reassociate(x: int, y: int, z: int)
    ensures x * (y * z) == x * y * z
  {
  }
}
