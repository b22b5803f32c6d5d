/** The constant-product LASSECASH:HBD pool: swaps, deposits in ratio, withdrawals. */
module Pool {
  import opened Units

  const HBD_UNITS_PER_MILLI := 100_000

  function SwapOut(reserveIn: int, reserveOut: int, amountIn: int): Option<int> {
    if reserveIn <= 0 || reserveOut <= 0 || amountIn <= 0 then None
    else
      var denom := AddChecked(reserveIn, amountIn);
      if denom.None? || denom.value <= 0 then None
      else
        var out := MulDiv(reserveOut, amountIn, denom.value);
        if out.None? || out.value <= 0 || out.value >= reserveOut then None else out
  }

  function LPSharesFor(lcIn: int, lcReserve: int, totalShares: int): Option<int> {
    if lcIn <= 0 then None
    else if totalShares <= 0 || lcReserve <= 0 then Some(lcIn)
    else
      var s := MulDiv(totalShares, lcIn, lcReserve);
      if s.None? || s.value <= 0 then None else s
  }

  function HbdRequiredFor(lcIn: int, lcReserve: int, hbdReserve: int): Option<int> {
    if lcIn <= 0 || lcReserve <= 0 || hbdReserve <= 0 then None
    else
      var need := MulDiv(hbdReserve, lcIn, lcReserve);
      if need.None? then None
      else
        var check := MulDiv(need.value, lcReserve, hbdReserve);
        if check.Some? && check.value < lcIn then Some(Wrap64(need.value + 1)) else need
  }

  function WithdrawAmounts(shares: int, totalShares: int, lcReserve: int, hbdReserve: int): Option<(int, int)> {
    if shares <= 0 || totalShares <= 0 || shares > totalShares then None
    else
      var lc, hbd := MulDiv(lcReserve, shares, totalShares), MulDiv(hbdReserve, shares, totalShares);
      if lc.None? || hbd.None? then None else Some((lc.value, hbd.value))
  }

  function HbdPayMilli(units: int): int {
    if units <= 0 then 0 else units / HBD_UNITS_PER_MILLI
  }

  // ----- one swap -----

  /** A swap is the floor of its proportional part, and the product of the reserves never falls. */
  lemma SwapKeepsProduct(reserveIn: int, reserveOut: int, x: int)
    requires 0 < reserveIn <= MAX_AMOUNT && 0 < reserveOut <= MAX_AMOUNT && x <= MAX_AMOUNT
    requires SwapOut(reserveIn, reserveOut, x).Some?
    ensures var out := SwapOut(reserveIn, reserveOut, x).value;
            && 0 < x && reserveIn + x <= MAX_AMOUNT && 0 < out < reserveOut
            && out == reserveOut * x / (reserveIn + x)
            && (reserveIn + x) * (reserveOut - out) >= reserveIn * reserveOut
  {
    hide MulDiv;
    AddCheckedExact(reserveIn, x);
    MulDivFraction(reserveOut, x, reserveIn + x);
    FlooredOutKeepsProduct(reserveIn, reserveOut, x);
  }

  lemma FlooredOutKeepsProduct(reserveIn: int, reserveOut: int, x: int)
    requires 0 < reserveIn + x
    ensures (reserveIn + x) * (reserveOut - reserveOut * x / (reserveIn + x)) >= reserveIn * reserveOut
  {
    var d := reserveIn + x;
    var out := reserveOut * x / d;
    FloorBounds(reserveOut * x, d);
    assert d * (reserveOut - out) == d * reserveOut - out * d;
    assert d * reserveOut == reserveIn * reserveOut + reserveOut * x;
  }

  /**
   * A swap is paid exactly when both sides hold something, the input fits beside its reserve and
   * its part is a unit or more.
   */
  lemma SwapIsPaidExactly(reserveIn: int, reserveOut: int, x: int)
    requires reserveIn <= MAX_AMOUNT && reserveOut <= MAX_AMOUNT && x <= MAX_AMOUNT
    ensures SwapOut(reserveIn, reserveOut, x).Some?
            <==> && reserveIn > 0 && reserveOut > 0 && x > 0 && reserveIn + x <= MAX_AMOUNT
                 && reserveOut * x >= reserveIn + x
  {
    hide MulDiv;
    if reserveIn > 0 && reserveOut > 0 && x > 0 {
      AddCheckedExact(reserveIn, x);
      if reserveIn + x <= MAX_AMOUNT {
        MulDivFraction(reserveOut, x, reserveIn + x);
        QuotientBound(reserveOut * x, reserveIn + x, 1);
        MulMono(reserveOut, x + 1, reserveIn + x);
        QuotientBelow(reserveOut * x, reserveIn + x, reserveOut);
      }
    }
  }

  lemma QuotientBelow(p: nat, d: nat, q: nat)
    requires d > 0 && p < q * d
    ensures p / d < q
  {
    QuotientBound(p, d, q);
  }

  /** Any output that keeps the product is within what one swap of the whole input pays. */
  lemma SwapPaysTheMost(reserveIn: int, reserveOut: int, x: int, taken: int)
    requires 0 < reserveIn && 0 < reserveOut <= MAX_AMOUNT && 0 < x && reserveIn + x <= MAX_AMOUNT
    requires 0 < taken
    requires (reserveIn + x) * (reserveOut - taken) >= reserveIn * reserveOut
    ensures SwapOut(reserveIn, reserveOut, x).Some? && taken <= SwapOut(reserveIn, reserveOut, x).value
  {
    hide MulDiv;
    AddCheckedExact(reserveIn, x);
    MulDivFraction(reserveOut, x, reserveIn + x);
    FlooredOutIsLargest(reserveIn, reserveOut, x, taken);
  }

  lemma FlooredOutIsLargest(reserveIn: int, reserveOut: int, x: int, taken: int)
    requires 0 < reserveIn && 0 < reserveOut && 0 < x && 0 < taken
    requires (reserveIn + x) * (reserveOut - taken) >= reserveIn * reserveOut
    ensures taken <= reserveOut * x / (reserveIn + x) < reserveOut
  {
    var d := reserveIn + x;
    assert d * (reserveOut - taken) == d * reserveOut - taken * d;
    assert d * reserveOut == reserveIn * reserveOut + reserveOut * x;
    MulMono(reserveOut, 0, x);
    QuotientBound(reserveOut * x, d, taken);
    MulMono(reserveOut, 1, reserveIn);
    QuotientBound(reserveOut * x, d, reserveOut);
  }

  /** Consecutive swaps in one direction; none when one of the pieces is refused. */
  function SwapPieces(reserveIn: int, reserveOut: int, pieces: seq<int>): Option<int>
    decreases pieces
  {
    if pieces == [] then Some(0)
    else
      var first := SwapOut(reserveIn, reserveOut, pieces[0]);
      if first.None? then None
      else
        var rest := SwapPieces(reserveIn + pieces[0], reserveOut - first.value, pieces[1..]);
        if rest.None? then None else Some(first.value + rest.value)
  }

  /** `given` went in and `taken` came out without lowering the product of the reserves. */
  ghost predicate KeepsProduct(reserveIn: int, reserveOut: int, given: int, taken: int) {
    && 0 <= given && reserveIn + given <= MAX_AMOUNT && 0 <= taken < reserveOut
    && (reserveIn + given) * (reserveOut - taken) >= reserveIn * reserveOut
  }

  lemma KeepsProductComposes(reserveIn: int, reserveOut: int, g1: int, t1: int, g2: int, t2: int)
    requires KeepsProduct(reserveIn, reserveOut, g1, t1)
    requires KeepsProduct(reserveIn + g1, reserveOut - t1, g2, t2)
    ensures KeepsProduct(reserveIn, reserveOut, g1 + g2, t1 + t2)
  {
    assert reserveIn + g1 + g2 == reserveIn + (g1 + g2) && reserveOut - t1 - t2 == reserveOut - (t1 + t2);
  }

  lemma {:induction false} PiecesKeepProduct(reserveIn: int, reserveOut: int, pieces: seq<int>)
    requires 0 < reserveIn <= MAX_AMOUNT && 0 < reserveOut <= MAX_AMOUNT
    requires forall x | x in pieces :: x <= MAX_AMOUNT
    requires SwapPieces(reserveIn, reserveOut, pieces).Some?
    ensures KeepsProduct(reserveIn, reserveOut, Sum(pieces), SwapPieces(reserveIn, reserveOut, pieces).value)
    ensures pieces != [] ==> 0 < Sum(pieces) && 0 < SwapPieces(reserveIn, reserveOut, pieces).value
    decreases pieces
  {
    hide SwapOut;
    if pieces != [] {
      var x := pieces[0];
      assert x in pieces && forall y | y in pieces[1..] :: y in pieces;
      SwapKeepsProduct(reserveIn, reserveOut, x);
      var out := SwapOut(reserveIn, reserveOut, x).value;
      PiecesKeepProduct(reserveIn + x, reserveOut - out, pieces[1..]);
      var taken' := SwapPieces(reserveIn + x, reserveOut - out, pieces[1..]).value;
      KeepsProductComposes(reserveIn, reserveOut, x, out, Sum(pieces[1..]), taken');
    }
  }

  /**
   * Cutting a swap into pieces never pays more: where the pieces go through, the whole does and
   * pays at least as much.
   */
  lemma SplittingNeverPaysMore(reserveIn: int, reserveOut: int, pieces: seq<int>)
    requires 0 < reserveIn <= MAX_AMOUNT && 0 < reserveOut <= MAX_AMOUNT && pieces != []
    requires forall x | x in pieces :: x <= MAX_AMOUNT
    requires SwapPieces(reserveIn, reserveOut, pieces).Some?
    ensures SwapOut(reserveIn, reserveOut, Sum(pieces)).Some?
    ensures SwapPieces(reserveIn, reserveOut, pieces).value <= SwapOut(reserveIn, reserveOut, Sum(pieces)).value
  {
    hide SwapOut, SwapPieces;
    PiecesKeepProduct(reserveIn, reserveOut, pieces);
    SwapPaysTheMost(reserveIn, reserveOut, Sum(pieces), SwapPieces(reserveIn, reserveOut, pieces).value);
  }

  /** Swapping there and straight back never returns more than went in. */
  lemma RoundTripNeverGains(reserveIn: int, reserveOut: int, x: int)
    requires 0 < reserveIn <= MAX_AMOUNT && 0 < reserveOut <= MAX_AMOUNT && x <= MAX_AMOUNT
    requires SwapOut(reserveIn, reserveOut, x).Some?
    ensures var out := SwapOut(reserveIn, reserveOut, x).value;
            var back := SwapOut(reserveOut - out, reserveIn + x, out);
            back.Some? ==> back.value <= x
  {
    hide SwapOut;
    SwapKeepsProduct(reserveIn, reserveOut, x);
    var out := SwapOut(reserveIn, reserveOut, x).value;
    if SwapOut(reserveOut - out, reserveIn + x, out).Some? {
      SwapKeepsProduct(reserveOut - out, reserveIn + x, out);
      assert reserveOut - out + out == reserveOut;
      NoGainBothWays(reserveIn, reserveOut, x, out, SwapOut(reserveOut - out, reserveIn + x, out).value);
    }
  }

  lemma NoGainBothWays(reserveIn: int, reserveOut: int, x: int, out: int, back: int)
    requires 0 < reserveOut
    requires (reserveIn + x) * (reserveOut - out) >= reserveIn * reserveOut
    requires reserveOut * (reserveIn + x - back) >= (reserveOut - out) * (reserveIn + x)
    ensures back <= x
  {
    var left := reserveIn + x - back;
    assert left * reserveOut >= reserveIn * reserveOut;
    CancelFactor(reserveOut, reserveIn, left);
  }

  // ----- deposits -----

  function CeilDiv(p: int, d: int): int
    requires d > 0
  {
    if p % d == 0 then p / d else p / d + 1
  }

  lemma CeilBounds(p: int, d: int)
    requires d > 0
    ensures (CeilDiv(p, d) - 1) * d < p <= CeilDiv(p, d) * d
    ensures p > 0 ==> CeilDiv(p, d) > 0
  {
    FloorBounds(p, d);
    assert p == p / d * d + p % d;
    assert (p / d - 1) * d == p / d * d - d;
  }

  /**
   * The HBD asked for is exactly the ceiling of hbdReserve * lcIn / lcReserve: it is
   * that ceiling if and only if the ceiling is itself an Amount.
   */
  lemma HbdRequiredIsTheCeiling(lcIn: int, lcReserve: int, hbdReserve: int)
    requires 0 < lcIn <= MAX_AMOUNT && 0 < lcReserve <= MAX_AMOUNT && 0 < hbdReserve <= MAX_AMOUNT
    ensures HbdRequiredFor(lcIn, lcReserve, hbdReserve) == Some(CeilDiv(hbdReserve * lcIn, lcReserve))
            <==> CeilDiv(hbdReserve * lcIn, lcReserve) <= MAX_AMOUNT
  {
    hide MulDiv;
    var p := hbdReserve * lcIn;
    MulDivFloor(hbdReserve, lcIn, lcReserve);
    if p / lcReserve <= MAX_AMOUNT {
      RoundUpTest(lcIn, lcReserve, hbdReserve);
    }
  }

  /** The second MulDiv of HbdRequiredFor tells exactly whether the first one divided evenly. */
  lemma RoundUpTest(lcIn: int, lcReserve: int, hbdReserve: int)
    requires 0 < lcIn <= MAX_AMOUNT && 0 < lcReserve <= MAX_AMOUNT && 0 < hbdReserve <= MAX_AMOUNT
    requires hbdReserve * lcIn / lcReserve <= MAX_AMOUNT
    ensures var check := MulDiv(hbdReserve * lcIn / lcReserve, lcReserve, hbdReserve);
            check.Some? && (check.value < lcIn <==> hbdReserve * lcIn % lcReserve != 0)
  {
    hide MulDiv;
    var need := hbdReserve * lcIn / lcReserve;
    EvenlyDividedTest(lcIn, lcReserve, hbdReserve);
    MulDivFloor(need, lcReserve, hbdReserve);
  }

  lemma EvenlyDividedTest(x: int, d: int, h: int)
    requires 0 < x && 0 < d && 0 < h
    ensures 0 <= h * x / d
    ensures h * x / d * d / h <= x
    ensures h * x / d * d / h < x <==> h * x % d != 0
  {
    var p := h * x;
    var need := p / d;
    MulMono(x, 1, h);
    FloorBounds(p, d);
    var back := need * d;
    assert p == back + p % d;
    FloorMono(back, p, h);
    assert p == x * h && (x + 1) * h == x * h + h;
    FloorUnique(p, h, x);
    MulMono(d, 0, need);
    QuotientBound(back, h, x);
  }

  /** A deposit whose ceiling is 2^63: the increment wraps to the smallest int64. */
  lemma CeilingCanWrap()
    ensures HbdRequiredFor(6_148_914_691_236_517_205, 2, 3) == Some(-TWO_63)
  {
    MulDivFloor(3, 6_148_914_691_236_517_205, 2);
    MulDivFloor(MAX_AMOUNT, 2, 3);
  }

  /** Deposit in ratio, then burn the shares received: never more of either asset than was put in. */
  lemma DepositThenWithdrawNeverGains(lcIn: int, lc: int, hbd: int, total: int)
    requires 0 < lcIn && 0 < lc && 0 < hbd <= MAX_AMOUNT && 0 < total <= MAX_AMOUNT && lc + lcIn <= MAX_AMOUNT
    requires CeilDiv(hbd * lcIn, lc) <= MAX_AMOUNT - hbd
    requires LPSharesFor(lcIn, lc, total).Some? && total + LPSharesFor(lcIn, lc, total).value <= MAX_AMOUNT
    ensures var need, s := HbdRequiredFor(lcIn, lc, hbd), LPSharesFor(lcIn, lc, total).value;
            && need.Some?
            && var out := WithdrawAmounts(s, total + s, lc + lcIn, hbd + need.value);
            && out.Some? && out.value.0 <= lcIn && out.value.1 <= need.value
  {
    hide MulDiv;
    var need := CeilDiv(hbd * lcIn, lc);
    HbdRequiredIsTheCeiling(lcIn, lc, hbd);
    MulMono(lcIn, 1, hbd);
    CeilBounds(hbd * lcIn, lc);
    MulDivFloor(total, lcIn, lc);
    var s := total * lcIn / lc;
    FloorBounds(total * lcIn, lc);
    SharesTimesHbd(lcIn, lc, hbd, total, s, need);
    ShareOfDeposit(lc, lcIn, total, s);
    ShareOfDeposit(hbd, need, total, s);
    MulDivFraction(lc + lcIn, s, total + s);
    MulDivFraction(hbd + need, s, total + s);
  }

  /** Shares are floored and the HBD is rounded up, so the shares claim no more HBD than came with them. */
  lemma SharesTimesHbd(lcIn: int, lc: int, hbd: int, total: int, s: int, need: int)
    requires 0 < lc && 0 < hbd && 0 < total
    requires s * lc <= total * lcIn && hbd * lcIn <= need * lc
    ensures s * hbd <= need * total
  {
    MulMono(hbd, s * lc, total * lcIn);
    MulMono(total, hbd * lcIn, need * lc);
    assert hbd * (s * lc) == s * hbd * lc && total * (need * lc) == need * total * lc;
    assert hbd * (total * lcIn) == total * (hbd * lcIn);
    CancelFactor(lc, s * hbd, need * total);
  }

  lemma ShareOfDeposit(reserve: int, added: int, total: int, s: int)
    requires 0 < total && 0 < s && s * reserve <= added * total
    ensures (reserve + added) * s / (total + s) <= added
  {
    assert (reserve + added) * s <= added * (total + s);
    FloorMono((reserve + added) * s, added * (total + s), total + s);
    FloorUnique(added * (total + s), total + s, added);
  }

  /** A deposit earns its proportion of the shares, floored once; it fails only when that is nothing or does not fit. */
  lemma DepositSharesAreProportional(lcIn: int, lc: int, total: int)
    requires lcIn <= MAX_AMOUNT && lc <= MAX_AMOUNT && total <= MAX_AMOUNT
    ensures var s := LPSharesFor(lcIn, lc, total);
            if lcIn <= 0 then s.None?
            else if lc <= 0 || total <= 0 then s == Some(lcIn)
            else if s.Some? then 0 < s.value && s.value * lc <= total * lcIn < (s.value + 1) * lc
            else total * lcIn < lc || total * lcIn >= TWO_63 * lc
  {
    hide MulDiv;
    if lcIn > 0 && lc > 0 && total > 0 {
      MulDivFloor(total, lcIn, lc);
      FloorBounds(total * lcIn, lc);
      QuotientBound(total * lcIn, lc, 1);
      QuotientBound(total * lcIn, lc, TWO_63);
    }
  }

  /**
   * A withdrawal pays its proportion of each reserve, floored once, and is refused only for
   * shares that are not there.
   */
  lemma WithdrawalIsProportional(shares: int, total: int, lc: int, hbd: int)
    requires 0 < total <= MAX_AMOUNT && 0 <= lc <= MAX_AMOUNT && 0 <= hbd <= MAX_AMOUNT && shares <= MAX_AMOUNT
    ensures WithdrawAmounts(shares, total, lc, hbd).Some? <==> 0 < shares <= total
    ensures var out := WithdrawAmounts(shares, total, lc, hbd);
            out.Some? ==> && out.value.0 * total <= lc * shares < (out.value.0 + 1) * total
                          && out.value.1 * total <= hbd * shares < (out.value.1 + 1) * total
                          && (shares == total ==> out.value == (lc, hbd))
  {
    hide MulDiv;
    if 0 < shares <= total {
      MulDivFraction(lc, shares, total);
      MulDivFraction(hbd, shares, total);
      FloorUnique(lc * total, total, lc);
      FloorUnique(hbd * total, total, hbd);
    }
  }

  // ----- runs -----

  datatype State = State(lc: int, hbd: int, shares: int) {
    predicate Sound() {
      0 < lc <= MAX_AMOUNT && 0 < hbd <= MAX_AMOUNT && 0 < shares <= MAX_AMOUNT
    }
  }

  /** A swap names the least it takes for its input, a deposit the most it gives beside it. */
  datatype Op =
    | SwapLC(lcIn: int, minOut: int)
    | SwapHBD(hbdIn: int, minOut: int)
    | Add(lcIn: int, maxHbd: int)
    | Remove(shares: int)

  predicate InTypes(op: Op) {
    match op
    case SwapLC(x, minOut) => IsInt64(x) && IsInt64(minOut)
    case SwapHBD(x, minOut) => IsInt64(x) && IsInt64(minOut)
    case Add(x, limit) => IsInt64(x) && IsInt64(limit)
    case Remove(s) => IsInt64(s)
  }

  /** One contract call on a seeded pool; a refused call changes nothing. */
  function Apply(p: State, op: Op): State {
    match op
    case SwapLC(x, minOut) =>
      var out := SwapOut(p.lc, p.hbd, x);
      if out.None? || out.value < minOut then p else State(Wrap64(p.lc + x), p.hbd - out.value, p.shares)
    case SwapHBD(x, minOut) =>
      var out := SwapOut(p.hbd, p.lc, x);
      if out.None? || out.value < minOut then p else State(p.lc - out.value, Wrap64(p.hbd + x), p.shares)
    case Add(lcIn, maxHbd) =>
      var need, s := HbdRequiredFor(lcIn, p.lc, p.hbd), LPSharesFor(lcIn, p.lc, p.shares);
      if need.None? || need.value > maxHbd || s.None? || s.value <= 0 then p
      else State(Wrap64(p.lc + lcIn), Wrap64(p.hbd + need.value), Wrap64(p.shares + s.value))
    case Remove(s) =>
      var out := WithdrawAmounts(s, p.shares, p.lc, p.hbd);
      if out.None? then p
      else
        // A payout below one milli-HBD is not sent and stays in the reserve.
        var paid := if out.value.1 > 0 && HbdPayMilli(out.value.1) <= 0 then 0 else out.value.1;
        State(p.lc - out.value.0, p.hbd - paid, p.shares - s)
  }

  /** q is worth at least as much per share as p: lc * hbd / shares^2 compared without dividing. */
  ghost predicate WorthAtLeast(q: State, p: State) {
    q.lc * q.hbd * (p.shares * p.shares) >= p.lc * p.hbd * (q.shares * q.shares)
  }

  lemma SquareRatio(lc: int, hbd: int, s: int, lc': int, hbd': int, s': int)
    requires 0 < lc && 0 < hbd && 0 < s && 0 < lc' && 0 < hbd' && 0 < s'
    requires lc' * s >= lc * s' && hbd' * s >= hbd * s'
    ensures lc' * hbd' * (s * s) >= lc * hbd * (s' * s')
  {
    var a, b, c, d := lc' * s, lc * s', hbd' * s, hbd * s';
    MulMono(c, b, a);
    MulMono(b, d, c);
    assert a * c == lc' * hbd' * (s * s) by { Shuffle(lc', s, hbd', s); }
    assert b * d == lc * hbd * (s' * s') by { Shuffle(lc, s', hbd, s'); }
  }

  lemma Shuffle(a: int, b: int, c: int, d: int)
    ensures (a * b) * (c * d) == a * c * (b * d)
  {
    calc {
      (a * b) * (c * d);
      a * (b * (c * d));
      { assert b * (c * d) == c * (b * d); }
      a * (c * (b * d));
      a * c * (b * d);
    }
  }

  lemma AddKeepsRatio(p: State, lcIn: int, need: int, s: int)
    requires p.Sound() && 0 < lcIn && 0 < s
    requires need == CeilDiv(p.hbd * lcIn, p.lc) && s == p.shares * lcIn / p.lc
    ensures WorthAtLeast(State(p.lc + lcIn, p.hbd + need, p.shares + s), p)
  {
    FloorBounds(p.shares * lcIn, p.lc);
    MulMono(lcIn, 1, p.hbd);
    CeilBounds(p.hbd * lcIn, p.lc);
    SharesTimesHbd(lcIn, p.lc, p.hbd, p.shares, s, need);
    assert (p.lc + lcIn) * p.shares >= p.lc * (p.shares + s);
    assert (p.hbd + need) * p.shares >= p.hbd * (p.shares + s);
    SquareRatio(p.lc, p.hbd, p.shares, p.lc + lcIn, p.hbd + need, p.shares + s);
  }

  lemma RemoveKeepsRatio(p: State, s: int, lcOut: int, hbdOut: int)
    requires p.Sound() && 0 < s < p.shares
    requires 0 <= lcOut && lcOut * p.shares <= p.lc * s && 0 <= hbdOut && hbdOut * p.shares <= p.hbd * s
    requires 0 < p.lc - lcOut && 0 < p.hbd - hbdOut
    ensures WorthAtLeast(State(p.lc - lcOut, p.hbd - hbdOut, p.shares - s), p)
  {
    assert (p.lc - lcOut) * p.shares >= p.lc * (p.shares - s);
    assert (p.hbd - hbdOut) * p.shares >= p.hbd * (p.shares - s);
    SquareRatio(p.lc, p.hbd, p.shares, p.lc - lcOut, p.hbd - hbdOut, p.shares - s);
  }

  lemma ProductKeepsWorth(p: State, q: State)
    requires p.shares == q.shares && q.lc * q.hbd >= p.lc * p.hbd
    ensures WorthAtLeast(q, p)
  {
    MulMono(p.shares * p.shares, p.lc * p.hbd, q.lc * q.hbd);
  }

  lemma RemoveStep(p: State, s: int)
    requires p.Sound() && InTypes(Remove(s)) && Apply(p, Remove(s)).Sound() && Apply(p, Remove(s)) != p
    ensures WorthAtLeast(Apply(p, Remove(s)), p)
  {
    hide MulDiv;
    var q := Apply(p, Remove(s));
    MulDivFraction(p.lc, s, p.shares);
    MulDivFraction(p.hbd, s, p.shares);
    MulMono(p.hbd, 0, s);
    assert (p.hbd - q.hbd) * p.shares <= p.hbd * s by {
      if p.hbd == q.hbd { assert (p.hbd - q.hbd) * p.shares == 0; }
    }
    RemoveKeepsRatio(p, s, p.lc - q.lc, p.hbd - q.hbd);
  }

  /** The deposit is turned away: no amount, an HBD part beyond the limit, or shares that are none or too many. */
  predicate DepositRefused(p: State, lcIn: int, maxHbd: int)
    requires p.lc > 0
  {
    var minted, need := p.shares * lcIn / p.lc, CeilDiv(p.hbd * lcIn, p.lc);
    || lcIn <= 0 || minted == 0 || minted > MAX_AMOUNT
    || p.hbd * lcIn / p.lc > MAX_AMOUNT || maxHbd < need <= MAX_AMOUNT
  }

  /**
   * What a caller can check before a call. Any swap, any withdrawal but of every share,
   * and any deposit that is refused or after which the three figures are Amounts.
   */
  predicate Fits(p: State, op: Op)
    requires p.lc > 0
  {
    match op
    case SwapLC(_, _) => true
    case SwapHBD(_, _) => true
    case Remove(s) => s != p.shares
    case Add(x, maxHbd) =>
      || DepositRefused(p, x, maxHbd)
      || (p.lc + x <= MAX_AMOUNT && p.hbd + CeilDiv(p.hbd * x, p.lc) <= MAX_AMOUNT
          && p.shares + p.shares * x / p.lc <= MAX_AMOUNT)
  }

  lemma RefusedDepositChangesNothing(p: State, x: int, maxHbd: int)
    requires p.Sound() && IsInt64(x) && DepositRefused(p, x, maxHbd)
    ensures Apply(p, Add(x, maxHbd)) == p
  {
    hide MulDiv;
    if x > 0 {
      MulMono(x, 1, p.hbd);
      CeilBounds(p.hbd * x, p.lc);
      HbdRequiredIsTheCeiling(x, p.lc, p.hbd);
      MulDivFloor(p.hbd, x, p.lc);
      MulDivFloor(p.shares, x, p.lc);
    }
  }

  lemma AcceptedDepositIsSoundExactly(p: State, x: int, maxHbd: int)
    requires p.Sound() && IsInt64(x) && IsInt64(maxHbd) && !DepositRefused(p, x, maxHbd)
    ensures Apply(p, Add(x, maxHbd)).Sound() <==> Fits(p, Add(x, maxHbd))
  {
    hide MulDiv, HbdRequiredFor, Wrap64;
    var need, minted := CeilDiv(p.hbd * x, p.lc), p.shares * x / p.lc;
    MulMono(x, 1, p.hbd);
    MulMono(x, 1, p.shares);
    CeilBounds(p.hbd * x, p.lc);
    FloorBounds(p.shares * x, p.lc);
    MulDivFloor(p.shares, x, p.lc);
    HbdRequiredIsTheCeiling(x, p.lc, p.hbd);
    SumStaysPositive(p.lc, x);
    SumStaysPositive(p.shares, minted);
    assert IsInt64(p.lc + x) ==> Wrap64(p.lc + x) == p.lc + x;
    assert IsInt64(p.shares + minted) ==> Wrap64(p.shares + minted) == p.shares + minted;
    if need <= MAX_AMOUNT {
      SumStaysPositive(p.hbd, need);
      assert IsInt64(p.hbd + need) ==> Wrap64(p.hbd + need) == p.hbd + need;
    } else {
      WrappedNeedIsAccepted(p, x);
      WrappedNeedIsUnsound(p, x);
    }
  }

  lemma WrappedNeedIsAccepted(p: State, x: int)
    requires p.Sound() && 0 < x <= MAX_AMOUNT && p.hbd * x / p.lc <= MAX_AMOUNT < CeilDiv(p.hbd * x, p.lc)
    ensures HbdRequiredFor(x, p.lc, p.hbd) == Some(-TWO_63)
  {
    hide MulDiv;
    var need := p.hbd * x / p.lc;
    MulDivFloor(p.hbd, x, p.lc);
    RoundUpTest(x, p.lc, p.hbd);
    assert need == MAX_AMOUNT && Wrap64(need + 1) == -TWO_63;
  }

  /** A sound pool stays sound exactly when the call fits: no swap and no partial withdrawal can ever empty it. */
  lemma StaysSoundExactly(p: State, op: Op)
    requires p.Sound() && InTypes(op)
    ensures Apply(p, op).Sound() <==> Fits(p, op)
  {
    hide SwapOut, HbdRequiredFor, LPSharesFor, MulDiv, DepositRefused;
    match op
    case SwapLC(x, _) => if SwapOut(p.lc, p.hbd, x).Some? { SwapKeepsProduct(p.lc, p.hbd, x); }
    case SwapHBD(x, _) => if SwapOut(p.hbd, p.lc, x).Some? { SwapKeepsProduct(p.hbd, p.lc, x); }
    case Remove(s) =>
      if 0 < s <= p.shares {
        MulDivFraction(p.lc, s, p.shares);
        MulDivFraction(p.hbd, s, p.shares);
        PartLeavesSome(p.lc, s, p.shares);
        PartLeavesSome(p.hbd, s, p.shares);
      }
    case Add(x, maxHbd) =>
      if DepositRefused(p, x, maxHbd) {
        RefusedDepositChangesNothing(p, x, maxHbd);
      } else {
        AcceptedDepositIsSoundExactly(p, x, maxHbd);
      }
  }

  lemma PartLeavesSome(reserve: int, s: int, total: int)
    requires 0 < reserve && 0 < s <= total
    ensures s < total ==> reserve * s / total < reserve
  {
    if s < total {
      MulMono(reserve, s + 1, total);
      QuotientBound(reserve * s, total, reserve);
    }
  }

  /** A deposit that does not fit: the wrapped HBD part is accepted under any limit and leaves a negative reserve. */
  lemma WrappedDepositEmptiesThePool()
    ensures var p, op := State(2, 3, 1), Add(6_148_914_691_236_517_205, 0);
            p.Sound() && InTypes(op) && !Fits(p, op) && Apply(p, op).hbd < 0
  {
    hide HbdRequiredFor, MulDiv;
    CeilingCanWrap();
    MulDivFloor(1, 6_148_914_691_236_517_205, 2);
  }

  /** A call that fits keeps liquidity value per share. */
  lemma StepKeepsWorth(p: State, op: Op)
    requires p.Sound() && InTypes(op) && Fits(p, op)
    ensures Apply(p, op).Sound() && WorthAtLeast(Apply(p, op), p)
  {
    hide SwapOut, WorthAtLeast, HbdRequiredFor, LPSharesFor, WithdrawAmounts, Fits;
    StaysSoundExactly(p, op);
    var q := Apply(p, op);
    ProductKeepsWorth(p, p);
    match op
    case SwapLC(x, _) =>
      if q != p && SwapOut(p.lc, p.hbd, x).Some? {
        SwapKeepsProduct(p.lc, p.hbd, x);
        ProductKeepsWorth(p, q);
      }
    case SwapHBD(x, _) =>
      if q != p && SwapOut(p.hbd, p.lc, x).Some? {
        SwapKeepsProduct(p.hbd, p.lc, x);
        ProductKeepsWorth(p, q);
      }
    case Add(lcIn, maxHbd) => if q != p { AddStep(p, lcIn, maxHbd); }
    case Remove(s) => if q != p { RemoveStep(p, s); }
  }

  lemma AddStep(p: State, lcIn: int, maxHbd: int)
    requires p.Sound() && InTypes(Add(lcIn, maxHbd)) && Apply(p, Add(lcIn, maxHbd)).Sound()
    requires Apply(p, Add(lcIn, maxHbd)) != p
    ensures WorthAtLeast(Apply(p, Add(lcIn, maxHbd)), p)
  {
    hide MulDiv;
    var q := Apply(p, Add(lcIn, maxHbd));
    var ceiling, s := CeilDiv(p.hbd * lcIn, p.lc), LPSharesFor(lcIn, p.lc, p.shares).value;
    HbdRequiredIsTheCeiling(lcIn, p.lc, p.hbd);
    MulDivFloor(p.shares, lcIn, p.lc);
    MulDivFloor(p.hbd, lcIn, p.lc);
    MulMono(lcIn, 1, p.hbd);
    CeilBounds(p.hbd * lcIn, p.lc);
    SumStaysPositive(p.lc, lcIn);
    SumStaysPositive(p.shares, s);
    if ceiling <= MAX_AMOUNT {
      SumStaysPositive(p.hbd, ceiling);
      AddKeepsRatio(p, lcIn, ceiling, s);
    } else {
      WrappedNeedIsUnsound(p, lcIn);
    }
  }

  /** A sum of two non-negative int64 values that wrapped is negative. */
  lemma SumStaysPositive(a: int, b: int)
    requires 0 <= a <= MAX_AMOUNT && 0 <= b <= MAX_AMOUNT
    ensures Wrap64(a + b) > 0 ==> Wrap64(a + b) == a + b
  {
    hide MulDiv;
    if a + b >= TWO_63 { assert Wrap64(a + b) == a + b - TWO_64; }
  }

  lemma WrappedNeedIsUnsound(p: State, lcIn: int)
    requires p.Sound() && 0 < lcIn <= MAX_AMOUNT && CeilDiv(p.hbd * lcIn, p.lc) > MAX_AMOUNT
    requires HbdRequiredFor(lcIn, p.lc, p.hbd).Some?
    ensures Wrap64(p.hbd + HbdRequiredFor(lcIn, p.lc, p.hbd).value) <= 0
  {
    var need := p.hbd * lcIn / p.lc;
    MulDivFloor(p.hbd, lcIn, p.lc);
    assert need == MAX_AMOUNT && p.hbd * lcIn % p.lc != 0;
    RoundUpTest(lcIn, p.lc, p.hbd);
    assert Wrap64(MAX_AMOUNT + 1) == -TWO_63;
  }

  function Run(p: State, ops: seq<Op>): State
    decreases ops
  {
    if ops == [] then p else Run(Apply(p, ops[0]), ops[1..])
  }

  lemma WorthIsTransitive(a: State, b: State, c: State)
    requires a.Sound() && b.Sound() && c.Sound() && WorthAtLeast(b, a) && WorthAtLeast(c, b)
    ensures WorthAtLeast(c, a)
  {
    var ka, kb, kc := a.lc * a.hbd, b.lc * b.hbd, c.lc * c.hbd;
    var sa, sb, sc := a.shares * a.shares, b.shares * b.shares, c.shares * c.shares;
    MulMono(sa, kb * sc, kc * sb);
    MulMono(sc, ka * sb, kb * sa);
    assert (ka * sb) * sc == (ka * sc) * sb && (kb * sa) * sc == (kb * sc) * sa && (kc * sb) * sa == (kc * sa) * sb;
    CancelFactor(sb, ka * sc, kc * sa);
  }

  /** Every call of the run fits the pool it meets: the guard a caller checks, call by call. */
  predicate AllFit(p: State, ops: seq<Op>)
    decreases ops
  {
    ops == [] || (p.lc > 0 && InTypes(ops[0]) && Fits(p, ops[0]) && AllFit(Apply(p, ops[0]), ops[1..]))
  }

  /**
   * Over any run of swaps, deposits and partial withdrawals whose calls fit, the pool stays
   * sound and liquidity value per share never falls.
   */
  lemma {:induction false} ValuePerShareNeverFalls(p: State, ops: seq<Op>)
    requires p.Sound() && AllFit(p, ops)
    ensures Run(p, ops).Sound() && WorthAtLeast(Run(p, ops), p)
    decreases ops
  {
    hide WorthAtLeast, Apply, Fits;
    if ops == [] {
      ProductKeepsWorth(p, p);
    } else {
      var q := Apply(p, ops[0]);
      StepKeepsWorth(p, ops[0]);
      ValuePerShareNeverFalls(q, ops[1..]);
      WorthIsTransitive(p, q, Run(p, ops));
    }
  }

  // ----- what a call moves -----

  /**
   * A swap moves the input in and the floor of its proportional part out, if that is a unit
   * and no less than its caller's least; a deposit moves
   * the amount and the ceiling of the HBD beside it in, and mints the floor of its
   * proportion; a withdrawal moves out the floor of both proportions, except that HBD under
   * a thousandth stays. Everything else is refused and moves nothing.
   */
  lemma CallMovesExactly(p: State, op: Op)
    requires p.Sound() && InTypes(op) && Fits(p, op)
    ensures var q := Apply(p, op);
            match op
            case SwapLC(x, minOut) =>
              if x > 0 && p.lc + x <= MAX_AMOUNT && p.hbd * x >= Max(minOut, 1) * (p.lc + x)
              then q == State(p.lc + x, q.hbd, p.shares) && FloorOf(p.hbd - q.hbd, p.hbd * x, p.lc + x)
              else q == p
            case SwapHBD(x, minOut) =>
              if x > 0 && p.hbd + x <= MAX_AMOUNT && p.lc * x >= Max(minOut, 1) * (p.hbd + x)
              then q == State(q.lc, p.hbd + x, p.shares) && FloorOf(p.lc - q.lc, p.lc * x, p.hbd + x)
              else q == p
            case Add(x, maxHbd) =>
              if DepositRefused(p, x, maxHbd) then q == p
              else && q.lc == p.lc + x && FloorOf(q.shares - p.shares, p.shares * x, p.lc)
                   && FloorOf(p.hbd - q.hbd, -(p.hbd * x), p.lc)
            case Remove(s) =>
              if 0 < s <= p.shares
              then && q.shares == p.shares - s && FloorOf(p.lc - q.lc, p.lc * s, p.shares)
                   && (if p.hbd * s >= 100_000 * p.shares then FloorOf(p.hbd - q.hbd, p.hbd * s, p.shares)
                       else q.hbd == p.hbd)
              else q == p
  {
    hide SwapOut, HbdRequiredFor, LPSharesFor, WithdrawAmounts, MulDiv, DepositRefused, FloorOf;
    match op
    case SwapLC(x, minOut) => SwapMovesExactly(p.lc, p.hbd, x, minOut);
    case SwapHBD(x, minOut) => SwapMovesExactly(p.hbd, p.lc, x, minOut);
    case Add(x, maxHbd) => DepositMovesExactly(p, x, maxHbd);
    case Remove(s) => WithdrawalMovesExactly(p, s);
  }

  lemma SwapMovesExactly(reserveIn: int, reserveOut: int, x: int, minOut: int)
    requires 0 < reserveIn <= MAX_AMOUNT && 0 < reserveOut <= MAX_AMOUNT && IsInt64(x)
    ensures var out := SwapOut(reserveIn, reserveOut, x);
            && (out.Some? && out.value >= minOut
                <==> x > 0 && reserveIn + x <= MAX_AMOUNT && reserveOut * x >= Max(minOut, 1) * (reserveIn + x))
            && (out.Some? ==> && FloorOf(out.value, reserveOut * x, reserveIn + x)
                              && Wrap64(reserveIn + x) == reserveIn + x)
  {
    SwapIsPaidExactly(reserveIn, reserveOut, x);
    if x > 0 && reserveIn + x <= MAX_AMOUNT {
      MulMono(reserveOut, 0, x);
      QuotientBound(reserveOut * x, reserveIn + x, Max(minOut, 1));
      MulMono(reserveIn + x, 1, Max(minOut, 1));
    }
    if SwapOut(reserveIn, reserveOut, x).Some? {
      SwapKeepsProduct(reserveIn, reserveOut, x);
      FloorOfIs(SwapOut(reserveIn, reserveOut, x).value, reserveOut * x, reserveIn + x);
    }
    hide SwapOut, FloorOf;
  }

  lemma DepositMovesExactly(p: State, x: int, maxHbd: int)
    requires p.Sound() && IsInt64(x) && IsInt64(maxHbd) && Fits(p, Add(x, maxHbd))
    ensures var q := Apply(p, Add(x, maxHbd));
            if DepositRefused(p, x, maxHbd) then q == p
            else && q.lc == p.lc + x && FloorOf(q.shares - p.shares, p.shares * x, p.lc)
                 && FloorOf(p.hbd - q.hbd, -(p.hbd * x), p.lc)
  {
    hide HbdRequiredFor, LPSharesFor, MulDiv;
    if DepositRefused(p, x, maxHbd) {
      RefusedDepositChangesNothing(p, x, maxHbd);
    } else {
      AcceptedDepositMoves(p, x, maxHbd);
    }
  }

  lemma AcceptedDepositMoves(p: State, x: int, maxHbd: int)
    requires p.Sound() && IsInt64(x) && IsInt64(maxHbd) && Fits(p, Add(x, maxHbd)) && !DepositRefused(p, x, maxHbd)
    ensures var q := Apply(p, Add(x, maxHbd));
            && q.lc == p.lc + x && FloorOf(q.shares - p.shares, p.shares * x, p.lc)
            && FloorOf(p.hbd - q.hbd, -(p.hbd * x), p.lc)
  {
    hide MulDiv, HbdRequiredFor, Wrap64;
    var need, minted := CeilDiv(p.hbd * x, p.lc), p.shares * x / p.lc;
    MulMono(x, 1, p.hbd);
    MulMono(x, 1, p.shares);
    CeilBounds(p.hbd * x, p.lc);
    MulDivFloor(p.shares, x, p.lc);
    HbdRequiredIsTheCeiling(x, p.lc, p.hbd);
    FloorOfIs(minted, p.shares * x, p.lc);
    FloorMono(0, p.shares * x, p.lc);
    var q := Apply(p, Add(x, maxHbd));
    assert q == State(p.lc + x, p.hbd + need, p.shares + minted);
  }

  lemma WithdrawalMovesExactly(p: State, s: int)
    requires p.Sound() && IsInt64(s)
    ensures var q := Apply(p, Remove(s));
            if 0 < s <= p.shares
            then && q.shares == p.shares - s && FloorOf(p.lc - q.lc, p.lc * s, p.shares)
                 && (if p.hbd * s >= 100_000 * p.shares then FloorOf(p.hbd - q.hbd, p.hbd * s, p.shares)
                     else q.hbd == p.hbd)
            else q == p
  {
    hide MulDiv;
    if 0 < s <= p.shares {
      MulDivFraction(p.lc, s, p.shares);
      MulDivFraction(p.hbd, s, p.shares);
      var lc, hbd := p.lc * s / p.shares, p.hbd * s / p.shares;
      FloorOfIs(lc, p.lc * s, p.shares);
      FloorOfIs(hbd, p.hbd * s, p.shares);
      QuotientBound(p.hbd * s, p.shares, 100_000);
      QuotientBound(hbd, HBD_UNITS_PER_MILLI, 1);
    }
  }
}
