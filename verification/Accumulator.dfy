/** The reward-per-share accumulator: one inflow, and what a holding earned between two readings. */
module Accumulator {
  import opened Units

  const ACC_SCALE := 1_000_000_000_000
  const MIN_SHARES_FOR_ACCRUAL := 10_000_000_000

  /** Advances the accumulator by one inflow; the second result is what stays held. */
  function AccumulatorStep(acc: int, inflow: int, held: int, activeShares: int): (int, int) {
    var total := Wrap64(inflow + held);
    if total <= 0 then (acc, 0)
    else if activeShares < MIN_SHARES_FOR_ACCRUAL then (acc, total)
    else
      match MulDiv(total, ACC_SCALE, activeShares)
      case None => (acc, total)
      case Some(rise) =>
        if rise <= 0 || acc > MAX_AMOUNT - rise then (acc, total) else (acc + rise, 0)
  }

  function Entitlement(shares: int, accStart: int, accEnd: int): int {
    if shares <= 0 || accEnd <= accStart then 0
    else
      match MulDiv(accEnd - accStart, shares, ACC_SCALE)
      case None => 0
      case Some(out) => out
  }

  /**
   * A step hands the active shares no more than came in: the rise times the active
   * shares, plus what stays held, is covered by the inflow and the value held before.
   * It distributes everything or nothing, and when it distributes it loses less than
   * one accumulator unit per share. It distributes exactly when there is something to
   * share out, enough shares to divide by, at least one unit for each, and room for it.
   */
  lemma StepConserves(acc: int, inflow: int, held: int, active: int)
    requires 0 <= acc <= MAX_AMOUNT && 0 <= inflow && 0 <= held && inflow + held <= MAX_AMOUNT
    requires 0 <= active <= MAX_AMOUNT
    ensures var (acc', held') := AccumulatorStep(acc, inflow, held, active);
            && acc <= acc' <= MAX_AMOUNT
            && 0 <= held' <= inflow + held
            && (acc' - acc) * active + held' * ACC_SCALE <= (inflow + held) * ACC_SCALE
            && (acc' == acc ==> held' == inflow + held)
            && (acc' > acc ==> held' == 0 && (inflow + held) * ACC_SCALE < (acc' - acc + 1) * active)
            && (acc' > acc <==>
                  && inflow + held > 0 && active >= MIN_SHARES_FOR_ACCRUAL && (inflow + held) * ACC_SCALE >= active
                  && acc + (inflow + held) * ACC_SCALE / active <= MAX_AMOUNT)
  {
    var total := inflow + held;
    var (acc', held') := AccumulatorStep(acc, inflow, held, active);
    if total > 0 && active >= MIN_SHARES_FOR_ACCRUAL {
      MulDivFloor(total, ACC_SCALE, active);
      FloorBounds(total * ACC_SCALE, active);
      QuotientBound(total * ACC_SCALE, active, 1);
    }
    if acc' == acc {
      assert (acc' - acc) * active == 0;
    }
  }

  /** Entitlement is the product over the scale, floored once, whenever that fits an Amount. */
  lemma EntitlementIsFlooredOnce(shares: int, accStart: int, accEnd: int)
    requires 0 <= shares <= MAX_AMOUNT && 0 <= accStart <= accEnd <= MAX_AMOUNT
    requires shares * (accEnd - accStart) < (MAX_AMOUNT + 1) * ACC_SCALE
    ensures var e := Entitlement(shares, accStart, accEnd);
            0 <= e && e * ACC_SCALE <= shares * (accEnd - accStart) < (e + 1) * ACC_SCALE
  {
    if shares > 0 && accEnd > accStart {
      var p := (accEnd - accStart) * shares;
      MulDivFloor(accEnd - accStart, shares, ACC_SCALE);
      FloorBounds(p, ACC_SCALE);
      QuotientBound(p, ACC_SCALE, MAX_AMOUNT + 1);
    } else {
      assert shares * (accEnd - accStart) == 0;
    }
  }

  /** Whatever the readings, an entitlement never exceeds the value the rise stands for. */
  lemma EntitlementNeverExceeds(shares: int, accStart: int, accEnd: int)
    requires 0 <= shares <= MAX_AMOUNT && 0 <= accStart <= accEnd <= MAX_AMOUNT
    ensures 0 <= Entitlement(shares, accStart, accEnd)
    ensures Entitlement(shares, accStart, accEnd) * ACC_SCALE <= shares * (accEnd - accStart)
  {
    MulMono(shares, 0, accEnd - accStart);
    if shares > 0 && accEnd > accStart {
      MulDivFloor(accEnd - accStart, shares, ACC_SCALE);
      FloorBounds((accEnd - accStart) * shares, ACC_SCALE);
    }
  }
}
