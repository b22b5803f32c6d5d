/** How far the share rate's promise reaches: the one height at which it falls, exactly. */
module RateLimit {
  import opened Units
  import opened LShare
  import opened RateYears

  /** Heights past genesis up to which the rate never falls. */
  const LAST_RISING := 3_922_624_220
  const LAST_YEAR := 373
  const LAST_IN_YEAR := 1_648_220

  /** While the rate fits an Amount the compounding loop computes it and its guard never fires. */
  lemma {:induction false} CompoundedIsGrown(n: nat)
    requires Grown(n) <= MAX_AMOUNT
    ensures CompoundedRate(n) == (Grown(n), false)
  {
    hide MulDiv;
    if n > 0 {
      GrownStep(n - 1);
      CompoundedIsGrown(n - 1);
      MulDivFloor(Grown(n - 1), 107, 100);
    }
  }

  /** Once a year's rate does not fit, the loop stops at the last one that did, for good. */
  lemma {:induction false} StuckFrom(last: nat, n: nat)
    requires Grown(last) <= MAX_AMOUNT < Grown(last + 1) && last < n
    ensures CompoundedRate(n) == (Grown(last), true)
  {
    hide MulDiv;
    if n == last + 1 {
      CompoundedIsGrown(last);
      GrownStep(last);
      MulDivFloor(Grown(last), 107, 100);
    } else {
      StuckFrom(last, n - 1);
    }
  }

  // ----- exactly one height -----

  lemma LastYearFits()
    ensures Grown(LAST_YEAR) <= MAX_AMOUNT < Grown(LAST_YEAR + 1)
  {
    Year373();
    GrownStep(LAST_YEAR);
  }

  /** In year 373 the sum fits up to the last rising height of it, and no further. */
  lemma LastYearSum(frac: nat)
    ensures Grown(LAST_YEAR) + BumpOf(Grown(LAST_YEAR), frac) <= MAX_AMOUNT <==> frac <= LAST_IN_YEAR
    ensures frac == LAST_IN_YEAR ==> BumpOf(Grown(LAST_YEAR), frac) > 0
  {
    Year373();
    var r := Grown(LAST_YEAR);
    if frac <= LAST_IN_YEAR { BumpOfRises(r, frac, LAST_IN_YEAR); } else { BumpOfRises(r, LAST_IN_YEAR + 1, frac); }
  }

  /** The overflow checks pass exactly up to the last rising height. */
  lemma FitsExactlyUpTo(genesis: nat, height: nat)
    ensures RatchetFits(genesis, height) <==> height <= genesis + LAST_RISING
  {
    hide CompoundedRate, BumpOf, Grown;
    if height >= genesis {
      var n, frac := Year(genesis, height), InYear(genesis, height);
      assert height - genesis == n * HEIGHTS_PER_YEAR + frac && frac < HEIGHTS_PER_YEAR;
      LastYearFits();
      if n < LAST_YEAR {
        GrownRises(n + 1, LAST_YEAR);
        GrownRises(n, n + 1);
        CompoundedIsGrown(n);
        SumBelowNextYear(n, frac);
      } else if n == LAST_YEAR {
        CompoundedIsGrown(n);
        LastYearSum(frac);
      } else {
        StuckFrom(LAST_YEAR, n);
      }
    }
  }

  lemma SumBelowNextYear(n: nat, frac: nat)
    requires frac < HEIGHTS_PER_YEAR
    ensures Grown(n) + BumpOf(Grown(n), frac) <= Grown(n + 1)
  {
    hide BumpOf;
    GrownStep(n);
    BumpOfBelowRatchet(Grown(n), frac);
  }

  /** Past the last rising height the rate stands still at its year's base for ever. */
  lemma StandsStill(genesis: nat, height: nat)
    requires height > genesis + LAST_RISING
    ensures ShareRate(genesis, height) == Grown(LAST_YEAR)
  {
    hide CompoundedRate, BumpOf, Grown, Interpolated;
    var n, frac := Year(genesis, height), InYear(genesis, height);
    assert height - genesis == n * HEIGHTS_PER_YEAR + frac && frac < HEIGHTS_PER_YEAR;
    LastYearFits();
    if n == LAST_YEAR {
      CompoundedIsGrown(n);
      LastYearSum(frac);
      GrownRises(0, n);
      InterpolationFits(Grown(n), frac);
    } else {
      StuckFrom(LAST_YEAR, n);
    }
  }

  /**
   * The rate falls at exactly one height of all: from the last one its overflow check
   * lets through, 3,922,624,220 heights past genesis in its 374th year, to the next,
   * where it drops to that year's base.
   */
  lemma RateFallsExactlyOnce(genesis: nat, height: nat)
    ensures ShareRate(genesis, height + 1) < ShareRate(genesis, height) <==> height == genesis + LAST_RISING
  {
    hide ShareRate, CompoundedRate, BumpOf, Grown, RatchetFits;
    FitsExactlyUpTo(genesis, height);
    FitsExactlyUpTo(genesis, height + 1);
    if height < genesis + LAST_RISING {
      RateNeverFalls(genesis, height, height + 1);
    } else {
      StandsStill(genesis, height + 1);
      if height == genesis + LAST_RISING {
        DivModUnique(LAST_RISING, HEIGHTS_PER_YEAR, LAST_YEAR, LAST_IN_YEAR);
        LastYearFits();
        CompoundedIsGrown(LAST_YEAR);
        RateWhenFits(genesis, height);
        LastYearSum(LAST_IN_YEAR);
      } else {
        StandsStill(genesis, height);
      }
    }
  }

  /** Within a year the rate rises in a straight line toward seven percent over its anniversary's, rounded down once. */
  lemma RateRisesInAStraightLine(genesis: nat, years: nat, into: nat)
    requires into < 10_512_000 && years * 10_512_000 + into <= LAST_RISING
    ensures var start := ShareRate(genesis, genesis + years * 10_512_000);
            FloorOf(ShareRate(genesis, genesis + years * 10_512_000 + into) - start,
                    start * 7 * into, 100 * 10_512_000)
  {
    hide CompoundedRate, ShareRate, BumpOf;
    var h0 := genesis + years * 10_512_000;
    FitsExactlyUpTo(genesis, h0);
    FitsExactlyUpTo(genesis, h0 + into);
    DivModUnique(years * 10_512_000, 10_512_000, years, 0);
    DivModUnique(years * 10_512_000 + into, 10_512_000, years, into);
    RateWhenFits(genesis, h0);
    RateWhenFits(genesis, h0 + into);
    BumpIs(ShareRate(genesis, h0), into);
    BumpIs(Base(years), 0);
  }

  lemma BumpIs(rate: int, into: nat)
    ensures FloorOf(BumpOf(rate, into), rate * 7 * into, 100 * 10_512_000)
    ensures BumpOf(rate, 0) == 0
  {
    assert rate * (7 * into) == rate * 7 * into;
    assert rate * (7 * 0) == 0;
    FloorOfIs(BumpOf(rate, into), rate * 7 * into, 100 * 10_512_000);
  }

  ghost predicate NeverFallsUpTo(genesis: nat, limit: nat) {
    forall h1: nat, h2: nat | h1 <= h2 <= limit :: ShareRate(genesis, h1) <= ShareRate(genesis, h2)
  }

  /** The promise to early minters holds up to a height exactly when that is no later than the last rising one. */
  lemma PromiseHoldsExactly(genesis: nat, limit: nat)
    ensures NeverFallsUpTo(genesis, limit) <==> limit <= genesis + LAST_RISING
  {
    hide ShareRate, RatchetFits;
    if limit <= genesis + LAST_RISING {
      forall h1: nat, h2: nat | h1 <= h2 <= limit ensures ShareRate(genesis, h1) <= ShareRate(genesis, h2) {
        FitsExactlyUpTo(genesis, h2);
        RateNeverFalls(genesis, h1, h2);
      }
    } else {
      var last := genesis + LAST_RISING;
      RateFallsExactlyOnce(genesis, last);
      assert ShareRate(genesis, last) > ShareRate(genesis, last + 1);
    }
  }
}
