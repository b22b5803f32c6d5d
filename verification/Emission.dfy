/** The issuance schedule: era budgets, cumulative emission, and the three-way split. */
module Emission {
  import opened Units

  const HEIGHTS_PER_ERA := 31_536_000
  const EMISSION_CAP := 20_000_000 * 100_000_000
  const HISTORIC_HARD_CAP := 51_000_000 * 100_000_000

  /** genesis and eraHeights are uint64 in the source, the other fields int64. */
  datatype Schedule = Schedule(genesis: nat, eraHeights: nat, cap: int, reduceNum: int, reduceDen: int) {
    predicate InTypes() {
      genesis < TWO_64 && eraHeights < TWO_64 && IsInt64(cap) && IsInt64(reduceNum) && IsInt64(reduceDen)
    }

    predicate Valid() {
      eraHeights > 0 && cap > 0 && reduceNum > 0 && reduceDen > reduceNum
    }
  }

  function DefaultSchedule(genesis: nat): Schedule {
    Schedule(genesis, HEIGHTS_PER_ERA, EMISSION_CAP, 1, 2)
  }

  function OrZero(v: Option<int>): int { if v.Some? then v.value else 0 }

  function EraBudget(s: Schedule, n: nat): int {
    if n == 0 then OrZero(MulDiv(s.cap, Wrap64(s.reduceDen - s.reduceNum), s.reduceDen))
    else
      var b := EraBudget(s, n - 1);
      if b == 0 then 0 else OrZero(MulDiv(b, s.reduceNum, s.reduceDen))
  }

  method ComputeEraBudget(s: Schedule, n: nat) returns (b: int)
    ensures b == EraBudget(s, n)
  {
    var first := MulDiv(s.cap, Wrap64(s.reduceDen - s.reduceNum), s.reduceDen);
    if first.None? {
      ZeroStays(s, 0, n);
      return 0;
    }
    b := first.value;
    var i := 0;
    while i < n
      invariant 0 <= i <= n
      invariant b == EraBudget(s, i)
    {
      if b == 0 {
        ZeroStays(s, i, n);
        return 0;
      }
      var next := MulDiv(b, s.reduceNum, s.reduceDen);
      if next.None? {
        ZeroStays(s, i + 1, n);
        return 0;
      }
      b := next.value;
      i := i + 1;
    }
  }

  lemma {:induction false} ZeroStays(s: Schedule, i: nat, n: nat)
    requires i <= n && EraBudget(s, i) == 0
    ensures EraBudget(s, n) == 0
  {
    if i < n { ZeroStays(s, i, n - 1); }
  }

  function RewardPerHeight(s: Schedule, n: nat): int
    requires s.eraHeights < TWO_64
  {
    if s.eraHeights == 0 then 0
    else
      var span := AsInt64(s.eraHeights);
      Wrap64(TruncDiv(EraBudget(s, n), span))
  }

  /** The era loop of TotalEmittedAt from era n on: the running total, and whether it returned early. */
  function AddEras(s: Schedule, n: nat, fullEras: nat, total: int): (int, bool)
    requires s.eraHeights < TWO_64
    decreases fullEras - n
  {
    if n >= fullEras then (total, false)
    else
      var per := RewardPerHeight(s, n);
      if per == 0 then (total, true)
      else
        match AddChecked(total, Wrap64(per * AsInt64(s.eraHeights)))
        case None => (total, true)
        case Some(sum) => AddEras(s, n + 1, fullEras, sum)
  }

  function TotalEmittedAt(s: Schedule, height: nat): int
    requires s.eraHeights < TWO_64
  {
    if height <= s.genesis || !s.Valid() then 0
    else
      var elapsed := height - s.genesis;
      var fullEras, remainder := elapsed / s.eraHeights, elapsed % s.eraHeights;
      var (total, ended) := AddEras(s, 0, fullEras, 0);
      if ended then total else AddRemainder(s, fullEras, remainder, total)
  }

  function AddRemainder(s: Schedule, n: nat, remainder: nat, total: int): int
    requires s.eraHeights < TWO_64 && remainder < TWO_64
  {
    var per := RewardPerHeight(s, n);
    if per > 0 && remainder > 0 then
      var sum := AddChecked(total, Wrap64(per * AsInt64(remainder)));
      if sum.Some? then sum.value else total
    else total
  }

  method ComputeTotalEmittedAt(s: Schedule, height: nat) returns (total: int)
    requires s.InTypes() && height < TWO_64
    ensures total == TotalEmittedAt(s, height)
  {
    if height <= s.genesis || !s.Valid() {
      return 0;
    }
    var elapsed := height - s.genesis;
    var fullEras, remainder := elapsed / s.eraHeights, elapsed % s.eraHeights;
    total := 0;
    var n := 0;
    while n < fullEras
      invariant 0 <= n <= fullEras
      invariant AddEras(s, n, fullEras, total) == AddEras(s, 0, fullEras, 0)
    {
      var per := RewardPerHeight(s, n);
      if per == 0 {
        return total;
      }
      var sum := AddChecked(total, Wrap64(per * AsInt64(s.eraHeights)));
      if sum.None? {
        return total;
      }
      total := sum.value;
      n := n + 1;
    }
    var last := RewardPerHeight(s, fullEras);
    if last > 0 && remainder > 0 {
      var sum := AddChecked(total, Wrap64(last * AsInt64(remainder)));
      if sum.Some? {
        total := sum.value;
      }
    }
  }

  function EmissionBetween(s: Schedule, fromHeight: nat, toHeight: nat): int
    requires s.eraHeights < TWO_64
  {
    if toHeight <= fromHeight then 0 else Wrap64(TotalEmittedAt(s, toHeight) - TotalEmittedAt(s, fromHeight))
  }

  // ----- the geometric series stays under the cap -----

  lemma BudgetStep(s: Schedule, n: nat)
    requires s.InTypes() && s.Valid()
    ensures 0 <= EraBudget(s, n) <= s.cap
    ensures EraBudget(s, 0) * s.reduceDen <= s.cap * (s.reduceDen - s.reduceNum)
    ensures EraBudget(s, n + 1) * s.reduceDen <= EraBudget(s, n) * s.reduceNum
    ensures 0 <= EraBudget(s, n + 1) <= EraBudget(s, n)
    decreases n
  {
    if n == 0 {
      MulDivFraction(s.cap, s.reduceDen - s.reduceNum, s.reduceDen);
    } else {
      BudgetStep(s, n - 1);
    }
    var b := EraBudget(s, n);
    if b == 0 {
      if n > 0 { MulDivFraction(s.cap, s.reduceDen - s.reduceNum, s.reduceDen); }
    } else {
      MulDivFraction(b, s.reduceNum, s.reduceDen);
    }
  }

  /**
   * Budgets are exact floors: the first era's part of the cap, then the reduction of the era
   * before, rounding down once.
   */
  lemma BudgetsAreFloors(s: Schedule, n: nat)
    requires s.InTypes() && s.Valid()
    ensures var b, b' := EraBudget(s, n), EraBudget(s, n + 1);
            && (n == 0 ==> b * s.reduceDen <= s.cap * (s.reduceDen - s.reduceNum) < (b + 1) * s.reduceDen)
            && b' * s.reduceDen <= b * s.reduceNum < (b' + 1) * s.reduceDen
  {
    hide MulDiv;
    BudgetStep(s, n);
    MulDivFraction(s.cap, s.reduceDen - s.reduceNum, s.reduceDen);
    MulDivFraction(EraBudget(s, n), s.reduceNum, s.reduceDen);
    if EraBudget(s, n) == 0 { assert 0 * s.reduceNum == 0; }
  }

  /**
   * The reward of a height is its era's budget shared over the era's heights, rounding
   * down, exactly when the era fits an int64 or its negative cast is longer than the budget.
   */
  lemma RewardIsFloored(s: Schedule, n: nat)
    requires s.InTypes() && s.Valid()
    ensures var r := RewardPerHeight(s, n);
            r * s.eraHeights <= EraBudget(s, n) < (r + 1) * s.eraHeights
            <==> ClockFits(s) || EraBudget(s, n) < TWO_64 - s.eraHeights
  {
    BudgetStep(s, n);
    if ClockFits(s) {
      RewardBounds(s, n);
      FloorBounds(EraBudget(s, n), s.eraHeights);
      QuotientSmall(EraBudget(s, n), s.eraHeights);
    } else {
      LongReward(s, n);
      LongQuotient(EraBudget(s, n), s.eraHeights, TWO_64 - s.eraHeights);
    }
  }

  lemma LongQuotient(b: int, e: int, d: int)
    requires 0 <= b < e && d > 0
    ensures var r := -(b / d); r * e <= b < (r + 1) * e <==> b < d
  {
    FloorBounds(b, d);
    QuotientBound(b, d, 1);
    if b >= d {
      MulMono(e, 1 - b / d, 0);
    } else {
      FloorUnique(b, d, 0);
    }
  }

  ghost function BudgetSum(s: Schedule, k: nat): int {
    if k == 0 then 0 else BudgetSum(s, k - 1) + EraBudget(s, k - 1)
  }

  /** What eras 0..k-1 have used plus everything era k could still start never passes the cap. */
  lemma {:induction false} BudgetsStayUnderCap(s: Schedule, k: nat)
    requires s.InTypes() && s.Valid()
    ensures BudgetSum(s, k) * (s.reduceDen - s.reduceNum) + EraBudget(s, k) * s.reduceDen
            <= s.cap * (s.reduceDen - s.reduceNum)
    ensures BudgetSum(s, k) + EraBudget(s, k) <= s.cap
  {
    hide EraBudget;
    var gap, b := s.reduceDen - s.reduceNum, EraBudget(s, k);
    BudgetStep(s, k);
    if k > 0 {
      var prev := EraBudget(s, k - 1);
      BudgetsStayUnderCap(s, k - 1);
      BudgetStep(s, k - 1);
      assert BudgetSum(s, k) * gap == BudgetSum(s, k - 1) * gap + prev * gap by {
        Distribute(BudgetSum(s, k - 1), prev, gap);
      }
      assert prev * gap + prev * s.reduceNum == prev * s.reduceDen by { Distribute2(prev, gap, s.reduceNum); }
    }
    MulMono(b, gap, s.reduceDen);
    Distribute(BudgetSum(s, k), b, gap);
    if BudgetSum(s, k) + b > s.cap { MulMono(gap, s.cap + 1, BudgetSum(s, k) + b); Distribute(s.cap, 1, gap); }
  }

  lemma Distribute(a: int, b: int, k: int)
    ensures (a + b) * k == a * k + b * k
  {
  }

  lemma Distribute2(k: int, a: int, b: int)
    ensures k * a + k * b == k * (a + b)
  {
  }

  ghost function EraSum(s: Schedule, k: nat): int
    requires s.eraHeights < TWO_64
  {
    if k == 0 then 0 else EraSum(s, k - 1) + RewardPerHeight(s, k - 1) * s.eraHeights
  }

  /** The clock fits the int64 the code converts it to. */
  predicate ClockFits(s: Schedule) { s.eraHeights < TWO_63 }

  lemma RewardBounds(s: Schedule, n: nat)
    requires s.InTypes() && s.Valid() && ClockFits(s)
    ensures 0 <= RewardPerHeight(s, n) <= EraBudget(s, n)
    ensures 0 <= RewardPerHeight(s, n) * s.eraHeights <= EraBudget(s, n)
    ensures RewardPerHeight(s, n + 1) <= RewardPerHeight(s, n)
  {
    BudgetStep(s, n);
    BudgetStep(s, n + 1);
    var b, b', e := EraBudget(s, n), EraBudget(s, n + 1), s.eraHeights;
    FloorBounds(b, e);
    FloorMono(b', b, e);
    assert RewardPerHeight(s, n) == b / e by { QuotientSmall(b, e); }
    assert RewardPerHeight(s, n + 1) == b' / e by { QuotientSmall(b', e); }
    QuotientSmall(b, e);
  }

  lemma QuotientSmall(b: nat, e: nat)
    requires e > 0
    ensures 0 <= b / e <= b
  {
    FloorBounds(b, e);
    if b / e > b { MulMono(b / e, 1, e); }
  }

  lemma {:induction false} EraSumBounds(s: Schedule, k: nat)
    requires s.InTypes() && s.Valid() && ClockFits(s)
    ensures 0 <= EraSum(s, k) <= BudgetSum(s, k) <= s.cap
  {
    BudgetsStayUnderCap(s, k);
    BudgetStep(s, k);
    if k > 0 {
      EraSumBounds(s, k - 1);
      RewardBounds(s, k - 1);
    }
  }

  lemma {:induction false} RewardMonotone(s: Schedule, m: nat, n: nat)
    requires s.InTypes() && s.Valid() && ClockFits(s) && m <= n
    ensures 0 <= RewardPerHeight(s, n) <= RewardPerHeight(s, m)
  {
    RewardBounds(s, m);
    if m < n {
      RewardMonotone(s, m, n - 1);
      RewardBounds(s, n - 1);
      RewardBounds(s, n);
    }
  }

  lemma {:induction false} EraSumFlat(s: Schedule, m: nat, n: nat)
    requires s.InTypes() && s.Valid() && ClockFits(s) && m <= n
    requires RewardPerHeight(s, m) == 0
    ensures EraSum(s, n) == EraSum(s, m)
  {
    hide RewardPerHeight;
    if m < n {
      EraSumFlat(s, m, n - 1);
      RewardMonotone(s, m, n - 1);
    }
  }

  /** The early returns of the era loop lose nothing: it computes the plain sum of the eras. */
  lemma AddErasIsEraSum(s: Schedule, n: nat, fullEras: nat)
    requires s.InTypes() && s.Valid() && ClockFits(s) && n <= fullEras
    ensures AddEras(s, n, fullEras, EraSum(s, n)).0 == EraSum(s, fullEras)
    ensures AddEras(s, n, fullEras, EraSum(s, n)).1 ==> RewardPerHeight(s, fullEras) == 0
    decreases fullEras - n
  {
    hide RewardPerHeight, EraBudget, AddChecked;
    if n < fullEras {
      var per := RewardPerHeight(s, n);
      RewardBounds(s, n);
      if per == 0 {
        EraSumFlat(s, n, fullEras);
        RewardMonotone(s, n, fullEras);
      } else {
        BudgetStep(s, n);
        EraSumBounds(s, n);
        EraSumBounds(s, n + 1);
        AddCheckedExact(EraSum(s, n), per * s.eraHeights);
        AddErasIsEraSum(s, n + 1, fullEras);
      }
    }
  }

  /** Where an era fits an int64: whole eras, then a straight line inside the current one. */
  lemma FittingClosedForm(s: Schedule, height: nat)
    requires s.InTypes() && s.Valid() && ClockFits(s) && s.genesis <= height
    ensures var elapsed := height - s.genesis;
            var n := elapsed / s.eraHeights;
            TotalEmittedAt(s, height) == EraSum(s, n) + RewardPerHeight(s, n) * (elapsed % s.eraHeights)
    ensures 0 <= TotalEmittedAt(s, height) <= s.cap
  {
    var elapsed := height - s.genesis;
    var n, rem := elapsed / s.eraHeights, elapsed % s.eraHeights;
    var per := RewardPerHeight(s, n);
    AddErasIsEraSum(s, 0, n);
    RewardBounds(s, n);
    EraSumBounds(s, n);
    BudgetsStayUnderCap(s, n);
    BudgetStep(s, n);
    MulMono(per, rem, s.eraHeights);
    MulMono(per, 0, rem);
    AddCheckedExact(EraSum(s, n), per * rem);
    if elapsed == 0 { DivZero(s.eraHeights); }
  }

  lemma DivZero(d: nat)
    requires d > 0
    ensures 0 / d == 0 && 0 % d == 0
  {
  }

  /** Inside one era, both ends included, emission is the era's reward times the heights passed. */
  lemma StraightInsideEra(s: Schedule, n: nat, from: nat, to: nat)
    requires s.InTypes() && s.Valid() && ClockFits(s)
    requires s.genesis + n * s.eraHeights <= from <= to <= s.genesis + (n + 1) * s.eraHeights
    ensures TotalEmittedAt(s, to) - TotalEmittedAt(s, from) == RewardPerHeight(s, n) * (to - from)
  {
    var per := RewardPerHeight(s, n);
    AtOffset(s, n, from);
    AtOffset(s, n, to);
    var base := s.genesis + n * s.eraHeights;
    Distribute2(per, to - from, from - base);
  }

  lemma AtOffset(s: Schedule, n: nat, h: nat)
    requires s.InTypes() && s.Valid() && ClockFits(s)
    requires s.genesis + n * s.eraHeights <= h <= s.genesis + (n + 1) * s.eraHeights
    ensures TotalEmittedAt(s, h)
            == EraSum(s, n) + RewardPerHeight(s, n) * (h - s.genesis - n * s.eraHeights)
  {
    hide RewardPerHeight, TotalEmittedAt;
    var e := s.eraHeights;
    MulMono(e, 0, n);
    var elapsed := h - s.genesis;
    Distribute(n, 1, e);
    if elapsed == (n + 1) * e {
      DivModUnique(elapsed, e, n + 1, 0);
      FittingClosedForm(s, h);
      assert EraSum(s, n + 1) == EraSum(s, n) + RewardPerHeight(s, n) * e;
    } else {
      DivModUnique(elapsed, e, n, elapsed - n * e);
      FittingClosedForm(s, h);
    }
  }

  /** The schedule's law at one height: the next height pays exactly the current era's reward. */
  ghost predicate PaysRewardAt(s: Schedule, height: nat)
    requires s.InTypes()
  {
    TotalEmittedAt(s, height + 1) - TotalEmittedAt(s, height) == RewardDue(s, height)
  }

  function RewardDue(s: Schedule, height: nat): int
    requires s.InTypes()
  {
    if height < s.genesis || !s.Valid() then 0 else RewardPerHeight(s, (height - s.genesis) / s.eraHeights)
  }

  /**
   * Every height of a valid schedule pays its era's reward exactly when the era
   * length fits an int64, or is so much longer than the first budget that the
   * reward truncates to zero anyway.
   */
  lemma EveryHeightPaysItsReward(s: Schedule)
    requires s.InTypes() && s.Valid() && s.genesis + 1 < TWO_64
    ensures (forall h: nat | h + 1 < TWO_64 :: PaysRewardAt(s, h))
            <==> (ClockFits(s) || EraBudget(s, 0) < TWO_64 - s.eraHeights)
  {
    if ClockFits(s) {
      forall h: nat | h + 1 < TWO_64 ensures PaysRewardAt(s, h) {
        FittingClockPays(s, h);
      }
    } else if EraBudget(s, 0) < TWO_64 - s.eraHeights {
      forall h: nat | h + 1 < TWO_64 ensures PaysRewardAt(s, h) {
        LongClockPays(s, h);
      }
    } else {
      LongClockFails(s);
    }
  }

  lemma LongClockPays(s: Schedule, h: nat)
    requires s.InTypes() && s.Valid() && h + 1 < TWO_64
    requires !ClockFits(s) && EraBudget(s, 0) < TWO_64 - s.eraHeights
    ensures PaysRewardAt(s, h)
  {
    assert RewardDue(s, h) == 0 by {
      if h >= s.genesis {
        FloorBounds(h - s.genesis, s.eraHeights);
        NoReward(s, (h - s.genesis) / s.eraHeights);
      }
    }
    assert TotalEmittedAt(s, h) == 0 by { LongClockPaysNothing(s, h); }
    assert TotalEmittedAt(s, h + 1) == 0 by { LongClockPaysNothing(s, h + 1); }
  }

  lemma NothingBeforeGenesis(s: Schedule, h: nat)
    requires s.eraHeights < TWO_64 && h <= s.genesis
    ensures TotalEmittedAt(s, h) == 0
  {
  }

  lemma FittingClockPays(s: Schedule, h: nat)
    requires s.InTypes() && s.Valid() && ClockFits(s)
    ensures PaysRewardAt(s, h)
    ensures TotalEmittedAt(s, h) <= TotalEmittedAt(s, h + 1)
  {
    hide TotalEmittedAt, RewardPerHeight, EraBudget;
    if h < s.genesis {
      NothingBeforeGenesis(s, h);
      NothingBeforeGenesis(s, h + 1);
    } else {
      var n := (h - s.genesis) / s.eraHeights;
      FloorBounds(h - s.genesis, s.eraHeights);
      Distribute(n, 1, s.eraHeights);
      PaysInsideEra(s, n, h);
    }
  }

  lemma PaysInsideEra(s: Schedule, n: nat, h: nat)
    requires s.InTypes() && s.Valid() && ClockFits(s)
    requires s.genesis + n * s.eraHeights <= h < s.genesis + (n + 1) * s.eraHeights
    requires h >= s.genesis && RewardDue(s, h) == RewardPerHeight(s, n)
    ensures PaysRewardAt(s, h) && TotalEmittedAt(s, h) <= TotalEmittedAt(s, h + 1)
  {
    hide TotalEmittedAt, RewardPerHeight, RewardDue;
    StraightInsideEra(s, n, h, h + 1);
    RewardBounds(s, n);
  }

  lemma LongClockFails(s: Schedule)
    requires s.InTypes() && s.Valid() && s.genesis + 1 < TWO_64
    requires !ClockFits(s) && EraBudget(s, 0) >= TWO_64 - s.eraHeights
    ensures !PaysRewardAt(s, s.genesis)
  {
    var e, b := s.eraHeights, EraBudget(s, 0);
    BudgetStep(s, 0);
    FirstBudgetFits(s);
    var d := TWO_64 - e;
    assert AsInt64(e) == -d;
    QuotientBound(b, d, 1);
    QuotientSmall(b, d);
    assert RewardPerHeight(s, 0) == -(b / d) < 0;
    SmallDiv(1, e);
    assert TotalEmittedAt(s, s.genesis + 1) == 0;
    DivZero(e);
  }

  lemma SmallDiv(a: nat, d: nat)
    requires a < d
    ensures a / d == 0 && a % d == a
  {
  }

  lemma FirstBudgetFits(s: Schedule)
    requires s.InTypes() && s.Valid()
    ensures EraBudget(s, 0) <= MAX_AMOUNT
  {
    MulDivFraction(s.cap, s.reduceDen - s.reduceNum, s.reduceDen);
  }

  lemma {:induction false} BudgetBelowFirst(s: Schedule, n: nat)
    requires s.InTypes() && s.Valid()
    ensures 0 <= EraBudget(s, n) <= EraBudget(s, 0)
  {
    BudgetStep(s, n);
    if n > 0 {
      BudgetBelowFirst(s, n - 1);
      BudgetStep(s, n - 1);
    }
  }

  lemma NoReward(s: Schedule, n: nat)
    requires s.InTypes() && s.Valid() && !ClockFits(s) && EraBudget(s, 0) < TWO_64 - s.eraHeights
    ensures RewardPerHeight(s, n) == 0
  {
    BudgetBelowFirst(s, n);
    var d := TWO_64 - s.eraHeights;
    assert AsInt64(s.eraHeights) == -d;
    SmallDiv(EraBudget(s, n), d);
  }

  lemma LongClockPaysNothing(s: Schedule, h: nat)
    requires s.InTypes() && s.Valid() && h < TWO_64
    requires !ClockFits(s) && EraBudget(s, 0) < TWO_64 - s.eraHeights
    ensures TotalEmittedAt(s, h) == 0
  {
    NoReward(s, 0);
    if h > s.genesis {
      FloorBounds(h - s.genesis, s.eraHeights);
      NoReward(s, (h - s.genesis) / s.eraHeights);
    }
  }

  /** A schedule the code calls valid whose heights do not pay their reward. */
  lemma LongClockBreaksTheLaw()
    ensures var s := Schedule(0, TWO_64 - 1, 2, 1, 2);
            s.InTypes() && s.Valid() && RewardPerHeight(s, 0) == -1 && TotalEmittedAt(s, 1) == 0
            && !PaysRewardAt(s, 0)
  {
    var s := Schedule(0, TWO_64 - 1, 2, 1, 2);
    MulDivFloor(2, 1, 2);
    assert EraBudget(s, 0) == 1;
    SmallDiv(1, TWO_64 - 1);
    DivZero(TWO_64 - 1);
  }

  // ----- clocks too long for an int64 -----

  /** What a whole era adds to the running total, whatever the clock: a negative reward times a negative span. */
  function EraPay(s: Schedule, n: nat): int
    requires s.eraHeights < TWO_64
  {
    Wrap64(RewardPerHeight(s, n) * AsInt64(s.eraHeights))
  }

  ghost function PaySum(s: Schedule, k: nat): int
    requires s.eraHeights < TWO_64
  {
    if k == 0 then 0 else PaySum(s, k - 1) + EraPay(s, k - 1)
  }

  lemma LongEraPays(s: Schedule, n: nat)
    requires s.InTypes() && s.Valid() && !ClockFits(s)
    ensures RewardPerHeight(s, n) <= 0 <= EraPay(s, n) <= EraBudget(s, n)
    ensures RewardPerHeight(s, n) == 0 ==> EraPay(s, n) == 0 && RewardPerHeight(s, n + 1) == 0
  {
    hide RewardPerHeight, EraBudget;
    var b, b', d := EraBudget(s, n), EraBudget(s, n + 1), TWO_64 - s.eraHeights;
    BudgetStep(s, n);
    BudgetStep(s, n + 1);
    LongReward(s, n);
    LongReward(s, n + 1);
    QuotientSmall(b, d);
    QuotientSmall(b', d);
    FloorMono(b', b, d);
    WholeShares(b, d);
    assert AsInt64(s.eraHeights) == -d;
  }

  lemma WholeShares(b: int, d: int)
    requires b >= 0 && d > 0
    ensures 0 <= (-(b / d)) * (-d) <= b && (b / d == 0 ==> (-(b / d)) * (-d) == 0)
  {
    var q := b / d;
    FloorBounds(b, d);
    assert (-q) * (-d) == q * d;
    MulMono(d, 0, q);
  }

  lemma LongReward(s: Schedule, n: nat)
    requires s.InTypes() && s.Valid() && !ClockFits(s)
    ensures RewardPerHeight(s, n) == -(EraBudget(s, n) / (TWO_64 - s.eraHeights))
  {
    var b, d := EraBudget(s, n), TWO_64 - s.eraHeights;
    BudgetStep(s, n);
    QuotientSmall(b, d);
    assert AsInt64(s.eraHeights) == -d;
    if b == 0 { ZeroDiv(d); }
  }

  lemma {:induction false} PaySumBounds(s: Schedule, k: nat)
    requires s.InTypes() && s.Valid() && !ClockFits(s)
    ensures 0 <= PaySum(s, k) <= BudgetSum(s, k) <= s.cap
  {
    BudgetsStayUnderCap(s, k);
    BudgetStep(s, k);
    if k > 0 {
      PaySumBounds(s, k - 1);
      LongEraPays(s, k - 1);
    }
  }

  lemma {:induction false} PaySumRises(s: Schedule, m: nat, n: nat)
    requires s.InTypes() && s.Valid() && !ClockFits(s) && m <= n
    ensures PaySum(s, m) <= PaySum(s, n)
    ensures RewardPerHeight(s, m) == 0 ==> PaySum(s, n) == PaySum(s, m) && RewardPerHeight(s, n) == 0
  {
    hide RewardPerHeight, EraPay;
    if m < n {
      PaySumRises(s, m, n - 1);
      LongEraPays(s, n - 1);
    }
  }

  lemma AddErasIsPaySum(s: Schedule, n: nat, fullEras: nat)
    requires s.InTypes() && s.Valid() && !ClockFits(s) && n <= fullEras
    ensures AddEras(s, n, fullEras, PaySum(s, n)).0 == PaySum(s, fullEras)
    decreases fullEras - n
  {
    hide RewardPerHeight, EraBudget, AddChecked;
    if n < fullEras {
      LongEraPays(s, n);
      if RewardPerHeight(s, n) == 0 {
        PaySumRises(s, n, fullEras);
      } else {
        PaySumBounds(s, n);
        PaySumBounds(s, n + 1);
        AddCheckedExact(PaySum(s, n), EraPay(s, n));
        AddErasIsPaySum(s, n + 1, fullEras);
      }
    }
  }

  function ErasDone(s: Schedule, height: nat): nat
    requires s.genesis <= height && s.eraHeights > 0
  {
    FloorBounds(height - s.genesis, s.eraHeights);
    (height - s.genesis) / s.eraHeights
  }

  /** With such a clock whole eras still pay their part of the budget, at their end, and nothing is paid inside one. */
  lemma LongClockPaysByTheEra(s: Schedule, height: nat)
    requires s.InTypes() && s.Valid() && !ClockFits(s) && s.genesis <= height
    ensures TotalEmittedAt(s, height) == PaySum(s, ErasDone(s, height))
    ensures 0 <= TotalEmittedAt(s, height) <= s.cap
  {
    hide RewardPerHeight, EraPay;
    var elapsed, n := height - s.genesis, ErasDone(s, height);
    AddErasIsPaySum(s, 0, n);
    PaySumBounds(s, n);
    LongEraPays(s, n);
    if elapsed == 0 { DivZero(s.eraHeights); }
  }

  // ----- every valid schedule -----

  lemma {:induction false} FittingErasPayTheSame(s: Schedule, k: nat)
    requires s.InTypes() && s.Valid() && ClockFits(s)
    ensures PaySum(s, k) == EraSum(s, k)
  {
    hide RewardPerHeight;
    if k > 0 {
      FittingErasPayTheSame(s, k - 1);
      RewardBounds(s, k - 1);
      BudgetStep(s, k - 1);
      MulMono(s.eraHeights, 0, RewardPerHeight(s, k - 1));
    }
  }

  /**
   * Cumulative emission in closed form, for every valid schedule: what whole eras pay, then
   * a straight line inside the current one, flat where an era does not fit an int64.
   */
  lemma ClosedForm(s: Schedule, height: nat)
    requires s.InTypes() && s.Valid() && s.genesis <= height
    ensures var n, into := ErasDone(s, height), (height - s.genesis) % s.eraHeights;
            TotalEmittedAt(s, height) == PaySum(s, n) + if ClockFits(s) then RewardPerHeight(s, n) * into else 0
    ensures 0 <= TotalEmittedAt(s, height) <= s.cap
  {
    hide TotalEmittedAt, RewardPerHeight, PaySum;
    if ClockFits(s) {
      FittingClosedForm(s, height);
      FittingErasPayTheSame(s, ErasDone(s, height));
    } else {
      LongClockPaysByTheEra(s, height);
    }
  }

  /** Cumulative emission never falls and never passes the cap, whatever the length of an era. */
  lemma EmissionMonotone(s: Schedule, lo: nat, hi: nat)
    requires s.InTypes() && s.Valid() && lo <= hi
    ensures 0 <= TotalEmittedAt(s, lo) <= TotalEmittedAt(s, hi) <= s.cap
  {
    hide TotalEmittedAt, PaySum;
    if ClockFits(s) {
      FittingClockRises(s, lo, hi);
    } else {
      if lo <= s.genesis { NothingBeforeGenesis(s, lo); }
      if hi <= s.genesis { NothingBeforeGenesis(s, hi); }
      if hi >= s.genesis { LongClockPaysByTheEra(s, hi); }
      if lo >= s.genesis {
        LongClockPaysByTheEra(s, lo);
        FloorMono(lo - s.genesis, hi - s.genesis, s.eraHeights);
        PaySumRises(s, ErasDone(s, lo), ErasDone(s, hi));
      }
    }
  }

  lemma {:induction false} FittingClockRises(s: Schedule, lo: nat, hi: nat)
    requires s.InTypes() && s.Valid() && ClockFits(s) && lo <= hi
    ensures 0 <= TotalEmittedAt(s, lo) <= TotalEmittedAt(s, hi) <= s.cap
    decreases hi
  {
    if hi >= s.genesis { FittingClosedForm(s, hi); }
    if lo >= s.genesis { FittingClosedForm(s, lo); }
    if lo < hi {
      FittingClockRises(s, lo, hi - 1);
      FittingClockPays(s, hi - 1);
    }
  }

  /** However a stretch of heights is cut, the pieces' issuance adds up to the whole. */
  lemma EmissionAdds(s: Schedule, a: nat, b: nat, c: nat)
    requires s.InTypes() && s.Valid() && a <= b <= c
    ensures EmissionBetween(s, a, b) + EmissionBetween(s, b, c) == EmissionBetween(s, a, c)
    ensures 0 <= EmissionBetween(s, a, c) == TotalEmittedAt(s, c) - TotalEmittedAt(s, a) <= s.cap
  {
    EmissionMonotone(s, a, b);
    EmissionMonotone(s, b, c);
    EmissionMonotone(s, a, c);
  }

  // ----- the schedule in force -----

  /**
   * The schedule the contract runs on: 20 million LASSECASH in eras of 31,536,000 heights,
   * half of them in the first era and half of what is left in each that follows, every
   * height of an era paying the same.
   */
  lemma FirstErasPay(genesis: nat)
    requires genesis < TWO_64
    ensures var s := DefaultSchedule(genesis);
            && TotalEmittedAt(s, genesis) == 0
            && (forall h: nat | h <= 31_536_000 :: TotalEmittedAt(s, genesis + h) == 31_709_791 * h)
            && (forall h: nat | h <= 31_536_000 ::
                  TotalEmittedAt(s, genesis + 31_536_000 + h) == 31_709_791 * 31_536_000 + 15_854_895 * h)
  {
    var s := DefaultSchedule(genesis);
    FirstRewards(s);
    hide TotalEmittedAt, RewardPerHeight;
    forall h: nat | h <= 31_536_000 ensures TotalEmittedAt(s, genesis + h) == 31_709_791 * h {
      FirstEra(s, h);
    }
    forall h: nat | h <= 31_536_000
      ensures TotalEmittedAt(s, genesis + 31_536_000 + h) == 31_709_791 * 31_536_000 + 15_854_895 * h
    {
      SecondEra(s, h);
    }
  }

  lemma FirstRewards(s: Schedule)
    requires s.InTypes() && s == DefaultSchedule(s.genesis)
    ensures RewardPerHeight(s, 0) == 31_709_791 && RewardPerHeight(s, 1) == 15_854_895
  {
    hide MulDiv;
    MulDivFloor(s.cap, 1, 2);
    assert EraBudget(s, 0) == 1_000_000_000_000_000;
    MulDivFloor(EraBudget(s, 0), 1, 2);
    assert EraBudget(s, 1) == 500_000_000_000_000;
  }

  lemma FirstEra(s: Schedule, h: nat)
    requires s.InTypes() && s == DefaultSchedule(s.genesis) && h <= 31_536_000
    requires RewardPerHeight(s, 0) == 31_709_791 && RewardPerHeight(s, 1) == 15_854_895
    ensures TotalEmittedAt(s, s.genesis + h) == 31_709_791 * h
  {
    hide TotalEmittedAt, RewardPerHeight;
    FittingClosedForm(s, s.genesis + h);
    if h < 31_536_000 {
      DivModUnique(h, 31_536_000, 0, h);
    } else {
      DivModUnique(h, 31_536_000, 1, 0);
      assert EraSum(s, 1) == RewardPerHeight(s, 0) * s.eraHeights;
    }
  }

  lemma SecondEra(s: Schedule, h: nat)
    requires s.InTypes() && s == DefaultSchedule(s.genesis) && h <= 31_536_000
    requires RewardPerHeight(s, 0) == 31_709_791 && RewardPerHeight(s, 1) == 15_854_895
    ensures TotalEmittedAt(s, s.genesis + 31_536_000 + h) == 31_709_791 * 31_536_000 + 15_854_895 * h
  {
    hide TotalEmittedAt, RewardPerHeight;
    FittingClosedForm(s, s.genesis + 31_536_000 + h);
    assert EraSum(s, 1) == RewardPerHeight(s, 0) * s.eraHeights;
    if h < 31_536_000 {
      DivModUnique(31_536_000 + h, 31_536_000, 1, h);
    } else {
      DivModUnique(31_536_000 + h, 31_536_000, 2, 0);
      assert EraSum(s, 2) == EraSum(s, 1) + RewardPerHeight(s, 1) * s.eraHeights;
    }
  }

  // ----- the split of one inflow -----

  datatype Allocation = Allocation(proofOfBrain: int, lshare: int, liquidity: int)

  function Split(amount: int): Allocation {
    if amount <= 0 then Allocation(0, 0, 0)
    else
      var lshare, liq := MulDiv(amount, 25, 100), MulDiv(amount, 25, 100);
      if lshare.None? || liq.None? then Allocation(0, 0, 0)
      else Allocation(amount - lshare.value - liq.value, lshare.value, liq.value)
  }

  /** The two quarters floor, Proof-of-Brain takes the rest, and nothing is lost. */
  lemma SplitConserves(amount: int)
    requires 0 <= amount <= MAX_AMOUNT
    ensures var a := Split(amount);
            a.proofOfBrain + a.lshare + a.liquidity == amount
            && a.lshare == a.liquidity == amount / 4
            && 2 * a.proofOfBrain >= amount
  {
    if amount > 0 {
      MulDivFraction(amount, 25, 100);
      assert amount * 25 / 100 == amount / 4;
    }
  }
}
