/** What one day and one inflow do to the reading, and where the days lie, without the walk's own terms. */
module Daily {
  import opened Units
  import opened Emission
  import opened Accumulator
  import opened LShare
  import opened ShareBook
  import opened Accrual

  // ----- one inflow -----

  /**
   * An inflow and what was held meet the live shares: all of it is shared out, each share's
   * part rounded down, when there are 10^10 shares or more, a unit of the reading for each,
   * and room above the reading; otherwise all of it is held.
   */
  ghost predicate FlowsIn(acc: int, held: int, amount: int, active: int, acc': int, held': int) {
    var total := held + amount;
    if total > 0 && active >= 10_000_000_000 && total * 1_000_000_000_000 >= active
       && acc + total * 1_000_000_000_000 / active <= MAX_AMOUNT
    then held' == 0 && FloorOf(acc' - acc, total * 1_000_000_000_000, active)
    else acc' == acc && held' == total
  }

  lemma StepFlowsIn(acc: int, inflow: int, held: int, active: int)
    requires 0 <= acc <= MAX_AMOUNT && 0 <= inflow && 0 <= held && inflow + held <= MAX_AMOUNT
    requires 0 <= active <= MAX_AMOUNT
    ensures var (acc', held') := AccumulatorStep(acc, inflow, held, active);
            FlowsIn(acc, held, inflow, active, acc', held')
  {
    StepConserves(acc, inflow, held, active);
    hide AccumulatorStep;
    assert inflow + held == held + inflow;
  }

  /** An amount taken into the pool and, if it is one, through the reading; nothing else of the walk moves. */
  ghost predicate TakesIn(y: Yield, y': Yield, amount: int) {
    && y'.book == y.book && y'.accAt == y.accAt && y'.emitted == y.emitted && y'.settled == y.settled
    && y'.pools == y.pools.(lshare := y.pools.lshare + amount)
    && if amount > 0 then FlowsIn(y.acc, y.held, amount, y.book.active, y'.acc, y'.held)
       else y'.acc == y.acc && y'.held == y.held
  }

  /** What the figures of a step have to be within. */
  predicate Steps(y: Yield, amount: int) {
    && 0 <= y.acc <= MAX_AMOUNT && 0 <= y.held && 0 <= amount && y.held + amount <= MAX_AMOUNT
    && 0 <= y.book.active <= MAX_AMOUNT
  }

  lemma RecycledIsTakenIn(y: Yield, amount: int)
    requires Steps(y, amount)
    ensures TakesIn(y, Recycled(y, amount), amount)
  {
    StepFlowsIn(y.acc, amount, y.held, y.book.active);
    hide AccumulatorStep, FlowsIn;
  }

  lemma GoodSteps(y: Yield, amount: int)
    requires Good(y) && 0 <= amount <= HISTORIC_HARD_CAP
    ensures Steps(y, amount) && y.held <= y.pools.lshare <= HISTORIC_HARD_CAP
  {
    HeldIsInThePool(y);
    hide Sound, EmittedBy, Covered;
    DayEmissionIsExact(y.book.genesis, y.book.hpd, y.book.day);
  }

  // ----- one day -----

  /** What the schedule issues over one day. */
  ghost function IssuedOn(b: Book): int {
    TotalEmittedAt(DefaultSchedule(b.genesis), b.genesis + (b.day + 1) * b.hpd)
    - TotalEmittedAt(DefaultSchedule(b.genesis), b.genesis + b.day * b.hpd)
  }

  /**
   * One day of the fold: a quarter of what the schedule issues that day, and what was held,
   * flows to the mints still open and due on that day or later, those it stops included.
   * The pools and the counter gain the whole of it.
   */
  lemma DayFlowsIn(y: Yield)
    requires Good(y)
    ensures var y', issued := DayStep(y), IssuedOn(y.book);
            && y'.book.day == y.book.day + 1 && issued >= 0 && issued % 8 == 0
            && FlowsIn(y.acc, y.held, issued / 4,
                       Total(y.book.mints, LiveFrom(y.book.genesis, y.book.hpd, y.book.day)), y'.acc, y'.held)
            && y'.emitted == y.emitted + issued && SharedOut(y.pools, y'.pools, issued)
  {
    hide DayStep, AccumulatorStep, TodaysLShare, TodaysEmission, Credited, Total, EmittedBy, FlowsIn, Good,
         TotalEmittedAt;
    DayStepFrame(y);
    DayStepIs(y);
    GoodClockOf(y);
    DayIsIssued(y.book);
    GoodSteps(y, 0);
    ActiveIsLive(y.book);
    TodaysShare(y.book);
    DayEmissionIsExact(y.book.genesis, y.book.hpd, y.book.day);
    StepFlowsIn(y.acc, TodaysLShare(y.book), y.held, y.book.active);
    CreditOfEighths(y.pools, TodaysEmission(y.book));
    NothingFlows(y.acc, y.held, y.book.active);
  }

  lemma NothingFlows(acc: int, held: int, active: int)
    ensures held == 0 ==> FlowsIn(acc, held, 0, active, acc, held)
  {
  }

  lemma GoodClockOf(y: Yield)
    requires Good(y)
    ensures ClockOk(y.book) && Sound(y.book)
  {
  }

  lemma ActiveIsLive(b: Book)
    requires Sound(b)
    ensures b.active == Total(b.mints, LiveFrom(b.genesis, b.hpd, b.day))
  {
  }

  lemma DayIsIssued(b: Book)
    requires ClockOk(b)
    ensures TodaysEmission(b) == IssuedOn(b) && 0 <= TodaysEmission(b) <= EMISSION_CAP
  {
    DayEmissionIsExact(b.genesis, b.hpd, b.day);
    hide TotalEmittedAt, DayEmission;
  }

  lemma DayStepIs(y: Yield)
    ensures var y', amount := DayStep(y), TodaysEmission(y.book);
            && (y'.acc, y'.held) == Stepped(y.acc, y.held, TodaysLShare(y.book), y.book.active)
            && y'.emitted == y.emitted + AddPool(0, amount)
            && y'.pools == if amount > 0 then Credited(y.pools, amount, TodaysLShare(y.book)) else y.pools
  {
    hide Stepped, DayEmission, Split, Credited, CloseDay;
    DrainAllKeepsDay(y.book);
    DrainAllKeepsStops(y.book);
    DrainAllTouchesNoMint(y.book);
  }

  // ----- where the days lie -----

  /** The day of a height, counted from genesis: the one it falls in. */
  lemma DayOfExactly(genesis: nat, hpd: nat, height: nat)
    requires hpd > 0
    ensures height <= genesis ==> DayOf(genesis, hpd, height) == 0
    ensures height >= genesis ==>
              var d := DayOf(genesis, hpd, height);
              genesis + d * hpd <= height < genesis + (d + 1) * hpd
  {
    if height > genesis { FloorBounds(height - genesis, hpd); }
  }

  /** A mint's last day is the one its maturity falls in. */
  lemma LastDayExactly(b: Book, m: Mint)
    requires b.hpd > 0 && m.start >= b.genesis
    ensures b.genesis + b.MatDay(m) * b.hpd <= m.start + m.days * b.hpd < b.genesis + (b.MatDay(m) + 1) * b.hpd
  {
    DayOfExactly(b.genesis, b.hpd, m.start + m.days * b.hpd);
  }
}
