/** A run after which it does matter whether an advance is called before a late claim or after it. */
module LateClaim {
  import opened Units
  import opened Emission
  import opened Accumulator
  import opened LShare
  import opened ShareBook
  import opened Accrual
  import opened Ledger
  import opened Collection
  import opened Interleaving
  import Guarantees
  import Merkle

  // ----- the run -----

  const GENESIS := 1
  const DAY := 8
  const LOCKED := 100_000_000_000
  const LATE_DAY := 199
  const VOLUME_START := 100_000_000_000
  const VOLUME_END := 5_000_000_000_000

  /** One liquid balance, and one staked unit nobody has claimed. */
  const LATE_ENTRIES := [Merkle.Entry("m", LOCKED, 0, false), Merkle.Entry("a", 0, 1, false)]

  ghost function Commit(sha: string -> Merkle.Hash): Call {
    Call(GENESIS, SetSnapshot(Some(Guarantees.RootOfSnapshot(sha, LATE_ENTRIES)), LOCKED + 1, 0))
  }

  const LOCK := Call(GENESIS, CreateMint("m", LOCKED, LATE_DAY, VOLUME_START, VOLUME_END))
  const WALK := Call(GENESIS + LATE_DAY * DAY, Advance(0))

  /**
   * The snapshot is committed, m claims, locks everything for 199 days, and the walk is
   * called on the last of them. Then a day passes, and all live shares should have stopped.
   */
  ghost function LateRun(sha: string -> Merkle.Hash): seq<Call> {
    [Commit(sha), CallFor(sha, LATE_ENTRIES, 0, GENESIS), LOCK, WALK]
  }

  const LATE_HEIGHT := GENESIS + (LATE_DAY + 1) * DAY
  const LATE_ADVANCE := Call(LATE_HEIGHT, Advance(1))

  function LateClaim(sha: string -> Merkle.Hash): Call { CallFor(sha, LATE_ENTRIES, 1, LATE_HEIGHT) }

  ghost function LateState(sha: string -> Merkle.Hash): State { Run(sha, Initial(GENESIS, DAY), LateRun(sha)) }

  // ----- the states it goes through -----

  ghost function AfterCommit(sha: string -> Merkle.Hash): State {
    State(InitialYield(GENESIS, DAY), 0, map[],
          Migration(Some(Guarantees.RootOfSnapshot(sha, LATE_ENTRIES)), LOCKED + 1, 0, 0, false, map[]))
  }

  ghost function AfterClaim(sha: string -> Merkle.Hash): State {
    var s := AfterCommit(sha);
    State(s.y, LOCKED, map["m" := LOCKED], s.mig.(claimed := LOCKED, receipts := map["m" := Claimed(LOCKED, 0)]))
  }

  /** The position, of as many shares as the bonus for its length grants. */
  function LateMint(shares: int): Mint { Mint("m", LOCKED, shares, GENESIS, LATE_DAY, false, false, 0, 0) }

  ghost function AfterLock(sha: string -> Merkle.Hash, shares: int): State {
    AfterClaim(sha).(y := Registered(InitialYield(GENESIS, DAY), LateMint(shares)), balances := map[])
  }

  lemma CommitIsTaken(sha: string -> Merkle.Hash)
    ensures Apply(sha, Initial(GENESIS, DAY), Commit(sha)) == (AfterCommit(sha), true)
  {
    hide Guarantees.RootOfSnapshot;
  }

  lemma AfterCommitIsCommitted(sha: string -> Merkle.Hash)
    ensures Committed(sha, AfterCommit(sha), LATE_ENTRIES)
  {
    hide Guarantees.RootOfSnapshot;
    assert LATE_ENTRIES[..1] == [LATE_ENTRIES[0]];
    assert Guarantees.Qualifying(LATE_ENTRIES[..0]) == 0;
    assert Guarantees.Qualifying(LATE_ENTRIES[..1]) == LOCKED;
  }

  lemma ProofIsAccepted(sha: string -> Merkle.Hash, s: State, pos: nat)
    requires pos < 2 && s.mig.root == AfterCommit(sha).mig.root
    ensures LeafAccepted(sha, s, LATE_ENTRIES[pos], Some(Proof(sha, LATE_ENTRIES, pos)))
  {
    hide Merkle.RootOf, Merkle.ProofOf, Merkle.LeafText, Merkle.Verifies;
    Merkle.EveryLeafVerifies(sha, Merkle.Hashes(sha, Merkle.Texts(LATE_ENTRIES)), pos);
  }

  lemma ClaimIsTaken(sha: string -> Merkle.Hash)
    ensures Apply(sha, AfterCommit(sha), CallFor(sha, LATE_ENTRIES, 0, GENESIS)) == (AfterClaim(sha), true)
  {
    ProofIsAccepted(sha, AfterCommit(sha), 0);
    hide LeafAccepted, Guarantees.RootOfSnapshot, Proof;
    assert LATE_ENTRIES[0] == Merkle.Entry("m", LOCKED, 0, false);
  }

  lemma LockedShares() returns (shares: int)
    ensures LOCKED <= shares <= 2 * LOCKED
    ensures NewMint("m", LOCKED, LATE_DAY, GENESIS, MintParams(VOLUME_START, VOLUME_END, ShareRate(GENESIS, GENESIS)))
            == Some(LateMint(shares))
  {
    hide MulDiv;
    var bonus := DurationMultiplier(LATE_DAY);
    MulDivFloor(LOCKED, SHARE_UNIT, GENESIS_SHARE_RATE);
    FloorUnique(LOCKED * SHARE_UNIT, GENESIS_SHARE_RATE, LOCKED);
    FloorBounds(198 * MAX_DURATION_BONUS, 1094);
    shares := LOCKED * bonus / MULT_SCALE;
    MulDivFloor(LOCKED, bonus, MULT_SCALE);
    FloorBounds(LOCKED * bonus, MULT_SCALE);
    MulDivFloor(shares, MULT_SCALE, MULT_SCALE);
    FloorUnique(shares * MULT_SCALE, MULT_SCALE, shares);
  }

  lemma LockIsTaken(sha: string -> Merkle.Hash) returns (shares: int)
    ensures LOCKED <= shares <= 2 * LOCKED
    ensures Apply(sha, AfterClaim(sha), LOCK) == (AfterLock(sha, shares), true)
  {
    shares := LockedShares();
    hide NewMint, ShareRate, Guarantees.RootOfSnapshot, Registered;
  }

  // ----- 199 quiet days -----

  /** Nothing stops before day `last`, and no list was begun. */
  ghost predicate QuietUntil(b: Book, last: nat) {
    b.cursor == map[] && forall d: int | b.day <= d < last :: d !in b.count && d !in b.exp
  }

  lemma QuietDay(b: Book, last: nat)
    requires QuietUntil(b, last) && b.day < last
    ensures !b.Pending() && CloseDay(b) == b.(day := b.day + 1)
  {
    assert b.count - {b.day as int} == b.count;
  }

  lemma {:induction false} QuietDaysPass(y: Yield, last: nat)
    requires QuietUntil(y.book, last) && y.book.day <= last
    ensures DaysTo(y, last).book == y.book.(day := last)
    decreases last - y.book.day
  {
    hide DayEmission, Split, Stepped, Credited, EmittedBy;
    if y.book.day < last {
      QuietDay(y.book, last);
      assert DrainAll(y.book) == y.book;
      assert DayStep(y).book == y.book.(day := y.book.day + 1);
      QuietDaysPass(DayStep(y), last);
    }
  }

  lemma {:induction false} QuietDaysNeedNoWork(b: Book, last: nat)
    requires QuietUntil(b, last)
    ensures Work(b, last) == 0
    decreases last - b.day
  {
    if b.day < last {
      QuietDay(b, last);
      QuietDaysNeedNoWork(CloseDay(b), last);
    }
  }

  /** One call of the walk passes them all. */
  lemma QuietWalk(y: Yield, last: nat)
    requires OnClock(y) && QuietUntil(y.book, last) && y.book.day <= last <= y.book.day + MAX_ACCRUAL_DAYS
    ensures var (y', current) := Walked(y, last, 0, MAX_RETIRE_PER_WALK);
            current && y'.book == y.book.(day := last)
  {
    hide DaysTo, Work, Walked, OnClock, QuietUntil;
    QuietDaysPass(y, last);
    QuietDaysNeedNoWork(y.book, last);
    CatchesUpExactly(y, last, 0, MAX_RETIRE_PER_WALK);
    WalkKeepsFold(y, last, 0, MAX_RETIRE_PER_WALK, last);
    assert Walked(y, last, 0, MAX_RETIRE_PER_WALK).0.book.day >= last by {
      CaughtUp(y, last);
    }
    FoldStands(Walked(y, last, 0, MAX_RETIRE_PER_WALK).0, last);
  }

  lemma CaughtUp(y: Yield, last: nat)
    ensures Walked(y, last, 0, MAX_RETIRE_PER_WALK).1 ==> Walked(y, last, 0, MAX_RETIRE_PER_WALK).0.book.day >= last
  {
    hide Loop;
  }

  // ----- the last day -----

  /** What the book holds from the lock on. */
  lemma LateBookIs(shares: int)
    requires shares > 0
    ensures var b := Registered(InitialYield(GENESIS, DAY), LateMint(shares)).book;
            && b.day == 0 && b.genesis == GENESIS && b.hpd == DAY && QuietUntil(b, LATE_DAY)
            && b.active == shares && Read(b.exp, LATE_DAY) == shares
            && Read(b.count, LATE_DAY) == 1 && |b.ChunkAt(LATE_DAY, 0)| == 1
            && |b.mints| == 1 && b.mints[0] == LateMint(shares) && b.MatDay(b.mints[0]) == LATE_DAY
  {
    FloorUnique(LATE_DAY * DAY, DAY, LATE_DAY);
    assert DueDay(GENESIS, DAY, LateMint(shares)) == LATE_DAY;
    StampKeepsDueDay(EmptyBook(GENESIS, DAY), LateMint(shares), 0);
    hide DueDay;
  }

  /** A day all live shares stop at the end of, on one chunk, and many enough to share any unit at once. */
  ghost predicate AllStopToday(y: Yield) {
    && Good(y) && LOCKED <= y.book.active <= 2 * LOCKED && Read(y.book.exp, y.book.day) == y.book.active
    && Read(y.book.count, y.book.day) == 1 && Read(y.book.cursor, y.book.day) == 0
    && |y.book.ChunkAt(y.book.day, 0)| == 1
    && |y.book.mints| == 1 && !y.book.mints[0].ended && y.book.mints[0].accStart == 0
    && y.book.mints[0].shares == y.book.active && y.book.MatDay(y.book.mints[0]) == y.book.day
  }

  lemma LateRunReaches(sha: string -> Merkle.Hash) returns (shares: int)
    ensures LOCKED <= shares <= 2 * LOCKED
    ensures Accepted(sha, Initial(GENESIS, DAY), LateRun(sha))
    ensures LateState(sha) == Apply(sha, AfterLock(sha, shares), WALK).0
  {
    shares := LockIsTaken(sha);
    CommitIsTaken(sha);
    ClaimIsTaken(sha);
    hide Apply, Run, Accepted, AfterLock, AfterClaim, AfterCommit, Initial, Commit;
    var s, r := Initial(GENESIS, DAY), LateRun(sha);
    NothingCalled(sha, s);
    OneMoreCall(sha, s, [], r[0]);
    OneMoreCall(sha, s, [r[0]], r[1]);
    OneMoreCall(sha, s, [r[0], r[1]], r[2]);
    OneMoreCall(sha, s, [r[0], r[1], r[2]], r[3]);
    assert [] + [r[0]] == [r[0]] && [r[0]] + [r[1]] == [r[0], r[1]];
    assert [r[0], r[1]] + [r[2]] == [r[0], r[1], r[2]] && [r[0], r[1], r[2]] + [r[3]] == r;
  }

  lemma NothingCalled(sha: string -> Merkle.Hash, s: State)
    ensures Run(sha, s, []) == s && Accepted(sha, s, [])
  {
  }

  lemma LateRunIsValid(sha: string -> Merkle.Hash)
    ensures ValidRun(LateRun(sha), GENESIS) && LastHeight(LateRun(sha), GENESIS) == WALK.height
  {
    hide Guarantees.RootOfSnapshot, Proof;
  }

  /** Where the run ends: sane, on the last day of all live shares, one staked unit unclaimed. */
  lemma LateStateIs(sha: string -> Merkle.Hash)
    ensures var s := LateState(sha);
            && Accepted(sha, Initial(GENESIS, DAY), LateRun(sha)) && ValidRun(LateRun(sha), GENESIS)
            && Sane(s, LATE_HEIGHT) && AllStopToday(s.y) && s.y.book.day == LATE_DAY
            && s.Genesis() == GENESIS && s.Hpd() == DAY && s.mig == AfterClaim(sha).mig
  {
    var shares := LateRunReaches(sha);
    LateRunIsValid(sha);
    LateStateIsSane(sha);
    WalkReaches(sha, shares);
    LateBookIs(shares);
    hide Initial, InitialYield, SaneOwing, Apply, Run, LateRun, LateState, LateMint, Accepted, ValidRun, QuietUntil,
         Registered, AfterLock, AfterClaim, DueDay, AllStopToday;
    SaneIsGood(LateState(sha), LATE_HEIGHT);
    StandsOnItsLastDay(LateState(sha).y, Registered(InitialYield(GENESIS, DAY), LateMint(shares)).book, shares);
  }

  lemma LateStateIsSane(sha: string -> Merkle.Hash)
    ensures Sane(LateState(sha), LATE_HEIGHT)
  {
    hide Initial, SaneOwing, Apply, Run, LateRun, ValidRun;
    LateRunIsValid(sha);
    InitialIsSane(GENESIS, DAY, GENESIS);
    RunKeepsSane(sha, Initial(GENESIS, DAY), GENESIS, LateRun(sha));
    LaterIsStillSane(LateState(sha), WALK.height, LATE_HEIGHT);
  }

  lemma SaneIsGood(s: State, now: nat)
    requires Sane(s, now)
    ensures Good(s.y)
  {
  }

  lemma StandsOnItsLastDay(y: Yield, b: Book, shares: int)
    requires Good(y) && y.book == b.(day := LATE_DAY) && LOCKED <= shares <= 2 * LOCKED
    requires b.genesis == GENESIS && b.hpd == DAY && QuietUntil(b, LATE_DAY)
    requires b.active == shares && Read(b.exp, LATE_DAY) == shares
    requires Read(b.count, LATE_DAY) == 1 && |b.ChunkAt(LATE_DAY, 0)| == 1
    requires |b.mints| == 1 && b.mints[0] == LateMint(shares) && b.MatDay(b.mints[0]) == LATE_DAY
    ensures AllStopToday(y)
  {
    hide Good, DueDay;
  }

  lemma WalkReaches(sha: string -> Merkle.Hash, shares: int)
    requires LOCKED <= shares <= 2 * LOCKED
    ensures var s, s' := AfterLock(sha, shares), Apply(sha, AfterLock(sha, shares), WALK).0;
            && s'.y.book == Registered(InitialYield(GENESIS, DAY), LateMint(shares)).book.(day := LATE_DAY)
            && s'.mig == AfterClaim(sha).mig
  {
    hide Apply, DayOf, Walked, Registered, QuietUntil, OnClock, InitialYield, AfterClaim, LateMint;
    var y := Registered(InitialYield(GENESIS, DAY), LateMint(shares));
    LateBookIs(shares);
    DaysAre();
    StartsOnClock(shares);
    QuietWalk(y, LATE_DAY);
    AdvanceIs(sha, AfterLock(sha, shares), WALK);
  }

  lemma DaysAre()
    ensures DayOf(GENESIS, DAY, WALK.height) == LATE_DAY && DayOf(GENESIS, DAY, LATE_HEIGHT) == LATE_DAY + 1
  {
    FloorUnique(LATE_DAY * DAY, DAY, LATE_DAY);
    FloorUnique((LATE_DAY + 1) * DAY, DAY, LATE_DAY + 1);
  }

  lemma StartsOnClock(shares: int)
    ensures OnClock(Registered(InitialYield(GENESIS, DAY), LateMint(shares)))
  {
    var y := InitialYield(GENESIS, DAY);
    InitialIsSane(GENESIS, DAY, GENESIS);
    RegisterFrame(y, LateMint(shares));
    hide Registered, EmittedBy, SaneOwing, InitialYield, LateMint;
    SaneIsGood(Initial(GENESIS, DAY), GENESIS);
    SameClockStaysOn(y, Registered(y, LateMint(shares)));
  }

  lemma SameClockStaysOn(y: Yield, y': Yield)
    requires Good(y) && SameClock(y, y')
    ensures OnClock(y')
  {
    hide EmittedBy, Sound, Solvent;
  }

  lemma AdvanceIs(sha: string -> Merkle.Hash, s: State, c: Call)
    requires c.op.Advance?
    ensures Apply(sha, s, c).0
            == s.(y := Walked(s.y, TargetDay(s.y.book, c.height), c.op.maxDays, MAX_RETIRE_PER_WALK).0)
  {
    hide Walked;
  }

  // ----- a day closed with and without the recycled unit -----

  /** One call over a last day with one chunk to drain: that day finished. */
  lemma OneDayWalk(y: Yield, budget: nat)
    requires Read(y.book.count, y.book.day) == 1 && Read(y.book.cursor, y.book.day) == 0
    requires |y.book.ChunkAt(y.book.day, 0)| <= budget && Read(y.book.exp, y.book.day) > 0
    ensures var (y', current) := Walked(y, y.book.day + 1, 1, budget);
            && current && y'.book.day == y.book.day + 1
            && (y'.acc, y'.held) == Stepped(y.acc, y.held, TodaysLShare(y.book), y.book.active)
            && y'.book.active == NotBelowZero(y.book.active - Read(y.book.exp, y.book.day))
  {
    hide DayEmission, Split, Stepped, RetireAll, Credited;
    var w := Start(y, budget);
    var drained := DrainStep(w);
    assert !drained.book.Pending();
    assert Loop(w, y.book.day + 1, 1) == Loop(drained, y.book.day + 1, 1) == StepDay(drained);
  }

  lemma TodaysShareIsSmall(b: Book)
    requires ClockOk(b)
    ensures 0 <= TodaysLShare(b) <= EMISSION_CAP
  {
    hide DayEmission, EmittedBy, TodaysLShare;
    DayEmissionIsExact(b.genesis, b.hpd, b.day);
    TodaysShare(b);
  }

  /** So many shares take any inflow at once, and so few any unit of it. */
  lemma SharedWhole(acc: int, inflow: int, held: int, active: int)
    requires 0 <= acc <= 10 * HISTORIC_HARD_CAP && 0 <= inflow && 0 <= held && inflow + held <= 2 * HISTORIC_HARD_CAP
    requires LOCKED <= active <= 2 * LOCKED
    ensures Stepped(acc, held, inflow, active).1 == 0
  {
    var total := inflow + held;
    StepConserves(acc, inflow, held, active);
    FloorBounds(total * ACC_SCALE, active);
    MulMono(total * ACC_SCALE / active, LOCKED, active);
    hide AccumulatorStep;
  }

  /** What the pool can hold bounds how far the reading has risen. */
  lemma ReadingIsLow(y: Yield)
    requires AllStopToday(y)
    ensures 0 <= y.acc <= 10 * HISTORIC_HARD_CAP && 0 <= y.held <= HISTORIC_HARD_CAP
    ensures y.pools.lshare <= HISTORIC_HARD_CAP
  {
    PoolIsBounded(y);
    HeldIsInThePool(y);
    EarnedIsNonNegative(y);
    TotalAtLeast(y.book.mints, Earned(y), 0);
    hide Sound, OnClock, DueDay, Total;
    MulMono(y.acc, LOCKED, y.book.active);
  }

  lemma PoolIsBounded(y: Yield)
    requires Good(y)
    ensures y.pools.lshare <= HISTORIC_HARD_CAP
  {
    hide EmittedBy, Sound;
    DayEmissionIsExact(y.book.genesis, y.book.hpd, y.book.day);
  }

  lemma OneUnitRecycled(y: Yield)
    requires AllStopToday(y) && Good(Recycled(y, 1))
    ensures AllStopToday(Recycled(y, 1)) && Recycled(y, 1).held == 0
  {
    ReadingIsLow(y);
    SharedWhole(y.acc, 1, y.held, y.book.active);
    hide Good, AccumulatorStep, DueDay;
  }

  lemma DayIsShared(y: Yield)
    requires AllStopToday(y)
    ensures var (y', current) := Walked(y, y.book.day + 1, 1, MAX_RETIRE_PER_WALK);
            current && y'.book.day == y.book.day + 1 && y'.held == 0 && y'.book.active == 0
  {
    ReadingIsLow(y);
    ClockIsGood(y);
    TodaysShareIsSmall(y.book);
    SharedWhole(y.acc, TodaysLShare(y.book), y.held, y.book.active);
    hide Good, Stepped, TodaysLShare, Walked, DueDay;
    OneDayWalk(y, MAX_RETIRE_PER_WALK);
  }

  lemma ClockIsGood(y: Yield)
    requires Good(y)
    ensures ClockOk(y.book)
  {
  }

  lemma NobodyToShareIt(y: Yield)
    requires y.book.active == 0 && y.held == 0 && 0 <= y.acc <= MAX_AMOUNT
    ensures Recycled(y, 1).held == 1
  {
  }

  lemma WalkedIsGood(s: State, height: nat, days: int)
    requires Sane(s, height)
    ensures 0 <= Walked(s.y, TargetDay(s.y.book, height), days, MAX_RETIRE_PER_WALK).0.acc <= MAX_AMOUNT
  {
    hide SaneOwing, Walked, DayOf;
    WalkKeepsSane(s, height, days, MAX_RETIRE_PER_WALK);
    SaneIsGood(s.(y := Walked(s.y, TargetDay(s.y.book, height), days, MAX_RETIRE_PER_WALK).0), height);
  }

  // ----- the two orders -----

  /** The one unit still unclaimed has bled away by then: nothing to its owner, one unit recycled. */
  lemma LateClaimRecyclesOne(s: State)
    requires s.Genesis() == GENESIS && s.Hpd() == DAY
    ensures var m := MigrationMint(s, "a", 1);
            IsMature(DAY, m, LATE_HEIGHT) && Settle(DAY, m, LATE_HEIGHT, 0) == Settlement(0, 1, false)
  {
    hide MulDiv, BleedRemaining;
    var m := MigrationMint(s, "a", 1);
    OwnerGetsTheSurvivingPart(DAY, m, LATE_HEIGHT, 0);
    SettleConserves(DAY, m, LATE_HEIGHT, 0);
    CurvesAreStraight(DAY, m, LATE_HEIGHT);
  }

  lemma LateClaimIsTaken(sha: string -> Merkle.Hash, s: State)
    requires s.mig == AfterClaim(sha).mig && s.Genesis() == GENESIS && s.Hpd() == DAY
    ensures Apply(sha, s, LateClaim(sha)).1 && Apply(sha, s, LateClaim(sha)).0.y == Recycled(s.y, 1)
  {
    hide LeafAccepted, Settle, Recycled, Guarantees.RootOfSnapshot, Proof, IsMature;
    LateClaimRecyclesOne(s);
    ProofIsAccepted(sha, s, 1);
    assert LATE_ENTRIES[1] == Merkle.Entry("a", 0, 1, false);
  }

  lemma ClaimThenAdvance(sha: string -> Merkle.Hash)
    ensures var s := LateState(sha);
            && Apply(sha, s, LateClaim(sha)).1
            && Apply(sha, Apply(sha, s, LateClaim(sha)).0, LATE_ADVANCE).0.y.held == 0
  {
    hide LateState, AllStopToday, Walked, Recycled, DayOf, Apply, SaneOwing, AfterClaim, Good, Accepted, Run, LateRun;
    var s := LateState(sha);
    var s' := Apply(sha, s, LateClaim(sha)).0;
    LateStateIs(sha);
    DaysAre();
    LateClaimIsTaken(sha, s);
    StepKeepsSane(sha, s, LATE_HEIGHT, LateClaim(sha));
    SaneIsGood(s, LATE_HEIGHT);
    SaneIsGood(s', LATE_HEIGHT);
    OneUnitRecycled(s.y);
    Guarantees.RecyclingTouchesNoMint(s.y, 1);
    DayIsShared(s'.y);
    AdvanceIs(sha, s', LATE_ADVANCE);
  }

  lemma AdvanceThenClaim(sha: string -> Merkle.Hash)
    ensures var s := LateState(sha);
            && Apply(sha, Apply(sha, s, LATE_ADVANCE).0, LateClaim(sha)).1
            && Apply(sha, Apply(sha, s, LATE_ADVANCE).0, LateClaim(sha)).0.y.held == 1
  {
    hide LateState, AllStopToday, Walked, Recycled, DayOf, Apply, SaneOwing, AfterClaim, Good, Accepted, Run, LateRun;
    var s := LateState(sha);
    var s' := Apply(sha, s, LATE_ADVANCE).0;
    LateStateIs(sha);
    DaysAre();
    DayIsShared(s.y);
    AdvanceIs(sha, s, LATE_ADVANCE);
    WalkTouchesNoMint(s.y, LATE_DAY + 1, 1, MAX_RETIRE_PER_WALK);
    WalkedIsGood(s, LATE_HEIGHT, 1);
    NobodyToShareIt(s'.y);
    LateClaimIsTaken(sha, s');
  }

  lemma OneCall(sha: string -> Merkle.Hash, s: State, c: Call)
    ensures Run(sha, s, [c]) == Apply(sha, s, c).0
    ensures Accepted(sha, s, [c]) <==> c.op.Advance? || Apply(sha, s, c).1
  {
    hide Apply;
    assert [c][..0] == [];
    assert Run(sha, s, []) == s;
  }

  lemma TwoCalls(sha: string -> Merkle.Hash, s: State, first: Call, second: Call)
    ensures Run(sha, s, [first, second]) == Apply(sha, Apply(sha, s, first).0, second).0
    ensures Accepted(sha, s, [first, second])
            <==> && (first.op.Advance? || Apply(sha, s, first).1)
                 && (second.op.Advance? || Apply(sha, Apply(sha, s, first).0, second).1)
  {
    hide Apply;
    var calls := [first, second];
    assert calls[..1] == [first];
    OneCall(sha, s, first);
  }

  /**
   * A claim after maturity recycles without accruing first. After this run from genesis, a
   * day behind, the same claim and the same advance are accepted in either order and do not
   * end in the same state: recycled before the day is over the unit goes to the shares that
   * stop with it, recycled after it there is nobody to share it and it is held.
   */
  lemma AdvanceBeforeALateClaimMatters(sha: string -> Merkle.Hash)
    ensures Accepted(sha, Initial(GENESIS, DAY), LateRun(sha)) && ValidRun(LateRun(sha), GENESIS)
    ensures var s, claim := Run(sha, Initial(GENESIS, DAY), LateRun(sha)), LateClaim(sha);
            && !OrderFree(s, claim)
            && Accepted(sha, s, [claim]) && Accepted(sha, s, [claim, LATE_ADVANCE])
            && Accepted(sha, s, [LATE_ADVANCE, claim])
            && Run(sha, s, [claim, LATE_ADVANCE]).y.held == 0 && Run(sha, s, [LATE_ADVANCE, claim]).y.held == 1
  {
    hide SaneOwing, AllStopToday, Apply, Settle, Accepted, Run, LateRun, AfterClaim, Proof, DayOf, IsMature, Initial;
    var s, claim := LateState(sha), LateClaim(sha);
    LateStateIs(sha);
    DaysAre();
    LateClaimRecyclesOne(s);
    ClaimThenAdvance(sha);
    AdvanceThenClaim(sha);
    OneCall(sha, s, claim);
    TwoCalls(sha, s, claim, LATE_ADVANCE);
    TwoCalls(sha, s, LATE_ADVANCE, claim);
  }
}
