/** What the state machine guarantees its users, over every run of transactions. */
module Guarantees {
  import opened Units
  import opened Emission
  import opened Accumulator
  import opened LShare
  import opened ShareBook
  import opened Accrual
  import opened Daily
  import opened Ledger
  import opened MintTerms
  import Merkle

  // ----- supply -----

  /** Arguments within their Go types and a signer with a name, whatever a snapshot claims. */
  predicate Typed(op: Op) {
    if op.SetSnapshot? then IsInt64(op.qualifierTotal) && IsInt64(op.burnTotal) else ValidOp(op)
  }

  predicate TypedRun(calls: seq<Call>, now: nat) {
    && (forall i | 0 <= i < |calls| :: Typed(calls[i].op) && now <= calls[i].height)
    && (forall i, j | 0 <= i < j < |calls| :: calls[i].height <= calls[j].height)
  }

  /** A commit that is accepted though its totals are past what the cap check can judge. */
  predicate OverCap(sha: string -> Merkle.Hash, s: State, c: Call) {
    c.op.SetSnapshot? && Apply(sha, s, c).1 && !CapCheckHolds(c.op.qualifierTotal, c.op.burnTotal)
  }

  /** No commit of the run is one of those. */
  ghost predicate NeverOverCap(sha: string -> Merkle.Hash, s: State, calls: seq<Call>) {
    calls == []
    || var front, last := calls[..|calls| - 1], calls[|calls| - 1];
       NeverOverCap(sha, s, front) && !OverCap(sha, Run(sha, s, front), last)
  }

  predicate BeyondTheCap(s: State) {
    s.mig.root.Some? && s.mig.burn + s.mig.total + EMISSION_CAP > HISTORIC_HARD_CAP
  }

  /** One transaction takes a sane state out of its invariant exactly when it is such a commit. */
  lemma StepStaysSaneExactly(sha: string -> Merkle.Hash, s: State, prev: nat, c: Call)
    requires Sane(s, prev) && prev <= c.height && Typed(c.op)
    ensures Sane(Apply(sha, s, c).0, c.height) <==> !OverCap(sha, s, c)
    ensures OverCap(sha, s, c) ==> BeyondTheCap(Apply(sha, s, c).0)
  {
    if ValidOp(c.op) {
      hide SaneOwing, Apply;
      StepKeepsSane(sha, s, prev, c);
      if OverCap(sha, s, c) { NegativeTotalsAreRefused(sha, s, c); }
    } else if OverCap(sha, s, c) {
      CommitGoesBeyond(sha, s, prev, c);
      hide Apply, Good, Conserved, NothingNegative, GoodPositions, SumBy;
    } else {
      LaterIsStillSane(s, prev, c.height);
      hide SaneOwing, Wrap64;
    }
  }

  lemma NegativeTotalsAreRefused(sha: string -> Merkle.Hash, s: State, c: Call)
    requires c.op.SetSnapshot? && Apply(sha, s, c).1
    ensures c.op.qualifierTotal >= 0 && c.op.burnTotal >= 0
  {
  }

  lemma CommitGoesBeyond(sha: string -> Merkle.Hash, s: State, prev: nat, c: Call)
    requires Sane(s, prev) && Typed(c.op) && OverCap(sha, s, c)
    ensures BeyondTheCap(Apply(sha, s, c).0)
  {
    hide Good, Conserved, NothingNegative, GoodPositions, SumBy, DayOf, Wrap64, Credit;
    AcceptedSnapshotMeetsTheCapExactly(s, c.op.newRoot, c.op.qualifierTotal, c.op.burnTotal);
  }

  /** Nothing that follows repairs it. */
  lemma BeyondStaysBeyond(sha: string -> Merkle.Hash, s: State, c: Call, now: nat)
    requires BeyondTheCap(s)
    ensures BeyondTheCap(Apply(sha, s, c).0) && !Sane(Apply(sha, s, c).0, now)
  {
    StepKeepsCommitment(sha, s, c);
    hide Apply, Good, Conserved, NothingNegative, GoodPositions, SumBy;
  }

  /**
   * For every run of calls, accepted or refused: the state it ends in is sane exactly when
   * no accepted commit was past what the cap check can judge.
   */
  lemma {:induction false} RunStaysSaneExactly(sha: string -> Merkle.Hash, s: State, now: nat, calls: seq<Call>)
    requires Sane(s, now) && TypedRun(calls, now)
    ensures Sane(Run(sha, s, calls), LastHeight(calls, now)) <==> NeverOverCap(sha, s, calls)
    ensures !NeverOverCap(sha, s, calls) ==> BeyondTheCap(Run(sha, s, calls))
  {
    hide SaneOwing, Apply, BeyondTheCap, OverCap, Typed;
    if calls != [] {
      var front, last := calls[..|calls| - 1], calls[|calls| - 1];
      RunStaysSaneExactly(sha, s, now, front);
      if NeverOverCap(sha, s, front) {
        StepStaysSaneExactly(sha, Run(sha, s, front), LastHeight(front, now), last);
      } else {
        BeyondStaysBeyond(sha, Run(sha, s, front), last, last.height);
      }
    }
  }

  /**
   * At every reachable state, unless a commit went past the cap check: no more than 51M was
   * ever issued, the emitted counter is the schedule's closed form at the settled height,
   * every unit issued is in a balance, an open position or a pool, the L-Share pool covers
   * all yield owed and held, and each account votes with exactly the shares of its open
   * mints the walk has not retired.
   */
  lemma AtEveryReachableState(sha: string -> Merkle.Hash, genesis: nat, hpd: nat, now: nat, calls: seq<Call>)
    requires GoodClock(hpd) && genesis < TWO_64 && TypedRun(calls, now)
    requires NeverOverCap(sha, Initial(genesis, hpd), calls)
    ensures var s := Run(sha, Initial(genesis, hpd), calls);
            && Sane(s, LastHeight(calls, now))
            && 0 <= s.migrated + s.y.emitted <= HISTORIC_HARD_CAP
            && s.y.emitted == TotalEmittedAt(DefaultSchedule(s.Genesis()), s.y.settled)
            && Held(s.balances) + Locked(s.y.book) + PoolSum(s.y.pools) == s.migrated + s.y.emitted
            && Total(s.y.book.mints, Earned(s.y)) + s.y.held * ACC_SCALE <= s.y.pools.lshare * ACC_SCALE
            && VotesAgree(s.y.book) && ActiveAgrees(s.y.book)
  {
    hide Run, Total, SumBy, Held, TotalEmittedAt, DayOf, TypedRun, NeverOverCap, Initial;
    InitialIsSane(genesis, hpd, now);
    RunStaysSaneExactly(sha, Initial(genesis, hpd), now, calls);
    SupplyUnderTheCap(Run(sha, Initial(genesis, hpd), calls), LastHeight(calls, now));
  }

  /**
   * The walk never counts a day that is not over: the settled height is the start of its
   * day and not past the latest call, and no more than a day short of it once a call
   * reported the walk current.
   */
  lemma SettledIsNeverAhead(s: State, now: nat)
    requires Sane(s, now)
    ensures s.y.settled == s.Genesis() + s.y.book.day * s.Hpd()
    ensures now >= s.Genesis() ==> s.y.settled <= now
    ensures now >= s.Genesis() && s.y.book.day >= TargetDay(s.y.book, now) ==> now < s.y.settled + s.Hpd()
    ensures now <= s.Genesis() ==> s.y.book.day == 0
  {
    hide Sound, Solvent, EmittedBy, DayOf, Conserved, NothingNegative, GoodPositions, MigrationOk;
    DayOfExactly(s.Genesis(), s.Hpd(), now);
    MulMono(s.Hpd(), s.y.book.day, DayOf(s.Genesis(), s.Hpd(), now));
    if s.y.book.day >= TargetDay(s.y.book, now) {
      MulMono(s.Hpd(), DayOf(s.Genesis(), s.Hpd(), now) + 1, s.y.book.day + 1);
    }
  }

  lemma {:induction false} TotalBelow(ms: seq<Mint>, w: Mint -> int, u: Mint -> int)
    requires forall j | 0 <= j < |ms| :: w(ms[j]) <= u(ms[j])
    ensures Total(ms, w) <= Total(ms, u)
  {
    if ms != [] { TotalBelow(ms[..|ms| - 1], w, u); }
  }

  /**
   * No sum the contract stores comes near the edge of an int64, so its unchecked additions
   * are exact; the accumulator's reading, which is added to under a check, stays an int64.
   */
  lemma FiguresFit(s: State, now: nat)
    requires Sane(s, now)
    ensures forall a :: 0 <= Read(s.balances, a) <= HISTORIC_HARD_CAP
    ensures forall a :: 0 <= Read(s.y.book.votes, a) <= s.y.book.active
    ensures forall d: int | d >= s.y.book.day :: 0 <= Read(s.y.book.exp, d) <= s.y.book.active
    ensures 0 <= s.y.book.active && 4 * s.y.book.active <= 9 * HISTORIC_HARD_CAP
    ensures 0 <= s.y.acc <= MAX_AMOUNT
    ensures 0 <= s.y.held <= s.y.pools.lshare && 0 <= PoolSum(s.y.pools) <= HISTORIC_HARD_CAP
  {
    hide Total, SumBy, DueDay, OnClock, ListsAgree, Shape, Earned, Readings;
    var b := s.y.book;
    RoomForDue(s, now, 0);
    AccountsAreNonNegative(s);
    HeldIsInThePool(s.y);
    ActiveIsBounded(b);
    forall a ensures 0 <= Read(b.votes, a) <= b.active {
      VotingIsNonNegative(b, a, b.day, Read(b.cursor, b.day));
      TotalBelow(b.mints, VotingFor(b.genesis, b.hpd, a, b.day, Read(b.cursor, b.day)),
                 LiveFrom(b.genesis, b.hpd, b.day));
    }
    forall d: int | d >= b.day ensures 0 <= Read(b.exp, d) <= b.active {
      TotalAtLeast(b.mints, MaturingOn(b.genesis, b.hpd, d), 0);
      TotalBelow(b.mints, MaturingOn(b.genesis, b.hpd, d), LiveFrom(b.genesis, b.hpd, b.day));
    }
  }

  // ----- the cap check at commit -----

  /**
   * An accepted commit leaves everything under the hard cap exactly when the two totals
   * stay below 2^63 less the emission cap: the check adds without an overflow test, so a
   * larger snapshot wraps negative and passes.
   */
  lemma AcceptedSnapshotMeetsTheCapExactly(s: State, root: Option<Merkle.Hash>, q: int, b: int)
    requires s.migrated == 0 && IsInt64(q) && IsInt64(b)
    requires Snapshot(s, root, q, b).1
    ensures 0 <= q && 0 <= b
    ensures q + b + EMISSION_CAP <= HISTORIC_HARD_CAP <==> CapCheckHolds(q, b)
  {
    assert q + b >= TWO_63 ==> Wrap64(q + b) == q + b - TWO_64;
    assert q + b + EMISSION_CAP >= TWO_63 ==> Wrap64(q + b + EMISSION_CAP) == q + b + EMISSION_CAP - TWO_64;
  }

  /** A snapshot of almost 2^63 units that the check lets through. */
  lemma HugeSnapshotPasses(root: Merkle.Hash, genesis: nat, hpd: nat)
    ensures var (s, accepted) := Snapshot(Initial(genesis, hpd), Some(root), MAX_AMOUNT, 0);
            accepted && s.mig.total + EMISSION_CAP > HISTORIC_HARD_CAP
  {
    assert Wrap64(MAX_AMOUNT + EMISSION_CAP) == MAX_AMOUNT + EMISSION_CAP - TWO_64;
  }

  // ----- receipts -----

  /** Whatever happens in a step, receipts stay as written and at most one is added. */
  lemma StepKeepsReceipts(sha: string -> Merkle.Hash, s: State, c: Call)
    ensures var s' := Apply(sha, s, c).0;
            forall a | a in s.mig.receipts :: a in s'.mig.receipts && s'.mig.receipts[a] == s.mig.receipts[a]
    ensures Apply(sha, s, c).1 && c.op.Claim? ==>
              c.op.sender !in s.mig.receipts
              && Apply(sha, s, c).0.mig.receipts == s.mig.receipts[c.op.sender := Claimed(c.op.liquid, c.op.staked)]
  {
    hide Walked, Registered, Settle, Recycled, Credit, LeafAccepted, Wrap64, AddChecked, Payable, NewMint, Taken;
  }

  lemma {:induction false} RunKeepsReceipts(sha: string -> Merkle.Hash, s: State, calls: seq<Call>)
    ensures var s' := Run(sha, s, calls);
            forall a | a in s.mig.receipts :: a in s'.mig.receipts && s'.mig.receipts[a] == s.mig.receipts[a]
  {
    if calls != [] {
      RunKeepsReceipts(sha, s, calls[..|calls| - 1]);
      StepKeepsReceipts(sha, Run(sha, s, calls[..|calls| - 1]), calls[|calls| - 1]);
      hide Apply;
    }
  }

  /** No account collects twice: once a claim of `a` is accepted, every later one is refused, whatever lies between. */
  lemma NobodyCollectsTwice(sha: string -> Merkle.Hash, s: State, first: Call, between: seq<Call>, second: Call)
    requires first.op.Claim? && second.op.Claim? && first.op.sender == second.op.sender
    requires Apply(sha, s, first).1
    ensures !Apply(sha, Run(sha, Apply(sha, s, first).0, between), second).1
  {
    StepKeepsReceipts(sha, s, first);
    RunKeepsReceipts(sha, Apply(sha, s, first).0, between);
    StepKeepsReceipts(sha, Run(sha, Apply(sha, s, first).0, between), second);
    hide Apply, Run;
  }

  // ----- the end of the window -----

  lemma StepKeepsCommitment(sha: string -> Merkle.Hash, s: State, c: Call)
    requires s.mig.root.Some?
    ensures var g, g' := s.mig, Apply(sha, s, c).0.mig;
            g'.root == g.root && g'.total == g.total && g'.burn == g.burn && (g.swept ==> g'.swept)
    ensures Apply(sha, s, c).1 && c.op.SweepUnclaimed? ==> !s.mig.swept && Apply(sha, s, c).0.mig.swept
  {
    hide Walked, Registered, Settle, Recycled, Credit, LeafAccepted, Wrap64, AddChecked, Payable, NewMint, Taken;
  }

  lemma {:induction false} RunKeepsCommitment(sha: string -> Merkle.Hash, s: State, calls: seq<Call>)
    requires s.mig.root.Some?
    ensures var g, g' := s.mig, Run(sha, s, calls).mig;
            g'.root == g.root && g'.total == g.total && g'.burn == g.burn && (g.swept ==> g'.swept)
  {
    if calls != [] {
      RunKeepsCommitment(sha, s, calls[..|calls| - 1]);
      StepKeepsCommitment(sha, Run(sha, s, calls[..|calls| - 1]), calls[|calls| - 1]);
      hide Apply;
    }
  }

  /**
   * A sweep is final: it brings the migrated supply to the committed total exactly, and
   * after it, through any later transactions, that supply never moves and no sweep is
   * accepted again.
   */
  lemma SweepFixesTheSupply(
    sha: string -> Merkle.Hash, s: State, prev: nat, sweep: Call, later: seq<Call>, last: Call)
    requires Sane(s, prev) && prev <= sweep.height && sweep.op.SweepUnclaimed? && Apply(sha, s, sweep).1
    requires ValidRun(later, sweep.height) && last.op.SweepUnclaimed?
    ensures var s' := Run(sha, Apply(sha, s, sweep).0, later);
            s'.migrated == s.mig.burn + s.mig.total && !Apply(sha, s', last).1
  {
    StepKeepsSane(sha, s, prev, sweep);
    assert s.mig.root.Some?;
    StepKeepsCommitment(sha, s, sweep);
    var swept := Apply(sha, s, sweep).0;
    RunKeepsSane(sha, swept, sweep.height, later);
    RunKeepsCommitment(sha, swept, later);
    StepKeepsCommitment(sha, Run(sha, swept, later), last);
    hide Apply, Run, Good, Held, Total, SumBy;
  }

  /**
   * No balance and no position moved: everything committed and never claimed is in the
   * L-Share pool, beyond that pool's quarter of the emission counted meanwhile, and went
   * through the reading the call's own walk had left.
   */
  ghost predicate SweptInto(s: State, s': State, height: nat) {
    var x := s'.y.emitted - s.y.emitted;
    && s'.balances == s.balances && s'.y.book.mints == s.y.book.mints && x % 8 == 0
    && !s.mig.swept && s'.mig == s.mig.(swept := true) && s'.migrated == s.mig.burn + s.mig.total
    && s'.y.pools.lshare == s.y.pools.lshare + x / 4 + (s.mig.total - s.mig.claimed)
    && TakesIn(Accrued(s.y, height).0, s'.y, s.mig.total - s.mig.claimed)
  }

  lemma SweepFillsThePool(sha: string -> Merkle.Hash, s: State, prev: nat, c: Call)
    requires Sane(s, prev) && prev <= c.height && c.op.SweepUnclaimed? && Apply(sha, s, c).1
    ensures SweptInto(s, Apply(sha, s, c).0, c.height)
  {
    hide TakesIn, Good, Held, Total, SumBy, Walked, AccumulatorStep, DayOf, GoodPositions, NothingNegative, Conserved;
    SweepTakesIn(sha, s, prev, c);
    GoodIsOnClock(s.y);
    WalkCreditsExactly(s.y, TargetDay(s.y.book, c.height), MAX_ACCRUAL_DAYS, USER_RETIRE_BUDGET);
    WalkTouchesNoMint(s.y, TargetDay(s.y.book, c.height), MAX_ACCRUAL_DAYS, USER_RETIRE_BUDGET);
  }

  lemma SweepTakesIn(sha: string -> Merkle.Hash, s: State, prev: nat, c: Call)
    requires Sane(s, prev) && prev <= c.height && c.op.SweepUnclaimed? && Apply(sha, s, c).1
    ensures TakesIn(Accrued(s.y, c.height).0, Apply(sha, s, c).0.y, s.mig.total - s.mig.claimed)
  {
    hide SaneOwing, Walked, Good, Recycled, TakesIn, Steps;
    LaterIsStillSane(s, prev, c.height);
    WalkKeepsSane(s, c.height, MAX_ACCRUAL_DAYS, USER_RETIRE_BUDGET);
    CommittedIsBounded(s, c.height);
    AccruedSteps(s, c.height, s.mig.total - s.mig.claimed);
    RecycledIsTakenIn(Accrued(s.y, c.height).0, s.mig.total - s.mig.claimed);
  }

  lemma CommittedIsBounded(s: State, now: nat)
    requires Sane(s, now)
    ensures 0 <= s.mig.claimed <= s.mig.total <= HISTORIC_HARD_CAP
  {
    hide Good, Conserved, NothingNegative, GoodPositions, SumBy, DayOf;
  }

  lemma AccruedSteps(s: State, height: nat, amount: int)
    requires Sane(s, height) && 0 <= amount <= HISTORIC_HARD_CAP
    ensures Good(Accrued(s.y, height).0) && Steps(Accrued(s.y, height).0, amount)
  {
    hide SaneOwing, Walked, Good, Steps;
    WalkKeepsSane(s, height, MAX_ACCRUAL_DAYS, USER_RETIRE_BUDGET);
    SaneYieldIsGood(s.(y := Accrued(s.y, height).0), height);
    GoodSteps(Accrued(s.y, height).0, amount);
  }

  lemma SaneYieldIsGood(s: State, now: nat)
    requires Sane(s, now)
    ensures Good(s.y)
  {
  }

  lemma GoodIsOnClock(y: Yield)
    requires Good(y)
    ensures OnClock(y)
  {
  }

  // ----- refusals -----

  /** Balances, supply, the migration record and every mint are as they were. */
  ghost predicate Unmoved(s: State, s': State) {
    s'.balances == s.balances && s'.migrated == s.migrated && s'.mig == s.mig && s'.y.book.mints == s.y.book.mints
  }

  /** A refused transaction moves no money. All it can leave behind is the walk's own progress. */
  lemma RefusalMovesNoMoney(sha: string -> Merkle.Hash, s: State, c: Call)
    requires !Apply(sha, s, c).1
    ensures var s' := Apply(sha, s, c).0;
            && Unmoved(s, s')
            && (s'.y == s.y || s'.y == Accrued(s.y, c.height).0
                || (c.op.Advance?
                    && s'.y == Walked(s.y, TargetDay(s.y.book, c.height), c.op.maxDays, MAX_RETIRE_PER_WALK).0))
  {
    hide Walked, Registered, Settle, Settled, Recycled, Credit, MayClaim, LeafAccepted, Payable, NewMint, Taken,
         CanArmGoodAccounting;
    WalkTouchesNoMint(s.y, TargetDay(s.y.book, c.height), MAX_ACCRUAL_DAYS, USER_RETIRE_BUDGET);
    if c.op.Advance? { WalkTouchesNoMint(s.y, TargetDay(s.y.book, c.height), c.op.maxDays, MAX_RETIRE_PER_WALK); }
  }

  /**
   * One new position of `sender`, all of its principal debited from that account, for as
   * many shares as its terms grant, stamped with the live reading.
   */
  ghost predicate Locks(
    s: State, s': State, height: nat, sender: string, principal: int, days: nat, start: int, end: int)
  {
    && OnlyPays(s.balances, s'.balances, sender, -principal)
    && principal <= Read(s.balances, sender)
    && |s'.y.book.mints| == |s.y.book.mints| + 1
    && s'.y.book.mints[..|s.y.book.mints|] == s.y.book.mints
    && var n := s'.y.book.mints[|s.y.book.mints|];
       && n.owner == sender && n.principal == principal && n.start == height && n.days == days
       && !n.ended && !n.goodAccounting && 0 < 4 * n.shares <= 9 * n.principal
       && Grants(principal, days, MintParams(start, end, ShareRate(s.Genesis(), height)), n.shares)
       && n.accStart == Accrued(s.y, height).0.acc
  }

  /** An accepted mint locks exactly what it debits, from its own signer, and earns from the live reading on. */
  lemma CreateLocksWhatItDebits(sha: string -> Merkle.Hash, s: State, prev: nat, c: Call)
    requires Sane(s, prev) && prev <= c.height && ValidOp(c.op) && c.op.CreateMint? && Apply(sha, s, c).1
    ensures var op := c.op;
            Locks(s, Apply(sha, s, c).0, c.height, op.sender, op.principal, op.days, op.volumeStart, op.volumeEnd)
  {
    hide SaneOwing, Walked, Registered, NewMint, ShareRate, Grants, OnlyPays;
    var op, y := c.op, Accrued(s.y, c.height).0;
    WalkTouchesNoMint(s.y, TargetDay(s.y.book, c.height), MAX_ACCRUAL_DAYS, USER_RETIRE_BUDGET);
    NewMintIsGood(op.sender, op.principal, op.days, c.height, s.Genesis(), op.volumeStart, op.volumeEnd);
    var p := MintParams(op.volumeStart, op.volumeEnd, ShareRate(s.Genesis(), c.height));
    var m := NewMint(op.sender, op.principal, op.days, c.height, p);
    RateAtLeastGenesis(s.Genesis(), c.height);
    NewMintIsGranted(op.sender, op.principal, op.days, c.height, p);
    RegisterFrame(y, m.value);
    DebitOnlyPays(s.balances, op.sender, op.principal);
  }

  lemma NewMintIsGranted(sender: string, principal: int, days: nat, height: nat, p: MintParams)
    requires InRange(principal, p)
    ensures var m := NewMint(sender, principal, days, height, p);
            m.Some? ==> && Grants(principal, days, p, m.value.shares) && m.value.days == days
                        && !m.value.goodAccounting
  {
    hide ComputeShares, Grants;
    if ComputeShares(principal, days, p).Some? { SharesAreGranted(principal, days, p); }
  }

  lemma DebitOnlyPays(balances: map<string, int>, a: string, amount: int)
    ensures OnlyPays(balances, Write(balances, a, Read(balances, a) - amount), a, -amount)
  {
  }

  // ----- one claim, unit by unit -----

  /**
   * `amount` newly issued units are all somewhere: what balances gained, what new positions
   * lock, and what was recycled into the L-Share pool beyond that pool's quarter of the
   * emission counted meanwhile.
   */
  ghost predicate Placed(s: State, s': State, amount: int) {
    var x := s'.y.emitted - s.y.emitted;
    var credited := Held(s'.balances) - Held(s.balances);
    var locked := Locked(s'.y.book) - Locked(s.y.book);
    var recycled := s'.y.pools.lshare - s.y.pools.lshare - x / 4;
    && s'.migrated - s.migrated == amount == credited + locked + recycled
    && x % 8 == 0 && s'.y.pools.viral == s.y.pools.viral + x / 8
    && s'.y.pools.deep == s.y.pools.deep + 3 * (x / 8) && s'.y.pools.liquidity == s.y.pools.liquidity + x / 4
  }

  /** An accepted claim issues liquid + staked and puts every unit of it somewhere. */
  lemma ClaimPlacesEveryUnit(sha: string -> Merkle.Hash, s: State, prev: nat, c: Call)
    requires Sane(s, prev) && prev <= c.height && ValidOp(c.op) && c.op.Claim? && Apply(sha, s, c).1
    ensures Placed(s, Apply(sha, s, c).0, c.op.liquid + c.op.staked)
  {
    hide Apply, SaneOwing, OnClock, Held, Total;
    StepKeepsSane(sha, s, prev, c);
    SaneConserves(s, prev);
    SaneConserves(Apply(sha, s, c).0, c.height);
    ClaimMovesPools(sha, s, c);
  }

  lemma SaneConserves(s: State, now: nat)
    requires Sane(s, now)
    ensures Conserved(s, 0) && OnClock(s.y)
  {
  }

  /** A claim touches the three other pools only through the walk. */
  lemma ClaimMovesPools(sha: string -> Merkle.Hash, s: State, c: Call)
    requires c.op.Claim? && Apply(sha, s, c).1 && OnClock(s.y)
    ensures var s', x := Apply(sha, s, c).0, Apply(sha, s, c).0.y.emitted - s.y.emitted;
            && s'.migrated - s.migrated == c.op.liquid + c.op.staked
            && x % 8 == 0 && x / 8 + 3 * (x / 8) + x / 4 + x / 4 == x
            && s'.y.pools.viral == s.y.pools.viral + x / 8
            && s'.y.pools.deep == s.y.pools.deep + 3 * (x / 8) && s'.y.pools.liquidity == s.y.pools.liquidity + x / 4
  {
    hide Walked, AddMint, Settle, Credit, MayClaim, AccumulatorStep, OnClock;
    WalkCreditsExactly(s.y, TargetDay(s.y.book, c.height), MAX_ACCRUAL_DAYS, USER_RETIRE_BUDGET);
  }

  /** Nobody's balance but a's moved between the two, and that by `paid`. */
  ghost predicate OnlyPays(balances: map<string, int>, balances': map<string, int>, a: string, paid: int) {
    forall x :: Read(balances', x) == Read(balances, x) + if x == a then paid else 0
  }

  lemma CreditOnlyPays(balances: map<string, int>, a: string, amount: int)
    requires amount >= 0
    ensures OnlyPays(balances, Credit(balances, a, amount), a, amount)
  {
  }

  /** Whether a claim at this height makes a live position of the stake. */
  predicate ClaimsLive(s: State, height: nat, staked: int) {
    staked > 0 && height < s.Genesis() + MIGRATION_MINT_DAYS * s.Hpd()
  }

  /** What a claim pays out: the liquid part, and from maturity on what the stake's mint would pay that day. */
  function ClaimPay(s: State, height: nat, sender: string, liquid: int, staked: int): int {
    liquid + if staked <= 0 || ClaimsLive(s, height, staked) then 0
             else Settle(s.Hpd(), MigrationMint(s, sender, staked), height, 0).toOwner
  }

  /** What of a stake claimed at this height has bled away and goes to the pool. */
  function ClaimRecycles(s: State, height: nat, sender: string, staked: int): int {
    if staked <= 0 || ClaimsLive(s, height, staked) then 0
    else Settle(s.Hpd(), MigrationMint(s, sender, staked), height, 0).toRewardPool
  }

  /**
   * One more mint: the stake of an account, a share a unit, for 30 days from genesis, stamped
   * with the live reading.
   */
  ghost predicate StakeLives(s: State, s': State, height: nat, sender: string, staked: int) {
    var before, mints := s.y.book.mints, s'.y.book.mints;
    && |mints| == |before| + 1 && mints[..|before|] == before
    && var n := mints[|before|];
       && n.owner == sender && n.principal == n.shares == staked && n.start == s.Genesis() && n.days == 30
       && !n.ended && !n.goodAccounting && n.accStart == Accrued(s.y, height).0.acc && s.y.book.MatDay(n) == 30
  }

  /**
   * The signer alone is paid. Before maturity the stake becomes a live position, from then on
   * what bled away goes into the pool and through the reading.
   */
  ghost predicate Collects(s: State, s': State, height: nat, sender: string, liquid: int, staked: int) {
    && OnlyPays(s.balances, s'.balances, sender, ClaimPay(s, height, sender, liquid, staked))
    && (if ClaimsLive(s, height, staked) then StakeLives(s, s', height, sender, staked)
        else s'.y.book.mints == s.y.book.mints)
    && TakesIn(if ClaimsLive(s, height, staked) then Accrued(s.y, height).0.(book := s'.y.book) else s.y,
               s'.y, ClaimRecycles(s, height, sender, staked))
  }

  /** An accepted claim pays its own signer and nobody else. */
  lemma ClaimPaysItsSigner(sha: string -> Merkle.Hash, s: State, prev: nat, c: Call)
    requires Sane(s, prev) && prev <= c.height && c.op.Claim? && Apply(sha, s, c).1
    ensures Collects(s, Apply(sha, s, c).0, c.height, c.op.sender, c.op.liquid, c.op.staked)
  {
    hide SaneOwing, Apply, OnlyPays, StakeLives, TakesIn, ClaimPay, ClaimRecycles;
    ClaimPaysAlone(sha, s, prev, c);
    ClaimTakesIn(sha, s, prev, c);
  }

  lemma ClaimTakesIn(sha: string -> Merkle.Hash, s: State, prev: nat, c: Call)
    requires Sane(s, prev) && prev <= c.height && c.op.Claim? && Apply(sha, s, c).1
    ensures var s', live := Apply(sha, s, c).0, ClaimsLive(s, c.height, c.op.staked);
            TakesIn(if live then Accrued(s.y, c.height).0.(book := s'.y.book) else s.y,
                    s'.y, ClaimRecycles(s, c.height, c.op.sender, c.op.staked))
  {
    hide SaneOwing, Walked, Settle, Credit, Recycled, AddMint, AddChecked, Wrap64, LeafAccepted, Steps, Good, TakesIn;
    LaterIsStillSane(s, prev, c.height);
    ClaimIsInRange(sha, s, c);
    ClaimIsBounded(sha, s, c);
    ClockIsOk(s, c.height);
    SaneYieldIsGood(s, c.height);
    NothingTakenIn(s.y);
    var y, m := Accrued(s.y, c.height).0, MigrationMint(s, c.op.sender, c.op.staked);
    NothingTakenIn(Registered(y, m));
    RegisteredIs(y, m);
    if c.op.staked > 0 {
      SettleConserves(s.Hpd(), m, c.height, 0);
      var back := Settle(s.Hpd(), m, c.height, 0).toRewardPool;
      GoodSteps(s.y, back);
      RecycledIsTakenIn(s.y, back);
    }
  }

  lemma NothingTakenIn(y: Yield)
    ensures Recycled(y, 0) == y && TakesIn(y, y, 0)
  {
  }

  lemma RegisteredIs(y: Yield, m: Mint)
    ensures Registered(y, m) == y.(book := Registered(y, m).book)
  {
    hide AddMint;
  }

  lemma ClaimIsBounded(sha: string -> Merkle.Hash, s: State, c: Call)
    requires Sane(s, c.height) && c.op.Claim? && Apply(sha, s, c).1
    ensures c.op.staked <= HISTORIC_HARD_CAP
  {
    hide Good, Conserved, NothingNegative, GoodPositions, Walked, Settle, Settled, Registered, LeafAccepted, SumBy;
    ClaimSumsAreExact(sha, s, c.height, c.op.sender, c.op.liquid, c.op.staked, c.op.proof);
  }

  lemma ClaimPaysAlone(sha: string -> Merkle.Hash, s: State, prev: nat, c: Call)
    requires Sane(s, prev) && prev <= c.height && c.op.Claim? && Apply(sha, s, c).1
    ensures var s', live := Apply(sha, s, c).0, ClaimsLive(s, c.height, c.op.staked);
            && OnlyPays(s.balances, s'.balances, c.op.sender,
                        ClaimPay(s, c.height, c.op.sender, c.op.liquid, c.op.staked))
            && if live then StakeLives(s, s', c.height, c.op.sender, c.op.staked)
               else s'.y.book.mints == s.y.book.mints
  {
    hide SaneOwing, Walked, Settle, Credit, Recycled, Registered, DueDay, AddChecked, Wrap64, LeafAccepted, OnlyPays;
    var op, m := c.op, MigrationMint(s, c.op.sender, c.op.staked);
    var y := Accrued(s.y, c.height).0;
    LaterIsStillSane(s, prev, c.height);
    ClaimIsInRange(sha, s, c);
    ClockIsOk(s, c.height);
    WalkTouchesNoMint(s.y, TargetDay(s.y.book, c.height), MAX_ACCRUAL_DAYS, USER_RETIRE_BUDGET);
    CreditOnlyPays(s.balances, op.sender, op.liquid);
    RecyclingTouchesNoMint(s.y, 0);
    if op.staked > 0 {
      MigrationMintDay(s, op.sender, op.staked, c.height);
      SettleConserves(s.Hpd(), m, c.height, 0);
      var st := Settle(s.Hpd(), m, c.height, 0);
      CreditOnlyPays(s.balances, op.sender, op.liquid + st.toOwner);
      RecyclingTouchesNoMint(s.y, st.toRewardPool);
      RegisterFrame(y, m);
      RecyclingTouchesNoMint(Registered(y, m), 0);
      EnteredDueDay(s.y.book, m, y.acc, AppendChunk(y.book, y.book.MatDay(m)));
    }
  }

  lemma EnteredDueDay(b: Book, m: Mint, acc: int, n: nat)
    ensures b.MatDay(m.(accStart := acc, expChunk := n)) == b.MatDay(m)
  {
  }

  lemma RecyclingTouchesNoMint(y: Yield, amount: int)
    ensures Recycled(y, amount).book == y.book
  {
    hide AccumulatorStep;
  }

  lemma ClaimIsInRange(sha: string -> Merkle.Hash, s: State, c: Call)
    requires Sane(s, c.height) && c.op.Claim? && Apply(sha, s, c).1
    ensures MayClaim(sha, s, c.height, c.op.sender, c.op.liquid, c.op.staked, c.op.proof)
    ensures 0 <= c.op.liquid && 0 <= c.op.staked <= MAX_AMOUNT
  {
    hide Good, Conserved, NothingNegative, GoodPositions, Walked, Settle, Settled, Registered, LeafAccepted, SumBy;
    ClaimSumsAreExact(sha, s, c.height, c.op.sender, c.op.liquid, c.op.staked, c.op.proof);
  }

  // ----- one close, unit by unit -----

  /**
   * The mint's owner alone is paid: the surviving part of principal and yield, the yield
   * being the mint's own entitlement in full. That mint ends and no other. What did not
   * survive goes back into the pool and through the reading, over the shares left live.
   */
  ghost predicate PaysClose(s: State, s': State, height: nat, owner: string, id: nat, sweep: bool) {
    && id < |s.y.book.mints| && !s.y.book.mints[id].ended && s.y.book.mints[id].owner == owner
    && var y, m := Accrued(s.y, height).0, s.y.book.mints[id];
       var st := Settle(s.Hpd(), m, height, Entitlement(m.shares, m.accStart, EndAcc(y, m)));
       && OnlyPays(s.balances, s'.balances, owner, st.toOwner)
       && s'.y.book.mints == s.y.book.mints[id := m.(ended := true)]
       && (sweep ==> st.toOwner == 0)
       && TakesIn(WithoutMint(y, s'.y.book, Entitlement(m.shares, m.accStart, EndAcc(y, m))), s'.y, st.toRewardPool)
  }

  /** What a close leaves of the walk before anything is recycled: the book it ends with, the yield out of the pool. */
  ghost function WithoutMint(y: Yield, after: Book, paidOut: int): Yield {
    y.(book := after, pools := y.pools.(lshare := y.pools.lshare - paidOut))
  }

  lemma CloseTakesIn(sha: string -> Merkle.Hash, s: State, prev: nat, c: Call)
    requires Sane(s, prev) && prev <= c.height && c.op.EndMint? && Apply(sha, s, c).1
    ensures c.op.id < |s.y.book.mints|
    ensures var s', y, m := Apply(sha, s, c).0, Accrued(s.y, c.height).0, s.y.book.mints[c.op.id];
            var out := Entitlement(m.shares, m.accStart, EndAcc(y, m));
            TakesIn(WithoutMint(y, s'.y.book, out), s'.y, Settle(s.Hpd(), m, c.height, out).toRewardPool)
  {
    hide SaneOwing, Walked, Settle, Credit, Recycled, Taken, Payable, DueDay, Entitlement, EndAcc, TakesIn, Good, Steps;
    LaterIsStillSane(s, prev, c.height);
    var y := Accrued(s.y, c.height).0;
    WalkTouchesNoMint(s.y, TargetDay(s.y.book, c.height), MAX_ACCRUAL_DAYS, USER_RETIRE_BUDGET);
    CloseIsPaid(s, c.height, c.op.id);
    CloseSteps(s, c.height, c.op.id);
    var m := y.book.mints[c.op.id];
    var out := Payable(y, m, IsMature(s.Hpd(), m, c.height));
    var st := Settle(s.Hpd(), m, c.height, out);
    RecycledIsTakenIn(Taken(y, c.op.id, out), st.toRewardPool);
    RecyclingTouchesNoMint(Taken(y, c.op.id, out), st.toRewardPool);
    TakenIs(y, c.op.id, out);
  }

  lemma TakenIs(y: Yield, id: nat, out: int)
    requires id < |y.book.mints|
    ensures Taken(y, id, out) == WithoutMint(y, Taken(y, id, out).book, out)
  {
    hide CloseMint;
  }

  lemma CloseSteps(s: State, height: nat, id: nat)
    requires Sane(s, height) && id < |s.y.book.mints| && !s.y.book.mints[id].ended
    requires var y := Accrued(s.y, height).0;
             && id < |y.book.mints|
             && (IsMature(s.Hpd(), y.book.mints[id], height) ==> y.book.MatDay(y.book.mints[id]) < y.book.day)
    ensures var y := Accrued(s.y, height).0;
            var m := y.book.mints[id];
            var out := Payable(y, m, IsMature(s.Hpd(), m, height));
            Steps(Taken(y, id, out), Settle(s.Hpd(), m, height, out).toRewardPool)
  {
    hide Good, Held, Total, DayOf, SumBy, Walked, Settle, Payable, Earned, MigrationOk, GoodPositions, DueDay, Steps,
         Taken;
    var y := Accrued(s.y, height).0;
    var s1 := s.(y := y);
    WalkKeepsSane(s, height, MAX_ACCRUAL_DAYS, USER_RETIRE_BUDGET);
    ClockIsOk(s1, height);
    PayableIsEarned(y, id, height);
    RoomForDue(s1, height, 0);
    AccountsAreNonNegative(s1);
    PositionIsGood(s1.y.book, id);
    var m := y.book.mints[id];
    var out := Payable(y, m, IsMature(s.Hpd(), m, height));
    SettleConserves(s.Hpd(), m, height, out);
    CloseKeepsGood(y, id, out);
    GoodSteps(Taken(y, id, out), Settle(s.Hpd(), m, height, out).toRewardPool);
  }

  /** An accepted close pays the mint's owner and nobody else. */
  lemma ClosePaysTheOwner(sha: string -> Merkle.Hash, s: State, prev: nat, c: Call)
    requires Sane(s, prev) && prev <= c.height && c.op.EndMint? && Apply(sha, s, c).1
    ensures PaysClose(s, Apply(sha, s, c).0, c.height, c.op.owner, c.op.id, c.op.sweep)
  {
    hide SaneOwing, Apply, TakesIn, WithoutMint, OnlyPays, Walked, Settle, Entitlement, EndAcc;
    CloseTakesIn(sha, s, prev, c);
    CloseEndsOne(sha, s, prev, c);
  }

  lemma CloseEndsOne(sha: string -> Merkle.Hash, s: State, prev: nat, c: Call)
    requires Sane(s, prev) && prev <= c.height && c.op.EndMint? && Apply(sha, s, c).1
    ensures c.op.id < |s.y.book.mints| && !s.y.book.mints[c.op.id].ended && s.y.book.mints[c.op.id].owner == c.op.owner
    ensures var s', y, m := Apply(sha, s, c).0, Accrued(s.y, c.height).0, s.y.book.mints[c.op.id];
            var st := Settle(s.Hpd(), m, c.height, Entitlement(m.shares, m.accStart, EndAcc(y, m)));
            && OnlyPays(s.balances, s'.balances, m.owner, st.toOwner)
            && s'.y.book.mints == s.y.book.mints[c.op.id := m.(ended := true)]
            && (c.op.sweep ==> st.toOwner == 0)
  {
    hide SaneOwing, Walked, Settle, Credit, Recycled, Taken, Payable, DueDay, Entitlement, OnlyPays, EndAcc;
    LaterIsStillSane(s, prev, c.height);
    var y := Accrued(s.y, c.height).0;
    WalkTouchesNoMint(s.y, TargetDay(s.y.book, c.height), MAX_ACCRUAL_DAYS, USER_RETIRE_BUDGET);
    CloseIsPaid(s, c.height, c.op.id);
    var m := y.book.mints[c.op.id];
    var out := Payable(y, m, IsMature(s.Hpd(), m, c.height));
    var st := Settle(s.Hpd(), m, c.height, out);
    TakenFrame(y, c.op.id, out);
    RecyclingTouchesNoMint(Taken(y, c.op.id, out), st.toRewardPool);
    CreditOnlyPays(s.balances, m.owner, st.toOwner);
  }

  lemma CloseIsPaid(s: State, height: nat, id: nat)
    requires Sane(s, height) && id < |s.y.book.mints| && !s.y.book.mints[id].ended
    requires var y := Accrued(s.y, height).0;
             && id < |y.book.mints|
             && (IsMature(s.Hpd(), y.book.mints[id], height) ==> y.book.MatDay(y.book.mints[id]) < y.book.day)
    ensures var y := Accrued(s.y, height).0;
            var m := y.book.mints[id];
            var out := Payable(y, m, IsMature(s.Hpd(), m, height));
            && out == Entitlement(m.shares, m.accStart, EndAcc(y, m))
            && 0 <= Settle(s.Hpd(), m, height, out).toOwner
  {
    hide Good, Held, Total, DayOf, SumBy, Walked, Settle, Payable, Earned, MigrationOk, GoodPositions, DueDay,
         Entitlement, EndAcc;
    var y := Accrued(s.y, height).0;
    var s1 := s.(y := y);
    WalkKeepsSane(s, height, MAX_ACCRUAL_DAYS, USER_RETIRE_BUDGET);
    ClockIsOk(s1, height);
    PayableIsEarned(y, id, height);
    RoomForDue(s1, height, 0);
    AccountsAreNonNegative(s1);
    PositionIsGood(s1.y.book, id);
    SettleConserves(s.Hpd(), y.book.mints[id], height,
                    Payable(y, y.book.mints[id], IsMature(s.Hpd(), y.book.mints[id], height)));
  }

  /** Only mint `id` moves, only its armed flag, and at every height at least as much of it survives as before. */
  ghost predicate OnlyArms(s: State, s': State, id: nat) {
    && id < |s.y.book.mints| && s' == s.(y := s.y.(book := s.y.book.(mints := s'.y.book.mints)))
    && var m := s.y.book.mints[id];
       && s'.y.book.mints == s.y.book.mints[id := m.(goodAccounting := true)]
       && forall h: nat :: BleedRemaining(s.Hpd(), s'.y.book.mints[id], h) >= BleedRemaining(s.Hpd(), m, h)
  }

  /** A sweep can never take a unit from anyone: no balance moves, whoever called it. */
  lemma SweepTakesFromNobody(sha: string -> Merkle.Hash, s: State, prev: nat, c: Call, a: string)
    requires Sane(s, prev) && prev <= c.height && c.op.EndMint? && c.op.sweep && Apply(sha, s, c).1
    ensures Read(Apply(sha, s, c).0.balances, a) == Read(s.balances, a)
  {
    hide Apply, SaneOwing;
    ClosePaysTheOwner(sha, s, prev, c);
  }

  // ----- only committed entries, and every committed entry -----

  /**
   * The strings hashed while one proof is checked against the tree do not collide or spell out
   * each other's digests.
   */
  ghost predicate HashesApart(
    sha: string -> Merkle.Hash, entries: seq<Merkle.Entry>, e: Merkle.Entry, proof: seq<Merkle.Hash>)
    requires e.InTypes() && forall x | x in entries :: x.InTypes()
  {
    && Merkle.NoCollision(sha, Merkle.Hashed(sha, Merkle.Texts(entries), e.Text(), proof))
    && forall t | t in Merkle.Texts(entries) + [e.Text()] ::
         Merkle.NoDigestInText(sha, Merkle.Hashed(sha, Merkle.Texts(entries), e.Text(), proof), t)
  }

  ghost predicate CallHashesApart(sha: string -> Merkle.Hash, entries: seq<Merkle.Entry>, op: Op)
    requires forall x | x in entries :: x.InTypes()
  {
    match op
    case Claim(a, l, k, Some(proof)) =>
      IsInt64(l) && IsInt64(k) ==> HashesApart(sha, entries, Merkle.Entry(a, l, k, false), proof)
    case RecordBurn(a, l, k, Some(proof)) =>
      IsInt64(l) && IsInt64(k) ==> HashesApart(sha, entries, Merkle.Entry(a, l, k, true), proof)
    case _ => true
  }

  ghost function RootOfSnapshot(sha: string -> Merkle.Hash, entries: seq<Merkle.Entry>): Merkle.Hash
    requires entries != [] && forall x | x in entries :: x.InTypes()
  {
    Merkle.RootOf(sha, Merkle.Hashes(sha, Merkle.Texts(entries)))
  }

  /** The root in force is that of these entries, and only they have been paid or recorded. */
  ghost predicate CommittedAs(sha: string -> Merkle.Hash, s: State, entries: seq<Merkle.Entry>) {
    && entries != [] && (forall x | x in entries :: x.InTypes())
    && s.mig.root == Some(RootOfSnapshot(sha, entries)) && OnlyCommitted(s, entries)
  }

  function EntryOfReceipt(a: string, r: Receipt): Merkle.Entry { Merkle.Entry(a, r.liquid, r.staked, r.Burned?) }

  /** Every receipt names an entry of the snapshot: the account, both amounts, and its kind. */
  ghost predicate OnlyCommitted(s: State, entries: seq<Merkle.Entry>) {
    forall a | a in s.mig.receipts :: EntryOfReceipt(a, s.mig.receipts[a]) in entries
  }

  lemma StepWritesCommittedOnly(sha: string -> Merkle.Hash, s: State, entries: seq<Merkle.Entry>, c: Call)
    requires CommittedAs(sha, s, entries) && CallHashesApart(sha, entries, c.op)
    ensures OnlyCommitted(Apply(sha, s, c).0, entries)
  {
    hide Walked, Registered, Settle, Recycled, Credit, Wrap64, AddChecked, Payable, NewMint, Taken,
         Merkle.Verifies, Merkle.RootOf, Merkle.LeafText, Merkle.NoCollision, Merkle.Hashed;
    match c.op
    case Claim(a, l, k, Some(proof)) =>
      if IsInt64(l) && IsInt64(k) && LeafAccepted(sha, s, Merkle.Entry(a, l, k, false), Some(proof)) {
        Merkle.AcceptedEntryIsCommitted(sha, entries, Merkle.Entry(a, l, k, false), proof);
      }
    case RecordBurn(a, l, k, Some(proof)) =>
      if IsInt64(l) && IsInt64(k) && LeafAccepted(sha, s, Merkle.Entry(a, l, k, true), Some(proof)) {
        Merkle.AcceptedEntryIsCommitted(sha, entries, Merkle.Entry(a, l, k, true), proof);
      }
    case _ =>
  }

  /** One transaction, accepted or refused, pays or records nothing but the snapshot's own entries. */
  lemma StepKeepsCommittedAs(sha: string -> Merkle.Hash, s: State, entries: seq<Merkle.Entry>, c: Call)
    requires CommittedAs(sha, s, entries) && CallHashesApart(sha, entries, c.op)
    ensures CommittedAs(sha, Apply(sha, s, c).0, entries)
  {
    StepKeepsCommitment(sha, s, c);
    StepWritesCommittedOnly(sha, s, entries, c);
    hide Apply, OnlyCommitted;
  }

  /** From the commit on, through any transactions, only the snapshot's own entries are ever paid or recorded. */
  lemma {:induction false} OnlyCommittedEntriesAreTaken(
    sha: string -> Merkle.Hash, s: State, entries: seq<Merkle.Entry>, calls: seq<Call>)
    requires CommittedAs(sha, s, entries)
    requires forall c | c in calls :: CallHashesApart(sha, entries, c.op)
    ensures CommittedAs(sha, Run(sha, s, calls), entries)
  {
    if calls != [] {
      var front, c := calls[..|calls| - 1], calls[|calls| - 1];
      assert forall d | d in front :: d in calls;
      assert c in calls;
      OnlyCommittedEntriesAreTaken(sha, s, entries, front);
      StepKeepsCommittedAs(sha, Run(sha, s, front), entries, c);
      hide Apply, CommittedAs;
    }
  }

  /** The total a snapshot commits for its claimable entries. */
  ghost function Qualifying(entries: seq<Merkle.Entry>): int {
    if entries == [] then 0
    else
      var e := entries[|entries| - 1];
      Qualifying(entries[..|entries| - 1]) + (if e.burned then 0 else e.liquid + e.staked)
  }

  /** Receipts of distinct accounts, each naming an entry, add up to no more than the entries do. */
  lemma {:induction false} ReceiptsWithinSnapshot(receipts: map<string, Receipt>, entries: seq<Merkle.Entry>)
    requires forall e | e in entries :: e.liquid >= 0 && e.staked >= 0
    requires forall a | a in receipts :: EntryOfReceipt(a, receipts[a]) in entries
    ensures SumBy(receipts, TakenBy()) <= Qualifying(entries)
  {
    if entries == [] {
      assert receipts == map[];
    } else {
      var e, front := entries[|entries| - 1], entries[..|entries| - 1];
      assert entries == front + [e];
      if e.account in receipts && EntryOfReceipt(e.account, receipts[e.account]) == e {
        SumTakesOut(receipts, TakenBy(), e.account);
        ReceiptsWithinSnapshot(receipts - {e.account}, front);
      } else {
        ReceiptsWithinSnapshot(receipts, front);
      }
    }
  }

  /**
   * Nobody is crowded out: where the committed total is what the snapshot's claimable
   * entries add up to, an account's own committed entry, not yet collected, is accepted
   * any time before the deadline, whoever claimed before it; while its stake would still
   * be locked the accrual must be current.
   */
  lemma HonestClaimSucceeds(
    sha: string -> Merkle.Hash, s: State, prev: nat, entries: seq<Merkle.Entry>, pos: nat, height: nat)
    requires Sane(s, prev) && pos < |entries| <= 0x1_0000_0000 && !entries[pos].burned
    requires forall e | e in entries :: e.InTypes() && e.liquid >= 0 && e.staked >= 0
    requires s.mig.root == Some(RootOfSnapshot(sha, entries)) && OnlyCommitted(s, entries)
    requires s.mig.total == Qualifying(entries)
    requires entries[pos].liquid + entries[pos].staked > 0
    requires entries[pos].account != BURN_ACCOUNT && entries[pos].account !in s.mig.receipts
    requires height < DeadlineHeight(s.Genesis(), s.Hpd())
    requires entries[pos].staked > 0 && height < s.Genesis() + MIGRATION_MINT_DAYS * s.Hpd() ==> Accrued(s.y, height).1
    ensures var e, leaves := entries[pos], Merkle.Hashes(sha, Merkle.Texts(entries));
            Apply(sha, s, Call(height, Claim(e.account, e.liquid, e.staked, Some(Merkle.ProofOf(sha, leaves, pos))))).1
  {
    hide Walked, Settled, Registered, Settle, MayClaim;
    HonestClaimIsAllowed(sha, s, prev, entries, pos, height);
  }

  lemma HonestClaimIsAllowed(
    sha: string -> Merkle.Hash, s: State, prev: nat, entries: seq<Merkle.Entry>, pos: nat, height: nat)
    requires Sane(s, prev) && pos < |entries| <= 0x1_0000_0000 && !entries[pos].burned
    requires forall e | e in entries :: e.InTypes() && e.liquid >= 0 && e.staked >= 0
    requires s.mig.root == Some(RootOfSnapshot(sha, entries)) && OnlyCommitted(s, entries)
    requires s.mig.total == Qualifying(entries)
    requires entries[pos].liquid + entries[pos].staked > 0
    requires entries[pos].account != BURN_ACCOUNT && entries[pos].account !in s.mig.receipts
    requires height < DeadlineHeight(s.Genesis(), s.Hpd())
    ensures var e, leaves := entries[pos], Merkle.Hashes(sha, Merkle.Texts(entries));
            MayClaim(sha, s, height, e.account, e.liquid, e.staked, Some(Merkle.ProofOf(sha, leaves, pos)))
  {
    hide Good, Held, Total, DayOf, SumBy, Qualifying, Merkle.RootOf, Merkle.ProofOf, Merkle.LeafText, Merkle.Verifies;
    var e, leaves := entries[pos], Merkle.Hashes(sha, Merkle.Texts(entries));
    RoomForOneMore(s, prev, entries, e);
    Merkle.EveryLeafVerifies(sha, leaves, pos);
    assert e == Merkle.Entry(e.account, e.liquid, e.staked, false);
  }

  /** An entry not yet collected still fits under the committed total. */
  lemma RoomForOneMore(s: State, prev: nat, entries: seq<Merkle.Entry>, e: Merkle.Entry)
    requires Sane(s, prev) && OnlyCommitted(s, entries) && s.mig.total == Qualifying(entries)
    requires e in entries && !e.burned && e.account !in s.mig.receipts
    requires forall x | x in entries :: x.liquid >= 0 && x.staked >= 0
    ensures 0 <= s.mig.claimed && s.mig.claimed + e.liquid + e.staked <= s.mig.total <= HISTORIC_HARD_CAP
  {
    hide Good, Held, Total, DayOf, SumBy, Qualifying;
    var after := s.mig.receipts[e.account := Claimed(e.liquid, e.staked)];
    ReceiptsWithinSnapshot(after, entries);
    SumPuts(s.mig.receipts, TakenBy(), e.account, Claimed(e.liquid, e.staked));
  }

  // ----- when a matured mint is claimed does not matter -----

  /** m' is m later in its life: only its armed and ended flags may have moved, and ended stays. */
  predicate LaterSelf(m: Mint, m': Mint) {
    && m' == m.(goodAccounting := m'.goodAccounting, ended := m'.ended)
    && (m.ended ==> m'.ended)
  }

  /** Nothing of y is rewritten in y': days passed keep their checkpoints, and mints their records. */
  ghost predicate KeepsHistory(y: Yield, y': Yield) {
    && y'.book.genesis == y.book.genesis && y'.book.hpd == y.book.hpd && y.book.day <= y'.book.day
    && (forall d: int | d < y.book.day :: Read(y'.accAt, d) == Read(y.accAt, d))
    && |y.book.mints| <= |y'.book.mints|
    && (forall j | 0 <= j < |y.book.mints| :: LaterSelf(y.book.mints[j], y'.book.mints[j]))
  }

  lemma HistoryComposes(a: Yield, b: Yield, c: Yield)
    requires KeepsHistory(a, b) && KeepsHistory(b, c)
    ensures KeepsHistory(a, c)
  {
    forall j | 0 <= j < |a.book.mints| ensures LaterSelf(a.book.mints[j], c.book.mints[j]) {
      assert LaterSelf(a.book.mints[j], b.book.mints[j]) && LaterSelf(b.book.mints[j], c.book.mints[j]);
    }
  }

  lemma WalkKeepsHistory(y: Yield, target: nat, days: int, budget: nat)
    ensures KeepsHistory(y, Walked(y, target, days, budget).0)
  {
    hide Loop;
    LoopFrame(Start(y, budget), target, CappedDays(days));
    forall d: int | d < y.book.day
      ensures Read(Loop(Start(y, budget), target, CappedDays(days)).accAt, d) == Read(y.accAt, d)
    {
      LoopKeepsCheckpoints(Start(y, budget), target, CappedDays(days), d);
    }
  }

  lemma RecyclingKeepsHistory(y: Yield, amount: int)
    ensures KeepsHistory(y, Recycled(y, amount))
  {
    hide AccumulatorStep;
  }

  lemma RegisteringKeepsHistory(y: Yield, m: Mint)
    ensures KeepsHistory(y, Registered(y, m))
  {
    hide Registered;
    RegisterFrame(y, m);
  }

  lemma TakingKeepsHistory(y: Yield, id: nat, out: int)
    requires id < |y.book.mints|
    ensures KeepsHistory(y, Taken(y, id, out))
  {
    hide Taken;
    TakenFrame(y, id, out);
  }

  lemma ClaimKeepsHistory(
    sha: string -> Merkle.Hash, s: State, height: nat, sender: string, liquid: int, staked: int,
    proof: Option<seq<Merkle.Hash>>)
    ensures KeepsHistory(s.y, ClaimLeaf(sha, s, height, sender, liquid, staked, proof).0.y)
  {
    hide Walked, Settle, Credit, MayClaim, Registered, Recycled, KeepsHistory;
    var y, m := Accrued(s.y, height).0, MigrationMint(s, sender, staked);
    var st := Settle(s.Hpd(), m, height, 0);
    WalkKeepsHistory(s.y, TargetDay(s.y.book, height), MAX_ACCRUAL_DAYS, USER_RETIRE_BUDGET);
    RegisteringKeepsHistory(y, m);
    RecyclingKeepsHistory(Registered(y, m), 0);
    HistoryComposes(s.y, y, Registered(y, m));
    HistoryComposes(s.y, Registered(y, m), Recycled(Registered(y, m), 0));
    RecyclingKeepsHistory(s.y, st.toRewardPool);
    RecyclingKeepsHistory(s.y, 0);
    NoHistoryAtAll(s.y);
  }

  lemma ArmingKeepsHistory(y: Yield, id: nat)
    requires id < |y.book.mints|
    ensures KeepsHistory(y, y.(book := ArmMint(y.book, id)))
  {
  }

  lemma NoHistoryAtAll(y: Yield)
    ensures KeepsHistory(y, y)
  {
  }

  lemma CloseKeepsHistory(s: State, height: nat, owner: string, id: nat, sweep: bool)
    ensures KeepsHistory(s.y, ClosePosition(s, height, owner, id, sweep).0.y)
  {
    hide Walked, Settle, Credit, Payable, Taken, Recycled, KeepsHistory;
    NoHistoryAtAll(s.y);
    if id < |s.y.book.mints| {
      var y := Accrued(s.y, height).0;
      WalkTouchesNoMint(s.y, TargetDay(s.y.book, height), MAX_ACCRUAL_DAYS, USER_RETIRE_BUDGET);
      WalkKeepsHistory(s.y, TargetDay(s.y.book, height), MAX_ACCRUAL_DAYS, USER_RETIRE_BUDGET);
      var m := y.book.mints[id];
      var out := Payable(y, m, IsMature(s.Hpd(), m, height));
      var taken, back := Taken(y, id, out), Settle(s.Hpd(), m, height, out).toRewardPool;
      TakingKeepsHistory(y, id, out);
      RecyclingKeepsHistory(taken, back);
      HistoryComposes(s.y, y, taken);
      HistoryComposes(s.y, taken, Recycled(taken, back));
    }
  }

  lemma StepKeepsHistory(sha: string -> Merkle.Hash, s: State, c: Call)
    ensures KeepsHistory(s.y, Apply(sha, s, c).0.y)
  {
    hide Walked, KeepsHistory, ClaimLeaf, ClosePosition, NewMint, Registered, Recycled, LeafAccepted;
    var target := TargetDay(s.y.book, c.height);
    var y := Accrued(s.y, c.height).0;
    NoHistoryAtAll(s.y);
    WalkKeepsHistory(s.y, target, MAX_ACCRUAL_DAYS, USER_RETIRE_BUDGET);
    match c.op
    case Claim(sender, liquid, staked, proof) => ClaimKeepsHistory(sha, s, c.height, sender, liquid, staked, proof);
    case ArmGoodAccounting(sender, id) => if id < |s.y.book.mints| { ArmingKeepsHistory(s.y, id); }
    case EndMint(owner, id, sweep) => CloseKeepsHistory(s, c.height, owner, id, sweep);
    case Advance(maxDays) => WalkKeepsHistory(s.y, target, maxDays, MAX_RETIRE_PER_WALK);
    case SweepUnclaimed =>
      var rest := s.mig.total - s.mig.claimed;
      RecyclingKeepsHistory(y, rest);
      HistoryComposes(s.y, y, Recycled(y, rest));
    case CreateMint(sender, principal, days, start, end) =>
      var made := NewMint(sender, principal, days, c.height, MintParams(start, end, ShareRate(s.Genesis(), c.height)));
      if made.Some? {
        RegisteringKeepsHistory(y, made.value);
        HistoryComposes(s.y, y, Registered(y, made.value));
      }
    case _ =>
  }

  lemma {:induction false} RunKeepsHistory(sha: string -> Merkle.Hash, s: State, calls: seq<Call>)
    ensures KeepsHistory(s.y, Run(sha, s, calls).y)
  {
    hide KeepsHistory, Apply;
    if calls == [] {
      NoHistoryAtAll(s.y);
    } else {
      var front := Run(sha, s, calls[..|calls| - 1]);
      RunKeepsHistory(sha, s, calls[..|calls| - 1]);
      StepKeepsHistory(sha, front, calls[|calls| - 1]);
      HistoryComposes(s.y, front.y, Run(sha, s, calls).y);
    }
  }

  /**
   * Once the walk has closed a mint's last day its yield is fixed: through any later
   * transactions, whenever its owner claims, the close pays the same entitlement in full,
   * never cut by the guard against overdrawing the pool.
   */
  lemma YieldIsFixedOnceTheDayCloses(
    sha: string -> Merkle.Hash, s: State, prev: nat, calls: seq<Call>, j: nat)
    requires Sane(s, prev) && ValidRun(calls, prev)
    requires j < |s.y.book.mints| && s.y.book.MatDay(s.y.book.mints[j]) < s.y.book.day
    requires j < |Run(sha, s, calls).y.book.mints| && !Run(sha, s, calls).y.book.mints[j].ended
    ensures var m, y' := s.y.book.mints[j], Run(sha, s, calls).y;
            Payable(y', y'.book.mints[j], true)
            == Entitlement(m.shares, m.accStart, Read(s.y.accAt, s.y.book.MatDay(m)))
  {
    RunKeepsSane(sha, s, prev, calls);
    RunKeepsHistory(sha, s, calls);
    hide Run, Apply;
    PaysItsCheckpoint(s, Run(sha, s, calls), LastHeight(calls, prev), j);
  }

  lemma PaysItsCheckpoint(s: State, s': State, now: nat, j: nat)
    requires Sane(s', now) && KeepsHistory(s.y, s'.y)
    requires j < |s.y.book.mints| && s.y.book.MatDay(s.y.book.mints[j]) < s.y.book.day && !s'.y.book.mints[j].ended
    ensures var m := s.y.book.mints[j];
            Payable(s'.y, s'.y.book.mints[j], true)
            == Entitlement(m.shares, m.accStart, Read(s.y.accAt, s.y.book.MatDay(m)))
  {
    hide Sound, Solvent, OnClock, Held, Total, SumBy, Entitlement, Earned, DayOf;
    var y' := s'.y;
    assert LaterSelf(s.y.book.mints[j], y'.book.mints[j]);
    YieldIsInThePool(y', j);
  }
}
