/** Where `advance` may be called without changing what the transactions around it do. */
module Interleaving {
  import opened Units
  import opened Emission
  import opened Accumulator
  import opened LShare
  import opened ShareBook
  import opened Accrual
  import opened Ledger
  import Guarantees
  import Merkle

  // ----- further on the same course -----

  /** y' is y further on: the fold of both agrees on every day from `today` on, and y' has no more work before it. */
  ghost predicate Further(y: Yield, y': Yield, today: nat) {
    && y.book.day <= y'.book.day
    && forall d: nat | d >= today :: DaysTo(y, d) == DaysTo(y', d) && Work(y'.book, d) <= Work(y.book, d)
  }

  lemma FurtherLater(y: Yield, y': Yield, today: nat, later: nat)
    requires Further(y, y', today) && today <= later
    ensures Further(y, y', later)
  {
  }

  lemma NoFurther(y: Yield, today: nat)
    ensures Further(y, y, today)
  {
  }

  /** Two states on one course that both stand at a day agreed on are the same state. */
  lemma MeetsAt(y: Yield, y': Yield, today: nat)
    requires Further(y, y', today) && y.book.day >= today
    ensures y' == y
  {
    assert DaysTo(y, today) == DaysTo(y', today);
    FoldStands(y, today);
    FoldStands(y', today);
  }

  lemma FoldStands(y: Yield, today: nat)
    requires y.book.day >= today
    ensures DaysTo(y, today) == y
  {
  }

  /** A call of the walk goes further on its own course. */
  lemma WalkGoesFurther(y: Yield, y': Yield, today: nat, target: nat, days: int, budget: nat)
    requires OnClock(y') && Further(y, y', today) && today <= target
    ensures Further(y, Walked(y', target, days, budget).0, target)
  {
    hide DaysTo, Work, Walked, OnClock;
    var y2 := Walked(y', target, days, budget).0;
    WalkLessensWork(y', target, days, budget, target);
    forall d: nat | d >= target ensures DaysTo(y, d) == DaysTo(y2, d) && Work(y2.book, d) <= Work(y.book, d) {
      WalkKeepsFold(y', target, days, budget, d);
      WalkLessensWork(y', target, days, budget, d);
    }
  }

  /**
   * What an ordinary transaction can catch up from y it can catch up from further on, and it ends
   * in the same state.
   */
  lemma CatchesUpTheSame(y: Yield, y': Yield, today: nat, height: nat)
    requires OnClock(y) && OnClock(y') && Further(y, y', today) && today <= TargetDay(y.book, height)
    requires y'.book.genesis == y.book.genesis && y'.book.hpd == y.book.hpd && Accrued(y, height).1
    ensures Accrued(y', height) == Accrued(y, height)
  {
    hide DaysTo, Work, Walked, OnClock, DayOf;
    var target := TargetDay(y.book, height);
    CatchesUpExactly(y, target, MAX_ACCRUAL_DAYS, USER_RETIRE_BUDGET);
    CatchesUpExactly(y', target, MAX_ACCRUAL_DAYS, USER_RETIRE_BUDGET);
    EndsInTheFold(y, target);
    EndsInTheFold(y', target);
    assert DaysTo(y, target) == DaysTo(y', target) && Work(y'.book, target) <= Work(y.book, target);
  }

  lemma EndsInTheFold(y: Yield, target: nat)
    requires OnClock(y)
    ensures var (y', current) := Walked(y, target, MAX_ACCRUAL_DAYS, USER_RETIRE_BUDGET);
            && (current <==> y'.book.day >= target)
            && (current ==> y' == DaysTo(y, target))
  {
    hide Loop, Commit, OnClock;
    WalkKeepsFold(y, target, MAX_ACCRUAL_DAYS, USER_RETIRE_BUDGET, target);
    var y' := Walked(y, target, MAX_ACCRUAL_DAYS, USER_RETIRE_BUDGET).0;
    if y'.book.day >= target { FoldStands(y', target); }
  }

  // ----- the walk never reads the mints -----

  function WithMints(y: Yield, ms: seq<Mint>): Yield { y.(book := y.book.(mints := ms)) }

  lemma {:induction false} DrainAllIgnoresMints(b: Book, ms: seq<Mint>)
    ensures DrainAll(b.(mints := ms)) == DrainAll(b).(mints := ms)
    decreases ChunksLeft(b)
  {
    if b.Pending() {
      DrainChunkFrame(b);
      assert DrainChunk(b.(mints := ms)) == DrainChunk(b).(mints := ms);
      hide DrainChunk;
      DrainAllIgnoresMints(DrainChunk(b), ms);
    }
  }

  lemma DayStepIgnoresMints(y: Yield, ms: seq<Mint>)
    ensures DayStep(WithMints(y, ms)) == WithMints(DayStep(y), ms)
  {
    hide Stepped, DayEmission, Split, Credited;
    DrainAllIgnoresMints(y.book, ms);
  }

  lemma {:induction false} FoldIgnoresMints(y: Yield, ms: seq<Mint>, last: nat)
    ensures DaysTo(WithMints(y, ms), last) == WithMints(DaysTo(y, last), ms)
    decreases last - y.book.day
  {
    if y.book.day < last {
      DayStepIgnoresMints(y, ms);
      DayStepFrame(y);
      hide DayStep;
      FoldIgnoresMints(DayStep(y), ms, last);
    }
  }

  lemma {:induction false} WorkIgnoresMints(b: Book, ms: seq<Mint>, target: nat)
    ensures Work(b.(mints := ms), target) == Work(b, target)
    decreases if b.day < target then target - b.day else 0, ChunksLeft(b)
  {
    if b.day < target {
      if b.Pending() {
        DrainChunkFrame(b);
        assert DrainChunk(b.(mints := ms)) == DrainChunk(b).(mints := ms);
        WorkIgnoresMints(DrainChunk(b), ms, target);
      } else {
        assert CloseDay(b.(mints := ms)) == CloseDay(b).(mints := ms);
        WorkIgnoresMints(CloseDay(b), ms, target);
      }
    }
  }

  lemma FurtherIgnoresMints(y: Yield, y': Yield, ms: seq<Mint>, today: nat)
    requires Further(y, y', today)
    ensures Further(WithMints(y, ms), WithMints(y', ms), today)
  {
    hide DaysTo, Work;
    forall d: nat | d >= today
      ensures DaysTo(WithMints(y, ms), d) == DaysTo(WithMints(y', ms), d)
      ensures Work(WithMints(y', ms).book, d) <= Work(WithMints(y, ms).book, d)
    {
      FoldIgnoresMints(y, ms, d);
      FoldIgnoresMints(y', ms, d);
      WorkIgnoresMints(y.book, ms, d);
      WorkIgnoresMints(y'.book, ms, d);
      assert DaysTo(y, d) == DaysTo(y', d) && Work(y'.book, d) <= Work(y.book, d);
    }
  }

  // ----- one transaction -----

  /** The same money and the same migration record, the walk of s' being that of s further on. */
  ghost predicate Ahead(s: State, s': State, today: nat) {
    && s'.migrated == s.migrated && s'.balances == s.balances && s'.mig == s.mig
    && s'.y.book.mints == s.y.book.mints && s'.Genesis() == s.Genesis() && s'.Hpd() == s.Hpd()
    && Further(s.y, s'.y, today)
  }

  /**
   * A caller can tell: the call does not read the walk, or recycle value, before the walk is
   * current. Only a claim after maturity recycles without accruing first, only a close goes
   * on when accruing falls short, and only a commit asks that no day was closed yet.
   */
  predicate OrderFree(s: State, c: Call) {
    match c.op
    case SetSnapshot(_, _, _) => s.y.book.day >= TargetDay(s.y.book, c.height)
    case Claim(sender, _, staked, _) =>
      var m := MigrationMint(s, sender, staked);
      staked > 0 && IsMature(s.Hpd(), m, c.height) && Settle(s.Hpd(), m, c.height, 0).toRewardPool > 0
      ==> s.y.book.day >= TargetDay(s.y.book, c.height)
    case EndMint(_, _, _) => Accrued(s.y, c.height).1
    case _ => true
  }

  lemma RecyclesNothing(y: Yield, amount: int)
    ensures amount <= 0 ==> Recycled(y, amount) == y
  {
  }

  lemma ClaimStaysAhead(
    sha: string -> Merkle.Hash, s: State, s': State, today: nat, height: nat, sender: string, liquid: int, staked: int,
    proof: Option<seq<Merkle.Hash>>)
    requires OnClock(s.y) && OnClock(s'.y) && Ahead(s, s', today) && today <= TargetDay(s.y.book, height)
    requires OrderFree(s, Call(height, Claim(sender, liquid, staked, proof)))
    requires ClaimLeaf(sha, s, height, sender, liquid, staked, proof).1
    ensures var (t, _) := ClaimLeaf(sha, s, height, sender, liquid, staked, proof);
            var (t', accepted) := ClaimLeaf(sha, s', height, sender, liquid, staked, proof);
            accepted && Ahead(t, t', TargetDay(s.y.book, height))
  {
    hide Walked, Settle, Credit, Recycled, AddMint, DayOf, Wrap64, AddChecked, OnClock, Further,
         Merkle.Verifies, Merkle.LeafText;
    var today2 := TargetDay(s.y.book, height);
    FurtherLater(s.y, s'.y, today, today2);
    var m := MigrationMint(s, sender, staked);
    if staked > 0 && !IsMature(s.Hpd(), m, height) {
      CatchesUpTheSame(s.y, s'.y, today, height);
      NoFurther(Recycled(Registered(Accrued(s.y, height).0, m), 0), today2);
    } else if staked > 0 {
      var r := Settle(s.Hpd(), m, height, 0).toRewardPool;
      RecyclesNothing(s.y, r);
      RecyclesNothing(s'.y, r);
      if r > 0 {
        MeetsAt(s.y, s'.y, today2);
        NoFurther(Recycled(s.y, r), today2);
      }
    } else {
      RecyclesNothing(s.y, 0);
      RecyclesNothing(s'.y, 0);
    }
  }

  lemma ArmStaysAhead(s: State, s': State, today: nat, height: nat, sender: string, id: nat)
    requires Ahead(s, s', today) && Armed(s, height, sender, id).1
    ensures var (t, _) := Armed(s, height, sender, id);
            var (t', accepted) := Armed(s', height, sender, id);
            accepted && Ahead(t, t', today)
  {
    hide CanArmGoodAccounting, Further;
    var ms := ArmMint(s.y.book, id).mints;
    FurtherIgnoresMints(s.y, s'.y, ms, today);
    assert Armed(s, height, sender, id).0.y == WithMints(s.y, ms);
    assert Armed(s', height, sender, id).0.y == WithMints(s'.y, ms);
  }

  /** Everything that accrues first is the same transaction from further on. */
  lemma AccruingOpsAgree(s: State, s': State, today: nat, c: Call)
    requires OnClock(s.y) && OnClock(s'.y) && Ahead(s, s', today) && today <= TargetDay(s.y.book, c.height)
    requires Accrued(s.y, c.height).1
    ensures Sweep(s, c.height).1 ==> Sweep(s', c.height) == Sweep(s, c.height)
    ensures c.op.CreateMint? ==>
              var (op, h) := (c.op, c.height);
              var t := NewPosition(s, h, op.sender, op.principal, op.days, op.volumeStart, op.volumeEnd);
              t.1 ==> NewPosition(s', h, op.sender, op.principal, op.days, op.volumeStart, op.volumeEnd) == t
    ensures c.op.EndMint? ==>
              var t := ClosePosition(s, c.height, c.op.owner, c.op.id, c.op.sweep);
              t.1 ==> ClosePosition(s', c.height, c.op.owner, c.op.id, c.op.sweep) == t
  {
    hide Walked, Settle, Credit, Recycled, Registered, Taken, Payable, NewMint, ShareRate, DayOf, OnClock, Further,
         DueDay;
    CatchesUpTheSame(s.y, s'.y, today, c.height);
  }

  /** One accepted, order-free transaction from further on: accepted too, and still further on afterwards. */
  lemma StepStaysAhead(sha: string -> Merkle.Hash, s: State, s': State, prev: nat, c: Call)
    requires Sane(s, prev) && Sane(s', prev) && prev <= c.height && !c.op.Advance?
    requires Ahead(s, s', TargetDay(s.y.book, prev)) && Apply(sha, s, c).1 && OrderFree(s, c)
    ensures Apply(sha, s', c).1 && Ahead(Apply(sha, s, c).0, Apply(sha, s', c).0, TargetDay(s.y.book, c.height))
  {
    hide SaneOwing, ClaimLeaf, Sweep, NewPosition, ClosePosition, Armed, Walked, DayOf, Further;
    var today, later := TargetDay(s.y.book, prev), TargetDay(s.y.book, c.height);
    SaneIsOnClock(s, prev);
    SaneIsOnClock(s', prev);
    DayOfRises(s.Genesis(), s.Hpd(), prev, c.height);
    FurtherLater(s.y, s'.y, today, later);
    NoFurther(Apply(sha, s, c).0.y, later);
    match c.op
    case SetSnapshot(_, _, _) => AheadMeets(s, s', later);
    case Claim(sender, liquid, staked, proof) =>
      ClaimStaysAhead(sha, s, s', today, c.height, sender, liquid, staked, proof);
    case ArmGoodAccounting(sender, id) => ArmStaysAhead(s, s', later, c.height, sender, id);
    case RecordBurn(account, liquid, staked, proof) =>
      RecordReadsOnlyTheRecord(sha, s, s', account, liquid, staked, proof);
    case SweepUnclaimed =>
      AcceptedMeansCurrent(sha, s, c);
      AccruingOpsAgree(s, s', today, c);
    case CreateMint(_, _, _, _, _) =>
      AcceptedMeansCurrent(sha, s, c);
      AccruingOpsAgree(s, s', today, c);
    case EndMint(_, _, _) => AccruingOpsAgree(s, s', today, c);
  }

  lemma SaneIsOnClock(s: State, now: nat)
    requires Sane(s, now)
    ensures OnClock(s.y)
  {
  }

  lemma AcceptedMeansCurrent(sha: string -> Merkle.Hash, s: State, c: Call)
    requires (c.op.SweepUnclaimed? || c.op.CreateMint?) && Apply(sha, s, c).1
    ensures Accrued(s.y, c.height).1
  {
    hide Walked;
  }

  lemma RecordReadsOnlyTheRecord(
    sha: string -> Merkle.Hash, s: State, s': State, account: string, liquid: int, staked: int,
    proof: Option<seq<Merkle.Hash>>)
    requires s'.mig == s.mig
    ensures var ((t, accepted), (t', accepted')) :=
              (RecordLeaf(sha, s, account, liquid, staked, proof), RecordLeaf(sha, s', account, liquid, staked, proof));
            accepted' == accepted && t'.mig == t.mig && t == s.(mig := t.mig) && t' == s'.(mig := t'.mig)
  {
    hide Merkle.Verifies, Merkle.LeafText, Wrap64;
  }

  // ----- runs -----

  /** A run with every advance taken out. */
  function Transactions(calls: seq<Call>): seq<Call> {
    if calls == [] then []
    else
      var last := calls[|calls| - 1];
      Transactions(calls[..|calls| - 1]) + if last.op.Advance? then [] else [last]
  }

  /** Every transaction of the run is accepted. */
  ghost predicate Accepted(sha: string -> Merkle.Hash, s: State, calls: seq<Call>) {
    calls == []
    || var front, last := calls[..|calls| - 1], calls[|calls| - 1];
       && Accepted(sha, s, front)
       && (last.op.Advance? || Apply(sha, Run(sha, s, front), last).1)
  }

  /** And none of them asks where the walk stands when it is called. */
  ghost predicate AllOrderFree(sha: string -> Merkle.Hash, s: State, calls: seq<Call>) {
    calls == []
    || var front, last := calls[..|calls| - 1], calls[|calls| - 1];
       AllOrderFree(sha, s, front) && OrderFree(Run(sha, s, front), last)
  }

  lemma OneMoreCall(sha: string -> Merkle.Hash, s: State, calls: seq<Call>, c: Call)
    ensures Run(sha, s, calls + [c]) == Apply(sha, Run(sha, s, calls), c).0
    ensures Accepted(sha, s, calls + [c])
            <==> Accepted(sha, s, calls) && (c.op.Advance? || Apply(sha, Run(sha, s, calls), c).1)
  {
    hide Apply;
    var more := calls + [c];
    assert more[..|more| - 1] == calls && more[|more| - 1] == c;
  }

  /**
   * Advances may be put anywhere into a run of accepted, order-free transactions, with any
   * caps and any number of times: all of them are still accepted, they move the same money
   * and leave the same record, and the walk ends on the same course. Once both have walked
   * to the same day the two states are one.
   */
  lemma {:induction false} AdvancesChangeNothing(
    sha: string -> Merkle.Hash, s: State, now: nat, calls: seq<Call>, with: seq<Call>)
    requires Sane(s, now) && ValidRun(with, now) && calls == Transactions(with)
    requires Accepted(sha, s, calls) && AllOrderFree(sha, s, calls)
    ensures Accepted(sha, s, with)
    ensures Sane(Run(sha, s, calls), LastHeight(with, now)) && Sane(Run(sha, s, with), LastHeight(with, now))
    ensures Ahead(Run(sha, s, calls), Run(sha, s, with), TargetDay(s.y.book, LastHeight(with, now)))
    ensures Run(sha, s, calls).Genesis() == s.Genesis() && Run(sha, s, calls).Hpd() == s.Hpd()
    decreases with
  {
    hide SaneOwing, Apply, OrderFree, Further, DayOf;
    if with == [] {
      NoFurther(s.y, TargetDay(s.y.book, now));
    } else {
      var front, last := with[..|with| - 1], with[|with| - 1];
      var before := LastHeight(front, now);
      if last.op.Advance? {
        AdvancesChangeNothing(sha, s, now, calls, front);
        AdvanceStaysAhead(sha, Run(sha, s, calls), Run(sha, s, front), before, last);
      } else {
        var fewer := Transactions(front);
        assert calls[..|calls| - 1] == fewer && calls[|calls| - 1] == last;
        AdvancesChangeNothing(sha, s, now, fewer, front);
        StepStaysAhead(sha, Run(sha, s, fewer), Run(sha, s, front), before, last);
        StepKeepsSane(sha, Run(sha, s, fewer), before, last);
        StepKeepsSane(sha, Run(sha, s, front), before, last);
        StepKeepsClock(sha, Run(sha, s, fewer), last);
      }
    }
  }

  lemma AdvanceStaysAhead(sha: string -> Merkle.Hash, s: State, s': State, prev: nat, c: Call)
    requires Sane(s, prev) && Sane(s', prev) && prev <= c.height && c.op.Advance? && ValidOp(c.op)
    requires Ahead(s, s', TargetDay(s.y.book, prev))
    ensures Sane(s, c.height) && Sane(Apply(sha, s', c).0, c.height)
    ensures Ahead(s, Apply(sha, s', c).0, TargetDay(s.y.book, c.height))
  {
    LaterIsStillSane(s, prev, c.height);
    StepKeepsSane(sha, s', prev, c);
    SaneIsOnClock(s', prev);
    DayOfRises(s.Genesis(), s.Hpd(), prev, c.height);
    hide SaneOwing, Walked, Further, DayOf, OnClock;
    var today, target := TargetDay(s.y.book, prev), TargetDay(s.y.book, c.height);
    WalkTouchesNoMint(s'.y, target, c.op.maxDays, MAX_RETIRE_PER_WALK);
    WalkGoesFurther(s.y, s'.y, today, target, c.op.maxDays, MAX_RETIRE_PER_WALK);
  }

  lemma StepKeepsClock(sha: string -> Merkle.Hash, s: State, c: Call)
    ensures Apply(sha, s, c).0.Genesis() == s.Genesis() && Apply(sha, s, c).0.Hpd() == s.Hpd()
  {
    Guarantees.StepKeepsHistory(sha, s, c);
    hide Apply;
  }

  /** The states themselves are equal once both have reached the same day. */
  lemma AheadMeets(s: State, s': State, today: nat)
    requires Ahead(s, s', today) && s.y.book.day >= today
    ensures s' == s
  {
    MeetsAt(s.y, s'.y, today);
  }

  // ----- where it matters -----

  /** An advance before the commit leaves it acceptable exactly when it closed no day. */
  lemma CommitAfterAnAdvanceExactly(sha: string -> Merkle.Hash, s: State, prev: nat, advance: Call, commit: Call)
    requires Sane(s, prev) && prev <= advance.height && advance.op.Advance?
    requires commit.op.SetSnapshot? && Apply(sha, s, commit).1
    ensures var s' := Apply(sha, s, advance).0;
            Apply(sha, s', commit).1 <==> s'.y.book.day == 0
  {
    hide SaneOwing, Walked, DayOf;
    var s' := Apply(sha, s, advance).0;
    StepKeepsSane(sha, s, prev, advance);
    Guarantees.WalkKeepsHistory(s.y, TargetDay(s.y.book, advance.height), advance.op.maxDays, MAX_RETIRE_PER_WALK);
    SettledIsADay(s', advance.height);
    SettledIsADay(s, prev);
  }

  /** The settled height is past genesis exactly when a day was closed. */
  lemma SettledIsADay(s: State, now: nat)
    requires Sane(s, now)
    ensures s.y.settled > s.Genesis() <==> s.y.book.day > 0
  {
    hide Sound, Solvent, EmittedBy, DayOf;
    if s.y.book.day > 0 { MulMono(s.Hpd(), 1, s.y.book.day); }
  }
}
