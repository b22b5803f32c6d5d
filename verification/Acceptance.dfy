/** When each transaction is accepted: exactly, by what its caller can see beforehand. */
module Acceptance {
  import opened Units
  import opened Emission
  import opened Accumulator
  import opened LShare
  import opened ShareBook
  import opened Accrual
  import opened Ledger
  import opened Guarantees
  import opened Collection
  import opened MintTerms
  import Interleaving
  import Merkle

  // ----- closing -----

  ghost predicate OpenAndOwned(s: State, owner: string, id: nat) {
    id < |s.y.book.mints| && s.y.book.mints[id].owner == owner && !s.y.book.mints[id].ended
  }

  /** Before its maturity a mint can end early; from then on its last day must have closed. */
  ghost predicate DayAllows(y: Yield, m: Mint, height: nat) {
    height < m.start + m.days * y.book.hpd || y.book.day > y.book.MatDay(m)
  }

  /** What a close would pay the owner, once the walk its own call makes has run. */
  ghost function OwnersPart(s: State, height: nat, id: nat): int
    requires id < |s.y.book.mints|
  {
    var y, m := Accrued(s.y, height).0, s.y.book.mints[id];
    Settle(s.Hpd(), m, height, Entitlement(m.shares, m.accStart, EndAcc(y, m))).toOwner
  }

  ghost predicate MayClose(s: State, height: nat, owner: string, id: nat, sweep: bool) {
    && OpenAndOwned(s, owner, id)
    && DayAllows(Accrued(s.y, height).0, s.y.book.mints[id], height)
    && (sweep ==> OwnersPart(s, height, id) == 0)
  }

  lemma CloseIsAcceptedExactly(sha: string -> Merkle.Hash, s: State, prev: nat, c: Call)
    requires Sane(s, prev) && prev <= c.height && c.op.EndMint?
    ensures Apply(sha, s, c).1 <==> MayClose(s, c.height, c.op.owner, c.op.id, c.op.sweep)
  {
    hide SaneOwing, Walked, Settle, Payable, Entitlement, EndAcc, DueDay, Closed;
    LaterIsStillSane(s, prev, c.height);
    if OpenAndOwned(s, c.op.owner, c.op.id) {
      WalkTouchesNoMint(s.y, TargetDay(s.y.book, c.height), MAX_ACCRUAL_DAYS, USER_RETIRE_BUDGET);
      var y, m := Accrued(s.y, c.height).0, s.y.book.mints[c.op.id];
      if DayAllows(y, m, c.height) { CloseIsPaid(s, c.height, c.op.id); }
    }
  }

  /** Advances move no mint and leave the state sane. */
  lemma {:induction false} AdvancesMoveNoMint(sha: string -> Merkle.Hash, s: State, height: nat, n: nat)
    requires Sane(s, height)
    ensures var s' := Run(sha, s, Advances(height, n));
            && Sane(s', height) && s'.y.book.mints == s.y.book.mints
            && s'.Genesis() == s.Genesis() && s'.Hpd() == s.Hpd()
  {
    hide SaneOwing, Run, Apply, Advances;
    if n == 0 {
      NoAdvances(sha, s, height);
    } else {
      AdvancesMoveNoMint(sha, s, height, n - 1);
      OneMoreAdvance(sha, s, height, n - 1);
      OneAdvance(sha, Run(sha, s, Advances(height, n - 1)), height);
    }
  }

  lemma OneAdvance(sha: string -> Merkle.Hash, s: State, height: nat)
    requires Sane(s, height)
    ensures var s' := Apply(sha, s, Call(height, Advance(0))).0;
            && Sane(s', height) && s'.y.book.mints == s.y.book.mints
            && s'.Genesis() == s.Genesis() && s'.Hpd() == s.Hpd()
  {
    hide SaneOwing, Walked, DayOf;
    WalkKeepsSane(s, height, 0, MAX_RETIRE_PER_WALK);
  }

  /** The walk of a call at this height ends at today at the latest, and at today once it is current. */
  lemma AccruedDay(s: State, height: nat)
    requires Sane(s, height)
    ensures var (y, current) := Accrued(s.y, height);
            y.book.day <= TargetDay(s.y.book, height) && (current ==> y.book.day == TargetDay(s.y.book, height))
  {
    InTimeToday(s, height);
    hide SaneOwing, DayOf, Loop;
    DaysAreCapped(s.y, TargetDay(s.y.book, height), MAX_ACCRUAL_DAYS, USER_RETIRE_BUDGET);
  }

  lemma InTimeToday(s: State, height: nat)
    requires Sane(s, height)
    ensures s.y.book.day <= TargetDay(s.y.book, height)
  {
  }

  /** The owner's close is accepted at this height, if need be after calls of the permissionless advance. */
  ghost predicate Closable(sha: string -> Merkle.Hash, s: State, height: nat, owner: string, id: nat) {
    exists n: nat :: Apply(sha, Run(sha, s, Advances(height, n)), Call(height, EndMint(owner, id, false))).1
  }

  /**
   * An owner can close an open mint at every height but the rest of the day it matures on:
   * early before its maturity, and for everything once that day is over. On that day itself
   * no number of advances helps.
   */
  lemma OwnerCanCloseExactly(sha: string -> Merkle.Hash, s: State, height: nat, owner: string, id: nat)
    requires Sane(s, height)
    ensures Closable(sha, s, height, owner, id)
            <==> && OpenAndOwned(s, owner, id)
                 && var m := s.y.book.mints[id];
                    height < m.start + m.days * s.Hpd() || TargetDay(s.y.book, height) > s.y.book.MatDay(m)
  {
    hide SaneOwing, Run, Apply, Advances, DayOf, Walked, OpenAndOwned, DayAllows;
    var c := Call(height, EndMint(owner, id, false));
    forall n: nat
      ensures Apply(sha, Run(sha, s, Advances(height, n)), c).1
              ==> OpenAndOwned(s, owner, id) && TodayAllows(s, height, id)
    {
      var s' := Run(sha, s, Advances(height, n));
      AdvancesMoveNoMint(sha, s, height, n);
      CloseIsAcceptedExactly(sha, s', height, c);
      SameOwner(s, s', owner, id);
      AccruedDay(s', height);
      if MayClose(s', height, owner, id, false) { DayAllowsToday(s, s', height, id); }
    }
    if OpenAndOwned(s, owner, id) && TodayAllows(s, height, id) {
      var n := EnoughAdvances(sha, s, height);
      var s' := Run(sha, s, Advances(height, n));
      AdvancesMoveNoMint(sha, s, height, n);
      CloseIsAcceptedExactly(sha, s', height, c);
      SameOwner(s, s', owner, id);
      AccruedDay(s', height);
      DayAllowsToday(s, s', height, id);
    }
    TodayIs(s, height, owner, id);
  }

  ghost predicate TodayAllows(s: State, height: nat, id: nat) {
    && id < |s.y.book.mints|
    && var m := s.y.book.mints[id];
       height < m.start + m.days * s.Hpd() || TargetDay(s.y.book, height) > s.y.book.MatDay(m)
  }

  lemma TodayIs(s: State, height: nat, owner: string, id: nat)
    ensures OpenAndOwned(s, owner, id) ==> id < |s.y.book.mints|
  {
  }

  lemma SameOwner(s: State, s': State, owner: string, id: nat)
    requires s'.y.book.mints == s.y.book.mints
    ensures OpenAndOwned(s', owner, id) <==> OpenAndOwned(s, owner, id)
    ensures OpenAndOwned(s', owner, id) ==> id < |s.y.book.mints|
  {
  }

  /** What the day allows after advances is at most what today does, and as much once they made the walk current. */
  lemma DayAllowsToday(s: State, s': State, height: nat, id: nat)
    requires id < |s.y.book.mints| && s'.y.book.mints == s.y.book.mints
    requires s'.Genesis() == s.Genesis() && s'.Hpd() == s.Hpd()
    requires var (y, current) := Accrued(s'.y, height);
             y.book.day <= TargetDay(s.y.book, height) && (current ==> y.book.day == TargetDay(s.y.book, height))
    ensures var (y, current) := Accrued(s'.y, height);
            && (DayAllows(y, s'.y.book.mints[id], height) ==> TodayAllows(s, height, id))
            && (current && TodayAllows(s, height, id) ==> DayAllows(y, s'.y.book.mints[id], height))
  {
    hide Walked, DayOf;
    WalkTouchesNoMint(s'.y, TargetDay(s'.y.book, height), MAX_ACCRUAL_DAYS, USER_RETIRE_BUDGET);
  }

  /**
   * Anybody may sweep a mint whose owner would get nothing: after maturity once the bleed
   * left less than one unit of principal and yield together, and before maturity a mint of
   * a single unit, which an early end rounds to nothing.
   */
  lemma NothingLeftExactly(hpd: nat, m: Mint, height: nat, rewards: int)
    requires hpd > 0 && 0 < m.principal && 0 <= rewards && m.principal + rewards <= MAX_AMOUNT
    ensures Settle(hpd, m, height, rewards).toOwner == 0
            <==> if height < m.start + m.days * hpd then m.principal == 1
                 else (m.principal + rewards) * BleedRemaining(hpd, m, height) < 100_000_000
  {
    hide MulDiv, BleedRemaining, EarlyEndRecovery, Settle;
    OwnerGetsTheSurvivingPart(hpd, m, height, rewards);
    SettleConserves(hpd, m, height, rewards);
    SettleIsEarly(hpd, m, height, rewards);
    if height < m.start + m.days * hpd {
      NeverWholeEarly(hpd, m, height);
      if m.principal > 1 { MulMono(EarlyEndRecovery(hpd, m, height), 2, m.principal); }
    }
  }

  lemma SettleIsEarly(hpd: nat, m: Mint, height: nat, rewards: int)
    ensures Settle(hpd, m, height, rewards).early <==> height < m.start + m.days * hpd
  {
    hide MulDiv;
  }

  /** Ending early recovers at least half and never all. */
  lemma NeverWholeEarly(hpd: nat, m: Mint, height: nat)
    requires hpd > 0 && height < m.start + m.days * hpd
    ensures 50_000_000 <= EarlyEndRecovery(hpd, m, height) < 100_000_000
  {
    RecoveryBounds(hpd, m, height);
    var total := m.days * hpd;
    if height > m.start {
      var into := height - m.start;
      FloorBounds(into * 50_000_000, total);
      MulMono(50_000_000, into + 1, total);
      if into * 50_000_000 / total >= 50_000_000 { MulMono(total, 50_000_000, into * 50_000_000 / total); }
    }
  }

  // ----- the other transactions -----

  /** The walk of an ordinary transaction at this height reaches today. */
  ghost predicate Current(s: State, height: nat) { Accrued(s.y, height).1 }

  /**
   * A commit: on the first day, once, of totals neither negative nor both nothing, that
   * leave room for the emission under the cap. Totals within the emission cap below 2^63
   * are taken too, because the check wraps.
   */
  ghost predicate MayCommit(s: State, root: Option<Merkle.Hash>, qualifierTotal: int, burnTotal: int) {
    var whole := qualifierTotal + burnTotal;
    && s.y.book.day == 0 && s.mig.root.None? && root.Some? && qualifierTotal >= 0 && burnTotal >= 0
    && (0 < whole <= 31_000_000 * 100_000_000
        || 0x8000_0000_0000_0000 - 20_000_000 * 100_000_000 <= whole < 0x8000_0000_0000_0000)
  }

  lemma CommitIsAcceptedExactly(s: State, prev: nat, root: Option<Merkle.Hash>, qualifierTotal: int, burnTotal: int)
    requires Sane(s, prev) && IsInt64(qualifierTotal) && IsInt64(burnTotal)
    ensures Snapshot(s, root, qualifierTotal, burnTotal).1 <==> MayCommit(s, root, qualifierTotal, burnTotal)
  {
    hide SaneOwing;
    Interleaving.SettledIsADay(s, prev);
    if s.mig.root.None? { NothingMigrated(s, prev); }
  }

  lemma NothingMigrated(s: State, now: nat)
    requires Sane(s, now) && s.mig.root.None?
    ensures s.migrated == 0 && s.mig == Migration(None, 0, 0, 0, false, map[])
  {
    hide Good, Conserved, NothingNegative, GoodPositions, SumBy, DayOf;
  }

  /** Whether the proof shows this leaf to be one of the committed tree, its hash climbing to the root. */
  ghost predicate Proved(
    sha: string -> Merkle.Hash, s: State, account: string, liquid: int, staked: int, burned: bool,
    proof: Option<seq<Merkle.Hash>>)
    requires IsInt64(liquid) && IsInt64(staked)
  {
    && s.mig.root.Some? && proof.Some? && |proof.value| <= 32
    && Merkle.Climb(sha, sha(Merkle.LeafText(account, liquid, staked, burned)), proof.value) == s.mig.root.value
  }

  /** A claim: inside the window of 210 days, once, of a proved leaf, within the committed total. */
  ghost predicate MayCollect(
    sha: string -> Merkle.Hash, s: State, height: nat, sender: string, liquid: int, staked: int,
    proof: Option<seq<Merkle.Hash>>)
    requires IsInt64(liquid) && IsInt64(staked)
  {
    && height < s.Genesis() + 210 * s.Hpd() && sender != "hive:null" && sender !in s.mig.receipts
    && liquid >= 0 && staked >= 0 && liquid + staked > 0 && s.mig.claimed + liquid + staked <= s.mig.total
    && Proved(sha, s, sender, liquid, staked, false, proof)
    && (staked > 0 && height < s.Genesis() + 30 * s.Hpd() ==> Current(s, height))
  }

  lemma ClaimIsAcceptedExactly(sha: string -> Merkle.Hash, s: State, prev: nat, c: Call)
    requires Sane(s, prev) && prev <= c.height && c.op.Claim? && IsInt64(c.op.liquid) && IsInt64(c.op.staked)
    ensures var op := c.op;
            Apply(sha, s, c).1 <==> MayCollect(sha, s, c.height, op.sender, op.liquid, op.staked, op.proof)
  {
    hide SaneOwing, Walked, Settled, Settle, Registered, Merkle.Climb, Merkle.LeafText, AddChecked;
    CommittedFits(s, prev);
    var whole := c.op.liquid + c.op.staked;
    if 0 <= c.op.liquid && 0 <= c.op.staked && whole <= MAX_AMOUNT { AddCheckedExact(s.mig.claimed, whole); }
  }

  lemma CommittedFits(s: State, now: nat)
    requires Sane(s, now)
    ensures 0 <= s.mig.claimed <= s.mig.total <= HISTORIC_HARD_CAP
  {
    hide Good, Conserved, NothingNegative, GoodPositions, SumBy, DayOf;
  }

  /** A burn record: at any height, once for an account, of a proved burned leaf. */
  ghost predicate MayRecord(
    sha: string -> Merkle.Hash, s: State, account: string, liquid: int, staked: int, proof: Option<seq<Merkle.Hash>>)
    requires IsInt64(liquid) && IsInt64(staked)
  {
    && account != "" && account !in s.mig.receipts && liquid >= 0 && staked >= 0
    && 0 < liquid + staked < 0x8000_0000_0000_0000 && Proved(sha, s, account, liquid, staked, true, proof)
  }

  lemma RecordIsAcceptedExactly(sha: string -> Merkle.Hash, s: State, c: Call)
    requires c.op.RecordBurn? && IsInt64(c.op.liquid) && IsInt64(c.op.staked)
    ensures var op := c.op;
            Apply(sha, s, c).1 <==> MayRecord(sha, s, op.account, op.liquid, op.staked, op.proof)
  {
    hide Merkle.Climb, Merkle.LeafText;
  }

  /** The sweep: once, from day 210 on, with the walk current. */
  ghost predicate MaySweep(s: State, height: nat) {
    s.mig.root.Some? && !s.mig.swept && height >= s.Genesis() + 210 * s.Hpd() && Current(s, height)
  }

  lemma SweepIsAcceptedExactly(sha: string -> Merkle.Hash, s: State, c: Call)
    requires c.op.SweepUnclaimed?
    ensures Apply(sha, s, c).1 <==> MaySweep(s, c.height)
  {
    hide Walked, Recycled;
  }

  /** The claim window closes exactly where the mint every stake is would be liquidated. */
  lemma DeadlineIsLiquidation(s: State, sender: string, staked: int)
    requires staked > 0
    ensures DeadlineHeight(s.Genesis(), s.Hpd()) == LiquidationHeight(s.Hpd(), MigrationMint(s, sender, staked))
  {
  }

  /**
   * A new mint: of one LASSECASH or more, held by its signer, for 1 to 1095 days, with the
   * walk current, and enough to buy a share at the rate.
   */
  ghost predicate MayCreate(s: State, height: nat, sender: string, principal: int, days: nat) {
    && 100_000_000 <= principal <= Read(s.balances, sender) && 1 <= days <= 1095
    && Current(s, height) && principal * 100_000_000 >= ShareRate(s.Genesis(), height)
  }

  lemma CreateIsAcceptedExactly(sha: string -> Merkle.Hash, s: State, prev: nat, c: Call)
    requires Sane(s, prev) && prev <= c.height && ValidOp(c.op) && c.op.CreateMint?
    ensures var op := c.op;
            Apply(sha, s, c).1 <==> MayCreate(s, c.height, op.sender, op.principal, op.days)
  {
    hide SaneOwing, Walked, Registered, ShareRate, ComputeShares;
    FiguresFit(s, prev);
    RateAtLeastGenesis(s.Genesis(), c.height);
    var op := c.op;
    if op.principal <= Read(s.balances, op.sender) {
      GrantedExactly(op.principal, op.days,
                     MintParams(op.volumeStart, op.volumeEnd, ShareRate(s.Genesis(), c.height)));
    }
  }

  /** Arming: an open mint of the signer's own, not armed yet, from its maturity for 90 days. */
  ghost predicate MayArm(s: State, height: nat, sender: string, id: nat) {
    && OpenAndOwned(s, sender, id) && !s.y.book.mints[id].goodAccounting
    && var maturity := s.y.book.mints[id].start + s.y.book.mints[id].days * s.Hpd();
       maturity <= height <= maturity + 90 * s.Hpd()
  }

  lemma ArmIsAcceptedExactly(sha: string -> Merkle.Hash, s: State, c: Call)
    requires c.op.ArmGoodAccounting?
    ensures Apply(sha, s, c).1 <==> MayArm(s, c.height, c.op.sender, c.op.id)
  {
    if c.op.id < |s.y.book.mints| { ArmableExactly(s.Hpd(), s.y.book.mints[c.op.id], c.height); }
    hide CanArmGoodAccounting;
  }
}
