/**
 * The entry points. Each calls one transaction of the contract and aborts when it is
 * refused, so that nothing of it is kept, not even the days its walk had closed. Only an
 * advance is never refused. Every entry point says what its caller may rely on.
 */
module App {
  import opened Units
  import opened Emission
  import opened LShare
  import opened ShareBook
  import opened Accrual
  import opened Ledger
  import opened Guarantees
  import opened Acceptance
  import Contract
  import Interleaving
  import Merkle

  // ----- what the chain keeps of a run -----

  /** One call on the chain: a refused one leaves no trace. */
  function OnChain(sha: string -> Merkle.Hash, s: State, c: Call): (State, bool) {
    var (s', ok) := Apply(sha, s, c);
    if ok || c.op.Advance? then (s', ok) else (s, false)
  }

  function RunOnChain(sha: string -> Merkle.Hash, s: State, calls: seq<Call>): State {
    if calls == [] then s else OnChain(sha, RunOnChain(sha, s, calls[..|calls| - 1]), calls[|calls| - 1]).0
  }

  /** The calls of a run that are not aborted. */
  function Kept(sha: string -> Merkle.Hash, s: State, calls: seq<Call>): seq<Call> {
    if calls == [] then []
    else
      var front, last := calls[..|calls| - 1], calls[|calls| - 1];
      var keeps := last.op.Advance? || OnChain(sha, RunOnChain(sha, s, front), last).1;
      Kept(sha, s, front) + if keeps then [last] else []
  }

  /**
   * Whatever is called on the chain, its state is the one the accepted calls alone lead to:
   * what holds of every run of transactions holds of it, and advances may be added anywhere
   * an accepted run allows them.
   */
  lemma {:induction false} ChainIsTheRunOfItsAcceptedCalls(
    sha: string -> Merkle.Hash, s: State, now: nat, calls: seq<Call>)
    requires TypedRun(calls, now)
    ensures var kept := Kept(sha, s, calls);
            && RunOnChain(sha, s, calls) == Run(sha, s, kept)
            && Interleaving.Accepted(sha, s, kept) && (forall c | c in kept :: c in calls)
            && TypedRun(kept, now) && LastHeight(kept, now) <= LastHeight(calls, now)
  {
    hide Apply, OnChain, Typed;
    if calls != [] {
      var front, last := calls[..|calls| - 1], calls[|calls| - 1];
      var kept := Kept(sha, s, front);
      ChainIsTheRunOfItsAcceptedCalls(sha, s, now, front);
      OneCallOnChain(sha, Run(sha, s, kept), last);
      Interleaving.OneMoreCall(sha, s, kept, last);
      if kept != [] { KeptHeights(kept, last, LastHeight(front, now)); }
      hide Run, Interleaving.Accepted;
      assert kept + [] == kept;
    }
  }

  lemma OneCallOnChain(sha: string -> Merkle.Hash, s: State, c: Call)
    ensures var keeps := c.op.Advance? || OnChain(sha, s, c).1;
            && OnChain(sha, s, c).0 == (if keeps then Apply(sha, s, c).0 else s)
            && OnChain(sha, s, c).1 == Apply(sha, s, c).1
  {
    hide Apply;
  }

  lemma KeptHeights(kept: seq<Call>, last: Call, before: nat)
    requires kept != [] && kept[|kept| - 1].height <= before <= last.height
    requires forall i, j | 0 <= i < j < |kept| :: kept[i].height <= kept[j].height
    ensures forall i | 0 <= i < |kept| :: kept[i].height <= last.height
  {
  }

  /** So the chain's state is sane at every height exactly when it kept no commit past the cap check. */
  lemma ChainStaysSaneExactly(sha: string -> Merkle.Hash, s: State, now: nat, calls: seq<Call>)
    requires Sane(s, now) && TypedRun(calls, now)
    ensures Sane(RunOnChain(sha, s, calls), LastHeight(calls, now)) <==> NeverOverCap(sha, s, Kept(sha, s, calls))
  {
    hide SaneOwing, Run, RunOnChain, Kept, TypedRun, NeverOverCap, BeyondTheCap;
    ChainIsTheRunOfItsAcceptedCalls(sha, s, now, calls);
    var kept := Kept(sha, s, calls);
    RunStaysSaneExactly(sha, s, now, kept);
    if NeverOverCap(sha, s, kept) {
      LaterIsStillSane(Run(sha, s, kept), LastHeight(kept, now), LastHeight(calls, now));
    } else {
      BeyondIsNotSane(Run(sha, s, kept), LastHeight(calls, now));
    }
  }

  lemma BeyondIsNotSane(s: State, now: nat)
    requires BeyondTheCap(s)
    ensures !Sane(s, now)
  {
    hide Good, Conserved, NothingNegative, GoodPositions;
  }

  // ----- what each call promises -----

  lemma SnapshotPromises(s: State, prev: nat, root: Option<Merkle.Hash>, q: int, b: int)
    requires Sane(s, prev) && IsInt64(q) && IsInt64(b)
    ensures var (s', ok) := Snapshot(s, root, q, b);
            && (CapCheckHolds(q, b) ==> Sane(s', prev))
            && (ok ==> s.mig.root.None? && s'.migrated == b && OnlyPays(s.balances, s'.balances, BURN_ACCOUNT, b)
                       && s'.mig == Migration(root, q, b, 0, false, map[]) && s'.y == s.y
                       && (q + b + EMISSION_CAP <= HISTORIC_HARD_CAP <==> CapCheckHolds(q, b)))
            && (!ok ==> s' == s)
  {
    hide SaneOwing, OnlyPays, Credit;
    if Snapshot(s, root, q, b).1 {
      NothingMigrated(s, prev);
      Contract.NothingIssuedYet(s, prev);
      AcceptedSnapshotMeetsTheCapExactly(s, root, q, b);
      CreditOnlyPays(s.balances, BURN_ACCOUNT, b);
    }
    if CapCheckHolds(q, b) { SnapshotKeepsSane(s, prev, root, q, b); }
  }

  lemma StaysSane(sha: string -> Merkle.Hash, s: State, prev: nat, c: Call)
    requires Sane(s, prev) && prev <= c.height
    ensures ValidOp(c.op) || !OnChain(sha, s, c).1 ==> Sane(OnChain(sha, s, c).0, c.height)
  {
    hide SaneOwing, Apply;
    LaterIsStillSane(s, prev, c.height);
    if ValidOp(c.op) { StepKeepsSane(sha, s, prev, c); }
    if c.op.Advance? && !ValidOp(c.op) { assert false; }
  }

  lemma RecordPromises(sha: string -> Merkle.Hash, s: State, c: Call, entries: seq<Merkle.Entry>)
    requires c.op.RecordBurn?
    requires CommittedAs(sha, s, entries) && CallHashesApart(sha, entries, c.op)
    ensures var (s', ok) := OnChain(sha, s, c);
            && CommittedAs(sha, s', entries)
            && (ok ==> Merkle.Entry(c.op.account, c.op.liquid, c.op.staked, true) in entries)
  {
    StepKeepsCommittedAs(sha, s, entries, c);
    RecordWrites(sha, s, c);
    var (s', ok) := OnChain(sha, s, c);
    hide Apply, CallHashesApart, RootOfSnapshot;
    if ok {
      assert EntryOfReceipt(c.op.account, s'.mig.receipts[c.op.account]) in entries;
    }
  }

  lemma RecordWrites(sha: string -> Merkle.Hash, s: State, c: Call)
    requires c.op.RecordBurn?
    ensures var (s', ok) := OnChain(sha, s, c);
            && s'.balances == s.balances && s'.y == s.y && s'.migrated == s.migrated
            && (ok ==> c.op.account !in s.mig.receipts
                       && s'.mig.receipts == s.mig.receipts[c.op.account := Burned(c.op.liquid, c.op.staked)])
  {
    hide LeafAccepted, Wrap64;
  }

  lemma ClaimPromises(sha: string -> Merkle.Hash, s: State, prev: nat, c: Call)
    requires Sane(s, prev) && prev <= c.height && c.op.Claim?
    ensures var ((s', ok), op) := (OnChain(sha, s, c), c.op);
            && (ok ==> && Collects(s, s', c.height, op.sender, op.liquid, op.staked)
                       && op.sender !in s.mig.receipts
                       && s'.mig.receipts == s.mig.receipts[op.sender := Claimed(op.liquid, op.staked)])
            && (ok && op.sender != "" ==> Placed(s, s', op.liquid + op.staked))
  {
    hide SaneOwing, Apply, Placed, Collects;
    if Apply(sha, s, c).1 {
      ClaimPaysItsSigner(sha, s, prev, c);
      StepKeepsReceipts(sha, s, c);
      if c.op.sender != "" { ClaimPlacesEveryUnit(sha, s, prev, c); }
    }
  }

  lemma AdvancePromises(sha: string -> Merkle.Hash, s: State, prev: nat, c: Call)
    requires Sane(s, prev) && prev <= c.height && c.op.Advance?
    ensures var ((s', current), target) := (OnChain(sha, s, c), TargetDay(s.y.book, c.height));
            && Unmoved(s, s')
            && (current <==> s'.y.book.day >= target) && DaysTo(s'.y, target) == DaysTo(s.y, target)
            && (!current ==> Nearer(s.y.book, s'.y.book, target))
    ensures var (target, s') := (TargetDay(s.y.book, c.height), OnChain(sha, s, c).0);
            var cap := if 0 < c.op.maxDays <= 1200 then c.op.maxDays else 1200;
            && s.y.book.day <= s'.y.book.day <= s.y.book.day + cap
            && (OnChain(sha, s, c).1 <==>
                  s.y.book.day >= target || (target - s.y.book.day <= cap && Work(s.y.book, target) <= 50))
    ensures var (y', current) := Walked(s.y, TargetDay(s.y.book, c.height), c.op.maxDays, MAX_RETIRE_PER_WALK);
            OnChain(sha, s, c) == (s.(y := y'), current)
  {
    hide SaneOwing, Good, DaysTo, Loop, Commit, DayOf, Nearer;
    var target := TargetDay(s.y.book, c.height);
    AdvanceIsCapped(s.y, target, c.op.maxDays);
    WalkKeepsSane(s, prev, c.op.maxDays, MAX_RETIRE_PER_WALK);
    WalkTouchesNoMint(s.y, target, c.op.maxDays, MAX_RETIRE_PER_WALK);
    SaneIsGood(s, prev);
    WalkKeepsFold(s.y, target, c.op.maxDays, MAX_RETIRE_PER_WALK, target);
    if s.y.book.day < target {
      FullChunkIsNeverBlocked(s.y.book, MAX_RETIRE_PER_WALK);
      BehindMovesExactly(s.y, target, c.op.maxDays, MAX_RETIRE_PER_WALK);
    }
  }

  lemma AdvanceIsCapped(y: Yield, target: nat, maxDays: int)
    ensures var (y', current) := Walked(y, target, maxDays, MAX_RETIRE_PER_WALK);
            var cap := if 0 < maxDays <= 1200 then maxDays else 1200;
            && y.book.day <= y'.book.day <= y.book.day + cap
            && (current <==> y.book.day >= target || (target - y.book.day <= cap && Work(y.book, target) <= 50))
  {
    hide Walked, Work;
    DaysAreCapped(y, target, maxDays, MAX_RETIRE_PER_WALK);
    CatchesUpExactly(y, target, maxDays, MAX_RETIRE_PER_WALK);
  }

  lemma SaneIsGood(s: State, now: nat)
    requires Sane(s, now)
    ensures Good(s.y) && OnClock(s.y) && Shape(s.y.book)
  {
  }

  lemma ClosePromises(sha: string -> Merkle.Hash, s: State, prev: nat, c: Call)
    requires Sane(s, prev) && prev <= c.height && c.op.EndMint?
    ensures var ((s', ok), op) := (OnChain(sha, s, c), c.op);
            ok ==> PaysClose(s, s', c.height, op.owner, op.id, op.sweep)
  {
    hide SaneOwing, Apply, PaysClose;
    if Apply(sha, s, c).1 { ClosePaysTheOwner(sha, s, prev, c); }
  }

  lemma CloseIs(sha: string -> Merkle.Hash, s: State, c: Call)
    requires c.op.EndMint?
    ensures Apply(sha, s, c) == ClosePosition(s, c.height, c.op.owner, c.op.id, c.op.sweep)
  {
    hide ClosePosition;
  }

  lemma ArmPromises(sha: string -> Merkle.Hash, s: State, prev: nat, c: Call)
    requires Sane(s, prev) && prev <= c.height && c.op.ArmGoodAccounting?
    ensures var ((s', ok), id) := (OnChain(sha, s, c), c.op.id);
            && (id < |s.y.book.mints| && IsMature(s.Hpd(), s.y.book.mints[id], c.height) ==>
                  var m := s.y.book.mints[id];
                  ok <==> && m.owner == c.op.sender && !m.ended && !m.goodAccounting
                          && BleedRemaining(s.Hpd(), m, c.height) == MULT_SCALE)
            && (ok ==> OnlyArms(s, s', id))
  {
    hide SaneOwing, BleedRemaining;
    LaterIsStillSane(s, prev, c.height);
    ClockIsOk(s, c.height);
    var id := c.op.id;
    if id < |s.y.book.mints| && !s.y.book.mints[id].ended && !s.y.book.mints[id].goodAccounting {
      var m := s.y.book.mints[id];
      if IsMature(s.Hpd(), m, c.height) { ArmableExactlyWhileWhole(s.Hpd(), m, c.height); }
      forall h: nat ensures BleedRemaining(s.Hpd(), m.(goodAccounting := true), h) >= BleedRemaining(s.Hpd(), m, h) {
        ArmingNeverLowers(s.Hpd(), m, h);
      }
    }
  }

  // ----- the entry points -----

  class App {
    const contract: Contract.Contract
    const sha: string -> Merkle.Hash

    constructor (genesis: nat, hpd: nat, sha: string -> Merkle.Hash)
      ensures Now() == Initial(genesis, hpd)
      ensures fresh(contract) && fresh(contract.store)
    {
      contract := new Contract.Contract(genesis, hpd);
      this.sha := sha;
    }

    function Now(): State
      reads contract, contract.store
    {
      contract.Now()
    }

    /** Ends a transaction: an abort puts every row back. */
    method Finish(ok: bool, before: State)
      requires before.Genesis() == contract.store.genesis && before.Hpd() == contract.store.hpd
      modifies contract, contract.store
      ensures Now() == if ok then old(Now()) else before
    {
      if !ok { contract.Restore(before); }
    }

    /**
     * The owner's one commit: it pays the burn account alone, and stays under the hard cap
     * exactly when the sums of the cap check do not wrap.
     */
    method SetSnapshot(
      caller: string, owner: string, root: Option<Merkle.Hash>, qualifierTotal: int, burnTotal: int, ghost prev: nat)
      returns (ok: bool)
      requires Sane(Now(), prev) && IsInt64(qualifierTotal) && IsInt64(burnTotal)
      modifies contract, contract.store
      ensures ok <==> caller == owner && MayCommit(old(Now()), root, qualifierTotal, burnTotal)
      ensures CapCheckHolds(qualifierTotal, burnTotal) || !ok ==> Sane(Now(), prev)
      ensures var s, s' := old(Now()), Now();
              if !ok then s' == s
              else && s.mig.root.None? && s'.migrated == burnTotal && s'.y == s.y
                   && s'.mig == Migration(root, qualifierTotal, burnTotal, 0, false, map[])
                   && OnlyPays(s.balances, s'.balances, BURN_ACCOUNT, burnTotal)
                   && (s'.mig.total + s'.mig.burn + EMISSION_CAP <= HISTORIC_HARD_CAP
                       <==> CapCheckHolds(qualifierTotal, burnTotal))
    {
      if caller != owner {
        return false;
      }
      SnapshotPromises(Now(), prev, root, qualifierTotal, burnTotal);
      CommitIsAcceptedExactly(Now(), prev, root, qualifierTotal, burnTotal);
      hide Sane, Snapshot, OnlyPays, MayCommit, Contract.Contract.Now;
      ok := contract.SetSnapshot(root, qualifierTotal, burnTotal, prev);
    }

    /** A claim pays its signer alone, once, and every unit it issues is somewhere. */
    method ClaimMigration(
      height: nat, sender: string, liquid: int, staked: int, proof: Option<seq<Merkle.Hash>>, ghost prev: nat)
      returns (ok: bool)
      requires Sane(Now(), prev) && prev <= height && IsInt64(liquid) && IsInt64(staked)
      modifies contract, contract.store
      ensures (Now(), ok) == OnChain(sha, old(Now()), Call(height, Claim(sender, liquid, staked, proof)))
      ensures ok <==> MayCollect(sha, old(Now()), height, sender, liquid, staked, proof)
      ensures sender != "" || !ok ==> Sane(Now(), height)
      ensures var s, s' := old(Now()), Now();
              if !ok then s' == s
              else && Collects(s, s', height, sender, liquid, staked)
                   && sender !in s.mig.receipts && s'.mig.receipts == s.mig.receipts[sender := Claimed(liquid, staked)]
                   && (sender != "" ==> Placed(s, s', liquid + staked))
    {
      ghost var c := Call(height, Claim(sender, liquid, staked, proof));
      StaysSane(sha, Now(), prev, c);
      ClaimPromises(sha, Now(), prev, c);
      ClaimIsAcceptedExactly(sha, Now(), prev, c);
      contract.Shows();
      hide Sane, ClaimLeaf, MayCollect, Collects, Placed, Contract.Contract.Now;
      var before := Now();
      ok := contract.ClaimMigration(sha, height, sender, liquid, staked, proof, prev);
      Finish(ok, before);
    }

    /**
     * A receipt for a burned leaf: nothing is paid, and nothing but the snapshot's own burned
     * entries can be recorded.
     */
    method RecordBurn(
      account: string, liquid: int, staked: int, proof: Option<seq<Merkle.Hash>>,
      ghost now: nat, ghost entries: seq<Merkle.Entry>)
      returns (ok: bool)
      requires Sane(Now(), now) && IsInt64(liquid) && IsInt64(staked)
      modifies contract, contract.store
      ensures (Now(), ok) == OnChain(sha, old(Now()), Call(now, Op.RecordBurn(account, liquid, staked, proof)))
      ensures ok <==> MayRecord(sha, old(Now()), account, liquid, staked, proof)
      ensures Sane(Now(), now)
      ensures var s, s' := old(Now()), Now();
              if !ok then s' == s
              else && s'.balances == s.balances && s'.migrated == s.migrated && s'.y == s.y
                   && account !in s.mig.receipts && s'.mig.receipts == s.mig.receipts[account := Burned(liquid, staked)]
      ensures old(CommittedAs(sha, Now(), entries))
              && CallHashesApart(sha, entries, Op.RecordBurn(account, liquid, staked, proof))
              ==> CommittedAs(sha, Now(), entries) && (ok ==> Merkle.Entry(account, liquid, staked, true) in entries)
    {
      ghost var c := Call(now, Op.RecordBurn(account, liquid, staked, proof));
      StaysSane(sha, Now(), now, c);
      RecordWrites(sha, Now(), c);
      RecordIsAcceptedExactly(sha, Now(), c);
      if CommittedAs(sha, Now(), entries) && CallHashesApart(sha, entries, c.op) {
        RecordPromises(sha, Now(), c, entries);
      }
      contract.Shows();
      hide Sane, RecordLeaf, MayRecord, CommittedAs, CallHashesApart, Contract.Contract.Now;
      var before := Now();
      ok := contract.RecordBurnedLeaf(sha, account, liquid, staked, proof);
      Finish(ok, before);
    }

    /** The sweep takes from nobody: it fills the pool with what was never claimed, and the supply is final. */
    method SweepUnclaimed(height: nat, ghost prev: nat) returns (ok: bool)
      requires Sane(Now(), prev) && prev <= height
      modifies contract, contract.store
      ensures (Now(), ok) == OnChain(sha, old(Now()), Call(height, Op.SweepUnclaimed))
      ensures ok <==> MaySweep(old(Now()), height)
      ensures Sane(Now(), height)
      ensures if ok then SweptInto(old(Now()), Now(), height) else Now() == old(Now())
    {
      ghost var c := Call(height, Op.SweepUnclaimed);
      StaysSane(sha, Now(), prev, c);
      if Apply(sha, Now(), c).1 { SweepFillsThePool(sha, Now(), prev, c); }
      SweepIsAcceptedExactly(sha, Now(), c);
      contract.Shows();
      hide Sane, Sweep, MaySweep, SweptInto, Contract.Contract.Now;
      var before := Now();
      ok := contract.SweepUnclaimed(height, prev);
      Finish(ok, before);
    }

    /** Moves nothing but the walk, which stays on its own course and gets nearer each time it is behind. */
    method Advance(height: nat, maxDays: int, ghost prev: nat) returns (current: bool)
      requires Sane(Now(), prev) && prev <= height
      modifies contract, contract.store
      ensures (Now(), current) == OnChain(sha, old(Now()), Call(height, Op.Advance(maxDays)))
      ensures Sane(Now(), height) && Unmoved(old(Now()), Now())
      ensures var s, s' := old(Now()), Now();
              var target := TargetDay(s.y.book, height);
              && (current <==> s'.y.book.day >= target) && DaysTo(s'.y, target) == DaysTo(s.y, target)
              && (!current ==> Nearer(s.y.book, s'.y.book, target))
      // It closes as many days as its caller allows, 1200 at most, and is current once they and 50 retirements reach.
      ensures var s, s' := old(Now()), Now();
              var target, cap := TargetDay(s.y.book, height), if 0 < maxDays <= 1200 then maxDays else 1200;
              && s.y.book.day <= s'.y.book.day <= s.y.book.day + cap
              && (current <==> s.y.book.day >= target
                               || (target - s.y.book.day <= cap && Work(s.y.book, target) <= 50))
    {
      ghost var c := Call(height, Op.Advance(maxDays));
      StaysSane(sha, Now(), prev, c);
      AdvancePromises(sha, Now(), prev, c);
      SaneIsGood(Now(), prev);
      contract.Shows();
      hide Sane, Good, Walked, Work, DaysTo, DayOf, Nearer, OnChain, Unmoved, Contract.Contract.Now;
      current := contract.Advance(height, maxDays);
    }

    /** A new position locks exactly what it debits from its signer. */
    method Mint(height: nat, sender: string, principal: int, days: nat, start: int, end: int, ghost prev: nat)
      returns (ok: bool)
      requires Sane(Now(), prev) && prev <= height
      modifies contract, contract.store
      ensures (Now(), ok) == OnChain(sha, old(Now()), Call(height, CreateMint(sender, principal, days, start, end)))
      ensures ValidOp(CreateMint(sender, principal, days, start, end)) ==>
                && Sane(Now(), height)
                && (ok <==> MayCreate(old(Now()), height, sender, principal, days))
                && (ok ==> Locks(old(Now()), Now(), height, sender, principal, days, start, end))
      ensures !ok ==> Now() == old(Now())
    {
      ghost var c := Call(height, CreateMint(sender, principal, days, start, end));
      StaysSane(sha, Now(), prev, c);
      if ValidOp(c.op) { CreateIsAcceptedExactly(sha, Now(), prev, c); }
      if ValidOp(c.op) && Apply(sha, Now(), c).1 { CreateLocksWhatItDebits(sha, Now(), prev, c); }
      SaneIsGood(Now(), prev);
      contract.Shows();
      hide Sane, Good, NewPosition, Locks, MayCreate, ValidOp, Contract.Contract.Now;
      var before := Now();
      ok := contract.CreateMint(height, sender, principal, days, start, end);
      Finish(ok, before);
    }

    /** Closing pays the mint's owner alone, its yield in full. */
    method ClaimMint(height: nat, sender: string, id: nat, ghost prev: nat) returns (ok: bool)
      requires Sane(Now(), prev) && prev <= height
      modifies contract, contract.store
      ensures (Now(), ok) == OnChain(sha, old(Now()), Call(height, EndMint(sender, id, false)))
      ensures ok <==> MayClose(old(Now()), height, sender, id, false)
      ensures Sane(Now(), height)
      ensures if ok then PaysClose(old(Now()), Now(), height, sender, id, false) else Now() == old(Now())
    {
      ok := EndPosition(height, sender, id, false, prev);
    }

    /** Anyone may close what has bled away entirely; nobody's balance moves. */
    method SweepMint(height: nat, owner: string, id: nat, ghost prev: nat) returns (ok: bool)
      requires Sane(Now(), prev) && prev <= height
      modifies contract, contract.store
      ensures (Now(), ok) == OnChain(sha, old(Now()), Call(height, EndMint(owner, id, true)))
      ensures ok <==> MayClose(old(Now()), height, owner, id, true)
      ensures Sane(Now(), height)
      ensures if ok then PaysClose(old(Now()), Now(), height, owner, id, true) else Now() == old(Now())
      ensures forall a :: Read(Now().balances, a) == Read(old(Now()).balances, a)
    {
      ok := EndPosition(height, owner, id, true, prev);
    }

    method EndPosition(height: nat, owner: string, id: nat, sweep: bool, ghost prev: nat) returns (ok: bool)
      requires Sane(Now(), prev) && prev <= height
      modifies contract, contract.store
      ensures (Now(), ok) == OnChain(sha, old(Now()), Call(height, EndMint(owner, id, sweep)))
      ensures ok <==> MayClose(old(Now()), height, owner, id, sweep)
      ensures Sane(Now(), height)
      ensures if ok then PaysClose(old(Now()), Now(), height, owner, id, sweep) else Now() == old(Now())
    {
      ghost var c := Call(height, EndMint(owner, id, sweep));
      StaysSane(sha, Now(), prev, c);
      ClosePromises(sha, Now(), prev, c);
      CloseIs(sha, Now(), c);
      CloseIsAcceptedExactly(sha, Now(), prev, c);
      contract.Shows();
      hide Sane, Apply, ClosePosition, PaysClose, MayClose, Unmoved, Contract.Contract.Now;
      var before := Now();
      ok := contract.EndPosition(height, owner, id, sweep, prev);
      Finish(ok, before);
    }

    /** Arming moves one flag, only while the mint's value is whole, and can only help its owner. */
    method GoodAccounting(height: nat, sender: string, id: nat, ghost prev: nat) returns (ok: bool)
      requires Sane(Now(), prev) && prev <= height
      modifies contract, contract.store
      ensures (Now(), ok) == OnChain(sha, old(Now()), Call(height, ArmGoodAccounting(sender, id)))
      ensures Sane(Now(), height)
      ensures ok <==> MayArm(old(Now()), height, sender, id)
      ensures var s := old(Now());
              id < |s.y.book.mints| && IsMature(s.Hpd(), s.y.book.mints[id], height) ==>
                var m := s.y.book.mints[id];
                ok <==> && m.owner == sender && !m.ended && !m.goodAccounting
                        && BleedRemaining(s.Hpd(), m, height) == MULT_SCALE
      ensures if ok then OnlyArms(old(Now()), Now(), id) else Now() == old(Now())
    {
      ghost var c := Call(height, ArmGoodAccounting(sender, id));
      StaysSane(sha, Now(), prev, c);
      ArmPromises(sha, Now(), prev, c);
      ArmIsAcceptedExactly(sha, Now(), c);
      contract.Shows();
      hide Sane, Armed, MayArm, OnlyArms, IsMature, BleedRemaining, Contract.Contract.Now;
      var before := Now();
      ok := contract.ArmPosition(height, sender, id);
      Finish(ok, before);
    }
  }
}
