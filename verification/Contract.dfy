/**
 * The contract's transactions as they run: checks in the source's order, then the walk,
 * then the writes. Every method is tied to the transaction function that specifies it.
 */
module Contract {
  import opened Units
  import opened Emission
  import opened LShare
  import opened ShareBook
  import opened Accrual
  import opened Ledger
  import opened Store
  import Merkle

  class Contract {
    const store: AccrualStore

    var migrated: int
    var balances: map<string, int>
    var migRoot: Option<Merkle.Hash>
    var migTotal: int
    var migBurn: int
    var migClaimed: int
    var migSwept: bool
    var receipts: map<string, Receipt>

    function Now(): State
      reads this, store
    {
      State(store.YieldNow(), migrated, balances, Migration(migRoot, migTotal, migBurn, migClaimed, migSwept, receipts))
    }

    constructor (genesis: nat, hpd: nat)
      ensures Now() == Initial(genesis, hpd)
      ensures fresh(store)
    {
      store := new AccrualStore(genesis, hpd);
      migrated, balances := 0, map[];
      migRoot, migTotal, migBurn, migClaimed, migSwept, receipts := None, 0, 0, 0, false, map[];
    }

    lemma Shows()
      ensures Now().y == store.YieldNow() && Now().Genesis() == store.genesis && Now().Hpd() == store.hpd
    {
    }

    /** Every row as it was: what the chain does when a transaction aborts. */
    method Restore(s: State)
      requires s.Genesis() == store.genesis && s.Hpd() == store.hpd
      modifies this, store
      ensures Now() == s
    {
      store.Restore(s.y);
      migrated, balances := s.migrated, s.balances;
      migRoot, migTotal, migBurn, migClaimed, migSwept, receipts :=
        s.mig.root, s.mig.total, s.mig.burn, s.mig.claimed, s.mig.swept, s.mig.receipts;
    }

    // ----- ledger -----

    /** Adds to a liquid balance, refusing to overflow it. */
    method CreditAccount(account: string, amount: int) returns (credited: bool)
      requires 0 <= Read(balances, account) && 0 <= amount && Read(balances, account) + amount <= MAX_AMOUNT
      modifies `balances
      ensures credited && balances == Credit(old(balances), account, amount)
    {
      if amount == 0 {
        return true;
      }
      AddCheckedExact(Read(balances, account), amount);
      var next := AddChecked(Read(balances, account), amount);
      if next.None? {
        return false;
      }
      balances := Write(balances, account, next.value);
      credited := true;
    }

    /** mintSupply for the migrated counter. */
    method MintMigrated(amount: int) returns (minted: bool)
      requires 0 <= migrated && 0 <= amount && migrated + amount <= MAX_AMOUNT
      modifies `migrated
      ensures minted && migrated == old(migrated) + amount
    {
      AddCheckedExact(migrated, amount);
      var next := AddChecked(migrated, amount);
      if next.None? {
        return false;
      }
      migrated := next.value;
      minted := true;
    }

    // ----- migration -----

    method SetSnapshot(root: Option<Merkle.Hash>, qualifierTotal: int, burnTotal: int, ghost prev: nat)
      returns (ok: bool)
      requires Sane(Now(), prev) && IsInt64(qualifierTotal) && IsInt64(burnTotal)
      modifies `migRoot, `migTotal, `migBurn, `migrated, `balances
      ensures (Now(), ok) == Snapshot(old(Now()), root, qualifierTotal, burnTotal)
    {
      hide Sane, Write, AccrualStore.YieldNow;
      store.Shows();
      if store.settled > store.genesis || migRoot.Some? || root.None? {
        return false;
      }
      var whole := Wrap64(qualifierTotal + burnTotal);
      if qualifierTotal < 0 || burnTotal < 0 || whole <= 0 {
        return false;
      }
      if Wrap64(Wrap64(migrated + whole) + EMISSION_CAP) > HISTORIC_HARD_CAP {
        return false;
      }
      NothingIssuedYet(Now(), prev);
      migRoot, migTotal, migBurn := root, qualifierTotal, burnTotal;
      if burnTotal > 0 {
        var minted := MintMigrated(burnTotal);
        if !minted {
          return false;
        }
        var burned := CreditAccount(BURN_ACCOUNT, burnTotal);
        if !burned {
          return false;
        }
      }
      ok := true;
    }

    method RecordBurnedLeaf(
      sha: string -> Merkle.Hash, account: string, liquid: int, staked: int, proof: Option<seq<Merkle.Hash>>)
      returns (ok: bool)
      requires IsInt64(liquid) && IsInt64(staked)
      modifies `receipts
      ensures (Now(), ok) == RecordLeaf(sha, old(Now()), account, liquid, staked, proof)
    {
      if migRoot.None? {
        return false;
      }
      if account == "" || liquid < 0 || staked < 0 || Wrap64(liquid + staked) <= 0 {
        return false;
      }
      if account in receipts {
        return false;
      }
      var accepted := VerifyLeaf(sha, account, liquid, staked, true, proof);
      if !accepted {
        return false;
      }
      receipts := receipts[account := Burned(liquid, staked)];
      ok := true;
    }

    method VerifyLeaf(
      sha: string -> Merkle.Hash, account: string, liquid: int, staked: int, burned: bool,
      proof: Option<seq<Merkle.Hash>>)
      returns (accepted: bool)
      requires IsInt64(liquid) && IsInt64(staked)
      ensures accepted == LeafAccepted(sha, Now(), Merkle.Entry(account, liquid, staked, burned), proof)
    {
      if migRoot.None? || proof.None? {
        return false;
      }
      accepted := Merkle.VerifyProof(sha, sha(Merkle.LeafText(account, liquid, staked, burned)), proof.value,
                                     migRoot.value);
    }

    /** The staked half of a claim: a live position until its day 30, whatever the bleed left of it from then on. */
    method CollectStake(height: nat, sender: string, staked: int) returns (ready: bool, toOwner: int, recycled: int)
      requires Good(store.YieldNow())
      modifies store
      ensures var y0, m := old(store.YieldNow()), MigrationMint(old(Now()), sender, staked);
              if staked > 0 && !IsMature(y0.book.hpd, m, height) then
                var (y, current) := Accrued(y0, height);
                && (ready, toOwner, recycled) == (current, 0, 0)
                && store.YieldNow() == if current then Registered(y, m) else y
              else
                var st := Settle(y0.book.hpd, m, height, 0);
                && ready && store.YieldNow() == y0
                && (toOwner, recycled) == if staked > 0 then (st.toOwner, st.toRewardPool) else (0, 0)
    {
      hide Good, Walked, Registered, Settle, AccrualStore.YieldNow;
      ghost var y0 := store.YieldNow();
      store.Shows();
      ready, toOwner, recycled := true, 0, 0;
      if staked > 0 {
        var m := MigrationMint(Now(), sender, staked);
        if !IsMature(store.hpd, m, height) {
          ready := store.Accrue(height);
          if !ready {
            return;
          }
          AccruedTwice(y0, height);
          AccruedIsGood(y0, height);
          ready := store.RegisterMint(height, m);
        } else {
          var st := Settle(store.hpd, m, height, 0);
          toOwner, recycled := st.toOwner, st.toRewardPool;
        }
      }
    }

    /** The guards of a claim, in order, and the claimed total it would leave. */
    method ClaimAllowed(
      sha: string -> Merkle.Hash, height: nat, sender: string, liquid: int, staked: int,
      proof: Option<seq<Merkle.Hash>>)
      returns (allowed: bool, next: int)
      requires IsInt64(liquid) && IsInt64(staked)
      ensures allowed == MayClaim(sha, Now(), height, sender, liquid, staked, proof)
      ensures allowed ==> AddChecked(migClaimed, Wrap64(liquid + staked)) == Some(next)
    {
      hide LeafAccepted, DeadlineHeight, AddChecked, Wrap64, AccrualStore.YieldNow;
      store.Shows();
      next := 0;
      if migRoot.None? || height >= DeadlineHeight(store.genesis, store.hpd) || sender == BURN_ACCOUNT {
        return false, 0;
      }
      if liquid < 0 || staked < 0 || Wrap64(liquid + staked) <= 0 || sender in receipts {
        return false, 0;
      }
      var accepted := VerifyLeaf(sha, sender, liquid, staked, false, proof);
      if !accepted {
        return false, 0;
      }
      var sum := AddChecked(migClaimed, Wrap64(liquid + staked));
      if sum.None? || sum.value > migTotal {
        return false, 0;
      }
      allowed, next := true, sum.value;
    }

    method ClaimMigration(
      sha: string -> Merkle.Hash, height: nat, sender: string, liquid: int, staked: int,
      proof: Option<seq<Merkle.Hash>>,
      ghost prev: nat)
      returns (ok: bool)
      requires Sane(Now(), prev) && prev <= height && IsInt64(liquid) && IsInt64(staked)
      modifies this, store
      ensures (Now(), ok) == ClaimLeaf(sha, old(Now()), height, sender, liquid, staked, proof)
    {
      hide SaneOwing, Walked, Registered, Settle, Write, Recycled, MayClaim, AddChecked, Wrap64, Credit,
           Good, IsMature, AccrualStore.YieldNow;
      store.Shows();
      var allowed, next := ClaimAllowed(sha, height, sender, liquid, staked, proof);
      if !allowed {
        return false;
      }
      ClaimFits(sha, Now(), prev, height, sender, liquid, staked, proof);
      var ready, toOwner, recycled := CollectStake(height, sender, staked);
      if !ready {
        return false;
      }
      var minted := MintMigrated(liquid + staked);
      if !minted {
        return false;
      }
      var credited := CreditAccount(sender, liquid + toOwner);
      if !credited {
        return false;
      }
      store.Recycle(recycled);
      migClaimed := next;
      receipts := receipts[sender := Claimed(liquid, staked)];
      ok := true;
    }

    method SweepUnclaimed(height: nat, ghost prev: nat) returns (ok: bool)
      requires Sane(Now(), prev) && prev <= height
      modifies this, store
      ensures (Now(), ok) == Sweep(old(Now()), height)
    {
      hide SaneOwing, Walked, Recycled, DeadlineHeight, Good, AccrualStore.YieldNow;
      ghost var s0 := Now();
      SupplyFits(s0, prev);
      store.Shows();
      if migRoot.None? || height < DeadlineHeight(store.genesis, store.hpd) || migSwept {
        return false;
      }
      var current := store.Accrue(height);
      if !current {
        return false;
      }
      var remainder := migTotal - migClaimed;
      NothingRecycled(store.YieldNow());
      if remainder > 0 {
        var minted := MintMigrated(remainder);
        if !minted {
          return false;
        }
        store.Recycle(remainder);
      }
      migSwept := true;
      ok := true;
    }

    // ----- the walk -----

    /** The permissionless advance. It reports whether the walk is current, and never refuses. */
    method Advance(height: nat, maxDays: int) returns (current: bool)
      requires Good(store.YieldNow())
      modifies store
      ensures Now() == old(Now()).(y := store.YieldNow())
      ensures (store.YieldNow(), current)
              == Walked(old(store.YieldNow()), TargetDay(old(store.YieldNow()).book, height),
                        maxDays, MAX_RETIRE_PER_WALK)
    {
      hide Good, Walked, DayOf, AccrualStore.YieldNow;
      current := store.AccrueSteps(height, maxDays);
    }

    // ----- mints -----

    method CreateMint(height: nat, sender: string, principal: int, days: nat, start: int, end: int) returns (ok: bool)
      requires Good(store.YieldNow())
      modifies this, store
      ensures (Now(), ok) == NewPosition(old(Now()), height, sender, principal, days, start, end)
    {
      hide Good, Walked, Registered, NewMint, Write, AccrualStore.YieldNow;
      ghost var y0 := store.YieldNow();
      store.Shows();
      if principal < MIN_MINT_AMOUNT || days < MIN_MINT_DAYS || days > MAX_MINT_DAYS
         || Read(balances, sender) < principal
      {
        return false;
      }
      var current := store.Accrue(height);
      if !current {
        return false;
      }
      var rate := ComputeShareRate(store.genesis, height);
      var made := NewMint(sender, principal, days, height, MintParams(start, end, rate));
      if made.None? {
        return false;
      }
      balances := Write(balances, sender, Read(balances, sender) - principal);
      AccruedTwice(y0, height);
      AccruedIsGood(y0, height);
      ok := store.RegisterMint(height, made.value);
    }

    method ArmPosition(height: nat, sender: string, id: nat) returns (ok: bool)
      modifies store
      ensures (Now(), ok) == Armed(old(Now()), height, sender, id)
    {
      hide CanArmGoodAccounting, AccrualStore.YieldNow;
      store.Shows();
      if id >= |store.mints| || store.mints[id].owner != sender {
        return false;
      }
      if !CanArmGoodAccounting(store.hpd, store.mints[id], height) {
        return false;
      }
      store.SetArmed(id);
      ok := true;
    }

    method EndPosition(height: nat, owner: string, id: nat, sweep: bool, ghost prev: nat) returns (ok: bool)
      requires Sane(Now(), prev) && prev <= height
      modifies this, store
      ensures (Now(), ok) == ClosePosition(old(Now()), height, owner, id, sweep)
    {
      hide SaneOwing, Walked, Recycled, Payable, Settle, Credit, DueDay, Good, Taken, AccrualStore.YieldNow;
      ghost var s0 := Now();
      SupplyFits(s0, prev);
      store.Shows();
      if id >= |store.mints| || store.mints[id].owner != owner || store.mints[id].ended {
        return false;
      }
      var caughtUp := store.Accrue(height);
      WalkTouchesNoMint(s0.y, TargetDay(s0.y.book, height), MAX_ACCRUAL_DAYS, USER_RETIRE_BUDGET);
      store.Shows();
      var m := store.mints[id];
      var closed, accrued := store.YieldOf(id, IsMature(store.hpd, m, height));
      if !closed {
        return false;
      }
      var st := Settle(store.hpd, m, height, accrued);
      if sweep && st.toOwner > 0 {
        return false;
      }
      CloseFits(s0, prev, height, owner, id);
      store.CloseRows(id, accrued);
      var credited := CreditAccount(owner, st.toOwner);
      if !credited {
        return false;
      }
      store.Recycle(st.toRewardPool);
      ok := true;
    }
  }

  // ----- the ledger's sums fit -----

  /** Before the first day closes and the snapshot is committed, nothing has been issued. */
  lemma NothingIssuedYet(s: State, now: nat)
    requires Sane(s, now) && s.y.settled <= s.Genesis() && s.mig.root.None?
    ensures s.migrated == 0 && forall a :: Read(s.balances, a) == 0
  {
    hide Sound, Solvent, SumBy, Total, DayOf;
    AccountsAreNonNegative(s);
    MulMono(s.Hpd(), 0, s.y.book.day);
    if s.y.book.day > 0 { MulMono(s.Hpd(), 1, s.y.book.day); }
    NothingBeforeGenesis(DefaultSchedule(s.Genesis()), HeightOfDay(s.Genesis(), s.Hpd(), s.y.book.day));
  }

  lemma SupplyFits(s: State, now: nat)
    requires Sane(s, now)
    ensures Good(s.y) && 0 <= s.migrated && s.mig.claimed <= s.mig.total <= HISTORIC_HARD_CAP
    ensures !s.mig.swept ==> s.migrated + (s.mig.total - s.mig.claimed) <= HISTORIC_HARD_CAP
    ensures forall a :: 0 <= Read(s.balances, a) <= HISTORIC_HARD_CAP
  {
    hide Good, SumBy, Total, DayOf;
    RoomForDue(s, now, 0);
    AccountsAreNonNegative(s);
    SaneSupply(s, now);
  }

  lemma SaneSupply(s: State, now: nat)
    requires Sane(s, now)
    ensures 0 <= s.migrated
  {
    hide Sound, Solvent, SumBy, Total, DayOf;
    SupplyUnderTheCap(s, now);
  }

  lemma ClaimFits(
    sha: string -> Merkle.Hash, s: State, prev: nat, height: nat, sender: string, liquid: int, staked: int,
    proof: Option<seq<Merkle.Hash>>)
    requires Sane(s, prev) && prev <= height && MayClaim(sha, s, height, sender, liquid, staked, proof)
    ensures Good(s.y) && 0 <= s.migrated && 0 <= liquid && 0 <= staked && s.migrated + liquid + staked <= MAX_AMOUNT
    ensures AddChecked(s.mig.claimed, Wrap64(liquid + staked)) == Some(s.mig.claimed + liquid + staked)
    ensures 0 <= Read(s.balances, sender) && Read(s.balances, sender) + liquid + staked <= MAX_AMOUNT
    ensures staked > 0 ==> var st := Settle(s.Hpd(), MigrationMint(s, sender, staked), height, 0);
                           0 <= st.toOwner <= staked
  {
    hide Good, SaneOwing, LeafAccepted, Settle;
    LaterIsStillSane(s, prev, height);
    SaneMigration(s, height);
    ClaimSumsAreExact(sha, s, height, sender, liquid, staked, proof);
    SupplyFits(s, height);
    AddCheckedExact(s.mig.claimed, liquid + staked);
    ClockIsOk(s, height);
    if staked > 0 { SettleConserves(s.Hpd(), MigrationMint(s, sender, staked), height, 0); }
  }

  lemma SaneMigration(s: State, now: nat)
    requires Sane(s, now)
    ensures MigrationOk(s, now)
  {
  }

  lemma NothingRecycled(y: Yield)
    ensures Recycled(y, 0) == y
  {
  }

  lemma AccruedTwice(y: Yield, height: nat)
    requires Accrued(y, height).1
    ensures Accrued(Accrued(y, height).0, height) == (Accrued(y, height).0, true)
  {
    hide Loop, Commit, DayOf;
    WalkTouchesNoMint(y, TargetDay(y.book, height), MAX_ACCRUAL_DAYS, USER_RETIRE_BUDGET);
  }

  /** What a close pays is in range, whatever it turns out to be. */
  lemma CloseFits(s: State, prev: nat, height: nat, owner: string, id: nat)
    requires Sane(s, prev) && prev <= height && id < |s.y.book.mints| && !s.y.book.mints[id].ended
    requires var y := Accrued(s.y, height).0;
             && id < |y.book.mints|
             && (IsMature(s.Hpd(), y.book.mints[id], height) ==> y.book.MatDay(y.book.mints[id]) < y.book.day)
    ensures var y := Accrued(s.y, height).0;
            var m := y.book.mints[id];
            var out := Payable(y, m, IsMature(s.Hpd(), m, height));
            var st := Settle(s.Hpd(), m, height, out);
            && Good(y) && 0 <= out && 0 <= st.toOwner
            && 0 <= Read(s.balances, owner) && Read(s.balances, owner) + st.toOwner <= MAX_AMOUNT
  {
    hide Good, Held, Total, DayOf, SumBy, Walked, Settle, Payable, Earned, MigrationOk, GoodPositions, DueDay;
    LaterIsStillSane(s, prev, height);
    var y := Accrued(s.y, height).0;
    var s1 := s.(y := y);
    WalkKeepsSane(s, height, MAX_ACCRUAL_DAYS, USER_RETIRE_BUDGET);
    var m := y.book.mints[id];
    ClockIsOk(s1, height);
    PayableIsEarned(y, id, height);
    var out := Payable(y, m, IsMature(s.Hpd(), m, height));
    RoomForDue(s1, height, 0);
    AccountsAreNonNegative(s1);
    PositionIsGood(s1.y.book, id);
    SettleConserves(s.Hpd(), m, height, out);
  }
}
