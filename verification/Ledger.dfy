/**
 * The contract's state machine around the walk: the migration claim, mints created and
 * closed, value recycled. Apply is one transaction at a height; Sane states hold after
 * every run of transactions with heights that do not go back.
 */
module Ledger {
  import opened Units
  import opened Emission
  import opened Accumulator
  import opened LShare
  import opened ShareBook
  import opened Accrual
  import Merkle

  const BURN_ACCOUNT := "hive:null"
  const MIN_MINT_AMOUNT := 100_000_000

  /** The record written under an account once its leaf is claimed or its burn recorded. */
  datatype Receipt = Claimed(liquid: int, staked: int) | Burned(liquid: int, staked: int)

  datatype Migration = Migration(
    root: Option<Merkle.Hash>, total: int, burn: int, claimed: int, swept: bool, receipts: map<string, Receipt>)

  datatype State = State(y: Yield, migrated: int, balances: map<string, int>, mig: Migration) {
    function Genesis(): nat { y.book.genesis }
    function Hpd(): nat { y.book.hpd }
  }

  /** What a call carries. None stands for hex text that does not parse. */
  datatype Op =
    | SetSnapshot(newRoot: Option<Merkle.Hash>, qualifierTotal: int, burnTotal: int)
    | Claim(sender: string, liquid: int, staked: int, proof: Option<seq<Merkle.Hash>>)
    | RecordBurn(account: string, liquid: int, staked: int, proof: Option<seq<Merkle.Hash>>)
    | SweepUnclaimed
    | Advance(maxDays: int)
    | CreateMint(sender: string, principal: int, days: nat, volumeStart: int, volumeEnd: int)
    | ArmGoodAccounting(sender: string, id: nat)
    | EndMint(owner: string, id: nat, sweep: bool)

  datatype Call = Call(height: nat, op: Op)

  function Credit(balances: map<string, int>, account: string, amount: int): map<string, int> {
    if amount <= 0 then balances else Write(balances, account, Read(balances, account) + amount)
  }

  // ----- migration -----

  function DeadlineHeight(genesis: nat, hpd: nat): nat {
    genesis + (MIGRATION_MINT_DAYS + GRACE_DAYS + BLEED_DAYS) * hpd
  }

  function Snapshot(s: State, root: Option<Merkle.Hash>, qualifierTotal: int, burnTotal: int): (State, bool) {
    var whole := Wrap64(qualifierTotal + burnTotal);
    if s.y.settled > s.Genesis() || s.mig.root.Some? || root.None? then (s, false)
    else if qualifierTotal < 0 || burnTotal < 0 || whole <= 0 then (s, false)
    else if Wrap64(Wrap64(s.migrated + whole) + EMISSION_CAP) > HISTORIC_HARD_CAP then (s, false)
    else
      (s.(mig := s.mig.(root := root, total := qualifierTotal, burn := burnTotal),
          migrated := s.migrated + burnTotal,
          balances := Credit(s.balances, BURN_ACCOUNT, burnTotal)), true)
  }

  predicate LeafAccepted(sha: string -> Merkle.Hash, s: State, e: Merkle.Entry, proof: Option<seq<Merkle.Hash>>)
    requires e.InTypes()
  {
    s.mig.root.Some? && proof.Some? && Merkle.Verifies(sha, sha(e.Text()), proof.value, s.mig.root.value)
  }

  /** What the guards of a claim ask before anything is written. */
  predicate MayClaim(
    sha: string -> Merkle.Hash, s: State, height: nat, sender: string, liquid: int, staked: int,
    proof: Option<seq<Merkle.Hash>>)
  {
    && s.mig.root.Some? && height < DeadlineHeight(s.Genesis(), s.Hpd()) && sender != BURN_ACCOUNT
    && IsInt64(liquid) && IsInt64(staked)
    && liquid >= 0 && staked >= 0 && Wrap64(liquid + staked) > 0
    && sender !in s.mig.receipts
    && LeafAccepted(sha, s, Merkle.Entry(sender, liquid, staked, false), proof)
    && var next := AddChecked(s.mig.claimed, Wrap64(liquid + staked));
       next.Some? && next.value <= s.mig.total
  }

  /** The mint every snapshot stake is, on the clock that began at genesis; nothing staked leaves the zero record. */
  function MigrationMint(s: State, sender: string, staked: int): Mint {
    var m := NewMigrationMint(sender, staked, s.Genesis());
    if m.Some? then m.value else Mint("", 0, 0, 0, 0, false, false, 0, 0)
  }

  /** The books after a claim: supply raised, the owner paid, the rest recycled, the receipt written. */
  function Settled(s: State, y: Yield, sender: string, liquid: int, staked: int, toOwner: int, recycled: int): State {
    State(Recycled(y, recycled), s.migrated + liquid + staked, Credit(s.balances, sender, liquid + toOwner),
          s.mig.(claimed := s.mig.claimed + liquid + staked,
                 receipts := s.mig.receipts[sender := Claimed(liquid, staked)]))
  }

  function ClaimLeaf(
    sha: string -> Merkle.Hash, s: State, height: nat, sender: string, liquid: int, staked: int,
    proof: Option<seq<Merkle.Hash>>): (State, bool)
  {
    if !MayClaim(sha, s, height, sender, liquid, staked, proof) then (s, false)
    else
      var m := MigrationMint(s, sender, staked);
      if staked > 0 && !IsMature(s.Hpd(), m, height) then
        var (y, current) := Accrued(s.y, height);
        if !current then (s.(y := y), false)
        else (Settled(s, Registered(y, m), sender, liquid, staked, 0, 0), true)
      else if staked > 0 then
        var st := Settle(s.Hpd(), m, height, 0);
        (Settled(s, s.y, sender, liquid, staked, st.toOwner, st.toRewardPool), true)
      else (Settled(s, s.y, sender, liquid, staked, 0, 0), true)
  }

  function RecordLeaf(
    sha: string -> Merkle.Hash, s: State, account: string, liquid: int, staked: int,
    proof: Option<seq<Merkle.Hash>>): (State, bool)
  {
    if s.mig.root.None? || account == "" || !IsInt64(liquid) || !IsInt64(staked) || liquid < 0 || staked < 0
       || Wrap64(liquid + staked) <= 0 || account in s.mig.receipts
       || !LeafAccepted(sha, s, Merkle.Entry(account, liquid, staked, true), proof)
    then (s, false)
    else (s.(mig := s.mig.(receipts := s.mig.receipts[account := Burned(liquid, staked)])), true)
  }

  function Sweep(s: State, height: nat): (State, bool) {
    if s.mig.root.None? || height < DeadlineHeight(s.Genesis(), s.Hpd()) || s.mig.swept then (s, false)
    else
      var (y, current) := Accrued(s.y, height);
      if !current then (s.(y := y), false)
      else
        var rest := s.mig.total - s.mig.claimed;
        (State(Recycled(y, rest), if rest > 0 then s.migrated + rest else s.migrated, s.balances,
               s.mig.(swept := true)), true)
  }

  // ----- mints -----

  function NewPosition(s: State, height: nat, sender: string, principal: int, days: nat, start: int, end: int)
    : (State, bool)
  {
    if principal < MIN_MINT_AMOUNT || days < MIN_MINT_DAYS || days > MAX_MINT_DAYS
       || Read(s.balances, sender) < principal
    then (s, false)
    else
      var (y, current) := Accrued(s.y, height);
      if !current then (s.(y := y), false)
      else
        match NewMint(sender, principal, days, height, MintParams(start, end, ShareRate(s.Genesis(), height)))
        case None => (s.(y := y), false)
        case Some(m) =>
          (s.(y := Registered(y, m), balances := Write(s.balances, sender, Read(s.balances, sender) - principal)), true)
  }

  function Armed(s: State, height: nat, sender: string, id: nat): (State, bool) {
    if id >= |s.y.book.mints| || s.y.book.mints[id].owner != sender
       || !CanArmGoodAccounting(s.Hpd(), s.y.book.mints[id], height)
    then (s, false)
    else (s.(y := s.y.(book := ArmMint(s.y.book, id))), true)
  }

  function ClosePosition(s: State, height: nat, owner: string, id: nat, sweep: bool): (State, bool) {
    if id >= |s.y.book.mints| || s.y.book.mints[id].owner != owner || s.y.book.mints[id].ended then (s, false)
    else
      var y := Accrued(s.y, height).0;
      WalkTouchesNoMint(s.y, TargetDay(s.y.book, height), MAX_ACCRUAL_DAYS, USER_RETIRE_BUDGET);
      var m := y.book.mints[id];
      var matured := IsMature(s.Hpd(), m, height);
      if matured && y.book.day <= y.book.MatDay(m) then (s.(y := y), false)
      else
        var accrued := Payable(y, m, matured);
        var st := Settle(s.Hpd(), m, height, accrued);
        if sweep && st.toOwner > 0 then (s.(y := y), false)
        else (Closed(s, y, id, accrued, st), true)
  }

  function Closed(s: State, y: Yield, id: nat, accrued: int, st: Settlement): State
    requires id < |y.book.mints|
  {
    var taken := Taken(y, id, accrued);
    s.(y := Recycled(taken, st.toRewardPool), balances := Credit(s.balances, y.book.mints[id].owner, st.toOwner))
  }

  function Apply(sha: string -> Merkle.Hash, s: State, c: Call): (State, bool) {
    match c.op
    case SetSnapshot(root, qualifierTotal, burnTotal) => Snapshot(s, root, qualifierTotal, burnTotal)
    case Claim(sender, liquid, staked, proof) => ClaimLeaf(sha, s, c.height, sender, liquid, staked, proof)
    case RecordBurn(account, liquid, staked, proof) => RecordLeaf(sha, s, account, liquid, staked, proof)
    case SweepUnclaimed => Sweep(s, c.height)
    case Advance(maxDays) =>
      var (y, current) := Walked(s.y, TargetDay(s.y.book, c.height), maxDays, MAX_RETIRE_PER_WALK);
      (s.(y := y), current)
    case CreateMint(sender, principal, days, start, end) =>
      NewPosition(s, c.height, sender, principal, days, start, end)
    case ArmGoodAccounting(sender, id) => Armed(s, c.height, sender, id)
    case EndMint(owner, id, sweep) => ClosePosition(s, c.height, owner, id, sweep)
  }

  /** The state Init leaves. */
  function Initial(genesis: nat, hpd: nat): State {
    State(InitialYield(genesis, hpd), 0, map[], Migration(None, 0, 0, 0, false, map[]))
  }

  // ----- sums over accounts -----

  ghost function SumBy<V>(m: map<string, V>, f: V -> int): int
    decreases |m|
  {
    if m == map[] then 0
    else
      var k :| k in m;
      f(m[k]) + SumBy(m - {k}, f)
  }

  lemma {:induction false} SumTakesOut<V>(m: map<string, V>, f: V -> int, k: string)
    requires k in m
    ensures SumBy(m, f) == f(m[k]) + SumBy(m - {k}, f)
    decreases |m|
  {
    var j :| j in m && SumBy(m, f) == f(m[j]) + SumBy(m - {j}, f);
    if j != k {
      SumTakesOut(m - {j}, f, k);
      SumTakesOut(m - {k}, f, j);
      assert m - {j} - {k} == m - {k} - {j};
    }
  }

  lemma SumPuts<V>(m: map<string, V>, f: V -> int, k: string, v: V)
    ensures SumBy(m[k := v], f) == f(v) + SumBy(m - {k}, f)
    ensures k !in m ==> m - {k} == m
  {
    SumTakesOut(m[k := v], f, k);
    assert m[k := v] - {k} == m - {k};
  }

  ghost function Held(balances: map<string, int>): int { SumBy(balances, (v: int) => v) }

  lemma WriteMovesHeld(balances: map<string, int>, a: string, v: int)
    ensures Held(Write(balances, a, v)) == Held(balances) - Read(balances, a) + v
  {
    var f := (v: int) => v;
    if a in balances { SumTakesOut(balances, f, a); }
    SumPuts(balances, f, a, v);
  }

  // ----- the invariant -----

  ghost function PrincipalOf(): Mint -> int { (m: Mint) => if m.ended then 0 else m.principal }

  ghost function Locked(b: Book): int { Total(b.mints, PrincipalOf()) }

  function PoolSum(p: Pools): int { p.viral + p.deep + p.liquidity + p.lshare }

  function TakenBy(): Receipt -> int { (r: Receipt) => if r.Claimed? then r.liquid + r.staked else 0 }

  /** Every unit issued is somewhere: in a balance, in an open position, in a pool, or still `due` to one. */
  ghost predicate Conserved(s: State, due: int) {
    Held(s.balances) + Locked(s.y.book) + PoolSum(s.y.pools) + due == s.migrated + s.y.emitted
  }

  ghost predicate NothingNegative(s: State) {
    && (forall a :: Read(s.balances, a) >= 0)
    && 0 <= s.y.pools.viral && 0 <= s.y.pools.deep && 0 <= s.y.pools.liquidity && 0 <= s.y.pools.lshare
  }

  predicate GoodPosition(m: Mint) { m.principal > 0 && 4 * m.shares <= 9 * m.principal }

  ghost predicate GoodPositions(b: Book) { forall j | 0 <= j < |b.mints| :: GoodPosition(b.mints[j]) }

  /** The claim's own figures: who took what, and how the migrated supply follows from it. */
  ghost predicate MigrationOk(s: State, now: nat) {
    var g := s.mig;
    && 0 <= g.claimed <= g.total && 0 <= g.burn
    && g.burn + g.total + EMISSION_CAP <= HISTORIC_HARD_CAP
    && (g.root.None? ==> g.total == 0 && g.burn == 0 && !g.swept && g.receipts == map[])
    && s.migrated == g.burn + (if g.swept then g.total else g.claimed)
    && g.claimed == SumBy(g.receipts, TakenBy())
    && (g.swept ==> now >= DeadlineHeight(s.Genesis(), s.Hpd()))
  }

  ghost predicate SaneOwing(s: State, now: nat, due: int) {
    && Good(s.y) && InTime(s.y.book, TargetDay(s.y.book, now))
    && Conserved(s, due) && NothingNegative(s) && GoodPositions(s.y.book) && MigrationOk(s, now)
  }

  /** What holds of the contract after every transaction, `now` being the height of the latest one. */
  ghost predicate Sane(s: State, now: nat) { SaneOwing(s, now, 0) }

  // ----- bounds -----

  lemma {:induction false} HeldIsNonNegative(balances: map<string, int>, f: int -> int)
    requires forall a | a in balances :: f(balances[a]) >= 0
    ensures 0 <= SumBy(balances, f)
    ensures forall a | a in balances :: f(balances[a]) <= SumBy(balances, f)
    decreases |balances|
  {
    if balances != map[] {
      var k :| k in balances && SumBy(balances, f) == f(balances[k]) + SumBy(balances - {k}, f);
      HeldIsNonNegative(balances - {k}, f);
      forall a | a in balances ensures f(balances[a]) <= SumBy(balances, f) {
        assert a != k ==> a in balances - {k};
      }
    }
  }

  lemma {:induction false} TotalInProportion(ms: seq<Mint>, w: Mint -> int, u: Mint -> int)
    requires forall j | 0 <= j < |ms| :: 4 * w(ms[j]) <= 9 * u(ms[j])
    ensures 4 * Total(ms, w) <= 9 * Total(ms, u)
  {
    if ms != [] { TotalInProportion(ms[..|ms| - 1], w, u); }
  }

  lemma AccountsAreNonNegative(s: State)
    requires NothingNegative(s) && GoodPositions(s.y.book)
    ensures 0 <= Held(s.balances) && 0 <= Locked(s.y.book)
    ensures forall a :: Read(s.balances, a) <= Held(s.balances)
    ensures forall j | 0 <= j < |s.y.book.mints| && !s.y.book.mints[j].ended ::
              s.y.book.mints[j].principal <= Locked(s.y.book)
  {
    var f := (v: int) => v;
    forall a | a in s.balances ensures f(s.balances[a]) >= 0 {
      assert Read(s.balances, a) >= 0;
    }
    HeldIsNonNegative(s.balances, f);
    TotalAtLeast(s.y.book.mints, PrincipalOf(), 0);
    forall j | 0 <= j < |s.y.book.mints| && !s.y.book.mints[j].ended
      ensures s.y.book.mints[j].principal <= Locked(s.y.book)
    {
      TotalAtLeast(s.y.book.mints, PrincipalOf(), j);
    }
  }

  lemma SupplyUnderTheCap(s: State, now: nat)
    requires MigrationOk(s, now) && OnClock(s.y)
    ensures s.migrated + EMISSION_CAP <= HISTORIC_HARD_CAP
    ensures 0 <= s.y.emitted <= EMISSION_CAP && 0 <= s.migrated
  {
    hide EmittedBy, SumBy;
    DayEmissionIsExact(s.Genesis(), s.Hpd(), s.y.book.day);
  }

  /** Live shares never outgrow nine quarters of what is locked. */
  lemma ActiveIsBounded(b: Book)
    requires GoodPositions(b) && ActiveAgrees(b)
    ensures 4 * b.active <= 9 * Locked(b)
  {
    TotalInProportion(b.mints, LiveFrom(b.genesis, b.hpd, b.day), PrincipalOf());
  }

  /** What is still due fits in the pool with room to spare. */
  lemma RoomForDue(s: State, now: nat, due: int)
    requires SaneOwing(s, now, due) && 0 <= due
    ensures s.y.pools.lshare + due + EMISSION_CAP - s.y.emitted <= HISTORIC_HARD_CAP
    ensures 0 <= Held(s.balances) && 0 <= Locked(s.y.book) && due <= HISTORIC_HARD_CAP
    ensures Held(s.balances) + Locked(s.y.book) + PoolSum(s.y.pools) + due <= HISTORIC_HARD_CAP
  {
    hide Sound, Solvent, SumBy, Total, EmittedBy;
    AccountsAreNonNegative(s);
    SupplyUnderTheCap(s, now);
  }

  lemma RecyclingSettlesWhatIsDue(s: State, now: nat, due: int)
    requires SaneOwing(s, now, due) && 0 <= due
    ensures Sane(s.(y := Recycled(s.y, due)), now)
  {
    hide Sound, Solvent, SumBy, Total, EmittedBy, AccumulatorStep, OnClock;
    RoomForDue(s, now, due);
    RecycleKeepsGood(s.y, due);
  }

  lemma DayOfRises(genesis: nat, hpd: nat, h1: nat, h2: nat)
    requires h1 <= h2
    ensures DayOf(genesis, hpd, h1) <= DayOf(genesis, hpd, h2)
  {
    if hpd > 0 && h1 > genesis { FloorMono(h1 - genesis, h2 - genesis, hpd); }
    if hpd > 0 && h2 > genesis { FloorBounds(h2 - genesis, hpd); }
  }

  lemma LaterIsStillSane(s: State, prev: nat, now: nat)
    requires Sane(s, prev) && prev <= now
    ensures Sane(s, now)
  {
    hide Good, SumBy, Total, DayOf;
    DayOfRises(s.Genesis(), s.Hpd(), prev, now);
  }

  /** The walk keeps everything: what it emits is all in the pools. */
  lemma WalkKeepsSane(s: State, now: nat, days: int, budget: nat)
    requires Sane(s, now)
    ensures var y := Walked(s.y, TargetDay(s.y.book, now), days, budget).0;
            Sane(s.(y := y), now) && y.book.mints == s.y.book.mints
            && y.book.genesis == s.Genesis() && y.book.hpd == s.Hpd()
  {
    hide Sound, Solvent, SumBy, Total, EmittedBy, Loop, Commit, DayOf;
    var target := TargetDay(s.y.book, now);
    WalkKeepsGood(s.y, target, days, budget);
    WalkCreditsExactly(s.y, target, days, budget);
    WalkTouchesNoMint(s.y, target, days, budget);
  }

  // ----- each transaction keeps the invariant -----

  /** The cap check's sums stay inside an int64; the code does not test this itself. */
  predicate CapCheckHolds(qualifierTotal: int, burnTotal: int) { qualifierTotal + burnTotal < TWO_63 - EMISSION_CAP }

  /**
   * Arguments within their Go types, a signer with a name, governed bounds within an
   * Amount, and a snapshot the cap check can judge.
   */
  predicate ValidOp(op: Op) {
    match op
    case SetSnapshot(_, q, b) => IsInt64(q) && IsInt64(b) && (q >= 0 && b >= 0 ==> CapCheckHolds(q, b))
    case Claim(sender, _, _, _) => sender != ""
    case CreateMint(sender, principal, _, start, end) =>
      sender != "" && IsInt64(principal) && 0 <= start <= MAX_AMOUNT && end <= MAX_AMOUNT
    case _ => true
  }

  lemma CreditMovesHeld(balances: map<string, int>, a: string, amount: int)
    ensures amount >= 0 ==> Held(Credit(balances, a, amount)) == Held(balances) + amount
    ensures forall x :: Read(Credit(balances, a, amount), x) >= Read(balances, x)
  {
    WriteMovesHeld(balances, a, Read(balances, a) + amount);
  }

  lemma SnapshotKeepsSane(s: State, now: nat, root: Option<Merkle.Hash>, q: int, b: int)
    requires Sane(s, now) && IsInt64(q) && IsInt64(b) && (q >= 0 && b >= 0 ==> CapCheckHolds(q, b))
    ensures Sane(Snapshot(s, root, q, b).0, now)
  {
    hide Good, Held, SumBy, Total, DayOf;
    var (s', done) := Snapshot(s, root, q, b);
    if done {
      CreditMovesHeld(s.balances, BURN_ACCOUNT, b);
    }
  }

  lemma RecordKeepsSane(
    sha: string -> Merkle.Hash, s: State, now: nat, account: string, liquid: int, staked: int,
    proof: Option<seq<Merkle.Hash>>)
    requires Sane(s, now)
    ensures Sane(RecordLeaf(sha, s, account, liquid, staked, proof).0, now)
  {
    hide Good, Held, Total, DayOf, LeafAccepted;
    SumPuts(s.mig.receipts, TakenBy(), account, Burned(liquid, staked));
  }

  /** A claim's checks leave no room for overflow: the sum is exact, and so is the new claimed total. */
  lemma ClaimSumsAreExact(
    sha: string -> Merkle.Hash, s: State, now: nat, sender: string, liquid: int, staked: int,
    proof: Option<seq<Merkle.Hash>>)
    requires MigrationOk(s, now) && MayClaim(sha, s, now, sender, liquid, staked, proof)
    ensures 0 <= liquid && 0 <= staked && 0 < liquid + staked <= MAX_AMOUNT
    ensures s.mig.claimed + liquid + staked <= s.mig.total && !s.mig.swept
  {
    hide SumBy, LeafAccepted;
    assert liquid + staked >= TWO_63 ==> Wrap64(liquid + staked) == liquid + staked - TWO_64;
    AddCheckedExact(s.mig.claimed, liquid + staked);
  }

  /** The claim's bookkeeping over a walk state y that already holds what was locked. */
  lemma SettledIsSane(
    s: State, now: nat, y: Yield, sender: string, liquid: int, staked: int, toOwner: int, recycled: int)
    requires Sane(s, now) && MigrationOk(s, now) && s.mig.root.Some? && !s.mig.swept && sender !in s.mig.receipts
    requires 0 <= liquid && 0 <= staked && s.mig.claimed + liquid + staked <= s.mig.total
    requires 0 <= toOwner && 0 <= recycled
    requires Good(y) && InTime(y.book, TargetDay(y.book, now)) && GoodPositions(y.book)
    requires y.book.genesis == s.Genesis() && y.book.hpd == s.Hpd() && y.emitted == s.y.emitted && y.pools == s.y.pools
    requires Locked(y.book) + toOwner + recycled == Locked(s.y.book) + staked
    ensures Sane(Settled(s, y, sender, liquid, staked, toOwner, recycled), now)
  {
    hide Good, Held, Total, DayOf, Credit;
    var paid := State(y, s.migrated + liquid + staked, Credit(s.balances, sender, liquid + toOwner),
                      s.mig.(claimed := s.mig.claimed + liquid + staked,
                             receipts := s.mig.receipts[sender := Claimed(liquid, staked)]));
    CreditMovesHeld(s.balances, sender, liquid + toOwner);
    SumPuts(s.mig.receipts, TakenBy(), sender, Claimed(liquid, staked));
    assert SaneOwing(paid, now, recycled);
    RecyclingSettlesWhatIsDue(paid, now, recycled);
  }

  /** The migration mint matures on day 30 of the shared clock, whenever it is claimed. */
  lemma MigrationMintDay(s: State, sender: string, staked: int, height: nat)
    requires s.Hpd() > 0 && staked > 0
    ensures var m := MigrationMint(s, sender, staked);
            s.y.book.MatDay(m) == MIGRATION_MINT_DAYS
            && (!IsMature(s.Hpd(), m, height) ==> TargetDay(s.y.book, height) < MIGRATION_MINT_DAYS)
  {
    var hpd, g := s.Hpd(), s.Genesis();
    MulMono(hpd, 1, MIGRATION_MINT_DAYS);
    FloorUnique(MIGRATION_MINT_DAYS * hpd, hpd, MIGRATION_MINT_DAYS);
    if g < height < g + MIGRATION_MINT_DAYS * hpd {
      QuotientBound(height - g, hpd, MIGRATION_MINT_DAYS);
    }
  }

  lemma RegisterKeepsPositions(b: Book, m: Mint)
    requires GoodPositions(b) && GoodPosition(m) && !m.ended
    ensures GoodPositions(AddMint(b, m)) && Locked(AddMint(b, m)) == Locked(b) + m.principal
  {
    TotalOfOneMore(b.mints, m.(expChunk := AppendChunk(b, b.MatDay(m))), PrincipalOf());
  }

  /** A new position enters a sane state: the book, the yields and the clock all stay good. */
  lemma RegisteringIsGood(s: State, now: nat, m: Mint, due: int)
    requires SaneOwing(s, now, due) && 0 <= due && GoodMint(m) && GoodPosition(m) && !m.ended
    requires m.principal <= HISTORIC_HARD_CAP
    requires NotBegun(s.y.book, s.y.book.MatDay(m))
    ensures var y := Registered(s.y, m);
            && Good(y) && InTime(y.book, TargetDay(y.book, now)) && GoodPositions(y.book)
            && Locked(y.book) == Locked(s.y.book) + m.principal
            && y.pools == s.y.pools && y.emitted == s.y.emitted
            && y.book.genesis == s.Genesis() && y.book.hpd == s.Hpd()
  {
    hide Total, Held, DayOf, SumBy, AddMint, DueDay, Solvent, OnClock, StopsAgree, VotesAgree, ListsAgree, Shape;
    RoomForDue(s, now, due);
    ActiveIsBounded(s.y.book);
    RegisterKeepsGood(s.y, m);
    RegisterFrame(s.y, m);
    RegisterKeepsPositions(s.y.book, m.(accStart := s.y.acc));
  }

  lemma CurrentMeansToday(s: State, now: nat, days: int, budget: nat)
    requires Sane(s, now)
    ensures var (y, current) := Walked(s.y, TargetDay(s.y.book, now), days, budget);
            current ==> y.book.day == TargetDay(y.book, now) && Read(y.book.cursor, y.book.day) == 0
  {
    hide Good, Loop, Commit, DayOf, Total, SumBy;
    WalkKeepsSane(s, now, days, budget);
    SaneIsShaped(s.(y := Walked(s.y, TargetDay(s.y.book, now), days, budget).0), now);
  }

  lemma SaneIsShaped(s: State, now: nat)
    requires Sane(s, now)
    ensures 0 <= Read(s.y.book.cursor, s.y.book.day)
    ensures Sound(s.y.book)
  {
  }

  lemma ClaimKeepsSane(
    sha: string -> Merkle.Hash, s: State, now: nat, sender: string, liquid: int, staked: int,
    proof: Option<seq<Merkle.Hash>>)
    requires Sane(s, now) && sender != ""
    ensures Sane(ClaimLeaf(sha, s, now, sender, liquid, staked, proof).0, now)
  {
    hide Good, Held, Total, DayOf, Credit, LeafAccepted, SumBy, Walked, Settle, Settled,
         Registered, AddMint, Conserved, NothingNegative, GoodPositions;
    if MayClaim(sha, s, now, sender, liquid, staked, proof) {
      ClaimSumsAreExact(sha, s, now, sender, liquid, staked, proof);
      var m := MigrationMint(s, sender, staked);
      if staked > 0 && !IsMature(s.Hpd(), m, now) {
        LockedClaimKeepsSane(s, now, sender, liquid, staked);
      } else if staked > 0 {
        ClockIsOk(s, now);
        SettleConserves(s.Hpd(), m, now, 0);
        var st := Settle(s.Hpd(), m, now, 0);
        SettledIsSane(s, now, s.y, sender, liquid, staked, st.toOwner, st.toRewardPool);
      } else {
        SettledIsSane(s, now, s.y, sender, liquid, staked, 0, 0);
      }
    }
  }

  lemma ClockIsOk(s: State, now: nat)
    requires Sane(s, now)
    ensures ClockOk(s.y.book)
  {
  }

  lemma LockedClaimKeepsSane(s: State, now: nat, sender: string, liquid: int, staked: int)
    requires Sane(s, now) && sender != "" && sender !in s.mig.receipts && s.mig.root.Some? && !s.mig.swept
    requires 0 <= liquid && 0 < staked && s.mig.claimed + liquid + staked <= s.mig.total
    requires !IsMature(s.Hpd(), MigrationMint(s, sender, staked), now)
    ensures var (y, current) := Accrued(s.y, now);
            && Sane(s.(y := y), now)
            && (current ==>
                  Sane(Settled(s, Registered(y, MigrationMint(s, sender, staked)), sender, liquid, staked, 0, 0), now))
  {
    hide Good, Held, Total, DayOf, Credit, SumBy, Walked, Registered, AddMint, Conserved, NothingNegative,
         GoodPositions;
    var (y, current) := Accrued(s.y, now);
    var s1, m := s.(y := y), MigrationMint(s, sender, staked);
    WalkKeepsSane(s, now, MAX_ACCRUAL_DAYS, USER_RETIRE_BUDGET);
    CurrentMeansToday(s, now, MAX_ACCRUAL_DAYS, USER_RETIRE_BUDGET);
    if current {
      ClockIsOk(s1, now);
      MigrationMintDay(s1, sender, staked, now);
      RegisteringIsGood(s1, now, m, 0);
      SettledIsSane(s1, now, Registered(y, m), sender, liquid, staked, 0, 0);
    }
  }

  lemma SweepKeepsSane(s: State, now: nat)
    requires Sane(s, now)
    ensures Sane(Sweep(s, now).0, now)
  {
    hide Good, Held, Total, DayOf, SumBy, Walked, Recycled;
    var (y, current) := Accrued(s.y, now);
    WalkKeepsSane(s, now, MAX_ACCRUAL_DAYS, USER_RETIRE_BUDGET);
    if s.mig.root.Some? && now >= DeadlineHeight(s.Genesis(), s.Hpd()) && !s.mig.swept && current {
      var rest := s.mig.total - s.mig.claimed;
      var raised := State(y, s.migrated + rest, s.balances, s.mig.(swept := true));
      assert SaneOwing(raised, now, rest);
      RecyclingSettlesWhatIsDue(raised, now, rest);
    }
  }

  /** A mint of at least a day, begun now, matures today at the earliest. */
  lemma NewMintStopsLater(genesis: nat, hpd: nat, m: Mint, now: nat)
    requires hpd > 0 && m.start == now
    ensures DueDay(genesis, hpd, m) >= DayOf(genesis, hpd, now)
  {
    MulMono(hpd, 0, m.days);
    DayOfRises(genesis, hpd, now, MaturityHeight(hpd, m));
  }

  lemma NewMintIsGood(sender: string, principal: int, days: nat, now: nat, genesis: nat, start: int, end: int)
    requires sender != "" && principal <= MAX_AMOUNT && 0 <= start <= MAX_AMOUNT && end <= MAX_AMOUNT
    ensures var m := NewMint(sender, principal, days, now, MintParams(start, end, ShareRate(genesis, now)));
            m.Some? ==> GoodMint(m.value) && GoodPosition(m.value) && !m.value.ended
                        && m.value.principal == principal && m.value.start == now && m.value.owner == sender
  {
    hide ShareRate, DurationMultiplier, VolumeMultiplier, MulDiv;
    RateAtLeastGenesis(genesis, now);
    SharesAtMostTwoAndAQuarter(principal, days, MintParams(start, end, ShareRate(genesis, now)));
  }

  lemma CreateKeepsSane(s: State, now: nat, sender: string, principal: int, days: nat, start: int, end: int)
    requires Sane(s, now) && sender != "" && principal <= MAX_AMOUNT && 0 <= start <= MAX_AMOUNT && end <= MAX_AMOUNT
    ensures Sane(NewPosition(s, now, sender, principal, days, start, end).0, now)
  {
    hide Good, Held, Total, DayOf, SumBy, Walked, Registered, AddMint, NewMint, ShareRate, GoodPositions, MigrationOk;
    var (y, current) := Accrued(s.y, now);
    var s1 := s.(y := y);
    WalkKeepsSane(s, now, MAX_ACCRUAL_DAYS, USER_RETIRE_BUDGET);
    CurrentMeansToday(s, now, MAX_ACCRUAL_DAYS, USER_RETIRE_BUDGET);
    var made := NewMint(sender, principal, days, now, MintParams(start, end, ShareRate(s.Genesis(), now)));
    NewMintIsGood(sender, principal, days, now, s.Genesis(), start, end);
    if current && made.Some? && Read(s.balances, sender) >= principal {
      var m := made.value;
      ClockIsOk(s1, now);
      NewMintStopsLater(s.Genesis(), s.Hpd(), m, now);
      RoomForDue(s1, now, 0);
      AccountsAreNonNegative(s1);
      RegisteringIsGood(s1, now, m, 0);
      WriteMovesHeld(s.balances, sender, Read(s.balances, sender) - principal);
      var left := Write(s.balances, sender, Read(s.balances, sender) - principal);
      SameMigration(s1, s1.(y := Registered(y, m), balances := left), now);
    }
  }

  // ----- closing a position -----

  /** What a close pays is the mint's own entitlement, up to the reading it may use, and the pool holds it. */
  lemma PayableIsEarned(y: Yield, id: nat, height: nat)
    requires Good(y) && id < |y.book.mints| && !y.book.mints[id].ended && y.pools.lshare >= 0
    requires y.book.day <= TargetDay(y.book, height)
    requires var m := y.book.mints[id]; IsMature(y.book.hpd, m, height) ==> y.book.MatDay(m) < y.book.day
    ensures var m := y.book.mints[id];
            var out := Payable(y, m, IsMature(y.book.hpd, m, height));
            && out == Entitlement(m.shares, m.accStart, EndAcc(y, m))
            && 0 <= out <= y.pools.lshare && out * ACC_SCALE <= Earned(y)(m)
  {
    hide Entitlement, Earned, Covered, OnClock;
    var m := y.book.mints[id];
    YieldIsInThePool(y, id);
    hide Sound, Solvent;
    if !IsMature(y.book.hpd, m, height) {
      DayOfRises(y.book.genesis, y.book.hpd, height, MaturityHeight(y.book.hpd, m));
    }
  }

  lemma TakingKeepsPositions(b: Book, id: nat)
    requires GoodPositions(b) && id < |b.mints| && !b.mints[id].ended
    ensures GoodPositions(CloseMint(b, id)) && Locked(CloseMint(b, id)) == Locked(b) - b.mints[id].principal
  {
    TotalUpdate(b.mints, id, b.mints[id].(ended := true), PrincipalOf());
  }

  lemma ClosedIsSane(s: State, now: nat, id: nat, out: int, st: Settlement)
    requires Sane(s, now) && id < |s.y.book.mints| && !s.y.book.mints[id].ended
    requires 0 <= out <= s.y.pools.lshare && out * ACC_SCALE <= Earned(s.y)(s.y.book.mints[id])
    requires st.toOwner + st.toRewardPool == s.y.book.mints[id].principal + out
    requires 0 <= st.toOwner && 0 <= st.toRewardPool
    ensures Sane(Closed(s, s.y, id, out, st), now)
  {
    hide Good, Held, Total, DayOf, SumBy, CloseMint, Credit, Earned, MigrationOk, GoodPositions, Recycled, Taken;
    CloseKeepsGood(s.y, id, out);
    TakenFrame(s.y, id, out);
    TakenBook(s.y, id, out);
    TakingKeepsPositions(s.y.book, id);
    CreditMovesHeld(s.balances, s.y.book.mints[id].owner, st.toOwner);
    var paid := s.(y := Taken(s.y, id, out), balances := Credit(s.balances, s.y.book.mints[id].owner, st.toOwner));
    SameMigration(s, paid, now);
    assert SaneOwing(paid, now, st.toRewardPool);
    RecyclingSettlesWhatIsDue(paid, now, st.toRewardPool);
  }

  lemma TakenBook(y: Yield, id: nat, out: int)
    requires id < |y.book.mints|
    ensures Taken(y, id, out).book == CloseMint(y.book, id)
  {
  }

  lemma SameMigration(s: State, s': State, now: nat)
    requires MigrationOk(s, now) && s'.mig == s.mig && s'.migrated == s.migrated
    requires s'.Genesis() == s.Genesis() && s'.Hpd() == s.Hpd()
    ensures MigrationOk(s', now)
  {
    hide SumBy;
  }

  lemma CloseKeepsSane(s: State, now: nat, owner: string, id: nat, sweep: bool)
    requires Sane(s, now)
    ensures Sane(ClosePosition(s, now, owner, id, sweep).0, now)
  {
    hide Good, Held, Total, DayOf, SumBy, Walked, Closed, Settle, Payable, Earned, MigrationOk, GoodPositions;
    if id < |s.y.book.mints| && s.y.book.mints[id].owner == owner && !s.y.book.mints[id].ended {
      var y := Accrued(s.y, now).0;
      var s1 := s.(y := y);
      WalkKeepsSane(s, now, MAX_ACCRUAL_DAYS, USER_RETIRE_BUDGET);
      var m := y.book.mints[id];
      var matured := IsMature(s.Hpd(), m, now);
      if !(matured && y.book.day <= y.book.MatDay(m)) {
        ClockIsOk(s1, now);
        PayableIsEarned(y, id, now);
        var out := Payable(y, m, matured);
        RoomForDue(s1, now, 0);
        AccountsAreNonNegative(s1);
        PositionIsGood(s1.y.book, id);
        SettleConserves(s.Hpd(), m, now, out);
        ClosedIsSane(s1, now, id, out, Settle(s.Hpd(), m, now, out));
        assert Closed(s, y, id, out, Settle(s.Hpd(), m, now, out))
               == Closed(s1, y, id, out, Settle(s.Hpd(), m, now, out)) by {
          ClosedReadsOnlyTheWalk(s, y, id, out, Settle(s.Hpd(), m, now, out));
        }
      }
    }
  }

  lemma PositionIsGood(b: Book, id: nat)
    requires GoodPositions(b) && id < |b.mints|
    ensures GoodPosition(b.mints[id])
  {
  }

  lemma ClosedReadsOnlyTheWalk(s: State, y: Yield, id: nat, out: int, st: Settlement)
    requires id < |y.book.mints|
    ensures Closed(s, y, id, out, st) == Closed(s.(y := y), y, id, out, st)
  {
  }

  lemma ArmKeepsSane(s: State, now: nat, sender: string, id: nat)
    requires Sane(s, now)
    ensures Sane(Armed(s, now, sender, id).0, now)
  {
    hide Good, Held, Total, DayOf, SumBy, MigrationOk;
    var (s', armed) := Armed(s, now, sender, id);
    if armed {
      ArmKeepsGood(s.y, id);
      TotalUpdate(s.y.book.mints, id, s.y.book.mints[id].(goodAccounting := true), PrincipalOf());
      SameMigration(s, s', now);
    }
  }

  lemma ArmKeepsGood(y: Yield, id: nat)
    requires Good(y) && id < |y.book.mints|
    ensures Good(y.(book := ArmMint(y.book, id)))
  {
    ArmMintKeeps(y.book, id);
    hide Sound, Total, EmittedBy;
    var y', armed := y.(book := ArmMint(y.book, id)), y.book.mints[id].(goodAccounting := true);
    TotalUpdate(y.book.mints, id, armed, Earned(y'));
    TotalSame(y.book.mints, Earned(y'), Earned(y));
    forall j | 0 <= j < |y'.book.mints| && !y'.book.mints[j].ended
      ensures 0 <= y'.book.mints[j].accStart <= EndAcc(y', y'.book.mints[j]) <= y'.acc
              && y'.book.mints[j].shares <= MAX_AMOUNT
    {
      assert EndAcc(y', y'.book.mints[j]) == EndAcc(y, y.book.mints[j]);
    }
  }

  /** Every transaction, accepted or refused, leaves a sane state sane. */
  lemma StepKeepsSane(sha: string -> Merkle.Hash, s: State, prev: nat, c: Call)
    requires Sane(s, prev) && prev <= c.height && ValidOp(c.op)
    ensures Sane(Apply(sha, s, c).0, c.height)
  {
    hide SaneOwing, Snapshot, ClaimLeaf, RecordLeaf, Sweep, NewPosition, Armed, ClosePosition, Walked;
    LaterIsStillSane(s, prev, c.height);
    match c.op
    case SetSnapshot(root, q, b) => SnapshotKeepsSane(s, c.height, root, q, b);
    case Claim(sender, liquid, staked, proof) => ClaimKeepsSane(sha, s, c.height, sender, liquid, staked, proof);
    case RecordBurn(account, liquid, staked, proof) =>
      RecordKeepsSane(sha, s, c.height, account, liquid, staked, proof);
    case SweepUnclaimed => SweepKeepsSane(s, c.height);
    case Advance(maxDays) => WalkKeepsSane(s, c.height, maxDays, MAX_RETIRE_PER_WALK);
    case CreateMint(sender, principal, days, start, end) =>
      CreateKeepsSane(s, c.height, sender, principal, days, start, end);
    case ArmGoodAccounting(sender, id) => ArmKeepsSane(s, c.height, sender, id);
    case EndMint(owner, id, sweep) => CloseKeepsSane(s, c.height, owner, id, sweep);
  }

  // ----- runs -----

  function Run(sha: string -> Merkle.Hash, s: State, calls: seq<Call>): State {
    if calls == [] then s else Apply(sha, Run(sha, s, calls[..|calls| - 1]), calls[|calls| - 1]).0
  }

  /** Valid calls from height `now` on, heights never going back. */
  predicate ValidRun(calls: seq<Call>, now: nat) {
    && (forall i | 0 <= i < |calls| :: ValidOp(calls[i].op) && now <= calls[i].height)
    && (forall i, j | 0 <= i < j < |calls| :: calls[i].height <= calls[j].height)
  }

  function LastHeight(calls: seq<Call>, now: nat): nat { if calls == [] then now else calls[|calls| - 1].height }

  lemma {:induction false} RunKeepsSane(sha: string -> Merkle.Hash, s: State, now: nat, calls: seq<Call>)
    requires Sane(s, now) && ValidRun(calls, now)
    ensures Sane(Run(sha, s, calls), LastHeight(calls, now))
  {
    if calls != [] {
      var front := calls[..|calls| - 1];
      RunKeepsSane(sha, s, now, front);
      hide SaneOwing, Apply;
      StepKeepsSane(sha, Run(sha, s, front), LastHeight(front, now), calls[|calls| - 1]);
    }
  }

  lemma InitialIsSane(genesis: nat, hpd: nat, now: nat)
    requires GoodClock(hpd) && genesis < TWO_64
    ensures Sane(Initial(genesis, hpd), now)
  {
    EmptyIsSound(genesis, hpd);
    var s := DefaultSchedule(genesis);
    NothingBeforeGenesis(s, HeightOfDay(genesis, hpd, 0));
  }
}
