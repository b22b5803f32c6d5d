/** Whether a committed entry can always be collected, whatever is called before its owner's claim. */
module Collection {
  import opened Units
  import opened Emission
  import opened LShare
  import opened ShareBook
  import opened Accrual
  import opened Ledger
  import opened Guarantees
  import Merkle

  /** A committed snapshot: its entries, their claimable total, and nothing taken but what it lists. */
  ghost predicate Committed(sha: string -> Merkle.Hash, s: State, entries: seq<Merkle.Entry>) {
    && CommittedAs(sha, s, entries) && |entries| <= 0x1_0000_0000 && s.mig.total == Qualifying(entries)
    && forall e | e in entries :: e.liquid >= 0 && e.staked >= 0
  }

  function Proof(sha: string -> Merkle.Hash, entries: seq<Merkle.Entry>, pos: nat): seq<Merkle.Hash>
    requires pos < |entries| && forall e | e in entries :: e.InTypes()
  {
    Merkle.ProofOf(sha, Merkle.Hashes(sha, Merkle.Texts(entries)), pos)
  }

  /** The call an entry is there for: its owner's claim, or the record of its burn. */
  function CallFor(sha: string -> Merkle.Hash, entries: seq<Merkle.Entry>, pos: nat, height: nat): Call
    requires pos < |entries| && forall e | e in entries :: e.InTypes()
  {
    var e, proof := entries[pos], Some(Proof(sha, entries, pos));
    Call(height, if e.burned then RecordBurn(e.account, e.liquid, e.staked, proof)
                 else Claim(e.account, e.liquid, e.staked, proof))
  }

  /** An entry its owner has something to claim by. */
  predicate Claimable(e: Merkle.Entry) {
    !e.burned && e.liquid + e.staked > 0 && e.account != BURN_ACCOUNT && e.account != ""
  }

  ghost predicate Collected(s: State, e: Merkle.Entry) {
    e.account in s.mig.receipts && EntryOfReceipt(e.account, s.mig.receipts[e.account]) == e
  }

  function Advances(height: nat, n: nat): seq<Call> { seq(n, _ => Call(height, Advance(0))) }

  /** Its claim is accepted at this height, if need be after calls of the permissionless advance. */
  ghost predicate Collectable(
    sha: string -> Merkle.Hash, s: State, entries: seq<Merkle.Entry>, pos: nat, height: nat)
    requires pos < |entries| && forall e | e in entries :: e.InTypes()
  {
    exists n: nat :: Apply(sha, Run(sha, s, Advances(height, n)), CallFor(sha, entries, pos, height)).1
  }

  // ----- advances make the walk current -----

  lemma OneMoreAdvance(sha: string -> Merkle.Hash, s: State, height: nat, n: nat)
    ensures Run(sha, s, Advances(height, n + 1))
            == Apply(sha, Run(sha, s, Advances(height, n)), Call(height, Advance(0))).0
  {
    assert Advances(height, n + 1)[..n] == Advances(height, n);
    hide Apply;
  }

  /** One advance moves no money and gets nearer to today. */
  lemma AdvanceGetsNearer(sha: string -> Merkle.Hash, s: State, height: nat)
    requires Sane(s, height) && s.y.book.day < TargetDay(s.y.book, height)
    ensures var s' := Apply(sha, s, Call(height, Advance(0))).0;
            && Sane(s', height) && s'.mig == s.mig && s'.Genesis() == s.Genesis() && s'.Hpd() == s.Hpd()
            && Nearer(s.y.book, s'.y.book, TargetDay(s.y.book, height))
  {
    SaneIsShaped(s, height);
    hide Good, Held, Total, SumBy, Loop, Commit, DayOf, Conserved, NothingNegative, GoodPositions, MigrationOk;
    WalkKeepsSane(s, height, 0, MAX_RETIRE_PER_WALK);
    GoodIsOnClock(s.y);
    GoodIsShaped(s.y);
    FullChunkIsNeverBlocked(s.y.book, MAX_RETIRE_PER_WALK);
    BehindMovesExactly(s.y, TargetDay(s.y.book, height), 0, MAX_RETIRE_PER_WALK);
  }

  lemma GoodIsShaped(y: Yield)
    requires Good(y)
    ensures Shape(y.book)
  {
  }

  /** So some number of them makes the walk current. */
  lemma EnoughAdvances(sha: string -> Merkle.Hash, s: State, height: nat) returns (n: nat)
    requires Sane(s, height)
    ensures var s' := Run(sha, s, Advances(height, n));
            && Sane(s', height) && s'.mig == s.mig && s'.Genesis() == s.Genesis() && s'.Hpd() == s.Hpd()
            && Accrued(s'.y, height).1
  {
    hide SaneOwing, Run, Apply, DayOf, Nearer, Advances, Loop;
    n := 0;
    NoAdvances(sha, s, height);
    ghost var target := TargetDay(s.y.book, height);
    ghost var t := Run(sha, s, Advances(height, n));
    while t.y.book.day < target
      invariant t == Run(sha, s, Advances(height, n))
      invariant Sane(t, height) && t.mig == s.mig && t.Genesis() == s.Genesis() && t.Hpd() == s.Hpd()
      decreases target - t.y.book.day, ChunksLeft(t.y.book)
    {
      OneMoreAdvance(sha, s, height, n);
      AdvanceGetsNearer(sha, t, height);
      NearerIs(t.y.book, Apply(sha, t, Call(height, Advance(0))).0.y.book, target);
      t := Apply(sha, t, Call(height, Advance(0))).0;
      n := n + 1;
    }
  }

  lemma NearerIs(b: Book, b': Book, target: nat)
    requires Nearer(b, b', target)
    ensures b.day < b'.day <= target || (b'.day == b.day && ChunksLeft(b') < ChunksLeft(b))
  {
  }

  lemma NoAdvances(sha: string -> Merkle.Hash, s: State, height: nat)
    ensures Run(sha, s, Advances(height, 0)) == s
  {
    assert Advances(height, 0) == [];
  }

  // ----- never lost -----

  /** Another entry of the same account that leaves a receipt in its place. */
  ghost predicate Rival(entries: seq<Merkle.Entry>, e: Merkle.Entry, x: Merkle.Entry) {
    x in entries && x != e && x.account == e.account && Wrap64(x.liquid + x.staked) > 0
  }

  /** An entry nobody took is collectable any time before the deadline. */
  lemma UntakenIsCollectable(
    sha: string -> Merkle.Hash, s: State, entries: seq<Merkle.Entry>, pos: nat, height: nat)
    requires Sane(s, height) && Committed(sha, s, entries) && pos < |entries| && Claimable(entries[pos])
    requires entries[pos].account !in s.mig.receipts && height < DeadlineHeight(s.Genesis(), s.Hpd())
    ensures Collectable(sha, s, entries, pos, height)
  {
    hide SaneOwing, Run, Apply, Advances, OnlyCommitted, Qualifying, RootOfSnapshot;
    var n := EnoughAdvances(sha, s, height);
    var s' := Run(sha, s, Advances(height, n));
    SameRecord(s, s', entries);
    HonestClaimSucceeds(sha, s', height, entries, pos, height);
  }

  lemma SameRecord(s: State, s': State, entries: seq<Merkle.Entry>)
    requires s'.mig == s.mig
    ensures OnlyCommitted(s', entries) <==> OnlyCommitted(s, entries)
  {
  }

  /** Only a receipt whose amounts add up to something is ever written. */
  lemma StepRecordsSomething(sha: string -> Merkle.Hash, s: State, c: Call)
    ensures var g, g' := s.mig.receipts, Apply(sha, s, c).0.mig.receipts;
            forall a | a in g' && a !in g :: Wrap64(g'[a].liquid + g'[a].staked) > 0
  {
    hide Walked, Registered, Settle, Recycled, Credit, LeafAccepted, Wrap64, AddChecked, Payable, NewMint, Taken;
  }

  lemma {:induction false} RunRecordsSomething(sha: string -> Merkle.Hash, s: State, calls: seq<Call>, a: string)
    requires a !in s.mig.receipts
    ensures var g := Run(sha, s, calls).mig.receipts;
            a in g ==> Wrap64(g[a].liquid + g[a].staked) > 0
  {
    hide Apply, Wrap64;
    if calls != [] {
      var front := calls[..|calls| - 1];
      RunRecordsSomething(sha, s, front, a);
      StepRecordsSomething(sha, Run(sha, s, front), calls[|calls| - 1]);
      StepKeepsReceipts(sha, Run(sha, s, front), calls[|calls| - 1]);
    }
  }

  /** Calls from height `now` to `height` whose proofs hash apart from the snapshot's tree. */
  ghost predicate Proper(
    sha: string -> Merkle.Hash, entries: seq<Merkle.Entry>, calls: seq<Call>, now: nat, height: nat)
    requires forall e | e in entries :: e.InTypes()
  {
    && ValidRun(calls, now) && LastHeight(calls, now) <= height
    && forall c | c in calls :: CallHashesApart(sha, entries, c.op)
  }

  /**
   * Through any calls of anybody, an entry without a rival is at every moment before the
   * deadline either collected, in both its amounts, or there to be collected.
   */
  lemma HonestEntryIsNeverLost(
    sha: string -> Merkle.Hash, s: State, now: nat, entries: seq<Merkle.Entry>, pos: nat, calls: seq<Call>, height: nat)
    requires Sane(s, now) && Committed(sha, s, entries) && pos < |entries| && Claimable(entries[pos])
    requires entries[pos].account !in s.mig.receipts && height < DeadlineHeight(s.Genesis(), s.Hpd())
    requires Proper(sha, entries, calls, now, height)
    requires forall x :: !Rival(entries, entries[pos], x)
    ensures var s' := Run(sha, s, calls);
            Collected(s', entries[pos]) || Collectable(sha, s', entries, pos, height)
  {
    hide SaneOwing, Run, CallHashesApart, RootOfSnapshot, Wrap64, Collectable, Qualifying;
    var s', a := Run(sha, s, calls), entries[pos].account;
    RunKeepsSane(sha, s, now, calls);
    LaterIsStillSane(s', LastHeight(calls, now), height);
    OnlyCommittedEntriesAreTaken(sha, s, entries, calls);
    RunKeepsCommitment(sha, s, calls);
    RunKeepsHistory(sha, s, calls);
    RunRecordsSomething(sha, s, calls, a);
    if a in s'.mig.receipts {
      var x := EntryOfReceipt(a, s'.mig.receipts[a]);
      assert x in entries;
      assert !Rival(entries, entries[pos], x);
    } else {
      UntakenIsCollectable(sha, s', entries, pos, height);
    }
  }

  // ----- and exactly when -----

  /** The snapshot's own calls hash apart from its own tree. */
  ghost predicate OwnCallsApart(sha: string -> Merkle.Hash, entries: seq<Merkle.Entry>)
    requires forall e | e in entries :: e.InTypes()
  {
    forall k: nat, height: nat | k < |entries| :: CallHashesApart(sha, entries, CallFor(sha, entries, k, height).op)
  }

  /** A receipt of another entry shuts a claim out for good. */
  lemma TakenStaysTaken(
    sha: string -> Merkle.Hash, s: State, entries: seq<Merkle.Entry>, pos: nat, height: nat)
    requires pos < |entries| && (forall e | e in entries :: e.InTypes()) && !entries[pos].burned
    requires entries[pos].account in s.mig.receipts
    ensures !Collectable(sha, s, entries, pos, height)
  {
    hide Run, Apply, Advances;
    var c := CallFor(sha, entries, pos, height);
    forall n: nat ensures !Apply(sha, Run(sha, s, Advances(height, n)), c).1 {
      RunKeepsReceipts(sha, s, Advances(height, n));
      StepKeepsReceipts(sha, Run(sha, s, Advances(height, n)), c);
    }
  }

  /** A burned entry's record is accepted while its account has no receipt. */
  lemma BurnIsRecorded(sha: string -> Merkle.Hash, s: State, entries: seq<Merkle.Entry>, k: nat, height: nat)
    requires Committed(sha, s, entries) && k < |entries| && entries[k].burned && entries[k].account != ""
    requires entries[k].account !in s.mig.receipts && Wrap64(entries[k].liquid + entries[k].staked) > 0
    ensures var (s', ok) := Apply(sha, s, CallFor(sha, entries, k, height));
            ok && Collected(s', entries[k])
  {
    hide Merkle.RootOf, Merkle.ProofOf, Merkle.LeafText, Merkle.Verifies, Wrap64, Qualifying;
    var e, leaves := entries[k], Merkle.Hashes(sha, Merkle.Texts(entries));
    Merkle.EveryLeafVerifies(sha, leaves, k);
    assert e == Merkle.Entry(e.account, e.liquid, e.staked, true);
    assert e in entries && e.InTypes();
  }

  lemma RivalIsClaimable(entries: seq<Merkle.Entry>, pos: nat, k: nat)
    requires pos < |entries| && k < |entries| && Claimable(entries[pos]) && !entries[k].burned
    requires Rival(entries, entries[pos], entries[k]) && entries[k].liquid >= 0 && entries[k].staked >= 0
    ensures Claimable(entries[k])
  {
  }

  lemma CollectedAfter(sha: string -> Merkle.Hash, s: State, entries: seq<Merkle.Entry>, pos: nat, height: nat)
    returns (n: nat)
    requires pos < |entries| && (forall e | e in entries :: e.InTypes()) && Collectable(sha, s, entries, pos, height)
    ensures Apply(sha, Run(sha, s, Advances(height, n)), CallFor(sha, entries, pos, height)).1
  {
    hide Apply, Run, Advances;
    n :| Apply(sha, Run(sha, s, Advances(height, n)), CallFor(sha, entries, pos, height)).1;
  }

  lemma ClaimCollects(sha: string -> Merkle.Hash, s: State, entries: seq<Merkle.Entry>, pos: nat, height: nat)
    requires pos < |entries| && (forall e | e in entries :: e.InTypes()) && !entries[pos].burned
    requires Apply(sha, s, CallFor(sha, entries, pos, height)).1
    ensures Collected(Apply(sha, s, CallFor(sha, entries, pos, height)).0, entries[pos])
  {
    StepKeepsReceipts(sha, s, CallFor(sha, entries, pos, height));
    hide Apply;
  }

  /** One call after a number of advances, all at one height, is a proper run. */
  lemma ThenCall(
    sha: string -> Merkle.Hash, s: State, entries: seq<Merkle.Entry>, now: nat, n: nat, c: Call)
    requires (forall e | e in entries :: e.InTypes()) && now <= c.height && ValidOp(c.op)
    requires CallHashesApart(sha, entries, c.op)
    ensures var calls := Advances(c.height, n) + [c];
            && Run(sha, s, calls) == Apply(sha, Run(sha, s, Advances(c.height, n)), c).0
            && Proper(sha, entries, calls, now, c.height)
  {
    hide Apply;
    var calls := Advances(c.height, n) + [c];
    assert calls[..n] == Advances(c.height, n) && calls[n] == c;
    forall d | d in calls ensures CallHashesApart(sha, entries, d.op) && ValidOp(d.op) && d.height == c.height {
      assert d == c || d == Call(c.height, Advance(0));
    }
    assert forall i | 0 <= i < |calls| :: calls[i] in calls;
  }

  /** A rival of the same account can be taken first, and then the entry is neither collected nor collectable. */
  lemma RivalShutsOut(
    sha: string -> Merkle.Hash, s: State, now: nat, entries: seq<Merkle.Entry>, pos: nat, k: nat, height: nat)
    returns (calls: seq<Call>)
    requires Sane(s, now) && Committed(sha, s, entries) && pos < |entries| && Claimable(entries[pos])
    requires entries[pos].account !in s.mig.receipts
    requires now <= height < DeadlineHeight(s.Genesis(), s.Hpd())
    requires OwnCallsApart(sha, entries)
    requires k < |entries| && Rival(entries, entries[pos], entries[k])
    ensures Proper(sha, entries, calls, now, height)
    ensures var s' := Run(sha, s, calls);
            !Collected(s', entries[pos]) && !Collectable(sha, s', entries, pos, height)
  {
    hide SaneOwing, Apply, RootOfSnapshot, Wrap64, Collectable, Qualifying, OnlyCommitted, Run;
    var last := CallFor(sha, entries, k, height);
    var n: nat := 0;
    LaterIsStillSane(s, now, height);
    if entries[k].burned {
      NoAdvances(sha, s, height);
      BurnIsRecorded(sha, s, entries, k, height);
    } else {
      RivalIsClaimable(entries, pos, k);
      UntakenIsCollectable(sha, s, entries, k, height);
      n := CollectedAfter(sha, s, entries, k, height);
      ClaimCollects(sha, Run(sha, s, Advances(height, n)), entries, k, height);
    }
    calls := Advances(height, n) + [last];
    ThenCall(sha, s, entries, now, n, last);
    TakenStaysTaken(sha, Run(sha, s, calls), entries, pos, height);
  }

  /** At every moment of every proper run before the deadline the entry is collected or collectable. */
  ghost predicate NeverLost(
    sha: string -> Merkle.Hash, s: State, now: nat, entries: seq<Merkle.Entry>, pos: nat, height: nat)
    requires pos < |entries| && forall e | e in entries :: e.InTypes()
  {
    forall calls | Proper(sha, entries, calls, now, height) ::
      Collected(Run(sha, s, calls), entries[pos]) || Collectable(sha, Run(sha, s, calls), entries, pos, height)
  }

  /**
   * A committed entry is never lost to its owner exactly when the snapshot holds no other
   * entry of its account with anything in it: a burned one, which anybody may record first,
   * or a second claimable one, which the owner can claim only instead.
   */
  lemma HonestEntryExactly(
    sha: string -> Merkle.Hash, s: State, now: nat, entries: seq<Merkle.Entry>, pos: nat, height: nat)
    requires Sane(s, now) && Committed(sha, s, entries) && pos < |entries| && Claimable(entries[pos])
    requires entries[pos].account !in s.mig.receipts && OwnCallsApart(sha, entries)
    requires now <= height < DeadlineHeight(s.Genesis(), s.Hpd())
    ensures NeverLost(sha, s, now, entries, pos, height) <==> forall x :: !Rival(entries, entries[pos], x)
  {
    hide SaneOwing, Run, Proper, OwnCallsApart, Collectable, Collected, OnlyCommitted, Qualifying, RootOfSnapshot;
    if forall x :: !Rival(entries, entries[pos], x) {
      forall calls | Proper(sha, entries, calls, now, height)
        ensures Collected(Run(sha, s, calls), entries[pos])
                || Collectable(sha, Run(sha, s, calls), entries, pos, height)
      {
        HonestEntryIsNeverLost(sha, s, now, entries, pos, calls, height);
      }
    } else {
      var x :| Rival(entries, entries[pos], x);
      var k :| 0 <= k < |entries| && entries[k] == x;
      var calls := RivalShutsOut(sha, s, now, entries, pos, k, height);
    }
  }

  // ----- two leaves of one account -----

  const TWO_LEAVES := [Merkle.Entry("a", 1, 0, false), Merkle.Entry("a", 1, 0, true)]

  ghost function TwoLeavesCommit(sha: string -> Merkle.Hash, height: nat): Call {
    Call(height, SetSnapshot(Some(RootOfSnapshot(sha, TWO_LEAVES)), 1, 1))
  }

  /**
   * The failing input: one account with a claimable and a burned leaf. The commit is
   * accepted, so is the record of the burn by anybody, and from then on the account's own
   * claim is refused whatever is called in between.
   */
  lemma BurnRecordBlocksTheClaim(
    sha: string -> Merkle.Hash, genesis: nat, hpd: nat, h0: nat, h1: nat, between: seq<Call>, h2: nat)
    ensures var committed := Apply(sha, Initial(genesis, hpd), TwoLeavesCommit(sha, h0));
            var recorded := Apply(sha, committed.0, CallFor(sha, TWO_LEAVES, 1, h1));
            && committed.1 && Committed(sha, committed.0, TWO_LEAVES) && recorded.1
            && !Apply(sha, Run(sha, recorded.0, between), CallFor(sha, TWO_LEAVES, 0, h2)).1
  {
    TwoLeavesAreCommitted(sha, genesis, hpd, h0);
    var s := Apply(sha, Initial(genesis, hpd), TwoLeavesCommit(sha, h0)).0;
    BurnIsRecorded(sha, s, TWO_LEAVES, 1, h1);
    var recorded := Apply(sha, s, CallFor(sha, TWO_LEAVES, 1, h1)).0;
    hide Apply, Run, Committed;
    RunKeepsReceipts(sha, recorded, between);
    StepKeepsReceipts(sha, Run(sha, recorded, between), CallFor(sha, TWO_LEAVES, 0, h2));
  }

  lemma TwoLeavesAreCommitted(sha: string -> Merkle.Hash, genesis: nat, hpd: nat, height: nat)
    ensures var (s, ok) := Apply(sha, Initial(genesis, hpd), TwoLeavesCommit(sha, height));
            ok && Committed(sha, s, TWO_LEAVES) && s.mig.receipts == map[]
  {
    hide RootOfSnapshot;
    assert TWO_LEAVES[..1] == [TWO_LEAVES[0]];
    assert Qualifying(TWO_LEAVES[..0]) == 0;
    assert Qualifying(TWO_LEAVES[..1]) == 1;
  }
}
