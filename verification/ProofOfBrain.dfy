/** Content rewards: a window's pool, votes on a post, and the payout split. */
module ProofOfBrain {
  import opened Units

  // ----- one-step splits -----

  function SplitPoB(pob: int): (int, int) {
    if pob <= 0 then (0, 0)
    else
      match MulDiv(pob, 25, 100)
      case None => (0, 0)
      case Some(viral) => (viral, Wrap64(pob - viral))
  }

  /** 20% liquid, the rest pending. */
  function RoutePayout(amount: int): (int, int) {
    if amount <= 0 then (0, 0)
    else
      match MulDiv(amount, 20, 100)
      case None => (0, 0)
      case Some(liquid) => (liquid, Wrap64(amount - liquid))
  }

  lemma SplitsConserve(amount: int)
    requires 0 <= amount <= MAX_AMOUNT
    ensures var (viral, deep) := SplitPoB(amount);
            viral == amount / 4 && viral + deep == amount
    ensures var (liquid, pending) := RoutePayout(amount);
            liquid == amount / 5 && liquid + pending == amount
  {
    if amount > 0 {
      MulDivFraction(amount, 25, 100);
      MulDivFraction(amount, 20, 100);
      assert amount * 25 / 100 == amount / 4 && amount * 20 / 100 == amount / 5;
    }
  }

  // ----- the reward pool -----

  datatype PoolState = PoolState(balance: int, rshares: int)

  /** What Pool.Claim pays and leaves. */
  function Claimed(p: PoolState, postRshares: int): (int, PoolState) {
    if postRshares <= 0 || p.rshares <= 0 || p.balance <= 0 then (0, p)
    else
      var r := Min(postRshares, p.rshares);
      match MulDiv(p.balance, r, p.rshares)
      case None => (0, p)
      case Some(share) =>
        var out := Min(share, p.balance);
        (out, PoolState(p.balance - out, p.rshares - r))
  }

  class RewardPool {
    var balance: int
    var rshares: int

    function View(): PoolState
      reads this
    {
      PoolState(balance, rshares)
    }

    constructor ()
      ensures View() == PoolState(0, 0)
    {
      balance, rshares := 0, 0;
    }

    method Claim(postRshares: int) returns (out: int)
      modifies this
      ensures (out, View()) == Claimed(old(View()), postRshares)
      // A sound pool pays the floor of the claim's share, loses exactly that, and keeps its price for the rest.
      ensures SoundPool(old(View())) ==> PaidShare(old(View()), postRshares, out, View())
    {
      hide MulDiv, PaidShare;
      if SoundPool(View()) { ClaimPaysItsShare(View(), postRshares); }
      var r := postRshares;
      if r <= 0 || rshares <= 0 || balance <= 0 {
        return 0;
      }
      if r > rshares {
        r := rshares;
      }
      var share := MulDiv(balance, r, rshares);
      if share.None? {
        return 0;
      }
      out := share.value;
      if out > balance {
        out := balance;
      }
      balance := balance - out;
      rshares := rshares - r;
    }
  }

  predicate SoundPool(p: PoolState) {
    0 <= p.balance <= MAX_AMOUNT && 0 <= p.rshares <= MAX_AMOUNT
  }

  /** One claim is the floor of its proportional part, and never lowers what is left per rshare. */
  lemma ClaimIsProportional(p: PoolState, r: int)
    requires SoundPool(p) && 0 < r <= p.rshares
    ensures var (out, q) := Claimed(p, r);
            && SoundPool(q) && 0 <= out == p.balance * r / p.rshares && out + q.balance == p.balance
            && q.balance * p.rshares >= p.balance * (p.rshares - r)
            && q.rshares == if p.balance == 0 then p.rshares else p.rshares - r
  {
    MulDivFraction(p.balance, r, p.rshares);
    var out := p.balance * r / p.rshares;
    LeftPerShare(p.balance, r, p.rshares, out);
    if p.balance == 0 { assert p.balance * r == 0; }
  }

  /** p paid `out` for r rshares and became q. */
  ghost predicate PaidShare(p: PoolState, r: int, out: int, q: PoolState) {
    && SoundPool(q) && 0 <= out && out + q.balance == p.balance
    && (r <= 0 || p.rshares <= 0 ==> out == 0 && q == p)
    && (r > 0 && p.rshares > 0 ==>
          && out == p.balance * Min(r, p.rshares) / p.rshares
          && q.balance * p.rshares >= p.balance * (p.rshares - Min(r, p.rshares)))
  }

  lemma ClaimPaysItsShare(p: PoolState, r: int)
    requires SoundPool(p)
    ensures PaidShare(p, r, Claimed(p, r).0, Claimed(p, r).1)
  {
    hide Claimed;
    ClampedClaim(p, r);
    if r > 0 && p.rshares > 0 { ClaimIsProportional(p, Min(r, p.rshares)); }
  }

  lemma LeftPerShare(balance: int, r: int, rshares: int, out: int)
    requires out * rshares <= balance * r
    ensures (balance - out) * rshares >= balance * (rshares - r)
  {
  }

  /** Payouts of posts claiming one after another, with no new rshares in between. */
  function ClaimAll(p: PoolState, posts: seq<int>): (seq<int>, PoolState)
    decreases posts
  {
    if posts == [] then ([], p)
    else
      var (out, q) := Claimed(p, posts[0]);
      var (rest, end) := ClaimAll(q, posts[1..]);
      ([out] + rest, end)
  }

  lemma {:induction false} SumPositive(xs: seq<int>)
    requires forall x | x in xs :: x > 0
    ensures Sum(xs) >= 0 && (xs != [] ==> Sum(xs) > 0)
  {
    if xs != [] {
      assert xs[0] in xs && forall x | x in xs[1..] :: x in xs;
      SumPositive(xs[1..]);
    }
  }

  /** A floor does not fall when the price per rshare does not. */
  lemma FloorOfBetterPrice(b: nat, r: nat, b': nat, r': nat, x: nat)
    requires r > 0 && r' > 0 && b' * r >= b * r'
    ensures b * x / r <= b' * x / r'
  {
    var f := b * x / r;
    FloorBounds(b * x, r);
    MulMono(x, b * r', b' * r);
    MulMono(r', f * r, b * x);
    Rearranged(f, r, r', b, b', x);
    CancelFactor(r, f * r', b' * x);
    QuotientBound(b' * x, r', f);
  }

  lemma Rearranged(f: int, r: int, r': int, b: int, b': int, x: int)
    ensures r' * (f * r) == f * r' * r && r' * (b * x) == x * (b * r') && x * (b' * r) == b' * x * r
  {
  }

  /** What a run of claims owes its posts and the pool. */
  ghost predicate Fair(p: PoolState, posts: seq<int>, outs: seq<int>, end: PoolState)
    requires p.rshares > 0
  {
    && |outs| == |posts|
    && (forall i | 0 <= i < |posts| :: outs[i] >= p.balance * posts[i] / p.rshares)
    && Sum(outs) + end.balance == p.balance && 0 <= end.balance
    && (p.balance > 0 ==> (end.balance == 0 <==> Sum(posts) == p.rshares))
  }

  /**
   * In whatever order posts claim one pool, each receives at least the floor of its
   * share of the starting balance, together they receive at most that balance, and a
   * non-empty pool is emptied exactly when every registered rshare has claimed.
   */
  lemma {:induction false} OrderFreeClaims(p: PoolState, posts: seq<int>)
    requires SoundPool(p) && p.rshares > 0
    requires (forall r | r in posts :: r > 0) && Sum(posts) <= p.rshares
    ensures Fair(p, posts, ClaimAll(p, posts).0, ClaimAll(p, posts).1)
    decreases posts
  {
    hide Claimed, Fair;
    if posts == [] {
      NobodyClaims(p);
    } else {
      var r := posts[0];
      assert r in posts && forall x | x in posts[1..] :: x in posts;
      SumPositive(posts[1..]);
      ClaimIsProportional(p, r);
      var (out, q) := Claimed(p, r);
      if q.rshares == 0 {
        assert posts[1..] == [];
        LastClaimTakesAll(p, r, out, q);
        assert posts == [r] && [out] + [] == [out];
      } else {
        OrderFreeClaims(q, posts[1..]);
        FirstClaimThenRest(p, posts, out, q, ClaimAll(q, posts[1..]).0, ClaimAll(q, posts[1..]).1);
      }
    }
  }

  lemma NobodyClaims(p: PoolState)
    requires SoundPool(p) && p.rshares > 0
    ensures Fair(p, [], [], p)
  {
  }

  lemma LastClaimTakesAll(p: PoolState, r: int, out: int, q: PoolState)
    requires SoundPool(p) && p.rshares == r > 0 && out == p.balance * r / r && out + q.balance == p.balance
    ensures Fair(p, [r], [out], q)
  {
    FloorUnique(p.balance * r, r, p.balance);
    assert [r][1..] == [] && [out][1..] == [];
  }

  lemma FirstClaimThenRest(p: PoolState, posts: seq<int>, out: int, q: PoolState, rest: seq<int>, end: PoolState)
    requires SoundPool(p) && SoundPool(q) && p.rshares > 0 && q.rshares > 0 && posts != []
    requires (forall r | r in posts :: r > 0) && Sum(posts) <= p.rshares
    requires out == p.balance * posts[0] / p.rshares && out + q.balance == p.balance
    requires q.balance * p.rshares >= p.balance * (p.rshares - posts[0])
    requires q.rshares == if p.balance == 0 then p.rshares else p.rshares - posts[0]
    requires Fair(q, posts[1..], rest, end)
    ensures Fair(p, posts, [out] + rest, end)
  {
    var outs := [out] + rest;
    assert outs[1..] == rest;
    NoCheaper(p, posts[0], q);
    forall i | 0 <= i < |posts| ensures outs[i] >= p.balance * posts[i] / p.rshares {
      if i > 0 {
        assert posts[i] in posts && posts[1..][i - 1] == posts[i];
        FloorOfBetterPrice(p.balance, p.rshares, q.balance, q.rshares, posts[i]);
      }
    }
  }

  lemma NoCheaper(p: PoolState, r: int, q: PoolState)
    requires SoundPool(p) && SoundPool(q) && q.rshares > 0
    requires q.balance * p.rshares >= p.balance * (p.rshares - r)
    requires q.rshares == if p.balance == 0 then p.rshares else p.rshares - r
    ensures q.balance * p.rshares >= p.balance * q.rshares
    ensures p.balance > 0 ==> q.balance > 0
  {
    if p.balance == 0 { assert p.balance * q.rshares == 0; }
    else {
      MulMono(p.balance, 1, q.rshares);
      assert p.balance * q.rshares > 0;
      assert q.balance == 0 ==> q.balance * p.rshares == 0;
    }
  }

  // ----- posts -----

  datatype Vote = Vote(voter: string, rshares: int)

  datatype Reward = Reward(account: string, liquid: int, toPending: int) {
    function Total(): int { liquid + toPending }
  }

  function Routed(account: string, amount: int): Reward {
    var (liquid, pending) := RoutePayout(amount);
    Reward(account, liquid, pending)
  }

  function Rshares(votes: seq<Vote>): int {
    if votes == [] then 0 else Rshares(votes[..|votes| - 1]) + votes[|votes| - 1].rshares
  }

  /** Each voter's current rshares. */
  function Tally(votes: seq<Vote>): map<string, int> {
    if votes == [] then map[]
    else Tally(votes[..|votes| - 1])[votes[|votes| - 1].voter := votes[|votes| - 1].rshares]
  }

  /** What an account's standing vote counts for; nothing if it has not voted. */
  function Prior(votes: seq<Vote>, account: string): int {
    if account in Tally(votes) then Tally(votes)[account] else 0
  }

  predicate SoundVotes(votes: seq<Vote>) {
    && (forall i | 0 <= i < |votes| :: votes[i].rshares > 0)
    && (forall i, j | 0 <= i < j < |votes| :: votes[i].voter != votes[j].voter)
  }

  /** One reward per curator whose part is not zero, in the order the votes were first cast. */
  function CuratorRewards(pot: int, rshares: int, votes: seq<Vote>): seq<Reward> {
    if votes == [] then []
    else
      var last := votes[|votes| - 1];
      var share := MulDiv(pot, last.rshares, rshares);
      CuratorRewards(pot, rshares, votes[..|votes| - 1])
      + (if share.None? || share.value <= 0 then [] else [Routed(last.voter, share.value)])
  }

  function TotalOf(rewards: seq<Reward>): int {
    if rewards == [] then 0 else TotalOf(rewards[..|rewards| - 1]) + rewards[|rewards| - 1].Total()
  }

  /** A fifth of a reward is liquid, rounded down, and the rest is pending. */
  predicate FifthLiquid(r: Reward) { 5 * r.liquid <= r.Total() < 5 * r.liquid + 5 }

  /** r is what the voter of v is paid out of the pot. */
  ghost predicate PaidFor(r: Reward, v: Vote, pot: int, rshares: int) {
    r.account == v.voter && r.Total() > 0 && FloorOf(r.Total(), pot * v.rshares, rshares)
  }

  /** Every vote whose floored part is positive is paid that part, once, and nothing else is paid. */
  ghost predicate PaysEachVote(curators: seq<Reward>, pot: int, votes: seq<Vote>, rshares: int) {
    && (forall v | v in votes && pot * v.rshares >= rshares ::
          exists r :: r in curators && PaidFor(r, v, pot, rshares))
    && (forall r | r in curators :: FifthLiquid(r) && exists v :: v in votes && PaidFor(r, v, pot, rshares))
    && (forall i, j | 0 <= i < j < |curators| :: curators[i].account != curators[j].account)
  }

  class Post {
    const author: string
    const payoutHeight: nat
    var rshares: int
    var votes: seq<Vote>
    var paidOut: bool

    ghost predicate Valid()
      reads this
    {
      SoundVotes(votes) && rshares == Rshares(votes) && rshares <= MAX_AMOUNT
    }

    constructor (author: string, payoutHeight: nat)
      ensures Valid() && votes == [] && !paidOut
      ensures this.author == author && this.payoutHeight == payoutHeight
    {
      this.author, this.payoutHeight := author, payoutHeight;
      rshares, votes, paidOut := 0, [], false;
    }

    /**
     * Records a vote; a second vote of the same account replaces its first. The post's
     * total stays the sum of its votes exactly while that sum is an int64.
     */
    method AddVote(v: Vote, height: nat) returns (counted: bool)
      requires Valid() && IsInt64(v.rshares)
      modifies this
      ensures paidOut == old(paidOut) && SoundVotes(votes)
      ensures counted <==> !old(paidOut) && height < payoutHeight && v.rshares > 0
      ensures !counted ==> votes == old(votes)
      ensures counted ==> Tally(votes) == Tally(old(votes))[v.voter := v.rshares]
      ensures counted && v.voter !in Tally(old(votes)) ==> votes == old(votes) + [v]
      ensures Rshares(votes) == old(rshares) + if counted then v.rshares - Prior(old(votes), v.voter) else 0
      ensures Valid() <==> !counted || old(rshares) + v.rshares - Prior(old(votes), v.voter) <= MAX_AMOUNT
    {
      if paidOut || height >= payoutHeight || v.rshares <= 0 {
        return false;
      }
      RsharesNonNegative(votes);
      for i := 0 to |votes|
        invariant votes == old(votes) && rshares == old(rshares) && paidOut == old(paidOut)
        invariant forall j | 0 <= j < i :: votes[j].voter != v.voter
      {
        if votes[i].voter == v.voter {
          ReplaceVote(votes, i, v.rshares);
          rshares := Wrap64(rshares + Wrap64(v.rshares - votes[i].rshares));
          votes := votes[i := Vote(v.voter, v.rshares)];
          RsharesNonNegative(votes);
          return true;
        }
      }
      NewVote(votes, v);
      votes := votes + [v];
      rshares := Wrap64(rshares + v.rshares);
      RsharesNonNegative(votes);
      return true;
    }

    /** Settles the post against its pool. */
    method Payout(pool: RewardPool) returns (authorReward: Reward, curators: seq<Reward>, total: int)
      requires Valid() && SoundPool(pool.View())
      modifies this, pool
      ensures Valid() && paidOut && votes == old(votes)
      ensures old(paidOut)
              ==> pool.View() == old(pool.View()) && (authorReward, curators, total) == (Reward("", 0, 0), [], 0)
      ensures !old(paidOut) ==> (total, pool.View()) == Claimed(old(pool.View()), old(rshares))
      // Nothing is lost or invented: the rewards add up to what left the pool.
      ensures authorReward.Total() + TotalOf(curators) == total == old(pool.balance) - pool.balance
      // The curators share a quarter in proportion to their rshares; the author has the rest with the dust.
      ensures !old(paidOut) && total > 0 ==> curators == CuratorRewards(total / 4, old(rshares), old(votes))
      ensures !old(paidOut) && total > 0 ==> authorReward == Routed(author, total - TotalOf(curators))
      ensures 4 * TotalOf(curators) <= total
      // Each vote with a part in that quarter is paid it, by name and once; of every reward a fifth is liquid.
      ensures !old(paidOut) && total > 0 ==> PaysEachVote(curators, total / 4, old(votes), old(rshares))
      ensures !old(paidOut) && total > 0 ==> authorReward.account == author && FifthLiquid(authorReward)
      ensures !old(paidOut) && total <= 0 ==> authorReward == Reward(author, 0, 0) && curators == []
    {
      hide Claimed, MulDiv, CuratorRewards, TotalOf, RoutePayout, Rshares, SoundVotes, PaysEachVote, FifthLiquid;
      NoVotesNoRewards(0, 0);
      if paidOut {
        return Reward("", 0, 0), [], 0;
      }
      paidOut := true;
      ClaimBounds(pool.View(), rshares);
      total := pool.Claim(rshares);
      curators := [];
      if total <= 0 {
        authorReward := Reward(author, 0, 0);
        return;
      }
      MulDivFraction(total, 25, 100);
      assert total * 25 / 100 == total / 4;
      var curatorPot := MulDiv(total, 25, 100).value;
      var handedOut := 0;
      NoVotesNoRewards(curatorPot, rshares);
      if rshares > 0 && curatorPot > 0 {
        assert votes[..0] == [];
        for k := 0 to |votes|
          invariant Valid() && votes == old(votes) && rshares == old(rshares) && paidOut
          invariant curators == CuratorRewards(curatorPot, rshares, votes[..k]) && handedOut == TotalOf(curators)
          invariant (total, pool.View()) == Claimed(old(pool.View()), old(rshares))
        {
          CuratorStep(curatorPot, rshares, votes, k);
          var v := votes[k];
          var share := MulDiv(curatorPot, v.rshares, rshares);
          if share.None? || share.value <= 0 {
            continue;
          }
          curators := curators + [Routed(v.voter, share.value)];
          handedOut := handedOut + share.value;
        }
        assert votes[..|votes|] == votes;
      } else {
        EmptyPotNoRewards(rshares, votes);
      }
      CuratorsWithinPot(curatorPot, rshares, votes);
      CuratorsArePaid(curatorPot, rshares, votes);
      var authorAmount := total - handedOut;
      SplitsConserve(authorAmount);
      RoutedIsAFifth(author, authorAmount);
      authorReward := Routed(author, authorAmount);
    }
  }

  lemma ClampedClaim(p: PoolState, r: int)
    ensures r > 0 && p.rshares > 0 ==> Claimed(p, r) == Claimed(p, Min(r, p.rshares))
    ensures r <= 0 || p.rshares <= 0 ==> Claimed(p, r) == (0, p)
  {
    hide MulDiv;
  }

  lemma ClaimBounds(p: PoolState, r: int)
    requires SoundPool(p)
    ensures var (out, q) := Claimed(p, r);
            0 <= out <= MAX_AMOUNT && out == p.balance - q.balance && SoundPool(q) && (out > 0 ==> r > 0)
  {
    hide Claimed;
    ClampedClaim(p, r);
    if r > 0 && p.rshares > 0 {
      ClaimIsProportional(p, Min(r, p.rshares));
    }
  }

  lemma {:induction false} ReplaceVote(votes: seq<Vote>, i: nat, r: int)
    requires SoundVotes(votes) && i < |votes| && r > 0
    ensures var votes' := votes[i := Vote(votes[i].voter, r)];
            && SoundVotes(votes') && Rshares(votes') == Rshares(votes) + r - votes[i].rshares
            && Tally(votes') == Tally(votes)[votes[i].voter := r] && Prior(votes, votes[i].voter) == votes[i].rshares
            && votes[i].voter in Tally(votes)
  {
    var v := Vote(votes[i].voter, r);
    var front := votes[..|votes| - 1];
    var votes' := votes[i := v];
    if i == |votes| - 1 {
      assert votes'[..|votes| - 1] == front;
    } else {
      ReplaceVote(front, i, r);
      assert votes'[..|votes| - 1] == front[i := v];
    }
  }

  lemma NewVote(votes: seq<Vote>, v: Vote)
    requires SoundVotes(votes) && v.rshares > 0 && forall j | 0 <= j < |votes| :: votes[j].voter != v.voter
    ensures SoundVotes(votes + [v]) && Rshares(votes + [v]) == Rshares(votes) + v.rshares
    ensures Tally(votes + [v]) == Tally(votes)[v.voter := v.rshares] && v.voter !in Tally(votes)
  {
    assert (votes + [v])[..|votes|] == votes;
    TallyKeys(votes);
  }

  lemma {:induction false} TallyKeys(votes: seq<Vote>)
    ensures forall a :: a in Tally(votes) <==> exists j :: 0 <= j < |votes| && votes[j].voter == a
  {
    if votes != [] {
      var n := |votes| - 1;
      TallyKeys(votes[..n]);
      forall a ensures a in Tally(votes) <==> exists j :: 0 <= j < |votes| && votes[j].voter == a {
        if j :| 0 <= j < |votes| && votes[j].voter == a {
          if j < n { assert votes[..n][j].voter == a; }
        }
        if k :| 0 <= k < n && votes[..n][k].voter == a { assert votes[k].voter == a; }
        if votes[n].voter == a { assert votes[n].voter == a; }
      }
    }
  }

  lemma CuratorStep(pot: int, rshares: int, votes: seq<Vote>, k: nat)
    requires 0 <= pot <= MAX_AMOUNT && k < |votes| && SoundVotes(votes) && rshares == Rshares(votes) <= MAX_AMOUNT
    ensures var before := CuratorRewards(pot, rshares, votes[..k]);
            var share := MulDiv(pot, votes[k].rshares, rshares);
            && share.Some? && 0 <= share.value <= MAX_AMOUNT
            && var mine := Routed(votes[k].voter, share.value);
            && CuratorRewards(pot, rshares, votes[..k + 1]) == (if share.value <= 0 then before else before + [mine])
            && mine.Total() == share.value && TotalOf(before + [mine]) == TotalOf(before) + share.value
  {
    assert votes[..k + 1][..k] == votes[..k];
    OneVoteOfAll(votes, k);
    MulDivFraction(pot, votes[k].rshares, rshares);
    var share := pot * votes[k].rshares / rshares;
    SplitsConserve(share);
    var before, mine := CuratorRewards(pot, rshares, votes[..k]), Routed(votes[k].voter, share);
    assert (before + [mine])[..|before|] == before;
  }

  lemma RoutedIsAFifth(account: string, amount: int)
    requires 0 <= amount <= MAX_AMOUNT
    ensures var r := Routed(account, amount);
            r.account == account && r.Total() == amount && FifthLiquid(r)
  {
    SplitsConserve(amount);
    hide RoutePayout;
  }

  /** Vote by vote, the rewards are exactly what the votes so far are due. */
  lemma {:induction false} CuratorsPaidUpTo(pot: int, rshares: int, votes: seq<Vote>, k: nat)
    requires 0 <= pot <= MAX_AMOUNT && SoundVotes(votes) && rshares == Rshares(votes) <= MAX_AMOUNT && k <= |votes|
    ensures PaysEachVote(CuratorRewards(pot, rshares, votes[..k]), pot, votes[..k], rshares)
  {
    hide CuratorRewards, MulDiv, Routed, FifthLiquid, FloorOf, Rshares;
    if k == 0 {
      NoVotesNoRewards(pot, rshares);
      assert votes[..0] == [];
    } else {
      var v, before := votes[k - 1], CuratorRewards(pot, rshares, votes[..k - 1]);
      CuratorsPaidUpTo(pot, rshares, votes, k - 1);
      CuratorStep(pot, rshares, votes, k - 1);
      OneVoteOfAll(votes, k - 1);
      PartOf(pot, v, rshares);
      assert votes[..k] == votes[..k - 1] + [v];
      OneMorePaid(before, pot, votes[..k - 1], v, rshares, MulDiv(pot, v.rshares, rshares).value);
    }
  }

  lemma PartOf(pot: int, v: Vote, rshares: int)
    requires 0 <= pot <= MAX_AMOUNT && 0 < v.rshares <= rshares <= MAX_AMOUNT
    ensures var part := MulDiv(pot, v.rshares, rshares);
            && part.Some? && 0 <= part.value <= MAX_AMOUNT && FloorOf(part.value, pot * v.rshares, rshares)
            && (part.value > 0 <==> pot * v.rshares >= rshares)
            && (part.value > 0 ==> PaidFor(Routed(v.voter, part.value), v, pot, rshares))
            && FifthLiquid(Routed(v.voter, part.value))
  {
    MulDivFraction(pot, v.rshares, rshares);
    QuotientBound(pot * v.rshares, rshares, 1);
    RoutedIsAFifth(v.voter, MulDiv(pot, v.rshares, rshares).value);
    hide MulDiv, Routed, FifthLiquid;
  }

  lemma OneMorePaid(before: seq<Reward>, pot: int, votes: seq<Vote>, v: Vote, rshares: int, part: int)
    requires PaysEachVote(before, pot, votes, rshares)
    requires forall u | u in votes :: u.voter != v.voter
    requires part > 0 <==> pot * v.rshares >= rshares
    requires FifthLiquid(Routed(v.voter, part)) && (part > 0 ==> PaidFor(Routed(v.voter, part), v, pot, rshares))
    ensures PaysEachVote(if part <= 0 then before else before + [Routed(v.voter, part)], pot, votes + [v], rshares)
  {
    hide FifthLiquid, FloorOf, Routed;
    var after := if part <= 0 then before else before + [Routed(v.voter, part)];
    forall u | u in votes + [v] && pot * u.rshares >= rshares
      ensures exists r :: r in after && PaidFor(r, u, pot, rshares)
    {
      if u in votes {
        var r :| r in before && PaidFor(r, u, pot, rshares);
        assert r in after;
      } else {
        assert Routed(v.voter, part) in after;
      }
    }
    forall r | r in after ensures FifthLiquid(r) && exists u :: u in votes + [v] && PaidFor(r, u, pot, rshares) {
      if r in before {
        var u :| u in votes && PaidFor(r, u, pot, rshares);
        assert u in votes + [v];
      } else {
        assert v in votes + [v];
      }
    }
    forall r | r in before ensures r.account != v.voter {
      var u :| u in votes && PaidFor(r, u, pot, rshares);
    }
  }

  /** Every curator is paid what its vote is due, and nobody else anything. */
  lemma CuratorsArePaid(pot: int, rshares: int, votes: seq<Vote>)
    requires 0 <= pot <= MAX_AMOUNT && SoundVotes(votes) && rshares == Rshares(votes) <= MAX_AMOUNT
    ensures PaysEachVote(CuratorRewards(pot, rshares, votes), pot, votes, rshares)
  {
    CuratorsPaidUpTo(pot, rshares, votes, |votes|);
    assert votes[..|votes|] == votes;
  }

  lemma {:induction false} OneVoteOfAll(votes: seq<Vote>, k: nat)
    requires SoundVotes(votes) && k < |votes|
    ensures 0 < votes[k].rshares <= Rshares(votes)
  {
    var n := |votes| - 1;
    RsharesNonNegative(votes[..n]);
    if k < n { OneVoteOfAll(votes[..n], k); }
  }

  lemma {:induction false} RsharesNonNegative(votes: seq<Vote>)
    requires SoundVotes(votes)
    ensures Rshares(votes) >= 0
  {
    if votes != [] { RsharesNonNegative(votes[..|votes| - 1]); }
  }

  lemma {:induction false} NoPotNoRewards(pot: int, rshares: int, votes: seq<Vote>)
    requires pot == 0 && SoundVotes(votes) && rshares <= MAX_AMOUNT
    requires forall i | 0 <= i < |votes| :: votes[i].rshares <= rshares
    ensures CuratorRewards(pot, rshares, votes) == []
  {
    if votes != [] {
      NoPotNoRewards(pot, rshares, votes[..|votes| - 1]);
      MulDivFraction(0, votes[|votes| - 1].rshares, rshares);
    }
  }

  lemma EmptyPotNoRewards(rshares: int, votes: seq<Vote>)
    requires SoundVotes(votes) && rshares == Rshares(votes) <= MAX_AMOUNT
    ensures CuratorRewards(0, rshares, votes) == []
  {
    forall i | 0 <= i < |votes| ensures votes[i].rshares <= rshares {
      OneVoteOfAll(votes, i);
    }
    NoPotNoRewards(0, rshares, votes);
  }

  /** Floored proportional parts of the curators never add up to more than their pot. */
  lemma CuratorsWithinPot(pot: int, rshares: int, votes: seq<Vote>)
    requires 0 <= pot <= MAX_AMOUNT && SoundVotes(votes) && rshares == Rshares(votes) <= MAX_AMOUNT
    ensures 0 <= TotalOf(CuratorRewards(pot, rshares, votes)) <= pot
  {
    hide CuratorRewards, TotalOf;
    CuratorsScaled(pot, rshares, votes, |votes|);
    assert votes[..|votes|] == votes;
    var t := TotalOf(CuratorRewards(pot, rshares, votes));
    if votes == [] {
      NoVotesNoRewards(pot, rshares);
    } else {
      OneVoteOfAll(votes, 0);
      if t > pot { MulMono(rshares, pot + 1, t); }
    }
  }

  lemma NoVotesNoRewards(pot: int, rshares: int)
    ensures CuratorRewards(pot, rshares, []) == [] && TotalOf([]) == 0
  {
  }

  lemma {:induction false} CuratorsScaled(pot: int, rshares: int, votes: seq<Vote>, k: nat)
    requires 0 <= pot <= MAX_AMOUNT && SoundVotes(votes) && rshares == Rshares(votes) <= MAX_AMOUNT && k <= |votes|
    ensures 0 <= TotalOf(CuratorRewards(pot, rshares, votes[..k]))
    ensures TotalOf(CuratorRewards(pot, rshares, votes[..k])) * rshares <= pot * Rshares(votes[..k])
  {
    hide CuratorRewards, TotalOf, MulDiv;
    if k == 0 {
      NoVotesNoRewards(pot, rshares);
      assert votes[..0] == [];
    } else {
      CuratorsScaled(pot, rshares, votes, k - 1);
      CuratorStep(pot, rshares, votes, k - 1);
      OneVoteOfAll(votes, k - 1);
      MulDivFraction(pot, votes[k - 1].rshares, rshares);
      assert votes[..k][..k - 1] == votes[..k - 1];
      ScaledStep(TotalOf(CuratorRewards(pot, rshares, votes[..k - 1])), pot, rshares, Rshares(votes[..k - 1]),
                 votes[k - 1].rshares);
    }
  }

  lemma ScaledStep(t: int, pot: int, rshares: int, before: int, r: int)
    requires rshares > 0 && t * rshares <= pot * before
    ensures (t + pot * r / rshares) * rshares <= pot * (before + r)
  {
    FloorBounds(pot * r, rshares);
    assert (t + pot * r / rshares) * rshares == t * rshares + pot * r / rshares * rshares;
    assert pot * (before + r) == pot * before + pot * r;
  }
}
