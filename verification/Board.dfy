/**
 * The stored leaderboard the consensus group is taken from: twenty accounts, offered a seat
 * one at a time as their shares change, because the contract cannot list every holder.
 */
module Board {
  import opened Insertion
  import opened Governance
  import opened ShareBook

  const BOARD_SIZE := 20

  function HolderOf(shares: map<string, int>, a: string): Holder { Holder(a, Read(shares, a)) }

  /** Whether a's live shares rank it above b. */
  predicate Outranks(shares: map<string, int>, a: string, b: string) {
    BetterThan(HolderOf(shares, a), HolderOf(shares, b))
  }

  lemma OneOutranks(shares: map<string, int>, a: string, b: string)
    ensures a == b || Outranks(shares, a, b) || Outranks(shares, b, a)
    ensures !(Outranks(shares, a, b) && Outranks(shares, b, a))
  {
    BetterThanIsStrictOrder();
    hide BetterThan;
  }

  lemma OutranksComposes(shares: map<string, int>, a: string, b: string, c: string)
    requires Outranks(shares, a, b) && Outranks(shares, b, c)
    ensures Outranks(shares, a, c)
  {
    BetterThanIsStrictOrder();
    hide BetterThan;
  }

  ghost predicate Distinct(seats: seq<string>) { forall i, j | 0 <= i < j < |seats| :: seats[i] != seats[j] }

  // ----- one offer -----

  function AllBut(seats: seq<string>, a: string): (r: seq<string>)
    ensures forall x :: x in r <==> x in seats && x != a
    ensures |r| <= |seats| && (a !in seats ==> r == seats)
  {
    if seats == [] then []
    else
      var last := seats[|seats| - 1];
      AllBut(seats[..|seats| - 1], a) + if last == a then [] else [last]
  }

  /** The first seat a outranks. */
  function FirstBelow(shares: map<string, int>, seats: seq<string>, a: string): (p: nat)
    ensures p <= |seats|
    ensures forall j | 0 <= j < p :: !Outranks(shares, a, seats[j])
    ensures p < |seats| ==> Outranks(shares, a, seats[p])
  {
    if seats == [] || Outranks(shares, a, seats[0]) then 0 else 1 + FirstBelow(shares, seats[1..], a)
  }

  function Placed(shares: map<string, int>, seats: seq<string>, a: string): seq<string> {
    var p := FirstBelow(shares, seats, a);
    seats[..p] + [a] + seats[p..]
  }

  function Cut(seats: seq<string>): seq<string> { if |seats| <= BOARD_SIZE then seats else seats[..BOARD_SIZE] }

  function Weakest(shares: map<string, int>, seats: seq<string>): (w: string)
    requires seats != []
    ensures w in seats
  {
    if |seats| == 1 then seats[0]
    else
      var w, last := Weakest(shares, seats[..|seats| - 1]), seats[|seats| - 1];
      if Outranks(shares, w, last) then last else w
  }

  /** The board after an account is offered a seat at its live shares. */
  function Offered(shares: map<string, int>, seats: seq<string>, a: string): seq<string> {
    if Read(shares, a) <= 0 then AllBut(seats, a)
    else if a !in seats && |seats| >= BOARD_SIZE && !Outranks(shares, a, Weakest(shares, seats)) then seats
    else Cut(Placed(shares, AllBut(seats, a), a))
  }

  class Leaderboard {
    var seats: seq<string>

    constructor ()
      ensures seats == []
    {
      seats := [];
    }

    /** Scans every seat: the stored order may be stale. */
    method WeakestOnBoard(shares: map<string, int>) returns (weakest: string)
      requires seats != []
      ensures weakest == Weakest(shares, seats)
    {
      hide Outranks;
      weakest := seats[0];
      for i := 1 to |seats|
        invariant weakest == Weakest(shares, seats[..i])
      {
        assert seats[..i + 1][..i] == seats[..i];
        if Outranks(shares, weakest, seats[i]) {
          weakest := seats[i];
        }
      }
      assert seats[..|seats|] == seats;
    }

    method OnBoard(account: string) returns (onBoard: bool)
      ensures onBoard <==> account in seats
    {
      onBoard := false;
      for i := 0 to |seats|
        invariant !onBoard && account !in seats[..i]
      {
        if seats[i] == account {
          return true;
        }
      }
    }

    method Others(account: string) returns (others: seq<string>)
      ensures others == AllBut(seats, account)
    {
      others := [];
      for i := 0 to |seats|
        invariant others == AllBut(seats[..i], account)
      {
        assert seats[..i + 1][..i] == seats[..i];
        if seats[i] != account {
          others := others + [seats[i]];
        }
      }
      assert seats[..|seats|] == seats;
    }

    /** The one pass that puts an account before the first seat it outranks, or at the end. */
    method PlaceBefore(shares: map<string, int>, others: seq<string>, account: string) returns (out: seq<string>)
      ensures out == Placed(shares, others, account)
    {
      hide Outranks;
      out := [];
      var inserted := false;
      ghost var p := FirstBelow(shares, others, account);
      for i := 0 to |others|
        invariant inserted <==> p < i
        invariant out == if inserted then others[..p] + [account] + others[p..i] else others[..i]
      {
        if !inserted && Outranks(shares, account, others[i]) {
          out := out + [account];
          inserted := true;
        }
        out := out + [others[i]];
      }
      if !inserted {
        out := out + [account];
      }
    }

    /** Inserts or repositions an account. */
    method Offer(shares: map<string, int>, account: string)
      requires |seats| <= BOARD_SIZE
      modifies this
      ensures seats == Offered(shares, old(seats), account)
    {
      hide Outranks, AllBut, Placed, Weakest;
      var held := Read(shares, account);
      var onBoard := OnBoard(account);
      if held <= 0 {
        if !onBoard {
          return;
        }
      } else if !onBoard && |seats| >= BOARD_SIZE {
        var weakest := WeakestOnBoard(shares);
        if !Outranks(shares, account, weakest) {
          return;
        }
      }
      var others := Others(account);
      if held <= 0 {
        seats := others;
        return;
      }
      var out := PlaceBefore(shares, others, account);
      seats := if |out| > BOARD_SIZE then out[..BOARD_SIZE] else out;
    }

    /** Anyone may offer any account that holds shares. */
    method Promote(shares: map<string, int>, account: string) returns (ok: bool)
      requires |seats| <= BOARD_SIZE
      modifies this
      ensures ok <==> account != "" && Read(shares, account) > 0
      ensures seats == if ok then Offered(shares, old(seats), account) else old(seats)
    {
      if account == "" || Read(shares, account) <= 0 {
        return false;
      }
      Offer(shares, account);
      ok := true;
    }

    /** The group in power: the board's ten best at their live shares. */
    method ConsensusMembers(shares: map<string, int>) returns (members: seq<Holder>)
      ensures members == Group(shares, seats)
    {
      var holders: seq<Holder> := [];
      for i := 0 to |seats|
        invariant holders == Holders(shares, seats[..i])
      {
        assert seats[..i + 1][..i] == seats[..i];
        holders := holders + [Holder(seats[i], Read(shares, seats[i]))];
      }
      assert seats[..|seats|] == seats;
      members := ConsensusGroup(holders);
    }
  }

  function Holders(shares: map<string, int>, accounts: seq<string>): seq<Holder> {
    if accounts == [] then []
    else Holders(shares, accounts[..|accounts| - 1]) + [HolderOf(shares, accounts[|accounts| - 1])]
  }

  function Group(shares: map<string, int>, seats: seq<string>): seq<Holder> { TopTen(Holders(shares, seats)) }

  // ----- who is dropped -----

  lemma {:induction false} WeakestIsOutranked(shares: map<string, int>, seats: seq<string>, b: string)
    requires b in seats && b != Weakest(shares, seats)
    ensures Outranks(shares, b, Weakest(shares, seats))
  {
    hide Outranks;
    if |seats| > 1 {
      var front, last := seats[..|seats| - 1], seats[|seats| - 1];
      var w, w' := Weakest(shares, front), Weakest(shares, seats);
      assert seats == front + [last];
      OneOutranks(shares, w, last);
      if b in front && b != w {
        WeakestIsOutranked(shares, front, b);
        if w' == last && w != last { OutranksComposes(shares, b, w, last); }
      }
    }
  }

  /** A full board and a newcomer that outranks one of its seats. */
  predicate Evicts(shares: map<string, int>, seats: seq<string>, a: string) {
    && Read(shares, a) > 0 && a !in seats && |seats| == BOARD_SIZE
    && Outranks(shares, a, Weakest(shares, seats))
  }

  /** Whoever an offer drops is outranked by everybody it keeps. */
  ghost predicate Fair(shares: map<string, int>, seats: seq<string>, a: string) {
    var kept := Offered(shares, seats, a);
    forall x, y | x in seats && x != a && x !in kept && y in kept :: Outranks(shares, y, x)
  }

  /** What an eviction does: the newcomer is in, and the last slot pays for it. */
  lemma EvictionDropsTheLast(shares: map<string, int>, seats: seq<string>, a: string)
    requires Evicts(shares, seats, a) && Distinct(seats)
    ensures var kept := Offered(shares, seats, a);
            && |kept| == BOARD_SIZE && seats[BOARD_SIZE - 1] !in kept
            && forall x :: x in kept <==> x == a || x in seats[..BOARD_SIZE - 1]
  {
    hide Outranks;
    var w := Weakest(shares, seats);
    var i :| 0 <= i < |seats| && seats[i] == w;
    var p := FirstBelow(shares, seats, a);
    assert p <= i;
    PlacedThenCut(shares, seats, a);
    hide Offered, FirstBelow, Weakest, Evicts;
    SameWithOneMore(seats[..BOARD_SIZE - 1], p, a);
    assert seats[BOARD_SIZE - 1] !in seats[..BOARD_SIZE - 1];
    assert a !in seats;
  }

  lemma PlacedThenCut(shares: map<string, int>, seats: seq<string>, a: string)
    requires Evicts(shares, seats, a) && FirstBelow(shares, seats, a) < BOARD_SIZE
    ensures var p, front := FirstBelow(shares, seats, a), seats[..BOARD_SIZE - 1];
            Offered(shares, seats, a) == front[..p] + [a] + front[p..]
    ensures a !in seats && |seats| == BOARD_SIZE
  {
    hide Outranks, Weakest, FirstBelow;
  }

  lemma SameWithOneMore(s: seq<string>, p: nat, a: string)
    requires p <= |s|
    ensures forall x :: x in s[..p] + [a] + s[p..] <==> x == a || x in s
  {
    assert s == s[..p] + s[p..];
  }

  lemma {:induction false} TakesOneOut(seats: seq<string>, a: string)
    requires Distinct(seats)
    ensures |AllBut(seats, a)| == if a in seats then |seats| - 1 else |seats|
    ensures Distinct(AllBut(seats, a))
  {
    if seats != [] {
      var front, last := seats[..|seats| - 1], seats[|seats| - 1];
      assert seats == front + [last];
      TakesOneOut(front, a);
      assert last !in front;
    }
  }

  /** Nobody but the offered account is lost where there is no eviction. */
  lemma NobodyIsDropped(shares: map<string, int>, seats: seq<string>, a: string)
    requires Distinct(seats) && |seats| <= BOARD_SIZE && !Evicts(shares, seats, a)
    ensures forall x | x in seats && x != a :: x in Offered(shares, seats, a)
  {
    hide Outranks;
    TakesOneOut(seats, a);
    var others := AllBut(seats, a);
    var p := FirstBelow(shares, others, a);
    assert others == others[..p] + others[p..];
  }

  /**
   * An offer is fair exactly when it evicts nobody or the last stored slot is the weakest
   * at live shares: the cut falls on the slot, not on the shares.
   */
  lemma OfferIsFairExactly(shares: map<string, int>, seats: seq<string>, a: string)
    requires Distinct(seats) && |seats| <= BOARD_SIZE
    ensures Fair(shares, seats, a)
            <==> (Evicts(shares, seats, a) ==> seats[|seats| - 1] == Weakest(shares, seats))
  {
    hide Outranks, Offered, Weakest;
    if Evicts(shares, seats, a) {
      var kept, last, w := Offered(shares, seats, a), seats[|seats| - 1], Weakest(shares, seats);
      EvictionDropsTheLast(shares, seats, a);
      assert seats == seats[..BOARD_SIZE - 1] + [last];
      assert last in seats && last !in kept && last != a;
      if last == w {
        forall x, y | x in seats && x != a && x !in kept && y in kept ensures Outranks(shares, y, x) {
          assert x == last;
          if y != a { WeakestIsOutranked(shares, seats, y); }
        }
      } else {
        WeakestIsOutranked(shares, seats, last);
        OneOutranks(shares, last, w);
        assert w in kept;
      }
    } else {
      NobodyIsDropped(shares, seats, a);
    }
  }

  /** The newcomer has its seat exactly when there is room or it outranks the weakest, wherever that sits. */
  lemma OfferSeatsExactly(shares: map<string, int>, seats: seq<string>, a: string)
    requires Distinct(seats) && |seats| <= BOARD_SIZE && Read(shares, a) > 0
    ensures a in Offered(shares, seats, a)
            <==> a in seats || |seats| < BOARD_SIZE || Outranks(shares, a, Weakest(shares, seats))
  {
    hide Outranks;
    TakesOneOut(seats, a);
    if Evicts(shares, seats, a) {
      EvictionDropsTheLast(shares, seats, a);
    }
  }

  // ----- a board in order -----

  ghost predicate InOrder(shares: map<string, int>, seats: seq<string>) {
    forall i, j | 0 <= i < j < |seats| :: Outranks(shares, seats[i], seats[j])
  }

  lemma InOrderIsDistinct(shares: map<string, int>, seats: seq<string>)
    requires InOrder(shares, seats)
    ensures Distinct(seats)
  {
    hide Outranks;
    forall i, j | 0 <= i < j < |seats| ensures seats[i] != seats[j] {
      OneOutranks(shares, seats[i], seats[j]);
    }
  }

  /** On a board in order at live shares every offer is fair. */
  lemma InOrderIsFair(shares: map<string, int>, seats: seq<string>, a: string)
    requires InOrder(shares, seats) && |seats| <= BOARD_SIZE
    ensures Fair(shares, seats, a)
  {
    hide Outranks, Fair, Weakest;
    InOrderIsDistinct(shares, seats);
    OfferIsFairExactly(shares, seats, a);
    if Evicts(shares, seats, a) {
      var w, last := Weakest(shares, seats), seats[|seats| - 1];
      if w != last {
        WeakestIsOutranked(shares, seats, last);
        OneOutranks(shares, last, w);
      }
    }
  }

  lemma PlacedInOrder(shares: map<string, int>, others: seq<string>, a: string)
    requires InOrder(shares, others) && a !in others
    ensures InOrder(shares, Placed(shares, others, a))
  {
    hide Outranks;
    var p := FirstBelow(shares, others, a);
    forall j | 0 <= j < p ensures Outranks(shares, others[j], a) {
      OneOutranks(shares, a, others[j]);
    }
    forall j | p <= j < |others| ensures Outranks(shares, a, others[j]) {
      if p < j { OutranksComposes(shares, a, others[p], others[j]); }
    }
  }

  /** An offer puts a board back in order whenever all but the offered account are. */
  lemma OfferKeepsOrder(shares: map<string, int>, seats: seq<string>, a: string)
    requires InOrder(shares, AllBut(seats, a)) && |seats| <= BOARD_SIZE
    ensures InOrder(shares, Offered(shares, seats, a)) && |Offered(shares, seats, a)| <= BOARD_SIZE
  {
    PlacedInOrder(shares, AllBut(seats, a), a);
    hide Outranks, Placed, Weakest, AllBut;
  }

  lemma {:induction false} AllButInOrder(shares: map<string, int>, seats: seq<string>, a: string)
    requires InOrder(shares, seats)
    ensures InOrder(shares, AllBut(seats, a))
  {
    hide Outranks;
    if seats != [] {
      var front := seats[..|seats| - 1];
      AllButInOrder(shares, front, a);
      var r := AllBut(seats, a);
      forall i, j | 0 <= i < j < |r| ensures Outranks(shares, r[i], r[j]) {
        if j == |AllBut(front, a)| {
          assert r[i] in AllBut(front, a);
          var k :| 0 <= k < |front| && front[k] == r[i];
          assert Outranks(shares, seats[k], seats[|seats| - 1]);
        }
      }
    }
  }

  // ----- the drained board -----

  /** Nineteen accounts whose shares all stop on one day, and one that goes on, in the last slot. */
  function CliffSeats(): seq<string> { seq(19, i requires 0 <= i < 19 => [(97 + i) as char]) + ["longterm"] }

  function BeforeTheCliff(): map<string, int> {
    map a | a in CliffSeats() :: if a == "longterm" then 1_500 else 100_000
  }

  const PAST_THE_CLIFF: map<string, int> := map["longterm" := 1_500, "newcomer" := 745]

  lemma CliffSeatsInOrder()
    ensures InOrder(BeforeTheCliff(), CliffSeats()) && |CliffSeats()| == BOARD_SIZE
  {
    var seats, shares := CliffSeats(), BeforeTheCliff();
    forall i, j | 0 <= i < j < |seats| ensures Outranks(shares, seats[i], seats[j]) {
      assert seats[i] in seats && seats[j] in seats;
      if j < 19 { assert seats[i][0] < seats[j][0]; }
    }
  }

  /**
   * In order before the walk drains the nineteen, and then an offer of a newcomer drops the
   * one holder with more shares than it, and keeps all nineteen with none.
   */
  lemma DrainedBoardDropsItsLiveSeat()
    ensures var kept := Offered(PAST_THE_CLIFF, CliffSeats(), "newcomer");
            && InOrder(BeforeTheCliff(), CliffSeats())
            && "longterm" in CliffSeats() && "longterm" !in kept && "newcomer" in kept
            && (forall a | a in CliffSeats() && a != "longterm" :: Read(PAST_THE_CLIFF, a) == 0 && a in kept)
            && !Fair(PAST_THE_CLIFF, CliffSeats(), "newcomer")
  {
    CliffSeatsInOrder();
    var seats, shares := CliffSeats(), PAST_THE_CLIFF;
    InOrderIsDistinct(BeforeTheCliff(), seats);
    assert seats[19] == "longterm";
    DrainedHoldNothing();
    assert seats[0] in seats[..19];
    var w := Weakest(shares, seats);
    if w == "longterm" { WeakestIsOutranked(shares, seats, seats[0]); }
    assert Evicts(shares, seats, "newcomer");
    hide CliffSeats, BeforeTheCliff, Weakest, Offered;
    EvictionDropsTheLast(shares, seats, "newcomer");
    OfferIsFairExactly(shares, seats, "newcomer");
    assert seats == seats[..19] + ["longterm"];
  }

  lemma DrainedHoldNothing()
    ensures forall a | a in CliffSeats()[..19] :: Read(PAST_THE_CLIFF, a) == 0 && |a| == 1
    ensures "newcomer" !in CliffSeats()
  {
  }

  // ----- a board nobody is missing from -----

  /** Every holder without a seat is outranked by all twenty that have one. */
  ghost predicate Complete(shares: map<string, int>, seats: seq<string>) {
    forall a | a !in seats && Read(shares, a) > 0 ::
      |seats| == BOARD_SIZE && forall b | b in seats :: Outranks(shares, b, a)
  }

  /** A caller can tell: if the account has a seat, what it is left with still outranks every holder that has none. */
  ghost predicate StaysAhead(shares: map<string, int>, seats: seq<string>, a: string, v: int) {
    a in seats ==>
      forall b | b !in seats && Read(shares, b) > 0 :: v > 0 && Outranks(Write(shares, a, v), a, b)
  }

  lemma OthersRankTheSame(shares: map<string, int>, a: string, v: int, x: string, y: string)
    requires x != a && y != a
    ensures Outranks(Write(shares, a, v), x, y) <==> Outranks(shares, x, y)
  {
  }

  lemma ChangeKeepsOrder(shares: map<string, int>, seats: seq<string>, a: string, v: int)
    requires InOrder(shares, seats) && |seats| <= BOARD_SIZE
    ensures var shares' := Write(shares, a, v);
            InOrder(shares', Offered(shares', seats, a)) && |Offered(shares', seats, a)| <= BOARD_SIZE
  {
    hide Outranks, Offered, Write;
    AllButInOrder(shares, seats, a);
    var shares', others := Write(shares, a, v), AllBut(seats, a);
    forall i, j | 0 <= i < j < |others| ensures Outranks(shares', others[i], others[j]) {
      assert others[i] in others && others[j] in others;
      OthersRankTheSame(shares, a, v, others[i], others[j]);
    }
    OfferKeepsOrder(shares', seats, a);
  }

  /** A change of one account's shares, offered at once, leaves nobody missing exactly when it stays ahead. */
  lemma ChangeKeepsCompleteExactly(shares: map<string, int>, seats: seq<string>, a: string, v: int)
    requires InOrder(shares, seats) && |seats| <= BOARD_SIZE && Complete(shares, seats)
    ensures var shares' := Write(shares, a, v);
            Complete(shares', Offered(shares', seats, a)) <==> StaysAhead(shares, seats, a, v)
  {
    hide Outranks, Offered, Write, Weakest;
    InOrderIsDistinct(shares, seats);
    if a in seats {
      SeatedChange(shares, seats, a, v);
    } else {
      UnseatedChange(shares, seats, a, v);
    }
  }

  lemma SeatedChange(shares: map<string, int>, seats: seq<string>, a: string, v: int)
    requires Distinct(seats) && |seats| <= BOARD_SIZE && Complete(shares, seats) && a in seats
    ensures var shares' := Write(shares, a, v);
            Complete(shares', Offered(shares', seats, a)) <==> StaysAhead(shares, seats, a, v)
  {
    var shares' := Write(shares, a, v);
    var kept := Offered(shares', seats, a);
    SeatedOffer(shares', seats, a);
    hide Outranks, Offered, Write;
    forall b, x | x != a && b != a ensures Outranks(shares', x, b) <==> Outranks(shares, x, b) {
      OthersRankTheSame(shares, a, v, x, b);
    }
    assert forall b | b != a :: Read(shares', b) == Read(shares, b);
  }

  /** Who is seated moves, or leaves with its last share. */
  lemma SeatedOffer(shares: map<string, int>, seats: seq<string>, a: string)
    requires Distinct(seats) && |seats| <= BOARD_SIZE && a in seats
    ensures var kept := Offered(shares, seats, a);
            && (forall x :: x in kept <==> x in seats && (x != a || Read(shares, a) > 0))
            && |kept| == if Read(shares, a) > 0 then |seats| else |seats| - 1
  {
    TakesOneOut(seats, a);
    hide Outranks, AllBut;
    var others := AllBut(seats, a);
    SameWithOneMore(others, FirstBelow(shares, others, a), a);
  }

  lemma UnseatedChange(shares: map<string, int>, seats: seq<string>, a: string, v: int)
    requires InOrder(shares, seats) && |seats| <= BOARD_SIZE && Complete(shares, seats) && a !in seats
    ensures var shares' := Write(shares, a, v); Complete(shares', Offered(shares', seats, a))
  {
    hide Outranks, Write, Offered;
    var shares' := Write(shares, a, v);
    forall b, x | x != a && b != a ensures Outranks(shares', x, b) <==> Outranks(shares, x, b) {
      OthersRankTheSame(shares, a, v, x, b);
    }
    assert forall b | b != a :: Read(shares', b) == Read(shares, b);
    UnseatedOffer(shares', seats, a);
  }

  /** Complete, but for one account. */
  ghost predicate CompleteBut(shares: map<string, int>, seats: seq<string>, a: string) {
    forall b | b !in seats && b != a && Read(shares, b) > 0 ::
      |seats| == BOARD_SIZE && forall x | x in seats :: Outranks(shares, x, b)
  }

  lemma UnseatedOffer(shares: map<string, int>, seats: seq<string>, a: string)
    requires InOrder(shares, seats) && |seats| <= BOARD_SIZE && a !in seats && CompleteBut(shares, seats, a)
    ensures Complete(shares, Offered(shares, seats, a))
  {
    hide Outranks, Weakest, FirstBelow;
    InOrderIsDistinct(shares, seats);
    if Read(shares, a) > 0 {
      if |seats| < BOARD_SIZE {
        SameWithOneMore(seats, FirstBelow(shares, seats, a), a);
      } else if Outranks(shares, a, Weakest(shares, seats)) {
        NewcomerKeepsComplete(shares, seats, a);
      } else {
        RefusedKeepsComplete(shares, seats, a);
      }
    }
  }

  lemma NewcomerKeepsComplete(shares: map<string, int>, seats: seq<string>, a: string)
    requires InOrder(shares, seats) && Distinct(seats) && CompleteBut(shares, seats, a) && Evicts(shares, seats, a)
    ensures Complete(shares, Offered(shares, seats, a))
  {
    hide Outranks, Weakest, Offered;
    var kept, w := Offered(shares, seats, a), Weakest(shares, seats);
    EvictionDropsTheLast(shares, seats, a);
    var last := seats[BOARD_SIZE - 1];
    assert seats == seats[..BOARD_SIZE - 1] + [last];
    InOrderIsFair(shares, seats, a);
    forall b, x | b !in kept && Read(shares, b) > 0 && x in kept ensures Outranks(shares, x, b) {
      if b !in seats && x == a { OutranksComposes(shares, a, w, b); }
    }
  }

  lemma RefusedKeepsComplete(shares: map<string, int>, seats: seq<string>, a: string)
    requires |seats| == BOARD_SIZE && a !in seats && CompleteBut(shares, seats, a)
    requires !Outranks(shares, a, Weakest(shares, seats))
    ensures Complete(shares, seats)
  {
    hide Outranks, Weakest;
    var w := Weakest(shares, seats);
    OneOutranks(shares, a, w);
    forall x | x in seats ensures Outranks(shares, x, a) {
      if x != w {
        WeakestIsOutranked(shares, seats, x);
        OutranksComposes(shares, x, w, a);
      }
    }
  }

  /** More shares never put an account behind. */
  lemma RisingStaysAhead(shares: map<string, int>, seats: seq<string>, a: string, v: int)
    requires Complete(shares, seats) && Read(shares, a) <= v
    ensures StaysAhead(shares, seats, a, v)
  {
  }

  // ----- the group of a complete board -----

  ghost predicate ListsEverybody(shares: map<string, int>, all: seq<string>) {
    Distinct(all) && forall a | Read(shares, a) > 0 :: a in all
  }

  function Unseated(all: seq<string>, seats: seq<string>): (r: seq<string>)
    ensures forall x :: x in r <==> x in all && x !in seats
  {
    if all == [] then []
    else
      var last := all[|all| - 1];
      Unseated(all[..|all| - 1], seats) + if last in seats then [] else [last]
  }

  lemma {:induction false} UnseatedDistinct(all: seq<string>, seats: seq<string>)
    requires Distinct(all)
    ensures Distinct(Unseated(all, seats))
  {
    if all != [] {
      var front, last := all[..|all| - 1], all[|all| - 1];
      UnseatedDistinct(front, seats);
      assert last !in front;
    }
  }

  /** Distinct accounts list each holder once. */
  lemma {:induction false} EachHolderOnce(shares: map<string, int>, accounts: seq<string>, h: Holder)
    requires Distinct(accounts)
    ensures multiset(Holders(shares, accounts))[h]
            == if h.account in accounts && h == HolderOf(shares, h.account) then 1 else 0
  {
    if accounts != [] {
      var front, last := accounts[..|accounts| - 1], accounts[|accounts| - 1];
      EachHolderOnce(shares, front, h);
      CountOneMore(Holders(shares, front), HolderOf(shares, last), h);
      assert accounts == front + [last] && last !in front;
    }
  }

  lemma PositiveOnce(shares: map<string, int>, accounts: seq<string>, h: Holder)
    requires Distinct(accounts)
    ensures multiset(Positive(Holders(shares, accounts)))[h]
            == if h.account in accounts && h == HolderOf(shares, h.account) && h.shares > 0 then 1 else 0
  {
    hide Positive, Holders;
    EachHolderOnce(shares, accounts, h);
    PositiveMultiset(Holders(shares, accounts), h);
  }

  /** The holders of all are those of the board and those without a seat. */
  lemma SeatedAndUnseated(shares: map<string, int>, seats: seq<string>, all: seq<string>)
    requires Distinct(seats) && ListsEverybody(shares, all)
    ensures multiset(Positive(Holders(shares, all)))
            == multiset(Positive(Holders(shares, seats))) + multiset(Positive(Holders(shares, Unseated(all, seats))))
  {
    hide Positive, Holders;
    UnseatedDistinct(all, seats);
    forall h
      ensures multiset(Positive(Holders(shares, all)))[h]
              == multiset(Positive(Holders(shares, seats)))[h]
                 + multiset(Positive(Holders(shares, Unseated(all, seats))))[h]
    {
      PositiveOnce(shares, all, h);
      PositiveOnce(shares, seats, h);
      PositiveOnce(shares, Unseated(all, seats), h);
    }
  }

  lemma SortedConcat(s: seq<Holder>, t: seq<Holder>)
    requires Sorted(BetterThan, s) && Sorted(BetterThan, t)
    requires forall x, y | x in s && y in t :: !BetterThan(y, x)
    ensures Sorted(BetterThan, s + t)
  {
    hide BetterThan;
  }

  lemma {:induction false} AllHoldSomething(shares: map<string, int>, seats: seq<string>)
    requires forall a | a in seats :: Read(shares, a) > 0
    ensures |Positive(Holders(shares, seats))| == |seats|
  {
    if seats != [] {
      var front, last := seats[..|seats| - 1], seats[|seats| - 1];
      assert forall a | a in front :: a in seats;
      AllHoldSomething(shares, front);
      PositiveOfOneMore(Holders(shares, front), HolderOf(shares, last));
    }
  }

  lemma PositiveHolder(shares: map<string, int>, accounts: seq<string>, h: Holder)
    requires Distinct(accounts) && h in Positive(Holders(shares, accounts))
    ensures h.account in accounts && h == HolderOf(shares, h.account) && h.shares > 0
  {
    hide Positive, Holders;
    PositiveOnce(shares, accounts, h);
    assert h in multiset(Positive(Holders(shares, accounts)));
  }

  /** A holder without a seat means a full board, every seat of it holding shares. */
  lemma FullBehind(shares: map<string, int>, seats: seq<string>, all: seq<string>, y: Holder)
    requires Distinct(all) && Complete(shares, seats) && y in Positive(Holders(shares, Unseated(all, seats)))
    ensures |Positive(Holders(shares, seats))| == BOARD_SIZE
    ensures y == HolderOf(shares, y.account) && forall b | b in seats :: Outranks(shares, b, y.account)
  {
    UnseatedDistinct(all, seats);
    PositiveHolder(shares, Unseated(all, seats), y);
    forall b | b in seats ensures Read(shares, b) > 0 {
      assert Outranks(shares, b, y.account);
    }
    AllHoldSomething(shares, seats);
  }

  lemma UnseatedRanksBelow(shares: map<string, int>, seats: seq<string>, all: seq<string>, x: Holder, y: Holder)
    requires Distinct(seats) && Distinct(all) && Complete(shares, seats)
    requires x in Positive(Holders(shares, seats)) && y in Positive(Holders(shares, Unseated(all, seats)))
    ensures !BetterThan(y, x)
  {
    FullBehind(shares, seats, all, y);
    PositiveHolder(shares, seats, x);
    hide Positive, Holders, BetterThan, Complete;
    OneOutranks(shares, x.account, y.account);
  }

  /** Where nobody is missing, the group taken from the twenty stored accounts is the top ten of all holders. */
  lemma CompleteBoardGivesTheTopTen(shares: map<string, int>, seats: seq<string>, all: seq<string>)
    requires Distinct(seats) && Complete(shares, seats) && ListsEverybody(shares, all)
    ensures Group(shares, seats) == TopTen(Holders(shares, all))
  {
    hide Positive, Holders, BetterThan, Complete, StrictOrder, Sort;
    var seated, rest := Positive(Holders(shares, seats)), Positive(Holders(shares, Unseated(all, seats)));
    var whole := Positive(Holders(shares, all));
    var s, r := Sort(BetterThan, seated), Sort(BetterThan, rest);
    SeatedAndUnseated(shares, seats, all);
    BetterThanIsStrictOrder();
    SortSorts(BetterThan, seated);
    SortSorts(BetterThan, rest);
    SortSorts(BetterThan, whole);
    forall x, y | x in s && y in r ensures !BetterThan(y, x) {
      assert x in multiset(s) && y in multiset(r);
      UnseatedRanksBelow(shares, seats, all, x, y);
    }
    SortedConcat(s, r);
    assert multiset(s + r) == multiset(s) + multiset(r);
    SortedUnique(BetterThan, s + r, Sort(BetterThan, whole));
    if r == [] {
      assert s + r == s;
    } else {
      assert r[0] in multiset(r);
      FullBehind(shares, seats, all, r[0]);
    }
  }

  // ----- runs -----

  datatype Change = Change(account: string, shares: int)

  datatype Standing = Standing(shares: map<string, int>, seats: seq<string>)

  /** Changes of shares, each account offered as its shares change. */
  function After(changes: seq<Change>): Standing {
    if changes == [] then Standing(map[], [])
    else
      var s, c := After(changes[..|changes| - 1]), changes[|changes| - 1];
      var shares := Write(s.shares, c.account, c.shares);
      Standing(shares, Offered(shares, s.seats, c.account))
  }

  /** No account with a seat is ever left behind one without. */
  ghost predicate NobodyFallsBehind(changes: seq<Change>) {
    changes == []
    || var front, c := changes[..|changes| - 1], changes[|changes| - 1];
       NobodyFallsBehind(front) && StaysAhead(After(front).shares, After(front).seats, c.account, c.shares)
  }

  lemma {:induction false} BoardStaysComplete(changes: seq<Change>)
    requires NobodyFallsBehind(changes)
    ensures var s := After(changes);
            InOrder(s.shares, s.seats) && |s.seats| <= BOARD_SIZE && Complete(s.shares, s.seats)
  {
    hide InOrder, Complete, StaysAhead, Offered, Write;
    if changes == [] {
      EmptyBoardIsComplete();
    } else {
      var front, c := changes[..|changes| - 1], changes[|changes| - 1];
      BoardStaysComplete(front);
      ChangeKeepsOrder(After(front).shares, After(front).seats, c.account, c.shares);
      ChangeKeepsCompleteExactly(After(front).shares, After(front).seats, c.account, c.shares);
    }
  }

  lemma EmptyBoardIsComplete()
    ensures InOrder(map[], []) && Complete(map[], [])
  {
  }

  /**
   * Over any run in which nobody seated falls behind, the group in power is the top ten of
   * all holders, however many there are and though the contract never lists them.
   */
  lemma GroupIsTheTopTenOfAll(changes: seq<Change>, all: seq<string>)
    requires NobodyFallsBehind(changes) && ListsEverybody(After(changes).shares, all)
    ensures var s := After(changes);
            Group(s.shares, s.seats) == TopTen(Holders(s.shares, all))
  {
    hide After, NobodyFallsBehind, Complete, ListsEverybody;
    BoardStaysComplete(changes);
    InOrderIsDistinct(After(changes).shares, After(changes).seats);
    CompleteBoardGivesTheTopTen(After(changes).shares, After(changes).seats, all);
  }
}
