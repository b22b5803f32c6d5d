/** The consensus group and the median of its members' standing preferences. */
module Governance {
  import opened Insertion

  const CONSENSUS_SIZE := 10

  datatype Holder = Holder(account: string, shares: int)

  /** Go's string order: bytes compared left to right, a proper prefix first. */
  predicate LexLess(a: string, b: string) {
    if a == "" then b != ""
    else b != "" && (a[0] < b[0] || (a[0] == b[0] && LexLess(a[1..], b[1..])))
  }

  /** That order without recursion: at the first place they differ a has the smaller character, or has ended. */
  ghost predicate SmallerAt(a: string, b: string, k: nat) {
    k <= |a| && k < |b| && a[..k] == b[..k] && (k < |a| ==> a[k] < b[k])
  }

  lemma {:induction false} LexLessExactly(a: string, b: string)
    ensures LexLess(a, b) <==> exists k: nat :: SmallerAt(a, b, k)
  {
    if a == "" {
      assert b != "" ==> SmallerAt(a, b, 0);
    } else if b != "" {
      LexLessExactly(a[1..], b[1..]);
      assert a == [a[0]] + a[1..] && b == [b[0]] + b[1..];
      if a[0] < b[0] { assert SmallerAt(a, b, 0); }
      if k: nat :| SmallerAt(a[1..], b[1..], k) && a[0] == b[0] {
        assert a[..k + 1] == [a[0]] + a[1..][..k] && b[..k + 1] == [b[0]] + b[1..][..k];
        assert SmallerAt(a, b, k + 1);
      }
      if k: nat :| SmallerAt(a, b, k) && k > 0 {
        assert a[..k][0] == b[..k][0];
        assert a[1..][..k - 1] == a[..k][1..] && b[1..][..k - 1] == b[..k][1..];
        assert SmallerAt(a[1..], b[1..], k - 1);
      }
    }
  }

  predicate BetterThan(a: Holder, b: Holder) {
    if a.shares != b.shares then a.shares > b.shares else LexLess(a.account, b.account)
  }

  lemma {:induction false} LexAsymmetric(a: string, b: string)
    ensures !(LexLess(a, b) && LexLess(b, a))
  {
    if a != "" && b != "" { LexAsymmetric(a[1..], b[1..]); }
  }

  lemma {:induction false} LexTotal(a: string, b: string)
    ensures a == b || LexLess(a, b) || LexLess(b, a)
  {
    if a != "" && b != "" {
      LexTotal(a[1..], b[1..]);
      assert a == [a[0]] + a[1..] && b == [b[0]] + b[1..];
    }
  }

  lemma {:induction false} LexTransitive(a: string, b: string, c: string)
    requires LexLess(a, b) && LexLess(b, c)
    ensures LexLess(a, c)
  {
    if a != "" && b != "" && a[0] == b[0] == c[0] { LexTransitive(a[1..], b[1..], c[1..]); }
  }

  /** Every node ranks the same holders the same way: more shares first, ties by account name. */
  lemma BetterThanIsStrictOrder()
    ensures StrictOrder(BetterThan)
  {
    forall a: Holder, b: Holder
      ensures !(BetterThan(a, b) && BetterThan(b, a)) && (a == b || BetterThan(a, b) || BetterThan(b, a))
    {
      LexAsymmetric(a.account, b.account);
      LexTotal(a.account, b.account);
    }
    forall a, b, c | BetterThan(a, b) && BetterThan(b, c) ensures BetterThan(a, c) {
      if a.shares == b.shares == c.shares { LexTransitive(a.account, b.account, c.account); }
    }
  }

  lemma BetterHoldsMore()
    ensures forall a: Holder, b: Holder :: BetterThan(a, b) ==> a.shares >= b.shares
    ensures forall a: Holder, b: Holder :: a.shares > b.shares ==> BetterThan(a, b)
  {
  }

  // ----- the top ten -----

  function Positive(holders: seq<Holder>): (r: seq<Holder>)
    ensures forall h :: h in r <==> h in holders && h.shares > 0
    ensures |r| <= |holders|
  {
    if holders == [] then []
    else
      var last := holders[|holders| - 1];
      Positive(holders[..|holders| - 1]) + (if last.shares > 0 then [last] else [])
  }

  function Top(s: seq<Holder>): seq<Holder> { if |s| <= CONSENSUS_SIZE then s else s[..CONSENSUS_SIZE] }

  /** The reference ranking: all positive holders sorted, the first ten kept. */
  function TopTen(holders: seq<Holder>): seq<Holder> {
    Top(Sort(BetterThan, Positive(holders)))
  }

  /** What one more holder does to the ten best so far; no weaker holder is ever needed again. */
  ghost predicate Displaces(w: seq<Holder>, h: Holder, w': seq<Holder>) {
    if h.shares <= 0 then w' == w
    else if |w| < CONSENSUS_SIZE then w' == Insert(BetterThan, w, h)
    else |w| == CONSENSUS_SIZE
         && w' == if BetterThan(h, w[CONSENSUS_SIZE - 1]) then Insert(BetterThan, w[..CONSENSUS_SIZE - 1], h) else w
  }

  lemma WindowSuffices(s: seq<Holder>, h: Holder)
    requires StrictOrder(BetterThan) && Sorted(BetterThan, s) && h.shares > 0
    ensures Displaces(Top(s), h, Top(Insert(BetterThan, s, h)))
  {
    hide StrictOrder, BetterThan, Position, Sorted;
    if |s| >= CONSENSUS_SIZE {
      InsertWindow(BetterThan, s, h, CONSENSUS_SIZE);
      assert Top(s)[..CONSENSUS_SIZE - 1] == s[..CONSENSUS_SIZE - 1];
    }
  }

  lemma TopTenStep(holders: seq<Holder>, k: nat)
    requires k < |holders|
    ensures Displaces(TopTen(holders[..k]), holders[k], TopTen(holders[..k + 1]))
  {
    hide StrictOrder, BetterThan, Sort, Insert, Sorted, Displaces;
    BetterThanIsStrictOrder();
    SortSorts(BetterThan, Positive(holders[..k]));
    PositiveStep(holders, k);
    if holders[k].shares > 0 {
      WindowSuffices(Sort(BetterThan, Positive(holders[..k])), holders[k]);
    } else {
      StaysOut(TopTen(holders[..k]), holders[k]);
    }
  }

  lemma StaysOut(w: seq<Holder>, h: Holder)
    requires h.shares <= 0
    ensures Displaces(w, h, w)
  {
  }

  method ConsensusGroup(holders: seq<Holder>) returns (members: seq<Holder>)
    ensures members == TopTen(holders)
  {
    hide BetterThan, Position, Insert, TopTen;
    NoHolders();
    var top := new Holder[CONSENSUS_SIZE](_ => Holder("", 0));
    var n := 0;
    for k := 0 to |holders|
      invariant 0 <= n <= CONSENSUS_SIZE && top[..n] == TopTen(holders[..k])
    {
      var h := holders[k];
      TopTenStep(holders, k);
      if h.shares <= 0 {
        continue;
      }
      if n == CONSENSUS_SIZE && !BetterThan(h, top[n - 1]) {
        continue;
      }
      var i := n;
      if i == CONSENSUS_SIZE {
        i := CONSENSUS_SIZE - 1; // overwrite the weakest
        assert top[..i] == top[..n][..i];
      } else {
        n := n + 1;
      }
      ShiftIn(BetterThan, top, i, h);
    }
    assert holders[..|holders|] == holders;
    members := top[..n];
  }

  lemma NoHolders()
    ensures TopTen([]) == []
  {
  }

  lemma PositiveStep(holders: seq<Holder>, k: nat)
    requires k < |holders|
    ensures var before, h := Sort(BetterThan, Positive(holders[..k])), holders[k];
            Sort(BetterThan, Positive(holders[..k + 1]))
            == if h.shares > 0 then Insert(BetterThan, before, h) else before
  {
    assert holders[..k + 1][..k] == holders[..k];
    var front := Positive(holders[..k]);
    if holders[k].shares > 0 {
      var whole := Positive(holders[..k + 1]);
      assert whole == front + [holders[k]];
      assert whole[..|whole| - 1] == front;
    } else {
      assert Positive(holders[..k + 1]) == front;
    }
  }

  lemma PositiveOfOneMore(front: seq<Holder>, last: Holder)
    ensures Positive(front + [last]) == if last.shares > 0 then Positive(front) + [last] else Positive(front)
  {
    assert (front + [last])[..|front|] == front;
  }

  lemma CountOneMore(hs: seq<Holder>, last: Holder, h: Holder)
    ensures multiset(hs + [last])[h] == multiset(hs)[h] + if last == h then 1 else 0
  {
  }

  ghost predicate KeepsPositiveOnes(holders: seq<Holder>, h: Holder) {
    multiset(Positive(holders))[h] == if h.shares > 0 then multiset(holders)[h] else 0
  }

  lemma KeepsOneMore(front: seq<Holder>, last: Holder, h: Holder)
    requires KeepsPositiveOnes(front, h)
    ensures KeepsPositiveOnes(front + [last], h)
  {
    PositiveOfOneMore(front, last);
    hide Positive;
    CountOneMore(front, last, h);
    CountOneMore(Positive(front), last, h);
  }

  lemma {:induction false} PositiveMultiset(holders: seq<Holder>, h: Holder)
    ensures KeepsPositiveOnes(holders, h)
  {
    if holders != [] {
      var front, last := holders[..|holders| - 1], holders[|holders| - 1];
      PositiveMultiset(front, h);
      hide KeepsPositiveOnes;
      KeepsOneMore(front, last, h);
      assert holders == front + [last];
    }
  }

  /** The group does not depend on the order the holders are listed in. */
  lemma TopTenIgnoresOrder(holders: seq<Holder>, others: seq<Holder>)
    requires multiset(holders) == multiset(others)
    ensures TopTen(holders) == TopTen(others)
  {
    BetterThanIsStrictOrder();
    forall h ensures multiset(Positive(holders))[h] == multiset(Positive(others))[h] {
      PositiveMultiset(holders, h);
      PositiveMultiset(others, h);
    }
    SortIgnoresOrder(BetterThan, Positive(holders), Positive(others));
  }

  /**
   * A seat is held exactly by merit: nobody outside the group outranks anybody in it, and seats
   * stay empty only for want of holders.
   */
  lemma SeatsGoToTheBest(holders: seq<Holder>)
    ensures var group := TopTen(holders);
            && Sorted(BetterThan, group)
            && (forall h | h in group :: h in holders && h.shares > 0)
            && (forall h, m | h in holders && h.shares > 0 && h !in group && m in group ::
                  BetterThan(m, h) && m.shares >= h.shares)
            && ((exists h :: h in holders && h.shares > 0 && h !in group) ==> |group| == 10)
            && |group| <= 10
  {
    BetterHoldsMore();
    hide BetterThan, StrictOrder, Sort;
    BetterThanIsStrictOrder();
    var all := Positive(holders);
    var ranked, group := Sort(BetterThan, all), TopTen(holders);
    SortSorts(BetterThan, all);
    forall h ensures h in ranked <==> h in all {
      assert h in multiset(ranked) <==> h in multiset(all);
    }
    forall h, m | h in ranked && h !in group && m in group ensures BetterThan(m, h) {
      var i :| 0 <= i < |ranked| && ranked[i] == h;
      var j :| 0 <= j < |group| && group[j] == m;
      assert forall k | 0 <= k < |group| :: ranked[k] in group;
      assert ranked[j] == m && j < i && h != m;
      Decides(BetterThan, m, h);
    }
  }

  // ----- the median -----

  datatype Param = Param(value: int, min: int, max: int) {
    predicate InBounds(v: int) { min <= v <= max }
  }

  function Clamp(v: int, lo: int, hi: int): int {
    if v < lo then lo else if v > hi then hi else v
  }

  predicate Less(a: int, b: int) { a < b }

  /** The clamped preferences counted: those of members that have one, ten at most, in member order. */
  function Ballots(p: Param, members: seq<Holder>, prefs: map<string, int>): (b: seq<int>)
    ensures |b| <= CONSENSUS_SIZE && |b| <= |members|
    ensures p.min <= p.max ==> forall v | v in b :: p.InBounds(v)
  {
    if members == [] then []
    else
      var b, m := Ballots(p, members[..|members| - 1], prefs), members[|members| - 1];
      if m.account !in prefs || |b| == CONSENSUS_SIZE then b else b + [Clamp(prefs[m.account], p.min, p.max)]
  }

  function LowerMedian(votes: seq<int>): int
    requires votes != []
  {
    Sort(Less, votes)[(|votes| - 1) / 2]
  }

  function ValueInForce(p: Param, members: seq<Holder>, prefs: map<string, int>): int {
    var b := Ballots(p, members, prefs);
    if b == [] then p.value else LowerMedian(b)
  }

  /** The sorted ballots, as the window holds them. */
  function SortedBallots(p: Param, members: seq<Holder>, prefs: map<string, int>): seq<int> {
    Sort(Less, Ballots(p, members, prefs))
  }

  lemma BallotStep(p: Param, members: seq<Holder>, prefs: map<string, int>, k: nat)
    requires k < |members|
    ensures var w, m := SortedBallots(p, members[..k], prefs), members[k];
            SortedBallots(p, members[..k + 1], prefs)
            == if m.account !in prefs || |w| == CONSENSUS_SIZE then w
               else Insert(Less, w, Clamp(prefs[m.account], p.min, p.max))
  {
    hide Sort, Insert;
    assert members[..k + 1][..k] == members[..k];
    var m := members[k];
    if m.account in prefs {
      SortStep(Less, Ballots(p, members[..k], prefs), Clamp(prefs[m.account], p.min, p.max));
    }
  }

  method EffectiveValue(p: Param, members: seq<Holder>, prefs: map<string, int>) returns (value: int)
    ensures value == ValueInForce(p, members, prefs)
  {
    hide Sort, Insert, Position, Ballots;
    if |members| == 0 || |prefs| == 0 {
      NoPreferences(p, members, prefs);
      return p.value;
    }
    NoPreferences(p, [], prefs);
    SortStarts(Less);
    var votes := new int[CONSENSUS_SIZE](_ => 0);
    var n := 0;
    assert members[..0] == [];
    for k := 0 to |members|
      invariant 0 <= n <= CONSENSUS_SIZE && votes[..n] == SortedBallots(p, members[..k], prefs)
    {
      var m := members[k];
      BallotStep(p, members, prefs, k);
      if m.account !in prefs || n == CONSENSUS_SIZE {
        continue;
      }
      ShiftIn(Less, votes, n, Clamp(prefs[m.account], p.min, p.max));
      n := n + 1;
    }
    assert members[..|members|] == members;
    if n == 0 {
      return p.value;
    }
    return votes[..n][(n - 1) / 2];
  }

  lemma {:induction false} NoPreferences(p: Param, members: seq<Holder>, prefs: map<string, int>)
    requires members == [] || |prefs| == 0
    ensures Ballots(p, members, prefs) == []
  {
    if members != [] { NoPreferences(p, members[..|members| - 1], prefs); }
  }

  function CountBelow(votes: seq<int>, m: int): nat {
    if votes == [] then 0
    else CountBelow(votes[..|votes| - 1], m) + (if votes[|votes| - 1] < m then 1 else 0)
  }

  function CountInside(votes: seq<int>, lo: int, hi: int): nat {
    if votes == [] then 0
    else CountInside(votes[..|votes| - 1], lo, hi) + (if lo <= votes[|votes| - 1] <= hi then 1 else 0)
  }

  lemma {:induction false} CountBelowByMultiset(s: seq<int>, t: seq<int>, m: int)
    requires multiset(s) == multiset(t)
    ensures CountBelow(s, m) == CountBelow(t, m)
  {
    assert |multiset(s)| == |multiset(t)|;
    if s != [] {
      var i := MatchLast(s, t);
      var last := t[i];
      CountBelowByMultiset(s[..|s| - 1], t[..i] + t[i + 1..], m);
      CountBelowJoins(t[..i], t[i + 1..], m);
      CountBelowJoins(t[..i] + [last], t[i + 1..], m);
      assert (t[..i] + [last])[..i] == t[..i];
    }
  }

  lemma {:induction false} CountBelowJoins(a: seq<int>, b: seq<int>, m: int)
    ensures CountBelow(a + b, m) == CountBelow(a, m) + CountBelow(b, m)
  {
    if b == [] {
      assert a + b == a;
    } else {
      CountBelowJoins(a, b[..|b| - 1], m);
      assert (a + b)[..|a + b| - 1] == a + b[..|b| - 1];
    }
  }

  lemma LessIsStrictOrder()
    ensures StrictOrder(Less)
  {
  }

  lemma CountBelowInSorted(s: seq<int>, i: nat)
    requires i < |s| && forall j, k | 0 <= j < k < |s| :: s[j] <= s[k]
    ensures CountBelow(s, s[i]) <= i < CountBelow(s, s[i] + 1)
  {
    hide CountBelow;
    assert s == s[..i] + s[i..];
    CountBelowJoins(s[..i], s[i..], s[i]);
    NoneBelow(s[i..], s[i]);
    CountAtMost(s[..i], s[i]);
    CountUpTo(s, i);
  }

  lemma CountUpTo(s: seq<int>, i: nat)
    requires i < |s| && forall j, k | 0 <= j < k < |s| :: s[j] <= s[k]
    ensures i < CountBelow(s, s[i] + 1)
  {
    hide CountBelow;
    assert s == s[..i + 1] + s[i + 1..];
    CountBelowJoins(s[..i + 1], s[i + 1..], s[i] + 1);
    AllBelow(s[..i + 1], s[i] + 1);
  }

  lemma {:induction false} NoneBelow(s: seq<int>, m: int)
    requires forall j | 0 <= j < |s| :: s[j] >= m
    ensures CountBelow(s, m) == 0
  {
    if s != [] { NoneBelow(s[..|s| - 1], m); }
  }

  lemma {:induction false} AllBelow(s: seq<int>, m: int)
    requires forall j | 0 <= j < |s| :: s[j] < m
    ensures CountBelow(s, m) == |s|
  {
    if s != [] { AllBelow(s[..|s| - 1], m); }
  }

  lemma {:induction false} CountAtMost(s: seq<int>, m: int)
    ensures CountBelow(s, m) <= |s|
  {
    if s != [] { CountAtMost(s[..|s| - 1], m); }
  }

  /** The lower median by counting: at most (n-1)/2 votes below it, and more than (n-1)/2 at or below it. */
  lemma LowerMedianByCount(votes: seq<int>)
    requires votes != []
    ensures var m, half := LowerMedian(votes), (|votes| - 1) / 2;
            m in votes && CountBelow(votes, m) <= half < CountBelow(votes, m + 1)
  {
    hide StrictOrder, Sort, CountBelow;
    LessIsStrictOrder();
    SortSorts(Less, votes);
    var s, m := Sort(Less, votes), LowerMedian(votes);
    assert m in multiset(s) && m in multiset(votes);
    CountBelowInSorted(s, (|votes| - 1) / 2);
    CountBelowByMultiset(s, votes, m);
    CountBelowByMultiset(s, votes, m + 1);
  }

  lemma {:induction false} InsideAndOutside(votes: seq<int>, lo: int, hi: int, m: int)
    ensures m < lo ==> CountInside(votes, lo, hi) <= |votes| - CountBelow(votes, m + 1)
    ensures m > hi ==> CountInside(votes, lo, hi) <= CountBelow(votes, m)
  {
    if votes != [] { InsideAndOutside(votes[..|votes| - 1], lo, hi, m); }
  }

  /** A strict majority inside an interval keeps the median inside it, whatever the other votes are. */
  lemma MajorityHoldsTheMedian(votes: seq<int>, lo: int, hi: int)
    requires 2 * CountInside(votes, lo, hi) > |votes|
    ensures votes != [] && lo <= LowerMedian(votes) <= hi
  {
    LowerMedianByCount(votes);
    InsideAndOutside(votes, lo, hi, LowerMedian(votes));
  }

  /** The value in force never leaves the bounds when the registered default is inside them. */
  lemma ValueStaysInBounds(p: Param, members: seq<Holder>, prefs: map<string, int>)
    requires p.InBounds(p.value)
    ensures p.InBounds(ValueInForce(p, members, prefs))
  {
    var b := Ballots(p, members, prefs);
    if b != [] { LowerMedianByCount(b); }
  }

  // ----- over the preferences themselves -----

  /** How many of the members have a preference. */
  function Voters(members: seq<Holder>, prefs: map<string, int>): nat {
    if members == [] then 0
    else Voters(members[..|members| - 1], prefs) + if members[|members| - 1].account in prefs then 1 else 0
  }

  /** How many of them prefer at most x. */
  function AtMost(members: seq<Holder>, prefs: map<string, int>, x: int): nat {
    if members == [] then 0
    else
      var a := members[|members| - 1].account;
      AtMost(members[..|members| - 1], prefs, x) + if a in prefs && prefs[a] <= x then 1 else 0
  }

  /** How many of them prefer something from lo to hi. */
  function Preferring(members: seq<Holder>, prefs: map<string, int>, lo: int, hi: int): nat {
    if members == [] then 0
    else
      var a := members[|members| - 1].account;
      Preferring(members[..|members| - 1], prefs, lo, hi) + if a in prefs && lo <= prefs[a] <= hi then 1 else 0
  }

  lemma {:induction false} BallotsCountPreferences(
    p: Param, members: seq<Holder>, prefs: map<string, int>, x: int)
    requires |members| <= CONSENSUS_SIZE && p.min <= x < p.max
    ensures |Ballots(p, members, prefs)| == Voters(members, prefs) <= |members|
    ensures CountBelow(Ballots(p, members, prefs), x + 1) == AtMost(members, prefs, x)
  {
    if members != [] {
      var front, a := members[..|members| - 1], members[|members| - 1].account;
      BallotsCountPreferences(p, front, prefs, x);
      if a in prefs {
        var b, v := Ballots(p, front, prefs), Clamp(prefs[a], p.min, p.max);
        assert (b + [v])[..|b|] == b;
      }
    }
  }

  lemma {:induction false} VotersHaveBallots(p: Param, members: seq<Holder>, prefs: map<string, int>)
    requires |members| <= CONSENSUS_SIZE
    ensures |Ballots(p, members, prefs)| == Voters(members, prefs) <= |members|
  {
    if members != [] { VotersHaveBallots(p, members[..|members| - 1], prefs); }
  }

  lemma {:induction false} CountBelowRises(votes: seq<int>, m: int, n: int)
    requires m <= n
    ensures CountBelow(votes, m) <= CountBelow(votes, n)
  {
    if votes != [] { CountBelowRises(votes[..|votes| - 1], m, n); }
  }

  /** The median is at most x exactly when half the votes are. */
  lemma MedianAtMostExactly(votes: seq<int>, x: int)
    requires votes != []
    ensures LowerMedian(votes) <= x <==> 2 * CountBelow(votes, x + 1) >= |votes|
  {
    hide LowerMedian, CountBelow;
    LowerMedianByCount(votes);
    var m := LowerMedian(votes);
    if m <= x { CountBelowRises(votes, m + 1, x + 1); } else { CountBelowRises(votes, x + 1, m); }
  }

  /**
   * The value in force, by what the members themselves prefer: the default where nobody has
   * a preference, and otherwise at most x, for every x the bounds leave open, exactly when
   * at least half of those who have one prefer at most x.
   */
  lemma ValueByPreferences(p: Param, members: seq<Holder>, prefs: map<string, int>)
    requires |members| <= CONSENSUS_SIZE && p.min <= p.max
    ensures Voters(members, prefs) == 0 ==> ValueInForce(p, members, prefs) == p.value
    ensures Voters(members, prefs) > 0 ==>
              && p.InBounds(ValueInForce(p, members, prefs))
              && forall x | p.min <= x < p.max ::
                   ValueInForce(p, members, prefs) <= x <==> 2 * AtMost(members, prefs, x) >= Voters(members, prefs)
  {
    hide LowerMedian, CountBelow, AtMost, Voters;
    var b := Ballots(p, members, prefs);
    VotersHaveBallots(p, members, prefs);
    if b != [] {
      LowerMedianByCount(b);
      forall x | p.min <= x < p.max
        ensures ValueInForce(p, members, prefs) <= x <==> 2 * AtMost(members, prefs, x) >= Voters(members, prefs)
      {
        BallotsCountPreferences(p, members, prefs, x);
        MedianAtMostExactly(b, x);
      }
    }
  }

  lemma {:induction false} PreferringSplits(members: seq<Holder>, prefs: map<string, int>, lo: int, hi: int)
    ensures Preferring(members, prefs, lo, hi) <= AtMost(members, prefs, hi) <= Voters(members, prefs)
    ensures Preferring(members, prefs, lo, hi) + AtMost(members, prefs, lo - 1) <= Voters(members, prefs)
  {
    if members != [] { PreferringSplits(members[..|members| - 1], prefs, lo, hi); }
  }

  /**
   * A strict majority that prefers something between lo and hi gets something between them;
   * one that prefers the maximum or more gets the maximum, one at the minimum or less the minimum.
   */
  lemma MajorityGetsItsWay(p: Param, members: seq<Holder>, prefs: map<string, int>, lo: int, hi: int)
    requires |members| <= CONSENSUS_SIZE && p.min <= p.max && lo <= hi
    requires 2 * Preferring(members, prefs, lo, hi) > Voters(members, prefs)
    ensures p.min <= lo && hi <= p.max ==> lo <= ValueInForce(p, members, prefs) <= hi
    ensures lo >= p.max ==> ValueInForce(p, members, prefs) == p.max
    ensures hi <= p.min ==> ValueInForce(p, members, prefs) == p.min
  {
    hide ValueInForce, Voters, AtMost, Preferring;
    ValueByPreferences(p, members, prefs);
    PreferringSplits(members, prefs, lo, hi);
    if lo >= p.max { AtMostRises(members, prefs, p.max - 1, lo - 1); }
    if hi <= p.min { AtMostRises(members, prefs, hi, p.min); }
  }

  lemma {:induction false} AtMostRises(members: seq<Holder>, prefs: map<string, int>, x: int, y: int)
    requires x <= y
    ensures AtMost(members, prefs, x) <= AtMost(members, prefs, y)
  {
    if members != [] { AtMostRises(members[..|members| - 1], prefs, x, y); }
  }

  lemma {:induction false} BallotsJoin(p: Param, a: seq<Holder>, b: seq<Holder>, prefs: map<string, int>)
    requires |a| + |b| <= CONSENSUS_SIZE
    ensures Ballots(p, a + b, prefs) == Ballots(p, a, prefs) + Ballots(p, b, prefs)
  {
    if b == [] {
      assert a + b == a;
    } else {
      BallotsJoin(p, a, b[..|b| - 1], prefs);
      assert (a + b)[..|a + b| - 1] == a + b[..|b| - 1];
    }
  }

  lemma {:induction false} BallotsByMultiset(p: Param, s: seq<Holder>, t: seq<Holder>, prefs: map<string, int>)
    requires multiset(s) == multiset(t) && |s| <= CONSENSUS_SIZE
    ensures multiset(Ballots(p, s, prefs)) == multiset(Ballots(p, t, prefs))
  {
    hide Ballots;
    assert |multiset(s)| == |multiset(t)|;
    if s != [] {
      var i := MatchLast(s, t);
      var front, last := s[..|s| - 1], t[i];
      assert s == front + [last];
      BallotsByMultiset(p, front, t[..i] + t[i + 1..], prefs);
      BallotsJoin(p, front, [last], prefs);
      BallotsJoin(p, t[..i], t[i + 1..], prefs);
      BallotsJoin(p, t[..i] + [last], t[i + 1..], prefs);
      BallotsJoin(p, t[..i], [last], prefs);
    }
  }

  /** Listing the members of a group in another order never changes the value in force. */
  lemma ValueIgnoresMemberOrder(p: Param, members: seq<Holder>, others: seq<Holder>, prefs: map<string, int>)
    requires multiset(members) == multiset(others) && |members| <= CONSENSUS_SIZE
    ensures ValueInForce(p, members, prefs) == ValueInForce(p, others, prefs)
  {
    var b, c := Ballots(p, members, prefs), Ballots(p, others, prefs);
    BallotsByMultiset(p, members, others, prefs);
    assert |multiset(b)| == |multiset(c)|;
    LessIsStrictOrder();
    SortIgnoresOrder(Less, b, c);
  }

  /** The selected group never has more members than the cap counts, so its order never matters. */
  lemma GroupOrderNeverMatters(
    p: Param, holders: seq<Holder>, members: seq<Holder>, prefs: map<string, int>)
    requires multiset(members) == multiset(TopTen(holders))
    ensures ValueInForce(p, members, prefs) == ValueInForce(p, TopTen(holders), prefs)
  {
    GroupFitsTheCap(holders);
    hide TopTen, Ballots, LowerMedian;
    assert |members| == |multiset(members)|;
    ValueIgnoresMemberOrder(p, members, TopTen(holders), prefs);
  }

  lemma GroupFitsTheCap(holders: seq<Holder>)
    ensures |TopTen(holders)| == if |Positive(holders)| < CONSENSUS_SIZE then |Positive(holders)| else CONSENSUS_SIZE
  {
  }

  /** For member lists of length n, reordering one never changes the value in force. */
  ghost predicate OrderNeverMatters(n: nat) {
    forall p: Param, members: seq<Holder>, others: seq<Holder>, prefs: map<string, int> |
      |members| == n && multiset(members) == multiset(others) ::
        ValueInForce(p, members, prefs) == ValueInForce(p, others, prefs)
  }

  /** The cap of ten votes makes the order irrelevant exactly for lists of at most ten members. */
  lemma OrderNeverMattersExactly(n: nat)
    ensures OrderNeverMatters(n) <==> n <= CONSENSUS_SIZE
  {
    hide ValueInForce;
    if n <= CONSENSUS_SIZE {
      forall p: Param, members: seq<Holder>, others: seq<Holder>, prefs: map<string, int> |
        |members| == n && multiset(members) == multiset(others)
        ensures ValueInForce(p, members, prefs) == ValueInForce(p, others, prefs)
      {
        ValueIgnoresMemberOrder(p, members, others, prefs);
      }
    } else {
      var p, prefs := Param(0, 0, 1), map["a" := 0, "b" := 1];
      var a, b := seq(5, _ => Holder("a", 1)), seq(n - 5, _ => Holder("b", 1));
      CrowdedOut(n);
      assert |a + b| == n && multiset(a + b) == multiset(b + a);
    }
  }

  /**
   * Five zeros before the ones win the median; behind six ones or more they lose it, and the
   * eleventh vote is not counted.
   */
  lemma CrowdedOut(n: nat)
    requires n > CONSENSUS_SIZE
    ensures var p, prefs := Param(0, 0, 1), map["a" := 0, "b" := 1];
            var a, b := seq(5, _ => Holder("a", 1)), seq(n - 5, _ => Holder("b", 1));
            ValueInForce(p, a + b, prefs) == 0 && ValueInForce(p, b + a, prefs) == 1
  {
    hide LowerMedian, Ballots, CountBelow;
    var p, prefs := Param(0, 0, 1), map["a" := 0, "b" := 1];
    var a, b := seq(5, _ => Holder("a", 1)), seq(n - 5, _ => Holder("b", 1));
    EverybodyVotes(p, a + b, prefs);
    EverybodyVotes(p, b + a, prefs);
    var early, late := Ballots(p, a + b, prefs), Ballots(p, b + a, prefs);
    assert forall i | 0 <= i < 10 :: early[i] == if i < 5 then 0 else 1;
    assert forall i | 0 <= i < 10 :: late[i] == if i < n - 5 then 1 else 0;
    CountAcross(early, 5, 1);
    CountAcross(late, 6, 1);
    LowerMedianByCount(early);
    LowerMedianByCount(late);
  }

  lemma CountAcross(votes: seq<int>, k: nat, m: int)
    requires k <= |votes|
    ensures (forall i | 0 <= i < k :: votes[i] < m) ==> CountBelow(votes, m) >= k
    ensures (forall i | 0 <= i < k :: votes[i] >= m) ==> CountBelow(votes, m) <= |votes| - k
  {
    hide CountBelow;
    assert votes == votes[..k] + votes[k..];
    CountBelowJoins(votes[..k], votes[k..], m);
    if forall i | 0 <= i < k :: votes[i] < m { AllBelow(votes[..k], m); }
    if forall i | 0 <= i < k :: votes[i] >= m { NoneBelow(votes[..k], m); }
    CountIsBounded(votes[k..], m);
  }

  lemma {:induction false} CountIsBounded(votes: seq<int>, m: int)
    ensures CountBelow(votes, m) <= |votes|
  {
    if votes != [] { CountIsBounded(votes[..|votes| - 1], m); }
  }

  /** Where every member votes, the ballots are the first ten clamped preferences. */
  lemma {:induction false} EverybodyVotes(p: Param, members: seq<Holder>, prefs: map<string, int>)
    requires forall m | m in members :: m.account in prefs
    ensures var b := Ballots(p, members, prefs);
            && |b| == (if |members| < CONSENSUS_SIZE then |members| else CONSENSUS_SIZE)
            && forall i | 0 <= i < |b| :: b[i] == Clamp(prefs[members[i].account], p.min, p.max)
  {
    if members != [] { EverybodyVotes(p, members[..|members| - 1], prefs); }
  }
}
