/** Insertion into a sorted window, the one ordering step both governance selections use. */
module Insertion {

  /** The order is a strict total one. */
  ghost predicate StrictOrder<T(!new)>(less: (T, T) -> bool) {
    && (forall a, b :: !(less(a, b) && less(b, a)))
    && (forall a, b, c :: less(a, b) && less(b, c) ==> less(a, c))
    && (forall a, b :: a == b || less(a, b) || less(b, a))
  }

  ghost predicate Sorted<T(!new)>(less: (T, T) -> bool, s: seq<T>) {
    forall i, j | 0 <= i < j < |s| :: !less(s[j], s[i])
  }

  /** Where x lands when weaker entries are shifted right from the end. */
  function Position<T>(less: (T, T) -> bool, s: seq<T>, x: T): (p: nat)
    ensures p <= |s|
    ensures p > 0 ==> !less(x, s[p - 1])
    ensures forall j | p <= j < |s| :: less(x, s[j])
  {
    if s == [] || !less(x, s[|s| - 1]) then |s| else Position(less, s[..|s| - 1], x)
  }

  function Insert<T>(less: (T, T) -> bool, s: seq<T>, x: T): seq<T> {
    var p := Position(less, s, x);
    s[..p] + [x] + s[p..]
  }

  function Sort<T>(less: (T, T) -> bool, xs: seq<T>): (s: seq<T>)
    ensures |s| == |xs|
  {
    if xs == [] then [] else Insert(less, Sort(less, xs[..|xs| - 1]), xs[|xs| - 1])
  }

  lemma SortStarts<T>(less: (T, T) -> bool)
    ensures Sort(less, []) == []
  {
  }

  lemma SortStep<T>(less: (T, T) -> bool, xs: seq<T>, x: T)
    ensures Sort(less, xs + [x]) == Insert(less, Sort(less, xs), x)
  {
    assert (xs + [x])[..|xs|] == xs;
  }

  /** Shifts the weaker entries of window[..n] right by one and puts x in the gap. */
  method ShiftIn<T>(less: (T, T) -> bool, window: array<T>, n: nat, x: T)
    requires n < window.Length
    modifies window
    ensures window[..n + 1] == Insert(less, old(window[..n]), x)
    ensures window[n + 1..] == old(window[n + 1..])
  {
    ghost var before := window[..n];
    var i := n;
    while i > 0 && less(x, window[i - 1])
      invariant i <= n
      invariant window[..i] == before[..i]
      invariant window[i + 1..n + 1] == before[i..]
      invariant window[n + 1..] == old(window[n + 1..])
      invariant forall j | i <= j < n :: less(x, before[j])
    {
      window[i] := window[i - 1];
      i := i - 1;
      assert window[i + 1..n + 1] == [before[i]] + before[i + 1..];
    }
    window[i] := x;
    PositionUnique(less, before, x, i);
    assert window[..n + 1] == window[..i] + [x] + window[i + 1..n + 1];
  }

  lemma {:induction false} PositionUnique<T>(less: (T, T) -> bool, s: seq<T>, x: T, i: nat)
    requires i <= |s| && (i > 0 ==> !less(x, s[i - 1])) && forall j | i <= j < |s| :: less(x, s[j])
    ensures Position(less, s, x) == i
  {
    var p := Position(less, s, x);
    assert !(p < i) by {
      assert p < i ==> p <= i - 1 < |s|;
    }
    assert !(p > i) by {
      assert p > i ==> i <= p - 1 < |s|;
    }
  }

  lemma NotLessComposes<T(!new)>(less: (T, T) -> bool, a: T, b: T, c: T)
    requires StrictOrder(less) && !less(c, b) && !less(b, a)
    ensures !less(c, a)
  {
  }

  lemma Decides<T(!new)>(less: (T, T) -> bool, a: T, b: T)
    requires StrictOrder(less)
    ensures less(a, b) ==> !less(b, a)
    ensures !less(a, b) && !less(b, a) ==> a == b
  {
  }

  lemma InsertKeepsSorted<T(!new)>(less: (T, T) -> bool, s: seq<T>, x: T)
    requires StrictOrder(less) && Sorted(less, s)
    ensures Sorted(less, Insert(less, s, x))
  {
    hide StrictOrder, Position;
    var p := Position(less, s, x);
    forall j | 0 <= j < p ensures !less(x, s[j]) {
      if j < p - 1 { NotLessComposes(less, s[j], s[p - 1], x); }
    }
    forall j | p <= j < |s| ensures !less(s[j], x) {
      Decides(less, x, s[j]);
    }
  }

  lemma InsertPermutes<T>(less: (T, T) -> bool, s: seq<T>, x: T)
    ensures multiset(Insert(less, s, x)) == multiset(s) + multiset{x}
  {
    hide Position;
    var p := Position(less, s, x);
    assert s == s[..p] + s[p..];
  }

  lemma NothingToSort<T(!new)>(less: (T, T) -> bool)
    ensures Sorted(less, [])
  {
  }

  lemma {:induction false} SortSorts<T(!new)>(less: (T, T) -> bool, xs: seq<T>)
    requires StrictOrder(less)
    ensures Sorted(less, Sort(less, xs)) && multiset(Sort(less, xs)) == multiset(xs)
  {
    hide StrictOrder, Insert, Sorted;
    if xs == [] {
      NothingToSort(less);
    } else {
      var front := xs[..|xs| - 1];
      assert xs == front + [xs[|xs| - 1]];
      SortSorts(less, front);
      InsertKeepsSorted(less, Sort(less, front), xs[|xs| - 1]);
      InsertPermutes(less, Sort(less, front), xs[|xs| - 1]);
    }
  }

  lemma CancelOne<T>(a: multiset<T>, b: multiset<T>, x: T)
    requires a + multiset{x} == b + multiset{x}
    ensures a == b
  {
    forall y ensures a[y] == b[y] {
      assert (a + multiset{x})[y] == (b + multiset{x})[y];
    }
  }

  /** Equal bags: the last element of one occurs in the other, and what is left is equal again. */
  lemma MatchLast<T>(s: seq<T>, t: seq<T>) returns (i: nat)
    requires s != [] && multiset(s) == multiset(t)
    ensures i < |t| && t[i] == s[|s| - 1] && t == t[..i] + [t[i]] + t[i + 1..]
    ensures multiset(s[..|s| - 1]) == multiset(t[..i] + t[i + 1..])
  {
    var last := s[|s| - 1];
    assert s == s[..|s| - 1] + [last];
    assert last in multiset(t);
    i :| 0 <= i < |t| && t[i] == last;
    assert t == t[..i] + [t[i]] + t[i + 1..];
    assert multiset(t) == multiset(t[..i]) + multiset{last} + multiset(t[i + 1..]);
    assert multiset(s) == multiset(s[..|s| - 1]) + multiset{last};
    assert multiset(t[..i] + t[i + 1..]) == multiset(t[..i]) + multiset(t[i + 1..]);
    CancelOne(multiset(s[..|s| - 1]), multiset(t[..i] + t[i + 1..]), last);
  }

  lemma FrontsMatch<T>(s: seq<T>, t: seq<T>)
    requires s != [] && t != [] && multiset(s) == multiset(t) && s[|s| - 1] == t[|t| - 1]
    ensures multiset(s[..|s| - 1]) == multiset(t[..|t| - 1])
  {
    assert s == s[..|s| - 1] + [s[|s| - 1]] && t == t[..|t| - 1] + [t[|t| - 1]];
    assert multiset(s) == multiset(s[..|s| - 1]) + multiset{s[|s| - 1]};
    assert multiset(t) == multiset(t[..|t| - 1]) + multiset{s[|s| - 1]};
    CancelOne(multiset(s[..|s| - 1]), multiset(t[..|t| - 1]), s[|s| - 1]);
  }

  /** Two sorted sequences of the same elements are the same sequence. */
  lemma {:induction false} SortedUnique<T(!new)>(less: (T, T) -> bool, s: seq<T>, t: seq<T>)
    requires StrictOrder(less) && Sorted(less, s) && Sorted(less, t) && multiset(s) == multiset(t)
    ensures s == t
  {
    hide StrictOrder, Sorted;
    assert |multiset(s)| == |multiset(t)|;
    if s != [] {
      var n := |s| - 1;
      LastsAgree(less, s, t);
      FrontsMatch(s, t);
      FrontSorted(less, s);
      FrontSorted(less, t);
      SortedUnique(less, s[..n], t[..n]);
      calc { s; s[..n] + [s[n]]; t[..n] + [t[n]]; t; }
    }
  }

  lemma FrontSorted<T(!new)>(less: (T, T) -> bool, s: seq<T>)
    requires s != [] && Sorted(less, s)
    ensures Sorted(less, s[..|s| - 1])
  {
  }

  lemma LastsAgree<T(!new)>(less: (T, T) -> bool, s: seq<T>, t: seq<T>)
    requires StrictOrder(less) && Sorted(less, s) && Sorted(less, t) && multiset(s) == multiset(t)
    requires s != [] && |s| == |t|
    ensures s[|s| - 1] == t[|t| - 1]
  {
    hide StrictOrder;
    var n := |s| - 1;
    var i := MatchLast(s, t);
    var j := MatchLast(t, s);
    Decides(less, t[n], s[n]);
    Decides(less, t[n], t[n]);
    Decides(less, s[n], s[n]);
  }

  /** Inserting before the n-th element only looks at the elements before it. */
  lemma PositionBefore<T(!new)>(less: (T, T) -> bool, s: seq<T>, x: T, k: nat)
    requires StrictOrder(less) && Sorted(less, s) && k < |s|
    ensures less(x, s[k]) <==> Position(less, s, x) <= k
  {
    hide StrictOrder;
    var p := Position(less, s, x);
    if less(x, s[k]) && p > k + 1 { NotLessComposes(less, s[k], s[p - 1], x); }
  }

  lemma InsertWindow<T(!new)>(less: (T, T) -> bool, s: seq<T>, x: T, n: nat)
    requires StrictOrder(less) && Sorted(less, s) && 0 < n <= |s|
    ensures Insert(less, s, x)[..n] == if less(x, s[n - 1]) then Insert(less, s[..n - 1], x) else s[..n]
  {
    hide StrictOrder;
    PositionBefore(less, s, x, n - 1);
    if less(x, s[n - 1]) {
      PositionUnique(less, s[..n - 1], x, Position(less, s, x));
    }
  }

  /** The order the elements arrive in does not matter. */
  lemma SortIgnoresOrder<T(!new)>(less: (T, T) -> bool, xs: seq<T>, ys: seq<T>)
    requires StrictOrder(less) && multiset(xs) == multiset(ys)
    ensures Sort(less, xs) == Sort(less, ys)
  {
    SortSorts(less, xs);
    SortSorts(less, ys);
    SortedUnique(less, Sort(less, xs), Sort(less, ys));
  }
}
