/** The transaction index: a paged walk over a growing log, newest first. */
module Indexer {
  import opened Units

  const INDEX_PAGE := 100

  /** One transaction; the parts besides id and status are one opaque text. */
  datatype Tx = Tx(id: string, status: string, rest: string)

  datatype SyncResult = SyncResult(pages: nat, seen: nat, added: nat, complete: bool)

  /** The node's log is kept oldest first; ids never repeat. */
  predicate Distinct(log: seq<Tx>) {
    forall i, j | 0 <= i < j < |log| :: log[i].id != log[j].id
  }

  function Ids(log: seq<Tx>): set<string> { set t | t in log :: t.id }

  /** The transaction `offset` places from the newest. */
  function At(log: seq<Tx>, offset: nat): Tx
    requires offset < |log|
  {
    log[|log| - 1 - offset]
  }

  function PageSize(log: seq<Tx>, offset: nat): nat {
    if offset >= |log| then 0 else Min(INDEX_PAGE, |log| - offset)
  }

  /** What the node answers: up to INDEX_PAGE transactions, newest first. */
  function FetchPage(log: seq<Tx>, offset: nat): (rows: seq<Tx>)
    ensures |rows| == PageSize(log, offset)
    ensures forall k: nat | k < |rows| :: rows[k] == At(log, offset + k)
  {
    seq(PageSize(log, offset), k requires 0 <= k < PageSize(log, offset) => At(log, offset + k))
  }

  /** The log later on: nothing removed or reordered, statuses may have settled. */
  predicate Grew(before: seq<Tx>, log: seq<Tx>) {
    |before| <= |log| && forall j | 0 <= j < |before| :: before[j].id == log[j].id
  }

  /** The newest k transactions are all stored. */
  ghost predicate HeadStored(stored: set<string>, log: seq<Tx>, k: nat) {
    forall offset: nat | offset < k && offset < |log| :: At(log, offset).id in stored
  }

  class MemoryIndexStore {
    var txs: map<string, Tx>
    var backfillDone: bool
    var backfillOffset: nat

    constructor ()
      ensures txs == map[] && !backfillDone && backfillOffset == 0
    {
      txs, backfillDone, backfillOffset := map[], false, 0;
    }

    /** Everything stored comes from the log, and what the bookkeeping claims to be stored is. */
    ghost predicate Sound(log: seq<Tx>)
      reads this
    {
      && txs.Keys <= Ids(log)
      && HeadStored(txs.Keys, log, if backfillDone then |log| else backfillOffset)
    }

    method Upsert(rows: seq<Tx>)
      requires Distinct(rows)
      modifies this`txs
      ensures txs.Keys == old(txs.Keys) + Ids(rows)
      ensures forall t | t in rows :: txs[t.id] == t
      ensures forall id | id in old(txs) && id !in Ids(rows) :: txs[id] == old(txs)[id]
    {
      for k := 0 to |rows|
        invariant txs.Keys == old(txs.Keys) + Ids(rows[..k])
        invariant forall i | 0 <= i < k :: rows[i].id in txs && txs[rows[i].id] == rows[i]
        invariant forall id | id in old(txs) && id !in Ids(rows[..k]) :: txs[id] == old(txs)[id]
      {
        txs := txs[rows[k].id := rows[k]];
        assert rows[..k + 1] == rows[..k] + [rows[k]];
        assert Ids(rows[..k + 1]) == Ids(rows[..k]) + {rows[k].id};
      }
      assert rows[..|rows|] == rows;
    }

    /** Stores the rows of a page not yet known, or all of them; reports how many were new. */
    method StorePage(rows: seq<Tx>, all: bool) returns (added: nat)
      requires Distinct(rows)
      modifies this`txs
      ensures txs.Keys == old(txs.Keys) + Ids(rows)
      ensures added <= |rows| && Stored(txs) == Stored(old(txs)) + added
      ensures added < |rows| <==> exists t :: t in rows && t.id in old(txs)
      ensures forall t | t in rows && (all || t.id !in old(txs)) :: txs[t.id] == t
      ensures forall id | id in old(txs) && (!all || id !in Ids(rows)) :: txs[id] == old(txs)[id]
    {
      hide Stored;
      var known := txs.Keys * Ids(rows);
      var unseen := Unseen(rows, known);
      if all {
        Upsert(rows);
      } else {
        Upsert(unseen);
      }
      added := |unseen|;
      CountedOnce(old(txs), txs, rows, unseen, known);
    }

    /** One page of the head: stored whole if it is the newest, and met if it holds anything already stored. */
    method HeadPage(log: seq<Tx>, offset: nat, ghost was: map<string, Tx>) returns (size: nat, added: nat)
      requires Distinct(log) && Newest(log, offset) !! was.Keys
      requires txs.Keys == was.Keys + Newest(log, offset) && Refreshed(log, was, txs, offset > 0)
      modifies this`txs
      ensures size == PageSize(log, offset) && added <= size && Stored(txs) == Stored(old(txs)) + added
      ensures txs.Keys == was.Keys + Newest(log, offset + INDEX_PAGE) && Refreshed(log, was, txs, true)
      ensures if added < size then Met(log, offset, was.Keys) else Newest(log, offset + INDEX_PAGE) !! was.Keys
    {
      hide Refreshed, Met, Ids, FetchPage, Newest, Stored;
      var rows := FetchPage(log, offset);
      PageDistinct(log, offset);
      NewestPage(log, offset);
      size := |rows|;
      added := StorePage(rows, offset == 0);
      RefreshedByPage(log, was, old(txs), txs, offset, offset > 0, offset == 0);
      if added < size {
        MetInPage(log, offset, was.Keys);
      } else {
        AllNewPage(log, offset, was.Keys);
      }
    }

    /** The head: walk from the newest page until one reaches something already stored. */
    method SyncHead(log: seq<Tx>, maxPages: nat)
      returns (pages: nat, seen: nat, added: nat, offset: nat, reachedEnd: bool)
      requires Distinct(log)
      modifies this`txs
      ensures pages <= maxPages && (maxPages > 0 ==> pages > 0)
      ensures added <= seen <= INDEX_PAGE * pages && Stored(txs) == Stored(old(txs)) + added
      ensures txs.Keys == old(txs.Keys) + Newest(log, INDEX_PAGE * pages)
      ensures Refreshed(log, old(txs), txs, pages > 0)
      ensures reachedEnd ==> |log| <= INDEX_PAGE * pages
      ensures !reachedEnd ==> offset <= |log| && Newest(log, offset) !! old(txs.Keys)
      ensures !reachedEnd ==>
                || (pages == maxPages && offset == INDEX_PAGE * pages)
                || (offset == INDEX_PAGE * (pages - 1) && Met(log, offset, old(txs.Keys)))
    {
      hide Refreshed, Met, Ids, FetchPage, Newest, Stored;
      pages, seen, added, offset, reachedEnd := 0, 0, 0, 0, false;
      NothingYet(log, txs);
      while pages < maxPages
        invariant pages <= maxPages && offset == INDEX_PAGE * pages <= |log| && !reachedEnd
        invariant added <= seen <= INDEX_PAGE * pages && Stored(txs) == Stored(old(txs)) + added
        invariant txs.Keys == old(txs.Keys) + Newest(log, offset) && Newest(log, offset) !! old(txs.Keys)
        invariant Refreshed(log, old(txs), txs, offset > 0)
      {
        var size, unseen := HeadPage(log, offset, old(txs));
        pages, seen, added := pages + 1, seen + size, added + unseen;
        if size < INDEX_PAGE {
          reachedEnd := true;
          break;
        }
        if unseen < size {
          break;
        }
        offset := offset + INDEX_PAGE;
      }
    }

    /** The backfill: page on from `resume0` until the log's start or the page budget ends. */
    method Backfill(log: seq<Tx>, maxPages: nat, pages0: nat, resume0: nat, ghost was: map<string, Tx>)
      returns (pages: nat, seen: nat, added: nat, resume: nat, reachedEnd: bool)
      requires Distinct(log) && pages0 <= maxPages
      requires Refreshed(log, was, txs, pages0 > 0) && (pages0 < maxPages ==> pages0 > 0)
      modifies this`txs
      ensures Refreshed(log, was, txs, pages0 > 0) && old(txs.Keys) <= txs.Keys
      ensures pages0 <= pages <= maxPages && (!reachedEnd ==> pages == maxPages)
      ensures added <= seen <= INDEX_PAGE * (pages - pages0) && Stored(txs) == Stored(old(txs)) + added
      ensures pages0 == maxPages ==> txs == old(txs) && resume == resume0 && !reachedEnd
      ensures HeadStored(old(txs.Keys), log, resume0)
              ==> HeadStored(txs.Keys, log, if reachedEnd then |log| else resume)
      ensures resume0 <= |log| && !reachedEnd ==> resume <= |log|
      ensures resume >= resume0 && (!reachedEnd ==> resume == resume0 + INDEX_PAGE * (maxPages - pages0))
    {
      hide Refreshed, Ids, FetchPage, HeadStored, Stored;
      pages, seen, added, resume, reachedEnd := pages0, 0, 0, resume0, false;
      while pages < maxPages
        invariant pages0 <= pages <= maxPages && !reachedEnd && resume == resume0 + INDEX_PAGE * (pages - pages0)
        invariant Refreshed(log, was, txs, pages0 > 0) && old(txs.Keys) <= txs.Keys
        invariant HeadStored(old(txs.Keys), log, resume0) ==> HeadStored(txs.Keys, log, resume)
        invariant pages == pages0 ==> txs == old(txs)
        invariant added <= seen <= INDEX_PAGE * (pages - pages0) && Stored(txs) == Stored(old(txs)) + added
        invariant resume0 <= |log| ==> resume <= |log|
      {
        var rows := FetchPage(log, resume);
        PageDistinct(log, resume);
        pages := pages + 1;
        seen := seen + |rows|;
        label Before:
        var unseen := StorePage(rows, false);
        RefreshedLater(log, was, old@Before(txs), txs, resume);
        if HeadStored(old@Before(txs.Keys), log, resume) {
          PageExtendsHead(log, old@Before(txs.Keys), txs.Keys, resume);
        }
        added := added + unseen;
        if |rows| < INDEX_PAGE {
          reachedEnd := true;
          break;
        }
        resume := resume + INDEX_PAGE;
      }
    }

    /**
     * One call of syncIndex. `before` is the log as it stood when the previous call
     * ended; the node's log does not change during this one.
     */
    method SyncIndex(log: seq<Tx>, maxPages: nat, ghost before: seq<Tx>) returns (out: SyncResult)
      requires Distinct(log) && Grew(before, log) && Sound(before)
      modifies this
      // The index stays sound exactly when the arrivals, or the head not yet backfilled, fit in the pages walked.
      ensures Sound(log) <==> Coverable(|log| - |before|, maxPages, old(backfillDone), old(backfillOffset))
      ensures out.complete == backfillDone && (old(backfillDone) ==> backfillDone)
      ensures Refreshed(log, old(txs), txs, maxPages > 0)
      // The counters: the page budget is kept, and used up while history is incomplete; `added` counts the new ids.
      ensures out.pages <= maxPages && (maxPages > 0 ==> out.pages > 0) && (!out.complete ==> out.pages == maxPages)
      ensures out.added <= out.seen <= 100 * out.pages && out.added == Stored(txs) - Stored(old(txs))
      // Progress: while history is incomplete, all pages but the first reach further back.
      ensures !out.complete && |log| - |before| < 100
              ==> backfillOffset >= old(backfillOffset) + 100 * (maxPages - 1)
      ensures !out.complete && old(backfillOffset) <= |log| ==> backfillOffset <= |log|
      // With a budget of one page the head takes it, and an unfinished backfill never moves.
      ensures maxPages == 1 && |log| == |before| > 100 && !old(backfillDone) && old(backfillOffset) > 0
              ==> !out.complete && backfillOffset == old(backfillOffset)
    {
      hide Refreshed, HeadStored, Ids, FetchPage, Newest, Met, Stored;
      var backfilled := backfillDone;
      var pages, seen, added, offset, reachedEnd := SyncHead(log, maxPages);
      ghost var known, head := old(txs.Keys), txs.Keys;
      ghost var claimed := if backfilled then |log| else if backfillOffset < offset then offset else backfillOffset;
      HeadReaches(before, log, known, head, pages, maxPages, offset, reachedEnd, backfilled, old(backfillOffset));
      if !backfilled && !reachedEnd {
        var resume := backfillOffset;
        if resume < offset {
          resume := offset;
        }
        var more, further;
        pages, more, further, resume, reachedEnd := Backfill(log, maxPages, pages, resume, old(txs));
        seen, added := seen + more, added + further;
        backfillOffset := resume;
      }
      if reachedEnd && !backfilled {
        backfillDone := true;
      }
      out := SyncResult(pages, seen, added, reachedEnd || backfilled);
      FromTheLog(before, log, old(txs), txs, maxPages > 0);
    }

    /** Any number of calls against a growing log, from an empty store on: the index stays sound throughout. */
    method SyncRun(logs: seq<seq<Tx>>, maxPages: nat) returns (complete: bool)
      requires txs == map[] && !backfillDone && backfillOffset == 0
      requires logs != [] && forall k | 0 <= k < |logs| :: Distinct(logs[k])
      requires forall k | 0 < k < |logs| ::
                 Grew(logs[k - 1], logs[k]) && |logs[k]| - |logs[k - 1]| <= INDEX_PAGE * maxPages
      modifies this
      ensures Sound(logs[|logs| - 1])
      ensures complete ==> txs.Keys == Ids(logs[|logs| - 1])
    {
      complete := false;
      for k := 0 to |logs|
        invariant Sound(if k == 0 then [] else logs[k - 1]) && complete == backfillDone
        invariant k == 0 ==> !backfillDone && backfillOffset == 0
      {
        var out := SyncIndex(logs[k], maxPages, if k == 0 then [] else logs[k - 1]);
        complete := out.complete;
      }
      if complete {
        WholeHistory(txs.Keys, logs[|logs| - 1]);
      }
    }

    /** On a quiet chain repeated calls of at least two pages finish the backfill. */
    method SyncToCompletion(log: seq<Tx>, maxPages: nat)
      requires Distinct(log) && Sound(log) && backfillOffset <= |log| && maxPages >= 2
      modifies this
      ensures backfillDone && txs.Keys == Ids(log)
    {
      var done := false;
      while !done
        invariant Sound(log) && (done ==> backfillDone) && (!done ==> backfillOffset <= |log|)
        decreases !done, |log| - backfillOffset
      {
        var out := SyncIndex(log, maxPages, log);
        done := out.complete;
      }
      WholeHistory(txs.Keys, log);
    }
  }

  lemma WholeHistory(stored: set<string>, log: seq<Tx>)
    requires stored <= Ids(log) && HeadStored(stored, log, |log|)
    ensures stored == Ids(log)
  {
    forall id | id in Ids(log) ensures id in stored {
      var j :| 0 <= j < |log| && log[j].id == id;
      assert At(log, |log| - 1 - j) == log[j];
    }
  }

  /** An old transaction now stands `arrivals` places further from the newest; a new one was unknown. */
  lemma Shifted(before: seq<Tx>, log: seq<Tx>, o: nat)
    requires Distinct(log) && Grew(before, log) && o < |log|
    ensures var a := |log| - |before|;
            if o >= a then At(log, o).id == At(before, o - a).id else At(log, o).id !in Ids(before)
  {
    var a := |log| - |before|;
    if o < a {
      forall t | t in before ensures t.id != At(log, o).id {
        var j :| 0 <= j < |before| && before[j] == t;
        assert log[j].id != log[|log| - 1 - o].id;
      }
    }
  }

  lemma FromTheLog(before: seq<Tx>, log: seq<Tx>, was: map<string, Tx>, now: map<string, Tx>, firstPage: bool)
    requires Grew(before, log) && was.Keys <= Ids(before) && Refreshed(log, was, now, firstPage)
    ensures now.Keys <= Ids(log)
  {
    forall id | id in was.Keys ensures id in Ids(log) {
      var t :| t in before && t.id == id;
      var j :| 0 <= j < |before| && before[j] == t;
      assert log[j] in log;
    }
  }

  /** How far the head phase leaves the stored transactions without a gap. */
  ghost predicate HeadPhase(
      log: seq<Tx>, known: set<string>, head: set<string>, pages: nat, maxPages: nat, offset: nat, reachedEnd: bool)
  {
    && pages <= maxPages && head == known + Newest(log, INDEX_PAGE * pages)
    && (reachedEnd ==> |log| <= INDEX_PAGE * pages)
    && (!reachedEnd ==>
          && offset <= |log| && Newest(log, offset) !! known
          && ((pages == maxPages && offset == INDEX_PAGE * pages)
              || (offset == INDEX_PAGE * (pages - 1) && Met(log, offset, known))))
  }

  lemma HeadJoinsOldHead(
      before: seq<Tx>, log: seq<Tx>, known: set<string>, head: set<string>,
      pages: nat, maxPages: nat, offset: nat, backfilled: bool, resume: nat)
    requires Distinct(log) && Grew(before, log) && known <= Ids(before)
    requires HeadStored(known, before, if backfilled then |before| else resume)
    requires HeadPhase(log, known, head, pages, maxPages, offset, false)
    requires Coverable(|log| - |before|, maxPages, backfilled, resume)
    ensures HeadStored(head, log, if backfilled then |log| else if resume < offset then offset else resume)
  {
    hide Ids;
    var a := |log| - |before|;
    var claim := if backfilled then |log| else if resume < offset then offset else resume;
    var reach := INDEX_PAGE * pages;
    if offset != reach {
      var o': nat :| offset <= o' < offset + INDEX_PAGE && o' < |log| && At(log, o').id in known;
      Shifted(before, log, o');
    }
    forall o: nat | o < claim && o < |log| ensures At(log, o).id in head {
      if o < reach {
        assert At(log, o).id in Newest(log, reach);
      } else {
        Shifted(before, log, o);
      }
    }
  }

  lemma TooManyArrivals(
      before: seq<Tx>, log: seq<Tx>, known: set<string>, head: set<string>,
      pages: nat, maxPages: nat, offset: nat, reachedEnd: bool, backfilled: bool, resume: nat)
    requires Distinct(log) && Grew(before, log) && known <= Ids(before)
    requires HeadPhase(log, known, head, pages, maxPages, offset, reachedEnd)
    requires !Coverable(|log| - |before|, maxPages, backfilled, resume)
    ensures !reachedEnd && pages == maxPages
    ensures !HeadStored(head, log, if backfilled then |log| else resume)
    ensures !backfilled ==> resume >= offset
  {
    hide Ids;
    var o := INDEX_PAGE * maxPages;
    Shifted(before, log, o);
    if !reachedEnd && offset != INDEX_PAGE * pages {
      var o': nat :| offset <= o' < offset + INDEX_PAGE && o' < |log| && At(log, o').id in known;
      Shifted(before, log, o');
    }
    assert At(log, o).id !in head by {
      assert forall k: nat | k < o :: At(log, k).id != At(log, o).id;
    }
  }

  lemma QuietHeadIsOnePage(
      before: seq<Tx>, log: seq<Tx>, known: set<string>, head: set<string>,
      pages: nat, maxPages: nat, offset: nat, resume: nat)
    requires Distinct(log) && Grew(before, log) && HeadStored(known, before, resume)
    requires HeadPhase(log, known, head, pages, maxPages, offset, false) && |log| - |before| < INDEX_PAGE
    ensures resume > 0 && |before| > 0 ==> offset < INDEX_PAGE
  {
    var a := |log| - |before|;
    if resume > 0 && |before| > 0 {
      Shifted(before, log, a);
      assert At(log, a).id in known;
      assert forall o: nat | o < offset && o < |log| :: At(log, o).id in Newest(log, offset);
    }
  }

  lemma HeadReaches(
      before: seq<Tx>, log: seq<Tx>, known: set<string>, head: set<string>,
      pages: nat, maxPages: nat, offset: nat, reachedEnd: bool, backfilled: bool, resume: nat)
    requires Distinct(log) && Grew(before, log) && known <= Ids(before)
    requires HeadStored(known, before, if backfilled then |before| else resume)
    requires HeadPhase(log, known, head, pages, maxPages, offset, reachedEnd)
    ensures reachedEnd ==> HeadStored(head, log, |log|) && Coverable(|log| - |before|, maxPages, backfilled, resume)
    ensures !reachedEnd && Coverable(|log| - |before|, maxPages, backfilled, resume) ==>
              HeadStored(head, log, if backfilled then |log| else if resume < offset then offset else resume)
    ensures !Coverable(|log| - |before|, maxPages, backfilled, resume) ==>
              && pages == maxPages && (!backfilled ==> resume >= offset)
              && !HeadStored(head, log, if backfilled then |log| else resume)
    ensures !reachedEnd && !backfilled && |log| - |before| < INDEX_PAGE
            ==> offset < INDEX_PAGE || resume == 0
  {
    hide Met, Ids;
    if !Coverable(|log| - |before|, maxPages, backfilled, resume) {
      TooManyArrivals(before, log, known, head, pages, maxPages, offset, reachedEnd, backfilled, resume);
    } else if !reachedEnd {
      HeadJoinsOldHead(before, log, known, head, pages, maxPages, offset, backfilled, resume);
    } else {
      forall o: nat | o < |log| ensures At(log, o).id in head {
        assert At(log, o).id in Newest(log, INDEX_PAGE * pages);
      }
    }
    if !reachedEnd && !backfilled && |log| - |before| < INDEX_PAGE {
      QuietHeadIsOnePage(before, log, known, head, pages, maxPages, offset, resume);
    }
  }

  /** Some row of the page at `offset` was known. */
  ghost predicate Met(log: seq<Tx>, offset: int, known: set<string>) {
    exists o: nat :: offset <= o < offset + INDEX_PAGE && o < |log| && At(log, o).id in known
  }

  lemma MetInPage(log: seq<Tx>, offset: nat, known: set<string>)
    requires Distinct(log) && Newest(log, offset) !! known
    requires exists t :: t in FetchPage(log, offset) && t.id in known + Newest(log, offset)
    ensures Met(log, offset, known)
  {
    var rows := FetchPage(log, offset);
    var t :| t in rows && t.id in known + Newest(log, offset);
    var k :| 0 <= k < |rows| && rows[k] == t;
    assert At(log, offset + k) == t;
    assert forall o: nat | o < offset && o < |log| :: At(log, o).id != t.id;
  }

  lemma RefreshedLater(log: seq<Tx>, was: map<string, Tx>, mid: map<string, Tx>, now: map<string, Tx>, offset: nat)
    requires Distinct(log) && Refreshed(log, was, mid, true)
    requires now.Keys == mid.Keys + Ids(FetchPage(log, offset))
    requires forall t | t in FetchPage(log, offset) && t.id !in mid :: now[t.id] == t
    requires forall id | id in mid :: now[id] == mid[id]
    ensures Refreshed(log, was, now, true)
  {
    var rows := FetchPage(log, offset);
    assert forall t | t in rows :: t in log;
    forall t | t in log && t.id in now && t.id !in was ensures now[t.id] == t {
      if t.id !in mid {
        var r :| r in rows && r.id == t.id;
        assert r == t;
      }
    }
  }

  lemma PageExtendsHead(log: seq<Tx>, mid: set<string>, now: set<string>, offset: nat)
    requires now == mid + Ids(FetchPage(log, offset)) && HeadStored(mid, log, offset)
    ensures HeadStored(now, log, offset + INDEX_PAGE)
    ensures PageSize(log, offset) < INDEX_PAGE ==> HeadStored(now, log, |log|)
  {
    var rows := FetchPage(log, offset);
    forall o: nat | o < offset + INDEX_PAGE && o < |log| ensures At(log, o).id in now {
      if o >= offset { assert rows[o - offset] in rows; }
    }
  }

  lemma AllNewPage(log: seq<Tx>, offset: nat, known: set<string>)
    requires Newest(log, offset) !! known
    requires forall t | t in FetchPage(log, offset) :: t.id !in known
    ensures Newest(log, offset + INDEX_PAGE) !! known
  {
    NewestPage(log, offset);
  }

  lemma NothingYet(log: seq<Tx>, txs: map<string, Tx>)
    ensures Refreshed(log, txs, txs, false) && Newest(log, 0) == {}
  {
  }

  /**
   * Nothing already stored changed except, when asked, the rows of the newest page;
   * those and every transaction first seen are as the node has them now.
   */
  ghost predicate Refreshed(log: seq<Tx>, was: map<string, Tx>, now: map<string, Tx>, firstPage: bool) {
    && was.Keys <= now.Keys <= was.Keys + Ids(log)
    && (forall t | t in log && t.id in now && t.id !in was :: now[t.id] == t)
    && (forall id | id in was && id !in Ids(FetchPage(log, 0)) :: now[id] == was[id])
    && (firstPage ==> forall t | t in FetchPage(log, 0) :: t.id in now && now[t.id] == t)
  }

  lemma RefreshedByPage(
      log: seq<Tx>, was: map<string, Tx>, mid: map<string, Tx>, now: map<string, Tx>,
      offset: nat, first: bool, all: bool)
    requires Distinct(log) && Refreshed(log, was, mid, first) && (all <==> offset == 0) && (!all ==> first)
    requires now.Keys == mid.Keys + Ids(FetchPage(log, offset))
    requires forall t | t in FetchPage(log, offset) && (all || t.id !in mid) :: now[t.id] == t
    requires forall id | id in mid && (!all || id !in Ids(FetchPage(log, offset))) :: now[id] == mid[id]
    ensures Refreshed(log, was, now, true)
  {
    var rows := FetchPage(log, offset);
    assert forall t | t in rows :: t in log;
    forall t | t in log && t.id in now && t.id !in was ensures now[t.id] == t {
      if t.id in Ids(rows) {
        var r :| r in rows && r.id == t.id;
        assert r == t;
      }
    }
  }

  /** When a call keeps the index sound: see SyncIndex. */
  predicate Coverable(arrivals: int, maxPages: nat, backfilled: bool, resume: nat) {
    arrivals <= 100 * maxPages || (!backfilled && resume <= 100 * maxPages)
  }

  /** The ids of the newest k transactions. */
  ghost function Newest(log: seq<Tx>, k: nat): set<string> {
    set offset: nat | offset < k && offset < |log| :: At(log, offset).id
  }

  lemma PageDistinct(log: seq<Tx>, offset: nat)
    requires Distinct(log)
    ensures Distinct(FetchPage(log, offset))
  {
  }

  lemma NewestPage(log: seq<Tx>, offset: nat)
    ensures Newest(log, offset) + Ids(FetchPage(log, offset)) == Newest(log, offset + INDEX_PAGE)
  {
    var rows := FetchPage(log, offset);
    forall id | id in Newest(log, offset + INDEX_PAGE) ensures id in Newest(log, offset) + Ids(rows) {
      var o: nat :| o < offset + INDEX_PAGE && o < |log| && At(log, o).id == id;
      if o >= offset { assert rows[o - offset] in rows; }
    }
    forall id | id in Ids(rows) ensures id in Newest(log, offset + INDEX_PAGE) {
      var k :| 0 <= k < |rows| && rows[k].id == id;
      assert At(log, offset + k).id == id;
    }
  }

  /** How many transactions a store holds. */
  function Stored(txs: map<string, Tx>): nat { |txs.Keys| }

  /** Storing a page adds as many transactions as it has unseen rows. */
  lemma CountedOnce(was: map<string, Tx>, now: map<string, Tx>, rows: seq<Tx>, unseen: seq<Tx>, known: set<string>)
    requires Distinct(rows) && known == was.Keys * Ids(rows) && unseen == Unseen(rows, known)
    requires now.Keys == was.Keys + Ids(rows)
    ensures Stored(now) == Stored(was) + |unseen|
  {
    DistinctIds(unseen);
    hide Distinct, Unseen, Ids;
    UnseenIds(rows, was.Keys);
    CountsAdd(was.Keys, Ids(unseen));
  }

  lemma UnseenIds(rows: seq<Tx>, keys: set<string>)
    ensures var ids := Ids(Unseen(rows, keys * Ids(rows)));
            keys + Ids(rows) == keys + ids && keys !! ids
  {
    hide Distinct;
  }

  lemma CountsAdd(a: set<string>, b: set<string>)
    requires a !! b
    ensures |a + b| == |a| + |b|
  {
  }

  lemma {:induction false} DistinctIds(rows: seq<Tx>)
    requires Distinct(rows)
    ensures |Ids(rows)| == |rows|
  {
    if rows != [] {
      var front, last := rows[..|rows| - 1], rows[|rows| - 1];
      DistinctIds(front);
      assert rows == front + [last];
      assert Ids(rows) == Ids(front) + {last.id} && last.id !in Ids(front);
    }
  }

  function Unseen(rows: seq<Tx>, known: set<string>): (r: seq<Tx>)
    ensures forall t :: t in r <==> t in rows && t.id !in known
    ensures |r| <= |rows|
    ensures |r| < |rows| <==> exists t :: t in rows && t.id in known
    ensures Distinct(rows) ==> Distinct(r)
  {
    if rows == [] then []
    else
      var last := rows[|rows| - 1];
      Unseen(rows[..|rows| - 1], known) + (if last.id in known then [] else [last])
  }
}
