/**
 * The walk and the expiry rows as they run: one object whose fields are store keys,
 * updated in place. Every method is tied to the function that specifies it.
 */
module Store {
  import opened Units
  import opened Emission
  import opened Accumulator
  import opened LShare
  import opened ShareBook
  import opened Accrual
  import opened Daily
  import ProofOfBrain

  // ----- draining as one stretch -----

  /** As many whole chunks of the current day as the budget takes. */
  function DrainTo(b: Book, budget: nat): (Book, nat)
    decreases ChunksLeft(b)
  {
    if b.Pending() && !Blocked(b, budget) then DrainTo(DrainChunk(b), budget - |b.NextChunk()|) else (b, budget)
  }

  lemma {:induction false} LoopDrains(w: Walk, target: nat, days: nat)
    requires w.book.day < target && days > 0
    ensures var (b, left) := DrainTo(w.book, w.budget);
            && Loop(w, target, days) == Loop(w.(book := b, budget := left), target, days)
            && b.day == w.book.day
    decreases ChunksLeft(w.book)
  {
    hide DrainChunk, StepDay;
    if w.book.Pending() && !Blocked(w.book, w.budget) {
      DrainChunkFrame(w.book);
      LoopDrains(DrainStep(w), target, days);
    }
  }

  lemma {:induction false} DrainToKeeps(b: Book, budget: nat)
    ensures var b' := DrainTo(b, budget).0;
            && b'.day == b.day && b'.genesis == b.genesis && b'.hpd == b.hpd && b'.mints == b.mints
            && b'.active == b.active && b'.exp == b.exp && b'.count == b.count
            && (Shape(b) ==> Shape(b'))
    decreases ChunksLeft(b)
  {
    if b.Pending() && !Blocked(b, budget) {
      if Shape(b) { DrainKeepsShape(b); }
      DrainToKeeps(DrainChunk(b), budget - |b.NextChunk()|);
    }
  }

  /** The day's bookkeeping rows gone, as a finished drain leaves them. */
  function Cleared(b: Book): Book {
    if Read(b.count, b.day) == 0 then b
    else b.(count := Write(b.count, b.day, 0), cursor := Write(b.cursor, b.day, 0))
  }

  lemma ClearedClosesTheSame(b: Book)
    requires Read(b.count, b.day) >= 0
    ensures CloseDay(Cleared(b)) == CloseDay(b)
  {
    var none := Write(b.count, b.day, 0);
    assert Read(none, b.day) == 0 && Write(none, b.day, 0) == none;
    if Read(b.count, b.day) == 0 { assert Write(b.count, b.day, 0) == Write(Cleared(b).count, b.day, 0); }
  }

  /** The rows of the walk and of the mints, each store key a field. */
  class AccrualStore {
    const genesis: nat
    const hpd: nat

    var accDay: nat
    var sharesTotal: int
    var votes: map<string, int>
    var exp: map<int, int>
    var expCount: map<int, int>
    var expCursor: map<int, int>
    var chunks: map<(int, int), seq<Entry>>
    var mints: seq<Mint>

    // accumulator, pools and supply counters
    var accPerShare: int
    var accHeld: int
    var accAt: map<int, int>
    var poolViral: int
    var poolDeep: int
    var poolLiquidity: int
    var poolLShare: int
    var emitted: int
    var settled: nat

    /** The book as it would be with the walk's day at d and `active` live shares. */
    function BookAt(d: nat, active: int): Book
      reads this
    {
      Book(genesis, hpd, d, active, votes, exp, expCount, expCursor, chunks, mints)
    }

    function Pools(): Accrual.Pools
      reads this
    {
      Accrual.Pools(poolViral, poolDeep, poolLiquidity, poolLShare)
    }

    function YieldNow(): Yield
      reads this
    {
      Yield(BookAt(accDay, sharesTotal), accPerShare, accHeld, accAt, Pools(), emitted, settled)
    }

    lemma Shows()
      ensures var y := YieldNow();
              && y.book.genesis == genesis && y.book.hpd == hpd && y.book.day == accDay && y.book.mints == mints
              && y.settled == settled
    {
    }

    /** Every row as it was in y. */
    method Restore(y: Yield)
      requires y.book.genesis == genesis && y.book.hpd == hpd
      modifies this
      ensures YieldNow() == y
    {
      hide BookAt;
      accPerShare, accHeld, accAt, emitted, settled := y.acc, y.held, y.accAt, y.emitted, y.settled;
      RestorePools(y.pools);
      RestoreBook(y.book);
    }

    method RestorePools(p: Accrual.Pools)
      modifies `poolViral, `poolDeep, `poolLiquidity, `poolLShare
      ensures Pools() == p
    {
      poolViral, poolDeep, poolLiquidity, poolLShare := p.viral, p.deep, p.liquidity, p.lshare;
    }

    method RestoreBook(b: Book)
      requires b.genesis == genesis && b.hpd == hpd
      modifies `accDay, `sharesTotal, `votes, `exp, `expCount, `expCursor, `chunks, `mints
      ensures BookAt(accDay, sharesTotal) == b && accDay == b.day && sharesTotal == b.active
    {
      accDay, sharesTotal, votes, exp := b.day, b.active, b.votes, b.exp;
      expCount, expCursor, chunks, mints := b.count, b.cursor, b.chunks, b.mints;
    }

    constructor (genesis: nat, hpd: nat)
      ensures YieldNow() == InitialYield(genesis, hpd)
    {
      this.genesis, this.hpd := genesis, hpd;
      accDay, sharesTotal, votes, exp := 0, 0, map[], map[];
      expCount, expCursor, chunks, mints := map[], map[], map[], [];
      accPerShare, accHeld, accAt, emitted, settled := 0, 0, map[], 0, genesis;
      poolViral, poolDeep, poolLiquidity, poolLShare := 0, 0, 0, 0;
    }

    // ----- expiry rows -----

    /** One chunk's entries taken off their owners' voting balances, in order. */
    method RetireEntries(entries: seq<Entry>)
      modifies `votes
      ensures votes == RetireAll(old(votes), entries)
    {
      var j := 0;
      while j < |entries|
        invariant 0 <= j <= |entries|
        invariant votes == RetireAll(old(votes), entries[..j])
      {
        assert entries[..j + 1][..j] == entries[..j];
        var e := entries[j];
        if e.account != "" {
          var rest := Read(votes, e.account) - e.shares;
          votes := Write(votes, e.account, if rest < 0 then 0 else rest);
        }
        j := j + 1;
      }
      assert entries[..j] == entries;
    }

    /** Retires day d's entries chunk by chunk within the budget; the cursor is stored only when it runs out. */
    method DrainExpiryList(d: nat, budget: nat, ghost active: int) returns (left: nat, drained: bool)
      requires Shape(BookAt(d, active))
      modifies `votes, `expCount, `expCursor, `chunks
      ensures var (b, rest) := DrainTo(old(BookAt(d, active)), budget);
              && left == rest && drained == !b.Pending()
              && BookAt(d, active) == if drained then Cleared(b) else b
    {
      hide DrainTo, DrainChunk, RetireAll, Shape, AtCursor, Cleared;
      var count := Read(expCount, d);
      left := budget;
      ghost var start := BookAt(d, active);
      NoCountNothingPending(start, budget);
      if count == 0 {
        return left, true;
      }
      var cur := Read(expCursor, d);
      CursorIsCanonical(start);
      while cur < count
        invariant 0 <= cur <= count == Read(expCount, d)
        invariant Shape(AtCursor(BookAt(d, active), cur))
        invariant DrainTo(AtCursor(BookAt(d, active), cur), left) == DrainTo(start, budget)
      {
        ghost var b := BookAt(d, active);
        DrainAtCursor(b, cur, left);
        if (d, cur) in chunks {
          var entries := chunks[(d, cur)];
          if left < |entries| {
            expCursor := Write(expCursor, d, cur);
            return left, false;
          }
          RetireEntries(entries);
          left := left - |entries|;
          chunks := chunks - {(d, cur)};
        }
        cur := cur + 1;
      }
      DoneAtCursor(BookAt(d, active), cur, left);
      expCount := Write(expCount, d, 0);
      expCursor := Write(expCursor, d, 0);
      drained := true;
    }

    // ----- the walk -----

    /** mintSupply for the emission counter. */
    method MintEmitted(amount: int) returns (minted: bool)
      requires IsInt64(emitted) && IsInt64(amount)
      modifies `emitted
      ensures minted == (amount >= 0 && IsInt64(old(emitted) + amount))
      ensures emitted == if minted then old(emitted) + amount else old(emitted)
    {
      AddCheckedExact(emitted, amount);
      if amount < 0 {
        return false;
      }
      var next := AddChecked(emitted, amount);
      if next.None? {
        return false;
      }
      emitted := next.value;
      minted := true;
    }

    /** Supply minted before any pool is credited; the pools get the split of the whole call's emission at once. */
    method CreditEmission(totalEmitted: int, lshareTotal: int) returns (minted: bool)
      requires 0 <= emitted <= EMISSION_CAP && 0 <= totalEmitted && emitted + totalEmitted <= EMISSION_CAP
      modifies `emitted, `poolViral, `poolDeep, `poolLiquidity, `poolLShare
      ensures minted && emitted == old(emitted) + totalEmitted
      ensures Pools() == if totalEmitted > 0 then Credited(old(Pools()), totalEmitted, lshareTotal) else old(Pools())
    {
      hide Split, ProofOfBrain.SplitPoB;
      minted := true;
      if totalEmitted > 0 {
        minted := MintEmitted(totalEmitted);
        if !minted {
          return;
        }
        var split := Split(totalEmitted);
        var (viral, deep) := ProofOfBrain.SplitPoB(split.proofOfBrain);
        poolViral := AddPool(poolViral, viral);
        poolDeep := AddPool(poolDeep, deep);
        poolLiquidity := AddPool(poolLiquidity, split.liquidity);
        poolLShare := AddPool(poolLShare, lshareTotal);
      }
    }

    /** What matures with the day stops earning, and leaves the checkpoint it is paid to. */
    method StopMaturing(day: nat, active0: int, acc: int, ghost b: Book) returns (active: int)
      requires Shape(b) && BookAt(day, active0) == Cleared(b)
      modifies `exp, `accAt
      ensures BookAt(day + 1, active) == CloseDay(b)
      ensures accAt == if Read(b.exp, b.day) > 0 then old(accAt)[b.day := acc] else old(accAt)
    {
      hide Shape, CloseDay, Cleared, Write;
      CloseDayFromCleared(b);
      active := active0;
      var stopping := Read(exp, day);
      if stopping > 0 {
        active := active - stopping;
        if active < 0 { active := 0; }
        exp := Write(exp, day, 0);
        accAt := accAt[day := acc];
      }
    }

    /** The part of the loop body after the drain: distribute the day, then stop what matures with it. */
    method FinishOneDay(day: nat, acc0: int, held0: int, active0: int, emitted0: int, lshare0: int, ghost w: Walk)
      returns (acc: int, held: int, active: int, totalEmitted: int, lshareTotal: int)
      requires Shape(w.book) && BookAt(day, active0) == Cleared(w.book)
      requires w == Walk(w.book, acc0, held0, accAt, emitted0, lshare0, w.budget)
      modifies `exp, `accAt
      ensures StepDay(w) == Walk(BookAt(day + 1, active), acc, held, accAt, totalEmitted, lshareTotal, w.budget)
    {
      hide DayEmission, Split, AccumulatorStep, Shape, CloseDay, StepDay, Cleared, BookAt;
      ClearedHere(day, active0, w.book);
      acc, held, totalEmitted, lshareTotal := acc0, held0, emitted0, lshare0;
      var amount, lshare := DayEmission(genesis, hpd, day), 0;
      if amount > 0 {
        totalEmitted := totalEmitted + amount;
        lshare := Split(amount).lshare;
        lshareTotal := lshareTotal + lshare;
      }
      if lshare > 0 || held > 0 {
        var stepped := AccumulatorStep(acc, lshare, held, active0);
        acc, held := stepped.0, stepped.1;
      }
      active := StopMaturing(day, active0, acc, w.book);
      StepDayIs(w, amount, lshare);
    }

    lemma ClearedHere(day: nat, active: int, b: Book)
      requires BookAt(day, active) == Cleared(b)
      ensures b.day == day && b.active == active && b.genesis == genesis && b.hpd == hpd
    {
    }

    /** One turn of the loop: drain what the budget takes, and finish the day if its list is gone. */
    method WalkOneDay(
      day: nat, acc0: int, held0: int, active0: int, emitted0: int, lshare0: int, budget0: nat, ghost w: Walk)
      returns (acc: int, held: int, active: int, totalEmitted: int, lshareTotal: int, budget: nat, drained: bool)
      requires Shape(w.book) && w == Walk(BookAt(day, active0), acc0, held0, accAt, emitted0, lshare0, budget0)
      modifies `votes, `exp, `expCount, `expCursor, `chunks, `accAt
      ensures var ready := Drained(w);
              && drained == !ready.book.Pending()
              && Walk(BookAt(if drained then day + 1 else day, active), acc, held, accAt,
                      totalEmitted, lshareTotal, budget)
                 == if drained then StepDay(ready) else ready
    {
      hide DrainTo, StepDay, Shape, Cleared;
      acc, held, active, totalEmitted, lshareTotal := acc0, held0, active0, emitted0, lshare0;
      DrainToKeeps(w.book, budget0);
      budget, drained := DrainExpiryList(day, budget0, active);
      if drained {
        acc, held, active, totalEmitted, lshareTotal :=
          FinishOneDay(day, acc, held, active, totalEmitted, lshareTotal, Drained(w));
      }
    }

    /** The loop of the walk, from the stored day toward `target`, its results still in locals. */
    method WalkLoop(target: nat, cap: nat, retireBudget: nat)
      returns (day: nat, acc: int, held: int, active: int, totalEmitted: int, lshareTotal: int, ghost w: Walk)
      requires OnClock(YieldNow()) && Shape(YieldNow().book)
      modifies `votes, `exp, `expCount, `expCursor, `chunks, `accAt
      ensures w == Loop(Start(old(YieldNow()), retireBudget), target, cap) && OnCourse(old(YieldNow()), w)
      ensures w == Walk(BookAt(day, active), acc, held, accAt, totalEmitted, lshareTotal, w.budget)
    {
      hide Loop, StepDay, Drained, Shape, OnClock, OnCourse;
      ghost var y := YieldNow();
      day, acc, held, active := accDay, accPerShare, accHeld, sharesTotal;
      var steps, budget := 0, retireBudget;
      totalEmitted, lshareTotal := 0, 0;
      w := Start(y, retireBudget);
      ghost var end := Loop(w, target, cap);
      StartsOnCourse(y, retireBudget);
      TurnOfTheLoop(y, w, target, cap);
      while day < target && steps < cap
        invariant 0 <= steps <= cap
        invariant w == Walk(BookAt(day, active), acc, held, accAt, totalEmitted, lshareTotal, budget)
        invariant Loop(w, target, cap - steps) == end
        invariant Shape(w.book) && OnCourse(y, w)
        invariant !(day < target && steps < cap) ==> w == end
        decreases target - day
      {
        TurnOfTheLoop(y, w, target, cap - steps);
        var drained;
        acc, held, active, totalEmitted, lshareTotal, budget, drained :=
          WalkOneDay(day, acc, held, active, totalEmitted, lshareTotal, budget, w);
        if !drained {
          w := Drained(w);
          break;
        }
        w := StepDay(Drained(w));
        day, steps := day + 1, steps + 1;
        TurnOfTheLoop(y, w, target, cap - steps);
      }
    }

    /** The loop, and its writes. */
    method WalkDays(target: nat, cap: nat, retireBudget: nat) returns (minted: bool)
      requires OnClock(YieldNow()) && Shape(YieldNow().book) && accDay < target
      modifies `accDay, `sharesTotal, `votes, `exp, `expCount, `expCursor, `chunks, `accPerShare, `accHeld, `accAt,
               `poolViral, `poolDeep, `poolLiquidity, `poolLShare, `emitted, `settled
      ensures minted && YieldNow() == Commit(old(YieldNow()), Loop(Start(old(YieldNow()), retireBudget), target, cap))
    {
      hide Loop, Shape, OnClock, OnCourse, Commit, BookAt;
      ghost var y := YieldNow();
      var day, acc, held, active, totalEmitted, lshareTotal;
      ghost var w;
      day, acc, held, active, totalEmitted, lshareTotal, w := WalkLoop(target, cap, retireBudget);
      EmittedStaysUnderCap(y, w);
      minted := CommitWalk(day, acc, held, active, totalEmitted, lshareTotal, y, w);
    }

    method AccrueWalk(toHeight: nat, maxDays: int, retireBudget: nat) returns (caughtUp: bool)
      requires Good(YieldNow())
      modifies `accDay, `sharesTotal, `votes, `exp, `expCount, `expCursor, `chunks, `accPerShare, `accHeld, `accAt,
               `poolViral, `poolDeep, `poolLiquidity, `poolLShare, `emitted, `settled
      ensures (YieldNow(), caughtUp)
              == Walked(old(YieldNow()), TargetDay(old(YieldNow()).book, toHeight), maxDays, retireBudget)
    {
      hide Loop, DayOf, Commit, Sound, Solvent, OnClock, Shape;
      SoundIsShaped(YieldNow().book);
      var cap := if maxDays <= 0 || maxDays > MAX_ACCRUAL_DAYS then MAX_ACCRUAL_DAYS else maxDays;
      var target := DayOf(genesis, hpd, toHeight);
      if accDay >= target {
        return true;
      }
      var minted := WalkDays(target, cap, retireBudget);
      caughtUp := minted && accDay >= target;
    }

    /** Everything the walk kept in locals is written once. */
    method CommitWalk(
      day: nat, acc: int, held: int, active: int, totalEmitted: int, lshareTotal: int, ghost y: Yield, ghost w: Walk)
      returns (minted: bool)
      requires w == Walk(BookAt(day, active), acc, held, accAt, totalEmitted, lshareTotal, w.budget)
      requires Pools() == y.pools && emitted == y.emitted
      requires 0 <= y.emitted <= EMISSION_CAP && 0 <= totalEmitted && y.emitted + totalEmitted <= EMISSION_CAP
      modifies `accDay, `sharesTotal, `accPerShare, `accHeld,
               `poolViral, `poolDeep, `poolLiquidity, `poolLShare, `emitted, `settled
      ensures minted && YieldNow() == Commit(y, w)
    {
      hide Credited, HeightOfDay;
      minted := CreditEmission(totalEmitted, lshareTotal);
      if !minted {
        return;
      }
      accPerShare, accHeld, sharesTotal, accDay := acc, held, active, day;
      settled := HeightOfDay(genesis, hpd, day);
    }

    /** What every ordinary transaction carries: up to 1200 days, one chunk's worth of retirements. */
    method Accrue(toHeight: nat) returns (caughtUp: bool)
      requires Good(YieldNow())
      modifies `accDay, `sharesTotal, `votes, `exp, `expCount, `expCursor, `chunks, `accPerShare, `accHeld, `accAt,
               `poolViral, `poolDeep, `poolLiquidity, `poolLShare, `emitted, `settled
      ensures (YieldNow(), caughtUp) == Accrued(old(YieldNow()), toHeight)
    {
      hide Good, Walked;
      caughtUp := AccrueWalk(toHeight, MAX_ACCRUAL_DAYS, USER_RETIRE_BUDGET);
    }

    /** The permissionless advance, with the caller's own cap on days. */
    method AccrueSteps(toHeight: nat, maxDays: int) returns (caughtUp: bool)
      requires Good(YieldNow())
      modifies `accDay, `sharesTotal, `votes, `exp, `expCount, `expCursor, `chunks, `accPerShare, `accHeld, `accAt,
               `poolViral, `poolDeep, `poolLiquidity, `poolLShare, `emitted, `settled
      ensures (YieldNow(), caughtUp)
              == Walked(old(YieldNow()), TargetDay(old(YieldNow()).book, toHeight), maxDays, MAX_RETIRE_PER_WALK)
    {
      hide Good, Walked;
      caughtUp := AccrueWalk(toHeight, maxDays, MAX_RETIRE_PER_WALK);
    }

    /**
     * Calls Accrue until it reports caught up. Every call that is behind finishes a day or
     * drains a chunk, so the loop ends, and it ends where the plain day-by-day fold does.
     */
    method AccrueFully(toHeight: nat)
      requires Good(YieldNow())
      modifies `accDay, `sharesTotal, `votes, `exp, `expCount, `expCursor, `chunks, `accPerShare, `accHeld, `accAt,
               `poolViral, `poolDeep, `poolLiquidity, `poolLShare, `emitted, `settled
      ensures YieldNow() == DaysTo(old(YieldNow()), TargetDay(old(YieldNow()).book, toHeight))
      ensures Good(YieldNow())
    {
      hide Good, Walked, DaysTo, DayOf, DrainChunk;
      ghost var y, target := YieldNow(), TargetDay(YieldNow().book, toHeight);
      AccrueOnTheWay(y, target);
      var caughtUp := Accrue(toHeight);
      while !caughtUp
        invariant Good(YieldNow()) && DaysTo(YieldNow(), target) == DaysTo(y, target)
        invariant caughtUp ==> accDay >= target
        invariant !caughtUp ==> accDay < target
        decreases if caughtUp then 0 else target - accDay, ChunksLeft(YieldNow().book)
      {
        AccrueOnTheWay(YieldNow(), target);
        caughtUp := Accrue(toHeight);
      }
      FoldIsThere(YieldNow(), target);
    }

    // ----- expiry rows of mints joining and leaving -----

    /** Appends many entries to day d, writing each chunk once; returns the chunk each entry went to. */
    method ScheduleExpiryEntries(d: nat, entries: seq<Entry>) returns (ids: array<nat>)
      requires d in expCount ==> expCount[d] > 0
      modifies `expCount, `chunks
      ensures fresh(ids) && ids.Length == |entries|
      ensures Rows(chunks, expCount) == AppendAll(old(Rows(chunks, expCount)), d, entries)
      ensures forall j | 0 <= j < |entries| ::
                ids[j] == RowFor(AppendAll(old(Rows(chunks, expCount)), d, entries[..j]), d)
    {
      hide AppendRow, RowFor, AppendAll;
      ghost var rows := Rows(chunks, expCount);
      ids := new nat[|entries|];
      NothingAppended(rows, d);
      if |entries| == 0 {
        return;
      }
      var count: nat := Read(expCount, d);
      var i := 0;
      LastChunkOrNew(rows, d);
      CountItself(expCount, d);
      assert entries[..0] == [];
      if count > 0 && (d, count - 1) in chunks {
        var have := |chunks[(d, count - 1)]|;
        if have < EXPIRY_CHUNK_SIZE {
          var take := Min(EXPIRY_CHUNK_SIZE - have, |entries|);
          FillsLast(rows, d, entries[..take]);
          chunks := chunks[(d, count - 1) := chunks[(d, count - 1)] + entries[..take]];
          LastChunkOrNew(Rows(chunks, expCount), d);
          forall j | 0 <= j < take ensures entries[..take][..j] == entries[..j] { }
          forall j | 0 <= j < take { ids[j] := count - 1; }
          i := take;
        }
      }
      while i < |entries|
        invariant 0 <= i <= |entries|
        invariant Rows(chunks, Write(expCount, d, count)) == AppendAll(rows, d, entries[..i])
        invariant i < |entries| ==> RowFor(AppendAll(rows, d, entries[..i]), d) == count
        invariant forall j | 0 <= j < i :: ids[j] == RowFor(AppendAll(rows, d, entries[..j]), d)
      {
        var end := Min(i + EXPIRY_CHUNK_SIZE, |entries|);
        PieceByPiece(rows, d, entries, i, end);
        chunks := chunks[(d, count) := entries[i..end]];
        forall j | i <= j < end { ids[j] := count; }
        CountTwice(expCount, d, count, count + 1);
        count := count + 1;
        i := end;
      }
      assert entries[..i] == entries;
      expCount := Write(expCount, d, count);
    }

    /** Deletes the first entry equal to e from one chunk, and the chunk with its last entry. */
    method RemoveExpiryEntry(d: nat, chunk: nat, e: Entry)
      requires (d, chunk) in chunks ==> chunks[(d, chunk)] != []
      modifies `chunks
      ensures chunks == RemoveEntry(old(chunks), d, chunk, e)
    {
      if (d, chunk) !in chunks {
        return;
      }
      hide Without;
      var entries := chunks[(d, chunk)];
      var i := 0;
      while i < |entries|
        invariant 0 <= i <= |entries| && chunks == old(chunks)
        invariant e !in entries[..i]
      {
        if entries[i] == e {
          var rest := entries[..i] + entries[i + 1..];
          WithoutFirst(entries, i, e);
          if |rest| == 0 {
            chunks := chunks - {(d, chunk)};
          } else {
            chunks := chunks[(d, chunk) := rest];
          }
          return;
        }
        assert entries[..i + 1] == entries[..i] + [entries[i]];
        i := i + 1;
      }
      assert entries[..i] == entries;
      WithoutAbsent(entries, e);
      assert chunks[(d, chunk) := entries] == chunks;
    }

    /** Cancels a scheduled stop the walk has not reached. */
    method UnscheduleExpiry(d: nat, shares: int)
      modifies `exp
      ensures exp == if accDay > d then old(exp) else Write(old(exp), d, NotBelowZero(Read(old(exp), d) - shares))
    {
      if accDay > d {
        return;
      }
      var rest := Read(exp, d) - shares;
      if rest <= 0 {
        exp := exp - {d};
        return;
      }
      exp := exp[d := rest];
    }

    /**
     * Recycled value: into the pool, and through the accumulator. In a good state the pool
     * still covers every open mint, and the value is shared out whole or held whole.
     */
    method Recycle(amount: int)
      modifies `poolLShare, `accPerShare, `accHeld
      ensures YieldNow() == Recycled(old(YieldNow()), amount)
      ensures old(Good(YieldNow())) && 0 <= amount
              && old(poolLShare) + amount + EMISSION_CAP - emitted <= HISTORIC_HARD_CAP ==>
                Good(YieldNow()) && TakesIn(old(YieldNow()), YieldNow(), amount)
    {
      RecyclingSharesOut(YieldNow(), amount);
      hide AccumulatorStep, Good, TakesIn;
      if amount <= 0 {
        return;
      }
      poolLShare := poolLShare + amount;
      var stepped := AccumulatorStep(accPerShare, amount, accHeld, sharesTotal);
      accPerShare, accHeld := stepped.0, stepped.1;
    }

    method ScheduleOne(d: nat, e: Entry) returns (chunk: nat)
      requires d in expCount ==> expCount[d] > 0
      modifies `expCount, `chunks
      ensures Rows(chunks, expCount) == AppendRow(old(Rows(chunks, expCount)), d, e)
      ensures chunk == RowFor(old(Rows(chunks, expCount)), d)
    {
      hide RowFor, AppendRow, AppendAll;
      NothingAppended(Rows(chunks, expCount), d);
      OneAppended(Rows(chunks, expCount), d, e);
      assert [e][..0] == [];
      var ids := ScheduleExpiryEntries(d, [e]);
      chunk := ids[0];
    }

    /** A stamped mint entered in every figure and both schedules. */
    method EnterBook(stamped: Mint)
      requires var d := DueDay(genesis, hpd, stamped); d in expCount ==> expCount[d] > 0
      modifies `sharesTotal, `votes, `exp, `expCount, `chunks, `mints
      ensures BookAt(accDay, sharesTotal) == AddMint(old(BookAt(accDay, sharesTotal)), stamped)
    {
      hide DueDay, RowFor, AppendRow, Write, AddMint;
      AddMintIs(BookAt(accDay, sharesTotal), stamped);
      var d := DueDay(genesis, hpd, stamped);
      var chunk := ScheduleOne(d, EntryOf(stamped));
      votes := Write(votes, stamped.owner, Read(votes, stamped.owner) + stamped.shares);
      sharesTotal := sharesTotal + stamped.shares;
      exp := Write(exp, d, Read(exp, d) + stamped.shares);
      mints := mints + [stamped.(expChunk := chunk)];
    }

    /** The one way a mint enters state: accrual current first, then stamped with the live reading. */
    method RegisterMint(toHeight: nat, m: Mint) returns (ready: bool)
      requires Good(YieldNow())
      modifies `accDay, `sharesTotal, `votes, `exp, `expCount, `expCursor, `chunks, `accPerShare, `accHeld, `accAt,
               `poolViral, `poolDeep, `poolLiquidity, `poolLShare, `emitted, `settled, `mints
      ensures var (y, current) := Accrued(old(YieldNow()), toHeight);
              ready == current && YieldNow() == if current then Registered(y, m) else y
    {
      hide Good, Walked, AddMint, DueDay;
      ghost var y0 := YieldNow();
      ready := Accrue(toHeight);
      AccruedIsGood(y0, toHeight);
      if !ready {
        return;
      }
      GoodCountsArePositive(YieldNow());
      EnterBook(m.(accStart := accPerShare));
    }

    /**
     * What closing a mint pays out of the pool: its rise up to maturity, or up to now. A
     * matured mint whose day has not closed has no checkpoint to be paid to yet. In a good
     * state the entitlement is paid in full: the guard against overdrawing never cuts it.
     */
    method YieldOf(id: nat, matured: bool) returns (closed: bool, accrued: int)
      requires id < |mints|
      ensures var m := mints[id];
              && closed == !(matured && accDay <= YieldNow().book.MatDay(m))
              && (closed ==> accrued == Payable(YieldNow(), m, matured))
              && (Good(YieldNow()) && !m.ended && (matured <==> YieldNow().book.MatDay(m) < accDay) ==>
                    && closed && accrued == Entitlement(m.shares, m.accStart, EndAcc(YieldNow(), m)) <= poolLShare
                    && 0 <= accrued * ACC_SCALE <= m.shares * (EndAcc(YieldNow(), m) - m.accStart))
    {
      EntitledInFull(YieldNow(), id);
      hide Entitlement, DueDay, Good;
      var m := mints[id];
      var matDay, accEnd := DueDay(genesis, hpd, m), accPerShare;
      accrued := 0;
      if matured {
        if accDay <= matDay {
          return false, 0;
        }
        accEnd := Read(accAt, matDay);
      }
      accrued := Entitlement(m.shares, m.accStart, accEnd);
      if accrued > poolLShare {
        accrued := poolLShare;
      }
      closed := true;
    }

    method SetArmed(id: nat)
      requires id < |mints|
      modifies `mints
      ensures YieldNow() == old(YieldNow()).(book := ArmMint(old(YieldNow()).book, id))
    {
      mints := mints[id := mints[id].(goodAccounting := true)];
    }

    /** A closed mint's shares out of whatever the walk has not taken them from. */
    method ReleaseShares(m: Mint)
      requires var d := DueDay(genesis, hpd, m); (d, m.expChunk) in chunks ==> chunks[(d, m.expChunk)] != []
      modifies `votes, `chunks, `sharesTotal, `exp
      ensures BookAt(accDay, sharesTotal) == Released(old(BookAt(accDay, sharesTotal)), m)
    {
      hide DueDay, Write, RemoveEntry;
      var matDay := DueDay(genesis, hpd, m);
      var retiredByWalk := accDay > matDay;
      var drained := Read(expCursor, matDay) > m.expChunk;
      if !retiredByWalk && !drained {
        var left := Read(votes, m.owner) - m.shares;
        if left < 0 { left := 0; }
        votes := Write(votes, m.owner, left);
        RemoveExpiryEntry(matDay, m.expChunk, EntryOf(m));
      }
      if !retiredByWalk {
        sharesTotal := sharesTotal - m.shares;
        UnscheduleExpiry(matDay, m.shares);
      }
    }

    /** The mint ended, its yield out of the pool, its shares released. */
    method CloseRows(id: nat, accrued: int)
      requires Good(YieldNow()) && id < |mints| && accrued >= 0
      modifies `mints, `poolLShare, `votes, `chunks, `sharesTotal, `exp
      ensures YieldNow() == Taken(old(YieldNow()), id, accrued)
    {
      hide Good, DueDay, Released;
      GoodCountsArePositive(YieldNow());
      var m := mints[id];
      if accrued > 0 {
        poolLShare := poolLShare - accrued;
      }
      ReleaseShares(m);
      mints := mints[id := m.(ended := true)];
    }
  }

  lemma RecyclingSharesOut(y: Yield, amount: int)
    ensures Good(y) && 0 <= amount && y.pools.lshare + amount + EMISSION_CAP - y.emitted <= HISTORIC_HARD_CAP ==>
              Good(Recycled(y, amount)) && TakesIn(y, Recycled(y, amount), amount)
  {
    if Good(y) && 0 <= amount && y.pools.lshare + amount + EMISSION_CAP - y.emitted <= HISTORIC_HARD_CAP {
      RecycleKeepsGood(y, amount);
      PoolLeavesRoom(y, amount);
      GoodSteps(y, amount);
      RecycledIsTakenIn(y, amount);
      hide Good, TakesIn, Recycled;
    }
  }

  lemma PoolLeavesRoom(y: Yield, amount: int)
    requires Good(y) && y.pools.lshare + amount + EMISSION_CAP - y.emitted <= HISTORIC_HARD_CAP
    ensures amount <= HISTORIC_HARD_CAP
  {
    HeldIsInThePool(y);
    hide Sound, EmittedBy, Covered;
    DayEmissionIsExact(y.book.genesis, y.book.hpd, y.book.day);
  }

  lemma EntitledInFull(y: Yield, id: nat)
    requires id < |y.book.mints|
    ensures var m := y.book.mints[id];
            Good(y) && !m.ended ==>
              && 0 <= Entitlement(m.shares, m.accStart, EndAcc(y, m)) <= y.pools.lshare
              && Entitlement(m.shares, m.accStart, EndAcc(y, m)) * ACC_SCALE <= m.shares * (EndAcc(y, m) - m.accStart)
  {
    hide Entitlement, EndAcc;
    if Good(y) && !y.book.mints[id].ended { YieldIsInThePool(y, id); }
  }

  /** The walk after as many chunks of its day as its budget takes. */
  function Drained(w: Walk): Walk {
    var (b, rest) := DrainTo(w.book, w.budget);
    w.(book := b, budget := rest)
  }

  /** How the loop's result moves through one turn, wherever it stands. */
  lemma TurnOfTheLoop(y: Yield, w: Walk, target: nat, days: nat)
    requires Shape(w.book) && OnCourse(y, w)
    ensures w.book.day >= target || days == 0 ==> Loop(w, target, days) == w
    ensures w.book.day < target && days > 0 ==>
              && Loop(w, target, days)
                 == (if Drained(w).book.Pending() then Drained(w) else Loop(StepDay(Drained(w)), target, days - 1))
              && Shape(Drained(w).book) && OnCourse(y, Drained(w))
              && (!Drained(w).book.Pending() ==> Shape(StepDay(Drained(w)).book) && OnCourse(y, StepDay(Drained(w))))
  {
    hide EmittedBy, DrainTo, StepDay, Shape;
    if w.book.day < target && days > 0 {
      LoopDrains(w, target, days);
      DrainToKeeps(w.book, w.budget);
      DrainToStops(w.book, w.budget);
      DrainStaysOnCourse(y, w, DrainTo(w.book, w.budget).0, DrainTo(w.book, w.budget).1);
      if !Drained(w).book.Pending() {
        StepStaysOnCourse(y, Drained(w));
        CloseDayKeepsShape(Drained(w).book);
        StepDayBook(Drained(w));
      }
    }
  }

  lemma CloseDayFromCleared(b: Book)
    requires Shape(b)
    ensures var c := Cleared(b);
            && c.day == b.day && c.genesis == b.genesis && c.hpd == b.hpd && c.active == b.active && c.exp == b.exp
            && CloseDay(b) == if Read(c.exp, c.day) > 0
                              then c.(day := c.day + 1, active := NotBelowZero(c.active - Read(c.exp, c.day)),
                                      exp := Write(c.exp, c.day, 0))
                              else c.(day := c.day + 1)
  {
    NoCountNothingPending(b, 0);
    ClearedClosesTheSame(b);
    assert Write(Cleared(b).count, b.day, 0) == Cleared(b).count;
  }

  lemma StepDayBook(w: Walk)
    ensures StepDay(w).book == CloseDay(w.book)
  {
  }

  lemma DrainStaysOnCourse(y: Yield, w: Walk, b: Book, rest: nat)
    requires OnCourse(y, w) && b.day == w.book.day && b.genesis == w.book.genesis && b.hpd == w.book.hpd
    ensures OnCourse(y, w.(book := b, budget := rest))
  {
    hide EmittedBy;
  }

  lemma SoundIsShaped(b: Book)
    requires Sound(b)
    ensures Shape(b)
  {
  }

  lemma {:induction false} DrainToStops(b: Book, budget: nat)
    ensures var (b', rest) := DrainTo(b, budget); b'.Pending() ==> Blocked(b', rest)
    decreases ChunksLeft(b)
  {
    if b.Pending() && !Blocked(b, budget) { DrainToStops(DrainChunk(b), budget - |b.NextChunk()|); }
  }

  lemma StepDayIs(w: Walk, amount: int, lshare: int)
    requires amount == TodaysEmission(w.book) && lshare == if amount > 0 then Split(amount).lshare else 0
    ensures var (acc, held) := if lshare > 0 || w.held > 0
                               then AccumulatorStep(w.acc, lshare, w.held, w.book.active)
                               else (w.acc, w.held);
            StepDay(w) == Walk(CloseDay(w.book), acc, held,
                               if Read(w.book.exp, w.book.day) > 0 then w.accAt[w.book.day := acc] else w.accAt,
                               AddPool(w.emitted, amount), w.lshare + lshare, w.budget)
  {
  }

  lemma EmittedStaysUnderCap(y: Yield, w: Walk)
    requires OnCourse(y, w)
    ensures 0 <= y.emitted <= EMISSION_CAP && 0 <= w.emitted && y.emitted + w.emitted <= EMISSION_CAP
  {
    hide EmittedBy, DayEmission;
    DayEmissionIsExact(y.book.genesis, y.book.hpd, y.book.day);
    DayEmissionIsExact(w.book.genesis, w.book.hpd, w.book.day);
  }

  /** b with its current day's cursor stored as cur. */
  function AtCursor(b: Book, cur: int): Book { b.(cursor := Write(b.cursor, b.day, cur)) }

  lemma AtCursorTwice(b: Book, cur: int, next: int)
    ensures AtCursor(AtCursor(b, cur), next) == AtCursor(b, next)
  {
  }

  /** Storing the cursor where it already is changes nothing: absent and zero are one. */
  lemma CursorIsCanonical(b: Book)
    requires Shape(b)
    ensures AtCursor(b, Read(b.cursor, b.day)) == b
  {
  }

  lemma NoCountNothingPending(b: Book, budget: nat)
    requires Shape(b)
    ensures Read(b.cursor, b.day) >= 0 && Read(b.count, b.day) >= Read(b.cursor, b.day)
    ensures Read(b.count, b.day) == 0 ==> DrainTo(b, budget) == (b, budget) && !b.Pending() && Cleared(b) == b
  {
  }

  /** b with chunk cur of its day retired and gone; a chunk that is not there leaves it as it is. */
  function ChunkRetired(b: Book, cur: int): Book {
    if (b.day, cur) in b.chunks
    then b.(votes := RetireAll(b.votes, b.chunks[(b.day, cur)]), chunks := b.chunks - {(b.day, cur)})
    else b
  }

  /** With the cursor at cur, the stretch either stops there or goes on past the retired chunk. */
  lemma DrainAtCursor(b: Book, cur: int, left: nat)
    requires Shape(AtCursor(b, cur)) && 0 <= cur < Read(b.count, b.day)
    ensures var n := |b.ChunkAt(b.day, cur)|;
            if left < n then
              DrainTo(AtCursor(b, cur), left) == (AtCursor(b, cur), left) && AtCursor(b, cur).Pending()
            else
              && DrainTo(AtCursor(b, cur), left) == DrainTo(AtCursor(ChunkRetired(b, cur), cur + 1), left - n)
              && Shape(AtCursor(ChunkRetired(b, cur), cur + 1))
    ensures AtCursor(b, cur) == b.(cursor := Write(b.cursor, b.day, cur))
  {
    var at := AtCursor(b, cur);
    AtCursorTwice(b, cur, cur + 1);
    assert (b.day, cur) !in b.chunks ==> b.chunks - {(b.day, cur)} == b.chunks;
    assert DrainChunk(at) == AtCursor(ChunkRetired(b, cur), cur + 1);
    DrainKeepsShape(at);
  }

  lemma DoneAtCursor(b: Book, cur: int, left: nat)
    requires cur == Read(b.count, b.day) > 0
    ensures var at := AtCursor(b, cur);
            && DrainTo(at, left) == (at, left) && !at.Pending()
            && Cleared(at) == b.(count := Write(b.count, b.day, 0), cursor := Write(b.cursor, b.day, 0))
  {
    AtCursorTwice(b, cur, 0);
  }

  // ----- catching up -----

  /** One Accrue call: still good, still on the way to the same fold, and nearer if it was behind. */
  lemma AccrueOnTheWay(y: Yield, target: nat)
    requires Good(y)
    ensures var (y', caughtUp) := Walked(y, target, MAX_ACCRUAL_DAYS, USER_RETIRE_BUDGET);
            && Good(y') && DaysTo(y', target) == DaysTo(y, target) && (caughtUp <==> y'.book.day >= target)
            && (y.book.day < target ==> Nearer(y.book, y'.book, target))
  {
    hide EmittedBy, Loop, DaysTo, Sound, Solvent, Shape;
    WalkKeepsGood(y, target, MAX_ACCRUAL_DAYS, USER_RETIRE_BUDGET);
    WalkKeepsFold(y, target, MAX_ACCRUAL_DAYS, USER_RETIRE_BUDGET, target);
    if y.book.day < target {
      SoundIsShaped(y.book);
      FullChunkIsNeverBlocked(y.book, USER_RETIRE_BUDGET);
      BehindMovesExactly(y, target, MAX_ACCRUAL_DAYS, USER_RETIRE_BUDGET);
    }
  }

  lemma FoldIsThere(y: Yield, target: nat)
    requires y.book.day >= target
    ensures DaysTo(y, target) == y
  {
  }

  // ----- one entry at a time -----

  function AppendAll(r: Rows, d: int, es: seq<Entry>): Rows {
    if es == [] then r else AppendRow(AppendAll(r, d, es[..|es| - 1]), d, es[|es| - 1])
  }

  lemma NothingAppended(r: Rows, d: int)
    ensures AppendAll(r, d, []) == r
  {
  }

  lemma {:induction false} AppendMore(r: Rows, d: int, x: seq<Entry>, y: seq<Entry>)
    ensures AppendAll(r, d, x + y) == AppendAll(AppendAll(r, d, x), d, y)
  {
    hide AppendRow;
    if y == [] {
      assert x + y == x;
    } else {
      AppendMore(r, d, x, y[..|y| - 1]);
      assert (x + y)[..|x + y| - 1] == x + y[..|y| - 1];
    }
  }

  lemma CountItself(count: map<int, int>, d: int)
    requires d in count ==> count[d] > 0
    ensures Write(count, d, Read(count, d)) == count
  {
  }

  lemma CountTwice(count: map<int, int>, d: int, m: int, n: int)
    ensures Write(Write(count, d, m), d, n) == Write(count, d, n)
  {
  }

  lemma LastChunkOrNew(r: Rows, d: int)
    requires Read(r.count, d) >= 0
    ensures var n := Read(r.count, d);
            if n > 0 && (d, n - 1) in r.chunks && |r.chunks[(d, n - 1)]| < EXPIRY_CHUNK_SIZE
            then RowFor(r, d) == n - 1 else RowFor(r, d) == n
  {
  }

  /** Topping up the last chunk at once is appending the entries one at a time. */
  lemma {:induction false} FillsLast(r: Rows, d: int, es: seq<Entry>)
    requires var last := Read(r.count, d) - 1;
             last >= 0 && (d, last) in r.chunks && |r.chunks[(d, last)]| + |es| <= EXPIRY_CHUNK_SIZE
    ensures var last := Read(r.count, d) - 1;
            && AppendAll(r, d, es) == r.(chunks := r.chunks[(d, last) := r.chunks[(d, last)] + es])
            && forall j | 0 <= j < |es| :: RowFor(AppendAll(r, d, es[..j]), d) == last
  {
    var last := Read(r.count, d) - 1;
    if es == [] {
      assert r.chunks[(d, last)] + es == r.chunks[(d, last)];
      assert r.chunks[(d, last) := r.chunks[(d, last)]] == r.chunks;
    } else {
      var front, e := es[..|es| - 1], es[|es| - 1];
      FillsLast(r, d, front);
      forall j | 0 <= j < |front| ensures front[..j] == es[..j] { }
      var before := AppendAll(r, d, front);
      assert before.chunks[(d, last)] + [e] == r.chunks[(d, last)] + es;
    }
  }

  lemma OneAppended(r: Rows, d: int, e: Entry)
    ensures AppendAll(r, d, [e]) == AppendRow(r, d, e)
  {
    hide AppendRow;
    assert [e][..0] == [];
    NothingAppended(r, d);
  }

  lemma OpensWithFirst(r: Rows, d: int, e: Entry)
    requires Read(r.count, d) >= 0 && RowFor(r, d) == Read(r.count, d)
    ensures var n := Read(r.count, d);
            AppendAll(r, d, [e]) == Rows(r.chunks[(d, n) := [e]], Write(r.count, d, n + 1))
  {
    hide AppendAll, RowFor;
    OneAppended(r, d, e);
  }

  /** The rows after a new chunk of day d took `es` at once. */
  function Opened(r: Rows, d: int, es: seq<Entry>): Rows {
    Rows(r.chunks[(d, Read(r.count, d)) := es], Write(r.count, d, Read(r.count, d) + 1))
  }

  lemma OpensRows(r: Rows, d: int, es: seq<Entry>)
    requires Read(r.count, d) >= 0 && RowFor(r, d) == Read(r.count, d) && 1 <= |es| <= EXPIRY_CHUNK_SIZE
    ensures AppendAll(r, d, es) == Opened(r, d, es)
    ensures forall j | 1 <= j < |es| :: RowFor(AppendAll(r, d, es[..j]), d) == Read(r.count, d)
  {
    hide AppendAll, AppendRow, RowFor;
    var n, first, rest := Read(r.count, d), [es[0]], es[1..];
    var one := Opened(r, d, first);
    assert first + rest == es;
    OpensWithFirst(r, d, es[0]);
    AppendMore(r, d, first, rest);
    FillsLast(one, d, rest);
    forall j | 1 <= j < |es| ensures RowFor(AppendAll(r, d, es[..j]), d) == n {
      AppendMore(r, d, first, rest[..j - 1]);
      assert first + rest[..j - 1] == es[..j];
    }
  }

  /** Writing up to a whole new chunk at once is appending its entries one at a time. */
  lemma OpensNew(r: Rows, d: int, es: seq<Entry>)
    requires Read(r.count, d) >= 0 && RowFor(r, d) == Read(r.count, d) && 1 <= |es| <= EXPIRY_CHUNK_SIZE
    ensures var n := Read(r.count, d);
            && AppendAll(r, d, es) == Opened(r, d, es)
            && (forall j | 0 <= j < |es| :: RowFor(AppendAll(r, d, es[..j]), d) == n)
            && (|es| == EXPIRY_CHUNK_SIZE ==> RowFor(AppendAll(r, d, es), d) == n + 1)
  {
    hide AppendAll, AppendRow, RowFor;
    OpensRows(r, d, es);
    NothingAppended(r, d);
    assert es[..0] == [];
    LastChunkOrNew(Opened(r, d, es), d);
  }

  lemma PieceByPiece(r: Rows, d: int, entries: seq<Entry>, i: nat, end: nat)
    requires i < end <= |entries| && end - i <= EXPIRY_CHUNK_SIZE && (end - i < EXPIRY_CHUNK_SIZE ==> end == |entries|)
    requires var before := AppendAll(r, d, entries[..i]);
             Read(before.count, d) >= 0 && RowFor(before, d) == Read(before.count, d)
    ensures var before := AppendAll(r, d, entries[..i]);
            var n := Read(before.count, d);
            && AppendAll(r, d, entries[..end]) == Opened(before, d, entries[i..end])
            && (forall j | i <= j < end :: RowFor(AppendAll(r, d, entries[..j]), d) == n)
            && (end < |entries| ==> RowFor(AppendAll(r, d, entries[..end]), d) == n + 1)
  {
    hide AppendAll, AppendRow, RowFor;
    var before, piece := AppendAll(r, d, entries[..i]), entries[i..end];
    OpensNew(before, d, piece);
    AppendMore(r, d, entries[..i], piece);
    assert entries[..i] + piece == entries[..end];
    forall j | i <= j < end ensures RowFor(AppendAll(r, d, entries[..j]), d) == Read(before.count, d) {
      AppendMore(r, d, entries[..i], piece[..j - i]);
      assert entries[..i] + piece[..j - i] == entries[..j];
    }
  }

  // ----- registering -----

  lemma AccruedIsGood(y: Yield, height: nat)
    requires Good(y)
    ensures Good(Accrued(y, height).0)
  {
    hide Good, Walked;
    WalkKeepsGood(y, TargetDay(y.book, height), MAX_ACCRUAL_DAYS, USER_RETIRE_BUDGET);
  }

  lemma AddMintIs(b: Book, m: Mint)
    ensures var d := b.MatDay(m);
            var rows := AppendRow(Rows(b.chunks, b.count), d, EntryOf(m));
            AddMint(b, m)
            == Book(b.genesis, b.hpd, b.day, b.active + m.shares,
                    Write(b.votes, m.owner, Read(b.votes, m.owner) + m.shares),
                    Write(b.exp, d, Read(b.exp, d) + m.shares), rows.count, b.cursor, rows.chunks,
                    b.mints + [m.(expChunk := RowFor(Rows(b.chunks, b.count), d))])
  {
    hide Write, AppendRow, RowFor, DueDay;
  }

  lemma GoodCountsArePositive(y: Yield)
    requires Good(y)
    ensures forall d | d in y.book.count :: y.book.count[d] > 0
    ensures forall k | k in y.book.chunks :: y.book.chunks[k] != []
  {
  }

  lemma {:induction false} WithoutFirst(es: seq<Entry>, i: nat, e: Entry)
    requires i < |es| && es[i] == e && e !in es[..i]
    ensures Without(es, e) == es[..i] + es[i + 1..]
  {
    if i > 0 {
      assert es[1..][..i - 1] == es[..i][1..];
      assert es[0] == es[..i][0];
      WithoutFirst(es[1..], i - 1, e);
      assert es[1..][i..] == es[i + 1..] && [es[0]] + es[..i][1..] == es[..i];
    }
  }

  lemma {:induction false} WithoutAbsent(es: seq<Entry>, e: Entry)
    requires e !in es
    ensures Without(es, e) == es
  {
    if es != [] {
      WithoutAbsent(es[1..], e);
      assert [es[0]] + es[1..] == es;
    }
  }
}
