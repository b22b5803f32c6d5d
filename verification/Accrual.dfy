/**
 * The accrual walk: whole days stepped in bounded slices, expiry lists drained chunk by
 * chunk with a stored cursor, and the four pools credited once per slice. Walked is what
 * one call does; DaysTo is the plain day-by-day fold every slicing must agree with.
 */
module Accrual {
  import opened Units
  import opened Emission
  import opened Accumulator
  import opened LShare
  import opened ShareBook
  import opened ProofOfBrain

  const MAX_ACCRUAL_DAYS := 1200
  const MAX_RETIRE_PER_WALK := 50
  const USER_RETIRE_BUDGET := EXPIRY_CHUNK_SIZE

  datatype Pools = Pools(viral: int, deep: int, liquidity: int, lshare: int)

  /** Everything the walk reads and writes. */
  datatype Yield = Yield(
    book: Book, acc: int, held: int, accAt: map<int, int>, pools: Pools, emitted: int, settled: nat)
  {
    function DayEnd(): nat { HeightOfDay(book.genesis, book.hpd, book.day) }
  }

  function InitialYield(genesis: nat, hpd: nat): Yield {
    Yield(EmptyBook(genesis, hpd), 0, 0, map[], Pools(0, 0, 0, 0), 0, genesis)
  }

  function HeightOfDay(genesis: nat, hpd: nat, day: nat): nat { genesis + day * hpd }

  function AddPool(pool: int, amount: int): int { if amount > 0 then pool + amount else pool }

  function Credited(p: Pools, emitted: int, lshare: int): Pools {
    var split := Split(emitted);
    var (viral, deep) := SplitPoB(split.proofOfBrain);
    Pools(AddPool(p.viral, viral), AddPool(p.deep, deep),
          AddPool(p.liquidity, split.liquidity), AddPool(p.lshare, lshare))
  }

  function DayEmission(genesis: nat, hpd: nat, day: nat): int {
    EmissionBetween(DefaultSchedule(genesis), HeightOfDay(genesis, hpd, day), HeightOfDay(genesis, hpd, day + 1))
  }

  function TodaysEmission(b: Book): int { DayEmission(b.genesis, b.hpd, b.day) }

  // ----- one call of the walk -----

  /** The walk's locals, with the rows it has already written. */
  datatype Walk = Walk(
    book: Book, acc: int, held: int, accAt: map<int, int>, emitted: int, lshare: int, budget: nat)

  function Start(y: Yield, budget: nat): Walk { Walk(y.book, y.acc, y.held, y.accAt, 0, 0, budget) }

  function TodaysLShare(b: Book): int { if TodaysEmission(b) > 0 then Split(TodaysEmission(b)).lshare else 0 }

  function Stepped(acc: int, held: int, lshare: int, active: int): (int, int) {
    if lshare > 0 || held > 0 then AccumulatorStep(acc, lshare, held, active) else (acc, held)
  }

  /** A day whose list is drained: its emission distributed, its checkpoint written, its shares stopped. */
  function StepDay(w: Walk): Walk {
    var day, lshare := w.book.day, TodaysLShare(w.book);
    var (acc, held) := Stepped(w.acc, w.held, lshare, w.book.active);
    w.(book := CloseDay(w.book), acc := acc, held := held,
       accAt := if Read(w.book.exp, day) > 0 then w.accAt[day := acc] else w.accAt,
       emitted := AddPool(w.emitted, TodaysEmission(w.book)), lshare := w.lshare + lshare)
  }

  /** The next chunk of the current day does not fit what is left of the retire budget. */
  predicate Blocked(b: Book, budget: nat) { b.Pending() && budget < |b.NextChunk()| }

  function ChunksLeft(b: Book): nat {
    if b.Pending() then Read(b.count, b.day) - Read(b.cursor, b.day) else 0
  }

  function DrainStep(w: Walk): Walk
    requires !Blocked(w.book, w.budget)
  {
    if w.book.Pending() then w.(book := DrainChunk(w.book), budget := w.budget - |w.book.NextChunk()|) else w
  }

  function Loop(w: Walk, target: nat, days: nat): Walk
    decreases days, ChunksLeft(w.book)
  {
    if w.book.day >= target || days == 0 || Blocked(w.book, w.budget) then w
    else if w.book.Pending() then Loop(DrainStep(w), target, days)
    else Loop(StepDay(w), target, days - 1)
  }

  /** The walk's results written back: pools credited once, from the totals of the whole call. */
  function Commit(y: Yield, w: Walk): Yield {
    Yield(w.book, w.acc, w.held, w.accAt,
          if w.emitted > 0 then Credited(y.pools, w.emitted, w.lshare) else y.pools,
          y.emitted + w.emitted, HeightOfDay(w.book.genesis, w.book.hpd, w.book.day))
  }

  function CappedDays(days: int): nat { if days <= 0 || days > MAX_ACCRUAL_DAYS then MAX_ACCRUAL_DAYS else days }

  /** One call toward day `target`: the new state, and whether it caught up. */
  function Walked(y: Yield, target: nat, days: int, budget: nat): (Yield, bool) {
    if y.book.day >= target then (y, true)
    else
      var y' := Commit(y, Loop(Start(y, budget), target, CappedDays(days)));
      (y', y'.book.day >= target)
  }

  function TargetDay(b: Book, height: nat): nat { DayOf(b.genesis, b.hpd, height) }

  /** Accrue: what every ordinary transaction carries. */
  function Accrued(y: Yield, height: nat): (Yield, bool) {
    Walked(y, TargetDay(y.book, height), MAX_ACCRUAL_DAYS, USER_RETIRE_BUDGET)
  }

  // ----- the plain fold -----

  function DrainAll(b: Book): Book
    decreases ChunksLeft(b)
  {
    if b.Pending() then DrainAll(DrainChunk(b)) else b
  }

  /** One day on its own: its whole list retired, its emission split and credited by itself. */
  function FinishDay(y: Yield): Yield { Commit(y, StepDay(Start(y, 0))) }

  function DayStep(y: Yield): Yield { FinishDay(y.(book := DrainAll(y.book))) }

  lemma {:induction false} DrainAllKeepsDay(b: Book)
    ensures DrainAll(b).day == b.day && !DrainAll(b).Pending()
    decreases ChunksLeft(b)
  {
    if b.Pending() { DrainAllKeepsDay(DrainChunk(b)); }
  }

  function DaysTo(y: Yield, last: nat): Yield
    decreases last - y.book.day
  {
    if y.book.day >= last then y
    else
      DrainAllKeepsDay(y.book);
      DaysTo(DayStep(y), last)
  }

  // ----- a day's emission -----

  predicate ClockOk(b: Book) { GoodClock(b.hpd) && b.genesis < TWO_64 }

  /** Everything issued up to the start of a day. */
  ghost function EmittedBy(genesis: nat, hpd: nat, day: nat): int {
    TotalEmittedAt(DefaultSchedule(genesis), HeightOfDay(genesis, hpd, day))
  }

  lemma DaysTileTheEra(hpd: nat, day: nat)
    requires GoodClock(hpd)
    ensures var n := day * hpd / HEIGHTS_PER_ERA;
            n * HEIGHTS_PER_ERA <= day * hpd && (day + 1) * hpd <= (n + 1) * HEIGHTS_PER_ERA
  {
    var k := HEIGHTS_PER_ERA / hpd;
    assert k * hpd == HEIGHTS_PER_ERA;
    FloorBounds(day, k);
    var q := day / k;
    MulMono(hpd, q * k, day);
    MulMono(hpd, day + 1, (q + 1) * k);
    Regroup(q, k, hpd);
    Regroup(q + 1, k, hpd);
    Distribute(day, 1, hpd);
    FloorUnique(day * hpd, HEIGHTS_PER_ERA, q);
  }

  lemma Regroup(a: int, b: int, c: int)
    ensures a * b * c == a * (b * c)
  {
  }

  lemma MultipleOfEight(k: int, hpd: nat)
    requires hpd % 8 == 0
    ensures k * hpd % 8 == 0
  {
    var e := hpd / 8;
    assert k * hpd == k * e * 8;
  }

  /** A whole day never straddles two eras, so its emission is a multiple of eight. */
  lemma DayEmissionIsExact(genesis: nat, hpd: nat, day: nat)
    requires GoodClock(hpd) && genesis < TWO_64
    ensures DayEmission(genesis, hpd, day) == EmittedBy(genesis, hpd, day + 1) - EmittedBy(genesis, hpd, day)
    ensures DayEmission(genesis, hpd, day) % 8 == 0
    ensures 0 <= EmittedBy(genesis, hpd, day) <= EmittedBy(genesis, hpd, day + 1) <= EMISSION_CAP
  {
    hide TotalEmittedAt, RewardPerHeight;
    var s, n := DefaultSchedule(genesis), day * hpd / HEIGHTS_PER_ERA;
    var lo, hi := HeightOfDay(genesis, hpd, day), HeightOfDay(genesis, hpd, day + 1);
    Distribute(day, 1, hpd);
    DaysTileTheEra(hpd, day);
    EmissionMonotone(s, lo, hi);
    StraightInsideEra(s, n, lo, hi);
    MultipleOfEight(RewardPerHeight(s, n), hpd);
  }

  // ----- crediting once per call -----

  /** What a credit of x adds, pool by pool, when x is a multiple of eight: an eighth, three eighths, a quarter. */
  lemma CreditOfEighths(p: Pools, x: int)
    requires 0 <= x <= MAX_AMOUNT && x % 8 == 0
    ensures Credited(p, x, x / 4)
            == Pools(p.viral + x / 8, p.deep + 3 * (x / 8), p.liquidity + x / 4, p.lshare + x / 4)
    ensures Split(x).lshare == x / 4
    ensures x / 8 + 3 * (x / 8) + x / 4 + x / 4 == x
  {
    hide Split, SplitPoB;
    var e := x / 8;
    assert x == 8 * e && x / 4 == 2 * e;
    SplitConserves(x);
    SplitsConserve(4 * e);
  }

  lemma CreditsAdd(p: Pools, x: int, z: int)
    requires 0 <= x && 0 <= z && x + z <= MAX_AMOUNT && x % 8 == 0 && z % 8 == 0
    ensures Credited(Credited(p, x, x / 4), z, z / 4) == Credited(p, x + z, x / 4 + z / 4)
    ensures Credited(p, 0, 0) == p
  {
    hide Credited;
    var e, f := x / 8, z / 8;
    assert x == 8 * e && z == 8 * f;
    CreditOfEighths(p, 0);
    CreditOfEighths(p, 8 * e);
    CreditOfEighths(p, 8 * (e + f));
    CreditOfEighths(Credited(p, x, x / 4), 8 * f);
  }

  /** The three credits a walk makes from its total. */
  function OnceCredit(x: int): (int, int, int) {
    var split := Split(x);
    var (viral, deep) := SplitPoB(split.proofOfBrain);
    (viral, deep, split.liquidity)
  }

  predicate OnceIsDaily(x: int, k: nat) {
    var (viral, deep, liquidity) := OnceCredit(x);
    OnceCredit(k * x) == (k * viral, k * deep, k * liquidity)
  }

  lemma OnceCreditIs(x: int)
    requires 0 <= x <= MAX_AMOUNT
    ensures var pob := x - x / 4 - x / 4;
            OnceCredit(x) == (pob / 4, pob - pob / 4, x / 4) && 0 <= pob
  {
    SplitConserves(x);
    SplitsConserve(Split(x).proofOfBrain);
  }

  lemma OnceCreditOfEighths(e: int)
    requires 0 <= e && 8 * e <= MAX_AMOUNT
    ensures OnceCredit(8 * e) == (e, 3 * e, 2 * e)
  {
    hide OnceCredit;
    OnceCreditIs(8 * e);
  }

  lemma EighthsAreExact(e: int, k: nat)
    requires 0 <= e && k * (8 * e) <= MAX_AMOUNT && 8 * e <= MAX_AMOUNT
    ensures OnceIsDaily(8 * e, k)
  {
    hide OnceCredit;
    MulMono(k, 0, e);
    assert k * (8 * e) == 8 * (k * e) && k * (3 * e) == 3 * (k * e) && k * (2 * e) == 2 * (k * e);
    OnceCreditOfEighths(e);
    OnceCreditOfEighths(k * e);
  }

  lemma OtherwiseEightDaysDiffer(x: int)
    requires 0 <= x && 8 * x <= MAX_AMOUNT && OnceIsDaily(x, 8)
    ensures x % 8 == 0
  {
    hide OnceCredit;
    OnceCreditIs(x);
    OnceCreditOfEighths(x);
  }

  /**
   * Crediting the pools once per call equals crediting them day by day, for every number
   * of equal days, exactly when a day's emission is a multiple of eight.
   */
  lemma OncePerCallIsExact(x: int)
    requires 0 <= x && 8 * x <= MAX_AMOUNT
    ensures (forall k: nat | k * x <= MAX_AMOUNT :: OnceIsDaily(x, k)) <==> x % 8 == 0
  {
    hide OnceIsDaily;
    if x % 8 == 0 {
      assert x == 8 * (x / 8);
      forall k: nat | k * x <= MAX_AMOUNT ensures OnceIsDaily(x, k) {
        EighthsAreExact(x / 8, k);
      }
    } else if forall k: nat | k * x <= MAX_AMOUNT :: OnceIsDaily(x, k) {
      assert 8 * x <= MAX_AMOUNT && OnceIsDaily(x, 8);
      OtherwiseEightDaysDiffer(x);
    }
  }

  // ----- slicing independence -----

  /** Emission counter and settled height are where the day says. */
  ghost predicate OnClock(y: Yield) {
    ClockOk(y.book) && y.emitted == EmittedBy(y.book.genesis, y.book.hpd, y.book.day) && y.settled == y.DayEnd()
  }

  /** What a walk begun at y has gathered so far is the emission of the days it finished. */
  ghost predicate OnCourse(y: Yield, w: Walk) {
    && OnClock(y) && w.book.genesis == y.book.genesis && w.book.hpd == y.book.hpd
    && y.emitted + w.emitted == EmittedBy(w.book.genesis, w.book.hpd, w.book.day)
    && 0 <= w.emitted <= EMISSION_CAP && w.emitted % 8 == 0 && w.lshare == w.emitted / 4
  }

  lemma StartsOnCourse(y: Yield, budget: nat)
    requires OnClock(y)
    ensures OnCourse(y, Start(y, budget)) && Commit(y, Start(y, budget)) == y
  {
  }

  lemma EighthsAdd(a: int, b: int)
    requires 0 <= a && 0 <= b && a % 8 == 0 && b % 8 == 0
    ensures (a + b) % 8 == 0 && (a + b) / 4 == a / 4 + b / 4 && 0 / 4 == 0
  {
  }

  lemma TodaysShare(b: Book)
    requires ClockOk(b)
    ensures TodaysLShare(b) == TodaysEmission(b) / 4
  {
    hide DayEmission, EmittedBy, Split;
    DayEmissionIsExact(b.genesis, b.hpd, b.day);
    CreditOfEighths(Pools(0, 0, 0, 0), TodaysEmission(b));
  }

  lemma StepStaysOnCourse(y: Yield, w: Walk)
    requires OnCourse(y, w)
    ensures OnCourse(y, StepDay(w))
    ensures OnClock(Commit(y, w))
  {
    hide DayEmission, EmittedBy, Credited, Stepped, TodaysLShare;
    DayEmissionIsExact(y.book.genesis, y.book.hpd, y.book.day);
    DayEmissionIsExact(w.book.genesis, w.book.hpd, w.book.day);
    TodaysShare(w.book);
    EighthsAdd(w.emitted, TodaysEmission(w.book));
  }

  lemma StepIsFinishDay(y: Yield, w: Walk)
    requires OnCourse(y, w)
    ensures Commit(y, StepDay(w)) == FinishDay(Commit(y, w))
  {
    hide DayEmission, EmittedBy, Credited, TodaysLShare, Stepped, CloseDay;
    var x := TodaysEmission(w.book);
    DayEmissionIsExact(y.book.genesis, y.book.hpd, y.book.day);
    DayEmissionIsExact(w.book.genesis, w.book.hpd, w.book.day);
    TodaysShare(w.book);
    CreditsAdd(y.pools, w.emitted, x);
    CreditsAdd(y.pools, 0, x);
  }

  lemma DrainKeepsFold(y: Yield, last: nat)
    requires y.book.Pending() && y.book.day < last
    ensures DaysTo(y.(book := DrainChunk(y.book)), last) == DaysTo(y, last)
  {
    hide DrainChunk, StepDay;
    assert DrainAll(y.book) == DrainAll(DrainChunk(y.book));
    assert DayStep(y.(book := DrainChunk(y.book))) == DayStep(y);
    DrainChunkFrame(y.book);
  }

  lemma DrainChunkFrame(b: Book)
    ensures DrainChunk(b).day == b.day && DrainChunk(b).genesis == b.genesis && DrainChunk(b).hpd == b.hpd
    ensures b.Pending() ==> ChunksLeft(DrainChunk(b)) < ChunksLeft(b)
  {
  }

  lemma FinishKeepsFold(y: Yield, last: nat)
    requires !y.book.Pending() && y.book.day < last
    ensures DaysTo(FinishDay(y), last) == DaysTo(y, last)
  {
    hide StepDay, Commit;
    assert y.(book := DrainAll(y.book)) == y;
  }

  /**
   * Wherever a call stops, even in the middle of a list, the fold from there ends where the fold
   * from its start ends.
   */
  lemma {:induction false} LoopKeepsFold(y: Yield, w: Walk, target: nat, days: nat, last: nat)
    requires OnCourse(y, w) && target <= last
    ensures OnCourse(y, Loop(w, target, days))
    ensures DaysTo(Commit(y, Loop(w, target, days)), last) == DaysTo(Commit(y, w), last)
    decreases days, ChunksLeft(w.book)
  {
    hide EmittedBy, StepDay, DaysTo, DrainChunk, FinishDay;
    if w.book.day >= target || days == 0 || Blocked(w.book, w.budget) {
    } else if w.book.Pending() {
      var w' := DrainStep(w);
      DrainChunkFrame(w.book);
      LoopKeepsFold(y, w', target, days, last);
      DrainKeepsFold(Commit(y, w), last);
      assert Commit(y, w') == Commit(y, w).(book := DrainChunk(w.book));
    } else {
      StepStaysOnCourse(y, w);
      StepIsFinishDay(y, w);
      LoopKeepsFold(y, StepDay(w), target, days - 1, last);
      FinishKeepsFold(Commit(y, w), last);
    }
  }

  lemma WalkKeepsFold(y: Yield, target: nat, days: int, budget: nat, last: nat)
    requires OnClock(y) && target <= last
    ensures OnClock(Walked(y, target, days, budget).0)
    ensures DaysTo(Walked(y, target, days, budget).0, last) == DaysTo(y, last)
  {
    hide EmittedBy, Loop, DaysTo;
    StartsOnCourse(y, budget);
    LoopKeepsFold(y, Start(y, budget), target, CappedDays(days), last);
  }

  datatype Slice = Slice(target: nat, days: int, budget: nat)

  function Slices(y: Yield, calls: seq<Slice>): Yield {
    if calls == [] then y
    else
      var c := calls[|calls| - 1];
      Walked(Slices(y, calls[..|calls| - 1]), c.target, c.days, c.budget).0
  }

  /**
   * Slicing independence: whatever calls are made toward days up to `last`, with whatever
   * day caps and retire budgets, once day `last` is reached everything the walk owns is
   * what the plain day-by-day fold leaves; and until then it is on the way there.
   */
  lemma {:induction false} SlicingIndependence(y: Yield, calls: seq<Slice>, last: nat)
    requires OnClock(y) && forall c | c in calls :: c.target <= last
    ensures OnClock(Slices(y, calls))
    ensures DaysTo(Slices(y, calls), last) == DaysTo(y, last)
    ensures Slices(y, calls).book.day >= last ==> Slices(y, calls) == DaysTo(y, last)
  {
    if calls != [] {
      var front, c := calls[..|calls| - 1], calls[|calls| - 1];
      assert forall d | d in front :: d in calls;
      SlicingIndependence(y, front, last);
      WalkKeepsFold(Slices(y, front), c.target, c.days, c.budget, last);
    }
  }

  // ----- progress -----

  /** Fewer days to go, or the same day with fewer chunks. */
  predicate Nearer(b: Book, b': Book, target: nat) {
    b.day < b'.day <= target || (b'.day == b.day && ChunksLeft(b') < ChunksLeft(b))
  }

  lemma {:induction false} LoopGetsNearer(w: Walk, target: nat, days: nat)
    requires w.book.day < target && days > 0
    ensures var w' := Loop(w, target, days);
            if Blocked(w.book, w.budget) then w' == w else Nearer(w.book, w'.book, target)
    decreases days, ChunksLeft(w.book)
  {
    if !Blocked(w.book, w.budget) {
      if w.book.Pending() {
        LoopGetsNearer(DrainStep(w), target, days);
      } else if days > 1 && w.book.day + 1 < target {
        LoopGetsNearer(StepDay(w), target, days - 1);
      }
    }
  }

  /**
   * A call that is behind gets nearer exactly when the chunk it stopped at fits its
   * budget; otherwise it changes nothing. Any budget of one full chunk always moves a
   * sound book; being a multiple of the chunk size is not needed.
   */
  lemma BehindMovesExactly(y: Yield, target: nat, days: int, budget: nat)
    requires OnClock(y) && y.book.day < target
    ensures var y' := Walked(y, target, days, budget).0;
            && (Nearer(y.book, y'.book, target) <==> !Blocked(y.book, budget))
            && (Blocked(y.book, budget) ==> y' == y)
  {
    LoopGetsNearer(Start(y, budget), target, CappedDays(days));
    StartsOnCourse(y, budget);
  }

  lemma FullChunkIsNeverBlocked(b: Book, budget: nat)
    requires Shape(b) && budget >= EXPIRY_CHUNK_SIZE
    ensures !Blocked(b, budget)
  {
  }

  /** How many entries the walk retires between b and the start of day `target`. */
  function Work(b: Book, target: nat): nat
    decreases if b.day < target then target - b.day else 0, ChunksLeft(b)
  {
    if b.day >= target then 0
    else if b.Pending() then |b.NextChunk()| + Work(DrainChunk(b), target)
    else Work(CloseDay(b), target)
  }

  lemma {:induction false} LoopReaches(w: Walk, target: nat, days: nat, d: nat)
    ensures Loop(w, target, days).book.day >= d
            <==> w.book.day >= d
                 || (d <= target && d - w.book.day <= days && Work(w.book, d) <= w.budget)
    decreases days, ChunksLeft(w.book)
  {
    hide DrainChunk, CloseDay;
    if w.book.day < target && days > 0 && !Blocked(w.book, w.budget) {
      DrainChunkFrame(w.book);
      StepDayOpensNext(w);
      if w.book.Pending() {
        LoopReaches(DrainStep(w), target, days, d);
      } else {
        LoopReaches(StepDay(w), target, days - 1, d);
      }
    }
  }

  lemma StepDayOpensNext(w: Walk)
    ensures StepDay(w).book == CloseDay(w.book) && StepDay(w).budget == w.budget
            && CloseDay(w.book).day == w.book.day + 1
  {
  }

  /** What a call retired, and what is left to retire, are what there was. */
  lemma {:induction false} LoopWorks(w: Walk, target: nat, days: nat, last: nat)
    requires target <= last
    ensures var w' := Loop(w, target, days);
            w'.budget <= w.budget && Work(w'.book, last) + (w.budget - w'.budget) == Work(w.book, last)
    decreases days, ChunksLeft(w.book)
  {
    hide DrainChunk, CloseDay;
    if w.book.day < target && days > 0 && !Blocked(w.book, w.budget) {
      DrainChunkFrame(w.book);
      StepDayOpensNext(w);
      if w.book.Pending() {
        LoopWorks(DrainStep(w), target, days, last);
      } else {
        LoopWorks(StepDay(w), target, days - 1, last);
      }
    }
  }

  /**
   * How far a call walks, to the day: it closes day after day up to its target, as long as
   * the days are within its cap, the caller's own from 1 to 1200 and 1200 otherwise, and
   * the retirements among them within its budget.
   */
  lemma WalksAsFarAsExactly(y: Yield, target: nat, days: int, budget: nat, d: nat)
    ensures Walked(y, target, days, budget).0.book.day >= d
            <==> y.book.day >= d
                 || (d <= target && d - y.book.day <= (if 0 < days <= 1200 then days else 1200)
                     && Work(y.book, d) <= budget)
  {
    hide Loop, Work;
    if y.book.day < target { LoopReaches(Start(y, budget), target, CappedDays(days), d); }
  }

  /** A call never closes more days than its caller allows, nor ever more than 1200. */
  lemma DaysAreCapped(y: Yield, target: nat, days: int, budget: nat)
    ensures var day := Walked(y, target, days, budget).0.book.day;
            && y.book.day <= day <= y.book.day + 1200 && (0 < days ==> day <= y.book.day + days)
            && (y.book.day < target ==> day <= target)
  {
    hide Loop, Work, Walked;
    var reached := Walked(y, target, days, budget).0.book.day;
    WalksAsFarAsExactly(y, target, days, budget, reached);
    WalksAsFarAsExactly(y, target, days, budget, y.book.day);
  }

  /** A call catches up exactly when its day cap covers the days behind and its budget every retirement among them. */
  lemma CatchesUpExactly(y: Yield, target: nat, days: int, budget: nat)
    ensures Walked(y, target, days, budget).1
            <==> y.book.day >= target
                 || (target - y.book.day <= (if 0 < days <= 1200 then days else 1200)
                     && Work(y.book, target) <= budget)
  {
    hide Loop, Work;
    WalksAsFarAsExactly(y, target, days, budget, target);
  }

  /** What every ordinary transaction carries closes up to 1200 days and retires up to 25 entries. */
  lemma OrdinaryCallCatchesUpExactly(y: Yield, height: nat)
    ensures var target := TargetDay(y.book, height);
            Accrued(y, height).1
            <==> y.book.day >= target || (target - y.book.day <= 1200 && Work(y.book, target) <= 25)
  {
    hide Work, Walked;
    CatchesUpExactly(y, TargetDay(y.book, height), 1200, 25);
  }

  /** No call ever adds to the work ahead. */
  lemma WalkLessensWork(y: Yield, target: nat, days: int, budget: nat, last: nat)
    requires target <= last
    ensures Work(Walked(y, target, days, budget).0.book, last) <= Work(y.book, last)
    ensures Walked(y, target, days, budget).0.book.day >= y.book.day
  {
    hide Loop, Work;
    LoopWorks(Start(y, budget), target, CappedDays(days), last);
    LoopFrame(Start(y, budget), target, CappedDays(days));
  }

  // ----- solvency -----

  /** Recycled value: into the pool, and through the accumulator like any inflow. */
  function Recycled(y: Yield, amount: int): Yield {
    if amount <= 0 then y
    else
      var (acc, held) := AccumulatorStep(y.acc, amount, y.held, y.book.active);
      y.(pools := y.pools.(lshare := y.pools.lshare + amount), acc := acc, held := held)
  }

  /** The reading a mint is paid to: its maturity day's checkpoint once the walk has passed it, else the live one. */
  function EndAcc(y: Yield, m: Mint): int {
    if y.book.MatDay(m) < y.book.day then Read(y.accAt, y.book.MatDay(m)) else y.acc
  }

  /** What an open mint has earned, in accumulator units. */
  ghost function Earned(y: Yield): Mint -> int {
    (m: Mint) => if m.ended then 0 else m.shares * (EndAcc(y, m) - m.accStart)
  }

  ghost predicate Readings(y: Yield) {
    forall j | 0 <= j < |y.book.mints| && !y.book.mints[j].ended ::
      0 <= y.book.mints[j].accStart <= EndAcc(y, y.book.mints[j]) <= y.acc && y.book.mints[j].shares <= MAX_AMOUNT
  }

  /** The L-Share pool covers everything every open mint has earned, and everything still held. */
  ghost predicate Covered(y: Yield) {
    Total(y.book.mints, Earned(y)) + y.held * ACC_SCALE <= y.pools.lshare * ACC_SCALE
  }

  ghost predicate Solvent(y: Yield) {
    && 0 <= y.acc <= MAX_AMOUNT && 0 <= y.held && 0 <= y.book.active <= MAX_AMOUNT
    && y.pools.lshare + EMISSION_CAP - y.emitted <= HISTORIC_HARD_CAP
    && Readings(y) && Covered(y)
  }

  lemma EarnedIsNonNegative(y: Yield)
    requires Sound(y.book) && Readings(y)
    ensures forall j | 0 <= j < |y.book.mints| :: Earned(y)(y.book.mints[j]) >= 0
    ensures 0 <= Total(y.book.mints, Earned(y))
  {
    forall j | 0 <= j < |y.book.mints| ensures Earned(y)(y.book.mints[j]) >= 0 {
      var m := y.book.mints[j];
      if !m.ended { MulMono(m.shares, 0, EndAcc(y, m) - m.accStart); }
    }
    TotalAtLeast(y.book.mints, Earned(y), 0);
  }

  lemma HeldIsInThePool(y: Yield)
    requires Sound(y.book) && Solvent(y)
    ensures y.held <= y.pools.lshare
  {
    EarnedIsNonNegative(y);
  }

  /** y' is y after an inflow: whoever was live gained the accumulator's rise, nobody else anything. */
  ghost predicate AfterInflow(y: Yield, y': Yield, amount: int) {
    && y'.book.mints == y.book.mints
    && (y'.acc, y'.held) == AccumulatorStep(y.acc, amount, y.held, y.book.active)
    && y'.pools.lshare == y.pools.lshare + amount
    && forall j | 0 <= j < |y.book.mints| ::
         Earned(y')(y.book.mints[j])
         == Earned(y)(y.book.mints[j])
            + (y'.acc - y.acc) * LiveFrom(y.book.genesis, y.book.hpd, y.book.day)(y.book.mints[j])
  }

  lemma InflowStaysCovered(y: Yield, y': Yield, amount: int)
    requires Sound(y.book) && Solvent(y) && 0 <= amount && amount + y.held <= MAX_AMOUNT
    requires AfterInflow(y, y', amount)
    ensures Covered(y') && y.acc <= y'.acc <= MAX_AMOUNT && 0 <= y'.held
  {
    hide Earned, AccumulatorStep, Total, LiveFrom;
    StepConserves(y.acc, amount, y.held, y.book.active);
    TotalLinear(y.book.mints, Earned(y'), Earned(y), y'.acc - y.acc, LiveFrom(y.book.genesis, y.book.hpd, y.book.day));
  }

  lemma EarnedRises(shares: int, acc: int, rise: int, start: int)
    ensures shares * (acc + rise - start) == shares * (acc - start) + rise * shares
  {
  }

  lemma RecycleIsAnInflow(y: Yield, amount: int)
    requires Sound(y.book) && amount > 0
    ensures AfterInflow(y, Recycled(y, amount), amount)
  {
    hide AccumulatorStep, Total;
    var y' := Recycled(y, amount);
    forall j | 0 <= j < |y.book.mints|
      ensures Earned(y')(y.book.mints[j])
              == Earned(y)(y.book.mints[j])
                 + (y'.acc - y.acc) * LiveFrom(y.book.genesis, y.book.hpd, y.book.day)(y.book.mints[j])
    {
      var m := y.book.mints[j];
      EarnedRises(m.shares, y.acc, y'.acc - y.acc, m.accStart);
    }
  }

  /** Recycling never outruns the pool: what it promises is what it paid in. */
  lemma RecycleKeeps(y: Yield, amount: int)
    requires Sound(y.book) && Solvent(y) && 0 <= amount
    requires y.pools.lshare + amount + EMISSION_CAP - y.emitted <= HISTORIC_HARD_CAP && y.emitted <= EMISSION_CAP
    ensures Solvent(Recycled(y, amount))
  {
    hide AccumulatorStep, Total, Earned;
    HeldIsInThePool(y);
    if amount > 0 {
      RecycleIsAnInflow(y, amount);
      InflowStaysCovered(y, Recycled(y, amount), amount);
    }
  }

  /** A mint that stops today leaves a checkpoint behind. */
  lemma StopLeavesCheckpoint(b: Book, j: nat)
    requires Sound(b) && j < |b.mints| && !b.mints[j].ended && b.MatDay(b.mints[j]) == b.day
    ensures Read(b.exp, b.day) > 0
  {
    TotalAtLeast(b.mints, MaturingOn(b.genesis, b.hpd, b.day), j);
  }

  lemma FinishIsAnInflow(y: Yield)
    requires Sound(y.book) && OnClock(y) && 0 <= y.held
    ensures AfterInflow(y, FinishDay(y), TodaysLShare(y.book))
  {
    hide AccumulatorStep, Total, DayEmission, EmittedBy, Credited, TodaysLShare;
    var y', lshare := FinishDay(y), TodaysLShare(y.book);
    DayEmissionIsExact(y.book.genesis, y.book.hpd, y.book.day);
    TodaysShare(y.book);
    CreditOfEighths(y.pools, TodaysEmission(y.book));
    NothingToStep(y.acc, y.book.active);
    forall j | 0 <= j < |y.book.mints|
      ensures Earned(y')(y.book.mints[j])
              == Earned(y)(y.book.mints[j])
                 + (y'.acc - y.acc) * LiveFrom(y.book.genesis, y.book.hpd, y.book.day)(y.book.mints[j])
    {
      var m := y.book.mints[j];
      EarnedRises(m.shares, y.acc, y'.acc - y.acc, m.accStart);
      if !m.ended && y.book.MatDay(m) == y.book.day { StopLeavesCheckpoint(y.book, j); }
    }
  }

  lemma NothingToStep(acc: int, active: int)
    ensures AccumulatorStep(acc, 0, 0, active) == (acc, 0)
  {
  }

  lemma FinishKeepsReadings(y: Yield)
    requires Sound(y.book) && Readings(y) && y.acc <= FinishDay(y).acc
    ensures Readings(FinishDay(y))
  {
    hide Stepped, Total, DayEmission, Credited, TodaysLShare;
    var y' := FinishDay(y);
    forall j | 0 <= j < |y.book.mints| && !y.book.mints[j].ended
      ensures 0 <= y.book.mints[j].accStart <= EndAcc(y', y.book.mints[j]) <= y'.acc
    {
      if y.book.MatDay(y.book.mints[j]) == y.book.day { StopLeavesCheckpoint(y.book, j); }
    }
  }

  lemma FinishKeepsActive(b: Book)
    requires Sound(b) && 0 <= b.active <= MAX_AMOUNT
    ensures 0 <= CloseDay(b).active <= MAX_AMOUNT
  {
  }

  /** Solvency survives a day: emission in, a checkpoint for whoever stops, and no claim without its cover. */
  lemma FinishKeepsSolvent(y: Yield)
    requires Sound(y.book) && Solvent(y) && OnClock(y) && !y.book.Pending()
    ensures Solvent(FinishDay(y)) && OnClock(FinishDay(y)) && Sound(FinishDay(y).book)
  {
    hide AccumulatorStep, Total, Earned, EmittedBy, DayEmission, Credited, TodaysLShare;
    var lshare := TodaysLShare(y.book);
    DayEmissionIsExact(y.book.genesis, y.book.hpd, y.book.day);
    TodaysShare(y.book);
    CreditOfEighths(y.pools, TodaysEmission(y.book));
    HeldIsInThePool(y);
    FinishIsAnInflow(y);
    InflowStaysCovered(y, FinishDay(y), lshare);
    FinishKeepsReadings(y);
    FinishKeepsActive(y.book);
    StartsOnCourse(y, 0);
    StepStaysOnCourse(y, Start(y, 0));
    StepStaysOnCourse(y, StepDay(Start(y, 0)));
    CloseDayKeeps(y.book);
    hide Sound;
  }

  // ----- what every call keeps -----

  /** The state an accrual call may be made in, and leaves. */
  ghost predicate Good(y: Yield) { Sound(y.book) && Solvent(y) && OnClock(y) }

  lemma DrainKeepsGood(y: Yield)
    requires Good(y) && y.book.Pending()
    ensures Good(y.(book := DrainChunk(y.book)))
  {
    DrainKeeps(y.book);
    hide Sound, Total, DrainChunk;
    DrainChunkFrame(y.book);
    DrainTouchesNoMint(y.book);
    var y' := y.(book := DrainChunk(y.book));
    TotalSame(y.book.mints, Earned(y'), Earned(y));
  }

  lemma DrainTouchesNoMint(b: Book)
    ensures DrainChunk(b).mints == b.mints && DrainChunk(b).active == b.active
  {
  }

  /** A day's list is begun only when the day is over. */
  predicate InTime(b: Book, today: nat) { b.day <= today && (Read(b.cursor, b.day) > 0 ==> b.day < today) }

  lemma {:induction false} LoopKeepsGood(y: Yield, w: Walk, target: nat, days: nat)
    requires OnCourse(y, w) && Good(Commit(y, w))
    ensures Good(Commit(y, Loop(w, target, days)))
    ensures InTime(w.book, target) ==> InTime(Loop(w, target, days).book, target)
    decreases days, ChunksLeft(w.book)
  {
    hide EmittedBy, StepDay, DrainChunk, FinishDay, Good;
    if w.book.day >= target || days == 0 || Blocked(w.book, w.budget) {
    } else if w.book.Pending() {
      var w' := DrainStep(w);
      DrainChunkFrame(w.book);
      DrainKeepsGood(Commit(y, w));
      assert Commit(y, w') == Commit(y, w).(book := DrainChunk(w.book));
      LoopKeepsGood(y, w', target, days);
    } else {
      StepStaysOnCourse(y, w);
      StepIsFinishDay(y, w);
      FinishKeepsGood(Commit(y, w));
      LoopKeepsGood(y, StepDay(w), target, days - 1);
    }
  }

  lemma FinishKeepsGood(y: Yield)
    requires Good(y) && !y.book.Pending()
    ensures Good(FinishDay(y))
    ensures FinishDay(y).book.day == y.book.day + 1 && Read(FinishDay(y).book.cursor, y.book.day + 1) == 0
  {
    FinishKeepsSolvent(y);
    CloseDayKeepsShape(y.book);
  }

  /** One call, whatever its caps: the book stays sound, the pool solvent and the counter on the closed form. */
  lemma WalkKeepsGood(y: Yield, target: nat, days: int, budget: nat)
    requires Good(y)
    ensures var y' := Walked(y, target, days, budget).0;
            && Good(y') && y.book.day <= y'.book.day
            && (InTime(y.book, target) ==> InTime(y'.book, target))
  {
    hide EmittedBy, Loop, Sound, Solvent, OnClock, Credited;
    StartsOnCourse(y, budget);
    LoopKeepsGood(y, Start(y, budget), target, CappedDays(days));
    LoopFrame(Start(y, budget), target, CappedDays(days));
  }

  /** p' is p with x shared out: an eighth, three eighths, a quarter and a quarter, which add up to x. */
  predicate SharedOut(p: Pools, p': Pools, x: int) {
    && 0 <= x && x % 8 == 0 && x / 8 + 3 * (x / 8) + x / 4 + x / 4 == x
    && p' == Pools(p.viral + x / 8, p.deep + 3 * (x / 8), p.liquidity + x / 4, p.lshare + x / 4)
  }

  lemma CommitSharesOut(y: Yield, w: Walk)
    requires OnCourse(y, w)
    ensures SharedOut(y.pools, Commit(y, w).pools, w.emitted)
  {
    hide EmittedBy, Credited;
    CreditOfEighths(y.pools, w.emitted);
  }

  /** A call's four pool credits are exactly the emission it newly counted, in the fixed shares. */
  lemma WalkCreditsExactly(y: Yield, target: nat, days: int, budget: nat)
    requires OnClock(y)
    ensures var y' := Walked(y, target, days, budget).0;
            SharedOut(y.pools, y'.pools, y'.emitted - y.emitted)
  {
    hide EmittedBy, Loop, Credited, DaysTo, OnCourse, OnClock;
    var w := Loop(Start(y, budget), target, CappedDays(days));
    StartsOnCourse(y, budget);
    LoopKeepsFold(y, Start(y, budget), target, CappedDays(days), target);
    CommitSharesOut(y, w);
  }

  /** A walk moves days forward up to its target, and never a mint. */
  lemma {:induction false} LoopFrame(w: Walk, target: nat, days: nat)
    ensures var w' := Loop(w, target, days);
            && w.book.day <= w'.book.day && (w.book.day <= target ==> w'.book.day <= target)
            && w'.book.mints == w.book.mints && w'.book.genesis == w.book.genesis && w'.book.hpd == w.book.hpd
    decreases days, ChunksLeft(w.book)
  {
    hide RetireAll, Stepped, TodaysLShare, TodaysEmission;
    if w.book.day >= target || days == 0 || Blocked(w.book, w.budget) {
    } else if w.book.Pending() {
      LoopFrame(DrainStep(w), target, days);
    } else {
      LoopFrame(StepDay(w), target, days - 1);
    }
  }

  /** The plain fold is as sound, as solvent and as exact as the sliced walk. */
  lemma {:induction false} FoldKeepsGood(y: Yield, last: nat)
    requires Good(y)
    ensures Good(DaysTo(y, last))
    decreases last - y.book.day
  {
    if y.book.day < last {
      DrainAllKeepsDay(y.book);
      DrainAllKeepsGood(y);
      FinishKeepsGood(y.(book := DrainAll(y.book)));
      hide Good, FinishDay;
      FoldKeepsGood(DayStep(y), last);
    }
  }

  lemma {:induction false} DrainAllKeepsGood(y: Yield)
    requires Good(y)
    ensures Good(y.(book := DrainAll(y.book)))
    decreases ChunksLeft(y.book)
  {
    if y.book.Pending() {
      DrainKeepsGood(y);
      hide Good;
      DrainChunkFrame(y.book);
      DrainAllKeepsGood(y.(book := DrainChunk(y.book)));
    }
  }

  /** A checkpoint once written is never written again. */
  lemma {:induction false} LoopKeepsCheckpoints(w: Walk, target: nat, days: nat, d: int)
    requires d < w.book.day
    ensures Read(Loop(w, target, days).accAt, d) == Read(w.accAt, d)
    decreases days, ChunksLeft(w.book)
  {
    hide RetireAll, Stepped, TodaysLShare, TodaysEmission;
    if w.book.day >= target || days == 0 || Blocked(w.book, w.budget) {
    } else if w.book.Pending() {
      LoopKeepsCheckpoints(DrainStep(w), target, days, d);
    } else {
      LoopKeepsCheckpoints(StepDay(w), target, days - 1, d);
    }
  }

  lemma WalkTouchesNoMint(y: Yield, target: nat, days: int, budget: nat)
    ensures var b' := Walked(y, target, days, budget).0.book;
            b'.mints == y.book.mints && b'.genesis == y.book.genesis && b'.hpd == y.book.hpd
  {
    hide Loop;
    LoopFrame(Start(y, budget), target, CappedDays(days));
  }

  lemma RecycleKeepsGood(y: Yield, amount: int)
    requires Good(y) && 0 <= amount
    requires y.pools.lshare + amount + EMISSION_CAP - y.emitted <= HISTORIC_HARD_CAP
    ensures Good(Recycled(y, amount))
  {
    hide Sound, EmittedBy, AccumulatorStep;
    DayEmissionIsExact(y.book.genesis, y.book.hpd, y.book.day);
    RecycleKeeps(y, amount);
  }

  /** No mint is ever promised more than the pool holds: the guard against overdrawing never bites. */
  lemma YieldIsInThePool(y: Yield, j: nat)
    requires Sound(y.book) && Solvent(y) && j < |y.book.mints| && !y.book.mints[j].ended
    ensures var m := y.book.mints[j];
            var out := Entitlement(m.shares, m.accStart, EndAcc(y, m));
            0 <= out <= y.pools.lshare && out * ACC_SCALE <= Earned(y)(m)
  {
    var m := y.book.mints[j];
    EarnedIsNonNegative(y);
    TotalAtLeast(y.book.mints, Earned(y), j);
    EntitlementNeverExceeds(m.shares, m.accStart, EndAcc(y, m));
  }

  // ----- a mint's yield, day by day -----

  /** The daily rises of the accumulator from y's day up to `last`, added up. */
  ghost function Rises(y: Yield, last: nat): int
    decreases last - y.book.day
  {
    if y.book.day >= last then 0
    else
      DrainAllKeepsDay(y.book);
      DayStep(y).acc - y.acc + Rises(DayStep(y), last)
  }

  lemma {:induction false} RisesAddUp(y: Yield, last: nat)
    ensures DaysTo(y, last).acc == y.acc + Rises(y, last)
    ensures y.book.day <= last ==> DaysTo(y, last).book.day == last
    ensures DaysTo(y, last).book.mints == y.book.mints
    ensures DaysTo(y, last).book.genesis == y.book.genesis && DaysTo(y, last).book.hpd == y.book.hpd
    decreases last - y.book.day
  {
    hide Stepped, TodaysLShare, TodaysEmission, RetireAll, Credited;
    if y.book.day < last {
      DrainAllKeepsDay(y.book);
      DrainAllTouchesNoMint(y.book);
      RisesAddUp(DayStep(y), last);
    }
  }

  lemma {:induction false} DrainAllTouchesNoMint(b: Book)
    ensures DrainAll(b).mints == b.mints && DrainAll(b).genesis == b.genesis && DrainAll(b).hpd == b.hpd
    decreases ChunksLeft(b)
  {
    if b.Pending() {
      DrainChunkFrame(b);
      DrainTouchesNoMint(b);
      DrainAllTouchesNoMint(DrainChunk(b));
    }
  }

  /** What the fold leaves behind a day it has passed, it never touches again. */
  lemma {:induction false} FoldKeepsCheckpoints(y: Yield, last: nat, d: int)
    requires d < y.book.day
    ensures Read(DaysTo(y, last).accAt, d) == Read(y.accAt, d)
    decreases last - y.book.day
  {
    hide Stepped, TodaysLShare, TodaysEmission, RetireAll, Credited;
    if y.book.day < last {
      DrainAllKeepsDay(y.book);
      FoldKeepsCheckpoints(DayStep(y), last, d);
    }
  }

  lemma {:induction false} DrainAllKeepsStops(b: Book)
    ensures DrainAll(b).exp == b.exp && DrainAll(b).active == b.active
    decreases ChunksLeft(b)
  {
    if b.Pending() {
      DrainChunkFrame(b);
      DrainTouchesNoMint(b);
      DrainAllKeepsStops(DrainChunk(b));
    }
  }

  /** The day a mint stops is closed with a checkpoint of the accumulator as the day left it. */
  lemma LastDayIsRecorded(y: Yield, j: nat)
    requires Sound(y.book) && j < |y.book.mints| && !y.book.mints[j].ended
    requires y.book.MatDay(y.book.mints[j]) == y.book.day
    ensures Read(DayStep(y).accAt, y.book.day) == DayStep(y).acc
  {
    hide Sound, Stepped, TodaysLShare, TodaysEmission, Credited, DueDay;
    DrainAllKeepsDay(y.book);
    DrainAllKeepsStops(y.book);
    StopLeavesCheckpoint(y.book, j);
  }

  /** The reading a mint stamped on or before its last day is paid to: y plus the rises up to the end of that day. */
  lemma {:induction false} PaidUpToItsLastDay(y: Yield, j: nat, last: nat)
    requires Good(y) && j < |y.book.mints| && !y.book.mints[j].ended
    requires y.book.day <= y.book.MatDay(y.book.mints[j]) && y.book.day <= last
    ensures EndAcc(DaysTo(y, last), y.book.mints[j]) == y.acc + Rises(y, Min(last, y.book.MatDay(y.book.mints[j]) + 1))
    decreases last - y.book.day
  {
    hide Good, DueDay, FinishDay;
    var m := y.book.mints[j];
    var d := y.book.MatDay(m);
    RisesAddUp(y, last);
    if y.book.day < last {
      var next := DayStep(y);
      DrainAllKeepsDay(y.book);
      DayStepFrame(y);
      if d == y.book.day {
        GoodIsSound(y);
        LastDayIsRecorded(y, j);
        FoldKeepsCheckpoints(next, last, d);
        assert DaysTo(y, last) == DaysTo(next, last) && Rises(next, d + 1) == 0;
      } else {
        DayStepKeepsGood(y);
        PaidUpToItsLastDay(next, j, last);
      }
    }
  }

  lemma GoodIsSound(y: Yield)
    requires Good(y)
    ensures Sound(y.book)
  {
  }

  lemma DayStepFrame(y: Yield)
    ensures var next := DayStep(y).book;
            next.day == y.book.day + 1 && next.mints == y.book.mints
            && next.genesis == y.book.genesis && next.hpd == y.book.hpd
  {
    hide Stepped, TodaysLShare, TodaysEmission, Credited;
    DrainAllKeepsDay(y.book);
    DrainAllTouchesNoMint(y.book);
  }

  lemma DayStepKeepsGood(y: Yield)
    requires Good(y)
    ensures Good(DayStep(y))
  {
    DrainAllKeepsDay(y.book);
    DrainAllKeepsGood(y);
    FinishKeepsGood(y.(book := DrainAll(y.book)));
  }

  /**
   * Two readings and a subtraction are the whole sum: what a mint stamped now has earned
   * by any later day is its shares times every daily rise since, up to the end of the day
   * it matures and not one day beyond, floored once at the end and never day by day. Past
   * that day this is the amount its owner is paid.
   */
  lemma YieldIsTheSumOfDailyRises(y: Yield, j: nat, last: nat)
    requires Good(y) && j < |y.book.mints| && !y.book.mints[j].ended && y.book.mints[j].accStart == y.acc
    requires y.book.day <= last
    ensures var m, y' := y.book.mints[j], DaysTo(y, last);
            var out := Entitlement(m.shares, m.accStart, EndAcc(y', m));
            var rises := Rises(y, Min(last, y.book.MatDay(m) + 1));
            out * ACC_SCALE <= m.shares * rises < (out + 1) * ACC_SCALE
  {
    hide DaysTo, Entitlement, Sound, OnClock, Covered, DueDay;
    var m, y' := y.book.mints[j], DaysTo(y, last);
    FoldKeepsGood(y, last);
    RisesAddUp(y, last);
    ItIsGood(y'.book, j);
    EarnedFitsThePool(y', j);
    EntitlementIsFlooredOnce(m.shares, m.accStart, EndAcc(y', m));
    if y.book.day <= y.book.MatDay(m) {
      PaidUpToItsLastDay(y, j, last);
    } else {
      FoldKeepsCheckpoints(y, last, y.book.MatDay(m));
    }
  }

  /** What an open mint has earned is within the pool, in accumulator units. */
  lemma EarnedFitsThePool(y: Yield, j: nat)
    requires Good(y) && j < |y.book.mints| && !y.book.mints[j].ended
    ensures Earned(y)(y.book.mints[j]) <= y.pools.lshare * ACC_SCALE && y.pools.lshare <= MAX_AMOUNT
  {
    hide EmittedBy, Total;
    EarnedIsNonNegative(y);
    TotalAtLeast(y.book.mints, Earned(y), j);
    DayEmissionIsExact(y.book.genesis, y.book.hpd, y.book.day);
  }

  // ----- mints joining and leaving between calls -----

  function Registered(y: Yield, m: Mint): Yield { y.(book := AddMint(y.book, m.(accStart := y.acc))) }

  /** A position out of the book, its yield out of the pool. */
  function Taken(y: Yield, id: nat, out: int): Yield
    requires id < |y.book.mints|
  {
    y.(book := CloseMint(y.book, id), pools := y.pools.(lshare := y.pools.lshare - out))
  }

  /** Between y and y' the walk's own state did not move, so neither did any mint's end reading. */
  ghost predicate SameClock(y: Yield, y': Yield) {
    && y'.acc == y.acc && y'.held == y.held && y'.accAt == y.accAt && y'.emitted == y.emitted && y'.settled == y.settled
    && y'.book.day == y.book.day && y'.book.genesis == y.book.genesis && y'.book.hpd == y.book.hpd
  }

  lemma RegisterFrame(y: Yield, m: Mint)
    ensures var y' := Registered(y, m);
            var entered := m.(accStart := y.acc, expChunk := AppendChunk(y.book, y.book.MatDay(m)));
            && SameClock(y, y') && y'.pools == y.pools && y'.book.cursor == y.book.cursor
            && y'.book.mints == y.book.mints + [entered] && y'.book.active == y.book.active + m.shares
            && y.book.MatDay(m) == y'.book.MatDay(entered)
  {
  }

  lemma RegisterStaysCovered(y: Yield, m: Mint)
    requires Readings(y) && Covered(y) && 0 <= y.acc
    requires m.shares <= MAX_AMOUNT && y.book.MatDay(m) >= y.book.day
    ensures Readings(Registered(y, m)) && Covered(Registered(y, m))
  {
    hide Total, Registered, AppendChunk, DueDay;
    RegisterFrame(y, m);
    var y' := Registered(y, m);
    var n := |y.book.mints|;
    var entered := y'.book.mints[n];
    assert EndAcc(y', entered) == y.acc;
    assert Earned(y')(entered) == 0 by { assert entered.shares * 0 == 0; }
    TotalOfOneMore(y.book.mints, entered, Earned(y'));
    TotalSame(y.book.mints, Earned(y'), Earned(y));
    forall j | 0 <= j < |y'.book.mints| && !y'.book.mints[j].ended
      ensures 0 <= y'.book.mints[j].accStart <= EndAcc(y', y'.book.mints[j]) <= y'.acc
              && y'.book.mints[j].shares <= MAX_AMOUNT
    {
      if j < n { assert EndAcc(y', y'.book.mints[j]) == EndAcc(y, y.book.mints[j]); }
    }
  }

  /** A mint stamped with the live reading joins without a claim on anything that came before it. */
  lemma RegisterKeepsGood(y: Yield, m: Mint)
    requires Good(y) && GoodMint(m) && !m.ended && NotBegun(y.book, y.book.MatDay(m))
    requires y.book.active + m.shares <= MAX_AMOUNT
    ensures Good(Registered(y, m))
  {
    hide Sound, Readings, Covered, EmittedBy, AddMint, DueDay;
    ActiveIsNonNegative(y.book);
    RegisterFrame(y, m);
    StampKeepsDueDay(y.book, m, y.acc);
    AddMintKeeps(y.book, m.(accStart := y.acc));
    RegisterStaysCovered(y, m);
  }

  lemma StampKeepsDueDay(b: Book, m: Mint, acc: int)
    ensures b.MatDay(m.(accStart := acc)) == b.MatDay(m)
  {
  }

  lemma TakenFrame(y: Yield, id: nat, out: int)
    requires id < |y.book.mints|
    ensures var y', m := Taken(y, id, out), y.book.mints[id];
            && SameClock(y, y') && y'.pools == y.pools.(lshare := y.pools.lshare - out)
            && y'.book.cursor == y.book.cursor
            && y'.book.mints == y.book.mints[id := m.(ended := true)]
            && (y'.book.active == y.book.active || y'.book.active == y.book.active - m.shares)
  {
  }

  lemma TakingStaysCovered(y: Yield, id: nat, out: int)
    requires Readings(y) && Covered(y) && id < |y.book.mints|
    requires out * ACC_SCALE <= Earned(y)(y.book.mints[id])
    ensures Readings(Taken(y, id, out)) && Covered(Taken(y, id, out))
  {
    hide Total, Taken, DueDay;
    TakenFrame(y, id, out);
    var y', m := Taken(y, id, out), y.book.mints[id];
    TotalUpdate(y.book.mints, id, m.(ended := true), Earned(y'));
    TotalSame(y.book.mints, Earned(y'), Earned(y));
    assert (y.pools.lshare - out) * ACC_SCALE == y.pools.lshare * ACC_SCALE - out * ACC_SCALE;
    forall j | 0 <= j < |y'.book.mints| && !y'.book.mints[j].ended
      ensures 0 <= y'.book.mints[j].accStart <= EndAcc(y', y'.book.mints[j]) <= y'.acc
              && y'.book.mints[j].shares <= MAX_AMOUNT
    {
      assert EndAcc(y', y'.book.mints[j]) == EndAcc(y, y.book.mints[j]);
    }
  }

  /** A mint may take out of the pool anything up to what it has earned. */
  lemma CloseKeepsGood(y: Yield, id: nat, out: int)
    requires Good(y) && id < |y.book.mints| && !y.book.mints[id].ended
    requires 0 <= out && out * ACC_SCALE <= Earned(y)(y.book.mints[id])
    ensures Good(Taken(y, id, out))
  {
    hide Sound, Readings, Covered, EmittedBy, CloseMint;
    CloseMintKeeps(y.book, id);
    ActiveIsNonNegative(CloseMint(y.book, id));
    ItIsGood(y.book, id);
    TakingStaysCovered(y, id, out);
    TakenFrame(y, id, out);
  }

  /** What closing mint m pays out of the pool, with accrual where y left it. */
  function Payable(y: Yield, m: Mint, matured: bool): int {
    var accEnd := if matured then Read(y.accAt, y.book.MatDay(m)) else y.acc;
    Min(Entitlement(m.shares, m.accStart, accEnd), y.pools.lshare)
  }

  lemma ItIsGood(b: Book, j: nat)
    requires Sound(b) && j < |b.mints|
    ensures GoodMint(b.mints[j])
  {
  }

  lemma ActiveIsNonNegative(b: Book)
    requires Sound(b)
    ensures 0 <= b.active
  {
    TotalAtLeast(b.mints, LiveFrom(b.genesis, b.hpd, b.day), 0);
  }
}
