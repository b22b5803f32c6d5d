/**
 * The book of live shares: who votes, who earns, and the chunked lists of what stops on
 * which day. Store keys are typed maps in which an absent key and a zero read the same,
 * as the contract's getters make them.
 */
module ShareBook {
  import opened Units
  import opened LShare
  import opened Insertion

  const EXPIRY_CHUNK_SIZE := 25

  function Read<K>(m: map<K, int>, k: K): int { if k in m then m[k] else 0 }

  function Write<K(!new)>(m: map<K, int>, k: K, v: int): (r: map<K, int>)
    ensures Read(r, k) == v
    ensures forall k' | k' != k :: Read(r, k') == Read(m, k') && (k' in r <==> k' in m)
  {
    if v == 0 then m - {k} else m[k := v]
  }

  function NotBelowZero(x: int): int { if x < 0 then 0 else x }

  function DayOf(genesis: nat, hpd: nat, height: nat): nat {
    if height <= genesis || hpd == 0 then 0 else (height - genesis) / hpd
  }

  /** The day whose end stops a mint's shares. */
  function DueDay(genesis: nat, hpd: nat, m: Mint): nat { DayOf(genesis, hpd, MaturityHeight(hpd, m)) }

  lemma DueDayOf(genesis: nat, hpd: nat, m: Mint, n: nat, ended: bool)
    ensures DueDay(genesis, hpd, m.(expChunk := n)) == DueDay(genesis, hpd, m.(ended := ended))
            == DueDay(genesis, hpd, m)
  {
  }

  /** One line of a day's expiry list. */
  datatype Entry = Entry(account: string, shares: int)

  function EntryOf(m: Mint): Entry { Entry(m.owner, m.shares) }

  datatype Book = Book(
    genesis: nat, hpd: nat, day: nat, active: int, votes: map<string, int>, exp: map<int, int>,
    count: map<int, int>, cursor: map<int, int>, chunks: map<(int, int), seq<Entry>>, mints: seq<Mint>)
  {
    function MatDay(m: Mint): nat { DueDay(genesis, hpd, m) }

    function ChunkAt(d: int, n: int): seq<Entry> { if (d, n) in chunks then chunks[(d, n)] else [] }

    /** The current day's list still has chunks to drain. */
    predicate Pending() { Read(cursor, day) < Read(count, day) }

    function NextChunk(): seq<Entry> { ChunkAt(day, Read(cursor, day)) }
  }

  // ----- what the walk does to the book -----

  /** One entry retired from its owner's voting balance; an entry without an account is skipped. */
  function Retire(votes: map<string, int>, e: Entry): map<string, int> {
    if e.account == "" then votes
    else Write(votes, e.account, NotBelowZero(Read(votes, e.account) - e.shares))
  }

  function RetireAll(votes: map<string, int>, es: seq<Entry>): map<string, int> {
    if es == [] then votes else Retire(RetireAll(votes, es[..|es| - 1]), es[|es| - 1])
  }

  /** The next chunk of the current day retired and dropped; a chunk that is gone is just passed. */
  function DrainChunk(b: Book): Book {
    var cur := Read(b.cursor, b.day);
    b.(votes := RetireAll(b.votes, b.NextChunk()),
       chunks := b.chunks - {(b.day, cur)},
       cursor := Write(b.cursor, b.day, cur + 1))
  }

  /** The day over: its list's bookkeeping gone, its shares out of the denominator. */
  function CloseDay(b: Book): Book {
    var stopping := Read(b.exp, b.day);
    b.(day := b.day + 1,
       active := if stopping > 0 then NotBelowZero(b.active - stopping) else b.active,
       exp := if stopping > 0 then Write(b.exp, b.day, 0) else b.exp,
       count := Write(b.count, b.day, 0),
       cursor := if Read(b.count, b.day) == 0 then b.cursor else Write(b.cursor, b.day, 0))
  }

  // ----- mints joining and leaving -----

  /** The chunked lists: their rows, and how many chunks each day was given. */
  datatype Rows = Rows(chunks: map<(int, int), seq<Entry>>, count: map<int, int>)

  /** Where one more entry of day d goes: the last chunk while it has room, else a new one. */
  function RowFor(r: Rows, d: int): nat {
    var count := NotBelowZero(Read(r.count, d));
    if count > 0 && (d, count - 1) in r.chunks && |r.chunks[(d, count - 1)]| < EXPIRY_CHUNK_SIZE
    then count - 1
    else count
  }

  function AppendRow(r: Rows, d: int, e: Entry): Rows {
    var n, count := RowFor(r, d), Read(r.count, d);
    if n < count && (d, n) in r.chunks then r.(chunks := r.chunks[(d, n) := r.chunks[(d, n)] + [e]])
    else Rows(r.chunks[(d, n) := [e]], Write(r.count, d, n + 1))
  }

  /** A day's list gets a new chunk only when its last one is full, or gone. */
  lemma NewChunkOnlyWhenNeeded(r: Rows, d: int, e: Entry)
    requires Read(r.count, d) >= 0
    ensures var (count, r') := (Read(r.count, d), AppendRow(r, d, e));
            var room := count > 0 && (d, count - 1) in r.chunks && |r.chunks[(d, count - 1)]| < 25;
            && Read(r'.count, d) == (if room then count else count + 1)
            && r'.chunks == if room then r.chunks[(d, count - 1) := r.chunks[(d, count - 1)] + [e]]
                            else r.chunks[(d, count) := [e]]
  {
  }

  function AppendChunk(b: Book, d: int): nat { RowFor(Rows(b.chunks, b.count), d) }

  function Append(b: Book, d: int, e: Entry): Book {
    var rows := AppendRow(Rows(b.chunks, b.count), d, e);
    b.(chunks := rows.chunks, count := rows.count)
  }

  function AddMint(b: Book, m: Mint): Book {
    var d := b.MatDay(m);
    var listed := Append(b, d, EntryOf(m));
    listed.(active := b.active + m.shares,
            votes := Write(b.votes, m.owner, Read(b.votes, m.owner) + m.shares),
            exp := Write(b.exp, d, Read(b.exp, d) + m.shares),
            mints := b.mints + [m.(expChunk := AppendChunk(b, d))])
  }

  /** The first occurrence of e taken out. */
  function Without(es: seq<Entry>, e: Entry): seq<Entry> {
    if es == [] then [] else if es[0] == e then es[1..] else [es[0]] + Without(es[1..], e)
  }

  function RemoveEntry(chunks: map<(int, int), seq<Entry>>, d: int, n: int, e: Entry): map<(int, int), seq<Entry>> {
    if (d, n) !in chunks then chunks
    else
      var rest := Without(chunks[(d, n)], e);
      if rest == [] then chunks - {(d, n)} else chunks[(d, n) := rest]
  }

  /** A mint's shares out of whatever the walk has not taken them out of already. */
  function Released(b: Book, m: Mint): Book {
    var d := b.MatDay(m);
    var retired, drained := b.day > d, Read(b.cursor, d) > m.expChunk;
    var voted := if retired || drained then b
                 else b.(votes := Write(b.votes, m.owner, NotBelowZero(Read(b.votes, m.owner) - m.shares)),
                         chunks := RemoveEntry(b.chunks, d, m.expChunk, EntryOf(m)));
    if retired then voted
    else voted.(active := b.active - m.shares, exp := Write(b.exp, d, NotBelowZero(Read(b.exp, d) - m.shares)))
  }

  /** A mint closed, its shares released. */
  function CloseMint(b: Book, i: nat): Book
    requires i < |b.mints|
  {
    Released(b, b.mints[i]).(mints := b.mints[i := b.mints[i].(ended := true)])
  }

  // ----- sums over the mints -----

  ghost function Total(ms: seq<Mint>, w: Mint -> int): int {
    if ms == [] then 0 else Total(ms[..|ms| - 1], w) + w(ms[|ms| - 1])
  }

  lemma TotalOfOneMore(ms: seq<Mint>, m: Mint, w: Mint -> int)
    ensures Total(ms + [m], w) == Total(ms, w) + w(m)
  {
    assert (ms + [m])[..|ms|] == ms;
  }

  lemma {:induction false} TotalUpdate(ms: seq<Mint>, i: nat, m: Mint, w: Mint -> int)
    requires i < |ms|
    ensures Total(ms[i := m], w) == Total(ms, w) - w(ms[i]) + w(m)
  {
    var n := |ms| - 1;
    if i == n {
      assert ms[i := m][..n] == ms[..n];
    } else {
      TotalUpdate(ms[..n], i, m, w);
      assert ms[i := m][..n] == ms[..n][i := m];
    }
  }

  /** Weights that agree with u + k * v mint by mint have totals that do. */
  lemma {:induction false} TotalLinear(ms: seq<Mint>, w: Mint -> int, u: Mint -> int, k: int, v: Mint -> int)
    requires forall j | 0 <= j < |ms| :: w(ms[j]) == u(ms[j]) + k * v(ms[j])
    ensures Total(ms, w) == Total(ms, u) + k * Total(ms, v)
  {
    if ms == [] {
      assert k * 0 == 0;
    } else {
      var n := |ms| - 1;
      TotalLinear(ms[..n], w, u, k, v);
      assert k * (Total(ms[..n], v) + v(ms[n])) == k * Total(ms[..n], v) + k * v(ms[n]);
    }
  }

  lemma TotalSame(ms: seq<Mint>, w: Mint -> int, u: Mint -> int)
    requires forall j | 0 <= j < |ms| :: w(ms[j]) == u(ms[j])
    ensures Total(ms, w) == Total(ms, u)
  {
    TotalLinear(ms, w, u, 0, u);
  }

  lemma {:induction false} TotalAtLeast(ms: seq<Mint>, w: Mint -> int, i: nat)
    requires forall j | 0 <= j < |ms| :: w(ms[j]) >= 0
    ensures 0 <= Total(ms, w)
    ensures i < |ms| ==> w(ms[i]) <= Total(ms, w)
  {
    if ms != [] { TotalAtLeast(ms[..|ms| - 1], w, i); }
  }

  ghost function MaturingOn(genesis: nat, hpd: nat, d: int): Mint -> int {
    (m: Mint) => if !m.ended && DueDay(genesis, hpd, m) == d then m.shares else 0
  }

  ghost function LiveFrom(genesis: nat, hpd: nat, day: int): Mint -> int {
    (m: Mint) => if !m.ended && DueDay(genesis, hpd, m) >= day then m.shares else 0
  }

  /** Shares of `a` the walk has not retired: later days, or chunks of today not yet drained. */
  ghost function VotingFor(genesis: nat, hpd: nat, a: string, day: int, cur: int): Mint -> int {
    (m: Mint) =>
      var d := DueDay(genesis, hpd, m);
      if !m.ended && m.owner == a && (d > day || (d == day && m.expChunk >= cur)) then m.shares else 0
  }

  /** The entries the mints themselves say chunk n of day d holds. */
  ghost function Listed(ms: seq<Mint>, genesis: nat, hpd: nat, d: int, n: int): seq<Entry> {
    if ms == [] then []
    else
      var m := ms[|ms| - 1];
      Listed(ms[..|ms| - 1], genesis, hpd, d, n)
      + (if !m.ended && DueDay(genesis, hpd, m) == d && m.expChunk == n then [EntryOf(m)] else [])
  }

  // ----- the book agrees with its mints -----

  predicate GoodMint(m: Mint) { m.owner != "" && m.shares > 0 }

  /** Chunk n of day d has not been drained. */
  predicate Open(b: Book, d: int, n: int) {
    d > b.day || (d == b.day && n >= Read(b.cursor, b.day))
  }

  ghost predicate Shape(b: Book) {
    && (forall k | k in b.chunks ::
          Open(b, k.0, k.1) && 0 <= k.1 < Read(b.count, k.0) && 1 <= |b.chunks[k]| <= EXPIRY_CHUNK_SIZE)
    && (forall d | d in b.cursor :: d == b.day && b.cursor[d] > 0)
    && Read(b.cursor, b.day) <= Read(b.count, b.day)
    && (forall d | d in b.count :: d >= b.day && b.count[d] > 0)
    && (forall d | d in b.exp :: d >= b.day && b.exp[d] > 0)
  }

  ghost predicate ListsAgree(b: Book) {
    forall d, n | Open(b, d, n) :: multiset(b.ChunkAt(d, n)) == multiset(Listed(b.mints, b.genesis, b.hpd, d, n))
  }

  ghost predicate StopsAgree(b: Book) {
    forall d: int | d >= b.day :: Read(b.exp, d) == Total(b.mints, MaturingOn(b.genesis, b.hpd, d))
  }

  ghost predicate VotesAgree(b: Book) {
    forall a :: Read(b.votes, a)
                == Total(b.mints, VotingFor(b.genesis, b.hpd, a, b.day, Read(b.cursor, b.day)))
  }

  ghost predicate ActiveAgrees(b: Book) {
    b.active == Total(b.mints, LiveFrom(b.genesis, b.hpd, b.day))
  }

  /**
   * The law of the book: every figure the contract stores is the sum over open mints it
   * stands for. Voting power lasts exactly until maturity, the denominator is exactly
   * the live shares, and every list names exactly the mints that stop that day.
   */
  ghost predicate Sound(b: Book) {
    && (forall j | 0 <= j < |b.mints| :: GoodMint(b.mints[j]))
    && Shape(b) && ListsAgree(b) && StopsAgree(b) && VotesAgree(b) && ActiveAgrees(b)
  }

  function EmptyBook(genesis: nat, hpd: nat): Book {
    Book(genesis, hpd, 0, 0, map[], map[], map[], map[], map[], [])
  }

  lemma EmptyIsSound(genesis: nat, hpd: nat)
    ensures Sound(EmptyBook(genesis, hpd))
  {
  }

  // ----- draining one chunk -----

  ghost function SharesFor(es: seq<Entry>, a: string): int {
    if es == [] then 0
    else SharesFor(es[..|es| - 1], a) + (if es[|es| - 1].account == a then es[|es| - 1].shares else 0)
  }

  predicate GoodEntry(e: Entry) { e.account != "" && e.shares > 0 }

  lemma {:induction false} SharesForJoin(x: seq<Entry>, y: seq<Entry>, a: string)
    ensures SharesFor(x + y, a) == SharesFor(x, a) + SharesFor(y, a)
  {
    if y == [] {
      assert x + y == x;
    } else {
      SharesForJoin(x, y[..|y| - 1], a);
      assert (x + y)[..|x + y| - 1] == x + y[..|y| - 1];
    }
  }

  lemma {:induction false} SharesForByMultiset(s: seq<Entry>, t: seq<Entry>, a: string)
    requires multiset(s) == multiset(t)
    ensures SharesFor(s, a) == SharesFor(t, a)
  {
    assert |multiset(s)| == |multiset(t)|;
    if s != [] {
      var i := MatchLast(s, t);
      SharesForByMultiset(s[..|s| - 1], t[..i] + t[i + 1..], a);
      SharesForJoin(t[..i], t[i + 1..], a);
      SharesForJoin(t[..i] + [t[i]], t[i + 1..], a);
      assert (t[..i] + [t[i]])[..i] == t[..i];
    }
  }

  lemma {:induction false} SharesForPrefix(es: seq<Entry>, k: nat, a: string)
    requires k <= |es| && forall j | 0 <= j < |es| :: GoodEntry(es[j])
    ensures 0 <= SharesFor(es[..k], a) <= SharesFor(es, a)
  {
    if es == [] {
    } else if k == |es| {
      assert es[..k] == es;
      SharesForPrefix(es[..k - 1], k - 1, a);
      assert es[..k - 1][..k - 1] == es[..k - 1];
    } else {
      SharesForPrefix(es[..|es| - 1], k, a);
      assert es[..|es| - 1][..k] == es[..k];
    }
  }

  /** Where every balance covers its entries, retiring takes off exactly the listed shares and the floor never bites. */
  lemma {:induction false} RetireTakesExactly(votes: map<string, int>, es: seq<Entry>, k: nat, a: string)
    requires k <= |es| && forall j | 0 <= j < |es| :: GoodEntry(es[j])
    requires forall x :: Read(votes, x) >= SharesFor(es, x)
    ensures Read(RetireAll(votes, es[..k]), a) == Read(votes, a) - SharesFor(es[..k], a)
  {
    if k > 0 {
      var e := es[k - 1];
      assert es[..k][..k - 1] == es[..k - 1];
      RetireTakesExactly(votes, es, k - 1, a);
      RetireTakesExactly(votes, es, k - 1, e.account);
      SharesForPrefix(es, k, e.account);
    }
  }

  lemma {:induction false} ListedAreGood(b: Book, ms: seq<Mint>, d: int, n: int)
    requires forall j | 0 <= j < |ms| :: GoodMint(ms[j])
    ensures forall e | e in Listed(ms, b.genesis, b.hpd, d, n) :: GoodEntry(e)
  {
    if ms != [] { ListedAreGood(b, ms[..|ms| - 1], d, n); }
  }

  lemma ChunkIsGood(b: Book, d: int, n: int)
    requires Sound(b) && Open(b, d, n)
    ensures forall j | 0 <= j < |b.ChunkAt(d, n)| :: GoodEntry(b.ChunkAt(d, n)[j])
  {
    ListedAreGood(b, b.mints, d, n);
    forall j | 0 <= j < |b.ChunkAt(d, n)| ensures GoodEntry(b.ChunkAt(d, n)[j]) {
      assert b.ChunkAt(d, n)[j] in multiset(b.ChunkAt(d, n));
    }
  }

  /** Draining chunk `cur` moves exactly its mints out of the voting sum. */
  lemma {:induction false} VotingSplits(ms: seq<Mint>, genesis: nat, hpd: nat, a: string, day: int, cur: int)
    ensures Total(ms, VotingFor(genesis, hpd, a, day, cur))
            == Total(ms, VotingFor(genesis, hpd, a, day, cur + 1)) + SharesFor(Listed(ms, genesis, hpd, day, cur), a)
  {
    if ms != [] {
      VotingSplits(ms[..|ms| - 1], genesis, hpd, a, day, cur);
      var m := ms[|ms| - 1];
      SharesForJoin(Listed(ms[..|ms| - 1], genesis, hpd, day, cur), [EntryOf(m)], a);
      assert [EntryOf(m)][..0] == [];
      SharesForJoin(Listed(ms[..|ms| - 1], genesis, hpd, day, cur), [], a);
    }
  }

  lemma VotingIsNonNegative(b: Book, a: string, day: int, cur: int)
    requires forall j | 0 <= j < |b.mints| :: GoodMint(b.mints[j])
    ensures 0 <= Total(b.mints, VotingFor(b.genesis, b.hpd, a, day, cur))
  {
    TotalAtLeast(b.mints, VotingFor(b.genesis, b.hpd, a, day, cur), 0);
  }

  lemma DrainKeepsVotes(b: Book)
    requires Sound(b) && b.Pending()
    ensures VotesAgree(DrainChunk(b))
  {
    hide Total, Listed, RetireAll, SharesFor, VotingFor, Shape, StopsAgree, ActiveAgrees;
    var cur, chunk := Read(b.cursor, b.day), b.NextChunk();
    var listed := Listed(b.mints, b.genesis, b.hpd, b.day, cur);
    assert Open(b, b.day, cur);
    ChunkIsGood(b, b.day, cur);
    forall a
      ensures Read(b.votes, a) == Total(b.mints, VotingFor(b.genesis, b.hpd, a, b.day, cur + 1)) + SharesFor(chunk, a)
    {
      VotingSplits(b.mints, b.genesis, b.hpd, a, b.day, cur);
      SharesForByMultiset(chunk, listed, a);
    }
    forall a
      ensures Read(RetireAll(b.votes, chunk), a) == Total(b.mints, VotingFor(b.genesis, b.hpd, a, b.day, cur + 1))
    {
      forall x ensures Read(b.votes, x) >= SharesFor(chunk, x) {
        VotingIsNonNegative(b, x, b.day, cur + 1);
      }
      assert chunk[..|chunk|] == chunk;
      RetireTakesExactly(b.votes, chunk, |chunk|, a);
    }
  }

  lemma DrainKeepsShape(b: Book)
    requires Shape(b) && b.Pending()
    ensures Shape(DrainChunk(b))
  {
    var b', cur := DrainChunk(b), Read(b.cursor, b.day);
    assert b.day !in b.cursor ==> cur == 0;
    forall k | k in b'.chunks
      ensures Open(b', k.0, k.1) && 0 <= k.1 < Read(b'.count, k.0) && 1 <= |b'.chunks[k]| <= EXPIRY_CHUNK_SIZE
    {
      assert k in b.chunks && k != (b.day, cur);
      assert Open(b, k.0, k.1);
    }
  }

  lemma DrainKeepsLists(b: Book)
    requires Shape(b) && ListsAgree(b) && b.Pending()
    ensures ListsAgree(DrainChunk(b))
  {
    hide Listed, RetireAll;
    var b' := DrainChunk(b);
    forall d, n | Open(b', d, n)
      ensures multiset(b'.ChunkAt(d, n)) == multiset(Listed(b'.mints, b'.genesis, b'.hpd, d, n))
    {
      assert Open(b, d, n) && b'.ChunkAt(d, n) == b.ChunkAt(d, n);
    }
  }

  /** A drained chunk takes its mints' votes and nothing else: the book stays sound in the middle of a day. */
  lemma DrainKeeps(b: Book)
    requires Sound(b) && b.Pending()
    ensures Sound(DrainChunk(b))
  {
    DrainKeepsVotes(b);
    DrainKeepsShape(b);
    DrainKeepsLists(b);
    hide Total, Listed, RetireAll, VotesAgree, Shape, ListsAgree, MaturingOn, LiveFrom;
  }

  // ----- closing a day -----

  lemma {:induction false} NobodyListed(ms: seq<Mint>, genesis: nat, hpd: nat, d: int, n: int, j: nat)
    requires Listed(ms, genesis, hpd, d, n) == [] && j < |ms|
    ensures !(!ms[j].ended && DueDay(genesis, hpd, ms[j]) == d && ms[j].expChunk == n)
  {
    if j < |ms| - 1 { NobodyListed(ms[..|ms| - 1], genesis, hpd, d, n, j); }
  }

  /** A drained list leaves no unretired mint on the day. */
  lemma DrainedDayHasNoVoters(b: Book, j: nat)
    requires Sound(b) && !b.Pending() && j < |b.mints|
    ensures !(!b.mints[j].ended && b.MatDay(b.mints[j]) == b.day && b.mints[j].expChunk >= Read(b.cursor, b.day))
  {
    var n := b.mints[j].expChunk;
    if n >= Read(b.cursor, b.day) {
      assert Open(b, b.day, n) && (b.day, n) !in b.chunks;
      assert |multiset(Listed(b.mints, b.genesis, b.hpd, b.day, n))| == 0;
      NobodyListed(b.mints, b.genesis, b.hpd, b.day, n, j);
    }
  }

  lemma CloseDayKeepsVotes(b: Book)
    requires Sound(b) && !b.Pending()
    ensures VotesAgree(CloseDay(b))
  {
    var b' := CloseDay(b);
    assert Read(b'.cursor, b'.day) == 0;
    forall a ensures Read(b'.votes, a) == Total(b.mints, VotingFor(b.genesis, b.hpd, a, b'.day, 0)) {
      var was := VotingFor(b.genesis, b.hpd, a, b.day, Read(b.cursor, b.day));
      var will := VotingFor(b.genesis, b.hpd, a, b'.day, 0);
      forall j | 0 <= j < |b.mints| ensures was(b.mints[j]) == will(b.mints[j]) {
        DrainedDayHasNoVoters(b, j);
      }
      TotalSame(b.mints, was, will);
    }
  }

  /** What stops today is the part of the live shares that does not reach tomorrow. */
  lemma LiveSplits(b: Book)
    requires forall j | 0 <= j < |b.mints| :: GoodMint(b.mints[j])
    ensures Total(b.mints, LiveFrom(b.genesis, b.hpd, b.day))
            == Total(b.mints, LiveFrom(b.genesis, b.hpd, b.day + 1))
               + Total(b.mints, MaturingOn(b.genesis, b.hpd, b.day))
    ensures 0 <= Total(b.mints, LiveFrom(b.genesis, b.hpd, b.day + 1))
    ensures 0 <= Total(b.mints, MaturingOn(b.genesis, b.hpd, b.day))
  {
    TotalLinear(b.mints, LiveFrom(b.genesis, b.hpd, b.day), LiveFrom(b.genesis, b.hpd, b.day + 1),
                1, MaturingOn(b.genesis, b.hpd, b.day));
    TotalAtLeast(b.mints, LiveFrom(b.genesis, b.hpd, b.day + 1), 0);
    TotalAtLeast(b.mints, MaturingOn(b.genesis, b.hpd, b.day), 0);
  }

  lemma CloseDayKeepsShape(b: Book)
    requires Shape(b) && !b.Pending()
    ensures Shape(CloseDay(b)) && Read(CloseDay(b).cursor, b.day + 1) == 0
  {
    var b' := CloseDay(b);
    forall k | k in b'.chunks
      ensures Open(b', k.0, k.1) && 0 <= k.1 < Read(b'.count, k.0) && 1 <= |b'.chunks[k]| <= EXPIRY_CHUNK_SIZE
    {
      assert Open(b, k.0, k.1);
    }
    assert Read(b'.cursor, b'.day) == 0;
  }

  lemma CloseDayKeepsLists(b: Book)
    requires Shape(b) && ListsAgree(b) && !b.Pending()
    ensures ListsAgree(CloseDay(b))
  {
    hide Listed;
    var b' := CloseDay(b);
    forall d, n | Open(b', d, n)
      ensures multiset(b'.ChunkAt(d, n)) == multiset(Listed(b'.mints, b'.genesis, b'.hpd, d, n))
    {
      assert Open(b, d, n);
    }
  }

  lemma CloseDayKeepsSums(b: Book)
    requires (forall j | 0 <= j < |b.mints| :: GoodMint(b.mints[j])) && StopsAgree(b) && ActiveAgrees(b)
    ensures StopsAgree(CloseDay(b)) && ActiveAgrees(CloseDay(b))
  {
    hide Total, LiveFrom, MaturingOn;
    LiveSplits(b);
  }

  /** Closing a day whose list is drained drops exactly its mints from the denominator and the votes. */
  lemma CloseDayKeeps(b: Book)
    requires Sound(b) && !b.Pending()
    ensures Sound(CloseDay(b)) && Read(CloseDay(b).cursor, b.day + 1) == 0
  {
    CloseDayKeepsVotes(b);
    CloseDayKeepsShape(b);
    CloseDayKeepsLists(b);
    CloseDayKeepsSums(b);
    hide Total, Listed, VotesAgree, Shape, ListsAgree, StopsAgree, ActiveAgrees;
  }

  // ----- a mint joining -----

  /** The walk has not begun to drain day d. */
  predicate NotBegun(b: Book, d: int) { d > b.day || (d == b.day && Read(b.cursor, b.day) == 0) }

  lemma AppendChunkFits(b: Book, d: int)
    requires Shape(b) && NotBegun(b, d)
    ensures var n := AppendChunk(b, d);
            && 0 <= n <= Read(b.count, d) && |b.ChunkAt(d, n)| < EXPIRY_CHUNK_SIZE
            && (n == Read(b.count, d) ==> (d, n) !in b.chunks)
  {
  }

  lemma AppendKeepsShape(b: Book, d: int, e: Entry)
    requires Shape(b) && NotBegun(b, d)
    ensures Shape(Append(b, d, e))
    ensures forall x, y :: Append(b, d, e).ChunkAt(x, y)
                           == if (x, y) == (d, AppendChunk(b, d)) then b.ChunkAt(x, y) + [e] else b.ChunkAt(x, y)
  {
    AppendChunkFits(b, d);
  }

  lemma AddKeepsShape(b: Book, m: Mint)
    requires Shape(b) && GoodMint(m) && NotBegun(b, b.MatDay(m))
    ensures Shape(AddMint(b, m))
  {
    hide AppendChunk;
    AppendKeepsShape(b, b.MatDay(m), EntryOf(m));
    var b', e := AddMint(b, m), Append(b, b.MatDay(m), EntryOf(m));
    assert b'.chunks == e.chunks && b'.count == e.count && b'.cursor == e.cursor && e.exp == b.exp;
  }

  lemma AddKeepsLists(b: Book, m: Mint)
    requires Shape(b) && ListsAgree(b) && !m.ended && NotBegun(b, b.MatDay(m))
    ensures ListsAgree(AddMint(b, m))
  {
    hide Listed, AppendChunk, DueDay;
    var d, n, b' := b.MatDay(m), AppendChunk(b, b.MatDay(m)), AddMint(b, m);
    AppendKeepsShape(b, d, EntryOf(m));
    forall x, y | Open(b', x, y)
      ensures multiset(b'.ChunkAt(x, y)) == multiset(Listed(b'.mints, b'.genesis, b'.hpd, x, y))
    {
      assert Open(b, x, y);
      ListedOneMore(b.mints, m.(expChunk := n), b.genesis, b.hpd, x, y);
      DueDayOf(b.genesis, b.hpd, m, n, true);
      assert b'.ChunkAt(x, y) == Append(b, d, EntryOf(m)).ChunkAt(x, y);
      var was, listed := b.ChunkAt(x, y), Listed(b.mints, b.genesis, b.hpd, x, y);
      OneMoreOfEach(was, listed, EntryOf(m));
      if (x, y) == (d, n) {
        assert b'.ChunkAt(x, y) == was + [EntryOf(m)];
        assert Listed(b'.mints, b.genesis, b.hpd, x, y) == listed + [EntryOf(m)];
      } else {
        assert b'.ChunkAt(x, y) == was;
        assert Listed(b'.mints, b.genesis, b.hpd, x, y) == listed + [];
      }
    }
  }

  lemma OneMoreOfEach(es: seq<Entry>, fs: seq<Entry>, e: Entry)
    requires multiset(es) == multiset(fs)
    ensures multiset(es + [e]) == multiset(fs + [e]) && fs + [] == fs
  {
  }

  lemma ListedOneMore(ms: seq<Mint>, m: Mint, genesis: nat, hpd: nat, d: int, n: int)
    ensures Listed(ms + [m], genesis, hpd, d, n)
            == Listed(ms, genesis, hpd, d, n)
               + (if !m.ended && DueDay(genesis, hpd, m) == d && m.expChunk == n then [EntryOf(m)] else [])
  {
    assert (ms + [m])[..|ms|] == ms;
  }

  lemma AddKeepsSums(b: Book, m: Mint)
    requires StopsAgree(b) && VotesAgree(b) && ActiveAgrees(b) && !m.ended && NotBegun(b, b.MatDay(m))
    ensures var b' := AddMint(b, m); StopsAgree(b') && VotesAgree(b') && ActiveAgrees(b')
  {
    hide Total;
    var b', m' := AddMint(b, m), m.(expChunk := AppendChunk(b, b.MatDay(m)));
    assert b'.MatDay(m') == b.MatDay(m);
    forall d: int | d >= b.day ensures Read(b'.exp, d) == Total(b'.mints, MaturingOn(b.genesis, b.hpd, d)) {
      TotalOfOneMore(b.mints, m', MaturingOn(b.genesis, b.hpd, d));
    }
    forall a
      ensures Read(b'.votes, a) == Total(b'.mints, VotingFor(b.genesis, b.hpd, a, b.day, Read(b.cursor, b.day)))
    {
      TotalOfOneMore(b.mints, m', VotingFor(b.genesis, b.hpd, a, b.day, Read(b.cursor, b.day)));
    }
    TotalOfOneMore(b.mints, m', LiveFrom(b.genesis, b.hpd, b.day));
  }

  /** A mint whose last day is not begun enters every figure it belongs in, and no other. */
  lemma AddMintKeeps(b: Book, m: Mint)
    requires Sound(b) && GoodMint(m) && !m.ended && NotBegun(b, b.MatDay(m))
    ensures Sound(AddMint(b, m))
  {
    hide Total, Listed, StopsAgree, VotesAgree, ActiveAgrees, Append, AppendChunk;
    AppendChunkFits(b, b.MatDay(m));
    hide Shape, ListsAgree;
    AddKeepsShape(b, m);
    AddKeepsLists(b, m);
    AddKeepsSums(b, m);
  }

  // ----- a mint leaving -----

  lemma {:induction false} WithoutTakesOne(es: seq<Entry>, e: Entry)
    requires e in es
    ensures multiset(Without(es, e)) == multiset(es) - multiset{e}
    ensures |Without(es, e)| == |es| - 1
  {
    assert es == [es[0]] + es[1..];
    if es[0] != e { WithoutTakesOne(es[1..], e); }
  }

  lemma {:induction false} ListedWithoutMint(ms: seq<Mint>, i: nat, genesis: nat, hpd: nat, d: int, n: int)
    requires i < |ms| && !ms[i].ended
    ensures var m := ms[i];
            multiset(Listed(ms, genesis, hpd, d, n))
            == multiset(Listed(ms[i := m.(ended := true)], genesis, hpd, d, n))
               + (if DueDay(genesis, hpd, m) == d && m.expChunk == n then multiset{EntryOf(m)} else multiset{})
  {
    var k, ended := |ms| - 1, ms[i].(ended := true);
    if i == k {
      assert ms[i := ended][..k] == ms[..k];
    } else {
      ListedWithoutMint(ms[..k], i, genesis, hpd, d, n);
      assert ms[i := ended][..k] == ms[..k][i := ended];
    }
  }

  /** The walk has not yet taken mint i's votes: its day is ahead, or its chunk is still to drain. */
  predicate Unretired(b: Book, m: Mint) { Open(b, b.MatDay(m), m.expChunk) }

  lemma RetiredOrDrained(b: Book, m: Mint)
    requires Shape(b)
    ensures Unretired(b, m) <==> !(b.day > b.MatDay(m) || Read(b.cursor, b.MatDay(m)) > m.expChunk)
  {
    if b.MatDay(m) > b.day { assert b.MatDay(m) !in b.cursor; }
  }

  lemma ItsEntryIsListed(b: Book, i: nat)
    requires Shape(b) && ListsAgree(b) && i < |b.mints| && !b.mints[i].ended && Unretired(b, b.mints[i])
    ensures EntryOf(b.mints[i]) in b.ChunkAt(b.MatDay(b.mints[i]), b.mints[i].expChunk)
  {
    hide Listed;
    var m := b.mints[i];
    ListedWithoutMint(b.mints, i, b.genesis, b.hpd, b.MatDay(m), m.expChunk);
    assert EntryOf(m) in multiset(b.ChunkAt(b.MatDay(m), m.expChunk));
  }

  /** Taking an entry out of one chunk empties no other, and drops the chunk with its last entry. */
  lemma RemovalKeepsRows(b: Book, d: int, n: int, e: Entry)
    requires Shape(b)
    ensures Shape(b.(chunks := RemoveEntry(b.chunks, d, n, e)))
  {
    var b' := b.(chunks := RemoveEntry(b.chunks, d, n, e));
    WithoutLength(b.ChunkAt(d, n), e);
    forall k | k in b'.chunks
      ensures Open(b', k.0, k.1) && 0 <= k.1 < Read(b'.count, k.0) && 1 <= |b'.chunks[k]| <= EXPIRY_CHUNK_SIZE
    {
      assert k in b.chunks && Open(b, k.0, k.1);
    }
  }

  lemma CloseKeepsShape(b: Book, i: nat)
    requires Shape(b) && i < |b.mints|
    ensures Shape(CloseMint(b, i))
  {
    hide RemoveEntry, DueDay;
    var m := b.mints[i];
    RemovalKeepsRows(b, b.MatDay(m), m.expChunk, EntryOf(m));
  }

  lemma {:induction false} WithoutLength(es: seq<Entry>, e: Entry)
    ensures |Without(es, e)| <= |es|
  {
    if es != [] && es[0] != e { WithoutLength(es[1..], e); }
  }

  lemma RemoveEntryAt(b: Book, d: int, n: int, e: Entry, x: int, y: int)
    ensures var b' := b.(chunks := RemoveEntry(b.chunks, d, n, e));
            b'.ChunkAt(x, y) == if (x, y) == (d, n) then Without(b.ChunkAt(d, n), e) else b.ChunkAt(x, y)
  {
  }

  lemma CloseKeepsLists(b: Book, i: nat)
    requires Shape(b) && ListsAgree(b) && i < |b.mints| && !b.mints[i].ended
    ensures ListsAgree(CloseMint(b, i))
  {
    var b' := CloseMint(b, i);
    CloseFrame(b, i);
    hide CloseMint, Listed, Shape;
    forall x, y | Open(b', x, y)
      ensures multiset(b'.ChunkAt(x, y)) == multiset(Listed(b'.mints, b'.genesis, b'.hpd, x, y))
    {
      CloseKeepsList(b, i, x, y);
    }
  }

  lemma CloseFrame(b: Book, i: nat)
    requires i < |b.mints|
    ensures var b' := CloseMint(b, i);
            && b'.genesis == b.genesis && b'.hpd == b.hpd && b'.day == b.day && b'.cursor == b.cursor
            && b'.mints == b.mints[i := b.mints[i].(ended := true)]
  {
  }

  lemma CloseKeepsList(b: Book, i: nat, x: int, y: int)
    requires Shape(b) && ListsAgree(b) && i < |b.mints| && !b.mints[i].ended && Open(b, x, y)
    ensures var b' := CloseMint(b, i);
            multiset(b'.ChunkAt(x, y)) == multiset(Listed(b'.mints, b'.genesis, b'.hpd, x, y))
  {
    hide Listed, Without, CloseMint, Shape, DueDay, ListsAgree;
    CloseFrame(b, i);
    ClosedChunkAt(b, i, x, y);
    ListsAgreeAt(b, x, y);
    ListedWithoutMint(b.mints, i, b.genesis, b.hpd, x, y);
    var m := b.mints[i];
    if Unretired(b, m) {
      ItsEntryIsListed(b, i);
      WithoutTakesOne(b.ChunkAt(b.MatDay(m), m.expChunk), EntryOf(m));
    }
  }

  lemma ListsAgreeAt(b: Book, x: int, y: int)
    requires ListsAgree(b) && Open(b, x, y)
    ensures multiset(b.ChunkAt(x, y)) == multiset(Listed(b.mints, b.genesis, b.hpd, x, y))
  {
    hide Listed;
  }

  /** A close touches one chunk, and only while the walk has not drained it. */
  lemma ClosedChunkAt(b: Book, i: nat, x: int, y: int)
    requires Shape(b) && i < |b.mints|
    ensures var m := b.mints[i];
            CloseMint(b, i).ChunkAt(x, y)
            == if Unretired(b, m) && (x, y) == (b.MatDay(m), m.expChunk) then Without(b.ChunkAt(x, y), EntryOf(m))
               else b.ChunkAt(x, y)
  {
    RetiredOrDrained(b, b.mints[i]);
    RemoveEntryAt(b, b.MatDay(b.mints[i]), b.mints[i].expChunk, EntryOf(b.mints[i]), x, y);
    hide RemoveEntry, Without, Shape, DueDay, Unretired;
  }

  lemma CloseKeepsVotes(b: Book, i: nat)
    requires Shape(b) && VotesAgree(b) && i < |b.mints| && !b.mints[i].ended
    requires forall j | 0 <= j < |b.mints| :: GoodMint(b.mints[j])
    ensures VotesAgree(CloseMint(b, i))
  {
    hide Total, Listed, Without;
    var m, b' := b.mints[i], CloseMint(b, i);
    RetiredOrDrained(b, m);
    forall a
      ensures Read(b'.votes, a) == Total(b'.mints, VotingFor(b.genesis, b.hpd, a, b.day, Read(b.cursor, b.day)))
    {
      var w := VotingFor(b.genesis, b.hpd, a, b.day, Read(b.cursor, b.day));
      TotalUpdate(b.mints, i, m.(ended := true), w);
      TotalAtLeast(b.mints, w, i);
    }
  }

  lemma CloseKeepsSums(b: Book, i: nat)
    requires StopsAgree(b) && ActiveAgrees(b) && i < |b.mints| && !b.mints[i].ended
    requires forall j | 0 <= j < |b.mints| :: GoodMint(b.mints[j])
    ensures StopsAgree(CloseMint(b, i)) && ActiveAgrees(CloseMint(b, i))
  {
    hide Total, Listed, Without;
    var m, b' := b.mints[i], CloseMint(b, i);
    forall d: int | d >= b.day ensures Read(b'.exp, d) == Total(b'.mints, MaturingOn(b.genesis, b.hpd, d)) {
      var w := MaturingOn(b.genesis, b.hpd, d);
      TotalUpdate(b.mints, i, m.(ended := true), w);
      TotalAtLeast(b.mints, w, i);
    }
    TotalUpdate(b.mints, i, m.(ended := true), LiveFrom(b.genesis, b.hpd, b.day));
  }

  /**
   * A mint closed at any moment, even in the middle of its own day's drain, leaves nothing behind
   * and takes nothing twice.
   */
  lemma CloseMintKeeps(b: Book, i: nat)
    requires Sound(b) && i < |b.mints| && !b.mints[i].ended
    ensures Sound(CloseMint(b, i))
  {
    hide Total, Listed, Shape, ListsAgree, StopsAgree, VotesAgree, ActiveAgrees, RemoveEntry;
    CloseKeepsShape(b, i);
    CloseKeepsLists(b, i);
    CloseKeepsVotes(b, i);
    CloseKeepsSums(b, i);
  }

  // ----- arming -----

  function ArmMint(b: Book, i: nat): Book
    requires i < |b.mints|
  {
    b.(mints := b.mints[i := b.mints[i].(goodAccounting := true)])
  }

  lemma {:induction false} ListedArmed(ms: seq<Mint>, i: nat, genesis: nat, hpd: nat, d: int, n: int)
    requires i < |ms|
    ensures Listed(ms[i := ms[i].(goodAccounting := true)], genesis, hpd, d, n) == Listed(ms, genesis, hpd, d, n)
  {
    var k, armed := |ms| - 1, ms[i].(goodAccounting := true);
    if i == k {
      assert ms[i := armed][..k] == ms[..k];
    } else {
      ListedArmed(ms[..k], i, genesis, hpd, d, n);
      assert ms[i := armed][..k] == ms[..k][i := armed];
    }
  }

  /** Arming moves no share: the book reads a mint's owner, shares, clock and place, never that flag. */
  lemma ArmMintKeeps(b: Book, i: nat)
    requires Sound(b) && i < |b.mints|
    ensures Sound(ArmMint(b, i))
  {
    hide Total, Listed, Shape;
    var b', armed := ArmMint(b, i), b.mints[i].(goodAccounting := true);
    forall d, n | Open(b', d, n)
      ensures multiset(b'.ChunkAt(d, n)) == multiset(Listed(b'.mints, b'.genesis, b'.hpd, d, n))
    {
      assert Open(b, d, n) && b'.ChunkAt(d, n) == b.ChunkAt(d, n);
      ListedArmed(b.mints, i, b.genesis, b.hpd, d, n);
    }
    forall d: int | d >= b.day ensures Read(b'.exp, d) == Total(b'.mints, MaturingOn(b.genesis, b.hpd, d)) {
      TotalUpdate(b.mints, i, armed, MaturingOn(b.genesis, b.hpd, d));
    }
    forall a
      ensures Read(b'.votes, a) == Total(b'.mints, VotingFor(b.genesis, b.hpd, a, b.day, Read(b.cursor, b.day)))
    {
      TotalUpdate(b.mints, i, armed, VotingFor(b.genesis, b.hpd, a, b.day, Read(b.cursor, b.day)));
    }
    TotalUpdate(b.mints, i, armed, LiveFrom(b.genesis, b.hpd, b.day));
    ArmKeepsShape(b, i);
  }

  lemma ArmKeepsShape(b: Book, i: nat)
    requires Shape(b) && i < |b.mints|
    ensures Shape(ArmMint(b, i))
  {
  }
}
