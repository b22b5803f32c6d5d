/**
 * The migration snapshot tree. Byte strings are modelled as strings, one char a byte,
 * and SHA-256 as an arbitrary function `sha` to 32-byte digests.
 */
module Merkle {
  import opened Units

  type Hash = s: string | |s| == 32 witness "................................"

  const MAX_PROOF_LEN := 32
  const LEAF_DOMAIN := "lassecash-migration-leaf-v1|"
  const ZERO_HASH: Hash := seq(32, _ => '\0')

  // ----- the text of a leaf -----

  function Digit(d: nat): char
    requires d < 10
  {
    ('0' as int + d) as char
  }

  function Digits(n: nat): string {
    (if n < 10 then "" else Digits(n / 10)) + [Digit(n % 10)]
  }

  /** The decimal text itoa leaves; negating the smallest int64 leaves it negative, so only its sign is written. */
  function Itoa(v: int): string
    requires IsInt64(v)
  {
    if v == 0 then "0"
    else if v == -TWO_63 then "-"
    else if v < 0 then "-" + Digits(-v)
    else Digits(v)
  }

  /** How many decimal digits are left to write. */
  function DigitCount(n: nat): nat { if n == 0 then 0 else 1 + DigitCount(n / 10) }

  lemma PowValues()
    ensures Pow(2, 32) == 0x1_0000_0000 && Pow(10, 19) == 10_000_000_000_000_000_000
  {
    assert Pow(2, 4) == 16 && Pow(10, 4) == 10_000 && Pow(10, 3) == 1000;
    PowAdd(2, 4, 4);
    PowAdd(2, 8, 8);
    PowAdd(2, 16, 16);
    PowAdd(10, 4, 4);
    PowAdd(10, 8, 8);
    PowAdd(10, 16, 3);
  }

  lemma {:induction false} DigitCountBound(n: nat, k: nat)
    requires n < Pow(10, k)
    ensures DigitCount(n) <= k
  {
    if n > 0 && k > 0 { DigitCountBound(n / 10, k - 1); }
  }

  lemma Int64HasNineteenDigits(v: int)
    requires IsInt64(v)
    ensures v > 0 ==> DigitCount(v) <= 19
    ensures -TWO_63 < v < 0 ==> DigitCount(-v) <= 19
  {
    PowValues();
    if v > -TWO_63 { DigitCountBound(Abs(v), 19); }
  }

  /** The digits the loop still has to write; it writes none for a negative v. */
  function Unwritten(v: int): string { if v > 0 then Digits(v) else "" }

  /** One turn of the loop writes the last digit. */
  lemma LastDigit(v: int)
    requires v > 0
    ensures Unwritten(v) == Unwritten(v / 10) + [Digit(v % 10)]
    ensures DigitCount(v) == 1 + DigitCount(v / 10) && v / 10 >= 0
  {
  }

  lemma NothingLeft(v: int)
    ensures v <= 0 ==> Unwritten(v) == ""
    ensures v > 0 ==> DigitCount(v) >= 1
  {
  }

  lemma WhatItoaWrites(v0: int)
    requires IsInt64(v0) && v0 != 0
    ensures Itoa(v0) == if v0 < 0 then "-" + Unwritten(Wrap64(-v0)) else Unwritten(v0)
    ensures v0 < 0 ==> Wrap64(-v0) == if v0 == -TWO_63 then v0 else -v0
    ensures v0 == -TWO_63 ==> Unwritten(v0) == "" && Unwritten(0) == ""
  {
  }

  /** Fills buf from its end with the digits of v0 and returns where they start; writes none for v0 <= 0. */
  method WriteDigits(buf: array<char>, v0: int) returns (i: nat)
    requires v0 > 0 ==> DigitCount(v0) < buf.Length
    modifies buf
    ensures i <= buf.Length && buf[i..] == Unwritten(v0)
    ensures buf.Length > 0 ==> i > 0
  {
    hide Unwritten, Digits, DigitCount, Digit;
    NothingLeft(v0);
    var v := v0;
    i := buf.Length;
    assert buf[i..] == [];
    while v > 0
      invariant i <= buf.Length && (v > 0 ==> DigitCount(v) < i) && (buf.Length > 0 ==> i > 0)
      invariant Unwritten(v) + buf[i..] == Unwritten(v0)
      invariant v <= 0 ==> Unwritten(v) == ""
    {
      LastDigit(v);
      NothingLeft(v / 10);
      i := i - 1;
      ghost var tail := buf[i + 1..];
      buf[i] := Digit(v % 10);
      assert buf[i..] == [Digit(v % 10)] + tail;
      v := v / 10;
    }
  }

  method ComputeItoa(v0: int) returns (text: string)
    requires IsInt64(v0)
    ensures text == Itoa(v0)
  {
    hide Unwritten, Digits, DigitCount, Itoa, Wrap64;
    if v0 == 0 {
      ZeroIsItsDigit();
      return "0";
    }
    WhatItoaWrites(v0);
    Int64HasNineteenDigits(v0);
    var v := v0;
    var neg := v < 0;
    if neg {
      v := Wrap64(-v);
    }
    var buf := new char[20];
    var i := WriteDigits(buf, v);
    if neg {
      ghost var digits := buf[i..];
      i := i - 1;
      buf[i] := '-';
      assert buf[i..] == ['-'] + digits;
    }
    text := buf[i..];
  }

  lemma ZeroIsItsDigit()
    ensures Itoa(0) == "0"
  {
  }

  function LeafText(account: string, liquid: int, staked: int, burned: bool): string
    requires IsInt64(liquid) && IsInt64(staked)
  {
    LEAF_DOMAIN + account + "|" + Itoa(liquid) + "|" + Itoa(staked) + "|" + (if burned then "b" else "m")
  }

  function Value(s: string): int {
    if s == "" then 0 else 10 * Value(s[..|s| - 1]) + (s[|s| - 1] as int - '0' as int)
  }

  lemma {:induction false} DigitsParse(n: nat)
    ensures Value(Digits(n)) == n
    ensures Digits(n) != "" && forall c | c in Digits(n) :: '0' <= c <= '9'
  {
    var front := if n < 10 then "" else Digits(n / 10);
    if n >= 10 { DigitsParse(n / 10); }
    assert Digits(n)[..|Digits(n)| - 1] == front;
  }

  /**
   * A positive amount is written in decimal digits, the first not zero, that read back as it; a
   * negative one after a sign.
   */
  lemma ItoaIsDecimal(v: int)
    requires -TWO_63 < v < TWO_63
    ensures v > 0 ==> Value(Itoa(v)) == v && Itoa(v)[0] != '0' && forall c | c in Itoa(v) :: '0' <= c <= '9'
    ensures v < 0 ==> Itoa(v) == "-" + Itoa(-v)
  {
    if v > 0 {
      DigitsParse(v);
      NoLeadingZero(v);
    }
  }

  lemma {:induction false} NoLeadingZero(n: nat)
    requires n > 0
    ensures Digits(n) != "" && Digits(n)[0] != '0'
  {
    if n >= 10 { NoLeadingZero(n / 10); }
  }

  /** The text of a leaf, field by field. */
  lemma LeafTextSpelledOut()
    ensures LeafText("hive:alice", 0, 0, false) == "lassecash-migration-leaf-v1|hive:alice|0|0|m"
    ensures LeafText("hive:bob", 12, 305, true) == "lassecash-migration-leaf-v1|hive:bob|12|305|b"
  {
    hide Itoa;
    SmallNumbers();
  }

  lemma SmallNumbers()
    ensures Itoa(0) == "0" && Itoa(12) == "12" && Itoa(305) == "305"
  {
    assert Digits(1) == "1" && Digits(3) == "3";
    assert Digits(12) == Digits(1) + "2" == "12";
    assert Digits(30) == Digits(3) + "0" == "30";
    assert Digits(305) == Digits(30) + "5" == "305";
  }

  lemma ItoaChars(v: int)
    requires IsInt64(v)
    ensures Itoa(v) != "" && '|' !in Itoa(v)
  {
    DigitsParse(Abs(v));
  }

  lemma ItoaInjective(v: int, w: int)
    requires IsInt64(v) && IsInt64(w) && Itoa(v) == Itoa(w)
    ensures v == w
  {
    DigitsParse(Abs(v));
    DigitsParse(Abs(w));
    assert v < 0 <==> Itoa(v)[0] == '-' by {
      if v > 0 { assert Itoa(v)[0] in Digits(v); }
    }
    assert w < 0 <==> Itoa(w)[0] == '-' by {
      if w > 0 { assert Itoa(w)[0] in Digits(w); }
    }
    if v < 0 {
      assert v == -TWO_63 || Itoa(v)[1..] == Digits(-v);
      assert w == -TWO_63 || Itoa(w)[1..] == Digits(-w);
    } else {
      assert Itoa(0) == Digits(0);
    }
  }

  /** Text after the last separator is determined by the whole text. */
  lemma LastFieldUnique(p: string, q: string, p': string, q': string)
    requires '|' !in q && '|' !in q' && p + "|" + q == p' + "|" + q'
    ensures p == p' && q == q'
  {
    var t := p + "|" + q;
    assert t[|p|] == '|' && t[|p'|] == '|';
    assert forall k | |p| < k < |t| :: t[k] == q[k - |p| - 1];
    assert forall k | |p'| < k < |t| :: t[k] == q'[k - |p'| - 1];
    assert |p| == |p'|;
    assert p == t[..|p|] && p' == t[..|p|] && q == t[|p| + 1..] && q' == t[|p| + 1..];
  }

  /** A leaf's text determines its entry, whatever characters the account contains and whatever the two amounts. */
  lemma LeafTextInjective(a: string, l: int, s: int, b: bool, a': string, l': int, s': int, b': bool)
    requires IsInt64(l) && IsInt64(s) && IsInt64(l') && IsInt64(s')
    requires LeafText(a, l, s, b) == LeafText(a', l', s', b')
    ensures a == a' && l == l' && s == s' && b == b'
  {
    hide Itoa;
    var head, head' := LEAF_DOMAIN + a, LEAF_DOMAIN + a';
    var k, k' := if b then "b" else "m", if b' then "b" else "m";
    ItoaChars(l);
    ItoaChars(s);
    ItoaChars(l');
    ItoaChars(s');
    LastFieldUnique(head + "|" + Itoa(l) + "|" + Itoa(s), k, head' + "|" + Itoa(l') + "|" + Itoa(s'), k');
    LastFieldUnique(head + "|" + Itoa(l), Itoa(s), head' + "|" + Itoa(l'), Itoa(s'));
    LastFieldUnique(head, Itoa(l), head', Itoa(l'));
    ItoaInjective(l, l');
    ItoaInjective(s, s');
    assert a == head[|LEAF_DOMAIN|..] && a' == head'[|LEAF_DOMAIN|..];
  }

  // ----- hashing -----

  /** Byte order: the first differing byte decides. */
  predicate LessHash(a: string, b: string)
    requires |a| == |b|
  {
    |a| > 0 && (if a[0] != b[0] then a[0] < b[0] else LessHash(a[1..], b[1..]))
  }

  /** What is hashed for two children: the smaller first. */
  function Pair(a: Hash, b: Hash): string {
    if LessHash(b, a) then b + a else a + b
  }

  /** At the first place they differ a has the smaller byte. */
  ghost predicate SmallerAt(a: string, b: string, k: nat) {
    k < |a| && k < |b| && a[..k] == b[..k] && a[k] < b[k]
  }

  lemma {:induction false} LessHashExactly(a: string, b: string)
    requires |a| == |b|
    ensures LessHash(a, b) <==> exists k: nat :: SmallerAt(a, b, k)
  {
    if |a| > 0 {
      LessHashExactly(a[1..], b[1..]);
      assert a == [a[0]] + a[1..] && b == [b[0]] + b[1..];
      if a[0] < b[0] { assert SmallerAt(a, b, 0); }
      if k: nat :| SmallerAt(a[1..], b[1..], k) && a[0] == b[0] {
        assert a[..k + 1] == [a[0]] + a[1..][..k] && b[..k + 1] == [b[0]] + b[1..][..k];
        assert SmallerAt(a, b, k + 1);
      }
      if k: nat :| SmallerAt(a, b, k) && k > 0 {
        assert a[..k][0] == b[..k][0];
        assert a[1..][..k - 1] == a[..k][1..] && b[1..][..k - 1] == b[..k][1..];
        assert SmallerAt(a[1..], b[1..], k - 1);
      }
    }
  }

  /** What is hashed holds both children, the one with the smaller byte at the first difference in front. */
  lemma SmallerChildFirst(a: Hash, b: Hash)
    ensures |Pair(a, b)| == 64 && multiset{Pair(a, b)[..32], Pair(a, b)[32..]} == multiset{a, b}
    ensures a != b ==> exists k: nat :: SmallerAt(Pair(a, b)[..32], Pair(a, b)[32..], k)
  {
    PairHalves(a, b);
    LessTotal(a, b);
    LessHashExactly(a, b);
    LessHashExactly(b, a);
  }

  function ParentHash(sha: string -> Hash, a: Hash, b: Hash): Hash { sha(Pair(a, b)) }

  lemma {:induction false} LessTotal(a: string, b: string)
    requires |a| == |b|
    ensures !(LessHash(a, b) && LessHash(b, a))
    ensures a != b ==> LessHash(a, b) || LessHash(b, a)
  {
    if |a| > 0 {
      LessTotal(a[1..], b[1..]);
      if a[0] == b[0] && a[1..] == b[1..] { assert a == [a[0]] + a[1..] && b == [b[0]] + b[1..]; }
    }
  }

  /** No left/right bit is needed: the pair is the same in either order. */
  lemma PairSymmetric(a: Hash, b: Hash)
    ensures Pair(a, b) == Pair(b, a)
  {
    LessTotal(a, b);
  }

  lemma PairHalves(a: Hash, b: Hash)
    ensures |Pair(a, b)| == 64
    ensures (Pair(a, b)[..32] == a && Pair(a, b)[32..] == b) || (Pair(a, b)[..32] == b && Pair(a, b)[32..] == a)
  {
  }

  lemma PairInjective(a: Hash, b: Hash, c: Hash, d: Hash)
    requires Pair(a, b) == Pair(c, d)
    ensures (a == c && b == d) || (a == d && b == c)
  {
    PairHalves(a, b);
    PairHalves(c, d);
  }

  /** A leaf walked up through its siblings. */
  function Climb(sha: string -> Hash, leaf: Hash, proof: seq<Hash>): Hash {
    if proof == [] then leaf
    else ParentHash(sha, Climb(sha, leaf, proof[..|proof| - 1]), proof[|proof| - 1])
  }

  predicate Verifies(sha: string -> Hash, leaf: Hash, proof: seq<Hash>, root: Hash) {
    |proof| <= MAX_PROOF_LEN && Climb(sha, leaf, proof) == root
  }

  method VerifyProof(sha: string -> Hash, leaf: Hash, proof: seq<Hash>, root: Hash) returns (accepted: bool)
    ensures accepted == Verifies(sha, leaf, proof, root)
  {
    if |proof| > MAX_PROOF_LEN {
      return false;
    }
    var h := leaf;
    for k := 0 to |proof|
      invariant h == Climb(sha, leaf, proof[..k])
    {
      assert proof[..k + 1][..k] == proof[..k];
      h := ParentHash(sha, h, proof[k]);
    }
    assert proof[..|proof|] == proof;
    return h == root;
  }

  // ----- the tree -----

  /** Node i of the level above: the parent of a pair, or an odd last node promoted unchanged. */
  function Above(sha: string -> Hash, level: seq<Hash>, i: nat): Hash
    requires 2 * i < |level|
  {
    if 2 * i + 1 < |level| then ParentHash(sha, level[2 * i], level[2 * i + 1]) else level[2 * i]
  }

  function NextLevel(sha: string -> Hash, level: seq<Hash>): (next: seq<Hash>)
    ensures |next| == (|level| + 1) / 2
    ensures forall i: nat | i < |next| :: next[i] == Above(sha, level, i)
  {
    seq((|level| + 1) / 2, i requires 0 <= i < (|level| + 1) / 2 => Above(sha, level, i))
  }

  function RootOf(sha: string -> Hash, level: seq<Hash>): Hash
    requires |level| > 0
    decreases |level|
  {
    if |level| == 1 then level[0] else RootOf(sha, NextLevel(sha, level))
  }

  /** The tree of up to five leaves: neighbours are paired, level by level, and an odd last one moves up as it is. */
  lemma SmallTrees(sha: string -> Hash, a: Hash, b: Hash, c: Hash, d: Hash, e: Hash)
    ensures var (ab, cd) := (sha(Pair(a, b)), sha(Pair(c, d)));
            && RootOf(sha, [a]) == a && RootOf(sha, [a, b]) == ab
            && RootOf(sha, [a, b, c]) == sha(Pair(ab, c))
            && RootOf(sha, [a, b, c, d]) == sha(Pair(ab, cd))
            && RootOf(sha, [a, b, c, d, e]) == sha(Pair(sha(Pair(ab, cd)), e))
  {
    hide Pair, RootOf;
    var (ab, cd) := (sha(Pair(a, b)), sha(Pair(c, d)));
    RootOfOne(sha, a);
    RootOfTwo(sha, a, b);
    RootOfTwo(sha, ab, c);
    RootOfTwo(sha, ab, cd);
    RootOfTwo(sha, sha(Pair(ab, cd)), e);
    RootMovesUp(sha, [a, b, c], [ab, c]);
    RootMovesUp(sha, [a, b, c, d], [ab, cd]);
    RootMovesUp(sha, [a, b, c, d, e], [ab, cd, e]);
    RootMovesUp(sha, [ab, cd, e], [sha(Pair(ab, cd)), e]);
  }

  lemma RootOfOne(sha: string -> Hash, a: Hash)
    ensures RootOf(sha, [a]) == a
  {
  }

  lemma RootOfTwo(sha: string -> Hash, a: Hash, b: Hash)
    ensures RootOf(sha, [a, b]) == sha(Pair(a, b))
  {
    hide Pair;
    RootMovesUp(sha, [a, b], [sha(Pair(a, b))]);
    RootOfOne(sha, sha(Pair(a, b)));
  }

  lemma RootMovesUp(sha: string -> Hash, level: seq<Hash>, next: seq<Hash>)
    requires |level| > 1 && |next| == (|level| + 1) / 2
    requires forall i: nat | i < |next| :: next[i] == Above(sha, level, i)
    ensures RootOf(sha, level) == RootOf(sha, next)
  {
    hide Above;
    assert NextLevel(sha, level) == next;
  }

  /** pos ^ 1 */
  function Sibling(pos: nat): nat { if pos % 2 == 0 then pos + 1 else pos - 1 }

  function ProofOf(sha: string -> Hash, level: seq<Hash>, pos: nat): seq<Hash>
    requires pos < |level|
    decreases |level|
  {
    if |level| == 1 then []
    else SiblingIn(level, pos) + ProofOf(sha, NextLevel(sha, level), pos / 2)
  }

  function SiblingIn(level: seq<Hash>, pos: nat): seq<Hash> {
    if Sibling(pos) < |level| then [level[Sibling(pos)]] else []
  }

  /** Leaf k stands at position pos of this level, and what is left of its proof is that position's. */
  ghost predicate OnTrack(
      sha: string -> Hash, leaves: seq<Hash>, k: nat, level: seq<Hash>, pos: nat, proof: seq<Hash>)
    requires k < |leaves|
  {
    pos < |level| && proof + ProofOf(sha, level, pos) == ProofOf(sha, leaves, k)
  }

  lemma StaysOnTrack(sha: string -> Hash, leaves: seq<Hash>, k: nat, level: seq<Hash>, pos: nat, proof: seq<Hash>)
    requires k < |leaves| && |level| > 1 && OnTrack(sha, leaves, k, level, pos, proof)
    ensures OnTrack(sha, leaves, k, NextLevel(sha, level), pos / 2, proof + SiblingIn(level, pos))
  {
    var rest := ProofOf(sha, NextLevel(sha, level), pos / 2);
    assert proof + SiblingIn(level, pos) + rest == proof + (SiblingIn(level, pos) + rest);
  }

  method BuildTree(sha: string -> Hash, leaves: seq<Hash>) returns (root: Hash, proofs: array<seq<Hash>>)
    ensures fresh(proofs) && proofs.Length == |leaves|
    ensures leaves == [] ==> root == ZERO_HASH
    ensures leaves != [] ==> root == RootOf(sha, leaves)
    ensures forall i | 0 <= i < |leaves| :: proofs[i] == ProofOf(sha, leaves, i)
  {
    hide ParentHash, Above, OnTrack;
    var n := |leaves|;
    proofs := new seq<Hash>[n](_ => []);
    if n == 0 {
      root := ZERO_HASH;
      return;
    }
    var level := leaves;
    var idx := new nat[n](i => i);
    StartsOnTrack(sha, leaves);
    while |level| > 1
      invariant |level| > 0 && RootOf(sha, level) == RootOf(sha, leaves)
      invariant forall k | 0 <= k < n :: OnTrack(sha, leaves, k, level, idx[k], proofs[k])
      decreases |level|
    {
      var next := BuildLevel(sha, level);
      for leaf := 0 to n
        invariant forall k | leaf <= k < n :: OnTrack(sha, leaves, k, level, idx[k], proofs[k])
        invariant forall k | 0 <= k < leaf :: OnTrack(sha, leaves, k, next, idx[k], proofs[k])
      {
        var pos := idx[leaf];
        StaysOnTrack(sha, leaves, leaf, level, pos, proofs[leaf]);
        assert proofs[leaf] + [] == proofs[leaf];
        var sib := Sibling(pos);
        if sib < |level| {
          proofs[leaf] := proofs[leaf] + [level[sib]];
        }
        idx[leaf] := pos / 2;
      }
      level := next;
    }
    root := level[0];
    EndOfTrack(sha, leaves, level);
  }

  lemma StartsOnTrack(sha: string -> Hash, leaves: seq<Hash>)
    ensures forall k | 0 <= k < |leaves| :: OnTrack(sha, leaves, k, leaves, k, [])
  {
    forall k | 0 <= k < |leaves| ensures OnTrack(sha, leaves, k, leaves, k, []) {
      assert [] + ProofOf(sha, leaves, k) == ProofOf(sha, leaves, k);
    }
  }

  lemma EndOfTrack(sha: string -> Hash, leaves: seq<Hash>, level: seq<Hash>)
    requires |level| == 1
    ensures forall k: nat, pos, proof | k < |leaves| && OnTrack(sha, leaves, k, level, pos, proof) ::
              proof == ProofOf(sha, leaves, k)
  {
    forall k: nat, pos, proof | k < |leaves| && OnTrack(sha, leaves, k, level, pos, proof)
      ensures proof == ProofOf(sha, leaves, k)
    {
      assert proof + [] == proof;
    }
  }

  method BuildLevel(sha: string -> Hash, level: seq<Hash>) returns (next: seq<Hash>)
    ensures next == NextLevel(sha, level)
  {
    next := [];
    var i := 0;
    while i < |level|
      invariant i % 2 == 0 && 0 <= i <= |level| + 1 && |next| == i / 2
      invariant next == NextLevel(sha, level)[..i / 2]
    {
      if i + 1 < |level| {
        next := next + [ParentHash(sha, level[i], level[i + 1])];
      } else {
        next := next + [level[i]]; // the odd one out is promoted
      }
      i := i + 2;
    }
  }

  lemma {:induction false} ClimbInTwo(sha: string -> Hash, leaf: Hash, first: seq<Hash>, second: seq<Hash>)
    ensures Climb(sha, leaf, first + second) == Climb(sha, Climb(sha, leaf, first), second)
    decreases |second|
  {
    var whole := first + second;
    if second == [] {
      assert whole == first;
    } else {
      ClimbInTwo(sha, leaf, first, second[..|second| - 1]);
      assert whole[..|whole| - 1] == first + second[..|second| - 1];
    }
  }

  lemma OneStepUp(sha: string -> Hash, level: seq<Hash>, pos: nat)
    requires pos < |level|
    ensures Climb(sha, level[pos], SiblingIn(level, pos)) == Above(sha, level, pos / 2)
  {
    var step := SiblingIn(level, pos);
    if Sibling(pos) < |level| {
      assert step[..0] == [];
      assert Climb(sha, level[pos], step) == ParentHash(sha, level[pos], level[Sibling(pos)]);
      PairSymmetric(level[pos], level[Sibling(pos)]);
    }
  }

  /** Every proof of the tree climbs from its own leaf to the root, in at most k steps for at most 2^k leaves. */
  lemma {:induction false} ProofClimbs(sha: string -> Hash, level: seq<Hash>, pos: nat, k: nat)
    requires pos < |level|
    ensures Climb(sha, level[pos], ProofOf(sha, level, pos)) == RootOf(sha, level)
    ensures |level| <= Pow(2, k) ==> |ProofOf(sha, level, pos)| <= k
    decreases |level|
  {
    if |level| > 1 {
      var next := NextLevel(sha, level);
      ProofClimbs(sha, next, pos / 2, if k > 0 then k - 1 else 0);
      OneStepUp(sha, level, pos);
      ClimbInTwo(sha, level[pos], SiblingIn(level, pos), ProofOf(sha, next, pos / 2));
    }
  }

  /** Completeness: for up to 2^32 leaves, every proof BuildTree returns is accepted for its own leaf. */
  lemma EveryLeafVerifies(sha: string -> Hash, leaves: seq<Hash>, pos: nat)
    requires pos < |leaves| <= 0x1_0000_0000
    ensures Verifies(sha, leaves[pos], ProofOf(sha, leaves, pos), RootOf(sha, leaves))
  {
    PowValues();
    ProofClimbs(sha, leaves, pos, 32);
  }

  // ----- soundness -----

  function Hashes(sha: string -> Hash, texts: seq<string>): (hs: seq<Hash>)
    ensures |hs| == |texts| && forall i | 0 <= i < |hs| :: hs[i] == sha(texts[i])
  {
    seq(|texts|, i requires 0 <= i < |texts| => sha(texts[i]))
  }

  ghost function PairAt(level: seq<Hash>, i: nat): string
    requires 2 * i + 1 < |level|
  {
    Pair(level[2 * i], level[2 * i + 1])
  }

  /** Every string hashed above a level while building the tree. */
  ghost function TreeInputs(sha: string -> Hash, level: seq<Hash>): set<string>
    decreases |level|
  {
    if |level| <= 1 then {}
    else
      (set i: nat | i < |level| && 2 * i + 1 < |level| :: PairAt(level, i))
      + TreeInputs(sha, NextLevel(sha, level))
  }

  /** Every string hashed while climbing a proof. */
  ghost function ClimbInputs(sha: string -> Hash, leaf: Hash, proof: seq<Hash>): set<string> {
    if proof == [] then {}
    else
      var lower := proof[..|proof| - 1];
      ClimbInputs(sha, leaf, lower) + {Pair(Climb(sha, leaf, lower), proof[|proof| - 1])}
  }

  /** The strings hashed for one tree and one claimed leaf: all there are to collide. */
  ghost function Hashed(sha: string -> Hash, texts: seq<string>, text: string, proof: seq<Hash>): set<string> {
    (set t | t in texts) + {text} + TreeInputs(sha, Hashes(sha, texts)) + ClimbInputs(sha, sha(text), proof)
  }

  ghost predicate NoCollision(sha: string -> Hash, inputs: set<string>) {
    forall x, y | x in inputs && y in inputs && sha(x) == sha(y) :: x == y
  }

  /** No digest of these inputs is spelled out as the first or second half of a 64-byte leaf text. */
  ghost predicate NoDigestInText(sha: string -> Hash, inputs: set<string>, text: string) {
    forall x | x in inputs && |text| == 64 :: sha(x) != text[..32] && sha(x) != text[32..]
  }

  ghost predicate IsDigest(sha: string -> Hash, inputs: set<string>, h: Hash) {
    exists x :: x in inputs && sha(x) == h
  }

  lemma {:induction false} ClimbIsDigest(sha: string -> Hash, inputs: set<string>, text: string, proof: seq<Hash>)
    requires text in inputs && ClimbInputs(sha, sha(text), proof) <= inputs
    ensures IsDigest(sha, inputs, Climb(sha, sha(text), proof))
  {
    if proof != [] {
      var lower := proof[..|proof| - 1];
      assert Pair(Climb(sha, sha(text), lower), proof[|proof| - 1]) in inputs;
    }
  }

  lemma NextLevelDigests(sha: string -> Hash, inputs: set<string>, level: seq<Hash>)
    requires |level| > 1 && TreeInputs(sha, level) <= inputs
    requires forall h | h in level :: IsDigest(sha, inputs, h)
    ensures forall h | h in NextLevel(sha, level) :: IsDigest(sha, inputs, h)
    ensures TreeInputs(sha, NextLevel(sha, level)) <= inputs
  {
    var next := NextLevel(sha, level);
    forall h | h in next ensures IsDigest(sha, inputs, h) {
      var i: nat :| i < |next| && next[i] == h;
      if 2 * i + 1 < |level| {
        assert PairAt(level, i) in TreeInputs(sha, level);
      } else {
        assert level[2 * i] in level;
      }
    }
  }

  lemma {:induction false} ClimbInputsPrefix(sha: string -> Hash, leaf: Hash, proof: seq<Hash>, j: nat)
    requires j <= |proof|
    ensures ClimbInputs(sha, leaf, proof[..j]) <= ClimbInputs(sha, leaf, proof)
  {
    if j == |proof| {
      assert proof[..j] == proof;
    } else {
      var lower := proof[..|proof| - 1];
      ClimbInputsPrefix(sha, leaf, lower, j);
      assert lower[..j] == proof[..j];
    }
  }

  /** A string both hashed in the tree and equal to a leaf text would spell a digest in that text. */
  lemma TextIsNoPair(sha: string -> Hash, inputs: set<string>, text: string, a: Hash, b: Hash)
    requires NoDigestInText(sha, inputs, text) && (IsDigest(sha, inputs, a) || IsDigest(sha, inputs, b))
    ensures text != Pair(a, b)
  {
    PairHalves(a, b);
    var h := if IsDigest(sha, inputs, a) then a else b;
    var x :| x in inputs && sha(x) == h;
  }

  /** What climbs to the parent of a and b stood, one sibling earlier, on one of the two. */
  lemma OneDown(sha: string -> Hash, inputs: set<string>, text: string, proof: seq<Hash>, j: nat, a: Hash, b: Hash)
    requires 0 < j <= |proof| && Pair(a, b) in inputs && Climb(sha, sha(text), proof[..j]) == sha(Pair(a, b))
    requires ClimbInputs(sha, sha(text), proof) <= inputs && NoCollision(sha, inputs)
    ensures Climb(sha, sha(text), proof[..j - 1]) in [a, b]
  {
    ClimbInputsPrefix(sha, sha(text), proof, j);
    var lower := proof[..j - 1];
    assert proof[..j][..j - 1] == lower;
    assert Pair(Climb(sha, sha(text), lower), proof[j - 1]) in inputs;
    PairInjective(Climb(sha, sha(text), lower), proof[j - 1], a, b);
  }

  /** Reading a verifying climb from the root down: some prefix of it already stands on this level. */
  lemma {:induction false} Descend(
      sha: string -> Hash, inputs: set<string>, level: seq<Hash>, text: string, proof: seq<Hash>)
    returns (j: nat)
    requires |level| > 0 && Climb(sha, sha(text), proof) == RootOf(sha, level)
    requires text in inputs && ClimbInputs(sha, sha(text), proof) <= inputs && TreeInputs(sha, level) <= inputs
    requires forall h | h in level :: IsDigest(sha, inputs, h)
    requires NoCollision(sha, inputs) && NoDigestInText(sha, inputs, text)
    ensures j <= |proof| && Climb(sha, sha(text), proof[..j]) in level
    decreases |level|
  {
    if |level| == 1 {
      j := |proof|;
      assert proof[..j] == proof;
    } else {
      NextLevelDigests(sha, inputs, level);
      j := Descend(sha, inputs, NextLevel(sha, level), text, proof);
      var next := NextLevel(sha, level);
      var i: nat :| i < |next| && next[i] == Climb(sha, sha(text), proof[..j]);
      if 2 * i + 1 < |level| {
        var a, b := level[2 * i], level[2 * i + 1];
        assert a in level && b in level;
        assert PairAt(level, i) in TreeInputs(sha, level);
        if j == 0 {
          assert proof[..j] == [];
          TextIsNoPair(sha, inputs, text, a, b);
          assert false;
        }
        OneDown(sha, inputs, text, proof, j, a, b);
        j := j - 1;
      } else {
        assert next[i] == level[2 * i];
      }
    }
  }

  /**
   * Soundness, with no assumption about SHA-256 beyond the strings actually hashed:
   * unless two of them collide, or a digest of one is spelled out as half of a leaf
   * text, a proof accepted against the tree's root belongs to one of its leaves,
   * whatever siblings were supplied.
   */
  lemma AcceptedTextIsALeaf(sha: string -> Hash, texts: seq<string>, text: string, proof: seq<Hash>)
    requires texts != [] && Verifies(sha, sha(text), proof, RootOf(sha, Hashes(sha, texts)))
    requires NoCollision(sha, Hashed(sha, texts, text, proof))
    requires forall t | t in texts + [text] :: NoDigestInText(sha, Hashed(sha, texts, text, proof), t)
    ensures text in texts
  {
    var inputs, leaves := Hashed(sha, texts, text, proof), Hashes(sha, texts);
    forall h | h in leaves ensures IsDigest(sha, inputs, h) {
      var i :| 0 <= i < |leaves| && leaves[i] == h;
      assert texts[i] in inputs;
    }
    assert text in texts + [text];
    var j := Descend(sha, inputs, leaves, text, proof);
    var i :| 0 <= i < |leaves| && leaves[i] == Climb(sha, sha(text), proof[..j]);
    var t := texts[i];
    assert t in inputs && t in texts + [text];
    if j == 0 {
      assert proof[..j] == [];
    } else {
      var lower := proof[..j - 1];
      assert proof[..j][..j - 1] == lower;
      ClimbInputsPrefix(sha, sha(text), proof, j);
      ClimbInputsPrefix(sha, sha(text), proof[..j], j - 1);
      ClimbIsDigest(sha, inputs, text, lower);
      assert Pair(Climb(sha, sha(text), lower), proof[j - 1]) in inputs;
      TextIsNoPair(sha, inputs, t, Climb(sha, sha(text), lower), proof[j - 1]);
    }
  }

  // ----- entries -----

  datatype Entry = Entry(account: string, liquid: int, staked: int, burned: bool) {
    predicate InTypes() { IsInt64(liquid) && IsInt64(staked) }

    function Text(): string
      requires InTypes()
    {
      LeafText(account, liquid, staked, burned)
    }
  }

  function Texts(entries: seq<Entry>): (ts: seq<string>)
    requires forall e | e in entries :: e.InTypes()
    ensures |ts| == |entries| && forall i | 0 <= i < |ts| :: ts[i] == entries[i].Text()
  {
    seq(|entries|, i requires 0 <= i < |entries| => entries[i].Text())
  }

  /** The contract accepts only the snapshot's own entries: account, both amounts and kind exactly as committed. */
  lemma AcceptedEntryIsCommitted(sha: string -> Hash, entries: seq<Entry>, e: Entry, proof: seq<Hash>)
    requires entries != [] && e.InTypes() && forall x | x in entries :: x.InTypes()
    requires Verifies(sha, sha(e.Text()), proof, RootOf(sha, Hashes(sha, Texts(entries))))
    requires NoCollision(sha, Hashed(sha, Texts(entries), e.Text(), proof))
    requires forall t | t in Texts(entries) + [e.Text()] ::
               NoDigestInText(sha, Hashed(sha, Texts(entries), e.Text(), proof), t)
    ensures e in entries
  {
    AcceptedTextIsALeaf(sha, Texts(entries), e.Text(), proof);
    var i :| 0 <= i < |entries| && Texts(entries)[i] == e.Text();
    var x := entries[i];
    assert x in entries;
    LeafTextInjective(e.account, e.liquid, e.staked, e.burned, x.account, x.liquid, x.staked, x.burned);
  }
}
