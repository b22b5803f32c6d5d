/** Time-lock positions: the share rate, the shares a mint earns, and what closing it pays. */
module LShare {
  import opened Units

  const MULT_SCALE := 100_000_000
  const SHARE_UNIT := 100_000_000
  const MIN_MINT_DAYS := 1
  const MAX_MINT_DAYS := 1095
  const MAX_DURATION_BONUS := 50_000_000
  const MAX_VOLUME_BONUS := 50_000_000
  const SHARE_RATE_RATCHET_PCT := 7
  const GRACE_DAYS := 90
  const BLEED_DAYS := 90
  const GOOD_ACCOUNTING_ARM_DAYS := 90
  const GOOD_ACCOUNTING_GRACE_DAYS := 1095
  const MIN_EARLY_END_RECOVERY := 50_000_000
  const MIGRATION_MINT_DAYS := 30
  const GENESIS_SHARE_RATE := 100_000_000
  const HEIGHTS_PER_YEAR := 10_512_000

  /** A mint record; hpd, the heights in a day, is a build constant of the source. */
  datatype Mint = Mint(
    owner: string, principal: int, shares: int, start: nat, days: nat,
    goodAccounting: bool, ended: bool, accStart: int, expChunk: nat)

  // ----- the share rate -----

  /** The rate after the compounding loop ran `years` times, and whether its overflow guard returned early. */
  function CompoundedRate(years: nat): (int, bool) {
    if years == 0 then (GENESIS_SHARE_RATE, false)
    else
      var (rate, stuck) := CompoundedRate(years - 1);
      if stuck then (rate, true)
      else
        match MulDiv(rate, 100 + SHARE_RATE_RATCHET_PCT, 100)
        case None => (rate, true)
        case Some(next) => if next < rate then (rate, true) else (next, false)
  }

  function ShareRate(genesis: nat, height: nat): int {
    if height <= genesis then GENESIS_SHARE_RATE
    else
      var elapsed := height - genesis;
      var years, frac := elapsed / HEIGHTS_PER_YEAR, elapsed % HEIGHTS_PER_YEAR;
      var (rate, stuck) := CompoundedRate(years);
      if stuck then rate else Interpolated(rate, frac)
  }

  function Interpolated(rate: int, frac: nat): int {
    if frac == 0 then rate
    else
      match MulDiv(rate, SHARE_RATE_RATCHET_PCT * frac, 100 * HEIGHTS_PER_YEAR)
      case None => rate
      case Some(bump) => var sum := AddChecked(rate, bump); if sum.Some? then sum.value else rate
  }

  method ComputeShareRate(genesis: nat, height: nat) returns (r: int)
    ensures r == ShareRate(genesis, height)
  {
    if height <= genesis {
      return GENESIS_SHARE_RATE;
    }
    var elapsed := height - genesis;
    var years, frac := elapsed / HEIGHTS_PER_YEAR, elapsed % HEIGHTS_PER_YEAR;
    var rate := GENESIS_SHARE_RATE;
    var i := 0;
    while i < years
      invariant 0 <= i <= years
      invariant CompoundedRate(i) == (rate, false)
    {
      var next := MulDiv(rate, 100 + SHARE_RATE_RATCHET_PCT, 100);
      if next.None? || next.value < rate {
        StuckForGood(i + 1, years, rate);
        return rate;
      }
      rate := next.value;
      i := i + 1;
    }
    if frac > 0 {
      var bump := MulDiv(rate, SHARE_RATE_RATCHET_PCT * frac, 100 * HEIGHTS_PER_YEAR);
      if bump.Some? {
        var sum := AddChecked(rate, bump.value);
        if sum.Some? {
          rate := sum.value;
        }
      }
    }
    return rate;
  }

  lemma {:induction false} StuckForGood(i: nat, n: nat, rate: int)
    requires i <= n && CompoundedRate(i) == (rate, true)
    ensures CompoundedRate(n) == (rate, true)
  {
    if i < n { StuckForGood(i, n - 1, rate); }
  }

  lemma {:induction false} RateFloor(n: nat)
    ensures GENESIS_SHARE_RATE <= CompoundedRate(n).0 <= MAX_AMOUNT
  {
    if n > 0 {
      RateFloor(n - 1);
      MulDivFloor(CompoundedRate(n - 1).0, 107, 100);
    }
  }

  function Base(n: nat): int { CompoundedRate(n).0 }

  function BumpOf(rate: int, frac: nat): int { rate * (7 * frac) / (100 * HEIGHTS_PER_YEAR) }

  lemma BumpOfRises(rate: int, f1: nat, f2: nat)
    requires 0 <= rate && f1 <= f2
    ensures 0 <= BumpOf(rate, f1) <= BumpOf(rate, f2)
    ensures BumpOf(rate, 0) == 0
  {
    MulMono(rate, 7 * f1, 7 * f2);
    FloorMono(rate * (7 * f1), rate * (7 * f2), 100 * HEIGHTS_PER_YEAR);
    assert rate * (7 * 0) == 0;
    MulMono(rate, 0, 7 * f1);
    FloorMono(0, rate * (7 * f1), 100 * HEIGHTS_PER_YEAR);
  }

  lemma BumpOfBelowRatchet(rate: int, frac: nat)
    requires 0 <= rate && frac < HEIGHTS_PER_YEAR
    ensures rate + BumpOf(rate, frac) <= rate * 107 / 100
  {
    MulMono(rate, 7 * frac, 7 * HEIGHTS_PER_YEAR);
    FloorBounds(rate * (7 * frac), 100 * HEIGHTS_PER_YEAR);
    assert BumpOf(rate, frac) * 100 <= rate * 7;
  }

  lemma InterpolationFits(rate: int, frac: nat)
    requires GENESIS_SHARE_RATE <= rate <= MAX_AMOUNT && frac < HEIGHTS_PER_YEAR
    ensures Interpolated(rate, frac)
            == if rate + BumpOf(rate, frac) <= MAX_AMOUNT then rate + BumpOf(rate, frac) else rate
  {
    MulDivFraction(rate, 7 * frac, 100 * HEIGHTS_PER_YEAR);
    AddCheckedExact(rate, BumpOf(rate, frac));
    BumpOfRises(rate, 0, frac);
  }

  function Year(genesis: nat, height: nat): nat
    requires genesis <= height
  {
    (height - genesis) / HEIGHTS_PER_YEAR
  }

  function InYear(genesis: nat, height: nat): nat
    requires genesis <= height
  {
    (height - genesis) % HEIGHTS_PER_YEAR
  }

  /** The overflow checks of the rate pass at this height: no year was skipped and the sum fits. */
  predicate RatchetFits(genesis: nat, height: nat) {
    genesis <= height ==>
      var n := Year(genesis, height);
      !CompoundedRate(n).1 && Base(n) + BumpOf(Base(n), InYear(genesis, height)) <= MAX_AMOUNT
  }

  /** The rate never leaves the genesis rate behind it, at any height. */
  lemma RateAtLeastGenesis(genesis: nat, height: nat)
    ensures GENESIS_SHARE_RATE <= ShareRate(genesis, height) <= MAX_AMOUNT
    ensures genesis <= height && !CompoundedRate(Year(genesis, height)).1
            ==> ShareRate(genesis, height) == Interpolated(Base(Year(genesis, height)), InYear(genesis, height))
  {
    if height >= genesis {
      var rate, frac := Base(Year(genesis, height)), InYear(genesis, height);
      RateFloor(Year(genesis, height));
      InterpolationFits(rate, frac);
      BumpOfRises(rate, 0, frac);
    }
  }

  lemma RateWhenFits(genesis: nat, height: nat)
    requires genesis <= height && RatchetFits(genesis, height)
    ensures var rate := Base(Year(genesis, height));
            ShareRate(genesis, height) == rate + BumpOf(rate, InYear(genesis, height)) && GENESIS_SHARE_RATE <= rate
  {
    var rate := Base(Year(genesis, height));
    RateFloor(Year(genesis, height));
    InterpolationFits(rate, InYear(genesis, height));
    RateAtLeastGenesis(genesis, height);
  }

  lemma NextHeight(genesis: nat, height: nat)
    requires genesis <= height
    ensures InYear(genesis, height) + 1 < HEIGHTS_PER_YEAR
            ==> Year(genesis, height + 1) == Year(genesis, height)
                && InYear(genesis, height + 1) == InYear(genesis, height) + 1
    ensures InYear(genesis, height) + 1 == HEIGHTS_PER_YEAR
            ==> Year(genesis, height + 1) == Year(genesis, height) + 1 && InYear(genesis, height + 1) == 0
  {
    var n, frac := Year(genesis, height), InYear(genesis, height);
    if frac + 1 < HEIGHTS_PER_YEAR {
      DivModUnique(height + 1 - genesis, HEIGHTS_PER_YEAR, n, frac + 1);
    } else {
      DivModUnique(height + 1 - genesis, HEIGHTS_PER_YEAR, n + 1, 0);
    }
  }

  lemma NextYear(n: nat, frac: nat)
    requires frac < HEIGHTS_PER_YEAR && !CompoundedRate(n + 1).1
    ensures !CompoundedRate(n).1 && GENESIS_SHARE_RATE <= Base(n)
    ensures Base(n) + BumpOf(Base(n), frac) <= Base(n + 1) <= MAX_AMOUNT
  {
    RateFloor(n);
    RateFloor(n + 1);
    MulDivFloor(Base(n), 107, 100);
    BumpOfBelowRatchet(Base(n), frac);
  }

  /** Heights below one that fits fit too, and the rate does not fall between them. */
  lemma RateStep(genesis: nat, height: nat)
    requires RatchetFits(genesis, height + 1)
    ensures RatchetFits(genesis, height)
    ensures ShareRate(genesis, height) <= ShareRate(genesis, height + 1)
  {
    if height < genesis {
      RateAtLeastGenesis(genesis, height + 1);
    } else {
      var n, frac := Year(genesis, height), InYear(genesis, height);
      RateWhenFits(genesis, height + 1);
      NextHeight(genesis, height);
      if frac + 1 < HEIGHTS_PER_YEAR {
        BumpOfRises(Base(n), frac, frac + 1);
      } else {
        NextYear(n, frac);
        BumpOfRises(Base(n + 1), 0, 0);
      }
      RateWhenFits(genesis, height);
    }
  }

  /** The promise to early minters: the share rate never falls up to any height whose checks pass. */
  lemma {:induction false} RateNeverFalls(genesis: nat, h1: nat, h2: nat)
    requires h1 <= h2 && RatchetFits(genesis, h2)
    ensures ShareRate(genesis, h1) <= ShareRate(genesis, h2)
    decreases h2
  {
    if h1 < h2 {
      RateStep(genesis, h2 - 1);
      RateNeverFalls(genesis, h1, h2 - 1);
    }
  }

  /**
   * At any height whose overflow checks pass, the next height keeps the promise exactly
   * when they pass there too, or when the rate already stands at its year's base.
   */
  lemma RateStepExactly(genesis: nat, height: nat)
    requires genesis <= height && RatchetFits(genesis, height)
    ensures ShareRate(genesis, height) <= ShareRate(genesis, height + 1)
            <==> RatchetFits(genesis, height + 1) || ShareRate(genesis, height) == Base(Year(genesis, height))
  {
    if RatchetFits(genesis, height + 1) {
      RateStep(genesis, height);
    } else {
      RateDropsToBase(genesis, height);
      RateWhenFits(genesis, height);
      BumpOfRises(Base(Year(genesis, height)), 0, InYear(genesis, height));
    }
  }

  lemma RateDropsToBase(genesis: nat, height: nat)
    requires genesis <= height && RatchetFits(genesis, height) && !RatchetFits(genesis, height + 1)
    ensures ShareRate(genesis, height + 1) == Base(Year(genesis, height))
  {
    var n, frac := Year(genesis, height), InYear(genesis, height);
    NextHeight(genesis, height);
    if frac + 1 < HEIGHTS_PER_YEAR {
      RateFloor(n);
      InterpolationFits(Base(n), frac + 1);
      RateAtLeastGenesis(genesis, height + 1);
    } else {
      RateFloor(n + 1);
      BumpOfRises(Base(n + 1), 0, 0);
    }
  }

  /** Every full year raises the rate by seven percent, rounding down, and the year is joined without a cliff. */
  lemma YearIsSevenPercent(genesis: nat, n: nat)
    requires RatchetFits(genesis, genesis + n * HEIGHTS_PER_YEAR)
    requires RatchetFits(genesis, genesis + (n + 1) * HEIGHTS_PER_YEAR)
    ensures var r := ShareRate(genesis, genesis + n * HEIGHTS_PER_YEAR);
            var r' := ShareRate(genesis, genesis + (n + 1) * HEIGHTS_PER_YEAR);
            && 100 * r' <= 107 * r < 100 * (r' + 1)
            && (n == 0 ==> r == GENESIS_SHARE_RATE)
  {
    AtAnniversary(genesis, n);
    AtAnniversary(genesis, n + 1);
    RateFloor(n);
    var rate := Base(n);
    assert MulDiv(rate, 107, 100).Some?;
    MulDivFloor(rate, 107, 100);
    FloorBounds(rate * 107, 100);
  }

  lemma AtAnniversary(genesis: nat, n: nat)
    requires RatchetFits(genesis, genesis + n * HEIGHTS_PER_YEAR)
    ensures !CompoundedRate(n).1 && ShareRate(genesis, genesis + n * HEIGHTS_PER_YEAR) == Base(n)
  {
    hide CompoundedRate, ShareRate;
    var height := genesis + n * HEIGHTS_PER_YEAR;
    DivModUnique(n * HEIGHTS_PER_YEAR, HEIGHTS_PER_YEAR, n, 0);
    assert Year(genesis, height) == n && InYear(genesis, height) == 0;
    RateWhenFits(genesis, height);
    RateFloor(n);
    BumpOfRises(Base(n), 0, 0);
  }

  // ----- the shares a mint earns -----

  datatype MintParams = MintParams(volumeStart: int, volumeEnd: int, shareRate: int)

  function DurationMultiplier(days: int): int {
    if days <= MIN_MINT_DAYS then MULT_SCALE
    else if days >= MAX_MINT_DAYS then MULT_SCALE + MAX_DURATION_BONUS
    else MULT_SCALE + (days - MIN_MINT_DAYS) * MAX_DURATION_BONUS / (MAX_MINT_DAYS - MIN_MINT_DAYS)
  }

  function VolumeMultiplier(principal: int, start: int, end: int): int {
    if end <= start || principal <= start then MULT_SCALE
    else if principal >= end then MULT_SCALE + MAX_VOLUME_BONUS
    else
      match MulDiv(Wrap64(principal - start), MAX_VOLUME_BONUS, Wrap64(end - start))
      case None => MULT_SCALE
      case Some(bonus) => MULT_SCALE + bonus
  }

  function ComputeShares(principal: int, days: int, p: MintParams): Option<int> {
    if principal <= 0 || days < MIN_MINT_DAYS || days > MAX_MINT_DAYS || p.shareRate <= 0 then None
    else
      match MulDiv(principal, SHARE_UNIT, p.shareRate)
      case None => None
      case Some(base) =>
        match MulDiv(base, DurationMultiplier(days), MULT_SCALE)
        case None => None
        case Some(withDuration) =>
          MulDiv(withDuration, VolumeMultiplier(principal, p.volumeStart, p.volumeEnd), MULT_SCALE)
  }

  /** Both bonuses together never grant more than 2.25 shares per LASSECASH locked. */
  lemma SharesAtMostTwoAndAQuarter(principal: int, days: int, p: MintParams)
    requires principal <= MAX_AMOUNT && GENESIS_SHARE_RATE <= p.shareRate <= MAX_AMOUNT
    requires 0 <= p.volumeStart <= MAX_AMOUNT && p.volumeEnd <= MAX_AMOUNT
    ensures var s := ComputeShares(principal, days, p);
            s.Some? ==> 0 <= s.value && 4 * s.value <= 9 * principal
  {
    if principal > 0 && MIN_MINT_DAYS <= days <= MAX_MINT_DAYS {
      MulDivFraction(principal, SHARE_UNIT, p.shareRate);
      var base := MulDiv(principal, SHARE_UNIT, p.shareRate).value;
      BonusGrowsByHalf(base, DurationMultiplier(days));
      var grown := MulDiv(base, DurationMultiplier(days), MULT_SCALE);
      if grown.Some? {
        VolumeBounds(principal, p.volumeStart, p.volumeEnd);
        BonusGrowsByHalf(grown.value, VolumeMultiplier(principal, p.volumeStart, p.volumeEnd));
      }
    }
  }

  lemma MulDivRises(a1: int, a2: int, m1: int, m2: int, d: int)
    requires 0 <= a1 <= a2 <= MAX_AMOUNT && 0 <= m1 <= m2 <= MAX_AMOUNT && 0 < d <= MAX_AMOUNT
    requires MulDiv(a2, m2, d).Some?
    ensures MulDiv(a1, m1, d).Some? && 0 <= MulDiv(a1, m1, d).value <= MulDiv(a2, m2, d).value
  {
    MulDivFloor(a1, m1, d);
    MulDivFloor(a2, m2, d);
    MulMono(a1, m1, m2);
    MulMono(m2, a1, a2);
    FloorMono(a1 * m1, a2 * m2, d);
    FloorBounds(a1 * m1, d);
  }

  lemma VolumeRises(p1: int, p2: int, start: int, end: int)
    requires 0 <= start <= MAX_AMOUNT && p1 <= p2 <= MAX_AMOUNT && end <= MAX_AMOUNT
    ensures VolumeMultiplier(p1, start, end) <= VolumeMultiplier(p2, start, end)
  {
    VolumeBounds(p1, start, end);
    VolumeBounds(p2, start, end);
    if start < p1 && p2 < end {
      MulDivFraction(MAX_VOLUME_BONUS, p2 - start, end - start);
      MulDivFloor(p2 - start, MAX_VOLUME_BONUS, end - start);
      MulDivRises(p1 - start, p2 - start, MAX_VOLUME_BONUS, MAX_VOLUME_BONUS, end - start);
    }
  }

  lemma DurationRises(d1: int, d2: int)
    requires d1 <= d2
    ensures MULT_SCALE <= DurationMultiplier(d1) <= DurationMultiplier(d2) <= MULT_SCALE + MAX_DURATION_BONUS
  {
    if MIN_MINT_DAYS < d1 && d2 < MAX_MINT_DAYS {
      FloorMono((d1 - MIN_MINT_DAYS) * MAX_DURATION_BONUS, (d2 - MIN_MINT_DAYS) * MAX_DURATION_BONUS,
                MAX_MINT_DAYS - MIN_MINT_DAYS);
    }
  }

  /** Longer and larger never pays worse: more principal for more days earns at least as many shares. */
  lemma LongerAndLargerNeverEarnsLess(p1: int, p2: int, d1: int, d2: int, p: MintParams)
    requires 0 < p1 <= p2 <= MAX_AMOUNT && MIN_MINT_DAYS <= d1 <= d2
    requires 0 < p.shareRate <= MAX_AMOUNT && 0 <= p.volumeStart <= MAX_AMOUNT && p.volumeEnd <= MAX_AMOUNT
    requires ComputeShares(p2, d2, p).Some?
    ensures ComputeShares(p1, d1, p).Some? && 0 <= ComputeShares(p1, d1, p).value <= ComputeShares(p2, d2, p).value
  {
    hide MulDiv, DurationMultiplier, VolumeMultiplier;
    DurationRises(d1, d2);
    VolumeRises(p1, p2, p.volumeStart, p.volumeEnd);
    VolumeBounds(p1, p.volumeStart, p.volumeEnd);
    VolumeBounds(p2, p.volumeStart, p.volumeEnd);
    var base1, base2 := MulDiv(p1, SHARE_UNIT, p.shareRate), MulDiv(p2, SHARE_UNIT, p.shareRate);
    MulDivRises(p1, p2, SHARE_UNIT, SHARE_UNIT, p.shareRate);
    MulDivAtMostMax(p2, SHARE_UNIT, p.shareRate);
    MulDivRises(base1.value, base2.value, DurationMultiplier(d1), DurationMultiplier(d2), MULT_SCALE);
    MulDivAtMostMax(base2.value, DurationMultiplier(d2), MULT_SCALE);
    var grown1 := MulDiv(base1.value, DurationMultiplier(d1), MULT_SCALE);
    var grown2 := MulDiv(base2.value, DurationMultiplier(d2), MULT_SCALE);
    MulDivRises(grown1.value, grown2.value, VolumeMultiplier(p1, p.volumeStart, p.volumeEnd),
                VolumeMultiplier(p2, p.volumeStart, p.volumeEnd), MULT_SCALE);
  }

  lemma MulDivAtMostMax(a: int, m: int, d: int)
    requires MulDiv(a, m, d).Some?
    ensures MulDiv(a, m, d).value <= MAX_AMOUNT
  {
    var x, n, dd := Abs(a), Abs(m), Abs(d);
    FloorBounds((x * n) / TWO_64 * TWO_64 + (x * n) % TWO_64, dd);
  }

  /**
   * The bonuses only add: never fewer shares than the principal buys at the rate, and exactly
   * those for one day without volume.
   */
  lemma SharesAtLeastTheBase(principal: int, days: int, p: MintParams)
    requires principal <= MAX_AMOUNT && 0 < p.shareRate <= MAX_AMOUNT
    requires 0 <= p.volumeStart <= MAX_AMOUNT && p.volumeEnd <= MAX_AMOUNT
    requires ComputeShares(principal, days, p).Some?
    ensures var s := ComputeShares(principal, days, p).value;
            && principal * SHARE_UNIT < (s + 1) * p.shareRate
            && (days == MIN_MINT_DAYS && principal <= p.volumeStart ==> s * p.shareRate <= principal * SHARE_UNIT)
  {
    hide MulDiv, DurationMultiplier, VolumeMultiplier;
    DurationRises(days, days);
    OneDayNoVolume(principal, p.volumeStart, p.volumeEnd);
    VolumeBounds(principal, p.volumeStart, p.volumeEnd);
    var base := MulDiv(principal, SHARE_UNIT, p.shareRate).value;
    MulDivFloor(principal, SHARE_UNIT, p.shareRate);
    FloorBounds(principal * SHARE_UNIT, p.shareRate);
    BonusOnlyAdds(base, DurationMultiplier(days));
    var grown := MulDiv(base, DurationMultiplier(days), MULT_SCALE).value;
    MulDivAtMostMax(base, DurationMultiplier(days), MULT_SCALE);
    BonusOnlyAdds(grown, VolumeMultiplier(principal, p.volumeStart, p.volumeEnd));
    var s := ComputeShares(principal, days, p).value;
    MulMono(p.shareRate, base + 1, s + 1);
  }

  lemma OneDayNoVolume(principal: int, start: int, end: int)
    ensures DurationMultiplier(MIN_MINT_DAYS) == MULT_SCALE
    ensures principal <= start ==> VolumeMultiplier(principal, start, end) == MULT_SCALE
  {
  }

  lemma BonusOnlyAdds(base: int, mult: int)
    requires 0 <= base <= MAX_AMOUNT && MULT_SCALE <= mult <= 2 * MULT_SCALE
    requires MulDiv(base, mult, MULT_SCALE).Some?
    ensures base <= MulDiv(base, mult, MULT_SCALE).value
            && (mult == MULT_SCALE ==> MulDiv(base, mult, MULT_SCALE).value == base)
  {
    MulDivFloor(base, mult, MULT_SCALE);
    MulMono(base, MULT_SCALE, mult);
    FloorUnique(base * MULT_SCALE, MULT_SCALE, base);
    FloorMono(base * MULT_SCALE, base * mult, MULT_SCALE);
  }

  lemma VolumeBounds(principal: int, start: int, end: int)
    requires 0 <= start <= MAX_AMOUNT && principal <= MAX_AMOUNT && end <= MAX_AMOUNT
    ensures MULT_SCALE <= VolumeMultiplier(principal, start, end) <= MULT_SCALE + MAX_VOLUME_BONUS
  {
    if start < principal < end {
      var x, d := principal - start, end - start;
      MulDivFloor(x, MAX_VOLUME_BONUS, d);
      MulMono(MAX_VOLUME_BONUS, x, d);
      FloorMono(x * MAX_VOLUME_BONUS, d * MAX_VOLUME_BONUS, d);
      FloorUnique(d * MAX_VOLUME_BONUS, d, MAX_VOLUME_BONUS);
      FloorBounds(x * MAX_VOLUME_BONUS, d);
    }
  }

  lemma BonusGrowsByHalf(base: int, mult: int)
    requires 0 <= base <= MAX_AMOUNT && MULT_SCALE <= mult <= MULT_SCALE + MULT_SCALE / 2
    ensures var g := MulDiv(base, mult, MULT_SCALE);
            g.Some? ==> 0 <= g.value && 2 * g.value <= 3 * base
  {
    MulDivFloor(base, mult, MULT_SCALE);
    MulMono(base, mult, 150_000_000);
    QuotientOfHalfMore(base, base * mult);
  }

  lemma QuotientOfHalfMore(base: nat, p: nat)
    requires p <= base * 150_000_000
    ensures 0 <= p / MULT_SCALE && 2 * (p / MULT_SCALE) <= 3 * base
  {
  }

  function NewMint(owner: string, principal: int, days: nat, height: nat, p: MintParams): Option<Mint> {
    match ComputeShares(principal, days, p)
    case None => None
    case Some(shares) =>
      if shares <= 0 then None else Some(Mint(owner, principal, shares, height, days, false, false, 0, 0))
  }

  function NewMigrationMint(owner: string, staked: int, height: nat): Option<Mint> {
    if staked <= 0 then None
    else Some(Mint(owner, staked, staked, height, MIGRATION_MINT_DAYS, false, false, 0, 0))
  }

  // ----- lifecycle -----

  /** The three builds have 28,800, 120 and 8 heights in a day. */
  predicate GoodClock(hpd: nat) {
    0 < hpd <= 28_800 && hpd % 8 == 0 && 31_536_000 % hpd == 0
  }

  function MaturityHeight(hpd: nat, m: Mint): nat { m.start + m.days * hpd }

  predicate IsMature(hpd: nat, m: Mint, height: nat) { height >= MaturityHeight(hpd, m) }

  predicate CanArmGoodAccounting(hpd: nat, m: Mint, height: nat) {
    var mat := MaturityHeight(hpd, m);
    !m.ended && !m.goodAccounting && mat <= height <= mat + GOOD_ACCOUNTING_ARM_DAYS * hpd
  }

  function EarlyEndRecovery(hpd: nat, m: Mint, height: nat): int {
    if height <= m.start then MIN_EARLY_END_RECOVERY
    else
      var total := m.days * hpd;
      if total == 0 || height >= MaturityHeight(hpd, m) then MULT_SCALE
      else MIN_EARLY_END_RECOVERY + (height - m.start) * (MULT_SCALE - MIN_EARLY_END_RECOVERY) / total
  }

  function GraceDaysFor(m: Mint): nat {
    if m.goodAccounting then GOOD_ACCOUNTING_GRACE_DAYS else GRACE_DAYS
  }

  function BleedRemaining(hpd: nat, m: Mint, height: nat): int {
    var mat := MaturityHeight(hpd, m);
    if height <= mat then MULT_SCALE
    else
      var past, graceEnd, bleedSpan := height - mat, GraceDaysFor(m) * hpd, BLEED_DAYS * hpd;
      if past <= graceEnd then MULT_SCALE
      else if past - graceEnd >= bleedSpan then 0
      else (bleedSpan - (past - graceEnd)) * MULT_SCALE / bleedSpan
  }

  function LiquidationHeight(hpd: nat, m: Mint): nat {
    MaturityHeight(hpd, m) + (GraceDaysFor(m) + BLEED_DAYS) * hpd
  }

  datatype Settlement = Settlement(toOwner: int, toRewardPool: int, early: bool)

  function Settle(hpd: nat, m: Mint, height: nat, accruedRewards: int): Settlement {
    var total := Wrap64(m.principal + accruedRewards);
    if !IsMature(hpd, m, height) then
      var recovered := MulDiv(m.principal, EarlyEndRecovery(hpd, m, height), MULT_SCALE);
      var paid := if recovered.Some? then recovered.value else 0;
      Settlement(paid, Wrap64(total - paid), true)
    else
      var kept := MulDiv(total, BleedRemaining(hpd, m, height), MULT_SCALE);
      var paid := if kept.Some? then kept.value else 0;
      Settlement(paid, Wrap64(total - paid), false)
  }

  lemma RecoveryBounds(hpd: nat, m: Mint, height: nat)
    ensures MIN_EARLY_END_RECOVERY <= EarlyEndRecovery(hpd, m, height) <= MULT_SCALE
  {
    var total := m.days * hpd;
    if m.start < height < m.start + total {
      var k := MULT_SCALE - MIN_EARLY_END_RECOVERY;
      MulMono(k, height - m.start, total);
      FloorBounds((height - m.start) * k, total);
      FloorMono((height - m.start) * k, total * k, total);
      FloorUnique(total * k, total, k);
    }
  }

  lemma BleedBounds(hpd: nat, m: Mint, height: nat)
    requires hpd > 0
    ensures 0 <= BleedRemaining(hpd, m, height) <= MULT_SCALE
    ensures BleedRemaining(hpd, m, height) == MULT_SCALE
            <==> height <= MaturityHeight(hpd, m) + GraceDaysFor(m) * hpd
  {
    var mat, grace, span := MaturityHeight(hpd, m), GraceDaysFor(m) * hpd, BLEED_DAYS * hpd;
    if mat + grace < height < mat + grace + span {
      var left := span - (height - mat - grace);
      FloorBounds(left * MULT_SCALE, span);
      QuotientBound(left * MULT_SCALE, span, MULT_SCALE);
      MulMono(MULT_SCALE, left + 1, span);
    }
  }

  /** Closing a position at any height splits principal plus rewards exactly, into two non-negative parts. */
  lemma SettleConserves(hpd: nat, m: Mint, height: nat, rewards: int)
    requires hpd > 0 && 0 <= m.principal && 0 <= rewards && m.principal + rewards <= MAX_AMOUNT
    ensures var s := Settle(hpd, m, height, rewards);
            && s.toOwner + s.toRewardPool == m.principal + rewards
            && 0 <= s.toOwner && 0 <= s.toRewardPool
            && (s.early ==> s.toOwner <= m.principal)
  {
    RecoveryBounds(hpd, m, height);
    BleedBounds(hpd, m, height);
    MulDivFraction(m.principal, EarlyEndRecovery(hpd, m, height), MULT_SCALE);
    MulDivFraction(m.principal + rewards, BleedRemaining(hpd, m, height), MULT_SCALE);
  }

  /**
   * What an early end recovers rises in a straight line from half to all; what survives the bleed
   * falls in one from all to nothing.
   */
  lemma CurvesAreStraight(hpd: nat, m: Mint, height: nat)
    requires hpd > 0
    ensures var r, total := EarlyEndRecovery(hpd, m, height) - MIN_EARLY_END_RECOVERY, m.days * hpd;
            && (height <= m.start ==> r == 0)
            && (m.start < height < MaturityHeight(hpd, m) ==>
                  r * total <= (height - m.start) * (MULT_SCALE - MIN_EARLY_END_RECOVERY) < (r + 1) * total)
    ensures var b, span := BleedRemaining(hpd, m, height), BLEED_DAYS * hpd;
            var bleedStart := MaturityHeight(hpd, m) + GraceDaysFor(m) * hpd;
            && (height <= bleedStart ==> b == MULT_SCALE)
            && (bleedStart <= height < bleedStart + span ==>
                  b * span <= (bleedStart + span - height) * MULT_SCALE < (b + 1) * span)
            && (height >= bleedStart + span ==> b == 0)
  {
    var total, span := m.days * hpd, BLEED_DAYS * hpd;
    var bleedStart := MaturityHeight(hpd, m) + GraceDaysFor(m) * hpd;
    if m.start < height < m.start + total {
      FloorBounds((height - m.start) * (MULT_SCALE - MIN_EARLY_END_RECOVERY), total);
    }
    if bleedStart <= height < bleedStart + span {
      FloorBounds((bleedStart + span - height) * MULT_SCALE, span);
    }
  }

  /**
   * The owner's part is the surviving fraction, floored once: of the principal alone before
   * maturity, of everything after.
   */
  lemma OwnerGetsTheSurvivingPart(hpd: nat, m: Mint, height: nat, rewards: int)
    requires hpd > 0 && 0 <= m.principal && 0 <= rewards && m.principal + rewards <= MAX_AMOUNT
    ensures var st := Settle(hpd, m, height, rewards);
            var due := if st.early then m.principal * EarlyEndRecovery(hpd, m, height)
                       else (m.principal + rewards) * BleedRemaining(hpd, m, height);
            && st.early == (height < MaturityHeight(hpd, m))
            && st.toOwner * MULT_SCALE <= due < (st.toOwner + 1) * MULT_SCALE
  {
    hide MulDiv, EarlyEndRecovery, BleedRemaining;
    RecoveryBounds(hpd, m, height);
    BleedBounds(hpd, m, height);
    MulDivFraction(m.principal, EarlyEndRecovery(hpd, m, height), MULT_SCALE);
    MulDivFraction(m.principal + rewards, BleedRemaining(hpd, m, height), MULT_SCALE);
  }

  lemma RecoveryRises(hpd: nat, m: Mint, h1: nat, h2: nat)
    requires h1 <= h2
    ensures EarlyEndRecovery(hpd, m, h1) <= EarlyEndRecovery(hpd, m, h2)
  {
    RecoveryBounds(hpd, m, h1);
    RecoveryBounds(hpd, m, h2);
    var total := m.days * hpd;
    if m.start < h1 && h2 < m.start + total {
      var k := MULT_SCALE - MIN_EARLY_END_RECOVERY;
      MulMono(k, h1 - m.start, h2 - m.start);
      FloorMono((h1 - m.start) * k, (h2 - m.start) * k, total);
    }
  }

  lemma BleedFalls(hpd: nat, m: Mint, h1: nat, h2: nat)
    requires hpd > 0 && h1 <= h2
    ensures BleedRemaining(hpd, m, h1) >= BleedRemaining(hpd, m, h2)
  {
    BleedBounds(hpd, m, h1);
    BleedBounds(hpd, m, h2);
    var bleedStart := MaturityHeight(hpd, m) + GraceDaysFor(m) * hpd;
    var span := BLEED_DAYS * hpd;
    if bleedStart < h1 && h2 < bleedStart + span {
      FloorMono((span - (h2 - bleedStart)) * MULT_SCALE, (span - (h1 - bleedStart)) * MULT_SCALE, span);
    }
  }

  /**
   * For fixed rewards the owner's part never falls up to the end of grace, and never
   * rises once the mint has matured.
   */
  lemma OwnerPartRisesThenFalls(hpd: nat, m: Mint, rewards: int, h1: nat, h2: nat)
    requires hpd > 0 && 0 <= m.principal && 0 <= rewards && m.principal + rewards <= MAX_AMOUNT
    requires h1 <= h2
    ensures h2 <= MaturityHeight(hpd, m) + GraceDaysFor(m) * hpd
            ==> Settle(hpd, m, h1, rewards).toOwner <= Settle(hpd, m, h2, rewards).toOwner
    ensures IsMature(hpd, m, h1)
            ==> Settle(hpd, m, h1, rewards).toOwner >= Settle(hpd, m, h2, rewards).toOwner
  {
    SettleConserves(hpd, m, h1, rewards);
    RecoveryBounds(hpd, m, h1);
    RecoveryBounds(hpd, m, h2);
    BleedBounds(hpd, m, h1);
    BleedBounds(hpd, m, h2);
    var total := m.principal + rewards;
    if IsMature(hpd, m, h1) {
      BleedFalls(hpd, m, h1, h2);
      KeptIsMonotone(total, BleedRemaining(hpd, m, h2), BleedRemaining(hpd, m, h1));
    } else if !IsMature(hpd, m, h2) {
      RecoveryRises(hpd, m, h1, h2);
      KeptIsMonotone(m.principal, EarlyEndRecovery(hpd, m, h1), EarlyEndRecovery(hpd, m, h2));
    }
    if BleedRemaining(hpd, m, h2) == MULT_SCALE {
      KeptIsMonotone(total, MULT_SCALE, MULT_SCALE);
      FloorUnique(total * MULT_SCALE, MULT_SCALE, total);
    }
  }

  lemma KeptIsMonotone(total: int, f1: int, f2: int)
    requires 0 <= total <= MAX_AMOUNT && 0 <= f1 <= f2 <= MULT_SCALE
    ensures MulDiv(total, f1, MULT_SCALE) == Some(total * f1 / MULT_SCALE)
    ensures MulDiv(total, f2, MULT_SCALE) == Some(total * f2 / MULT_SCALE)
    ensures total * f1 / MULT_SCALE <= total * f2 / MULT_SCALE
  {
    MulDivFraction(total, f1, MULT_SCALE);
    MulDivFraction(total, f2, MULT_SCALE);
    MulMono(total, f1, f2);
    FloorMono(total * f1, total * f2, MULT_SCALE);
  }

  /**
   * Nothing survives the bleed exactly from the liquidation height on, for every
   * height, exactly when the bleed spans at most 10^8 heights; a longer span would
   * floor the last heights to zero early. All three builds are within it.
   */
  lemma BleedEndsAtLiquidation(hpd: nat, m: Mint)
    requires 0 < hpd
    ensures (forall h: nat :: BleedRemaining(hpd, m, h) == 0 <==> h >= LiquidationHeight(hpd, m))
            <==> BLEED_DAYS * hpd <= MULT_SCALE
  {
    var span, liq := BLEED_DAYS * hpd, LiquidationHeight(hpd, m);
    var bleedStart := MaturityHeight(hpd, m) + GraceDaysFor(m) * hpd;
    assert liq == bleedStart + span by {
      assert (GraceDaysFor(m) + BLEED_DAYS) * hpd == GraceDaysFor(m) * hpd + BLEED_DAYS * hpd;
    }
    if span <= MULT_SCALE {
      forall h: nat ensures BleedRemaining(hpd, m, h) == 0 <==> h >= liq {
        if bleedStart < h < liq {
          var left := span - (h - bleedStart);
          MulMono(MULT_SCALE, 1, left);
          QuotientBound(left * MULT_SCALE, span, 1);
        }
      }
    } else {
      var h := liq - 1;
      assert BleedRemaining(hpd, m, h) == 1 * MULT_SCALE / span;
      QuotientBound(MULT_SCALE, span, 1);
      FloorBounds(MULT_SCALE, span);
      assert BleedRemaining(hpd, m, h) == 0;
    }
  }

  /** Arming Good Accounting never lowers what survives, at any height. */
  lemma ArmingNeverLowers(hpd: nat, m: Mint, height: nat)
    requires hpd > 0 && !m.goodAccounting
    ensures BleedRemaining(hpd, m.(goodAccounting := true), height) >= BleedRemaining(hpd, m, height)
  {
    var armed := m.(goodAccounting := true);
    BleedBounds(hpd, m, height);
    BleedBounds(hpd, armed, height);
  }

  /** A matured, open, unarmed mint can be armed exactly while nothing has bled yet. */
  lemma ArmableExactlyWhileWhole(hpd: nat, m: Mint, height: nat)
    requires hpd > 0 && !m.ended && !m.goodAccounting && IsMature(hpd, m, height)
    ensures CanArmGoodAccounting(hpd, m, height) <==> BleedRemaining(hpd, m, height) == MULT_SCALE
  {
    BleedBounds(hpd, m, height);
  }
}
