/** The terms of a mint in closed form: the shares it is granted, and how long it stays whole. */
module MintTerms {
  import opened Units
  import opened LShare

  /** What the volume adds, in hundred-millionths: nothing up to the start, half from the end on, a line between. */
  ghost predicate VolumeAdds(volume: int, principal: int, start: int, end: int) {
    && (principal <= start || end <= start ==> volume == 0)
    && (start < end <= principal ==> volume == 50_000_000)
    && (start < principal < end ==> FloorOf(volume, (principal - start) * 50_000_000, end - start))
  }

  ghost predicate GrantsBy(
    principal: int, days: int, p: MintParams, shares: int, base: int, length: int, grown: int, volume: int)
  {
    && FloorOf(base, principal * 100_000_000, p.shareRate)
    && FloorOf(length, (days - 1) * 50_000_000, 1094)
    && FloorOf(grown, base * (100_000_000 + length), 100_000_000)
    && VolumeAdds(volume, principal, p.volumeStart, p.volumeEnd)
    && FloorOf(shares, grown * (100_000_000 + volume), 100_000_000)
  }

  /**
   * The shares granted: what the principal buys at the rate, raised by half for 1095 days
   * and in a straight line from one day on, then by half again for volume. Every step
   * rounds down once.
   */
  ghost predicate Grants(principal: int, days: int, p: MintParams, shares: int) {
    exists base: int, length: int, grown: int, volume: int ::
      GrantsBy(principal, days, p, shares, base, length, grown, volume)
  }

  predicate InRange(principal: int, p: MintParams) {
    && principal <= MAX_AMOUNT && 0 < p.shareRate <= MAX_AMOUNT
    && 0 <= p.volumeStart <= MAX_AMOUNT && p.volumeEnd <= MAX_AMOUNT
  }

  lemma LengthIs(days: int) returns (length: int)
    requires 1 <= days <= 1095
    ensures FloorOf(length, (days - 1) * 50_000_000, 1094) && 0 <= length <= 50_000_000
    ensures DurationMultiplier(days) == 100_000_000 + length
  {
    length := (days - 1) * 50_000_000 / 1094;
    FloorOfIs(length, (days - 1) * 50_000_000, 1094);
    FloorMono(0, (days - 1) * 50_000_000, 1094);
  }

  lemma VolumeIs(principal: int, start: int, end: int) returns (volume: int)
    requires 0 <= start <= MAX_AMOUNT && principal <= MAX_AMOUNT && end <= MAX_AMOUNT
    ensures VolumeAdds(volume, principal, start, end) && 0 <= volume <= 50_000_000
    ensures VolumeMultiplier(principal, start, end) == 100_000_000 + volume
  {
    hide MulDiv;
    VolumeBounds(principal, start, end);
    volume := VolumeMultiplier(principal, start, end) - 100_000_000;
    if start < principal < end {
      MulDivFloor(principal - start, MAX_VOLUME_BONUS, end - start);
      MulMono(MAX_VOLUME_BONUS, principal - start, end - start);
      QuotientAtMost((principal - start) * MAX_VOLUME_BONUS, end - start, MAX_VOLUME_BONUS);
      FloorOfIs(volume, (principal - start) * 50_000_000, end - start);
    }
  }

  lemma QuotientAtMost(p: int, d: int, q: int)
    requires 0 <= p <= q * d && d > 0
    ensures 0 <= p / d <= q
  {
    FloorMono(0, p, d);
    FloorMono(p, q * d, d);
    FloorUnique(q * d, d, q);
  }

  lemma MulDivIs(a: int, num: int, den: int)
    requires 0 <= a <= MAX_AMOUNT && 0 <= num <= MAX_AMOUNT && 0 < den <= MAX_AMOUNT
    ensures var r := MulDiv(a, num, den);
            && (r.Some? <==> a * num / den <= MAX_AMOUNT)
            && (r.Some? ==> FloorOf(r.value, a * num, den) && 0 <= r.value <= MAX_AMOUNT)
  {
    MulDivFloor(a, num, den);
    FloorOfIs(a * num / den, a * num, den);
    FloorMono(0, a * num, den);
    hide MulDiv;
  }

  /** Whatever is granted is granted on these terms. */
  lemma SharesAreGranted(principal: int, days: int, p: MintParams)
    requires InRange(principal, p) && ComputeShares(principal, days, p).Some?
    ensures principal > 0 && 1 <= days <= 1095 && Grants(principal, days, p, ComputeShares(principal, days, p).value)
  {
    hide MulDiv, DurationMultiplier, VolumeMultiplier, VolumeAdds, FloorOf;
    var length := LengthIs(days);
    var volume := VolumeIs(principal, p.volumeStart, p.volumeEnd);
    MulDivIs(principal, SHARE_UNIT, p.shareRate);
    var base := MulDiv(principal, SHARE_UNIT, p.shareRate).value;
    MulDivIs(base, DurationMultiplier(days), MULT_SCALE);
    var grown := MulDiv(base, DurationMultiplier(days), MULT_SCALE).value;
    MulDivIs(grown, VolumeMultiplier(principal, p.volumeStart, p.volumeEnd), MULT_SCALE);
    var shares := ComputeShares(principal, days, p).value;
    assert GrantsBy(principal, days, p, shares, base, length, grown, volume);
  }

  /** These terms leave nothing open. */
  lemma TermsAreExact(principal: int, days: int, p: MintParams, s1: int, s2: int)
    requires p.shareRate > 0 && Grants(principal, days, p, s1) && Grants(principal, days, p, s2)
    ensures s1 == s2
  {
    var b1, l1, g1, v1 :| GrantsBy(principal, days, p, s1, b1, l1, g1, v1);
    var b2, l2, g2, v2 :| GrantsBy(principal, days, p, s2, b2, l2, g2, v2);
    hide FloorOf;
    OneFloor(b1, b2, principal * 100_000_000, p.shareRate);
    OneFloor(l1, l2, (days - 1) * 50_000_000, 1094);
    OneFloor(g1, g2, b1 * (100_000_000 + l1), 100_000_000);
    OneVolume(v1, v2, principal, p.volumeStart, p.volumeEnd);
    OneFloor(s1, s2, g1 * (100_000_000 + v1), 100_000_000);
  }

  lemma OneVolume(v1: int, v2: int, principal: int, start: int, end: int)
    requires VolumeAdds(v1, principal, start, end) && VolumeAdds(v2, principal, start, end)
    ensures v1 == v2
  {
    hide FloorOf;
    if start < principal < end { OneFloor(v1, v2, (principal - start) * 50_000_000, end - start); }
  }

  /**
   * Longer pays better in a straight line: below the volume ramp one day earns what the
   * principal buys, 1095 days exactly half as much again, and every length between its
   * part of that half, to within the two roundings.
   */
  lemma LengthBonusIsALine(principal: int, days: int, p: MintParams, base: int, shares: int)
    requires InRange(principal, p) && 0 < principal <= p.volumeStart && 1 <= days <= 1095
    requires FloorOf(base, principal * 100_000_000, p.shareRate) && Grants(principal, days, p, shares)
    ensures days == 1 ==> shares == base
    ensures days == 1095 ==> shares == base + base / 2
    ensures 2188 * (shares - base) <= base * (days - 1)
    ensures base * (days - 1) * 50_000_000 < 1094 * ((shares - base + 1) * 100_000_000 + base + 1)
  {
    var length, grown := GrantedStep(principal, days, p, base, shares);
    FloorOfIs(shares, grown * 100_000_000, 100_000_000);
    FloorUnique(grown * 100_000_000, 100_000_000, grown);
    assert shares == grown;
    BaseIsNonNegative(principal, p.shareRate, base);
    LineOfHalf(base, days, length, grown);
  }

  lemma GrantedStep(principal: int, days: int, p: MintParams, base: int, shares: int) returns (length: int, grown: int)
    requires principal <= p.volumeStart && p.shareRate > 0
    requires FloorOf(base, principal * 100_000_000, p.shareRate) && Grants(principal, days, p, shares)
    ensures FloorOf(length, (days - 1) * 50_000_000, 1094) && FloorOf(grown, base * (100_000_000 + length), 100_000_000)
    ensures FloorOf(shares, grown * 100_000_000, 100_000_000)
  {
    var b, l, g, volume :| GrantsBy(principal, days, p, shares, b, l, g, volume);
    OneFloor(b, base, principal * 100_000_000, p.shareRate);
    length, grown := l, g;
  }

  lemma BaseIsNonNegative(principal: int, rate: int, base: int)
    requires principal > 0 && FloorOf(base, principal * 100_000_000, rate)
    ensures base >= 0
  {
    FloorOfIs(base, principal * 100_000_000, rate);
    FloorMono(0, principal * 100_000_000, rate);
  }

  /** Raising base by the floored length, rounding down, follows the line from nothing to half. */
  lemma LineOfHalf(base: int, days: int, length: int, grown: int)
    requires base >= 0 && 1 <= days <= 1095
    requires FloorOf(length, (days - 1) * 50_000_000, 1094)
    requires FloorOf(grown, base * (100_000_000 + length), 100_000_000)
    ensures days == 1 ==> grown == base
    ensures days == 1095 ==> grown == base + base / 2
    ensures 2188 * (grown - base) <= base * (days - 1)
    ensures base * (days - 1) * 50_000_000 < 1094 * ((grown - base + 1) * 100_000_000 + base + 1)
  {
    var extra := base * length;
    assert base * (100_000_000 + length) == base * 100_000_000 + extra;
    MulMono(base, length * 1094, (days - 1) * 50_000_000);
    MulMono(base, (days - 1) * 50_000_000, (length + 1) * 1094);
    assert base * (length * 1094) == 1094 * extra;
    assert base * ((length + 1) * 1094) == 1094 * extra + 1094 * base;
    assert base * ((days - 1) * 50_000_000) == base * (days - 1) * 50_000_000;
    if days == 1095 { HalfOf(base, extra, grown, length); }
    if days == 1 { assert length == 0; }
  }

  lemma HalfOf(base: int, extra: int, grown: int, length: int)
    requires extra == base * length && FloorOf(length, 1094 * 50_000_000, 1094)
    requires (grown - base) * 100_000_000 <= extra < (grown - base + 1) * 100_000_000
    ensures grown == base + base / 2
  {
    assert length == 50_000_000;
  }

  /**
   * Larger pays better in a straight line: against the same mint without the volume ramp,
   * nothing more up to its start, exactly half as much again from its end on, and between
   * them its part of that half, to within the two roundings.
   */
  lemma VolumeBonusIsALine(principal: int, days: int, p: MintParams, plain: int, shares: int)
    requires InRange(principal, p) && principal > 0 && p.volumeStart < p.volumeEnd
    requires Grants(principal, days, p.(volumeStart := 0, volumeEnd := 0), plain) && plain >= 0
    requires Grants(principal, days, p, shares)
    ensures principal <= p.volumeStart ==> shares == plain
    ensures principal >= p.volumeEnd ==> shares == plain + plain / 2
    ensures p.volumeStart < principal < p.volumeEnd ==>
              var into, ramp := principal - p.volumeStart, p.volumeEnd - p.volumeStart;
              && 2 * ramp * (shares - plain) <= plain * into
              && plain * into * 50_000_000 < ramp * ((shares - plain + 1) * 100_000_000 + plain + 1)
  {
    var volume := GrantedVolume(principal, days, p, plain, shares);
    hide Grants;
    var into, ramp := principal - p.volumeStart, p.volumeEnd - p.volumeStart;
    if p.volumeStart < principal < p.volumeEnd {
      LineOfVolume(plain, into, ramp, volume, shares);
    }
  }

  lemma GrantedVolume(principal: int, days: int, p: MintParams, plain: int, shares: int) returns (volume: int)
    requires p.shareRate > 0 && Grants(principal, days, p.(volumeStart := 0, volumeEnd := 0), plain)
    requires Grants(principal, days, p, shares)
    ensures VolumeAdds(volume, principal, p.volumeStart, p.volumeEnd)
    ensures FloorOf(shares, plain * (100_000_000 + volume), 100_000_000)
  {
    var none := p.(volumeStart := 0, volumeEnd := 0);
    var b1, l1, g1, v1 :| GrantsBy(principal, days, none, plain, b1, l1, g1, v1);
    var b2, l2, g2, v2 :| GrantsBy(principal, days, p, shares, b2, l2, g2, v2);
    assert v1 == 0;
    FloorOfIs(plain, g1 * 100_000_000, 100_000_000);
    FloorUnique(g1 * 100_000_000, 100_000_000, g1);
    hide FloorOf;
    OneFloor(b1, b2, principal * 100_000_000, p.shareRate);
    OneFloor(l1, l2, (days - 1) * 50_000_000, 1094);
    OneFloor(g1, g2, b1 * (100_000_000 + l1), 100_000_000);
    volume := v2;
  }

  lemma LineOfVolume(plain: int, into: int, ramp: int, volume: int, shares: int)
    requires plain >= 0 && 0 < into < ramp
    requires FloorOf(volume, into * 50_000_000, ramp) && FloorOf(shares, plain * (100_000_000 + volume), 100_000_000)
    ensures 2 * ramp * (shares - plain) <= plain * into
    ensures plain * into * 50_000_000 < ramp * ((shares - plain + 1) * 100_000_000 + plain + 1)
  {
    var extra := plain * volume;
    assert plain * (100_000_000 + volume) == plain * 100_000_000 + extra;
    MulMono(plain, volume * ramp, into * 50_000_000);
    MulMono(plain, into * 50_000_000, (volume + 1) * ramp);
    assert plain * (volume * ramp) == ramp * extra;
    assert plain * ((volume + 1) * ramp) == ramp * extra + ramp * plain;
    assert plain * (into * 50_000_000) == plain * into * 50_000_000;
    MulMono(ramp, (shares - plain) * 100_000_000, extra);
    MulMono(ramp, extra + plain + 1, (shares - plain + 1) * 100_000_000 + plain + 1);
    assert ramp * ((shares - plain) * 100_000_000) == 50_000_000 * (2 * ramp * (shares - plain));
    assert ramp * (extra + plain + 1) == ramp * extra + ramp * plain + ramp;
  }

  /** A mint is granted exactly on these arguments, and earns something exactly when it buys a share at the rate. */
  lemma GrantedExactly(principal: int, days: int, p: MintParams)
    requires InRange(principal, p) && p.shareRate >= 100_000_000 && 9 * principal <= 4 * MAX_AMOUNT
    ensures ComputeShares(principal, days, p).Some? <==> principal > 0 && 1 <= days <= 1095
    ensures ComputeShares(principal, days, p).Some? ==>
              (ComputeShares(principal, days, p).value > 0 <==> principal * 100_000_000 >= p.shareRate)
  {
    hide MulDiv, DurationMultiplier, VolumeMultiplier;
    if principal > 0 && 1 <= days <= 1095 {
      DurationRises(days, days);
      VolumeBounds(principal, p.volumeStart, p.volumeEnd);
      MulDivFraction(principal, SHARE_UNIT, p.shareRate);
      var base := MulDiv(principal, SHARE_UNIT, p.shareRate).value;
      RaisedFits(base, DurationMultiplier(days));
      var grown := MulDiv(base, DurationMultiplier(days), MULT_SCALE).value;
      RaisedFits(grown, VolumeMultiplier(principal, p.volumeStart, p.volumeEnd));
      QuotientBound(principal * SHARE_UNIT, p.shareRate, 1);
    }
  }

  lemma RaisedFits(base: int, mult: int)
    requires 0 <= base && 3 * base <= 2 * MAX_AMOUNT && 100_000_000 <= mult <= 150_000_000
    ensures MulDiv(base, mult, 100_000_000).Some?
    ensures base <= MulDiv(base, mult, 100_000_000).value && 2 * MulDiv(base, mult, 100_000_000).value <= 3 * base
  {
    MulDivFloor(base, mult, 100_000_000);
    MulMono(base, 100_000_000, mult);
    MulMono(base, mult, 150_000_000);
    QuotientOfHalfMore(base, base * mult);
    BonusOnlyAdds(base, mult);
    hide MulDiv;
  }

  // ----- how long a mint stays whole -----

  /**
   * A matured mint keeps everything for 90 days after it matures, an armed one for 1095,
   * and from then on loses something.
   */
  lemma WholeExactly(hpd: nat, m: Mint, height: nat)
    requires hpd > 0
    ensures BleedRemaining(hpd, m, height) == 100_000_000
            <==> height <= m.start + m.days * hpd + (if m.goodAccounting then 1095 else 90) * hpd
  {
    BleedBounds(hpd, m, height);
  }

  /** Arming is open to an open, unarmed mint from its maturity for 90 days, and never before. */
  lemma ArmableExactly(hpd: nat, m: Mint, height: nat)
    ensures CanArmGoodAccounting(hpd, m, height)
            <==> && !m.ended && !m.goodAccounting
                 && m.start + m.days * hpd <= height <= m.start + m.days * hpd + 90 * hpd
  {
  }
}
