/** Health-factor display and risk tier (utils/seamless.ts, `formatHealthFactor`
    and `getHealthFactorColor`). Both read the already-parsed number. */
module HealthFactor {
  import opened Digits
  import opened DecimalText
  import opened Units
  import opened Numbers

  /** Which row of the display table applies. */
  datatype Display =
    | Infinity          // "∞": no debt, or a value too large to matter
    | Minimum           // the constant "0.001"
    | Places(n: nat)    // `toFixed(n)`
    | Whole             // `Math.floor(hf).toString()`

  const Cap: real := 1000000.0

  /** The display table, each row stated as a band of values. */
  function DisplayPolicy(hf: Num): (d: Display)
    ensures d == Infinity <==> hf.NonFinite? || hf.r == 0.0 || hf.r > Cap
    ensures d == Minimum <==> hf.Finite? && hf.r != 0.0 && hf.r < 0.001
    ensures d == Places(3) <==> hf.Finite? && 0.001 <= hf.r < 1.0
    ensures d == Places(2) <==> hf.Finite? && 1.0 <= hf.r < 10.0
    ensures d == Places(1) <==> hf.Finite? && 10.0 <= hf.r < 100.0
    ensures d == Whole <==> hf.Finite? && 100.0 <= hf.r <= Cap
    ensures d.Places? ==> 1 <= d.n <= 3
  {
    if hf.NonFinite? || hf.r == 0.0 then Infinity
    else if hf.r > Cap then Infinity
    else if hf.r < 0.001 then Minimum
    else if hf.r < 1.0 then Places(3)
    else if hf.r < 10.0 then Places(2)
    else if hf.r < 100.0 then Places(1)
    else Whole
  }

  const InfinityText: string := "∞"
  const MinimumText: string := "0.001"

  /** `formatHealthFactor` once its argument has been read as a number. */
  function FormatHealth(hf: Num): string {
    match DisplayPolicy(hf)
    case Infinity => InfinityText
    case Minimum => MinimumText
    case Places(n) => ToFixed(hf, n)
    case Whole => IntText(hf.r.Floor)
  }

  /** The risk tiers, from no risk to liquidation risk. */
  datatype Tier = Safe | Moderate | Elevated | Danger

  /** `getHealthFactorColor` before the tier is named as a colour class. */
  function HealthTier(hf: Num): (t: Tier)
    ensures t == Safe <==> hf.NonFinite? || hf.r == 0.0 || hf.r > Cap || hf.r >= 2.0
    ensures t == Moderate <==> hf.Finite? && 1.5 <= hf.r < 2.0
    ensures t == Elevated <==> hf.Finite? && 1.1 <= hf.r < 1.5
    ensures t == Danger <==> hf.Finite? && hf.r != 0.0 && hf.r < 1.1
  {
    if hf.NonFinite? || hf.r == 0.0 || hf.r > Cap then Safe
    else if hf.r >= 2.0 then Safe
    else if hf.r >= 1.5 then Moderate
    else if hf.r >= 1.1 then Elevated
    else Danger
  }

  const SafeColor: string := "text-green-600"
  const ModerateColor: string := "text-yellow-600"
  const ElevatedColor: string := "text-orange-600"
  const DangerColor: string := "text-red-600"

  /** The colour class of each tier; no two tiers share one. */
  function ColorClass(t: Tier): (c: string)
    ensures c == SafeColor <==> t == Safe
    ensures c == ModerateColor <==> t == Moderate
    ensures c == ElevatedColor <==> t == Elevated
    ensures c == DangerColor <==> t == Danger
  {
    assert SafeColor[5] == 'g' && ModerateColor[5] == 'y' && ElevatedColor[5] == 'o' && DangerColor[5] == 'r';
    match t
    case Safe => SafeColor
    case Moderate => ModerateColor
    case Elevated => ElevatedColor
    case Danger => DangerColor
  }

  /** `formatHealthFactor(healthFactor)`: the text is read with `parseFloat`;
      "∞" stands for no debt, for text that is not a number and for values
      above the cap, and any other value is written as a numeral that reads
      back as the shown number. */
  function FormatHealthFactor(healthFactor: string): (s: string)
    ensures var hf := ParseFloat(healthFactor);
            s == InfinityText <==> hf.NonFinite? || hf.r == 0.0 || hf.r > Cap
    ensures var hf := ParseFloat(healthFactor);
            hf.Finite? && hf.r != 0.0 && hf.r <= Cap ==> ParseFloat(s) == Finite(Shown(hf.r))
  {
    var hf := ParseFloat(healthFactor);
    InfinityExactly(hf);
    if hf.Finite? && hf.r != 0.0 && hf.r <= Cap then
      DisplayReadsBack(hf.r);
      FormatHealth(hf)
    else
      FormatHealth(hf)
  }

  /** `getHealthFactorColor(healthFactor)`: green for no debt, text that is not
      a number, values above the cap and values from 2 up; yellow from 1.5 to
      2; orange from 1.1 to 1.5; red below 1.1. */
  function GetHealthFactorColor(healthFactor: string): (c: string)
    ensures var hf := ParseFloat(healthFactor);
            c == SafeColor <==> hf.NonFinite? || hf.r == 0.0 || hf.r > Cap || hf.r >= 2.0
    ensures var hf := ParseFloat(healthFactor);
            c == ModerateColor <==> hf.Finite? && 1.5 <= hf.r < 2.0
    ensures var hf := ParseFloat(healthFactor);
            c == ElevatedColor <==> hf.Finite? && 1.1 <= hf.r < 1.5
    ensures var hf := ParseFloat(healthFactor);
            c == DangerColor <==> hf.Finite? && hf.r != 0.0 && hf.r < 1.1
  {
    ColorClass(HealthTier(ParseFloat(healthFactor)))
  }

  /** Tiers ranked by safety. */
  function Rank(t: Tier): nat {
    match t
    case Danger => 0
    case Elevated => 1
    case Moderate => 2
    case Safe => 3
  }

  // ---- the number a display reads as ----

  /** The number the display of a finite, nonzero value up to the cap reads as,
      computed numerically (independently of any text). */
  function Shown(x: real): real
    requires x != 0.0 && x <= Cap
  {
    if x < 0.001 then 0.001
    else if x < 1.0 then Rounded(x, 3)
    else if x < 10.0 then Rounded(x, 2)
    else if x < 100.0 then Rounded(x, 1)
    else x.Floor as real
  }

  /** The numeral "0.001" as written. */
  const MinimumDecimal: Decimal := Decimal(false, [0], true, [0, 0, 1])

  lemma MinimumTextRenders()
    ensures WellFormed(MinimumDecimal) && Render(MinimumDecimal) == MinimumText
  {
    assert Chars([0]) == "0";
    assert Chars([0, 0, 1]) == "001";
  }

  lemma MinimumDecimalValue()
    ensures ValueOf(MinimumDecimal) == 0.001
  {
    assert [0, 0, 0, 1][..3] == [0, 0, 0];
    assert [0, 0, 0][..2] == [0, 0];
    assert [0, 0][..1] == [0];
    assert [0][..0] == [];
    assert Pow10(3) == 1000;
    assert MinimumDecimal.whole + MinimumDecimal.frac == [0, 0, 0, 1];
  }

  /** "0.001" reads back as 0.001. */
  lemma MinimumTextValue()
    ensures ParseFloat(MinimumText) == Finite(0.001)
  {
    MinimumTextRenders();
    ParseFloatRender(MinimumDecimal);
    MinimumDecimalValue();
  }

  lemma PlacesReadsBack(x: real, n: nat)
    requires 0.0 < x && DisplayPolicy(Finite(x)) == Places(n)
    ensures ParseFloat(FormatHealth(Finite(x))) == Finite(Rounded(x, n))
  {
    ParseToFixed(x, n);
    ToFixedSigned(x, n);
  }

  lemma WholeReadsBack(x: real)
    requires DisplayPolicy(Finite(x)) == Whole
    ensures ParseFloat(FormatHealth(Finite(x))) == Finite(x.Floor as real)
  {
    assert FormatHealth(Finite(x)) == FormatUnits(x.Floor, 0);
    ParseFloatFormatUnits(x.Floor, 0);
    DivOne(x.Floor as real, Pow10(0) as real);
  }

  lemma DivOne(a: real, p: real)
    requires p == 1.0
    ensures a / p == a
  {
  }

  /** Every display of a finite nonzero value up to the cap is text that
      `parseFloat` reads back as the shown number. */
  lemma DisplayReadsBack(x: real)
    requires x != 0.0 && x <= Cap
    ensures ParseFloat(FormatHealth(Finite(x))) == Finite(Shown(x))
  {
    if x < 0.001 {
      MinimumTextValue();
    } else if x < 1.0 {
      PlacesReadsBack(x, 3);
    } else if x < 10.0 {
      PlacesReadsBack(x, 2);
    } else if x < 100.0 {
      PlacesReadsBack(x, 1);
    } else {
      WholeReadsBack(x);
    }
  }

  // ---- what the display promises ----

  /** No numeral `toFixed` or `toString` writes is the infinity sign. */
  lemma NumeralNotInfinity(t: Decimal)
    requires WellFormed(t)
    ensures Render(t) != InfinityText
  {
    RenderAlphabet(t);
    assert Render(t)[0] != InfinityText[0];
  }

  /** "∞" is shown exactly for no debt (zero), NaN or ±Infinity, and values above
      the cap; every other value gets a numeral. */
  lemma InfinityExactly(hf: Num)
    ensures FormatHealth(hf) == InfinityText <==> hf.NonFinite? || hf.r == 0.0 || hf.r > Cap
  {
    match DisplayPolicy(hf)
    case Infinity =>
    case Minimum =>
      MinimumTextRenders();
      NumeralNotInfinity(MinimumDecimal);
    case Places(n) =>
      NumeralNotInfinity(ToFixedDecimal(hf.r, n));
    case Whole =>
      NumeralNotInfinity(FormatUnitsDecimal(hf.r.Floor, 0));
  }

  /** Where each band's shown value lies: bands never overlap, so a larger
      band never shows a smaller number. */
  lemma ShownRange(x: real)
    requires x != 0.0 && x <= Cap
    ensures x < 0.001 ==> Shown(x) == 0.001
    ensures 0.001 <= x < 1.0 ==> 0.001 <= Shown(x) <= 1.0
    ensures 1.0 <= x < 10.0 ==> 1.0 <= Shown(x) <= 10.0
    ensures 10.0 <= x < 100.0 ==> 10.0 <= Shown(x) <= 100.0
    ensures 100.0 <= x ==> 100.0 <= Shown(x) <= x
  {
    if 0.001 <= x < 1.0 {
      RangeThreePlaces(x);
    } else if 1.0 <= x < 10.0 {
      RangeTwoPlaces(x);
    } else if 10.0 <= x < 100.0 {
      RangeOnePlace(x);
    }
  }

  lemma RangeThreePlaces(x: real)
    requires 0.001 <= x < 1.0
    ensures 0.001 <= Rounded(x, 3) <= 1.0
  {
    assert Pow10(3) == 1000;
    RoundedRange(x, 3, 1, 1000);
  }

  lemma RangeTwoPlaces(x: real)
    requires 1.0 <= x < 10.0
    ensures 1.0 <= Rounded(x, 2) <= 10.0
  {
    assert Pow10(2) == 100;
    RoundedRange(x, 2, 100, 1000);
  }

  lemma RangeOnePlace(x: real)
    requires 10.0 <= x < 100.0
    ensures 10.0 <= Rounded(x, 1) <= 100.0
  {
    assert Pow10(1) == 10;
    RoundedRange(x, 1, 100, 1000);
  }

  /** Rounding x to `places` keeps it between two whole multiples L and H of
      the last place that bracket it. */
  lemma RoundedRange(x: real, places: nat, L: int, H: int)
    requires 0.0 < x
    requires L as real <= x * Pow10(places) as real < H as real
    ensures L as real / Pow10(places) as real <= Rounded(x, places) <= H as real / Pow10(places) as real
  {
    var n := RoundScaled(Abs(x), places);
    RoundScaledBracket(x, places, L, H);
    DivMonotone(L as real, n as real, Pow10(places) as real);
    DivMonotone(n as real, H as real, Pow10(places) as real);
  }

  lemma RoundScaledBracket(x: real, places: nat, L: int, H: int)
    requires 0.0 < x
    requires L as real <= x * Pow10(places) as real < H as real
    ensures L <= RoundScaled(Abs(x), places) <= H
  {
    assert Abs(x) == x;
    var n := RoundScaled(x, places);
    var m := x * Pow10(places) as real;
    assert n as real - 0.5 <= m < n as real + 0.5;
    Bracket(m, n, L, H);
  }

  /** The integer nearest to m lies between any integers bracketing m. */
  lemma Bracket(m: real, n: int, L: int, H: int)
    requires n as real - 0.5 <= m < n as real + 0.5
    requires L as real <= m < H as real
    ensures L <= n <= H
  {
    IntsHalfApart(L, n);
    IntsHalfApart(n, H);
  }

  /** Two integers less than a half apart in one direction are ordered. */
  lemma IntsHalfApart(a: int, b: int)
    requires a as real <= b as real + 0.5
    ensures a <= b
  {
  }

  lemma DivMonotone(a: real, b: real, p: real)
    requires a <= b && p > 0.0
    ensures a / p <= b / p
  {
  }

  /** Within a band, rounding to the band's places keeps the order. */
  lemma RoundedMonotone(a: real, b: real, places: nat)
    requires 0.0 < a <= b
    ensures Rounded(a, places) <= Rounded(b, places)
  {
    assert Abs(a) == a && Abs(b) == b;
    RoundScaledMonotone(a, b, places);
    DivMonotone(RoundScaled(a, places) as real, RoundScaled(b, places) as real, Pow10(places) as real);
  }

  lemma FloorMonotone(a: real, b: real)
    requires a <= b
    ensures a.Floor <= b.Floor
  {
    assert a.Floor as real <= a < a.Floor as real + 1.0;
    assert b.Floor as real <= b < b.Floor as real + 1.0;
  }

  /** A larger health factor never displays as a smaller number. */
  lemma ShownMonotone(a: real, b: real)
    requires a != 0.0 && b != 0.0 && a <= b <= Cap
    ensures Shown(a) <= Shown(b)
  {
    ShownRange(a);
    ShownRange(b);
    if 0.001 <= a && b < 1.0 {
      RoundedMonotone(a, b, 3);
    } else if 1.0 <= a && b < 10.0 {
      RoundedMonotone(a, b, 2);
    } else if 10.0 <= a && b < 100.0 {
      RoundedMonotone(a, b, 1);
    } else if 100.0 <= a {
      FloorMonotone(a, b);
    }
  }

  /** How far the shown number may be from the value: half a unit of the last
      written place, or less than one below it once fractions are dropped. */
  lemma ShownAccuracy(x: real)
    requires x != 0.0 && x <= Cap
    ensures x < 0.001 ==> Shown(x) == 0.001
    ensures 0.001 <= x < 1.0 ==> x - 0.0005 <= Shown(x) <= x + 0.0005
    ensures 1.0 <= x < 10.0 ==> x - 0.005 <= Shown(x) <= x + 0.005
    ensures 10.0 <= x < 100.0 ==> x - 0.05 <= Shown(x) <= x + 0.05
    ensures 100.0 <= x ==> Shown(x) <= x < Shown(x) + 1.0
  {
    if 0.001 <= x < 1.0 {
      assert Pow10(3) == 1000;
      RoundedNear(x, 3, 0.0005);
    } else if 1.0 <= x < 10.0 {
      assert Pow10(2) == 100;
      RoundedNear(x, 2, 0.005);
    } else if 10.0 <= x < 100.0 {
      assert Pow10(1) == 10;
      RoundedNear(x, 1, 0.05);
    }
  }

  /** The tier never drops as the health factor grows (from any nonzero value:
      zero means no debt and is shown as safe). */
  lemma TierMonotone(a: real, b: real)
    requires a != 0.0 && a <= b
    ensures Rank(HealthTier(Finite(a))) <= Rank(HealthTier(Finite(b)))
  {
  }

  /** Display and colour agree at the extremes: "∞" is always green, the
      three-place and minimum displays (below 1) are always red, and the
      one-place and whole displays (10 and up) are always green. */
  lemma TierAgreesWithDisplay(hf: Num)
    ensures DisplayPolicy(hf) == Infinity ==> HealthTier(hf) == Safe
    ensures DisplayPolicy(hf) in {Minimum, Places(3)} ==> HealthTier(hf) == Danger
    ensures DisplayPolicy(hf) in {Places(1), Whole} ==> HealthTier(hf) == Safe
  {
  }

  // ---- the raw on-chain value ----

  /** Decimals of the raw health factor the pool reports. */
  const HealthFactorDecimals: nat := 18

  /** The pool's no-debt health factor, the largest 256-bit word. */
  const MaxUint256: int := 0x1_0000_0000_0000_0000_0000_0000_0000_0000_0000_0000_0000_0000_0000_0000_0000_0000 - 1

  /** Every value in the "∞" band is also green. */
  lemma InfinityBand(hf: Num)
    requires hf.NonFinite? || hf.r == 0.0 || hf.r > Cap
    ensures FormatHealth(hf) == InfinityText && HealthTier(hf) == Safe
  {
  }

  /** A zero raw health factor (at any scale) reads as "∞" and green. */
  lemma ZeroRawIsInfinity(decimals: nat)
    ensures FormatHealthFactor(FormatUnits(0, decimals)) == InfinityText
    ensures GetHealthFactorColor(FormatUnits(0, decimals)) == ColorClass(Safe)
  {
    ParseFloatFormatUnits(0, decimals);
    ZeroDiv(Pow10(decimals) as real);
    InfinityBand(ParseFloat(FormatUnits(0, decimals)));
  }

  /** A raw health factor above 10^(decimals + 6), a ratio above one million,
      is shown as "∞" and green, whatever its exact value. */
  lemma LargeRawIsInfinity(raw: int, decimals: nat)
    requires raw > Pow10(decimals + 6)
    ensures FormatHealthFactor(FormatUnits(raw, decimals)) == InfinityText
    ensures GetHealthFactorColor(FormatUnits(raw, decimals)) == ColorClass(Safe)
  {
    ParseFloatFormatUnits(raw, decimals);
    RatioAboveCap(raw, decimals);
    InfinityBand(ParseFloat(FormatUnits(raw, decimals)));
  }

  lemma RatioAboveCap(raw: int, decimals: nat)
    requires raw > Pow10(decimals + 6)
    ensures raw as real / Pow10(decimals) as real > Cap
  {
    Pow10Add(decimals, 6);
    assert Pow10(6) == 1000000;
    CastAbove(raw, Pow10(decimals));
    AboveRatio(raw as real, Pow10(decimals) as real, 1000000.0);
  }

  lemma CastAbove(raw: int, p: int)
    requires raw > p * 1000000
    ensures raw as real > p as real * 1000000.0
  {
  }

  lemma AboveRatio(a: real, p: real, q: real)
    requires p > 0.0 && a > p * q
    ensures a / p > q
  {
    assert a / p > (p * q) / p;
  }

  /** The no-debt word is far above the cap. */
  lemma NoDebtIsInfinity()
    ensures FormatHealthFactor(FormatUnits(MaxUint256, HealthFactorDecimals)) == InfinityText
    ensures GetHealthFactorColor(FormatUnits(MaxUint256, HealthFactorDecimals)) == ColorClass(Safe)
  {
    Pow10Add(12, 12);
    assert Pow10(12) == 1000000000000;
    LargeRawIsInfinity(MaxUint256, HealthFactorDecimals);
  }
}
