/** JavaScript number operations the core applies to decimal text: `parseFloat`
    and `Number.prototype.toFixed`. Values are exact rationals here, where
    JavaScript rounds to the nearest IEEE-754 double first. */
module Numbers {
  import opened Wrappers
  import opened Digits
  import opened DecimalText
  import opened Units

  /** A JavaScript number: a finite value (held exactly), or NaN/±Infinity. */
  datatype Num = Finite(r: real) | NonFinite

  /** `parseFloat(s)` on plain decimal numerals: their exact value. Any text
      outside that grammar reads as NaN. */
  function ParseFloat(s: string): (n: Num)
    ensures n.Finite? ==> exists t :: WellFormed(t) && Render(t) == s && ValueOf(t) == n.r
    ensures n.NonFinite? ==> forall t :: WellFormed(t) ==> Render(t) != s
  {
    match Lex(s)
    case Some(t) => Finite(ValueOf(t))
    case None =>
      NoNumeralRenders(s);
      NonFinite
  }

  /** Text `Lex` refuses is the rendering of no numeral. */
  lemma NoNumeralRenders(s: string)
    requires Lex(s).None?
    ensures forall t :: WellFormed(t) ==> Render(t) != s
  {
    forall t | WellFormed(t)
      ensures Render(t) != s
    {
      LexRender(t);
    }
  }

  /** `parseFloat(s) > 0`: NaN compares false. */
  predicate Positive(n: Num) {
    n.Finite? && n.r > 0.0
  }

  /** A rendered numeral reads back as the number it denotes. */
  lemma ParseFloatRender(t: Decimal)
    requires WellFormed(t)
    ensures ParseFloat(Render(t)) == Finite(ValueOf(t))
  {
    LexRender(t);
  }

  /** `parseFloat(formatUnits(v, d))` is exactly v / 10^d. */
  lemma ParseFloatFormatUnits(v: int, decimals: nat)
    ensures ParseFloat(FormatUnits(v, decimals)) == Finite(v as real / Pow10(decimals) as real)
  {
    ParseFloatRender(FormatUnitsDecimal(v, decimals));
    FormatUnitsValue(v, decimals);
  }

  /** The text of `formatUnits(v, d)` is read as positive exactly when v is. */
  lemma PositiveFormatUnits(v: int, decimals: nat)
    ensures Positive(ParseFloat(FormatUnits(v, decimals))) <==> v > 0
  {
    ParseFloatFormatUnits(v, decimals);
    DivPositive(v as real, Pow10(decimals) as real);
  }

  lemma ZeroDiv(p: real)
    requires p > 0.0
    ensures 0 as real / p == 0.0
  {
  }

  lemma DivPositive(x: real, p: real)
    requires p > 0.0
    ensures x / p > 0.0 <==> x > 0.0
  {
    if x > 0.0 {
      assert x / p > 0.0;
    } else {
      assert x / p <= 0.0;
    }
  }

  /** The integer `toFixed(places)` writes for a magnitude m: the nearest to
      m * 10^places, the larger one on a tie. */
  function RoundScaled(m: real, places: nat): (n: nat)
    requires m >= 0.0
    ensures n as real - 0.5 <= m * Pow10(places) as real < n as real + 0.5
  {
    NonNegProduct(m, Pow10(places) as real);
    (m * Pow10(places) as real + 0.5).Floor
  }

  lemma NonNegProduct(a: real, b: real)
    requires a >= 0.0 && b >= 0.0
    ensures a * b >= 0.0
  {
  }

  /** The numeral `x.toFixed(places)` writes: '-' when x < 0, then the rounded
      magnitude with exactly `places` fraction digits. */
  function ToFixedDecimal(x: real, places: nat): (t: Decimal)
    ensures WellFormed(t)
    ensures NoLeadingZeros(t.whole)
    ensures |t.frac| == places && (t.point <==> places > 0)
    ensures t.negative <==> x < 0.0
  {
    var n := RoundScaled(if x < 0.0 then -x else x, places);
    Decimal(x < 0.0, Show(Shift(n, places)), places > 0, Fixed(n, places))
  }

  /** `x.toFixed(places)`; NaN prints as "NaN". */
  function ToFixed(x: Num, places: nat): string {
    match x
    case Finite(r) => Render(ToFixedDecimal(r, places))
    case NonFinite => "NaN"
  }

  /** The written numeral denotes ±RoundScaled(|x|) / 10^places. */
  lemma ToFixedDigits(x: real, places: nat)
    ensures var n := RoundScaled(if x < 0.0 then -x else x, places);
            Numerator(ToFixedDecimal(x, places)) == (if x < 0.0 then -(n as int) else n)
  {
    var n := RoundScaled(if x < 0.0 then -x else x, places);
    SplitDigits(n, places);
  }

  /** The magnitude `toFixed` rounds. */
  function Abs(x: real): real {
    if x < 0.0 then -x else x
  }

  /** The rounded magnitude, as a number. */
  function Rounded(x: real, places: nat): real {
    RoundScaled(Abs(x), places) as real / Pow10(places) as real
  }

  lemma ToFixedSigned(x: real, places: nat)
    ensures ValueOf(ToFixedDecimal(x, places)) == if x < 0.0 then -Rounded(x, places) else Rounded(x, places)
  {
    ToFixedDigits(x, places);
    NegDiv(RoundScaled(Abs(x), places) as real, Pow10(places) as real);
  }

  lemma RoundedClose(x: real, places: nat)
    ensures Abs(x) - 0.5 / Pow10(places) as real <= Rounded(x, places) <= Abs(x) + 0.5 / Pow10(places) as real
  {
    HalfUlp(RoundScaled(Abs(x), places) as real, Abs(x), Pow10(places) as real);
  }

  /** Within half a unit of the last written place, for either sign. */
  lemma ToFixedClose(x: real, places: nat)
    ensures x - 0.5 / Pow10(places) as real <= ValueOf(ToFixedDecimal(x, places))
    ensures ValueOf(ToFixedDecimal(x, places)) <= x + 0.5 / Pow10(places) as real
  {
    ToFixedSigned(x, places);
    RoundedClose(x, places);
    CloseSigned(x, Abs(x), Rounded(x, places), 0.5 / Pow10(places) as real);
  }

  lemma CloseSigned(x: real, m: real, q: real, h: real)
    requires m == if x < 0.0 then -x else x
    requires m - h <= q <= m + h
    ensures x - h <= (if x < 0.0 then -q else q) <= x + h
  {
  }

  lemma NegDiv(a: real, p: real)
    requires p > 0.0
    ensures (-a) / p == -(a / p)
  {
  }

  /** From n - 1/2 <= m*p < n + 1/2 to |n/p - m| <= 1/(2p). */
  lemma HalfUlp(n: real, m: real, p: real)
    requires p > 0.0
    requires n - 0.5 <= m * p < n + 0.5
    ensures m - 0.5 / p <= n / p <= m + 0.5 / p
  {
    assert (n - 0.5) / p <= (m * p) / p;
    assert (m * p) / p <= (n + 0.5) / p;
    assert (m * p) / p == m;
  }

  /** `parseFloat(x.toFixed(places))` reads back the rounded value. */
  lemma ParseToFixed(x: real, places: nat)
    ensures ParseFloat(ToFixed(Finite(x), places)) == Finite(ValueOf(ToFixedDecimal(x, places)))
  {
    ParseFloatRender(ToFixedDecimal(x, places));
  }

  /** Rounding to a fixed number of places never reverses the order of two values. */
  lemma RoundScaledMonotone(a: real, b: real, places: nat)
    requires 0.0 <= a <= b
    ensures RoundScaled(a, places) <= RoundScaled(b, places)
  {
    var p := Pow10(places) as real;
    MulMonotone(a, b, p);
  }

  lemma MulMonotone(a: real, b: real, p: real)
    requires a <= b && p >= 0.0
    ensures a * p <= b * p
  {
    NonNegProduct(b - a, p);
  }

  /** For a value that is not negative, rounding to `places` moves it by at
      most h, half a unit of the last place. */
  lemma RoundedNear(x: real, places: nat, h: real)
    requires 0.0 <= x && h * Pow10(places) as real == 0.5
    ensures x - h <= Rounded(x, places) <= x + h
  {
    RoundedClose(x, places);
    assert Abs(x) == x;
    HalfUnit(h, Pow10(places) as real);
  }

  lemma HalfUnit(h: real, p: real)
    requires p > 0.0 && h * p == 0.5
    ensures 0.5 / p == h
  {
  }

  /** Rounding a value that is not negative gives a positive number exactly when
      the value reaches half a unit of the last place. */
  lemma RoundedPositive(x: real, places: nat)
    requires 0.0 <= x
    ensures Rounded(x, places) > 0.0 <==> x * Pow10(places) as real >= 0.5
  {
    var n := RoundScaled(Abs(x), places);
    DivPositive(n as real, Pow10(places) as real);
    assert Abs(x) == x;
  }

  /** A magnitude that is a whole number w of last-place units is written as is. */
  lemma RoundedWhole(x: real, places: nat, w: nat)
    requires Abs(x) * Pow10(places) as real == w as real
    ensures Rounded(x, places) == Abs(x)
  {
    RoundScaledWhole(Abs(x), places, w);
    DivBack(Abs(x), Pow10(places) as real, w as real);
  }

  lemma RoundScaledWhole(m: real, places: nat, w: nat)
    requires m >= 0.0 && m * Pow10(places) as real == w as real
    ensures RoundScaled(m, places) == w
  {
  }

  lemma DivBack(m: real, p: real, v: real)
    requires p > 0.0 && m * p == v
    ensures v / p == m
  {
  }
}
