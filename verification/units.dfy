/** Exact fixed-point conversion between integers and decimal text, as ethers'
    `formatUnits` and `parseUnits` perform it (also `formatEther`, which is
    `formatUnits` with 18 decimals, and BigInt's `toString`, which is
    `formatUnits` with 0 decimals). */
module Units {
  import opened Wrappers
  import opened Digits
  import opened DecimalText

  datatype UnitsError =
    | InvalidNumber     // the text is not a plain decimal numeral
    | TooManyDecimals   // nonzero digits beyond the requested precision

  /** ethers holds a fixed-point value in a format of at most 80 decimals whose
      integer is a signed 512-bit word; `formatUnits` throws outside it. */
  const MaxUnitsDecimals: nat := 80
  const WordBound: nat := 0x80000000000000000000000000000000000000000000000000000000000000000000000000000000000000000000000000000000000000000000000000000000  // 2^511

  /** The integer fits a signed 512-bit word. */
  predicate InWidth(v: int) {
    -(WordBound as int) <= v < WordBound
  }

  function Magnitude(v: int): nat {
    if v < 0 then -v else v
  }

  /** The numeral `formatUnits(v, decimals)` writes: the whole part without
      leading zeros; with a point only when `decimals > 0`; the fraction with
      trailing zeros removed but at least one digit kept. */
  function FormatUnitsDecimal(v: int, decimals: nat): (t: Decimal)
    ensures WellFormed(t)
    ensures t.negative <==> v < 0
    ensures t.point <==> decimals > 0
    ensures |t.frac| <= decimals
    ensures NoLeadingZeros(t.whole)
    ensures t.point ==> NoTrailingZeros(t.frac)
  {
    var a := Magnitude(v);
    if decimals == 0 then Decimal(v < 0, Show(a), false, [])
    else Decimal(v < 0, Show(Shift(a, decimals)), true, TrimZeros(Fixed(a, decimals)))
  }

  function FormatUnits(v: int, decimals: nat): string {
    Render(FormatUnitsDecimal(v, decimals))
  }

  /** The base-10 text of an integer (BigInt's `toString`). */
  function IntText(v: int): string {
    FormatUnits(v, 0)
  }

  /** Digits past position `decimals` of a fraction are all zero. */
  predicate FitsDecimals(frac: seq<Digit>, decimals: nat) {
    forall i :: decimals <= i < |frac| ==> frac[i] == 0
  }

  /** The integer a numeral denotes once its point is moved `decimals` places right. */
  function Shifted(t: Decimal, decimals: nat): int {
    var m: int := Value(t.whole + PadTo(t.frac, decimals));
    if t.negative then -m else m
  }

  /** `parseUnits(s, decimals)`: reads the numeral and moves its point; fails on
      text outside the numeral grammar and on nonzero digits past `decimals`. */
  function ParseUnits(s: string, decimals: nat): (r: Result<int, UnitsError>)
    ensures r == Failure(InvalidNumber) <==> Lex(s).None?
    ensures r == Failure(TooManyDecimals) <==> Lex(s).Some? && !FitsDecimals(Lex(s).value.frac, decimals)
    ensures r.Success? ==> r.value * Pow10(|Lex(s).value.frac|) == Numerator(Lex(s).value) * Pow10(decimals)
  {
    match Lex(s)
    case None => Failure(InvalidNumber)
    case Some(t) =>
      if !FitsDecimals(t.frac, decimals) then Failure(TooManyDecimals)
      else
        ShiftedCross(t, decimals);
        Success(Shifted(t, decimals))
  }

  /** Plain base-10 integer text, as `toString()` writes it: an optional
      minus and at least one digit, nothing else. */
  function ParseInteger(s: string): (r: Result<int, UnitsError>)
    ensures r.Success? <==> Lex(s).Some? && !Lex(s).value.point
    ensures r.Success? ==> r.value == Numerator(Lex(s).value) && Lex(s).value.frac == []
  {
    match Lex(s)
    case Some(t) =>
      if t.point then Failure(InvalidNumber)
      else
        assert t.whole + t.frac == t.whole;
        Success(if t.negative then -(Value(t.whole) as int) else Value(t.whole))
    case None => Failure(InvalidNumber)
  }

  // ---- arithmetic helpers (integers and reals kept apart) ----

  lemma MulSwap(x: int, y: int, z: int)
    ensures x * (y * z) == (x * z) * y
  {
  }

  lemma MulAddDistrib(x: int, y: int, z: int)
    ensures (x + y) * z == x * z + y * z
  {
  }

  lemma MulNeg(x: int, y: int)
    ensures (-x) * y == -(x * y)
  {
  }

  /** Cross-multiplied equality of two fractions. */
  lemma RatCross(n: int, pk: int, m: int, pd: int)
    requires pk > 0 && pd > 0
    requires n * pd == m * pk
    ensures n as real / pk as real == m as real / pd as real
  {
    var x, y, a, b := n as real, m as real, pk as real, pd as real;
    assert x * b == y * a;
    assert x / a == (x * b) / (a * b);
    assert y / b == (y * a) / (a * b);
  }

  /** An integer equal to a fraction times a power. */
  lemma RatScale(s: int, n: int, pk: int, pd: int)
    requires pk > 0
    requires s * pk == n * pd
    ensures s as real == (n as real / pk as real) * pd as real
  {
    var x, a, b := n as real, pk as real, pd as real;
    assert (s * pk) as real == s as real * a;
    assert (n * pd) as real == x * b;
    assert (x / a) * b == (x * b) / a;
  }

  // ---- digit-level facts ----

  /** Moving the point of a fraction whose cut digits are zero, cross-multiplied. */
  lemma PadValue(frac: seq<Digit>, decimals: nat)
    requires FitsDecimals(frac, decimals)
    ensures Value(PadTo(frac, decimals)) * Pow10(|frac|) == Value(frac) * Pow10(decimals)
  {
    if |frac| >= decimals {
      PadValueCut(frac, decimals);
    } else {
      PadValueExtend(frac, decimals);
    }
  }

  lemma PadValueCut(frac: seq<Digit>, decimals: nat)
    requires FitsDecimals(frac, decimals) && |frac| >= decimals
    ensures Value(PadTo(frac, decimals)) * Pow10(|frac|) == Value(frac) * Pow10(decimals)
  {
    var p := PadTo(frac, decimals);
    var z := frac[decimals..];
    assert frac == p + z;
    ValueAppend(p, z);
    ValueZeros(z);
    Pow10Add(decimals, |z|);
    MulSwap(Value(p), Pow10(decimals), Pow10(|z|));
  }

  lemma PadValueExtend(frac: seq<Digit>, decimals: nat)
    requires |frac| < decimals
    ensures Value(PadTo(frac, decimals)) * Pow10(|frac|) == Value(frac) * Pow10(decimals)
  {
    var p := PadTo(frac, decimals);
    var z := p[|frac|..];
    assert p == frac + z;
    ValueAppend(frac, z);
    ValueZeros(z);
    Pow10Add(|frac|, |z|);
    MulSwap(Value(frac), Pow10(|frac|), Pow10(|z|));
  }


  lemma CrossStep(M: int, N: int, w: int, vp: int, f: int, pk: int, pd: int)
    requires M == w * pd + vp && N == w * pk + f
    requires vp * pk == f * pd
    ensures M * pk == N * pd
  {
    MulAddDistrib(w * pd, vp, pk);
    MulAddDistrib(w * pk, f, pd);
    MulSwap(w, pd, pk);
    MulSwap(w, pk, pd);
  }

  lemma PaddedCross(t: Decimal, decimals: nat)
    requires FitsDecimals(t.frac, decimals)
    ensures Value(t.whole + PadTo(t.frac, decimals)) * Pow10(|t.frac|)
         == Value(t.whole + t.frac) * Pow10(decimals)
  {
    var p := PadTo(t.frac, decimals);
    ValueAppend(t.whole, p);
    ValueAppend(t.whole, t.frac);
    PadValue(t.frac, decimals);
    CrossStep(Value(t.whole + p), Value(t.whole + t.frac), Value(t.whole), Value(p), Value(t.frac),
              Pow10(|t.frac|), Pow10(decimals));
  }

  /** Moving the point of a numeral, cross-multiplied with the numeral's own scale. */
  lemma ShiftedCross(t: Decimal, decimals: nat)
    requires FitsDecimals(t.frac, decimals)
    ensures Shifted(t, decimals) * Pow10(|t.frac|) == Numerator(t) * Pow10(decimals)
  {
    PaddedCross(t, decimals);
    MulNeg(Value(t.whole + PadTo(t.frac, decimals)), Pow10(|t.frac|));
    MulNeg(Value(t.whole + t.frac), Pow10(decimals));
  }

  /** The digits `formatUnits` writes, point ignored, spell |v| / 10^(decimals - |frac|). */
  lemma FormatUnitsCross(v: int, decimals: nat)
    ensures Numerator(FormatUnitsDecimal(v, decimals)) * Pow10(decimals)
         == v * Pow10(|FormatUnitsDecimal(v, decimals).frac|)
  {
    var t := FormatUnitsDecimal(v, decimals);
    var a := Magnitude(v);
    if decimals == 0 {
      assert t.whole + t.frac == Show(a);
      ValueShow(a);
    } else {
      TrimmedCross(a, decimals);
      MulNeg(Value(t.whole + t.frac), Pow10(decimals));
      MulNeg(a, Pow10(|t.frac|));
    }
  }

  /** Whole digits followed by the trimmed fraction, times 10^decimals, is a * 10^|trimmed|. */
  lemma TrimmedCross(a: nat, decimals: nat)
    requires decimals > 0
    ensures var x, tf := Show(Shift(a, decimals)), TrimZeros(Fixed(a, decimals));
            Value(x + tf) * Pow10(decimals) == a * Pow10(|tf|)
  {
    var x := Show(Shift(a, decimals));
    var f := Fixed(a, decimals);
    var tf := TrimZeros(f);
    var z := f[|tf|..];
    assert f == tf + z;
    assert x + f == (x + tf) + z;
    SplitDigits(a, decimals);
    ValueAppend(x + tf, z);
    ValueZeros(z);
    Pow10Add(|tf|, |z|);
    MulSwap(Value(x + tf), Pow10(|tf|), Pow10(|z|));
  }

  /** The numeral `formatUnits` writes denotes exactly v / 10^decimals. */
  lemma FormatUnitsValue(v: int, decimals: nat)
    ensures ValueOf(FormatUnitsDecimal(v, decimals)) == v as real / Pow10(decimals) as real
  {
    var t := FormatUnitsDecimal(v, decimals);
    FormatUnitsCross(v, decimals);
    RatCross(Numerator(t), Pow10(|t.frac|), v, Pow10(decimals));
  }

  /** `parseUnits(formatUnits(v, d), d) == v`: the round trip is exact and never fails. */
  lemma ParseFormatUnits(v: int, decimals: nat)
    ensures ParseUnits(FormatUnits(v, decimals), decimals) == Success(v)
  {
    var t := FormatUnitsDecimal(v, decimals);
    LexRender(t);
    assert FitsDecimals(t.frac, decimals);
    ShiftedFormatUnits(v, decimals);
  }

  /** Moving the point of `formatUnits(v, d)` back by d places gives v. */
  lemma ShiftedFormatUnits(v: int, decimals: nat)
    ensures Shifted(FormatUnitsDecimal(v, decimals), decimals) == v
  {
    var t := FormatUnitsDecimal(v, decimals);
    var a := Magnitude(v);
    if decimals == 0 {
      assert t.whole + PadTo(t.frac, 0) == Show(a);
      ValueShow(a);
    } else {
      PaddedFraction(a, decimals);
      SplitDigits(a, decimals);
    }
  }

  lemma PaddedFraction(a: nat, decimals: nat)
    requires decimals > 0
    ensures PadTo(TrimZeros(Fixed(a, decimals)), decimals) == Fixed(a, decimals)
  {
    PadTrim(Fixed(a, decimals));
  }

  /** Integer text reads back as the integer. */
  lemma ParseIntText(v: int)
    ensures ParseInteger(IntText(v)) == Success(v)
  {
    var t := FormatUnitsDecimal(v, 0);
    LexRender(t);
    assert t.whole + t.frac == Show(Magnitude(v));
    ValueShow(Magnitude(v));
  }
}
