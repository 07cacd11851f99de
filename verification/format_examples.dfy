/** Worked values of the text `toFixed` and `formatUnits` write: the whole
    part has no leading zeros, and `formatUnits` trims its fraction but keeps
    one digit. */
module FormatExamples {
  import opened Digits
  import opened DecimalText
  import opened Units
  import opened Numbers

  /** 0.0078125 (2^-7, held exactly by a double as well) at six places: the
      tie in the seventh place rounds up. */
  lemma FixedSixPlaces()
    ensures ToFixed(Finite(0.0078125), 6) == "0.007813"
  {
    SixPlacesDecimal();
    SixPlacesText();
  }

  lemma SixPlacesDecimal()
    ensures ToFixedDecimal(0.0078125, 6) == Decimal(false, [0], true, [0, 0, 7, 8, 1, 3])
  {
    RoundsUp();
    DigitsOfRounded();
    assert Show(0) == [0];
  }

  lemma SixPlacesText()
    ensures Render(Decimal(false, [0], true, [0, 0, 7, 8, 1, 3])) == "0.007813"
  {
    RenderPoint([0], [0, 0, 7, 8, 1, 3], "0", "007813");
  }

  lemma RoundsUp()
    ensures RoundScaled(0.0078125, 6) == 7813
  {
    assert Pow10(6) == 1000000;
  }

  lemma DigitsOfRounded()
    ensures Shift(7813, 6) == 0
    ensures Fixed(7813, 6) == [0, 0, 7, 8, 1, 3]
  {
    assert Fixed(0, 1) == [0];
    assert Fixed(0, 2) == [0, 0];
    assert Fixed(7, 3) == [0, 0, 7];
    assert Fixed(78, 4) == [0, 0, 7, 8];
    assert Fixed(781, 5) == [0, 0, 7, 8, 1];
    assert Shift(0, 2) == 0;
    assert Shift(7, 3) == 0;
    assert Shift(78, 4) == 0;
    assert Shift(781, 5) == 0;
  }

  /** A nonnegative numeral with a point, written from the texts of its parts. */
  lemma RenderPoint(whole: seq<Digit>, frac: seq<Digit>, w: string, f: string)
    requires Chars(whole) == w && Chars(frac) == f
    ensures Render(Decimal(false, whole, true, frac)) == w + "." + f
  {
  }

  /** 5 followed by `width` zeros: the digits below the top and what is above. */
  lemma {:induction false} FiveThenZeros(width: nat, n: nat, high: nat)
    requires width >= 1 && n == (high * 10 + 5) * Pow10(width - 1)
    ensures Shift(n, width) == high
    ensures Fixed(n, width) == [5] + seq(width - 1, _ => 0)
  {
    if width == 1 {
      assert n == high * 10 + 5;
    } else {
      var m := (high * 10 + 5) * Pow10(width - 2);
      assert n == m * 10;
      FiveThenZeros(width - 1, m, high);
      assert [5] + seq(width - 1, _ => 0) == [5] + seq(width - 2, _ => 0) + [0];
    }
  }

  /** A value below one is written with a single leading "0". */
  lemma FixedBelowOne()
    ensures ToFixed(Finite(0.5), 6) == "0.500000"
  {
    HalfDecimal();
    HalfText();
  }

  lemma HalfText()
    ensures Render(Decimal(false, [0], true, [5, 0, 0, 0, 0, 0])) == "0.500000"
  {
    RenderPoint([0], [5, 0, 0, 0, 0, 0], "0", "500000");
  }

  lemma HalfDecimal()
    ensures ToFixedDecimal(0.5, 6) == Decimal(false, [0], true, [5, 0, 0, 0, 0, 0])
  {
    assert RoundScaled(0.5, 6) == 500000 by {
      assert Pow10(6) == 1000000;
    }
    assert Pow10(5) == 100000;
    FiveThenZeros(6, 500000, 0);
    assert [5] + seq(5, _ => 0) == [5, 0, 0, 0, 0, 0];
    assert Show(0) == [0];
  }

  /** 1.5 USDC (1,500,000 at six decimals): trailing zeros are trimmed. */
  lemma UnitsTrimmed()
    ensures FormatUnits(1500000, 6) == "1.5"
  {
    OneAndAHalfDecimal();
    RenderPoint([1], [5], "1", "5");
  }

  lemma OneAndAHalfDecimal()
    ensures FormatUnitsDecimal(1500000, 6) == Decimal(false, [1], true, [5])
  {
    assert Pow10(5) == 100000;
    FiveThenZeros(6, 1500000, 1);
    assert [5] + seq(5, _ => 0) == [5, 0, 0, 0, 0, 0];
    TrimToFive();
    assert Show(1) == [1];
  }

  lemma TrimToFive()
    ensures TrimZeros([5, 0, 0, 0, 0, 0]) == [5]
  {
    assert [5, 0, 0, 0, 0, 0][..5] == [5, 0, 0, 0, 0];
    assert [5, 0, 0, 0, 0][..4] == [5, 0, 0, 0];
    assert [5, 0, 0, 0][..3] == [5, 0, 0];
    assert [5, 0, 0][..2] == [5, 0];
    assert [5, 0][..1] == [5];
  }

  /** Zero at 18 decimals keeps one fraction digit: "0.0". */
  lemma UnitsZero()
    ensures FormatUnits(0, 18) == "0.0"
  {
    ZeroDecimal();
    RenderPoint([0], [0], "0", "0");
  }

  lemma ZeroDecimal()
    ensures FormatUnitsDecimal(0, 18) == Decimal(false, [0], true, [0])
  {
    ShiftZero(18);
    FixedZero(18);
    TrimAllZeros(18);
    assert Show(0) == [0];
  }

  lemma {:induction false} TrimAllZeros(n: nat)
    requires n >= 1
    ensures TrimZeros(seq(n, _ => 0)) == [0]
  {
    if n > 1 {
      assert seq(n, _ => 0)[..n - 1] == seq(n - 1, _ => 0);
      TrimAllZeros(n - 1);
    }
  }

  lemma {:induction false} FixedZero(n: nat)
    ensures Fixed(0, n) == seq(n, _ => 0)
  {
    if n > 0 {
      FixedZero(n - 1);
    }
  }

  lemma {:induction false} ShiftZero(n: nat)
    ensures Shift(0, n) == 0
  {
    if n > 0 {
      ShiftZero(n - 1);
    }
  }
}
