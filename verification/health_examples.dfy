/** Worked values of `formatHealthFactor` and `getHealthFactorColor` on
    decimal text. */
module HealthExamples {
  import opened Digits
  import opened DecimalText
  import opened Numbers
  import opened HealthFactor

  const OneTwoThree: Decimal := Decimal(false, [1], true, [2, 3, 4, 5, 6])

  lemma OneTwoThreeRenders()
    ensures WellFormed(OneTwoThree) && Render(OneTwoThree) == "1.23456"
  {
    assert Chars([1]) == "1";
    assert Chars([2, 3, 4, 5, 6]) == "23456";
  }

  lemma OneTwoThreeDigits()
    ensures Value([1, 2, 3, 4, 5, 6]) == 123456
  {
    assert [1, 2, 3, 4, 5, 6][..5] == [1, 2, 3, 4, 5];
    assert [1, 2, 3, 4, 5][..4] == [1, 2, 3, 4];
    assert [1, 2, 3, 4][..3] == [1, 2, 3];
    assert [1, 2, 3][..2] == [1, 2];
    assert [1, 2][..1] == [1];
    assert [1][..0] == [];
  }

  lemma OneTwoThreeValue()
    ensures ValueOf(OneTwoThree) == 1.23456
  {
    OneTwoThreeDigits();
    assert OneTwoThree.whole + OneTwoThree.frac == [1, 2, 3, 4, 5, 6];
    assert Pow10(5) == 100000;
  }

  lemma ReadsOneTwoThree()
    ensures ParseFloat("1.23456") == Finite(1.23456)
  {
    OneTwoThreeRenders();
    OneTwoThreeValue();
    ParseFloatRender(OneTwoThree);
  }

  lemma FixedOneTwoThree()
    ensures ToFixed(Finite(1.23456), 2) == "1.23"
  {
    assert Pow10(2) == 100;
    assert RoundScaled(1.23456, 2) == 123;
    assert Shift(123, 2) == 1;
    assert Fixed(123, 2) == [2, 3];
    assert Show(1) == [1];
    assert Chars([1]) == "1";
    assert Chars([2, 3]) == "23";
  }

  /** "1.23456" is below 10 and is shown with two places. */
  lemma ExampleTwoPlaces()
    ensures FormatHealthFactor("1.23456") == "1.23"
  {
    ReadsOneTwoThree();
    FixedOneTwoThree();
  }

  lemma ReadsZero()
    ensures ParseFloat("0") == Finite(0.0)
  {
    var t := Decimal(false, [0], false, []);
    assert Chars([0]) == "0";
    assert Render(t) == "0";
    assert ValueOf(t) == 0.0 by {
      assert [0][..0] == [];
      assert t.whole + t.frac == [0];
      assert Pow10(0) == 1;
    }
    ParseFloatRender(t);
  }

  /** "0" (no debt) is shown as "∞". */
  lemma ExampleZero()
    ensures FormatHealthFactor("0") == "∞"
  {
    ReadsZero();
  }

  lemma ReadsTinyDigits()
    ensures Value([0, 0, 0, 0, 5]) == 5
  {
    assert [0, 0, 0, 0, 5][..4] == [0, 0, 0, 0];
    assert [0, 0, 0, 0][..3] == [0, 0, 0];
    assert [0, 0, 0][..2] == [0, 0];
    assert [0, 0][..1] == [0];
    assert [0][..0] == [];
  }

  lemma ReadsTiny()
    ensures ParseFloat("0.0005") == Finite(0.0005)
  {
    var t := Decimal(false, [0], true, [0, 0, 0, 5]);
    assert Render(t) == "0.0005" by {
      assert Chars([0]) == "0";
      assert Chars([0, 0, 0, 5]) == "0005";
    }
    assert ValueOf(t) == 0.0005 by {
      ReadsTinyDigits();
      assert t.whole + t.frac == [0, 0, 0, 0, 5];
      assert Pow10(4) == 10000;
    }
    ParseFloatRender(t);
  }

  /** A value below 0.001 is shown as "0.001". */
  lemma ExampleMinimum()
    ensures FormatHealthFactor("0.0005") == "0.001"
  {
    ReadsTiny();
  }

  lemma ReadsFiftyFive()
    ensures ParseFloat("55.9") == Finite(55.9)
  {
    var t := Decimal(false, [5, 5], true, [9]);
    assert Render(t) == "55.9" by {
      assert Chars([5, 5]) == "55";
      assert Chars([9]) == "9";
    }
    assert ValueOf(t) == 55.9 by {
      assert [5, 5, 9][..2] == [5, 5];
      assert [5, 5][..1] == [5];
      assert [5][..0] == [];
      assert t.whole + t.frac == [5, 5, 9];
      assert Pow10(1) == 10;
    }
    ParseFloatRender(t);
  }

  lemma FixedFiftyFive()
    ensures ToFixed(Finite(55.9), 1) == "55.9"
  {
    assert Pow10(1) == 10;
    assert RoundScaled(55.9, 1) == 559;
    assert Shift(559, 1) == 55;
    assert Fixed(559, 1) == [9];
    assert Show(55) == [5, 5];
    assert Chars([5, 5]) == "55";
    assert Chars([9]) == "9";
  }

  /** "55.9" is below 100 and is shown with one place. */
  lemma ExampleOnePlace()
    ensures FormatHealthFactor("55.9") == "55.9"
  {
    ReadsFiftyFive();
    FixedFiftyFive();
  }

  lemma ReadsOneOhFive()
    ensures ParseFloat("1.05") == Finite(1.05)
  {
    var t := Decimal(false, [1], true, [0, 5]);
    assert Render(t) == "1.05" by {
      assert Chars([1]) == "1";
      assert Chars([0, 5]) == "05";
    }
    assert ValueOf(t) == 1.05 by {
      assert [1, 0, 5][..2] == [1, 0];
      assert [1, 0][..1] == [1];
      assert [1][..0] == [];
      assert t.whole + t.frac == [1, 0, 5];
      assert Pow10(2) == 100;
    }
    ParseFloatRender(t);
  }

  lemma ReadsOnePointEight()
    ensures ParseFloat("1.8") == Finite(1.8)
  {
    var t := Decimal(false, [1], true, [8]);
    assert Render(t) == "1.8" by {
      assert Chars([1]) == "1";
      assert Chars([8]) == "8";
    }
    assert ValueOf(t) == 1.8 by {
      assert [1, 8][..1] == [1];
      assert [1][..0] == [];
      assert t.whole + t.frac == [1, 8];
      assert Pow10(1) == 10;
    }
    ParseFloatRender(t);
  }

  lemma ReadsTwo()
    ensures ParseFloat("2.0") == Finite(2.0)
  {
    var t := Decimal(false, [2], true, [0]);
    assert Render(t) == "2.0" by {
      assert Chars([2]) == "2";
      assert Chars([0]) == "0";
    }
    assert ValueOf(t) == 2.0 by {
      assert [2, 0][..1] == [2];
      assert [2][..0] == [];
      assert t.whole + t.frac == [2, 0];
      assert Pow10(1) == 10;
    }
    ParseFloatRender(t);
  }

  /** 1.05 is below 1.1: red. */
  lemma ExampleRed()
    ensures GetHealthFactorColor("1.05") == "text-red-600"
  {
    ReadsOneOhFive();
  }

  /** 1.8 is in [1.5, 2): yellow. */
  lemma ExampleYellow()
    ensures GetHealthFactorColor("1.8") == "text-yellow-600"
  {
    ReadsOnePointEight();
  }

  /** Exactly 2.0 is already green. */
  lemma ExampleGreen()
    ensures GetHealthFactorColor("2.0") == "text-green-600"
  {
    ReadsTwo();
  }
}
