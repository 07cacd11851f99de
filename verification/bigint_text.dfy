/** The integer text `formatUnits` accepts when it is given a string (the
    balance argument of `formatBalance` in utils/fetchBalances.ts): ethers'
    `getBigInt`, which handles a leading '-' itself and passes the rest to
    JavaScript's `BigInt(string)`. */
module BigIntText {
  import opened Wrappers
  import opened Digits
  import opened DecimalText
  import opened Units

  /** ECMAScript's white space and line terminators, which `BigInt` trims. */
  predicate IsSpace(c: char) {
    c == '\t' || c == '\n' || c == '\U{B}' || c == '\U{C}' || c == '\r' || c == ' '
    || c == '\U{A0}' || c == '\U{1680}' || ('\U{2000}' <= c <= '\U{200A}')
    || c == '\U{2028}' || c == '\U{2029}' || c == '\U{202F}' || c == '\U{205F}'
    || c == '\U{3000}' || c == '\U{FEFF}'
  }

  predicate AllSpaces(s: string) {
    forall i :: 0 <= i < |s| ==> IsSpace(s[i])
  }

  /** `s` without its leading white space. */
  function TrimStart(s: string): (r: string)
    ensures |r| <= |s| && r == s[|s| - |r|..]
    ensures |r| == 0 || !IsSpace(r[0])
  {
    if |s| > 0 && IsSpace(s[0]) then TrimStart(s[1..]) else s
  }

  /** `s` without its trailing white space. */
  function TrimEnd(s: string): (r: string)
    ensures |r| <= |s| && r == s[..|r|]
    ensures |r| == 0 || !IsSpace(r[|r| - 1])
  {
    if |s| > 0 && IsSpace(s[|s| - 1]) then TrimEnd(s[..|s| - 1]) else s
  }

  function Trim(s: string): string {
    TrimEnd(TrimStart(s))
  }

  /** The value of a digit character of base 2, 8, 10 or 16, in either case. */
  function DigitValue(c: char): Option<nat> {
    if '0' <= c <= '9' then Some(c as int - '0' as int)
    else if 'a' <= c <= 'f' then Some(c as int - 'a' as int + 10)
    else if 'A' <= c <= 'F' then Some(c as int - 'A' as int + 10)
    else None
  }

  predicate IsDigitIn(c: char, base: nat) {
    DigitValue(c).Some? && DigitValue(c).value < base
  }

  predicate AllDigitsIn(s: string, base: nat) {
    forall i :: 0 <= i < |s| ==> IsDigitIn(s[i], base)
  }

  /** The number the digits of `s` spell in `base`. */
  function ValueIn(s: string, base: nat): nat
    requires AllDigitsIn(s, base)
  {
    if |s| == 0 then 0 else ValueIn(s[..|s| - 1], base) * base + DigitValue(s[|s| - 1]).value
  }

  /** The base a `0x`, `0o` or `0b` prefix names, in either case. */
  function Radix(c: char): Option<nat> {
    if c == 'x' || c == 'X' then Some(16)
    else if c == 'o' || c == 'O' then Some(8)
    else if c == 'b' || c == 'B' then Some(2)
    else None
  }

  /** Digits of `base`, at least one, read as a number. */
  function ReadDigits(ds: string, base: nat): Option<nat> {
    if |ds| > 0 && AllDigitsIn(ds, base) then Some(ValueIn(ds, base)) else None
  }

  function Negate(r: Option<int>): Option<int> {
    match r
    case Some(v) => Some(-v)
    case None => None
  }

  /** `BigInt` on text without surrounding white space: nothing reads as 0; a
      numeral with a `0x`, `0o` or `0b` prefix has no sign; a decimal numeral
      may have one '+' or '-'. There is no point, exponent or digit separator. */
  function ReadTrimmed(t: string): Option<int> {
    if |t| == 0 then Some(0)
    else if |t| >= 2 && t[0] == '0' && Radix(t[1]).Some? then ReadDigits(t[2..], Radix(t[1]).value)
    else if t[0] == '-' then Negate(ReadDigits(t[1..], 10))
    else if t[0] == '+' then ReadDigits(t[1..], 10)
    else ReadDigits(t, 10)
  }

  /** `BigInt(s)` on a string, `None` where it throws a SyntaxError. */
  function StringToBigInt(s: string): Option<int> {
    ReadTrimmed(Trim(s))
  }

  /** ethers' `getBigInt` on a string: the empty string is refused; a '-' not
      followed by another '-' is taken off and the rest negated; anything else
      goes to `BigInt` as it is. */
  function GetBigInt(s: string): Option<int> {
    if |s| == 0 then None
    else if s[0] == '-' && (|s| == 1 || s[1] != '-') then Negate(StringToBigInt(s[1..]))
    else StringToBigInt(s)
  }

  /** Text that starts and ends with something other than white space is left
      as it is by trimming. */
  lemma TrimKeeps(w: string)
    requires |w| > 0 && !IsSpace(w[0]) && !IsSpace(w[|w| - 1])
    ensures Trim(w) == w
  {
    assert TrimStart(w) == w;
    assert TrimEnd(w) == w;
  }

  /** Text without surrounding white space and without a leading '-' goes
      to `BigInt` unchanged, and `BigInt` reads it as it is. */
  lemma ReadsTrimmed(t: string)
    requires |t| > 0 && !IsSpace(t[0]) && !IsSpace(t[|t| - 1]) && t[0] != '-'
    ensures StringToBigInt(t) == ReadTrimmed(t)
    ensures GetBigInt(t) == ReadTrimmed(t)
  {
    TrimKeeps(t);
  }

  /** A leading '-' before such text negates what `BigInt` reads. */
  lemma ReadsNegated(t: string)
    requires |t| > 0 && !IsSpace(t[0]) && !IsSpace(t[|t| - 1]) && t[0] != '-'
    ensures GetBigInt("-" + t) == Negate(ReadTrimmed(t))
  {
    assert ("-" + t)[1..] == t;
    ReadsTrimmed(t);
  }

  // ---- agreement with the plain numerals the core writes ----

  lemma {:induction false} ValueInChars(ds: seq<Digit>)
    ensures AllDigitsIn(Chars(ds), 10)
    ensures ValueIn(Chars(ds), 10) == Value(ds)
  {
    if |ds| > 0 {
      var init := ds[..|ds| - 1];
      assert Chars(ds)[..|ds| - 1] == Chars(init);
      ValueInChars(init);
    }
  }

  /** A nonempty run of decimal digits reads as the number it spells. */
  lemma DigitsReadTrimmed(ds: seq<Digit>)
    requires |ds| > 0
    ensures ReadTrimmed(Chars(ds)) == Some(Value(ds) as int)
  {
    var w := Chars(ds);
    ValueInChars(ds);
    assert IsDigitChar(w[0]) && (|w| >= 2 ==> IsDigitChar(w[1]));
    DecimalTrimmed(w);
  }

  /** Text of decimal digits takes the last branch of `ReadTrimmed`. */
  lemma DecimalTrimmed(w: string)
    requires |w| > 0 && IsDigitChar(w[0]) && (|w| >= 2 ==> IsDigitChar(w[1]))
    ensures ReadTrimmed(w) == ReadDigits(w, 10)
  {
    if |w| >= 2 {
      assert Radix(w[1]).None?;
    }
  }

  /** On the plain base-10 numerals `ParseInteger` reads (an optional '-' and
      digits), `getBigInt` gives the same integer. */
  lemma PlainAgrees(s: string)
    requires ParseInteger(s).Success?
    ensures GetBigInt(s) == Some(ParseInteger(s).value)
  {
    var negative, w, v := PlainParts(s);
    DigitTextRead(w, v);
    if negative {
      assert s == "-" + w;
    } else {
      assert s == w;
    }
  }

  /** A plain integer text is an optional '-' before digit text that `BigInt`
      reads as the magnitude. */
  lemma PlainParts(s: string) returns (negative: bool, w: string, v: nat)
    requires ParseInteger(s).Success?
    ensures |w| > 0 && IsDigitChar(w[0]) && IsDigitChar(w[|w| - 1]) && ReadTrimmed(w) == Some(v)
    ensures s == (if negative then "-" + w else w)
    ensures ParseInteger(s).value == if negative then -(v as int) else v
  {
    var t := Lex(s).value;
    negative, w, v := t.negative, Chars(t.whole), Value(t.whole);
    assert t.frac == [] && |t.whole| > 0 && !t.point;
    assert Unsigned(t) == w;
    assert Sign(t) + w == if negative then "-" + w else w;
    assert t.whole + t.frac == t.whole;
    DigitsReadTrimmed(t.whole);
  }

  /** Digit text that `BigInt` reads as `v` reads through `getBigInt` as `v`,
      and as `-v` after a '-'. */
  lemma DigitTextRead(w: string, v: nat)
    requires |w| > 0 && IsDigitChar(w[0]) && IsDigitChar(w[|w| - 1])
    requires ReadTrimmed(w) == Some(v)
    ensures GetBigInt(w) == Some(v)
    ensures GetBigInt("-" + w) == Some(-(v as int))
  {
    ReadsTrimmed(w);
    ReadsNegated(w);
  }

  /** The text `toString()` writes for an integer reads back through `getBigInt`. */
  lemma ReadsIntText(v: int)
    ensures GetBigInt(IntText(v)) == Some(v)
  {
    ParseIntText(v);
    PlainAgrees(IntText(v));
  }

  // ---- white space ----

  lemma {:induction false} TrimStartSpaces(w: string, s: string)
    requires AllSpaces(w)
    ensures TrimStart(w + s) == TrimStart(s)
  {
    if |w| > 0 {
      assert (w + s)[1..] == w[1..] + s;
      TrimStartSpaces(w[1..], s);
    } else {
      assert w + s == s;
    }
  }

  lemma {:induction false} TrimEndSpaces(s: string, w: string)
    requires AllSpaces(w)
    ensures TrimEnd(s + w) == TrimEnd(s)
  {
    if |w| > 0 {
      assert (s + w)[..|s + w| - 1] == s + w[..|w| - 1];
      TrimEndSpaces(s, w[..|w| - 1]);
    } else {
      assert s + w == s;
    }
  }

  /** Trimming the front of `s + w` reaches into `w` only when `s` is all
      white space. */
  lemma {:induction false} TrimStartAppend(s: string, w: string)
    requires AllSpaces(w)
    ensures TrimStart(s + w) == if |TrimStart(s)| == 0 then "" else TrimStart(s) + w
  {
    if |s| == 0 {
      assert s + w == w;
      TrimStartSpaces(w, "");
      assert w + "" == w;
    } else if IsSpace(s[0]) {
      assert (s + w)[1..] == s[1..] + w;
      TrimStartAppend(s[1..], w);
    }
  }

  /** White space around the text is trimmed away. */
  lemma TrimSpaces(w1: string, s: string, w2: string)
    requires AllSpaces(w1) && AllSpaces(w2)
    ensures Trim(w1 + s + w2) == Trim(s)
  {
    assert w1 + s + w2 == w1 + (s + w2);
    TrimStartSpaces(w1, s + w2);
    TrimStartAppend(s, w2);
    if |TrimStart(s)| > 0 {
      TrimEndSpaces(TrimStart(s), w2);
    }
  }

  /** White space around the text changes nothing `BigInt` reads. */
  lemma SpacesIgnored(w1: string, s: string, w2: string)
    requires AllSpaces(w1) && AllSpaces(w2)
    ensures StringToBigInt(w1 + s + w2) == StringToBigInt(s)
  {
    TrimSpaces(w1, s, w2);
  }

  // ---- the forms beyond plain numerals ----

  /** Forms `BigInt` accepts that are not plain numerals, and the lone '-'
      that ethers reads as zero. */
  lemma OtherForms()
    ensures GetBigInt("-") == Some(0)
    ensures GetBigInt("+5") == Some(5)
    ensures GetBigInt(" 5\n") == Some(5)
    ensures GetBigInt("0x1f") == Some(31)
    ensures GetBigInt("-0x10") == Some(-16)
    ensures GetBigInt("0b101") == Some(5)
  {
    LoneMinus();
    PlusFive();
    SpaceAroundFive();
    HexThirtyOne();
    HexSixteen();
    BinaryFive();
  }

  lemma LoneMinus()
    ensures GetBigInt("-") == Some(0)
  {
    assert "-"[1..] == "";
    assert Trim("") == "";
  }

  lemma PlusFive()
    ensures GetBigInt("+5") == Some(5)
  {
    assert ReadTrimmed("+5") == Some(5) by {
      assert "+5"[1..] == "5" && "5"[..0] == "";
    }
    ReadsTrimmed("+5");
  }

  lemma SpaceAroundFive()
    ensures GetBigInt(" 5\n") == Some(5)
  {
    assert ReadTrimmed("5") == Some(5) by {
      assert "5"[..0] == "";
    }
    ReadsTrimmed("5");
    assert " 5\n" == " " + "5" + "\n";
    SpacesIgnored(" ", "5", "\n");
  }

  lemma HexThirtyOne()
    ensures GetBigInt("0x1f") == Some(31)
  {
    assert ReadTrimmed("0x1f") == Some(31) by {
      assert "0x1f"[2..] == "1f" && "1f"[..1] == "1" && "1"[..0] == "";
    }
    ReadsTrimmed("0x1f");
  }

  lemma HexSixteen()
    ensures GetBigInt("-0x10") == Some(-16)
  {
    assert ReadTrimmed("0x10") == Some(16) by {
      assert "0x10"[2..] == "10" && "10"[..1] == "1" && "1"[..0] == "";
    }
    assert "-0x10" == "-" + "0x10";
    ReadsNegated("0x10");
  }

  lemma BinaryFive()
    ensures GetBigInt("0b101") == Some(5)
  {
    assert ReadTrimmed("0b101") == Some(5) by {
      assert "0b101"[2..] == "101" && "101"[..2] == "10" && "10"[..1] == "1" && "1"[..0] == "";
    }
    ReadsTrimmed("0b101");
  }

  /** What `getBigInt` refuses: the empty string, a doubled '-', a point, an
      exponent, a sign before a prefix, and a prefix without digits. */
  lemma Refused()
    ensures GetBigInt("") == None
    ensures GetBigInt("--5") == None
    ensures GetBigInt("1.5") == None
    ensures GetBigInt("1e3") == None
    ensures GetBigInt("+0x10") == None
    ensures GetBigInt("0x") == None
  {
    RefusedDoubleMinus();
    RefusedPoint();
    RefusedExponent();
    RefusedSignedPrefix();
    RefusedBarePrefix();
  }

  lemma RefusedPoint()
    ensures GetBigInt("1.5") == None
  {
    RefusedText("1.5", 1);
  }

  lemma RefusedExponent()
    ensures GetBigInt("1e3") == None
  {
    RefusedText("1e3", 1);
  }

  lemma RefusedSignedPrefix()
    ensures GetBigInt("+0x10") == None
  {
    RefusedText("+0x10", 2);
  }

  lemma RefusedBarePrefix()
    ensures GetBigInt("0x") == None
  {
    assert ReadTrimmed("0x") == None by {
      assert |"0x"[2..]| == 0;
    }
    ReadsTrimmed("0x");
  }

  lemma RefusedDoubleMinus()
    ensures GetBigInt("--5") == None
  {
    assert ReadTrimmed("--5") == None by {
      assert !IsDigitIn("--5"[1..][0], 10);
    }
    TrimKeeps("--5");
  }

  /** Text that trimming keeps, has no prefix or '-', and has a character at
      `i` that is not a decimal digit, is refused. */
  lemma RefusedText(t: string, i: nat)
    requires |t| >= 2 && !IsSpace(t[0]) && !IsSpace(t[|t| - 1]) && t[0] != '-'
    requires !(t[0] == '0' && Radix(t[1]).Some?)
    requires 1 <= i < |t| && !IsDigitIn(t[i], 10)
    ensures GetBigInt(t) == None
  {
    assert ReadTrimmed(t) == None by {
      if t[0] == '+' {
        assert !IsDigitIn(t[1..][i - 1], 10);
      } else {
        assert !IsDigitIn(t[i], 10);
      }
    }
    ReadsTrimmed(t);
  }
}
