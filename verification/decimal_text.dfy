/** Plain decimal numerals as text: an optional '-', whole digits, an optional
    '.', fraction digits. This is the grammar ethers' fixed-point parser accepts
    (optional minus, digits, optional point, digits, at least one digit in all),
    and every numeral this core produces belongs to it. */
module DecimalText {
  import opened Wrappers
  import opened Digits

  predicate IsDigitChar(c: char) {
    '0' <= c <= '9'
  }

  function DigitChar(d: Digit): (c: char)
    ensures IsDigitChar(c)
  {
    ('0' as int + d) as char
  }

  function CharDigit(c: char): (d: Digit)
    requires IsDigitChar(c)
    ensures DigitChar(d) == c
  {
    c as int - '0' as int
  }

  predicate AllDigits(s: string) {
    forall i :: 0 <= i < |s| ==> IsDigitChar(s[i])
  }

  function Chars(ds: seq<Digit>): (s: string)
    ensures |s| == |ds| && AllDigits(s)
    ensures forall i :: 0 <= i < |ds| ==> s[i] == DigitChar(ds[i])
  {
    seq(|ds|, i requires 0 <= i < |ds| => DigitChar(ds[i]))
  }

  function Digs(s: string): (ds: seq<Digit>)
    requires AllDigits(s)
    ensures Chars(ds) == s
  {
    seq(|s|, i requires 0 <= i < |s| => CharDigit(s[i]))
  }

  lemma DigsChars(ds: seq<Digit>)
    ensures Digs(Chars(ds)) == ds
  {
    var back := Digs(Chars(ds));
    assert |back| == |ds|;
    forall i | 0 <= i < |ds|
      ensures back[i] == ds[i]
    {
      assert DigitChar(back[i]) == DigitChar(ds[i]);
    }
  }

  /** A numeral, field by field: `point` says whether a '.' is written. */
  datatype Decimal = Decimal(negative: bool, whole: seq<Digit>, point: bool, frac: seq<Digit>)

  /** At least one digit, and no fraction digits without a point. */
  predicate WellFormed(t: Decimal) {
    |t.whole| + |t.frac| > 0 && (!t.point ==> t.frac == [])
  }

  function Sign(t: Decimal): string {
    if t.negative then "-" else ""
  }

  function Tail(t: Decimal): string {
    if t.point then "." + Chars(t.frac) else ""
  }

  /** The text of a numeral without its sign. */
  function Unsigned(t: Decimal): string {
    Chars(t.whole) + Tail(t)
  }

  /** The text of a numeral. */
  function Render(t: Decimal): string {
    Sign(t) + Unsigned(t)
  }

  /** Only '-', '.' and digits ever occur in a rendered numeral, and the text is not empty. */
  lemma RenderAlphabet(t: Decimal)
    requires WellFormed(t)
    ensures |Render(t)| > 0
    ensures forall i :: 0 <= i < |Render(t)| ==>
              Render(t)[i] == '-' || Render(t)[i] == '.' || IsDigitChar(Render(t)[i])
  {
  }

  /** Length of the longest all-digit prefix. */
  function DigitRun(s: string): (n: nat)
    ensures n <= |s|
    ensures AllDigits(s[..n])
    ensures n < |s| ==> !IsDigitChar(s[n])
  {
    if |s| == 0 || !IsDigitChar(s[0]) then 0
    else
      var n := 1 + DigitRun(s[1..]);
      assert s[..n] == [s[0]] + s[1..][..n - 1];
      n
  }

  /** The longest digit prefix is pinned down by any split where a non-digit or the end follows. */
  lemma {:induction false} DigitRunOf(w: string, rest: string)
    requires AllDigits(w)
    requires |rest| == 0 || !IsDigitChar(rest[0])
    ensures DigitRun(w + rest) == |w|
  {
    if |w| == 0 {
      assert w + rest == rest;
    } else {
      assert (w + rest)[0] == w[0];
      assert (w + rest)[1..] == w[1..] + rest;
      DigitRunOf(w[1..], rest);
    }
  }

  /** Reads an unsigned numeral: the longest digit run, then an optional point,
      then digits to the end. */
  function LexUnsigned(negative: bool, body: string): (r: Option<Decimal>)
    ensures r.Some? ==> WellFormed(r.value) && r.value.negative == negative && Unsigned(r.value) == body
  {
    var n := DigitRun(body);
    var rest := body[n..];
    var point := |rest| > 0 && rest[0] == '.';
    var tail := if point then rest[1..] else rest;
    if AllDigits(tail) && n + |tail| > 0 then
      LexUnsignedShape(negative, body, n, point, tail);
      Some(Decimal(negative, Digs(body[..n]), point, Digs(tail)))
    else None
  }

  lemma LexUnsignedShape(negative: bool, body: string, n: nat, point: bool, tail: string)
    requires n == DigitRun(body)
    requires point == (|body[n..]| > 0 && body[n..][0] == '.')
    requires tail == if point then body[n..][1..] else body[n..]
    requires AllDigits(tail)
    ensures !point ==> tail == []
    ensures Unsigned(Decimal(negative, Digs(body[..n]), point, Digs(tail))) == body
  {
    var rest := body[n..];
    var t := Decimal(negative, Digs(body[..n]), point, Digs(tail));
    assert |rest| > 0 ==> rest[0] == body[n];
    assert Tail(t) == rest by {
      if point {
        assert rest == "." + tail;
      }
    }
    assert body == body[..n] + rest;
  }

  /** Reads a numeral: `None` when the text is not in the grammar. */
  function Lex(s: string): (r: Option<Decimal>)
    ensures r.Some? ==> WellFormed(r.value) && Render(r.value) == s
  {
    var negative := |s| > 0 && s[0] == '-';
    assert negative ==> s == "-" + s[1..];
    LexUnsigned(negative, if negative then s[1..] else s)
  }

  lemma LexUnsignedRender(t: Decimal)
    requires WellFormed(t)
    ensures LexUnsigned(t.negative, Unsigned(t)) == Some(t)
  {
    var body := Unsigned(t);
    DigitRunOf(Chars(t.whole), Tail(t));
    assert body[..|t.whole|] == Chars(t.whole);
    assert body[|t.whole|..] == Tail(t);
    DigsChars(t.whole);
    DigsChars(t.frac);
    assert t.point ==> Tail(t)[1..] == Chars(t.frac);
  }

  /** Reading a rendered numeral gives the numeral back. */
  lemma LexRender(t: Decimal)
    requires WellFormed(t)
    ensures Lex(Render(t)) == Some(t)
  {
    var s := Render(t);
    var body := Unsigned(t);
    assert |body| > 0 && body[0] != '-' by {
      if |t.whole| > 0 {
        assert body[0] == Chars(t.whole)[0];
      } else {
        assert body[0] == '.';
      }
    }
    assert t.negative ==> s[1..] == body;
    assert !t.negative ==> s == body;
    LexUnsignedRender(t);
  }

  /** The integer the numeral's digits spell, point ignored: the numeral
      denotes Numerator(t) / 10^|t.frac|. */
  function Numerator(t: Decimal): int {
    var m: int := Value(t.whole + t.frac);
    if t.negative then -m else m
  }

  /** The exact number a numeral denotes. */
  function ValueOf(t: Decimal): real {
    Numerator(t) as real / Pow10(|t.frac|) as real
  }
}
