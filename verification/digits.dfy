/** Base-10 digit strings as sequences of digit values, most significant first. */
module Digits {

  type Digit = d: nat | d < 10

  function Pow10(n: nat): (p: nat)
    ensures p >= 1
  {
    if n == 0 then 1 else 10 * Pow10(n - 1)
  }

  lemma {:induction false} Pow10Add(a: nat, b: nat)
    ensures Pow10(a + b) == Pow10(a) * Pow10(b)
    decreases b
  {
    if b > 0 {
      Pow10Add(a, b - 1);
      assert Pow10(a + b) == 10 * Pow10(a + b - 1);
    }
  }

  /** The number a digit string denotes; the empty string denotes 0. */
  function Value(ds: seq<Digit>): nat
  {
    if |ds| == 0 then 0 else Value(ds[..|ds| - 1]) * 10 + ds[|ds| - 1]
  }

  lemma {:induction false} ValueBound(ds: seq<Digit>)
    ensures Value(ds) < Pow10(|ds|)
  {
    if |ds| > 0 {
      ValueBound(ds[..|ds| - 1]);
    }
  }

  lemma MulTen(x: int, y: int)
    ensures x * (10 * y) == (x * y) * 10
  {
  }

  lemma ValueSnoc(ds: seq<Digit>, x: Digit)
    ensures Value(ds + [x]) == Value(ds) * 10 + x
  {
    assert (ds + [x])[..|ds|] == ds;
  }

  /** Concatenating digit strings shifts the left part by the length of the right. */
  lemma {:induction false} ValueAppend(a: seq<Digit>, b: seq<Digit>)
    ensures Value(a + b) == Value(a) * Pow10(|b|) + Value(b)
    decreases |b|
  {
    if |b| == 0 {
      assert a + b == a;
    } else {
      var b', x := b[..|b| - 1], b[|b| - 1];
      assert b == b' + [x];
      assert a + b == (a + b') + [x];
      ValueSnoc(a + b', x);
      ValueSnoc(b', x);
      ValueAppend(a, b');
      MulTen(Value(a), Pow10(|b'|));
    }
  }

  /** A string of zeros denotes 0. */
  lemma {:induction false} ValueZeros(ds: seq<Digit>)
    requires forall i :: 0 <= i < |ds| ==> ds[i] == 0
    ensures Value(ds) == 0
  {
    if |ds| > 0 {
      ValueZeros(ds[..|ds| - 1]);
    }
  }

  /** Exactly `width` digits: the low-order digits of `n`, zero padded on the left. */
  function Fixed(n: nat, width: nat): (ds: seq<Digit>)
    ensures |ds| == width
  {
    if width == 0 then [] else Fixed(n / 10, width - 1) + [n % 10]
  }

  /** `n` with its `width` low-order digits dropped, i.e. n / 10^width. */
  function Shift(n: nat, width: nat): nat {
    if width == 0 then n else Shift(n / 10, width - 1)
  }

  /** A whole part as numbers are written: at least one digit, and no leading
      zero unless the number is zero itself. */
  predicate NoLeadingZeros(ds: seq<Digit>) {
    |ds| >= 1 && (|ds| == 1 || ds[0] != 0)
  }

  /** A fraction with trailing zeros removed, keeping at least one digit. */
  predicate NoTrailingZeros(ds: seq<Digit>) {
    |ds| >= 1 && (|ds| == 1 || ds[|ds| - 1] != 0)
  }

  /** The shortest decimal numeral of `n`; zero is written "0". */
  function Show(n: nat): (ds: seq<Digit>)
    ensures NoLeadingZeros(ds)
    ensures n == 0 ==> ds == [0]
    ensures n > 0 ==> ds[0] != 0
  {
    if n < 10 then [n] else Show(n / 10) + [n % 10]
  }

  lemma {:induction false} ValueShow(n: nat)
    ensures Value(Show(n)) == n
  {
    if n >= 10 {
      var ds := Show(n);
      assert ds[..|ds| - 1] == Show(n / 10);
      ValueShow(n / 10);
    } else {
      assert Value([n]) == Value([]) * 10 + n;
    }
  }

  /** Writing the high part of `n` in front of its `width` low digits gives `n` back. */
  lemma {:induction false} SplitDigits(n: nat, width: nat)
    ensures Value(Show(Shift(n, width)) + Fixed(n, width)) == n
  {
    if width == 0 {
      assert Show(Shift(n, width)) + Fixed(n, width) == Show(n);
      ValueShow(n);
    } else {
      var x := Show(Shift(n / 10, width - 1)) + Fixed(n / 10, width - 1);
      assert Show(Shift(n, width)) + Fixed(n, width) == x + [n % 10];
      assert (x + [n % 10])[..|x|] == x;
      SplitDigits(n / 10, width - 1);
    }
  }

  /** The high part and the low digits of `n`, as numbers. */
  lemma SplitValue(n: nat, width: nat)
    ensures Shift(n, width) * Pow10(width) + Value(Fixed(n, width)) == n
    ensures Value(Fixed(n, width)) < Pow10(width)
  {
    SplitDigits(n, width);
    ValueShow(Shift(n, width));
    ValueAppend(Show(Shift(n, width)), Fixed(n, width));
    ValueBound(Fixed(n, width));
  }

  /** Removes trailing zeros but keeps at least one digit. */
  function TrimZeros(ds: seq<Digit>): (r: seq<Digit>)
    requires |ds| >= 1
    ensures 1 <= |r| <= |ds| && r == ds[..|r|]
    ensures forall i :: |r| <= i < |ds| ==> ds[i] == 0
    ensures |r| == 1 || r[|r| - 1] != 0
  {
    if |ds| == 1 || ds[|ds| - 1] != 0 then ds else TrimZeros(ds[..|ds| - 1])
  }

  /** Right-pads with zeros up to `width`, or cuts down to `width`. */
  function PadTo(ds: seq<Digit>, width: nat): (r: seq<Digit>)
    ensures |r| == width
    ensures forall i :: 0 <= i < width && i < |ds| ==> r[i] == ds[i]
    ensures forall i :: |ds| <= i < width ==> r[i] == 0
  {
    if |ds| >= width then ds[..width] else ds + seq(width - |ds|, _ => 0)
  }

  /** Padding a trimmed string back to its width restores it. */
  lemma PadTrim(ds: seq<Digit>)
    requires |ds| >= 1
    ensures PadTo(TrimZeros(ds), |ds|) == ds
  {
  }
}
