/** Decimal text of integers: `str(n)` for a natural number, and the
    `"{:.2f}"` rendering of an amount held as a whole number of hundredths.
    Each formatter has a parser beside it, and the round trip is proved. */
module Decimal {

  import opened Results

  /** The character of a decimal digit. */
  function DigitChar(d: nat): (c: char)
    requires d < 10
    ensures '0' <= c <= '9'
    ensures (c as int) - ('0' as int) == d
  {
    (('0' as int) + d) as char
  }

  predicate IsDigit(c: char) {
    '0' <= c <= '9'
  }

  predicate AllDigits(s: string) {
    forall i :: 0 <= i < |s| ==> IsDigit(s[i])
  }

  /** `str(n)` for `n >= 0`: the shortest decimal numeral of `n`. */
  function NatToString(n: nat): (s: string)
    decreases n
  {
    if n < 10 then [DigitChar(n)] else NatToString(n / 10) + [DigitChar(n % 10)]
  }

  /** The value of a string of decimal digits, most significant first. */
  function DigitsValue(s: string): (v: nat)
    requires AllDigits(s)
    decreases |s|
  {
    if s == [] then 0
    else DigitsValue(s[..|s| - 1]) * 10 + ((s[|s| - 1] as int) - ('0' as int))
  }

  /** `str(n)` is a non-empty digit string without a superfluous leading zero
      whose value is `n`. */
  lemma {:induction false} NatToStringRoundTrip(n: nat)
    ensures var s := NatToString(n);
      && s != [] && AllDigits(s)
      && (s[0] == '0' ==> s == "0")
      && DigitsValue(s) == n
    decreases n
  {
    var s := NatToString(n);
    if n >= 10 {
      var p := NatToString(n / 10);
      NatToStringRoundTrip(n / 10);
      assert s == p + [DigitChar(n % 10)];
      assert s[..|s| - 1] == p;
      assert s[0] == p[0];
    }
  }

  /** `"{:.2f}".format(v / 100)` for a non-negative number of hundredths:
      the whole part written as `str` writes it (no superfluous leading zero),
      a point and exactly two decimals. */
  function UnsignedHundredths(v: nat): (s: string)
    ensures |s| >= 4 && s[|s| - 3] == '.'
    ensures s[..|s| - 3] == NatToString(v / 100)
    ensures CanonicalWhole(s[..|s| - 3])
    ensures AllDigits(s[|s| - 2..])
  {
    var whole := NatToString(v / 100);
    NatToStringRoundTrip(v / 100);
    var s := whole + "." + [DigitChar(v / 10 % 10), DigitChar(v % 10)];
    assert s[..|s| - 3] == whole;
    s
  }

  /** A whole part as `str` writes it: digits, at least one, and no leading
      zero unless the whole part is `0`. */
  predicate CanonicalWhole(w: string) {
    w != [] && AllDigits(w) && (w[0] == '0' ==> |w| == 1)
  }

  /** `"{:.2f}".format(v / 100)` for any number of hundredths: a minus sign
      exactly when the amount is negative. */
  function Hundredths(v: int): (s: string)
    ensures s != []
    ensures s[0] == '-' <==> v < 0
  {
    if v < 0 then "-" + UnsignedHundredths(-v) else UnsignedHundredths(v)
  }

  /** Reads back what `UnsignedHundredths` writes: a whole part without a
      superfluous leading zero, a point, two digits. */
  function ParseUnsignedHundredths(s: string): (r: Option<nat>)
  {
    if |s| >= 4 && s[|s| - 3] == '.' && CanonicalWhole(s[..|s| - 3]) && AllDigits(s[|s| - 2..])
    then Some(DigitsValue(s[..|s| - 3]) * 100 + DigitsValue(s[|s| - 2..]))
    else None
  }

  /** Reads back what `Hundredths` writes: a minus sign before a non-zero
      amount, or an unsigned amount. */
  function ParseHundredths(s: string): (r: Option<int>)
  {
    if s != [] && s[0] == '-' then
      match ParseUnsignedHundredths(s[1..])
      case Some(v) => if v > 0 then var n: int := v; Some(-n) else None
      case None => None
    else
      match ParseUnsignedHundredths(s)
      case Some(v) => Some(v)
      case None => None
  }

  lemma TwoDigitsValue(a: nat, b: nat)
    requires a < 10 && b < 10
    ensures AllDigits([DigitChar(a), DigitChar(b)])
    ensures DigitsValue([DigitChar(a), DigitChar(b)]) == a * 10 + b
  {
    var s := [DigitChar(a), DigitChar(b)];
    var h := [DigitChar(a)];
    assert s[..1] == h && h[..0] == [];
    assert DigitsValue(h) == a;
    assert DigitsValue(s) == DigitsValue(h) * 10 + b;
  }

  lemma SplitHundredths(v: nat)
    ensures (v / 100) * 100 + (v / 10 % 10) * 10 + v % 10 == v
  {
    assert v / 10 == (v / 100) * 10 + v / 10 % 10;
  }

  lemma UnsignedHundredthsRoundTrip(v: nat)
    ensures ParseUnsignedHundredths(UnsignedHundredths(v)) == Some(v)
  {
    var whole := NatToString(v / 100);
    NatToStringRoundTrip(v / 100);
    var frac := [DigitChar(v / 10 % 10), DigitChar(v % 10)];
    var s := UnsignedHundredths(v);
    assert s == whole + "." + frac;
    assert s[|s| - 2..] == frac;
    TwoDigitsValue(v / 10 % 10, v % 10);
    SplitHundredths(v);
  }

  /** The two-decimal rendering loses nothing: parsing it gives the amount back. */
  lemma HundredthsRoundTrip(v: int)
    ensures ParseHundredths(Hundredths(v)) == Some(v)
  {
    if v < 0 {
      var u := UnsignedHundredths(-v);
      UnsignedHundredthsRoundTrip(-v);
      var s := "-" + u;
      assert Hundredths(v) == s;
      assert s[0] == '-' && s[1..] == u;
    } else {
      var u := UnsignedHundredths(v);
      UnsignedHundredthsRoundTrip(v);
      assert Hundredths(v) == u;
      assert u[..|u| - 3][0] == u[0];
      assert u[0] != '-';
    }
  }

  /** A digit string that does not start with `0` has a positive value. */
  lemma {:induction false} LeadingDigitPositive(w: string)
    requires w != [] && AllDigits(w) && w[0] != '0'
    ensures DigitsValue(w) > 0
    decreases |w|
  {
    if |w| > 1 {
      var p := w[..|w| - 1];
      assert p[0] == w[0];
      LeadingDigitPositive(p);
    }
  }

  /** The only canonical numeral of `n` is `str(n)`. */
  lemma {:induction false} CanonicalUnique(w: string, n: nat)
    requires CanonicalWhole(w) && DigitsValue(w) == n
    ensures w == NatToString(n)
    decreases |w|
  {
    var p := w[..|w| - 1];
    var d := (w[|w| - 1] as int) - ('0' as int);
    assert DigitsValue(w) == DigitsValue(p) * 10 + d;
    if |w| == 1 {
      assert p == [];
      assert w == [DigitChar(n)];
    } else {
      assert p[0] == w[0];
      LeadingDigitPositive(p);
      CanonicalUnique(p, DigitsValue(p));
      assert n / 10 == DigitsValue(p) && n % 10 == d;
      assert w == p + [DigitChar(n % 10)];
    }
  }

  /** The value of two digits. */
  lemma TwoDigitsBack(f: string)
    requires |f| == 2 && AllDigits(f)
    ensures DigitsValue(f) == ((f[0] as int) - ('0' as int)) * 10 + ((f[1] as int) - ('0' as int))
  {
    var h := f[..1];
    assert h[..0] == [] && f[..|f| - 1] == h;
    assert DigitsValue(h) == (f[0] as int) - ('0' as int);
  }

  /** The whole part and the two decimals of `whole` units, `a` tenths and
      `b` hundredths. */
  lemma HundredthsDigits(whole: nat, a: nat, b: nat)
    requires a < 10 && b < 10
    ensures var v := whole * 100 + a * 10 + b;
      v / 100 == whole && v / 10 % 10 == a && v % 10 == b
  {
    var v := whole * 100 + a * 10 + b;
    assert v / 10 == whole * 10 + a;
  }

  /** The only text the unsigned reader maps to `v` is the one the formatter
      writes for `v`: padded or otherwise different spellings are refused. */
  lemma UnsignedUnique(s: string, v: nat)
    requires ParseUnsignedHundredths(s) == Some(v)
    ensures s == UnsignedHundredths(v)
  {
    var w, f := s[..|s| - 3], s[|s| - 2..];
    TwoDigitsBack(f);
    var a, b := (f[0] as int) - ('0' as int), (f[1] as int) - ('0' as int);
    HundredthsDigits(DigitsValue(w), a, b);
    CanonicalUnique(w, v / 100);
    assert f == [DigitChar(a), DigitChar(b)];
    assert s == w + "." + f;
  }

  /** The only text the reader maps to `v` is the one the formatter writes. */
  lemma HundredthsUnique(s: string, v: int)
    requires ParseHundredths(s) == Some(v)
    ensures s == Hundredths(v)
  {
    if s != [] && s[0] == '-' {
      var t := s[1..];
      var u := ParseUnsignedHundredths(t).value;
      assert u > 0 && v == -(u as int);
      UnsignedUnique(t, -v);
      assert s == "-" + t;
    } else {
      assert ParseUnsignedHundredths(s) == Some(v as nat);
      UnsignedUnique(s, v);
    }
  }

  /** Distinct amounts are rendered as distinct strings. */
  lemma HundredthsInjective(u: int, v: int)
    requires Hundredths(u) == Hundredths(v)
    ensures u == v
  {
    HundredthsRoundTrip(u);
    HundredthsRoundTrip(v);
  }
}
