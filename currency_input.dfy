/** The clean-up applied to the home-price, down-payment, property-tax and
    home-insurance fields on every keystroke: drop every character that is not an
    ASCII digit, then, if anything is left, turn it into a number and back into
    text, which removes leading zeros. */
module CurrencyInput {

  predicate IsDigit(c: char) {
    '0' <= c <= '9'
  }

  predicate AllDigits(s: string) {
    forall i :: 0 <= i < |s| ==> IsDigit(s[i])
  }

  predicate HasDigit(s: string) {
    exists i :: 0 <= i < |s| && IsDigit(s[i])
  }

  /** The canonical decimal text of a natural number: non-empty, digits only,
      and no leading zero except for "0" itself. */
  predicate IsCanonical(s: string) {
    |s| >= 1 && AllDigits(s) && (s[0] == '0' ==> s == "0")
  }

  function DigitValue(c: char): (v: nat)
    requires IsDigit(c)
    ensures v < 10
  {
    (c - '0') as nat
  }

  function DigitChar(v: nat): (c: char)
    requires v < 10
    ensures IsDigit(c) && DigitValue(c) == v
  {
    ('0' as int + v) as char
  }

  /** Removing every character outside '0'-'9', keeping the digits in order. */
  function KeepDigits(s: string): (d: string)
    ensures AllDigits(d)
    ensures |d| <= |s|
    ensures d == [] <==> !HasDigit(s)
    ensures AllDigits(s) ==> d == s
  {
    if s == [] then []
    else
      assert HasDigit(s) <==> IsDigit(s[0]) || HasDigit(s[1..]) by {
        if HasDigit(s[1..]) {
          var i :| 0 <= i < |s[1..]| && IsDigit(s[1..][i]);
          assert IsDigit(s[i + 1]);
        }
        if HasDigit(s) && !IsDigit(s[0]) {
          var i :| 0 <= i < |s| && IsDigit(s[i]);
          assert i > 0 && IsDigit(s[1..][i - 1]);
        }
      }
      (if IsDigit(s[0]) then [s[0]] else []) + KeepDigits(s[1..])
  }

  /** Filtering distributes over concatenation. */
  lemma {:induction false} KeepDigitsAppend(a: string, b: string)
    ensures KeepDigits(a + b) == KeepDigits(a) + KeepDigits(b)
  {
    if a != [] {
      KeepDigitsAppend(a[1..], b);
      assert (a + b)[1..] == a[1..] + b;
    } else {
      assert a + b == b;
    }
  }

  /** A single character is kept exactly when it is a digit. */
  lemma KeepDigitsSingle(c: char)
    ensures KeepDigits([c]) == if IsDigit(c) then [c] else []
  {
    assert [c][1..] == [];
  }

  /** The number a digit string denotes (what integer parsing yields on it). */
  function DigitsValue(d: string): (v: nat)
    requires AllDigits(d)
    ensures v == 0 <==> forall i :: 0 <= i < |d| ==> d[i] == '0'
  {
    if d == [] then 0
    else
      var init := d[..|d| - 1];
      assert d == init + [d[|d| - 1]];
      assert (forall i :: 0 <= i < |d| ==> d[i] == '0') <==>
             (forall i :: 0 <= i < |init| ==> init[i] == '0') && d[|d| - 1] == '0';
      DigitsValue(init) * 10 + DigitValue(d[|d| - 1])
  }

  /** The decimal text of a number (what converting it back to a string yields). */
  function NatToDecimal(n: nat): (s: string)
    ensures IsCanonical(s)
    ensures s[0] == '0' <==> n == 0
  {
    if n < 10 then [DigitChar(n)] else NatToDecimal(n / 10) + [DigitChar(n % 10)]
  }

  /** Reading back the decimal text of a number gives the number. */
  lemma {:induction false} DecimalRoundTrip(n: nat)
    ensures DigitsValue(NatToDecimal(n)) == n
  {
    var s := NatToDecimal(n);
    if n >= 10 {
      DecimalRoundTrip(n / 10);
      assert s[..|s| - 1] == NatToDecimal(n / 10);
    }
  }

  /** A digit string whose first digit is not '0' denotes at least 1. */
  lemma {:induction false} LeadingNonZero(d: string)
    requires AllDigits(d) && |d| >= 1 && d[0] != '0'
    ensures DigitsValue(d) >= 1
  {
    if |d| > 1 {
      LeadingNonZero(d[..|d| - 1]);
    }
  }

  /** Canonical text is the decimal text of the number it denotes. */
  lemma {:induction false} CanonicalFixedPoint(d: string)
    requires IsCanonical(d)
    ensures NatToDecimal(DigitsValue(d)) == d
  {
    if |d| == 1 {
      assert d == [DigitChar(DigitValue(d[0]))];
    } else {
      var t := d[..|d| - 1];
      assert d[0] != '0';
      LeadingNonZero(t);
      CanonicalFixedPoint(t);
      var v := DigitsValue(d);
      assert v / 10 == DigitsValue(t) && v % 10 == DigitValue(d[|d| - 1]);
      assert d == t + [DigitChar(v % 10)];
    }
  }

  /** A leading '0' adds nothing to the value. */
  lemma {:induction false} LeadingZeroValue(t: string)
    requires AllDigits(t)
    ensures AllDigits(['0'] + t) && DigitsValue(['0'] + t) == DigitsValue(t)
  {
    var u := ['0'] + t;
    if t != [] {
      LeadingZeroValue(t[..|t| - 1]);
      assert u[..|u| - 1] == ['0'] + t[..|t| - 1];
    }
  }

  /** The longest suffix of d that does not start with '0'. */
  function StripLeadingZeros(d: string): (r: string)
    ensures |r| <= |d| && r == d[|d| - |r|..]
    ensures forall i :: 0 <= i < |d| - |r| ==> d[i] == '0'
    ensures r == [] || r[0] != '0'
  {
    if d != [] && d[0] == '0' then StripLeadingZeros(d[1..]) else d
  }

  /** Stripping leading zeros keeps the value of a digit string. */
  lemma {:induction false} StripKeepsValue(d: string)
    requires AllDigits(d)
    ensures AllDigits(StripLeadingZeros(d)) && DigitsValue(StripLeadingZeros(d)) == DigitsValue(d)
  {
    if d != [] && d[0] == '0' {
      StripKeepsValue(d[1..]);
      LeadingZeroValue(d[1..]);
      assert d == ['0'] + d[1..];
    }
  }

  /** The field's new text: the digits of the input, renumbered when non-empty. */
  function Sanitize(s: string): (r: string)
    ensures AllDigits(r)
    ensures r == [] <==> !HasDigit(s)
    ensures r != [] ==> IsCanonical(r) && DigitsValue(r) == DigitsValue(KeepDigits(s))
  {
    var d := KeepDigits(s);
    if d == [] then []
    else
      DecimalRoundTrip(DigitsValue(d));
      NatToDecimal(DigitsValue(d))
  }

  /** Sanitizing is exactly "keep the digits, then drop leading zeros, leaving
      "0" when nothing but zeros was typed". */
  lemma SanitizeStripsLeadingZeros(s: string)
    ensures var d := KeepDigits(s);
            var t := StripLeadingZeros(d);
            Sanitize(s) == if d == [] then [] else if t == [] then "0" else t
  {
    var d := KeepDigits(s);
    if d != [] {
      var t := StripLeadingZeros(d);
      StripKeepsValue(d);
      if t != [] {
        CanonicalFixedPoint(t);
      }
    }
  }

  /** Sanitizing already-sanitized text changes nothing. */
  lemma SanitizeIdempotent(s: string)
    ensures Sanitize(Sanitize(s)) == Sanitize(s)
  {
    var r := Sanitize(s);
    if r != [] {
      CanonicalFixedPoint(r);
    }
  }
}
