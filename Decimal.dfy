/**
 * Decimal digit strings: `Number.prototype.toString` for non-negative
 * integers, `String.prototype.padStart` with '0', and the inverse reading of
 * a digit string.  Used by the ISO-8601 codec and the iCalendar date format.
 */
module Decimal {

  predicate IsDigit(c: char) {
    '0' <= c <= '9'
  }

  predicate AllDigits(s: seq<char>) {
    forall i :: 0 <= i < |s| ==> IsDigit(s[i])
  }

  function DigitValue(c: char): (d: nat)
    requires IsDigit(c)
    ensures d < 10
  {
    c as int - '0' as int
  }

  function DigitChar(d: nat): (c: char)
    requires d < 10
    ensures IsDigit(c) && DigitValue(c) == d
  {
    ('0' as int + d) as char
  }

  function Pow10(n: nat): (p: nat)
    ensures p >= 1
  {
    if n == 0 then 1 else 10 * Pow10(n - 1)
  }

  /** The shortest decimal form of `n` (no sign, no leading zeros). */
  function ToDecimal(n: nat): (s: seq<char>)
    ensures |s| >= 1 && AllDigits(s)
    ensures n > 0 ==> s[0] != '0'
  {
    if n < 10 then [DigitChar(n)] else ToDecimal(n / 10) + [DigitChar(n % 10)]
  }

  function Zeros(k: nat): (s: seq<char>)
    ensures |s| == k && AllDigits(s)
    ensures forall i :: 0 <= i < k ==> s[i] == '0'
  {
    seq(k, _ => '0')
  }

  /** `s.padStart(width, '0')`: left-pads with '0' up to `width` characters. */
  function PadStart(s: seq<char>, width: nat): (r: seq<char>)
    ensures |r| == if |s| < width then width else |s|
    ensures r[|r| - |s|..] == s
    ensures forall i :: 0 <= i < |r| - |s| ==> r[i] == '0'
  {
    if |s| < width then Zeros(width - |s|) + s else s
  }

  /** The decimal form of `n`, left-padded with zeros to at least `width` digits. */
  function Padded(n: nat, width: nat): (s: seq<char>)
    ensures AllDigits(s) && |s| >= width
  {
    PadStart(ToDecimal(n), width)
  }

  /** The value of a digit string, most significant digit first. */
  function ValueOf(s: seq<char>): nat
    requires AllDigits(s)
  {
    if s == [] then 0 else ValueOf(s[..|s| - 1]) * 10 + DigitValue(s[|s| - 1])
  }

  /** Reading back the shortest decimal form gives the number. */
  lemma {:induction false} ValueOfToDecimal(n: nat)
    ensures ValueOf(ToDecimal(n)) == n
  {
    if n >= 10 {
      var s := ToDecimal(n / 10) + [DigitChar(n % 10)];
      assert s[..|s| - 1] == ToDecimal(n / 10);
      ValueOfToDecimal(n / 10);
    }
  }

  /** Leading zeros do not change the value of a digit string. */
  lemma {:induction false} ValueOfZerosPrefix(k: nat, s: seq<char>)
    requires AllDigits(s)
    ensures ValueOf(Zeros(k) + s) == ValueOf(s)
    decreases |s|, k
  {
    if s == [] {
      assert Zeros(k) + s == Zeros(k);
      if k > 0 {
        assert Zeros(k)[..k - 1] == Zeros(k - 1);
        ValueOfZerosPrefix(k - 1, []);
        assert Zeros(k - 1) + [] == Zeros(k - 1);
      }
    } else {
      var t := Zeros(k) + s;
      assert t[..|t| - 1] == Zeros(k) + s[..|s| - 1];
      ValueOfZerosPrefix(k, s[..|s| - 1]);
    }
  }

  /** Reading back a zero-padded decimal form gives the number, whatever the width. */
  lemma ValueOfPadded(n: nat, width: nat)
    ensures ValueOf(Padded(n, width)) == n
  {
    ValueOfToDecimal(n);
    var d := ToDecimal(n);
    if |d| < width {
      assert Padded(n, width) == Zeros(width - |d|) + d;
      ValueOfZerosPrefix(width - |d|, d);
    } else {
      assert Padded(n, width) == d;
    }
  }

  /** A number below 10^w has at most w digits. */
  lemma {:induction false} ToDecimalLength(n: nat, w: nat)
    requires w >= 1 && n < Pow10(w)
    ensures |ToDecimal(n)| <= w
  {
    if n >= 10 {
      ToDecimalLength(n / 10, w - 1);
    }
  }

  /** A number below 10^w pads to exactly w digits. */
  lemma PaddedLength(n: nat, w: nat)
    requires w >= 1 && n < Pow10(w)
    ensures |Padded(n, w)| == w
  {
    ToDecimalLength(n, w);
  }

  /** The value of the two digits at `r[i]` and `r[i + 1]`. */
  function TwoDigits(r: seq<char>, i: nat): nat
    requires i + 1 < |r| && IsDigit(r[i]) && IsDigit(r[i + 1])
  {
    DigitValue(r[i]) * 10 + DigitValue(r[i + 1])
  }

  /** Below 100, padding to two places gives the tens digit and the units digit. */
  lemma PaddedTwo(n: nat)
    requires n < 100
    ensures Padded(n, 2) == [DigitChar(n / 10), DigitChar(n % 10)]
  {
    if n >= 10 {
      assert ToDecimal(n / 10) == [DigitChar(n / 10)];
    }
  }
}
