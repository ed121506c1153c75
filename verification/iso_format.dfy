/** Decimal rendering of the date part of `Date.prototype.toISOString`
    (ECMAScript's date-time string format): a four-digit year for years 0
    to 9999, otherwise a sign and six digits, then `-MM-DD`. A reader for
    the plain `YYYY-MM-DD` shape gives the rendering its inverse. */
module IsoFormat {
  import opened Base
  import opened Calendar

  predicate IsDigit(c: char) {
    '0' <= c <= '9'
  }

  predicate AllDigits(s: string) {
    forall i :: 0 <= i < |s| ==> IsDigit(s[i])
  }

  function DigitChar(n: int): char
    requires 0 <= n <= 9
  {
    ('0' as int + n) as char
  }

  /** Shortest decimal representation of `n` ("0" for zero). */
  function Digits(n: nat): (s: string)
    ensures 1 <= |s| && AllDigits(s)
  {
    if n < 10 then [DigitChar(n)] else Digits(n / 10) + [DigitChar(n % 10)]
  }

  /** `n` in decimal, left-padded with zeros to at least `width` characters. */
  function PadDigits(n: nat, width: nat): string {
    var s := Digits(n);
    if |s| < width then seq(width - |s|, _ => '0') + s else s
  }

  /** Value of a string of decimal digits, read left to right. */
  function DecimalValue(s: string): nat
    requires AllDigits(s)
  {
    if |s| == 0 then 0
    else DecimalValue(s[..|s| - 1]) * 10 + (s[|s| - 1] as int - '0' as int)
  }

  function Pow10(k: nat): nat {
    if k == 0 then 1 else 10 * Pow10(k - 1)
  }

  /** Reading back the digits of `n` gives `n`. */
  lemma {:induction false} DigitsRoundTrip(n: nat)
    ensures DecimalValue(Digits(n)) == n
  {
    if n >= 10 {
      var s := Digits(n);
      assert s[..|s| - 1] == Digits(n / 10);
      DigitsRoundTrip(n / 10);
    }
  }

  /** A number below 10^k has at most k digits (and always at least one). */
  lemma {:induction false} DigitsLength(n: nat, k: nat)
    requires 1 <= k && n < Pow10(k)
    ensures |Digits(n)| <= k
  {
    if n >= 10 {
      DigitsLength(n / 10, k - 1);
    }
  }

  /** Leading zeros do not change a decimal value. */
  lemma {:induction false} LeadingZeros(z: nat, s: string)
    requires AllDigits(s)
    ensures AllDigits(seq(z, _ => '0') + s)
    ensures DecimalValue(seq(z, _ => '0') + s) == DecimalValue(s)
  {
    var p := seq(z, _ => '0') + s;
    if |s| == 0 {
      assert p == seq(z, _ => '0');
      ZerosValue(z);
    } else {
      var s' := s[..|s| - 1];
      assert p[..|p| - 1] == seq(z, _ => '0') + s';
      LeadingZeros(z, s');
    }
  }

  lemma {:induction false} ZerosValue(z: nat)
    ensures AllDigits(seq(z, _ => '0'))
    ensures DecimalValue(seq(z, _ => '0')) == 0
  {
    if z > 0 {
      assert seq(z, _ => '0')[..z - 1] == seq(z - 1, _ => '0');
      ZerosValue(z - 1);
    }
  }

  /** Padding a number below 10^width gives exactly `width` digits that
      read back as the number. */
  lemma PadDigitsRoundTrip(n: nat, width: nat)
    requires 1 <= width && n < Pow10(width)
    ensures |PadDigits(n, width)| == width
    ensures AllDigits(PadDigits(n, width))
    ensures DecimalValue(PadDigits(n, width)) == n
  {
    DigitsLength(n, width);
    DigitsRoundTrip(n);
    var s := Digits(n);
    if |s| < width {
      LeadingZeros(width - |s|, s);
    }
  }

  /** The year field of an ISO date: four digits for years 0 to 9999,
      otherwise a sign and six digits. */
  function YearField(y: int): (s: string)
    ensures |s| >= 4
    ensures 0 <= y <= 9999 <==> IsDigit(s[0])
  {
    if 0 <= y <= 9999 then PadDigits(y, 4)
    else if y > 0 then ['+'] + PadDigits(y, 6)
    else ['-'] + PadDigits(-y, 6)
  }

  /** The date part of the ISO rendering of a valid date. */
  function IsoDate(d: Date): (s: string)
    requires ValidDate(d)
    ensures |s| >= 10
  {
    YearField(d.year) + "-" + PadDigits(d.month, 2) + "-" + PadDigits(d.day, 2)
  }

  /** Reads a plain `YYYY-MM-DD` string; any other shape reads as `None`. */
  function ParseIsoDate(s: string): Option<Date> {
    if |s| == 10 && s[4] == '-' && s[7] == '-'
       && AllDigits(s[..4]) && AllDigits(s[5..7]) && AllDigits(s[8..])
    then Some(Date(DecimalValue(s[..4]), DecimalValue(s[5..7]), DecimalValue(s[8..])))
    else None
  }

  /** The first ten characters of the ISO rendering of a valid date in years
      0 to 9999 read back as that date. */
  lemma IsoDateRoundTrip(d: Date)
    requires ValidDate(d) && 0 <= d.year <= 9999
    ensures ParseIsoDate(IsoDate(d)[..10]) == Some(d)
  {
    assert Pow10(4) == 10000 && Pow10(2) == 100 by {
      assert Pow10(1) == 10;
    }
    PadDigitsRoundTrip(d.year, 4);
    PadDigitsRoundTrip(d.month, 2);
    PadDigitsRoundTrip(d.day, 2);
    var y, m, dd := PadDigits(d.year, 4), PadDigits(d.month, 2), PadDigits(d.day, 2);
    var s := IsoDate(d);
    assert s == y + "-" + m + "-" + dd;
    assert |s| == 10;
    assert s[..10] == s;
    assert s[..4] == y;
    assert s[5..7] == m;
    assert s[8..] == dd;
  }
}
