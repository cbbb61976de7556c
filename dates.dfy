/**
 * The two SimpleDateFormat patterns the signer uses, applied to an instant
 * already expressed in UTC: "yyyyMMdd" for the datestamp and
 * "yyyyMMdd'T'HHmmss'Z'" for the timestamp.
 */
module Dates {

  /** A UTC calendar instant, to the second (the clock read happens outside the model). */
  datatype DateTime = DateTime(year: nat, month: nat, day: nat, hour: nat, minute: nat, second: nat)
  {
    predicate Valid()
    {
      1 <= month <= 12 && 1 <= day <= 31 && hour < 24 && minute < 60 && second < 60
    }
  }

  function DigitChar(d: nat): (c: char)
    requires d < 10
    ensures '0' <= c <= '9'
  {
    ('0' as int + d) as char
  }

  predicate IsDigits(s: string)
  {
    forall i :: 0 <= i < |s| ==> '0' <= s[i] <= '9'
  }

  /** The decimal numeral of `n`, without leading zeros. */
  function Decimal(n: nat): (s: string)
    ensures |s| >= 1 && IsDigits(s)
  {
    if n < 10 then [DigitChar(n)] else Decimal(n / 10) + [DigitChar(n % 10)]
  }

  function Pow10(k: nat): (r: nat)
    ensures r >= 1
  {
    if k == 0 then 1 else 10 * Pow10(k - 1)
  }

  lemma {:induction false} DecimalLength(n: nat, k: nat)
    requires n < Pow10(k) && k >= 1
    ensures |Decimal(n)| <= k
  {
    if n >= 10 {
      assert k >= 2;
      DecimalLength(n / 10, k - 1);
    }
  }

  function Zeros(k: nat): (s: string)
    ensures |s| == k && IsDigits(s)
  {
    if k == 0 then "" else "0" + Zeros(k - 1)
  }

  /** A numeric field of `width` pattern letters: the numeral, left-padded with zeros to that width. */
  function Pad(n: nat, width: nat): (s: string)
    ensures IsDigits(s)
    ensures |s| >= width
  {
    if |Decimal(n)| < width then Zeros(width - |Decimal(n)|) + Decimal(n) else Decimal(n)
  }

  /** A number below 10^width takes exactly `width` characters. */
  lemma PadLength(n: nat, width: nat)
    requires width >= 1 && n < Pow10(width)
    ensures |Pad(n, width)| == width
  {
    DecimalLength(n, width);
  }

  /** Value of a string of decimal digits. */
  function DigitsValue(s: string): nat
    requires IsDigits(s)
  {
    if s == [] then 0 else 10 * DigitsValue(s[..|s| - 1]) + (s[|s| - 1] as int - '0' as int)
  }

  lemma {:induction false} DecimalValue(n: nat)
    ensures DigitsValue(Decimal(n)) == n
  {
    if n >= 10 {
      DecimalValue(n / 10);
      var s := Decimal(n);
      assert s[..|s| - 1] == Decimal(n / 10);
    }
  }

  lemma {:induction false} LeadingZerosValue(k: nat, s: string)
    requires IsDigits(s)
    ensures DigitsValue(Zeros(k) + s) == DigitsValue(s)
    decreases |s|
  {
    if s == [] {
      ZerosValue(k);
      assert Zeros(k) + s == Zeros(k);
    } else {
      var t := Zeros(k) + s;
      assert t[..|t| - 1] == Zeros(k) + s[..|s| - 1];
      LeadingZerosValue(k, s[..|s| - 1]);
    }
  }

  lemma {:induction false} ZerosValue(k: nat)
    ensures DigitsValue(Zeros(k)) == 0
  {
    if k > 0 {
      var z := Zeros(k);
      assert z[..k - 1] == Zeros(k - 1) by {
        ZerosAppend(k - 1);
      }
      ZerosValue(k - 1);
    }
  }

  lemma {:induction false} ZerosAppend(k: nat)
    ensures Zeros(k + 1) == Zeros(k) + "0"
  {
    if k > 0 {
      ZerosAppend(k - 1);
    }
  }

  /** A padded field reads back as the number it was formatted from. */
  lemma PadValue(n: nat, width: nat)
    ensures DigitsValue(Pad(n, width)) == n
  {
    var d := Decimal(n);
    DecimalValue(n);
    if |d| < width {
      LeadingZerosValue(width - |d|, d);
      assert Pad(n, width) == Zeros(width - |d|) + d;
    } else {
      assert Pad(n, width) == d;
    }
  }

  /** DATE_FORMATTER: pattern yyyyMMdd. */
  function FormatDate(t: DateTime): (s: string)
    requires t.Valid()
    ensures IsDigits(s)
    ensures |s| >= 8
  {
    Pad(t.year, 4) + Pad(t.month, 2) + Pad(t.day, 2)
  }

  /** TIME_FORMATTER: pattern yyyyMMdd'T'HHmmss'Z'; it begins with the datestamp of the same instant. */
  function FormatTime(t: DateTime): (s: string)
    requires t.Valid()
    ensures |s| > |FormatDate(t)| && s[..|FormatDate(t)|] == FormatDate(t)
    ensures s[|FormatDate(t)|] == 'T' && s[|s| - 1] == 'Z'
  {
    FormatDate(t) + "T" + Pad(t.hour, 2) + Pad(t.minute, 2) + Pad(t.second, 2) + "Z"
  }

  /** Reads the fields back out of a sixteen-character timestamp. */
  predicate TimestampShape(s: string)
  {
    |s| == 16 && forall i :: 0 <= i < 15 && i != 8 ==> '0' <= s[i] <= '9'
  }

  function ParseTimestamp(s: string): DateTime
    requires TimestampShape(s)
  {
    DateTime(DigitsValue(s[..4]), DigitsValue(s[4..6]), DigitsValue(s[6..8]),
             DigitsValue(s[9..11]), DigitsValue(s[11..13]), DigitsValue(s[13..15]))
  }

  /** Where the six fields sit in a timestamp built from four- and two-digit fields. */
  lemma TimestampSlices(y: string, mo: string, d: string, h: string, mi: string, se: string)
    requires |y| == 4 && |mo| == 2 && |d| == 2 && |h| == 2 && |mi| == 2 && |se| == 2
    ensures var s := y + mo + d + "T" + h + mi + se + "Z";
            |s| == 16 && s[..4] == y && s[4..6] == mo && s[6..8] == d
            && s[9..11] == h && s[11..13] == mi && s[13..15] == se
  {
  }

  /** A timestamp built from digit fields has the sixteen-character shape. */
  lemma TimestampDigits(y: string, mo: string, d: string, h: string, mi: string, se: string)
    requires |y| == 4 && |mo| == 2 && |d| == 2 && |h| == 2 && |mi| == 2 && |se| == 2
    requires IsDigits(y) && IsDigits(mo) && IsDigits(d) && IsDigits(h) && IsDigits(mi) && IsDigits(se)
    ensures TimestampShape(y + mo + d + "T" + h + mi + se + "Z")
  {
    var date := y + mo + d;
    var time := h + mi + se;
    assert IsDigits(date) && IsDigits(time);
    var s := y + mo + d + "T" + h + mi + se + "Z";
    assert s == date + "T" + time + "Z";
    forall i | 0 <= i < 15 && i != 8 ensures '0' <= s[i] <= '9' {
      if i < 8 {
        assert s[i] == date[i];
      } else {
        assert s[i] == time[i - 9];
      }
    }
  }

  /** For four-digit years the timestamp is sixteen characters and determines the instant. */
  lemma TimestampRoundTrip(t: DateTime)
    requires t.Valid() && t.year < 10000
    ensures TimestampShape(FormatTime(t)) && ParseTimestamp(FormatTime(t)) == t
  {
    var y, mo, d := Pad(t.year, 4), Pad(t.month, 2), Pad(t.day, 2);
    var h, mi, se := Pad(t.hour, 2), Pad(t.minute, 2), Pad(t.second, 2);
    PadLength(t.year, 4);
    PadLength(t.month, 2);
    PadLength(t.day, 2);
    PadLength(t.hour, 2);
    PadLength(t.minute, 2);
    PadLength(t.second, 2);
    assert FormatTime(t) == y + mo + d + "T" + h + mi + se + "Z";
    TimestampSlices(y, mo, d, h, mi, se);
    TimestampDigits(y, mo, d, h, mi, se);
    PadValue(t.year, 4);
    PadValue(t.month, 2);
    PadValue(t.day, 2);
    PadValue(t.hour, 2);
    PadValue(t.minute, 2);
    PadValue(t.second, 2);
  }
}
