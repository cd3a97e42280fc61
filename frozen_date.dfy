/**
 * The frozen-date computation in `configure_repositories`
 * (actors/lib/instance_setup.rb): a repository frozen at date D is configured
 * with the mirror of the day before D, written YYYYMMDD. Ruby's `Date` uses
 * the Julian calendar before 15 October 1582 and the Gregorian one from that
 * day on (the days 5..14 October 1582 do not exist); only ISO `YYYY-MM-DD`
 * input with a year from 1 to 9999 is modelled.
 */
module FrozenDate {
  import opened Common
  import opened RubyText

  datatype Date = Date(year: int, month: int, day: int)

  /** Leap years: every fourth year before the reform, Gregorian rules after it. */
  predicate IsLeap(year: int)
  {
    if year < 1582 then year % 4 == 0
    else year % 4 == 0 && (year % 100 != 0 || year % 400 == 0)
  }

  function DaysIn(year: int, month: int): int
  {
    if month == 2 then (if IsLeap(year) then 29 else 28)
    else if month == 4 || month == 6 || month == 9 || month == 11 then 30
    else 31
  }

  /** The ten days dropped by the calendar reform. */
  predicate InReformGap(d: Date)
  {
    d.year == 1582 && d.month == 10 && 5 <= d.day <= 14
  }

  /** A day that Ruby's `Date` accepts. */
  predicate ValidDate(d: Date)
  {
    1 <= d.month <= 12 && 1 <= d.day <= DaysIn(d.year, d.month) && !InReformGap(d)
  }

  /** `date - 1`. */
  function PreviousDay(d: Date): Date
  {
    if d == Date(1582, 10, 15) then Date(1582, 10, 4)
    else if d.day > 1 then Date(d.year, d.month, d.day - 1)
    else if d.month > 1 then Date(d.year, d.month - 1, DaysIn(d.year, d.month - 1))
    else Date(d.year - 1, 12, 31)
  }

  /** `date + 1`; `PreviousDay` is its inverse. */
  function NextDay(d: Date): Date
  {
    if d == Date(1582, 10, 4) then Date(1582, 10, 15)
    else if d.day < DaysIn(d.year, d.month) then Date(d.year, d.month, d.day + 1)
    else if d.month < 12 then Date(d.year, d.month + 1, 1)
    else Date(d.year + 1, 1, 1)
  }

  /** Chronological order on dates. */
  predicate Earlier(a: Date, b: Date)
  {
    a.year < b.year || (a.year == b.year && (a.month < b.month || (a.month == b.month && a.day < b.day)))
  }

  /** The previous day is a valid, earlier day, and the day after it is the one we started from. */
  lemma PreviousDaySpec(d: Date)
    requires ValidDate(d)
    ensures ValidDate(PreviousDay(d))
    ensures Earlier(PreviousDay(d), d)
    ensures NextDay(PreviousDay(d)) == d
  {
  }

  /** The next day is a valid, later day, and the day before it is the one we started from. */
  lemma NextDaySpec(d: Date)
    requires ValidDate(d)
    ensures ValidDate(NextDay(d))
    ensures Earlier(d, NextDay(d))
    ensures PreviousDay(NextDay(d)) == d
  {
  }

  // ---------------------------------------------------------------------
  // Text

  predicate AllDigits(s: string)
  {
    forall i :: 0 <= i < |s| ==> '0' <= s[i] <= '9'
  }

  function Zeros(n: nat): (r: string)
    ensures |r| == n && AllDigits(r)
    ensures forall i :: 0 <= i < n ==> r[i] == '0'
  {
    if n == 0 then "" else "0" + Zeros(n - 1)
  }

  /** `n` in decimal, zero-padded on the left to `width` digits (`%0<width>d`). */
  function Pad(n: nat, width: nat): string
  {
    var t := NatToString(n);
    if |t| >= width then t else Zeros(width - |t|) + t
  }

  function Pow10(k: nat): (r: nat)
    ensures r >= 1
  {
    if k == 0 then 1 else 10 * Pow10(k - 1)
  }

  /** A number below 10^width has at most `width` digits. */
  lemma {:induction false} NatToStringLength(n: nat, width: nat)
    requires n < Pow10(width)
    ensures |NatToString(n)| <= width || (n == 0 && width == 0)
  {
    if n >= 10 {
      assert width >= 1;
      NatToStringLength(n / 10, width - 1);
    }
  }

  /** Leading zeros do not change the value read. */
  lemma {:induction false} LeadingZeros(z: string, t: string)
    requires AllDigits(z) && AllDigits(t) && forall i :: 0 <= i < |z| ==> z[i] == '0'
    ensures AllDigits(z + t) && DecimalValue(z + t) == DecimalValue(t)
    decreases |t|
  {
    if t == [] {
      assert z + t == z;
      AllZeros(z);
    } else {
      var u := z + t;
      assert u[..|u| - 1] == z + t[..|t| - 1];
      LeadingZeros(z, t[..|t| - 1]);
    }
  }

  lemma {:induction false} AllZeros(z: string)
    requires AllDigits(z) && forall i :: 0 <= i < |z| ==> z[i] == '0'
    ensures DecimalValue(z) == 0
    decreases |z|
  {
    if z != [] {
      AllZeros(z[..|z| - 1]);
    }
  }

  /** Padding writes exactly `width` digits that read back as `n`. */
  lemma PadSpec(n: nat, width: nat)
    requires 0 < width && n < Pow10(width)
    ensures |Pad(n, width)| == width && AllDigits(Pad(n, width))
    ensures DecimalValue(Pad(n, width)) == n
  {
    NatToStringLength(n, width);
    NatToStringRoundTrip(n);
    var t := NatToString(n);
    if |t| < width {
      LeadingZeros(Zeros(width - |t|), t);
    }
  }

  /** A string of `k` digits reads as a number below 10^k. */
  lemma {:induction false} DecimalValueBound(s: string)
    requires AllDigits(s)
    ensures DecimalValue(s) < Pow10(|s|)
    decreases |s|
  {
    if s != [] {
      DecimalValueBound(s[..|s| - 1]);
    }
  }

  lemma Pow10Values()
    ensures Pow10(2) == 100 && Pow10(4) == 10000
  {
    assert Pow10(1) == 10;
    assert Pow10(3) == 1000;
  }

  /** Where the pieces of `a-b-c` stand, for a four-digit `a` and two-digit `b` and `c`. */
  lemma IsoLayout(a: string, b: string, c: string)
    requires |a| == 4 && |b| == 2 && |c| == 2
    ensures var s := a + "-" + b + "-" + c;
      && |s| == 10 && s[4] == '-' && s[7] == '-'
      && s[0..4] == a && s[5..7] == b && s[8..10] == c
  {
  }

  /** `Date#to_s`: `YYYY-MM-DD`. */
  function IsoText(d: Date): string
    requires 0 <= d.year && 0 <= d.month && 0 <= d.day
  {
    Pad(d.year, 4) + "-" + Pad(d.month, 2) + "-" + Pad(d.day, 2)
  }

  /** `gsub!(/-/, "")`. */
  function RemoveDashes(s: string): string
  {
    if s == [] then []
    else (if s[0] == '-' then [] else [s[0]]) + RemoveDashes(s[1..])
  }

  lemma {:induction false} RemoveDashesConcat(a: string, b: string)
    ensures RemoveDashes(a + b) == RemoveDashes(a) + RemoveDashes(b)
    decreases |a|
  {
    if a != [] {
      assert (a + b)[1..] == a[1..] + b;
      RemoveDashesConcat(a[1..], b);
    } else {
      assert a + b == b;
    }
  }

  lemma {:induction false} RemoveDashesDigits(s: string)
    requires AllDigits(s)
    ensures RemoveDashes(s) == s
    decreases |s|
  {
    if s != [] {
      RemoveDashesDigits(s[1..]);
    }
  }

  /**
   * The subset of `Date.parse` modelled: exactly `YYYY-MM-DD` naming a real
   * day with a year from 1 to 9999; anything else raises (None).
   */
  function ParseIsoDate(s: string): (r: Option<Date>)
    ensures r.Some? ==> ValidDate(r.value) && 1 <= r.value.year <= 9999
  {
    if |s| == 10 && s[4] == '-' && s[7] == '-'
       && AllDigits(s[0..4]) && AllDigits(s[5..7]) && AllDigits(s[8..10]) then
      var d := Date(DecimalValue(s[0..4]), DecimalValue(s[5..7]), DecimalValue(s[8..10]));
      DecimalValueBound(s[0..4]);
      Pow10Values();
      if 1 <= d.year && ValidDate(d) then Some(d) else None
    else None
  }

  /** Text written for a day reads back as that day. */
  lemma IsoTextRoundTrip(d: Date)
    requires ValidDate(d) && 1 <= d.year <= 9999
    ensures ParseIsoDate(IsoText(d)) == Some(d)
  {
    Pow10Values();
    PadSpec(d.year, 4);
    PadSpec(d.month, 2);
    PadSpec(d.day, 2);
    IsoLayout(Pad(d.year, 4), Pad(d.month, 2), Pad(d.day, 2));
  }

  /**
   * The value handed to the mirror generator for a frozen date: nil when the
   * date does not parse (the repository's configuration then raises and is
   * skipped), otherwise the previous day without dashes.
   */
  function FrozenStamp(frozenDate: string): Option<string>
  {
    match ParseIsoDate(frozenDate)
    case None => None
    case Some(d) =>
      var p := PreviousDay(d);
      Some(RemoveDashes(IsoText(p)))
  }

  /** Removing the dashes from `y-m-d` leaves `ymd`, eight digits. */
  lemma CompactLayout(y: string, m: string, dd: string)
    requires |y| == 4 && |m| == 2 && |dd| == 2 && AllDigits(y) && AllDigits(m) && AllDigits(dd)
    ensures var t := RemoveDashes(y + "-" + m + "-" + dd);
      && t == y + m + dd && |t| == 8 && AllDigits(t)
      && t[0..4] == y && t[4..6] == m && t[6..8] == dd
  {
    RemoveDashesConcat(y + "-" + m + "-", dd);
    RemoveDashesConcat(y + "-" + m, "-");
    RemoveDashesConcat(y + "-", m);
    RemoveDashesConcat(y, "-");
    RemoveDashesDigits(y);
    RemoveDashesDigits(m);
    RemoveDashesDigits(dd);
  }

  /** The dashless text of a day is eight digits that read back as its year, month and day. */
  lemma CompactTextSpec(p: Date)
    requires ValidDate(p) && 0 <= p.year <= 9999
    ensures var t := RemoveDashes(IsoText(p));
      && |t| == 8 && AllDigits(t)
      && DecimalValue(t[0..4]) == p.year && DecimalValue(t[4..6]) == p.month
      && DecimalValue(t[6..8]) == p.day
  {
    Pow10Values();
    PadSpec(p.year, 4);
    PadSpec(p.month, 2);
    PadSpec(p.day, 2);
    CompactLayout(Pad(p.year, 4), Pad(p.month, 2), Pad(p.day, 2));
  }

  /**
   * For a parseable date D the stamp is eight digits `YYYYMMDD` naming the
   * day before D: the day they name is valid, earlier than D, and followed by D.
   */
  lemma FrozenStampSpec(frozenDate: string)
    requires ParseIsoDate(frozenDate).Some?
    ensures FrozenStamp(frozenDate).Some?
    ensures var t := FrozenStamp(frozenDate).value;
      var d := ParseIsoDate(frozenDate).value;
      && |t| == 8 && AllDigits(t)
      && var named := Date(DecimalValue(t[0..4]), DecimalValue(t[4..6]), DecimalValue(t[6..8]));
      && ValidDate(named) && Earlier(named, d) && NextDay(named) == d
  {
    var d := ParseIsoDate(frozenDate).value;
    PreviousDaySpec(d);
    CompactTextSpec(PreviousDay(d));
  }

  /** Examples: month ends, leap days under both calendars, and the calendar reform. */
  lemma PreviousDayExamples()
    ensures PreviousDay(Date(2010, 3, 1)) == Date(2010, 2, 28)
    ensures PreviousDay(Date(2012, 3, 1)) == Date(2012, 2, 29)
    ensures PreviousDay(Date(1900, 3, 1)) == Date(1900, 2, 28)
    ensures PreviousDay(Date(1500, 3, 1)) == Date(1500, 2, 29)
    ensures PreviousDay(Date(2011, 1, 1)) == Date(2010, 12, 31)
    ensures PreviousDay(Date(1582, 10, 15)) == Date(1582, 10, 4)
    ensures !ValidDate(Date(2011, 2, 29)) && !ValidDate(Date(1582, 10, 10))
  {
  }
}
