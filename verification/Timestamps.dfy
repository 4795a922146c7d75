/**
 Timestamps: seconds since 1970, the civil date, the text the database stores
 (`now_utc`, `time_to_utc`), its RFC 3339 reader, and the two X.509 time types
 (section 4.1.2.5 of RFC 5280).
 */
module Timestamps {
  import opened Wrappers

  // ----- the civil calendar -----

  predicate Leap(y: int) { y % 4 == 0 && (y % 100 != 0 || y % 400 == 0) }

  function YearLength(y: int): nat { if Leap(y) then 366 else 365 }

  function MonthLength(y: int, m: nat): nat
    requires 1 <= m <= 12
  {
    if m == 2 then (if Leap(y) then 29 else 28)
    else if m == 4 || m == 6 || m == 9 || m == 11 then 30
    else 31
  }

  lemma MonthLengths(y: int, m: nat)
    requires 1 <= m <= 12
    ensures MonthLength(y, m) == [31, if Leap(y) then 29 else 28, 31, 30, 31, 30, 31, 31, 30, 31, 30, 31][m - 1]
    ensures Leap(y) <==>
      (exists k: int :: y == 4 * k) && ((exists k: int :: y == 100 * k) ==> exists k: int :: y == 400 * k)
  {
    if y % 4 == 0 { assert y == 4 * (y / 4); }
    if y % 100 == 0 { assert y == 100 * (y / 100); }
    if y % 400 == 0 { assert y == 400 * (y / 400); }
  }

  /** Days from 1970-01-01 to the first of January of a year. */
  function DaysToYear(y: int): int {
    365 * (y - 1970) + (y - 1) / 4 - (y - 1) / 100 + (y - 1) / 400 - 477
  }

  lemma QuarterStep(y: int)
    ensures y / 4 == (y - 1) / 4 + if y % 4 == 0 then 1 else 0
  {
  }

  lemma CenturyStep(y: int)
    ensures y / 100 == (y - 1) / 100 + if y % 100 == 0 then 1 else 0
  {
  }

  lemma GregorianStep(y: int)
    ensures y / 400 == (y - 1) / 400 + if y % 400 == 0 then 1 else 0
  {
  }

  lemma CenturiesDivide(y: int)
    ensures y % 100 == 0 ==> y % 4 == 0
    ensures y % 400 == 0 ==> y % 100 == 0
  {
    if y % 100 == 0 { assert y == 4 * (25 * (y / 100)); }
    if y % 400 == 0 { assert y == 100 * (4 * (y / 400)); }
  }

  /** Consecutive years are one year's length apart. */
  lemma YearStep(y: int)
    ensures DaysToYear(y + 1) == DaysToYear(y) + YearLength(y)
  {
    QuarterStep(y);
    CenturyStep(y);
    GregorianStep(y);
    CenturiesDivide(y);
  }

  /** Days from the first of January to the first of a month. */
  function DaysToMonth(y: int, m: nat): nat
    requires 1 <= m <= 12
  {
    if m == 1 then 0 else DaysToMonth(y, m - 1) + MonthLength(y, m - 1)
  }

  datatype DateTime = DateTime(year: int, month: nat, day: nat, hour: nat, minute: nat, second: nat) {
    predicate Valid() {
      && 1 <= month <= 12 && 1 <= day <= MonthLength(year, month)
      && hour < 24 && minute < 60 && second < 60
    }

    function Seconds(): int
      requires Valid()
    {
      (DaysToYear(year) + DaysToMonth(year, month) + day - 1) * 86400 + hour * 3600 + minute * 60 + second
    }
  }

  /** Last second of the year 9999: the range of the X.509 time types. */
  const MAX_SECONDS: int := 253402300799

  /** The year a day count falls in, searched upward from `y`, and the day within it. */
  function YearOf(days: nat, y: int): (r: (int, nat))
    ensures r.1 < YearLength(r.0)
    ensures DaysToYear(r.0) + r.1 == DaysToYear(y) + days
    ensures r.0 >= y
    decreases days
  {
    if days < YearLength(y) then (y, days)
    else
      YearStep(y);
      YearOf(days - YearLength(y), y + 1)
  }

  /** The month a day of the year falls in, and the day of the month counted from zero. */
  function MonthOf(y: int, dayOfYear: nat, m: nat): (r: (nat, nat))
    requires 1 <= m <= 12 && DaysToMonth(y, m) <= dayOfYear < YearLength(y)
    ensures m <= r.0 <= 12 && r.1 < MonthLength(y, r.0) && DaysToMonth(y, r.0) + r.1 == dayOfYear
    decreases 12 - m
  {
    if dayOfYear < DaysToMonth(y, m) + MonthLength(y, m) then (m, dayOfYear - DaysToMonth(y, m))
    else
      December(y);
      MonthOf(y, dayOfYear, m + 1)
  }

  lemma December(y: int)
    ensures DaysToMonth(y, 12) + MonthLength(y, 12) == YearLength(y)
  {
    var l := if Leap(y) then 1 else 0;
    assert DaysToMonth(y, 2) == 31;
    assert DaysToMonth(y, 3) == 59 + l;
    assert DaysToMonth(y, 4) == 90 + l;
    assert DaysToMonth(y, 5) == 120 + l;
    assert DaysToMonth(y, 6) == 151 + l;
    assert DaysToMonth(y, 7) == 181 + l;
    assert DaysToMonth(y, 8) == 212 + l;
    assert DaysToMonth(y, 9) == 243 + l;
    assert DaysToMonth(y, 10) == 273 + l;
    assert DaysToMonth(y, 11) == 304 + l;
    assert DaysToMonth(y, 12) == 334 + l;
  }

  /** The civil date of a second (`DateTime::from_system_time`). */
  function FromSeconds(t: nat): (r: DateTime)
    ensures r.Valid() && r.year >= 1970
  {
    var (y, dayOfYear) := YearOf(t / 86400, 1970);
    var (m, d) := MonthOf(y, dayOfYear, 1);
    var s := t % 86400;
    DateTime(y, m, d + 1, s / 3600, s / 60 % 60, s % 60)
  }

  /** The civil date denotes the second it was computed from. */
  lemma CivilRoundTrip(t: nat)
    ensures FromSeconds(t).Seconds() == t
  {
    EpochIsZero();
  }

  lemma EpochIsZero()
    ensures DaysToYear(1970) == 0
  {
  }

  lemma {:induction false} YearsIncrease(y: int, z: int)
    requires y <= z
    ensures DaysToYear(z) >= DaysToYear(y) + 365 * (z - y)
    decreases z - y
  {
    if y < z {
      YearStep(y);
      YearsIncrease(y + 1, z);
    }
  }

  /** The supported range is exactly the years up to 9999. */
  lemma YearRange(t: nat)
    ensures FromSeconds(t).year <= 9999 <==> t <= MAX_SECONDS
  {
    var (y, dayOfYear) := YearOf(t / 86400, 1970);
    EpochIsZero();
    YearOfRange(t / 86400, y, dayOfYear);
  }

  lemma YearOfRange(days: nat, y: int, dayOfYear: nat)
    requires dayOfYear < YearLength(y) && DaysToYear(y) + dayOfYear == days
    ensures y <= 9999 <==> days < 2932897
  {
    assert DaysToYear(10000) == 2932897;
    if y <= 9999 {
      YearStep(y);
      YearsIncrease(y + 1, 10000);
    } else {
      YearsIncrease(10000, y);
    }
  }

  // ----- decimal fields -----

  function Digit(n: nat): char
    requires n < 10
  {
    '0' + n as char
  }

  /** `{:02}` */
  function Two(n: nat): (s: string)
    requires n < 100
    ensures |s| == 2
  {
    [Digit(n / 10), Digit(n % 10)]
  }

  /** `{:04}` */
  function Four(n: nat): (s: string)
    requires n < 10000
    ensures |s| == 4
  {
    Two(n / 100) + Two(n % 100)
  }

  function DigitValue(c: char): Option<nat> {
    if '0' <= c <= '9' then Some(c as int - '0' as int) else None
  }

  function ReadTwo(s: string): Option<nat>
    requires |s| == 2
  {
    var a :- DigitValue(s[0]);
    var b :- DigitValue(s[1]);
    Some(a * 10 + b)
  }

  function ReadFour(s: string): Option<nat>
    requires |s| == 4
  {
    var a :- ReadTwo(s[..2]);
    var b :- ReadTwo(s[2..]);
    Some(a * 100 + b)
  }

  lemma TwoReadsBack(n: nat)
    requires n < 100
    ensures ReadTwo(Two(n)) == Some(n)
  {
  }

  lemma FourReadsBack(n: nat)
    requires n < 10000
    ensures ReadFour(Four(n)) == Some(n)
  {
    assert Four(n)[..2] == Two(n / 100) && Four(n)[2..] == Two(n % 100);
  }

  // ----- the stored text -----

  /** The format of `now_utc` and `time_to_utc`. */
  function Format(dt: DateTime): (s: string)
    requires dt.Valid() && 0 <= dt.year < 10000
    ensures |s| == 20
  {
    Four(dt.year) + "-" + Two(dt.month) + "-" + Two(dt.day) + "T"
    + Two(dt.hour) + ":" + Two(dt.minute) + ":" + Two(dt.second) + "Z"
  }

  /** Drops the digits at the front. */
  function SkipDigits(s: string): string {
    if s != "" && '0' <= s[0] <= '9' then SkipDigits(s[1..]) else s
  }

  /** The zone designator: `Z` or a numeric offset in seconds. */
  function ReadOffset(s: string): Option<int> {
    if s == "Z" || s == "z" then Some(0)
    else if |s| == 6 && (s[0] == '+' || s[0] == '-') && s[3] == ':' then
      var h :- ReadTwo(s[1..3]);
      var m :- ReadTwo(s[4..6]);
      if h < 24 && m < 60 then Some((if s[0] == '+' then 1 else -1) * (h * 3600 + m * 60)) else None
    else None
  }

  /** The optional fraction of a second, then the zone. */
  function ReadZone(s: string): Option<int> {
    if s != "" && s[0] == '.' then
      (if |s| > 1 && '0' <= s[1] <= '9' then ReadOffset(SkipDigits(s[1..])) else None)
    else ReadOffset(s)
  }

  function ReadDateTime(s: string): Option<DateTime>
    requires |s| == 19
  {
    if s[4] != '-' || s[7] != '-' || (s[10] != 'T' && s[10] != 't') || s[13] != ':' || s[16] != ':' then None
    else
      var year :- ReadFour(s[..4]);
      var month :- ReadTwo(s[5..7]);
      var day :- ReadTwo(s[8..10]);
      var hour :- ReadTwo(s[11..13]);
      var minute :- ReadTwo(s[14..16]);
      var second :- ReadTwo(s[17..19]);
      var dt := DateTime(year, month, day, hour, minute, second);
      if dt.Valid() then Some(dt) else None
  }

  /** `parse_rfc3339`: the whole second a text denotes, possibly before 1970. */
  function ParseRfc3339(s: string): Option<int> {
    if |s| < 20 then None
    else
      var dt :- ReadDateTime(s[..19]);
      var offset :- ReadZone(s[19..]);
      Some(dt.Seconds() - offset)
  }

  /** Reading a formatted date gives that date. */
  lemma FormatReadsBack(dt: DateTime)
    requires dt.Valid() && 0 <= dt.year < 10000
    ensures ReadDateTime(Format(dt)[..19]) == Some(dt) && Format(dt)[19..] == "Z"
  {
    var s := Format(dt)[..19];
    assert s[..4] == Four(dt.year) && s[5..7] == Two(dt.month) && s[8..10] == Two(dt.day);
    assert s[11..13] == Two(dt.hour) && s[14..16] == Two(dt.minute) && s[17..19] == Two(dt.second);
    FourReadsBack(dt.year);
    TwoReadsBack(dt.month);
    TwoReadsBack(dt.day);
    TwoReadsBack(dt.hour);
    TwoReadsBack(dt.minute);
    TwoReadsBack(dt.second);
  }

  /** Digits after the seconds. */
  ghost predicate Digits(s: string) { forall i :: 0 <= i < |s| ==> '0' <= s[i] <= '9' }

  lemma {:induction false} DigitsSkipped(digits: string, rest: string)
    requires Digits(digits) && (rest != "" ==> !('0' <= rest[0] <= '9'))
    ensures SkipDigits(digits + rest) == rest
  {
    if digits == "" {
      assert digits + rest == rest;
    } else {
      assert (digits + rest)[1..] == digits[1..] + rest;
      DigitsSkipped(digits[1..], rest);
    }
  }

  /**
   Times as others may write them into the table: a fraction of a second is
   dropped, and a zone ahead of UTC is earlier by as much.
   */
  lemma ZonesReadBack(dt: DateTime, fraction: string, ahead: bool, h: nat, m: nat, zone: string)
    requires dt.Valid() && 0 <= dt.year < 10000 && h < 24 && m < 60
    requires fraction == "" || (|fraction| > 1 && fraction[0] == '.' && Digits(fraction[1..]))
    requires zone == (if ahead then "+" else "-") + Two(h) + ":" + Two(m)
    ensures ParseRfc3339(Format(dt)[..19] + (fraction + zone)) ==
      Some(dt.Seconds() - (if ahead then h * 3600 + m * 60 else -(h * 3600 + m * 60)))
    ensures ParseRfc3339(Format(dt)[..19] + (fraction + "Z")) == Some(dt.Seconds())
  {
    FormatReadsBack(dt);
    OffsetReads(ahead, h, m, zone);
    Zoned(Format(dt)[..19], dt, fraction, zone);
    Zoned(Format(dt)[..19], dt, fraction, "Z");
  }

  lemma Zoned(date: string, dt: DateTime, fraction: string, zone: string)
    requires |date| == 19 && ReadDateTime(date) == Some(dt) && dt.Valid()
    requires fraction == "" || (|fraction| > 1 && fraction[0] == '.' && Digits(fraction[1..]))
    requires zone != "" && zone[0] in {'+', '-', 'Z'} && ReadOffset(zone).Some?
    ensures ParseRfc3339(date + (fraction + zone)) == Some(dt.Seconds() - ReadOffset(zone).value)
  {
    ZoneReads(fraction, zone);
    DateThenZone(date, fraction + zone, dt);
  }

  /** The letters may be lower-case. */
  lemma LowerCaseReadsBack(dt: DateTime)
    requires dt.Valid() && 0 <= dt.year < 10000
    ensures ParseRfc3339(Format(dt)[..10] + "t" + Format(dt)[11..19] + "z") == Some(dt.Seconds())
  {
    FormatReadsBack(dt);
    var s, date := Format(dt)[..19], Format(dt)[..10] + "t" + Format(dt)[11..19];
    assert forall i :: 0 <= i < 19 && i != 10 ==> date[i] == s[i];
    SameFields(s, date);
    DateThenZone(date, "z", dt);
  }

  lemma SameFields(s: string, t: string)
    requires |s| == |t| == 19 && s[10] == 'T' && t[10] == 't'
    requires forall i :: 0 <= i < 19 && i != 10 ==> t[i] == s[i]
    ensures ReadDateTime(t) == ReadDateTime(s)
  {
    assert t[..4] == s[..4] && t[5..7] == s[5..7] && t[8..10] == s[8..10];
    assert t[11..13] == s[11..13] && t[14..16] == s[14..16] && t[17..19] == s[17..19];
  }

  lemma DateThenZone(date: string, zone: string, dt: DateTime)
    requires |date| == 19 && ReadDateTime(date) == Some(dt) && dt.Valid() && zone != "" && ReadZone(zone).Some?
    ensures ParseRfc3339(date + zone) == Some(dt.Seconds() - ReadZone(zone).value)
  {
    assert (date + zone)[..19] == date && (date + zone)[19..] == zone;
  }

  lemma OffsetReads(ahead: bool, h: nat, m: nat, zone: string)
    requires h < 24 && m < 60 && zone == (if ahead then "+" else "-") + Two(h) + ":" + Two(m)
    ensures zone[0] in {'+', '-'} && ReadOffset(zone) == Some(if ahead then h * 3600 + m * 60 else -(h * 3600 + m * 60))
  {
    assert zone[1..3] == Two(h) && zone[4..6] == Two(m) && zone[3] == ':';
    TwoReadsBack(h);
    TwoReadsBack(m);
  }

  lemma ZoneReads(fraction: string, zone: string)
    requires fraction == "" || (|fraction| > 1 && fraction[0] == '.' && Digits(fraction[1..]))
    requires zone != "" && zone[0] in {'+', '-', 'Z'}
    ensures ReadZone(fraction + zone) == ReadOffset(zone)
  {
    if fraction == "" {
      assert fraction + zone == zone;
    } else {
      assert (fraction + zone)[1..] == fraction[1..] + zone;
      DigitsSkipped(fraction[1..], zone);
    }
  }

  // ----- X.509 times -----

  /** A time in a CRL: the content octets as text. */
  datatype Time = UtcTime(text: string) | GeneralTime(text: string)

  function UtcText(dt: DateTime): (s: string)
    requires dt.Valid()
    ensures |s| == 13
  {
    Two(dt.year % 100) + Two(dt.month) + Two(dt.day) + Two(dt.hour) + Two(dt.minute) + Two(dt.second) + "Z"
  }

  /** UTCTime before 2050, GeneralizedTime from then on. */
  function TimeOf(dt: DateTime): Time
    requires dt.Valid() && 0 <= dt.year < 10000
  {
    if dt.year < 2050 then UtcTime(UtcText(dt)) else GeneralTime(Four(dt.year) + UtcText(dt)[2..])
  }

  /** `to_time`: an error outside 1970 to 9999. */
  function ToTime(t: int): Result<Time> {
    if t < 0 || t > MAX_SECONDS then Err(CryptoError)
    else
      YearRange(t);
      Ok(TimeOf(FromSeconds(t)))
  }

  /** The year a two-digit year means: 50 to 99 in the twentieth century, 00 to 49 in the twenty-first. */
  function FullYear(yy: nat): nat { if yy >= 50 then 1900 + yy else 2000 + yy }

  function ReadFields(year: int, s: string): Option<DateTime>
    requires |s| == 11
  {
    var month :- ReadTwo(s[..2]);
    var day :- ReadTwo(s[2..4]);
    var hour :- ReadTwo(s[4..6]);
    var minute :- ReadTwo(s[6..8]);
    var second :- ReadTwo(s[8..10]);
    var dt := DateTime(year, month, day, hour, minute, second);
    if s[10] == 'Z' && dt.Valid() then Some(dt) else None
  }

  /** What a relying party reads. */
  function ReadTime(time: Time): Option<DateTime> {
    match time
    case UtcTime(s) =>
      if |s| != 13 then None
      else
        var yy :- ReadTwo(s[..2]);
        ReadFields(FullYear(yy), s[2..])
    case GeneralTime(s) =>
      if |s| != 15 then None
      else
        var year :- ReadFour(s[..4]);
        ReadFields(year, s[4..])
  }

  lemma FieldsReadBack(dt: DateTime)
    requires dt.Valid()
    ensures ReadFields(dt.year, UtcText(dt)[2..]) == Some(dt)
    ensures ReadTwo(UtcText(dt)[..2]) == Some(dt.year % 100)
  {
    var u, s := UtcText(dt), UtcText(dt)[2..];
    assert u[..2] == Two(dt.year % 100) && u[2..4] == Two(dt.month) && u[4..6] == Two(dt.day);
    assert u[6..8] == Two(dt.hour) && u[8..10] == Two(dt.minute) && u[10..12] == Two(dt.second) && u[12] == 'Z';
    assert s[..2] == u[2..4] && s[2..4] == u[4..6] && s[4..6] == u[6..8];
    assert s[6..8] == u[8..10] && s[8..10] == u[10..12] && s[10] == u[12];
    TwoReadsBack(dt.year % 100);
    TwoReadsBack(dt.month);
    TwoReadsBack(dt.day);
    TwoReadsBack(dt.hour);
    TwoReadsBack(dt.minute);
    TwoReadsBack(dt.second);
  }

  /** No century is lost: from 1970 on, what a relying party reads is the date that was written. */
  lemma TimeReadsBack(dt: DateTime)
    requires dt.Valid() && 1970 <= dt.year < 10000
    ensures ReadTime(TimeOf(dt)) == Some(dt)
    ensures TimeOf(dt).UtcTime? <==> dt.year <= 2049
  {
    FieldsReadBack(dt);
    if dt.year < 2050 {
      TwoDigitYear(dt.year);
    } else {
      GeneralizedReadsBack(dt);
    }
  }

  lemma TwoDigitYear(year: nat)
    requires 1970 <= year < 2050
    ensures FullYear(year % 100) == year
  {
  }

  lemma GeneralizedReadsBack(dt: DateTime)
    requires dt.Valid() && 0 <= dt.year < 10000
    ensures ReadTime(GeneralTime(Four(dt.year) + UtcText(dt)[2..])) == Some(dt)
  {
    var s := Four(dt.year) + UtcText(dt)[2..];
    assert s[..4] == Four(dt.year) && s[4..] == UtcText(dt)[2..];
    FourReadsBack(dt.year);
    FieldsReadBack(dt);
  }

  /** Conversion succeeds exactly in range, and what is read back denotes the same second. */
  lemma TimeRoundTrip(t: int)
    ensures ToTime(t).Ok? <==> 0 <= t <= MAX_SECONDS
    ensures ToTime(t).Ok? ==>
      exists dt: DateTime :: dt.Valid() && ReadTime(ToTime(t).value) == Some(dt) && dt.Seconds() == t
  {
    if 0 <= t <= MAX_SECONDS {
      YearRange(t);
      CivilRoundTrip(t);
      TimeReadsBack(FromSeconds(t));
    }
  }

  lemma FormattedParses(dt: DateTime)
    requires dt.Valid() && 0 <= dt.year < 10000
    ensures ParseRfc3339(Format(dt)) == Some(dt.Seconds())
  {
    FormatReadsBack(dt);
  }

  /** For every second from 1970 to 9999: format, parse, convert and read back denotes that second. */
  lemma TimestampRoundTrip(t: nat)
    requires t <= MAX_SECONDS
    ensures FromSeconds(t).year < 10000 && FromSeconds(t).Seconds() == t
    ensures ParseRfc3339(Format(FromSeconds(t))) == Some(t)
    ensures ToTime(t) == Ok(TimeOf(FromSeconds(t))) && ReadTime(TimeOf(FromSeconds(t))) == Some(FromSeconds(t))
  {
    YearRange(t);
    CivilRoundTrip(t);
    FormattedParses(FromSeconds(t));
    TimeReadsBack(FromSeconds(t));
  }
}
