/**
 * Clock arithmetic of the timeline. A calendar date is a day number, a clock
 * time is a minute of the day, and a datetime is the single number
 * `day * 1440 + minuteOfDay`, read in one idealised time zone.
 */
module Clock {
  import opened Wrappers

  const MinutesPerHour: int := 60
  const MinutesPerDay: int := 1440

  /** The time shown in a new row when there is no previous time to follow. */
  const DefaultTime: int := 8 * 60

  predicate IsMinuteOfDay(m: int) {
    0 <= m < MinutesPerDay
  }

  function DateTime(day: int, minuteOfDay: int): int {
    day * MinutesPerDay + minuteOfDay
  }

  /** Euclidean division is unique: the quotient and remainder of n by d. */
  lemma DivisionUnique(n: int, d: int, q: int, r: int)
    requires 0 < d && 0 <= r < d && n == q * d + r
    ensures n / d == q && n % d == r
  {
    var q', r' := n / d, n % d;
    assert n == q' * d + r' && 0 <= r' < d;
    assert (q - q') * d == r' - r;
    if q > q' {
      MultipleAtLeast(q - q', d);
    } else if q < q' {
      MultipleAtLeast(q' - q, d);
    }
  }

  lemma MultipleAtLeast(a: int, d: int)
    requires a >= 1 && d > 0
    ensures a * d >= d
  {
  }

  /** The calendar day a datetime falls on (the date part of the instant). */
  function DayOf(t: int): (day: int)
    ensures IsMinuteOfDay(t - day * MinutesPerDay)
  {
    t / MinutesPerDay
  }

  /** The minute of the day of a datetime. */
  function MinuteOf(t: int): (m: int)
    ensures IsMinuteOfDay(m)
    ensures DateTime(DayOf(t), m) == t
  {
    t % MinutesPerDay
  }

  lemma DayOfDateTime(day: int, m: int)
    requires IsMinuteOfDay(m)
    ensures DayOf(DateTime(day, m)) == day
    ensures MinuteOf(DateTime(day, m)) == m
  {
    DivisionUnique(DateTime(day, m), MinutesPerDay, day, m);
  }

  /** The hour of the day (0..23) of a datetime. */
  function HourOf(t: int): (h: int)
    ensures 0 <= h < 24
    ensures h * MinutesPerHour <= MinuteOf(t) < (h + 1) * MinutesPerHour
  {
    MinuteOf(t) / MinutesPerHour
  }

  /**
   * One hour after a clock time: the hour advances modulo 24 and the minutes
   * are kept, as a new or duplicated row's time is derived from its
   * predecessor's.
   */
  function HourLater(m: int): (later: int)
    requires IsMinuteOfDay(m)
    ensures IsMinuteOfDay(later)
    ensures later == (m + MinutesPerHour) % MinutesPerDay
    ensures later % MinutesPerHour == m % MinutesPerHour
  {
    var hours, minutes := m / MinutesPerHour, m % MinutesPerHour;
    var newHours := (hours + 1) % 24;
    HourLaterArithmetic(m);
    newHours * MinutesPerHour + minutes
  }

  lemma HourLaterArithmetic(m: int)
    requires IsMinuteOfDay(m)
    ensures var r := ((m / MinutesPerHour + 1) % 24) * MinutesPerHour + m % MinutesPerHour;
      IsMinuteOfDay(r) && r == (m + MinutesPerHour) % MinutesPerDay && r % MinutesPerHour == m % MinutesPerHour
  {
    var hours, minutes := m / MinutesPerHour, m % MinutesPerHour;
    var newHours := (hours + 1) % 24;
    var r := newHours * MinutesPerHour + minutes;
    if hours < 23 {
      DivisionUnique(hours + 1, 24, 0, hours + 1);
      assert r == m + MinutesPerHour;
      DivisionUnique(m + MinutesPerHour, MinutesPerDay, 0, r);
    } else {
      DivisionUnique(hours + 1, 24, 1, 0);
      assert r == m + MinutesPerHour - MinutesPerDay;
      DivisionUnique(m + MinutesPerHour, MinutesPerDay, 1, r);
    }
    DivisionUnique(r, MinutesPerHour, newHours, minutes);
  }

  /** The time a newly added row starts with, given the last row's time field. */
  function NextTime(previous: Option<int>): (t: int)
    requires previous.Some? ==> IsMinuteOfDay(previous.value)
    ensures IsMinuteOfDay(t)
    ensures previous.None? ==> t == DefaultTime
    ensures previous.Some? ==> t == (previous.value + MinutesPerHour) % MinutesPerDay
  {
    match previous
    case None => DefaultTime
    case Some(m) => HourLater(m)
  }

  // ---------------------------------------------------------------------------
  // Decimal text

  predicate IsDigit(c: char) {
    '0' <= c <= '9'
  }

  function Digit(n: int): (c: char)
    requires 0 <= n < 10
    ensures IsDigit(c) && (c as int) - ('0' as int) == n
  {
    ('0' as int + n) as char
  }

  function DigitValue(c: char): int
    requires IsDigit(c)
  {
    (c as int) - ('0' as int)
  }

  /** `n.toString()` for a natural number. */
  function NatToString(n: nat): (s: string)
    ensures |s| >= 1
    ensures forall i :: 0 <= i < |s| ==> IsDigit(s[i])
  {
    if n < 10 then [Digit(n)] else NatToString(n / 10) + [Digit(n % 10)]
  }

  /** The number a string of decimal digits denotes. */
  function DecimalValue(s: string): nat
    requires forall i :: 0 <= i < |s| ==> IsDigit(s[i])
  {
    if s == [] then 0 else 10 * DecimalValue(s[..|s| - 1]) + DigitValue(s[|s| - 1])
  }

  lemma {:induction false} NatToStringRoundTrip(n: nat)
    ensures DecimalValue(NatToString(n)) == n
  {
    var s := NatToString(n);
    if n >= 10 {
      NatToStringRoundTrip(n / 10);
      assert s[..|s| - 1] == NatToString(n / 10);
    }
  }

  /** `n.toString().padStart(2, '0')` for 0 <= n < 100. */
  function Pad2(n: int): (s: string)
    requires 0 <= n < 100
    ensures |s| == 2 && IsDigit(s[0]) && IsDigit(s[1])
    ensures DecimalValue(s) == n
  {
    var s := [Digit(n / 10), Digit(n % 10)];
    assert s[..1] == [Digit(n / 10)] && s[..1][..0] == [];
    assert DecimalValue(s[..1]) == n / 10;
    s
  }

  /** The `HH:MM` text a time field is given for a minute of the day. */
  function TimeString(m: int): (s: string)
    requires IsMinuteOfDay(m)
    ensures |s| == 5 && s[2] == ':'
    ensures forall i :: 0 <= i < 5 && i != 2 ==> IsDigit(s[i])
  {
    Pad2(m / MinutesPerHour) + ":" + Pad2(m % MinutesPerHour)
  }

  /** Reads `HH:MM` back as `hours * 60 + minutes`. */
  function ParseTimeString(s: string): int
    requires |s| == 5 && s[2] == ':'
    requires forall i :: 0 <= i < 5 && i != 2 ==> IsDigit(s[i])
  {
    DecimalValue(s[..2]) * MinutesPerHour + DecimalValue(s[3..])
  }

  lemma TimeStringRoundTrip(m: int)
    requires IsMinuteOfDay(m)
    ensures ParseTimeString(TimeString(m)) == m
  {
    var s := TimeString(m);
    assert s[..2] == Pad2(m / MinutesPerHour);
    assert s[3..] == Pad2(m % MinutesPerHour);
  }

  // ---------------------------------------------------------------------------
  // 12-hour labels

  datatype Period = AM | PM

  datatype Hour12 = Hour12(hour: int, period: Period)

  /** The hour shown on a chart label for an hour of the day 0..23. */
  function ClockHour12(h: int): (r: Hour12)
    requires 0 <= h < 24
    ensures 1 <= r.hour <= 12
    ensures r.hour % 12 == h % 12
    ensures r.period == (if h < 12 then AM else PM)
  {
    if h == 0 then Hour12(12, AM)
    else if h < 12 then Hour12(h, AM)
    else if h == 12 then Hour12(12, PM)
    else Hour12(h - 12, PM)
  }

  /** The hour of the day a 12-hour reading denotes. */
  function To24(r: Hour12): int {
    r.hour % 12 + (if r.period == PM then 12 else 0)
  }

  lemma ClockHour12RoundTrip(h: int)
    requires 0 <= h < 24
    ensures To24(ClockHour12(h)) == h
  {
  }

  /** Any reading with an hour in 1..12 is the label of exactly one hour of the day. */
  lemma ClockHour12Inverse(r: Hour12)
    requires 1 <= r.hour <= 12
    ensures 0 <= To24(r) < 24 && ClockHour12(To24(r)) == r
  {
  }

  function PeriodString(p: Period): string {
    match p
    case AM => "AM"
    case PM => "PM"
  }

  /**
   * The `M/D hAM|PM` label of a datetime. The month and the day of the month
   * are the calendar reading of the instant's date, given by the caller.
   */
  function FormatDateTime(t: int, month: nat, dayOfMonth: nat): (text: string)
    ensures var h := HourOf(t);
      text == NatToString(month) + "/" + NatToString(dayOfMonth) + " "
        + NatToString(if h % 12 == 0 then 12 else h % 12) + (if h < 12 then "AM" else "PM")
  {
    var h := HourOf(t);
    var r := ClockHour12(h);
    assert r.hour == (if h % 12 == 0 then 12 else h % 12);
    assert PeriodString(r.period) == (if h < 12 then "AM" else "PM");
    NatToString(month) + "/" + NatToString(dayOfMonth) + " " + NatToString(r.hour) + PeriodString(r.period)
  }

  /** The label's hour reads back as a number in 1..12 that names the instant's hour. */
  lemma FormatDateTimeHour(t: int, month: nat, dayOfMonth: nat)
    ensures var text := FormatDateTime(t, month, dayOfMonth);
      var hourText := text[|NatToString(month)| + |NatToString(dayOfMonth)| + 2..|text| - 2];
      (forall i :: 0 <= i < |hourText| ==> IsDigit(hourText[i]))
      && 1 <= DecimalValue(hourText) <= 12
      && To24(Hour12(DecimalValue(hourText), if HourOf(t) < 12 then AM else PM)) == HourOf(t)
  {
    var r := ClockHour12(HourOf(t));
    var text := FormatDateTime(t, month, dayOfMonth);
    var pre := NatToString(month) + "/" + NatToString(dayOfMonth) + " ";
    var hour := NatToString(r.hour);
    assert |PeriodString(r.period)| == 2;
    assert |pre| == |NatToString(month)| + |NatToString(dayOfMonth)| + 2;
    assert text == pre + hour + PeriodString(r.period);
    assert text[|pre|..|text| - 2] == hour;
    NatToStringRoundTrip(r.hour);
    ClockHour12RoundTrip(HourOf(t));
    assert r == Hour12(DecimalValue(hour), if HourOf(t) < 12 then AM else PM);
  }
}
