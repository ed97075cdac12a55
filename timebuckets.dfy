/**
 * The time bucketer: `timer` in process.py.
 *
 * `timer` receives the date column concatenated with the time column cut to
 * four characters ("2015-05-01" + "00:0"), appends '0', parses the result with
 * time.strptime and the format '%Y-%m-%d%H:%M', converts the broken-down UTC
 * time to Unix seconds with calendar.timegm and returns the end of the
 * ten-minute window, 600 * (t // 600 + 1).
 *
 * strptime is modelled as a validating parser for the fixed layout
 * "YYYY-MM-DDHH:MM" that can fail; timegm as CPython computes it, from the
 * proleptic Gregorian day ordinal (days_before_year + days_before_month + day)
 * minus the ordinal of 1970-01-01.
 */
module TimeBuckets {
  import opened Wrappers

  /** The fields strptime fills in for '%Y-%m-%d%H:%M'; seconds are always 0. */
  datatype DateTime = DateTime(year: int, month: int, day: int, hour: int, minute: int)

  // ---------------------------------------------------------------------------
  // Proleptic Gregorian calendar
  // ---------------------------------------------------------------------------

  predicate IsLeap(y: int) {
    y % 4 == 0 && (y % 100 != 0 || y % 400 == 0)
  }

  function DaysInYear(y: int): int {
    if IsLeap(y) then 366 else 365
  }

  function DaysInMonth(y: int, m: int): int
    requires 1 <= m <= 12
  {
    if m == 2 then (if IsLeap(y) then 29 else 28)
    else if m == 4 || m == 6 || m == 9 || m == 11 then 30
    else 31
  }

  /** Days in the years 1 .. y-1 (CPython's _days_before_year). */
  function DaysBeforeYear(y: int): int
    requires y >= 1
  {
    var p := y - 1;
    p * 365 + p / 4 - p / 100 + p / 400
  }

  /** Days in the months before month m of year y (CPython's _days_before_month). */
  function DaysBeforeMonth(y: int, m: int): int
    requires 1 <= m <= 12
  {
    [0, 31, 59, 90, 120, 151, 181, 212, 243, 273, 304, 334][m - 1]
      + (if m > 2 && IsLeap(y) then 1 else 0)
  }

  /** date(y, m, d).toordinal(): 0001-01-01 is day 1. */
  function Ordinal(y: int, m: int, d: int): int
    requires y >= 1 && 1 <= m <= 12
  {
    DaysBeforeYear(y) + DaysBeforeMonth(y, m) + d
  }

  /** The ordinal of the Unix epoch, 1970-01-01 (calendar's _EPOCH_ORD). */
  const EpochOrdinal: int := Ordinal(1970, 1, 1)

  /** What strptime accepts: datetime.date's year range and real clock readings. */
  predicate ValidDateTime(dt: DateTime) {
    && 1 <= dt.year <= 9999
    && 1 <= dt.month <= 12
    && 1 <= dt.day <= DaysInMonth(dt.year, dt.month)
    && 0 <= dt.hour <= 23
    && 0 <= dt.minute <= 59
  }

  /** calendar.timegm of the broken-down time, seconds being 0. */
  function TimeGm(dt: DateTime): int
    requires ValidDateTime(dt)
  {
    var days := Ordinal(dt.year, dt.month, 1) - EpochOrdinal + dt.day - 1;
    ((days * 24 + dt.hour) * 60 + dt.minute) * 60
  }

  // ---------------------------------------------------------------------------
  // The fixed layout "YYYY-MM-DDHH:MM"
  // ---------------------------------------------------------------------------

  predicate IsDigit(c: char) {
    '0' <= c <= '9'
  }

  predicate AllDigits(s: string) {
    forall i | 0 <= i < |s| :: IsDigit(s[i])
  }

  function DigitValue(c: char): int {
    c as int - '0' as int
  }

  function DigitChar(n: int): char
    requires 0 <= n <= 9
  {
    ('0' as int + n) as char
  }

  /** The value of a string of decimal digits, most significant first. */
  function Number(s: string): int {
    if s == [] then 0 else Number(s[..|s| - 1]) * 10 + DigitValue(s[|s| - 1])
  }

  function Pow10(w: nat): nat {
    if w == 0 then 1 else 10 * Pow10(w - 1)
  }

  /** n written with exactly w digits, zero-padded on the left. */
  function Pad(n: nat, w: nat): (r: string)
    ensures |r| == w
  {
    if w == 0 then "" else Pad(n / 10, w - 1) + [DigitChar(n % 10)]
  }

  /** The fields that strptime reads, at their positions in the layout. */
  function Fields(s: string): DateTime
    requires |s| == 15
  {
    DateTime(Number(s[0..4]), Number(s[5..7]), Number(s[8..10]), Number(s[10..12]), Number(s[13..15]))
  }

  predicate WellLaidOut(s: string) {
    && |s| == 15
    && s[4] == '-' && s[7] == '-' && s[12] == ':'
    && AllDigits(s[0..4]) && AllDigits(s[5..7]) && AllDigits(s[8..10])
    && AllDigits(s[10..12]) && AllDigits(s[13..15])
  }

  /**
   * time.strptime(s, '%Y-%m-%d%H:%M'): the fields when s has the layout and
   * they name a real instant; None where strptime raises ValueError (wrong
   * layout, month 13, February 30, hour 24, minute 60, year 0).
   */
  function ParseStamp(s: string): (r: Option<DateTime>)
    ensures r.Some? ==> ValidDateTime(r.value)
    ensures r.Some? ==> |s| == 15 && r.value.minute == 10 * DigitValue(s[13]) + DigitValue(s[14])
  {
    if WellLaidOut(s) && ValidDateTime(Fields(s)) then
      TwoDigits(s[13..15]);
      Some(Fields(s))
    else
      None
  }

  lemma TwoDigits(s: string)
    requires |s| == 2
    ensures Number(s) == 10 * DigitValue(s[0]) + DigitValue(s[1])
  {
    var first := s[..1];
    assert first[..0] == [] && first[0] == s[0];
    assert Number(first) == DigitValue(s[0]);
    assert s[..|s| - 1] == first;
  }

  /** The layout written out for a valid instant: the inverse of ParseStamp. */
  function FormatStamp(dt: DateTime): string
    requires ValidDateTime(dt)
  {
    Pad(dt.year, 4) + "-" + Pad(dt.month, 2) + "-" + Pad(dt.day, 2)
      + Pad(dt.hour, 2) + ":" + Pad(dt.minute, 2)
  }

  // ---------------------------------------------------------------------------
  // timer
  // ---------------------------------------------------------------------------

  /**
   * timer(x): the Unix time of the end of the ten-minute window holding the
   * instant that x + '0' names, or None where strptime would raise.
   */
  function Timer(x: string): (r: Option<int>)
    ensures r.Some? ==> r.value % 600 == 0
    ensures r.Some? <==> ParseStamp(x + "0").Some?
  {
    match ParseStamp(x + "0")
    case None => None
    case Some(dt) =>
      var q := TimeGm(dt) / 600 + 1;
      MultipleOf600(q);
      Some(600 * q)
  }

  lemma MultipleOf600(q: int)
    ensures (600 * q) % 600 == 0
  {
  }

  // ---------------------------------------------------------------------------
  // Lemmas
  // ---------------------------------------------------------------------------

  /**
   * Because timer appends '0', the parsed minute is a multiple of ten and the
   * instant t sits on a window boundary; the bucket is then exactly t + 600, so
   * a reading on a boundary rolls forward to the next one, and t < b <= t + 600.
   */
  lemma TimerRollsForward(x: string, dt: DateTime)
    requires ParseStamp(x + "0") == Some(dt)
    ensures TimeGm(dt) % 600 == 0
    ensures Timer(x) == Some(TimeGm(dt) + 600)
    ensures TimeGm(dt) < Timer(x).value <= TimeGm(dt) + 600
  {
    var s := x + "0";
    assert s[14] == '0';
    var q := DigitValue(s[13]);
    assert dt.minute == 10 * q;
    var days := Ordinal(dt.year, dt.month, 1) - EpochOrdinal + dt.day - 1;
    var t := TimeGm(dt);
    assert t == 600 * (days * 144 + dt.hour * 6 + q);
    assert t / 600 == days * 144 + dt.hour * 6 + q;
  }

  lemma {:induction false} PadDigits(n: nat, w: nat)
    requires n < Pow10(w)
    ensures |Pad(n, w)| == w
    ensures AllDigits(Pad(n, w))
    ensures Number(Pad(n, w)) == n
  {
    if w > 0 {
      PadDigits(n / 10, w - 1);
      var p := Pad(n, w);
      assert p[..|p| - 1] == Pad(n / 10, w - 1);
    }
  }

  lemma {:induction false} NumberPad(s: string)
    requires AllDigits(s)
    ensures 0 <= Number(s) < Pow10(|s|)
    ensures Pad(Number(s), |s|) == s
  {
    if s != [] {
      var init := s[..|s| - 1];
      NumberPad(init);
      var n := Number(s);
      assert n / 10 == Number(init) && n % 10 == DigitValue(s[|s| - 1]);
      assert s == init + [s[|s| - 1]];
    }
  }

  /** ParseStamp reads back what FormatStamp writes. */
  lemma ParseFormat(dt: DateTime)
    requires ValidDateTime(dt)
    ensures ParseStamp(FormatStamp(dt)) == Some(dt)
  {
    PadDigits(dt.year, 4);
    PadDigits(dt.month, 2);
    PadDigits(dt.day, 2);
    PadDigits(dt.hour, 2);
    PadDigits(dt.minute, 2);
    FormatSlices(dt);
    var s := FormatStamp(dt);
    assert WellLaidOut(s);
    assert Fields(s) == dt;
  }

  /** Where each field and separator stands in the written layout. */
  lemma FormatSlices(dt: DateTime)
    requires ValidDateTime(dt)
    ensures |FormatStamp(dt)| == 15
    ensures FormatStamp(dt)[4] == '-' && FormatStamp(dt)[7] == '-' && FormatStamp(dt)[12] == ':'
    ensures FormatStamp(dt)[0..4] == Pad(dt.year, 4)
    ensures FormatStamp(dt)[5..7] == Pad(dt.month, 2)
    ensures FormatStamp(dt)[8..10] == Pad(dt.day, 2)
    ensures FormatStamp(dt)[10..12] == Pad(dt.hour, 2)
    ensures FormatStamp(dt)[13..15] == Pad(dt.minute, 2)
  {
    var y, mo, d, h, mi := Pad(dt.year, 4), Pad(dt.month, 2), Pad(dt.day, 2), Pad(dt.hour, 2), Pad(dt.minute, 2);
    var s := FormatStamp(dt);
    assert s == y + "-" + mo + "-" + d + h + ":" + mi;
    assert s[0..4] == y;
    assert s[5..7] == mo;
    assert s[8..10] == d;
    assert s[10..12] == h;
    assert s[13..15] == mi;
  }

  /** Every string ParseStamp accepts is the one FormatStamp writes for its fields. */
  lemma FormatParse(s: string, dt: DateTime)
    requires ParseStamp(s) == Some(dt)
    ensures FormatStamp(dt) == s
  {
    NumberPad(s[0..4]);
    NumberPad(s[5..7]);
    NumberPad(s[8..10]);
    NumberPad(s[10..12]);
    NumberPad(s[13..15]);
    assert s == s[0..4] + "-" + s[5..7] + "-" + s[8..10] + s[10..12] + ":" + s[13..15];
  }

  lemma MonthEnds(y: int, m1: int, m2: int)
    requires 1 <= m1 < m2 <= 12
    ensures DaysBeforeMonth(y, m1) + DaysInMonth(y, m1) <= DaysBeforeMonth(y, m2)
  {
  }

  lemma YearLength(y: int)
    requires y >= 1
    ensures DaysBeforeYear(y + 1) == DaysBeforeYear(y) + DaysInYear(y)
  {
    FloorStep(y, 4);
    FloorStep(y, 100);
    FloorStep(y, 400);
    Divides(y);
    var a, b, c := if y % 4 == 0 then 1 else 0, if y % 100 == 0 then 1 else 0, if y % 400 == 0 then 1 else 0;
    assert DaysInYear(y) == 365 + a - b + c;
  }

  /** 400 is a multiple of 100, and 100 of 4. */
  lemma Divides(y: int)
    ensures y % 400 == 0 ==> y % 100 == 0
    ensures y % 100 == 0 ==> y % 4 == 0
  {
  }

  /** Going from y - 1 to y, y / d grows by one exactly when d divides y. */
  lemma FloorStep(y: int, d: int)
    requires d == 4 || d == 100 || d == 400
    ensures y / d == (y - 1) / d + (if y % d == 0 then 1 else 0)
  {
  }

  lemma {:induction false} YearsOrdered(y1: int, y2: int)
    requires 1 <= y1 < y2
    ensures DaysBeforeYear(y1) + DaysInYear(y1) <= DaysBeforeYear(y2)
    decreases y2 - y1
  {
    YearLength(y1);
    if y1 + 1 < y2 {
      YearsOrdered(y1 + 1, y2);
      YearLength(y1 + 1);
    }
  }

  /** A valid date's ordinal lies inside its year. */
  lemma OrdinalInYear(y: int, m: int, d: int)
    requires 1 <= y && 1 <= m <= 12 && 1 <= d <= DaysInMonth(y, m)
    ensures DaysBeforeYear(y) < Ordinal(y, m, d) <= DaysBeforeYear(y) + DaysInYear(y)
  {
    if m < 12 {
      MonthEnds(y, m, 12);
    }
  }

  /** Distinct valid dates have distinct ordinals. */
  lemma OrdinalInjective(y1: int, m1: int, d1: int, y2: int, m2: int, d2: int)
    requires 1 <= y1 && 1 <= m1 <= 12 && 1 <= d1 <= DaysInMonth(y1, m1)
    requires 1 <= y2 && 1 <= m2 <= 12 && 1 <= d2 <= DaysInMonth(y2, m2)
    requires Ordinal(y1, m1, d1) == Ordinal(y2, m2, d2)
    ensures y1 == y2 && m1 == m2 && d1 == d2
  {
    OrdinalInYear(y1, m1, d1);
    OrdinalInYear(y2, m2, d2);
    if y1 < y2 {
      YearsOrdered(y1, y2);
    } else if y2 < y1 {
      YearsOrdered(y2, y1);
    }
    assert y1 == y2;
    if m1 < m2 {
      MonthEnds(y1, m1, m2);
    } else if m2 < m1 {
      MonthEnds(y1, m2, m1);
    }
  }

  /** timegm tells distinct valid instants apart. */
  lemma TimeGmInjective(a: DateTime, b: DateTime)
    requires ValidDateTime(a) && ValidDateTime(b)
    requires TimeGm(a) == TimeGm(b)
    ensures a == b
  {
    var da := Ordinal(a.year, a.month, 1) + a.day;
    var db := Ordinal(b.year, b.month, 1) + b.day;
    assert TimeGm(a) == (da - EpochOrdinal - 1) * 86400 + a.hour * 3600 + a.minute * 60;
    assert TimeGm(b) == (db - EpochOrdinal - 1) * 86400 + b.hour * 3600 + b.minute * 60;
    assert da == db;
    assert Ordinal(a.year, a.month, a.day) == Ordinal(b.year, b.month, b.day);
    OrdinalInjective(a.year, a.month, a.day, b.year, b.month, b.day);
  }

  /**
   * Two strings that timer accepts share a bucket only when they are equal:
   * each ten-minute window has its own bucket.
   */
  lemma TimerInjective(x1: string, x2: string)
    requires Timer(x1).Some? && Timer(x1) == Timer(x2)
    ensures x1 == x2
  {
    var dt1 := ParseStamp(x1 + "0").value;
    var dt2 := ParseStamp(x2 + "0").value;
    TimerRollsForward(x1, dt1);
    TimerRollsForward(x2, dt2);
    TimeGmInjective(dt1, dt2);
    FormatParse(x1 + "0", dt1);
    FormatParse(x2 + "0", dt2);
    assert x1 == (x1 + "0")[..|x1|];
    assert x2 == (x2 + "0")[..|x2|];
  }

  /**
   * Every instant on a ten-minute boundary is accepted when written in the
   * layout, and its bucket is the next boundary.
   */
  lemma TimerOfFormatted(dt: DateTime)
    requires ValidDateTime(dt) && dt.minute % 10 == 0
    ensures |FormatStamp(dt)| == 15
    ensures Timer(FormatStamp(dt)[..14]) == Some(TimeGm(dt) + 600)
  {
    var s := FormatStamp(dt);
    PadDigits(dt.minute, 2);
    assert Pad(dt.minute, 2)[1] == DigitChar(dt.minute % 10);
    assert s[..14] + "0" == s;
    ParseFormat(dt);
    TimerRollsForward(s[..14], dt);
  }

  /** The instant at the start of the ten-minute window holding dt. */
  function WindowStart(dt: DateTime): (w: DateTime)
    ensures ValidDateTime(dt) ==> ValidDateTime(w) && w.minute % 10 == 0
    ensures w.minute <= dt.minute < w.minute + 10
  {
    dt.(minute := dt.minute / 10 * 10)
  }

  /**
   * The bucket of a reading at any minute: written in the layout and cut to
   * 14 characters as horizontalize cuts it, every valid instant t is accepted
   * and timed to 600 * (t // 600 + 1), the smallest multiple of 600 strictly
   * above t.
   */
  lemma TimerIsCeiling(dt: DateTime)
    requires ValidDateTime(dt)
    ensures |FormatStamp(dt)| == 15
    ensures Timer(FormatStamp(dt)[..14]) == Some(600 * (TimeGm(dt) / 600 + 1))
    ensures TimeGm(dt) < Timer(FormatStamp(dt)[..14]).value <= TimeGm(dt) + 600
  {
    var w := WindowStart(dt);
    SameWindowPrefix(dt);
    TimerOfFormatted(w);
    WindowOffset(dt);
    CeilingStep(TimeGm(dt), TimeGm(w));
  }

  /** The window start is a multiple of 600, and dt lies less than 600 s after it. */
  lemma WindowOffset(dt: DateTime)
    requires ValidDateTime(dt)
    ensures TimeGm(WindowStart(dt)) % 600 == 0
    ensures 0 <= TimeGm(dt) - TimeGm(WindowStart(dt)) < 600
  {
    var w := WindowStart(dt);
    var x := (Ordinal(dt.year, dt.month, 1) - EpochOrdinal + dt.day - 1) * 24 + dt.hour;
    assert TimeGm(dt) == (x * 60 + dt.minute) * 60;
    assert TimeGm(w) == (x * 60 + dt.minute / 10 * 10) * 60;
    WindowArith(x, dt.minute);
  }

  lemma WindowArith(x: int, m: int)
    requires 0 <= m < 60
    ensures ((x * 60 + m / 10 * 10) * 60) % 600 == 0
    ensures 0 <= (x * 60 + m) * 60 - (x * 60 + m / 10 * 10) * 60 < 600
  {
    var q := x * 6 + m / 10;
    assert (x * 60 + m / 10 * 10) * 60 == 600 * q;
    MultipleOf600(q);
  }

  /** An instant and the start of its window are written alike up to the last digit. */
  lemma SameWindowPrefix(dt: DateTime)
    requires ValidDateTime(dt)
    ensures |FormatStamp(dt)| == 15 && |FormatStamp(WindowStart(dt))| == 15
    ensures FormatStamp(dt)[..14] == FormatStamp(WindowStart(dt))[..14]
  {
    var w := WindowStart(dt);
    var p := Pad(dt.year, 4) + "-" + Pad(dt.month, 2) + "-" + Pad(dt.day, 2) + Pad(dt.hour, 2) + ":";
    var a, b := Pad(dt.minute, 2), Pad(w.minute, 2);
    assert w.minute / 10 == dt.minute / 10;
    assert a[..1] == Pad(dt.minute / 10, 1) == b[..1];
    assert FormatStamp(dt) == p + a && FormatStamp(w) == p + b;
    assert (p + a)[..14] == p + a[..1];
    assert (p + b)[..14] == p + b[..1];
  }

  lemma CeilingStep(t: int, tw: int)
    requires tw % 600 == 0 && 0 <= t - tw < 600
    ensures 600 * (t / 600 + 1) == tw + 600
  {
    var q := tw / 600;
    assert tw == 600 * q;
    assert t / 600 == q;
  }
}
