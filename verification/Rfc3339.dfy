/** The text form in which last executions are stored: whole seconds with a numeric zone, as in
    section 5.6 of RFC 3339. Only the shape Format writes is parsed; fractions are left out. */
module Rfc3339 {
  import opened Arith
  import opened Calendar
  import opened GoTime
  import opened Wrappers

  function DigitValue(c: char): int {
    if '0' <= c <= '9' then c as int - '0' as int else -1
  }

  lemma DigitRoundTrip(n: int)
    requires 0 <= n <= 9
    ensures DigitValue(Digit(n)) == n
  {
  }

  /** The two-digit number at position i, or a negative number. */
  function Two(s: string, i: nat): int
    requires i + 2 <= |s|
  {
    var tens, units := DigitValue(s[i]), DigitValue(s[i + 1]);
    if tens < 0 || units < 0 then -1 else 10 * tens + units
  }

  function TwoDigits(n: int): (r: string)
    requires 0 <= n < 100
    ensures |r| == 2
  {
    [Digit(n / 10), Digit(n % 10)]
  }

  lemma TwoRoundTrip(s: string, i: nat, n: int)
    requires 0 <= n < 100 && i + 2 <= |s|
    requires s[i] == TwoDigits(n)[0] && s[i + 1] == TwoDigits(n)[1]
    ensures Two(s, i) == n
  {
    DigitRoundTrip(n / 10);
    DigitRoundTrip(n % 10);
  }

  /** A local date and time split into the fields of the format. */
  datatype Fields = Fields(year: int, month: int, day: int, hour: int, minute: int, second: int) {
    predicate Valid() {
      && 0 <= year <= 9999 && 1 <= month <= 12 && 1 <= day <= DaysIn(12 * year + month - 1)
      && 0 <= hour <= 23 && 0 <= minute <= 59 && 0 <= second <= 59
    }
  }

  function FieldsOf(offset: int, t: int): Fields {
    var day, clock := LocalDay(offset, t), Clock(offset, t);
    var index := MonthOf(day);
    var seconds := clock / SECOND;
    Fields(index / 12, index % 12 + 1, DayOf(day), seconds / 3600, seconds / 60 % 60, seconds % 60)
  }

  function InstantOf(offset: int, f: Fields): int {
    Instant(offset, Date(12 * f.year + f.month - 1, f.day),
            f.hour * HOUR + f.minute * MINUTE + f.second * SECOND)
  }

  lemma ClockFields(seconds: int)
    requires 0 <= seconds < 86400
    ensures 0 <= seconds / 3600 <= 23 && 0 <= seconds / 60 % 60 <= 59 && 0 <= seconds % 60 <= 59
    ensures seconds / 3600 * 3600 + seconds / 60 % 60 * 60 + seconds % 60 == seconds
  {
  }

  /** The fields determine the instant up to its sub-second part. */
  lemma FieldsRoundTrip(offset: int, t: int)
    ensures InstantOf(offset, FieldsOf(offset, t)) == Truncate(t, SECOND)
    ensures 0 <= FieldsOf(offset, t).year <= 9999 ==> FieldsOf(offset, t).Valid()
  {
    var day, clock := LocalDay(offset, t), Clock(offset, t);
    var index := MonthOf(day);
    InstantOfParts(offset, t);
    ClockFields(clock / SECOND);
    DayOfRange(day);
    ClockSubSecond(offset, t);
    assert 12 * (index / 12) + index % 12 == index;
  }

  lemma ClockSubSecond(offset: int, t: int)
    ensures Clock(offset, t) % SECOND == t % SECOND
  {
    var local := t + offset * MINUTE;
    var q, r := local / DAY, local % DAY;
    assert local == (86400 * q + r / SECOND) * SECOND + r % SECOND;
  }

  function Layout(c: string, y: string, mo: string, d: string, h: string, mi: string, sec: string): (r: string)
    requires |c| == |y| == |mo| == |d| == |h| == |mi| == |sec| == 2
    ensures |r| == 19
  {
    [c[0], c[1], y[0], y[1], '-', mo[0], mo[1], '-', d[0], d[1],
     'T', h[0], h[1], ':', mi[0], mi[1], ':', sec[0], sec[1]]
  }

  /** Each field of the layout reads back as the two digits put there. */
  lemma LayoutFields(c: string, y: string, mo: string, d: string, h: string, mi: string, sec: string)
    requires |c| == |y| == |mo| == |d| == |h| == |mi| == |sec| == 2
    ensures var s := Layout(c, y, mo, d, h, mi, sec);
            && s[4] == '-' && s[7] == '-' && s[10] == 'T' && s[13] == ':' && s[16] == ':'
            && Two(s, 0) == Two(c, 0) && Two(s, 2) == Two(y, 0) && Two(s, 5) == Two(mo, 0)
            && Two(s, 8) == Two(d, 0) && Two(s, 11) == Two(h, 0) && Two(s, 14) == Two(mi, 0)
            && Two(s, 17) == Two(sec, 0)
  {
  }

  function DateTimeText(f: Fields): (r: string)
    requires f.Valid()
    ensures |r| == 19
  {
    Layout(TwoDigits(f.year / 100), TwoDigits(f.year % 100), TwoDigits(f.month), TwoDigits(f.day),
           TwoDigits(f.hour), TwoDigits(f.minute), TwoDigits(f.second))
  }

  function ZoneText(offset: int): string
    requires -1440 < offset < 1440
  {
    if offset == 0 then "Z"
    else
      var minutes := if offset < 0 then -offset else offset;
      (if offset < 0 then "-" else "+") + TwoDigits(minutes / 60) + ":" + TwoDigits(minutes % 60)
  }

  /** Can the instant be written with a four-digit year, 0000 to 9999? */
  predicate Writable(offset: int, t: int) {
    -1440 < offset < 1440 && FIRST_DAY <= LocalDay(offset, t) < END_DAY
  }

  lemma YearStarts(first: int, end: int)
    requires first == 0 && end == 10000
    ensures MonthStart(12 * first) == FIRST_DAY && MonthStart(12 * end) == END_DAY
  {
    assert MonthStart(12 * first) == FIRST_DAY by { ClosedForm(first); }
    assert MonthStart(12 * end) == END_DAY by { ClosedForm(end); }
  }

  lemma WritableYear(day: int, end: int)
    requires FIRST_DAY <= day < END_DAY && end == 10000
    ensures 0 <= MonthOf(day) / 12 <= 9999
  {
    YearStarts(0, end);
    var m := MonthOf(day);
    if m < 0 {
      NextMonth(m);
      MonthsAscend(m + 1, 0);
    } else if 12 * end <= m {
      MonthsAscend(12 * end, m);
    }
  }

  /** Time.Format(time.RFC3339). */
  function Format(offset: int, t: int): string
    requires Writable(offset, t)
  {
    FieldsRoundTrip(offset, t);
    WritableYear(LocalDay(offset, t), 10000);
    DateTimeText(FieldsOf(offset, t)) + ZoneText(offset)
  }

  lemma TwoDigitNumber(n: int)
    requires 0 <= n < 100
    ensures Number(TwoDigits(n)) == n
  {
    var digits := TwoDigits(n);
    assert digits[..1] == [Digit(n / 10)] && digits[..1][..0] == [];
    assert Number(digits[..1]) == n / 10;
  }

  lemma FourDigitNumber(a: int, b: int)
    requires 0 <= a < 100 && 0 <= b < 100
    ensures Number(TwoDigits(a) + TwoDigits(b)) == 100 * a + b
  {
    var digits := TwoDigits(a) + TwoDigits(b);
    assert digits[..3][..2] == TwoDigits(a) && digits[..3] == TwoDigits(a) + [Digit(b / 10)];
    TwoDigitNumber(a);
    assert Number(digits[..3]) == 10 * Number(TwoDigits(a)) + b / 10;
  }

  lemma LayoutSlices(c: string, y: string, mo: string, d: string, h: string, mi: string, sec: string)
    requires |c| == |y| == |mo| == |d| == |h| == |mi| == |sec| == 2
    ensures var s := Layout(c, y, mo, d, h, mi, sec);
            && s[..4] == c + y && s[5..7] == mo && s[8..10] == d
            && s[11..13] == h && s[14..16] == mi && s[17..19] == sec
  {
  }

  lemma DateTimeNumbers(f: Fields)
    requires f.Valid()
    ensures var d := DateTimeText(f);
            && Number(d[..4]) == f.year && Number(d[5..7]) == f.month && Number(d[8..10]) == f.day
            && Number(d[11..13]) == f.hour && Number(d[14..16]) == f.minute && Number(d[17..19]) == f.second
  {
    LayoutSlices(TwoDigits(f.year / 100), TwoDigits(f.year % 100), TwoDigits(f.month), TwoDigits(f.day),
                 TwoDigits(f.hour), TwoDigits(f.minute), TwoDigits(f.second));
    FourDigitNumber(f.year / 100, f.year % 100);
    TwoDigitNumber(f.month);
    TwoDigitNumber(f.day);
    TwoDigitNumber(f.hour);
    TwoDigitNumber(f.minute);
    TwoDigitNumber(f.second);
  }

  lemma Separators(f: Fields)
    requires f.Valid()
    ensures var d := DateTimeText(f); d[4] == '-' && d[7] == '-' && d[10] == 'T' && d[13] == ':' && d[16] == ':'
  {
  }

  /** What a text that begins with d shows at the places of d. */
  lemma SlicesOf(s: string, d: string)
    requires |d| == 19 <= |s| && s[..19] == d
    ensures s[..4] == d[..4] && s[5..7] == d[5..7] && s[8..10] == d[8..10]
    ensures s[11..13] == d[11..13] && s[14..16] == d[14..16] && s[17..19] == d[17..19]
    ensures s[4] == d[4] && s[7] == d[7] && s[10] == d[10] && s[13] == d[13] && s[16] == d[16]
  {
    assert forall i :: 0 <= i < 19 ==> s[i] == d[i];
  }

  /** The text shows the civil date and the clock of the zone in decimal digits, and the zone. */
  lemma FormatShows(offset: int, t: int)
    requires Writable(offset, t)
    ensures var s, day, clock := Format(offset, t), LocalDay(offset, t), Clock(offset, t);
            && 20 <= |s| && s[4] == '-' && s[7] == '-' && s[10] == 'T' && s[13] == ':' && s[16] == ':'
            && Number(s[..4]) == MonthOf(day) / 12 && Number(s[5..7]) == MonthOf(day) % 12 + 1
            && Number(s[8..10]) == DayOf(day) && Number(s[11..13]) == clock / HOUR
            && Number(s[14..16]) == clock / MINUTE % 60 && Number(s[17..19]) == clock / SECOND % 60
            && s[19..] == ZoneText(offset)
  {
    var f, s := FieldsOf(offset, t), Format(offset, t);
    assert f.Valid() by {
      FieldsRoundTrip(offset, t);
      WritableYear(LocalDay(offset, t), 10000);
    }
    ClockUnits(Clock(offset, t));
    assert s == DateTimeText(f) + ZoneText(offset);
    SlicesOf(s, DateTimeText(f));
    Separators(f);
    DateTimeNumbers(f);
  }

  lemma ClockUnits(clock: int)
    ensures clock / SECOND / 3600 == clock / HOUR && clock / SECOND / 60 % 60 == clock / MINUTE % 60
  {
    assert clock / SECOND / 60 == clock / MINUTE;
  }

  /** Z in UTC, otherwise the sign, hours and minutes. */
  lemma ZoneShows(offset: int)
    requires -1440 < offset < 1440
    ensures offset == 0 ==> ZoneText(offset) == "Z"
    ensures offset != 0 ==>
              && |ZoneText(offset)| == 6 && ZoneText(offset)[0] == (if offset < 0 then '-' else '+')
              && ZoneText(offset)[3] == ':'
              && 60 * Number(ZoneText(offset)[1..3]) + Number(ZoneText(offset)[4..6])
                 == if offset < 0 then -offset else offset
  {
    if offset != 0 {
      var minutes := if offset < 0 then -offset else offset;
      assert ZoneText(offset)[1..3] == TwoDigits(minutes / 60) && ZoneText(offset)[4..6] == TwoDigits(minutes % 60);
      TwoDigitNumber(minutes / 60);
      TwoDigitNumber(minutes % 60);
    }
  }

  function ParseDateTime(s: string): Option<Fields> {
    if |s| != 19 then None
    else
      var f := Fields(100 * Two(s, 0) + Two(s, 2), Two(s, 5), Two(s, 8), Two(s, 11), Two(s, 14), Two(s, 17));
      if && s[4] == '-' && s[7] == '-' && s[10] == 'T' && s[13] == ':' && s[16] == ':'
         && 0 <= Two(s, 0) && 0 <= Two(s, 2) && f.Valid()
      then Some(f) else None
  }

  function ParseZone(s: string): Option<int> {
    if s == "Z" then Some(0)
    else if |s| == 6 && s[0] in {'+', '-'} && s[3] == ':'
            && 0 <= Two(s, 1) <= 23 && 0 <= Two(s, 4) <= 59 then
      var minutes := 60 * Two(s, 1) + Two(s, 4);
      Some(if s[0] == '-' then -minutes else minutes)
    else None
  }

  /** time.Parse(time.RFC3339, s). */
  function Parse(s: string): Option<int> {
    if |s| < 19 then None
    else
      match (ParseDateTime(s[..19]), ParseZone(s[19..]))
      case (Some(f), Some(offset)) => Some(InstantOf(offset, f))
      case _ => None
  }

  lemma ReadsAs(s: string, f: Fields)
    requires |s| == 19 && f.Valid()
    requires s[4] == '-' && s[7] == '-' && s[10] == 'T' && s[13] == ':' && s[16] == ':'
    requires Two(s, 0) == f.year / 100 && Two(s, 2) == f.year % 100 && Two(s, 5) == f.month
    requires Two(s, 8) == f.day && Two(s, 11) == f.hour && Two(s, 14) == f.minute && Two(s, 17) == f.second
    ensures ParseDateTime(s) == Some(f)
  {
    var year := 100 * Two(s, 0) + Two(s, 2);
    assert year == f.year;
    assert Fields(year, Two(s, 5), Two(s, 8), Two(s, 11), Two(s, 14), Two(s, 17)) == f;
  }

  lemma DateTimeRoundTrip(f: Fields)
    requires f.Valid()
    ensures ParseDateTime(DateTimeText(f)) == Some(f)
  {
    var c, y := TwoDigits(f.year / 100), TwoDigits(f.year % 100);
    var mo, d := TwoDigits(f.month), TwoDigits(f.day);
    var h, mi, sec := TwoDigits(f.hour), TwoDigits(f.minute), TwoDigits(f.second);
    LayoutFields(c, y, mo, d, h, mi, sec);
    assert Two(c, 0) == f.year / 100 by { TwoRoundTrip(c, 0, f.year / 100); }
    assert Two(y, 0) == f.year % 100 by { TwoRoundTrip(y, 0, f.year % 100); }
    assert Two(mo, 0) == f.month by { TwoRoundTrip(mo, 0, f.month); }
    assert Two(d, 0) == f.day by { TwoRoundTrip(d, 0, f.day); }
    assert Two(h, 0) == f.hour by { TwoRoundTrip(h, 0, f.hour); }
    assert Two(mi, 0) == f.minute by { TwoRoundTrip(mi, 0, f.minute); }
    assert Two(sec, 0) == f.second by { TwoRoundTrip(sec, 0, f.second); }
    ReadsAs(Layout(c, y, mo, d, h, mi, sec), f);
  }

  lemma ZoneRoundTrip(offset: int)
    requires -1440 < offset < 1440
    ensures ParseZone(ZoneText(offset)) == Some(offset)
  {
    if offset != 0 {
      var minutes := if offset < 0 then -offset else offset;
      TwoRoundTrip(ZoneText(offset), 1, minutes / 60);
      TwoRoundTrip(ZoneText(offset), 4, minutes % 60);
    }
  }

  /** Writing and reading back loses exactly the sub-second part, in any zone. */
  lemma RoundTrip(offset: int, t: int)
    requires Writable(offset, t)
    ensures Parse(Format(offset, t)) == Some(Truncate(t, SECOND))
  {
    var f := FieldsOf(offset, t);
    FieldsRoundTrip(offset, t);
    WritableYear(LocalDay(offset, t), 10000);
    var s := Format(offset, t);
    assert s[..19] == DateTimeText(f) && s[19..] == ZoneText(offset);
    DateTimeRoundTrip(f);
    ZoneRoundTrip(offset);
  }

  lemma FourDigitDay(index: int, day: int, end: int)
    requires 0 <= index < 12 * end && end == 10000 && 1 <= day <= DaysIn(index)
    ensures FIRST_DAY <= Date(index, day) < END_DAY
  {
    YearStarts(0, end);
    NextMonth(index);
    MonthsAscend(0, index);
    MonthsAscend(index + 1, 12 * end);
  }

  /** Whatever text is read back, the instant lies in a four-digit year of some zone. */
  lemma ParsedIsStorable(s: string)
    ensures Parse(s).Some? ==> Storable(Parse(s).value)
  {
    if Parse(s).Some? {
      var f, offset := ParseDateTime(s[..19]).value, ParseZone(s[19..]).value;
      FourDigitDay(12 * f.year + f.month - 1, f.day, 10000);
      ZoneShift(offset, Date(12 * f.year + f.month - 1, f.day), f);
    }
  }

  lemma ZoneShift(offset: int, day: int, f: Fields)
    requires -1440 < offset < 1440 && FIRST_DAY <= day < END_DAY && f.Valid()
    ensures Storable(Instant(offset, day, f.hour * HOUR + f.minute * MINUTE + f.second * SECOND))
  {
  }
}
