/**
 * Minute-precision wall-clock times, as the chat parser stores them and the splitter
 * prints them: Python's `datetime` restricted to the fields its formats use.
 */
module Time {
  import opened Wrappers
  import opened Text

  /** A wall-clock time; `Valid` says when Python's `datetime` would accept it. */
  datatype DateTime = DateTime(year: nat, month: nat, day: nat, hour: nat, minute: nat)

  /** Gregorian leap years, as `calendar.isleap`. */
  predicate IsLeapYear(y: int) {
    y % 4 == 0 && (y % 100 != 0 || y % 400 == 0)
  }

  function DaysInMonth(y: int, m: int): (n: int)
    requires 1 <= m <= 12
    ensures 28 <= n <= 31
    ensures n == 29 <==> m == 2 && IsLeapYear(y)
  {
    if m == 2 then (if IsLeapYear(y) then 29 else 28)
    else if m == 4 || m == 6 || m == 9 || m == 11 then 30
    else 31
  }

  /** A calendar date `datetime.date` accepts: years `MINYEAR` (1) to `MAXYEAR` (9999). */
  predicate ValidDate(y: int, m: int, d: int) {
    1 <= y <= 9999 && 1 <= m <= 12 && 1 <= d <= DaysInMonth(y, m)
  }

  predicate Valid(t: DateTime) {
    ValidDate(t.year, t.month, t.day) && 0 <= t.hour <= 23 && 0 <= t.minute <= 59
  }

  /** `t.strftime('%Y-%m-%d %H:%M')`, every field zero padded. */
  function FormatMinute(t: DateTime): (s: string)
    ensures |s| == 16
  {
    assert Pow10(2) == 100 && Pow10(4) == 10000;
    Pad(t.year, 4) + "-" + Pad(t.month, 2) + "-" + Pad(t.day, 2) + " "
    + Pad(t.hour, 2) + ":" + Pad(t.minute, 2)
  }

  /** Reads the five fields back out of a `%Y-%m-%d %H:%M` rendering. */
  function ReadMinute(s: string): (r: Option<DateTime>)
  {
    if |s| == 16 && AllDigits(s[0..4]) && s[4] == '-' && AllDigits(s[5..7]) && s[7] == '-'
       && AllDigits(s[8..10]) && s[10] == ' ' && AllDigits(s[11..13]) && s[13] == ':'
       && AllDigits(s[14..16])
    then Some(DateTime(DecimalValue(s[0..4]), DecimalValue(s[5..7]), DecimalValue(s[8..10]),
                       DecimalValue(s[11..13]), DecimalValue(s[14..16])))
    else None
  }

  /** Where the date fields stand in the rendering. */
  lemma FormatMinuteDate(t: DateTime)
    ensures var s := FormatMinute(t);
            s[0..4] == Pad(t.year, 4) && s[4] == '-' && s[5..7] == Pad(t.month, 2)
            && s[7] == '-' && s[8..10] == Pad(t.day, 2)
  {
    assert Pow10(2) == 100 && Pow10(4) == 10000;
    var y, mo, d := Pad(t.year, 4), Pad(t.month, 2), Pad(t.day, 2);
    var date := y + "-" + mo + "-" + d;
    var h, mi := Pad(t.hour, 2), Pad(t.minute, 2);
    DateSlice(FormatMinute(t), date, " " + h + ":" + mi);
    SliceBefore(y + "-" + mo + "-", d, 0, 4);
    SliceBefore(y + "-" + mo, "-", 0, 4);
    SliceBefore(y + "-", mo, 0, 4);
    SliceBefore(y, "-", 0, 4);
    assert y[0..4] == y;
    SliceBefore(y + "-" + mo + "-", d, 5, 7);
    SliceBefore(y + "-" + mo, "-", 5, 7);
    SliceAfter(y + "-", mo, 5, 7);
    assert mo[0..2] == mo;
    SliceAfter(y + "-" + mo + "-", d, 8, 10);
    assert d[0..2] == d;
  }

  lemma DateSlice(s: string, date: string, clock: string)
    requires s == date + clock && |date| == 10
    ensures s[0..4] == date[0..4] && s[5..7] == date[5..7] && s[8..10] == date[8..10]
    ensures s[4] == date[4] && s[7] == date[7]
  {
  }

  /** Where the clock fields stand in the rendering. */
  lemma FormatMinuteClock(t: DateTime)
    ensures var s := FormatMinute(t);
            s[10] == ' ' && s[11..13] == Pad(t.hour, 2) && s[13] == ':' && s[14..16] == Pad(t.minute, 2)
  {
    assert Pow10(2) == 100 && Pow10(4) == 10000;
    var date := Pad(t.year, 4) + "-" + Pad(t.month, 2) + "-" + Pad(t.day, 2);
    ClockSlice(FormatMinute(t), date, Pad(t.hour, 2), Pad(t.minute, 2));
  }

  lemma ClockSlice(s: string, date: string, h: string, mi: string)
    requires s == date + " " + h + ":" + mi && |date| == 10 && |h| == 2 && |mi| == 2
    ensures s[10] == ' ' && s[11..13] == h && s[13] == ':' && s[14..16] == mi
  {
    var a := date + " " + h + ":";
    SliceAfter(a, mi, 14, 16);
    assert mi[0..2] == mi;
    SliceBefore(a, mi, 11, 13);
    SliceBefore(date + " " + h, ":", 11, 13);
    SliceAfter(date + " ", h, 11, 13);
    assert h[0..2] == h;
  }

  /** The rendering loses nothing: every field can be read back. */
  lemma FormatMinuteRoundTrip(t: DateTime)
    requires Valid(t)
    ensures ReadMinute(FormatMinute(t)) == Some(t)
  {
    assert Pow10(2) == 100 && Pow10(4) == 10000;
    FormatMinuteDate(t);
    FormatMinuteClock(t);
    PadValue(t.year, 4);
    PadValue(t.month, 2);
    PadValue(t.day, 2);
    PadValue(t.hour, 2);
    PadValue(t.minute, 2);
  }

  /** Distinct times render differently. */
  lemma FormatMinuteInjective(t: DateTime, u: DateTime)
    requires Valid(t) && Valid(u)
    requires FormatMinute(t) == FormatMinute(u)
    ensures t == u
  {
    FormatMinuteRoundTrip(t);
    FormatMinuteRoundTrip(u);
  }
}
