/**
 * The integer day and time arithmetic of the Date objects of ECMA-262 (section
 * "Date Objects": Day, TimeWithinDay, DayFromYear, YearFromTime, MonthFromTime,
 * DateFromTime, MakeTime, MakeDay, MakeDate, TimeClip, MakeFullYear, Date.UTC)
 * and the Date Time String Format that Date.prototype.toISOString produces.
 * Time values are integers of milliseconds since 1970-01-01T00:00:00Z; NaN is
 * None.
 */
module Dates {
  import opened Wrappers
  import opened Text

  const MsPerSecond := 1000
  const MsPerMinute := 60_000
  const MsPerHour := 3_600_000
  const MsPerDay := 86_400_000
  /** The largest magnitude TimeClip lets through: 8.64 * 10^15 ms, i.e. 10^8 days. */
  const MaxTime := 8_640_000_000_000_000

  /** A Number as Date.UTC sees it: an integer, or NaN. */
  type Num = Option<int>

  predicate ValidTime(t: int)
  {
    -MaxTime <= t <= MaxTime
  }

  predicate IsLeapYear(y: int)
  {
    y % 4 == 0 && (y % 100 != 0 || y % 400 == 0)
  }

  function DaysInYear(y: int): (n: int)
  {
    if IsLeapYear(y) then 366 else 365
  }

  /**
   * DayFromYear: the day number of the first day of year `y`, counted year by
   * year from 1970. DayFromYearClosedForm proves it equal to the standard's
   * formula with floor divisions.
   */
  function DayFromYear(y: int): (d: int)
    decreases if y >= 1970 then y - 1970 else 1970 - y
  {
    if y == 1970 then 0
    else if y > 1970 then DayFromYear(y - 1) + DaysInYear(y - 1)
    else DayFromYear(y + 1) - DaysInYear(y)
  }

  /** The standard's DayFromYear: 365 * (y - 1970) + floor((y - 1969) / 4) - floor((y - 1901) / 100) + floor((y - 1601) / 400). */
  function DayFromYearFormula(y: int): (d: int)
  {
    365 * (y - 1970) + (y - 1969) / 4 - (y - 1901) / 100 + (y - 1601) / 400
  }

  /** Consecutive years start DaysInYear apart. */
  lemma DayFromYearStep(y: int)
    ensures DayFromYear(y + 1) == DayFromYear(y) + DaysInYear(y)
  {
  }

  /** The closed form steps by DaysInYear too. */
  lemma FormulaStep(y: int)
    ensures DayFromYearFormula(y + 1) == DayFromYearFormula(y) + DaysInYear(y)
  {
    // each floor term steps up by one exactly when its divisor divides the next year
    FloorStep4(y);
    FloorStep100(y);
    FloorStep400(y);
    var a, b, c := (if y % 4 == 0 then 1 else 0), (if y % 100 == 0 then 1 else 0), (if y % 400 == 0 then 1 else 0);
    assert DayFromYearFormula(y + 1) == DayFromYearFormula(y) + 365 + a - b + c;
    LeapTerms(y);
  }

  /** The three floor steps add up to one exactly in a leap year. */
  lemma LeapTerms(y: int)
    ensures (if y % 4 == 0 then 1 else 0) - (if y % 100 == 0 then 1 else 0) + (if y % 400 == 0 then 1 else 0)
         == (if IsLeapYear(y) then 1 else 0)
  {
    if y % 400 == 0 {
      assert y == 100 * (4 * (y / 400));
    }
    if y % 100 == 0 {
      assert y == 4 * (25 * (y / 100));
    }
  }

  lemma FloorStep4(y: int)
    ensures (y - 1968) / 4 == (y - 1969) / 4 + (if y % 4 == 0 then 1 else 0)
  {
    assert (y - 1968) % 4 == 0 <==> y % 4 == 0;
  }

  lemma FloorStep100(y: int)
    ensures (y - 1900) / 100 == (y - 1901) / 100 + (if y % 100 == 0 then 1 else 0)
  {
    assert (y - 1900) % 100 == 0 <==> y % 100 == 0;
  }

  lemma FloorStep400(y: int)
    ensures (y - 1600) / 400 == (y - 1601) / 400 + (if y % 400 == 0 then 1 else 0)
  {
    assert (y - 1600) % 400 == 0 <==> y % 400 == 0;
  }

  /** The year-by-year count agrees with the standard's closed form for every year. */
  lemma {:induction false} DayFromYearClosedForm(y: int)
    ensures DayFromYear(y) == DayFromYearFormula(y)
    decreases if y >= 1970 then y - 1970 else 1970 - y
  {
    if y > 1970 {
      DayFromYearClosedForm(y - 1);
      FormulaStep(y - 1);
    } else if y < 1970 {
      DayFromYearClosedForm(y + 1);
      FormulaStep(y);
    }
  }

  /** Later years start at least 365 days per year later. */
  lemma {:induction false} DayFromYearGrowth(a: int, b: int)
    requires a <= b
    ensures DayFromYear(b) - DayFromYear(a) >= 365 * (b - a)
    decreases b - a
  {
    if a < b {
      DayFromYearGrowth(a, b - 1);
      DayFromYearStep(b - 1);
    }
  }

  /** Search for the year containing day number `d`, starting from year `y`. */
  function YearSearch(d: int, y: int): (r: int)
    ensures DayFromYear(r) <= d < DayFromYear(r + 1)
    decreases (if d < DayFromYear(y) then DayFromYear(y) - d else 0),
              (if d >= DayFromYear(y) then d - DayFromYear(y) else 0)
  {
    DayFromYearStep(y);
    DayFromYearStep(y - 1);
    if d < DayFromYear(y) then YearSearch(d, y - 1)
    else if d >= DayFromYear(y + 1) then YearSearch(d, y + 1)
    else y
  }

  /** The year in which day number `d` falls. */
  function YearFromDay(d: int): (y: int)
  {
    YearSearch(d, 1970)
  }

  /** Two years whose spans both hold day `d` are the same year. */
  lemma YearsEqual(y1: int, y2: int, d: int)
    requires DayFromYear(y1) <= d < DayFromYear(y1 + 1)
    requires DayFromYear(y2) <= d < DayFromYear(y2 + 1)
    ensures y1 == y2
  {
    if y1 < y2 {
      DayFromYearGrowth(y1 + 1, y2);
    } else if y2 < y1 {
      DayFromYearGrowth(y2 + 1, y1);
    }
  }

  /** YearFromTime on a day number: the only year whose span holds the day. */
  lemma YearFromDayUnique(d: int, y: int)
    requires DayFromYear(y) <= d < DayFromYear(y + 1)
    ensures YearFromDay(d) == y
  {
    YearsEqual(YearFromDay(d), y, d);
  }


  /** The day number, within a year, of the first day of month `m` (0-based; 12 is the year's end). */
  function MonthStart(m: int, leap: bool): (s: int)
    requires 0 <= m <= 12
  {
    var common :=
      if m < 6 then
        (if m == 0 then 0 else if m == 1 then 31 else if m == 2 then 59
         else if m == 3 then 90 else if m == 4 then 120 else 151)
      else
        (if m == 6 then 181 else if m == 7 then 212 else if m == 8 then 243
         else if m == 9 then 273 else if m == 10 then 304 else if m == 11 then 334 else 365);
    common + (if leap && m >= 2 then 1 else 0)
  }

  function MonthLength(m: int, leap: bool): (n: int)
    requires 0 <= m < 12
  {
    MonthStart(m + 1, leap) - MonthStart(m, leap)
  }

  lemma MonthLengthBounds(m: int, leap: bool)
    requires 0 <= m < 12
    ensures 28 <= MonthLength(m, leap) <= 31
    ensures MonthStart(12, leap) == (if leap then 366 else 365)
  {
  }

  lemma {:induction false} MonthStartMonotone(a: int, b: int, leap: bool)
    requires 0 <= a <= b <= 12
    ensures MonthStart(a, leap) <= MonthStart(b, leap)
    decreases b - a
  {
    if a < b {
      MonthLengthBounds(b - 1, leap);
      MonthStartMonotone(a, b - 1, leap);
    }
  }

  /** Search for the month holding day `dy` of the year, starting from month `m`. */
  function MonthSearch(dy: int, leap: bool, m: int): (r: int)
    requires 0 <= m < 12 && MonthStart(m, leap) <= dy < MonthStart(12, leap)
    ensures m <= r < 12 && MonthStart(r, leap) <= dy < MonthStart(r + 1, leap)
    decreases 12 - m
  {
    if dy < MonthStart(m + 1, leap) then m else MonthSearch(dy, leap, m + 1)
  }

  /** Two months whose spans both hold day `dy` of the year are the same month. */
  lemma MonthsEqual(m1: int, m2: int, leap: bool, dy: int)
    requires 0 <= m1 < 12 && MonthStart(m1, leap) <= dy < MonthStart(m1 + 1, leap)
    requires 0 <= m2 < 12 && MonthStart(m2, leap) <= dy < MonthStart(m2 + 1, leap)
    ensures m1 == m2
  {
    if m1 < m2 {
      MonthStartMonotone(m1 + 1, m2, leap);
    } else if m2 < m1 {
      MonthStartMonotone(m2 + 1, m1, leap);
    }
  }

  /** The calendar fields of a time value; `month` is 0-based as in the standard. */
  datatype Fields = Fields(year: int, month: int, day: int, hour: int, minute: int, second: int, ms: int)

  /** Fields in their normal ranges: each such record names exactly one instant. */
  predicate Canonical(f: Fields)
  {
    && 0 <= f.month < 12
    && 1 <= f.day <= MonthLength(f.month, IsLeapYear(f.year))
    && 0 <= f.hour < 24 && 0 <= f.minute < 60 && 0 <= f.second < 60 && 0 <= f.ms < 1000
  }

  /** MakeTime on integer arguments. */
  function MakeTime(hour: int, min: int, sec: int, ms: int): (t: int)
  {
    hour * MsPerHour + min * MsPerMinute + sec * MsPerSecond + ms
  }

  /** MakeDay on integer arguments: months beyond 0..11 carry into the year. */
  function MakeDay(year: int, month: int, date: int): (day: int)
  {
    var ym := year + month / 12;
    var mn := month % 12;
    DayFromYear(ym) + MonthStart(mn, IsLeapYear(ym)) + date - 1
  }

  function MakeDate(day: int, time: int): (t: int)
  {
    day * MsPerDay + time
  }

  /** TimeClip: NaN outside the range of representable instants. */
  function TimeClip(t: int): (r: Num)
    ensures r.Some? <==> ValidTime(t)
    ensures r.Some? ==> r.value == t
  {
    if t < -MaxTime || t > MaxTime then None else Some(t)
  }

  /** MakeFullYear: Date.UTC reads years 0 to 99 as 1900 to 1999. */
  function MakeFullYear(y: int): (full: int)
  {
    if 0 <= y <= 99 then 1900 + y else y
  }

  /** The instant that a field record names. */
  function Compose(f: Fields): (t: int)
  {
    MakeDate(MakeDay(f.year, f.month, f.day), MakeTime(f.hour, f.minute, f.second, f.ms))
  }

  /** A calendar date: year, 0-based month, and day of the month from 1. */
  datatype CalendarDate = CalendarDate(year: int, month: int, date: int)

  /** Day(t): the number of the day holding instant `t`. */
  function Day(t: int): (d: int)
  {
    t / MsPerDay
  }

  /** TimeWithinDay(t): the milliseconds since the start of that day. */
  function TimeWithinDay(t: int): (r: int)
    ensures 0 <= r < MsPerDay
  {
    t % MsPerDay
  }

  /** Hours, minutes, seconds and milliseconds of a time within a day. */
  datatype Clock = Clock(hour: int, minute: int, second: int, ms: int)

  /**
   * HourFromTime, MinFromTime, SecFromTime and msFromTime of a time within a
   * day, which give the same values as the standard's floor(t / msPerHour)
   * modulo 24 and its siblings.
   */
  function ClockOf(tod: int): (k: Clock)
    requires 0 <= tod < MsPerDay
    ensures 0 <= k.hour < 24 && 0 <= k.minute < 60 && 0 <= k.second < 60 && 0 <= k.ms < 1000
  {
    Clock(tod / MsPerHour, (tod / MsPerMinute) % 60, (tod / MsPerSecond) % 60, tod % MsPerSecond)
  }

  /** The year, month and day of the month of day number `day` (YearFromTime, MonthFromTime, DateFromTime). */
  function DateOfDay(day: int): (c: CalendarDate)
    ensures 0 <= c.month < 12 && 1 <= c.date <= MonthLength(c.month, IsLeapYear(c.year))
    ensures day == DayFromYear(c.year) + MonthStart(c.month, IsLeapYear(c.year)) + c.date - 1
  {
    var y := YearFromDay(day);
    var leap := IsLeapYear(y);
    var dy := day - DayFromYear(y);
    DayFromYearStep(y);
    MonthLengthBounds(0, leap);
    var m := MonthSearch(dy, leap, 0);
    CalendarDate(y, m, dy - MonthStart(m, leap) + 1)
  }

  /** The fields of instant `t`: the calendar date of Day(t) and the clock of TimeWithinDay(t). */
  function Decompose(t: int): (f: Fields)
    ensures Canonical(f)
  {
    var c := DateOfDay(Day(t));
    var k := ClockOf(TimeWithinDay(t));
    Fields(c.year, c.month, c.date, k.hour, k.minute, k.second, k.ms)
  }

  /** An instant is its day's start plus its time within the day. */
  lemma DayAndTimeSplit(t: int)
    ensures MakeDate(Day(t), TimeWithinDay(t)) == t
  {
  }

  /** A day number and a time within that day are recovered from their instant. */
  lemma DayAndTime(day: int, tod: int)
    requires 0 <= tod < MsPerDay
    ensures Day(MakeDate(day, tod)) == day && TimeWithinDay(MakeDate(day, tod)) == tod
  {
  }

  /** The clock fields of a time within a day add back up to it. */
  lemma ClockFields(tod: int)
    requires 0 <= tod < MsPerDay
    ensures var k := ClockOf(tod); MakeTime(k.hour, k.minute, k.second, k.ms) == tod
  {
    var sec := tod / 1000;
    var min := sec / 60;
    assert tod / MsPerMinute == min;
    assert tod / MsPerHour == min / 60;
  }

  /** The clock of a time built from fields in their ranges gives those fields back. */
  lemma TimeFields(h: int, mi: int, s: int, ms: int)
    requires 0 <= h < 24 && 0 <= mi < 60 && 0 <= s < 60 && 0 <= ms < 1000
    ensures 0 <= MakeTime(h, mi, s, ms) < MsPerDay
    ensures ClockOf(MakeTime(h, mi, s, ms)) == Clock(h, mi, s, ms)
  {
    var tod := MakeTime(h, mi, s, ms);
    var sec := h * 3600 + mi * 60 + s;
    assert tod == sec * 1000 + ms;
    assert tod / 1000 == sec && tod % 1000 == ms;
    var min := h * 60 + mi;
    assert sec == min * 60 + s;
    assert sec % 60 == s && sec / 60 == min;
    assert tod / MsPerMinute == min;
    assert min % 60 == mi && min / 60 == h;
    assert tod / MsPerHour == h;
  }

  /** MakeDay of a month in 0..11 adds no carry into the year. */
  lemma MakeDayInYear(y: int, m: int, d: int)
    requires 0 <= m < 12
    ensures MakeDay(y, m, d) == DayFromYear(y) + MonthStart(m, IsLeapYear(y)) + d - 1
  {
    assert m / 12 == 0 && m % 12 == m;
  }

  /** Composing the fields of a time value gives the time value back. */
  lemma ComposeDecompose(t: int)
    ensures Compose(Decompose(t)) == t
  {
    var c := DateOfDay(Day(t));
    var k := ClockOf(TimeWithinDay(t));
    ClockFields(TimeWithinDay(t));
    MakeDayInYear(c.year, c.month, c.date);
    DayAndTimeSplit(t);
  }

  /** Decomposing the instant of canonical fields gives the same fields back. */
  lemma DecomposeCompose(f: Fields)
    requires Canonical(f)
    ensures Decompose(Compose(f)) == f
  {
    var day := DayFromYear(f.year) + MonthStart(f.month, IsLeapYear(f.year)) + f.day - 1;
    var tod := MakeTime(f.hour, f.minute, f.second, f.ms);
    var t := Compose(f);
    MakeDayInYear(f.year, f.month, f.day);
    assert t == MakeDate(day, tod);
    TimeFields(f.hour, f.minute, f.second, f.ms);
    DayAndTime(day, tod);
    DateOfCanonical(f);
    assert DateOfDay(Day(t)) == CalendarDate(f.year, f.month, f.day);
    assert ClockOf(TimeWithinDay(t)) == Clock(f.hour, f.minute, f.second, f.ms);
  }

  /** Moving the hour `n` hours later moves the instant by n hours, whatever the other fields. */
  lemma LaterHours(f: Fields, n: int)
    ensures Compose(Fields(f.year, f.month, f.day, f.hour + n, f.minute, f.second, f.ms))
         == Compose(f) + n * MsPerHour
  {
  }

  /** Every canonical field record of a year 0..9999 names an instant inside the time range. */
  lemma ComposeValid(f: Fields)
    requires Canonical(f) && 0 <= f.year <= 9999
    ensures ValidTime(Compose(f))
  {
    DayFromYearClosedForm(f.year);
    MakeDayInYear(f.year, f.month, f.day);
    MonthStartMonotone(f.month, 12, IsLeapYear(f.year));
    var day := MakeDay(f.year, f.month, f.day);
    assert -800_000 <= day <= 3_000_000;
    TimeFields(f.hour, f.minute, f.second, f.ms);
  }

  /** The calendar date of the day that canonical fields name is theirs. */
  lemma DateOfCanonical(f: Fields)
    requires Canonical(f)
    ensures DateOfDay(DayFromYear(f.year) + MonthStart(f.month, IsLeapYear(f.year)) + f.day - 1)
         == CalendarDate(f.year, f.month, f.day)
  {
    var day := DayFromYear(f.year) + MonthStart(f.month, IsLeapYear(f.year)) + f.day - 1;
    CalendarUnique(DateOfDay(day), CalendarDate(f.year, f.month, f.day), day);
  }

  /** Two calendar dates in their normal ranges that name the same day are the same date. */
  lemma CalendarUnique(c1: CalendarDate, c2: CalendarDate, day: int)
    requires 0 <= c1.month < 12 && 1 <= c1.date <= MonthLength(c1.month, IsLeapYear(c1.year))
    requires day == DayFromYear(c1.year) + MonthStart(c1.month, IsLeapYear(c1.year)) + c1.date - 1
    requires 0 <= c2.month < 12 && 1 <= c2.date <= MonthLength(c2.month, IsLeapYear(c2.year))
    requires day == DayFromYear(c2.year) + MonthStart(c2.month, IsLeapYear(c2.year)) + c2.date - 1
    ensures c1 == c2
  {
    DayInYear(c1.year, c1.month, c1.date, day);
    DayInYear(c2.year, c2.month, c2.date, day);
    YearsEqual(c1.year, c2.year, day);
    MonthsEqual(c1.month, c2.month, IsLeapYear(c2.year), day - DayFromYear(c2.year));
  }

  /** The day number of a date in its normal ranges falls within its year and within its month. */
  lemma DayInYear(y: int, m: int, d: int, day: int)
    requires 0 <= m < 12 && 1 <= d <= MonthLength(m, IsLeapYear(y))
    requires day == DayFromYear(y) + MonthStart(m, IsLeapYear(y)) + d - 1
    ensures DayFromYear(y) <= day < DayFromYear(y + 1)
    ensures MonthStart(m, IsLeapYear(y)) <= day - DayFromYear(y) < MonthStart(m + 1, IsLeapYear(y))
  {
    var leap := IsLeapYear(y);
    MonthStartMonotone(m + 1, 12, leap);
    MonthStartMonotone(0, m, leap);
    MonthLengthBounds(m, leap);
    DayFromYearStep(y);
  }

  /**
   * Date.UTC with all seven arguments supplied: NaN when any argument is NaN
   * or the instant lies outside the time range, and otherwise a valid time
   * value whose calendar fields are the arguments, once they are in their
   * normal ranges (with a year 0..99 read as 1900..1999).
   */
  function DateUTC(year: Num, month: Num, date: Num, hours: Num, minutes: Num, seconds: Num, ms: Num): (r: Num)
    ensures year.None? || month.None? || date.None? || hours.None? || minutes.None? || seconds.None? || ms.None?
      ==> r.None?
    ensures year.Some? && month.Some? && date.Some? && hours.Some? && minutes.Some? && seconds.Some? && ms.Some? ==>
      var f := Fields(MakeFullYear(year.value), month.value, date.value, hours.value, minutes.value, seconds.value, ms.value);
      (r.Some? <==> ValidTime(Compose(f)))
    ensures r.Some? ==> ValidTime(r.value)
    ensures r.Some? ==>
      var f := Fields(MakeFullYear(year.value), month.value, date.value, hours.value, minutes.value, seconds.value, ms.value);
      r.value == Compose(f) && (Canonical(f) ==> Decompose(r.value) == f)
  {
    if year.None? || month.None? || date.None? || hours.None? || minutes.None? || seconds.None? || ms.None?
    then None
    else
      var f := Fields(MakeFullYear(year.value), month.value, date.value, hours.value, minutes.value, seconds.value, ms.value);
      assert Canonical(f) ==> Decompose(Compose(f)) == f by {
        if Canonical(f) {
          DecomposeCompose(f);
        }
      }
      TimeClip(Compose(f))
  }

  /** Date.UTC of canonical fields of a year 100..9999 is the instant they name. */
  lemma DateUTCOfFields(f: Fields)
    requires Canonical(f) && 100 <= f.year <= 9999
    ensures DateUTC(Some(f.year), Some(f.month), Some(f.day), Some(f.hour), Some(f.minute), Some(f.second), Some(f.ms))
         == Some(Compose(f))
  {
    ComposeValid(f);
  }

  /** Split runs that read as canonical fields of a year 100..9999 parse to the instant they name. */
  lemma ParseRunsOfFields(b: seq<string>, f: Fields)
    requires |b| >= 7 && forall k :: 0 <= k < |b| ==> AllDigits(b[k])
    requires Canonical(f) && 100 <= f.year <= 9999
    requires DecimalValue(b[0]) == f.year && DecimalValue(b[1]) == f.month + 1 && DecimalValue(b[2]) == f.day
    requires DecimalValue(b[3]) == f.hour && DecimalValue(b[4]) == f.minute && DecimalValue(b[5]) == f.second
    requires DecimalValue(b[6]) == f.ms
    ensures ParseParts(b) == Some(Compose(f))
  {
    DateUTCOfFields(f);
  }

  /** The year as toISOString writes it: four digits, or a sign and six digits outside 0..9999. */
  function YearString(y: int): (s: string)
  {
    if 0 <= y <= 9999 then Digits(y, 4)
    else if y < 0 then "-" + Digits(-y, 6)
    else "+" + Digits(y, 6)
  }

  /** The separators of YYYY-MM-DDTHH:mm:ss.sssZ, the last one closing the milliseconds. */
  const IsoSeparators: string := "--T::.Z"

  /** The runs of YYYY-MM-DDTHH:mm:ss.sssZ; the run after the final Z is empty. */
  function IsoRuns(f: Fields): (runs: seq<string>)
    requires Canonical(f)
    ensures |runs| == |IsoSeparators| + 1
  {
    [YearString(f.year), Digits(f.month + 1, 2), Digits(f.day, 2), Digits(f.hour, 2),
     Digits(f.minute, 2), Digits(f.second, 2), Digits(f.ms, 3), ""]
  }

  /** The Date Time String Format YYYY-MM-DDTHH:mm:ss.sssZ of a field record. */
  function FormatFields(f: Fields): (s: string)
    requires Canonical(f)
  {
    Rejoin(IsoRuns(f), IsoSeparators)
  }

  /** The layout YYYY-MM-DDTHH:mm:ss.sssZ of already rendered fields: each field, then its separator. */
  function IsoText(y: string, mo: string, d: string, h: string, mi: string, sec: string, ms: string): (s: string)
  {
    (y + "-") + ((mo + "-") + ((d + "T") + ((h + ":") + ((mi + ":") + ((sec + ".") + ((ms + "Z") + ""))))))
  }

  /** The rendered fields of a record, in the layout IsoText writes out. */
  lemma IsoLayout(f: Fields)
    requires Canonical(f)
    ensures FormatFields(f) == IsoText(YearString(f.year), Digits(f.month + 1, 2), Digits(f.day, 2),
      Digits(f.hour, 2), Digits(f.minute, 2), Digits(f.second, 2), Digits(f.ms, 3))
  {
    Rejoin8(IsoRuns(f), IsoSeparators);
  }

  /**
   * Date.prototype.toISOString of a valid time value, in UTC: the layout
   * YYYY-MM-DDTHH:mm:ss.sssZ of its calendar fields, each zero-padded and the
   * month one-based. IsoRoundTrip reads it back.
   */
  function IsoString(t: int): (s: string)
    requires ValidTime(t)
    ensures var f := Decompose(t);
      s == IsoText(YearString(f.year), Digits(f.month + 1, 2), Digits(f.day, 2),
        Digits(f.hour, 2), Digits(f.minute, 2), Digits(f.second, 2), Digits(f.ms, 3))
  {
    var f := Decompose(t);
    IsoLayout(f);
    FormatFields(f)
  }

  /** Position `i` of the split parts as a Number: ToNumber of the digits, NaN when absent. */
  function Component(parts: seq<string>, i: nat): (r: Num)
    requires i < |parts| ==> AllDigits(parts[i])
    ensures r.Some? <==> i < |parts|
  {
    if i < |parts| then Some(DecimalValue(parts[i])) else None
  }

  /**
   * The date strategy's parse of a string: split on every non-digit, decrement
   * the month, take milliseconds from position 6 through ToInt32 (0 when
   * absent), and hand the seven positions to Date.UTC.
   */
  function ParseBySplit(s: string): (r: Num)
    ensures NonDigitCount(s) < 5 ==> r.None?
    ensures r.Some? ==> ValidTime(r.value)
  {
    ParseParts(SplitNonDigits(s))
  }

  /**
   * The positions of the split string handed to Date.UTC: NaN when a position
   * up to 5 is missing, milliseconds 0 when position 6 is, and otherwise the
   * seven numbers, the month one lower.
   */
  function ParseParts(b: seq<string>): (r: Num)
    requires forall k :: 0 <= k < |b| ==> AllDigits(b[k])
    ensures |b| < 6 ==> r.None?
    ensures r.Some? ==> ValidTime(r.value)
    ensures |b| >= 6 ==>
      r == DateUTC(Some(DecimalValue(b[0])), Some(DecimalValue(b[1]) - 1), Some(DecimalValue(b[2])),
                   Some(DecimalValue(b[3])), Some(DecimalValue(b[4])), Some(DecimalValue(b[5])),
                   Some(if |b| >= 7 then ToInt32(DecimalValue(b[6])) else 0))
  {
    var month := Component(b, 1);
    DateUTC(Component(b, 0), if month.Some? then Some(month.value - 1) else None,
            Component(b, 2), Component(b, 3), Component(b, 4), Component(b, 5),
            Some(if 6 < |b| then ToInt32(DecimalValue(b[6])) else 0))
  }

  /** The Date Time String Format of a year in 0..9999 splits into its eight digit runs. */
  lemma SplitFormat(f: Fields)
    requires Canonical(f) && 0 <= f.year <= 9999
    ensures SplitNonDigits(FormatFields(f)) == IsoRuns(f)
  {
    var runs := IsoRuns(f);
    assert AllDigits(YearString(f.year));
    assert forall k :: 0 <= k < |runs| ==> AllDigits(runs[k]);
    SplitRejoinRuns(runs, IsoSeparators);
  }

  /** Parsing the rendering of a field record whose year is 0..9999: all positions but the year read back. */
  lemma ParseFormat(f: Fields)
    requires Canonical(f) && 0 <= f.year <= 9999
    ensures ParseBySplit(FormatFields(f)) ==
      TimeClip(Compose(Fields(MakeFullYear(f.year), f.month, f.day, f.hour, f.minute, f.second, f.ms)))
  {
    SplitFormat(f);
    ParseIsoRuns(f);
  }

  lemma ParseIsoRuns(f: Fields)
    requires Canonical(f) && 0 <= f.year <= 9999
    ensures ParseParts(IsoRuns(f)) ==
      TimeClip(Compose(Fields(MakeFullYear(f.year), f.month, f.day, f.hour, f.minute, f.second, f.ms)))
  {
    var b := IsoRuns(f);
    assert AllDigits(YearString(f.year));
    assert forall k :: 0 <= k < |b| ==> AllDigits(b[k]);
    IsoRunValues(f);
  }

  /** Each run of the rendering reads back as its field (the month one higher). */
  lemma IsoRunValues(f: Fields)
    requires Canonical(f) && 0 <= f.year <= 9999
    ensures var b := IsoRuns(f);
      && DecimalValue(b[0]) == f.year && DecimalValue(b[1]) == f.month + 1
      && DecimalValue(b[2]) == f.day && DecimalValue(b[3]) == f.hour
      && DecimalValue(b[4]) == f.minute && DecimalValue(b[5]) == f.second
      && DecimalValue(b[6]) == f.ms
  {
    MonthLengthBounds(f.month, IsLeapYear(f.year));
    YearRunValue(f);
    MonthRunValue(f);
    DayRunValue(f);
    HourRunValue(f);
    MinuteRunValue(f);
    SecondRunValue(f);
    MsRunValue(f);
  }

  lemma YearRunValue(f: Fields)
    requires Canonical(f) && 0 <= f.year <= 9999
    ensures DecimalValue(IsoRuns(f)[0]) == f.year
  {
    ReadBack4(f.year);
  }

  lemma MonthRunValue(f: Fields)
    requires Canonical(f)
    ensures DecimalValue(IsoRuns(f)[1]) == f.month + 1
  {
    ReadBack2(f.month + 1);
  }

  lemma DayRunValue(f: Fields)
    requires Canonical(f)
    ensures DecimalValue(IsoRuns(f)[2]) == f.day
  {
    MonthLengthBounds(f.month, IsLeapYear(f.year));
    ReadBack2(f.day);
  }

  lemma HourRunValue(f: Fields)
    requires Canonical(f)
    ensures DecimalValue(IsoRuns(f)[3]) == f.hour
  {
    ReadBack2(f.hour);
  }

  lemma MinuteRunValue(f: Fields)
    requires Canonical(f)
    ensures DecimalValue(IsoRuns(f)[4]) == f.minute
  {
    ReadBack2(f.minute);
  }

  lemma SecondRunValue(f: Fields)
    requires Canonical(f)
    ensures DecimalValue(IsoRuns(f)[5]) == f.second
  {
    ReadBack2(f.second);
  }

  lemma MsRunValue(f: Fields)
    requires Canonical(f)
    ensures DecimalValue(IsoRuns(f)[6]) == f.ms
  {
    ReadBack3(f.ms);
  }

  /**
   * The round trip of the date strategy: parsing toISOString's output gives the
   * same time value back, for every instant whose year is 100..9999.
   */
  lemma IsoRoundTrip(t: int)
    requires ValidTime(t) && 100 <= Decompose(t).year <= 9999
    ensures ParseBySplit(IsoString(t)) == Some(t)
  {
    ParseFormat(Decompose(t));
    ComposeDecompose(t);
  }

  /**
   * For an instant in the years 0..99 the round trip fails: Date.UTC reads the
   * four-digit year back as 1900 to 1999, so the parse yields a later instant
   * (or NaN, past the end of the time range).
   */
  lemma TwoDigitYearShift(t: int)
    requires ValidTime(t) && 0 <= Decompose(t).year <= 99
    ensures ParseBySplit(IsoString(t)) != Some(t)
    ensures ParseBySplit(IsoString(t)).Some? ==> ParseBySplit(IsoString(t)).value > t
  {
    var f := Decompose(t);
    var g := Fields(f.year + 1900, f.month, f.day, f.hour, f.minute, f.second, f.ms);
    assert MakeFullYear(f.year) == f.year + 1900;
    ParseFormat(f);
    assert ParseBySplit(IsoString(t)) == TimeClip(Compose(g));
    ComposeDecompose(t);
    YearsLater(f, 1900);
    assert Compose(g) > t;
  }

  /** Moving canonical fields `n` years later, n > 0, names a later instant. */
  lemma YearsLater(f: Fields, n: int)
    requires Canonical(f) && n > 0
    ensures Compose(Fields(f.year + n, f.month, f.day, f.hour, f.minute, f.second, f.ms)) > Compose(f)
  {
    DayFromYearGrowth(f.year, f.year + n);
    assert f.month / 12 == 0 && f.month % 12 == f.month;
  }
}
