/**
 Daylight-saving transitions. A yearly transition given by its date is stored as a
 month, a week of the month and a weekday, Monday 1 to Sunday 7.
 */
module Calendar {

  predicate IsLeap(year: int) {
    year % 4 == 0 && (year % 100 != 0 || year % 400 == 0)
  }

  function DaysIn(year: int, month: int): (n: int)
    ensures 28 <= n <= 31
  {
    if month == 2 then (if IsLeap(year) then 29 else 28)
    else if month == 4 || month == 6 || month == 9 || month == 11 then 30
    else 31
  }

  /** The month lengths of the Gregorian calendar. */
  lemma MonthLengths(year: int, month: int)
    requires 1 <= month <= 12
    ensures var leap := year % 400 == 0 || (year % 4 == 0 && year % 100 != 0);
            DaysIn(year, month) == [31, if leap then 29 else 28, 31, 30, 31, 30, 31, 31, 30, 31, 30, 31][month - 1]
  {
  }

  function DaysBeforeYear(year: int): int {
    var y := year - 1;
    365 * y + y / 4 - y / 100 + y / 400
  }

  function DaysBeforeMonth(year: int, month: int): int
    requires 1 <= month <= 12
    decreases month
  {
    if month == 1 then 0 else DaysBeforeMonth(year, month - 1) + DaysIn(year, month - 1)
  }

  /** Days counted from the start of year 1 in the Gregorian calendar, which was a Monday. */
  function DayNumber(year: int, month: int, day: int): int
    requires 1 <= month <= 12
  {
    DaysBeforeYear(year) + DaysBeforeMonth(year, month) + day
  }

  datatype Date = Date(year: int, month: int, day: int)

  predicate IsDate(d: Date) {
    1 <= d.month <= 12 && 1 <= d.day <= DaysIn(d.year, d.month)
  }

  /** A day outside its month counts on into the months around it. */
  function Normalize(year: int, month: int, day: int): (d: Date)
    requires 1 <= month <= 12
    decreases day < 1, if day < 1 then 1 - day else day
  {
    if day < 1 then
      var y, m := if month == 1 then year - 1 else year, if month == 1 then 12 else month - 1;
      Normalize(y, m, day + DaysIn(y, m))
    else if day > DaysIn(year, month) then
      var y, m := if month == 12 then year + 1 else year, if month == 12 then 1 else month + 1;
      Normalize(y, m, day - DaysIn(year, month))
    else Date(year, month, day)
  }

  /** The date of a point in time given by components that may each be out of range. */
  function DateOf(year: int, month: int, day: int, hour: int, minute: int): Date {
    Normalize(year + (month - 1) / 12, (month - 1) % 12 + 1, day + (hour * 60 + minute) / 1440)
  }

  /** Sunday is 0. */
  function Weekday(d: Date): (w: int)
    requires IsDate(d)
    ensures 0 <= w < 7
  {
    DayNumber(d.year, d.month, d.day) % 7
  }

  // ----- the calendar -----

  lemma StepQuotients(n: int)
    ensures n / 4 - (n - 1) / 4 == if n % 4 == 0 then 1 else 0
    ensures n / 100 - (n - 1) / 100 == if n % 100 == 0 then 1 else 0
    ensures n / 400 - (n - 1) / 400 == if n % 400 == 0 then 1 else 0
  {
  }

  lemma HundredsAreFours(n: int)
    requires n % 100 == 0
    ensures n % 4 == 0
  {
    var q := n / 100;
    assert n == 4 * (25 * q);
  }

  lemma FourHundredsAreHundreds(n: int)
    requires n % 400 == 0
    ensures n % 100 == 0
  {
    var q := n / 400;
    assert n == 100 * (4 * q);
  }

  lemma YearLength(year: int)
    ensures DaysBeforeYear(year + 1) == DaysBeforeYear(year) + if IsLeap(year) then 366 else 365
  {
    StepQuotients(year);
    if year % 100 == 0 { HundredsAreFours(year); }
    if year % 400 == 0 { FourHundredsAreHundreds(year); }
  }

  /** The day after the last of a month is the first of the next, also over the turn of the year. */
  lemma NextMonth(year: int, month: int, day: int)
    requires 1 <= month <= 12
    ensures var y, m := if month == 12 then year + 1 else year, if month == 12 then 1 else month + 1;
            DayNumber(year, month, day) == DayNumber(y, m, day - DaysIn(year, month))
  {
    YearLength(year);
  }

  /** Counting days over into other months keeps the day number, and gives a real date. */
  lemma {:induction false} NormalizeKeepsDay(year: int, month: int, day: int)
    requires 1 <= month <= 12
    ensures var d := Normalize(year, month, day);
            IsDate(d) && DayNumber(d.year, d.month, d.day) == DayNumber(year, month, day)
    decreases day < 1, if day < 1 then 1 - day else day
  {
    if day < 1 {
      var y, m := if month == 1 then year - 1 else year, if month == 1 then 12 else month - 1;
      NextMonth(y, m, day + DaysIn(y, m));
      NormalizeKeepsDay(y, m, day + DaysIn(y, m));
    } else if day > DaysIn(year, month) {
      var y, m := if month == 12 then year + 1 else year, if month == 12 then 1 else month + 1;
      NextMonth(year, month, day);
      NormalizeKeepsDay(y, m, day - DaysIn(year, month));
    }
  }

  /** 1 January 2000 was a Saturday. */
  lemma MillenniumSaturday()
    ensures Weekday(Date(2000, 1, 1)) == 6
  {
  }

  /** Each day has the weekday after that of the day before: with one known day, all weekdays are right. */
  lemma WeekdayAdvances(d: Date, next: Date)
    requires IsDate(d) && IsDate(next)
    requires if d.day < DaysIn(d.year, d.month) then next == Date(d.year, d.month, d.day + 1)
             else if d.month < 12 then next == Date(d.year, d.month + 1, 1)
             else next == Date(d.year + 1, 1, 1)
    ensures Weekday(next) == if Weekday(d) == 6 then 0 else Weekday(d) + 1
  {
    NextDayNumber(d, next);
    AddOneMod7(DayNumber(d.year, d.month, d.day));
  }

  lemma AddOneMod7(n: int)
    ensures (n + 1) % 7 == if n % 7 == 6 then 0 else n % 7 + 1
  {
  }

  lemma NextDayNumber(d: Date, next: Date)
    requires IsDate(d) && IsDate(next)
    requires if d.day < DaysIn(d.year, d.month) then next == Date(d.year, d.month, d.day + 1)
             else if d.month < 12 then next == Date(d.year, d.month + 1, 1)
             else next == Date(d.year + 1, 1, 1)
    ensures DayNumber(next.year, next.month, next.day) == DayNumber(d.year, d.month, d.day) + 1
  {
    if d.day == DaysIn(d.year, d.month) {
      NextMonth(d.year, d.month, d.day + 1);
    }
  }

  // ----- the translation -----

  datatype YearlyTime = YearlyTime(year: int, month: int, date: int, hour: int, minute: int)

  datatype Transition = Transition(day: int, hour: int, minute: int, month: int, week: int)

  method MapTransition(t: YearlyTime) returns (r: Transition)
    ensures r == Encode(t)
  {
    var date := DateOf(t.year, t.month, t.date, t.hour, t.minute);
    NormalizeKeepsDay(t.year + (t.month - 1) / 12, (t.month - 1) % 12 + 1, t.date + (t.hour * 60 + t.minute) / 1440);
    var week := (date.day - 1) / 7 + 1;
    if week > 5 {
      week := 5;
    }
    if week < 1 {
      week := 1;
    }
    var weekday := Weekday(date);
    if weekday <= 0 {
      weekday := 7;
    }
    r := Transition(weekday, t.hour, t.minute, t.month, week);
  }

  /** The week and weekday of the actual date; the month is taken over as it was given. */
  function Encode(t: YearlyTime): Transition {
    var d := DateOf(t.year, t.month, t.date, t.hour, t.minute);
    NormalizeKeepsDay(t.year + (t.month - 1) / 12, (t.month - 1) % 12 + 1, t.date + (t.hour * 60 + t.minute) / 1440);
    var w := Weekday(d);
    Transition(if w == 0 then 7 else w, t.hour, t.minute, t.month, (d.day - 1) / 7 + 1)
  }

  // ----- what the translation keeps -----

  /** A month outside 1 to 12 counts on into the years around. */
  function YearOf(year: int, month: int): int {
    year + (month - 1) / 12
  }

  function MonthOf(month: int): (m: int)
    ensures 1 <= m <= 12
  {
    (month - 1) % 12 + 1
  }

  /** The days that a time of day outside 00:00 to 23:59 adds to its date. */
  function DayCarry(t: YearlyTime): int {
    (t.hour * 60 + t.minute) / 1440
  }

  function ActualDate(t: YearlyTime): (d: Date)
    ensures IsDate(d)
    ensures DayNumber(d.year, d.month, d.day)
            == DayNumber(YearOf(t.year, t.month), MonthOf(t.month), t.date + DayCarry(t))
  {
    NormalizeKeepsDay(YearOf(t.year, t.month), MonthOf(t.month), t.date + DayCarry(t));
    DateOf(t.year, t.month, t.date, t.hour, t.minute)
  }

  /** For every input: the week lies in 1 to 5 before the two clamps on it, so these never change anything.
      The one on the weekday does its work exactly on Sundays. */
  lemma EncodingInRange(t: YearlyTime)
    ensures var d, r := ActualDate(t), Encode(t);
            && 1 <= r.week == (d.day - 1) / 7 + 1 <= 5
            && 1 <= r.day <= 7
            && (Weekday(d) == 0 <==> r.day == 7)
            && (Weekday(d) != 0 ==> r.day == Weekday(d))
  {
  }

  /** The day in the given week of the month that falls on the weekday. */
  function DecodeDay(year: int, month: int, week: int, weekday: int): int
    requires 1 <= month <= 12
  {
    (week - 1) * 7 + 1 + (weekday - DayNumber(year, month, 1)) % 7
  }

  function Decode(year: int, r: Transition): YearlyTime {
    YearlyTime(year, r.month, DecodeDay(YearOf(year, r.month), MonthOf(r.month), r.week, r.day), r.hour, r.minute)
  }

  /** The weekday n, counted from any day, leads to the one day of a week that is congruent to n. */
  lemma WeekdayLeadsTo(n: int, first: int, week: int, date: int)
    ensures (week - 1) * 7 + 1 + ((if n % 7 == 0 then 7 else n % 7) - first) % 7 == date
            <==> (date - 1) / 7 + 1 == week && (n - (first + date - 1)) % 7 == 0
  {
    var w := if n % 7 == 0 then 7 else n % 7;
    assert (w - first) % 7 == (n - first) % 7;
    var r := (n - first) % 7;
    assert (n - (first + date - 1)) % 7 == 0 <==> (date - 1) % 7 == r;
  }

  /** Exactly when the stored week and weekday lead back to the input, whatever the input: when the time
      of day carries over by whole weeks, if at all, and the actual date is in the same week of its month
      as the given one. */
  lemma DecodesIff(t: YearlyTime)
    ensures Decode(t.year, Encode(t)) == t
            <==> DayCarry(t) % 7 == 0 && (ActualDate(t).day - 1) / 7 == (t.date - 1) / 7
  {
    var d := ActualDate(t);
    var y, m := YearOf(t.year, t.month), MonthOf(t.month);
    var n, first := DayNumber(d.year, d.month, d.day), DayNumber(y, m, 1);
    WeekdayLeadsTo(n, first, (d.day - 1) / 7 + 1, t.date);
    assert n == first + t.date - 1 + DayCarry(t);
  }

  /** The hours and minutes are those of a day. */
  predicate IsClock(t: YearlyTime) {
    0 <= t.hour < 24 && 0 <= t.minute < 60
  }

  /** The date exists, if its month counts on into other years. */
  predicate IsValid(t: YearlyTime) {
    1 <= t.date <= DaysIn(YearOf(t.year, t.month), MonthOf(t.month))
  }

  /** At a proper time of day, the stored week and weekday lead back to the date exactly when it exists. */
  lemma DecodesIffValid(t: YearlyTime)
    requires IsClock(t)
    ensures Decode(t.year, Encode(t)) == t <==> IsValid(t)
  {
    DecodesIff(t);
    NoCarry(t);
    SameWeekIff(YearOf(t.year, t.month), MonthOf(t.month), t.date);
  }

  lemma NoCarry(t: YearlyTime)
    requires IsClock(t)
    ensures DayCarry(t) == 0 && ActualDate(t) == Normalize(YearOf(t.year, t.month), MonthOf(t.month), t.date)
  {
  }

  /** A day that does not exist falls into another week of the month it counts on into. */
  lemma SameWeekIff(year: int, month: int, day: int)
    requires 1 <= month <= 12
    ensures (Normalize(year, month, day).day - 1) / 7 == (day - 1) / 7 <==> 1 <= day <= DaysIn(year, month)
  {
    NormalizeKeepsDay(year, month, day);
    if DaysIn(year, month) < day <= 35 {
      var y, m := if month == 12 then year + 1 else year, if month == 12 then 1 else month + 1;
      assert Normalize(year, month, day) == Normalize(y, m, day - DaysIn(year, month));
    }
  }

  /** Two existing dates of one year with the same encoding are the same date. */
  lemma EncodingInjective(s: YearlyTime, t: YearlyTime)
    requires IsValid(s) && IsValid(t) && IsClock(s) && IsClock(t)
    requires s.year == t.year && Encode(s) == Encode(t)
    ensures s == t
  {
    DecodesIffValid(s);
    DecodesIffValid(t);
  }
}
