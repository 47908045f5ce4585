/** Dates named by the position of a weekday in a month: the second Tuesday, the last Thursday. */
module MonthWeekdays {
  import opened Arithmetic
  import opened Weekdays
  import opened Gregorian

  /** The index-th weekday wd of a month. */
  datatype MonthWeekday = MonthWeekday(year: int, month: int, wd: int, index: int)

  predicate ValidMonthWeekday(w: MonthWeekday) {
    if !(1 <= w.month <= 12) || !(0 <= w.wd <= 6) || w.index < 1 then false
    else if w.index <= 4 then true
    else
      var d2 := Difference(w.wd, WeekdayFromDays(ToDays(Date(w.year, w.month, 1)))) + (w.index - 1) * 7 + 1;
      d2 <= LastDay(w.year, w.month)
  }

  function MonthWeekdayFromDays(days: int): MonthWeekday {
    var date := FromDays(days);
    MonthWeekday(date.year, date.month, WeekdayFromDays(days), TruncDiv(date.day - 1, 7) + 1)
  }

  function MonthWeekdayToDays(w: MonthWeekday): int {
    var d := ToDays(Date(w.year, w.month, 1));
    d + (Difference(w.wd, WeekdayFromDays(d)) + (w.index - 1) * 7)
  }

  /** The last weekday wd of a month. */
  function LastWeekdayToDays(y: int, m: int, wd: int): int
    requires 1 <= m <= 12
  {
    var d := ToDays(Date(y, m, LastDay(y, m)));
    d - Difference(WeekdayFromDays(d), wd)
  }

  lemma DayInMonth(y: int, m: int, d: int)
    ensures ToDays(Date(y, m, d)) == ToDays(Date(y, m, 1)) + d - 1
  {
    hide ToDays, MarchFirst;
    ToDaysClosed(Date(y, m, d));
    ToDaysClosed(Date(y, m, 1));
  }

  /** The day of the month an indexed weekday falls on. */
  lemma DayOfIndex(w: MonthWeekday)
    requires 1 <= w.month <= 12 && 0 <= w.wd <= 6 && w.index >= 1
    ensures var day := MonthWeekdayToDays(w) - ToDays(Date(w.year, w.month, 1)) + 1;
            && 7 * w.index - 6 <= day <= 7 * w.index
            && MonthWeekdayToDays(w) == ToDays(Date(w.year, w.month, day))
            && (ValidMonthWeekday(w) <==> day <= LastDay(w.year, w.month))
            && WeekdayFromDays(MonthWeekdayToDays(w)) == w.wd
  {
    hide ToDays, WeekdayFromDays, Difference;
    var first := ToDays(Date(w.year, w.month, 1));
    NearestWeekday(first, w.wd);
    var ahead := first + Difference(w.wd, WeekdayFromDays(first));
    var day := MonthWeekdayToDays(w) - first + 1;
    DayInMonth(w.year, w.month, day);
    DivWord(7 * (w.index - 1), 7, 0, w.index - 1);
    SameWeekday(ahead, ahead + 7 * (w.index - 1));
  }

  /** Every day is an indexed weekday of its month, and that names the day. */
  lemma MonthWeekdayRoundTrip(days: int)
    ensures ValidMonthWeekday(MonthWeekdayFromDays(days))
    ensures MonthWeekdayToDays(MonthWeekdayFromDays(days)) == days
  {
    hide ToDays, FromDays, WeekdayFromDays, ValidMonthWeekday, MonthWeekdayToDays;
    var w, date := MonthWeekdayFromDays(days), FromDays(days);
    DaysRoundTrip(days);
    NextWeekday(days);
    DayInMonth(date.year, date.month, date.day);
    DayOfIndex(w);
    SameWeekday(MonthWeekdayToDays(w), days);
  }

  lemma FieldRanges(w: MonthWeekday)
    ensures ValidMonthWeekday(w) ==> 1 <= w.month <= 12 && 0 <= w.wd <= 6 && w.index >= 1
  {
  }

  lemma LastDayRange(y: int, m: int)
    requires 1 <= m <= 12
    ensures 28 <= LastDay(y, m) <= 31
  {
  }

  lemma NextWeek(w: MonthWeekday)
    ensures MonthWeekdayToDays(w.(index := w.index + 1)) == MonthWeekdayToDays(w) + 7
  {
  }

  lemma WholeWeeks(days: int, weeks: int)
    requires 0 <= 7 * weeks <= days < 7 * weeks + 7
    ensures TruncDiv(days, 7) == weeks
  {
  }

  /** Every valid indexed weekday comes back from its day number. */
  lemma MonthWeekdayFromRoundTrip(w: MonthWeekday)
    requires ValidMonthWeekday(w)
    ensures MonthWeekdayFromDays(MonthWeekdayToDays(w)) == w
  {
    hide ToDays, FromDays, WeekdayFromDays, ValidMonthWeekday, MonthWeekdayToDays, LastDay, TruncDiv;
    FieldRanges(w);
    DayOfIndex(w);
    var days := MonthWeekdayToDays(w);
    var day := days - ToDays(Date(w.year, w.month, 1)) + 1;
    DateRoundTrip(Date(w.year, w.month, day));
    WholeWeeks(day - 1, w.index - 1);
  }

  /** The last weekday of a month is one of the last seven days, has that weekday, and is its fourth or fifth. */
  lemma LastWeekday(y: int, m: int, wd: int)
    requires 1 <= m <= 12 && 0 <= wd <= 6
    ensures var z, last := LastWeekdayToDays(y, m, wd), ToDays(Date(y, m, LastDay(y, m)));
            && last - 6 <= z <= last && WeekdayFromDays(z) == wd
            && (z == MonthWeekdayToDays(MonthWeekday(y, m, wd, 4))
                || z == MonthWeekdayToDays(MonthWeekday(y, m, wd, 5)))
            && (z == MonthWeekdayToDays(MonthWeekday(y, m, wd, 5)) <==> ValidMonthWeekday(MonthWeekday(y, m, wd, 5)))
  {
    hide ToDays, WeekdayFromDays, Difference, ValidMonthWeekday, MonthWeekdayToDays, LastDay;
    var z, last := LastWeekdayToDays(y, m, wd), ToDays(Date(y, m, LastDay(y, m)));
    NearestWeekday(last, wd);
    DayInMonth(y, m, LastDay(y, m));
    LastDayRange(y, m);
    var fourth, fifth := MonthWeekday(y, m, wd, 4), MonthWeekday(y, m, wd, 5);
    DayOfIndex(fourth);
    DayOfIndex(fifth);
    NextWeek(fourth);
    SameWeekday(MonthWeekdayToDays(fourth), z);
  }
}
