/** The ISO week calendar of iso_week.h. */
module IsoWeeks {
  import opened Arithmetic
  import opened Weekdays
  import opened Gregorian
  import opened MonthWeekdays

  datatype IsoDate = IsoDate(year: int, week: int, wd: int)

  /** Monday is 1 and Sunday is 7. */
  function IsoWeekday(z: int): int {
    if WeekdayFromDays(z) != 0 then WeekdayFromDays(z) else 7
  }

  /** The last Thursday of a year's December, which ends up in the year's last week. */
  function LastThursday(y: int): int {
    LastWeekdayToDays(y, 12, THURSDAY)
  }

  /** year_lastweek::weeknum: the number of weeks in a year. */
  function LastWeek(y: int): int {
    TruncDiv(LastThursday(y) - LastThursday(y - 1), 7)
  }

  predicate ValidIsoDate(w: IsoDate) {
    1 <= w.wd <= 7 && 1 <= w.week <= LastWeek(w.year)
  }

  function IsoToDays(w: IsoDate): int {
    LastThursday(w.year - 1) + Difference(MONDAY, THURSDAY) + 7 * (w.week - 1) + Difference(w.wd, MONDAY)
  }

  /** year_lastweek_weekday: a weekday of a year's last week. */
  function LastWeekdayOfYear(y: int, wd: int): int {
    LastThursday(y) + Difference(MONDAY, THURSDAY) - Difference(MONDAY, wd)
  }

  /**
   The definition of ISO 8601:2004, section 2.2.10: a week belongs to the year its Thursday lies in, and
   is numbered by that Thursday.
   */
  function WeekOfDay(z: int): IsoDate {
    var thursday := ThursdayOfWeek(z);
    var y := FromDays(thursday).year;
    IsoDate(y, (thursday - JanuaryFirst(y)) / 7 + 1, IsoWeekday(z))
  }

  function ThursdayOfWeek(z: int): int {
    z - IsoWeekday(z) + 4
  }

  /** Thursdays among the days lo..hi. */
  function CountThursdays(lo: int, hi: int): int
    decreases hi - lo
  {
    if lo >= hi then 0 else CountThursdays(lo, hi - 1) + if WeekdayFromDays(hi - 1) == THURSDAY then 1 else 0
  }

  lemma ThursdaysAreMultiples(z: int)
    ensures WeekdayFromDays(z) == THURSDAY <==> z % 7 == 0
  {
    SameWeekday(0, z);
    WeekdayIsRemainder(0);
  }

  lemma {:induction false} ThursdaysCounted(lo: int, hi: int)
    requires lo <= hi
    ensures CountThursdays(lo, hi) == (hi + 6) / 7 - (lo + 6) / 7
    decreases hi - lo
  {
    hide WeekdayFromDays;
    if lo < hi {
      ThursdaysCounted(lo, hi - 1);
      ThursdaysAreMultiples(hi - 1);
      NextQuotient(hi + 5, 7);
      DivWord(hi + 6, 7, (hi - 1) % 7, (hi - 1) / 7 + 1);
    }
  }

  lemma LastThursdayBounds(y: int)
    ensures JanuaryFirst(y + 1) - 7 <= LastThursday(y) < JanuaryFirst(y + 1) && LastThursday(y) % 7 == 0
    ensures LastThursday(y) == 7 * ((JanuaryFirst(y + 1) - 1) / 7)
  {
    hide WeekdayFromDays, Difference, ToDays, IsLeap;
    WithinYear(Date(y, 12, 31));
    NearestWeekday(ToDays(Date(y, 12, 31)), THURSDAY);
    ThursdaysAreMultiples(LastThursday(y));
    var q := LastThursday(y) / 7;
    assert LastThursday(y) == 7 * q;
    DivWord(JanuaryFirst(y + 1) - 1, 7, JanuaryFirst(y + 1) - 1 - 7 * q, q);
  }

  lemma YearLengths(y: int)
    ensures JanuaryFirst(y + 1) == JanuaryFirst(y) + if IsLeap(y) then 366 else 365
  {
    WithinYear(Date(y, 1, 1));
  }

  /**
   A year has 52 or 53 weeks, as many as it has Thursdays; it has 53 exactly when it begins on a Thursday,
   or on a Wednesday if it is a leap year.
   */
  lemma WeeksInYear(y: int)
    ensures LastWeek(y) == 52 || LastWeek(y) == 53
    ensures LastThursday(y) == LastThursday(y - 1) + 7 * LastWeek(y)
    ensures LastWeek(y) == CountThursdays(JanuaryFirst(y), JanuaryFirst(y + 1))
    ensures LastWeek(y) == 53 <==> var wd := WeekdayFromDays(JanuaryFirst(y));
                                   wd == THURSDAY || (IsLeap(y) && wd == THURSDAY - 1)
  {
    hide WeekdayFromDays, Difference, ToDays, IsLeap, JanuaryFirst, LastThursday, CountThursdays;
    LastThursdayBounds(y - 1);
    LastThursdayBounds(y);
    YearLengths(y);
    var lo, hi := JanuaryFirst(y), JanuaryFirst(y + 1);
    var p, q := (lo - 1) / 7, (hi - 1) / 7;
    DivWord(7 * q - 7 * p, 7, 0, q - p);
    ThursdaysCounted(lo, hi);
    DivWord(lo + 6, 7, (lo - 1) % 7, p + 1);
    DivWord(hi + 6, 7, (hi - 1) % 7, q + 1);
    ThursdaysAreMultiples(lo);
    ThursdaysAreMultiples(lo + 1);
    NextWeekday(lo);
    NextQuotient(lo - 1, 7);
    NextQuotient(lo, 7);
  }

  lemma WeekdayInWeek(z: int)
    ensures 1 <= IsoWeekday(z) <= 7 && ThursdayOfWeek(z) % 7 == 0
  {
    hide WeekdayFromDays;
    NextWeekday(z);
    WeekdayIsRemainder(z);
    var w := WeekdayFromDays(z);
    var q := (z + 4) / 7;
    assert z + 4 == 7 * q + w;
    DivWord(ThursdayOfWeek(z), 7, 0, if w == 0 then q - 1 else q);
  }

  /** The Thursdays of a year end with the last one, so its weeks begin four days after the one before. */
  lemma WeekOneStarts(z: int)
    ensures var y := WeekOfDay(z).year;
            && LastThursday(y - 1) + 4 <= z < LastThursday(y) + 4
            && z == LastThursday(y - 1) + 4 + 7 * (WeekOfDay(z).week - 1) + (IsoWeekday(z) - 1)
            && WeekOfDay(z).week >= 1
  {
    hide IsoWeekday, FromDays, JanuaryFirst, LastThursday;
    WeekdayInWeek(z);
    var t := ThursdayOfWeek(z);
    var y := FromDays(t).year;
    YearOfDay(t, y);
    LastThursdayBounds(y - 1);
    LastThursdayBounds(y);
    var p, q, n := (JanuaryFirst(y) - 1) / 7, (JanuaryFirst(y + 1) - 1) / 7, t / 7;
    assert t == 7 * n;
    assert p < n <= q;
    DivWord(t - JanuaryFirst(y), 7, 7 * p + 7 - JanuaryFirst(y), n - p - 1);
  }

  /** Converting to an ISO date starts from a guess at the year and corrects it at most once. */
  method IsoFromDays(z: int) returns (w: IsoDate)
    ensures w == WeekOfDay(z)
  {
    hide IsoWeekday, FromDays, JanuaryFirst, LastThursday, WeekOfDay;
    var wd := IsoWeekday(z);
    var y := FromDays(z + 3).year;
    YearGuess(z);
    DifferenceIsForward(MONDAY, THURSDAY);
    WeekOneStarts(z);
    var start := LastThursday(y - 1) + Difference(MONDAY, THURSDAY);
    if z < start {
      y := y - 1;
      start := LastThursday(y - 1) + Difference(MONDAY, THURSDAY);
    }
    var wn := TruncDiv(z - start, 7) + 1;
    WeekdayInWeek(z);
    DivWord(z - start, 7, wd - 1, WeekOfDay(z).week - 1);
    w := IsoDate(y, wn, wd);
    FieldsOfWeek(z);
  }

  lemma FieldsOfWeek(z: int)
    ensures WeekOfDay(z).wd == IsoWeekday(z)
  {
  }

  /** The year of the day three days on is the week's year, or the next one if the week comes before its first. */
  lemma YearGuess(z: int)
    ensures var y, g := WeekOfDay(z).year, FromDays(z + 3).year;
            (g == y && LastThursday(y - 1) + 4 <= z) || (g == y + 1 && z < LastThursday(y) + 4)
  {
    hide IsoWeekday, FromDays, JanuaryFirst, LastThursday;
    WeekOneStarts(z);
    WeekdayInWeek(z);
    var t := ThursdayOfWeek(z);
    var y, g := FromDays(t).year, FromDays(z + 3).year;
    YearOfDay(t, y);
    YearOfDay(z + 3, g);
    YearsInOrder(y + 1, y + 2);
    YearOfDay(z + 3, y);
    YearOfDay(z + 3, y + 1);
  }

  /** Every day has a valid ISO date, and that date names the day. */
  lemma IsoRoundTrip(z: int)
    ensures ValidIsoDate(WeekOfDay(z)) && IsoToDays(WeekOfDay(z)) == z
  {
    hide IsoWeekday, FromDays, JanuaryFirst, LastThursday, Difference, LastWeek, WeekOfDay;
    var w := WeekOfDay(z);
    FieldsOfWeek(z);
    WeekdayInWeek(z);
    WeekOneStarts(z);
    WeeksInYear(w.year);
    DifferenceIsForward(MONDAY, THURSDAY);
    DifferenceIsForward(w.wd, MONDAY);
  }

  /** Every valid ISO date comes back from its day number. */
  lemma IsoFromRoundTrip(w: IsoDate)
    requires ValidIsoDate(w)
    ensures WeekOfDay(IsoToDays(w)) == w
  {
    hide IsoWeekday, FromDays, JanuaryFirst, LastThursday, Difference, LastWeek, WeekOfDay;
    var z := IsoToDays(w);
    var v := WeekOfDay(z);
    DifferenceIsForward(MONDAY, THURSDAY);
    DifferenceIsForward(w.wd, MONDAY);
    WeeksInYear(w.year);
    FieldsOfWeek(z);
    WeekdayInWeek(z);
    WeekOneStarts(z);
    if v.year < w.year {
      LastThursdaysInOrder(v.year, w.year - 1);
    } else if v.year > w.year {
      LastThursdaysInOrder(w.year, v.year - 1);
    }
  }

  lemma LastThursdaysInOrder(y: int, x: int)
    requires y <= x
    ensures LastThursday(y) <= LastThursday(x)
  {
    hide LastThursday, JanuaryFirst;
    LastThursdayBounds(y);
    LastThursdayBounds(x);
    YearsInOrder(y + 1, x + 1);
  }

  /** A weekday of the last week is right for Tuesday to Sunday; Monday comes out a week late. */
  lemma LastWeekMonday(y: int, wd: int)
    requires 1 <= wd <= 7
    ensures LastWeekdayOfYear(y, wd) == IsoToDays(IsoDate(y, LastWeek(y), wd)) + if wd == MONDAY then 7 else 0
    ensures LastWeekdayOfYear(y, wd) == IsoToDays(IsoDate(y, LastWeek(y), wd)) <==> wd != MONDAY
  {
    hide LastThursday, Difference, LastWeek, CountThursdays, JanuaryFirst, IsLeap;
    WeeksInYear(y);
    DifferenceIsForward(MONDAY, THURSDAY);
    DifferenceIsForward(wd, MONDAY);
    DifferenceIsForward(MONDAY, wd);
  }

  /** So the Monday of a year's last week is really the first day of the next ISO year. */
  lemma LastWeekMondayIsNextYear(y: int)
    ensures WeekOfDay(LastWeekdayOfYear(y, MONDAY)) == IsoDate(y + 1, 1, MONDAY)
  {
    hide LastThursday, Difference, LastWeek, WeekOfDay, CountThursdays, JanuaryFirst, IsLeap;
    WeeksInYear(y + 1);
    DifferenceIsForward(MONDAY, MONDAY);
    IsoFromRoundTrip(IsoDate(y + 1, 1, MONDAY));
  }
}
