/** Days of the week, Sunday being 0, and their arithmetic modulo seven. */
module Weekdays {
  import opened Arithmetic

  const MONDAY := 1
  const THURSDAY := 4

  /** The weekday of a day number. */
  function WeekdayFromDays(z: int): int {
    if z >= -4 then TruncMod(z + 4, 7) else TruncMod(z + 5, 7) + 6
  }

  /** Unsigned subtraction with a correction of one week. */
  function Difference(x: int, y: int): int {
    var diff := (x - y) % 0x1_0000_0000;
    if diff <= 6 then diff else (diff + 7) % 0x1_0000_0000
  }

  /** The weekday a number of days later, for weekdays numbered from first (0 in date, 1 in iso_week). */
  function Plus(x: int, days: int, first: int): int {
    var wdu := x - first + days;
    var wk := TruncDiv(if wdu >= 0 then wdu else wdu - 6, 7);
    wdu - wk * 7 + first
  }

  /** Weekdays of negative days too are the day number, shifted by four, modulo seven. */
  lemma WeekdayIsRemainder(z: int)
    ensures WeekdayFromDays(z) == (z + 4) % 7
  {
  }

  /** A day later it is the next weekday, and after Saturday Sunday. */
  lemma NextWeekday(z: int)
    ensures 0 <= WeekdayFromDays(z) <= 6
    ensures WeekdayFromDays(z + 1) == if WeekdayFromDays(z) == 6 then 0 else WeekdayFromDays(z) + 1
    ensures WeekdayFromDays(z + 1) == Plus(WeekdayFromDays(z), 1, 0)
  {
    WeekdayIsRemainder(z);
    WeekdayIsRemainder(z + 1);
    NextQuotient(z + 4, 7);
    hide WeekdayFromDays;
  }

  /** The difference of two weekdays is the number of days from one to the next occurrence of the other. */
  lemma DifferenceIsForward(x: int, y: int)
    requires -6 <= x - y <= 6
    ensures Difference(x, y) == if x >= y then x - y else x - y + 7
    ensures Difference(x, y) == (x - y) % 7
  {
    if x >= y {
      DivWord(x - y, 0x1_0000_0000, x - y, 0);
    } else {
      DivWord(x - y, 0x1_0000_0000, x - y + 0x1_0000_0000, -1);
      DivWord(x - y + 0x1_0000_0007, 0x1_0000_0000, x - y + 7, 1);
    }
  }

  /** Adding days agrees with the calendar, in either numbering. */
  lemma PlusIsRemainder(x: int, days: int, first: int)
    ensures Plus(x, days, first) == (x - first + days) % 7 + first
  {
  }

  /** Stepping the weekday of z by any number of days gives the weekday of z + days. */
  lemma PlusDays(z: int, days: int)
    ensures Plus(WeekdayFromDays(z), days, 0) == WeekdayFromDays(z + days)
  {
    WeekdayIsRemainder(z);
    WeekdayIsRemainder(z + days);
    PlusIsRemainder(WeekdayFromDays(z), days, 0);
    var q, r := (z + 4) / 7, (z + 4) % 7;
    var p := (r + days) / 7;
    DivWord(z + days + 4, 7, (r + days) % 7, q + p);
    hide Plus, WeekdayFromDays;
  }

  /** The last day with weekday wd not after z, and the first one not before it. */
  lemma NearestWeekday(z: int, wd: int)
    requires 0 <= wd <= 6
    ensures var back := z - Difference(WeekdayFromDays(z), wd);
            WeekdayFromDays(back) == wd && z - 6 <= back <= z
    ensures var ahead := z + Difference(wd, WeekdayFromDays(z));
            WeekdayFromDays(ahead) == wd && z <= ahead <= z + 6
  {
    hide Plus, WeekdayFromDays, Difference;
    var w := WeekdayFromDays(z);
    NextWeekday(z);
    DifferenceIsForward(w, wd);
    DifferenceIsForward(wd, w);
    var back, ahead := -Difference(w, wd), Difference(wd, w);
    PlusDays(z, back);
    PlusDays(z, ahead);
    PlusIsRemainder(w, back, 0);
    PlusIsRemainder(w, ahead, 0);
    DivWord(w + back, 7, wd, if w >= wd then 0 else -1);
    DivWord(w + ahead, 7, wd, if wd >= w then 0 else 1);
  }

  /** Days with the same weekday are whole weeks apart. */
  lemma SameWeekday(a: int, b: int)
    ensures WeekdayFromDays(a) == WeekdayFromDays(b) <==> (b - a) % 7 == 0
  {
    WeekdayIsRemainder(a);
    WeekdayIsRemainder(b);
    var p, q := (a + 4) / 7, (b + 4) / 7;
    DivWord(b - a, 7, (b - a) % 7, (b - a) / 7);
    if (b - a) % 7 == 0 {
      DivWord(b + 4, 7, (a + 4) % 7, p + (b - a) / 7);
    } else if (a + 4) % 7 == (b + 4) % 7 {
      DivWord(b - a, 7, 0, q - p);
    }
    hide WeekdayFromDays;
  }
}
