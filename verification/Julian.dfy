/** The Julian calendar of julian.h and its distance from the Gregorian one. */
module Julian {
  import opened Arithmetic
  import G = Gregorian

  type Date = G.Date

  predicate IsLeap(y: int) {
    TruncMod(y, 4) == 0
  }

  function LastDay(y: int, m: int): int
    requires 1 <= m <= 12
  {
    G.MonthLength(m, IsLeap(y))
  }

  predicate Ok(date: Date) {
    1 <= date.month <= 12 && 1 <= date.day <= LastDay(date.year, date.month)
  }

  function Next(date: Date): Date
    requires Ok(date)
  {
    G.TurnPage(date, LastDay(date.year, date.month))
  }

  /** The year that began on the last first of March. */
  function MarchYear(date: Date): int {
    date.year - if date.month <= 2 then 1 else 0
  }

  function ToDays(date: Date): int {
    var y := MarchYear(date);
    var era := TruncDiv(if y >= 0 then y else y - 3, 4);
    var yoe := y - era * 4;
    var doy := G.DayOfYear(date.month, date.day);
    var doe := yoe * 365 + doy;
    era * 1461 + doe - 719470
  }

  function FromDays(days: int): Date {
    var z := days + 719470;
    var era := TruncDiv(if z >= 0 then z else z - 1460, 1461);
    var doe := z - era * 1461;
    var yoe := (doe - doe / 1460) / 365;
    var y := yoe + era * 4;
    var doy := doe - 365 * yoe;
    var mp := G.MonthFromMarch(doy);
    var d := doy - (153 * mp + 2) / 5 + 1;
    var m := if mp < 10 then mp + 3 else mp - 9;
    G.Date(if m <= 2 then y + 1 else y, m, d)
  }

  function MarchFirst(y: int): int {
    365 * y + y / 4
  }

  lemma ToDaysClosed(date: Date)
    ensures ToDays(date) == MarchFirst(MarchYear(date)) + G.DayOfYear(date.month, date.day) - 719470
  {
    FloorByShift(MarchYear(date), 4);
  }

  lemma YearLength(y: int)
    ensures MarchFirst(y + 1) - MarchFirst(y) == if IsLeap(y + 1) then 366 else 365
  {
  }

  /** The naive Julian calendar and the closed form agree on every step. */
  lemma NextDay(date: Date)
    requires Ok(date)
    ensures Ok(Next(date)) && ToDays(Next(date)) == ToDays(date) + 1
  {
    hide ToDays, MarchFirst, IsLeap;
    ToDaysClosed(date);
    ToDaysClosed(Next(date));
    YearLength(date.year - 1);
  }

  lemma SplitDays(days: int) returns (y: int, doy: int)
    ensures FromDays(days) == G.FromMarch(y, doy) && days == MarchFirst(y) + doy - 719470
    ensures 0 <= doy < MarchFirst(y + 1) - MarchFirst(y)
  {
    hide TruncDiv, G.MonthFromMarch;
    var z := days + 719470;
    FloorByShift(z, 1461);
    var era, doe := z / 1461, z % 1461;
    var yoe := (doe - doe / 1460) / 365;
    y, doy := yoe + era * 4, doe - 365 * yoe;
    DivWord(y, 4, yoe, era);
    DivWord(y + 1, 4, if yoe == 3 then 0 else yoe + 1, if yoe == 3 then era + 1 else era);
  }

  lemma FromMarchCorrect(y: int, doy: int)
    requires 0 <= doy < MarchFirst(y + 1) - MarchFirst(y)
    ensures Ok(G.FromMarch(y, doy)) && ToDays(G.FromMarch(y, doy)) == MarchFirst(y) + doy - 719470
  {
    hide MarchFirst, IsLeap, ToDays;
    YearLength(y);
    ToDaysClosed(G.FromMarch(y, doy));
  }

  /** Every day number is a valid Julian date, and that date's day number is the number itself. */
  lemma DaysRoundTrip(days: int)
    ensures Ok(FromDays(days)) && ToDays(FromDays(days)) == days
  {
    hide FromDays, G.FromMarch, ToDays, MarchFirst;
    var y, doy := SplitDays(days);
    FromMarchCorrect(y, doy);
  }

  lemma {:induction false} MarchFirstGrows(y: int, x: int)
    requires y <= x
    ensures MarchFirst(y) + 365 * (x - y) <= MarchFirst(x)
    decreases x - y
  {
    hide MarchFirst;
    if y < x {
      YearLength(y);
      MarchFirstGrows(y + 1, x);
    }
  }

  lemma LaterDate(a: Date, b: Date)
    requires Ok(a) && Ok(b) && G.Before(a, b)
    ensures ToDays(a) < ToDays(b)
  {
    hide ToDays, MarchFirst, IsLeap;
    ToDaysClosed(a);
    ToDaysClosed(b);
    YearLength(a.year - 1);
    YearLength(b.year - 1);
    if a.year < b.year {
      MarchFirstGrows(a.year, b.year - 1);
    }
  }

  /** The order of dates is the order of day numbers. */
  lemma Monotone(a: Date, b: Date)
    requires Ok(a) && Ok(b)
    ensures G.Before(a, b) <==> ToDays(a) < ToDays(b)
  {
    hide ToDays, LastDay;
    if G.Before(a, b) {
      LaterDate(a, b);
    } else if a != b {
      LaterDate(b, a);
    }
  }

  /** Every valid Julian date comes back from its day number. */
  lemma DateRoundTrip(date: Date)
    requires Ok(date)
    ensures FromDays(ToDays(date)) == date
  {
    hide ToDays, FromDays, LastDay;
    var back := FromDays(ToDays(date));
    DaysRoundTrip(ToDays(date));
    Monotone(back, date);
    Monotone(date, back);
  }

  /** For the same year, month and day the calendars drift apart by the century years that are not leap. */
  lemma CalendarOffset(date: Date)
    ensures ToDays(date) - G.ToDays(date) == MarchYear(date) / 100 - MarchYear(date) / 400 - 2
  {
    hide ToDays, G.ToDays;
    ToDaysClosed(date);
    G.ToDaysClosed(date);
  }
}
