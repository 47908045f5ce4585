/** The proleptic Gregorian calendar of date.h: closed forms against stepping day by day. */
module Gregorian {
  import opened Arithmetic
  import opened Weekdays

  datatype Date = Date(year: int, month: int, day: int)

  predicate IsLeap(y: int) {
    TruncMod(y, 4) == 0 && (TruncMod(y, 100) != 0 || TruncMod(y, 400) == 0)
  }

  /** The number of days in a month. */
  function MonthLength(m: int, leap: bool): int
    requires 1 <= m <= 12
  {
    if m == 2 && leap then 29
    else [31, 28, 31, 30, 31, 30, 31, 31, 30, 31, 30, 31][m - 1]
  }

  function LastDay(y: int, m: int): int
    requires 1 <= m <= 12
  {
    MonthLength(m, IsLeap(y))
  }

  predicate Ok(date: Date) {
    1 <= date.month <= 12 && 1 <= date.day <= LastDay(date.year, date.month)
  }

  /** operator<: year, then month, then day. */
  predicate Before(a: Date, b: Date) {
    a.year < b.year
    || (a.year == b.year && (a.month < b.month || (a.month == b.month && a.day < b.day)))
  }

  /** The next page of the calendar on the wall, in a month with this last day. */
  function TurnPage(date: Date, last: int): Date {
    if date.day < last then date.(day := date.day + 1)
    else if date.month < 12 then Date(date.year, date.month + 1, 1)
    else Date(date.year + 1, 1, 1)
  }

  function Next(date: Date): Date
    requires Ok(date)
  {
    TurnPage(date, LastDay(date.year, date.month))
  }

  /** Days since 1970-01-01. */
  function ToDays(date: Date): int {
    var y := date.year - if date.month <= 2 then 1 else 0;
    var era := TruncDiv(if y >= 0 then y else y - 399, 400);
    var yoe := y - era * 400;
    var doy := DayOfYear(date.month, date.day);
    var doe := yoe * 365 + yoe / 4 - yoe / 100 + doy;
    era * 146097 + doe - 719468
  }

  /** The date a number of days after 1970-01-01. */
  function FromDays(days: int): Date {
    var z := days + 719468;
    var era := TruncDiv(if z >= 0 then z else z - 146096, 146097);
    var doe := z - era * 146097;
    var yoe := YearOfEra(doe);
    var y := yoe + era * 400;
    var doy := doe - (365 * yoe + yoe / 4 - yoe / 100);
    var mp := MonthFromMarch(doy);
    var d := doy - (153 * mp + 2) / 5 + 1;
    var m := if mp < 10 then mp + 3 else mp - 9;
    Date(if m <= 2 then y + 1 else y, m, d)
  }

  /** Days since the last first of March. */
  function DayOfYear(m: int, d: int): int {
    (153 * (if m > 2 then m - 3 else m + 9) + 2) / 5 + d - 1
  }

  function YearOfEra(doe: int): int {
    (doe - doe / 1460 + doe / 36524 - doe / 146096) / 365
  }

  function MonthFromMarch(doy: int): int {
    (5 * doy + 2) / 153
  }

  /** Days from the era to the first of March of year y. */
  function MarchFirst(y: int): int {
    365 * y + y / 4 - y / 100 + y / 400
  }

  /** The closed form without eras. */
  lemma ToDaysClosed(date: Date)
    ensures var y := date.year - if date.month <= 2 then 1 else 0;
            ToDays(date) == MarchFirst(y) + DayOfYear(date.month, date.day) - 719468
  {
    var y := date.year - if date.month <= 2 then 1 else 0;
    FloorByShift(y, 400);
    EraYear(y, y / 400, y % 400);
  }

  /** Days up to a year of an era. */
  lemma EraYear(y: int, era: int, yoe: int)
    requires 0 <= yoe < 400 && y == yoe + era * 400
    ensures y / 400 == era && y % 400 == yoe
    ensures MarchFirst(y) == era * 146097 + yoe * 365 + yoe / 4 - yoe / 100
  {
    DivWord(y, 400, yoe, era);
    DivWord(y, 100, yoe % 100, yoe / 100 + 4 * era);
    DivWord(y, 4, yoe % 4, yoe / 4 + 100 * era);
  }

  lemma LeapByRemainder(y: int)
    ensures IsLeap(y) <==> y % 4 == 0 && (y % 100 != 0 || y % 400 == 0)
  {
  }

  lemma YearLength(y: int)
    ensures MarchFirst(y + 1) - MarchFirst(y) == if IsLeap(y + 1) then 366 else 365
  {
    LeapByRemainder(y + 1);
    NextQuotient(y, 4);
    NextQuotient(y, 100);
    NextQuotient(y, 400);
    if (y + 1) % 400 == 0 {
      MultipleOfProduct(y + 1, 100, 4);
    }
    if (y + 1) % 100 == 0 {
      MultipleOfProduct(y + 1, 4, 25);
    }
  }

  /** The naive calendar and the closed form agree on every step, across months, years, centuries and eras. */
  lemma NextDay(date: Date)
    requires Ok(date)
    ensures Ok(Next(date)) && ToDays(Next(date)) == ToDays(date) + 1
  {
    hide ToDays, MarchFirst, IsLeap;
    ToDaysClosed(date);
    ToDaysClosed(Next(date));
    YearLength(date.year - 1);
  }

  lemma Epoch()
    ensures ToDays(Date(1970, 1, 1)) == 0
  {
  }

  /** Days from the start of an era to the start of its year yoe. */
  function EraDays(yoe: int): int {
    yoe * 365 + yoe / 4 - yoe / 100
  }

  /** Within a century, one day in 1460 is set aside and the rest divides into years of 365. */
  lemma YearOfCentury(c: int, s: int, k: int, j: int)
    requires 0 <= c <= 3 && 0 <= s < 36524 && k == (24 * c + s) / 1460 && j == (s - k) / 365
    ensures 0 <= j <= 99 && 365 * j + j / 4 <= s < 365 * (j + 1) + (j + 1) / 4
  {
  }

  lemma YearOfEraSplit(doe: int, c: int, s: int, k: int, j: int)
    requires 0 <= c <= 3 && 0 <= s < 36524 && k == (24 * c + s) / 1460 && j == (s - k) / 365
    requires doe == 36524 * c + s
    ensures YearOfEra(doe) == 100 * c + j
  {
    DivWord(doe, 36524, s, c);
    DivWord(doe, 1460, (24 * c + s) % 1460, 25 * c + k);
    DivWord(doe, 146096, doe, 0);
    DivWord(doe - doe / 1460 + c, 365, (s - k) % 365, 100 * c + j);
  }

  /** The corrected quotient is the year of the era that day doe falls in. */
  lemma YearOfEraCorrect(doe: int)
    requires 0 <= doe < 146097
    ensures var yoe := YearOfEra(doe);
            0 <= yoe <= 399 && EraDays(yoe) <= doe && (doe < EraDays(yoe + 1) || (yoe == 399 && doe == 146096))
  {
    if doe < 146096 {
      var c, s := doe / 36524, doe % 36524;
      var k := (24 * c + s) / 1460;
      var j := (s - k) / 365;
      YearOfEraSplit(doe, c, s, k, j);
      YearOfCentury(c, s, k, j);
      CenturyDays(c, j);
      if j == 99 {
        CenturyDays(c + 1, 0);
      } else {
        CenturyDays(c, j + 1);
      }
      hide EraDays, YearOfEra;
    }
  }

  lemma CenturyDays(c: int, j: int)
    requires 0 <= j <= 99
    ensures EraDays(100 * c + j) == 36524 * c + 365 * j + j / 4
  {
    DivWord(100 * c + j, 4, j % 4, 25 * c + j / 4);
    DivWord(100 * c + j, 100, j, c);
  }

  /** The calendar year, month and day of a day counted from the first of March of year y. */
  function FromMarch(y: int, doy: int): Date {
    var mp := MonthFromMarch(doy);
    var m := if mp < 10 then mp + 3 else mp - 9;
    Date(if m <= 2 then y + 1 else y, m, doy - (153 * mp + 2) / 5 + 1)
  }

  /** A day of a March year is a valid date, and a 366th day is a 29 February. */
  lemma FromMarchCorrect(y: int, doy: int)
    requires 0 <= doy < MarchFirst(y + 1) - MarchFirst(y)
    ensures Ok(FromMarch(y, doy)) && ToDays(FromMarch(y, doy)) == MarchFirst(y) + doy - 719468
  {
    hide MarchFirst, IsLeap, ToDays;
    YearLength(y);
    ToDaysClosed(FromMarch(y, doy));
  }

  lemma EraYearLength(era: int, yoe: int)
    requires 0 <= yoe < 400
    ensures var y := yoe + era * 400;
            && MarchFirst(y) == era * 146097 + EraDays(yoe)
            && MarchFirst(y + 1) - MarchFirst(y) ==
               if yoe == 399 then 366 else EraDays(yoe + 1) - EraDays(yoe)
  {
    hide MarchFirst;
    var y := yoe + era * 400;
    EraYear(y, era, yoe);
    if yoe == 399 {
      EraYear(y + 1, era + 1, 0);
      assert EraDays(399) == 145731;
    } else {
      EraYear(y + 1, era, yoe + 1);
    }
  }

  /** FromDays splits a day number into a March year and a day of it. */
  lemma FromDaysSplit(days: int) returns (y: int, doy: int)
    ensures FromDays(days) == FromMarch(y, doy) && days == MarchFirst(y) + doy - 719468
    ensures 0 <= doy < MarchFirst(y + 1) - MarchFirst(y)
  {
    hide MarchFirst, YearOfEra, EraDays, FromDays, FromMarch, TruncDiv;
    var era, doe := SplitEra(days + 719468);
    var yoe := YearOfEra(doe);
    YearOfEraCorrect(doe);
    EraYearLength(era, yoe);
    assert EraDays(399) == 145731 by { LastYearOfEra(); }
    y, doy := yoe + era * 400, doe - EraDays(yoe);
    FromEra(days, era, doe);
  }

  lemma LastYearOfEra()
    ensures EraDays(399) == 145731
  {
  }

  lemma SplitEra(z: int) returns (era: int, doe: int)
    ensures era == TruncDiv(if z >= 0 then z else z - 146096, 146097)
    ensures z == era * 146097 + doe && 0 <= doe < 146097
  {
    hide TruncDiv;
    FloorByShift(z, 146097);
    era, doe := z / 146097, z % 146097;
  }

  lemma FromEra(days: int, era: int, doe: int)
    requires var z := days + 719468;
             era == TruncDiv(if z >= 0 then z else z - 146096, 146097) && doe == z - era * 146097
    ensures FromDays(days) == FromMarch(YearOfEra(doe) + era * 400, doe - EraDays(YearOfEra(doe)))
  {
    hide YearOfEra, MonthFromMarch, TruncDiv;
  }

  /** Every day number is a valid date, and that date's day number is the number itself. */
  lemma DaysRoundTrip(days: int)
    ensures Ok(FromDays(days)) && ToDays(FromDays(days)) == days
  {
    hide FromDays, FromMarch, ToDays, MarchFirst;
    var y, doy := FromDaysSplit(days);
    FromMarchCorrect(y, doy);
  }

  lemma {:induction false} MarchFirstGrows(y: int, x: int)
    requires y <= x
    ensures MarchFirst(y) + 365 * (x - y) <= MarchFirst(x)
    decreases x - y
  {
    hide MarchFirst;
    if y < x {
      YearLength(y);
      MarchFirstGrows(y + 1, x);
    }
  }

  function JanuaryFirst(y: int): int {
    ToDays(Date(y, 1, 1))
  }

  /** A year runs from its first of January to the day before the next. */
  lemma WithinYear(date: Date)
    requires Ok(date)
    ensures JanuaryFirst(date.year) <= ToDays(date) < JanuaryFirst(date.year + 1)
    ensures JanuaryFirst(date.year + 1) == JanuaryFirst(date.year) + if IsLeap(date.year) then 366 else 365
    ensures ToDays(Date(date.year, 12, 31)) == JanuaryFirst(date.year + 1) - 1
  {
    hide ToDays, MarchFirst, IsLeap;
    ToDaysClosed(date);
    ToDaysClosed(Date(date.year, 1, 1));
    ToDaysClosed(Date(date.year, 12, 31));
    ToDaysClosed(Date(date.year + 1, 1, 1));
    YearLength(date.year - 1);
  }

  lemma YearsInOrder(y: int, x: int)
    requires y <= x
    ensures JanuaryFirst(y) + 365 * (x - y) <= JanuaryFirst(x)
  {
    hide ToDays, MarchFirst;
    ToDaysClosed(Date(y, 1, 1));
    ToDaysClosed(Date(x, 1, 1));
    MarchFirstGrows(y - 1, x - 1);
  }

  lemma LaterDate(a: Date, b: Date)
    requires Ok(a) && Ok(b) && Before(a, b)
    ensures ToDays(a) < ToDays(b)
  {
    hide ToDays, MarchFirst, IsLeap;
    if a.year < b.year {
      hide JanuaryFirst, LastDay;
      WithinYear(a);
      WithinYear(b);
      YearsInOrder(a.year + 1, b.year);
    } else {
      ToDaysClosed(a);
      ToDaysClosed(b);
      YearLength(a.year - 1);
    }
  }

  /** The order of dates is the order of day numbers. */
  lemma Monotone(a: Date, b: Date)
    requires Ok(a) && Ok(b)
    ensures Before(a, b) <==> ToDays(a) < ToDays(b)
  {
    hide ToDays, LastDay;
    if Before(a, b) {
      LaterDate(a, b);
    } else if a != b {
      LaterDate(b, a);
    }
  }

  /** Every valid date comes back from its day number. */
  lemma DateRoundTrip(date: Date)
    requires Ok(date)
    ensures FromDays(ToDays(date)) == date
  {
    hide ToDays, FromDays, LastDay;
    var back := FromDays(ToDays(date));
    DaysRoundTrip(ToDays(date));
    Monotone(back, date);
    Monotone(date, back);
  }

  /** Counting one day on is turning one page of the calendar: dates, weekdays and all. */
  lemma Successor(days: int)
    ensures Ok(FromDays(days)) && FromDays(days + 1) == Next(FromDays(days))
    ensures WeekdayFromDays(days + 1) == (WeekdayFromDays(days) + 1) % 7
  {
    hide ToDays, FromDays, LastDay, Next;
    DaysRoundTrip(days);
    NextDay(FromDays(days));
    DateRoundTrip(Next(FromDays(days)));
    NextWeekday(days);
  }

  /** The ranges the conversions state in comments. */
  lemma CommentedRanges(days: int)
    ensures var z := days + 719468;
            var era := TruncDiv(if z >= 0 then z else z - 146096, 146097);
            var doe := z - era * 146097;
            var yoe := YearOfEra(doe);
            var doy := doe - EraDays(yoe);
            && 0 <= doe <= 146096 && 0 <= yoe <= 399 && 0 <= doy <= 365 && 0 <= MonthFromMarch(doy) <= 11
            && 1 <= FromDays(days).day <= 31 && 1 <= FromDays(days).month <= 12
  {
    hide YearOfEra, EraDays, FromDays, TruncDiv, IsLeap, MarchFirst;
    var era, doe := SplitEra(days + 719468);
    YearOfEraCorrect(doe);
    LastYearOfEra();
    EraYearLength(era, YearOfEra(doe));
    YearLength(YearOfEra(doe) + era * 400);
    DaysRoundTrip(days);
  }

  /** The year of a day number is the one whose January to January it lies in. */
  lemma YearOfDay(days: int, y: int)
    ensures FromDays(days).year == y <==> JanuaryFirst(y) <= days < JanuaryFirst(y + 1)
  {
    hide ToDays, FromDays, LastDay, JanuaryFirst;
    DaysRoundTrip(days);
    var date := FromDays(days);
    WithinYear(date);
    if y < date.year {
      YearsInOrder(y + 1, date.year);
    } else if y > date.year {
      YearsInOrder(date.year + 1, y);
    }
  }
}
