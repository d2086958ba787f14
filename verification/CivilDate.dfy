/** Days and seconds since the epoch as calendar dates and times: src/cache.cc:121-139 and 267-285. */
module CivilDate {
  datatype Date = Date(year: int, month: int, day: int)

  // ----- The Gregorian calendar

  predicate IsLeap(year: int) {
    year % 4 == 0 && (year % 100 != 0 || year % 400 == 0)
  }

  function DaysIn(year: int, month: int): int {
    if month == 2 then if IsLeap(year) then 29 else 28
    else if month == 4 || month == 6 || month == 9 || month == 11 then 30
    else 31
  }

  predicate IsDate(d: Date) {
    1 <= d.month <= 12 && 1 <= d.day <= DaysIn(d.year, d.month)
  }

  function NextDay(d: Date): Date {
    if d.day < DaysIn(d.year, d.month) then d.(day := d.day + 1)
    else if d.month < 12 then Date(d.year, d.month + 1, 1)
    else Date(d.year + 1, 1, 1)
  }

  // ----- The computation

  /** Division as the program's language has it: towards zero. */
  function Quotient(a: int, b: int): int
    requires b > 0
  {
    if a >= 0 then a / b else -((-a) / b)
  }

  function FromDays(daysSinceEpoch: int): Date {
    var days := daysSinceEpoch + 719468;
    var era := Quotient(if days >= 0 then days else days - 146096, 146097);
    FromEra(era, days - era * 146097)
  }

  function FromEra(era: int, dayOfEra: int): Date {
    var yearOfEra :=
      Quotient(
        dayOfEra - Quotient(dayOfEra, 1460) + Quotient(dayOfEra, 36524) - Quotient(dayOfEra, 146096), 365);
    var dayOfYear := dayOfEra - (365 * yearOfEra + Quotient(yearOfEra, 4) - Quotient(yearOfEra, 100));
    FromYear(yearOfEra + era * 400, dayOfYear)
  }

  function FromYear(year: int, dayOfYear: int): Date {
    var monthPrime := Quotient(5 * dayOfYear + 2, 153);
    var day := dayOfYear - Quotient(153 * monthPrime + 2, 5) + 1;
    var month := monthPrime + if monthPrime < 10 then 3 else -9;
    Date(if month <= 2 then year + 1 else year, month, day)
  }

  // ----- Its parts

  /** Eras of 400 years, also before the first. */
  lemma EraOf(days: int)
    ensures Quotient(if days >= 0 then days else days - 146096, 146097) == days / 146097
    ensures 0 <= days - (days / 146097) * 146097 < 146097
  {
  }

  /** Days of the years of an era before the given one; years start in March. */
  function DaysOfYears(y: int): int {
    365 * y + y / 4 - y / 100 + y / 400
  }

  function YearOf(dayOfEra: int): int {
    (dayOfEra - dayOfEra / 1460 + dayOfEra / 36524 - dayOfEra / 146096) / 365
  }

  /** A place in an era: century, four-year cycle, year of it, day of that; only the last of each may be longer. */
  predicate Place(c: int, q: int, y: int, u: int) {
    && 0 <= c < 4 && 0 <= q < 25 && 0 <= y < 4 && 0 <= u < 366
    && (u == 365 ==> y == 3 && (q == 24 ==> c == 3))
  }

  function DayAt(c: int, q: int, y: int, u: int): int {
    36524 * c + 1461 * q + 365 * y + u
  }

  lemma PlaceOf(d: int) returns (c: int, q: int, y: int, u: int)
    requires 0 <= d < 146097
    ensures Place(c, q, y, u) && d == DayAt(c, q, y, u)
  {
    c := if d / 36524 < 4 then d / 36524 else 3;
    var r := d - 36524 * c;
    q := r / 1461;
    var t := r - 1461 * q;
    y := if t / 365 < 4 then t / 365 else 3;
    u := t - 365 * y;
  }

  lemma YearAt(c: int, q: int, y: int, u: int)
    requires Place(c, q, y, u)
    ensures YearOf(DayAt(c, q, y, u)) == 100 * c + 4 * q + y
  {
    var d := DayAt(c, q, y, u);
    var w := 24 * c + q + 365 * y + u;
    assert d == 1460 * (25 * c + q) + w && 0 <= w < 2920;
    var k := if w >= 1460 then 1 else 0;
    assert d / 1460 == 25 * c + q + k;
    assert d / 36524 - d / 146096 == c;
    assert d - d / 1460 + d / 36524 - d / 146096 == 365 * (100 * c + 4 * q + y) + (u - k);
    assert 0 <= u - k < 365;
  }

  lemma DaysBeforeYearAt(c: int, q: int, y: int)
    requires 0 <= c < 4 && 0 <= q < 25 && 0 <= y < 4
    ensures DaysOfYears(100 * c + 4 * q + y) == DayAt(c, q, y, 0)
  {
    assert (100 * c + 4 * q + y) / 4 == 25 * c + q;
    assert (100 * c + 4 * q + y) / 100 == c;
    assert (100 * c + 4 * q + y) / 400 == 0;
  }

  /** The year of the era that a day lies in. */
  lemma YearOfEra(dayOfEra: int)
    requires 0 <= dayOfEra < 146097
    ensures var y := YearOf(dayOfEra);
            0 <= y < 400 && DaysOfYears(y) <= dayOfEra < DaysOfYears(y + 1)
  {
    var c, q, y, u := PlaceOf(dayOfEra);
    YearAt(c, q, y, u);
    DaysBeforeYearAt(c, q, y);
    if y < 3 {
      DaysBeforeYearAt(c, q, y + 1);
    } else if q < 24 {
      DaysBeforeYearAt(c, q + 1, 0);
    } else if c < 3 {
      DaysBeforeYearAt(c + 1, 0, 0);
    }
  }

  /** Days of the months of a year before the given one, from March on. */
  function DaysOfMonths(m: int): int {
    (153 * m + 2) / 5
  }

  lemma MonthOf(dayOfYear: int)
    requires 0 <= dayOfYear < 366
    ensures var m := (5 * dayOfYear + 2) / 153;
            0 <= m < 12 && DaysOfMonths(m) <= dayOfYear < DaysOfMonths(m + 1)
  {
  }

  // ----- Dates as day numbers

  /** A date as the year that starts in March, the month of that year, and the days before the day. */
  function Assemble(marchYear: int, m: int, before: int): Date {
    Date(if m >= 10 then marchYear + 1 else marchYear, if m < 10 then m + 3 else m - 9, before + 1)
  }

  function MarchYear(d: Date): int {
    if d.month <= 2 then d.year - 1 else d.year
  }

  function MarchMonth(d: Date): int {
    if d.month <= 2 then d.month + 9 else d.month - 3
  }

  /** The day number of a date, from the epoch on. */
  function ToDays(d: Date): int {
    DaysOfYears(MarchYear(d)) + DaysOfMonths(MarchMonth(d)) + d.day - 1 - 719468
  }

  lemma YearsOfEras(era: int, y: int)
    ensures DaysOfYears(400 * era + y) == 146097 * era + DaysOfYears(y)
  {
    assert (400 * era + y) / 4 == 100 * era + y / 4;
    assert (400 * era + y) / 100 == 4 * era + y / 100;
    assert (400 * era + y) / 400 == era + y / 400;
  }

  /** A year that starts in March is longer when it runs into a leap year. */
  lemma YearLength(y: int)
    ensures DaysOfYears(y + 1) - DaysOfYears(y) == if IsLeap(y + 1) then 366 else 365
  {
    FloorStep(y, 4);
    FloorStep(y, 100);
    FloorStep(y, 400);
    Divides(y + 1, 25, 4);
    Divides(y + 1, 4, 100);
  }

  lemma FloorStep(y: int, k: int)
    requires k == 4 || k == 100 || k == 400
    ensures (y + 1) / k - y / k == if (y + 1) % k == 0 then 1 else 0
  {
  }

  lemma Divides(y: int, a: int, k: int)
    requires (a == 25 && k == 4) || (a == 4 && k == 100)
    ensures y % (a * k) == 0 ==> y % k == 0
  {
  }

  lemma YearsAscend(a: int, b: int)
    requires a <= b
    ensures DaysOfYears(a) <= DaysOfYears(b)
  {
  }

  lemma FromYearParts(y: int, dayOfYear: int) returns (m: int, before: int)
    requires 0 <= dayOfYear < 366
    ensures FromYear(y, dayOfYear) == Assemble(y, m, before)
    ensures 0 <= m < 12 && 0 <= before < DaysOfMonths(m + 1) - DaysOfMonths(m)
    ensures dayOfYear == DaysOfMonths(m) + before
  {
    MonthOf(dayOfYear);
    m := (5 * dayOfYear + 2) / 153;
    before := dayOfYear - DaysOfMonths(m);
  }

  lemma FromEraIs(era: int, dayOfEra: int)
    requires 0 <= dayOfEra < 146097 && 0 <= YearOf(dayOfEra) < 400
    requires DaysOfYears(YearOf(dayOfEra)) <= dayOfEra
    ensures var y := YearOf(dayOfEra); FromEra(era, dayOfEra) == FromYear(y + era * 400, dayOfEra - DaysOfYears(y))
  {
    var y := YearOf(dayOfEra);
    assert y / 400 == 0;
    assert 0 <= dayOfEra - dayOfEra / 1460;
  }

  lemma FromEraParts(era: int, dayOfEra: int) returns (y: int, dayOfYear: int)
    requires 0 <= dayOfEra < 146097
    ensures FromEra(era, dayOfEra) == FromYear(y, dayOfYear) && 0 <= dayOfYear < 366
    ensures era * 146097 + dayOfEra == DaysOfYears(y) + dayOfYear < DaysOfYears(y + 1)
  {
    YearOfEra(dayOfEra);
    FromEraIs(era, dayOfEra);
    y, dayOfYear := InEra(era, dayOfEra, YearOf(dayOfEra));
  }

  lemma InEra(era: int, dayOfEra: int, yearOfEra: int) returns (y: int, dayOfYear: int)
    requires DaysOfYears(yearOfEra) <= dayOfEra < DaysOfYears(yearOfEra + 1)
    ensures y == yearOfEra + era * 400 && dayOfYear == dayOfEra - DaysOfYears(yearOfEra) && 0 <= dayOfYear < 366
    ensures era * 146097 + dayOfEra == DaysOfYears(y) + dayOfYear < DaysOfYears(y + 1)
  {
    YearsOfEras(era, yearOfEra);
    YearsOfEras(era, yearOfEra + 1);
    YearLength(yearOfEra);
    y, dayOfYear := yearOfEra + era * 400, dayOfEra - DaysOfYears(yearOfEra);
  }

  lemma FromDaysEra(n: int) returns (era: int, dayOfEra: int)
    ensures FromDays(n) == FromEra(era, dayOfEra)
    ensures n + 719468 == era * 146097 + dayOfEra && 0 <= dayOfEra < 146097
  {
    EraOf(n + 719468);
    era := (n + 719468) / 146097;
    dayOfEra := n + 719468 - era * 146097;
  }

  /** The parts of a date computed from a day number. */
  lemma FromDaysParts(n: int) returns (y: int, m: int, before: int)
    ensures FromDays(n) == Assemble(y, m, before)
    ensures 0 <= m < 12 && 0 <= before < DaysOfMonths(m + 1) - DaysOfMonths(m)
    ensures n + 719468 == DaysOfYears(y) + DaysOfMonths(m) + before < DaysOfYears(y + 1)
  {
    var era, dayOfEra := FromDaysEra(n);
    var dayOfYear;
    y, dayOfYear := FromEraParts(era, dayOfEra);
    m, before := FromYearParts(y, dayOfYear);
  }

  /** Months have their usual lengths, except that a year's last is as long as the year lets it. */
  lemma MonthLengths(y: int, m: int)
    requires 0 <= m < 12
    ensures var d := Assemble(y, m, 0);
            DaysIn(d.year, d.month) ==
            if m == 11 then DaysOfYears(y + 1) - DaysOfYears(y) - DaysOfMonths(m)
            else DaysOfMonths(m + 1) - DaysOfMonths(m)
  {
    YearLength(y);
  }

  /** Every day number gives a date of the calendar, whose number it is. */
  lemma FromDaysValid(n: int)
    ensures IsDate(FromDays(n)) && ToDays(FromDays(n)) == n
  {
    var y, m, before := FromDaysParts(n);
    MonthLengths(y, m);
  }

  /** No other date has the same number. */
  lemma ToDaysInjective(a: Date, b: Date)
    requires IsDate(a) && IsDate(b) && ToDays(a) == ToDays(b)
    ensures a == b
  {
    var y, m, before := DateParts(a);
    var y', m', before' := DateParts(b);
    SameYear(y, y', ToDays(a) + 719468);
    SameMonth(m, before, m', before');
  }

  lemma SameYear(x: int, y: int, n: int)
    requires DaysOfYears(x) <= n < DaysOfYears(x + 1) && DaysOfYears(y) <= n < DaysOfYears(y + 1)
    ensures x == y
  {
    if x < y {
      YearsAscend(x + 1, y);
    } else if y < x {
      YearsAscend(y + 1, x);
    }
  }

  lemma SameMonth(x: int, before: int, y: int, beforeY: int)
    requires DaysOfMonths(x) + before == DaysOfMonths(y) + beforeY
    requires 0 <= before < DaysOfMonths(x + 1) - DaysOfMonths(x)
    requires 0 <= beforeY < DaysOfMonths(y + 1) - DaysOfMonths(y)
    ensures x == y
  {
    MonthsAscend(x, y);
    MonthsAscend(y, x);
  }

  lemma MonthsAscend(a: int, b: int)
    ensures a < b ==> DaysOfMonths(a + 1) <= DaysOfMonths(b)
  {
  }

  /** The parts that a date is assembled from; they are in range. */
  lemma DateParts(d: Date) returns (y: int, m: int, before: int)
    requires IsDate(d)
    ensures d == Assemble(y, m, before)
    ensures 0 <= m < 12 && 0 <= before < DaysOfMonths(m + 1) - DaysOfMonths(m)
    ensures DaysOfYears(y) <= DaysOfYears(y) + DaysOfMonths(m) + before == ToDays(d) + 719468 < DaysOfYears(y + 1)
  {
    y, m, before := MarchYear(d), MarchMonth(d), d.day - 1;
    YearLength(y);
    MonthLengths(y, m);
  }

  /** A day number is that of exactly one date, and each date is found from its number. */
  lemma FromDaysInverse(d: Date)
    requires IsDate(d)
    ensures FromDays(ToDays(d)) == d
  {
    FromDaysValid(ToDays(d));
    ToDaysInjective(FromDays(ToDays(d)), d);
  }

  lemma NextDayNumber(d: Date)
    requires IsDate(d)
    ensures IsDate(NextDay(d)) && ToDays(NextDay(d)) == ToDays(d) + 1
  {
    MonthLengths(MarchYear(d), MarchMonth(d));
  }

  /** Consecutive day numbers give consecutive dates. */
  lemma ConsecutiveDates(n: int)
    ensures FromDays(n + 1) == NextDay(FromDays(n))
  {
    FromDaysValid(n);
    ConsecutiveFrom(FromDays(n), n);
  }

  lemma ConsecutiveFrom(d: Date, n: int)
    requires IsDate(d) && ToDays(d) == n
    ensures FromDays(n + 1) == NextDay(d)
  {
    NextDayNumber(d);
    FromDaysInverse(NextDay(d));
  }

  lemma Epoch()
    ensures FromDays(0) == Date(1970, 1, 1)
  {
  }

  // ----- Times

  datatype Time = Time(date: Date, hour: int, minute: int, second: int)

  /** The parts FormatTimestamp prints. */
  function Parts(secondsSinceEpoch: nat): Time {
    TimeOn(FromDays(secondsSinceEpoch / 86400), secondsSinceEpoch % 86400)
  }

  function TimeOn(date: Date, seconds: nat): Time {
    Time(date, seconds / 3600, seconds % 3600 / 60, seconds % 60)
  }

  predicate IsTime(t: Time) {
    IsDate(t.date) && 0 <= t.hour < 24 && 0 <= t.minute < 60 && 0 <= t.second < 60
  }

  function NextSecond(t: Time): Time {
    if t.second < 59 then t.(second := t.second + 1)
    else if t.minute < 59 then t.(minute := t.minute + 1, second := 0)
    else if t.hour < 23 then t.(hour := t.hour + 1, minute := 0, second := 0)
    else Time(NextDay(t.date), 0, 0, 0)
  }

  /** Timestamps print as valid times that advance by the second, across days as well. */
  lemma ConsecutiveTimes(s: nat)
    ensures IsTime(Parts(s)) && Parts(s + 1) == NextSecond(Parts(s))
  {
    var days, seconds := s / 86400, s % 86400;
    var date := FromDays(days);
    assert IsDate(date) by {
      FromDaysValid(days);
    }
    var next := FromDays((s + 1) / 86400);
    assert next == if (s + 1) / 86400 == days then date else NextDay(date) by {
      assert (s + 1) / 86400 == days || (s + 1) / 86400 == days + 1;
      ConsecutiveDates(days);
    }
    TimesOn(date, NextDay(date), days, seconds);
    assert s == 86400 * days + seconds;
  }

  /** The seconds from the epoch to a time. */
  function SecondsTo(t: Time): int {
    86400 * ToDays(t.date) + 3600 * t.hour + 60 * t.minute + t.second
  }

  /** The printed time is the one that many seconds after midnight on 1 January 1970. */
  lemma PartsValue(s: nat)
    ensures IsTime(Parts(s)) && SecondsTo(Parts(s)) == s
    ensures Parts(0) == Time(Date(1970, 1, 1), 0, 0, 0)
  {
    var days, seconds := s / 86400, s % 86400;
    ConsecutiveTimes(s);
    FromDaysValid(days);
    assert seconds == 3600 * (seconds / 3600) + seconds % 3600;
    assert seconds % 3600 == 60 * (seconds % 3600 / 60) + seconds % 60 by {
      MinutesOf(seconds);
    }
    Epoch();
  }

  lemma MinutesOf(seconds: nat)
    ensures seconds % 3600 == 60 * (seconds % 3600 / 60) + seconds % 60
  {
    var r := seconds % 3600;
    assert seconds == 3600 * (seconds / 3600) + r;
    assert seconds % 60 == r % 60;
  }

  lemma TimesOn(date: Date, next: Date, days: nat, seconds: nat)
    requires IsDate(date) && next == NextDay(date) && seconds < 86400
    ensures var s := 86400 * days + seconds;
            && IsTime(TimeOn(date, seconds))
            && TimeOn(if (s + 1) / 86400 == days then date else next, (s + 1) % 86400)
               == NextSecond(TimeOn(date, seconds))
            && days <= (s + 1) / 86400 <= days + 1
  {
    var s := 86400 * days + seconds;
    if seconds < 86399 {
      assert (s + 1) / 86400 == days && (s + 1) % 86400 == seconds + 1;
      ClockTicks(seconds);
    } else {
      assert (s + 1) / 86400 == days + 1 && (s + 1) % 86400 == 0;
    }
  }

  lemma ClockTicks(seconds: nat)
    requires seconds < 86399
    ensures var next := seconds + 1;
            if seconds % 60 < 59 then
              && next % 60 == seconds % 60 + 1 && next % 3600 / 60 == seconds % 3600 / 60
              && next / 3600 == seconds / 3600
            else if seconds % 3600 / 60 < 59 then
              && next % 60 == 0 && next % 3600 / 60 == seconds % 3600 / 60 + 1 && next / 3600 == seconds / 3600
            else next % 60 == 0 && next % 3600 / 60 == 0 && next / 3600 == seconds / 3600 + 1 < 24
  {
    var h, m, sec := seconds / 3600, seconds % 3600 / 60, seconds % 60;
    assert seconds == 3600 * h + 60 * m + sec;
    ClockAt(h, m, sec);
    if sec < 59 {
      ClockAt(h, m, sec + 1);
    } else if m < 59 {
      ClockAt(h, m + 1, 0);
    } else {
      ClockAt(h + 1, 0, 0);
    }
  }

  lemma ClockAt(h: nat, m: nat, sec: nat)
    requires m < 60 && sec < 60
    ensures var s := 3600 * h + 60 * m + sec; s / 3600 == h && s % 3600 / 60 == m && s % 60 == sec
  {
  }
}
