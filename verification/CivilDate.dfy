/**
 * Civil-date arithmetic of the calendar parser: days since 1970-01-01 in the
 * proleptic Gregorian calendar, in both directions, over all integers.
 */
module CivilDate {
  import opened CArith

  datatype Date = Date(y: int, m: int, d: int)

  predicate LeapYear(y: int) {
    (y % 4 == 0 && y % 100 != 0) || y % 400 == 0
  }

  function DaysInMonth(y: int, m: int): (n: int)
    requires 1 <= m <= 12
    ensures 28 <= n <= 31
  {
    if m == 2 && LeapYear(y) then 29
    else [31, 28, 31, 30, 31, 30, 31, 31, 30, 31, 30, 31][m - 1]
  }

  predicate ValidDate(c: Date) {
    1 <= c.m <= 12 && 1 <= c.d <= DaysInMonth(c.y, c.m)
  }

  /** The next day, by the calendar's own rules: what the day numbers have to follow. */
  function NextDate(c: Date): (n: Date)
    requires ValidDate(c)
    ensures ValidDate(n)
  {
    if c.d < DaysInMonth(c.y, c.m) then Date(c.y, c.m, c.d + 1)
    else if c.m < 12 then Date(c.y, c.m + 1, 1)
    else Date(c.y + 1, 1, 1)
  }

  // Years start in March here, so the leap day is the last day of a year.
  function MarchYear(y: int, m: int): int {
    if m <= 2 then y - 1 else y
  }

  function MarchMonth(m: int): int {
    m + (if m > 2 then -3 else 9)
  }

  function MonthStart(mp: int): int {
    (153 * mp + 2) / 5
  }

  function YearStart(yoe: int): int {
    yoe * 365 + yoe / 4 - yoe / 100
  }

  function DaysFromCivil(y: int, m: int, d: int): int
    requires 1 <= m <= 12
  {
    var my := MarchYear(y, m);
    var era := TruncDiv(if my >= 0 then my else my - 399, 400);
    var yoe := my - era * 400;
    var doy := MonthStart(MarchMonth(m)) + d - 1;
    var doe := YearStart(yoe) + doy;
    era * 146097 + doe - 719468
  }

  function YearOfEra(doe: int): int {
    (doe - doe / 1460 + doe / 36524 - doe / 146096) / 365
  }

  function CivilFromDays(dayNum: int): Date {
    var z := dayNum + 719468;
    var era := TruncDiv(if z >= 0 then z else z - 146096, 146097);
    var doe := z - era * 146097;
    var yoe := YearOfEra(doe);
    DateOfYear(yoe + era * 400, doe - YearStart(yoe))
  }

  function DateOfYear(yr: int, doy: int): Date {
    var mp := (5 * doy + 2) / 153;
    var d := doy - MonthStart(mp) + 1;
    var m := mp + (if mp < 10 then 3 else -9);
    Date(if m <= 2 then yr + 1 else yr, m, d)
  }

  // ----- The era, the year of the era, the month of the year -----

  lemma EraIsFloor(y: int, k: int)
    requires k > 0
    ensures TruncDiv(if y >= 0 then y else y - (k - 1), k) == y / k
  {
    if y < 0 {
      var q, r := y / k, y % k;
      assert -(y - (k - 1)) == (-q) * k + (k - 1 - r);
      DivUnique(-(y - (k - 1)), k, -q, k - 1 - r);
    }
  }

  // Whether the March-based year ends in a February with 29 days.
  predicate LongYear(yoe: int) {
    yoe % 4 == 3 && (yoe % 100 != 99 || yoe == 399)
  }

  function YearLength(yoe: int): int {
    if LongYear(yoe) then 366 else 365
  }

  lemma YearOfEraInverts(yoe: int, doy: int)
    requires 0 <= yoe < 400 && 0 <= doy < YearLength(yoe)
    ensures 0 <= YearStart(yoe) + doy < 146097
    ensures YearOfEra(YearStart(yoe) + doy) == yoe
  {
    var c, r := yoe / 100, yoe % 100;
    var q, s := r / 4, r % 4;
    assert yoe == 100 * c + 4 * q + s;
    DivUnique(yoe, 4, 25 * c + q, s);
    CenturyYearOfEra(c, q, s, doy);
    CenturyYearStart(c, q, s);
  }

  // The same in centuries, leap cycles and years of the cycle.
  lemma CenturyYearStart(c: int, q: int, s: int)
    requires 0 <= c < 4 && 0 <= q < 25 && 0 <= s < 4
    ensures YearStart(100 * c + 4 * q + s) == 36524 * c + 1461 * q + 365 * s
  {
    DivUnique(100 * c + 4 * q + s, 4, 25 * c + q, s);
    DivUnique(100 * c + 4 * q + s, 100, c, 4 * q + s);
  }

  lemma CenturyYearOfEra(c: int, q: int, s: int, doy: int)
    requires 0 <= c < 4 && 0 <= q < 25 && 0 <= s < 4
    requires 0 <= doy < (if s == 3 && (q < 24 || c == 3) then 366 else 365)
    ensures 0 <= 36524 * c + 1461 * q + 365 * s + doy < 146097
    ensures YearOfEra(36524 * c + 1461 * q + 365 * s + doy) == 100 * c + 4 * q + s
  {
    var doe := 36524 * c + 1461 * q + 365 * s + doy;
    var r1460 := 24 * c + q + 365 * s + doy;
    var e := if r1460 >= 1460 then 1 else 0;
    DivUnique(doe, 1460, 25 * c + q + e, r1460 - 1460 * e);
    var r36524 := 1461 * q + 365 * s + doy;
    var f := if r36524 == 36524 then 1 else 0;
    DivUnique(doe, 36524, c + f, r36524 - 36524 * f);
    DivUnique(doe, 146096, f, doe - 146096 * f);
    DivUnique(doe - doe / 1460 + doe / 36524 - doe / 146096, 365, 100 * c + 4 * q + s, doy - e);
  }

  lemma YearStartStep(yoe: int)
    requires 0 <= yoe < 399
    ensures YearStart(yoe + 1) == YearStart(yoe) + YearLength(yoe)
  {
  }

  // Every day of the 400-year era lies in exactly one year.
  lemma YearExists(doe: int, hi: int) returns (yoe: int)
    requires 0 <= hi < 400
    requires 0 <= doe < YearStart(hi) + YearLength(hi)
    ensures 0 <= yoe <= hi && YearStart(yoe) <= doe < YearStart(yoe) + YearLength(yoe)
    decreases hi
  {
    if YearStart(hi) <= doe {
      yoe := hi;
    } else {
      YearStartStep(hi - 1);
      yoe := YearExists(doe, hi - 1);
    }
  }

  function MarchMonthLength(mp: int): int
    requires 0 <= mp < 12
  {
    [31, 30, 31, 30, 31, 31, 30, 31, 30, 31, 31, 29][mp]
  }

  lemma MonthOfYear(mp: int, d: int)
    requires 0 <= mp < 12 && 1 <= d <= MarchMonthLength(mp)
    ensures var doy := MonthStart(mp) + d - 1;
            (5 * doy + 2) / 153 == mp && 0 <= doy < 366 && (doy == 365 <==> mp == 11 && d == 29)
  {
  }

  lemma MonthOfYearRange(doy: int)
    requires 0 <= doy < 366
    ensures var mp := (5 * doy + 2) / 153;
            0 <= mp < 12 && 1 <= doy - MonthStart(mp) + 1 <= MarchMonthLength(mp)
  {
    var mp := (5 * doy + 2) / 153;
    assert mp in {0, 1, 2, 3, 4, 5, 6, 7, 8, 9, 10, 11};
  }

  lemma LongYearIsLeap(era: int, yoe: int)
    requires 0 <= yoe < 400
    ensures LongYear(yoe) <==> LeapYear(era * 400 + yoe + 1)
  {
    var y := era * 400 + yoe + 1;
    var r := yoe + 1;
    DivUnique(y, 4, era * 100 + r / 4, r % 4);
    DivUnique(y, 100, era * 4 + r / 100, r % 100);
    if r < 400 {
      DivUnique(y, 400, era, r);
    } else {
      DivUnique(y, 400, era + 1, 0);
    }
  }

  // A valid date in the March-based coordinates both directions work in.
  lemma MarchCoordinates(c: Date)
    requires ValidDate(c)
    ensures var my, mp := MarchYear(c.y, c.m), MarchMonth(c.m);
            var era, yoe, doy := my / 400, my % 400, MonthStart(mp) + c.d - 1;
            && 0 <= mp < 12 && 1 <= c.d <= MarchMonthLength(mp)
            && 0 <= doy < YearLength(yoe)
            && DaysFromCivil(c.y, c.m, c.d) == era * 146097 + YearStart(yoe) + doy - 719468
  {
    var my, mp := MarchYear(c.y, c.m), MarchMonth(c.m);
    EraIsFloor(my, 400);
    assert my == (my / 400) * 400 + my % 400;
    LongYearIsLeap(my / 400, my % 400);
    MonthOfYear(mp, c.d);
  }

  lemma DateOfYearInverts(c: Date)
    requires ValidDate(c)
    ensures DateOfYear(MarchYear(c.y, c.m), MonthStart(MarchMonth(c.m)) + c.d - 1) == c
  {
    MonthOfYear(MarchMonth(c.m), c.d);
  }

  lemma FromEra(z: int, era: int, yoe: int, doy: int)
    requires 0 <= yoe < 400 && 0 <= doy < YearLength(yoe)
    requires z + 719468 == era * 146097 + YearStart(yoe) + doy
    ensures CivilFromDays(z) == DateOfYear(yoe + era * 400, doy)
  {
    hide YearOfEra, YearStart, TruncDiv, YearLength, DateOfYear;
    YearOfEraInverts(yoe, doy);
    EraIsFloor(z + 719468, 146097);
    DivUnique(z + 719468, 146097, era, YearStart(yoe) + doy);
  }

  /** Converting a valid date to its day number and back gives the date. */
  lemma RoundTripDate(c: Date)
    requires ValidDate(c)
    ensures CivilFromDays(DaysFromCivil(c.y, c.m, c.d)) == c
  {
    hide CivilFromDays, DaysFromCivil, YearStart, YearLength, DateOfYear;
    MarchCoordinates(c);
    DateOfYearInverts(c);
    var my := MarchYear(c.y, c.m);
    FromEra(DaysFromCivil(c.y, c.m, c.d), my / 400, my % 400, MonthStart(MarchMonth(c.m)) + c.d - 1);
  }

  lemma EraOfDay(z: int) returns (era: int, yoe: int, doy: int)
    ensures 0 <= yoe < 400 && 0 <= doy < YearLength(yoe)
    ensures z + 719468 == era * 146097 + YearStart(yoe) + doy
  {
    var doe;
    era, doe := (z + 719468) / 146097, (z + 719468) % 146097;
    yoe := YearExists(doe, 399);
    doy := doe - YearStart(yoe);
  }

  lemma DateOfYearValid(era: int, yoe: int, doy: int)
    requires 0 <= yoe < 400 && 0 <= doy < YearLength(yoe)
    ensures var c := DateOfYear(yoe + era * 400, doy);
            && ValidDate(c)
            && MarchYear(c.y, c.m) == yoe + era * 400
            && MonthStart(MarchMonth(c.m)) + c.d - 1 == doy
  {
    MonthOfYearRange(doy);
    LongYearIsLeap(era, yoe);
    var c := DateOfYear(yoe + era * 400, doy);
    MonthOfYear(MarchMonth(c.m), c.d);
  }

  /** Every integer is the day number of one valid date, the one the inverse computes. */
  lemma RoundTripDays(z: int)
    ensures var c := CivilFromDays(z); ValidDate(c) && DaysFromCivil(c.y, c.m, c.d) == z
  {
    hide CivilFromDays, DaysFromCivil, YearStart, YearLength, DateOfYear;
    var era, yoe, doy := EraOfDay(z);
    FromEra(z, era, yoe, doy);
    DateOfYearValid(era, yoe, doy);
    DivUnique(yoe + era * 400, 400, era, yoe);
    MarchCoordinates(DateOfYear(yoe + era * 400, doy));
  }

  lemma EpochDayNumber()
    ensures DaysFromCivil(1970, 1, 1) == 0
  {
  }

  /** Day 0 is 1 January 1970. */
  lemma EpochDay()
    ensures CivilFromDays(0) == Date(1970, 1, 1)
  {
    hide CivilFromDays, DaysFromCivil;
    EpochDayNumber();
    RoundTripDate(Date(1970, 1, 1));
  }

  lemma MarchFirst(y: int, m: int)
    requires 1 <= m <= 12
    ensures var my, mp := MarchYear(y, m), MarchMonth(m);
            DaysFromCivil(y, m, 1) == (my / 400) * 146097 + YearStart(my % 400) + MonthStart(mp) - 719468
  {
    EraIsFloor(MarchYear(y, m), 400);
  }

  lemma FebruaryLength(y: int)
    ensures DaysFromCivil(y, 3, 1) - DaysFromCivil(y, 2, 1) == DaysInMonth(y, 2)
  {
    hide DaysFromCivil, YearStart;
    MarchFirst(y, 2);
    MarchFirst(y, 3);
    var era, yoe := (y - 1) / 400, (y - 1) % 400;
    LongYearIsLeap(era, yoe);
    assert era * 400 + yoe + 1 == y;
    if yoe < 399 {
      DivUnique(y, 400, era, yoe + 1);
      YearStartStep(yoe);
    } else {
      DivUnique(y, 400, era + 1, 0);
      CenturyYearStart(3, 24, 3);
      CenturyYearStart(0, 0, 0);
    }
  }

  /** A month is as long as the distance between consecutive first days. */
  lemma MonthLength(y: int, m: int)
    requires 1 <= m <= 12
    ensures var next := NextDate(Date(y, m, DaysInMonth(y, m)));
            DaysFromCivil(next.y, next.m, 1) - DaysFromCivil(y, m, 1) == DaysInMonth(y, m)
  {
    hide DaysFromCivil, YearStart;
    if m == 2 {
      FebruaryLength(y);
    } else {
      MarchFirst(y, m);
      if m < 12 {
        MarchFirst(y, m + 1);
      } else {
        MarchFirst(y + 1, 1);
      }
    }
  }

  /** The day number of the following date is the next day number. */
  lemma NextDateIsNextDay(c: Date)
    requires ValidDate(c)
    ensures var n := NextDate(c); DaysFromCivil(n.y, n.m, n.d) == DaysFromCivil(c.y, c.m, c.d) + 1
  {
    if c.d == DaysInMonth(c.y, c.m) {
      MonthLength(c.y, c.m);
    }
  }

  /** Stepping the day number by one steps to the next calendar date. */
  lemma NextDayIsNextDate(z: int)
    ensures ValidDate(CivilFromDays(z))
    ensures CivilFromDays(z + 1) == NextDate(CivilFromDays(z))
  {
    hide CivilFromDays, DaysFromCivil;
    RoundTripDays(z);
    NextDateIsNextDay(CivilFromDays(z));
    RoundTripDate(NextDate(CivilFromDays(z)));
  }

  // ----- Months counted from year 0 -----

  function MonthIndex(y: int, m: int): int {
    12 * y + m - 1
  }

  /** First days of months are at least 28 days apart, in calendar order. */
  lemma {:induction false} FirstDayIncreases(y: int, m: int, y': int, m': int)
    requires 1 <= m <= 12 && 1 <= m' <= 12
    requires MonthIndex(y, m) < MonthIndex(y', m')
    ensures DaysFromCivil(y, m, 1) + DaysInMonth(y, m) <= DaysFromCivil(y', m', 1)
    decreases MonthIndex(y', m') - MonthIndex(y, m)
  {
    hide DaysFromCivil;
    MonthLength(y, m);
    var next := NextDate(Date(y, m, DaysInMonth(y, m)));
    hide DaysInMonth;
    if MonthIndex(next.y, next.m) == MonthIndex(y', m') {
      assert next.y == y' && next.m == m';
    } else {
      FirstDayIncreases(next.y, next.m, y', m');
    }
  }
}
