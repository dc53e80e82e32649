/**
 * Weekdays inside a month: the yearly daylight-saving transitions of a VTIMEZONE
 * and the ordinal weekdays of a monthly rule, against plain counting of days.
 */
module Weekdays {
  import opened CArith
  import opened CivilDate

  /** Monday-based weekday (0 = Monday) of a day number. */
  function WeekdayOf(dayNum: int): int {
    TruncMod(TruncMod(dayNum, 7) + 7 + 3, 7)
  }

  lemma WeekdayIsMod(dayNum: int)
    ensures WeekdayOf(dayNum) == (dayNum + 3) % 7
  {
    TruncModRange(dayNum, 7);
    var q := TruncDiv(dayNum, 7);
    DivUnique(dayNum + 3, 7, q - 1 + (TruncMod(dayNum, 7) + 10) / 7, (TruncMod(dayNum, 7) + 10) % 7);
  }

  /** Weekdays follow one another, and 1 January 1970 was a Thursday. */
  lemma WeekdaysFollow(dayNum: int)
    ensures 0 <= WeekdayOf(dayNum) < 7
    ensures WeekdayOf(dayNum + 1) == if WeekdayOf(dayNum) == 6 then 0 else WeekdayOf(dayNum) + 1
    ensures WeekdayOf(0) == 3
  {
    hide WeekdayOf;
    WeekdayIsMod(dayNum);
    WeekdayIsMod(dayNum + 1);
    WeekdayIsMod(0);
  }

  /** How many of the n days from day number first on fall on the weekday. */
  function CountWeekday(first: int, n: nat, wday: int): nat {
    if n == 0 then 0
    else CountWeekday(first, n - 1, wday) + (if WeekdayOf(first + n - 1) == wday then 1 else 0)
  }

  // Days from first to the next such weekday, as both formulas write it.
  function Ahead(from: int, wday: int): int {
    TruncMod(wday - from + 7, 7)
  }

  lemma AheadRange(from: int, wday: int)
    requires 0 <= from < 7 && 0 <= wday < 7
    ensures 0 <= Ahead(from, wday) < 7
    ensures Ahead(from, wday) == (if wday >= from then wday - from else wday - from + 7)
  {
  }

  lemma WeekdayAfter(first: int, i: nat)
    ensures WeekdayOf(first + i) == (WeekdayOf(first) + i) % 7
  {
    hide WeekdayOf;
    WeekdayIsMod(first);
    WeekdayIsMod(first + i);
    DivUnique((first + 3) % 7 + i, 7, (first + 3 + i) / 7 - (first + 3) / 7, (first + 3 + i) % 7);
  }

  // The days of that weekday are first + a, first + a + 7, and so on.
  lemma WeekdayHits(first: int, i: nat, wday: int)
    requires 0 <= wday < 7
    ensures var a := Ahead(WeekdayOf(first), wday);
            0 <= a < 7 && (WeekdayOf(first + i) == wday <==> i % 7 == a)
  {
    hide WeekdayOf, Ahead;
    WeekdayIsMod(first);
    WeekdayAfter(first, i);
    AheadRange(WeekdayOf(first), wday);
  }

  lemma {:induction false} CountClosedForm(first: int, n: nat, wday: int)
    requires 0 <= wday < 7
    ensures var a := Ahead(WeekdayOf(first), wday);
            CountWeekday(first, n, wday) == if n <= a then 0 else (n - 1 - a) / 7 + 1
  {
    hide WeekdayOf, Ahead;
    AheadInRange(first, wday);
    if n > 0 {
      CountClosedForm(first, n - 1, wday);
      WeekdayHits(first, n - 1, wday);
    }
  }

  lemma AheadInRange(first: int, wday: int)
    requires 0 <= wday < 7
    ensures 0 <= Ahead(WeekdayOf(first), wday) < 7
  {
    WeekdaysFollow(first);
    AheadRange(WeekdayOf(first), wday);
  }

  // ----- Ordinal weekdays of a month -----

  function FirstDay(y: int, m: int): int
    requires 1 <= m <= 12
  {
    DaysFromCivil(y, m, 1)
  }

  /** How many days of the month up to and including the given day fall on the weekday. */
  function CountInMonth(y: int, m: int, day: nat, wday: int): nat
    requires 1 <= m <= 12
  {
    CountWeekday(FirstDay(y, m), day, wday)
  }

  /** The day is in the month, falls on the weekday and is the k-th to do so. */
  predicate IsNthWeekday(y: int, m: int, day: int, wday: int, k: int)
    requires 1 <= m <= 12
  {
    && 1 <= day <= DaysInMonth(y, m)
    && WeekdayOf(FirstDay(y, m) + day - 1) == wday
    && CountInMonth(y, m, day, wday) == k
  }

  function HowMany(y: int, m: int, wday: int): nat
    requires 1 <= m <= 12
  {
    CountInMonth(y, m, DaysInMonth(y, m), wday)
  }

  lemma HowManyBounds(y: int, m: int, wday: int)
    requires 1 <= m <= 12 && 0 <= wday < 7
    ensures 4 <= HowMany(y, m, wday) <= 5
  {
    hide Ahead, WeekdayOf, FirstDay;
    CountClosedForm(FirstDay(y, m), DaysInMonth(y, m), wday);
    AheadInRange(FirstDay(y, m), wday);
  }

  // Which ordinal a day of the weekday has.
  lemma OrdinalOf(first: int, dim: int, day: int, wday: int, k: int)
    requires 0 <= wday < 7 && 28 <= dim <= 31
    requires day == 1 + Ahead(WeekdayOf(first), wday) + (k - 1) * 7
    ensures 1 <= day <= dim <==> 1 <= k <= CountWeekday(first, dim, wday)
    ensures day > dim <==> k > CountWeekday(first, dim, wday)
    ensures 1 <= day <= dim ==> WeekdayOf(first + day - 1) == wday && CountWeekday(first, day, wday) == k
  {
    hide Ahead, WeekdayOf, CountWeekday;
    AheadInRange(first, wday);
    var a := Ahead(WeekdayOf(first), wday);
    CountClosedForm(first, dim, wday);
    if 1 <= day <= dim {
      CountClosedForm(first, day, wday);
      WeekdayHits(first, day - 1, wday);
      DivUnique(day - 1, 7, k - 1, a);
      DivUnique(day - 1 - a, 7, k - 1, 0);
    }
  }

  /** The day of a monthly BYDAY rule: the ord-th weekday, counted from the end when negative. */
  function MonthlyDay(y: int, m: int, wday: int, byOrd: int): int
    requires 1 <= m <= 12
  {
    var firstWd := WeekdayOf(FirstDay(y, m));
    var dim := DaysInMonth(y, m);
    if byOrd >= 0 then
      var ord := if byOrd > 0 then byOrd else 1;
      1 + Ahead(firstWd, wday) + (ord - 1) * 7
    else
      var lastWd := TruncMod(firstWd + dim - 1, 7);
      dim - Ahead(wday, lastWd) + (byOrd + 1) * 7
  }

  /** Counting forward: the k-th such weekday, outside the month exactly when there are fewer. */
  lemma MonthlyDayFromStart(y: int, m: int, wday: int, k: int)
    requires 1 <= m <= 12 && 0 <= wday < 7 && k > 0
    ensures var day := MonthlyDay(y, m, wday, k);
            && (k <= HowMany(y, m, wday) ==> IsNthWeekday(y, m, day, wday, k))
            && (k > HowMany(y, m, wday) ==> day > DaysInMonth(y, m))
  {
    hide Ahead, WeekdayOf, FirstDay, CountWeekday, DaysInMonth;
    OrdinalOf(FirstDay(y, m), DaysInMonth(y, m), MonthlyDay(y, m, wday, k), wday, k);
  }

  // The last such weekday is the one after which no 7 days are left.
  lemma LastWeekdayDay(first: int, dim: int, wday: int)
    requires 0 <= wday < 7 && 28 <= dim <= 31
    ensures dim - Ahead(wday, TruncMod(WeekdayOf(first) + dim - 1, 7))
         == 1 + Ahead(WeekdayOf(first), wday) + (CountWeekday(first, dim, wday) - 1) * 7
  {
    hide WeekdayOf, CountWeekday, TruncMod;
    CountClosedForm(first, dim, wday);
    WeekdaysFollow(first);
    LastWeekdayArithmetic(WeekdayOf(first), dim, wday);
  }

  lemma LastWeekdayArithmetic(w: int, dim: int, wday: int)
    requires 0 <= w < 7 && 0 <= wday < 7 && 28 <= dim <= 31
    ensures var a, b := Ahead(w, wday), Ahead(wday, TruncMod(w + dim - 1, 7));
            0 <= a < 7 && 0 <= b < 7 && dim - 1 - a == 7 * ((dim - 1 - a) / 7) + b
  {
    hide Ahead, TruncMod, TruncDiv;
    var n := w + dim - 1;
    TruncNonNegative(n, 7);
    var q, last := n / 7, n % 7;
    assert n == 7 * q + last;
    AheadRange(w, wday);
    AheadRange(wday, last);
    AheadDivides(w, dim, wday, q, last, Ahead(w, wday), Ahead(wday, last));
  }

  // The two comparisons shift the quotient by a week each.
  lemma AheadDivides(w: int, dim: int, wday: int, q: int, last: int, a: int, b: int)
    requires w + dim - 1 == 7 * q + last
    requires 0 <= a < 7 && a == (if wday >= w then wday - w else wday - w + 7)
    requires 0 <= b < 7 && b == (if last >= wday then last - wday else last - wday + 7)
    ensures dim - 1 - a == 7 * ((dim - 1 - a) / 7) + b
  {
    var k := q - (if wday >= w then 0 else 1) - (if last >= wday then 0 else 1);
    DivUnique(dim - 1 - a, 7, k, b);
  }

  /** Counting backward: the k-th such weekday from the end, before the month exactly when there are fewer. */
  lemma MonthlyDayFromEnd(y: int, m: int, wday: int, k: int)
    requires 1 <= m <= 12 && 0 <= wday < 7 && k > 0
    ensures var day := MonthlyDay(y, m, wday, -k);
            && (k <= HowMany(y, m, wday) ==> IsNthWeekday(y, m, day, wday, HowMany(y, m, wday) + 1 - k))
            && (k > HowMany(y, m, wday) ==> day < 1)
  {
    hide Ahead, WeekdayOf, FirstDay, CountWeekday, DaysInMonth, TruncMod;
    var first, dim := FirstDay(y, m), DaysInMonth(y, m);
    LastWeekdayDay(first, dim, wday);
    OrdinalOf(first, dim, MonthlyDay(y, m, wday, -k), wday, HowMany(y, m, wday) + 1 - k);
  }

  // ----- Daylight-saving transitions -----

  function ClampToMonth(day: int, dim: int): (r: int)
    requires dim >= 7
    ensures r <= dim
    decreases day
  {
    if day > dim then ClampToMonth(day - 7, dim) else day
  }

  function Min(a: int, b: int): int {
    if a <= b then a else b
  }

  lemma {:induction false} ClampCount(first: int, dim: int, wday: int, k: int)
    requires 0 <= wday < 7 && 28 <= dim <= 31 && k >= 1
    ensures ClampToMonth(1 + Ahead(WeekdayOf(first), wday) + (k - 1) * 7, dim)
         == 1 + Ahead(WeekdayOf(first), wday) + (Min(k, CountWeekday(first, dim, wday)) - 1) * 7
    decreases k
  {
    hide Ahead, WeekdayOf, CountWeekday;
    var day := 1 + Ahead(WeekdayOf(first), wday) + (k - 1) * 7;
    OrdinalOf(first, dim, day, wday, k);
    if day > dim {
      AheadInRange(first, wday);
      ClampCount(first, dim, wday, k - 1);
      OrdinalOf(first, dim, day - 7, wday, k - 1);
    }
  }

  /** Day number of a transition: the week-th such weekday of the month, or the last one. */
  function TransitionDayNum(y: int, m: int, week: int, wday: int): int
    requires 1 <= m <= 12
  {
    var first := FirstDay(y, m);
    var firstWd := WeekdayOf(first);
    var dim := DaysInMonth(y, m);
    if week > 0 then
      first + ClampToMonth(1 + Ahead(firstWd, wday) + (week - 1) * 7, dim) - 1
    else
      first + (dim - Ahead(wday, TruncMod(firstWd + dim - 1, 7))) - 1
  }

  /** A transition stays in its month and is the week-th such weekday or, failing that, the last. */
  lemma TransitionIsNthOrLast(y: int, m: int, week: int, wday: int)
    requires 1 <= m <= 12 && 0 <= wday < 7
    ensures var day := TransitionDayNum(y, m, week, wday) - FirstDay(y, m) + 1;
            var total := HowMany(y, m, wday);
            IsNthWeekday(y, m, day, wday, if 0 < week <= total then week else total)
  {
    hide Ahead, WeekdayOf, FirstDay, CountWeekday, DaysInMonth, TruncMod;
    var first, dim, total := FirstDay(y, m), DaysInMonth(y, m), HowMany(y, m, wday);
    var k := if 0 < week <= total then week else total;
    HowManyBounds(y, m, wday);
    if week > 0 {
      ClampCount(first, dim, wday, week);
    } else {
      LastWeekdayDay(first, dim, wday);
    }
    OrdinalOf(first, dim, TransitionDayNum(y, m, week, wday) - first + 1, wday, k);
  }

  /** The transition as the parser computes it: step back by weeks until the day exists. */
  method ComputeTransitionDayNum(y: int, m: int, week: int, wday: int) returns (r: int)
    requires 1 <= m <= 12 && 0 <= wday < 7
    ensures r == TransitionDayNum(y, m, week, wday)
    ensures var total := HowMany(y, m, wday);
            IsNthWeekday(y, m, r - FirstDay(y, m) + 1, wday, if 0 < week <= total then week else total)
  {
    hide Ahead, WeekdayOf, FirstDay, CountWeekday, DaysInMonth, TruncMod, IsNthWeekday, HowMany;
    TransitionIsNthOrLast(y, m, week, wday);
    var first := FirstDay(y, m);
    var firstWd := WeekdayOf(first);
    var dim := DaysInMonth(y, m);
    if week > 0 {
      var day := 1 + Ahead(firstWd, wday) + (week - 1) * 7;
      ghost var day0 := day;
      while day > dim
        invariant ClampToMonth(day, dim) == ClampToMonth(day0, dim)
      {
        day := day - 7;
      }
      return first + day - 1;
    }
    var lastWd := TruncMod(firstWd + dim - 1, 7);
    var day := dim - Ahead(wday, lastWd);
    return first + day - 1;
  }
}
