/**
 * Calendar arithmetic of the C library (libc/src/time/_time.c, libc/src/time/mktime.c): the closed day number counts
 * days exactly as the table of month lengths does, for every year, and orders dates.
 */
module Calendar {
  /** Division and remainder of C, which truncate toward zero. */
  function TDiv(a: int, b: int): int
    requires b > 0
  {
    if a >= 0 then a / b else -((-a) / b)
  }

  function TMod(a: int, b: int): int
    requires b > 0
  {
    a - b * TDiv(a, b)
  }

  function FloorDiv(a: int, b: int): int
    requires b > 0
  {
    TDiv(a, b) - (if TMod(a, b) != 0 && a < 0 then 1 else 0)
  }

  function FloorMod(a: int, b: int): int
    requires b > 0
  {
    a - FloorDiv(a, b) * b
  }

  /** Both are the floor operations. */
  lemma {:induction false} FloorIs(a: int, b: int)
    requires b > 0
    ensures FloorDiv(a, b) == a / b && FloorMod(a, b) == a % b
  {
    if a < 0 {
      var q, r := (-a) / b, (-a) % b;
      assert -a == q * b + r;
      if r == 0 {
        DivUnique(a, b, -q, 0);
      } else {
        DivUnique(a, b, -q - 1, b - r);
      }
    } else {
      assert a == (a / b) * b + a % b;
    }
  }

  lemma {:induction false} DivUnique(a: int, b: int, q: int, r: int)
    requires b > 0 && 0 <= r < b && a == q * b + r
    ensures a / b == q && a % b == r
  {
    var q', r' := a / b, a % b;
    assert a == b * q' + r';
    if q > q' {
      Multiple(q - q', b);
      Distributed(q, q', b);
    } else if q < q' {
      Multiple(q' - q, b);
      Distributed(q', q, b);
    }
  }

  lemma {:induction false} Multiple(k: int, b: int)
    requires k >= 1 && b > 0
    ensures k * b >= b
  {
  }

  lemma {:induction false} Distributed(q: int, p: int, b: int)
    ensures (q - p) * b == q * b - p * b
  {
  }

  predicate IsLeap(year: int)
  {
    year % 4 == 0 && (year % 100 != 0 || year % 400 == 0)
  }

  /** Months count from 0. */
  function DaysInMonth(mon: int, year: int): (n: int)
    requires 0 <= mon < 12
    ensures 28 <= n <= 31
  {
    if mon == 1 then (if IsLeap(year) then 29 else 28)
    else if mon in {3, 5, 8, 10} then 30 else 31
  }

  /** Days from 1970-01-01 to a date, as mktime computes them. */
  function DaysSinceEpoch(year: int, mon: int, day: int): int
  {
    var m := mon + 1;
    var y := if m <= 2 then year - 1 else year;
    var era := TDiv(if y >= 0 then y else y - 399, 400);
    var yoe := y - era * 400;
    var doy := TDiv(153 * (if m > 2 then m - 3 else m + 9) + 2, 5) + day - 1;
    var doe := yoe * 365 + TDiv(yoe, 4) - TDiv(yoe, 100) + doy;
    era * 146097 + doe - 719468
  }

  // ---------- years that start in March ----------

  function MarchYear(year: int, mon: int): int
  {
    if mon < 2 then year - 1 else year
  }

  function MarchMonth(mon: int): int
  {
    if mon < 2 then mon + 10 else mon - 2
  }

  /** Day number of the first of March of a year, from the first of March of year 0. */
  function YearStart(y: int): int
  {
    y / 400 * 146097 + y % 400 * 365 + y % 400 / 4 - y % 400 / 100
  }

  function MonthStart(m: int): int
  {
    (153 * m + 2) / 5
  }

  lemma {:induction false} EraIsFloor(y: int)
    ensures TDiv(if y >= 0 then y else y - 399, 400) == y / 400
  {
    if y < 0 {
      var q, r := (399 - y) / 400, (399 - y) % 400;
      assert y == (-q) * 400 + (399 - r);
      DivUnique(y, 400, -q, 399 - r);
    }
  }

  lemma {:induction false} ClosedForm(year: int, mon: int, day: int)
    requires 0 <= mon < 12
    ensures DaysSinceEpoch(year, mon, day) ==
            YearStart(MarchYear(year, mon)) + MonthStart(MarchMonth(mon)) + day - 1 - 719468
  {
    EraIsFloor(MarchYear(year, mon));
  }

  /** A March year has 366 days exactly when its last February has 29. */
  lemma {:induction false} YearLength(y: int)
    ensures YearStart(y + 1) == YearStart(y) + 365 + (if IsLeap(y + 1) then 1 else 0)
  {
    var era, yoe := y / 400, y % 400;
    if yoe < 399 {
      DivUnique(y + 1, 400, era, yoe + 1);
      Within(era, yoe);
    } else {
      DivUnique(y + 1, 400, era + 1, 0);
      assert (y + 1) == (era + 1) * 400;
      assert IsLeap(y + 1);
    }
  }

  lemma {:induction false} Within(era: int, yoe: int)
    requires 0 <= yoe < 399
    ensures var a := era * 400 + yoe + 1;
            && (a % 4 == 0 <==> (yoe + 1) % 4 == 0) && (a % 100 == 0 <==> (yoe + 1) % 100 == 0) && a % 400 != 0
    ensures (yoe + 1) / 4 == yoe / 4 + (if (yoe + 1) % 4 == 0 then 1 else 0)
    ensures (yoe + 1) / 100 == yoe / 100 + (if (yoe + 1) % 100 == 0 then 1 else 0)
  {
    DivUnique(era * 400 + yoe + 1, 400, era, yoe + 1);
    ModShift(4, 100 * era, yoe + 1);
    ModShift(100, 4 * era, yoe + 1);
    NextDiv(yoe, 4);
    NextDiv(yoe, 100);
  }

  lemma {:induction false} ModShift(n: int, k: int, x: int)
    requires n > 0
    ensures (n * k + x) % n == x % n
  {
    var q, r := x / n, x % n;
    assert n * k + x == (k + q) * n + r;
    DivUnique(n * k + x, n, k + q, r);
  }

  lemma {:induction false} NextDiv(x: int, b: int)
    requires b > 1
    ensures (x + 1) / b == x / b + (if (x + 1) % b == 0 then 1 else 0)
  {
    var q, r := x / b, x % b;
    assert x == q * b + r;
    if r + 1 < b {
      DivUnique(x + 1, b, q, r + 1);
    } else {
      Distributed(q + 1, 1, b);
      DivUnique(x + 1, b, q + 1, 0);
    }
  }

  /** Months of a March year, February aside. */
  lemma {:induction false} MonthLength(mon: int, year: int)
    requires 0 <= mon < 12 && mon != 1
    ensures MonthStart(MarchMonth(mon) + 1) == MonthStart(MarchMonth(mon)) + DaysInMonth(mon, year)
  {
  }

  // ---------- the day number counts days ----------

  function NextMonth(year: int, mon: int): (int, int)
  {
    if mon == 11 then (year + 1, 0) else (year, mon + 1)
  }

  /** The first of the next month comes one month length after the first of the month. */
  lemma {:induction false} MonthStep(year: int, mon: int)
    requires 0 <= mon < 12
    ensures var (y, m) := NextMonth(year, mon);
            DaysSinceEpoch(y, m, 1) == DaysSinceEpoch(year, mon, 1) + DaysInMonth(mon, year)
  {
    hide DaysSinceEpoch, YearStart, MonthStart, DaysInMonth;
    var (y, m) := NextMonth(year, mon);
    ClosedForm(year, mon, 1);
    ClosedForm(y, m, 1);
    if mon == 1 {
      FebruaryEnds(year);
    } else {
      MonthLength(mon, year);
    }
  }

  lemma {:induction false} FebruaryEnds(year: int)
    ensures YearStart(year) + MonthStart(0) == YearStart(year - 1) + MonthStart(11) + DaysInMonth(1, year)
  {
    hide YearStart;
    YearLength(year - 1);
  }

  lemma {:induction false} DayStep(year: int, mon: int, day: int)
    ensures DaysSinceEpoch(year, mon, day) == DaysSinceEpoch(year, mon, 1) + day - 1
  {
  }

  // ---------- dates and instants ----------

  /** A real date. */
  predicate ValidDate(year: int, mon: int, day: int)
  {
    0 <= mon < 12 && 1 <= day <= DaysInMonth(mon, year)
  }

  /** First day of the month with the given number, counted from January of year 0. */
  function FirstOf(month: int): int
  {
    DaysSinceEpoch(month / 12, month % 12, 1)
  }

  lemma {:induction false} FirstOfNext(month: int)
    ensures FirstOf(month + 1) == FirstOf(month) + DaysInMonth(month % 12, month / 12)
  {
    var y, m := month / 12, month % 12;
    MonthStep(y, m);
    if m == 11 {
      DivUnique(month + 1, 12, y + 1, 0);
    } else {
      DivUnique(month + 1, 12, y, m + 1);
    }
  }

  lemma {:induction false} FirstOfMono(a: int, b: int)
    requires a <= b
    ensures FirstOf(a) <= FirstOf(b)
    decreases b - a
  {
    hide FirstOf;
    if a < b {
      FirstOfMono(a, b - 1);
      FirstOfNext(b - 1);
    }
  }

  /** Later dates have larger day numbers. */
  lemma {:induction false} DayOrder(y1: int, m1: int, d1: int, y2: int, m2: int, d2: int)
    requires ValidDate(y1, m1, d1) && ValidDate(y2, m2, d2) && 12 * y1 + m1 < 12 * y2 + m2
    ensures DaysSinceEpoch(y1, m1, d1) < DaysSinceEpoch(y2, m2, d2)
  {
    hide DaysSinceEpoch;
    DivUnique(12 * y1 + m1, 12, y1, m1);
    DivUnique(12 * y2 + m2, 12, y2, m2);
    FirstOfNext(12 * y1 + m1);
    FirstOfMono(12 * y1 + m1 + 1, 12 * y2 + m2);
    DayStep(y1, m1, d1);
    DayStep(y2, m2, d2);
  }

  /** A day number belongs to one date only. */
  lemma {:induction false} DateUnique(y1: int, m1: int, d1: int, y2: int, m2: int, d2: int)
    requires ValidDate(y1, m1, d1) && ValidDate(y2, m2, d2)
    requires DaysSinceEpoch(y1, m1, d1) == DaysSinceEpoch(y2, m2, d2)
    ensures y1 == y2 && m1 == m2 && d1 == d2
  {
    hide DaysSinceEpoch;
    if 12 * y1 + m1 < 12 * y2 + m2 {
      DayOrder(y1, m1, d1, y2, m2, d2);
    } else if 12 * y1 + m1 > 12 * y2 + m2 {
      DayOrder(y2, m2, d2, y1, m1, d1);
    } else {
      DayStep(y1, m1, d1);
      DayStep(y2, m2, d2);
    }
  }

  // ---------- weekdays ----------

  function WeekTable(mon: int): int
    requires 0 <= mon < 12
  {
    [0, 3, 2, 5, 0, 3, 5, 1, 4, 6, 2, 4][mon]
  }

  /** The sum that day_of_week reduces modulo 7. */
  function WeekSum(year: int, mon: int, day: int): int
    requires 0 <= mon < 12
  {
    var y := MarchYear(year, mon);
    y + TDiv(y, 4) - TDiv(y, 100) + TDiv(y, 400) + WeekTable(mon) + day
  }

  function DayOfWeek(year: int, mon: int, day: int): int
    requires 0 <= mon < 12
  {
    TMod(WeekSum(year, mon, day), 7)
  }

  /** The same sum with floor divisions. */
  function FloorSum(year: int, mon: int, day: int): int
    requires 0 <= mon < 12
  {
    var y := MarchYear(year, mon);
    y + y / 4 - y / 100 + y / 400 + WeekTable(mon) + day
  }

  lemma {:induction false} YearStartFloor(y: int)
    ensures YearStart(y) == 365 * y + y / 4 - y / 100 + y / 400
  {
    var era, yoe := y / 400, y % 400;
    assert y == 400 * era + yoe;
    DivUnique(y, 4, 100 * era + yoe / 4, yoe % 4);
    DivUnique(y, 100, 4 * era + yoe / 100, yoe % 100);
  }

  lemma {:induction false} MonthPhase(mon: int)
    requires 0 <= mon < 12
    ensures exists k :: MonthStart(MarchMonth(mon)) - 719465 - WeekTable(mon) == 7 * k
  {
    var v := MonthStart(MarchMonth(mon)) - 719465 - WeekTable(mon);
    assert v % 7 == 0;
    assert v == 7 * (v / 7);
  }

  /** The floor sum is the weekday of the day number: day 0 was a Thursday. */
  lemma {:induction false} FloorSumWeekday(year: int, mon: int, day: int)
    requires 0 <= mon < 12
    ensures FloorSum(year, mon, day) % 7 == (DaysSinceEpoch(year, mon, day) + 4) % 7
  {
    var y := MarchYear(year, mon);
    ClosedForm(year, mon, day);
    YearStartFloor(y);
    hide DaysSinceEpoch, YearStart, MonthStart, WeekTable;
    MonthPhase(mon);
    var k :| MonthStart(MarchMonth(mon)) - 719465 - WeekTable(mon) == 7 * k;
    SameMod7(FloorSum(year, mon, day), DaysSinceEpoch(year, mon, day) + 4, 52 * y + k);
  }

  lemma {:induction false} SameMod7(a: int, b: int, k: int)
    requires b == a + 7 * k
    ensures a % 7 == b % 7
  {
  }

  /** How far truncation moves the sum. */
  lemma {:induction false} SumShift(year: int, mon: int, day: int)
    requires 0 <= mon < 12
    ensures var y := MarchYear(year, mon);
            WeekSum(year, mon, day) == FloorSum(year, mon, day) + (if y >= 0 || IsLeap(y) then 0 else 1)
  {
    var y := MarchYear(year, mon);
    if y < 0 {
      TruncUp(y, 4);
      TruncUp(y, 100);
      TruncUp(y, 400);
      Divisible(y);
    }
  }

  lemma {:induction false} TruncUp(y: int, b: int)
    requires y < 0 < b
    ensures TDiv(y, b) == y / b + (if y % b == 0 then 0 else 1)
  {
    FloorIs(y, b);
    ModZero(y, b);
  }

  lemma {:induction false} ModZero(y: int, b: int)
    requires b > 0
    ensures TMod(y, b) == 0 <==> y % b == 0
  {
    if y < 0 {
      var q, r := (-y) / b, (-y) % b;
      if r == 0 {
        DivUnique(y, b, -q, 0);
      } else {
        DivUnique(y, b, -q - 1, b - r);
      }
      assert -y == q * b + r;
      assert TMod(y, b) == -r;
    }
  }

  lemma {:induction false} Divisible(y: int)
    ensures y % 400 == 0 ==> y % 100 == 0
    ensures y % 100 == 0 ==> y % 4 == 0
  {
  }

  /** tm_wday is the weekday of the date exactly when the year the formula works with is not negative, or is a leap year
      whose sum truncates like a floor. */
  lemma {:induction false} WeekdayIff(year: int, mon: int, day: int)
    requires ValidDate(year, mon, day)
    ensures var y, sum := MarchYear(year, mon), WeekSum(year, mon, day);
            DayOfWeek(year, mon, day) == (DaysSinceEpoch(year, mon, day) + 4) % 7 <==>
            y >= 0 || (IsLeap(y) && (sum >= 0 || sum % 7 == 0))
  {
    var y, sum := MarchYear(year, mon), WeekSum(year, mon, day);
    FloorSumWeekday(year, mon, day);
    SumShift(year, mon, day);
    hide DaysSinceEpoch, WeekSum, FloorSum, IsLeap;
    if y >= 0 {
      SumNonneg(year, mon, day);
    }
    ReducedIff(FloorSum(year, mon, day), sum);
  }

  /** The first of January of year 0 was a Saturday, and comes out as a Sunday. */
  lemma {:induction false} WeekdayWrong()
    ensures (DaysSinceEpoch(0, 0, 1) + 4) % 7 == 6 && DayOfWeek(0, 0, 1) == 0
  {
    hide DaysSinceEpoch, YearStart, MonthStart, WeekSum;
    ClosedForm(0, 0, 1);
    FirstDay();
    DivUnique(-719524, 7, -102790, 6);
  }

  lemma {:induction false} FirstDay()
    ensures YearStart(-1) == -366 && MonthStart(10) == 306 && WeekSum(0, 0, 1) == 0
  {
  }

  lemma {:induction false} SumNonneg(year: int, mon: int, day: int)
    requires 0 <= mon < 12 && MarchYear(year, mon) >= 0 && day >= 1
    ensures WeekSum(year, mon, day) >= 0
  {
  }

  /** Reducing by truncation agrees with the floor residue of a sum that is the same or one less. */
  lemma {:induction false} ReducedIff(a: int, sum: int)
    requires sum == a || sum == a + 1
    ensures TMod(sum, 7) == a % 7 <==> sum == a && (sum >= 0 || sum % 7 == 0)
  {
    if sum < 0 {
      var q, r := (-sum) / 7, (-sum) % 7;
      assert TMod(sum, 7) == -r;
      ModZero(sum, 7);
    }
  }
}
