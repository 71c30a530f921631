/**
 * The kernel's time library (libtime/src): closed conversions between date-times and milliseconds since
 * 2001-01-01, which invert each other and agree with the C library's month-by-month normalisation.
 */
module LibTime {
  import opened Calendar
  import opened BrokenDownTime

  const MS_PER_DAY := 86_400_000
  const EPOCH_DAY := 11323             // 2001-01-01, in days since 1970-01-01
  const EPOCH_SECOND := 978307200
  const U16 := 65536

  datatype DateTime = DateTime(year: int, month: int, day: int, hour: int, minute: int, second: int, millis: int)

  /** Days since 2001-01-01; the year is a 16-bit unsigned number. */
  function Days(year: int, month: int, day: int): int
  {
    var y := if month <= 2 then (year - 1) % U16 else year;
    var m := if month <= 2 then month + 12 else month;
    var era := y / 400;
    var yoe := y - era * 400;
    var doy := (153 * (m - 3) + 2) / 5 + day - 1;
    var doe := yoe * 365 + yoe / 4 - yoe / 100 + yoe / 400 + doy;
    era * 146097 + doe - 730791
  }

  function ToTimestamp(dt: DateTime): int
  {
    (((Days(dt.year, dt.month, dt.day) * 24 + dt.hour) * 60 + dt.minute) * 60 + dt.second) * 1000 + dt.millis
  }

  /** The year of the era from the day of the era. */
  function YearOfEra(doe: int): int
  {
    (doe - doe / 1460 + doe / 36524 - doe / 146096) / 365
  }

  /** March year, month 1 to 12 and day of the n-th day after the first of March of year 0. */
  function Civil(n: int): (int, int, int)
  {
    var era := TDiv(if n >= 0 then n else n - 146096, 146097);
    var doe := n - era * 146097;
    var yoe := YearOfEra(doe);
    var y := yoe + era * 400;
    var doy := doe - (365 * yoe + yoe / 4 - yoe / 100);
    var mp := (5 * doy + 2) / 153;
    var d := doy - (153 * mp + 2) / 5 + 1;
    var m := if mp < 10 then mp + 3 else mp - 9;
    (y, m, d)
  }

  function ToDateTime(ts: int): DateTime
  {
    var r := TMod(ts, MS_PER_DAY);
    var ms := if r < 0 then r + MS_PER_DAY else r;
    var days := TDiv(ts - ms, MS_PER_DAY);
    var (y, m, d) := Civil(days + 730791);
    DateTime((y + (if m <= 2 then 1 else 0)) % U16, m, d,
             ms / 1000 / 60 / 60, ms / 1000 / 60 % 60, ms / 1000 % 60, ms % 1000)
  }

  // ---------- the closed inverse ----------

  /** Centuries, leap cycles and years of an era, and the day of the March year. */
  predicate Parts(c: int, q: int, r: int, doy: int)
  {
    0 <= c <= 3 && 0 <= q <= 24 && 0 <= r <= 3 && 0 <= doy <= 365 && (doy == 365 ==> r == 3 && (q < 24 || c == 3))
  }

  function DayOfEra(c: int, q: int, r: int, doy: int): int
  {
    36524 * c + 1461 * q + 365 * r + doy
  }

  /** Every day of an era has such parts. */
  lemma {:induction false} PartsOf(doe: int) returns (c: int, q: int, r: int, doy: int)
    requires 0 <= doe < 146097
    ensures Parts(c, q, r, doy) && DayOfEra(c, q, r, doy) == doe
  {
    c := if doe / 36524 < 3 then doe / 36524 else 3;
    var x := doe - 36524 * c;
    q := x / 1461;
    var y := x - 1461 * q;
    r := if y / 365 < 3 then y / 365 else 3;
    doy := y - 365 * r;
  }

  /** The division by 1460 counts the leap days but for the last day of a leap cycle. */
  lemma {:induction false} LeapDays(c: int, q: int, r: int, doy: int)
    requires Parts(c, q, r, doy)
    ensures DayOfEra(c, q, r, doy) / 1460 == 25 * c + q + (if 24 * c + q + 365 * r + doy >= 1460 then 1 else 0)
  {
    var x := 24 * c + q + 365 * r + doy;
    assert DayOfEra(c, q, r, doy) == (25 * c + q) * 1460 + x;
    if x >= 1460 {
      DivUnique(DayOfEra(c, q, r, doy), 1460, 25 * c + q + 1, x - 1460);
    } else {
      DivUnique(DayOfEra(c, q, r, doy), 1460, 25 * c + q, x);
    }
  }

  lemma {:induction false} Centuries(c: int, q: int, r: int, doy: int)
    requires Parts(c, q, r, doy)
    ensures var doe := DayOfEra(c, q, r, doy);
            && 0 <= doe < 146097
            && doe / 36524 - doe / 146096 == c
  {
    var doe := DayOfEra(c, q, r, doy);
    var x := 1461 * q + 365 * r + doy;
    if x >= 36524 {
      assert q == 24 && r == 3 && doy == 365 && c == 3;
      assert doe == 146096;
    } else {
      assert doe == c * 36524 + x;
      DivUnique(doe, 36524, c, x);
      DivUnique(doe, 146096, 0, doe);
    }
  }

  /** The formula finds the year of the era. */
  lemma {:induction false} YearOfEraIs(c: int, q: int, r: int, doy: int)
    requires Parts(c, q, r, doy)
    ensures YearOfEra(DayOfEra(c, q, r, doy)) == 100 * c + 4 * q + r
  {
    LeapDays(c, q, r, doy);
    Centuries(c, q, r, doy);
    var late := if 24 * c + q + 365 * r + doy >= 1460 then 1 else 0;
    var yoe := 100 * c + 4 * q + r;
    var doe := DayOfEra(c, q, r, doy);
    assert doe - doe / 1460 + doe / 36524 - doe / 146096 == 365 * yoe + (doy - late);
    DivUnique(365 * yoe + (doy - late), 365, yoe, doy - late);
  }

  lemma {:induction false} YearParts(c: int, q: int, r: int)
    requires 0 <= c <= 3 && 0 <= q <= 24 && 0 <= r <= 3
    ensures var yoe := 100 * c + 4 * q + r;
            && yoe / 4 == 25 * c + q && yoe / 100 == c && 0 <= yoe < 400
            && (r == 3 && (q < 24 || c == 3) <==> (yoe + 1) % 4 == 0 && ((yoe + 1) % 100 != 0 || yoe == 399))
  {
    var yoe := 100 * c + 4 * q + r;
    DivUnique(yoe, 4, 25 * c + q, r);
    DivUnique(yoe, 100, c, 4 * q + r);
    NextDiv(yoe, 4);
    if 4 * q + r < 99 {
      DivUnique(yoe + 1, 100, c, 4 * q + r + 1);
    } else {
      DivUnique(yoe + 1, 100, c + 1, 0);
    }
    if r < 3 {
      DivUnique(yoe + 1, 4, 25 * c + q, r + 1);
    } else {
      DivUnique(yoe + 1, 4, 25 * c + q + 1, 0);
    }
  }

  /** The month formula: the month that holds a day of the March year. */
  lemma {:induction false} MonthOf(doy: int)
    requires 0 <= doy <= 365
    ensures var mp := (5 * doy + 2) / 153;
            && 0 <= mp < 12 && MonthStart(mp) <= doy && (mp < 11 ==> doy < MonthStart(mp + 1))
  {
  }

  lemma {:induction false} EraOfDay(n: int)
    ensures TDiv(if n >= 0 then n else n - 146096, 146097) == n / 146097
  {
    if n < 0 {
      var q, r := (146096 - n) / 146097, (146096 - n) % 146097;
      assert n == (-q) * 146097 + (146096 - r);
      DivUnique(n, 146097, -q, 146096 - r);
    }
  }

  /** The day count of the first of March of the year that the parts name. */
  lemma {:induction false} YearOfParts(era: int, c: int, q: int, r: int, doy: int)
    requires Parts(c, q, r, doy)
    ensures var y := era * 400 + 100 * c + 4 * q + r;
            && YearStart(y) + doy == era * 146097 + DayOfEra(c, q, r, doy)
            && (doy == 365 ==> IsLeap(y + 1))
  {
    var yoe := 100 * c + 4 * q + r;
    var y := era * 400 + yoe;
    YearParts(c, q, r);
    DivUnique(y, 400, era, yoe);
    if doy == 365 {
      if yoe == 399 {
        assert y + 1 == 400 * (era + 1);
        ModShift(400, era + 1, 0);
        ModShift(100, 4 * (era + 1), 0);
        ModShift(4, 100 * (era + 1), 0);
      } else {
        Within(era, yoe);
      }
    }
  }

  /** The date of a day number, and back. */
  lemma {:induction false} CivilIs(n: int)
    ensures var (y, m, d) := Civil(n);
            && 1 <= m <= 12
            && ValidDate(y + (if m <= 2 then 1 else 0), m - 1, d)
            && YearStart(y) + MonthStart(MarchMonth(m - 1)) + d - 1 == n
  {
    EraOfDay(n);
    var era, doe := n / 146097, n % 146097;
    var c, q, r, doy := PartsOf(doe);
    YearOfEraIs(c, q, r, doy);
    YearParts(c, q, r);
    YearOfParts(era, c, q, r, doy);
    CivilDate(n, era, doe, c, q, r, doy);
  }

  lemma {:induction false} CivilDate(n: int, era: int, doe: int, c: int, q: int, r: int, doy: int)
    requires TDiv(if n >= 0 then n else n - 146096, 146097) == era && n == era * 146097 + doe
    requires DayOfEra(c, q, r, doy) == doe
    requires Parts(c, q, r, doy) && YearOfEra(doe) == 100 * c + 4 * q + r
    requires (100 * c + 4 * q + r) / 4 == 25 * c + q && (100 * c + 4 * q + r) / 100 == c
    requires var y := era * 400 + 100 * c + 4 * q + r;
             YearStart(y) + doy == n && (doy == 365 ==> IsLeap(y + 1))
    ensures var (y, m, d) := Civil(n);
            && 1 <= m <= 12
            && ValidDate(y + (if m <= 2 then 1 else 0), m - 1, d)
            && YearStart(y) + MonthStart(MarchMonth(m - 1)) + d - 1 == n
  {
    hide YearStart, IsLeap, ValidDate, MonthStart, Civil, YearOfEra, TDiv;
    MonthOf(doy);
    var y, mp := era * 400 + 100 * c + 4 * q + r, (5 * doy + 2) / 153;
    CivilUnfolds(n, era, doe, 100 * c + 4 * q + r, doy);
    DayFits(y, mp, doy);
  }

  lemma {:induction false} CivilUnfolds(n: int, era: int, doe: int, yoe: int, doy: int)
    requires TDiv(if n >= 0 then n else n - 146096, 146097) == era && n == era * 146097 + doe && YearOfEra(doe) == yoe
    requires doe == 365 * yoe + yoe / 4 - yoe / 100 + doy
    ensures var mp := (5 * doy + 2) / 153;
            Civil(n) == (era * 400 + yoe, if mp < 10 then mp + 3 else mp - 9, doy - MonthStart(mp) + 1)
  {
    hide TDiv, YearOfEra;
  }

  /** A day of a March year lies within its month. */
  lemma {:induction false} DayFits(y: int, mp: int, doy: int)
    requires 0 <= mp < 12 && MonthStart(mp) <= doy && (mp < 11 ==> doy < MonthStart(mp + 1))
    requires doy <= 365 && (doy == 365 ==> IsLeap(y + 1))
    ensures var mon := if mp < 10 then mp + 2 else mp - 10;
            MarchMonth(mon) == mp && ValidDate(if mon < 2 then y + 1 else y, mon, doy - MonthStart(mp) + 1)
  {
    var mon := if mp < 10 then mp + 2 else mp - 10;
    if mon != 1 {
      MonthLength(mon, if mon < 2 then y + 1 else y);
    }
  }

  // ---------- days ----------

  /** The library's day count, by March years. */
  lemma {:induction false} DaysIs(year: int, month: int, day: int)
    requires 0 <= year < U16 && 1 <= month <= 12
    ensures Days(year, month, day) ==
            YearStart(MarchYear(year, month - 1) % U16) + MonthStart(MarchMonth(month - 1)) + day - 1 - 730791
  {
    var y := MarchYear(year, month - 1) % U16;
    var yoe := y % 400;
    assert y - y / 400 * 400 == yoe && yoe / 400 == 0;
    assert YearStart(y) == y / 400 * 146097 + yoe * 365 + yoe / 4 - yoe / 100;
  }

  /** For years from 1 on it is the C library's day count from another epoch. */
  lemma {:induction false} DaysAgree(year: int, month: int, day: int)
    requires 1 <= year < U16 && 1 <= month <= 12
    ensures Days(year, month, day) == DaysSinceEpoch(year, month - 1, day) - EPOCH_DAY
  {
    DaysIs(year, month, day);
    ClosedForm(year, month - 1, day);
    hide Days, DaysSinceEpoch, YearStart;
    DivUnique(MarchYear(year, month - 1), U16, 0, MarchYear(year, month - 1));
  }

  function Weekday(year: int, month: int, day: int): int
  {
    var z := Days(year, month, day);
    if z >= -1 then TMod(z + 1, 7) else TMod(z + 2, 7) + 6
  }

  /** The two branches are one floor remainder, and name the day that the C library names. */
  lemma {:induction false} WeekdayIs(year: int, month: int, day: int)
    requires 1 <= year < U16 && 1 <= month <= 12
    ensures Weekday(year, month, day) == (Days(year, month, day) + 1) % 7
    ensures Weekday(year, month, day) == (DaysSinceEpoch(year, month - 1, day) + 4) % 7
  {
    DaysAgree(year, month, day);
    hide Days, DaysSinceEpoch;
    var z := Days(year, month, day);
    SameMod7(z + 1, DaysSinceEpoch(year, month - 1, day) + 4, 1618);
    if z < -1 {
      FloorIs(z + 2, 7);
      var q, r := (-(z + 2)) / 7, (-(z + 2)) % 7;
      assert TMod(z + 2, 7) == -r;
      DivUnique(z + 1, 7, -q - 1, 6 - r);
    }
  }

  // ---------- milliseconds ----------

  lemma {:induction false} MillisOfDay(ts: int)
    ensures var r := TMod(ts, MS_PER_DAY);
            var ms := if r < 0 then r + MS_PER_DAY else r;
            ms == ts % MS_PER_DAY && TDiv(ts - ms, MS_PER_DAY) == ts / MS_PER_DAY
  {
    FloorIs(ts, MS_PER_DAY);
  }

  lemma {:induction false} MillisParts(ms: int)
    requires 0 <= ms < MS_PER_DAY
    ensures ((ms / 1000 / 60 / 60 * 60 + ms / 1000 / 60 % 60) * 60 + ms / 1000 % 60) * 1000 + ms % 1000 == ms
    ensures 0 <= ms / 1000 / 60 / 60 < 24
  {
  }

  function DayOf(ts: int): int
  {
    ts / MS_PER_DAY + 730791
  }

  /** The fields that a timestamp is broken into. */
  lemma {:induction false} ToDateTimeIs(ts: int)
    ensures var (y, m, d) := Civil(DayOf(ts));
            var dt := ToDateTime(ts);
            && dt.year == (y + (if m <= 2 then 1 else 0)) % U16 && dt.month == m && dt.day == d
            && ((dt.hour * 60 + dt.minute) * 60 + dt.second) * 1000 + dt.millis == ts % MS_PER_DAY
            && 0 <= dt.hour < 24 && 0 <= dt.minute < 60 && 0 <= dt.second < 60 && 0 <= dt.millis < 1000
  {
    hide Civil;
    MillisOfDay(ts);
    MillisParts(ts % MS_PER_DAY);
  }

  lemma {:induction false} YearStartMono(a: int, b: int)
    requires a < b
    ensures YearStart(a) < YearStart(b)
    decreases b - a
  {
    hide YearStart;
    YearLength(b - 1);
    if a < b - 1 {
      YearStartMono(a, b - 1);
    }
  }

  lemma {:induction false} YearHolds(y: int, m: int, d: int)
    requires 1 <= m <= 12 && ValidDate(y + (if m <= 2 then 1 else 0), m - 1, d)
    ensures YearStart(y) <= YearStart(y) + MonthStart(MarchMonth(m - 1)) + d - 1 < YearStart(y + 1)
  {
    YearLength(y);
    hide YearStart;
    if m != 2 {
      MonthLength(m - 1, y + (if m <= 2 then 1 else 0));
    }
  }

  /** The day after the last one of March year 65535. */
  const LAST_DAY := 23936532

  lemma {:induction false} MarchYearInRange(n: int)
    ensures 0 <= Civil(n).0 < U16 <==> 0 <= n < LAST_DAY
  {
    hide Civil, MonthStart, ValidDate;
    var (y, m, d) := Civil(n);
    CivilIs(n);
    YearHolds(y, m, d);
    assert YearStart(0) == 0 && YearStart(U16) == LAST_DAY;
    YearOrder(y + 1, 0);
    YearOrder(0, y);
    YearOrder(y + 1, U16);
    YearOrder(U16, y);
  }

  lemma {:induction false} YearOrder(a: int, b: int)
    ensures a <= b ==> YearStart(a) <= YearStart(b)
  {
    if a < b {
      YearStartMono(a, b);
    }
  }

  /** Breaking a timestamp down and putting it together gives it back exactly for the days whose March year fits in
      16 bits: 0000-03-01 to 65536-02-29. */
  lemma {:induction false} TimestampRoundTripIff(ts: int)
    ensures ToTimestamp(ToDateTime(ts)) == ts <==> 0 <= ts / MS_PER_DAY + 730791 < LAST_DAY
  {
    MarchYearInRange(DayOf(ts));
    RoundTripByYear(ts);
  }

  lemma {:induction false} RoundTripByYear(ts: int)
    ensures ToTimestamp(ToDateTime(ts)) == ts <==> 0 <= Civil(DayOf(ts)).0 < U16
  {
    hide Civil, Days, ToDateTime, YearStart, MonthStart;
    var (y, m, d) := Civil(DayOf(ts));
    CivilIs(DayOf(ts));
    ToDateTimeIs(ts);
    var dt := ToDateTime(ts);
    DaysIs(dt.year, m, d);
    WrappedYear(y, m);
    assert Days(dt.year, m, d) == YearStart(y % U16) - YearStart(y) + ts / MS_PER_DAY;
    Assembled(dt, Days(dt.year, m, d), ts);
    if y % U16 < y {
      YearStartMono(y % U16, y);
    } else if y < y % U16 {
      YearStartMono(y, y % U16);
    }
    InU16(y);
  }

  /** The day before 0000-03-01 is lost. */
  lemma {:induction false} TimestampLost()
    ensures ToTimestamp(ToDateTime(-730792 * MS_PER_DAY)) != -730792 * MS_PER_DAY
  {
    hide ToTimestamp, ToDateTime;
    TimestampRoundTripIff(-730792 * MS_PER_DAY);
  }

  lemma {:induction false} InU16(y: int)
    ensures y % U16 == y <==> 0 <= y < U16
  {
  }

  lemma {:induction false} WrappedYear(y: int, m: int)
    requires 1 <= m <= 12
    ensures MarchYear((y + (if m <= 2 then 1 else 0)) % U16, m - 1) % U16 == y % U16
  {
    if m <= 2 {
      var q, r := (y + 1) / U16, (y + 1) % U16;
      assert y == U16 * q + (r - 1);
      ModShift(U16, q, r - 1);
    }
  }

  lemma {:induction false} Assembled(dt: DateTime, days: int, ts: int)
    requires Days(dt.year, dt.month, dt.day) == days
    requires ((dt.hour * 60 + dt.minute) * 60 + dt.second) * 1000 + dt.millis == ts % MS_PER_DAY
    ensures ToTimestamp(dt) == ts <==> days == ts / MS_PER_DAY
  {
    hide Days;
    assert ts == ts / MS_PER_DAY * MS_PER_DAY + ts % MS_PER_DAY;
    assert ToTimestamp(dt) == days * MS_PER_DAY + ts % MS_PER_DAY;
  }

  /** A date and a time of day. */
  predicate ValidDateTime(dt: DateTime)
  {
    && 1 <= dt.year < U16 && 1 <= dt.month <= 12 && ValidDate(dt.year, dt.month - 1, dt.day)
    && 0 <= dt.hour < 24 && 0 <= dt.minute < 60 && 0 <= dt.second < 60 && 0 <= dt.millis < 1000
  }

  /** Valid date-times of the years 1 to 65535 survive the trip through a timestamp. */
  lemma {:induction false} DateTimeRoundTrip(dt: DateTime)
    requires ValidDateTime(dt)
    ensures ToDateTime(ToTimestamp(dt)) == dt
  {
    hide Civil, Days, ToDateTime, ToTimestamp, DaysSinceEpoch, ValidDate, DaysInMonth, MonthStart, YearStart;
    var ts := ToTimestamp(dt);
    DaysAgree(dt.year, dt.month, dt.day);
    ClockParts(dt, Days(dt.year, dt.month, dt.day));
    ToDateTimeIs(ts);
    SameDate(dt.year, dt.month, dt.day, DayOf(ts));
    ClockUnique(ToDateTime(ts), dt);
    DivUnique(dt.year, U16, 0, dt.year);
  }

  lemma {:induction false} ClockParts(dt: DateTime, days: int)
    requires Days(dt.year, dt.month, dt.day) == days
    requires 0 <= dt.hour < 24 && 0 <= dt.minute < 60 && 0 <= dt.second < 60 && 0 <= dt.millis < 1000
    ensures ToTimestamp(dt) / MS_PER_DAY == days
    ensures ToTimestamp(dt) % MS_PER_DAY == ((dt.hour * 60 + dt.minute) * 60 + dt.second) * 1000 + dt.millis
  {
    hide Days;
    var ms := ((dt.hour * 60 + dt.minute) * 60 + dt.second) * 1000 + dt.millis;
    assert ToTimestamp(dt) == days * MS_PER_DAY + ms;
    DivUnique(ToTimestamp(dt), MS_PER_DAY, days, ms);
  }

  lemma {:induction false} ClockUnique(a: DateTime, b: DateTime)
    requires 0 <= a.hour < 24 && 0 <= a.minute < 60 && 0 <= a.second < 60 && 0 <= a.millis < 1000
    requires 0 <= b.hour < 24 && 0 <= b.minute < 60 && 0 <= b.second < 60 && 0 <= b.millis < 1000
    requires ((a.hour * 60 + a.minute) * 60 + a.second) * 1000 + a.millis ==
             ((b.hour * 60 + b.minute) * 60 + b.second) * 1000 + b.millis
    ensures a.hour == b.hour && a.minute == b.minute && a.second == b.second && a.millis == b.millis
  {
  }

  /** The closed inverse names the only date with the day number. */
  lemma {:induction false} SameDate(year: int, month: int, day: int, n: int)
    requires ValidDate(year, month - 1, day) && DaysSinceEpoch(year, month - 1, day) == n - 719468
    ensures var (y, m, d) := Civil(n);
            y + (if m <= 2 then 1 else 0) == year && m == month && d == day
  {
    hide Civil, DaysSinceEpoch;
    CivilIs(n);
    var (y, m, d) := Civil(n);
    var year' := y + (if m <= 2 then 1 else 0);
    ClosedForm(year', m - 1, d);
    DateUnique(year', m - 1, d, year, month - 1, day);
  }

  // ---------- agreement with the C library ----------

  function UnixToTimestamp(t: int): int
  {
    (t - EPOCH_SECOND) * 1000
  }

  /** Both libraries break a Unix second down into the same fields. */
  lemma {:induction false} LibrariesAgree(t: int, m: Moment)
    requires Canonical(m) && Instant(m) == t && 1 <= m.year + 1900 < U16
    ensures ToDateTime(UnixToTimestamp(t)) == DateTime(m.year + 1900, m.mon + 1, m.mday, m.hour, m.min, m.sec, 0)
  {
    hide Days, DaysSinceEpoch, ToDateTime, ValidDate;
    var dt := DateTime(m.year + 1900, m.mon + 1, m.mday, m.hour, m.min, m.sec, 0);
    CanonicalDay(m);
    MonthInRange(m);
    DaysAgree(dt.year, dt.month, dt.day);
    assert ToTimestamp(dt) == UnixToTimestamp(t);
    DateTimeRoundTrip(dt);
  }

  lemma {:induction false} MonthInRange(m: Moment)
    requires Canonical(m)
    ensures 0 <= m.mon < 12
  {
  }

  /** gmtime_r and the kernel's conversion, side by side. */
  method Compare(tm: Tm, t: int) returns (dt: DateTime)
    modifies tm
    ensures Instant(tm.Value()) == t && Canonical(tm.Value())
    ensures 1 <= tm.year + 1900 < U16 ==>
              dt == DateTime(tm.year + 1900, tm.mon + 1, tm.mday, tm.hour, tm.min, tm.sec, 0)
  {
    hide ToDateTime, Instant, Canonical;
    tm.Gmtime(t);
    dt := ToDateTime(UnixToTimestamp(t));
    if 1 <= tm.year + 1900 < U16 {
      LibrariesAgree(t, tm.Value());
    }
  }
}
