/**
 * Broken-down time: normalisation, gmtime_r and mktime (libc/src/time/_time.c:29-72, gmtime_r.c, mktime.c). Sections
 * 7.27.2.3 and 7.27.3.3 of ISO/IEC 9899:2011.
 */
module BrokenDownTime {
  import opened Calendar

  const DAY := 86400

  /** Fields of a struct tm that say when it is; the year counts from 1900. */
  datatype Moment = Moment(sec: int, min: int, hour: int, mday: int, mon: int, year: int)

  /** The day denoted by a year, a month number and a day of the month, none of them in range. */
  function Day(m: Moment): int
  {
    DaysSinceEpoch(m.year + 1900 + m.mon / 12, m.mon % 12, 1) + m.mday - 1
  }

  /** The second denoted by arbitrary fields, counted from the epoch. */
  function Instant(m: Moment): int
  {
    ((Day(m) * 24 + m.hour) * 60 + m.min) * 60 + m.sec
  }

  predicate Canonical(m: Moment)
  {
    0 <= m.sec < 60 && 0 <= m.min < 60 && 0 <= m.hour < 24 && ValidDate(m.year + 1900, m.mon, m.mday)
  }

  lemma {:induction false} CanonicalDay(m: Moment)
    requires Canonical(m)
    ensures Day(m) == DaysSinceEpoch(m.year + 1900, m.mon, m.mday)
  {
    hide DaysSinceEpoch, DaysInMonth;
    DayStep(m.year + 1900, m.mon, m.mday);
  }

  /** Canonical fields are determined by the second they denote. */
  lemma {:induction false} CanonicalUnique(a: Moment, b: Moment)
    requires Canonical(a) && Canonical(b) && Instant(a) == Instant(b)
    ensures a == b
  {
    hide DaysSinceEpoch, ValidDate;
    CanonicalDay(a);
    CanonicalDay(b);
    Split(Day(a), a.hour, a.min, a.sec, Day(b), b.hour, b.min, b.sec);
    DateUnique(a.year + 1900, a.mon, a.mday, b.year + 1900, b.mon, b.mday);
  }

  lemma {:induction false} Split(d: int, h: int, m: int, s: int, d': int, h': int, m': int, s': int)
    requires 0 <= h < 24 && 0 <= m < 60 && 0 <= s < 60 && 0 <= h' < 24 && 0 <= m' < 60 && 0 <= s' < 60
    requires ((d * 24 + h) * 60 + m) * 60 + s == ((d' * 24 + h') * 60 + m') * 60 + s'
    ensures d == d' && h == h' && m == m' && s == s'
  {
  }

  /** A carry from one field to the next. */
  lemma {:induction false} Carry(a: int, x: int, b: int)
    requires b > 0
    ensures (a + FloorDiv(x, b)) * b + FloorMod(x, b) == a * b + x && 0 <= FloorMod(x, b) < b
    ensures 0 <= x < b ==> FloorDiv(x, b) == 0 && FloorMod(x, b) == x
  {
    FloorIs(x, b);
    var q := x / b;
    assert (a + q) * b == a * b + q * b;
    if 0 <= x < b {
      DivUnique(x, b, 0, x);
    }
  }

  function YdayOffset(leap: bool, mon: int): int
    requires 0 <= mon < 12
  {
    if leap then [0, 31, 60, 91, 121, 152, 182, 213, 244, 274, 305, 335][mon]
    else [0, 31, 59, 90, 120, 151, 181, 212, 243, 273, 304, 334][mon]
  }

  /** The offset table counts the days since the first of January. */
  lemma {:induction false} YdayIs(year: int, mon: int)
    requires 0 <= mon < 12
    ensures YdayOffset(IsLeap(year), mon) == DaysSinceEpoch(year, mon, 1) - DaysSinceEpoch(year, 0, 1)
  {
    ClosedForm(year, mon, 1);
    ClosedForm(year, 0, 1);
    OffsetTable(IsLeap(year), mon);
    YearLength(year - 1);
    hide DaysSinceEpoch, YearStart, MonthStart, YdayOffset, IsLeap;
    assert MarchMonth(0) == 10;
  }

  lemma {:induction false} OffsetTable(leap: bool, mon: int)
    requires 0 <= mon < 12
    ensures MonthStart(10) == 306
    ensures mon < 2 ==> YdayOffset(leap, mon) == MonthStart(mon + 10) - 306
    ensures mon >= 2 ==> YdayOffset(leap, mon) == MonthStart(mon - 2) + 59 + (if leap then 1 else 0)
  {
  }

  class Tm {
    var sec: int
    var min: int
    var hour: int
    var mday: int
    var mon: int
    var year: int
    var wday: int
    var yday: int
    var isdst: int

    constructor ()
    {
    }

    function Value(): Moment
      reads this
    {
      Moment(sec, min, hour, mday, mon, year)
    }

    /** The derived fields agree with the date. */
    ghost predicate Dated()
      reads this
    {
      0 <= mon < 12 &&
      yday == DaysSinceEpoch(year + 1900, mon, mday) - DaysSinceEpoch(year + 1900, 0, 1) &&
      wday == DayOfWeek(year + 1900, mon, mday)
    }

    /** Bring every field into its range without moving the instant. */
    method Normalize()
      modifies this
      ensures Canonical(Value()) && Instant(Value()) == Instant(old(Value())) && Dated() && isdst == old(isdst)
      ensures MarchYear(year + 1900, mon) >= 0 ==> wday == (Day(Value()) + 4) % 7
    {
      hide DaysSinceEpoch, FloorDiv, FloorMod, DayOfWeek, WeekSum, IsLeap;
      Carry(min, sec, 60);
      min := min + FloorDiv(sec, 60);
      sec := FloorMod(sec, 60);
      Carry(hour, min, 60);
      hour := hour + FloorDiv(min, 60);
      min := FloorMod(min, 60);
      Carry(mday, hour, 24);
      mday := mday + FloorDiv(hour, 24);
      hour := FloorMod(hour, 24);
      FloorIs(mon, 12);
      WholeMonths(Value());
      year := year + FloorDiv(mon, 12);
      mon := FloorMod(mon, 12);
      BorrowDays();
      SpendDays();
      Derive();
      CanonicalDay(Value());
      WeekdayIff(year + 1900, mon, mday);
    }

    method Derive()
      requires 0 <= mon < 12
      modifies this`yday, this`wday
      ensures Dated()
    {
      hide DaysSinceEpoch, YdayOffset, DayOfWeek;
      DayStep(year + 1900, mon, mday);
      YdayIs(year + 1900, mon);
      yday := YdayOffset(IsLeap(year + 1900), mon) + mday - 1;
      wday := DayOfWeek(year + 1900, mon, mday);
    }

    method BorrowDays()
      requires 0 <= mon < 12
      modifies this`mday, this`mon, this`year
      ensures 0 <= mon < 12 && mday >= 1 && Day(Value()) == Day(old(Value()))
      ensures old(mday) >= 1 ==> Value() == old(Value())
    {
      hide DaysSinceEpoch;
      while mday < 1
        invariant 0 <= mon < 12 && Day(Value()) == Day(old(Value()))
        invariant old(mday) >= 1 ==> Value() == old(Value())
        decreases 1 - mday
      {
        ghost var before := Value();
        mon := mon - 1;
        if mon < 0 {
          mon := 11;
          year := year - 1;
        }
        PreviousMonth(before, Value());
        mday := mday + DaysInMonth(mon, year + 1900);
      }
    }

    method SpendDays()
      requires 0 <= mon < 12 && mday >= 1
      modifies this`mday, this`mon, this`year
      ensures ValidDate(year + 1900, mon, mday) && Day(Value()) == Day(old(Value()))
    {
      hide DaysSinceEpoch;
      while mday > DaysInMonth(mon, year + 1900)
        invariant 0 <= mon < 12 && mday >= 1 && Day(Value()) == Day(old(Value()))
        decreases mday
      {
        ghost var before := Value();
        mday := mday - DaysInMonth(mon, year + 1900);
        mon := mon + 1;
        if mon > 11 {
          mon := 0;
          year := year + 1;
        }
        FollowingMonth(before, Value());
      }
    }

    /** Break a second count down. */
    method Gmtime(t: int)
      modifies this
      ensures Canonical(Value()) && Instant(Value()) == t && Dated() && isdst == -1
    {
      hide DaysSinceEpoch;
      var time := TMod(t, DAY);
      if time < 0 {
        time := time + DAY;
      }
      var date := TDiv(t - time, DAY);
      TimeOfDay(t);
      sec := time;
      mday := 1 + date;
      min, hour, wday, mon, year := 0, 0, 0, 0, 70;
      Epoch();
      assert Instant(Value()) == t;
      Normalize();
      isdst := -1;
    }

    /** The second that the fields denote; the fields are normalised on the way. */
    method Mktime() returns (r: int)
      modifies this
      ensures r == Instant(old(Value())) && Canonical(Value()) && Instant(Value()) == r && Dated()
    {
      hide DaysSinceEpoch;
      Normalize();
      CanonicalDay(Value());
      r := DaysSinceEpoch(year + 1900, mon, mday);
      r := r * 24 + hour;
      r := r * 60 + min;
      r := r * 60 + sec;
    }
  }

  lemma {:induction false} WholeMonths(m: Moment)
    ensures var r := m.(year := m.year + m.mon / 12, mon := m.mon % 12);
            Day(r) == Day(m)
  {
    DivUnique(m.mon % 12, 12, 0, m.mon % 12);
  }

  lemma {:induction false} PreviousMonth(a: Moment, b: Moment)
    requires 0 <= a.mon < 12 && a.mday == b.mday
    requires if a.mon == 0 then b.mon == 11 && b.year == a.year - 1 else b.mon == a.mon - 1 && b.year == a.year
    ensures Day(b) + DaysInMonth(b.mon, b.year + 1900) == Day(a)
  {
    hide DaysSinceEpoch;
    MonthStep(b.year + 1900, b.mon);
  }

  lemma {:induction false} FollowingMonth(a: Moment, b: Moment)
    requires 0 <= a.mon < 12 && b.mday == a.mday - DaysInMonth(a.mon, a.year + 1900)
    requires if a.mon == 11 then b.mon == 0 && b.year == a.year + 1 else b.mon == a.mon + 1 && b.year == a.year
    ensures Day(b) == Day(a)
  {
    hide DaysSinceEpoch;
    MonthStep(a.year + 1900, a.mon);
  }

  lemma {:induction false} TimeOfDay(t: int)
    ensures var time := if TMod(t, DAY) < 0 then TMod(t, DAY) + DAY else TMod(t, DAY);
            time == t % DAY && TDiv(t - time, DAY) == t / DAY
  {
    FloorIs(t, DAY);
  }

  lemma {:induction false} Epoch()
    ensures DaysSinceEpoch(1970, 0, 1) == 0
  {
  }

  /** Normalising canonical fields changes none of them. */
  method NormalizeTwice(tm: Tm)
    requires Canonical(tm.Value())
    modifies tm
    ensures tm.Value() == old(tm.Value())
  {
    tm.Normalize();
    CanonicalUnique(tm.Value(), old(tm.Value()));
  }

  /** mktime undoes gmtime_r for every second. */
  method MktimeOfGmtime(tm: Tm, t: int) returns (r: int)
    modifies tm
    ensures r == t
  {
    tm.Gmtime(t);
    r := tm.Mktime();
  }

  /** gmtime_r of mktime gives the fields that mktime has normalised. */
  method GmtimeOfMktime(tm: Tm, tm2: Tm)
    requires tm != tm2
    modifies tm, tm2
    ensures tm2.Value() == tm.Value()
  {
    var t := tm.Mktime();
    tm2.Gmtime(t);
    CanonicalUnique(tm.Value(), tm2.Value());
  }
}
