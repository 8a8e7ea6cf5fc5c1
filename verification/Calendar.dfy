/**
  time_gmtime of src/core/shs_time.cc:76-153: Gauss's calendar arithmetic, against the
  Gregorian calendar counted year by year and month by month.
*/
module Calendar {

  datatype Tm = Tm(year: int, mon: int, mday: int, hour: int, min: int, sec: int, wday: int)

  // ----- the calendar -----

  predicate IsLeap(y: int) {
    y % 4 == 0 && (y % 100 != 0 || y % 400 == 0)
  }

  function YearLength(y: int): int {
    if IsLeap(y) then 366 else 365
  }

  function MonthLength(y: int, m: int): int {
    if m == 2 then (if IsLeap(y) then 29 else 28)
    else if m == 4 || m == 6 || m == 9 || m == 11 then 30 else 31
  }

  /** Days from January 1, 1970 to January 1 of the year `y`. */
  ghost function DaysBeforeYear(y: int): int
    requires y >= 1970
    decreases y
  {
    if y == 1970 then 0 else DaysBeforeYear(y - 1) + YearLength(y - 1)
  }

  /** Days from January 1 to the first day of the month `m`. */
  ghost function DaysBeforeMonth(y: int, m: int): int
    requires 1 <= m <= 13
    decreases m
  {
    if m == 1 then 0 else DaysBeforeMonth(y, m - 1) + MonthLength(y, m - 1)
  }

  /** The date exists, and the time of day is in range. */
  ghost predicate Exists(tm: Tm) {
    && tm.year >= 1970 && 1 <= tm.mon <= 12 && 1 <= tm.mday <= MonthLength(tm.year, tm.mon)
    && 0 <= tm.hour < 24 && 0 <= tm.min < 60 && 0 <= tm.sec < 60
  }

  ghost function DayNumber(tm: Tm): int
    requires Exists(tm)
  {
    DaysBeforeYear(tm.year) + DaysBeforeMonth(tm.year, tm.mon) + tm.mday - 1
  }

  ghost function SecondsOf(tm: Tm): int
    requires Exists(tm)
  {
    DayNumber(tm) * 86400 + tm.hour * 3600 + tm.min * 60 + tm.sec
  }

  // ----- closed forms -----

  /** Days from March 1 of the year 0 to March 1 of the year `y`. */
  function MarchFirst(y: int): int {
    365 * y + y / 4 - y / 100 + y / 400
  }

  lemma MarchStep(y: int)
    requires y >= 1
    ensures MarchFirst(y) == MarchFirst(y - 1) + YearLength(y)
  {
    QuotientStep(y, 4);
    QuotientStep(y, 100);
    QuotientStep(y, 400);
  }

  lemma QuotientStep(y: int, k: int)
    requires y >= 1 && (k == 4 || k == 100 || k == 400)
    ensures y / k == (y - 1) / k + if y % k == 0 then 1 else 0
  {
  }

  /** January 1 lies 306 days after the March 1 before it; 719468 days separate the two epochs. */
  lemma {:induction false} YearsAreClosedForm(y: int)
    requires y >= 1970
    ensures DaysBeforeYear(y) == MarchFirst(y - 1) + 306 - 719468
    decreases y
  {
    if y > 1970 {
      YearsAreClosedForm(y - 1);
      MarchStep(y - 1);
    }
  }

  lemma MonthsAreTable(y: int)
    ensures DaysBeforeMonth(y, 1) == 0 && DaysBeforeMonth(y, 2) == 31
    ensures var l := if IsLeap(y) then 1 else 0;
      && DaysBeforeMonth(y, 3) == 59 + l && DaysBeforeMonth(y, 4) == 90 + l && DaysBeforeMonth(y, 5) == 120 + l
      && DaysBeforeMonth(y, 6) == 151 + l && DaysBeforeMonth(y, 7) == 181 + l && DaysBeforeMonth(y, 8) == 212 + l
      && DaysBeforeMonth(y, 9) == 243 + l && DaysBeforeMonth(y, 10) == 273 + l && DaysBeforeMonth(y, 11) == 304 + l
      && DaysBeforeMonth(y, 12) == 334 + l
  {
    assert DaysBeforeMonth(y, 3) == DaysBeforeMonth(y, 2) + MonthLength(y, 2);
    assert DaysBeforeMonth(y, 5) == DaysBeforeMonth(y, 4) + 30;
    assert DaysBeforeMonth(y, 7) == DaysBeforeMonth(y, 6) + 30;
    assert DaysBeforeMonth(y, 9) == DaysBeforeMonth(y, 8) + 31;
    assert DaysBeforeMonth(y, 11) == DaysBeforeMonth(y, 10) + 31;
  }

  /** Gauss's estimate of the year is right or one too large. */
  lemma YearEstimate(days: int)
    requires days >= 0
    ensures var y := (days + 2) * 400 / 146097; days < MarchFirst(y + 1) && (y == 0 || MarchFirst(y) - YearLength(y) <= days)
    ensures var y := (days + 2) * 400 / 146097; y == 0 ==> MarchFirst(y) <= days
  {
    var y := (days + 2) * 400 / 146097;
    assert y * 146097 <= (days + 2) * 400 < (y + 1) * 146097;
    Bounds(y);
    Bounds(y + 1);
  }

  /** 400 * MarchFirst(y) stays close to 146097 * y. */
  lemma Bounds(y: int)
    requires y >= 0
    ensures 146097 * y - 600 <= 400 * MarchFirst(y) <= 146097 * y + 297
  {
    var q, c := y / 400, y % 400;
    var r, b := c / 100, c % 100;
    assert y == 400 * q + 100 * r + b;
    assert y / 100 == 4 * q + r;
    assert y / 4 == 100 * q + 25 * r + b / 4;
    assert 400 * MarchFirst(y) - 146097 * y == 400 * (b / 4) - 97 * b - 100 * r;
  }

  // ----- the day within the year that starts in March -----

  /**
    The day `yday` of the year that starts on March 1 of `y` falls in the calendar year `r.0`, month `r.1`, day `r.2`.
  */
  function FromMarch(y: int, yday: int): (r: (int, int, int))
  {
    var mon := (yday + 31) * 10 / 306;
    var mday := yday - (367 * mon / 12 - 30) + 1;
    if yday >= 306 then (y + 1, mon - 10, mday) else (y, mon + 2, mday)
  }

  lemma MonthFormula(y: int, yday: int)
    requires y >= 1969 && 0 <= yday < YearLength(y + 1) && (y == 1969 ==> yday >= 306)
    ensures var (year, mon, mday) := FromMarch(y, yday);
      && year >= 1970 && 1 <= mon <= 12 && 1 <= mday <= MonthLength(year, mon)
      && DaysBeforeYear(year) + DaysBeforeMonth(year, mon) + mday - 1 == MarchFirst(y) + yday - 719468
  {
    var (year, mon, mday) := FromMarch(y, yday);
    MarchStep(y);
    YearsAreClosedForm(year);
    MonthsAreTable(year);
  }

  // ----- dates are counted without gaps or repeats -----

  lemma {:induction false} YearsIncrease(y: int, z: int)
    requires 1970 <= y <= z
    ensures DaysBeforeYear(y) + 365 * (z - y) <= DaysBeforeYear(z)
    decreases z
  {
    if y < z { YearsIncrease(y, z - 1); }
  }

  lemma {:induction false} MonthsIncrease(y: int, m: int, n: int)
    requires 1 <= m < n <= 13
    ensures DaysBeforeMonth(y, m) + MonthLength(y, m) <= DaysBeforeMonth(y, n)
    decreases n
  {
    if m + 1 < n { MonthsIncrease(y, m, n - 1); }
  }

  /** A date lies within its year. */
  lemma WithinYear(tm: Tm)
    requires Exists(tm)
    ensures DaysBeforeYear(tm.year) <= DayNumber(tm) < DaysBeforeYear(tm.year + 1)
  {
    MonthsAreTable(tm.year);
  }

  /** An earlier calendar date has a smaller day number. */
  lemma EarlierIsSmaller(a: Tm, b: Tm)
    requires Exists(a) && Exists(b)
    requires a.year < b.year || (a.year == b.year && (a.mon < b.mon || (a.mon == b.mon && a.mday < b.mday)))
    ensures DayNumber(a) < DayNumber(b)
  {
    if a.year < b.year {
      WithinYear(a);
      WithinYear(b);
      YearsIncrease(a.year + 1, b.year);
    } else if a.mon < b.mon {
      MonthsIncrease(a.year, a.mon, b.mon);
    }
  }

  /** No two dates share a second count. */
  lemma DateIsUnique(a: Tm, b: Tm)
    requires Exists(a) && Exists(b) && SecondsOf(a) == SecondsOf(b)
    ensures a.(wday := b.wday) == b
  {
    var p, q := a.hour * 3600 + a.min * 60 + a.sec, b.hour * 3600 + b.min * 60 + b.sec;
    assert DayNumber(a) == DayNumber(b) && p == q by {
      assert 0 <= p < 86400 && 0 <= q < 86400;
    }
    if a.year != b.year || a.mon != b.mon || a.mday != b.mday {
      if a.year < b.year || (a.year == b.year && (a.mon < b.mon || (a.mon == b.mon && a.mday < b.mday))) {
        EarlierIsSmaller(a, b);
      } else {
        EarlierIsSmaller(b, a);
      }
    }
  }

  /** January 1, 1970 was a Thursday, and the days of the week follow one another. */
  ghost function Weekday(day: nat): int {
    if day == 0 then 4 else if Weekday(day - 1) == 6 then 0 else Weekday(day - 1) + 1
  }

  lemma {:induction false} WeekdayIsRemainder(day: nat)
    ensures Weekday(day) == (4 + day) % 7
  {
    if day > 0 { WeekdayIsRemainder(day - 1); }
  }

  // ----- time_gmtime -----

  newtype uint32 = x: int | 0 <= x < 0x1_0000_0000
  newtype int32 = x: int | -0x8000_0000 <= x < 0x8000_0000

  /** Unsigned 32-bit arithmetic. */
  function Wrap(x: int): uint32 {
    (x % 0x1_0000_0000) as uint32
  }

  /** The year that starts in March, and the day within it. */
  method MarchYear(days: uint32) returns (year: uint32, yday: int32)
    requires 719468 <= days < 800000
    ensures 1969 <= year < 3000 && 0 <= yday as int < YearLength(year as int + 1)
    ensures MarchFirst(year as int) + yday as int == days as int
  {
    YearEstimate(days as int);
    year := (days + 2) * 400 / (365 * 400 + 100 - 4 + 1);
    MarchStep(year as int + 1);
    MarchStep(year as int);
    yday := (days as int - (365 * year + year / 4 - year / 100 + year / 400) as int) as int32;
    if yday < 0 {
      var leap := if year % 4 == 0 && (year % 100 != 0 || year % 400 == 0) then 1 else 0;
      yday := 365 + leap + yday;
      year := year - 1;
    }
  }

  /** The day and the time of day of a 32-bit count of seconds. */
  method TimeOfDay(t: uint32) returns (days: uint32, hour: uint32, min: uint32, sec: uint32)
    ensures 0 <= days <= 49710 && 0 <= hour < 24 && 0 <= min < 60 && 0 <= sec < 60
    ensures t as int == days as int * 86400 + hour as int * 3600 + min as int * 60 + sec as int
  {
    var n := t;
    days := n / 86400;
    n := n % 86400;
    hour := n / 3600;
    n := n % 3600;
    min, sec := n / 60, n % 60;
  }

  /**
    Days counted from March 1 of the year 0: before March 1, 1970 the difference wraps below zero and the sum wraps
    back.
  */
  lemma WrapsBack(days: int)
    requires 0 <= days <= 49710
    ensures Wrap(Wrap(days - (31 + 28)) as int + 719527) as int == days + 719468
  {
    if days < 59 {
      assert Wrap(days - 59) as int == days - 59 + 0x1_0000_0000;
      assert days + 719468 + 0x1_0000_0000 == (days - 59 + 0x1_0000_0000) + 719527;
    }
  }

  /**
    The fields written for `t` are the one date, time and weekday that lie t seconds, taken in 32 bits, after the
    epoch.
  */
  method Gmtime(t: nat) returns (tm: Tm)
    ensures Exists(tm) && SecondsOf(tm) == t % 0x1_0000_0000
    ensures tm.wday == Weekday(DayNumber(tm))
  {
    var days, hour, min, sec := TimeOfDay(Wrap(t));
    WeekdayIsRemainder(days as nat);
    var wday := (4 + days) % 7;
    WrapsBack(days as int);
    days := Wrap(Wrap(days as int - (31 + 28)) as int + 719527);
    var year, yday := MarchYear(days);
    MonthFormula(year as int, yday as int);
    var mon := ((yday + 31) * 10 / 306) as uint32;
    var mday := yday as uint32 - (367 * mon / 12 - 30) + 1;
    if yday >= 306 {
      year := year + 1;
      mon := mon - 10;
    } else {
      mon := mon + 2;
    }
    tm := Tm(year as int, mon as int, mday as int, hour as int, min as int, sec as int, wday as int);
  }
}
