/** Calendar arithmetic (tccport/tcc_libc.c, syscall.c), against counting days year by year and month by month. */
module Calendar {

  // ---- the Gregorian calendar, by counting ----

  predicate Leap(y: int) {
    y % 4 == 0 && (y % 100 != 0 || y % 400 == 0)
  }

  function YearLength(y: int): int {
    if Leap(y) then 366 else 365
  }

  function MonthLength(y: int, m: int): int {
    if m == 2 then (if Leap(y) then 29 else 28)
    else if m == 4 || m == 6 || m == 9 || m == 11 then 30
    else 31
  }

  /** Days from the first of January 1970 to that of year `y`, counted year by year in either direction. */
  function YearStart(y: int): int
    decreases if y >= 1970 then y - 1970 else 1970 - y
  {
    if y == 1970 then 0
    else if y > 1970 then YearStart(y - 1) + YearLength(y - 1)
    else YearStart(y + 1) - YearLength(y)
  }

  /** Days of the year before month `m`, counted month by month. */
  function MonthStart(y: int, m: int): int
    requires m >= 1
  {
    if m == 1 then 0 else MonthStart(y, m - 1) + MonthLength(y, m - 1)
  }

  predicate ValidDate(y: int, m: int, d: int) {
    1 <= m <= 12 && 1 <= d <= MonthLength(y, m)
  }

  function CountDays(y: int, m: int, d: int): int
    requires m >= 1
  {
    YearStart(y) + MonthStart(y, m) + d - 1
  }

  // ---- the arithmetic of the source ----

  /** Division that rounds toward zero. */
  function Trunc(a: int, b: int): int
    requires b > 0
  {
    if a >= 0 then a / b else -((-a) / b)
  }

  function Era(y: int): int {
    Trunc(if y >= 0 then y else y - 399, 400)
  }

  /** Days of an era before its year number `yoe`, with years that begin in March. */
  function EraYear(yoe: int): int {
    yoe * 365 + yoe / 4 - yoe / 100
  }

  /** Days before a month of a year that begins in March, counted from 0. */
  function MarchMonth(mp: int): int {
    (153 * mp + 2) / 5
  }

  function DaysFromCivil(y0: int, m: int, d: int): int {
    var y := if m <= 2 then y0 - 1 else y0;
    var era := Era(y);
    var yoe := y - era * 400;
    var doy := MarchMonth(m + (if m > 2 then -3 else 9)) + d - 1;
    var doe := EraYear(yoe) + doy;
    era * 146097 + doe - 719468
  }

  lemma EraIsFloor(y: int)
    ensures Era(y) == y / 400 && y - Era(y) * 400 == y % 400
  {
  }

  /** All days before the March year `y`. */
  function MarchYear(y: int): int {
    365 * y + y / 4 - y / 100 + y / 400
  }

  lemma EraSplits(y: int)
    ensures Era(y) * 146097 + EraYear(y - Era(y) * 400) == MarchYear(y)
  {
    EraIsFloor(y);
    var e, r := y / 400, y % 400;
    assert y / 4 == 100 * e + r / 4 && y / 100 == 4 * e + r / 100;
  }

  lemma MarchYearStep(y: int)
    ensures MarchYear(y) == MarchYear(y - 1) + YearLength(y)
  {
    assert y / 4 == (y - 1) / 4 + if y % 4 == 0 then 1 else 0;
    assert y / 100 == (y - 1) / 100 + if y % 100 == 0 then 1 else 0;
    assert y / 400 == (y - 1) / 400 + if y % 400 == 0 then 1 else 0;
  }

  /** The count of years agrees with the formula. */
  lemma {:induction false} YearStartIs(y: int)
    ensures YearStart(y) == MarchYear(y - 1) + 306 - 719468
    decreases if y >= 1970 then y - 1970 else 1970 - y
  {
    if y > 1970 {
      YearStartIs(y - 1);
      MarchYearStep(y - 1);
    } else if y < 1970 {
      YearStartIs(y + 1);
      MarchYearStep(y);
    }
  }

  lemma MonthStarts(y: int, m: int)
    requires 1 <= m <= 12
    ensures MonthStart(y, m) == if m <= 2 then MarchMonth(m + 9) - 306 else YearLength(y) - 306 + MarchMonth(m - 3)
  {
    assert MonthStart(y, 2) == 31;
    assert m >= 3 ==> MonthStart(y, 3) == 31 + MonthLength(y, 2);
    assert m >= 4 ==> MonthStart(y, 4) == MonthStart(y, 3) + 31;
    assert m >= 5 ==> MonthStart(y, 5) == MonthStart(y, 4) + 30;
    assert m >= 6 ==> MonthStart(y, 6) == MonthStart(y, 5) + 31;
    assert m >= 7 ==> MonthStart(y, 7) == MonthStart(y, 6) + 30;
    assert m >= 8 ==> MonthStart(y, 8) == MonthStart(y, 7) + 31;
    assert m >= 9 ==> MonthStart(y, 9) == MonthStart(y, 8) + 31;
    assert m >= 10 ==> MonthStart(y, 10) == MonthStart(y, 9) + 30;
    assert m >= 11 ==> MonthStart(y, 11) == MonthStart(y, 10) + 31;
    assert m >= 12 ==> MonthStart(y, 12) == MonthStart(y, 11) + 30;
  }

  /** The formula counts the days, for every date of every year. */
  lemma DaysFromCivilCounts(y: int, m: int, d: int)
    requires ValidDate(y, m, d)
    ensures DaysFromCivil(y, m, d) == CountDays(y, m, d)
  {
    YearStartIs(y);
    MonthStarts(y, m);
    MarchYearStep(y);
    EraSplits(if m <= 2 then y - 1 else y);
  }

  // ---- back from days to dates ----

  datatype Date = Date(y: int, m: int, d: int)

  function YearOfEra(doe: int): int {
    (doe - doe / 1460 + doe / 36524 - doe / 146096) / 365
  }

  /** Day `doy` of the year that begins in March of `y`. */
  function FromMarch(y: int, doy: int): Date {
    var mp := (5 * doy + 2) / 153;
    var d := doy - MarchMonth(mp) + 1;
    var m := if mp < 10 then mp + 3 else mp - 9;
    Date(if m <= 2 then y + 1 else y, m, d)
  }

  function FromEra(era: int, doe: int): Date {
    var yoe := YearOfEra(doe);
    FromMarch(yoe + era * 400, doe - EraYear(yoe))
  }

  function EraOfDay(z: int): (era: int)
    ensures 0 <= z - era * 146097 < 146097
  {
    Trunc(if z >= 0 then z else z - 146096, 146097)
  }

  function CivilFromDays(days: int): Date {
    var z := days + 719468;
    FromEra(EraOfDay(z), z - EraOfDay(z) * 146097)
  }

  /** A day of an era as centuries, four-year groups, years and days. */
  lemma SplitEra(doe: int) returns (a: int, b: int, c: int, r: int)
    requires 0 <= doe < 146097
    ensures 0 <= a <= 3 && 0 <= b <= 24 && 0 <= c <= 3 && 0 <= r <= 365
    ensures doe == 36524 * a + 1461 * b + 365 * c + r
    ensures r == 365 ==> c == 3 && (b == 24 ==> a == 3)
  {
    a := if doe / 36524 < 3 then doe / 36524 else 3;
    var r1 := doe - 36524 * a;
    b := if r1 / 1461 < 24 then r1 / 1461 else 24;
    var r2 := r1 - 1461 * b;
    c := if r2 / 365 < 3 then r2 / 365 else 3;
    r := r2 - 365 * c;
  }

  lemma Quotient(x: int, d: int, q: int)
    requires d > 0 && d * q <= x < d * q + d
    ensures x / d == q
  {
    var p := x / d;
    assert d * p <= x < d * p + d;
    Scaled(d, p + 1, if p < q then q else p + 1);
    Scaled(d, q + 1, if q < p then p else q + 1);
  }

  lemma Scaled(d: int, x: int, y: int)
    requires d > 0 && x <= y
    ensures d * x <= d * y
  {
  }

  lemma EraYearIs(a: int, b: int, c: int)
    requires 0 <= a <= 3 && 0 <= b <= 24 && 0 <= c <= 3
    ensures EraYear(100 * a + 4 * b + c) == 36524 * a + 1461 * b + 365 * c
  {
    Quotient(100 * a + 4 * b + c, 4, 25 * a + b);
    Quotient(100 * a + 4 * b + c, 100, a);
  }

  /** The formula for the year of an era finds the year that the day is in. */
  lemma YearOfEraIs(doe: int, a: int, b: int, c: int, r: int)
    requires 0 <= a <= 3 && 0 <= b <= 24 && 0 <= c <= 3 && 0 <= r <= 365
    requires doe == 36524 * a + 1461 * b + 365 * c + r < 146097 && (r == 365 ==> c == 3 && (b == 24 ==> a == 3))
    ensures YearOfEra(doe) == 100 * a + 4 * b + c
  {
    var n := 100 * a + 4 * b + c;
    var over := 24 * a + b + 365 * c + r;
    var e := if over >= 1460 then 1 else 0;
    Quotient(doe, 1460, 25 * a + b + e);
    var top := if doe == 146096 then 1 else 0;
    Quotient(doe, 146096, top);
    Quotient(doe, 36524, a + top);
    Quotient(doe - doe / 1460 + doe / 36524 - doe / 146096, 365, n);
  }

  /** Days of a March year to month and day, and back. */
  lemma MonthOfDay(doy: int)
    requires 0 <= doy <= 365
    ensures
      var mp := (5 * doy + 2) / 153;
      && 0 <= mp <= 11 && MarchMonth(mp) <= doy
      && (if mp == 11 then doy - MarchMonth(mp) <= 28 && (doy - MarchMonth(mp) == 28 ==> doy == 365)
          else doy < MarchMonth(mp + 1))
  {
    var mp := (5 * doy + 2) / 153;
    assert 153 * mp <= 5 * doy + 2 < 153 * mp + 153;
  }

  lemma MarchMonthLengths(y: int, mp: int)
    requires 0 <= mp <= 10
    ensures
      var m := if mp < 10 then mp + 3 else mp - 9;
      MarchMonth(mp + 1) - MarchMonth(mp) == MonthLength(y, m)
  {
  }

  /** The date of a day of a March year is one, and has that number. */
  lemma FromMarchIs(y: int, doy: int)
    requires 0 <= doy <= 365 && (doy == 365 ==> Leap(y + 1))
    ensures
      var c := FromMarch(y, doy);
      ValidDate(c.y, c.m, c.d) && DaysFromCivil(c.y, c.m, c.d) == MarchYear(y) + doy - 719468
  {
    MonthOfDay(doy);
    var mp := (5 * doy + 2) / 153;
    var c := FromMarch(y, doy);
    if mp <= 10 {
      MarchMonthLengths(c.y, mp);
    }
    EraSplits(y);
  }

  lemma FromEraIs(era: int, doe: int)
    requires 0 <= doe < 146097
    ensures
      var c := FromEra(era, doe);
      ValidDate(c.y, c.m, c.d) && DaysFromCivil(c.y, c.m, c.d) == era * 146097 + doe - 719468
  {
    var a, b, c, r := SplitEra(doe);
    var yoe := 100 * a + 4 * b + c;
    YearOfEraIs(doe, a, b, c, r);
    EraYearIs(a, b, c);
    LeapYears(era, a, b, c, r);
    FromEraAt(era, doe, yoe, r);
  }

  lemma FromEraAt(era: int, doe: int, yoe: int, r: int)
    requires YearOfEra(doe) == yoe && 0 <= yoe < 400 && doe == EraYear(yoe) + r && 0 <= r <= 365
    requires r == 365 ==> Leap(yoe + era * 400 + 1)
    ensures
      var c := FromEra(era, doe);
      ValidDate(c.y, c.m, c.d) && DaysFromCivil(c.y, c.m, c.d) == era * 146097 + doe - 719468
  {
    SameDate(era, doe, yoe, r);
    FromMarchIs(yoe + era * 400, r);
    InEra(era, yoe);
  }

  lemma SameDate(era: int, doe: int, yoe: int, r: int)
    requires YearOfEra(doe) == yoe && doe == EraYear(yoe) + r
    ensures FromEra(era, doe) == FromMarch(yoe + era * 400, r)
  {
  }

  lemma InEra(era: int, yoe: int)
    requires 0 <= yoe < 400
    ensures MarchYear(yoe + era * 400) == era * 146097 + EraYear(yoe)
  {
    var y := yoe + era * 400;
    Quotient(y, 400, era);
    Quotient(y, 4, 100 * era + yoe / 4);
    Quotient(y, 100, 4 * era + yoe / 100);
  }

  /** Every day number is the number of the date computed from it, and that date is one. */
  lemma CivilFromDaysIsInverse(days: int)
    ensures var c := CivilFromDays(days); ValidDate(c.y, c.m, c.d) && DaysFromCivil(c.y, c.m, c.d) == days
  {
    var z := days + 719468;
    FromEraIs(EraOfDay(z), z - EraOfDay(z) * 146097);
  }

  /** The last day of a leap year's February is the 366th of the March year before. */
  lemma LeapYears(era: int, a: int, b: int, c: int, r: int)
    requires 0 <= a <= 3 && 0 <= b <= 24 && 0 <= c <= 3 && 0 <= r <= 365
    requires r == 365 ==> c == 3 && (b == 24 ==> a == 3)
    ensures r == 365 ==> Leap(100 * a + 4 * b + c + era * 400 + 1)
  {
    if r == 365 {
      var y := 100 * a + 4 * b + 4 + era * 400;
      assert y % 4 == 0;
      if b < 24 {
        Quotient(y, 100, a + 4 * era);
      } else {
        assert y == 400 * (era + 1);
      }
    }
  }

  /** Dates and day numbers correspond one to one. */
  lemma CivilOfDate(y: int, m: int, d: int)
    requires ValidDate(y, m, d)
    ensures CivilFromDays(DaysFromCivil(y, m, d)) == Date(y, m, d)
  {
    var c := CivilFromDays(DaysFromCivil(y, m, d));
    CivilFromDaysIsInverse(DaysFromCivil(y, m, d));
    DaysFromCivilCounts(y, m, d);
    DaysFromCivilCounts(c.y, c.m, c.d);
    OneDateADay(y, m, d, c.y, c.m, c.d);
  }

  lemma {:induction false} YearStartGrows(y: int, z: int)
    requires y < z
    ensures YearStart(y) + YearLength(y) <= YearStart(z)
    decreases z - y
  {
    if z == y + 1 {
      YearStep(y);
    } else {
      YearStartGrows(y, z - 1);
      YearStep(z - 1);
    }
  }

  lemma YearStep(y: int)
    ensures YearStart(y + 1) == YearStart(y) + YearLength(y)
  {
  }

  lemma {:induction false} MonthStartGrows(y: int, m: int, n: int)
    requires 1 <= m < n
    ensures MonthStart(y, m) + MonthLength(y, m) <= MonthStart(y, n)
    decreases n - m
  {
    if m + 1 < n {
      MonthStartGrows(y, m, n - 1);
    }
  }

  lemma InYear(y: int, m: int, d: int)
    requires ValidDate(y, m, d)
    ensures 0 <= MonthStart(y, m) + d - 1 < YearLength(y)
  {
    MonthStarts(y, m);
    MonthStarts(y, 12);
    if m > 1 {
      MonthStartGrows(y, 1, m);
    }
    if m < 12 {
      MonthStartGrows(y, m, 12);
    }
  }

  lemma OneDateADay(y: int, m: int, d: int, y': int, m': int, d': int)
    requires ValidDate(y, m, d) && ValidDate(y', m', d') && CountDays(y, m, d) == CountDays(y', m', d')
    ensures y == y' && m == m' && d == d'
  {
    InYear(y, m, d);
    InYear(y', m', d');
    if y < y' {
      YearStartGrows(y, y');
    } else if y' < y {
      YearStartGrows(y', y);
    } else if m < m' {
      MonthStartGrows(y, m, m');
    } else if m' < m {
      MonthStartGrows(y, m', m);
    }
  }

  // ---- localtime ----

  datatype Local = Local(date: Date, hour: int, min: int, sec: int, wday: int, yday: int)

  function TruncRem(a: int, b: int): int
    requires b > 0
  {
    a - b * Trunc(a, b)
  }

  /** The day that a number of seconds falls on. */
  function DayOf(t: int): int {
    if TruncRem(t, 86400) < 0 then Trunc(t, 86400) - 1 else Trunc(t, 86400)
  }

  /** The seconds into that day. */
  function RestOf(t: int): int {
    if TruncRem(t, 86400) < 0 then TruncRem(t, 86400) + 86400 else TruncRem(t, 86400)
  }

  function DayOfWeek(days: int): (w: int)
    ensures w == (days + 4) % 7
  {
    var w := TruncRem(days + 4, 7);
    if w < 0 then w + 7 else w
  }

  function LocalOf(days: int, rem: int): Local {
    var date := CivilFromDays(days);
    Local(date, rem / 3600, rem % 3600 / 60, rem % 60, DayOfWeek(days), days - DaysFromCivil(date.y, 1, 1))
  }

  function LocalTime(t: int): Local {
    LocalOf(DayOf(t), RestOf(t))
  }

  /** Seconds since the epoch of a date and a time of day. */
  function Epoch(y: int, m: int, d: int, hour: int, min: int, sec: int): int {
    DaysFromCivil(y, m, d) * 86400 + hour * 3600 + min * 60 + sec
  }

  lemma FloorDays(t: int, days: int, rem: int)
    requires t == 86400 * days + rem && 0 <= rem < 86400
    ensures DayOf(t) == days && RestOf(t) == rem
  {
    if t >= 0 {
      Quotient(t, 86400, days);
    } else if rem == 0 {
      Quotient(-t, 86400, -days);
    } else {
      Quotient(-t, 86400, -days - 1);
    }
  }

  lemma TimeOfDay(hour: int, min: int, sec: int)
    requires 0 <= hour < 24 && 0 <= min < 60 && 0 <= sec < 60
    ensures
      var rem := hour * 3600 + min * 60 + sec;
      rem / 3600 == hour && rem % 3600 / 60 == min && rem % 60 == sec && 0 <= rem < 86400
  {
    var rem := hour * 3600 + min * 60 + sec;
    Quotient(rem, 3600, hour);
    Quotient(rem % 3600, 60, min);
    Quotient(rem, 60, 60 * hour + min);
  }

  /** localtime undoes time, for every date and time of day, with the day of the year and the day of the week. */
  lemma LocalTimeOfEpoch(y: int, m: int, d: int, hour: int, min: int, sec: int)
    requires ValidDate(y, m, d) && 0 <= hour < 24 && 0 <= min < 60 && 0 <= sec < 60
    ensures
      LocalTime(Epoch(y, m, d, hour, min, sec))
        == Local(Date(y, m, d), hour, min, sec, (CountDays(y, m, d) + 4) % 7, MonthStart(y, m) + d - 1)
  {
    var days, rem := DaysFromCivil(y, m, d), hour * 3600 + min * 60 + sec;
    TimeOfDay(hour, min, sec);
    FloorDays(Epoch(y, m, d, hour, min, sec), days, rem);
    LocalOfDate(y, m, d, rem);
  }

  lemma LocalOfDate(y: int, m: int, d: int, rem: int)
    requires ValidDate(y, m, d)
    ensures
      var l := LocalOf(DaysFromCivil(y, m, d), rem);
      && l.date == Date(y, m, d) && l.wday == (CountDays(y, m, d) + 4) % 7 && l.yday == MonthStart(y, m) + d - 1
  {
    CivilOfDate(y, m, d);
    DaysFromCivilCounts(y, m, d);
    DaysFromCivilCounts(y, 1, 1);
  }

  lemma SplitRest(rem: int)
    requires 0 <= rem < 86400
    ensures 0 <= rem / 3600 < 24 && 0 <= rem % 3600 / 60 < 60 && 0 <= rem % 60 < 60
    ensures rem / 3600 * 3600 + rem % 3600 / 60 * 60 + rem % 60 == rem
  {
    var h, u := rem / 3600, rem % 3600;
    assert rem == 3600 * h + u && u == u / 60 * 60 + u % 60;
    Quotient(rem, 60, 60 * h + u / 60);
  }

  /** time undoes localtime, for every number of seconds. */
  lemma EpochOfLocalTime(t: int)
    ensures
      var l := LocalTime(t);
      && ValidDate(l.date.y, l.date.m, l.date.d) && 0 <= l.hour < 24 && 0 <= l.min < 60 && 0 <= l.sec < 60
      && Epoch(l.date.y, l.date.m, l.date.d, l.hour, l.min, l.sec) == t
  {
    var days, rem := t / 86400, t % 86400;
    FloorDays(t, days, rem);
    CivilFromDaysIsInverse(days);
    SplitRest(rem);
  }
}
