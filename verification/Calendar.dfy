/** Civil dates from a day count: the closed form used for labels against the counting
    loops used for log lines, and both against the Gregorian calendar. */
module Calendar {

  datatype Date = Date(y: nat, m: nat, d: nat)

  // --- The Gregorian calendar --------------------------------------------------------

  predicate Leap(y: nat) {
    (y % 4 == 0 && y % 100 != 0) || y % 400 == 0
  }

  function YearLength(y: nat): nat {
    if Leap(y) then 366 else 365
  }

  function MonthLengths(y: nat): seq<nat> {
    [31, if Leap(y) then 29 else 28, 31, 30, 31, 30, 31, 31, 30, 31, 30, 31]
  }

  predicate Valid(date: Date) {
    && date.y >= 1970
    && 1 <= date.m <= 12
    && 1 <= date.d <= MonthLengths(date.y)[date.m - 1]
  }

  /** Days from 1970-01-01 to the first day of year y. */
  function YearStart(y: nat): nat
    requires y >= 1970
  {
    if y == 1970 then 0 else YearStart(y - 1) + YearLength(y - 1)
  }

  /** Days from the first day of year y to the first day of its month m, or to the first
      day of the next year when m is 13. */
  function MonthStart(y: nat, m: nat): nat
    requires 1 <= m <= 13
  {
    if m == 1 then 0 else MonthStart(y, m - 1) + MonthLengths(y)[m - 2]
  }

  /** Days from 1970-01-01 to a date. */
  function DayNumber(date: Date): nat
    requires Valid(date)
  {
    YearStart(date.y) + MonthStart(date.y, date.m) + date.d - 1
  }

  /** The day after. */
  function Next(date: Date): Date
    requires Valid(date)
  {
    if date.d < MonthLengths(date.y)[date.m - 1] then date.(d := date.d + 1)
    else if date.m < 12 then Date(date.y, date.m + 1, 1)
    else Date(date.y + 1, 1, 1)
  }

  /** Cumulative month lengths, written out. */
  lemma MonthStarts(y: nat)
    ensures var leap := if Leap(y) then 1 else 0;
            && MonthStart(y, 1) == 0 && MonthStart(y, 2) == 31 && MonthStart(y, 3) == 59 + leap
            && MonthStart(y, 4) == 90 + leap && MonthStart(y, 5) == 120 + leap && MonthStart(y, 6) == 151 + leap
            && MonthStart(y, 7) == 181 + leap && MonthStart(y, 8) == 212 + leap && MonthStart(y, 9) == 243 + leap
            && MonthStart(y, 10) == 273 + leap && MonthStart(y, 11) == 304 + leap && MonthStart(y, 12) == 334 + leap
            && MonthStart(y, 13) == YearLength(y)
  {
    assert MonthStart(y, 3) == MonthStart(y, 2) + MonthLengths(y)[1];
    assert MonthStart(y, 5) == MonthStart(y, 4) + 30;
    assert MonthStart(y, 7) == MonthStart(y, 6) + 30;
    assert MonthStart(y, 9) == MonthStart(y, 8) + 31;
    assert MonthStart(y, 11) == MonthStart(y, 10) + 31;
    assert MonthStart(y, 13) == MonthStart(y, 12) + 31;
  }

  /** Consecutive days have consecutive numbers. */
  lemma NextIsNextDay(date: Date)
    requires Valid(date)
    ensures Valid(Next(date)) && DayNumber(Next(date)) == DayNumber(date) + 1
  {
    MonthStarts(date.y);
    if date.m == 12 && date.d == 31 {
      assert MonthStart(date.y, 13) == MonthStart(date.y, 12) + 31;
    }
  }

  lemma WithinYear(date: Date)
    requires Valid(date)
    ensures YearStart(date.y) <= DayNumber(date) < YearStart(date.y + 1)
    ensures MonthStart(date.y, date.m) <= DayNumber(date) - YearStart(date.y) < MonthStart(date.y, date.m + 1)
  {
    MonthStarts(date.y);
  }

  lemma {:induction false} YearsIncrease(y: nat, z: nat)
    requires 1970 <= y < z
    ensures YearStart(y + 1) <= YearStart(z)
    decreases z - y
  {
    if y + 1 < z {
      YearsIncrease(y, z - 1);
    }
  }

  lemma {:induction false} MonthsIncrease(y: nat, m: nat, n: nat)
    requires 1 <= m < n <= 13
    ensures MonthStart(y, m + 1) <= MonthStart(y, n)
    decreases n - m
  {
    if m + 1 < n {
      MonthsIncrease(y, m, n - 1);
    }
  }

  /** A day number belongs to one date only. */
  lemma DateIsUnique(a: Date, b: Date)
    requires Valid(a) && Valid(b) && DayNumber(a) == DayNumber(b)
    ensures a == b
  {
    hide YearStart, MonthStart;
    WithinYear(a);
    WithinYear(b);
    if a.y < b.y {
      YearsIncrease(a.y, b.y);
    } else if b.y < a.y {
      YearsIncrease(b.y, a.y);
    } else if a.m < b.m {
      MonthsIncrease(a.y, a.m, b.m);
    } else if b.m < a.m {
      MonthsIncrease(a.y, b.m, a.m);
    }
  }

  lemma YearStartStep(y: nat)
    requires y >= 1970
    ensures YearStart(1970) == 0 && YearStart(y + 1) == YearStart(y) + YearLength(y)
  {
  }

  lemma MonthStartStep(y: nat, m: nat)
    requires 1 <= m <= 12
    ensures MonthStart(y, m + 1) == MonthStart(y, m) + MonthLengths(y)[m - 1]
  {
  }

  // --- The closed form -------------------------------------------------------------------

  function DaysToYmd(days: nat): Date {
    var z := days + 719468;
    var era := z / 146097;
    var doe := z % 146097;
    var yoe := (doe - doe / 1460 + doe / 36524 - doe / 146096) / 365;
    var y := yoe + era * 400;
    var doy := doe - (365 * yoe + yoe / 4 - yoe / 100);
    var mp := (5 * doy + 2) / 153;
    var d := doy - (153 * mp + 2) / 5 + 1;
    var m := if mp < 10 then mp + 3 else mp - 9;
    Date(if m <= 2 then y + 1 else y, m, d)
  }

  /** A day of the 400-year era, counted from 1 March of its first year, as a century,
      a four-year cycle, a year in it and a day in that year. */
  datatype EraDay = EraDay(c: nat, q: nat, t: nat, u: nat)

  predicate InEra(e: EraDay) {
    && e.c <= 3 && e.q <= 24 && e.t <= 3 && e.u <= 365
    && (e.u == 365 ==> e.t == 3 && (e.q == 24 ==> e.c == 3))
  }

  function EraYear(e: EraDay): nat { 100 * e.c + 4 * e.q + e.t }

  function EraDayNumber(e: EraDay): nat { 36524 * e.c + 1461 * e.q + 365 * e.t + e.u }

  lemma EraDayOf(doe: nat) returns (e: EraDay)
    requires doe < 146097
    ensures InEra(e) && EraDayNumber(e) == doe
  {
    var c := if doe / 36524 < 3 then doe / 36524 else 3;
    var r := doe - 36524 * c;
    var q := r / 1461;
    var s := r - 1461 * q;
    var t := if s / 365 < 3 then s / 365 else 3;
    e := EraDay(c, q, t, s - 365 * t);
  }

  /** The four divisions of the closed form cancel to the year of the era. */
  lemma EraYearFormula(e: EraDay)
    requires InEra(e)
    ensures var doe := EraDayNumber(e);
            (doe - doe / 1460 + doe / 36524 - doe / 146096) / 365 == EraYear(e)
  {
    var doe := EraDayNumber(e);
    var s := 365 * e.t + e.u;
    var extra := if 24 * e.c + e.q + s >= 1460 then 1 else 0;
    assert doe / 1460 == 25 * e.c + e.q + extra;
    assert doe / 36524 - doe / 146096 == e.c;
    assert (365 * EraYear(e) + e.u - extra) / 365 == EraYear(e);
  }

  /** What the year of the era leaves is the day of the year, and 1 March of the next
      year is one day further off exactly when that year is a leap year. */
  lemma EraDayFormula(e: EraDay, era: nat)
    requires InEra(e)
    ensures var yoe := EraYear(e);
            && yoe < 400
            && EraDayNumber(e) - (365 * yoe + yoe / 4 - yoe / 100) == e.u
            && (e.u == 365 ==> Leap(400 * era + yoe + 1))
  {
    Quarters(25 * e.c + e.q, e.t);
    Hundreds(e.c, 4 * e.q + e.t);
    if e.u == 365 {
      LastDayIsLeap(e, era);
    }
  }

  lemma Quarters(k: nat, r: nat)
    requires r < 4
    ensures (4 * k + r) / 4 == k && (4 * k + r) % 4 == r
  {
  }

  lemma Hundreds(k: nat, r: nat)
    requires r < 100
    ensures (100 * k + r) / 100 == k && (100 * k + r) % 100 == r
  {
  }

  lemma FourHundreds(k: nat, r: nat)
    requires r < 400
    ensures (400 * k + r) / 400 == k && (400 * k + r) % 400 == r
  {
  }

  lemma LastDayIsLeap(e: EraDay, era: nat)
    requires InEra(e) && e.u == 365
    ensures Leap(400 * era + EraYear(e) + 1)
  {
    var y := 400 * era + EraYear(e) + 1;
    Quarters(100 * era + 25 * e.c + e.q + 1, 0);
    assert y == 4 * (100 * era + 25 * e.c + e.q + 1);
    if e.q == 24 {
      FourHundreds(era + 1, 0);
      assert y == 400 * (era + 1);
    } else {
      Hundreds(4 * era + e.c, 4 * (e.q + 1));
      assert y == 100 * (4 * era + e.c) + 4 * (e.q + 1);
    }
  }

  /** Leap days up to the end of year k. */
  function LeapDays(k: nat): int { k / 4 - k / 100 + k / 400 }

  lemma LeapDayOf(y: nat)
    requires y > 0
    ensures LeapDays(y) - LeapDays(y - 1) == if Leap(y) then 1 else 0
  {
    DivisionStep(y, 4);
    DivisionStep(y, 100);
    DivisionStep(y, 400);
    WholeCenturies(y);
  }

  lemma WholeCenturies(y: nat)
    ensures y % 100 == 0 ==> y % 4 == 0
    ensures y % 400 == 0 ==> y % 100 == 0
  {
    if y % 100 == 0 {
      Quarters(25 * (y / 100), 0);
    }
    if y % 400 == 0 {
      Hundreds(4 * (y / 400), 0);
    }
  }

  lemma DivisionStep(y: nat, k: nat)
    requires y > 0 && k in {4, 100, 400}
    ensures y / k - (y - 1) / k == if y % k == 0 then 1 else 0
  {
  }

  lemma {:induction false} YearStartFormula(y: nat)
    requires y >= 1970
    ensures YearStart(y) == 365 * (y - 1970) + LeapDays(y - 1) - 477
  {
    if y > 1970 {
      YearStartFormula(y - 1);
      LeapDayOf(y - 1);
    }
  }

  /** The date of a day counted from 1 March of year y. */
  function FromMarch(y: nat, doy: nat): Date
    requires doy <= 365
  {
    var mp := (5 * doy + 2) / 153;
    var d := doy - (153 * mp + 2) / 5 + 1;
    var m := if mp < 10 then mp + 3 else mp - 9;
    Date(if m <= 2 then y + 1 else y, m, d)
  }

  /** Days from 1 March to the first of each later month, and to the next 1 March. */
  const MARCH_STARTS: seq<nat> := [0, 31, 61, 92, 122, 153, 184, 214, 245, 275, 306, 337, 366]

  lemma MarchMonth(doy: nat)
    requires doy <= 365
    ensures var mp := (5 * doy + 2) / 153;
            mp <= 11 && (153 * mp + 2) / 5 == MARCH_STARTS[mp] && MARCH_STARTS[mp] <= doy < MARCH_STARTS[mp + 1]
  {
  }

  lemma MonthStartFromMarch(y: nat, mp: nat)
    requires mp <= 11
    ensures mp < 10 ==> MonthStart(y, mp + 3) == 59 + MARCH_STARTS[mp] + if Leap(y) then 1 else 0
    ensures mp >= 10 ==> MonthStart(y, mp - 9) == MARCH_STARTS[mp] - 306
    ensures mp < 11 ==> MARCH_STARTS[mp + 1] - MARCH_STARTS[mp] == MonthLengths(y)[if mp < 10 then mp + 2 else mp - 10]
  {
    MonthStarts(y);
  }

  /** The day of the March-based year decides month and day. */
  lemma MonthOfDay(y: nat, doy: nat)
    requires doy <= 365 && (doy == 365 ==> Leap(y + 1))
    ensures var date := FromMarch(y, doy);
            && 1 <= date.m <= 12 && 1 <= date.d <= MonthLengths(date.y)[date.m - 1]
            && (if date.m <= 2 then doy >= 306 && MonthStart(date.y, date.m) + date.d - 1 == doy - 306
                else MonthStart(date.y, date.m) + date.d - 1 == doy + 59 + if Leap(y) then 1 else 0)
  {
    var mp := (5 * doy + 2) / 153;
    MarchMonth(doy);
    MonthStartFromMarch(if mp < 10 then y else y + 1, mp);
    hide MonthStart;
    if mp == 11 {
      assert MonthLengths(y + 1)[1] == if Leap(y + 1) then 29 else 28;
    }
  }

  lemma FromMarchCounts(y: nat, doy: nat, days: nat)
    requires doy <= 365 && (doy == 365 ==> Leap(y + 1))
    requires days + 719468 == 365 * y + LeapDays(y) + doy && y >= 1969 && (y == 1969 ==> doy >= 306)
    ensures Valid(FromMarch(y, doy)) && DayNumber(FromMarch(y, doy)) == days
  {
    MonthOfDay(y, doy);
    YearStartFormula(y + 1);
    if y >= 1970 {
      YearStartFormula(y);
      LeapDayOf(y);
    }
    hide YearStart, MonthStart, LeapDays, Leap;
  }

  /** The shifted year starts no earlier than 1970 does, and its leap days add up. */
  lemma MarchYear(days: nat, era: nat, yoe: nat, doy: nat)
    requires yoe < 400 && doy <= 365
    requires days + 719468 == 146097 * era + 365 * yoe + yoe / 4 - yoe / 100 + doy
    ensures var y := yoe + era * 400;
            && days + 719468 == 365 * y + LeapDays(y) + doy
            && y >= 1969 && (y == 1969 ==> doy >= 306)
  {
    var y := yoe + era * 400;
    assert y / 4 == yoe / 4 + 100 * era && y / 100 == yoe / 100 + 4 * era && y / 400 == era;
  }

  lemma ClosedFormIs(days: nat, yoe: nat, doy: nat)
    requires var doe := (days + 719468) % 146097;
             && yoe == (doe - doe / 1460 + doe / 36524 - doe / 146096) / 365
             && doy == doe - (365 * yoe + yoe / 4 - yoe / 100) <= 365
    ensures DaysToYmd(days) == FromMarch(yoe + (days + 719468) / 146097 * 400, doy)
  {
  }

  /** The closed form finds the March-based year and the day in it. */
  lemma ClosedFormFindsMarchYear(days: nat) returns (y: nat, doy: nat)
    ensures doy <= 365 && (doy == 365 ==> Leap(y + 1))
    ensures days + 719468 == 365 * y + LeapDays(y) + doy && y >= 1969 && (y == 1969 ==> doy >= 306)
    ensures DaysToYmd(days) == FromMarch(y, doy)
  {
    hide DaysToYmd, FromMarch, LeapDays, Leap, InEra, EraYear, EraDayNumber;
    var z := days + 719468;
    var era, doe := z / 146097, z % 146097;
    var e := EraDayOf(doe);
    var yoe := EraYear(e);
    EraYearFormula(e);
    EraDayFormula(e, era);
    doy := doe - (365 * yoe + yoe / 4 - yoe / 100);
    y := yoe + era * 400;
    assert doy == e.u <= 365 by { EraBounds(e); }
    ClosedFormIs(days, yoe, doy);
    MarchYear(days, era, yoe, doy);
  }

  lemma EraBounds(e: EraDay)
    requires InEra(e)
    ensures e.u <= 365
  {
  }

  /** The closed form gives the valid date with that day number. */
  lemma ClosedFormCountsDays(days: nat)
    ensures Valid(DaysToYmd(days)) && DayNumber(DaysToYmd(days)) == days
  {
    hide DaysToYmd, FromMarch, LeapDays, Leap;
    var y, doy := ClosedFormFindsMarchYear(days);
    FromMarchCounts(y, doy, days);
  }

  // --- The counting loops --------------------------------------------------------------

  /** Counting years and months off the day count gives the valid date with that day
      number, which is the date the closed form gives. */
  method CountDays(days: nat) returns (date: Date)
    ensures Valid(date) && DayNumber(date) == days
    ensures date == DaysToYmd(days)
  {
    hide YearStart, MonthStart, DaysToYmd;
    var left: nat := days;
    var y := 1970;
    YearStartStep(1970);
    while true
      invariant y >= 1970 && YearStart(y) + left == days
      decreases left
    {
      var dy := if Leap(y) then 366 else 365;
      if left < dy { break; }
      YearStartStep(y);
      left := left - dy;
      y := y + 1;
    }
    var mdays := MonthLengths(y);
    var mo := 1;
    MonthStarts(y);
    while mo <= 12
      invariant 1 <= mo <= 13
      invariant YearStart(y) + MonthStart(y, mo) + left == days
      invariant left < YearLength(y) - MonthStart(y, mo)
    {
      if left < mdays[mo - 1] { break; }
      MonthStartStep(y, mo);
      left := left - mdays[mo - 1];
      mo := mo + 1;
    }
    date := Date(y, mo, left + 1);
    ClosedFormCountsDays(days);
    DateIsUnique(date, DaysToYmd(days));
  }

  /** Day zero is 1 January 1970 and each next day is the next date. */
  lemma ConsecutiveDates(days: nat)
    ensures DaysToYmd(0) == Date(1970, 1, 1)
    ensures Valid(DaysToYmd(days)) && DaysToYmd(days + 1) == Next(DaysToYmd(days))
  {
    hide DaysToYmd, YearStart, MonthStart, Next;
    ClosedFormCountsDays(days);
    ClosedFormCountsDays(days + 1);
    NextIsNextDay(DaysToYmd(days));
    DateIsUnique(DaysToYmd(days + 1), Next(DaysToYmd(days)));
    ClosedFormCountsDays(0);
    YearStartStep(1970);
    MonthStarts(1970);
    DateIsUnique(DaysToYmd(0), Date(1970, 1, 1));
  }

  // --- Clock time ------------------------------------------------------------------------------

  datatype Clock = Clock(date: Date, hh: nat, mm: nat, ss: nat)

  function SecsToYmdHms(secs: nat): Clock {
    var mins := secs / 60;
    var hours := mins / 60;
    Clock(DaysToYmd(hours / 24), hours % 24, mins % 60, secs % 60)
  }

  /** The clock fields are in range and rebuild the second count. */
  lemma ClockRebuildsSeconds(secs: nat)
    ensures var c := SecsToYmdHms(secs);
            && c.hh < 24 && c.mm < 60 && c.ss < 60 && Valid(c.date)
            && ((DayNumber(c.date) * 24 + c.hh) * 60 + c.mm) * 60 + c.ss == secs
  {
    ClosedFormCountsDays(secs / 60 / 60 / 24);
  }
}
