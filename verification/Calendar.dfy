/** Seconds since the epoch for a date (src/time/clock.c), against the Gregorian calendar and the
    formula of POSIX.1-2017 Base Definitions, section 4.16. */
module Calendar {

  const WORD: nat := 0x1_0000_0000
  const EPOCH: nat := 1970
  const YEAR_LIMIT: nat := 11_000_000    // 365 times the year fits 32 bits

  datatype Date = Date(year: nat, mon: nat, day: nat, hour: nat, min: nat, sec: nat)

  predicate Leap(y: nat) {
    y % 4 == 0 && (y % 100 != 0 || y % 400 == 0)
  }

  function DaysInMonth(y: nat, m: nat): nat
    requires 1 <= m <= 12
  {
    if m == 2 then (if Leap(y) then 29 else 28)
    else if m == 4 || m == 6 || m == 9 || m == 11 then 30 else 31
  }

  function DaysInYear(y: nat): nat {
    if Leap(y) then 366 else 365
  }

  /** Days from the epoch to the first day of a year, one year at a time. */
  function DaysBeforeYear(y: nat): nat
    requires EPOCH <= y
  {
    if y == EPOCH then 0 else DaysBeforeYear(y - 1) + DaysInYear(y - 1)
  }

  /** Days from the first day of the year to the first day of a month. */
  function DaysBeforeMonth(y: nat, m: nat): nat
    requires 1 <= m <= 12
  {
    if m == 1 then 0 else DaysBeforeMonth(y, m - 1) + DaysInMonth(y, m - 1)
  }

  predicate Valid(d: Date) {
    && EPOCH <= d.year < YEAR_LIMIT && 1 <= d.mon <= 12 && 1 <= d.day <= DaysInMonth(d.year, d.mon)
    && d.hour < 24 && d.min < 60 && d.sec < 60
  }

  /** The day of the year, from 0. */
  function YearDay(d: Date): nat
    requires Valid(d)
  {
    DaysBeforeMonth(d.year, d.mon) + d.day - 1
  }

  function Days(d: Date): nat
    requires Valid(d)
  {
    DaysBeforeYear(d.year) + YearDay(d)
  }

  function TimeOfDay(d: Date): nat {
    (d.hour * 60 + d.min) * 60 + d.sec
  }

  /** mktime64: March comes first, so that the leap day comes last; unsigned 32-bit arithmetic up to
      the day count, which is 64 bits wide from then on. */
  function Mktime64(year0: nat, mon0: nat, day: nat, hour: nat, min: nat, sec: nat): int
    requires 1 <= mon0 <= 12 && year0 >= 1
  {
    var shifted := mon0 <= 2;
    var mon := if shifted then mon0 + 10 else mon0 - 2;
    var year := if shifted then year0 - 1 else year0;
    var days := (year / 4 - year / 100 + year / 400 + 367 * mon / 12 + day) % WORD + year * 365 % WORD - 719499;
    ((days * 24 + hour) * 60 + min) * 60 + sec
  }

  // ---- Years ---------------------------------------------------------------------------------

  function LeapDays(y: nat): int {
    y / 4 - y / 100 + y / 400
  }

  lemma LeapDayStep(y: nat)
    requires y > 0
    ensures LeapDays(y) == LeapDays(y - 1) + if Leap(y) then 1 else 0
  {
    assert y / 4 == (y - 1) / 4 + if y % 4 == 0 then 1 else 0;
    assert y / 100 == (y - 1) / 100 + if y % 100 == 0 then 1 else 0;
    assert y / 400 == (y - 1) / 400 + if y % 400 == 0 then 1 else 0;
    assert y % 100 == 0 ==> y % 4 == 0;
    assert y % 400 == 0 ==> y % 100 == 0;
  }

  /** The closed form of the year count. */
  lemma {:induction false} YearsInClosedForm(y: nat)
    requires EPOCH <= y
    ensures DaysBeforeYear(y) == LeapDays(y - 1) + 365 * (y - 1) - 719162
  {
    if y > EPOCH {
      YearsInClosedForm(y - 1);
      LeapDayStep(y - 1);
    }
  }

  /** The months counted from March by a product and a quotient. */
  lemma MonthsInClosedForm(y: nat, m: nat)
    requires 1 <= m <= 12
    ensures DaysBeforeMonth(y, m) == if m <= 2 then 367 * (m + 10) / 12 - 336
                                     else 367 * (m - 2) / 12 + 29 + if Leap(y) then 1 else 0
  {
  }

  lemma NoWrap(year: nat, mon: nat, day: nat)
    requires year < YEAR_LIMIT && 1 <= mon <= 12 && day <= 31
    ensures (year / 4 - year / 100 + year / 400 + 367 * mon / 12 + day) % WORD
         == LeapDays(year) + 367 * mon / 12 + day
    ensures year * 365 % WORD == year * 365
  {
  }

  /** mktime64 counts the days of the Gregorian calendar and the time of day. */
  lemma MktimeCountsDays(d: Date)
    requires Valid(d)
    ensures Mktime64(d.year, d.mon, d.day, d.hour, d.min, d.sec) == Days(d) * 86400 + TimeOfDay(d)
  {
    YearsInClosedForm(d.year);
    MonthsInClosedForm(d.year, d.mon);
    LeapDayStep(d.year);
    var mon := if d.mon <= 2 then d.mon + 10 else d.mon - 2;
    var year := if d.mon <= 2 then d.year - 1 else d.year;
    NoWrap(year, mon, d.day);
    hide LeapDays, DaysBeforeYear, DaysBeforeMonth, Leap;
    assert LeapDays(year) + 367 * mon / 12 + d.day + year * 365 - 719499 == Days(d);
  }

  /** POSIX.1-2017 section 4.16, with tm_year and tm_yday as it defines them. */
  function PosixSeconds(d: Date): int
    requires Valid(d)
  {
    var tmYear := d.year - 1900;
    d.sec + d.min * 60 + d.hour * 3600 + YearDay(d) * 86400 + (tmYear - 70) * 31536000
    + (tmYear - 69) / 4 * 86400 - (tmYear - 1) / 100 * 86400 + (tmYear + 299) / 400 * 86400
  }

  lemma PosixYears(y: nat)
    requires EPOCH <= y
    ensures (y - 1900 - 69) / 4 - (y - 1900 - 1) / 100 + (y - 1900 + 299) / 400 == LeapDays(y - 1) - LeapDays(EPOCH - 1)
  {
    assert (y - 1900 - 69) / 4 == (y - 1) / 4 - 492;
    assert (y - 1900 - 1) / 100 == (y - 1) / 100 - 19;
    assert (y - 1900 + 299) / 400 == (y - 1) / 400 - 4;
  }

  /** mktime64 agrees with the formula of the standard. */
  lemma MktimeIsPosix(d: Date)
    requires Valid(d)
    ensures Mktime64(d.year, d.mon, d.day, d.hour, d.min, d.sec) == PosixSeconds(d)
  {
    MktimeCountsDays(d);
    YearsInClosedForm(d.year);
    YearsInClosedForm(EPOCH);
    PosixYears(d.year);
  }

  // ---- Order ---------------------------------------------------------------------------------

  predicate DayBefore(d: Date, e: Date) {
    d.year < e.year || (d.year == e.year && (d.mon < e.mon || (d.mon == e.mon && d.day < e.day)))
  }

  predicate SameDay(d: Date, e: Date) {
    d.year == e.year && d.mon == e.mon && d.day == e.day
  }

  predicate Before(d: Date, e: Date) {
    DayBefore(d, e) || (SameDay(d, e) && TimeOfDay(d) < TimeOfDay(e))
  }

  lemma {:induction false} MonthsGrow(y: nat, m: nat, n: nat)
    requires 1 <= m < n <= 12
    ensures DaysBeforeMonth(y, m) + DaysInMonth(y, m) <= DaysBeforeMonth(y, n)
  {
    if m < n - 1 { MonthsGrow(y, m, n - 1); }
  }

  lemma YearDayInYear(d: Date)
    requires Valid(d)
    ensures YearDay(d) < DaysInYear(d.year)
  {
    MonthsInClosedForm(d.year, 12);
    if d.mon < 12 { MonthsGrow(d.year, d.mon, 12); }
  }

  lemma {:induction false} YearsGrow(y: nat, z: nat)
    requires EPOCH <= y < z
    ensures DaysBeforeYear(y) + DaysInYear(y) <= DaysBeforeYear(z)
  {
    if y < z - 1 { YearsGrow(y, z - 1); }
  }

  lemma DaysGrow(d: Date, e: Date)
    requires Valid(d) && Valid(e) && DayBefore(d, e)
    ensures Days(d) < Days(e)
  {
    if d.year < e.year {
      YearDayInYear(d);
      YearsGrow(d.year, e.year);
    } else if d.mon < e.mon {
      MonthsGrow(d.year, d.mon, e.mon);
    }
  }

  /** Of two different dates exactly one comes before the other. */
  lemma DatesInOrder(d: Date, e: Date)
    requires Valid(d) && Valid(e)
    ensures d == e || (Before(d, e) <==> !Before(e, d))
    ensures !Before(d, d)
  {
    if SameDay(d, e) && TimeOfDay(d) == TimeOfDay(e) {
      assert d.hour == e.hour && d.min == e.min && d.sec == e.sec;
    }
  }

  /** Later dates have later times. */
  lemma MktimeIncreases(d: Date, e: Date)
    requires Valid(d) && Valid(e) && Before(d, e)
    ensures Mktime64(d.year, d.mon, d.day, d.hour, d.min, d.sec) < Mktime64(e.year, e.mon, e.day, e.hour, e.min, e.sec)
  {
    MktimeCountsDays(d);
    MktimeCountsDays(e);
    if DayBefore(d, e) { DaysGrow(d, e); }
    hide Mktime64, Days;
    assert TimeOfDay(d) < 86400;
  }
}
