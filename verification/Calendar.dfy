/**
 The proleptic Gregorian calendar, as Go's `time` package computes it. Day 0 is 1 January of year 1,
 a Monday; a minute number counts from the start of day 0.
 */
module Calendar {
  const MINUTES_PER_DAY := 1440

  datatype Date = Date(year: int, month: int, day: int)

  predicate IsLeap(y: int) {
    y % 4 == 0 && (y % 100 != 0 || y % 400 == 0)
  }

  /** The length of month `m`, in a leap year or in a common one. */
  function MonthLength(leap: bool, m: int): int {
    if m == 2 then (if leap then 29 else 28)
    else if m == 4 || m == 6 || m == 9 || m == 11 then 30
    else 31
  }

  function DaysBeforeMonth(leap: bool, m: int): int {
    var common := match m
      case 1 => 0 case 2 => 31 case 3 => 59 case 4 => 90 case 5 => 120 case 6 => 151
      case 7 => 181 case 8 => 212 case 9 => 243 case 10 => 273 case 11 => 304 case _ => 334;
    if leap && m > 2 then common + 1 else common
  }

  /** The day number of 1 January of year `y`. */
  function YearStart(y: int): int {
    365 * (y - 1) + (y - 1) / 4 - (y - 1) / 100 + (y - 1) / 400
  }

  predicate ValidDate(date: Date) {
    1 <= date.month <= 12 && 1 <= date.day <= MonthLength(IsLeap(date.year), date.month)
  }

  function DayNumber(date: Date): int {
    YearStart(date.year) + DaysBeforeMonth(IsLeap(date.year), date.month) + date.day - 1
  }

  /** The year of a day: whole 400-, 100-, 4- and 1-year cycles are split off in turn. */
  function YearOf(n: int): int {
    var d400 := n % 146097;
    var n100 := if d400 / 36524 == 4 then 3 else d400 / 36524;
    var d100 := d400 - 36524 * n100;
    var d4 := d100 % 1461;
    var n1 := if d4 / 365 == 4 then 3 else d4 / 365;
    400 * (n / 146097) + 100 * n100 + 4 * (d100 / 1461) + n1 + 1
  }

  function MonthOf(leap: bool, dayOfYear: int): int {
    var shift := if leap then 1 else 0;
    if dayOfYear < 31 then 1 else if dayOfYear < 59 + shift then 2 else if dayOfYear < 90 + shift then 3
    else if dayOfYear < 120 + shift then 4 else if dayOfYear < 151 + shift then 5
    else if dayOfYear < 181 + shift then 6 else if dayOfYear < 212 + shift then 7
    else if dayOfYear < 243 + shift then 8 else if dayOfYear < 273 + shift then 9
    else if dayOfYear < 304 + shift then 10 else if dayOfYear < 334 + shift then 11 else 12
  }

  /** The calendar date of a day number. */
  function Civil(n: int): Date {
    var y := YearOf(n);
    var m := MonthOf(IsLeap(y), n - YearStart(y));
    Date(y, m, n - YearStart(y) - DaysBeforeMonth(IsLeap(y), m) + 1)
  }

  /** 0 is Sunday. */
  function Weekday(n: int): int {
    (n + 1) % 7
  }

  /** The quotients that `YearStart` takes, for year 400a + 100b + 4c + d + 1. */
  lemma CycleQuotients(a: int, b: int, c: int, d: int)
    requires 0 <= b <= 3 && 0 <= c <= 24 && 0 <= d <= 3
    ensures YearStart(400 * a + 100 * b + 4 * c + d + 1) == 146097 * a + 36524 * b + 1461 * c + 365 * d
    ensures IsLeap(400 * a + 100 * b + 4 * c + d + 1) <==> d == 3 && (c != 24 || b == 3)
  {
    CycleLeap(a, b, c, d);
    hide IsLeap;
    var z := 400 * a + 100 * b + 4 * c + d;
    assert z / 4 == 100 * a + 25 * b + c;
    assert z / 100 == 4 * a + b;
    assert z / 400 == a;
  }

  lemma CycleLeap(a: int, b: int, c: int, d: int)
    requires 0 <= b <= 3 && 0 <= c <= 24 && 0 <= d <= 3
    ensures IsLeap(400 * a + 100 * b + 4 * c + d + 1) <==> d == 3 && (c != 24 || b == 3)
  {
    hide IsLeap;
    if d < 3 {
      YearInCentury(4 * a + b, 4 * c + d + 1);
    } else if c < 24 {
      YearInCentury(4 * a + b, 4 * c + 4);
    } else {
      YearInCentury(4 * a + b + 1, 0);
    }
  }

  /** Every fourth year is a leap year, but of the full hundreds only every fourth. */
  lemma YearInCentury(century: int, r: int)
    requires 0 <= r <= 99
    ensures IsLeap(100 * century + r) <==> if r == 0 then century % 4 == 0 else r % 4 == 0
  {
    Remainder(100 * century + r, 4, 25 * century + r / 4, r % 4);
    Remainder(100 * century + r, 100, century, r);
    Remainder(100 * century + r, 400, century / 4, 100 * (century % 4) + r);
  }

  lemma Remainder(y: int, n: int, q: int, r: int)
    requires n in {4, 100, 400} && y == n * q + r && 0 <= r < n
    ensures y % n == r
  {
  }

  lemma YearLength(y: int)
    ensures YearStart(y + 1) - YearStart(y) == if IsLeap(y) then 366 else 365
  {
    var z := y - 1;
    var a, r := z / 400, z % 400;
    var b, s := r / 100, r % 100;
    CycleQuotients(a, b, s / 4, s % 4);
    if s < 99 {
      CycleQuotients(a, b, (s + 1) / 4, (s + 1) % 4);
    } else if b < 3 {
      CycleQuotients(a, b + 1, 0, 0);
    } else {
      CycleQuotients(a + 1, 0, 0, 0);
    }
  }

  /** Every day lies in the year that `YearOf` names. */
  lemma YearOfBounds(n: int)
    ensures YearStart(YearOf(n)) <= n < YearStart(YearOf(n) + 1)
  {
    var a, d400 := n / 146097, n % 146097;
    var b := if d400 / 36524 == 4 then 3 else d400 / 36524;
    var d100 := d400 - 36524 * b;
    assert 0 <= b <= 3 && 0 <= d100 <= 36524;
    var c, d4 := d100 / 1461, d100 % 1461;
    assert 0 <= c <= 24 && 0 <= d4 < 1461;
    var d := if d4 / 365 == 4 then 3 else d4 / 365;
    CycleQuotients(a, b, c, d);
    YearLength(YearOf(n));
  }

  lemma {:induction false} YearStartMonotone(y: int, z: int)
    requires y <= z
    ensures YearStart(y) + 365 * (z - y) <= YearStart(z)
    decreases z - y
  {
    if y < z {
      YearLength(y);
      YearStartMonotone(y + 1, z);
    }
  }

  /** A day determines its year. */
  lemma YearOfIs(n: int, y: int)
    requires YearStart(y) <= n < YearStart(y + 1)
    ensures YearOf(n) == y
  {
    YearOfBounds(n);
    if YearOf(n) < y {
      YearStartMonotone(YearOf(n) + 1, y);
    } else if y < YearOf(n) {
      YearStartMonotone(y + 1, YearOf(n));
    }
  }

  lemma ValidDateInYear(date: Date)
    requires ValidDate(date)
    ensures YearStart(date.year) <= DayNumber(date) < YearStart(date.year + 1)
  {
    YearLength(date.year);
  }

  /** `Civil` yields an existing date, and `DayNumber` takes it back to the day. */
  lemma DayNumberOfCivil(n: int)
    ensures ValidDate(Civil(n)) && DayNumber(Civil(n)) == n
  {
    YearOfBounds(n);
    YearLength(YearOf(n));
  }

  /** Every existing date is the date of its day number. */
  lemma CivilOfDayNumber(date: Date)
    requires ValidDate(date)
    ensures Civil(DayNumber(date)) == date
  {
    ValidDateInYear(date);
    YearOfIs(DayNumber(date), date.year);
  }

  // ---------- Known days, and from one day to the next ----------

  /** Thirty days have April, June, September and November; February has 28, or 29 in a leap year. */
  lemma ValidDateIff(y: int, m: int, d: int)
    ensures ValidDate(Date(y, m, d)) <==>
            && 1 <= d && m in {1, 2, 3, 4, 5, 6, 7, 8, 9, 10, 11, 12}
            && (m in {1, 3, 5, 7, 8, 10, 12} ==> d <= 31)
            && (m in {4, 6, 9, 11} ==> d <= 30)
            && (m == 2 ==> d <= (if IsLeap(y) then 29 else 28))
  {
    hide IsLeap;
  }

  /** Three days, with their weekdays. */
  lemma KnownDays()
    ensures DayNumber(Date(1, 1, 1)) == 0 && Weekday(0) == 1
    ensures DayNumber(Date(1970, 1, 1)) == 719162 && Weekday(719162) == 4
    ensures DayNumber(Date(2024, 2, 29)) == 738944 && Weekday(738944) == 4
  {
  }

  /** The date after an existing one: the next of the month, the first of the next month, or New Year's Day. */
  lemma NextDay(date: Date, next: Date)
    requires ValidDate(date) && ValidDate(next)
    requires || next == Date(date.year, date.month, date.day + 1)
             || (next == Date(date.year, date.month + 1, 1) && !ValidDate(Date(date.year, date.month, date.day + 1)))
             || (next == Date(date.year + 1, 1, 1) && date.month == 12 && date.day == 31)
    ensures DayNumber(next) == DayNumber(date) + 1
    ensures Weekday(DayNumber(next)) == if Weekday(DayNumber(date)) == 6 then 0 else Weekday(DayNumber(date)) + 1
  {
    YearLength(date.year);
    hide YearStart, IsLeap;
  }
}
