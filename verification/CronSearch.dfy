/**
 The matcher and the search of registry/scheduler.go. An instant is a number of nanoseconds since the start of year 1,
 UTC; the local zone is a fixed offset of whole minutes.
 */
module CronSearch {
  import opened Calendar
  import opened Clock
  import opened CronParser
  import opened Text

  const WINDOW := 366 * 24 * 60

  /** `matches`, on a local minute number: the day of month and the weekday are alternatives unless one is `*`. */
  predicate MatchesMinute(s: CronSchedule, local: int) {
    && local % 60 in s.minute.allowed
    && (local / 60) % 24 in s.hour.allowed
    && MatchesDay(s, local / MINUTES_PER_DAY)
  }

  predicate MatchesDay(s: CronSchedule, n: int) {
    var date := Civil(n);
    date.month in s.month.allowed && DayMatches(s, date.day, Weekday(n))
  }

  predicate DayMatches(s: CronSchedule, day: int, weekday: int) {
    var dayMatch := day in s.day.allowed;
    var weekdayMatch := weekday in s.weekday.allowed;
    if s.day.wildcard && s.weekday.wildcard then true
    else if s.day.wildcard then weekdayMatch
    else if s.weekday.wildcard then dayMatch
    else dayMatch || weekdayMatch
  }

  predicate Matches(s: CronSchedule, offset: int, t: int) {
    MatchesMinute(s, t / MINUTE + offset)
  }

  /**
   Two restricted day fields are alternatives, otherwise both fields must match. This rests on the parser, which lets a
   wildcard field allow everything.
   */
  lemma DayRule(s: CronSchedule, day: int, weekday: int)
    requires Usable(s) && 1 <= day <= 31 && 0 <= weekday <= 6
    ensures DayMatches(s, day, weekday) <==>
            var d, w := day in s.day.allowed, weekday in s.weekday.allowed;
            if s.day.wildcard || s.weekday.wildcard then d && w else d || w
  {
  }

  /** The first number in `[from, limit]` that passes a test. */
  function FirstMatch(test: int -> bool, from: int, limit: int): (r: Option<int>)
    ensures r.Some? ==> from <= r.value <= limit && test(r.value)
    ensures forall m :: from <= m <= limit && (r.Some? ==> m < r.value) ==> !test(m)
    decreases limit - from
  {
    if from > limit then None else if test(from) then Some(from) else FirstMatch(test, from + 1, limit)
  }

  /** The first minute boundary strictly after an instant, as a minute number. */
  function FirstCandidate(after: int): int {
    after / MINUTE + 1
  }

  /** The search over UTC minute numbers: 366 days, both ends included, from the first minute boundary. */
  function Search(test: int -> bool, after: int): Option<int> {
    FirstMatch(test, FirstCandidate(after), FirstCandidate(after) + WINDOW)
  }

  function NextBy(test: int -> bool, after: int): int {
    var found := Search(test, after);
    if found.Some? then found.value * MINUTE else after + MINUTE
  }

  function Test(s: CronSchedule, offset: int): int -> bool {
    (m: int) => MatchesMinute(s, m + offset)
  }

  function NextInstant(s: CronSchedule, offset: int, after: int): int {
    NextBy(Test(s, offset), after)
  }

  /** `Next`: minute by minute for 366 days, then the fallback. */
  method Next(s: CronSchedule, offset: int, after: int) returns (next: int)
    ensures next == NextInstant(s, offset, after)
  {
    var candidate := after - after % MINUTE + MINUTE;
    var limit := candidate + WINDOW * MINUTE;
    ghost var test := Test(s, offset);
    ghost var first := FirstCandidate(after);
    ghost var k := first;
    while candidate <= limit
      invariant candidate == k * MINUTE && k <= first + WINDOW + 1 && limit == (first + WINDOW) * MINUTE
      invariant FirstMatch(test, k, first + WINDOW) == Search(test, after)
      decreases limit - candidate
    {
      var matches := Matches(s, offset, candidate);
      assert matches == test(k) by {
        assert candidate / MINUTE == k;
      }
      if matches {
        return candidate;
      }
      candidate := candidate + MINUTE;
      k := k + 1;
    }
    return after + MINUTE;
  }

  // ---------- Exactness and monotonicity ----------

  /** A minute-aligned matching instant after `after`, no later than 366 days past the first minute boundary. */
  ghost predicate Eligible(s: CronSchedule, offset: int, after: int, t: int) {
    && t % MINUTE == 0
    && after < t <= (FirstCandidate(after) + WINDOW) * MINUTE
    && Matches(s, offset, t)
  }

  /** The same for an arbitrary test on minute numbers. */
  ghost predicate EligibleBy(test: int -> bool, after: int, t: int) {
    t % MINUTE == 0 && after < t <= (FirstCandidate(after) + WINDOW) * MINUTE && test(t / MINUTE)
  }

  lemma NextByIsLeast(test: int -> bool, after: int)
    ensures var next := NextBy(test, after);
            && after < next
            && (if Search(test, after).Some? then EligibleBy(test, after, next) else next == after + MINUTE)
            && (forall t :: EligibleBy(test, after, t) ==> Search(test, after).Some? && next <= t)
  {
  }

  /** `Next` is the least eligible instant; only when there is none, it is one minute after the input. */
  lemma NextIsLeast(s: CronSchedule, offset: int, after: int)
    ensures var next := NextInstant(s, offset, after);
            && after < next
            && (Eligible(s, offset, after, next) || next == after + MINUTE)
            && (forall t :: Eligible(s, offset, after, t) ==> Eligible(s, offset, after, next) && next <= t)
  {
    var test := Test(s, offset);
    assert forall t :: Eligible(s, offset, after, t) <==> EligibleBy(test, after, t);
    NextByIsLeast(test, after);
  }

  lemma NextMonotone(s: CronSchedule, offset: int, a: int, b: int)
    requires a <= b
    ensures NextInstant(s, offset, a) <= NextInstant(s, offset, b)
  {
  }

  /** The fallback instant never matches: it lies in a minute the search rejected. */
  lemma FallbackDoesNotMatch(s: CronSchedule, offset: int, after: int)
    ensures Matches(s, offset, NextInstant(s, offset, after)) <==> Search(Test(s, offset), after).Some?
  {
    hide MatchesMinute;
    var found := Search(Test(s, offset), after);
    if found.None? {
      assert !Test(s, offset)((after + MINUTE) / MINUTE);
    }
  }

  // ---------- For which schedules does the search always succeed? ----------

  /** Some allowed month has an allowed day that it has in common years too. */
  ghost predicate HasAnnualDate(s: CronSchedule) {
    exists m, d :: 1 <= m <= 12 && 1 <= d <= MonthLength(false, m) && m in s.month.allowed && d in s.day.allowed
  }

  ghost predicate AlwaysMatches(s: CronSchedule, offset: int) {
    forall after :: Matches(s, offset, NextInstant(s, offset, after))
  }

  ghost predicate Recurs(s: CronSchedule) {
    s.day.wildcard || !s.weekday.wildcard || HasAnnualDate(s)
  }

  lemma MinuteParts(n: int, h: int, mi: int)
    requires 0 <= h < 24 && 0 <= mi < 60
    ensures var local := n * MINUTES_PER_DAY + h * 60 + mi;
            local / MINUTES_PER_DAY == n && (local / 60) % 24 == h && local % 60 == mi
  {
    var hours := n * 24 + h;
    assert n * MINUTES_PER_DAY + h * 60 + mi == hours * 60 + mi;
    assert (hours * 60 + mi) / 60 == hours;
  }

  /** A day of the schedule, at an allowed time, is a matching minute. */
  lemma MinuteOfDay(s: CronSchedule, date: Date, n: int, h: int, mi: int)
    requires ValidDate(date) && n == DayNumber(date) && 0 <= h < 24 && 0 <= mi < 60
    requires date.month in s.month.allowed && h in s.hour.allowed && mi in s.minute.allowed
    requires DayMatches(s, date.day, Weekday(n))
    ensures MatchesMinute(s, n * MINUTES_PER_DAY + h * 60 + mi)
  {
    CivilOfDayNumber(date);
    MinuteParts(n, h, mi);
  }

  /** The year that contains day `n`: its first day, and the first days of the next two years. */
  lemma YearAround(n: int) returns (y: int, start: int, next: int)
    ensures start == YearStart(y) && next == YearStart(y + 1) && start <= n < next <= start + 366
  {
    y := YearOf(n);
    start, next := YearStart(y), YearStart(y + 1);
    YearOfBounds(n);
    YearLength(y);
  }

  /** A date that exists in all years: where it falls in two successive years. */
  lemma AnnualDate(y: int, m: int, d: int) returns (n0: int, n1: int)
    requires 1 <= m <= 12 && 1 <= d <= MonthLength(false, m)
    ensures ValidDate(Date(y, m, d)) && n0 == DayNumber(Date(y, m, d)) && YearStart(y) <= n0 < YearStart(y + 1)
    ensures ValidDate(Date(y + 1, m, d)) && n1 == DayNumber(Date(y + 1, m, d)) && YearStart(y + 1) <= n1
    ensures n0 + 365 <= n1 <= n0 + 366
  {
    n0, n1 := DayNumber(Date(y, m, d)), DayNumber(Date(y + 1, m, d));
    YearLength(y);
    ValidDateInYear(Date(y, m, d));
    ValidDateInYear(Date(y + 1, m, d));
  }

  /** Every 366-day window of minutes contains any given date that exists in all years, at any given time of day. */
  lemma AnnualDateInWindow(c: int, m: int, d: int, time: int) returns (y: int, n: int)
    requires 1 <= m <= 12 && 1 <= d <= MonthLength(false, m) && 0 <= time < MINUTES_PER_DAY
    ensures ValidDate(Date(y, m, d)) && n == DayNumber(Date(y, m, d))
    ensures c <= n * MINUTES_PER_DAY + time <= c + WINDOW
  {
    var start, next, n1;
    y, start, next := YearAround(c / MINUTES_PER_DAY);
    n, n1 := AnnualDate(y, m, d);
    if n * MINUTES_PER_DAY + time < c {
      y, n := y + 1, n1;
    }
  }

  /** The day of month, 1 to 7, of the first given weekday of a month whose first day is `first`. */
  function FirstWeekday(first: int, w: int): (d: int)
    requires 0 <= w <= 6
    ensures 1 <= d <= 7 && forall k :: 0 <= k ==> Weekday(first + d - 1 + 7 * k) == w
  {
    1 + (w - Weekday(first)) % 7
  }

  lemma DayOfMonthNumber(y: int, m: int, d: int)
    ensures DayNumber(Date(y, m, d)) == DayNumber(Date(y, m, 1)) + d - 1
  {
  }

  /** Every 366-day window of minutes contains any given weekday of any given month, at any given time of day. */
  lemma WeekdayInWindow(c: int, m: int, w: int, time: int) returns (y: int, d: int, n: int)
    requires 1 <= m <= 12 && 0 <= w <= 6 && 0 <= time < MINUTES_PER_DAY
    ensures ValidDate(Date(y, m, d)) && n == DayNumber(Date(y, m, d)) && Weekday(n) == w
    ensures c <= n * MINUTES_PER_DAY + time <= c + WINDOW
  {
    hide YearStart, YearOf, IsLeap, DaysBeforeMonth;
    var start, next, first, first1;
    y, start, next := YearAround(c / MINUTES_PER_DAY);
    first, first1 := AnnualDate(y, m, 1);
    d := FirstWeekday(first, w);
    if (first + d - 1 + 21) * MINUTES_PER_DAY + time < c {
      y, d := y + 1, FirstWeekday(first1, w);
      n := first1 + d - 1 + 7 * 0;
    } else if (first + d - 1) * MINUTES_PER_DAY + time < c {
      n, d := first + d - 1 + 7 * 3, d + 21;
    } else {
      n := first + d - 1 + 7 * 0;
    }
    DayOfMonthNumber(y, m, d);
    var last, _ := AnnualDate(y, m, 28);
    DayOfMonthNumber(y, m, 28);
  }

  lemma RecurringScheduleMatches(s: CronSchedule, c: int) returns (local: int)
    requires Usable(s) && Recurs(s)
    ensures c <= local <= c + WINDOW && MatchesMinute(s, local)
  {
    var mi :| 0 <= mi <= 59 && mi in s.minute.allowed;
    var h :| 0 <= h <= 23 && h in s.hour.allowed;
    var time := h * 60 + mi;
    var y, m, d, n;
    if !s.weekday.wildcard {
      m :| 1 <= m <= 12 && m in s.month.allowed;
      var w :| 0 <= w <= 6 && w in s.weekday.allowed;
      y, d, n := WeekdayInWindow(c, m, w, time);
    } else {
      if s.day.wildcard {
        m :| 1 <= m <= 12 && m in s.month.allowed;
        d := 1;
      } else {
        m, d :| 1 <= m <= 12 && 1 <= d <= MonthLength(false, m) && m in s.month.allowed && d in s.day.allowed;
      }
      y, n := AnnualDateInWindow(c, m, d, time);
    }
    MinuteOfDay(s, Date(y, m, d), n, h, mi);
    local := n * MINUTES_PER_DAY + h * 60 + mi;
  }

  /** In the 366 days from 1 January 2001 no date is 29 February. */
  lemma CommonYearsOnly(local: int)
    requires YearStart(2001) * MINUTES_PER_DAY <= local <= YearStart(2001) * MINUTES_PER_DAY + WINDOW
    ensures var date := Civil(local / MINUTES_PER_DAY);
            1 <= date.month <= 12 && 1 <= date.day <= MonthLength(false, date.month)
  {
    var n := local / MINUTES_PER_DAY;
    DayNumberOfCivil(n);
    if n < YearStart(2002) {
      YearOfIs(n, 2001);
    } else {
      YearOfIs(n, 2002);
    }
  }

  lemma RecurringAlwaysMatches(s: CronSchedule, offset: int)
    requires Usable(s) && Recurs(s)
    ensures AlwaysMatches(s, offset)
  {
    hide MatchesMinute, NextBy, Usable, Recurs, FirstMatch;
    forall after ensures Matches(s, offset, NextInstant(s, offset, after)) {
      var local := RecurringScheduleMatches(s, FirstCandidate(after) + offset);
      assert Test(s, offset)(local - offset);
      FallbackDoesNotMatch(s, offset, after);
    }
  }

  lemma NoMatchInCommonYears(s: CronSchedule, start: int, local: int)
    requires !Recurs(s) && start == YearStart(2001) * MINUTES_PER_DAY && start <= local <= start + WINDOW
    ensures !MatchesMinute(s, local)
  {
    CommonYearsOnly(local);
  }

  /** From the end of the year 2000 a schedule without annual dates finds nothing for 366 days. */
  lemma OthersFallBack(s: CronSchedule, offset: int) returns (after: int)
    requires !Recurs(s)
    ensures !Matches(s, offset, NextInstant(s, offset, after))
  {
    hide YearStart, MatchesMinute, NextInstant, Matches, Recurs;
    var start := YearStart(2001) * MINUTES_PER_DAY;
    after := (start - offset - 1) * MINUTE;
    assert FirstCandidate(after) == start - offset;
    FallbackDoesNotMatch(s, offset, after);
    var found := Search(Test(s, offset), after);
    if found.Some? {
      NoMatchInCommonYears(s, start, found.value + offset);
    }
  }

  /**
   Search completeness. The capped search finds a match from every starting instant if and only if the day of month is
   `*`, or the weekday is not, or some allowed date exists in every year.
   */
  lemma SearchCompleteness(s: CronSchedule, offset: int)
    requires Usable(s)
    ensures AlwaysMatches(s, offset) <==> Recurs(s)
  {
    hide Recurs, Usable, NextInstant, Matches;
    if Recurs(s) {
      RecurringAlwaysMatches(s, offset);
    } else {
      var after := OthersFallBack(s, offset);
    }
  }

  /** The same for every expression that the parser accepts. */
  lemma ParsedSearchCompleteness(expr: string, offset: int)
    requires ParseCronSchedule(expr).Ok?
    ensures AlwaysMatches(ParseCronSchedule(expr).value, offset) <==> Recurs(ParseCronSchedule(expr).value)
  {
    ParsedIsUsable(expr);
    SearchCompleteness(ParseCronSchedule(expr).value, offset);
  }

  lemma LeapDayMatches(s: CronSchedule, offset: int) returns (after: int)
    requires Usable(s) && s.weekday.wildcard && 2 in s.month.allowed && 29 in s.day.allowed
    ensures Matches(s, offset, NextInstant(s, offset, after))
  {
    var mi :| 0 <= mi <= 59 && mi in s.minute.allowed;
    var h :| 0 <= h <= 23 && h in s.hour.allowed;
    var date := Date(2000, 2, 29);
    var n := DayNumber(date);
    MinuteOfDay(s, date, n, h, mi);
    var minute := n * MINUTES_PER_DAY + h * 60 + mi - offset;
    after := (minute - 1) * MINUTE;
    assert Test(s, offset)(minute);
    FallbackDoesNotMatch(s, offset, after);
  }

  lemma MatchHasDate(s: CronSchedule, offset: int, after: int)
    requires Usable(s) && !Recurs(s) && Matches(s, offset, NextInstant(s, offset, after))
    ensures 2 in s.month.allowed && 29 in s.day.allowed
  {
    var n := (NextInstant(s, offset, after) / MINUTE + offset) / MINUTES_PER_DAY;
    var date := Civil(n);
    DayNumberOfCivil(n);
    assert date.month in s.month.allowed && date.day in s.day.allowed;
    assert !(1 <= date.day <= MonthLength(false, date.month));
  }

  /** The schedules with a match at all: those of `SearchCompleteness`, and those that allow 29 February. */
  lemma SomeStartMatches(s: CronSchedule, offset: int)
    requires Usable(s)
    ensures (exists after :: Matches(s, offset, NextInstant(s, offset, after)))
            <==> Recurs(s) || (2 in s.month.allowed && 29 in s.day.allowed)
  {
    if Recurs(s) {
      SearchCompleteness(s, offset);
      assert Matches(s, offset, NextInstant(s, offset, 0));
    } else if 2 in s.month.allowed && 29 in s.day.allowed {
      var after := LeapDayMatches(s, offset);
    } else {
      forall after ensures !Matches(s, offset, NextInstant(s, offset, after)) {
        if Matches(s, offset, NextInstant(s, offset, after)) {
          MatchHasDate(s, offset, after);
        }
      }
    }
  }
}
