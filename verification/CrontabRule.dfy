/** The day rule of registry/scheduler.go against the one of the crontab standard. */
module CrontabRule {
  import opened Calendar
  import opened CronParser
  import opened CronSearch

  /**
   The days that a schedule would name under the INPUT FILES section of the `crontab` page of IEEE Std 1003.1-2017: with
   the weekday `*`, month and day of month decide; with both of those `*`, the weekday decides; otherwise a day
   qualifies by month and day of month together, or by its weekday alone.
   */
  predicate StandardDay(s: CronSchedule, n: int) {
    var byDate := Civil(n).month in s.month.allowed && Civil(n).day in s.day.allowed;
    var byWeekday := Weekday(n) in s.weekday.allowed;
    if s.weekday.wildcard then byDate
    else if s.month.wildcard && s.day.wildcard then byWeekday
    else byDate || byWeekday
  }

  predicate AllowsAll(field: CronField, min: int, max: int) {
    forall v :: min <= v <= max ==> v in field.allowed
  }

  /** When no day can tell the two rules apart. */
  predicate StandardDays(s: CronSchedule) {
    || s.weekday.wildcard || s.month.wildcard
    || (AllowsAll(s.month, 1, 12) && (s.day.wildcard ==> AllowsAll(s.weekday, 0, 6)))
  }

  lemma StandardDayAgrees(s: CronSchedule, n: int)
    requires Usable(s) && StandardDays(s)
    ensures MatchesDay(s, n) <==> StandardDay(s, n)
  {
    DayNumberOfCivil(n);
    hide Civil, DayNumber;
    assert 1 <= Civil(n).month <= 12 && 1 <= Civil(n).day <= 31;
  }

  /** A day of an excluded month, on an allowed weekday; or with `*` as the day of month, on an excluded weekday. */
  lemma StandardDayDiffers(s: CronSchedule) returns (n: int)
    requires Usable(s) && !StandardDays(s)
    ensures !MatchesDay(s, n) && StandardDay(s, n)
  {
    hide Civil, DayNumber;
    var m, w, y, d;
    if AllowsAll(s.month, 1, 12) {
      m := 1;
      w :| 0 <= w <= 6 && w !in s.weekday.allowed;
    } else {
      m :| 1 <= m <= 12 && m !in s.month.allowed;
      w :| 0 <= w <= 6 && w in s.weekday.allowed;
    }
    y, d, n := WeekdayInWindow(0, m, w, 0);
    CivilOfDayNumber(Date(y, m, d));
  }

  /**
   The program's rule is the standard's, for all days of the calendar, if and only if the weekday or the month is `*`,
   or the month field spells out all months and, unless the day of month is restricted, the weekday field all weekdays.
   (`0 0 1 6 1` runs on 1 June and the Mondays of June; the standard names all Mondays.)
   */
  lemma StandardDaysIff(s: CronSchedule)
    requires Usable(s)
    ensures (forall n :: MatchesDay(s, n) <==> StandardDay(s, n)) <==> StandardDays(s)
  {
    if StandardDays(s) {
      forall n ensures MatchesDay(s, n) <==> StandardDay(s, n) {
        StandardDayAgrees(s, n);
      }
    } else {
      var n := StandardDayDiffers(s);
    }
  }
}
