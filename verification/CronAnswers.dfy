/**
 What `matches` and `Next` answer, in terms of the fields of the schedule and the local date and time of the answer.
 Instants are nanoseconds since the start of year 1, UTC; the local clock is `offset` minutes ahead of UTC.
 */
module CronAnswers {
  import opened Calendar
  import opened Clock
  import opened CronParser
  import opened CronSearch

  /** A local date and time of day, to the minute. */
  datatype LocalTime = LocalTime(date: Date, hour: int, minute: int)

  predicate Exists(l: LocalTime) {
    ValidDate(l.date) && 0 <= l.hour <= 23 && 0 <= l.minute <= 59
  }

  /** The instant at which that minute begins. */
  function InstantOf(l: LocalTime, offset: int): int {
    (DayNumber(l.date) * 1440 + l.hour * 60 + l.minute - offset) * 60_000_000_000
  }

  /** The schedule names the local time: every field allows its part, and the two day fields combine as cron does. */
  predicate Names(s: CronSchedule, l: LocalTime) {
    && l.minute in s.minute.allowed && l.hour in s.hour.allowed && l.date.month in s.month.allowed
    && var day, weekday := l.date.day in s.day.allowed, Weekday(DayNumber(l.date)) in s.weekday.allowed;
       if s.day.wildcard || s.weekday.wildcard then day && weekday else day || weekday
  }

  lemma LocalMinute(l: LocalTime)
    requires Exists(l)
    ensures var local := DayNumber(l.date) * 1440 + l.hour * 60 + l.minute;
            && local / MINUTES_PER_DAY == DayNumber(l.date) && (local / 60) % 24 == l.hour && local % 60 == l.minute
            && Civil(local / MINUTES_PER_DAY) == l.date
  {
    hide Civil, DayNumber;
    CivilOfDayNumber(l.date);
    MinuteParts(DayNumber(l.date), l.hour, l.minute);
  }

  /** An instant matches if and only if the schedule names the local minute it falls into. */
  lemma MatchesIffNamed(s: CronSchedule, offset: int, l: LocalTime, t: int)
    requires Usable(s) && Exists(l) && InstantOf(l, offset) <= t < InstantOf(l, offset) + 60_000_000_000
    ensures Matches(s, offset, t) <==> Names(s, l)
  {
    hide Civil, DayNumber, Usable, Weekday;
    LocalMinute(l);
    assert t / MINUTE + offset == DayNumber(l.date) * 1440 + l.hour * 60 + l.minute;
    WeekdayRange(DayNumber(l.date));
    DayRule(s, l.date.day, Weekday(DayNumber(l.date)));
  }

  lemma WeekdayRange(n: int)
    ensures 0 <= Weekday(n) <= 6
  {
  }

  /** Every minute has a local time. */
  lemma LocalTimeOf(offset: int, t: int) returns (l: LocalTime)
    requires t % 60_000_000_000 == 0
    ensures Exists(l) && InstantOf(l, offset) == t
  {
    var local := t / 60_000_000_000 + offset;
    var n, h, mi := MinuteSplit(local);
    DayNumberOfCivil(n);
    l := LocalTime(Civil(n), h, mi);
    hide Civil, DayNumber;
  }

  lemma MinuteSplit(local: int) returns (n: int, h: int, mi: int)
    ensures local == n * 1440 + h * 60 + mi && 0 <= h <= 23 && 0 <= mi <= 59
  {
    n := local / 1440;
    var rest := local - n * 1440;
    h, mi := rest / 60, rest % 60;
  }

  /** An instant at which a named minute begins, after `after` and within 366 days of the next full minute. */
  ghost predicate Named(s: CronSchedule, offset: int, after: int, t: int) {
    && after < t <= after - after % 60_000_000_000 + 60_000_000_000 + 366 * 86_400_000_000_000
    && exists l :: Exists(l) && InstantOf(l, offset) == t && Names(s, l)
  }

  lemma NamedIffEligible(s: CronSchedule, offset: int, after: int, t: int)
    requires Usable(s)
    ensures Named(s, offset, after, t) <==> Eligible(s, offset, after, t)
  {
    hide Matches, Names, Usable, Exists;
    assert (FirstCandidate(after) + WINDOW) * MINUTE ==
           after - after % 60_000_000_000 + 60_000_000_000 + 366 * 86_400_000_000_000;
    if t % MINUTE == 0 {
      var l := LocalTimeOf(offset, t);
      MatchesIffNamed(s, offset, l, t);
    }
    forall l | Exists(l) && InstantOf(l, offset) == t ensures Matches(s, offset, t) <==> Names(s, l) {
      MatchesIffNamed(s, offset, l, t);
    }
  }

  /**
   `Next` answers with the beginning of a local minute that the schedule names, the first one after its argument, if the
   next 366 days have one; if they have none, with its argument plus one minute.
   */
  lemma NextIsFirstNamed(s: CronSchedule, offset: int, after: int)
    requires Usable(s)
    ensures var next := NextInstant(s, offset, after);
            if exists t :: Named(s, offset, after, t)
            then Named(s, offset, after, next) && forall t :: Named(s, offset, after, t) ==> next <= t
            else next == after + 60_000_000_000
  {
    hide Matches, Usable, Named, NextInstant;
    NextIsLeast(s, offset, after);
    forall t ensures Named(s, offset, after, t) <==> Eligible(s, offset, after, t) {
      NamedIffEligible(s, offset, after, t);
    }
  }

  /** The same for every expression that the parser accepts. */
  lemma ParsedNextIsFirstNamed(expr: string, offset: int, after: int)
    requires ParseCronSchedule(expr).Ok?
    ensures var s := ParseCronSchedule(expr).value;
            var next := NextInstant(s, offset, after);
            if exists t :: Named(s, offset, after, t)
            then Named(s, offset, after, next) && forall t :: Named(s, offset, after, t) ==> next <= t
            else next == after + 60_000_000_000
  {
    hide *;
    ParsedIsUsable(expr);
    NextIsFirstNamed(ParseCronSchedule(expr).value, offset, after);
  }
}
