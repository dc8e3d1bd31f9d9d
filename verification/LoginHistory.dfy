/** What the limiter means in terms of the requests it has seen, one request handled after the other. */
module LoginHistory {
  import opened LoginLimiter

  /** A handled request, with the limiter's map after it. */
  datatype Entry = Entry(login: Login, outcome: Outcome, after: Attempts)

  function StateAfter(log: seq<Entry>): Attempts {
    if log == [] then map[] else log[|log| - 1].after
  }

  ghost predicate Handled(c: Config, before: Attempts, e: Entry) {
    (e.after, e.outcome) == Handle(c, before, e.login) && InOrder(e.login)
  }

  /** Outcomes and maps are those of the handler, starting from no records; times are in order. */
  ghost predicate IsLog(c: Config, log: seq<Entry>) {
    && (forall i :: 0 <= i < |log| ==> Handled(c, StateAfter(log[..i]), log[i]))
    && (forall i, j :: 0 <= i < j < |log| ==> log[i].login.reportedAt <= log[j].login.checkedAt)
  }

  predicate InOrder(p: Login) {
    p.checkedAt <= p.recordedAt <= p.reportedAt
  }

  ghost predicate AllBefore(log: seq<Entry>, now: int) {
    forall i :: 0 <= i < |log| ==> log[i].login.reportedAt <= now
  }

  /** The wrong passwords of `ip` that were evaluated from log position `s` on. */
  function FailuresFrom(log: seq<Entry>, s: nat, ip: string): seq<Login> {
    if |log| <= s then [] else
      var last := log[|log| - 1];
      var before := FailuresFrom(log[..|log| - 1], s, ip);
      if last.login.ip == ip && last.outcome.Failed? then before + [last.login] else before
  }

  ghost predicate NoSuccessFrom(log: seq<Entry>, s: nat, ip: string) {
    forall i :: s <= i < |log| && log[i].login.ip == ip ==> !log[i].outcome.Accepted?
  }

  /** Each failure was checked within the lockout period of the one before. */
  ghost predicate Linked(c: Config, failures: seq<Login>) {
    forall i :: 0 < i < |failures| ==> failures[i].checkedAt - failures[i - 1].recordedAt <= Lockout(c)
  }

  /** A success-free stretch of failures without a gap longer than the lockout period. */
  ghost predicate Streak(c: Config, log: seq<Entry>, s: nat, ip: string) {
    FailuresFrom(log, s, ip) != [] && NoSuccessFrom(log, s, ip) && Linked(c, FailuresFrom(log, s, ip))
  }

  function LastFailure(log: seq<Entry>, s: nat, ip: string): Login
    requires FailuresFrom(log, s, ip) != []
  {
    var failures := FailuresFrom(log, s, ip);
    failures[|failures| - 1]
  }

  lemma PrefixIsLog(c: Config, log: seq<Entry>)
    requires IsLog(c, log) && log != []
    ensures IsLog(c, log[..|log| - 1]) && AllBefore(log[..|log| - 1], log[|log| - 1].login.checkedAt)
    ensures Handled(c, StateAfter(log[..|log| - 1]), log[|log| - 1])
  {
  }

  // ---------- One request ----------

  predicate Current(c: Config, m: Attempts, ip: string, now: int) {
    ip in m && !Expired(c, m[ip], now)
  }

  lemma OtherAddress(c: Config, before: Attempts, e: Entry, ip: string)
    requires Handled(c, before, e) && (e.login.ip != ip || e.outcome.Blocked?)
    ensures ip in e.after <==> ip in before
    ensures ip in before ==> e.after[ip] == before[ip]
  {
  }

  lemma AfterSuccess(c: Config, before: Attempts, e: Entry)
    requires Handled(c, before, e) && e.outcome.Accepted?
    ensures e.login.ip !in e.after
  {
  }

  lemma AfterWrongPassword(c: Config, before: Attempts, e: Entry)
    requires Handled(c, before, e) && e.outcome.Failed? && c.maxAttempts >= 1
    ensures var p := e.login;
            var count := if Current(c, before, p.ip, p.checkedAt) then before[p.ip].count else 0;
            && count < c.maxAttempts
            && (p.ip in e.after <==> p.reportedAt - p.recordedAt <= Lockout(c))
            && (p.ip in e.after ==> e.after[p.ip] == Attempt(count + 1, p.recordedAt))
  {
  }

  // ---------- Whole logs ----------

  lemma {:induction false} CountBounded(c: Config, log: seq<Entry>, ip: string)
    requires IsLog(c, log) && c.maxAttempts >= 1
    ensures ip in StateAfter(log) ==> 1 <= StateAfter(log)[ip].count <= c.maxAttempts
  {
    if log != [] {
      PrefixIsLog(c, log);
      CountBounded(c, log[..|log| - 1], ip);
    }
  }

  /** A streak whose last failure is still within the lockout period is on record, in full. */
  lemma {:induction false} StreakIsRecorded(c: Config, log: seq<Entry>, s: nat, ip: string, now: int)
    requires IsLog(c, log) && c.maxAttempts >= 1 && AllBefore(log, now)
    requires Streak(c, log, s, ip) && now - LastFailure(log, s, ip).recordedAt <= Lockout(c)
    ensures var m := StateAfter(log);
            ip in m && m[ip].count >= |FailuresFrom(log, s, ip)| && m[ip].lastFail == LastFailure(log, s, ip).recordedAt
  {
    hide Handled;
    var init := log[..|log| - 1];
    var e := log[|log| - 1];
    var m := StateAfter(init);
    PrefixIsLog(c, log);
    StreakShrinks(c, log, s, ip);
    if e.login.ip == ip && e.outcome.Failed? {
      if FailuresFrom(init, s, ip) != [] {
        StreakIsRecorded(c, init, s, ip, e.login.checkedAt);
      } else {
        CountBounded(c, init, ip);
      }
      assert LastFailure(log, s, ip) == e.login;
      assert e.login.reportedAt <= now;
      AfterWrongPassword(c, m, e);
    } else {
      StreakIsRecorded(c, init, s, ip, now);
      OtherAddress(c, m, e, ip);
    }
  }

  /** Dropping the last entry of a log leaves a streak, unless its only failure was that entry. */
  lemma StreakShrinks(c: Config, log: seq<Entry>, s: nat, ip: string)
    requires Streak(c, log, s, ip)
    ensures var init, e := log[..|log| - 1], log[|log| - 1];
            if e.login.ip == ip && e.outcome.Failed? then
              && FailuresFrom(log, s, ip) == FailuresFrom(init, s, ip) + [e.login]
              && (FailuresFrom(init, s, ip) != [] ==>
                    Streak(c, init, s, ip) && e.login.checkedAt - LastFailure(init, s, ip).recordedAt <= Lockout(c))
            else
              && (e.login.ip != ip || e.outcome.Blocked?)
              && FailuresFrom(log, s, ip) == FailuresFrom(init, s, ip) && Streak(c, init, s, ip)
  {
    var init, e := log[..|log| - 1], log[|log| - 1];
    var failures, before := FailuresFrom(log, s, ip), FailuresFrom(init, s, ip);
    assert NoSuccessFrom(init, s, ip);
    if e.login.ip == ip && e.outcome.Failed? {
      assert failures == before + [e.login];
      assert forall i :: 0 <= i < |before| ==> failures[i] == before[i];
      assert failures[|before|] == e.login;
      if before != [] {
        assert failures[|before|].checkedAt - failures[|before| - 1].recordedAt <= Lockout(c);
      }
    }
  }

  lemma StreakExtends(c: Config, log: seq<Entry>, s: nat, ip: string)
    requires |log| > s && log[|log| - 1].login.ip == ip && log[|log| - 1].outcome.Failed?
    requires Streak(c, log[..|log| - 1], s, ip)
    requires log[|log| - 1].login.checkedAt - LastFailure(log[..|log| - 1], s, ip).recordedAt <= Lockout(c)
    ensures Streak(c, log, s, ip)
    ensures FailuresFrom(log, s, ip) == FailuresFrom(log[..|log| - 1], s, ip) + [log[|log| - 1].login]
  {
  }

  lemma StreakBegins(c: Config, log: seq<Entry>, ip: string)
    requires log != [] && log[|log| - 1].login.ip == ip && log[|log| - 1].outcome.Failed?
    ensures FailuresFrom(log, |log| - 1, ip) == [log[|log| - 1].login] && Streak(c, log, |log| - 1, ip)
  {
  }

  lemma StreakStays(c: Config, log: seq<Entry>, s: nat, ip: string)
    requires |log| > s && (log[|log| - 1].login.ip != ip || log[|log| - 1].outcome.Blocked?)
    requires Streak(c, log[..|log| - 1], s, ip)
    ensures Streak(c, log, s, ip) && FailuresFrom(log, s, ip) == FailuresFrom(log[..|log| - 1], s, ip)
  {
  }

  /** Every record comes from a streak of exactly its count, ending at its last failure. */
  lemma {:induction false} RecordHasStreak(c: Config, log: seq<Entry>, ip: string) returns (s: nat)
    requires IsLog(c, log) && c.maxAttempts >= 1 && ip in StateAfter(log)
    ensures s < |log| && Streak(c, log, s, ip)
    ensures var a := StateAfter(log)[ip];
            |FailuresFrom(log, s, ip)| == a.count && LastFailure(log, s, ip).recordedAt == a.lastFail
  {
    hide Handled, FailuresFrom, Streak;
    var init := log[..|log| - 1];
    var e := log[|log| - 1];
    PrefixIsLog(c, log);
    var m := StateAfter(init);
    if e.login.ip == ip && e.outcome.Failed? {
      AfterWrongPassword(c, m, e);
      if Current(c, m, ip, e.login.checkedAt) {
        s := RecordHasStreak(c, init, ip);
        StreakExtends(c, log, s, ip);
      } else {
        s := |init|;
        StreakBegins(c, log, ip);
      }
    } else {
      if e.login.ip == ip && e.outcome.Accepted? {
        AfterSuccess(c, m, e);
        assert false;
      }
      OtherAddress(c, m, e, ip);
      s := RecordHasStreak(c, init, ip);
      StreakStays(c, log, s, ip);
    }
  }

  /**
   A request is blocked if and only if the limiter is on and some streak of exactly `maxAttempts` evaluated failures of
   its address ended within the lockout period. A blocked request changes nothing, so it does not extend the lockout.
   */
  lemma BlockedIffStreak(c: Config, log: seq<Entry>, p: Login)
    requires IsLog(c, log) && InOrder(p) && AllBefore(log, p.checkedAt)
    ensures Handle(c, StateAfter(log), p).1.Blocked? <==>
            && c.maxAttempts >= 1
            && exists s: nat ::
                 && Streak(c, log, s, p.ip) && |FailuresFrom(log, s, p.ip)| == c.maxAttempts
                 && p.checkedAt - LastFailure(log, s, p.ip).recordedAt <= Lockout(c)
    ensures Handle(c, StateAfter(log), p).1.Blocked? ==> Handle(c, StateAfter(log), p).0 == StateAfter(log)
  {
    if c.maxAttempts >= 1 {
      if Handle(c, StateAfter(log), p).1.Blocked? {
        var s := RecordHasStreak(c, log, p.ip);
        CountBounded(c, log, p.ip);
      }
      forall s: nat | Streak(c, log, s, p.ip) && |FailuresFrom(log, s, p.ip)| == c.maxAttempts
          && p.checkedAt - LastFailure(log, s, p.ip).recordedAt <= Lockout(c)
        ensures Handle(c, StateAfter(log), p).1.Blocked?
      {
        StreakIsRecorded(c, log, s, p.ip, p.checkedAt);
      }
    }
  }

  /** Streaks of one address end at the same request: its last wrong password. */
  lemma {:induction false} SameLastFailure(log: seq<Entry>, s: nat, s': nat, ip: string)
    requires FailuresFrom(log, s, ip) != [] && FailuresFrom(log, s', ip) != []
    ensures LastFailure(log, s, ip) == LastFailure(log, s', ip)
  {
    var last := log[|log| - 1];
    if last.login.ip != ip || !last.outcome.Failed? {
      SameLastFailure(log[..|log| - 1], s, s', ip);
    }
  }

  /**
   In nanoseconds: after a streak of `maxAttempts` wrong passwords its address is blocked for `lockoutMinutes` minutes
   from the last of them, or for 15 if that number is not positive; then no longer.
   */
  lemma BlockedFor(c: Config, log: seq<Entry>, s: nat, p: Login)
    requires IsLog(c, log) && InOrder(p) && AllBefore(log, p.checkedAt) && c.maxAttempts >= 1
    requires Streak(c, log, s, p.ip) && |FailuresFrom(log, s, p.ip)| == c.maxAttempts
    ensures Handle(c, StateAfter(log), p).1.Blocked? <==>
            p.checkedAt <= LastFailure(log, s, p.ip).recordedAt
                           + (if c.lockoutMinutes >= 1 then c.lockoutMinutes * 60_000_000_000 else 900_000_000_000)
  {
    BlockedIffStreak(c, log, p);
    hide Handle, FailuresFrom, Linked, NoSuccessFrom;
    forall s': nat | Streak(c, log, s', p.ip) ensures LastFailure(log, s', p.ip) == LastFailure(log, s, p.ip) {
      SameLastFailure(log, s, s', p.ip);
    }
  }

  /**
   With a limit of 0 or less nobody is blocked, and the page says that 0 attempts remain. Otherwise all attempts remain
   when the lockout period has passed by the time a failure is reported.
   */
  lemma OtherReports(c: Config, m: Attempts, p: Login)
    requires !p.credentialsMatch
    ensures c.maxAttempts <= 0 ==> Handle(c, m, p).1 == Failed(0)
    ensures c.maxAttempts >= 1 && !Handle(c, m, p).1.Blocked? && p.reportedAt - p.recordedAt > Lockout(c) ==>
              Handle(c, m, p).1 == Failed(c.maxAttempts)
  {
  }

  /** The number of attempts reported after a wrong password is what the streak on record leaves. */
  lemma RemainingCounts(c: Config, log: seq<Entry>) returns (s: nat)
    requires IsLog(c, log) && c.maxAttempts >= 1 && log != []
    requires var e := log[|log| - 1]; e.outcome.Failed? && e.login.reportedAt - e.login.recordedAt <= Lockout(c)
    ensures var e := log[|log| - 1];
            Streak(c, log, s, e.login.ip)
            && e.outcome.remaining == c.maxAttempts - |FailuresFrom(log, s, e.login.ip)|
  {
    var e := log[|log| - 1];
    PrefixIsLog(c, log);
    AfterWrongPassword(c, StateAfter(log[..|log| - 1]), e);
    CountBounded(c, log, e.login.ip);
    s := RecordHasStreak(c, log, e.login.ip);
    RemainingOf(c, StateAfter(log[..|log| - 1]), e);
  }

  lemma RemainingOf(c: Config, before: Attempts, e: Entry)
    requires Handled(c, before, e) && e.outcome.Failed? && c.maxAttempts >= 1 && e.login.ip in e.after
    ensures e.after[e.login.ip].count <= c.maxAttempts
            ==> e.outcome.remaining == c.maxAttempts - e.after[e.login.ip].count
  {
  }

  /** The requests of `ip` from position `s` on fall into one lockout period and none succeeds. */
  ghost predicate QuietWindow(c: Config, log: seq<Entry>, s: nat, ip: string, start: int) {
    && NoSuccessFrom(log, s, ip)
    && forall i :: s <= i < |log| && log[i].login.ip == ip ==>
         start <= log[i].login.checkedAt && log[i].login.recordedAt <= start + Lockout(c)
  }

  lemma {:induction false} FailuresInWindow(c: Config, log: seq<Entry>, s: nat, ip: string, start: int)
    requires QuietWindow(c, log, s, ip, start) && IsLog(c, log)
    ensures forall i :: 0 <= i < |FailuresFrom(log, s, ip)| ==>
              && start <= FailuresFrom(log, s, ip)[i].checkedAt <= FailuresFrom(log, s, ip)[i].recordedAt
              && FailuresFrom(log, s, ip)[i].recordedAt <= start + Lockout(c)
  {
    if |log| > s {
      PrefixIsLog(c, log);
      FailuresInWindow(c, log[..|log| - 1], s, ip, start);
    }
  }

  /**
   In a success-free interval no longer than the lockout period at most `maxAttempts` wrong passwords are evaluated.
   */
  lemma {:induction false} WindowBound(c: Config, log: seq<Entry>, s: nat, ip: string, start: int)
    requires IsLog(c, log) && c.maxAttempts >= 1 && QuietWindow(c, log, s, ip, start)
    ensures |FailuresFrom(log, s, ip)| <= c.maxAttempts
  {
    if |log| > s {
      var init := log[..|log| - 1];
      var e := log[|log| - 1];
      PrefixIsLog(c, log);
      WindowBound(c, init, s, ip, start);
      var before := FailuresFrom(init, s, ip);
      if e.login.ip == ip && e.outcome.Failed? && before != [] {
        FailuresInWindow(c, init, s, ip, start);
        assert Linked(c, before);
        StreakIsRecorded(c, init, s, ip, e.login.checkedAt);
      }
    }
  }
}
