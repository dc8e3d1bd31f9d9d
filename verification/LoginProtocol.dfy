/**
 Concurrent login handlers. Check, record and clear are separate critical sections, so other handlers may run between
 them; between its check and its next step a handler has "passed". The clock readings are arbitrary.
 */
module LoginProtocol {
  import opened LoginLimiter
  import opened Sets

  datatype Phase =
    | Passed(ip: string)     // not blocked, about to compare the credentials
    | Reporting(ip: string)  // failure recorded, about to compute the remaining attempts

  datatype State = State(attempts: Attempts, handlers: map<nat, Phase>)

  ghost predicate Init(s: State) {
    s.attempts == map[] && s.handlers == map[]
  }

  /** A new request is checked; at most `k` handlers are in flight. A blocked one is answered at once. */
  ghost predicate Enter(c: Config, k: nat, s: State, s': State, id: nat, ip: string, now: int) {
    && id !in s.handlers && |s.handlers| < k
    && s'.attempts == AfterCheck(c, s.attempts, ip, now)
    && s'.handlers == if CheckVerdict(c, s.attempts, ip, now).blocked then s.handlers else s.handlers[id := Passed(ip)]
  }

  ghost predicate Succeed(s: State, s': State, id: nat) {
    && id in s.handlers && s.handlers[id].Passed?
    && s' == State(s.attempts - {s.handlers[id].ip}, s.handlers - {id})
  }

  ghost predicate Fail(s: State, s': State, id: nat, now: int) {
    && id in s.handlers && s.handlers[id].Passed?
    && var ip := s.handlers[id].ip;
       s' == State(AfterFailure(s.attempts, ip, now), s.handlers[id := Reporting(ip)])
  }

  ghost predicate Report(c: Config, s: State, s': State, id: nat, now: int) {
    && id in s.handlers && s.handlers[id].Reporting?
    && s' == State(AfterCheck(c, s.attempts, s.handlers[id].ip, now), s.handlers - {id})
  }

  ghost predicate Step(c: Config, k: nat, s: State, s': State) {
    || (exists id, ip, now :: Enter(c, k, s, s', id, ip, now))
    || (exists id :: Succeed(s, s', id))
    || (exists id, now :: Fail(s, s', id, now))
    || (exists id, now :: Report(c, s, s', id, now))
  }

  ghost predicate IsRun(c: Config, k: nat, trace: seq<State>) {
    && trace != [] && Init(trace[0])
    && forall i :: 0 < i < |trace| ==> Step(c, k, trace[i - 1], trace[i])
  }

  function Recorded(s: State, ip: string): int {
    if ip in s.attempts then s.attempts[ip].count else 0
  }

  /** The handlers of an address that are past their check and have not recorded a result. */
  function Past(s: State, ip: string): set<nat> {
    set id | id in s.handlers && s.handlers[id] == Passed(ip)
  }

  ghost predicate Bound(c: Config, k: nat, s: State) {
    && |s.handlers| <= k
    && forall ip :: 0 <= Recorded(s, ip) && Recorded(s, ip) + |Past(s, ip)| <= c.maxAttempts - 1 + k
  }

  ghost predicate RecordsAtMost(s: State, n: int) {
    forall ip :: Recorded(s, ip) <= n
  }

  lemma PastIsSmall(s: State, ip: string)
    ensures |Past(s, ip)| <= |s.handlers|
  {
    SubsetSize(Past(s, ip), s.handlers.Keys);
  }

  /** A handler passes its check only below the limit; other addresses keep their records. */
  lemma CheckedCount(c: Config, s: State, s': State, ip: string, now: int, other: string)
    requires c.maxAttempts >= 1 && Recorded(s, other) >= 0 && s'.attempts == AfterCheck(c, s.attempts, ip, now)
    ensures 0 <= Recorded(s', other) <= Recorded(s, other)
    ensures other == ip && !CheckVerdict(c, s.attempts, ip, now).blocked ==> Recorded(s', ip) <= c.maxAttempts - 1
  {
  }

  lemma EnterKeepsBound(c: Config, k: nat, s: State, s': State, id: nat, ip: string, now: int)
    requires c.maxAttempts >= 1 && Bound(c, k, s) && Enter(c, k, s, s', id, ip, now)
    ensures Bound(c, k, s')
  {
    hide AfterCheck, CheckVerdict;
    forall other
      ensures 0 <= Recorded(s', other) && Recorded(s', other) + |Past(s', other)| <= c.maxAttempts - 1 + k
    {
      assert Recorded(s, other) >= 0;
      CheckedCount(c, s, s', ip, now, other);
      if other == ip && !CheckVerdict(c, s.attempts, ip, now).blocked {
        assert |s'.handlers| == |s.handlers| + 1;
        PastIsSmall(s', ip);
      } else {
        assert Past(s', other) == Past(s, other);
      }
    }
  }

  lemma LeaveKeepsBound(c: Config, k: nat, s: State, s': State, id: nat)
    requires Bound(c, k, s) && id in s.handlers
    requires s'.handlers == s.handlers - {id}
    requires forall ip :: 0 <= Recorded(s', ip) <= Recorded(s, ip)
    ensures Bound(c, k, s')
  {
    assert s'.handlers.Keys == s.handlers.Keys - {id};
    forall ip ensures |Past(s', ip)| <= |Past(s, ip)| {
      SubsetSize(Past(s', ip), Past(s, ip));
    }
  }

  lemma FailKeepsBound(c: Config, k: nat, s: State, s': State, id: nat, now: int)
    requires Bound(c, k, s) && Fail(s, s', id, now)
    ensures Bound(c, k, s')
  {
    var ip := s.handlers[id].ip;
    assert s'.handlers.Keys == s.handlers.Keys;
    forall other
      ensures 0 <= Recorded(s', other) && Recorded(s', other) + |Past(s', other)| <= c.maxAttempts - 1 + k
    {
      if other == ip {
        assert Past(s', ip) == Past(s, ip) - {id};
      } else {
        assert Past(s', other) == Past(s, other);
      }
    }
  }

  lemma StepKeepsBound(c: Config, k: nat, s: State, s': State)
    requires c.maxAttempts >= 1 && Bound(c, k, s) && Step(c, k, s, s')
    ensures Bound(c, k, s')
  {
    if id, ip, now :| Enter(c, k, s, s', id, ip, now) {
      EnterKeepsBound(c, k, s, s', id, ip, now);
    } else if id :| Succeed(s, s', id) {
      forall ip ensures 0 <= Recorded(s', ip) <= Recorded(s, ip) {
        assert Recorded(s, ip) >= 0;
      }
      LeaveKeepsBound(c, k, s, s', id);
    } else if id, now :| Fail(s, s', id, now) {
      FailKeepsBound(c, k, s, s', id, now);
    } else {
      var id, now :| Report(c, s, s', id, now);
      forall ip ensures 0 <= Recorded(s', ip) <= Recorded(s, ip) {
        assert Recorded(s, ip) >= 0;
      }
      LeaveKeepsBound(c, k, s, s', id);
    }
  }

  /**
   In every run with at most `k` handlers in flight, the failures on record for an address plus its handlers past their
   check are at most `maxAttempts - 1 + k`; with one handler at a time no more than `maxAttempts` failures are recorded.
   */
  lemma {:induction false} ConcurrentBound(c: Config, k: nat, trace: seq<State>)
    requires c.maxAttempts >= 1 && IsRun(c, k, trace)
    ensures Bound(c, k, trace[|trace| - 1])
    ensures k == 1 ==> RecordsAtMost(trace[|trace| - 1], c.maxAttempts)
  {
    if |trace| == 1 {
      var s := trace[0];
      forall ip ensures Past(s, ip) == {} {
      }
    } else {
      var init := trace[..|trace| - 1];
      ConcurrentBound(c, k, init);
      StepKeepsBound(c, k, init[|init| - 1], trace[|trace| - 1]);
    }
  }

  // ---------- One handler, and none in its way ----------

  /** When no other handler steps in, a request's steps have the effect and the outcome of the handler as a whole. */
  lemma AloneIsHandle(c: Config, k: nat, s: State, s1: State, s2: State, s3: State, id: nat, p: Login)
    requires Enter(c, k, s, s1, id, p.ip, p.checkedAt)
    ensures id !in s1.handlers <==> Handle(c, s.attempts, p).1.Blocked?
    ensures id !in s1.handlers ==> s1 == State(Handle(c, s.attempts, p).0, s.handlers)
    ensures id in s1.handlers && p.credentialsMatch && Succeed(s1, s2, id) ==>
              Handle(c, s.attempts, p).1.Accepted? && s2 == State(Handle(c, s.attempts, p).0, s.handlers)
    ensures id in s1.handlers && !p.credentialsMatch && Fail(s1, s2, id, p.recordedAt)
            && Report(c, s2, s3, id, p.reportedAt) ==>
              Handle(c, s.attempts, p).1.Failed? && s3 == State(Handle(c, s.attempts, p).0, s.handlers)
  {
    hide AfterCheck, CheckVerdict, AfterFailure;
    if id in s1.handlers {
      assert s1.handlers - {id} == s.handlers;
      assert s1.handlers[id := Reporting(p.ip)] - {id} == s.handlers;
    }
  }

  /** A handler in flight can always go on, at any time on the clock and with either result of its comparison. */
  lemma HandlersGoOn(c: Config, k: nat, s: State, id: nat, ip: string, now: int)
    ensures id !in s.handlers && |s.handlers| < k ==> exists s' :: Enter(c, k, s, s', id, ip, now)
    ensures id in s.handlers && s.handlers[id].Passed? ==>
              (exists s' :: Succeed(s, s', id)) && exists s' :: Fail(s, s', id, now)
    ensures id in s.handlers && s.handlers[id].Reporting? ==> exists s' :: Report(c, s, s', id, now)
  {
    hide AfterCheck, CheckVerdict, AfterFailure;
    if id !in s.handlers {
      var passed := if CheckVerdict(c, s.attempts, ip, now).blocked then s.handlers else s.handlers[id := Passed(ip)];
      if |s.handlers| < k {
        assert Enter(c, k, s, State(AfterCheck(c, s.attempts, ip, now), passed), id, ip, now);
      }
    } else if s.handlers[id].Passed? {
      var own := s.handlers[id].ip;
      assert Succeed(s, State(s.attempts - {own}, s.handlers - {id}), id);
      assert Fail(s, State(AfterFailure(s.attempts, own, now), s.handlers[id := Reporting(own)]), id, now);
    } else {
      assert Report(c, s, State(AfterCheck(c, s.attempts, s.handlers[id].ip, now), s.handlers - {id}), id, now);
    }
  }

  // ---------- The bound is attained ----------

  ghost predicate Reaches(c: Config, k: nat, trace: seq<State>, s: State) {
    IsRun(c, k, trace) && trace[|trace| - 1] == s
  }

  lemma Extend(c: Config, k: nat, trace: seq<State>, s: State, s': State) returns (longer: seq<State>)
    requires Reaches(c, k, trace, s) && Step(c, k, s, s')
    ensures Reaches(c, k, longer, s')
  {
    longer := trace + [s'];
    forall i | 0 < i < |longer| ensures Step(c, k, longer[i - 1], longer[i]) {
      if i < |trace| {
        assert longer[i - 1] == trace[i - 1] && longer[i] == trace[i];
      }
    }
  }

  predicate Below(i: nat, j: nat) {
    i < j
  }

  /** `n` failures on record at time 0; handlers `0..j` are in the given phase. */
  function Stage(ip: string, n: nat, j: nat, phase: Phase): State {
    State(if n == 0 then map[] else map[ip := Attempt(n, 0)], map i: nat | i < j && Below(i, j) :: phase)
  }

  /** `n` failures on record and nobody in flight. */
  function Idle(ip: string, n: nat): State {
    State(if n == 0 then map[] else map[ip := Attempt(n, 0)], map[])
  }

  /** The states of one handler that enters, fails and leaves. */
  function Entered(ip: string, n: nat): State {
    State(Idle(ip, n).attempts, map[0 := Passed(ip)])
  }

  function Recording(ip: string, n: nat): State {
    State(Idle(ip, n).attempts, map[0 := Reporting(ip)])
  }

  lemma FailureSteps(c: Config, k: nat, ip: string, n: nat)
    requires k >= 1 && 1 <= n < c.maxAttempts
    ensures Enter(c, k, Idle(ip, n - 1), Entered(ip, n - 1), 0, ip, 0)
    ensures Fail(Entered(ip, n - 1), Recording(ip, n), 0, 0)
    ensures Report(c, Recording(ip, n), Idle(ip, n), 0, 0)
  {
    assert Recording(ip, n).handlers - {0} == map[];
  }

  lemma OneFailure(c: Config, k: nat, ip: string, n: nat, trace: seq<State>) returns (longer: seq<State>)
    requires k >= 1 && 1 <= n < c.maxAttempts && Reaches(c, k, trace, Idle(ip, n - 1))
    ensures Reaches(c, k, longer, Idle(ip, n))
  {
    hide Reaches, Enter, Fail, Report, Idle, Entered, Recording;
    FailureSteps(c, k, ip, n);
    longer := Extend(c, k, trace, Idle(ip, n - 1), Entered(ip, n - 1));
    longer := Extend(c, k, longer, Entered(ip, n - 1), Recording(ip, n));
    longer := Extend(c, k, longer, Recording(ip, n), Idle(ip, n));
  }

  lemma {:induction false} ReachFailures(c: Config, k: nat, ip: string, n: nat) returns (trace: seq<State>)
    requires k >= 1 && n < c.maxAttempts
    ensures Reaches(c, k, trace, Idle(ip, n))
  {
    if n == 0 {
      trace := [Idle(ip, 0)];
    } else {
      trace := ReachFailures(c, k, ip, n - 1);
      trace := OneFailure(c, k, ip, n, trace);
    }
  }

  lemma {:induction false} StageSize(ip: string, n: nat, j: nat, phase: Phase)
    ensures |Stage(ip, n, j, phase).handlers| == j
  {
    if j > 0 {
      StageSize(ip, n, j - 1, phase);
      assert Stage(ip, n, j, phase).handlers == Stage(ip, n, j - 1, phase).handlers[j - 1 := phase];
    } else {
      assert Stage(ip, n, j, phase).handlers == map[];
    }
  }

  /** Then `j` handlers pass their check before any of them records its failure. */
  lemma {:induction false} ReachPassed(c: Config, k: nat, ip: string, j: nat) returns (trace: seq<State>)
    requires k >= 1 && j <= k && c.maxAttempts >= 1
    ensures Reaches(c, k, trace, Stage(ip, c.maxAttempts - 1, j, Passed(ip)))
  {
    var n := c.maxAttempts - 1;
    if j == 0 {
      trace := ReachFailures(c, k, ip, n);
      assert Stage(ip, n, 0, Passed(ip)) == Idle(ip, n);
    } else {
      trace := ReachPassed(c, k, ip, j - 1);
      StageSize(ip, n, j - 1, Passed(ip));
      var s, s' := Stage(ip, n, j - 1, Passed(ip)), Stage(ip, n, j, Passed(ip));
      assert s'.handlers == s.handlers[j - 1 := Passed(ip)];
      assert Enter(c, k, s, s', j - 1, ip, 0);
      trace := Extend(c, k, trace, s, s');
    }
  }

  /** Handlers `0..j` have recorded a failure, the others up to `k` have passed. */
  function Mixed(ip: string, n: nat, j: nat, k: nat): State {
    State(if n == 0 then map[] else map[ip := Attempt(n, 0)],
          map i: nat | i < k && Below(i, k) :: if i < j then Reporting(ip) else Passed(ip))
  }

  /** Finally all of them record. */
  lemma {:induction false} BoundIsAttained(c: Config, k: nat, ip: string, j: nat) returns (trace: seq<State>)
    requires k >= 1 && c.maxAttempts >= 1 && j <= k
    ensures Reaches(c, k, trace, Mixed(ip, c.maxAttempts - 1 + j, j, k))
    ensures Recorded(trace[|trace| - 1], ip) == c.maxAttempts - 1 + j
  {
    var n := c.maxAttempts - 1 + j;
    if j == 0 {
      trace := ReachPassed(c, k, ip, k);
      assert Stage(ip, n, k, Passed(ip)) == Mixed(ip, n, 0, k);
    } else {
      trace := BoundIsAttained(c, k, ip, j - 1);
      var s, s' := Mixed(ip, n - 1, j - 1, k), Mixed(ip, n, j, k);
      assert s'.handlers == s.handlers[j - 1 := Reporting(ip)];
      assert Fail(s, s', j - 1, 0);
      trace := Extend(c, k, trace, s, s');
    }
  }
}
