/** That the scheduler goes on: no reachable state is stuck, and runs have as many executions as one likes. */
module SchedulerProgress {
  import opened CronParser
  import opened CronSearch
  import opened ScheduleExamples
  import opened SchedulerRun

  /** What the loop does next, in a state that is not `Stopped`; when it waits, the armed instant has come. */
  ghost predicate LoopStep(schedule: CronSchedule, offset: int, s: State, s': State) {
    var next := NextInstant(schedule, offset, s.clock);
    s'.clock == s.clock && match s.phase
      case Arming =>
        s'.phase == Waiting(next) && s'.timers == s.timers + [Timer(s.clock, next)] && s'.executions == s.executions
      case Waiting(armed) => s'.phase == Fired(armed) && s'.timers == s.timers && s'.executions == s.executions
      case Fired(armed) =>
        && s'.phase == Running(armed) && s'.timers == s.timers
        && s'.executions == s.executions + [Execution(armed, s.clock, false, 0)]
      case Running(_) =>
        && s'.phase == Arming && s'.timers == s.timers && |s'.executions| == |s.executions| > 0
        && var e := s'.executions[|s.executions| - 1]; e.done && e.ended == s.clock
      case Stopped => false
  }

  /**
   From every reachable state that is not `Stopped` the loop can take its next step: it arms a timer for the next
   instant, receives the timer once its instant has come, starts the job, or ends the job and arms again. The clock can
   reach the instant it waits for.
   */
  lemma NeverStuck(schedule: CronSchedule, offset: int, trace: seq<State>) returns (s: State, s': State)
    requires IsRun(SchedulerConfig(schedule, offset), trace) && !trace[|trace| - 1].phase.Stopped?
    ensures var last := trace[|trace| - 1];
            && (s == last || (last.phase.Waiting? && s == last.(clock := last.phase.armed)
                              && Step(SchedulerConfig(schedule, offset), last, s)))
            && Step(SchedulerConfig(schedule, offset), s, s') && LoopStep(schedule, offset, s, s')
  {
    hide NextInstant;
    SchedulerInvariant(schedule, offset, trace);
    var c, last := SchedulerConfig(schedule, offset), trace[|trace| - 1];
    s := last;
    match last.phase
    case Arming =>
      s' := s.(phase := Waiting(c.next(s.clock)), timers := s.timers + [Timer(s.clock, c.next(s.clock))]);
    case Waiting(armed) =>
      if s.clock < armed {
        s := last.(clock := armed);
        assert Tick(last, s);
      }
      s' := s.(phase := Fired(armed));
    case Fired(armed) =>
      s' := s.(phase := Running(armed), running := true,
               executions := s.executions + [Execution(armed, s.clock, false, 0)]);
      assert StartRun(s, s');
    case Running(_) =>
      var n := |s.executions| - 1;
      s' := s.(phase := Arming, running := false,
               executions := s.executions[n := s.executions[n].(done := true, ended := s.clock)]);
  }

  /** A waiting loop can be stopped at any time. After that only the clock changes. */
  lemma {:induction false} StopsForGood(c: Config, trace: seq<State>, i: nat)
    requires IsRun(c, trace) && i < |trace|
    ensures trace[i].phase.Waiting? ==> Step(c, trace[i], trace[i].(phase := Stopped))
    ensures trace[i].phase.Stopped? ==> trace[|trace| - 1] == trace[i].(clock := trace[|trace| - 1].clock)
    decreases |trace|
  {
    if i < |trace| - 1 {
      StopsForGood(c, trace[..|trace| - 1], i);
      assert Step(c, trace[|trace| - 2], trace[|trace| - 1]);
    }
  }

  // ---------- Any number of executions ----------

  /** The moment from which the `i`-th timer is computed: the start of the loop, or the end of the execution before. */
  function AskedAt(at: int, executions: seq<Execution>, i: nat): int
    requires i <= |executions|
  {
    if i == 0 then at else executions[i - 1].ended
  }

  /** Each execution starts at what `Next` answers at the end of the one before, and takes the given time. */
  ghost predicate BackToBack(schedule: CronSchedule, offset: int, at: int, durations: seq<nat>,
                             executions: seq<Execution>) {
    && |executions| == |durations|
    && forall i :: 0 <= i < |executions| ==>
         var armed := NextInstant(schedule, offset, AskedAt(at, executions, i));
         executions[i] == Execution(armed, armed, true, armed + durations[i])
  }

  lemma OneRound(c: Config, trace: seq<State>, duration: nat) returns (longer: seq<State>)
    requires Later(c) && IsRun(c, trace) && trace[|trace| - 1].phase == Arming && !trace[|trace| - 1].running
    ensures IsRun(c, longer)
    ensures var s, r := trace[|trace| - 1], longer[|longer| - 1];
            var armed := c.next(s.clock);
            && r.phase == Arming && !r.running && r.clock == armed + duration
            && r.executions == s.executions + [Execution(armed, armed, true, armed + duration)]
  {
    var s := trace[|trace| - 1];
    var armed := c.next(s.clock);
    var s1 := s.(phase := Waiting(armed), timers := s.timers + [Timer(s.clock, armed)]);
    var s2 := s1.(clock := armed);
    var s3 := s2.(phase := Fired(armed));
    var s4 := s3.(phase := Running(armed), running := true,
                  executions := s.executions + [Execution(armed, armed, false, 0)]);
    var s5 := s4.(clock := armed + duration);
    var s6 := s5.(phase := Arming, running := false,
                  executions := s.executions + [Execution(armed, armed, true, armed + duration)]);
    assert Arm(c, s, s1) && Tick(s1, s2) && Fire(s2, s3) && StartRun(s3, s4) && Tick(s4, s5);
    assert EndRun(s5, s6) by {
      var n := |s.executions|;
      assert s6.executions == s5.executions[n := s5.executions[n].(done := true, ended := s5.clock)];
    }
    longer := Append(c, trace, s, s1);
    longer := Append(c, longer, s1, s2);
    longer := Append(c, longer, s2, s3);
    longer := Append(c, longer, s3, s4);
    longer := Append(c, longer, s4, s5);
    longer := Append(c, longer, s5, s6);
  }

  lemma Append(c: Config, trace: seq<State>, s: State, s': State) returns (longer: seq<State>)
    requires IsRun(c, trace) && trace[|trace| - 1] == s && Step(c, s, s')
    ensures IsRun(c, longer) && longer[|longer| - 1] == s'
  {
    hide Step, Init;
    longer := trace + [s'];
    assert longer[0] == trace[0];
    forall i | 0 < i < |longer| ensures Step(c, longer[i - 1], longer[i]) {
      if i < |trace| {
        assert longer[i - 1] == trace[i - 1] && longer[i] == trace[i];
      }
    }
  }

  /** For every start and all durations some run has that many executions, one after the other. */
  lemma {:induction false} RunsGoOn(schedule: CronSchedule, offset: int, at: int, durations: seq<nat>)
      returns (trace: seq<State>)
    ensures IsRun(SchedulerConfig(schedule, offset), trace)
    ensures var last := trace[|trace| - 1];
            && last.phase == Arming && !last.running && BackToBack(schedule, offset, at, durations, last.executions)
            && last.clock == AskedAt(at, last.executions, |last.executions|)
  {
    hide NextInstant, Step;
    var c := SchedulerConfig(schedule, offset);
    if durations == [] {
      trace := [State(at, Arming, false, [], [], 0)];
    } else {
      var n := |durations| - 1;
      var before := RunsGoOn(schedule, offset, at, durations[..n]);
      NextIsAlwaysLater(schedule, offset);
      trace := OneRound(c, before, durations[n]);
      var executions, longer := before[|before| - 1].executions, trace[|trace| - 1].executions;
      forall i | 0 <= i < |longer|
        ensures var armed := NextInstant(schedule, offset, AskedAt(at, longer, i));
                longer[i] == Execution(armed, armed, true, armed + durations[i])
      {
        if i < n {
          assert longer[i] == executions[i] && durations[..n][i] == durations[i];
          assert AskedAt(at, longer, i) == AskedAt(at, executions, i);
        }
      }
    }
  }

  /** `0 0 30 2 *`: some run purges any number of times, each time one minute after the end of the time before. */
  lemma EveryMinuteRun(offset: int, at: int, durations: seq<nat>) returns (trace: seq<State>)
    ensures ParseCronSchedule("0 0 30 2 *").Ok?
    ensures IsRun(SchedulerConfig(ParseCronSchedule("0 0 30 2 *").value, offset), trace)
    ensures var executions := trace[|trace| - 1].executions;
            && |executions| == |durations|
            && forall i :: 0 <= i < |executions| ==>
                 executions[i].started == AskedAt(at, executions, i) + 60_000_000_000
  {
    hide ParseCronSchedule, NextInstant, IsRun, Recurs, RunsOffSchedule, Matches;
    var _ := ImpossibleDateExample(offset);
    trace := RunsGoOn(ParseCronSchedule("0 0 30 2 *").value, offset, at, durations);
  }
}
