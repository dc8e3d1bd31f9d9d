/**
 The goroutine of StartPurgeScheduler as a state machine. The clock moves between any two of its actions; every action
 reads it at most once.
 */
module SchedulerRun {
  import opened Clock
  import opened CronParser
  import opened CronSearch

  datatype Phase =
    | Arming                 // about to compute the next run
    | Waiting(armed: int)    // blocked in the select
    | Fired(armed: int)      // the timer channel delivered, before the compare-and-swap
    | Running(armed: int)    // inside run()
    | Stopped

  /** One timer: when `Next` was asked and what it answered. */
  datatype Timer = Timer(asked: int, armed: int)

  /** One execution of run(); `ended` is meaningful once `done`. */
  datatype Execution = Execution(armed: int, started: int, done: bool, ended: int)

  datatype State = State(
    clock: int, phase: Phase, running: bool, timers: seq<Timer>, executions: seq<Execution>, skips: nat)

  /** The loop's view of `schedule.Next`. */
  datatype Config = Config(next: int -> int)

  ghost predicate Later(c: Config) {
    forall t :: t < c.next(t)
  }

  ghost predicate Init(s: State) {
    s.phase == Arming && !s.running && s.timers == [] && s.executions == [] && s.skips == 0
  }

  ghost predicate Tick(s: State, s': State) {
    s.clock <= s'.clock && s' == s.(clock := s'.clock)
  }

  ghost predicate Arm(c: Config, s: State, s': State) {
    && s.phase == Arming
    && s' == s.(phase := Waiting(c.next(s.clock)), timers := s.timers + [Timer(s.clock, c.next(s.clock))])
  }

  /** The timer delivers at some moment no earlier than the instant it was armed for. */
  ghost predicate Fire(s: State, s': State) {
    s.phase.Waiting? && s.phase.armed <= s.clock && s' == s.(phase := Fired(s.phase.armed))
  }

  ghost predicate StartRun(s: State, s': State) {
    && s.phase.Fired? && !s.running
    && s' == s.(phase := Running(s.phase.armed), running := true,
                executions := s.executions + [Execution(s.phase.armed, s.clock, false, 0)])
  }

  /** The compare-and-swap fails: the run is skipped and the loop continues. */
  ghost predicate SkipRun(s: State, s': State) {
    s.phase.Fired? && s.running && s' == s.(phase := Arming, skips := s.skips + 1)
  }

  ghost predicate EndRun(s: State, s': State) {
    && s.phase.Running? && s.executions != []
    && var n := |s.executions| - 1;
       s' == s.(phase := Arming, running := false,
                executions := s.executions[n := s.executions[n].(done := true, ended := s.clock)])
  }

  ghost predicate Stop(s: State, s': State) {
    s.phase.Waiting? && s' == s.(phase := Stopped)
  }

  ghost predicate Step(c: Config, s: State, s': State) {
    Tick(s, s') || Arm(c, s, s') || Fire(s, s') || StartRun(s, s') || SkipRun(s, s') || EndRun(s, s') || Stop(s, s')
  }

  /** A finite run: a non-empty sequence of states, each a step from the one before. */
  ghost predicate IsRun(c: Config, trace: seq<State>) {
    && trace != [] && Init(trace[0])
    && forall i :: 0 < i < |trace| ==> Step(c, trace[i - 1], trace[i])
  }

  // ---------- What every run keeps ----------

  ghost predicate TimersOrdered(c: Config, timers: seq<Timer>) {
    && (forall i :: 0 <= i < |timers| ==>
          timers[i].armed == c.next(timers[i].asked) && timers[i].asked < timers[i].armed)
    && (forall i, j :: 0 <= i < j < |timers| ==> timers[i].armed <= timers[j].asked)
  }

  /**
   Executions are disjoint in time, in order, each begins no earlier than its timer, and only the last may be open.
   */
  ghost predicate ExecutionsOrdered(executions: seq<Execution>) {
    && (forall i :: 0 <= i < |executions| ==> executions[i].armed <= executions[i].started)
    && (forall i :: 0 <= i < |executions| && executions[i].done ==> executions[i].started <= executions[i].ended)
    && (forall i, j :: 0 <= i < j < |executions| ==> executions[i].done && executions[i].ended < executions[j].armed)
  }

  /** Every timer but a pending last one has led to exactly one execution. */
  ghost predicate OneExecutionPerTimer(s: State) {
    && |s.executions| <= |s.timers|
    && (forall i :: 0 <= i < |s.executions| ==> s.executions[i].armed == s.timers[i].armed)
  }

  ghost predicate EndedBeforeAsked(s: State) {
    forall i, j :: 0 <= i < |s.executions| && i < j < |s.timers| && s.executions[i].done
      ==> s.executions[i].ended <= s.timers[j].asked
  }

  ghost predicate Inv(c: Config, s: State) {
    && TimersOrdered(c, s.timers) && ExecutionsOrdered(s.executions) && OneExecutionPerTimer(s)
    && EndedBeforeAsked(s)
    && s.skips == 0
    && (s.running <==> s.phase.Running?)
    && (forall i :: 0 <= i < |s.timers| ==> s.timers[i].asked <= s.clock)
    && (s.executions != [] ==> s.executions[|s.executions| - 1].started <= s.clock)
    && (forall i :: 0 <= i < |s.executions| && s.executions[i].done ==> s.executions[i].ended <= s.clock)
    && (s.executions != [] ==> (s.executions[|s.executions| - 1].done <==> !s.phase.Running?))
    && match s.phase
       case Arming => |s.timers| == |s.executions| && forall i :: 0 <= i < |s.timers| ==> s.timers[i].armed <= s.clock
       case Waiting(armed) => |s.timers| == |s.executions| + 1 && s.timers[|s.timers| - 1].armed == armed
       case Fired(armed) =>
         |s.timers| == |s.executions| + 1 && s.timers[|s.timers| - 1].armed == armed <= s.clock
       case Running(armed) =>
         && |s.timers| == |s.executions| > 0 && s.timers[|s.timers| - 1].armed == armed
         && forall i :: 0 <= i < |s.timers| ==> s.timers[i].armed <= s.clock
       case Stopped => |s.timers| == |s.executions| + 1
  }

  lemma TimersExtend(c: Config, timers: seq<Timer>, asked: int)
    requires Later(c) && TimersOrdered(c, timers)
    requires forall i :: 0 <= i < |timers| ==> timers[i].armed <= asked
    ensures TimersOrdered(c, timers + [Timer(asked, c.next(asked))])
  {
  }

  lemma ArmKeepsInv(c: Config, s: State, s': State)
    requires Later(c) && Inv(c, s) && Arm(c, s, s')
    ensures Inv(c, s')
  {
    TimersExtend(c, s.timers, s.clock);
    hide TimersOrdered, ExecutionsOrdered, Later;
  }

  lemma StartKeepsInv(c: Config, s: State, s': State)
    requires Later(c) && Inv(c, s) && StartRun(s, s')
    ensures Inv(c, s')
  {
    ExecutionsExtend(s.executions, Execution(s.phase.armed, s.clock, false, 0));
    hide TimersOrdered, ExecutionsOrdered, Later;
  }

  lemma ExecutionsExtend(executions: seq<Execution>, e: Execution)
    requires ExecutionsOrdered(executions) && e.armed <= e.started && !e.done
    requires forall i :: 0 <= i < |executions| ==> executions[i].done && executions[i].ended < e.armed
    ensures ExecutionsOrdered(executions + [e])
  {
  }

  lemma EndKeepsInv(c: Config, s: State, s': State)
    requires Later(c) && Inv(c, s) && EndRun(s, s')
    ensures Inv(c, s')
  {
  }

  /** The other actions leave timers and executions alone; the failing compare-and-swap never happens. */
  lemma QuietKeepsInv(c: Config, s: State, s': State)
    requires Inv(c, s) && (Tick(s, s') || Fire(s, s') || SkipRun(s, s') || Stop(s, s'))
    ensures Inv(c, s') && !SkipRun(s, s')
  {
    assert s'.timers == s.timers && s'.executions == s.executions;
  }

  lemma StepKeepsInv(c: Config, s: State, s': State)
    requires Later(c) && Inv(c, s) && Step(c, s, s')
    ensures Inv(c, s')
  {
    if Tick(s, s') || Fire(s, s') || SkipRun(s, s') || Stop(s, s') {
      QuietKeepsInv(c, s, s');
    } else if Arm(c, s, s') {
      ArmKeepsInv(c, s, s');
    } else if StartRun(s, s') {
      StartKeepsInv(c, s, s');
    } else {
      EndKeepsInv(c, s, s');
    }
  }

  lemma {:induction false} RunKeepsInv(c: Config, trace: seq<State>)
    requires Later(c) && IsRun(c, trace)
    ensures Inv(c, trace[|trace| - 1])
  {
    if |trace| > 1 {
      var init := trace[..|trace| - 1];
      RunKeepsInv(c, init);
      StepKeepsInv(c, init[|init| - 1], trace[|trace| - 1]);
    }
  }

  // ---------- The scheduler over whole runs ----------

  function SchedulerConfig(schedule: CronSchedule, offset: int): Config {
    Config((t: int) => NextInstant(schedule, offset, t))
  }

  /** Between two timers, a matching instant is passed over only if it was already past when the second was armed. */
  ghost predicate NothingMissed(schedule: CronSchedule, offset: int, timers: seq<Timer>) {
    forall i, t :: 0 < i < |timers| && t % MINUTE == 0 && Matches(schedule, offset, t)
      && timers[i - 1].armed < t < timers[i].armed
      ==> t <= timers[i].asked
  }

  ghost predicate StrictlyIncreasing(timers: seq<Timer>) {
    forall i, j :: 0 <= i < j < |timers| ==> timers[i].armed < timers[j].armed
  }

  /** Whole-run safety, for every schedule, every zone offset and every interleaving of clock and scheduler. */
  lemma SchedulerSafety(schedule: CronSchedule, offset: int, trace: seq<State>)
    requires IsRun(SchedulerConfig(schedule, offset), trace)
    ensures var last := trace[|trace| - 1];
            && last.skips == 0
            && TimersOrdered(SchedulerConfig(schedule, offset), last.timers)
            && StrictlyIncreasing(last.timers)
            && ExecutionsOrdered(last.executions)
            && EndedBeforeAsked(last)
            && OneExecutionPerTimer(last)
            && NothingMissed(schedule, offset, last.timers)
  {
    SchedulerInvariant(schedule, offset, trace);
    ArmedIncrease(SchedulerConfig(schedule, offset), trace[|trace| - 1].timers);
    TimersMissNothing(schedule, offset, trace[|trace| - 1].timers);
  }

  lemma SchedulerInvariant(schedule: CronSchedule, offset: int, trace: seq<State>)
    requires IsRun(SchedulerConfig(schedule, offset), trace)
    ensures Inv(SchedulerConfig(schedule, offset), trace[|trace| - 1])
  {
    NextIsAlwaysLater(schedule, offset);
    RunKeepsInv(SchedulerConfig(schedule, offset), trace);
  }

  lemma NextIsAlwaysLater(schedule: CronSchedule, offset: int)
    ensures Later(SchedulerConfig(schedule, offset))
  {
  }

  lemma ArmedIncrease(c: Config, timers: seq<Timer>)
    requires TimersOrdered(c, timers)
    ensures StrictlyIncreasing(timers)
  {
  }

  lemma TimersMissNothing(schedule: CronSchedule, offset: int, timers: seq<Timer>)
    requires TimersOrdered(SchedulerConfig(schedule, offset), timers)
    ensures NothingMissed(schedule, offset, timers)
  {
    forall i, t | 0 < i < |timers| && t % MINUTE == 0 && Matches(schedule, offset, t)
      && timers[i - 1].armed < t < timers[i].armed
      ensures t <= timers[i].asked
    {
      if timers[i].asked < t {
        NoMatchBeforeNext(schedule, offset, timers[i].asked, t);
      }
    }
  }

  /** Nothing between an instant and its `Next` matches, whether or not the search succeeded. */
  lemma NoMatchBeforeNext(schedule: CronSchedule, offset: int, after: int, t: int)
    requires t % MINUTE == 0 && after < t < NextInstant(schedule, offset, after)
    ensures !Matches(schedule, offset, t)
  {
    NextIsLeast(schedule, offset, after);
    assert t == t / MINUTE * MINUTE;
    if Matches(schedule, offset, t) {
      assert NextInstant(schedule, offset, after) <= (FirstCandidate(after) + WINDOW) * MINUTE;
      assert Eligible(schedule, offset, after, t);
    }
  }

  /** Every execution was armed for a matching minute; it may start later. */
  ghost predicate ArmedOnSchedule(schedule: CronSchedule, offset: int, executions: seq<Execution>) {
    forall i :: 0 <= i < |executions| ==> Matches(schedule, offset, executions[i].armed)
  }

  ghost predicate AlwaysArmedOnSchedule(schedule: CronSchedule, offset: int) {
    forall trace: seq<State> :: IsRun(SchedulerConfig(schedule, offset), trace) ==>
      ArmedOnSchedule(schedule, offset, trace[|trace| - 1].executions)
  }

  lemma MatchingRuns(schedule: CronSchedule, offset: int, trace: seq<State>)
    requires AlwaysMatches(schedule, offset) && IsRun(SchedulerConfig(schedule, offset), trace)
    ensures ArmedOnSchedule(schedule, offset, trace[|trace| - 1].executions)
  {
    SchedulerInvariant(schedule, offset, trace);
    hide Matches, NextInstant;
    var last := trace[|trace| - 1];
    forall i | 0 <= i < |last.executions| ensures Matches(schedule, offset, last.executions[i].armed) {
      assert last.timers[i].armed == NextInstant(schedule, offset, last.timers[i].asked);
    }
  }

  /** A run that asks for the next instant at `at` and executes `late` nanoseconds after the answer. */
  lemma OneExecution(c: Config, at: int, late: nat) returns (trace: seq<State>)
    requires Later(c)
    ensures IsRun(c, trace) && |trace[|trace| - 1].executions| == 1
    ensures trace[|trace| - 1].executions[0].armed == c.next(at)
    ensures trace[|trace| - 1].executions[0].started == c.next(at) + late
  {
    var armed := c.next(at);
    var s0 := State(at, Arming, false, [], [], 0);
    var s1 := s0.(phase := Waiting(armed), timers := [Timer(at, armed)]);
    var s2 := s1.(clock := armed + late);
    var s3 := s2.(phase := Fired(armed));
    var s4 := s3.(phase := Running(armed), running := true, executions := [Execution(armed, armed + late, false, 0)]);
    assert Arm(c, s0, s1) && Tick(s1, s2) && Fire(s2, s3);
    assert StartRun(s3, s4);
    trace := [s0, s1, s2, s3, s4];
  }

  /**
   Every execution of every run is armed for a matching minute if and only if the schedule recurs. Otherwise the
   fallback of `Next` makes some run arm its timer for a minute that the expression does not name.
   */
  lemma ArmedOnScheduleIffRecurs(expr: string, offset: int)
    requires ParseCronSchedule(expr).Ok?
    ensures AlwaysArmedOnSchedule(ParseCronSchedule(expr).value, offset) <==> Recurs(ParseCronSchedule(expr).value)
  {
    hide ParseCronSchedule, Recurs, Matches, NextInstant, Init, Step;
    var schedule := ParseCronSchedule(expr).value;
    ParsedSearchCompleteness(expr, offset);
    if Recurs(schedule) {
      forall trace: seq<State> | IsRun(SchedulerConfig(schedule, offset), trace)
        ensures ArmedOnSchedule(schedule, offset, trace[|trace| - 1].executions)
      {
        MatchingRuns(schedule, offset, trace);
      }
    } else {
      var after :| !Matches(schedule, offset, NextInstant(schedule, offset, after));
      NextIsAlwaysLater(schedule, offset);
      var trace := OneExecution(SchedulerConfig(schedule, offset), after, 0);
      assert !ArmedOnSchedule(schedule, offset, trace[|trace| - 1].executions);
    }
  }

  // ---------- When executions start ----------

  ghost predicate StartsOnSchedule(schedule: CronSchedule, offset: int, executions: seq<Execution>) {
    forall i :: 0 <= i < |executions| ==> Matches(schedule, offset, executions[i].started)
  }

  /** Every execution starts less than a minute after the instant it was armed for. */
  ghost predicate Prompt(executions: seq<Execution>) {
    forall i :: 0 <= i < |executions| ==> executions[i].started < executions[i].armed + MINUTE
  }

  ghost predicate PromptRunsStartOnSchedule(schedule: CronSchedule, offset: int) {
    forall trace: seq<State> :: IsRun(SchedulerConfig(schedule, offset), trace) && Prompt(trace[|trace| - 1].executions)
      ==> StartsOnSchedule(schedule, offset, trace[|trace| - 1].executions)
  }

  ghost predicate AllRunsStartOnSchedule(schedule: CronSchedule, offset: int) {
    forall trace: seq<State> :: IsRun(SchedulerConfig(schedule, offset), trace)
      ==> StartsOnSchedule(schedule, offset, trace[|trace| - 1].executions)
  }

  /** An execution starts no earlier than what `Next` answered for it. */
  lemma TimerOfExecution(schedule: CronSchedule, offset: int, s: State, i: nat) returns (asked: int)
    requires Inv(SchedulerConfig(schedule, offset), s) && i < |s.executions|
    ensures s.executions[i].armed == NextInstant(schedule, offset, asked)
    ensures s.executions[i].armed <= s.executions[i].started
  {
    hide NextInstant;
    asked := s.timers[i].asked;
  }

  lemma FoundIsAligned(schedule: CronSchedule, offset: int, after: int)
    requires Matches(schedule, offset, NextInstant(schedule, offset, after))
    ensures NextInstant(schedule, offset, after) % MINUTE == 0
  {
    FallbackDoesNotMatch(schedule, offset, after);
    hide Search, Matches;
  }

  lemma SameMinute(schedule: CronSchedule, offset: int, t: int, u: int)
    requires t % MINUTE == 0 && t <= u < t + MINUTE
    ensures Matches(schedule, offset, t) <==> Matches(schedule, offset, u)
  {
    hide MatchesMinute;
    assert t / MINUTE == u / MINUTE;
  }

  lemma AlwaysMatchesAt(schedule: CronSchedule, offset: int, asked: int)
    requires Usable(schedule) && Recurs(schedule)
    ensures Matches(schedule, offset, NextInstant(schedule, offset, asked))
  {
    SearchCompleteness(schedule, offset);
  }

  /** In a run of a recurring schedule an execution that starts in another minute is at least a minute late. */
  lemma OffMinuteIsLate(schedule: CronSchedule, offset: int, trace: seq<State>, i: nat)
    requires Usable(schedule) && Recurs(schedule) && IsRun(SchedulerConfig(schedule, offset), trace)
    requires i < |trace[|trace| - 1].executions|
    ensures var e := trace[|trace| - 1].executions[i];
            && e.armed % MINUTE == 0 && Matches(schedule, offset, e.armed) && e.armed <= e.started
            && (!Matches(schedule, offset, e.started) ==> e.started >= e.armed + MINUTE)
  {
    var e := trace[|trace| - 1].executions[i];
    hide *;
    SchedulerInvariant(schedule, offset, trace);
    var asked := TimerOfExecution(schedule, offset, trace[|trace| - 1], i);
    AlwaysMatchesAt(schedule, offset, asked);
    FoundIsAligned(schedule, offset, asked);
    if e.started < e.armed + MINUTE {
      SameMinute(schedule, offset, e.armed, e.started);
    }
  }

  /**
   In runs whose executions start less than a minute after their timers, every execution starts in a matching minute if
   and only if the schedule recurs.
   */
  lemma PromptStartsIffRecurs(schedule: CronSchedule, offset: int)
    requires Usable(schedule)
    ensures PromptRunsStartOnSchedule(schedule, offset) <==> Recurs(schedule)
  {
    hide Recurs, Matches, NextInstant, Init, Step, Usable;
    SearchCompleteness(schedule, offset);
    if Recurs(schedule) {
      forall trace: seq<State> | IsRun(SchedulerConfig(schedule, offset), trace)
        && Prompt(trace[|trace| - 1].executions)
        ensures StartsOnSchedule(schedule, offset, trace[|trace| - 1].executions)
      {
        var executions := trace[|trace| - 1].executions;
        forall i | 0 <= i < |executions| ensures Matches(schedule, offset, executions[i].started) {
          OffMinuteIsLate(schedule, offset, trace, i);
        }
      }
    } else {
      var after :| !Matches(schedule, offset, NextInstant(schedule, offset, after));
      NextIsAlwaysLater(schedule, offset);
      var trace := OneExecution(SchedulerConfig(schedule, offset), after, 0);
      assert !StartsOnSchedule(schedule, offset, trace[|trace| - 1].executions);
    }
  }

  /** `Next` looks no further than its window. */
  lemma NextIsNear(schedule: CronSchedule, offset: int, after: int)
    ensures NextInstant(schedule, offset, after) <= after + (WINDOW + 1) * MINUTE
  {
    NextIsLeast(schedule, offset, after);
    assert FirstCandidate(after) * MINUTE <= after + MINUTE;
  }

  /**
   Without a bound on lateness a run can start its job at any instant, so only the schedule of all minutes is safe.
   */
  lemma AllStartsIffEveryMinute(schedule: CronSchedule, offset: int)
    ensures AllRunsStartOnSchedule(schedule, offset) <==> forall t :: Matches(schedule, offset, t)
  {
    hide Matches, NextInstant, Init, Step;
    if AllRunsStartOnSchedule(schedule, offset) {
      forall t ensures Matches(schedule, offset, t) {
        var at := t - (WINDOW + 1) * MINUTE;
        NextIsNear(schedule, offset, at);
        NextIsAlwaysLater(schedule, offset);
        var trace := OneExecution(SchedulerConfig(schedule, offset), at, t - NextInstant(schedule, offset, at));
        assert trace[|trace| - 1].executions[0].started == t;
      }
    }
  }
}
