/** What stopping guarantees, and that no start or restart is forgotten
    (electron-shell/src/companion-manager.ts:80-93, 167-290). */
module CompanionProgress {
  import opened Options
  import opened Companion
  import opened CompanionBounds

  // ---------- What stop guarantees ----------

  ghost predicate NoStart(steps: seq<Step>) {
    forall k :: 0 <= k < |steps| ==> !steps[k].Start?
  }

  /** No continuation without a new start forks anything. */
  ghost predicate ForksNoMore(s: State) {
    forall steps ::
      NoStart(steps) && Run(s, steps).Some? ==> |Run(s, steps).value.children| == |s.children|
  }

  lemma {:induction false} ForksAfterStop(s: State, steps: seq<Step>)
    requires s.stopping && NoStart(steps) && Run(s, steps).Some?
    ensures |s.children| <= |Run(s, steps).value.children| <= |s.children| + s.tasks[PortSearch]
    decreases |steps|
  {
    hide Do, Enabled;
    if steps != [] {
      StepAfterStop(s, steps[0]);
      assert forall k :: 0 <= k < |steps[1..]| ==> steps[1..][k] == steps[k + 1];
      ForksAfterStop(Do(s, steps[0]), steps[1..]);
    }
  }

  ghost predicate NoMoreThanSearches(s: State, s': State) {
    && s'.stopping
    && |s.children| <= |s'.children|
    && |s'.children| + s'.tasks[PortSearch] <= |s.children| + s.tasks[PortSearch]
  }

  lemma SearchAfterStop(s: State, outcome: SearchOutcome)
    requires s.stopping && PortSearch in s.tasks
    ensures NoMoreThanSearches(s, AfterSearch(Minus(s, PortSearch), outcome))
  {}

  lemma HealthAfterStop(s: State, step: Step)
    requires s.stopping && Enabled(s, step) && (step.HealthReply? || step.PauseOver?)
    ensures NoMoreThanSearches(s, Do(s, step))
  {
    hide Do, DiedDuringStartup;
    if step.HealthReply? {
      DoHealthReply(s, step.attempt, step.ok);
    } else {
      DoPauseOver(s, step.attempt);
    }
  }

  lemma CrashAfterStop(s: State, step: Step)
    requires s.stopping && Enabled(s, step)
    requires step.HealthKillDone? || step.ChildExits? || step.ChildErrors?
    ensures NoMoreThanSearches(s, Do(s, step))
  {
    hide Do;
    DoCrash(s, step);
  }

  lemma ControlAfterStop(s: State, step: Step)
    requires s.stopping && Enabled(s, step) && (step.Stop? || step.StopKillDone? || step.DelayOver?)
    ensures NoMoreThanSearches(s, Do(s, step))
  {}

  lemma StepAfterStop(s: State, step: Step)
    requires s.stopping && !step.Start? && Enabled(s, step)
    ensures NoMoreThanSearches(s, Do(s, step))
  {
    hide AfterSearch, DiedDuringStartup, Unhealthy, Crash, Spawn, NoMoreThanSearches;
    match step {
      case PortSearched(outcome) =>
        SearchAfterStop(s, outcome);
        DoPortSearched(s, outcome);
      case HealthReply(n, ok) => HealthAfterStop(s, step);
      case PauseOver(n) => HealthAfterStop(s, step);
      case Stop => ControlAfterStop(s, step);
      case StopKillDone => ControlAfterStop(s, step);
      case DelayOver => ControlAfterStop(s, step);
      case _ => CrashAfterStop(s, step);
    }
  }

  /** A stop is final exactly when no port search is under way: crashes, health checks and timers then
      restart nothing any more, but a port search that ends after the stop still forks. */
  lemma StopIsFinalExactly(s: State)
    ensures ForksNoMore(Do(s, Stop)) <==> PortSearch !in s.tasks
  {
    hide Run;
    var stopped := Do(s, Stop);
    if PortSearch in s.tasks {
      FoundForks(stopped);
      assert NoStart([FOUND]);
    } else {
      forall steps | NoStart(steps) && Run(stopped, steps).Some?
        ensures |Run(stopped, steps).value.children| == |stopped.children|
      {
        ForksAfterStop(stopped, steps);
      }
    }
  }

  lemma FoundForks(s: State)
    requires PortSearch in s.tasks
    ensures Run(s, [FOUND]).Some? && |Run(s, [FOUND]).value.children| == |s.children| + 1
  {
    assert [FOUND][1..] == [];
    assert Run(Do(s, FOUND), []) == Some(Do(s, FOUND));
  }

  // ---------- No start or restart is forgotten ----------

  /** What keeps a start going. */
  predicate StartupTask(t: Task) {
    t.PortSearch? || t.Polling? || t.Pause? || t.HealthKill?
  }

  ghost predicate InStartup(tasks: multiset<Task>) {
    exists t :: t in tasks && StartupTask(t)
  }

  predicate CrashMoves(s: State) {
    s.status == Crashed && !s.stopping ==> Delay in s.tasks
  }

  ghost predicate StartMoves(s: State) {
    s.status == Starting && !s.stopping ==> InStartup(s.tasks)
  }

  predicate StopMoves(s: State) {
    s.status == Starting && s.stopping ==> StopKill in s.tasks
  }

  /** In the passing states something is pending that will leave them. */
  ghost predicate Moving(s: State) {
    CrashMoves(s) && StartMoves(s) && StopMoves(s)
  }

  predicate Throws(step: Step) {
    step.PortSearched? && step.outcome.ForkThrows?
  }

  lemma Witness(t: Task, tasks: multiset<Task>)
    requires t in tasks && StartupTask(t)
    ensures InStartup(tasks)
  {}

  /** Taking `t` out and putting a startup task in keeps a startup going. */
  lemma Replaced(tasks: multiset<Task>, t: Task, u: Task)
    requires StartupTask(u)
    ensures InStartup(tasks - multiset{t} + multiset{u})
  {
    Witness(u, tasks - multiset{t} + multiset{u});
  }

  lemma SearchStaysMoving(s: State, outcome: SearchOutcome)
    requires StartMoves(s) && PortSearch in s.tasks && !outcome.ForkThrows?
    ensures StartMoves(AfterSearch(Minus(s, PortSearch), outcome))
  {
    hide InStartup;
    Replaced(s.tasks, PortSearch, Polling(0));
  }

  lemma ReplyStaysMoving(s: State, n: nat, ok: bool)
    requires StartMoves(s) && Polling(n) in s.tasks
    ensures StartMoves(Do(s, HealthReply(n, ok)))
  {
    hide InStartup, Do, DiedDuringStartup;
    DoHealthReply(s, n, ok);
    Replaced(s.tasks, Polling(n), HealthKill);
    Replaced(s.tasks, Polling(n), Pause(n));
  }

  lemma PauseStaysMoving(s: State, n: nat)
    requires StartMoves(s) && Pause(n) in s.tasks
    ensures StartMoves(Do(s, PauseOver(n)))
  {
    hide InStartup, Do;
    DoPauseOver(s, n);
    Replaced(s.tasks, Pause(n), HealthKill);
    Replaced(s.tasks, Pause(n), Polling(n + 1));
  }

  lemma CrashedIsNotStarting(s: State, step: Step)
    requires StartMoves(s) && Enabled(s, step)
    requires step.HealthKillDone? || step.ChildExits? || step.ChildErrors?
    ensures StartMoves(Do(s, step))
  {
    hide InStartup, Do;
    DoCrash(s, step);
  }

  lemma StartStaysMoving(s: State, step: Step)
    requires StartMoves(s) && Enabled(s, step) && !Throws(step)
    ensures StartMoves(Do(s, step))
  {
    hide InStartup, AfterSearch, DiedDuringStartup, Unhealthy, Crash;
    match step {
      case PortSearched(outcome) =>
        SearchStaysMoving(s, outcome);
        DoPortSearched(s, outcome);
      case HealthReply(n, ok) => ReplyStaysMoving(s, n, ok);
      case PauseOver(n) => PauseStaysMoving(s, n);
      case Start => Witness(PortSearch, Plus(s, PortSearch).tasks);
      case DelayOver => Witness(PortSearch, Plus(Minus(s, Delay), PortSearch).tasks);
      case StopKillDone =>
      case Stop =>
      case _ => CrashedIsNotStarting(s, step);
    }
  }

  lemma SearchKeepsTheRest(s: State, outcome: SearchOutcome)
    requires CrashMoves(s) && StopMoves(s) && PortSearch in s.tasks
    ensures CrashMoves(Do(s, PortSearched(outcome))) && StopMoves(Do(s, PortSearched(outcome)))
  {
    hide Do;
    DoPortSearched(s, outcome);
  }

  lemma HealthKeepsTheRest(s: State, step: Step)
    requires CrashMoves(s) && StopMoves(s) && Enabled(s, step) && (step.HealthReply? || step.PauseOver?)
    ensures CrashMoves(Do(s, step)) && StopMoves(Do(s, step))
  {
    hide Do, DiedDuringStartup;
    match step {
      case HealthReply(n, ok) => DoHealthReply(s, n, ok);
      case PauseOver(n) => DoPauseOver(s, n);
    }
  }

  lemma CrashKeepsTheRest(s: State, step: Step)
    requires CrashMoves(s) && StopMoves(s) && Enabled(s, step)
    requires step.HealthKillDone? || step.ChildExits? || step.ChildErrors?
    ensures CrashMoves(Do(s, step)) && StopMoves(Do(s, step))
  {
    hide Do;
    DoCrash(s, step);
  }

  lemma ControlKeepsTheRest(s: State, step: Step)
    requires CrashMoves(s) && StopMoves(s) && Enabled(s, step)
    requires step.Start? || step.Stop? || step.StopKillDone? || step.DelayOver?
    ensures CrashMoves(Do(s, step)) && StopMoves(Do(s, step))
  {}

  lemma RestStaysMoving(s: State, step: Step)
    requires CrashMoves(s) && StopMoves(s) && Enabled(s, step)
    ensures CrashMoves(Do(s, step)) && StopMoves(Do(s, step))
  {
    hide CrashMoves, StopMoves, Do;
    if step.PortSearched? {
      SearchKeepsTheRest(s, step.outcome);
    } else if step.HealthReply? || step.PauseOver? {
      HealthKeepsTheRest(s, step);
    } else if step.HealthKillDone? || step.ChildExits? || step.ChildErrors? {
      CrashKeepsTheRest(s, step);
    } else {
      ControlKeepsTheRest(s, step);
    }
  }

  ghost predicate NeverThrows(steps: seq<Step>) {
    forall k :: 0 <= k < |steps| ==> !Throws(steps[k])
  }

  lemma {:induction false} RunKeepsMoving(s: State, steps: seq<Step>)
    requires Moving(s) && NeverThrows(steps) && Run(s, steps).Some?
    ensures Moving(Run(s, steps).value)
    decreases |steps|
  {
    hide StartMoves, CrashMoves, StopMoves, Do, Enabled, Throws;
    if steps != [] {
      assert !Throws(steps[0]);
      StartStaysMoving(s, steps[0]);
      RestStaysMoving(s, steps[0]);
      assert forall k :: 0 <= k < |steps[1..]| ==> steps[1..][k] == steps[k + 1];
      RunKeepsMoving(Do(s, steps[0]), steps[1..]);
    }
  }

  /** Unless a fork throws, no run gets stuck: "starting" and "crashed" are shown only while something is
      pending that will change them. */
  lemma NothingIsForgotten(steps: seq<Step>)
    requires Run(Initial(), steps).Some? && NeverThrows(steps)
    ensures Moving(Run(Initial(), steps).value)
  {
    hide Run;
    RunKeepsMoving(Initial(), steps);
  }

  // ---------- When a fork that throws gets the manager stuck ----------

  /** A fork that throws breaks the promise above exactly when it was the last thing to keep a start going. */
  lemma ThrowKeepsMovingExactly(s: State, port: nat)
    requires Moving(s) && PortSearch in s.tasks
    ensures Moving(Do(s, PortSearched(ForkThrows(port))))
      <==> s.status != Starting || s.stopping || InStartup(s.tasks - multiset{PortSearch})
  {
    hide InStartup, Do;
    DoPortSearched(s, ForkThrows(port));
  }

  /** Steps without a stop and without an event of a child. */
  ghost predicate OnItsOwn(steps: seq<Step>) {
    forall k :: 0 <= k < |steps| ==> !steps[k].Stop? && !steps[k].ChildExits? && !steps[k].ChildErrors?
  }

  /** "starting" for ever, whatever is started, unless it is stopped or a child ends. */
  ghost predicate Stuck(s: State) {
    forall steps :: OnItsOwn(steps) && Run(s, steps).Some? ==> Run(s, steps).value.status == Starting
  }

  lemma {:induction false} NothingMoves(s: State, steps: seq<Step>)
    requires s.status == Starting && s.tasks == multiset{} && OnItsOwn(steps) && Run(s, steps).Some?
    ensures Run(s, steps).value == s
    decreases |steps|
  {
    if steps != [] {
      var first := steps[0];
      assert first.Start?;
      assert forall k :: 0 <= k < |steps[1..]| ==> steps[1..][k] == steps[k + 1];
      NothingMoves(s, steps[1..]);
    }
  }

  /** The step that a task takes towards leaving "starting". */
  function Leave(t: Task): Step {
    match t
    case PortSearch => PortSearched(NoPort)
    case Polling(n) => HealthReply(n, true)
    case Pause(n) => PauseOver(n)
    case HealthKill => HealthKillDone
    case StopKill => StopKillDone
    case Delay => DelayOver
  }

  /** The step leaves "starting", or another task takes over that is nearer to leaving it. */
  lemma LeaveOrNearer(s: State, t: Task) returns (t': Task)
    requires s.status == Starting && !s.stopping && t in s.tasks
    ensures var s' := Do(s, Leave(t));
      s'.status == Starting ==> !s'.stopping && t' in s'.tasks && Far(t') < Far(t)
  {
    hide Do, AfterSearch, Crash;
    t' := t;
    match t {
      case PortSearch => SearchFails(s);
      case Polling(n) => DoHealthReply(s, n, true);
      case Pause(n) =>
        DoPauseOver(s, n);
        t' := if n + 1 >= MAX_ATTEMPTS then HealthKill else Polling(n + 1);
      case HealthKill => CrashLeaves(s);
      case StopKill => StopLeaves(s);
      case Delay =>
        DelaySearches(s);
        t' := PortSearch;
    }
  }

  function Far(t: Task): nat {
    if t.Pause? || t.Delay? then 1 else 0
  }

  lemma SearchFails(s: State)
    requires PortSearch in s.tasks
    ensures Do(s, PortSearched(NoPort)).status == Failed
  {}

  lemma CrashLeaves(s: State)
    requires !s.stopping && HealthKill in s.tasks
    ensures Do(s, HealthKillDone).status != Starting
  {
    hide Do;
    DoCrash(s, HealthKillDone);
  }

  lemma StopLeaves(s: State)
    requires StopKill in s.tasks
    ensures Do(s, StopKillDone).status == Stopped
  {}

  lemma DelaySearches(s: State)
    requires !s.stopping && Delay in s.tasks
    ensures !Do(s, DelayOver).stopping && PortSearch in Do(s, DelayOver).tasks
  {}

  lemma {:induction false} AnyTaskLeaves(s: State, t: Task) returns (steps: seq<Step>)
    requires s.status == Starting && !s.stopping && t in s.tasks
    ensures OnItsOwn(steps) && Run(s, steps).Some? && Run(s, steps).value.status != Starting
    decreases Far(t)
  {
    hide Do, Far;
    var t' := LeaveOrNearer(s, t);
    var s', rest := Do(s, Leave(t)), [];
    if s'.status == Starting {
      rest := AnyTaskLeaves(s', t');
    }
    steps := [Leave(t)] + rest;
    assert steps[1..] == rest;
    assert rest == [] ==> Run(s', rest) == Some(s');
  }

  /** A manager that says "starting" is stuck exactly when no task at all is left. */
  lemma StuckExactly(s: State)
    requires s.status == Starting && !s.stopping
    ensures Stuck(s) <==> s.tasks == multiset{}
  {
    hide Run, Do;
    if s.tasks == multiset{} {
      forall steps | OnItsOwn(steps) && Run(s, steps).Some? ensures Run(s, steps).value.status == Starting {
        NothingMoves(s, steps);
      }
    } else {
      var t :| t in s.tasks;
      var steps := AnyTaskLeaves(s, t);
    }
  }

  /** A start whose fork throws gets the manager stuck, and deaf to every later start, exactly when nothing
      else was pending before it. */
  lemma ThrowingForkSticks(s: State, port: nat)
    requires s.status != Running && s.status != Starting
    ensures Run(s, [Start] + [PortSearched(ForkThrows(port))]).Some?
    ensures var r := Run(s, [Start] + [PortSearched(ForkThrows(port))]).value;
      && r.status == Starting && r.tasks == s.tasks && r.children == s.children && Do(r, Start) == r
      && (Stuck(r) <==> s.tasks == multiset{})
  {
    hide Run, TallyOf, Stuck;
    var step := PortSearched(ForkThrows(port));
    var s1 := Do(s, Start);
    ReachesByOne(s, ZERO, Start);
    ReachesThen(s, ZERO, [Start], s1, Counted(s, Start, ZERO), step);
    StuckExactly(Do(s1, step));
  }
}
