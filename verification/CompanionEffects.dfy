/** What every step of the supervisor changes, field by field (electron-shell/src/companion-manager.ts:80-290),
    and what the status it shows means over whole runs. */
module CompanionEffects {
  import opened Options
  import opened Companion
  import opened CompanionBounds

  predicate IsCrash(step: Step) {
    step.HealthKillDone? || step.ChildExits? || step.ChildErrors?
  }

  /** A health check ends without success: its child is dead with an exit code, the attempts are used up, or a
      stop came. */
  predicate CheckEnds(s: State, step: Step) {
    match step
    case HealthReply(_, ok) => !ok && DiedDuringStartup(s)
    case PauseOver(n) => n + 1 >= 30 || s.stopping
    case _ => false
  }

  // ---------- Field by field ----------

  /** The status that a step shows, if it sets one. */
  function Shown(s: State, step: Step): Option<Status> {
    if IsStart(s, step) || (step.DelayOver? && !s.stopping) then Some(Starting)
    else if step.PortSearched? && (step.outcome.NoPort? || step.outcome.FilesMissing?) then Some(Failed)
    else if IsHealthy(step) then Some(Running)
    else if step.StopKillDone? then Some(Stopped)
    else if IsCrash(step) && !s.stopping then Some(if s.restartCount + 1 < 5 then Crashed else Failed)
    else None
  }

  function Count(s: State, step: Step): nat {
    if IsStart(s, step) || IsHealthy(step) then 0
    else if IsCrash(step) && !s.stopping then s.restartCount + 1
    else s.restartCount
  }

  function Stopping(s: State, step: Step): bool {
    step.Stop? || (s.stopping && !IsStart(s, step))
  }

  function Port(s: State, step: Step): Option<nat> {
    if step.PortSearched? && !step.outcome.NoPort? then Some(step.outcome.port) else s.port
  }

  predicate IsFork(step: Step) {
    step.PortSearched? && step.outcome.Forks?
  }

  function Process(s: State, step: Step): Option<nat> {
    if IsFork(step) then Some(|s.children|)
    else if step.Stop? || (CheckEnds(s, step) && !s.stopping) then None
    else s.process
  }

  function Children(s: State, step: Step): seq<Child>
    requires Enabled(s, step)
  {
    if IsFork(step) then s.children + [Alive]
    else match step
      case ChildExits(c, bySignal) => s.children[c := if bySignal then Signalled else Exited]
      case ChildErrors(c, ended) => if ended then s.children[c := Exited] else s.children
      case _ => s.children
  }

  /** The task that a step was waited for by. */
  function Awaited(step: Step): multiset<Task> {
    match step
    case PortSearched(_) => multiset{PortSearch}
    case HealthReply(n, _) => multiset{Polling(n)}
    case PauseOver(n) => multiset{Pause(n)}
    case HealthKillDone => multiset{HealthKill}
    case StopKillDone => multiset{StopKill}
    case DelayOver => multiset{Delay}
    case _ => multiset{}
  }

  /** What is waited for after a step. */
  function Begun(s: State, step: Step): multiset<Task> {
    if IsStart(s, step) || (step.DelayOver? && !s.stopping) then multiset{PortSearch}
    else if step.Stop? then multiset{StopKill}
    else if IsFork(step) && !s.stopping then multiset{Polling(0)}
    else if CheckEnds(s, step) then (if s.stopping then multiset{} else multiset{HealthKill})
    else if step.HealthReply? && !step.ok then multiset{Pause(step.attempt)}
    else if step.PauseOver? then multiset{Polling(step.attempt + 1)}
    else if IsCrash(step) && !s.stopping && s.restartCount + 1 < 5 then multiset{Delay}
    else multiset{}
  }

  ghost predicate Effects(s: State, step: Step, s': State)
    requires Enabled(s, step)
  {
    && FieldEffects(s, step, s')
    && s'.tasks == s.tasks - Awaited(step) + Begun(s, step)
  }

  predicate FieldEffects(s: State, step: Step, s': State)
    requires Enabled(s, step)
  {
    && s'.status == (match Shown(s, step) case Some(status) => status case None => s.status)
    && s'.restartCount == Count(s, step) && s'.stopping == Stopping(s, step)
    && s'.port == Port(s, step) && s'.process == Process(s, step) && s'.children == Children(s, step)
  }

  lemma StartFields(s: State)
    ensures FieldEffects(s, Start, Do(s, Start))
  {}

  lemma ControlFields(s: State, step: Step)
    requires Enabled(s, step) && (step.Stop? || step.StopKillDone? || step.DelayOver?)
    ensures FieldEffects(s, step, Do(s, step))
  {}

  lemma ControlBegins(s: State, step: Step)
    requires step.Start? || step.Stop? || step.StopKillDone? || step.DelayOver?
    ensures Begun(s, step) ==
      if step.Stop? then multiset{StopKill}
      else if IsStart(s, step) || (step.DelayOver? && !s.stopping) then multiset{PortSearch}
      else multiset{}
    ensures Awaited(step) ==
      if step.StopKillDone? then multiset{StopKill} else if step.DelayOver? then multiset{Delay} else multiset{}
  {}

  lemma ControlTasks(s: State, step: Step)
    requires Enabled(s, step) && (step.Start? || step.Stop? || step.StopKillDone? || step.DelayOver?)
    ensures Do(s, step).tasks == s.tasks - Awaited(step) + Begun(s, step)
  {
    hide Begun, Awaited, AfterSearch, Crash, Unhealthy, DiedDuringStartup;
    ControlBegins(s, step);
    NoChange(s.tasks);
    NoChange(s.tasks - Awaited(step));
  }

  lemma NoChange(tasks: multiset<Task>)
    ensures tasks - multiset{} == tasks && tasks + multiset{} == tasks
  {}

  lemma ControlEffects(s: State, step: Step)
    requires Enabled(s, step) && (step.Start? || step.Stop? || step.StopKillDone? || step.DelayOver?)
    ensures Effects(s, step, Do(s, step))
  {
    hide Do, FieldEffects, Enabled;
    if step.Start? {
      StartFields(s);
    } else {
      ControlFields(s, step);
    }
    ControlTasks(s, step);
  }

  lemma SearchFields(s: State, outcome: SearchOutcome)
    requires PortSearch in s.tasks
    ensures FieldEffects(s, PortSearched(outcome), AfterSearch(Minus(s, PortSearch), outcome))
  {
    hide Plus, Minus;
    SameFields(s, PortSearch);
  }

  lemma SameFields(s: State, t: Task)
    ensures Minus(s, t) == s.(tasks := s.tasks - multiset{t})
    ensures forall s1, u :: Plus(s1, u) == s1.(tasks := s1.tasks + multiset{u})
  {}

  lemma SearchTasks(s: State, outcome: SearchOutcome)
    requires PortSearch in s.tasks
    ensures AfterSearch(Minus(s, PortSearch), outcome).tasks
         == s.tasks - multiset{PortSearch}
            + if outcome.Forks? && !s.stopping then multiset{Polling(0)} else multiset{}
  {
    NoChange(s.tasks - multiset{PortSearch});
  }

  lemma SearchBegins(s: State, outcome: SearchOutcome)
    ensures Begun(s, PortSearched(outcome)) == if outcome.Forks? && !s.stopping then multiset{Polling(0)} else multiset{}
  {}

  lemma SearchEffects(s: State, step: Step)
    requires Enabled(s, step) && step.PortSearched?
    ensures Effects(s, step, Do(s, step))
  {
    hide Do, FieldEffects, Begun, AfterSearch;
    DoPortSearched(s, step.outcome);
    SearchFields(s, step.outcome);
    SearchTasks(s, step.outcome);
    SearchBegins(s, step.outcome);
  }

  lemma ReplyFields(s: State, n: nat, ok: bool)
    requires Polling(n) in s.tasks
    ensures FieldEffects(s, HealthReply(n, ok), Do(s, HealthReply(n, ok)))
  {
    hide Do, DiedDuringStartup;
    DoHealthReply(s, n, ok);
    DiedIgnoresTasks(s, Polling(n));
  }

  lemma DiedIgnoresTasks(s: State, t: Task)
    ensures DiedDuringStartup(Minus(s, t)) == DiedDuringStartup(s)
  {}

  lemma ReplyBegins(s: State, n: nat, ok: bool)
    ensures Begun(s, HealthReply(n, ok)) ==
      if ok then multiset{}
      else if !DiedDuringStartup(s) then multiset{Pause(n)}
      else if s.stopping then multiset{} else multiset{HealthKill}
  {
    hide DiedDuringStartup;
  }

  lemma ReplyTasks(s: State, n: nat, ok: bool)
    requires Polling(n) in s.tasks
    ensures Do(s, HealthReply(n, ok)).tasks == s.tasks - multiset{Polling(n)} + Begun(s, HealthReply(n, ok))
  {
    hide Do, Begun, DiedDuringStartup;
    DoHealthReply(s, n, ok);
    DiedIgnoresTasks(s, Polling(n));
    ReplyBegins(s, n, ok);
    NoChange(s.tasks - multiset{Polling(n)});
  }

  lemma ReplyEffects(s: State, step: Step)
    requires Enabled(s, step) && step.HealthReply?
    ensures Effects(s, step, Do(s, step))
  {
    hide Do, FieldEffects, Begun;
    ReplyFields(s, step.attempt, step.ok);
    ReplyTasks(s, step.attempt, step.ok);
  }

  lemma PauseEffects(s: State, step: Step)
    requires Enabled(s, step) && step.PauseOver?
    ensures Effects(s, step, Do(s, step))
  {
    hide Do, DiedDuringStartup;
    DoPauseOver(s, step.attempt);
  }

  lemma CrashChildren(s: State, step: Step)
    requires Enabled(s, step) && IsCrash(step)
    ensures Do(s, step).children == Children(s, step)
  {}

  lemma CrashTable(s: State, step: Step)
    requires IsCrash(step)
    ensures Shown(s, step) == if s.stopping then None else Some(if s.restartCount + 1 < 5 then Crashed else Failed)
    ensures Count(s, step) == if s.stopping then s.restartCount else s.restartCount + 1
    ensures Stopping(s, step) == s.stopping && Port(s, step) == s.port && Process(s, step) == s.process
  {
    hide DiedDuringStartup;
  }

  lemma CrashFields(s: State, step: Step)
    requires Enabled(s, step) && IsCrash(step)
    ensures FieldEffects(s, step, Do(s, step))
  {
    CrashChildren(s, step);
    hide Do, Children, Enabled, Shown, Count, Stopping, Port, Process;
    CrashTable(s, step);
    DoCrash(s, step);
  }

  /** The tasks of a crash: its own ends, and a delay begins if a restart is left. */
  lemma CrashTasks(s: State, step: Step)
    requires Enabled(s, step) && IsCrash(step)
    ensures Do(s, step).tasks == s.tasks - Awaited(step) + Begun(s, step)
  {
    hide Do, Awaited, Begun;
    DoCrash(s, step);
    CrashBegins(s, step);
    NoChange(s.tasks);
    NoChange(s.tasks - Awaited(step));
  }

  lemma CrashBegins(s: State, step: Step)
    requires IsCrash(step)
    ensures Awaited(step) == if step.HealthKillDone? then multiset{HealthKill} else multiset{}
    ensures Begun(s, step) == if s.stopping || s.restartCount + 1 >= 5 then multiset{} else multiset{Delay}
  {}

  lemma CrashEffects(s: State, step: Step)
    requires Enabled(s, step) && IsCrash(step)
    ensures Effects(s, step, Do(s, step))
  {
    hide Do, FieldEffects, Enabled;
    CrashFields(s, step);
    CrashTasks(s, step);
  }

  /** A step changes the status, the counter, the flag, the port, the process, the children and the tasks
      exactly as the functions above say. */
  lemma StepEffects(s: State, step: Step)
    requires Enabled(s, step)
    ensures Effects(s, step, Do(s, step))
  {
    hide Effects, Do, Enabled;
    if IsCrash(step) {
      CrashEffects(s, step);
    } else if step.PortSearched? {
      SearchEffects(s, step);
    } else if step.HealthReply? {
      ReplyEffects(s, step);
    } else if step.PauseOver? {
      PauseEffects(s, step);
    } else {
      ControlEffects(s, step);
    }
  }

  /** A crash handled while not stopping counts; below five it is shown as crashed and delays exactly one
      restart, from five on it is shown as failed and delays none. */
  lemma HandledCrash(s: State, step: Step)
    requires Enabled(s, step) && IsCrash(step)
    ensures var s' := Do(s, step);
      if s.stopping then
        s'.status == s.status && s'.restartCount == s.restartCount && s'.tasks[Delay] == s.tasks[Delay]
      else
        && s'.restartCount == s.restartCount + 1
        && s'.status == (if s.restartCount + 1 < 5 then Crashed else Failed)
        && s'.tasks[Delay] == s.tasks[Delay] + if s.restartCount + 1 < 5 then 1 else 0
  {
    hide Do, DiedDuringStartup;
    StepEffects(s, step);
  }

  // ---------- The status over whole runs ----------

  function NextSetter(s: State, step: Step, setter: Option<Step>): Option<Step> {
    if Shown(s, step).Some? then Some(step) else setter
  }

  /** The last step that set the status, or `setter` if there is none. */
  function LastSetter(s: State, steps: seq<Step>, setter: Option<Step>): Option<Step>
    requires Run(s, steps).Some?
    decreases |steps|
  {
    if steps == [] then setter
    else LastSetter(Do(s, steps[0]), steps[1..], NextSetter(s, steps[0], setter))
  }

  predicate WasHealthy(setter: Option<Step>) {
    setter.Some? && IsHealthy(setter.value)
  }

  lemma StepKeepsStatus(s: State, step: Step, setter: Option<Step>)
    requires Enabled(s, step) && (s.status == Running <==> WasHealthy(setter))
    ensures Do(s, step).status == Running <==> WasHealthy(NextSetter(s, step, setter))
  {
    StepEffects(s, step);
    hide Do, Enabled, Begun, Awaited, Process, Children;
  }

  lemma {:induction false} RunKeepsStatus(s: State, steps: seq<Step>, setter: Option<Step>)
    requires Run(s, steps).Some? && (s.status == Running <==> WasHealthy(setter))
    ensures Run(s, steps).value.status == Running <==> WasHealthy(LastSetter(s, steps, setter))
    decreases |steps|
  {
    hide Do, Enabled, NextSetter, WasHealthy;
    if steps != [] {
      StepKeepsStatus(s, steps[0], setter);
      RunKeepsStatus(Do(s, steps[0]), steps[1..], NextSetter(s, steps[0], setter));
    }
  }

  /** "running" is shown if and only if the last step that set the status was a healthy reply. */
  lemma RunningMeansHealthy(steps: seq<Step>)
    requires Run(Initial(), steps).Some?
    ensures Run(Initial(), steps).value.status == Running <==> WasHealthy(LastSetter(Initial(), steps, None))
  {
    hide Run, LastSetter;
    RunKeepsStatus(Initial(), steps, None);
  }

  // ---------- Thirty attempts ----------

  predicate WithinAttempts(t: Task) {
    (t.Polling? ==> t.attempt < 30) && (t.Pause? ==> t.attempt < 30)
  }

  ghost predicate AllWithin(s: State) {
    forall t :: t in s.tasks ==> WithinAttempts(t)
  }

  lemma StepKeepsWithin(s: State, step: Step)
    requires AllWithin(s) && Enabled(s, step)
    ensures AllWithin(Do(s, step))
  {
    StepEffects(s, step);
    hide Do;
    BegunWithin(s, step);
  }

  lemma BegunWithin(s: State, step: Step)
    requires AllWithin(s) && Enabled(s, step)
    ensures forall t :: t in Begun(s, step) ==> WithinAttempts(t)
  {
    if step.HealthReply? {
      assert WithinAttempts(Polling(step.attempt));
    }
  }

  lemma {:induction false} RunKeepsWithin(s: State, steps: seq<Step>)
    requires AllWithin(s) && Run(s, steps).Some?
    ensures AllWithin(Run(s, steps).value)
    decreases |steps|
  {
    hide AllWithin, Do, Enabled;
    if steps != [] {
      StepKeepsWithin(s, steps[0]);
      RunKeepsWithin(Do(s, steps[0]), steps[1..]);
    }
  }

  /** No run makes more than thirty attempts in one health check. */
  lemma AttemptsAreBounded(steps: seq<Step>)
    requires Run(Initial(), steps).Some?
    ensures AllWithin(Run(Initial(), steps).value)
  {
    hide Run;
    RunKeepsWithin(Initial(), steps);
  }
}
