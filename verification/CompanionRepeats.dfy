/** When the supervisor handles one death a second time (electron-shell/src/companion-manager.ts:154-264). */
module CompanionRepeats {
  import opened Options
  import opened Companion

  /** What a health check that does not succeed goes through. */
  predicate IsHealthFailure(step: Step) {
    (step.HealthReply? && !step.ok) || step.PauseOver? || step.HealthKillDone?
  }

  ghost predicate OnlyHealthFailures(steps: seq<Step>) {
    forall k :: 0 <= k < |steps| ==> IsHealthFailure(steps[k])
  }

  /** Failing health checks alone, with no further event of any child, schedule one more restart. */
  ghost predicate SchedulesAnother(s: State) {
    exists steps :: OnlyHealthFailures(steps) && Run(s, steps).Some? && Run(s, steps).value.tasks[Delay] > s.tasks[Delay]
  }

  predicate HealthTask(t: Task) {
    t.Polling? || t.Pause? || t.HealthKill?
  }

  ghost predicate HealthPending(tasks: multiset<Task>) {
    exists t :: t in tasks && HealthTask(t)
  }

  // ---------- A pending health check can fail ----------

  /** The failing step of a health task. */
  function Failure(t: Task): Step
    requires HealthTask(t)
  {
    match t
    case Polling(n) => HealthReply(n, false)
    case Pause(n) => PauseOver(n)
    case HealthKill => HealthKillDone
  }

  function AttemptsLeft(n: nat): nat {
    if n < MAX_ATTEMPTS then MAX_ATTEMPTS - n else 0
  }

  function Distance(t: Task): nat
    requires HealthTask(t)
  {
    match t
    case Polling(n) => 2 * AttemptsLeft(n) + 2
    case Pause(n) => 2 * AttemptsLeft(n) + 1
    case HealthKill => 0
  }

  /** Nothing but the tasks of the health check and the current process changes. */
  ghost predicate OnlyChecked(s: State, s': State) {
    && s'.stopping == s.stopping && s'.restartCount == s.restartCount && s'.tasks[Delay] == s.tasks[Delay]
  }

  /** A health task that is no kill leads on to one that is nearer to a kill. */
  lemma NearerToKill(s: State, t: Task) returns (t': Task)
    requires !s.stopping && t in s.tasks && HealthTask(t) && !t.HealthKill?
    ensures var s' := Do(s, Failure(t));
      OnlyChecked(s, s') && HealthTask(t') && t' in s'.tasks && Distance(t') < Distance(t)
  {
    hide Do;
    if t.Polling? {
      DoHealthReply(s, t.attempt, false);
      t' := if DiedDuringStartup(s) then HealthKill else Pause(t.attempt);
    } else {
      DoPauseOver(s, t.attempt);
      t' := if t.attempt + 1 >= MAX_ATTEMPTS then HealthKill else Polling(t.attempt + 1);
    }
  }

  lemma RunOne(s: State, step: Step, rest: seq<Step>)
    requires Enabled(s, step)
    ensures Run(s, [step] + rest) == Run(Do(s, step), rest)
  {
    assert ([step] + rest)[1..] == rest;
  }

  lemma {:induction false} CheckCanFail(s: State, t: Task) returns (steps: seq<Step>)
    requires !s.stopping && s.restartCount + 1 < MAX_RESTARTS && t in s.tasks && HealthTask(t)
    ensures OnlyHealthFailures(steps) && Run(s, steps).Some?
    ensures Run(s, steps).value.tasks[Delay] == s.tasks[Delay] + 1
    decreases Distance(t)
  {
    hide Run, Do;
    var step, rest := Failure(t), [];
    if t.HealthKill? {
      DoCrash(s, step);
      RunNone(Do(s, step));
    } else {
      var t' := NearerToKill(s, t);
      rest := CheckCanFail(Do(s, step), t');
    }
    RunOne(s, step, rest);
    steps := [step] + rest;
  }

  lemma RunNone(s: State)
    ensures Run(s, []) == Some(s)
  {}

  // ---------- Otherwise nothing more is scheduled ----------

  ghost predicate Spent(s: State) {
    s.stopping || s.restartCount + 1 >= MAX_RESTARTS
  }

  lemma SpentStep(s: State, step: Step)
    requires Spent(s) && IsHealthFailure(step) && Enabled(s, step)
    ensures Spent(Do(s, step)) && Do(s, step).tasks[Delay] == s.tasks[Delay]
  {
    hide Do, DiedDuringStartup;
    match step {
      case HealthReply(n, _) => DoHealthReply(s, n, false);
      case PauseOver(n) => DoPauseOver(s, n);
      case HealthKillDone => DoCrash(s, step);
    }
  }

  lemma {:induction false} SpentRun(s: State, steps: seq<Step>)
    requires Spent(s) && OnlyHealthFailures(steps) && Run(s, steps).Some?
    ensures Run(s, steps).value.tasks[Delay] == s.tasks[Delay]
    decreases |steps|
  {
    hide Spent, Do, Enabled, IsHealthFailure;
    if steps != [] {
      assert IsHealthFailure(steps[0]);
      SpentStep(s, steps[0]);
      assert forall k :: 0 <= k < |steps[1..]| ==> steps[1..][k] == steps[k + 1];
      SpentRun(Do(s, steps[0]), steps[1..]);
    }
  }

  lemma FailureNeedsTask(s: State, step: Step)
    requires IsHealthFailure(step) && Enabled(s, step)
    ensures HealthPending(s.tasks)
  {
    var t := match step
      case HealthReply(n, _) => Polling(n)
      case PauseOver(n) => Pause(n)
      case _ => HealthKill;
    assert t in s.tasks && HealthTask(t);
  }

  lemma NoCheckNoStep(s: State, steps: seq<Step>)
    requires !HealthPending(s.tasks) && OnlyHealthFailures(steps) && Run(s, steps).Some?
    ensures steps == []
  {
    hide HealthPending, IsHealthFailure, Do;
    if steps != [] {
      FailureNeedsTask(s, steps[0]);
    }
  }

  // ---------- The exact condition ----------

  /** Failing health checks schedule one more restart exactly when the manager is not stopping, has a restart
      left, and a health request, a pause or a kill is under way. */
  lemma ChecksScheduleExactly(s: State)
    ensures SchedulesAnother(s)
      <==> !s.stopping && s.restartCount + 1 < MAX_RESTARTS && HealthPending(s.tasks)
  {
    hide Run, Spent, HealthPending;
    if !s.stopping && s.restartCount + 1 < MAX_RESTARTS {
      if HealthPending(s.tasks) {
        var t := PendingTask(s.tasks);
        var steps := CheckCanFail(s, t);
      } else {
        forall steps | OnlyHealthFailures(steps) && Run(s, steps).Some?
          ensures Run(s, steps).value.tasks[Delay] == s.tasks[Delay]
        {
          NoCheckNoStep(s, steps);
          RunNone(s);
        }
      }
    } else {
      IsSpent(s);
      forall steps | OnlyHealthFailures(steps) && Run(s, steps).Some?
        ensures Run(s, steps).value.tasks[Delay] == s.tasks[Delay]
      {
        SpentRun(s, steps);
      }
    }
  }

  lemma PendingTask(tasks: multiset<Task>) returns (t: Task)
    requires HealthPending(tasks)
    ensures t in tasks && HealthTask(t)
  {
    t :| t in tasks && HealthTask(t);
  }

  lemma IsSpent(s: State)
    requires s.stopping || s.restartCount + 1 >= MAX_RESTARTS
    ensures Spent(s)
  {}

  /** After an exit was handled, a second restart for it can be scheduled exactly when the manager is not
      stopping, the counter leaves two restarts, and a health check was under way when the child exited. */
  lemma DeathIsHandledAgainExactly(s: State, c: nat, bySignal: bool)
    requires Enabled(s, ChildExits(c, bySignal))
    ensures SchedulesAnother(Do(s, ChildExits(c, bySignal)))
      <==> !s.stopping && s.restartCount + 2 < MAX_RESTARTS && HealthPending(s.tasks)
  {
    hide Do, SchedulesAnother;
    var s' := Do(s, ChildExits(c, bySignal));
    DoCrash(s, ChildExits(c, bySignal));
    ChecksScheduleExactly(s');
    if HealthPending(s.tasks) {
      var t := PendingTask(s.tasks);
      assert t in s'.tasks;
    }
    if HealthPending(s'.tasks) {
      var t := PendingTask(s'.tasks);
      assert t in s.tasks;
    }
  }
}
