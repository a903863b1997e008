/** The supervisor of the USB companion process (electron-shell/src/companion-manager.ts).

    Asynchronous code runs in uninterrupted pieces between two awaits. A piece is one step here; what a
    suspended piece waits for is a task. Every order of steps is a run. */
module Companion {
  import opened Options

  const MAX_RESTARTS: nat := 5
  const MAX_ATTEMPTS: nat := 30

  // ---------- States ----------

  datatype Status = Stopped | Starting | Running | Crashed | Failed

  /** A forked process: alive, ended with an exit code, or ended by a signal. */
  datatype Child = Alive | Exited | Signalled

  /** What a suspended call waits for: the port search, one health request, the pause after it, the end of a
      process killed for bad health or by `stop`, or the delay before a restart. */
  datatype Task = PortSearch | Polling(attempt: nat) | Pause(attempt: nat) | HealthKill | StopKill | Delay

  /** The manager's fields, and beside them all suspended calls and all children forked so far. `process` is
      the number of a child. */
  datatype State = State(
    process: Option<nat>,
    port: Option<nat>,
    status: Status,
    restartCount: nat,
    stopping: bool,
    tasks: multiset<Task>,
    children: seq<Child>
  )

  function Initial(): State {
    State(None, None, Stopped, 0, false, multiset{}, [])
  }

  // ---------- Steps ----------

  datatype SearchOutcome =
    | NoPort
    | FilesMissing(port: nat)
    | ForkThrows(port: nat)
    | Forks(port: nat)

  datatype Step =
    | Start
    | Stop
    | PortSearched(outcome: SearchOutcome)
    | HealthReply(attempt: nat, ok: bool)
    | PauseOver(attempt: nat)
    | HealthKillDone
    | StopKillDone
    | DelayOver
    | ChildExits(c: nat, bySignal: bool)
    | ChildErrors(c: nat, ended: bool)   // may come more than once, from a live or an ended child

  predicate Enabled(s: State, step: Step) {
    match step
    case Start => true
    case Stop => true
    case PortSearched(_) => PortSearch in s.tasks
    case HealthReply(n, _) => Polling(n) in s.tasks
    case PauseOver(n) => Pause(n) in s.tasks
    case HealthKillDone => HealthKill in s.tasks
    case StopKillDone => StopKill in s.tasks
    case DelayOver => Delay in s.tasks
    case ChildExits(c, _) => c < |s.children| && s.children[c] == Alive
    case ChildErrors(c, ended) => c < |s.children| && (ended ==> s.children[c] == Alive)
  }

  function Plus(s: State, t: Task): State {
    s.(tasks := s.tasks + multiset{t})
  }

  function Minus(s: State, t: Task): State {
    s.(tasks := s.tasks - multiset{t})
  }

  function Spawn(s: State): State {
    Plus(s.(status := Starting), PortSearch)
  }

  function Crash(s: State): State {
    if s.stopping then s
    else if s.restartCount + 1 >= MAX_RESTARTS then s.(restartCount := s.restartCount + 1, status := Failed)
    else Plus(s.(restartCount := s.restartCount + 1, status := Crashed), Delay)
  }

  function Unhealthy(s: State): State {
    if s.stopping then s else Plus(s.(process := None), HealthKill)
  }

  /** The current child ended with an exit code. */
  predicate DiedDuringStartup(s: State) {
    s.process.Some? && s.process.value < |s.children| && s.children[s.process.value] == Exited
  }

  function AfterSearch(s: State, outcome: SearchOutcome): State {
    match outcome
    case NoPort => s.(status := Failed)
    case FilesMissing(port) => s.(port := Some(port), status := Failed)
    case ForkThrows(port) => s.(port := Some(port))
    case Forks(port) =>
      var forked := s.(port := Some(port), process := Some(|s.children|), children := s.children + [Alive]);
      if s.stopping then forked else Plus(forked, Polling(0))
  }

  function Do(s: State, step: Step): State
    requires Enabled(s, step)
  {
    match step
    case Start =>
      if s.status == Running || s.status == Starting then s
      else Spawn(s.(stopping := false, restartCount := 0))
    case Stop => Plus(s.(stopping := true, process := None), StopKill)
    case PortSearched(outcome) => AfterSearch(Minus(s, PortSearch), outcome)
    case HealthReply(n, ok) =>
      var t := Minus(s, Polling(n));
      if ok then t.(restartCount := 0, status := Running)
      else if DiedDuringStartup(t) then Unhealthy(t)
      else Plus(t, Pause(n))
    case PauseOver(n) =>
      var t := Minus(s, Pause(n));
      if n + 1 >= MAX_ATTEMPTS || s.stopping then Unhealthy(t) else Plus(t, Polling(n + 1))
    case HealthKillDone => Crash(Minus(s, HealthKill))
    case StopKillDone => Minus(s, StopKill).(status := Stopped)
    case DelayOver => if s.stopping then Minus(s, Delay) else Spawn(Minus(s, Delay))
    case ChildExits(c, bySignal) =>
      Crash(s.(children := s.children[c := if bySignal then Signalled else Exited]))
    case ChildErrors(c, ended) =>
      Crash(if ended then s.(children := s.children[c := Exited]) else s)
  }

  function Run(s: State, steps: seq<Step>): Option<State>
    decreases |steps|
  {
    if steps == [] then Some(s)
    else if Enabled(s, steps[0]) then Run(Do(s, steps[0]), steps[1..])
    else None
  }

  lemma DoPortSearched(s: State, outcome: SearchOutcome)
    requires PortSearch in s.tasks
    ensures Do(s, PortSearched(outcome)) == AfterSearch(Minus(s, PortSearch), outcome)
  {}

  lemma DoHealthReply(s: State, n: nat, ok: bool)
    requires Polling(n) in s.tasks
    ensures var t := Minus(s, Polling(n));
      Do(s, HealthReply(n, ok)) == if ok then t.(restartCount := 0, status := Running)
                                   else if DiedDuringStartup(t) then Unhealthy(t) else Plus(t, Pause(n))
  {}

  lemma DoPauseOver(s: State, n: nat)
    requires Pause(n) in s.tasks
    ensures var t := Minus(s, Pause(n));
      Do(s, PauseOver(n)) == if n + 1 >= MAX_ATTEMPTS || s.stopping then Unhealthy(t) else Plus(t, Polling(n + 1))
  {}

  lemma DoCrash(s: State, step: Step)
    requires Enabled(s, step) && (step.HealthKillDone? || step.ChildExits? || step.ChildErrors?)
    ensures var t := if step.HealthKillDone? then Minus(s, HealthKill) else s.(children := Do(s, step).children);
      Do(s, step) == Crash(t) && |t.children| == |s.children|
  {}

  // ---------- The manager ----------

  /** The supervisor object. `tasks` and `children` belong to the event loop: a method ends where the code
      awaits, by adding what it waits for, and an On-method is what runs when that is over. */
  class CompanionManager {
    var process: Option<nat>
    var port: Option<nat>
    var status: Status
    var restartCount: nat
    var stopping: bool
    var tasks: multiset<Task>
    var children: seq<Child>

    ghost function View(): State
      reads this
    {
      State(process, port, status, restartCount, stopping, tasks, children)
    }

    constructor ()
      ensures View() == Initial()
    {
      process, port, status := None, None, Stopped;
      restartCount, stopping := 0, false;
      tasks, children := multiset{}, [];
    }

    method Start()
      modifies this
      ensures View() == Do(old(View()), Step.Start)
    {
      if status == Running || status == Starting {
        return;
      }
      stopping := false;
      restartCount := 0;
      SpawnCompanion();
    }

    method Stop()
      modifies this
      ensures View() == Do(old(View()), Step.Stop)
    {
      stopping := true;
      KillProcess(StopKill);
    }

    method OnStopKillDone()
      requires StopKill in tasks
      modifies this
      ensures View() == Do(old(View()), StopKillDone)
    {
      Resume(StopKill);
      status := Stopped;
    }

    method Await(t: Task)
      modifies this`tasks
      ensures tasks == old(tasks) + multiset{t}
    {
      tasks := tasks + multiset{t};
    }

    method Resume(t: Task)
      modifies this`tasks
      ensures tasks == old(tasks) - multiset{t}
    {
      tasks := tasks - multiset{t};
    }

    method SpawnCompanion()
      modifies this
      ensures View() == Spawn(old(View()))
    {
      status := Starting;
      Await(PortSearch);
    }

    method OnPortSearched(outcome: SearchOutcome)
      requires PortSearch in tasks
      modifies this
      ensures View() == Do(old(View()), PortSearched(outcome))
    {
      hide Do;
      DoPortSearched(View(), outcome);
      ghost var searched := Minus(View(), PortSearch);
      Resume(PortSearch);
      assert View() == searched;
      if outcome == NoPort {
        status := Failed;
        return;
      }
      port := Some(outcome.port);
      if outcome.FilesMissing? {
        status := Failed;
        return;
      }
      if outcome.ForkThrows? {
        return;
      }
      process := Some(|children|);
      children := children + [Alive];
      if !stopping {
        Await(Polling(0));
      }
    }

    method OnHealthReply(attempt: nat, ok: bool)
      requires Polling(attempt) in tasks
      modifies this
      ensures View() == Do(old(View()), HealthReply(attempt, ok))
    {
      hide Do;
      DoHealthReply(View(), attempt, ok);
      Resume(Polling(attempt));
      if ok {
        restartCount := 0;
        status := Running;
      } else if process.Some? && process.value < |children| && children[process.value] == Exited {
        NotHealthy();
      } else {
        Await(Pause(attempt));
      }
    }

    method OnPauseOver(attempt: nat)
      requires Pause(attempt) in tasks
      modifies this
      ensures View() == Do(old(View()), PauseOver(attempt))
    {
      hide Do;
      DoPauseOver(View(), attempt);
      Resume(Pause(attempt));
      if attempt + 1 >= MAX_ATTEMPTS || stopping {
        NotHealthy();
      } else {
        Await(Polling(attempt + 1));
      }
    }

    method NotHealthy()
      modifies this
      ensures View() == Unhealthy(old(View()))
    {
      if !stopping {
        KillProcess(HealthKill);
      }
    }

    method KillProcess(awaiting: Task)
      modifies this
      ensures View() == Plus(old(View()).(process := None), awaiting)
    {
      process := None;
      Await(awaiting);
    }

    method OnHealthKillDone()
      requires HealthKill in tasks
      modifies this
      ensures View() == Do(old(View()), HealthKillDone)
    {
      hide Do;
      DoCrash(View(), HealthKillDone);
      Resume(HealthKill);
      HandleCrash();
    }

    method OnExit(c: nat, bySignal: bool)
      requires c < |children| && children[c] == Alive
      modifies this
      ensures View() == Do(old(View()), ChildExits(c, bySignal))
    {
      children := children[c := if bySignal then Signalled else Exited];
      if stopping {
        return;
      }
      HandleCrash();
    }

    method OnError(c: nat, ended: bool)
      requires c < |children| && (ended ==> children[c] == Alive)
      modifies this
      ensures View() == Do(old(View()), ChildErrors(c, ended))
    {
      if ended {
        children := children[c := Exited];
      }
      if !stopping {
        HandleCrash();
      }
    }

    method HandleCrash()
      modifies this
      ensures View() == Crash(old(View()))
    {
      if stopping {
        return;
      }
      restartCount := restartCount + 1;
      status := Crashed;
      if restartCount >= MAX_RESTARTS {
        status := Failed;
        return;
      }
      Await(Delay);
    }

    method OnDelayOver()
      requires Delay in tasks
      modifies this
      ensures View() == Do(old(View()), DelayOver)
    {
      Resume(Delay);
      if !stopping {
        SpawnCompanion();
      }
    }
  }
}
