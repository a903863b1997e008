/** How often the supervisor of the companion process forks (electron-shell/src/companion-manager.ts:80-86,
    167-264), over all orders of its events. */
module CompanionBounds {
  import opened Options
  import opened Companion

  // ---------- Counting along a run ----------

  /** A start that is not ignored. */
  predicate IsStart(s: State, step: Step) {
    step.Start? && s.status != Running && s.status != Starting
  }

  predicate IsHealthy(step: Step) {
    step.HealthReply? && step.ok
  }

  predicate IsRestart(s: State, step: Step)
    requires Enabled(s, step)
  {
    Do(s, step).tasks[Delay] > s.tasks[Delay]
  }

  /** Effective starts, healthy replies, restarts scheduled, and restarts scheduled since the last of the
      first two. */
  datatype Tally = Tally(starts: nat, healthy: nat, restarts: nat, sinceReset: nat)

  function One(b: bool): nat { if b then 1 else 0 }

  function Counted(s: State, step: Step, t: Tally): Tally
    requires Enabled(s, step)
  {
    var restart := One(IsRestart(s, step));
    Tally(t.starts + One(IsStart(s, step)), t.healthy + One(IsHealthy(step)), t.restarts + restart,
          if IsStart(s, step) || IsHealthy(step) then 0 else t.sinceReset + restart)
  }

  function TallyOf(s: State, steps: seq<Step>, t: Tally): Tally
    requires Run(s, steps).Some?
    decreases |steps|
  {
    if steps == [] then t else TallyOf(Do(s, steps[0]), steps[1..], Counted(s, steps[0], t))
  }

  const ZERO := Tally(0, 0, 0, 0)

  function Min(a: nat, b: nat): nat { if a < b then a else b }

  // ---------- The bound on forks ----------

  ghost predicate Quiet(s: State) {
    s.restartCount == 0 && s.children == [] && forall t :: t in s.tasks ==> t == StopKill
  }

  /** Every start and healthy reply but the last is worth at most four restarts; since the last there were
      `sinceReset`. */
  predicate RestartsBounded(t: Tally) {
    t.starts > 0 ==> t.restarts <= (MAX_RESTARTS - 1) * (t.starts + t.healthy - 1) + t.sinceReset
  }

  ghost predicate Inv(s: State, t: Tally) {
    && (s.process.Some? ==> s.process.value + 1 == |s.children|)
    && t.sinceReset == Min(s.restartCount, MAX_RESTARTS - 1)
    && |s.children| + s.tasks[PortSearch] + s.tasks[Delay] <= t.starts + t.restarts
    && (t.starts == 0 ==> Quiet(s) && t.restarts == 0 && t.healthy == 0)
    && RestartsBounded(t)
  }

  lemma StepBeforeStart(s: State, t: Tally, step: Step)
    requires Inv(s, t) && t.starts == 0 && Enabled(s, step)
    ensures Inv(Do(s, step), Counted(s, step, t))
  {}

  lemma ControlKeepsInv(s: State, t: Tally, step: Step)
    requires Inv(s, t) && t.starts > 0 && Enabled(s, step)
    requires step.Start? || step.Stop? || step.StopKillDone? || step.DelayOver?
    ensures Inv(Do(s, step), Counted(s, step, t))
  {
    hide Quiet;
  }

  lemma ForkKeepsInv(s: State, t: Tally, port: nat)
    requires Inv(s, t) && t.starts > 0 && PortSearch in s.tasks
    ensures Inv(AfterSearch(Minus(s, PortSearch), Forks(port)), t)
  {
    hide RestartsBounded, Quiet;
  }

  lemma NoForkKeepsInv(s: State, t: Tally, outcome: SearchOutcome)
    requires Inv(s, t) && t.starts > 0 && PortSearch in s.tasks && !outcome.Forks?
    ensures Inv(AfterSearch(Minus(s, PortSearch), outcome), t)
  {
    hide RestartsBounded, Quiet;
  }

  lemma SearchKeepsInv(s: State, t: Tally, step: Step)
    requires Inv(s, t) && t.starts > 0 && Enabled(s, step) && step.PortSearched?
    ensures Inv(Do(s, step), Counted(s, step, t))
  {
    hide Do, Counted, Inv, AfterSearch, Minus;
    DoPortSearched(s, step.outcome);
    SearchIsNotCounted(s, t, step);
    if step.outcome.Forks? {
      ForkKeepsInv(s, t, step.outcome.port);
    } else {
      NoForkKeepsInv(s, t, step.outcome);
    }
  }

  lemma SearchIsNotCounted(s: State, t: Tally, step: Step)
    requires Enabled(s, step) && step.PortSearched?
    ensures Counted(s, step, t) == t
  {
    hide Do;
    DoPortSearched(s, step.outcome);
  }

  lemma ReplyKeepsInv(s: State, t: Tally, step: Step)
    requires Inv(s, t) && t.starts > 0 && Enabled(s, step) && step.HealthReply?
    ensures Inv(Do(s, step), Counted(s, step, t))
  {
    hide Quiet;
  }

  lemma PauseKeepsInv(s: State, t: Tally, step: Step)
    requires Inv(s, t) && t.starts > 0 && Enabled(s, step) && step.PauseOver?
    ensures Inv(Do(s, step), Counted(s, step, t))
  {
    hide Quiet;
  }

  lemma CrashKeepsInv(s: State, t: Tally, step: Step)
    requires Inv(s, t) && t.starts > 0 && Enabled(s, step)
    requires step.HealthKillDone? || step.ChildExits? || step.ChildErrors?
    ensures Inv(Do(s, step), Counted(s, step, t))
  {
    hide Do, Counted, RestartsBounded, Quiet;
    DoCrash(s, step);
    CrashIsCounted(s, t, step);
    OneMoreRestart(t);
  }

  /** A crash counts as a restart exactly when it schedules one. */
  lemma CrashIsCounted(s: State, t: Tally, step: Step)
    requires Enabled(s, step) && (step.HealthKillDone? || step.ChildExits? || step.ChildErrors?)
    ensures Counted(s, step, t) ==
      if s.stopping || s.restartCount + 1 >= MAX_RESTARTS then t
      else t.(restarts := t.restarts + 1, sinceReset := t.sinceReset + 1)
  {
    hide Do;
    DoCrash(s, step);
  }

  lemma OneMoreRestart(t: Tally)
    requires RestartsBounded(t)
    ensures RestartsBounded(t.(restarts := t.restarts + 1, sinceReset := t.sinceReset + 1))
  {}

  lemma StepKeepsInv(s: State, t: Tally, step: Step)
    requires Inv(s, t) && Enabled(s, step)
    ensures Inv(Do(s, step), Counted(s, step, t))
  {
    hide Inv, Do, Counted, Enabled;
    if t.starts == 0 {
      StepBeforeStart(s, t, step);
    } else if step.PortSearched? {
      SearchKeepsInv(s, t, step);
    } else if step.HealthReply? {
      ReplyKeepsInv(s, t, step);
    } else if step.PauseOver? {
      PauseKeepsInv(s, t, step);
    } else if step.HealthKillDone? || step.ChildExits? || step.ChildErrors? {
      CrashKeepsInv(s, t, step);
    } else {
      ControlKeepsInv(s, t, step);
    }
  }

  lemma {:induction false} RunKeepsInv(s: State, t: Tally, steps: seq<Step>)
    requires Inv(s, t) && Run(s, steps).Some?
    ensures Inv(Run(s, steps).value, TallyOf(s, steps, t))
    decreases |steps|
  {
    hide Inv, Do, Counted, Enabled;
    if steps != [] {
      StepKeepsInv(s, t, steps[0]);
      RunKeepsInv(Do(s, steps[0]), Counted(s, steps[0], t), steps[1..]);
    }
  }

  lemma InitialInv()
    ensures Inv(Initial(), ZERO)
  {}

  /** Over every run, in every order of events and with every crash handled any number of times, a start is
      worth at most five forks and a healthy reply four more; and the counter tells exactly how many
      restarts were scheduled since it was last reset. */
  lemma ForksAreBounded(steps: seq<Step>)
    requires Run(Initial(), steps).Some?
    ensures var s, t := Run(Initial(), steps).value, TallyOf(Initial(), steps, ZERO);
      && |s.children| <= 5 * t.starts + 4 * t.healthy
      && |s.children| <= t.starts + t.restarts
      && t.sinceReset == Min(s.restartCount, 4)
      && (t.starts == 0 ==> s.children == [])
  {
    hide Run, TallyOf, Initial;
    InitialInv();
    RunKeepsInv(Initial(), ZERO, steps);
  }

  /** Only the newest child is ever the one that the manager would kill. */
  lemma OnlyTheNewestIsTracked(steps: seq<Step>)
    requires Run(Initial(), steps).Some?
    ensures var s := Run(Initial(), steps).value; s.process.Some? ==> s.process.value + 1 == |s.children|
  {
    hide Run, TallyOf, Initial;
    InitialInv();
    RunKeepsInv(Initial(), ZERO, steps);
  }

  // ---------- Composing runs ----------

  ghost predicate Reaches(s: State, t: Tally, steps: seq<Step>, s': State, t': Tally) {
    Run(s, steps) == Some(s') && TallyOf(s, steps, t) == t'
  }

  lemma ReachesNone(s: State, t: Tally)
    ensures Reaches(s, t, [], s, t)
  {}

  lemma ReachesByOne(s: State, t: Tally, step: Step)
    requires Enabled(s, step)
    ensures Reaches(s, t, [step], Do(s, step), Counted(s, step, t))
  {
    hide Do, Counted, Enabled;
    assert [step][1..] == [];
    ReachesNone(Do(s, step), Counted(s, step, t));
  }

  lemma {:induction false} ReachesAppend(s: State, t: Tally, a: seq<Step>, s1: State, t1: Tally,
                                         b: seq<Step>, s2: State, t2: Tally)
    requires Reaches(s, t, a, s1, t1) && Reaches(s1, t1, b, s2, t2)
    ensures Reaches(s, t, a + b, s2, t2)
    decreases |a|
  {
    hide Do, Counted, Enabled;
    if a == [] {
      assert a + b == b;
    } else {
      assert (a + b)[1..] == a[1..] + b;
      ReachesAppend(Do(s, a[0]), Counted(s, a[0], t), a[1..], s1, t1, b, s2, t2);
    }
  }

  lemma ReachesThen(s: State, t: Tally, a: seq<Step>, s1: State, t1: Tally, step: Step)
    requires Reaches(s, t, a, s1, t1) && Enabled(s1, step)
    ensures Reaches(s, t, a + [step], Do(s1, step), Counted(s1, step, t1))
  {
    hide Do, Counted, Enabled, Reaches;
    ReachesByOne(s1, t1, step);
    ReachesAppend(s, t, a, s1, t1, [step], Do(s1, step), Counted(s1, step, t1));
  }

  // ---------- The bound is reached ----------

  /** The newest child is alive and known, its health check is at the given attempt, no restart is delayed,
      and so many killed children are awaited. */
  ghost predicate Up(s: State, count: nat, attempt: nat, kills: nat) {
    && !s.stopping && s.restartCount == count
    && s.children != [] && s.process == Some(|s.children| - 1) && s.children[|s.children| - 1] == Alive
    && Polling(attempt) in s.tasks && Delay !in s.tasks && s.tasks[HealthKill] == kills
  }

  ghost predicate SameEvents(t: Tally, t': Tally) {
    t'.starts == t.starts && t'.healthy == t.healthy
  }

  const FOUND := PortSearched(Forks(3001))

  /** All steps but starts and healthy replies. */
  lemma CountedAsNeither(s: State, t: Tally, step: Step)
    requires Enabled(s, step) && !step.Start? && !IsHealthy(step)
    ensures SameEvents(t, Counted(s, step, t))
  {
    hide Do;
  }

  lemma DelayThenFork(s: State)
    requires !s.stopping && Delay in s.tasks
    ensures PortSearch in Do(s, DelayOver).tasks
    ensures Do(Do(s, DelayOver), FOUND) == s.(status := Starting, port := Some(3001),
      process := Some(|s.children|), children := s.children + [Alive],
      tasks := s.tasks - multiset{Delay} + multiset{Polling(0)})
  {
    var s1 := Do(s, DelayOver);
    assert s1 == s.(status := Starting, tasks := s.tasks - multiset{Delay} + multiset{PortSearch});
    hide Do;
    DoPortSearched(s1, Forks(3001));
  }

  /** The delay of one restart ends, and its port search forks. */
  lemma ReplaceOnce(s: State, t: Tally) returns (steps: seq<Step>, s': State, t': Tally)
    requires !s.stopping && Delay in s.tasks
    ensures steps == [DelayOver, FOUND]
    ensures Reaches(s, t, steps, s', t') && SameEvents(t, t')
    ensures !s'.stopping && s'.restartCount == s.restartCount && s'.process == Some(|s.children|)
    ensures s'.children == s.children + [Alive] && Polling(0) in s'.tasks
    ensures s'.tasks[Delay] == s.tasks[Delay] - 1 && s'.tasks[HealthKill] == s.tasks[HealthKill]
  {
    hide Reaches, Run, TallyOf, Do, Counted;
    DelayThenFork(s);
    CountedAsNeither(s, t, DelayOver);
    ReachesByOne(s, t, DelayOver);
    var s1, t1 := Do(s, DelayOver), Counted(s, DelayOver, t);
    CountedAsNeither(s1, t1, FOUND);
    ReachesThen(s, t, [DelayOver], s1, t1, FOUND);
    steps, s', t' := [DelayOver] + [FOUND], Do(s1, FOUND), Counted(s1, FOUND, t1);
  }

  /** The newest child exits, which schedules a restart ... */
  lemma NewestExits(s: State, attempt: nat)
    requires s.restartCount + 1 < MAX_RESTARTS && Up(s, s.restartCount, attempt, s.tasks[HealthKill])
    ensures var r := Do(s, ChildExits(|s.children| - 1, false));
      && !r.stopping && r.restartCount == s.restartCount + 1 && r.process == s.process
      && r.children == s.children[|s.children| - 1 := Exited]
      && r.tasks == s.tasks + multiset{Delay}
  {}

  /** ... and its health check, which finds it dead, has it killed although it is. */
  lemma CheckFails(s: State, attempt: nat)
    requires !s.stopping && DiedDuringStartup(s) && Polling(attempt) in s.tasks
    ensures Do(s, HealthReply(attempt, false))
         == s.(process := None, tasks := s.tasks - multiset{Polling(attempt)} + multiset{HealthKill})
  {
    hide Do;
    DoHealthReply(s, attempt, false);
  }

  lemma NewestDies(s: State, t: Tally, count: nat, kills: nat) returns (steps: seq<Step>, s': State, t': Tally)
    requires Up(s, count, 0, kills) && count + 1 < MAX_RESTARTS
    ensures steps == [ChildExits(|s.children| - 1, false), HealthReply(0, false)]
    ensures Reaches(s, t, steps, s', t') && SameEvents(t, t')
    ensures !s'.stopping && s'.restartCount == count + 1 && s'.children == s.children[|s.children| - 1 := Exited]
    ensures s'.tasks[Delay] == 1 && s'.tasks[HealthKill] == kills + 1
  {
    hide Reaches, Run, TallyOf, Do;
    var exit, reply := ChildExits(|s.children| - 1, false), HealthReply(0, false);
    var s1, t1 := Do(s, exit), Counted(s, exit, t);
    NewestExits(s, 0);
    CheckFails(s1, 0);
    ReachesByOne(s, t, exit);
    ReachesThen(s, t, [exit], s1, t1, reply);
    steps, s', t' := [exit] + [reply], Do(s1, reply), Counted(s1, reply, t1);
  }

  lemma {:induction false} Restarts(s: State, t: Tally, count: nat, kills: nat, times: nat)
      returns (steps: seq<Step>, s': State, t': Tally)
    requires Up(s, count, 0, kills) && count + times < MAX_RESTARTS
    ensures Reaches(s, t, steps, s', t') && SameEvents(t, t')
    ensures Up(s', count + times, 0, kills + times) && |s'.children| == |s.children| + times
    decreases times
  {
    hide Do, Counted, Enabled, Reaches, Run, TallyOf;
    ReachesNone(s, t);
    steps, s', t' := [], s, t;
    if times > 0 {
      var a, s1, t1 := NewestDies(s, t, count, kills);
      var b, s2, t2 := ReplaceOnce(s1, t1);
      ReachesAppend(s, t, a, s1, t1, b, s2, t2);
      var rest;
      rest, s', t' := Restarts(s2, t2, count + 1, kills + 1, times - 1);
      ReachesAppend(s, t, a + b, s2, t2, rest, s', t');
      steps := a + b + rest;
    }
  }

  /** A killed child is given up on when the counter is spent: nothing is scheduled. */
  lemma KillEnds(s: State)
    requires !s.stopping && HealthKill in s.tasks && s.restartCount + 1 >= MAX_RESTARTS
    ensures Do(s, HealthKillDone)
         == s.(restartCount := s.restartCount + 1, status := Failed, tasks := s.tasks - multiset{HealthKill})
  {
    hide Do;
    DoCrash(s, HealthKillDone);
  }

  /** The last restart of a start: while its delay runs the first killed child is given up on. */
  lemma LastRestart(s: State, t: Tally) returns (steps: seq<Step>, s': State, t': Tally)
    requires Up(s, MAX_RESTARTS - 2, 0, 3)
    ensures Reaches(s, t, steps, s', t') && SameEvents(t, t')
    ensures Up(s', MAX_RESTARTS, 0, 3) && |s'.children| == |s.children| + 1
  {
    hide Do, Counted, Reaches, Run, TallyOf;
    var a, s1, t1 := NewestDies(s, t, MAX_RESTARTS - 2, 3);
    var s2, t2 := Do(s1, HealthKillDone), Counted(s1, HealthKillDone, t1);
    KillEnds(s1);
    ReachesThen(s, t, a, s1, t1, HealthKillDone);
    CountedAsNeither(s1, t1, HealthKillDone);
    var b;
    b, s', t' := ReplaceOnce(s2, t2);
    ReachesAppend(s, t, a + [HealthKillDone], s2, t2, b, s', t');
    steps := a + [HealthKillDone] + b;
  }

  lemma SlowReply(s: State, attempt: nat)
    requires Polling(attempt) in s.tasks && !DiedDuringStartup(s)
    ensures Do(s, HealthReply(attempt, false))
         == s.(tasks := s.tasks - multiset{Polling(attempt)} + multiset{Pause(attempt)})
  {
    hide Do;
    DoHealthReply(s, attempt, false);
  }

  lemma PauseGoesOn(s: State, attempt: nat)
    requires Pause(attempt) in s.tasks && attempt + 1 < MAX_ATTEMPTS && !s.stopping
    ensures Do(s, PauseOver(attempt))
         == s.(tasks := s.tasks - multiset{Pause(attempt)} + multiset{Polling(attempt + 1)})
  {
    hide Do;
    DoPauseOver(s, attempt);
  }

  lemma StaysUp(s: State, count: nat, attempt: nat, kills: nat)
    requires Up(s, count, attempt, kills) && attempt + 1 < MAX_ATTEMPTS
    ensures var s1 := Do(s, HealthReply(attempt, false));
      && Pause(attempt) in s1.tasks
      && Up(Do(s1, PauseOver(attempt)), count, attempt + 1, kills)
      && Do(s1, PauseOver(attempt)).children == s.children
  {
    hide Do;
    SlowReply(s, attempt);
    PauseGoesOn(Do(s, HealthReply(attempt, false)), attempt);
  }

  /** The newest child is slow to answer. */
  lemma NextAttempt(s: State, t: Tally, count: nat, attempt: nat, kills: nat)
      returns (steps: seq<Step>, s': State, t': Tally)
    requires Up(s, count, attempt, kills) && attempt + 1 < MAX_ATTEMPTS
    ensures Reaches(s, t, steps, s', t') && SameEvents(t, t')
    ensures Up(s', count, attempt + 1, kills) && s'.children == s.children
  {
    var reply, pause := HealthReply(attempt, false), PauseOver(attempt);
    assert Polling(attempt) in s.tasks;
    hide Reaches, Run, TallyOf, Do, Counted, Up;
    var s1, t1 := Do(s, reply), Counted(s, reply, t);
    StaysUp(s, count, attempt, kills);
    CountedAsNeither(s, t, reply);
    ReachesByOne(s, t, reply);
    CountedAsNeither(s1, t1, pause);
    ReachesThen(s, t, [reply], s1, t1, pause);
    steps, s', t' := [reply] + [pause], Do(s1, pause), Counted(s1, pause, t1);
  }

  /** Meanwhile a killed one is given up on. */
  lemma Settle(s: State, t: Tally, count: nat, attempt: nat, kills: nat)
      returns (steps: seq<Step>, s': State, t': Tally)
    requires Up(s, count, attempt, kills) && count + 1 >= MAX_RESTARTS && kills > 0 && attempt + 1 < MAX_ATTEMPTS
    ensures Reaches(s, t, steps, s', t') && SameEvents(t, t')
    ensures Up(s', count + 1, attempt + 1, kills - 1) && s'.status == Failed && |s'.children| == |s.children|
  {
    hide Reaches, Run, TallyOf, Do, Counted;
    var a, s1, t1 := NextAttempt(s, t, count, attempt, kills);
    KillEnds(s1);
    CountedAsNeither(s1, t1, HealthKillDone);
    ReachesThen(s, t, a, s1, t1, HealthKillDone);
    steps := a + [HealthKillDone];
    s', t' := Do(s1, HealthKillDone), Counted(s1, HealthKillDone, t1);
  }

  /** All restarts are used up, nothing but the health check of the newest child is under way. */
  ghost predicate Settled(s: State) {
    Up(s, s.restartCount, 3, 0) && s.restartCount + 1 >= MAX_RESTARTS && s.status == Failed
  }

  lemma SettleAll(s: State, t: Tally, count: nat) returns (steps: seq<Step>, s': State, t': Tally)
    requires Up(s, count, 0, 3) && count + 1 >= MAX_RESTARTS
    ensures Reaches(s, t, steps, s', t') && SameEvents(t, t')
    ensures Settled(s') && |s'.children| == |s.children|
  {
    hide Do, Counted, Enabled, Reaches, Run, TallyOf;
    var a, s1, t1 := Settle(s, t, count, 0, 3);
    var b, s2, t2 := Settle(s1, t1, count + 1, 1, 2);
    ReachesAppend(s, t, a, s1, t1, b, s2, t2);
    var c;
    c, s', t' := Settle(s2, t2, count + 2, 2, 1);
    ReachesAppend(s, t, a + b, s2, t2, c, s', t');
    steps := a + b + c;
  }

  lemma StartAndFork(s: State, t: Tally) returns (steps: seq<Step>, s': State, t': Tally)
    requires s.status == Stopped || s.status == Failed
    requires Delay !in s.tasks && HealthKill !in s.tasks
    ensures steps == [Start, FOUND]
    ensures Reaches(s, t, steps, s', t') && t'.starts == t.starts + 1 && t'.healthy == t.healthy
    ensures Up(s', 0, 0, 0) && s'.children == s.children + [Alive]
  {
    hide Reaches, Run, TallyOf;
    var s1, t1 := Do(s, Start), Counted(s, Start, t);
    ReachesByOne(s, t, Start);
    ReachesThen(s, t, [Start], s1, t1, FOUND);
    steps, s', t' := [Start] + [FOUND], Do(s1, FOUND), Counted(s1, FOUND, t1);
  }

  /** A start from a state of rest, and all restarts after it. */
  lemma StartRound(s: State, t: Tally) returns (steps: seq<Step>, s': State, t': Tally)
    requires s.status == Stopped || s.status == Failed
    requires Delay !in s.tasks && HealthKill !in s.tasks
    ensures Reaches(s, t, steps, s', t') && t'.starts == t.starts + 1 && t'.healthy == t.healthy
    ensures Settled(s') && |s'.children| == |s.children| + MAX_RESTARTS
  {
    hide Do, Counted, Enabled, Reaches, Run, TallyOf, Up, Settled;
    var a, s1, t1 := StartAndFork(s, t);
    var b, s2, t2 := Restarts(s1, t1, 0, 0, 3);
    ReachesAppend(s, t, a, s1, t1, b, s2, t2);
    var c, s3, t3 := LastRestart(s2, t2);
    ReachesAppend(s, t, a + b, s2, t2, c, s3, t3);
    var d;
    d, s', t' := SettleAll(s3, t3, MAX_RESTARTS);
    ReachesAppend(s, t, a + b + c, s3, t3, d, s', t');
    steps := a + b + c + d;
  }

  /** The newest child answers at last, and exits later. */
  lemma AnswersAndExits(s: State, t: Tally) returns (steps: seq<Step>, s': State, t': Tally)
    requires Settled(s)
    ensures Reaches(s, t, steps, s', t') && t'.starts == t.starts && t'.healthy == t.healthy + 1
    ensures !s'.stopping && s'.restartCount == 1 && |s'.children| == |s.children|
    ensures s'.tasks[Delay] == 1 && s'.tasks[HealthKill] == 0
  {
    hide Reaches, Run, TallyOf;
    var reply, exit := HealthReply(3, true), ChildExits(|s.children| - 1, false);
    var s1, t1 := Do(s, reply), Counted(s, reply, t);
    ReachesByOne(s, t, reply);
    ReachesThen(s, t, [reply], s1, t1, exit);
    steps, s', t' := [reply] + [exit], Do(s1, exit), Counted(s1, exit, t1);
  }

  /** A healthy reply, and all restarts after it. */
  lemma HealthyRound(s: State, t: Tally) returns (steps: seq<Step>, s': State, t': Tally)
    requires Settled(s)
    ensures Reaches(s, t, steps, s', t') && t'.starts == t.starts && t'.healthy == t.healthy + 1
    ensures Settled(s') && |s'.children| == |s.children| + MAX_RESTARTS - 1
  {
    hide Do, Counted, Enabled, Reaches, Run, TallyOf, Settled;
    var a, s1, t1 := AnswersAndExits(s, t);
    var b, s2, t2 := ReplaceOnce(s1, t1);
    ReachesAppend(s, t, a, s1, t1, b, s2, t2);
    var c, s3, t3 := Restarts(s2, t2, 1, 0, 3);
    ReachesAppend(s, t, a + b, s2, t2, c, s3, t3);
    var d;
    d, s', t' := SettleAll(s3, t3, MAX_RESTARTS - 1);
    ReachesAppend(s, t, a + b + c, s3, t3, d, s', t');
    steps := a + b + c + d;
  }

  lemma LastExit(s: State)
    requires Settled(s)
    ensures var last := |s.children| - 1;
      Do(s, ChildExits(last, false))
        == s.(restartCount := s.restartCount + 1, status := Failed, children := s.children[last := Exited])
  {}

  /** The newest child exits too, and the manager gives up. */
  lemma GiveUp(s: State, t: Tally) returns (steps: seq<Step>, s': State, t': Tally)
    requires Settled(s)
    ensures Reaches(s, t, steps, s', t') && SameEvents(t, t')
    ensures s'.status == Failed && |s'.children| == |s.children| && Delay !in s'.tasks && HealthKill !in s'.tasks
  {
    hide Reaches, Run, TallyOf, Do, Counted;
    var exit, reply := ChildExits(|s.children| - 1, false), HealthReply(3, false);
    var s1, t1 := Do(s, exit), Counted(s, exit, t);
    LastExit(s);
    CountedAsNeither(s, t, exit);
    ReachesByOne(s, t, exit);
    CheckFails(s1, 3);
    CountedAsNeither(s1, t1, reply);
    ReachesThen(s, t, [exit], s1, t1, reply);
    var s2, t2 := Do(s1, reply), Counted(s1, reply, t1);
    KillEnds(s2);
    CountedAsNeither(s2, t2, HealthKillDone);
    ReachesThen(s, t, [exit] + [reply], s2, t2, HealthKillDone);
    steps := [exit] + [reply] + [HealthKillDone];
    s', t' := Do(s2, HealthKillDone), Counted(s2, HealthKillDone, t2);
  }

  /** For every number of starts and of healthy replies some run forks exactly as often as the bound says. All
      crashes in it are exits of the newest child and what its failed health check makes of them. */
  lemma {:induction false} BoundIsReached(starts: nat, healthy: nat)
      returns (steps: seq<Step>, s: State, t: Tally)
    requires starts > 0
    ensures Reaches(Initial(), ZERO, steps, s, t) && t.starts == starts && t.healthy == healthy
    ensures |s.children| == 5 * starts + 4 * healthy
    ensures Settled(s)
    decreases starts, healthy
  {
    hide Reaches, Run, TallyOf, Do, Enabled, Counted, Settled;
    ReachesNone(Initial(), ZERO);
    var s0, t0, first, last;
    if healthy > 0 {
      first, s0, t0 := BoundIsReached(starts, healthy - 1);
      last, s, t := HealthyRound(s0, t0);
    } else {
      first, s0, t0 := [], Initial(), ZERO;
      if starts > 1 {
        var before, s1, t1 := BoundIsReached(starts - 1, 0);
        var end;
        end, s0, t0 := GiveUp(s1, t1);
        ReachesAppend(Initial(), ZERO, before, s1, t1, end, s0, t0);
        first := before + end;
      }
      last, s, t := StartRound(s0, t0);
    }
    ReachesAppend(Initial(), ZERO, first, s0, t0, last, s, t);
    steps := first + last;
  }

  // ---------- One death, two replacements ----------

  /** One process that exits while it is starting is handled by its exit event and, when the kill of the dead
      process times out, by its failed health check: two children replace it, and the manager knows only the
      second. */
  lemma OneDeathForksTwo() returns (steps: seq<Step>, s: State, t: Tally)
    ensures steps == [Start, FOUND, ChildExits(0, false), HealthReply(0, false), DelayOver, FOUND,
                      HealthKillDone, DelayOver, FOUND]
    ensures Reaches(Initial(), ZERO, steps, s, t) && t.starts == 1 && t.healthy == 0
    ensures s.children == [Exited, Alive, Alive] && s.process == Some(2) && s.restartCount == 2
  {
    hide Reaches, Run, TallyOf, Do, Counted;
    var a, s1, t1 := StartAndFork(Initial(), ZERO);
    var b, s2, t2 := NewestDies(s1, t1, 0, 0);
    ReachesAppend(Initial(), ZERO, a, s1, t1, b, s2, t2);
    var c, s3, t3 := ReplaceOnce(s2, t2);
    ReachesAppend(Initial(), ZERO, a + b, s2, t2, c, s3, t3);
    var s4, t4 := Do(s3, HealthKillDone), Counted(s3, HealthKillDone, t3);
    DoCrash(s3, HealthKillDone);
    CountedAsNeither(s3, t3, HealthKillDone);
    ReachesThen(Initial(), ZERO, a + b + c, s3, t3, HealthKillDone);
    var d;
    d, s, t := ReplaceOnce(s4, t4);
    steps := a + b + c + [HealthKillDone] + d;
    ReachesAppend(Initial(), ZERO, a + b + c + [HealthKillDone], s4, t4, d, s, t);
  }
}
