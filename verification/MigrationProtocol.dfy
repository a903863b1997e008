/** Any number of migration runners racing for the advisory lock, with failures and crashes anywhere
    (usbvault-server/migrations/migrate.go).

    Each step is one interaction with the database. The list is the one all runners read. */
module MigrationProtocol {
  import opened Options
  import opened Migrations

  // ---------- States ----------

  /** Where one call of Migrate stands. From Locked to Returned it is between acquiring the lock and the
      deferred unlock. `applied` is the set of versions it read at its start. */
  datatype Phase =
    | Waiting
    | Locked
    | TableReady
    | Applying(applied: set<int>, next: nat)
    | InTransaction(applied: set<int>, next: nat)
    | Returned(ok: bool)
    | Finished(ok: bool)
    | Dead

  /** The advisory lock and its holder, the versions in schema_migrations, the SQL committed since the
      initial state, and the runners. */
  datatype State = State(lock: Option<nat>, recorded: set<int>, log: seq<Migration>, runners: seq<Phase>)

  function Initial(recorded: set<int>, count: nat): State {
    State(None, recorded, [], seq(count, _ => Waiting))
  }

  // ---------- Steps ----------

  datatype Step =
    | Acquire(i: nat)
    | GiveUp(i: nat)            // no connection, or the lock timeout
    | CreateTable(i: nat)
    | ReadApplied(i: nat)
    | Skip(i: nat)              // a version that was applied before
    | Execute(i: nat)           // the SQL and the row, not yet committed
    | Commit(i: nat)
    | CommitReplyLost(i: nat)   // committed, but the runner sees an error
    | Fail(i: nat)              // an error return; an open transaction is rolled back
    | Complete(i: nat)          // the loop is done, nil is returned
    | Unlock(i: nat)
    | UnlockFails(i: nat)       // only logged: the session keeps the lock
    | SessionEnds(i: nat)       // the connection of a finished runner closes
    | Crash(i: nat)             // the runner dies: its transaction is rolled back and its lock released
    | LockSessionLost(i: nat)   // only the connection holding the lock breaks; the runner goes on

  predicate InMigration(p: Phase) {
    p.Locked? || p.TableReady? || p.Applying? || p.InTransaction?
  }

  predicate Critical(p: Phase) {
    InMigration(p) || p.Returned?
  }

  predicate Enabled(list: seq<Migration>, s: State, step: Step) {
    step.i < |s.runners| &&
    var p := s.runners[step.i];
    match step
    case Acquire(i) => p.Waiting? && s.lock == None
    case GiveUp(i) => p.Waiting?
    case CreateTable(i) => p.Locked?
    case ReadApplied(i) => p.TableReady?
    case Skip(i) => p.Applying? && p.next < |list| && list[p.next].version in p.applied
    case Execute(i) => p.Applying? && p.next < |list| && list[p.next].version !in p.applied
    case Commit(i) => p.InTransaction? && p.next < |list|
    case CommitReplyLost(i) => p.InTransaction? && p.next < |list|
    case Fail(i) => InMigration(p)
    case Complete(i) => p.Applying? && p.next >= |list|
    case Unlock(i) => p.Returned?
    case UnlockFails(i) => p.Returned?
    case SessionEnds(i) => p.Finished? && s.lock == Some(i)
    case Crash(i) => !p.Finished? && !p.Dead?
    case LockSessionLost(i) => InMigration(p) && s.lock == Some(i)
  }

  function Committed(s: State, m: Migration): State {
    s.(recorded := s.recorded + {m.version}, log := s.log + [m])
  }

  function Released(s: State, i: nat): State {
    if s.lock == Some(i) then s.(lock := None) else s
  }

  function To(s: State, i: nat, p: Phase): State
    requires i < |s.runners|
  {
    s.(runners := s.runners[i := p])
  }

  function Do(list: seq<Migration>, s: State, step: Step): State
    requires Enabled(list, s, step)
  {
    var p := s.runners[step.i];
    match step
    case Acquire(i) => To(s.(lock := Some(i)), i, Locked)
    case GiveUp(i) => To(s, i, Finished(false))
    case CreateTable(i) => To(s, i, TableReady)
    case ReadApplied(i) => To(s, i, Applying(s.recorded, 0))
    case Skip(i) => To(s, i, Applying(p.applied, p.next + 1))
    case Execute(i) => To(s, i, InTransaction(p.applied, p.next))
    case Commit(i) => To(Committed(s, list[p.next]), i, Applying(p.applied, p.next + 1))
    case CommitReplyLost(i) => To(Committed(s, list[p.next]), i, Returned(false))
    case Fail(i) => To(s, i, Returned(false))
    case Complete(i) => To(s, i, Returned(true))
    case Unlock(i) => To(Released(s, i), i, Finished(p.ok))
    case UnlockFails(i) => To(s, i, Finished(p.ok))
    case SessionEnds(i) => Released(s, i)
    case Crash(i) => To(Released(s, i), i, Dead)
    case LockSessionLost(i) => Released(s, i)
  }

  /** The state after a sequence of steps, if each is enabled when it is taken. */
  function Run(list: seq<Migration>, s: State, steps: seq<Step>): Option<State>
    decreases |steps|
  {
    if steps == [] then Some(s)
    else if Enabled(list, s, steps[0]) then Run(list, Do(list, s, steps[0]), steps[1..])
    else None
  }

  /** The lock ends only by unlock or with the session of a runner that is done or dead. */
  ghost predicate LockIsKept(steps: seq<Step>) {
    forall k :: 0 <= k < |steps| ==> !steps[k].LockSessionLost?
  }

  // ---------- The invariant ----------

  /** Of the migrations before `n`, all are recorded. */
  ghost predicate AllRecorded(list: seq<Migration>, recorded: set<int>, n: nat) {
    n <= |list| && forall j :: 0 <= j < n ==> list[j].version in recorded
  }

  /** What a runner in the middle of its loop knows. */
  ghost predicate Knows(list: seq<Migration>, recorded: set<int>, applied: set<int>, n: nat) {
    && AllRecorded(list, recorded, n)
    && forall j :: n <= j < |list| ==> (list[j].version in recorded <==> list[j].version in applied)
  }

  /** What a runner has read and done agrees with the database. */
  ghost predicate Informed(list: seq<Migration>, s: State, i: nat)
    requires i < |s.runners|
  {
    var p := s.runners[i];
    && (p.Applying? ==> Knows(list, s.recorded, p.applied, p.next))
    && (p.InTransaction? ==>
          && Knows(list, s.recorded, p.applied, p.next)
          && p.next < |list| && list[p.next].version !in p.applied)
    && ((p.Returned? || p.Finished?) && p.ok ==> AllRecorded(list, s.recorded, |list|))
  }

  ghost predicate PhaseOk(list: seq<Migration>, s: State, i: nat)
    requires i < |s.runners|
  {
    Informed(list, s, i) && (Critical(s.runners[i]) ==> s.lock == Some(i))
  }

  /** `frontier` is how far the list has been worked through since the initial state. */
  ghost predicate Inv(list: seq<Migration>, initial: set<int>, s: State, frontier: nat) {
    && frontier <= |list|
    && s.log == Pending(list[..frontier], initial)
    && s.recorded == initial + Versions(s.log)
    && (forall i :: 0 <= i < |s.runners| ==> PhaseOk(list, s, i))
  }

  lemma PendingVersions(list: seq<Migration>, initial: set<int>, x: Migration)
    ensures x in Pending(list, initial) <==> x in list && x.version !in initial
  {
    if list != [] {
      PendingVersions(list[1..], initial, x);
      assert list == [list[0]] + list[1..];
    }
  }

  lemma {:induction false} PendingOfRecorded(list: seq<Migration>, initial: set<int>, m: nat, n: nat)
    requires m <= n <= |list| && forall j :: m <= j < n ==> list[j].version in initial
    ensures Pending(list[..n], initial) == Pending(list[..m], initial)
    decreases n - m
  {
    if m < n {
      assert list[..n] == list[..n - 1] + [list[n - 1]];
      PendingAppend(list[..n - 1], list[n - 1], initial);
      PendingOfRecorded(list, initial, m, n - 1);
    }
  }

  /** A version beyond the frontier is recorded only if it was from the start. */
  lemma RecordedBeyond(list: seq<Migration>, initial: set<int>, frontier: nat, recorded: set<int>, j: nat)
    requires StrictlyIncreasing(list) && frontier <= |list| && j < |list|
    requires recorded == initial + Versions(Pending(list[..frontier], initial))
    ensures list[j].version in recorded <==> j < frontier || list[j].version in initial
  {
    hide Pending;
    var done := Pending(list[..frontier], initial);
    if j < frontier && list[j].version !in initial {
      assert list[j] in list[..frontier];
      PendingVersions(list[..frontier], initial, list[j]);
      assert list[j].version in Versions(done);
    }
    if list[j].version in Versions(done) {
      var x :| x in done && x.version == list[j].version;
      PendingVersions(list[..frontier], initial, x);
      var k :| 0 <= k < frontier && list[k] == x;
      assert k == j;
    }
  }

  /** Committing the migration at hand is committing the next pending one. */
  lemma CommitIsNextPending(list: seq<Migration>, initial: set<int>, s: State, frontier: nat,
                            applied: set<int>, n: nat)
    requires StrictlyIncreasing(list) && frontier <= |list|
    requires s.log == Pending(list[..frontier], initial) && s.recorded == initial + Versions(s.log)
    requires Knows(list, s.recorded, applied, n) && n < |list| && list[n].version !in applied
    ensures frontier <= n
    ensures Pending(list[..n + 1], initial) == s.log + [list[n]]
    ensures s.recorded + {list[n].version} == initial + Versions(s.log + [list[n]])
  {
    hide Pending;
    RecordedBeyond(list, initial, frontier, s.recorded, n);
    forall j | frontier <= j < n ensures list[j].version in initial {
      RecordedBeyond(list, initial, frontier, s.recorded, j);
    }
    PendingOfRecorded(list, initial, frontier, n);
    assert list[..n + 1] == list[..n] + [list[n]];
    PendingAppend(list[..n], list[n], initial);
    VersionsAppend(s.log, list[n]);
  }

  lemma KnowsMore(list: seq<Migration>, recorded: set<int>, applied: set<int>, n: nat)
    requires StrictlyIncreasing(list) && Knows(list, recorded, applied, n) && n < |list|
    ensures Knows(list, recorded + {list[n].version}, applied, n + 1)
  {}

  /** What a step does to the database: nothing, or commit `m`. */
  ghost predicate Effect(s: State, s': State, m: Option<Migration>) {
    match m
    case None => s'.log == s.log && s'.recorded == s.recorded
    case Some(x) => s'.log == s.log + [x] && s'.recorded == s.recorded + {x.version}
  }

  /** Others keep what they know: only the holder of the lock commits. */
  lemma OthersUnaffected(list: seq<Migration>, s: State, step: Step, k: nat)
    requires Enabled(list, s, step) && !step.LockSessionLost?
    requires PhaseOk(list, s, step.i)
    requires k < |s.runners| && k != step.i && PhaseOk(list, s, k)
    ensures PhaseOk(list, Do(list, s, step), k)
  {
    var s' := Do(list, s, step);
    assert s'.runners[k] == s.runners[k];
    if step.Commit? || step.CommitReplyLost? {
      assert s.recorded <= s'.recorded;
    } else {
      assert s'.recorded == s.recorded;
    }
  }

  /** A runner's own steps keep it informed, with or without the lock. */
  lemma ActorStaysInformed(list: seq<Migration>, s: State, step: Step)
    requires StrictlyIncreasing(list) && Enabled(list, s, step) && Informed(list, s, step.i)
    ensures Informed(list, Do(list, s, step), step.i)
  {
    var p := s.runners[step.i];
    if step.Commit? || step.CommitReplyLost? {
      KnowsMore(list, s.recorded, p.applied, p.next);
    }
  }

  lemma ActorStaysOk(list: seq<Migration>, s: State, step: Step)
    requires StrictlyIncreasing(list) && Enabled(list, s, step) && !step.LockSessionLost?
    requires PhaseOk(list, s, step.i)
    ensures PhaseOk(list, Do(list, s, step), step.i)
  {
    hide Informed;
    ActorStaysInformed(list, s, step);
  }

  /** Every step keeps the invariant and refines the plain sequential run: the database does not change, or
      exactly the next pending migration is committed. */
  lemma StepRefinesSequentialRun(list: seq<Migration>, initial: set<int>, s: State, frontier: nat, step: Step)
    returns (frontier': nat)
    requires StrictlyIncreasing(list) && Inv(list, initial, s, frontier)
    requires Enabled(list, s, step) && !step.LockSessionLost?
    ensures Inv(list, initial, Do(list, s, step), frontier') && frontier <= frontier'
    ensures var s' := Do(list, s, step);
      || Effect(s, s', None)
      || (|s.log| < |Pending(list, initial)| && Effect(s, s', Some(Pending(list, initial)[|s.log|])))
  {
    var s', p := Do(list, s, step), s.runners[step.i];
    forall k | 0 <= k < |s.runners| ensures PhaseOk(list, s', k) {
      if k == step.i {
        ActorStaysOk(list, s, step);
      } else {
        OthersUnaffected(list, s, step, k);
      }
    }
    assert PhaseOk(list, s, step.i);
    if step.Commit? || step.CommitReplyLost? {
      CommitIsNextPending(list, initial, s, frontier, p.applied, p.next);
      PendingPrefix(list, p.next + 1, initial);
      frontier' := p.next + 1;
    } else {
      frontier' := frontier;
    }
  }

  lemma {:induction false} RunKeepsInvariant(list: seq<Migration>, initial: set<int>, s: State, frontier: nat,
                                             steps: seq<Step>) returns (frontier': nat)
    requires StrictlyIncreasing(list) && Inv(list, initial, s, frontier)
    requires LockIsKept(steps) && Run(list, s, steps).Some?
    ensures Inv(list, initial, Run(list, s, steps).value, frontier') && frontier <= frontier'
    decreases |steps|
  {
    hide Inv, Do, Enabled;
    frontier' := frontier;
    if steps != [] {
      frontier' := StepRefinesSequentialRun(list, initial, s, frontier, steps[0]);
      assert forall k :: 0 <= k < |steps[1..]| ==> steps[1..][k] == steps[k + 1];
      frontier' := RunKeepsInvariant(list, initial, Do(list, s, steps[0]), frontier', steps[1..]);
    }
  }

  lemma InitialInv(list: seq<Migration>, initial: set<int>, count: nat)
    ensures Inv(list, initial, Initial(initial, count), 0)
  {
    assert Pending(list[..0], initial) == [];
  }

  // ---------- Results over all interleavings ----------

  /** Safety: every interleaving of any number of runners, failing or crashing anywhere, has committed a
      prefix of the pending migrations in order, each once, and records exactly what it committed. */
  lemma EveryInterleavingCommitsAPrefix(list: seq<Migration>, initial: set<int>, count: nat, steps: seq<Step>)
    requires StrictlyIncreasing(list) && LockIsKept(steps)
    requires Run(list, Initial(initial, count), steps).Some?
    ensures var s := Run(list, Initial(initial, count), steps).value;
      && s.log <= Pending(list, initial)
      && StrictlyIncreasing(s.log)
      && s.recorded == initial + Versions(s.log)
  {
    InitialInv(list, initial, count);
    var frontier := RunKeepsInvariant(list, initial, Initial(initial, count), 0, steps);
    PendingPrefix(list, frontier, initial);
    PendingIncreases(list, initial);
  }

  lemma {:induction false} PendingIncreases(list: seq<Migration>, initial: set<int>)
    requires StrictlyIncreasing(list)
    ensures StrictlyIncreasing(Pending(list, initial))
  {
    if list != [] {
      PendingIncreases(list[1..], initial);
      var rest := Pending(list[1..], initial);
      forall k | 0 <= k < |rest| ensures list[0].version < rest[k].version {
        PendingVersions(list[1..], initial, rest[k]);
        var j :| 0 <= j < |list[1..]| && list[1..][j] == rest[k];
        assert list[j + 1] == rest[k];
      }
    }
  }

  /** At most one runner is between lock and unlock. */
  lemma MutualExclusion(list: seq<Migration>, initial: set<int>, count: nat, steps: seq<Step>, i: nat, j: nat)
    requires StrictlyIncreasing(list) && LockIsKept(steps)
    requires Run(list, Initial(initial, count), steps).Some?
    requires var s := Run(list, Initial(initial, count), steps).value;
      i < |s.runners| && j < |s.runners| && Critical(s.runners[i]) && Critical(s.runners[j])
    ensures i == j
  {
    InitialInv(list, initial, count);
    var frontier := RunKeepsInvariant(list, initial, Initial(initial, count), 0, steps);
    var s := Run(list, Initial(initial, count), steps).value;
    assert PhaseOk(list, s, i) && PhaseOk(list, s, j);
  }

  ghost predicate SomeRunSucceeded(s: State) {
    exists i :: 0 <= i < |s.runners| && (s.runners[i].Returned? || s.runners[i].Finished?) && s.runners[i].ok
  }

  lemma AllDoneMeansAllPending(list: seq<Migration>, initial: set<int>, s: State, frontier: nat)
    requires StrictlyIncreasing(list) && Inv(list, initial, s, frontier) && AllRecorded(list, s.recorded, |list|)
    ensures s.log == Pending(list, initial)
  {
    hide Pending;
    forall j | frontier <= j < |list| ensures list[j].version in initial {
      RecordedBeyond(list, initial, frontier, s.recorded, j);
    }
    PendingOfRecorded(list, initial, frontier, |list|);
    assert list[..|list|] == list;
  }

  /** Crash recovery: after any history of failed or crashed runs, once one run has returned nil the database
      is where a single uninterrupted run leaves it, and nothing that happens later commits anything. */
  lemma SuccessMeansFullyMigrated(list: seq<Migration>, initial: set<int>, count: nat,
                                  steps: seq<Step>, more: seq<Step>)
    requires StrictlyIncreasing(list) && LockIsKept(steps + more)
    requires Run(list, Initial(initial, count), steps).Some?
    requires SomeRunSucceeded(Run(list, Initial(initial, count), steps).value)
    requires Run(list, Run(list, Initial(initial, count), steps).value, more).Some?
    ensures var s := Run(list, Initial(initial, count), steps).value;
      && s.log == Pending(list, initial) && s.recorded == initial + Versions(Pending(list, initial))
      && Effect(s, Run(list, s, more).value, None)
  {
    assert forall k :: 0 <= k < |steps| ==> steps[k] == (steps + more)[k];
    assert forall k :: 0 <= k < |more| ==> more[k] == (steps + more)[|steps| + k];
    InitialInv(list, initial, count);
    var frontier := RunKeepsInvariant(list, initial, Initial(initial, count), 0, steps);
    var s := Run(list, Initial(initial, count), steps).value;
    var i :| 0 <= i < |s.runners| && (s.runners[i].Returned? || s.runners[i].Finished?) && s.runners[i].ok;
    assert PhaseOk(list, s, i);
    AllDoneMeansAllPending(list, initial, s, frontier);
    NothingLeft(list, initial, s, frontier, more);
  }

  lemma {:induction false} NothingLeft(list: seq<Migration>, initial: set<int>, s: State, frontier: nat,
                                       more: seq<Step>)
    requires StrictlyIncreasing(list) && Inv(list, initial, s, frontier) && s.log == Pending(list, initial)
    requires LockIsKept(more) && Run(list, s, more).Some?
    ensures Effect(s, Run(list, s, more).value, None)
    decreases |more|
  {
    hide Inv, Do, Enabled, Pending;
    if more != [] {
      var s' := Do(list, s, more[0]);
      assert s.log == Pending(list, initial);
      var frontier' := StepRefinesSequentialRun(list, initial, s, frontier, more[0]);
      assert forall k :: 0 <= k < |more[1..]| ==> more[1..][k] == more[k + 1];
      assert Effect(s, s', None);
      NothingLeft(list, initial, s', frontier', more[1..]);
    }
  }

  // ---------- The steps of one undisturbed run ----------

  /** What the loop does for the migrations from `n` on. */
  function LoopSteps(list: seq<Migration>, applied: set<int>, i: nat, n: nat): seq<Step>
    requires n <= |list|
    decreases |list| - n
  {
    if n == |list| then [Complete(i), Unlock(i)]
    else if list[n].version in applied then [Skip(i)] + LoopSteps(list, applied, i, n + 1)
    else [Execute(i), Commit(i)] + LoopSteps(list, applied, i, n + 1)
  }

  function SoloSteps(list: seq<Migration>, recorded: set<int>, i: nat): seq<Step> {
    StartSteps(i) + LoopSteps(list, recorded, i, 0)
  }

  lemma RunOne(list: seq<Migration>, s: State, step: Step, rest: seq<Step>)
    requires Enabled(list, s, step)
    ensures Run(list, s, [step] + rest) == Run(list, Do(list, s, step), rest)
  {
    assert ([step] + rest)[1..] == rest;
  }

  lemma {:induction false} LoopRuns(list: seq<Migration>, s: State, i: nat, applied: set<int>, n: nat)
    requires n <= |list| && i < |s.runners| && s.lock == Some(i) && s.runners[i] == Applying(applied, n)
    ensures Run(list, s, LoopSteps(list, applied, i, n)).Some?
    ensures var r := Run(list, s, LoopSteps(list, applied, i, n)).value;
      r.lock == None && |r.runners| == |s.runners| && r.runners[i] == Finished(true)
    decreases |list| - n
  {
    hide Run;
    if n == |list| {
      var s1 := Do(list, s, Complete(i));
      var s2 := Do(list, s1, Unlock(i));
      RunOne(list, s, Complete(i), [Unlock(i)]);
      RunOne(list, s1, Unlock(i), []);
      RunNone(list, s2);
      assert [Complete(i)] + [Unlock(i)] == [Complete(i), Unlock(i)];
      assert [Unlock(i)] + [] == [Unlock(i)];
    } else {
      var rest := LoopSteps(list, applied, i, n + 1);
      if list[n].version in applied {
        RunOne(list, s, Skip(i), rest);
        LoopRuns(list, Do(list, s, Skip(i)), i, applied, n + 1);
      } else {
        hide Do, Enabled;
        ApplyRuns(list, s, i, applied, n);
        RunAppend(list, s, [Execute(i), Commit(i)], rest);
        LoopRuns(list, To(Committed(s, list[n]), i, Applying(applied, n + 1)), i, applied, n + 1);
      }
    }
  }

  lemma {:induction false} RunAppend(list: seq<Migration>, s: State, first: seq<Step>, second: seq<Step>)
    requires Run(list, s, first).Some?
    ensures Run(list, s, first + second) == Run(list, Run(list, s, first).value, second)
    decreases |first|
  {
    hide Enabled, Do;
    if first == [] {
      assert first + second == second;
    } else {
      assert first + second == [first[0]] + (first[1..] + second);
      RunOne(list, s, first[0], first[1..] + second);
      RunAppend(list, Do(list, s, first[0]), first[1..], second);
    }
  }

  function StartSteps(i: nat): seq<Step> {
    [Acquire(i), CreateTable(i), ReadApplied(i)]
  }

  function Started(s: State, i: nat): State
    requires i < |s.runners|
  {
    To(s.(lock := Some(i)), i, Applying(s.recorded, 0))
  }

  lemma StartRuns(list: seq<Migration>, s: State, i: nat)
    requires i < |s.runners| && s.runners[i].Waiting? && s.lock == None
    ensures Run(list, s, StartSteps(i)) == Some(Started(s, i))
  {
    hide Run;
    var s1 := Do(list, s, Acquire(i));
    var s2 := Do(list, s1, CreateTable(i));
    var s3 := Do(list, s2, ReadApplied(i));
    RunOne(list, s, Acquire(i), [CreateTable(i)] + [ReadApplied(i)]);
    RunOne(list, s1, CreateTable(i), [ReadApplied(i)]);
    RunOne(list, s2, ReadApplied(i), []);
    RunNone(list, s3);
    assert [ReadApplied(i)] + [] == [ReadApplied(i)];
    assert [Acquire(i)] + ([CreateTable(i)] + [ReadApplied(i)]) == StartSteps(i);
    assert s3.runners == Started(s, i).runners;
  }

  lemma RunNone(list: seq<Migration>, s: State)
    ensures Run(list, s, []) == Some(s)
  {}

  /** A waiting runner that finds the lock free can always finish on its own, whatever state earlier runs
      left behind, so recovery is never blocked. */
  lemma WaitingRunnerCanFinish(list: seq<Migration>, s: State, i: nat)
    requires i < |s.runners| && s.runners[i].Waiting? && s.lock == None
    ensures Run(list, s, SoloSteps(list, s.recorded, i)).Some?
    ensures var r := Run(list, s, SoloSteps(list, s.recorded, i)).value;
      i < |r.runners| && r.runners[i] == Finished(true)
  {
    hide Run;
    StartRuns(list, s, i);
    RunAppend(list, s, StartSteps(i), LoopSteps(list, s.recorded, i, 0));
    LoopRuns(list, Started(s, i), i, s.recorded, 0);
  }

  // ---------- What a step changes ----------

  /** Only a commit changes the database, by the migration at hand, and only the acting runner moves. */
  lemma DatabaseChangesExactly(list: seq<Migration>, s: State, step: Step)
    requires Enabled(list, s, step)
    ensures var s', p := Do(list, s, step), s.runners[step.i];
      && (step.Commit? || step.CommitReplyLost? ==>
            p.InTransaction? && p.next < |list| && Effect(s, s', Some(list[p.next])))
      && (!step.Commit? && !step.CommitReplyLost? ==> Effect(s, s', None))
      && |s'.runners| == |s.runners|
      && forall k :: 0 <= k < |s.runners| && k != step.i ==> s'.runners[k] == s.runners[k]
  {}

  /** The lock is taken only when it is free, and only its holder's unlock, crash or session end frees it. */
  lemma LockChangesExactly(list: seq<Migration>, s: State, step: Step)
    requires Enabled(list, s, step)
    ensures var s', i := Do(list, s, step), step.i;
      if step.Acquire? then s.lock == None && s'.lock == Some(i)
      else if step.Unlock? || step.Crash? || step.SessionEnds? || step.LockSessionLost? then
        s'.lock == if s.lock == Some(i) then None else s.lock
      else s'.lock == s.lock
  {}

  /** A runner can crash at every point before it is done; it is then dead without the lock, and the database is
      as it was committed. */
  lemma CrashAnywhere(list: seq<Migration>, s: State, i: nat)
    requires i < |s.runners|
    ensures Enabled(list, s, Crash(i)) <==> !s.runners[i].Finished? && !s.runners[i].Dead?
    ensures Enabled(list, s, Crash(i)) ==>
      var s' := Do(list, s, Crash(i)); s'.runners[i] == Dead && s'.lock != Some(i) && Effect(s, s', None)
  {}

  // ---------- The lock never stays for ever ----------

  /** The lock is held by a runner that is at work or whose session is still open. */
  predicate HolderLives(s: State) {
    s.lock.Some? ==>
      s.lock.value < |s.runners|
      && (Critical(s.runners[s.lock.value]) || s.runners[s.lock.value].Finished?)
  }

  lemma StepKeepsHolder(list: seq<Migration>, s: State, step: Step)
    requires HolderLives(s) && Enabled(list, s, step)
    ensures HolderLives(Do(list, s, step))
  {}

  lemma {:induction false} RunKeepsHolder(list: seq<Migration>, s: State, steps: seq<Step>)
    requires HolderLives(s) && Run(list, s, steps).Some?
    ensures HolderLives(Run(list, s, steps).value)
    decreases |steps|
  {
    hide HolderLives, Do, Enabled;
    if steps != [] {
      StepKeepsHolder(list, s, steps[0]);
      RunKeepsHolder(list, Do(list, s, steps[0]), steps[1..]);
    }
  }

  /** What frees the lock: a holder at work crashes, one that has returned unlocks, and the session of one that
      is finished ends. */
  function Release(s: State): seq<Step>
    requires HolderLives(s)
  {
    if s.lock == None then []
    else
      var i := s.lock.value;
      if InMigration(s.runners[i]) then [Crash(i)]
      else if s.runners[i].Returned? then [Unlock(i)]
      else [SessionEnds(i)]
  }

  lemma ReleaseFrees(list: seq<Migration>, s: State)
    requires HolderLives(s)
    ensures Run(list, s, Release(s)).Some?
    ensures var r := Run(list, s, Release(s)).value;
      && r.lock == None && Effect(s, r, None) && |r.runners| == |s.runners|
      && forall k :: 0 <= k < |s.runners| && s.runners[k].Waiting? ==> r.runners[k].Waiting?
  {
    hide Run;
    if s.lock == None {
      RunNone(list, s);
    } else {
      var step := Release(s)[0];
      RunOne(list, s, step, []);
      RunNone(list, Do(list, s, step));
      assert [step] + [] == Release(s);
    }
  }

  /** In every state that any run reaches, even one that lost lock sessions, the lock can be freed by its holder
      alone, and any waiting runner then finishes with nil. No crash keeps the others out. */
  lemma EveryWaitingRunnerCanFinish(list: seq<Migration>, initial: set<int>, count: nat, steps: seq<Step>, w: nat)
      returns (more: seq<Step>)
    requires Run(list, Initial(initial, count), steps).Some?
    requires var s := Run(list, Initial(initial, count), steps).value; w < |s.runners| && s.runners[w].Waiting?
    ensures var s := Run(list, Initial(initial, count), steps).value;
      && HolderLives(s) && more == Release(s) + SoloSteps(list, s.recorded, w)
      && Run(list, s, more).Some?
      && w < |Run(list, s, more).value.runners| && Run(list, s, more).value.runners[w] == Finished(true)
  {
    hide Run;
    RunKeepsHolder(list, Initial(initial, count), steps);
    var s := Run(list, Initial(initial, count), steps).value;
    ReleaseFrees(list, s);
    var free := Run(list, s, Release(s)).value;
    WaitingRunnerCanFinish(list, free, w);
    RunAppend(list, s, Release(s), SoloSteps(list, s.recorded, w));
    more := Release(s) + SoloSteps(list, s.recorded, w);
  }

  // ---------- When the lock must be kept ----------

  /** The first pending migration, and all before it are recorded. */
  lemma {:induction false} FirstPending(list: seq<Migration>, initial: set<int>) returns (n: nat)
    requires Pending(list, initial) != []
    ensures n < |list| && list[n].version !in initial && list[n] == Pending(list, initial)[0]
    ensures forall j :: 0 <= j < n ==> list[j].version in initial
  {
    if list[0].version !in initial {
      return 0;
    }
    var k := FirstPending(list[1..], initial);
    n := k + 1;
    forall j | 0 <= j < n ensures list[j].version in initial {
      if j > 0 {
        assert list[1..][j - 1] == list[j];
      }
    }
  }

  function Skips(i: nat, count: nat): seq<Step> {
    if count == 0 then [] else [Skip(i)] + Skips(i, count - 1)
  }

  /** One runner passes over migrations that it knows to be applied. */
  lemma {:induction false} SkipsRun(list: seq<Migration>, s: State, i: nat, applied: set<int>, m: nat, n: nat)
    requires i < |s.runners| && s.runners[i] == Applying(applied, m) && m <= n <= |list|
    requires forall j :: m <= j < n ==> list[j].version in applied
    ensures Run(list, s, Skips(i, n - m)) == Some(To(s, i, Applying(applied, n)))
    decreases n - m
  {
    hide Run;
    if m == n {
      RunNone(list, s);
      assert s.runners[i := Applying(applied, n)] == s.runners;
    } else {
      var s1 := Do(list, s, Skip(i));
      RunOne(list, s, Skip(i), Skips(i, n - m - 1));
      SkipsRun(list, s1, i, applied, m + 1, n);
      assert s1.runners[i := Applying(applied, n)] == s.runners[i := Applying(applied, n)];
    }
  }

  /** One runner applies a migration that it does not know to be applied, whoever holds the lock. */
  lemma ApplyRuns(list: seq<Migration>, s: State, i: nat, applied: set<int>, n: nat)
    requires i < |s.runners| && s.runners[i] == Applying(applied, n)
    requires n < |list| && list[n].version !in applied
    ensures Run(list, s, [Execute(i), Commit(i)]) == Some(To(Committed(s, list[n]), i, Applying(applied, n + 1)))
  {
    hide Run;
    var s1 := Do(list, s, Execute(i));
    var s2 := Do(list, s1, Commit(i));
    RunOne(list, s, Execute(i), [Commit(i)]);
    RunOne(list, s1, Commit(i), []);
    RunNone(list, s2);
    assert [Commit(i)] + [] == [Commit(i)];
    assert [Execute(i)] + [Commit(i)] == [Execute(i), Commit(i)];
    assert s2.runners == s.runners[i := Applying(applied, n + 1)];
  }

  lemma LoseRuns(list: seq<Migration>, s: State, i: nat)
    requires i < |s.runners| && InMigration(s.runners[i]) && s.lock == Some(i)
    ensures Run(list, s, [LockSessionLost(i)]) == Some(s.(lock := None))
  {
    hide Run;
    RunOne(list, s, LockSessionLost(i), []);
    RunNone(list, Do(list, s, LockSessionLost(i)));
    assert [LockSessionLost(i)] + [] == [LockSessionLost(i)];
  }

  /** The first runner loses its lock session, and the second starts before the first has committed. */
  lemma BothStart(list: seq<Migration>, s: State) returns (steps: seq<Step>, r: State)
    requires |s.runners| >= 2 && s.runners[0].Waiting? && s.runners[1].Waiting? && s.lock == None
    ensures Run(list, s, steps) == Some(r) && !LockIsKept(steps) && r.log == s.log && |r.runners| == |s.runners|
    ensures r.runners[0] == Applying(s.recorded, 0) && r.runners[1] == Applying(s.recorded, 0)
  {
    hide Run;
    var s1 := Started(s, 0);
    var s2 := s1.(lock := None);
    StartRuns(list, s, 0);
    LoseRuns(list, s1, 0);
    RunAppend(list, s, StartSteps(0), [LockSessionLost(0)]);
    StartRuns(list, s2, 1);
    RunAppend(list, s, StartSteps(0) + [LockSessionLost(0)], StartSteps(1));
    steps, r := StartSteps(0) + [LockSessionLost(0)] + StartSteps(1), Started(s2, 1);
    assert steps[3].LockSessionLost?;
  }

  /** Both pass over what is recorded and apply the migration at `n`. */
  lemma BothApply(list: seq<Migration>, s: State, applied: set<int>, n: nat) returns (steps: seq<Step>, r: State)
    requires |s.runners| >= 2 && s.runners[0] == Applying(applied, 0) && s.runners[1] == Applying(applied, 0)
    requires n < |list| && list[n].version !in applied && forall j :: 0 <= j < n ==> list[j].version in applied
    ensures Run(list, s, steps) == Some(r) && r.log == s.log + [list[n], list[n]]
  {
    hide Run, Skips;
    var s1 := To(s, 0, Applying(applied, n));
    var s2 := To(s1, 1, Applying(applied, n));
    var s3 := To(Committed(s2, list[n]), 0, Applying(applied, n + 1));
    r := To(Committed(s3, list[n]), 1, Applying(applied, n + 1));
    SkipsRun(list, s, 0, applied, 0, n);
    SkipsRun(list, s1, 1, applied, 0, n);
    ApplyRuns(list, s2, 0, applied, n);
    ApplyRuns(list, s3, 1, applied, n);
    RunAppend(list, s, Skips(0, n), Skips(1, n));
    RunAppend(list, s, Skips(0, n) + Skips(1, n), [Execute(0), Commit(0)]);
    RunAppend(list, s, Skips(0, n) + Skips(1, n) + [Execute(0), Commit(0)], [Execute(1), Commit(1)]);
    steps := Skips(0, n) + Skips(1, n) + [Execute(0), Commit(0)] + [Execute(1), Commit(1)];
  }

  /** If the connection that holds the lock breaks while its runner goes on over the pool, two runners can
      both apply the next migration: its SQL is committed twice, and the second row is dropped silently. */
  lemma LosingTheLockSessionAppliesTwice(list: seq<Migration>, initial: set<int>, count: nat)
      returns (steps: seq<Step>)
    requires Pending(list, initial) != [] && count >= 2
    ensures Run(list, Initial(initial, count), steps).Some? && !LockIsKept(steps)
    ensures var first := Pending(list, initial)[0];
      Run(list, Initial(initial, count), steps).value.log == [first, first]
  {
    hide Run, Pending;
    var s0 := Initial(initial, count);
    var n := FirstPending(list, initial);
    var start, s1 := BothStart(list, s0);
    var apply, s2 := BothApply(list, s1, initial, n);
    RunAppend(list, s0, start, apply);
    steps := start + apply;
    var k :| 0 <= k < |start| && start[k].LockSessionLost?;
    assert steps[k].LockSessionLost?;
  }

  /** With nothing pending every runner finds only versions that it knows. */
  ghost predicate Idle(list: seq<Migration>, initial: set<int>, s: State) {
    && s.log == [] && s.recorded == initial
    && forall i :: 0 <= i < |s.runners| ==>
         !s.runners[i].InTransaction? && (s.runners[i].Applying? ==> s.runners[i].applied == initial)
  }

  lemma {:induction false} NothingPending(list: seq<Migration>, initial: set<int>, j: nat)
    requires Pending(list, initial) == [] && j < |list|
    ensures list[j].version in initial
  {
    if j > 0 {
      NothingPending(list[1..], initial, j - 1);
    }
  }

  lemma {:induction false} IdleRun(list: seq<Migration>, initial: set<int>, s: State, steps: seq<Step>)
    requires Idle(list, initial, s) && Pending(list, initial) == [] && Run(list, s, steps).Some?
    ensures Idle(list, initial, Run(list, s, steps).value)
    decreases |steps|
  {
    hide Pending;
    if steps != [] {
      var p := s.runners[steps[0].i];
      if steps[0].Execute? {
        NothingPending(list, initial, p.next);
      }
      IdleRun(list, initial, Do(list, s, steps[0]), steps[1..]);
    }
  }

  /** A runner that is alone needs no lock. */
  ghost predicate Alone(list: seq<Migration>, initial: set<int>, s: State, frontier: nat) {
    && |s.runners| <= 1
    && frontier <= |list|
    && s.log == Pending(list[..frontier], initial)
    && s.recorded == initial + Versions(s.log)
    && (|s.runners| == 1 ==> Informed(list, s, 0))
  }

  lemma AloneStep(list: seq<Migration>, initial: set<int>, s: State, frontier: nat, step: Step)
      returns (frontier': nat)
    requires StrictlyIncreasing(list) && Alone(list, initial, s, frontier) && Enabled(list, s, step)
    ensures Alone(list, initial, Do(list, s, step), frontier')
  {
    hide Pending, Versions, StrictlyIncreasing;
    var p := s.runners[step.i];
    ActorStaysInformed(list, s, step);
    frontier' := frontier;
    if step.Commit? || step.CommitReplyLost? {
      CommitIsNextPending(list, initial, s, frontier, p.applied, p.next);
      frontier' := p.next + 1;
    }
  }

  lemma {:induction false} AloneRun(list: seq<Migration>, initial: set<int>, s: State, frontier: nat, steps: seq<Step>)
      returns (frontier': nat)
    requires StrictlyIncreasing(list) && Alone(list, initial, s, frontier) && Run(list, s, steps).Some?
    ensures Alone(list, initial, Run(list, s, steps).value, frontier')
    decreases |steps|
  {
    hide Alone, Do, Enabled;
    frontier' := frontier;
    if steps != [] {
      frontier' := AloneStep(list, initial, s, frontier, steps[0]);
      frontier' := AloneRun(list, initial, Do(list, s, steps[0]), frontier', steps[1..]);
    }
  }

  /** Every run, also those that lose a lock session, commits pending migrations in order, each once. */
  ghost predicate AlwaysAPrefix(list: seq<Migration>, initial: set<int>, count: nat) {
    forall steps :: Run(list, Initial(initial, count), steps).Some? ==>
      Run(list, Initial(initial, count), steps).value.log <= Pending(list, initial)
  }

  /** Without the assumption on the lock the result of `EveryInterleavingCommitsAPrefix` holds exactly when
      there is nothing to do or at most one runner. */
  lemma LockIsNeededExactly(list: seq<Migration>, initial: set<int>, count: nat)
    requires StrictlyIncreasing(list)
    ensures AlwaysAPrefix(list, initial, count) <==> Pending(list, initial) == [] || count < 2
  {
    hide Run, Pending;
    if Pending(list, initial) != [] && count >= 2 {
      var steps := LosingTheLockSessionAppliesTwice(list, initial, count);
      NotTwice(list, initial);
      assert !AlwaysAPrefix(list, initial, count);
    } else {
      forall steps | Run(list, Initial(initial, count), steps).Some?
        ensures Run(list, Initial(initial, count), steps).value.log <= Pending(list, initial)
      {
        if Pending(list, initial) == [] {
          IdleRun(list, initial, Initial(initial, count), steps);
        } else {
          PendingStart(list, initial);
          var frontier := AloneRun(list, initial, Initial(initial, count), 0, steps);
          PendingPrefix(list, frontier, initial);
        }
      }
    }
  }

  lemma NotTwice(list: seq<Migration>, initial: set<int>)
    requires StrictlyIncreasing(list) && Pending(list, initial) != []
    ensures !([Pending(list, initial)[0], Pending(list, initial)[0]] <= Pending(list, initial))
  {
    hide Pending;
    PendingIncreases(list, initial);
    var pending := Pending(list, initial);
    var twice := [pending[0], pending[0]];
    if |pending| >= 2 {
      assert twice[1].version < pending[1].version;
    }
  }
}
