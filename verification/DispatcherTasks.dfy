/** Which tasks the dispatcher holds, in every run and told from what was taken from the queues: a
    clean job empties the map, every other job leaves it, and each job taken last before the queue
    ran empty becomes a task unless none can be built from it. */
module DispatcherTasks {
  import opened Wrappers
  import opened Bytes
  import opened Words
  import opened SolutionPacket
  import opened DedupeKey
  import opened Dispatcher

  // ----- Clean jobs -----

  predicate IsCleanJob(e: Event) {
    e.Took? && e.m.Notify? && e.m.job.clean
  }

  /** A clean job was taken at event c, and the queue was not found empty from then on to event k. */
  predicate TakenSince(log: seq<Event>, c: nat, k: nat)
    requires k <= |log|
  {
    c < k && IsCleanJob(log[c]) && forall d :: c < d < k ==> !log[d].Drained?
  }

  /** At event k a drain ended in which the first or any later job was clean. */
  ghost predicate CleanDrain(log: seq<Event>, k: nat) {
    k < |log| && log[k].Drained? && exists c :: TakenSince(log, c, k)
  }

  lemma {:induction false} CleanPendingIs(log: seq<Event>)
    ensures CleanPending(log) <==> exists c :: TakenSince(log, c, |log|)
    decreases |log|
  {
    if log != [] {
      var front, e := log[..|log| - 1], log[|log| - 1];
      CleanPendingIs(front);
      hide CleanPending, IsCleanJob;
      if CleanPending(front) {
        var c: nat :| TakenSince(front, c, |front|);
        if !e.Drained? { LongerDrain(front, e, c); }
      }
      if exists c :: TakenSince(log, c, |log|) {
        var c: nat :| TakenSince(log, c, |log|);
        if c < |front| { assert TakenSince(front, c, |front|); }
      }
      PendingStep(log);
      if IsCleanJob(e) { assert TakenSince(log, |front|, |log|); }
      assert log == front + [e];
    }
  }

  lemma PendingStep(log: seq<Event>)
    requires log != []
    ensures CleanPending(log) == (!log[|log| - 1].Drained? && (IsCleanJob(log[|log| - 1]) || CleanPending(log[..|log| - 1])))
  {
  }

  lemma LongerDrain(front: seq<Event>, e: Event, c: nat)
    requires TakenSince(front, c, |front|) && !e.Drained?
    ensures TakenSince(front + [e], c, |front| + 1)
  {
    hide IsCleanJob;
  }

  // ----- The map -----

  /** The task was inserted at event i, not replaced since, and no drain with a clean job ended since. */
  ghost predicate LiveSince(log: seq<Event>, i: nat, id: u64, task: Task) {
    && i < |log| && log[i] == Inserted(id, task)
    && (forall j :: i < j < |log| ==> !(log[j].Inserted? && log[j].jobId == id))
    && (forall j :: i < j < |log| ==> !CleanDrain(log, j))
  }

  lemma PrefixDrain(log: seq<Event>, n: nat, k: nat)
    requires k < n <= |log|
    ensures CleanDrain(log[..n], k) <==> CleanDrain(log, k)
  {
    hide IsCleanJob;
    if CleanDrain(log, k) {
      var c: nat :| TakenSince(log, c, k);
      assert TakenSince(log[..n], c, k);
    }
    if CleanDrain(log[..n], k) {
      var c: nat :| TakenSince(log[..n], c, k);
      assert TakenSince(log, c, k);
    }
  }

  lemma LiveLonger(front: seq<Event>, e: Event, i: nat, id: u64, task: Task)
    ensures LiveSince(front + [e], i, id, task)
       <==> || (i == |front| && e == Inserted(id, task))
            || (LiveSince(front, i, id, task) && !(e.Inserted? && e.jobId == id) && !CleanDrain(front + [e], |front|))
  {
    hide CleanDrain;
    var log := front + [e];
    assert log[..|front|] == front;
    forall j | 0 <= j < |front| ensures CleanDrain(front, j) <==> CleanDrain(log, j) { PrefixDrain(log, |front|, j); }
    if LiveSince(log, i, id, task) && i < |front| {
      assert log[|front|] == e;
      forall j | i < j < |front| ensures !(front[j].Inserted? && front[j].jobId == id) && !CleanDrain(front, j) { assert front[j] == log[j]; }
    }
  }

  lemma CleanEnd(front: seq<Event>, e: Event)
    ensures CleanDrain(front + [e], |front|) <==> e.Drained? && CleanPending(front)
  {
    CleanPendingIs(front);
    hide CleanPending;
    if e.Drained? && CleanPending(front) {
      var c: nat :| TakenSince(front, c, |front|);
      SameDrain(front, e, c);
    }
    if CleanDrain(front + [e], |front|) {
      var c: nat :| TakenSince(front + [e], c, |front|);
      SameDrain(front, e, c);
    }
  }

  lemma SameDrain(front: seq<Event>, e: Event, c: nat)
    ensures TakenSince(front + [e], c, |front|) <==> TakenSince(front, c, |front|)
  {
    hide IsCleanJob;
    var log := front + [e];
    assert forall d :: 0 <= d < |front| ==> log[d] == front[d];
  }

  /** The map holds exactly the tasks inserted, not replaced and not cleared by a clean job. */
  lemma {:induction false} ActiveExactly(log: seq<Event>, id: u64, task: Task)
    ensures id in ActiveOf(log) && ActiveOf(log)[id] == task <==> exists i :: LiveSince(log, i, id, task)
    decreases |log|
  {
    if log != [] {
      var front, e := log[..|log| - 1], log[|log| - 1];
      assert log == front + [e];
      ActiveExactly(front, id, task);
      CleanEnd(front, e);
      ActiveStep(front, e);
      hide ActiveOf, CleanPending, CleanDrain, LiveSince;
      forall i ensures LiveSince(log, i, id, task)
        <==> || (i == |front| && e == Inserted(id, task))
             || (LiveSince(front, i, id, task) && !(e.Inserted? && e.jobId == id) && !CleanDrain(log, |front|))
      {
        LiveLonger(front, e, i, id, task);
      }
      if exists i :: LiveSince(front, i, id, task) {
        var i: nat :| LiveSince(front, i, id, task);
        assert !(e.Inserted? && e.jobId == id) && !CleanDrain(log, |front|) ==> LiveSince(log, i, id, task);
      }
      if e == Inserted(id, task) { assert LiveSince(log, |front|, id, task); }
    }
  }

  lemma ActiveStep(front: seq<Event>, e: Event)
    ensures ActiveOf(front + [e])
      == if e.Drained? && CleanPending(front) then map[] else if e.Inserted? then ActiveOf(front)[e.jobId := e.task] else ActiveOf(front)
  {
    hide CleanPending;
    assert (front + [e])[..|front|] == front;
  }

  // ----- Lookups in every run -----

  predicate IsLookup(e: Event, id: u64) {
    (e.Stale? || e.Found?) && e.sol.jobId == id
  }

  /** In every run, a lookup finds a task exactly when it was inserted under the id, not replaced
      since, and no drain with a clean job ended since. */
  lemma LookupExactly(setup: Setup, s: State, run: seq<Step>, j: nat, task: Task)
    requires Initial(setup, s) && IsRun(setup, s, run)
    requires var log := After(setup, s, run).log; j < |log| && (log[j].Stale? || log[j].Found?)
    ensures
      var log := After(setup, s, run).log;
      log[j] == Found(log[j].sol, task) <==> exists i :: LiveSince(log[..j], i, log[j].sol.jobId, task)
  {
    EveryRunIsSafe(setup, s, run);
    hide After, IsRun, CountersBalance, NoRepeats, Sum, Meets, ActiveOf, LiveSince, TargetOf, ConnectedOf;
    var log := After(setup, s, run).log;
    assert Holds(setup, log[..j], log[j]);
    ActiveExactly(log[..j], log[j].sol.jobId, task);
  }

  /** In every run, once a drain with a clean job ended, a solution of a job inserted only before that
      is stale. */
  lemma CleanMakesStale(setup: Setup, s: State, run: seq<Step>, k: nat, j: nat)
    requires Initial(setup, s) && IsRun(setup, s, run)
    requires var log := After(setup, s, run).log; k < j < |log| && CleanDrain(log, k) && (log[j].Stale? || log[j].Found?)
    requires var log := After(setup, s, run).log; forall i :: k < i < j ==> !(log[i].Inserted? && log[i].jobId == log[j].sol.jobId)
    ensures After(setup, s, run).log[j].Stale?
  {
    var log := After(setup, s, run).log;
    if log[j].Found? {
      LookupExactly(setup, s, run, j, log[j].task);
      hide After, IsRun, CleanDrain;
      var i: nat :| LiveSince(log[..j], i, log[j].sol.jobId, log[j].task);
      PrefixDrain(log, j, k);
    }
  }

  /** In every run, a task inserted is found by every lookup until it is replaced or a drain with a
      clean job ends. */
  lemma KeptWithoutClean(setup: Setup, s: State, run: seq<Step>, i: nat, j: nat)
    requires Initial(setup, s) && IsRun(setup, s, run)
    requires var log := After(setup, s, run).log; i < j < |log| && log[i].Inserted? && IsLookup(log[j], log[i].jobId)
    requires var log := After(setup, s, run).log; forall m :: i < m < j ==> !(log[m].Inserted? && log[m].jobId == log[i].jobId) && !CleanDrain(log, m)
    ensures var log := After(setup, s, run).log; log[j] == Found(log[j].sol, log[i].task)
  {
    var log := After(setup, s, run).log;
    LookupExactly(setup, s, run, j, log[i].task);
    hide After, IsRun, CleanDrain;
    var front := log[..j];
    assert front[i] == log[i];
    forall m | i < m < j ensures !(front[m].Inserted? && front[m].jobId == log[i].jobId) && !CleanDrain(front, m) {
      PrefixDrain(log, j, m);
      assert front[m] == log[m];
    }
    assert LiveSince(front, i, log[i].jobId, log[i].task);
  }

  /** In every run, a submitted share was looked up while its task was live. */
  lemma SubmittedWasLive(setup: Setup, s: State, run: seq<Step>, j: nat) returns (m: nat, i: nat)
    requires Initial(setup, s) && IsRun(setup, s, run) && j < |After(setup, s, run).log| && After(setup, s, run).log[j].Submitted?
    ensures
      var log := After(setup, s, run).log;
      && m < j && log[m] == Found(log[j].sol, log[j].task) && LiveSince(log[..m], i, log[j].sol.jobId, log[j].task)
  {
    EveryRunIsSafe(setup, s, run);
    var log := After(setup, s, run).log;
    m := LookedUpBefore(setup, log, j);
    LookupExactly(setup, s, run, m, log[j].task);
    hide After, IsRun, LiveSince, SoundLog;
    i :| LiveSince(log[..m], i, log[j].sol.jobId, log[j].task);
  }

  // ----- What becomes of a job -----

  predicate ByDistributor(e: Event) {
    e.Took? || e.Drained? || e.Built? || e.Inserted?
  }

  /** The distributor's last event. */
  function LastDone(log: seq<Event>): Option<Event> {
    if log == [] then None
    else if ByDistributor(log[|log| - 1]) then Some(log[|log| - 1])
    else LastDone(log[..|log| - 1])
  }

  /** The dispatcher's copy of the nonce: what the pool held when it was last copied. */
  function NonceOf(setup: Setup, log: seq<Event>): seq<byte> {
    if log == [] then setup.extraNonce1
    else
      var front := log[..|log| - 1];
      if log[|log| - 1].Adopted? && SessionOf(setup, front).Some? then SessionOf(setup, front).value else NonceOf(setup, front)
  }

  /** The nonce at the last build. */
  function BuiltNonce(setup: Setup, log: seq<Event>): seq<byte> {
    if log == [] then setup.extraNonce1
    else if log[|log| - 1].Built? then NonceOf(setup, log[..|log| - 1])
    else BuiltNonce(setup, log[..|log| - 1])
  }

  /** The task of the last job taken, if one can be built. */
  function Outcome(setup: Setup, log: seq<Event>): Option<Task> {
    match LastJob(log)
    case None => None
    case Some(job) => TaskFor(job, BuiltNonce(setup, log), TargetOf(setup.base, log))
  }

  /** A build follows an emptied queue and is for the last job taken; its task is inserted under the
      time of the build; the distributor goes on to another message only from a finished job, or when
      no task could be built. */
  predicate DistributionHolds(setup: Setup, log: seq<Event>, e: Event) {
    match e
    case Built(_) => LastDone(log) == Some(Drained)
    case Inserted(id, task) => LastDone(log) == Some(Built(id)) && Outcome(setup, log) == Some(task)
    case Took(_) => LastDone(log) != Some(Drained) && (LastDone(log).Some? && LastDone(log).value.Built? ==> Outcome(setup, log).None?)
    case Drained => LastDone(log).Some? && LastDone(log).value.Took? && LastJob(log).Some?
    case _ => true
  }

  predicate DistributionsSound(setup: Setup, log: seq<Event>) {
    forall j :: 0 <= j < |log| ==> DistributionHolds(setup, log[..j], log[j])
  }

  /** Where the distributor stands is what the log says. */
  predicate PlaceKnown(setup: Setup, s: State) {
    match s.d
    case Waiting => LastDone(s.log) != Some(Drained) && (LastDone(s.log).Some? && LastDone(s.log).value.Built? ==> Outcome(setup, s.log).None?)
    case Draining(latest, _) => LastDone(s.log).Some? && LastDone(s.log).value.Took? && LastJob(s.log) == Some(latest)
    case Building(job) => LastDone(s.log) == Some(Drained) && LastJob(s.log) == Some(job)
    case Inserting(id, task) => LastDone(s.log) == Some(Built(id)) && Outcome(setup, s.log) == Some(task)
  }

  predicate DistributorKnown(setup: Setup, s: State) {
    s.extraNonce1 == NonceOf(setup, s.log) && PlaceKnown(setup, s) && DistributionsSound(setup, s.log)
  }

  lemma HistoryAppended(setup: Setup, log: seq<Event>, e: Event)
    ensures LastDone(log + [e]) == if ByDistributor(e) then Some(e) else LastDone(log)
    ensures NonceOf(setup, log + [e]) == if e.Adopted? && SessionOf(setup, log).Some? then SessionOf(setup, log).value else NonceOf(setup, log)
    ensures BuiltNonce(setup, log + [e]) == if e.Built? then NonceOf(setup, log) else BuiltNonce(setup, log)
  {
    hide SessionOf;
    assert (log + [e])[..|log|] == log;
  }

  /** Only a job taken, a difficulty taken or a build changes what would be inserted. */
  lemma OutcomeAppended(setup: Setup, log: seq<Event>, e: Event)
    ensures !(e.Took? && (e.m.Notify? || e.m.SetDifficulty?)) && !e.Built? ==> Outcome(setup, log + [e]) == Outcome(setup, log)
    ensures e.Built? && LastJob(log).Some? ==> Outcome(setup, log + [e]) == TaskFor(LastJob(log).value, NonceOf(setup, log), TargetOf(setup.base, log))
  {
    HistoryAppended(setup, log, e);
    Appended(setup.base, log, e);
    hide TaskFor, TargetFor, LastJob, BuiltNonce, NonceOf, TargetOf, LastDone, SessionOf, ActiveOf, CleanPending, ConnectedOf;
  }

  lemma DistributionAppend(setup: Setup, log: seq<Event>, e: Event)
    requires DistributionsSound(setup, log) && DistributionHolds(setup, log, e)
    ensures DistributionsSound(setup, log + [e])
  {
    hide DistributionHolds;
    var l := log + [e];
    forall j | 0 <= j < |l| ensures DistributionHolds(setup, l[..j], l[j]) {
      assert l[..j] == if j < |log| then log[..j] else log;
    }
  }

  lemma DistributorKnownStep(setup: Setup, s: State, step: Step)
    requires Enabled(s, step) && DistributorKnown(setup, s) && MapKnown(setup, s) && SessionsKnown(setup, s)
    ensures DistributorKnown(setup, Next(setup, s, step))
  {
    hide Next, DistributorKnown, MapKnown, SessionsKnown;
    if IsValidators(step) {
      var e := ValidatorFrame(setup, s, step);
      QuietlyKnown(setup, s, Next(setup, s, step), e);
    } else if IsDistributors(step) {
      DistributorPlace(setup, s, step);
    } else {
      EnvironmentPlace(setup, s, step);
    }
  }

  /** Events that are not the distributor's and copy no nonce. */
  lemma QuietlyKnown(setup: Setup, s: State, t: State, e: Event)
    requires DistributorKnown(setup, s) && t.log == s.log + [e] && t.d == s.d && t.extraNonce1 == s.extraNonce1
    requires !ByDistributor(e) && !e.Adopted?
    ensures DistributorKnown(setup, t)
  {
    hide Outcome, LastDone, NonceOf, BuiltNonce, LastJob, DistributionsSound;
    HistoryAppended(setup, s.log, e);
    OutcomeAppended(setup, s.log, e);
    JobAppended(s.log, e);
    DistributionAppend(setup, s.log, e);
  }

  lemma JobAppended(log: seq<Event>, e: Event)
    ensures LastJob(log + [e]) == if e.Took? && e.m.Notify? then Some(e.m.job) else LastJob(log)
  {
    assert (log + [e])[..|log|] == log;
  }

  lemma EnvironmentPlace(setup: Setup, s: State, step: Step)
    requires Enabled(s, step) && DistributorKnown(setup, s) && SessionsKnown(setup, s) && !IsValidators(step) && !IsDistributors(step)
    ensures DistributorKnown(setup, Next(setup, s, step))
  {
    var t := Next(setup, s, step);
    var e := t.log[|s.log|];
    assert t.log == s.log + [e] && t.d == s.d && !ByDistributor(e);
    if step.Adopt? {
      AdoptedKnown(setup, s, t);
    } else {
      assert !e.Adopted? && t.extraNonce1 == s.extraNonce1;
      hide Next, DistributorKnown, SessionsKnown;
      QuietlyKnown(setup, s, t, e);
    }
  }

  lemma AdoptedKnown(setup: Setup, s: State, t: State)
    requires DistributorKnown(setup, s) && SessionsKnown(setup, s) && s.session.Some?
    requires t == s.(extraNonce1 := s.session.value, log := s.log + [Adopted])
    ensures DistributorKnown(setup, t)
  {
    hide Outcome, LastDone, NonceOf, BuiltNonce, LastJob, DistributionsSound, SessionOf, NoncesSound, Drawn;
    HistoryAppended(setup, s.log, Adopted);
    OutcomeAppended(setup, s.log, Adopted);
    JobAppended(s.log, Adopted);
    DistributionAppend(setup, s.log, Adopted);
  }

  lemma DistributorPlace(setup: Setup, s: State, step: Step)
    requires Enabled(s, step) && DistributorKnown(setup, s) && MapKnown(setup, s) && IsDistributors(step)
    ensures DistributorKnown(setup, Next(setup, s, step))
  {
    var e := DistributorFrame(setup, s, step);
    MapIs(setup, s);
    hide Next, Outcome, LastDone, NonceOf, BuiltNonce, LastJob, DistributionsSound, TaskFor, TargetFor, Respond, ActiveOf, TargetOf, ConnectedOf, MapKnown;
    HistoryAppended(setup, s.log, e);
    OutcomeAppended(setup, s.log, e);
    JobAppended(s.log, e);
    DistributionAppend(setup, s.log, e);
  }

  lemma {:induction false} DistributorStaysKnown(setup: Setup, s: State, run: seq<Step>)
    requires DistributorKnown(setup, s) && TasksKnown(setup, s) && SessionsKnown(setup, s) && IsRun(setup, s, run)
    ensures DistributorKnown(setup, After(setup, s, run))
    decreases |run|
  {
    if run != [] {
      assert MapKnown(setup, s);
      hide DistributorKnown, TasksKnown, SessionsKnown, MapKnown, Next;
      DistributorKnownStep(setup, s, run[0]);
      TasksKnownStep(setup, s, run[0]);
      SessionsKnownStep(setup, s, run[0]);
      DistributorStaysKnown(setup, Next(setup, s, run[0]), run[1..]);
    }
  }

  /** In every run, what is inserted is the task of the last job taken before the queue ran empty, with
      the nonce at the build and the target of the last difficulty, under the time of the build; and no
      such job is left without a task unless none can be built from it. */
  lemma JobsBecomeTasks(setup: Setup, s: State, run: seq<Step>, j: nat)
    requires Initial(setup, s) && IsRun(setup, s, run) && j < |After(setup, s, run).log|
    ensures DistributionHolds(setup, After(setup, s, run).log[..j], After(setup, s, run).log[j])
  {
    InitialIsSafe(setup, s);
    DistributorStaysKnown(setup, s, run);
    hide After, IsRun, DistributionHolds;
  }

  // ----- Nothing is lost in the queues -----

  function Arrivals(log: seq<Event>): seq<Solution> {
    if log == [] then []
    else Arrivals(log[..|log| - 1]) + if log[|log| - 1].Arrived? then [log[|log| - 1].sol] else []
  }

  /** The solutions the validator took, in order. */
  function Handled(log: seq<Event>): seq<Solution> {
    if log == [] then []
    else
      var e := log[|log| - 1];
      Handled(log[..|log| - 1]) + if e.Skipped? || e.Counted? then [e.sol] else []
  }

  function QueuedIn(log: seq<Event>): seq<Message> {
    if log == [] then [] else QueuedIn(log[..|log| - 1]) + if log[|log| - 1].Queued? then [log[|log| - 1].m] else []
  }

  function TakenFrom(log: seq<Event>): seq<Message> {
    if log == [] then [] else TakenFrom(log[..|log| - 1]) + if log[|log| - 1].Took? then [log[|log| - 1].m] else []
  }

  /** What came in is what was taken, in order, followed by what still waits. */
  predicate NothingLost(first: State, s: State) {
    && first.solutions + Arrivals(s.log) == Handled(s.log) + s.solutions
    && first.messages + QueuedIn(s.log) == TakenFrom(s.log) + s.messages
  }

  lemma QueuesAppended(log: seq<Event>, e: Event)
    ensures Arrivals(log + [e]) == Arrivals(log) + if e.Arrived? then [e.sol] else []
    ensures Handled(log + [e]) == Handled(log) + if e.Skipped? || e.Counted? then [e.sol] else []
    ensures QueuedIn(log + [e]) == QueuedIn(log) + if e.Queued? then [e.m] else []
    ensures TakenFrom(log + [e]) == TakenFrom(log) + if e.Took? then [e.m] else []
  {
    assert (log + [e])[..|log|] == log;
  }

  /** The queues move with the events. */
  predicate QueuesMove(s: State, t: State, e: Event) {
    && t.log == s.log + [e]
    && (if e.Arrived? then t.solutions == s.solutions + [e.sol]
        else if e.Skipped? || e.Counted? then s.solutions == [e.sol] + t.solutions else t.solutions == s.solutions)
    && (if e.Queued? then t.messages == s.messages + [e.m]
        else if e.Took? then s.messages == [e.m] + t.messages else t.messages == s.messages)
  }

  lemma QueuesKept(first: State, s: State, t: State, e: Event)
    requires NothingLost(first, s) && QueuesMove(s, t, e)
    ensures NothingLost(first, t)
  {
    hide Arrivals, Handled, QueuedIn, TakenFrom;
    QueuesAppended(s.log, e);
    if e.Arrived? {
      PushedKeeps(first.solutions, Arrivals(s.log), Handled(s.log), s.solutions, e.sol);
    } else if e.Skipped? || e.Counted? {
      PoppedKeeps(first.solutions + Arrivals(s.log), Handled(s.log), s.solutions, e.sol, t.solutions);
    } else if e.Queued? {
      PushedKeeps(first.messages, QueuedIn(s.log), TakenFrom(s.log), s.messages, e.m);
    } else if e.Took? {
      PoppedKeeps(first.messages + QueuedIn(s.log), TakenFrom(s.log), s.messages, e.m, t.messages);
    }
    assert forall x: seq<Solution> :: x + [] == x;
    assert forall x: seq<Message> :: x + [] == x;
  }

  lemma PushedKeeps<T>(first: seq<T>, ins: seq<T>, outs: seq<T>, queue: seq<T>, x: T)
    requires first + ins == outs + queue
    ensures first + (ins + [x]) == outs + (queue + [x])
  {
    assert first + (ins + [x]) == first + ins + [x];
  }

  lemma PoppedKeeps<T>(whole: seq<T>, outs: seq<T>, queue: seq<T>, x: T, rest: seq<T>)
    requires whole == outs + queue && queue == [x] + rest
    ensures whole == outs + [x] + rest
  {
  }

  lemma StepMovesQueues(setup: Setup, s: State, step: Step) returns (e: Event)
    requires Enabled(s, step)
    ensures QueuesMove(s, Next(setup, s, step), e)
  {
    if IsValidators(step) {
      e := ValidatorMovesQueues(setup, s, step);
    } else {
      e := OthersMoveQueues(setup, s, step);
    }
  }

  lemma ValidatorMovesQueues(setup: Setup, s: State, step: Step) returns (e: Event)
    requires Enabled(s, step) && IsValidators(step)
    ensures QueuesMove(s, Next(setup, s, step), e)
  {
    StepIs(setup, s, step);
    hide Next, QueuesMove, OnPopSolution, OnLookUp, OnClassify, OnSubmit, OnMessage, OnDrained, OnDrainEnd, OnBuild, OnInsert, Log;
    if step.PopSolution? { e := PopMovesQueue(s); } else { e := OthersLeaveQueue(setup, s, step); }
  }

  lemma PopMovesQueue(s: State) returns (e: Event)
    requires s.solutions != []
    ensures QueuesMove(s, OnPopSolution(s), e)
  {
    hide Key;
    e := OnPopSolution(s).log[|s.log|];
  }

  lemma OthersLeaveQueue(setup: Setup, s: State, step: Step) returns (e: Event)
    requires Enabled(s, step) && IsValidators(step) && !step.PopSolution?
    ensures QueuesMove(s, if step.LookUp? then OnLookUp(s) else if step.Classify? then OnClassify(setup, s) else OnSubmit(s), e)
  {
    hide Meets, Key, ComputorIndex, Credit;
    e := (if step.LookUp? then OnLookUp(s) else if step.Classify? then OnClassify(setup, s) else OnSubmit(s)).log[|s.log|];
  }

  lemma OthersMoveQueues(setup: Setup, s: State, step: Step) returns (e: Event)
    requires Enabled(s, step) && !IsValidators(step)
    ensures QueuesMove(s, Next(setup, s, step), e)
  {
    if IsDistributors(step) {
      e := DistributorFrame(setup, s, step);
    } else {
      e := EnvironmentFrame(setup, s, step);
    }
    hide Next;
  }

  lemma {:induction false} QueuesInRun(setup: Setup, first: State, s: State, run: seq<Step>)
    requires NothingLost(first, s) && IsRun(setup, s, run)
    ensures NothingLost(first, After(setup, s, run))
    decreases |run|
  {
    hide NothingLost, Next, QueuesMove;
    if run != [] {
      var e := StepMovesQueues(setup, s, run[0]);
      QueuesKept(first, s, Next(setup, s, run[0]), e);
      QueuesInRun(setup, first, Next(setup, s, run[0]), run[1..]);
    }
  }

  /** In every run, both queues are first in, first out, and nothing is lost or taken twice. */
  lemma NothingLostInRuns(setup: Setup, s: State, run: seq<Step>)
    requires Initial(setup, s) && IsRun(setup, s, run)
    ensures NothingLost(s, After(setup, s, run))
  {
    QueuesInRun(setup, s, s, run);
  }
}
