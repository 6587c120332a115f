/** The bodies of the dispatcher's two loops, run against the steps of the state machine. */
module DispatcherLoops {
  import opened Bytes
  import opened Words
  import opened SolutionPacket
  import opened DedupeKey
  import opened Dispatcher
  import Header
  import Difficulty

  // ----- Draining the pool's messages -----

  /** The last job announced. */
  predicate IsLatest(first: Job, ms: seq<Message>, job: Job) {
    || (job == first && forall i :: 0 <= i < |ms| ==> !ms[i].Notify?)
    || (exists i :: 0 <= i < |ms| && ms[i] == Notify(job) && forall j :: i < j < |ms| ==> !ms[j].Notify?)
  }

  predicate AnyClean(ms: seq<Message>) {
    exists i :: 0 <= i < |ms| && ms[i].Notify? && ms[i].job.clean
  }

  /** The target of the last difficulty announced. */
  predicate IsTarget(base: Bytes32, first: Bytes32, ms: seq<Message>, target: Bytes32) {
    || (target == first && forall i :: 0 <= i < |ms| ==> !ms[i].SetDifficulty?)
    || (exists i :: 0 <= i < |ms| && ms[i].SetDifficulty? && target == TargetFor(base, ms[i].divisor) && forall j :: i < j < |ms| ==> !ms[j].SetDifficulty?)
  }

  function Responses(ms: seq<Message>, accepted: bool): nat {
    if ms == [] then 0 else Responses(ms[..|ms| - 1], accepted) + if ms[|ms| - 1] == Response(accepted) then 1 else 0
  }

  function Drains(n: nat): seq<Step> {
    seq(n, _ => DrainOne)
  }

  function TookAll(ms: seq<Message>): seq<Event> {
    seq(|ms|, i requires 0 <= i < |ms| => Took(ms[i]))
  }

  /** The state after a drain of the given messages. */
  ghost function DrainedOf(s: State, done: seq<Message>, rest: seq<Message>, latest: Job, clean: bool, target: Bytes32, stats: Stats): State {
    s.(messages := rest, d := Draining(latest, clean), target := target, stats := stats, log := s.log + TookAll(done))
  }

  lemma DrainsOneMore(setup: Setup, s: State, done: seq<Message>, m: Message, rest: seq<Message>, latest: Job, clean: bool, target: Bytes32, stats: Stats)
    requires IsRun(setup, s, Drains(|done|)) && After(setup, s, Drains(|done|)) == DrainedOf(s, done, [m] + rest, latest, clean, target, stats)
    ensures IsRun(setup, s, Drains(|done| + 1))
    ensures After(setup, s, Drains(|done| + 1))
      == DrainedOf(s, done + [m], rest, if m.Notify? then m.job else latest, clean || (m.Notify? && m.job.clean),
                   if m.SetDifficulty? then TargetFor(setup.base, m.divisor) else target, if m.Response? then Respond(stats, m.accepted) else stats)
  {
    hide IsRun, After, TargetFor, Respond, OnPopSolution, OnLookUp, OnClassify, OnSubmit, OnMessage, OnBuild, OnInsert, OnDrainEnd;
    RunThen(setup, s, Drains(|done|), DrainOne);
    assert Drains(|done|) + [DrainOne] == Drains(|done| + 1);
    assert s.log + TookAll(done) + [Took(m)] == s.log + TookAll(done + [m]);
    assert ([m] + rest)[1..] == rest;
  }

  /** What holds of the drain after some messages. */
  ghost predicate DrainedSo(setup: Setup, s: State, first: Job, done: seq<Message>, rest: seq<Message>, latest: Job, clean: bool, target: Bytes32, stats: Stats) {
    && IsLatest(first, done, latest) && clean == (first.clean || AnyClean(done)) && IsTarget(setup.base, s.target, done, target)
    && stats == s.stats.(poolAccepted := s.stats.poolAccepted + Responses(done, true), poolRejected := s.stats.poolRejected + Responses(done, false))
    && IsRun(setup, s, Drains(|done|)) && After(setup, s, Drains(|done|)) == DrainedOf(s, done, rest, latest, clean, target, stats)
  }

  lemma DrainBegins(setup: Setup, s: State, first: Job)
    requires s.d == Draining(first, first.clean)
    ensures DrainedSo(setup, s, first, [], s.messages, first, first.clean, s.target, s.stats)
  {
    NothingDrained(setup.base, first, s.target);
    EmptyRun(setup, s);
    hide IsRun, After, IsLatest, AnyClean, IsTarget, Responses;
    assert Drains(0) == [] && s.log + TookAll([]) == s.log;
  }

  lemma DrainGoesOn(setup: Setup, s: State, first: Job, done: seq<Message>, m: Message, rest: seq<Message>, latest: Job, clean: bool, target: Bytes32, stats: Stats)
    requires DrainedSo(setup, s, first, done, [m] + rest, latest, clean, target, stats)
    ensures DrainedSo(setup, s, first, done + [m], rest, if m.Notify? then m.job else latest, clean || (m.Notify? && m.job.clean),
                      if m.SetDifficulty? then TargetFor(setup.base, m.divisor) else target, if m.Response? then Respond(stats, m.accepted) else stats)
  {
    hide IsRun, After, IsLatest, AnyClean, IsTarget, Responses, DrainedOf, TargetFor;
    DrainedOne(setup.base, first, done, latest, s.target, target, m);
    DrainsOneMore(setup, s, done, m, rest, latest, clean, target, stats);
  }

  /** The drain inside taskDistributionLoop: whatever is queued behind a job, the job distributed is
      the latest one, it is clean if any of them was, and the last difficulty counts. It stands for as
      many steps as there are messages. */
  method Drain(setup: Setup, first: Job, queue: seq<Message>, target0: Bytes32, stats0: Stats, ghost s: State)
      returns (latest: Job, clean: bool, target: Bytes32, stats: Stats)
    requires s.d == Draining(first, first.clean) && s.messages == queue && s.target == target0 && s.stats == stats0
    ensures DrainedSo(setup, s, first, queue, [], latest, clean, target, stats)
  {
    hide DrainedSo, TargetFor, Respond;
    DrainBegins(setup, s, first);
    latest, clean, target, stats := first, first.clean, target0, stats0;
    var rest := queue;
    ghost var done: seq<Message> := [];
    while rest != []
      invariant done + rest == queue && DrainedSo(setup, s, first, done, rest, latest, clean, target, stats)
      decreases |rest|
    {
      var m := rest[0];
      assert rest == [m] + rest[1..];
      rest := rest[1..];
      DrainGoesOn(setup, s, first, done, m, rest, latest, clean, target, stats);
      done := done + [m];
      match m
      case SetDifficulty(d) => target := SetTarget(setup, d);
      case Notify(job) => latest, clean := job, clean || job.clean;
      case Response(ok) => stats := Respond(stats, ok);
      case Other =>
    }
    assert done == queue;
  }

  lemma NothingDrained(base: Bytes32, first: Job, target: Bytes32)
    ensures IsLatest(first, [], first) && !AnyClean([]) && IsTarget(base, target, [], target) && Responses([], true) == Responses([], false) == 0
  {
  }

  lemma DrainedOne(base: Bytes32, first: Job, done: seq<Message>, latest: Job, target0: Bytes32, target: Bytes32, m: Message)
    requires IsLatest(first, done, latest) && IsTarget(base, target0, done, target)
    ensures IsLatest(first, done + [m], if m.Notify? then m.job else latest)
    ensures AnyClean(done + [m]) == (AnyClean(done) || (m.Notify? && m.job.clean))
    ensures IsTarget(base, target0, done + [m], if m.SetDifficulty? then TargetFor(base, m.divisor) else target)
    ensures Responses(done + [m], true) == Responses(done, true) + if m == Response(true) then 1 else 0
    ensures Responses(done + [m], false) == Responses(done, false) + if m == Response(false) then 1 else 0
  {
    hide TargetFor;
    var ms := done + [m];
    assert ms[..|ms| - 1] == done && ms[|done|] == m;
    assert forall i :: 0 <= i < |done| ==> ms[i] == done[i];
    CleanOne(done, m);
  }

  lemma CleanOne(done: seq<Message>, m: Message)
    ensures AnyClean(done + [m]) == (AnyClean(done) || (m.Notify? && m.job.clean))
  {
    var ms := done + [m];
    assert ms[|done|] == m;
    if AnyClean(done) {
      var i :| 0 <= i < |done| && done[i].Notify? && done[i].job.clean;
      assert ms[i] == done[i];
    }
  }

  /** The target set for a difficulty is the one divideTarget returns. */
  lemma TargetIsQuotient(base: Bytes32, d: u64, target: Bytes32)
    requires Bytes.LittleEndian(target) == if d == 0 then Bytes.LittleEndian(base) else Bytes.LittleEndian(base) / d
    ensures target == TargetFor(base, d)
  {
    hide Bytes.LittleEndian, ToBytes;
    RoundTripBytes(base);
    RoundTripBytes(target);
  }

  /** A mining.set_difficulty message: the base target divided by the announced difficulty. */
  method SetTarget(setup: Setup, d: u64) returns (target: Bytes32)
    ensures target == TargetFor(setup.base, d)
  {
    hide TargetFor, Bytes.LittleEndian;
    target := Difficulty.DivideTarget(setup.base, d);
    TargetIsQuotient(setup.base, d, target);
  }

  // ----- One task -----

  class TaskDistributor {
    var active: map<u64, Task>
    var target: Bytes32
    var stats: Stats

    constructor (setup: Setup)
      ensures active == map[] && target == setup.base && stats == Stats(0, 0, 0, 0, 0, seq(COMPUTORS, _ => 0), 0, 0, 0)
    {
      active, target, stats := map[], setup.base, Stats(0, 0, 0, 0, 0, seq(COMPUTORS, _ => 0), 0, 0, 0);
    }

    /** The distributor's own part of a state. */
    ghost predicate Is(s: State)
      reads this
    {
      active == s.active && target == s.target && stats == s.stats
    }

    /** A notify with what is queued behind it: drain, clear for a clean job, build, insert. The body
        of taskDistributionLoop and distributeTask, as a run of the state machine. */
    method Distribute(setup: Setup, first: Job, queue: seq<Message>, extraNonce1: seq<byte>, now: u64, ghost s: State)
        returns (ghost run: seq<Step>)
      requires Is(s) && s.d == Draining(first, first.clean) && s.messages == queue && s.extraNonce1 == extraNonce1
      modifies this
      ensures IsRun(setup, s, run) && Is(After(setup, s, run))
      ensures After(setup, s, run).d.Waiting? && After(setup, s, run).messages == []
    {
      hide IsRun, After, IsLatest, AnyClean, IsTarget, Responses, TaskFor, OnDrainEnd, OnBuild, OnInsert, TaskDone;
      var latest, clean;
      latest, clean, target, stats := Drain(setup, first, queue, target, stats, s);
      ghost var s1 := After(setup, s, Drains(|queue|));
      ghost var rest := TaskIsRun(setup, s1, now);
      RunsJoin(setup, s, Drains(|queue|), rest);
      run := Drains(|queue|) + rest;
      TaskDoneIs(s1, now);
      if latest.clean || clean { active := map[]; }
      var task := TaskFor(latest, extraNonce1, target);
      if task.Some? {
        active := active[now := task.value];
        stats := stats.(distributed := stats.distributed + 1);
      }
    }
  }

  /** The end of a drain, the build and the insertion, with nothing in between. */
  ghost function TaskDone(s: State, now: u64): State
    requires s.d.Draining?
  {
    var s1 := Log(OnDrainEnd(s), Drained);
    var s2 := Log(OnBuild(s1, now), Built(now));
    if s2.d.Inserting? then OnInsert(s2) else s2
  }

  lemma TaskDoneIs(s: State, now: u64)
    requires s.d.Draining?
    ensures
      var t, task := TaskDone(s, now), TaskFor(s.d.latest, s.extraNonce1, s.target);
      var kept := if s.d.latest.clean || s.d.clean then map[] else s.active;
      && t.d.Waiting? && t.messages == s.messages && t.target == s.target
      && t.active == (if task.Some? then kept[now := task.value] else kept)
      && t.stats == s.stats.(distributed := s.stats.distributed + if task.Some? then 1 else 0)
  {
    hide TaskFor;
  }

  lemma TaskIsRun(setup: Setup, s: State, now: u64) returns (run: seq<Step>)
    requires s.d.Draining? && s.messages == []
    ensures IsRun(setup, s, run) && After(setup, s, run) == TaskDone(s, now)
  {
    hide TaskFor, OnInsert;
    var s1 := Log(OnDrainEnd(s), Drained);
    var s2 := Log(OnBuild(s1, now), Built(now));
    var rest := [];
    if s2.d.Inserting? {
      rest := [Insert];
      RunOne(setup, s2, Insert, []);
    }
    RunOne(setup, s1, Build(now), rest);
    RunOne(setup, s, DrainEnd, [Build(now)] + rest);
    run := [DrainEnd] + ([Build(now)] + rest);
  }

  lemma {:induction false} RunsJoin(setup: Setup, s: State, a: seq<Step>, b: seq<Step>)
    requires IsRun(setup, s, a) && IsRun(setup, After(setup, s, a), b)
    ensures IsRun(setup, s, a + b) && After(setup, s, a + b) == After(setup, After(setup, s, a), b)
    decreases |a|
  {
    hide Next;
    if a == [] {
      assert a + b == b;
    } else {
      assert (a + b)[1..] == a[1..] + b;
      RunsJoin(setup, Next(setup, s, a[0]), a[1..], b);
    }
  }

  // ----- One iteration of the validator -----

  /** The validator's steps from loop head to loop head, with nothing in between. */
  function Iteration(setup: Setup, s: State): State
    requires s.v.LoopHead? && s.solutions != []
  {
    var s1 := OnPopSolution(s);
    if s1.v.LoopHead? then s1 else FromFetched(setup, s1)
  }

  function FromFetched(setup: Setup, s: State): State
    requires s.v.Fetched?
  {
    var s1 := OnLookUp(s);
    if s1.v.LoopHead? then s1 else FromLooked(setup, s1)
  }

  function FromLooked(setup: Setup, s: State): State
    requires s.v.Looked?
  {
    var s1 := OnClassify(setup, s);
    if s1.v.LoopHead? then s1 else OnSubmit(s1)
  }

  class ShareValidator {
    var recentSubmits: set<string>
    var lastCleanJobId: u64
    var stats: Stats
    var log: seq<Event>

    constructor ()
      ensures recentSubmits == {} && lastCleanJobId == 0 && log == [] && stats == Stats(0, 0, 0, 0, 0, seq(COMPUTORS, _ => 0), 0, 0, 0)
    {
      recentSubmits, lastCleanJobId, log := {}, 0, [];
      stats := Stats(0, 0, 0, 0, 0, seq(COMPUTORS, _ => 0), 0, 0, 0);
    }

    /** The validator's own part of a state. */
    ghost predicate Is(s: State)
      reads this
    {
      recentSubmits == s.recent && lastCleanJobId == s.lastJob && stats == s.stats && log == s.log
    }

    /** Drop a duplicate silently; count anything else and forget the keys of another job. */
    method Count(sol: Solution, ghost s: State) returns (duplicate: bool)
      requires Is(s) && s.v.LoopHead? && s.solutions != [] && s.solutions[0] == sol
      modifies this
      ensures Is(OnPopSolution(s)) && duplicate == OnPopSolution(s).v.LoopHead?
      ensures !duplicate ==> OnPopSolution(s).v == Fetched(sol)
    {
      hide Key;
      duplicate := Key(sol) in recentSubmits;
      if duplicate {
        log := log + [Skipped(sol)];
        return;
      }
      stats := stats.(received := stats.received + 1);
      log := log + [Counted(sol)];
      if sol.jobId != lastCleanJobId {
        recentSubmits := {};
        lastCleanJobId := sol.jobId;
      }
    }

    /** Compare the hash with the target; credit and remember a share that meets it. */
    method Check(setup: Setup, sol: Solution, task: Task, ghost s: State) returns (ok: bool)
      requires Is(s) && s.v == Looked(sol, task) && |stats.shares| == COMPUTORS
      requires |task.partial.header| == 36 && |task.partial.nBits| == 4
      modifies this
      ensures Is(OnClassify(setup, s)) && ok == OnClassify(setup, s).v.Winning? && ok == !OnClassify(setup, s).v.LoopHead?
      ensures ok ==> OnClassify(setup, s).v == Winning(sol, task)
    {
      hide Key, ComputorIndex, Meets;
      ok := HashMeets(setup, sol, task);
      if !ok {
        stats := stats.(rejected := stats.rejected + 1);
        log := log + [Failed(sol, task)];
        return;
      }
      var i := ComputorIndex(sol.extraNonce2);
      stats := stats.(accepted := stats.accepted + 1);
      stats := stats.(shares := stats.shares[i := stats.shares[i] + 1]);
      stats := stats.(passed := stats.passed + 1);
      recentSubmits := recentSubmits + {Key(sol)};
      log := log + [Passed(sol, task)];
    }

    /** The loop body of shareValidationLoop for one popped solution. */
    method Validate(setup: Setup, sol: Solution, active: map<u64, Task>, connected: bool, ghost s: State)
      requires Is(s) && s.v.LoopHead? && s.solutions != [] && s.solutions[0] == sol && s.active == active && s.connected == connected
      requires forall id :: id in active ==> |active[id].partial.header| == 36 && |active[id].partial.nBits| == 4
      requires |stats.shares| == COMPUTORS
      modifies this
      ensures Is(Iteration(setup, s)) && Iteration(setup, s).v.LoopHead?
    {
      hide OnPopSolution, OnClassify;
      PopKeeps(s);
      var duplicate := Count(sol, s);
      if duplicate { return; }
      if sol.jobId !in active {
        stats := stats.(stale := stats.stale + 1);
        log := log + [Stale(sol)];
        return;
      }
      var task := active[sol.jobId];
      log := log + [Found(sol, task)];
      ghost var s2 := OnLookUp(OnPopSolution(s));
      ClassifyKeeps(setup, s2);
      var ok := Check(setup, sol, task, s2);
      if !ok { return; }
      log := log + [if connected then Submitted(sol, task) else Discarded(sol, task)];
    }
  }

  lemma PopKeeps(s: State)
    requires s.solutions != []
    ensures OnPopSolution(s).active == s.active && OnPopSolution(s).connected == s.connected && OnPopSolution(s).stats.shares == s.stats.shares
  {
  }

  lemma ClassifyKeeps(setup: Setup, s: State)
    requires s.v.Looked?
    ensures OnClassify(setup, s).connected == s.connected
  {
  }

  /** The header assembled in the buffer, hashed, and compared byte by byte with the target. */
  method HashMeets(setup: Setup, sol: Solution, task: Task) returns (ok: bool)
    requires |task.partial.header| == 36 && |task.partial.nBits| == 4
    ensures ok == Meets(setup.hash, sol, task)
  {
    hide Bytes.LittleEndian;
    var full := Header.Assemble(task.partial, sol.merkleRoot, sol.nTime, sol.nonce);
    ok := Difficulty.VerifyHash(setup.hash(full[..]), task.targetPool);
  }

  /** A whole iteration is a run of the state machine, so what holds in every run holds of it. */
  lemma IterationIsRun(setup: Setup, s: State) returns (run: seq<Step>)
    requires s.v.LoopHead? && s.solutions != []
    ensures IsRun(setup, s, run) && After(setup, s, run) == Iteration(setup, s)
  {
    hide OnPopSolution, FromFetched;
    PopOutcome(s);
    var s1, rest := OnPopSolution(s), [];
    if s1.v.Fetched? { rest := FetchedIsRun(setup, s1); }
    run := [PopSolution] + rest;
    RunOne(setup, s, PopSolution, rest);
  }

  lemma FetchedIsRun(setup: Setup, s: State) returns (run: seq<Step>)
    requires s.v.Fetched?
    ensures IsRun(setup, s, run) && After(setup, s, run) == FromFetched(setup, s)
  {
    hide OnLookUp, FromLooked;
    LookOutcome(s);
    var s1, rest := OnLookUp(s), [];
    if s1.v.Looked? { rest := LookedIsRun(setup, s1); }
    run := [LookUp] + rest;
    RunOne(setup, s, LookUp, rest);
  }

  lemma LookedIsRun(setup: Setup, s: State) returns (run: seq<Step>)
    requires s.v.Looked?
    ensures IsRun(setup, s, run) && After(setup, s, run) == FromLooked(setup, s)
  {
    hide OnClassify, OnSubmit;
    ClassifyOutcome(setup, s);
    var s1, rest := OnClassify(setup, s), [];
    if s1.v.Winning? {
      rest := [Submit];
      RunOne(setup, s1, Submit, []);
    }
    run := [Classify] + rest;
    RunOne(setup, s, Classify, rest);
  }

  lemma PopOutcome(s: State)
    requires s.v.LoopHead? && s.solutions != []
    ensures OnPopSolution(s).v.LoopHead? || OnPopSolution(s).v.Fetched?
  {
  }

  lemma LookOutcome(s: State)
    requires s.v.Fetched?
    ensures OnLookUp(s).v.LoopHead? || OnLookUp(s).v.Looked?
  {
  }

  lemma ClassifyOutcome(setup: Setup, s: State)
    requires s.v.Looked?
    ensures OnClassify(setup, s).v.LoopHead? || OnClassify(setup, s).v.Winning?
  {
  }

  lemma RunOne(setup: Setup, s: State, step: Step, rest: seq<Step>)
    requires Enabled(s, step) && IsRun(setup, Next(setup, s, step), rest)
    ensures IsRun(setup, s, [step] + rest) && After(setup, s, [step] + rest) == After(setup, Next(setup, s, step), rest)
  {
    hide Next;
    assert ([step] + rest)[1..] == rest;
  }
}
