/** The dispatcher's two worker threads as interleaved atomic steps over the shared task map and the
    two queues: the distributor turns pool messages into active tasks, the validator checks
    solutions against them and submits shares, while the connection to the pool comes and goes and
    every subscription draws a new extra nonce. */
module Dispatcher {
  import opened Wrappers
  import opened Bytes
  import opened Words
  import opened Hex
  import opened SolutionPacket
  import opened DedupeKey
  import Header

  const COMPUTORS := 676

  /** scrypt of an 80-byte header. */
  type HashFunction = seq<byte> -> Bytes32

  // ----- Data -----

  datatype Task = Task(taskId: string, partial: Header.Partial, targetPool: Bytes32, coinbase1: seq<byte>, coinbase2: seq<byte>,
                       extraNonce1: seq<byte>, branches: seq<seq<byte>>)

  /** The parameters of mining.notify. */
  datatype Job = Job(taskId: string, params: Header.Params, coinbase1: string, coinbase2: string, branches: seq<string>, clean: bool)

  datatype Message =
    | SetDifficulty(divisor: u64)
    | Notify(job: Job)
    | Response(accepted: bool)
    | Other

  /** What happened, in order. What goes into a step is logged beside the step, whatever the step
      makes of it: a message queued or taken, the queue found empty, the time of a build, a solution arriving,
      the connection and its nonce. */
  datatype Event =
    | Dropped
    | Opened
    | SessionSet(nonce: seq<byte>)
    | Adopted
    | Queued(m: Message)
    | Took(m: Message)
    | Drained
    | Built(now: u64)
    | Inserted(jobId: u64, task: Task)
    | Arrived(sol: Solution)
    | Skipped(sol: Solution)
    | Counted(sol: Solution)
    | Stale(sol: Solution)
    | Found(sol: Solution, task: Task)
    | Failed(sol: Solution, task: Task)
    | Passed(sol: Solution, task: Task)
    | Submitted(sol: Solution, task: Task)
    | Discarded(sol: Solution, task: Task)

  /** Where the distributor stands. */
  datatype Distributor =
    | Waiting
    | Draining(latest: Job, clean: bool)
    | Building(job: Job)
    | Inserting(jobId: u64, task: Task)

  /** Where the validator stands. */
  datatype Validator =
    | LoopHead
    | Fetched(sol: Solution)
    | Looked(sol: Solution, task: Task)
    | Winning(sol: Solution, task: Task)

  datatype Stats = Stats(received: nat, accepted: nat, rejected: nat, stale: nat, passed: nat, shares: seq<nat>,
                         distributed: nat, poolAccepted: nat, poolRejected: nat)

  /** `extraNonce1` is the dispatcher's copy of the nonce, `session` what the pool holds for the
      connection: nothing until the subscription. */
  datatype State = State(
    messages: seq<Message>, solutions: seq<Solution>, active: map<u64, Task>, target: Bytes32,
    connected: bool, session: Option<seq<byte>>, extraNonce1: seq<byte>,
    d: Distributor, v: Validator, recent: set<string>, lastJob: u64, stats: Stats, log: seq<Event>)

  /** The nonce is that of the subscription made before the threads start. */
  datatype Setup = Setup(hash: HashFunction, base: Bytes32, extraNonce1: seq<byte>)

  // ----- Pure parts of the steps -----

  /** divideTarget of the base target. */
  function TargetFor(base: Bytes32, d: u64): Bytes32 {
    if d <= 1 then base else ToBytes(Bytes.LittleEndian(base) / d, 32)
  }

  function BranchBytes(branches: seq<string>): nat {
    if branches == [] then 0 else 4 + |CppDecode(branches[0])| + BranchBytes(branches[1..])
  }

  function DecodeAll(bs: seq<string>): (r: seq<seq<byte>>)
    ensures |r| == |bs|
  {
    seq(|bs|, i requires 0 <= i < |bs| => CppDecode(bs[i]))
  }

  function PacketSize(job: Job, extraNonce1: seq<byte>): nat {
    8 + 9 + 65 + |extraNonce1| + |CppDecode(job.coinbase1)| + |CppDecode(job.coinbase2)| + BranchBytes(job.branches) + 64
  }

  /** The task kept for a job; None for malformed header fields or a packet too large to send. */
  function TaskFor(job: Job, extraNonce1: seq<byte>, target: Bytes32): Option<Task> {
    var partial := Header.PartialHeader(job.params);
    if partial.None? || PacketSize(job, extraNonce1) > 4096 then None
    else Some(Task(job.taskId, partial.value, target, CppDecode(job.coinbase1), CppDecode(job.coinbase2), extraNonce1, DecodeAll(job.branches)))
  }

  /** What a built task says of its job, nonce and target. */
  lemma BuiltTask(job: Job, extraNonce1: seq<byte>, target: Bytes32)
    ensures var t := TaskFor(job, extraNonce1, target);
      t.Some? ==> t.value.taskId == job.taskId && t.value.extraNonce1 == extraNonce1 && t.value.targetPool == target
  {
    hide PacketSize, Header.PartialHeader;
  }

  function HeaderOf(sol: Solution, task: Task): seq<byte> {
    Header.DispatcherHeader(task.partial, sol.merkleRoot, sol.nTime, sol.nonce)
  }

  /** The header hashes at or below the task's pool target. */
  predicate Meets(hash: HashFunction, sol: Solution, task: Task) {
    Bytes.LittleEndian(hash(HeaderOf(sol, task))) <= Bytes.LittleEndian(task.targetPool)
  }

  function Respond(s: Stats, accepted: bool): Stats {
    if accepted then s.(poolAccepted := s.poolAccepted + 1) else s.(poolRejected := s.poolRejected + 1)
  }

  // ----- Steps -----

  datatype Step =
    | PushMessage(m: Message)
    | PushSolution(sol: Solution)
    | Drop
    | Open
    | Subscribe(nonce: seq<byte>)
    | Adopt
    | PopMessage
    | DrainOne
    | DrainEnd
    | Build(now: u64)
    | Insert
    | PopSolution
    | LookUp
    | Classify
    | Submit

  predicate Enabled(s: State, step: Step) {
    match step
    case PushMessage(_) => true
    case PushSolution(_) => true
    case Drop => true
    case Open => !s.connected
    case Subscribe(_) => s.connected && s.session.None?
    case Adopt => s.session.Some?
    case PopMessage => s.d.Waiting? && s.messages != []
    case DrainOne => s.d.Draining? && s.messages != []
    case DrainEnd => s.d.Draining? && s.messages == []
    case Build(_) => s.d.Building?
    case Insert => s.d.Inserting?
    case PopSolution => s.v.LoopHead? && s.solutions != []
    case LookUp => s.v.Fetched?
    case Classify => s.v.Looked?
    case Submit => s.v.Winning?
  }

  /** One message outside a drain. */
  function OnMessage(setup: Setup, s: State, m: Message): State {
    match m
    case SetDifficulty(d) => s.(target := TargetFor(setup.base, d))
    case Notify(job) => s.(d := Draining(job, job.clean))
    case Response(ok) => s.(stats := Respond(s.stats, ok))
    case Other => s
  }

  /** One message of a drain: only the latest job is kept, any clean flag sticks. */
  function OnDrained(setup: Setup, s: State, m: Message): State
    requires s.d.Draining?
  {
    match m
    case SetDifficulty(d) => s.(target := TargetFor(setup.base, d))
    case Notify(job) => s.(d := Draining(job, s.d.clean || job.clean))
    case Response(ok) => s.(stats := Respond(s.stats, ok))
    case Other => s
  }

  /** The start of distributeTask: a clean job empties the map. */
  function OnDrainEnd(s: State): State
    requires s.d.Draining?
  {
    var s1 := s.(d := Building(s.d.latest));
    if s.d.latest.clean || s.d.clean then s1.(active := map[]) else s1
  }

  function OnBuild(s: State, now: u64): State
    requires s.d.Building?
  {
    match TaskFor(s.d.job, s.extraNonce1, s.target)
    case None => s.(d := Waiting)
    case Some(task) => s.(d := Inserting(now, task))
  }

  function OnInsert(s: State): State
    requires s.d.Inserting?
  {
    s.(d := Waiting, active := s.active[s.d.jobId := s.d.task], log := s.log + [Inserted(s.d.jobId, s.d.task)],
       stats := s.stats.(distributed := s.stats.distributed + 1))
  }

  /** Pop, drop a duplicate silently, otherwise count it and forget the keys of another job. */
  function OnPopSolution(s: State): State
    requires s.solutions != []
  {
    var sol := s.solutions[0];
    var s1 := s.(solutions := s.solutions[1..]);
    if Key(sol) in s.recent then s1.(log := s.log + [Skipped(sol)])
    else
      var s2 := s1.(stats := s.stats.(received := s.stats.received + 1), v := Fetched(sol), log := s.log + [Counted(sol)]);
      if sol.jobId != s.lastJob then s2.(recent := {}, lastJob := sol.jobId) else s2
  }

  function OnLookUp(s: State): State
    requires s.v.Fetched?
  {
    if s.v.sol.jobId !in s.active then
      s.(v := LoopHead, stats := s.stats.(stale := s.stats.stale + 1), log := s.log + [Stale(s.v.sol)])
    else
      var task := s.active[s.v.sol.jobId];
      s.(v := Looked(s.v.sol, task), log := s.log + [Found(s.v.sol, task)])
  }

  function Credit(s: Stats, i: nat): Stats {
    s.(accepted := s.accepted + 1, passed := s.passed + 1, shares := if i < |s.shares| then s.shares[i := s.shares[i] + 1] else s.shares)
  }

  function OnClassify(setup: Setup, s: State): State
    requires s.v.Looked?
  {
    var sol, task := s.v.sol, s.v.task;
    if !Meets(setup.hash, sol, task) then
      s.(v := LoopHead, stats := s.stats.(rejected := s.stats.rejected + 1), log := s.log + [Failed(sol, task)])
    else
      s.(v := Winning(sol, task), stats := Credit(s.stats, ComputorIndex(sol.extraNonce2)),
         recent := s.recent + {Key(sol)}, log := s.log + [Passed(sol, task)])
  }

  function OnSubmit(s: State): State
    requires s.v.Winning?
  {
    if s.connected then s.(v := LoopHead, log := s.log + [Submitted(s.v.sol, s.v.task)])
    else s.(v := LoopHead, log := s.log + [Discarded(s.v.sol, s.v.task)])
  }

  function Log(s: State, e: Event): State {
    s.(log := s.log + [e])
  }

  function Next(setup: Setup, s: State, step: Step): State
    requires Enabled(s, step)
  {
    match step
    case PushMessage(m) => Log(s.(messages := s.messages + [m]), Queued(m))
    case PushSolution(sol) => Log(s.(solutions := s.solutions + [sol]), Arrived(sol))
    case Drop => Log(s.(connected := false), Dropped)
    case Open => Log(s.(connected := true, session := None), Opened)
    case Subscribe(nonce) => Log(s.(session := Some(nonce)), SessionSet(nonce))
    case Adopt => Log(s.(extraNonce1 := s.session.value), Adopted)
    case PopMessage => Log(OnMessage(setup, s.(messages := s.messages[1..]), s.messages[0]), Took(s.messages[0]))
    case DrainOne => Log(OnDrained(setup, s.(messages := s.messages[1..]), s.messages[0]), Took(s.messages[0]))
    case DrainEnd => Log(OnDrainEnd(s), Drained)
    case Build(now) => Log(OnBuild(s, now), Built(now))
    case Insert => OnInsert(s)
    case PopSolution => OnPopSolution(s)
    case LookUp => OnLookUp(s)
    case Classify => OnClassify(setup, s)
    case Submit => OnSubmit(s)
  }

  predicate Initial(setup: Setup, s: State) {
    && s.target == setup.base && s.active == map[] && s.d == Waiting && s.v == LoopHead && s.recent == {} && s.lastJob == 0 && s.log == []
    && s.stats == Stats(0, 0, 0, 0, 0, seq(COMPUTORS, _ => 0), 0, 0, 0)
    && s.connected && s.extraNonce1 == setup.extraNonce1 && s.session == Some(setup.extraNonce1)
  }

  predicate IsRun(setup: Setup, s: State, run: seq<Step>)
    decreases |run|
  {
    run == [] || (Enabled(s, run[0]) && IsRun(setup, Next(setup, s, run[0]), run[1..]))
  }

  function After(setup: Setup, s: State, run: seq<Step>): State
    requires IsRun(setup, s, run)
    decreases |run|
  {
    if run == [] then s else After(setup, Next(setup, s, run[0]), run[1..])
  }

  lemma {:induction false} RunThen(setup: Setup, s: State, run: seq<Step>, step: Step)
    requires IsRun(setup, s, run) && Enabled(After(setup, s, run), step)
    ensures IsRun(setup, s, run + [step]) && After(setup, s, run + [step]) == Next(setup, After(setup, s, run), step)
    decreases |run|
  {
    hide Next;
    if run == [] {
      assert (run + [step])[1..] == [];
    } else {
      assert (run + [step])[1..] == run[1..] + [step];
      RunThen(setup, Next(setup, s, run[0]), run[1..], step);
    }
  }

  lemma EmptyRun(setup: Setup, s: State)
    ensures IsRun(setup, s, []) && After(setup, s, []) == s
  {
  }

  // ----- What a step leaves alone -----

  /** The validator's own steps. */
  predicate IsValidators(step: Step) {
    step.PopSolution? || step.LookUp? || step.Classify? || step.Submit?
  }

  predicate IsDistributors(step: Step) {
    step.PopMessage? || step.DrainOne? || step.DrainEnd? || step.Build? || step.Insert?
  }

  predicate ByValidator(e: Event) {
    e.Skipped? || e.Counted? || e.Stale? || e.Found? || e.Failed? || e.Passed? || e.Submitted? || e.Discarded?
  }

  /** One of the validator's events is logged and only what belongs to the validator changes. */
  predicate OnlyValidator(s: State, t: State, e: Event) {
    && t == s.(solutions := t.solutions, v := t.v, recent := t.recent, lastJob := t.lastJob, stats := t.stats, log := s.log + [e])
    && ByValidator(e)
  }

  /** An event of the others is logged and the validator's memory stays. */
  predicate NotValidator(s: State, t: State, e: Event) {
    t.v == s.v && t.recent == s.recent && t.lastJob == s.lastJob && t.log == s.log + [e] && !ByValidator(e)
  }

  lemma StepIs(setup: Setup, s: State, step: Step)
    requires Enabled(s, step)
    ensures step.PopSolution? ==> Next(setup, s, step) == OnPopSolution(s)
    ensures step.LookUp? ==> Next(setup, s, step) == OnLookUp(s)
    ensures step.Classify? ==> Next(setup, s, step) == OnClassify(setup, s)
    ensures step.Submit? ==> Next(setup, s, step) == OnSubmit(s)
    ensures step.PopMessage? ==> Next(setup, s, step) == Log(OnMessage(setup, s.(messages := s.messages[1..]), s.messages[0]), Took(s.messages[0]))
    ensures step.DrainOne? ==> Next(setup, s, step) == Log(OnDrained(setup, s.(messages := s.messages[1..]), s.messages[0]), Took(s.messages[0]))
    ensures step.DrainEnd? ==> Next(setup, s, step) == Log(OnDrainEnd(s), Drained)
    ensures step.Build? ==> Next(setup, s, step) == Log(OnBuild(s, step.now), Built(step.now))
    ensures step.Insert? ==> Next(setup, s, step) == OnInsert(s)
  {
    hide OnPopSolution, OnLookUp, OnClassify, OnSubmit, OnMessage, OnDrained, OnDrainEnd, OnBuild, OnInsert, Log;
  }

  lemma ValidatorFrame(setup: Setup, s: State, step: Step) returns (e: Event)
    requires Enabled(s, step) && IsValidators(step)
    ensures OnlyValidator(s, Next(setup, s, step), e)
  {
    StepIs(setup, s, step);
    hide Next, OnlyValidator, OnPopSolution, OnLookUp, OnClassify, OnSubmit;
    match step
    case PopSolution => e := PopFrame(s);
    case LookUp => e := LookUpFrame(s);
    case Classify => e := ClassifyFrame(setup, s);
    case Submit => e := SubmitFrame(s);
  }

  lemma PopFrame(s: State) returns (e: Event)
    requires s.solutions != []
    ensures OnlyValidator(s, OnPopSolution(s), e)
  {
    hide Key;
    e := OnPopSolution(s).log[|s.log|];
  }

  lemma LookUpFrame(s: State) returns (e: Event)
    requires s.v.Fetched?
    ensures OnlyValidator(s, OnLookUp(s), e)
  {
    e := OnLookUp(s).log[|s.log|];
  }

  lemma ClassifyFrame(setup: Setup, s: State) returns (e: Event)
    requires s.v.Looked?
    ensures OnlyValidator(s, OnClassify(setup, s), e)
  {
    hide Meets, Key, ComputorIndex, Credit;
    e := OnClassify(setup, s).log[|s.log|];
  }

  lemma SubmitFrame(s: State) returns (e: Event)
    requires s.v.Winning?
    ensures OnlyValidator(s, OnSubmit(s), e)
  {
    e := OnSubmit(s).log[|s.log|];
  }

  lemma OthersFrame(setup: Setup, s: State, step: Step) returns (e: Event)
    requires Enabled(s, step) && !IsValidators(step)
    ensures NotValidator(s, Next(setup, s, step), e)
  {
    if IsDistributors(step) {
      e := DistributorFrame(setup, s, step);
    } else {
      e := EnvironmentFrame(setup, s, step);
    }
  }

  /** What a step of the distributor logs. */
  predicate DistributorsEvent(s: State, step: Step, e: Event)
    requires Enabled(s, step) && IsDistributors(step)
  {
    if step.DrainEnd? then e == Drained
    else if step.Build? then e == Built(step.now)
    else if step.Insert? then e == Inserted(s.d.jobId, s.d.task)
    else e == Took(s.messages[0])
  }

  /** Where the distributor goes: the latest job taken, then its task if one can be built. */
  predicate PlaceMoves(s: State, t: State, step: Step)
    requires Enabled(s, step) && IsDistributors(step)
  {
    match t.d
    case Waiting => step.PopMessage? || step.Insert? || (step.Build? && TaskFor(s.d.job, s.extraNonce1, s.target).None?)
    case Draining(latest, _) =>
      && (step.PopMessage? || step.DrainOne?)
      && (if s.messages[0].Notify? then latest == s.messages[0].job else s.d.Draining? && latest == s.d.latest)
    case Building(job) => step.DrainEnd? && job == s.d.latest
    case Inserting(id, task) =>
      step.Build? && id == step.now && t.target == s.target && TaskFor(s.d.job, s.extraNonce1, s.target) == Some(task)
  }

  /** One of the distributor's events is logged and what belongs to the others stays. */
  predicate OnlyDistributor(s: State, t: State, step: Step, e: Event)
    requires Enabled(s, step) && IsDistributors(step)
  {
    && NotValidator(s, t, e) && DistributorsEvent(s, step, e) && PlaceMoves(s, t, step)
    && t.solutions == s.solutions && t.session == s.session && t.extraNonce1 == s.extraNonce1 && t.connected == s.connected
    && t.messages == (if step.PopMessage? || step.DrainOne? then s.messages[1..] else s.messages)
  }

  lemma DistributorFrame(setup: Setup, s: State, step: Step) returns (e: Event)
    requires Enabled(s, step) && IsDistributors(step)
    ensures OnlyDistributor(s, Next(setup, s, step), step, e)
  {
    StepIs(setup, s, step);
    hide Next, OnlyDistributor, OnMessage, OnDrained, OnDrainEnd, OnBuild, OnInsert, Log;
    e := if step.DrainEnd? then Drained else if step.Build? then Built(step.now)
         else if step.Insert? then Inserted(s.d.jobId, s.d.task) else Took(s.messages[0]);
    match step
    case PopMessage => TookFrame(setup, s);
    case DrainOne => DrainedFrame(setup, s);
    case DrainEnd => EndFrame(s);
    case Build(now) => BuildFrame(s, now);
    case Insert => InsertFrame(s);
  }

  lemma TookFrame(setup: Setup, s: State)
    requires s.d.Waiting? && s.messages != []
    ensures OnlyDistributor(s, Log(OnMessage(setup, s.(messages := s.messages[1..]), s.messages[0]), Took(s.messages[0])), PopMessage, Took(s.messages[0]))
  {
    hide TargetFor, Respond, TaskFor;
  }

  lemma DrainedFrame(setup: Setup, s: State)
    requires s.d.Draining? && s.messages != []
    ensures OnlyDistributor(s, Log(OnDrained(setup, s.(messages := s.messages[1..]), s.messages[0]), Took(s.messages[0])), DrainOne, Took(s.messages[0]))
  {
    hide TargetFor, Respond, TaskFor;
  }

  lemma EndFrame(s: State)
    requires s.d.Draining? && s.messages == []
    ensures OnlyDistributor(s, Log(OnDrainEnd(s), Drained), DrainEnd, Drained)
  {
    hide TaskFor;
  }

  lemma BuildFrame(s: State, now: u64)
    requires s.d.Building?
    ensures OnlyDistributor(s, Log(OnBuild(s, now), Built(now)), Build(now), Built(now))
  {
    hide TaskFor;
  }

  lemma InsertFrame(s: State)
    requires s.d.Inserting?
    ensures OnlyDistributor(s, OnInsert(s), Insert, Inserted(s.d.jobId, s.d.task))
  {
    hide TaskFor;
  }

  lemma EnvironmentFrame(setup: Setup, s: State, step: Step) returns (e: Event)
    requires Enabled(s, step) && !IsValidators(step) && !IsDistributors(step)
    ensures NotValidator(s, Next(setup, s, step), e)
    ensures Next(setup, s, step).d == s.d && Next(setup, s, step).active == s.active && Next(setup, s, step).target == s.target
    ensures !e.Took? && !e.Drained? && !e.Built? && !e.Inserted?
    ensures Next(setup, s, step).connected == if e.Opened? then true else if e.Dropped? then false else s.connected
    ensures Next(setup, s, step).solutions == if e.Arrived? then s.solutions + [e.sol] else s.solutions
    ensures Next(setup, s, step).messages == if e.Queued? then s.messages + [e.m] else s.messages
  {
    hide OnPopSolution, OnLookUp, OnClassify, OnSubmit, OnMessage, OnDrained, OnDrainEnd, OnBuild, OnInsert;
    e := Next(setup, s, step).log[|s.log|];
  }

  // ----- What the log says -----

  /** A clean job was taken since the queue was last found empty. */
  predicate CleanPending(log: seq<Event>) {
    if log == [] then false
    else
      var e := log[|log| - 1];
      if e.Drained? then false
      else (e.Took? && e.m.Notify? && e.m.job.clean) || CleanPending(log[..|log| - 1])
  }

  /** The last job taken. */
  function LastJob(log: seq<Event>): Option<Job> {
    if log == [] then None
    else
      var e := log[|log| - 1];
      if e.Took? && e.m.Notify? then Some(e.m.job) else LastJob(log[..|log| - 1])
  }

  /** The task map: the insertions since a drain with a clean job in it, later ones winning. */
  function ActiveOf(log: seq<Event>): map<u64, Task> {
    if log == [] then map[]
    else
      var front, e := log[..|log| - 1], log[|log| - 1];
      if e.Drained? && CleanPending(front) then map[]
      else if e.Inserted? then ActiveOf(front)[e.jobId := e.task]
      else ActiveOf(front)
  }

  /** The target of the last difficulty taken. */
  function TargetOf(base: Bytes32, log: seq<Event>): Bytes32 {
    if log == [] then base
    else
      var e := log[|log| - 1];
      if e.Took? && e.m.SetDifficulty? then TargetFor(base, e.m.divisor) else TargetOf(base, log[..|log| - 1])
  }

  predicate ConnectedOf(log: seq<Event>) {
    if log == [] then true
    else
      var e := log[|log| - 1];
      if e.Opened? then true else if e.Dropped? then false else ConnectedOf(log[..|log| - 1])
  }

  datatype Kind = KCounted | KStale | KFailed | KPassed | KShare(computor: nat) | KSent | KDiscarded | KInserted | KResponse(accepted: bool)

  predicate IsKind(e: Event, k: Kind) {
    match k
    case KCounted => e.Counted?
    case KStale => e.Stale?
    case KFailed => e.Failed?
    case KPassed => e.Passed?
    case KShare(i) => e.Passed? && ComputorIndex(e.sol.extraNonce2) == i
    case KSent => e.Submitted?
    case KDiscarded => e.Discarded?
    case KInserted => e.Inserted?
    case KResponse(ok) => e == Took(Response(ok))
  }

  function Count(log: seq<Event>, k: Kind): nat {
    if log == [] then 0 else Count(log[..|log| - 1], k) + if IsKind(log[|log| - 1], k) then 1 else 0
  }

  lemma Appended(base: Bytes32, log: seq<Event>, e: Event)
    ensures ActiveOf(log + [e])
      == if e.Drained? && CleanPending(log) then map[] else if e.Inserted? then ActiveOf(log)[e.jobId := e.task] else ActiveOf(log)
    ensures TargetOf(base, log + [e]) == if e.Took? && e.m.SetDifficulty? then TargetFor(base, e.m.divisor) else TargetOf(base, log)
    ensures CleanPending(log + [e]) == if e.Drained? then false else (e.Took? && e.m.Notify? && e.m.job.clean) || CleanPending(log)
    ensures LastJob(log + [e]) == if e.Took? && e.m.Notify? then Some(e.m.job) else LastJob(log)
    ensures ConnectedOf(log + [e]) == if e.Opened? then true else if e.Dropped? then false else ConnectedOf(log)
  {
    hide TargetFor;
    assert (log + [e])[..|log|] == log;
  }

  lemma CountAppended(log: seq<Event>, e: Event)
    ensures forall k :: Count(log + [e], k) == Count(log, k) + if IsKind(e, k) then 1 else 0
  {
    hide ComputorIndex;
    assert (log + [e])[..|log|] == log;
  }

  // ----- Counters -----

  function Sum(s: seq<nat>): nat {
    if s == [] then 0 else s[0] + Sum(s[1..])
  }

  lemma {:induction false} SumIncrement(s: seq<nat>, i: nat)
    requires i < |s|
    ensures Sum(s[i := s[i] + 1]) == Sum(s) + 1
  {
    var t := s[i := s[i] + 1];
    if i == 0 {
      assert t[1..] == s[1..];
    } else {
      assert t[1..] == s[1..][i - 1 := s[1..][i - 1] + 1];
      SumIncrement(s[1..], i - 1);
    }
  }

  lemma {:induction false} SumZeros(n: nat)
    ensures Sum(seq(n, _ => 0)) == 0
  {
    var z: seq<nat> := seq(n, _ => 0);
    if n > 0 {
      assert z[1..] == seq(n - 1, _ => 0);
      SumZeros(n - 1);
    }
  }

  /** Solutions counted but not yet classified. */
  function InFlight(v: Validator): nat {
    if v.Fetched? || v.Looked? then 1 else 0
  }

  /** The counters balance, and each counts its own kind of event. */
  predicate CountersBalance(s: State) {
    && s.stats.received == s.stats.accepted + s.stats.rejected + s.stats.stale + InFlight(s.v)
    && s.stats.accepted == s.stats.passed == Sum(s.stats.shares) && |s.stats.shares| == COMPUTORS
    && s.stats.received == Count(s.log, KCounted) && s.stats.stale == Count(s.log, KStale)
    && s.stats.rejected == Count(s.log, KFailed) && s.stats.accepted == Count(s.log, KPassed)
    && s.stats.accepted == Count(s.log, KSent) + Count(s.log, KDiscarded) + Winners(s.v)
    && s.stats.distributed == Count(s.log, KInserted)
    && s.stats.poolAccepted == Count(s.log, KResponse(true)) && s.stats.poolRejected == Count(s.log, KResponse(false))
    && forall i :: 0 <= i < COMPUTORS ==> s.stats.shares[i] == Count(s.log, KShare(i))
  }

  function One(b: bool): nat {
    if b then 1 else 0
  }

  function Winners(v: Validator): nat {
    if v.Winning? then 1 else 0
  }

  /** Event e is added, each counter moves by it, and the solution in hand moves on with it. */
  predicate Tallied(s: State, t: State, e: Event) {
    && t.log == s.log + [e]
    && t.stats.received == s.stats.received + One(e.Counted?) && t.stats.stale == s.stats.stale + One(e.Stale?)
    && t.stats.rejected == s.stats.rejected + One(e.Failed?)
    && t.stats.accepted == s.stats.accepted + One(e.Passed?) && t.stats.passed == s.stats.passed + One(e.Passed?)
    && t.stats.distributed == s.stats.distributed + One(e.Inserted?)
    && t.stats.poolAccepted == s.stats.poolAccepted + One(e == Took(Response(true)))
    && t.stats.poolRejected == s.stats.poolRejected + One(e == Took(Response(false)))
    && t.stats.shares == (if e.Passed? then Credit(s.stats, ComputorIndex(e.sol.extraNonce2)).shares else s.stats.shares)
    && InFlight(t.v) + One(e.Stale?) + One(e.Failed?) + One(e.Passed?) == InFlight(s.v) + One(e.Counted?)
    && Winners(t.v) + One(e.Submitted?) + One(e.Discarded?) == Winners(s.v) + One(e.Passed?)
  }

  lemma TalliedBalance(s: State, t: State, e: Event)
    requires CountersBalance(s) && Tallied(s, t, e)
    ensures CountersBalance(t)
  {
    hide ComputorIndex, Sum, Count;
    CountAppended(s.log, e);
    if e.Passed? { SumIncrement(s.stats.shares, ComputorIndex(e.sol.extraNonce2)); }
  }

  lemma ValidatorTallies(setup: Setup, s: State, step: Step) returns (e: Event)
    requires Enabled(s, step) && IsValidators(step)
    ensures Tallied(s, Next(setup, s, step), e)
  {
    StepIs(setup, s, step);
    hide Next, Tallied, OnPopSolution, OnLookUp, OnClassify, OnSubmit;
    match step
    case PopSolution => e := PopTallies(s);
    case LookUp => e := LookUpTallies(s);
    case Classify => e := ClassifyTallies(setup, s);
    case Submit => e := SubmitTallies(s);
  }

  lemma PopTallies(s: State) returns (e: Event)
    requires s.v.LoopHead? && s.solutions != []
    ensures Tallied(s, OnPopSolution(s), e)
  {
    hide Key;
    e := OnPopSolution(s).log[|s.log|];
  }

  lemma LookUpTallies(s: State) returns (e: Event)
    requires s.v.Fetched?
    ensures Tallied(s, OnLookUp(s), e)
  {
    e := OnLookUp(s).log[|s.log|];
  }

  lemma ClassifyTallies(setup: Setup, s: State) returns (e: Event)
    requires s.v.Looked?
    ensures Tallied(s, OnClassify(setup, s), e)
  {
    hide Meets, Key, ComputorIndex;
    e := OnClassify(setup, s).log[|s.log|];
  }

  lemma SubmitTallies(s: State) returns (e: Event)
    requires s.v.Winning?
    ensures Tallied(s, OnSubmit(s), e)
  {
    e := OnSubmit(s).log[|s.log|];
  }

  lemma MessageTallies(setup: Setup, s: State, step: Step) returns (e: Event)
    requires Enabled(s, step) && (step.PopMessage? || step.DrainOne?)
    ensures Tallied(s, Next(setup, s, step), e)
  {
    StepIs(setup, s, step);
    hide Next, TargetFor;
    e := Took(s.messages[0]);
  }

  lemma OthersTally(setup: Setup, s: State, step: Step) returns (e: Event)
    requires Enabled(s, step) && !IsValidators(step) && !step.PopMessage? && !step.DrainOne?
    ensures Tallied(s, Next(setup, s, step), e)
  {
    hide TaskFor, OnMessage, OnDrained, OnPopSolution, OnLookUp, OnClassify, OnSubmit;
    e := Next(setup, s, step).log[|s.log|];
  }

  lemma CountersStep(setup: Setup, s: State, step: Step)
    requires Enabled(s, step) && CountersBalance(s)
    ensures CountersBalance(Next(setup, s, step))
  {
    hide CountersBalance, Next, Tallied;
    var e;
    if IsValidators(step) {
      e := ValidatorTallies(setup, s, step);
    } else if step.PopMessage? || step.DrainOne? {
      e := MessageTallies(setup, s, step);
    } else {
      e := OthersTally(setup, s, step);
    }
    TalliedBalance(s, Next(setup, s, step), e);
  }

  // ----- Submissions -----

  /** The task was put into the map before event j. */
  predicate InsertedBefore(log: seq<Event>, j: nat, jobId: u64, task: Task)
    requires j <= |log|
  {
    Inserted(jobId, task) in log[..j]
  }

  lemma {:induction false} ActiveWasInserted(log: seq<Event>, id: u64)
    requires id in ActiveOf(log)
    ensures Inserted(id, ActiveOf(log)[id]) in log
  {
    var front, e := log[..|log| - 1], log[|log| - 1];
    assert log == front + [e];
    if !(e.Inserted? && e.jobId == id) { ActiveWasInserted(front, id); }
  }

  /** What an event says is true of the events before it. */
  predicate Holds(setup: Setup, log: seq<Event>, e: Event) {
    match e
    case Inserted(_, task) => task.targetPool == TargetOf(setup.base, log)
    case Stale(sol) => sol.jobId !in ActiveOf(log)
    case Found(sol, task) => sol.jobId in ActiveOf(log) && ActiveOf(log)[sol.jobId] == task
    case Failed(sol, task) => Found(sol, task) in log && !Meets(setup.hash, sol, task)
    case Passed(sol, task) => Found(sol, task) in log && Meets(setup.hash, sol, task)
    case Submitted(sol, task) => Passed(sol, task) in log && ConnectedOf(log)
    case Discarded(sol, task) => Passed(sol, task) in log && !ConnectedOf(log)
    case _ => true
  }

  predicate SoundLog(setup: Setup, log: seq<Event>) {
    forall j :: 0 <= j < |log| ==> Holds(setup, log[..j], log[j])
  }

  /** The map, the target and the connection are what the log says, and so is the flag of a drain. */
  predicate MapKnown(setup: Setup, s: State) {
    && s.active == ActiveOf(s.log) && s.target == TargetOf(setup.base, s.log) && s.connected == ConnectedOf(s.log)
    && (s.d.Draining? ==> s.d.clean == CleanPending(s.log) && (s.d.latest.clean ==> s.d.clean))
    && (!s.d.Draining? ==> !CleanPending(s.log))
  }

  predicate TasksKnown(setup: Setup, s: State) {
    && MapKnown(setup, s)
    && (s.d.Inserting? ==> s.d.task.targetPool == s.target)
    && (s.v.Looked? ==> Found(s.v.sol, s.v.task) in s.log)
    && (s.v.Winning? ==> Passed(s.v.sol, s.v.task) in s.log)
    && SoundLog(setup, s.log)
  }

  lemma SoundAppend(setup: Setup, log: seq<Event>, e: Event)
    requires SoundLog(setup, log) && Holds(setup, log, e)
    ensures SoundLog(setup, log + [e])
  {
    hide Holds;
    var l := log + [e];
    forall j | 0 <= j < |l| ensures Holds(setup, l[..j], l[j]) {
      assert l[..j] == if j < |log| then log[..j] else log;
    }
  }

  lemma TasksKnownStep(setup: Setup, s: State, step: Step)
    requires Enabled(s, step) && TasksKnown(setup, s)
    ensures TasksKnown(setup, Next(setup, s, step))
  {
    assert MapKnown(setup, s);
    hide TasksKnown, Next, MapKnown;
    if IsValidators(step) {
      ValidatorKeepsMap(setup, s, step);
      ValidatorKnows(setup, s, step);
    } else if IsDistributors(step) {
      DistributorMap(setup, s, step);
      DistributorKnows(setup, s, step);
    } else {
      EnvironmentKeepsMap(setup, s, step);
      EnvironmentKnows(setup, s, step);
    }
  }

  lemma ValidatorKeepsMap(setup: Setup, s: State, step: Step)
    requires Enabled(s, step) && MapKnown(setup, s) && IsValidators(step)
    ensures MapKnown(setup, Next(setup, s, step))
  {
    var e := ValidatorFrame(setup, s, step);
    hide Next, ActiveOf, TargetOf, CleanPending, ConnectedOf, TargetFor;
    Appended(setup.base, s.log, e);
  }

  lemma DistributorMap(setup: Setup, s: State, step: Step)
    requires Enabled(s, step) && MapKnown(setup, s) && IsDistributors(step)
    ensures MapKnown(setup, Next(setup, s, step))
  {
    StepIs(setup, s, step);
    hide Next, MapKnown, OnMessage, OnDrained, OnDrainEnd, OnBuild, OnInsert, Log;
    match step
    case PopMessage => TookMap(setup, s, s.messages[0]);
    case DrainOne => DrainedMap(setup, s, s.messages[0]);
    case DrainEnd => EndMap(setup, s);
    case Build(now) => BuildMap(setup, s, now);
    case Insert => InsertMap(setup, s);
  }

  lemma TookMap(setup: Setup, s: State, m: Message)
    requires s.d.Waiting? && s.messages != [] && MapKnown(setup, s)
    ensures MapKnown(setup, Log(OnMessage(setup, s.(messages := s.messages[1..]), m), Took(m)))
  {
    hide TargetFor, Respond, ActiveOf, TargetOf, CleanPending, ConnectedOf;
    Appended(setup.base, s.log, Took(m));
  }

  lemma DrainedMap(setup: Setup, s: State, m: Message)
    requires s.d.Draining? && s.messages != [] && MapKnown(setup, s)
    ensures MapKnown(setup, Log(OnDrained(setup, s.(messages := s.messages[1..]), m), Took(m)))
  {
    hide TargetFor, Respond, ActiveOf, TargetOf, CleanPending, ConnectedOf;
    Appended(setup.base, s.log, Took(m));
  }

  lemma EndMap(setup: Setup, s: State)
    requires s.d.Draining? && MapKnown(setup, s)
    ensures MapKnown(setup, Log(OnDrainEnd(s), Drained))
  {
    hide TargetFor, ActiveOf, TargetOf, CleanPending, ConnectedOf;
    Appended(setup.base, s.log, Drained);
  }

  lemma BuildMap(setup: Setup, s: State, now: u64)
    requires s.d.Building? && MapKnown(setup, s)
    ensures MapKnown(setup, Log(OnBuild(s, now), Built(now)))
  {
    hide TaskFor, TargetFor, ActiveOf, TargetOf, CleanPending, ConnectedOf;
    Appended(setup.base, s.log, Built(now));
  }

  lemma InsertMap(setup: Setup, s: State)
    requires s.d.Inserting? && MapKnown(setup, s)
    ensures MapKnown(setup, OnInsert(s))
  {
    hide TargetFor, ActiveOf, TargetOf, CleanPending, ConnectedOf;
    Appended(setup.base, s.log, Inserted(s.d.jobId, s.d.task));
  }

  lemma EnvironmentKeepsMap(setup: Setup, s: State, step: Step)
    requires Enabled(s, step) && MapKnown(setup, s) && !IsValidators(step) && !IsDistributors(step)
    ensures MapKnown(setup, Next(setup, s, step))
  {
    var e := EnvironmentFrame(setup, s, step);
    hide Next, TargetFor, ActiveOf, TargetOf, CleanPending, ConnectedOf;
    Appended(setup.base, s.log, e);
  }

  lemma ValidatorKnows(setup: Setup, s: State, step: Step)
    requires Enabled(s, step) && TasksKnown(setup, s) && IsValidators(step) && MapKnown(setup, Next(setup, s, step))
    ensures TasksKnown(setup, Next(setup, s, step))
  {
    StepIs(setup, s, step);
    hide Next, TasksKnown, MapKnown, OnPopSolution, OnLookUp, OnClassify, OnSubmit;
    match step
    case PopSolution => PopKnows(setup, s);
    case LookUp => LookUpKnows(setup, s);
    case Classify => ClassifyKnows(setup, s);
    case Submit => SubmitKnows(setup, s);
  }

  lemma PopKnows(setup: Setup, s: State)
    requires s.v.LoopHead? && s.solutions != [] && TasksKnown(setup, s) && MapKnown(setup, OnPopSolution(s))
    ensures TasksKnown(setup, OnPopSolution(s))
  {
    hide Key, SoundLog, MapKnown;
    SoundAppend(setup, s.log, Skipped(s.solutions[0]));
    SoundAppend(setup, s.log, Counted(s.solutions[0]));
  }

  lemma LookUpKnows(setup: Setup, s: State)
    requires s.v.Fetched? && TasksKnown(setup, s) && MapKnown(setup, OnLookUp(s))
    ensures TasksKnown(setup, OnLookUp(s))
  {
    hide SoundLog, MapKnown, ActiveOf, TargetOf, ConnectedOf, Meets;
    MapIs(setup, s);
    SoundAppend(setup, s.log, OnLookUp(s).log[|s.log|]);
  }

  lemma ClassifyKnows(setup: Setup, s: State)
    requires s.v.Looked? && TasksKnown(setup, s) && MapKnown(setup, OnClassify(setup, s))
    ensures TasksKnown(setup, OnClassify(setup, s))
  {
    hide Meets, Key, ComputorIndex, Credit, SoundLog, MapKnown;
    var e := if Meets(setup.hash, s.v.sol, s.v.task) then Passed(s.v.sol, s.v.task) else Failed(s.v.sol, s.v.task);
    SoundAppend(setup, s.log, e);
  }

  lemma SubmitKnows(setup: Setup, s: State)
    requires s.v.Winning? && TasksKnown(setup, s) && MapKnown(setup, OnSubmit(s))
    ensures TasksKnown(setup, OnSubmit(s))
  {
    hide SoundLog, MapKnown, ConnectedOf, ActiveOf, TargetOf, Meets;
    MapIs(setup, s);
    var e := if s.connected then Submitted(s.v.sol, s.v.task) else Discarded(s.v.sol, s.v.task);
    assert Holds(setup, s.log, e);
    hide Holds;
    SoundAppend(setup, s.log, e);
  }

  lemma MapIs(setup: Setup, s: State)
    requires MapKnown(setup, s)
    ensures s.active == ActiveOf(s.log) && s.connected == ConnectedOf(s.log) && s.target == TargetOf(setup.base, s.log)
  {
    hide ActiveOf, ConnectedOf, TargetOf, CleanPending;
  }

  lemma DistributorKnows(setup: Setup, s: State, step: Step)
    requires Enabled(s, step) && TasksKnown(setup, s) && IsDistributors(step) && MapKnown(setup, Next(setup, s, step))
    ensures TasksKnown(setup, Next(setup, s, step))
  {
    var e := DistributorFrame(setup, s, step);
    hide Next, SoundLog, MapKnown, ActiveOf, TargetOf, ConnectedOf, Meets, TaskFor;
    if step.Build? { BuiltTask(s.d.job, s.extraNonce1, s.target); }
    MapIs(setup, s);
    SoundAppend(setup, s.log, e);
  }

  lemma EnvironmentKnows(setup: Setup, s: State, step: Step)
    requires Enabled(s, step) && TasksKnown(setup, s) && !IsValidators(step) && !IsDistributors(step) && MapKnown(setup, Next(setup, s, step))
    ensures TasksKnown(setup, Next(setup, s, step))
  {
    var e := EnvironmentFrame(setup, s, step);
    hide Next, SoundLog, MapKnown, ActiveOf, TargetOf, ConnectedOf, Meets;
    SoundAppend(setup, s.log, e);
  }

  /** A passing or submitted share names a task inserted before it, live when it was looked up. */
  lemma {:induction false} SubmittedWasInserted(setup: Setup, log: seq<Event>, j: nat)
    requires SoundLog(setup, log) && j < |log| && log[j].Submitted?
    ensures InsertedBefore(log, j, log[j].sol.jobId, log[j].task) && Meets(setup.hash, log[j].sol, log[j].task)
  {
    hide Meets, SoundLog, ActiveOf;
    var m := LookedUpBefore(setup, log, j);
    ActiveWasInserted(log[..m], log[j].sol.jobId);
    var n :| 0 <= n < m && log[..m][n] == Inserted(log[j].sol.jobId, log[j].task);
    assert log[..j][n] == Inserted(log[j].sol.jobId, log[j].task);
  }

  /** The pass and the lookup behind a submission. */
  lemma LookedUpBefore(setup: Setup, log: seq<Event>, j: nat) returns (m: nat)
    requires SoundLog(setup, log) && j < |log| && log[j].Submitted?
    ensures m < j && log[m] == Found(log[j].sol, log[j].task) && Meets(setup.hash, log[j].sol, log[j].task)
    ensures log[j].sol.jobId in ActiveOf(log[..m]) && ActiveOf(log[..m])[log[j].sol.jobId] == log[j].task
  {
    hide Meets, ActiveOf, TargetOf, ConnectedOf;
    var sol, task := log[j].sol, log[j].task;
    assert Holds(setup, log[..j], log[j]);
    var p :| 0 <= p < j && log[..j][p] == Passed(sol, task);
    assert Holds(setup, log[..p], log[p]);
    m :| 0 <= m < p && log[..p][m] == Found(sol, task);
    assert Holds(setup, log[..m], log[m]);
  }

  // ----- Duplicates -----

  /** A counted solution for another job lies between events i and j. */
  predicate OtherJobBetween(log: seq<Event>, i: nat, j: nat, jobId: u64) {
    exists m :: i < m < j && m < |log| && OtherJob(log[m], jobId)
  }

  predicate OtherJob(e: Event, jobId: u64) {
    e.Counted? && e.sol.jobId != jobId
  }

  /** No key passes twice without another job in between. */
  predicate NoRepeats(log: seq<Event>) {
    forall i, j :: 0 <= i < j < |log| && log[i].Passed? && log[j].Passed? && Key(log[i].sol) == Key(log[j].sol)
      ==> OtherJobBetween(log, i, j, log[j].sol.jobId)
  }

  /** A key that passed is remembered until another job is counted. */
  predicate Remembered(s: State) {
    && (forall i :: 0 <= i < |s.log| && s.log[i].Passed? ==> Key(s.log[i].sol) in s.recent || OtherJobBetween(s.log, i, |s.log|, s.log[i].sol.jobId))
    && (forall i :: 0 <= i < |s.log| && s.log[i].Passed? && Key(s.log[i].sol) in s.recent ==> s.log[i].sol.jobId == s.lastJob)
    && (s.v.Fetched? || s.v.Looked? ==> s.v.sol.jobId == s.lastJob && Key(s.v.sol) !in s.recent)
  }

  lemma BetweenLonger(log: seq<Event>, e: Event, i: nat, j: nat, jobId: u64)
    requires OtherJobBetween(log, i, j, jobId)
    ensures OtherJobBetween(log + [e], i, j, jobId) && OtherJobBetween(log + [e], i, j + 1, jobId)
  {
    var m :| i < m < j && m < |log| && OtherJob(log[m], jobId);
    assert OtherJob((log + [e])[m], jobId);
  }

  /** Any event but a count or a pass, with the validator's memory unchanged. */
  lemma QuietAppend(log: seq<Event>, e: Event, recent: set<string>, lastJob: u64)
    requires !e.Passed? && NoRepeats(log)
    requires forall i :: 0 <= i < |log| && log[i].Passed? ==> Key(log[i].sol) in recent || OtherJobBetween(log, i, |log|, log[i].sol.jobId)
    requires forall i :: 0 <= i < |log| && log[i].Passed? && Key(log[i].sol) in recent ==> log[i].sol.jobId == lastJob
    ensures NoRepeats(log + [e])
    ensures var l := log + [e];
      && (forall i :: 0 <= i < |l| && l[i].Passed? ==> Key(l[i].sol) in recent || OtherJobBetween(l, i, |l|, l[i].sol.jobId))
      && (forall i :: 0 <= i < |l| && l[i].Passed? && Key(l[i].sol) in recent ==> l[i].sol.jobId == lastJob)
  {
    hide Key, OtherJobBetween;
    var l := log + [e];
    forall i, j | 0 <= i < j < |l| && l[i].Passed? && l[j].Passed? && Key(l[i].sol) == Key(l[j].sol)
      ensures OtherJobBetween(l, i, j, l[j].sol.jobId)
    {
      assert log[i] == l[i] && log[j] == l[j];
      BetweenLonger(log, e, i, j, l[j].sol.jobId);
    }
    forall i | 0 <= i < |l| && l[i].Passed? ensures Key(l[i].sol) in recent || OtherJobBetween(l, i, |l|, l[i].sol.jobId)
    {
      assert log[i] == l[i];
      if Key(l[i].sol) !in recent { BetweenLonger(log, e, i, |log|, l[i].sol.jobId); }
    }
  }

  /** Counting a solution of another job lets every remembered key be forgotten. */
  lemma ForgetAppend(log: seq<Event>, sol: Solution, recent: set<string>, lastJob: u64, i: nat)
    requires i < |log| && log[i].Passed? && sol.jobId != lastJob
    requires Key(log[i].sol) in recent ==> log[i].sol.jobId == lastJob
    requires Key(log[i].sol) in recent || OtherJobBetween(log, i, |log|, log[i].sol.jobId)
    ensures OtherJobBetween(log + [Counted(sol)], i, |log| + 1, log[i].sol.jobId)
  {
    hide Key;
    var l := log + [Counted(sol)];
    if Key(log[i].sol) in recent {
      assert l[|log|] == Counted(sol);
      assert OtherJob(l[|log|], log[i].sol.jobId);
    } else {
      BetweenLonger(log, Counted(sol), i, |log|, log[i].sol.jobId);
    }
  }

  /** A pass of a key that is not remembered. */
  lemma PassAppend(log: seq<Event>, sol: Solution, task: Task, recent: set<string>, lastJob: u64)
    requires NoRepeats(log) && sol.jobId == lastJob && Key(sol) !in recent
    requires forall i :: 0 <= i < |log| && log[i].Passed? ==> Key(log[i].sol) in recent || OtherJobBetween(log, i, |log|, log[i].sol.jobId)
    requires forall i :: 0 <= i < |log| && log[i].Passed? && Key(log[i].sol) in recent ==> log[i].sol.jobId == lastJob
    ensures NoRepeats(log + [Passed(sol, task)])
    ensures var l, r := log + [Passed(sol, task)], recent + {Key(sol)};
      && (forall i :: 0 <= i < |l| && l[i].Passed? ==> Key(l[i].sol) in r || OtherJobBetween(l, i, |l|, l[i].sol.jobId))
      && (forall i :: 0 <= i < |l| && l[i].Passed? && Key(l[i].sol) in r ==> l[i].sol.jobId == lastJob)
  {
    hide Key, OtherJobBetween;
    var e := Passed(sol, task);
    var l, r := log + [e], recent + {Key(sol)};
    forall i, j | 0 <= i < j < |l| && l[i].Passed? && l[j].Passed? && Key(l[i].sol) == Key(l[j].sol)
      ensures OtherJobBetween(l, i, j, l[j].sol.jobId)
    {
      assert log[i] == l[i];
      KeyInjective(l[i].sol, l[j].sol);
      if j < |log| { assert log[j] == l[j]; }
      BetweenLonger(log, e, i, j, l[j].sol.jobId);
    }
    forall i | 0 <= i < |l| && l[i].Passed? ensures Key(l[i].sol) in r || OtherJobBetween(l, i, |l|, l[i].sol.jobId)
    {
      if i < |log| {
        assert log[i] == l[i];
        if Key(l[i].sol) !in r { BetweenLonger(log, e, i, |log|, l[i].sol.jobId); }
      }
    }
    forall i | 0 <= i < |l| && l[i].Passed? && Key(l[i].sol) in r ensures l[i].sol.jobId == lastJob
    {
      if i < |log| {
        assert log[i] == l[i];
        KeyInjective(l[i].sol, sol);
      }
    }
  }

  lemma RememberedStep(setup: Setup, s: State, step: Step)
    requires Enabled(s, step) && Remembered(s) && NoRepeats(s.log)
    ensures Remembered(Next(setup, s, step)) && NoRepeats(Next(setup, s, step).log)
  {
    StepIs(setup, s, step);
    hide Next, Remembered, NoRepeats, OnPopSolution, OnLookUp, OnClassify, OnSubmit;
    match step
    case PopSolution => CountStep(s);
    case LookUp => LookUpRemembers(s);
    case Classify => ClassifyRemembers(setup, s);
    case Submit => SubmitRemembers(s);
    case _ =>
      var e := OthersFrame(setup, s, step);
      OthersRemember(s, Next(setup, s, step), e);
  }

  lemma OthersRemember(s: State, t: State, e: Event)
    requires Remembered(s) && NoRepeats(s.log) && NotValidator(s, t, e)
    ensures Remembered(t) && NoRepeats(t.log)
  {
    hide Key, OtherJobBetween, NoRepeats;
    QuietAppend(s.log, e, s.recent, s.lastJob);
  }

  lemma LookUpRemembers(s: State)
    requires s.v.Fetched? && Remembered(s) && NoRepeats(s.log)
    ensures Remembered(OnLookUp(s)) && NoRepeats(OnLookUp(s).log)
  {
    hide Key, OtherJobBetween, NoRepeats;
    QuietAppend(s.log, OnLookUp(s).log[|s.log|], s.recent, s.lastJob);
  }

  lemma ClassifyRemembers(setup: Setup, s: State)
    requires s.v.Looked? && Remembered(s) && NoRepeats(s.log)
    ensures Remembered(OnClassify(setup, s)) && NoRepeats(OnClassify(setup, s).log)
  {
    hide Meets, Key, ComputorIndex, Credit, OtherJobBetween, NoRepeats;
    if Meets(setup.hash, s.v.sol, s.v.task) {
      PassAppend(s.log, s.v.sol, s.v.task, s.recent, s.lastJob);
    } else {
      QuietAppend(s.log, Failed(s.v.sol, s.v.task), s.recent, s.lastJob);
    }
  }

  lemma SubmitRemembers(s: State)
    requires s.v.Winning? && Remembered(s) && NoRepeats(s.log)
    ensures Remembered(OnSubmit(s)) && NoRepeats(OnSubmit(s).log)
  {
    hide Key, OtherJobBetween, NoRepeats;
    QuietAppend(s.log, OnSubmit(s).log[|s.log|], s.recent, s.lastJob);
  }

  lemma CountStep(s: State)
    requires s.v.LoopHead? && s.solutions != [] && Remembered(s) && NoRepeats(s.log)
    ensures Remembered(OnPopSolution(s)) && NoRepeats(OnPopSolution(s).log)
  {
    hide Key, OtherJobBetween, NoRepeats;
    var sol := s.solutions[0];
    QuietAppend(s.log, Counted(sol), s.recent, s.lastJob);
    QuietAppend(s.log, Skipped(sol), s.recent, s.lastJob);
    if Key(sol) !in s.recent && sol.jobId != s.lastJob {
      var l := s.log + [Counted(sol)];
      forall i | 0 <= i < |l| && l[i].Passed? ensures OtherJobBetween(l, i, |l|, l[i].sol.jobId) {
        assert s.log[i] == l[i];
        ForgetAppend(s.log, sol, s.recent, s.lastJob, i);
      }
    }
  }

  // ----- What is dropped -----

  /** A share of key k passed at event i, and no solution of another job was counted since. */
  predicate PassedSince(log: seq<Event>, i: nat, k: string) {
    i < |log| && log[i].Passed? && Key(log[i].sol) == k && !OtherJobBetween(log, i, |log|, log[i].sol.jobId)
  }

  ghost predicate OnlyPassed(s: State) {
    forall k :: k in s.recent ==> exists i :: PassedSince(s.log, i, k)
  }

  lemma PassedLonger(log: seq<Event>, e: Event, i: nat, k: string)
    requires PassedSince(log, i, k) && !OtherJob(e, log[i].sol.jobId)
    ensures PassedSince(log + [e], i, k)
  {
    hide Key;
    var l := log + [e];
    forall m | i < m < |l| ensures !OtherJob(l[m], l[i].sol.jobId) {
      if m < |log| { assert log[m] == l[m] && !OtherJob(log[m], log[i].sol.jobId); }
    }
  }

  lemma OnlyPassedStep(setup: Setup, s: State, step: Step)
    requires Enabled(s, step) && OnlyPassed(s) && Remembered(s)
    ensures OnlyPassed(Next(setup, s, step))
  {
    StepIs(setup, s, step);
    hide Next, OnlyPassed, Remembered, OnPopSolution, OnLookUp, OnClassify, OnSubmit;
    match step
    case PopSolution => PopPassed(s);
    case LookUp => LookUpPassed(s);
    case Classify => ClassifyPassed(setup, s);
    case Submit => SubmitPassed(s);
    case _ =>
      var e := OthersFrame(setup, s, step);
      OthersPassed(s, Next(setup, s, step), e);
  }

  /** One event more, and no key but that of a share passing now. */
  lemma PassedAppend(s: State, e: Event, recent: set<string>)
    requires OnlyPassed(s) && Remembered(s) && recent <= s.recent + (if e.Passed? then {Key(e.sol)} else {})
    requires e.Counted? && recent != {} ==> e.sol.jobId == s.lastJob
    ensures forall k :: k in recent ==> exists i :: PassedSince(s.log + [e], i, k)
  {
    hide Key, OtherJobBetween, PassedSince, OtherJob, Remembered;
    forall k | k in recent ensures exists i :: PassedSince(s.log + [e], i, k) {
      if k in s.recent {
        var i :| PassedSince(s.log, i, k);
        SameJob(s, i, k, e);
        PassedLonger(s.log, e, i, k);
      } else {
        PassedNow(s.log, e);
        assert PassedSince(s.log + [e], |s.log|, k);
      }
    }
  }

  lemma OthersPassed(s: State, t: State, e: Event)
    requires OnlyPassed(s) && Remembered(s) && NotValidator(s, t, e)
    ensures OnlyPassed(t)
  {
    hide PassedSince, Remembered;
    PassedAppend(s, e, t.recent);
  }

  lemma LookUpPassed(s: State)
    requires s.v.Fetched? && OnlyPassed(s) && Remembered(s)
    ensures OnlyPassed(OnLookUp(s))
  {
    hide PassedSince, Remembered;
    PassedAppend(s, OnLookUp(s).log[|s.log|], s.recent);
  }

  lemma SubmitPassed(s: State)
    requires s.v.Winning? && OnlyPassed(s) && Remembered(s)
    ensures OnlyPassed(OnSubmit(s))
  {
    hide PassedSince, Remembered;
    PassedAppend(s, OnSubmit(s).log[|s.log|], s.recent);
  }

  lemma ClassifyPassed(setup: Setup, s: State)
    requires s.v.Looked? && OnlyPassed(s) && Remembered(s)
    ensures OnlyPassed(OnClassify(setup, s))
  {
    hide Meets, Key, ComputorIndex, Credit, PassedSince, Remembered;
    var t := OnClassify(setup, s);
    PassedAppend(s, t.log[|s.log|], t.recent);
  }

  lemma PopPassed(s: State)
    requires s.v.LoopHead? && s.solutions != [] && OnlyPassed(s) && Remembered(s)
    ensures OnlyPassed(OnPopSolution(s))
  {
    hide Key, PassedSince, Remembered;
    var t := OnPopSolution(s);
    PassedAppend(s, t.log[|s.log|], t.recent);
  }

  lemma SameJob(s: State, i: nat, k: string, e: Event)
    requires Remembered(s) && k in s.recent && PassedSince(s.log, i, k) && (e.Counted? ==> e.sol.jobId == s.lastJob)
    ensures !OtherJob(e, s.log[i].sol.jobId)
  {
    hide Key, OtherJobBetween;
  }

  lemma PassedNow(log: seq<Event>, e: Event)
    requires e.Passed?
    ensures PassedSince(log + [e], |log|, Key(e.sol))
  {
    hide Key;
  }

  /** A solution is skipped exactly when a share with its key passed and no other job was counted
      since. */
  ghost predicate SkipHolds(log: seq<Event>, e: Event) {
    && (e.Skipped? ==> exists i :: PassedSince(log, i, Key(e.sol)))
    && (e.Counted? ==> forall i :: !PassedSince(log, i, Key(e.sol)))
  }

  ghost predicate SkipsSound(log: seq<Event>) {
    forall j :: 0 <= j < |log| ==> SkipHolds(log[..j], log[j])
  }

  lemma SkipAppend(log: seq<Event>, e: Event)
    requires SkipsSound(log) && SkipHolds(log, e)
    ensures SkipsSound(log + [e])
  {
    hide SkipHolds;
    var l := log + [e];
    forall j | 0 <= j < |l| ensures SkipHolds(l[..j], l[j]) {
      assert l[..j] == if j < |log| then log[..j] else log;
    }
  }

  /** What is remembered is what passed with no other job counted since. */
  lemma RecentExactly(s: State, k: string)
    requires OnlyPassed(s) && Remembered(s)
    ensures k in s.recent <==> exists i :: PassedSince(s.log, i, k)
  {
    hide Key, OtherJobBetween;
  }

  lemma SkipsStep(setup: Setup, s: State, step: Step)
    requires Enabled(s, step) && OnlyPassed(s) && Remembered(s) && SkipsSound(s.log)
    ensures SkipsSound(Next(setup, s, step).log)
  {
    hide OnlyPassed, Remembered, SkipsSound;
    if step.PopSolution? {
      StepIs(setup, s, step);
      hide Next;
      RecentExactly(s, Key(s.solutions[0]));
      hide Key, PassedSince;
      SkipAppend(s.log, OnPopSolution(s).log[|s.log|]);
    } else {
      hide PassedSince;
      var e := OtherEvent(setup, s, step);
      hide Next;
      SkipAppend(s.log, e);
    }
  }

  lemma OtherEvent(setup: Setup, s: State, step: Step) returns (e: Event)
    requires Enabled(s, step) && !step.PopSolution?
    ensures Next(setup, s, step).log == s.log + [e] && !e.Skipped? && !e.Counted?
  {
    if IsValidators(step) {
      StepIs(setup, s, step);
      hide Next, Meets, Key, ComputorIndex, Credit, OnPopSolution;
      e := Next(setup, s, step).log[|s.log|];
    } else {
      e := OthersFrame(setup, s, step);
      hide Next;
    }
  }

  lemma {:induction false} OnlyPassedInRun(setup: Setup, s: State, run: seq<Step>)
    requires OnlyPassed(s) && Remembered(s) && NoRepeats(s.log) && SkipsSound(s.log) && IsRun(setup, s, run)
    ensures OnlyPassed(After(setup, s, run)) && Remembered(After(setup, s, run)) && SkipsSound(After(setup, s, run).log)
    decreases |run|
  {
    hide OnlyPassed, Remembered, NoRepeats, SkipsSound, Next;
    if run != [] {
      OnlyPassedStep(setup, s, run[0]);
      SkipsStep(setup, s, run[0]);
      RememberedStep(setup, s, run[0]);
      OnlyPassedInRun(setup, Next(setup, s, run[0]), run[1..]);
    }
  }

  /** In every run, a solution taken from the queue is skipped exactly when a share of the same job,
      nonce and extraNonce2 passed and no solution of another job was counted since; the next one
      taken would be skipped exactly then too. */
  lemma DroppedExactly(setup: Setup, s: State, run: seq<Step>, sol: Solution)
    requires Initial(setup, s) && IsRun(setup, s, run)
    ensures SkipsSound(After(setup, s, run).log)
    ensures Key(sol) in After(setup, s, run).recent <==> exists i :: PassedSince(After(setup, s, run).log, i, Key(sol))
  {
    OnlyPassedInRun(setup, s, run);
    hide After, IsRun, OnlyPassed, Remembered, SkipsSound;
    RecentExactly(After(setup, s, run), Key(sol));
  }

  // ----- Every run -----

  predicate Safe(setup: Setup, s: State) {
    CountersBalance(s) && TasksKnown(setup, s) && Remembered(s) && NoRepeats(s.log)
  }

  lemma InitialIsSafe(setup: Setup, s: State)
    requires Initial(setup, s)
    ensures Safe(setup, s)
  {
    SumZeros(COMPUTORS);
  }

  lemma {:induction false} StaysSafe(setup: Setup, s: State, run: seq<Step>)
    requires Safe(setup, s) && IsRun(setup, s, run)
    ensures Safe(setup, After(setup, s, run))
    decreases |run|
  {
    hide CountersBalance, TasksKnown, Remembered, NoRepeats, Next;
    if run != [] {
      CountersStep(setup, s, run[0]);
      TasksKnownStep(setup, s, run[0]);
      RememberedStep(setup, s, run[0]);
      StaysSafe(setup, Next(setup, s, run[0]), run[1..]);
    }
  }

  /** In every interleaving: a submission names a task inserted before it and its header hashes at
      or below that task's target; the map, the targets and the counters are what the log says; at
      the validator's loop head every counted solution is accepted, rejected or stale, and the
      accepted ones are exactly the shares credited; a key passes twice only across a counted
      solution of another job. */
  lemma EveryRunIsSafe(setup: Setup, s: State, run: seq<Step>)
    requires Initial(setup, s) && IsRun(setup, s, run)
    ensures var t := After(setup, s, run);
      && (forall j :: 0 <= j < |t.log| && t.log[j].Submitted? ==>
            InsertedBefore(t.log, j, t.log[j].sol.jobId, t.log[j].task) && Meets(setup.hash, t.log[j].sol, t.log[j].task))
      && SoundLog(setup, t.log)
      && (t.v.LoopHead? ==> t.stats.received == t.stats.accepted + t.stats.rejected + t.stats.stale)
      && t.stats.accepted == t.stats.passed == Sum(t.stats.shares) && CountersBalance(t)
      && NoRepeats(t.log)
  {
    InitialIsSafe(setup, s);
    StaysSafe(setup, s, run);
    hide Meets, NoRepeats, InsertedBefore, SoundLog;
    var t := After(setup, s, run);
    forall j | 0 <= j < |t.log| && t.log[j].Submitted?
      ensures InsertedBefore(t.log, j, t.log[j].sol.jobId, t.log[j].task) && Meets(setup.hash, t.log[j].sol, t.log[j].task)
    {
      SubmittedWasInserted(setup, t.log, j);
    }
  }

  // ----- Where tasks come from -----

  /** The task was built from one of the jobs. */
  predicate FromJobs(jobs: set<Job>, task: Task) {
    exists job :: job in jobs && TaskFor(job, task.extraNonce1, task.targetPool) == Some(task)
  }

  /** Every job waiting, in hand or behind a task is one of `jobs`. */
  predicate JobsKnown(jobs: set<Job>, s: State) {
    && (forall m :: m in s.messages && m.Notify? ==> m.job in jobs)
    && (s.d.Draining? ==> s.d.latest in jobs) && (s.d.Building? ==> s.d.job in jobs)
    && (s.d.Inserting? ==> FromJobs(jobs, s.d.task))
    && (forall e :: e in s.log && e.Inserted? ==> FromJobs(jobs, e.task))
  }

  /** Every job the pool announces in the run is one of `jobs`. */
  predicate Announces(jobs: set<Job>, step: Step) {
    step.PushMessage? && step.m.Notify? ==> step.m.job in jobs
  }

  lemma JobsKnownStep(setup: Setup, jobs: set<Job>, s: State, step: Step)
    requires Enabled(s, step) && JobsKnown(jobs, s) && Announces(jobs, step)
    ensures JobsKnown(jobs, Next(setup, s, step))
  {
    if IsValidators(step) {
      var e := ValidatorFrame(setup, s, step);
      hide Next, FromJobs;
    } else {
      OthersKnowJobs(setup, jobs, s, step);
    }
  }

  lemma OthersKnowJobs(setup: Setup, jobs: set<Job>, s: State, step: Step)
    requires Enabled(s, step) && JobsKnown(jobs, s) && Announces(jobs, step) && !IsValidators(step)
    ensures JobsKnown(jobs, Next(setup, s, step))
  {
    if IsDistributors(step) {
      var e := DistributorFrame(setup, s, step);
      hide Next, TaskFor, FromJobs;
      if step.Build? { BuiltFromJob(jobs, s.d.job, s.extraNonce1, s.target); }
    } else {
      var e := EnvironmentFrame(setup, s, step);
      hide FromJobs, OnPopSolution, OnLookUp, OnClassify, OnSubmit, OnMessage, OnDrained, OnDrainEnd, OnBuild, OnInsert;
    }
  }

  lemma BuiltFromJob(jobs: set<Job>, job: Job, extraNonce1: seq<byte>, target: Bytes32)
    requires job in jobs
    ensures TaskFor(job, extraNonce1, target).Some? ==> FromJobs(jobs, TaskFor(job, extraNonce1, target).value)
  {
    hide PacketSize, Header.PartialHeader;
  }

  lemma {:induction false} JobsStayKnown(setup: Setup, jobs: set<Job>, s: State, run: seq<Step>)
    requires JobsKnown(jobs, s) && IsRun(setup, s, run) && forall i :: 0 <= i < |run| ==> Announces(jobs, run[i])
    ensures JobsKnown(jobs, After(setup, s, run))
    decreases |run|
  {
    hide JobsKnown, Next, Announces;
    if run != [] {
      JobsKnownStep(setup, jobs, s, run[0]);
      JobsStayKnown(setup, jobs, Next(setup, s, run[0]), run[1..]);
    }
  }

  /** In every run, a submitted share is for a task built from a job the pool announced. */
  lemma SubmittedForJob(setup: Setup, jobs: set<Job>, s: State, run: seq<Step>, j: nat)
    requires Initial(setup, s) && IsRun(setup, s, run) && j < |After(setup, s, run).log| && After(setup, s, run).log[j].Submitted?
    requires forall m :: m in s.messages && m.Notify? ==> m.job in jobs
    requires forall i :: 0 <= i < |run| ==> Announces(jobs, run[i])
    ensures FromJobs(jobs, After(setup, s, run).log[j].task)
  {
    JobsStayKnown(setup, jobs, s, run);
    EveryRunIsSafe(setup, s, run);
    hide FromJobs, Meets, After, IsRun, SoundLog, CountersBalance, NoRepeats, Sum, Announces;
    var log := After(setup, s, run).log;
    assert Inserted(log[j].sol.jobId, log[j].task) in log;
  }

  // ----- Sessions -----

  /** The nonce the pool holds for the connection. */
  function SessionOf(setup: Setup, log: seq<Event>): Option<seq<byte>> {
    if log == [] then Some(setup.extraNonce1)
    else
      var e := log[|log| - 1];
      if e.Opened? then None else if e.SessionSet? then Some(e.nonce) else SessionOf(setup, log[..|log| - 1])
  }

  /** The nonce was given out in some subscription. */
  predicate Drawn(setup: Setup, log: seq<Event>, nonce: seq<byte>) {
    nonce == setup.extraNonce1 || SessionSet(nonce) in log
  }

  predicate NonceHolds(setup: Setup, log: seq<Event>, e: Event) {
    match e
    case Inserted(_, task) => Drawn(setup, log, task.extraNonce1)
    case SessionSet(_) => SessionOf(setup, log).None?
    case _ => true
  }

  predicate NoncesSound(setup: Setup, log: seq<Event>) {
    forall j :: 0 <= j < |log| ==> NonceHolds(setup, log[..j], log[j])
  }

  predicate SessionsKnown(setup: Setup, s: State) {
    && s.session == SessionOf(setup, s.log) && Drawn(setup, s.log, s.extraNonce1)
    && (s.session.Some? ==> Drawn(setup, s.log, s.session.value))
    && (s.d.Inserting? ==> Drawn(setup, s.log, s.d.task.extraNonce1))
    && NoncesSound(setup, s.log)
  }

  lemma NonceAppend(setup: Setup, log: seq<Event>, e: Event)
    requires NoncesSound(setup, log) && NonceHolds(setup, log, e)
    ensures NoncesSound(setup, log + [e])
    ensures SessionOf(setup, log + [e]) == if e.Opened? then None else if e.SessionSet? then Some(e.nonce) else SessionOf(setup, log)
    ensures forall n :: Drawn(setup, log + [e], n) <==> Drawn(setup, log, n) || e == SessionSet(n)
  {
    hide NonceHolds;
    var l := log + [e];
    assert l[..|log|] == log;
    forall j | 0 <= j < |l| ensures NonceHolds(setup, l[..j], l[j]) {
      assert l[..j] == if j < |log| then log[..j] else log;
    }
  }

  lemma SessionsKnownStep(setup: Setup, s: State, step: Step)
    requires Enabled(s, step) && SessionsKnown(setup, s)
    ensures SessionsKnown(setup, Next(setup, s, step))
  {
    hide SessionsKnown, Next;
    if IsValidators(step) {
      ValidatorKeepsSession(setup, s, step);
    } else {
      OthersKeepSession(setup, s, step);
    }
  }

  lemma ValidatorKeepsSession(setup: Setup, s: State, step: Step)
    requires Enabled(s, step) && SessionsKnown(setup, s) && IsValidators(step)
    ensures SessionsKnown(setup, Next(setup, s, step))
  {
    var e := ValidatorFrame(setup, s, step);
    hide Next, NoncesSound, SessionOf, Drawn;
    NonceAppend(setup, s.log, e);
  }

  lemma OthersKeepSession(setup: Setup, s: State, step: Step)
    requires Enabled(s, step) && SessionsKnown(setup, s) && !IsValidators(step)
    ensures SessionsKnown(setup, Next(setup, s, step))
  {
    if IsDistributors(step) {
      DistributorKeepsSession(setup, s, step);
    } else {
      EnvironmentKeepsSession(setup, s, step);
    }
  }

  lemma DistributorKeepsSession(setup: Setup, s: State, step: Step)
    requires Enabled(s, step) && SessionsKnown(setup, s) && IsDistributors(step)
    ensures SessionsKnown(setup, Next(setup, s, step))
  {
    var e := DistributorFrame(setup, s, step);
    hide Next, TaskFor, NoncesSound, SessionOf, Drawn;
    if step.Build? { BuiltTask(s.d.job, s.extraNonce1, s.target); }
    NonceAppend(setup, s.log, e);
  }

  lemma EnvironmentKeepsSession(setup: Setup, s: State, step: Step)
    requires Enabled(s, step) && SessionsKnown(setup, s) && !IsValidators(step) && !IsDistributors(step)
    ensures SessionsKnown(setup, Next(setup, s, step))
  {
    hide NoncesSound, SessionOf, Drawn, OnPopSolution, OnLookUp, OnClassify, OnSubmit, OnMessage, OnDrained, OnDrainEnd, OnBuild, OnInsert;
    NonceAppend(setup, s.log, Next(setup, s, step).log[|s.log|]);
  }

  lemma {:induction false} SessionsStayKnown(setup: Setup, s: State, run: seq<Step>)
    requires SessionsKnown(setup, s) && IsRun(setup, s, run)
    ensures SessionsKnown(setup, After(setup, s, run))
    decreases |run|
  {
    hide SessionsKnown, Next;
    if run != [] {
      SessionsKnownStep(setup, s, run[0]);
      SessionsStayKnown(setup, Next(setup, s, run[0]), run[1..]);
    }
  }

  /** No new connection, no new nonce. */
  lemma {:induction false} FirstSession(setup: Setup, log: seq<Event>)
    requires NoncesSound(setup, log) && Opened !in log
    ensures SessionOf(setup, log) == Some(setup.extraNonce1) && forall n :: SessionSet(n) !in log
    decreases |log|
  {
    if log != [] {
      var front, e := log[..|log| - 1], log[|log| - 1];
      assert forall j :: 0 <= j < |front| ==> front[..j] == log[..j];
      FirstSession(setup, front);
      assert NonceHolds(setup, log[..|log| - 1], log[|log| - 1]);
      assert log == front + [e];
    }
  }

  /** In every run, a share submitted before any new connection is for a task with the nonce the
      pool holds; a task's nonce was always given out in some subscription. */
  lemma SubmittedInSession(setup: Setup, s: State, run: seq<Step>, j: nat)
    requires Initial(setup, s) && IsRun(setup, s, run) && j < |After(setup, s, run).log| && After(setup, s, run).log[j].Submitted?
    ensures var log := After(setup, s, run).log;
      && Drawn(setup, log[..j], log[j].task.extraNonce1)
      && (Opened !in log[..j] ==> SessionOf(setup, log[..j]) == Some(log[j].task.extraNonce1))
  {
    SessionsStayKnown(setup, s, run);
    EveryRunIsSafe(setup, s, run);
    hide Meets, After, IsRun, SoundLog, CountersBalance, NoRepeats, Sum, SessionOf, Drawn;
    var log := After(setup, s, run).log;
    InsertedInSession(setup, log, j, log[j].sol.jobId, log[j].task);
  }

  lemma InsertedInSession(setup: Setup, log: seq<Event>, j: nat, jobId: u64, task: Task)
    requires NoncesSound(setup, log) && j <= |log| && InsertedBefore(log, j, jobId, task)
    ensures Drawn(setup, log[..j], task.extraNonce1)
    ensures Opened !in log[..j] ==> SessionOf(setup, log[..j]) == Some(task.extraNonce1)
  {
    hide SessionOf;
    var l := log[..j];
    assert forall k :: 0 <= k < j ==> l[..k] == log[..k];
    var i :| 0 <= i < j && l[i] == Inserted(jobId, task);
    assert NonceHolds(setup, log[..i], log[i]);
    if SessionSet(task.extraNonce1) in log[..i] {
      var k :| 0 <= k < i && log[..i][k] == SessionSet(task.extraNonce1);
      assert l[k] == SessionSet(task.extraNonce1);
    }
    if Opened !in l { FirstSession(setup, l); }
  }
}
