/** Runs that submit a share the pool rebuilds differently: with another merkle root, and with the
    right root after a new connection. */
module PoolRuns {
  import opened Wrappers
  import opened Bytes
  import opened Words
  import opened Hex
  import opened SolutionPacket
  import opened DedupeKey
  import opened Dispatcher
  import opened Merkle
  import opened PoolShare
  import Header
  import Sha256

  /** A job announced and taken from the queue. */
  lemma JobDrained(setup: Setup, s: State, job: Job) returns (run: seq<Step>)
    requires Initial(setup, s) && s.messages == []
    ensures IsRun(setup, s, run) && forall i :: 0 <= i < |run| ==> Announces({job}, run[i])
    ensures After(setup, s, run) == s.(d := Draining(job, job.clean), log := [Queued(Notify(job)), Took(Notify(job))])
  {
    hide IsRun, After;
    EmptyRun(setup, s);
    RunThen(setup, s, [], PushMessage(Notify(job)));
    var r := [] + [PushMessage(Notify(job))];
    RunThen(setup, s, r, PopMessage);
    run := r + [PopMessage];
  }

  /** The distributor's part of a run: one job announced, built and inserted. */
  lemma JobInserted(setup: Setup, s: State, job: Job, task: Task, id: u64) returns (run: seq<Step>)
    requires Initial(setup, s) && s.messages == [] && TaskFor(job, setup.extraNonce1, setup.base) == Some(task)
    ensures IsRun(setup, s, run) && forall i :: 0 <= i < |run| ==> Announces({job}, run[i])
    ensures var t := After(setup, s, run);
      && t.d.Waiting? && t.v.LoopHead? && t.solutions == s.solutions && t.recent == {} && id in t.active && t.active[id] == task
      && t.connected == s.connected && Opened !in t.log
  {
    hide IsRun, After, TaskFor;
    var r0 := JobDrained(setup, s, job);
    RunThen(setup, s, r0, DrainEnd);
    var r1 := r0 + [DrainEnd];
    RunThen(setup, s, r1, Build(id));
    var r2 := r1 + [Build(id)];
    RunThen(setup, s, r2, Insert);
    run := r2 + [Insert];
  }

  /** A solution taken from the queue while its task is active. */
  lemma SolutionFetched(setup: Setup, s: State, job: Job, task: Task, sol: Solution) returns (run: seq<Step>)
    requires Initial(setup, s) && s.messages == [] && s.solutions == [] && TaskFor(job, setup.extraNonce1, setup.base) == Some(task)
    ensures IsRun(setup, s, run) && forall i :: 0 <= i < |run| ==> Announces({job}, run[i])
    ensures var t := After(setup, s, run);
      t.v == Fetched(sol) && sol.jobId in t.active && t.active[sol.jobId] == task && t.connected == s.connected && Opened !in t.log
  {
    hide IsRun, After, TaskFor, Key;
    var r0 := JobInserted(setup, s, job, task, sol.jobId);
    RunThen(setup, s, r0, PushSolution(sol));
    var r1 := r0 + [PushSolution(sol)];
    RunThen(setup, s, r1, PopSolution);
    run := r1 + [PopSolution];
  }

  /** The validator's part: a solution that meets the target of the job is about to be submitted. */
  lemma ShareWins(setup: Setup, s: State, job: Job, task: Task, sol: Solution) returns (run: seq<Step>)
    requires Initial(setup, s) && s.messages == [] && s.solutions == [] && TaskFor(job, setup.extraNonce1, setup.base) == Some(task)
    requires Meets(setup.hash, sol, task)
    ensures IsRun(setup, s, run) && forall i :: 0 <= i < |run| ==> Announces({job}, run[i])
    ensures After(setup, s, run).v == Winning(sol, task) && After(setup, s, run).connected == s.connected && Opened !in After(setup, s, run).log
  {
    hide IsRun, After, TaskFor, Meets, Key, ComputorIndex, Credit;
    var r0 := SolutionFetched(setup, s, job, task, sol);
    RunThen(setup, s, r0, LookUp);
    var r1 := r0 + [LookUp];
    RunThen(setup, s, r1, Classify);
    run := r1 + [Classify];
  }

  /** Any solution whose stated header meets the target of an announced job is submitted in some
      run, whatever merkle root it states, over the first connection. */
  lemma AnyRootSubmitted(setup: Setup, s: State, job: Job, task: Task, sol: Solution) returns (run: seq<Step>, j: nat)
    requires Initial(setup, s) && s.connected && s.messages == [] && s.solutions == []
    requires TaskFor(job, setup.extraNonce1, setup.base) == Some(task) && Meets(setup.hash, sol, task)
    ensures IsRun(setup, s, run) && forall i :: 0 <= i < |run| ==> Announces({job}, run[i])
    ensures var log := After(setup, s, run).log; j < |log| && log[j] == Submitted(sol, task) && Opened !in log[..j]
  {
    hide IsRun, After, TaskFor, Meets;
    var r := ShareWins(setup, s, job, task, sol);
    RunThen(setup, s, r, Submit);
    run, j := r + [Submit], |After(setup, s, r).log|;
  }

  /** ... and also over a later connection, with any nonce. */
  lemma AnyNonceSubmitted(setup: Setup, s: State, job: Job, task: Task, sol: Solution, nonce: seq<byte>) returns (run: seq<Step>, j: nat)
    requires Initial(setup, s) && s.messages == [] && s.solutions == []
    requires TaskFor(job, setup.extraNonce1, setup.base) == Some(task) && Meets(setup.hash, sol, task)
    ensures IsRun(setup, s, run) && forall i :: 0 <= i < |run| ==> Announces({job}, run[i])
    ensures var log := After(setup, s, run).log; j < |log| && log[j] == Submitted(sol, task) && SessionOf(setup, log[..j]) == Some(nonce)
  {
    hide IsRun, After, TaskFor, Meets;
    var r0 := ShareWins(setup, s, job, task, sol);
    RunThen(setup, s, r0, Drop);
    var r1 := r0 + [Drop];
    RunThen(setup, s, r1, Open);
    var r2 := r1 + [Open];
    RunThen(setup, s, r2, Subscribe(nonce));
    var r3 := r2 + [Subscribe(nonce)];
    RunThen(setup, s, r3, Submit);
    run := r3 + [Submit];
    var log := After(setup, s, r3).log;
    j := |log|;
    assert After(setup, s, run).log[..j] == log && log[j - 1] == SessionSet(nonce);
  }

  // ----- A share with another root -----

  /** A job with an empty block and an empty coinbase. */
  function SampleJob(): PoolJob {
    PoolJob(Header.Template(1, seq(64, _ => '0'), seq(8, _ => '0'), 0), [], [], [])
  }

  lemma {:induction false} SampleAnnounced(f: Sha256.Compression, extraNonce1: Bytes4, target: Bytes32) returns (job: Job, task: Task)
    ensures Announced(f, SampleJob(), job) && TaskFor(job, extraNonce1, target) == Some(task)
  {
    hide Header.PoolHeader, Header.PartialHeader, Header.Parameters, Header.DispatcherHeader;
    var p := SampleJob();
    Header.HeadersAgree(p.t, Zeros(32), Zeros(32), Zeros(4), Zeros(4));
    job := Job("1", Header.Parameters(p.t).value, HexOf([]), HexOf([]), HexAll(Steps(ShaHash(f), [])), false);
    assert job.branches == [];
    task := TaskFor(job, extraNonce1, target).value;
  }

  /** A root other than the given one. */
  function OtherRoot(r: Bytes32): (o: Bytes32)
    ensures o != r
  {
    if r[0] == 0 then r[0 := 1] else r[0 := 0]
  }

  function LowOnlyAt(header: seq<byte>): HashFunction {
    m => if m == header then Zeros(32) else Zeros(31) + [1]
  }

  lemma {:induction false} OneIsAbove(n: nat)
    ensures Bytes.LittleEndian(Zeros(n) + [1]) > 0 && Bytes.LittleEndian(Zeros(n + 1)) == 0
  {
    hide Bytes.LittleEndian, Pow2;
    ZeroValue(n);
    ZeroValue(n + 1);
    LittleEndianAppend(Zeros(n), [1]);
    LittleEndianBound([1][1..]);
    FirstByte([1]);
    ProductBound(1, 1, Pow2(8 * n), Bytes.LittleEndian([1]));
  }

  /** The program as it starts, connected and with nothing queued. */
  function Start(setup: Setup): (s: State)
    ensures Initial(setup, s) && s.connected && s.messages == [] && s.solutions == []
  {
    State([], [], map[], setup.base, true, Some(setup.extraNonce1), setup.extraNonce1,
          Waiting, LoopHead, {}, 0, Stats(0, 0, 0, 0, 0, seq(COMPUTORS, _ => 0), 0, 0, 0), [])
  }

  /** The pool rebuilds another header than the one hashed, and that header hashes above the target. */
  predicate RebuiltElsewhere(setup: Setup, f: Sha256.Compression, p: PoolJob, sol: Solution, task: Task, session: seq<byte>) {
    var r := Rebuilt(f, p, session, MessageFor("", sol, task));
    r.Some? && r.value != HeaderOf(sol, task) && Bytes.LittleEndian(setup.hash(r.value)) > Bytes.LittleEndian(task.targetPool)
  }

  lemma LowShare(f: Sha256.Compression, job: Job, task: Task, sol: Solution, session: seq<byte>) returns (setup: Setup)
    requires Announced(f, SampleJob(), job) && TaskFor(job, task.extraNonce1, Zeros(32)) == Some(task)
    requires sol.merkleRoot != PoolRoot(f, SampleJob(), session, sol.extraNonce2)
    ensures setup.base == Zeros(32) && setup.extraNonce1 == task.extraNonce1
    ensures Meets(setup.hash, sol, task) && RebuiltElsewhere(setup, f, SampleJob(), sol, task, session)
  {
    hide Bytes.LittleEndian, Rebuilt, PoolRoot, Announced, HeaderOf, SampleJob, PacketSize, Header.PartialHeader;
    setup := Setup(LowOnlyAt(HeaderOf(sol, task)), Zeros(32), task.extraNonce1);
    OneIsAbove(31);
    RebuiltIsHashed(f, SampleJob(), job, task, sol, "", session);
  }

  /** There is a run whose submitted share states another root than the pool's. */
  lemma WrongRootSubmitted(f: Sha256.Compression)
      returns (setup: Setup, run: seq<Step>, j: nat, job: Job, sol: Solution, task: Task)
    ensures Announced(f, SampleJob(), job) && BuiltFrom(job, task) && sol.merkleRoot != MinerRoot(f, task, sol.extraNonce2)
    ensures IsRun(setup, Start(setup), run) && forall i :: 0 <= i < |run| ==> Announces({job}, run[i])
    ensures
      var log := After(setup, Start(setup), run).log;
      && j < |log| && log[j] == Submitted(sol, task) && SessionOf(setup, log[..j]) == Some(task.extraNonce1)
      && RebuiltElsewhere(setup, f, SampleJob(), sol, task, task.extraNonce1)
  {
    hide After, IsRun, PoolRoot, MinerRoot, TaskFor, Announced, SampleJob, Announces, RebuiltElsewhere, SessionOf, Meets;
    job, task := SampleAnnounced(f, Zeros(4), Zeros(32));
    BuiltTask(job, Zeros(4), Zeros(32));
    RootsAgree(f, SampleJob(), job, task, Zeros(8));
    sol := Solution(Zeros(32), 7, Zeros(4), Zeros(4), OtherRoot(MinerRoot(f, task, Zeros(8))), Zeros(8));
    setup := LowShare(f, job, task, sol, task.extraNonce1);
    run, j := AnyRootSubmitted(setup, Start(setup), job, task, sol);
    SubmittedInSession(setup, Start(setup), run, j);
  }

  // ----- The right root after a new connection -----

  /** A compression function that passes the first 32 bytes of its block on. */
  function Words32(b: seq<byte>): (w: seq<Sha256.u32>)
    requires |b| % 4 == 0
    ensures |w| == |b| / 4
  {
    if b == [] then [] else
      var c: seq<int> := b[..4];
      [c[0] * 0x100_0000 + c[1] * 0x1_0000 + c[2] * 0x100 + c[3]] + Words32(b[4..])
  }

  function Echo(): Sha256.Compression {
    (st, block) => if |block| < 32 then st else Words32(block[..32])
  }

  lemma {:induction false} WordsKept(b: seq<byte>)
    requires |b| % 4 == 0
    ensures Sha256.StateBytes(Words32(b)) == b
  {
    if b != [] {
      var w := Words32(b);
      WordsKept(b[4..]);
      assert w[1..] == Words32(b[4..]);
      FourKept(b[0], b[1], b[2], b[3]);
      assert b == [b[0], b[1], b[2], b[3]] + b[4..];
    }
  }

  lemma FourKept(a: byte, b: byte, c: byte, d: byte)
    ensures Sha256.BigEndian32(a * 0x100_0000 + b * 0x1_0000 + c * 0x100 + d) == [a, b, c, d]
  {
    var x: int, p: int, q: int := a * 0x100_0000 + b * 0x1_0000 + c * 0x100 + d, a * 0x1_0000 + b * 0x100 + c, a * 0x100 + b;
    DivModUnique(x, p, d, 0x100);
    DivModUnique(x, q, c * 0x100 + d, 0x1_0000);
    DivModUnique(x, a, b * 0x1_0000 + c * 0x100 + d, 0x100_0000);
    DivModUnique(p, q, c, 0x100);
    DivModUnique(q, a, b, 0x100);
  }

  /** The digest of a short message is its padded start. */
  lemma EchoDigest(m: seq<byte>)
    requires |m| <= 55
    ensures Sha256.Digest(Echo(), m) == Sha256.Padded(m)[..32]
  {
    hide Sha256.StateBytes, Words32, Sha256.BigEndian64;
    var p := Sha256.Padded(m);
    assert |p| == 64 && p[..64] == p && p[64..] == [];
    assert Sha256.Compressed(Echo(), Sha256.INITIAL, p) == Echo()(Sha256.INITIAL, p);
    WordsKept(p[..32]);
  }

  /** The root of the sample job starts with the first nonce. */
  lemma EchoRoot(n: Bytes4, extraNonce2: Bytes8)
    ensures PoolRoot(Echo(), SampleJob(), n, extraNonce2)[..4] == n
  {
    hide Sha256.Digest, Sha256.BigEndian64, Echo;
    var m := [] + n + extraNonce2 + [];
    EchoDigest(m);
    var d := Sha256.Digest(Echo(), m);
    EchoDigest(d);
    assert d[..4] == n;
    assert Sha256.Digest(Echo(), d) == d;
  }

  /** There is a run whose submitted share states the root of its task and is rebuilt differently,
      because the connection was lost and a new nonce drawn before the share was sent. */
  lemma ReconnectSpoilsShare()
      returns (f: Sha256.Compression, setup: Setup, run: seq<Step>, j: nat, job: Job, sol: Solution, task: Task, session: Bytes4)
    ensures Announced(f, SampleJob(), job) && BuiltFrom(job, task) && sol.merkleRoot == MinerRoot(f, task, sol.extraNonce2)
    ensures IsRun(setup, Start(setup), run) && forall i :: 0 <= i < |run| ==> Announces({job}, run[i])
    ensures
      var log := After(setup, Start(setup), run).log;
      && j < |log| && log[j] == Submitted(sol, task) && SessionOf(setup, log[..j]) == Some(session)
      && RebuiltElsewhere(setup, f, SampleJob(), sol, task, session)
  {
    hide After, IsRun, PoolRoot, MinerRoot, TaskFor, Announced, SampleJob, Announces, RebuiltElsewhere, SessionOf, Meets, Echo;
    f, session := Echo(), [1, 0, 0, 0];
    job, task := SampleAnnounced(f, Zeros(4), Zeros(32));
    BuiltTask(job, Zeros(4), Zeros(32));
    RootsAgree(f, SampleJob(), job, task, Zeros(8));
    sol := Solution(Zeros(32), 7, Zeros(4), Zeros(4), MinerRoot(f, task, Zeros(8)), Zeros(8));
    EchoRoot(Zeros(4), Zeros(8));
    EchoRoot(session, Zeros(8));
    assert session[0] != Zeros(4)[0];
    setup := LowShare(f, job, task, sol, session);
    run, j := AnyNonceSubmitted(setup, Start(setup), job, task, sol, session);
  }
}
