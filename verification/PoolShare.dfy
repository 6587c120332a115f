/** A submitted share seen from the pool, which rebuilds the header with its own merkle root and the
    nonce it holds for the connection. */
module PoolShare {
  import opened Wrappers
  import opened Bytes
  import opened Hex
  import opened SolutionPacket
  import opened Dispatcher
  import opened Merkle
  import Header
  import Sha256

  /** A job of the pool: the template, the two halves of the coinbase and the other transactions. */
  datatype PoolJob = PoolJob(t: Header.Template, p1: seq<byte>, p2: seq<byte>, txs: seq<Bytes32>)

  /** A template the daemon can give. */
  predicate WellFormed(t: Header.Template) {
    && |t.previousblockhash| == 64 && AllHex(t.previousblockhash) && |t.bits| == 8 && AllHex(t.bits)
    && 0 <= t.curtime < Header.TWO32 && 0 <= t.version < Header.TWO31
  }

  function HexAll(bs: seq<Bytes32>): (r: seq<string>)
    ensures |r| == |bs|
  {
    seq(|bs|, i requires 0 <= i < |bs| => HexOf(bs[i]))
  }

  /** handleParameters and getMerkleSteps: the job as mining.notify announces it. */
  predicate Announced(f: Sha256.Compression, p: PoolJob, job: Job) {
    && WellFormed(p.t) && Header.Parameters(p.t) == Some(job.params)
    && job.coinbase1 == HexOf(p.p1) && job.coinbase2 == HexOf(p.p2) && job.branches == HexAll(Steps(ShaHash(f), p.txs))
  }

  /** The root a miner computes from the task it was sent. */
  function MinerRoot(f: Sha256.Compression, task: Task, extraNonce2: seq<byte>): Bytes32 {
    LeftFold(ShaHash(f), DoubleSha(f, task.coinbase1 + task.extraNonce1 + extraNonce2 + task.coinbase2), task.branches)
  }

  /** The root the pool computes from the nonces and the block's transactions. */
  function PoolRoot(f: Sha256.Compression, p: PoolJob, extraNonce1: seq<byte>, extraNonce2: seq<byte>): Bytes32 {
    TreeRoot(ShaHash(f), [DoubleSha(f, p.p1 + extraNonce1 + extraNonce2 + p.p2)] + p.txs)
  }

  /** The task was built from the announced job. */
  predicate BuiltFrom(job: Job, task: Task) {
    TaskFor(job, task.extraNonce1, task.targetPool) == Some(task)
  }

  /** A miner who folds the branches of its task gets the pool's root at the task's nonce. */
  lemma RootsAgree(f: Sha256.Compression, p: PoolJob, job: Job, task: Task, extraNonce2: seq<byte>)
    requires Announced(f, p, job) && BuiltFrom(job, task)
    ensures MinerRoot(f, task, extraNonce2) == PoolRoot(f, p, task.extraNonce1, extraNonce2)
  {
    hide DoubleSha, ShaHash, Steps, TreeRoot, LeftFold, WellFormed, Header.Parameters, Header.PartialHeader, PacketSize, CppDecode, HexOf;
    DecodeHexOf(p.p1);
    DecodeHexOf(p.p2);
    var steps := Steps(ShaHash(f), p.txs);
    forall i | 0 <= i < |steps| ensures CppDecode(HexOf(steps[i])) == steps[i] { DecodeHexOf(steps[i]); }
    assert task.branches == steps;
    StepsGiveRoot(ShaHash(f), DoubleSha(f, p.p1 + task.extraNonce1 + extraNonce2 + p.p2), p.txs);
  }

  /** Two nonces of one length have different roots, or there is a collision of the double hash. */
  lemma {:induction false} NonceBinds(f: Sha256.Compression, p: PoolJob, n: seq<byte>, n': seq<byte>, extraNonce2: seq<byte>)
      returns (a: seq<byte>, b: seq<byte>)
    requires |n| == |n'| && PoolRoot(f, p, n, extraNonce2) == PoolRoot(f, p, n', extraNonce2)
    ensures n == n' || (a != b && |a| == |b| && DoubleSha(f, a) == DoubleSha(f, b))
  {
    hide DoubleSha, Steps, TreeRoot, LeftFold, Fold;
    var c, c' := p.p1 + n + extraNonce2 + p.p2, p.p1 + n' + extraNonce2 + p.p2;
    var h, steps := ShaHash(f), Steps(ShaHash(f), p.txs);
    var x, y := DoubleSha(f, c), DoubleSha(f, c');
    StepsGiveRoot(h, x, p.txs);
    StepsGiveRoot(h, y, p.txs);
    LeftFoldIsIndexZero(h, x, steps);
    LeftFoldIsIndexZero(h, y, steps);
    a, b := FoldBinds(h, x, y, 0, steps, steps);
    if x == y {
      a, b := c, c';
      if a == b { assert c[|p.p1|..|p.p1| + |n|] == n && c'[|p.p1|..|p.p1| + |n|] == n'; }
    }
  }

  // ----- mining.submit -----

  /** The parameters of mining.submit: neither the merkle root nor the first nonce is among them. */
  datatype SubmitMessage = SubmitMessage(worker: string, taskId: string, extraNonce2: string, nTime: string, nonce: string)

  function MessageFor(worker: string, sol: Solution, task: Task): SubmitMessage {
    SubmitMessage(worker, task.taskId, HexOf(sol.extraNonce2), HexOf(Ordered(sol.nTime, LittleEndian)), HexOf(Ordered(sol.nonce, LittleEndian)))
  }

  /** The header the pool rebuilds from a submission and the nonce of the connection. */
  function Rebuilt(f: Sha256.Compression, p: PoolJob, session: seq<byte>, m: SubmitMessage): Option<seq<byte>> {
    Header.PoolHeader(p.t, PoolRoot(f, p, session, JsDecode(m.extraNonce2)), m.nTime, m.nonce)
  }

  /** The rebuilt header is the hashed one exactly when the solution states the pool's root at the
      nonce of the connection. */
  lemma RebuiltIsHashed(f: Sha256.Compression, p: PoolJob, job: Job, task: Task, sol: Solution, worker: string, session: seq<byte>)
    requires Announced(f, p, job) && BuiltFrom(job, task)
    ensures var r := Rebuilt(f, p, session, MessageFor(worker, sol, task));
      r.Some? && (r.value == HeaderOf(sol, task) <==> sol.merkleRoot == PoolRoot(f, p, session, sol.extraNonce2))
  {
    hide PoolRoot, HexOf, JsDecode, Header.PoolHeader, Header.PartialHeader, Header.Parameters, Header.DispatcherHeader, PacketSize, Reversed;
    DecodeHexOf(sol.extraNonce2);
    Header.HeadersAgree(p.t, PoolRoot(f, p, session, sol.extraNonce2), sol.merkleRoot, sol.nTime, sol.nonce);
  }

  /** Every job in the list of messages is announced by the pool under its id. */
  predicate AnnouncedBy(f: Sha256.Compression, pool: map<string, PoolJob>, job: Job) {
    job.taskId in pool && Announced(f, pool[job.taskId], job)
  }

  /** What the pool makes of a share submitted over a connection with the given nonce. The miner is
      honest when the root it states is the one of the task it was sent. */
  predicate TakenAt(setup: Setup, f: Sha256.Compression, p: PoolJob, sol: Solution, task: Task, session: seq<byte>, worker: string) {
    var r := Rebuilt(f, p, session, MessageFor(worker, sol, task));
    && r.Some? && (r.value == HeaderOf(sol, task) <==> sol.merkleRoot == PoolRoot(f, p, session, sol.extraNonce2))
    && (r.value == HeaderOf(sol, task) ==> Bytes.LittleEndian(setup.hash(r.value)) <= Bytes.LittleEndian(task.targetPool))
    && (sol.merkleRoot == MinerRoot(f, task, sol.extraNonce2) ==>
          (r.value == HeaderOf(sol, task) <==> PoolRoot(f, p, session, sol.extraNonce2) == PoolRoot(f, p, task.extraNonce1, sol.extraNonce2)))
  }

  /** In every run in which all jobs come from the pool, every submitted share names a job of the
      pool, and whatever nonce the pool holds for the connection, the rebuilt header is the hashed
      one exactly when the stated root is the pool's; it then hashes at or below the task's target.
      For an honest miner this is so exactly when the root at the connection's nonce is the root at
      the task's nonce, in particular in every share submitted before a new connection. */
  lemma ShareAtPool(setup: Setup, s: State, run: seq<Step>, j: nat, f: Sha256.Compression, pool: map<string, PoolJob>, jobs: set<Job>, worker: string)
    requires Initial(setup, s) && IsRun(setup, s, run) && j < |After(setup, s, run).log| && After(setup, s, run).log[j].Submitted?
    requires forall m :: m in s.messages && m.Notify? ==> m.job in jobs
    requires forall i :: 0 <= i < |run| ==> Announces(jobs, run[i])
    requires forall job :: job in jobs ==> AnnouncedBy(f, pool, job)
    ensures
      var log := After(setup, s, run).log;
      var sol, task := log[j].sol, log[j].task;
      && task.taskId in pool
      && (forall session :: TakenAt(setup, f, pool[task.taskId], sol, task, session, worker))
      && (Opened !in log[..j] ==> SessionOf(setup, log[..j]) == Some(task.extraNonce1))
  {
    EveryRunIsSafe(setup, s, run);
    SubmittedForJob(setup, jobs, s, run, j);
    SubmittedInSession(setup, s, run, j);
    hide After, IsRun, NoRepeats, Sum, SoundLog, CountersBalance, Meets, TakenAt, SessionOf, Announces, TaskFor, Announced;
    var log := After(setup, s, run).log;
    var sol, task := log[j].sol, log[j].task;
    var job :| job in jobs && TaskFor(job, task.extraNonce1, task.targetPool) == Some(task);
    assert AnnouncedBy(f, pool, job);
    BuiltTask(job, task.extraNonce1, task.targetPool);
    forall session ensures TakenAt(setup, f, pool[task.taskId], sol, task, session, worker) {
      Taken(setup, f, pool[task.taskId], job, sol, task, session, worker);
    }
  }

  lemma Taken(setup: Setup, f: Sha256.Compression, p: PoolJob, job: Job, sol: Solution, task: Task, session: seq<byte>, worker: string)
    requires Announced(f, p, job) && BuiltFrom(job, task) && Meets(setup.hash, sol, task)
    ensures TakenAt(setup, f, p, sol, task, session, worker)
  {
    hide Announced, BuiltFrom, Rebuilt, PoolRoot, MinerRoot, HeaderOf, Bytes.LittleEndian;
    RebuiltIsHashed(f, p, job, task, sol, worker, session);
    RootsAgree(f, p, job, task, sol.extraNonce2);
  }
}
