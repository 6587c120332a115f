/** The packets that are written, seen by the code that cuts them out of a stream. */
module WirePackets {
  import opened Wrappers
  import opened Words
  import opened Bytes
  import opened Hex
  import Dispatcher
  import Framing
  import Header
  import TaskPacket
  import SolutionPacket

  /** A written header gives the size and the type back, and its last four bytes are 0. */
  lemma HeaderReadBack(size: nat, kind: byte, rest: seq<byte>)
    requires 0 < size < 0x100_0000
    ensures var p := TaskPacket.PacketHeader(size, kind) + rest; |p| >= 8 && Framing.Size(p) == size && p[3] == kind && p[4..8] == [0, 0, 0, 0]
  {
    var h := TaskPacket.PacketHeader(size, kind);
    var p := h + rest;
    Framing.SizeIsLittleEndian(p);
    assert p[..3] == h[..3] == ToBytes(size, 3);
    var n := 24;
    assert Pow2(n) == 0x100_0000 by { TwentyFourBits(n); }
    RoundTripNumber(size, 3);
  }

  lemma TwentyFourBits(n: nat)
    requires n == 24
    ensures Pow2(n) == 0x100_0000
  {
    Pow2Add(8, 16);
    Pow2Add(8, 8);
    assert Pow2(8) == 256;
  }

  /** Every task packet that fits the buffer is a packet of the stream. */
  lemma TaskIsPacket(sign: TaskPacket.Signer, t: TaskPacket.Task)
    requires TaskPacket.TotalSize(t) <= TaskPacket.BUFFER_SIZE
    ensures Framing.IsPacket(TaskPacket.Packet(sign, t)) && TaskPacket.Packet(sign, t)[3] == 68
  {
    hide TaskPacket.PacketHeader, TaskPacket.Payload;
    var body := TaskPacket.Payload(t) + sign(TaskPacket.Payload(t));
    assert TaskPacket.Packet(sign, t) == TaskPacket.PacketHeader(TaskPacket.TotalSize(t), 68) + body;
    HeaderReadBack(TaskPacket.TotalSize(t), 68, body);
  }

  /** So is every solution packet. */
  lemma SolutionIsPacket(s: SolutionPacket.Solution, kind: byte, sig: TaskPacket.Signature)
    ensures Framing.IsPacket(SolutionPacket.Packed(s, kind, sig))
  {
    hide TaskPacket.PacketHeader, SolutionPacket.Body;
    var body := SolutionPacket.Body(s, kind) + sig;
    assert SolutionPacket.Packed(s, kind, sig) == TaskPacket.PacketHeader(SolutionPacket.PACKET_SIZE, 69) + body;
    HeaderReadBack(SolutionPacket.PACKET_SIZE, 69, body);
  }

  /** The size the dispatcher computes for a job is the size of the packet it writes, and a job with a
      well-formed header becomes a task exactly when that packet fits the buffer. */
  lemma {:induction false} SizesAgree(job: Dispatcher.Job, extraNonce1: seq<byte>, target: Bytes32, t: TaskPacket.Task)
    requires t.extraNonce1 == extraNonce1 && t.coinbase1 == CppDecode(job.coinbase1) && t.coinbase2 == CppDecode(job.coinbase2)
    requires t.branches == Dispatcher.DecodeAll(job.branches)
    ensures Dispatcher.PacketSize(job, extraNonce1) == TaskPacket.TotalSize(t)
    ensures Header.PartialHeader(job.params).Some? ==>
      (Dispatcher.TaskFor(job, extraNonce1, target).Some? <==> TaskPacket.TotalSize(t) <= TaskPacket.BUFFER_SIZE)
  {
    hide TaskPacket.Fixed, CppDecode;
    BranchSizes(job.branches);
  }

  lemma {:induction false} BranchSizes(branches: seq<string>)
    ensures Dispatcher.BranchBytes(branches) == |TaskPacket.Sizes(Dispatcher.DecodeAll(branches))| + |TaskPacket.Flat(Dispatcher.DecodeAll(branches))|
  {
    hide CppDecode;
    if branches != [] {
      BranchSizes(branches[1..]);
      var d := Dispatcher.DecodeAll(branches);
      assert d[1..] == Dispatcher.DecodeAll(branches[1..]);
      FlatFront(d);
    }
  }

  lemma {:induction false} FlatFront(d: seq<seq<byte>>)
    requires d != []
    ensures |TaskPacket.Flat(d)| == |d[0]| + |TaskPacket.Flat(d[1..])|
  {
  }

  datatype Sent = Sent(s: SolutionPacket.Solution, kind: byte, sig: TaskPacket.Signature)

  function PackedAll(sent: seq<Sent>): (r: seq<seq<byte>>)
    ensures |r| == |sent|
  {
    seq(|sent|, i requires 0 <= i < |sent| => SolutionPacket.Packed(sent[i].s, sent[i].kind, sent[i].sig))
  }

  /** From miner to queue: however the stream of solution packets is cut, each comes out whole and in
      order, and is queued exactly when it has the DOGE kind and a signature that verifies. */
  lemma SolutionsArrive(verify: SolutionPacket.Verifier, sent: seq<Sent>, chunks: seq<seq<byte>>, i: nat)
    requires Framing.Concat(chunks) == Framing.Flat(PackedAll(sent)) && i < |sent|
    ensures Framing.Fed(chunks) == Framing.Split(PackedAll(sent), [])
    ensures
      var x := sent[i];
      SolutionPacket.Processed(verify, Framing.Fed(chunks).packets[i])
        == if x.kind == 0 && verify(x.s.source, SolutionPacket.Body(x.s, x.kind), x.sig) then Some(x.s) else None
  {
    hide SolutionPacket.Packed, SolutionPacket.Processed, SolutionPacket.Body, Framing.Concat, Framing.Flat, Framing.Fed, Framing.IsPacket;
    var packets := PackedAll(sent);
    forall k | 0 <= k < |packets| ensures Framing.IsPacket(packets[k]) { SolutionIsPacket(sent[k].s, sent[k].kind, sent[k].sig); }
    assert Framing.Flat(packets) + [] == Framing.Flat(packets);
    Framing.SentIsReceived(packets, [], chunks);
    SolutionPacket.SentIsQueued(verify, sent[i].s, sent[i].kind, sent[i].sig);
  }

  /** The task packets a peer reads are the ones written, however its stream is cut. */
  lemma TasksArrive(sign: TaskPacket.Signer, tasks: seq<TaskPacket.Task>, chunks: seq<seq<byte>>)
    requires forall i :: 0 <= i < |tasks| ==> TaskPacket.TotalSize(tasks[i]) <= TaskPacket.BUFFER_SIZE
    requires Framing.Concat(chunks) == Framing.Flat(Written(sign, tasks))
    ensures Framing.Fed(chunks) == Framing.Split(Written(sign, tasks), [])
  {
    hide TaskPacket.Packet, TaskPacket.TotalSize, Framing.Concat, Framing.Flat, Framing.Fed, Framing.IsPacket;
    var packets := Written(sign, tasks);
    forall k | 0 <= k < |packets| ensures Framing.IsPacket(packets[k]) { TaskIsPacket(sign, tasks[k]); }
    assert Framing.Flat(packets) + [] == Framing.Flat(packets);
    Framing.SentIsReceived(packets, [], chunks);
  }

  function Written(sign: TaskPacket.Signer, tasks: seq<TaskPacket.Task>): (r: seq<seq<byte>>)
    ensures |r| == |tasks|
  {
    seq(|tasks|, i requires 0 <= i < |tasks| => TaskPacket.Packet(sign, tasks[i]))
  }
}
