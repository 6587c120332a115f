/** The mining solution packet, read by the dispatcher and by the C# tools. */
module SolutionPacket {
  import opened Wrappers
  import opened Words
  import opened Bytes
  import opened TaskPacket

  const PACKET_SIZE := 8 + 41 + 48 + 64

  datatype Solution = Solution(source: Bytes32, jobId: u64, nTime: Bytes4, nonce: Bytes4, merkleRoot: Bytes32, extraNonce2: Bytes8)

  /** Key, signed bytes and signature. */
  type Verifier = (seq<byte>, seq<byte>, seq<byte>) -> bool

  /** The two structs: 41 bytes with the mining type last, then 48. */
  function Body(s: Solution, kind: byte): (b: seq<byte>)
    ensures |b| == 89
  {
    s.source + ToBytes(s.jobId, 8) + [kind] + s.nTime + s.nonce + s.merkleRoot + s.extraNonce2
  }

  function Packed(s: Solution, kind: byte, sig: Signature): (p: seq<byte>)
    ensures |p| == PACKET_SIZE
  {
    PacketHeader(PACKET_SIZE, 69) + Body(s, kind) + sig
  }

  function Word64(b: Bytes8): u64 {
    LittleEndianBound(b);
    Pow2Values();
    LittleEndian(b)
  }

  /** The structs overlaid on 89 bytes. */
  function Overlay(b: seq<byte>): Solution
    requires |b| == 89
  {
    Solution(b[0..32], Word64(b[32..40]), b[41..45], b[45..49], b[49..81], b[81..89])
  }

  datatype SolutionInfo = SolutionInfo(solution: Solution, kind: byte, signature: seq<byte>)

  /** DogeTaskParser.ParseSolution: no check of the type, the kind or the signature. */
  function Parsed(payload: seq<byte>, h: nat): Option<SolutionInfo> {
    if |payload| < h + 41 + 48 + 64 then None
    else Some(SolutionInfo(Overlay(payload[h..h + 89]), payload[h + 40], payload[h + 89..h + 153]))
  }

  /** processSolution: the solution queued, if any. The C# reader sees the same fields. */
  function Processed(verify: Verifier, packet: seq<byte>): (r: Option<Solution>)
    ensures r.Some? ==> |packet| == PACKET_SIZE && Parsed(packet[8..], 0).Some? && Parsed(packet[8..], 0).value.solution == r.value
  {
    if |packet| != PACKET_SIZE || packet[3] != 69 || packet[48] != 0 then None
    else
      var payload := packet[8..];
      if !verify(payload[..32], payload[..89], payload[89..]) then None else Some(Overlay(payload[..89]))
  }

  /** ComputorIndex, and the index the dispatcher counts shares under. */
  function ComputorIndex(extraNonce2: Bytes8): (i: nat)
    ensures i < 676
  {
    var b: seq<int> := extraNonce2;
    (b[0] * 0x100_0000 + b[1] * 0x1_0000 + b[2] * 0x100 + b[3]) % 676
  }

  /** The index is the big-endian number in the first four bytes modulo the number of computors. */
  lemma ComputorIndexIs(extraNonce2: Bytes8)
    ensures ComputorIndex(extraNonce2) == BigEndianValue(extraNonce2[..4]) % 676
  {
    FourBytesValue(extraNonce2[..4]);
  }

  /** A packet is queued as s exactly when it has the size, the type and the body of s with the DOGE
      kind, and its last 64 bytes verify as the signature of that body. */
  lemma QueuedExactly(verify: Verifier, packet: seq<byte>, s: Solution)
    ensures Processed(verify, packet) == Some(s)
       <==> && |packet| == PACKET_SIZE && packet[3] == 69 && packet[8..97] == Body(s, 0) && verify(s.source, Body(s, 0), packet[97..])
  {
    hide Overlay, Body;
    OverlayBody(s, 0);
    if |packet| == PACKET_SIZE {
      var b := packet[8..][..89];
      assert packet[8..97] == b && packet[8..][89..] == packet[97..] && packet[8..][..32] == b[..32] && packet[48] == b[40];
      BodyOverlay(b);
    }
  }

  /** Laying out what was read gives the bytes back. */
  lemma BodyOverlay(b: seq<byte>)
    requires |b| == 89
    ensures Body(Overlay(b), b[40]) == b && Overlay(b).source == b[..32]
  {
    hide ToBytes, LittleEndian;
    RoundTripBytes(b[32..40]);
    assert b == b[0..32] + b[32..40] + [b[40]] + b[41..45] + b[45..49] + b[49..81] + b[81..89];
  }

  /** Reading the structs back gives what was laid out. */
  lemma OverlayBody(s: Solution, kind: byte)
    ensures Overlay(Body(s, kind)) == s && Body(s, kind)[40] == kind
  {
    hide ToBytes, LittleEndian;
    Laid(Body(s, kind), s.source, ToBytes(s.jobId, 8), [kind], s.nTime, s.nonce, s.merkleRoot, s.extraNonce2);
    Pow2Values();
    RoundTripNumber(s.jobId, 8);
  }

  /** Where the seven parts lie. */
  lemma Laid(b: seq<byte>, p: seq<byte>, j: seq<byte>, k: seq<byte>, t: seq<byte>, n: seq<byte>, m: seq<byte>, e: seq<byte>)
    requires |p| == 32 && |j| == 8 && |k| == 1 && |t| == 4 && |n| == 4 && |m| == 32 && |e| == 8
    requires b == p + j + k + t + n + m + e
    ensures b[0..32] == p && b[32..40] == j && b[40] == k[0] && b[41..45] == t && b[45..49] == n && b[49..81] == m && b[81..89] == e
  {
    var x, y := p + j + k, t + n + m + e;
    assert b == x + y;
    assert x[0..32] == p && x[32..40] == j && x[40] == k[0];
    assert y[0..4] == t && y[4..8] == n && y[8..40] == m && y[40..48] == e;
    assert b[0..41] == x && b[41..89] == y;
    Within(b, x, 0, 0, 32);
    Within(b, x, 0, 32, 40);
    Within(b, y, 41, 0, 4);
    Within(b, y, 41, 4, 8);
    Within(b, y, 41, 8, 40);
    Within(b, y, 41, 40, 48);
  }

  /** A packet is queued exactly when it carries the DOGE kind and a signature that verifies under
      the key it names; the fields queued are the fields sent. */
  lemma SentIsQueued(verify: Verifier, s: Solution, kind: byte, sig: Signature)
    ensures Processed(verify, Packed(s, kind, sig)) == if kind == 0 && verify(s.source, Body(s, kind), sig) then Some(s) else None
    ensures Parsed(Packed(s, kind, sig)[8..], 0) == Some(SolutionInfo(s, kind, sig))
  {
    hide Overlay, ToBytes;
    var p, b := Packed(s, kind, sig), Body(s, kind);
    OverlayBody(s, kind);
    assert p[8..][..89] == b && p[8..][0..89] == b && p[8..][89..] == sig && p[8..][89..153] == sig && p[8..][..32] == b[..32] == s.source;
    assert p[3] == 69 && p[48] == b[40] && p[8..][40] == b[40];
  }
}
