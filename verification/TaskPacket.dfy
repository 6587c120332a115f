/** The mining task packet: written by the dispatcher into a static buffer at a moving offset and
    signed, and read back by the C# tools. */
module TaskPacket {
  import opened Wrappers
  import opened Words
  import opened Bytes

  const BUFFER_SIZE := 4096

  type Signer = seq<byte> -> Signature
  type Signature = s: seq<byte> | |s| == 64 witness Zeros(64)

  datatype Task = Task(
    jobId: u64, clean: bool, difficulty: Bytes4, version: Bytes4, nTime: Bytes4, nBits: Bytes4, prevHash: Bytes32,
    extraNonce1: seq<byte>, coinbase1: seq<byte>, coinbase2: seq<byte>, branches: seq<seq<byte>>)

  // ----- The layout -----

  function Flat(branches: seq<seq<byte>>): seq<byte> {
    if branches == [] then [] else branches[0] + Flat(branches[1..])
  }

  function Sizes(branches: seq<seq<byte>>): (s: seq<byte>)
    ensures |s| == 4 * |branches|
  {
    if branches == [] then [] else ToBytes(|branches[0]|, 4) + Sizes(branches[1..])
  }

  /** The fixed-size structs, 9 and 65 bytes. */
  function Fixed(t: Task): (f: seq<byte>)
    ensures |f| == 74
  {
    ToBytes(t.jobId, 8) + FixedTail(t)
  }

  /** The fixed-size structs after the job id. */
  function FixedTail(t: Task): (f: seq<byte>)
    ensures |f| == 66
  {
    HeaderFields(t) + Counts(t)
  }

  function HeaderFields(t: Task): (f: seq<byte>)
    ensures |f| == 50
  {
    [0] + [if t.clean then 1 else 0] + t.difficulty + t.version + t.nTime + t.nBits + t.prevHash
  }

  function Counts(t: Task): (f: seq<byte>)
    ensures |f| == 16
  {
    ToBytes(|t.extraNonce1|, 4) + ToBytes(|t.coinbase1|, 4) + ToBytes(|t.coinbase2|, 4) + ToBytes(|t.branches|, 4)
  }

  function Variable(t: Task): seq<byte> {
    t.extraNonce1 + t.coinbase1 + t.coinbase2 + Sizes(t.branches) + Flat(t.branches)
  }

  function Payload(t: Task): seq<byte> {
    Fixed(t) + Variable(t)
  }

  /** Three bytes of size, the type, and a zero dejavu. */
  function PacketHeader(size: nat, kind: byte): (h: seq<byte>)
    ensures |h| == 8
  {
    ToBytes(size, 3) + [kind] + [0, 0, 0, 0]
  }

  function TotalSize(t: Task): nat {
    8 + |Payload(t)| + 64
  }

  function Packet(sign: Signer, t: Task): seq<byte> {
    PacketHeader(TotalSize(t), 68) + Payload(t) + sign(Payload(t))
  }

  // ----- The writer -----

  /** The size added up before anything is written. */
  method ComputeTotal(t: Task) returns (total: nat)
    ensures total == TotalSize(t)
  {
    hide ToBytes;
    total := 8 + 9 + 65 + |t.extraNonce1| + |t.coinbase1| + |t.coinbase2| + |t.branches| * 4;
    ghost var n := total;
    for i := 0 to |t.branches|
      invariant total + |Flat(t.branches[i..])| == n + |Flat(t.branches)|
    {
      assert t.branches[i..][1..] == t.branches[i + 1..];
      total := total + |t.branches[i]|;
    }
    total := total + 64;
  }

  /** memcpy to the offset: everything before it stays. */
  method Append(buf: array<byte>, at: nat, data: seq<byte>) returns (offset: nat)
    requires at + |data| <= buf.Length
    modifies buf
    ensures offset == at + |data| && buf[..offset] == old(buf[..at]) + data
  {
    for i := 0 to |data|
      invariant buf[..at + i] == old(buf[..at]) + data[..i]
    {
      buf[at + i] := data[i];
    }
    offset := at + |data|;
    assert data[..|data|] == data;
  }

  /** The same, in terms of what was written since the start. */
  method Extend(buf: array<byte>, at: nat, data: seq<byte>, ghost start: seq<byte>, ghost done: seq<byte>) returns (offset: nat)
    requires at + |data| <= buf.Length && buf[..at] == start + done
    modifies buf
    ensures offset == at + |data| && buf[..offset] == start + (done + data)
  {
    offset := Append(buf, at, data);
    assert start + done + data == start + (done + data);
  }

  /** memcpy over bytes already passed. */
  method Overwrite(buf: array<byte>, at: nat, data: seq<byte>, ghost end: nat)
    requires at + |data| <= end <= buf.Length
    modifies buf
    ensures buf[..end] == old(buf[..at]) + data + old(buf[at + |data|..end])
  {
    for i := 0 to |data|
      invariant forall k :: 0 <= k < end ==> buf[k] == if at <= k < at + i then data[k - at] else old(buf[k])
    {
      buf[at + i] := data[i];
    }
  }

  /** The fixed structs, with the job id left for later. */
  method WriteFixed(buf: array<byte>, t: Task, at: nat) returns (offset: nat)
    requires at + 66 <= buf.Length
    modifies buf
    ensures offset == at + 66 && buf[..offset] == old(buf[..at]) + FixedTail(t)
  {
    hide HeaderFields, Counts;
    ghost var start := buf[..at];
    offset := WriteFields(buf, t, at);
    offset := WriteCounts(buf, t, offset);
    assert buf[..offset] == start + FixedTail(t);
  }

  method WriteFields(buf: array<byte>, t: Task, at: nat) returns (offset: nat)
    requires at + 50 <= buf.Length
    modifies buf
    ensures offset == at + 50 && buf[..offset] == old(buf[..at]) + HeaderFields(t)
  {
    ghost var start := buf[..at];
    offset := Append(buf, at, [0]);
    ghost var done := [0];
    var clean: byte := if t.clean then 1 else 0;
    offset := Extend(buf, offset, [clean], start, done);
    done := done + [clean];
    offset := Extend(buf, offset, t.difficulty, start, done);
    done := done + t.difficulty;
    offset := Extend(buf, offset, t.version, start, done);
    done := done + t.version;
    offset := Extend(buf, offset, t.nTime, start, done);
    done := done + t.nTime;
    offset := Extend(buf, offset, t.nBits, start, done);
    done := done + t.nBits;
    offset := Extend(buf, offset, t.prevHash, start, done);
  }

  method WriteCounts(buf: array<byte>, t: Task, at: nat) returns (offset: nat)
    requires at + 16 <= buf.Length
    modifies buf
    ensures offset == at + 16 && buf[..offset] == old(buf[..at]) + Counts(t)
  {
    hide ToBytes;
    ghost var start := buf[..at];
    offset := Append(buf, at, ToBytes(|t.extraNonce1|, 4));
    ghost var done := ToBytes(|t.extraNonce1|, 4);
    offset := Extend(buf, offset, ToBytes(|t.coinbase1|, 4), start, done);
    done := done + ToBytes(|t.coinbase1|, 4);
    offset := Extend(buf, offset, ToBytes(|t.coinbase2|, 4), start, done);
    done := done + ToBytes(|t.coinbase2|, 4);
    offset := Extend(buf, offset, ToBytes(|t.branches|, 4), start, done);
  }

  /** The payload: nonce, coinbase halves, branch sizes, branches. */
  method WriteVariable(buf: array<byte>, t: Task, at: nat) returns (offset: nat)
    requires at + |Variable(t)| <= buf.Length
    modifies buf
    ensures offset == at + |Variable(t)| && buf[..offset] == old(buf[..at]) + Variable(t)
  {
    hide Sizes, Flat;
    ghost var start := buf[..at];
    offset := Append(buf, at, t.extraNonce1);
    ghost var done := t.extraNonce1;
    offset := Extend(buf, offset, t.coinbase1, start, done);
    done := done + t.coinbase1;
    offset := Extend(buf, offset, t.coinbase2, start, done);
    done := done + t.coinbase2;
    offset := WriteSizes(buf, t.branches, offset);
    Regroup(start, done, Sizes(t.branches));
    done := done + Sizes(t.branches);
    offset := WriteBranches(buf, t.branches, offset);
    Regroup(start, done, Flat(t.branches));
  }

  lemma Regroup(a: seq<byte>, b: seq<byte>, c: seq<byte>)
    ensures a + b + c == a + (b + c)
  {
  }

  method WriteSizes(buf: array<byte>, branches: seq<seq<byte>>, at: nat) returns (offset: nat)
    requires at + 4 * |branches| <= buf.Length
    modifies buf
    ensures offset == at + 4 * |branches| && buf[..offset] == old(buf[..at]) + Sizes(branches)
  {
    hide ToBytes;
    ghost var all := buf[..at] + Sizes(branches);
    offset := at;
    assert branches[0..] == branches;
    for i := 0 to |branches|
      invariant offset == at + 4 * i && buf[..offset] + Sizes(branches[i..]) == all
    {
      assert branches[i..][1..] == branches[i + 1..];
      assert Sizes(branches[i..]) == ToBytes(|branches[i]|, 4) + Sizes(branches[i + 1..]);
      offset := Append(buf, offset, ToBytes(|branches[i]|, 4));
    }
    assert Sizes(branches[|branches|..]) == [];
  }

  method WriteBranches(buf: array<byte>, branches: seq<seq<byte>>, at: nat) returns (offset: nat)
    requires at + |Flat(branches)| <= buf.Length
    modifies buf
    ensures offset == at + |Flat(branches)| && buf[..offset] == old(buf[..at]) + Flat(branches)
  {
    ghost var all := buf[..at] + Flat(branches);
    offset := at;
    assert branches[0..] == branches;
    for i := 0 to |branches|
      invariant offset + |Flat(branches[i..])| == at + |Flat(branches)| && buf[..offset] + Flat(branches[i..]) == all
    {
      assert branches[i..][1..] == branches[i + 1..];
      assert Flat(branches[i..]) == branches[i] + Flat(branches[i + 1..]);
      offset := Append(buf, offset, branches[i]);
    }
    assert Flat(branches[|branches|..]) == [];
  }

  /** distributeTask's packet: an error when it does not fit, otherwise the whole signed packet. The
      job id is written after the payload and before signing; the final offset is the size
      computed at first. */
  method WritePacket(sign: Signer, t: Task, buf: array<byte>) returns (sent: Option<nat>)
    requires buf.Length == BUFFER_SIZE
    modifies buf
    ensures sent == if TotalSize(t) <= BUFFER_SIZE then Some(TotalSize(t)) else None
    ensures sent.Some? ==> buf[..sent.value] == Packet(sign, t)
  {
    hide ToBytes, FixedTail, Variable, PacketHeader;
    var total := ComputeTotal(t);
    if total > buf.Length { return None; }
    var offset := WriteBody(t, buf, total);
    var signature := sign(buf[8..offset]);
    assert buf[8..offset] == Payload(t);
    offset := Append(buf, offset, signature);
    if offset != total { return None; }
    sent := Some(total);
  }

  /** Everything up to the signature. */
  method WriteBody(t: Task, buf: array<byte>, total: nat) returns (offset: nat)
    requires total == TotalSize(t) <= buf.Length
    modifies buf
    ensures offset == total - 64 && buf[..offset] == PacketHeader(total, 68) + Payload(t)
  {
    hide ToBytes, FixedTail, Variable, PacketHeader;
    ghost var head := PacketHeader(total, 68);
    offset := Append(buf, 0, PacketHeader(total, 68));
    assert buf[..8] == head;
    ghost var hole := buf[8..16];
    assert buf[..16] == head + hole;
    offset := WriteFixed(buf, t, 16);
    offset := WriteVariable(buf, t, offset);
    ghost var tail := FixedTail(t) + Variable(t);
    Regroup(head + hole, FixedTail(t), Variable(t));
    assert buf[..offset] == head + hole + tail;
    Overwrite(buf, 8, ToBytes(t.jobId, 8), offset);
    Patched(head, hole, tail, ToBytes(t.jobId, 8));
    Regroup(ToBytes(t.jobId, 8), FixedTail(t), Variable(t));
  }

  lemma Patched(head: seq<byte>, hole: seq<byte>, tail: seq<byte>, id: seq<byte>)
    requires |head| == |hole| == |id| == 8
    ensures var s := head + hole + tail; s[..8] + id + s[16..|s|] == head + (id + tail)
  {
  }

  // ----- The reader -----

  datatype TaskInfo = TaskInfo(
    jobId: nat, kind: byte, clean: bool, difficulty: seq<byte>, version: seq<byte>, nTime: seq<byte>, nBits: seq<byte>, prevHash: seq<byte>,
    extraNonce1: seq<byte>, coinbase1: seq<byte>, coinbase2: seq<byte>, branches: seq<seq<byte>>, signature: seq<byte>)

  /** A length-prefixed part: taken when the length is positive and it ends before the signature. */
  function Part(p: seq<byte>, offset: nat, n: nat, sigStart: nat): (r: seq<byte>)
    requires sigStart <= |p|
    ensures r == [] || offset + |r| <= sigStart
  {
    if n > 0 && offset + n <= sigStart then p[offset..offset + n] else []
  }

  /** The branch loop: 32 bytes at a time while they end before the signature; an index outside the
      array throws, which ends the loop. */
  function BranchesFrom(p: seq<byte>, offset: int, n: nat, sigStart: nat): seq<seq<byte>>
    requires sigStart <= |p|
    decreases n
  {
    if n == 0 || Int32(offset + 32) > sigStart || offset < 0 || offset + 32 > |p| then []
    else [p[offset..offset + 32]] + BranchesFrom(p, offset + 32, n - 1, sigStart)
  }

  /** The four counts at the end of the fixed struct. */
  function Count(p: seq<byte>, h: nat, i: nat): nat
    requires i < 4 && h + 74 <= |p|
  {
    LittleEndian(p[h + 58 + 4 * i..h + 62 + 4 * i])
  }

  function Parsed(p: seq<byte>, h: nat): Option<TaskInfo> {
    if |p| < h + 9 + 65 + 64 then None
    else
      var sigStart := |p| - 64;
      var e1 := Part(p, h + 74, Count(p, h, 0), sigStart);
      var c1 := Part(p, h + 74 + |e1|, Count(p, h, 1), sigStart);
      var c2 := Part(p, h + 74 + |e1| + |c1|, Count(p, h, 2), sigStart);
      var n := Count(p, h, 3);
      var offset := Int32(h + 74 + |e1| + |c1| + |c2| + Int32(Int32(n) * 4));
      Some(TaskInfo(
        LittleEndian(p[h..h + 8]), p[h + 8], p[h + 9] != 0, p[h + 10..h + 14], p[h + 14..h + 18], p[h + 18..h + 22], p[h + 22..h + 26],
        p[h + 26..h + 58], e1, c1, c2, BranchesFrom(p, offset, n, sigStart), p[sigStart..]))
  }

  method ReadPart(p: seq<byte>, at: nat, n: nat, sigStart: nat) returns (r: seq<byte>, offset: nat)
    requires sigStart <= |p|
    ensures r == Part(p, at, n, sigStart) && offset == at + |r|
  {
    r, offset := [], at;
    if n > 0 && offset + n <= sigStart {
      r := p[offset..offset + n];
      offset := offset + n;
    }
  }

  /** DogeTaskParser.Parse. */
  method Parse(p: seq<byte>, h: nat) returns (info: Option<TaskInfo>)
    ensures info == Parsed(p, h)
  {
    hide LittleEndian, Int32, Count, Part;
    if |p| < h + 9 + 65 + 64 { return None; }
    var sigStart := |p| - 64;
    var e1, offset := ReadPart(p, h + 74, Count(p, h, 0), sigStart);
    var c1, offset1 := ReadPart(p, offset, Count(p, h, 1), sigStart);
    var c2, offset2 := ReadPart(p, offset1, Count(p, h, 2), sigStart);
    var n := Count(p, h, 3);
    var start := Int32(offset2 + Int32(Int32(n) * 4));
    var branches := ReadBranches(p, start, n, sigStart);
    info := Some(TaskInfo(
      LittleEndian(p[h..h + 8]), p[h + 8], p[h + 9] != 0, p[h + 10..h + 14], p[h + 14..h + 18], p[h + 18..h + 22], p[h + 22..h + 26],
      p[h + 26..h + 58], e1, c1, c2, branches, p[sigStart..]));
  }

  method ReadBranches(p: seq<byte>, start: int, n: nat, sigStart: nat) returns (branches: seq<seq<byte>>)
    requires sigStart <= |p|
    ensures branches == BranchesFrom(p, start, n, sigStart)
  {
    branches := [];
    var offset := start;
    var i := 0;
    while i < n && Int32(offset + 32) <= sigStart
      invariant 0 <= i <= n
      invariant branches + BranchesFrom(p, offset, n - i, sigStart) == BranchesFrom(p, start, n, sigStart)
    {
      if offset < 0 || offset + 32 > |p| { return; }
      branches := branches + [p[offset..offset + 32]];
      offset := offset + 32;
      i := i + 1;
    }
  }

  // ----- Reading back what was written -----

  predicate AllThirtyTwo(branches: seq<seq<byte>>) {
    forall i :: 0 <= i < |branches| ==> |branches[i]| == 32
  }

  lemma {:induction false} EveryBranchReadIs32(p: seq<byte>, offset: int, n: nat, sigStart: nat)
    requires sigStart <= |p|
    ensures AllThirtyTwo(BranchesFrom(p, offset, n, sigStart))
    decreases n
  {
    hide Int32;
    if !(n == 0 || Int32(offset + 32) > sigStart || offset < 0 || offset + 32 > |p|) {
      EveryBranchReadIs32(p, offset + 32, n - 1, sigStart);
    }
  }

  /** The loop recovers 32-byte branches laid out up to the signature. */
  lemma {:induction false} BranchesReadBack(p: seq<byte>, offset: nat, branches: seq<seq<byte>>, sigStart: nat)
    requires sigStart <= |p| && sigStart < 0x7000_0000 && AllThirtyTwo(branches)
    requires offset + |Flat(branches)| == sigStart && p[offset..sigStart] == Flat(branches)
    ensures BranchesFrom(p, offset, |branches|, sigStart) == branches
    decreases |branches|
  {
    if branches != [] {
      assert |branches[0]| == 32;
      assert Flat(branches)[..32] == branches[0] && Flat(branches)[32..] == Flat(branches[1..]);
      assert p[offset..offset + 32] == p[offset..sigStart][..32];
      assert p[offset + 32..sigStart] == p[offset..sigStart][32..];
      BranchesReadBack(p, offset + 32, branches[1..], sigStart);
    }
  }

  lemma {:induction false} CountValue(n: nat)
    requires n <= BUFFER_SIZE
    ensures LittleEndian(ToBytes(n, 4)) == n
  {
    Pow2Values();
    RoundTripNumber(n, 4);
  }

  /** Where the fixed fields lie. */
  lemma FixedFields(t: Task, p: seq<byte>, rest: seq<byte>)
    requires p == Fixed(t) + rest
    ensures p[0..8] == ToBytes(t.jobId, 8) && p[8] == 0 && p[9] == (if t.clean then 1 else 0)
    ensures p[10..14] == t.difficulty && p[14..18] == t.version && p[18..22] == t.nTime && p[22..26] == t.nBits && p[26..58] == t.prevHash
    ensures p[58..74] == Counts(t)
  {
    hide ToBytes, Counts;
    var f := HeaderFields(t);
    assert p[8..58] == f;
    assert f[2..6] == t.difficulty && f[6..10] == t.version && f[10..14] == t.nTime && f[14..18] == t.nBits && f[18..50] == t.prevHash;
    assert p[8] == f[0] && p[9] == f[1];
    assert p[10..14] == f[2..6] && p[14..18] == f[6..10] && p[18..22] == f[10..14] && p[22..26] == f[14..18] && p[26..58] == f[18..50];
  }

  lemma CountFields(t: Task, p: seq<byte>, rest: seq<byte>)
    requires p == Fixed(t) + rest && TotalSize(t) <= BUFFER_SIZE
    ensures Count(p, 0, 0) == |t.extraNonce1| && Count(p, 0, 1) == |t.coinbase1| && Count(p, 0, 2) == |t.coinbase2|
    ensures Count(p, 0, 3) == |t.branches|
  {
    FixedFields(t, p, rest);
    hide ToBytes, LittleEndian, Fixed, Flat, Sizes;
    Quarters(p, Counts(t), ToBytes(|t.extraNonce1|, 4), ToBytes(|t.coinbase1|, 4), ToBytes(|t.coinbase2|, 4), ToBytes(|t.branches|, 4));
    CountValue(|t.extraNonce1|);
    CountValue(|t.coinbase1|);
    CountValue(|t.coinbase2|);
    CountValue(|t.branches|);
  }

  lemma Quarters(p: seq<byte>, c: seq<byte>, w: seq<byte>, x: seq<byte>, y: seq<byte>, z: seq<byte>)
    requires |w| == |x| == |y| == |z| == 4 && c == w + x + y + z && |p| >= 74 && p[58..74] == c
    ensures p[58..62] == w && p[62..66] == x && p[66..70] == y && p[70..74] == z
  {
    Middle([], w, x + y + z, c);
    Middle(w, x, y + z, c);
    Middle(w + x, y, z, c);
    Middle(w + x + y, z, [], c);
    Within(p, c, 58, 0, 4);
    Within(p, c, 58, 4, 8);
    Within(p, c, 58, 8, 12);
    Within(p, c, 58, 12, 16);
  }

  /** Where the variable parts lie. */
  lemma VariableFields(t: Task, p: seq<byte>, sig: Signature)
    requires p == Payload(t) + sig
    ensures
      var a, b, c := 74 + |t.extraNonce1|, 74 + |t.extraNonce1| + |t.coinbase1|, 74 + |t.extraNonce1| + |t.coinbase1| + |t.coinbase2|;
      && c + 4 * |t.branches| + |Flat(t.branches)| == |p| - 64
      && p[74..a] == t.extraNonce1 && p[a..b] == t.coinbase1 && p[b..c] == t.coinbase2
      && p[c + 4 * |t.branches|..|p| - 64] == Flat(t.branches) && p[|p| - 64..] == sig
  {
    hide Fixed, Flat, Sizes;
    Located(p, Fixed(t), t.extraNonce1, t.coinbase1, t.coinbase2, Sizes(t.branches), Flat(t.branches), sig);
  }

  lemma Located(p: seq<byte>, fixed: seq<byte>, x: seq<byte>, y: seq<byte>, z: seq<byte>, s: seq<byte>, f: seq<byte>, sig: seq<byte>)
    requires |fixed| == 74 && p == fixed + (x + y + z + s + f) + sig
    ensures
      var a, b, c := 74 + |x|, 74 + |x| + |y|, 74 + |x| + |y| + |z|;
      && c + |s| + |f| == |p| - |sig| && p[74..a] == x && p[a..b] == y && p[b..c] == z
      && p[c + |s|..|p| - |sig|] == f && p[|p| - |sig|..] == sig
  {
    var v, b, c := x + y + z + s + f, |x| + |y|, |x| + |y| + |z|;
    Pieces(x, y, z, s, f);
    assert p[74..74 + |v|] == v;
    Within(p, v, 74, 0, |x|);
    Within(p, v, 74, |x|, b);
    Within(p, v, 74, b, c);
    Within(p, v, 74, c + |s|, |v|);
  }

  lemma Pieces(x: seq<byte>, y: seq<byte>, z: seq<byte>, s: seq<byte>, f: seq<byte>)
    ensures
      var v, a := x + y + z + s + f, |x| + |y|;
      v[0..|x|] == x && v[|x|..a] == y && v[a..a + |z|] == z && v[a + |z| + |s|..] == f
  {
  }

  lemma Within(p: seq<byte>, v: seq<byte>, at: nat, lo: nat, hi: nat)
    requires lo <= hi <= |v| && at + |v| <= |p| && p[at..at + |v|] == v
    ensures p[at + lo..at + hi] == v[lo..hi]
  {
    var x, y := p[at + lo..at + hi], v[lo..hi];
    assert forall k :: 0 <= k < |v| ==> v[k] == p[at + k];
    assert forall k :: 0 <= k < hi - lo ==> x[k] == p[at + (lo + k)] && y[k] == v[lo + k];
  }

  /** What the dispatcher sends after the packet header, the reader returns field by field; the
      branches come back as they were exactly when each of them has 32 bytes. */
  lemma ReadBack(sign: Signer, t: Task, p: seq<byte>)
    requires TotalSize(t) <= BUFFER_SIZE && p == Packet(sign, t)[8..]
    ensures Parsed(p, 0).Some?
    ensures
      var i := Parsed(p, 0).value;
      && i.jobId == t.jobId && i.kind == 0 && i.clean == t.clean && i.difficulty == t.difficulty && i.version == t.version
      && i.nTime == t.nTime && i.nBits == t.nBits && i.prevHash == t.prevHash
      && i.extraNonce1 == t.extraNonce1 && i.coinbase1 == t.coinbase1 && i.coinbase2 == t.coinbase2
      && i.signature == sign(Payload(t))
      && (i.branches == t.branches <==> AllThirtyTwo(t.branches))
  {
    hide ToBytes, Variable, LittleEndian, Count, Part, Int32, BranchesFrom, Flat, Sizes, PacketHeader, Fixed;
    var sig := sign(Payload(t));
    assert p == Payload(t) + sig;
    assert p == Fixed(t) + (Variable(t) + sig);
    FixedFields(t, p, Variable(t) + sig);
    JobIdRead(t.jobId);
    PartsRead(t, p, sig);
    BranchesOf(t, p, sig);
  }

  lemma {:induction false} JobIdRead(x: u64)
    ensures LittleEndian(ToBytes(x, 8)) == x
  {
    Pow2Values();
    RoundTripNumber(x, 8);
  }

  lemma PartsRead(t: Task, p: seq<byte>, sig: Signature)
    requires TotalSize(t) <= BUFFER_SIZE && p == Payload(t) + sig
    ensures
      var s := |p| - 64;
      var a, b := 74 + |t.extraNonce1|, 74 + |t.extraNonce1| + |t.coinbase1|;
      && Part(p, 74, Count(p, 0, 0), s) == t.extraNonce1
      && Part(p, a, Count(p, 0, 1), s) == t.coinbase1
      && Part(p, b, Count(p, 0, 2), s) == t.coinbase2
      && Count(p, 0, 3) == |t.branches| && p[s..] == sig
  {
    hide Fixed, Variable, Count, Part, Flat, Sizes;
    assert p == Fixed(t) + (Variable(t) + sig);
    CountFields(t, p, Variable(t) + sig);
    VariableFields(t, p, sig);
    var a, b := 74 + |t.extraNonce1|, 74 + |t.extraNonce1| + |t.coinbase1|;
    PartRead(p, 74, t.extraNonce1, |p| - 64);
    PartRead(p, a, t.coinbase1, |p| - 64);
    PartRead(p, b, t.coinbase2, |p| - 64);
  }

  lemma PartRead(p: seq<byte>, offset: nat, x: seq<byte>, sigStart: nat)
    requires offset + |x| <= sigStart <= |p| && p[offset..offset + |x|] == x
    ensures Part(p, offset, |x|, sigStart) == x
  {
  }

  lemma BranchesOf(t: Task, p: seq<byte>, sig: Signature)
    requires TotalSize(t) <= BUFFER_SIZE && p == Payload(t) + sig
    ensures
      var offset := 74 + |t.extraNonce1| + |t.coinbase1| + |t.coinbase2|;
      var n := |t.branches|;
      && Int32(offset + Int32(Int32(n) * 4)) == offset + 4 * n
      && (BranchesFrom(p, offset + 4 * n, n, |p| - 64) == t.branches <==> AllThirtyTwo(t.branches))
  {
    hide Fixed, BranchesFrom, Int32, Flat, Sizes, Variable;
    VariableFields(t, p, sig);
    var offset := 74 + |t.extraNonce1| + |t.coinbase1| + |t.coinbase2|;
    var n := |t.branches|;
    Int32Small(n);
    Int32Small(n * 4);
    Int32Small(offset + 4 * n);
    EveryBranchReadIs32(p, offset + 4 * n, n, |p| - 64);
    if AllThirtyTwo(t.branches) {
      BranchesReadBack(p, offset + 4 * n, t.branches, |p| - 64);
    }
  }
}
