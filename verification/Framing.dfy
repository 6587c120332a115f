/** Reassembly of packets from a TCP byte stream, for every way the receiver cuts the stream into
    chunks. */
module Framing {
  import opened Bytes

  const HEADER_SIZE := 8
  const MAX_PACKET := 10 * 1024 * 1024
  const INT32_MAX := 0x7FFF_FFFF

  /** RequestResponseHeader::size: the 24-bit size, with zero read as impossibly large. */
  function Size(s: seq<byte>): (n: nat)
    requires |s| >= HEADER_SIZE
    ensures n > 0
  {
    var b: seq<int> := s[..3];
    var n := b[0] + 0x100 * b[1] + 0x1_0000 * b[2];
    if n == 0 then INT32_MAX else n
  }

  /** The size is the little-endian number in the first three bytes, unless that is 0. */
  lemma SizeIsLittleEndian(s: seq<byte>)
    requires |s| >= HEADER_SIZE
    ensures Size(s) == if LittleEndian(s[..3]) == 0 then INT32_MAX else LittleEndian(s[..3])
  {
    var b := s[..3];
    assert b[1..][0] == b[1] && b[1..][1..][0] == b[2] && b[1..][1..][1..] == [];
    assert LittleEndian(b) == b[0] + 256 * LittleEndian(b[1..]) && LittleEndian(b[1..]) == b[1] + 256 * LittleEndian(b[1..][1..]);
    assert LittleEndian(b[1..][1..]) == b[2] + 256 * LittleEndian([]);
  }

  predicate Broken(n: nat) {
    n < HEADER_SIZE || n > MAX_PACKET
  }

  /** The packets handed on, and what stays in the buffer. */
  datatype Split = Split(packets: seq<seq<byte>>, rest: seq<byte>)

  function Prepend(p: seq<byte>, s: Split): Split {
    Split([p] + s.packets, s.rest)
  }

  /** One call on a buffer holding s. A broken header empties the buffer. */
  function Cut(s: seq<byte>): (r: Split)
    decreases |s|
  {
    if |s| < HEADER_SIZE then Split([], s)
    else
      var n := Size(s);
      if Broken(n) then Split([], [])
      else if n > |s| then Split([], s)
      else Prepend(s[..n], Cut(s[n..]))
  }

  /** The left-over is always shorter than the largest packet. */
  lemma {:induction false} LeftOverBound(s: seq<byte>)
    ensures |Cut(s).rest| < MAX_PACKET
    decreases |s|
  {
    hide Size;
    if |s| >= HEADER_SIZE && !Broken(Size(s)) && Size(s) <= |s| {
      LeftOverBound(s[Size(s)..]);
    }
  }

  /** One more chunk after the calls that gave x. */
  function Then(x: Split, chunk: seq<byte>): Split {
    var y := Cut(x.rest + chunk);
    Split(x.packets + y.packets, y.rest)
  }

  /** The calls for a sequence of chunks, starting from an empty buffer. */
  function Fed(chunks: seq<seq<byte>>): Split {
    if chunks == [] then Split([], []) else Then(Fed(chunks[..|chunks| - 1]), chunks[|chunks| - 1])
  }

  function Concat(chunks: seq<seq<byte>>): seq<byte> {
    if chunks == [] then [] else Concat(chunks[..|chunks| - 1]) + chunks[|chunks| - 1]
  }

  /** No broken header at a packet boundary, except as the very last eight bytes. */
  predicate Settled(s: seq<byte>)
    decreases |s|
  {
    if |s| < HEADER_SIZE then true
    else if Broken(Size(s)) then |s| == HEADER_SIZE
    else Size(s) > |s| || Settled(s[Size(s)..])
  }

  lemma SizeOfPrefix(a: seq<byte>, b: seq<byte>)
    requires |a| >= HEADER_SIZE
    ensures Size(a + b) == Size(a)
  {
    assert (a + b)[..3] == a[..3];
  }

  /** Cutting a settled stream in two changes nothing. */
  lemma {:induction false} CutInTwo(a: seq<byte>, b: seq<byte>)
    requires Settled(a + b)
    ensures Then(Cut(a), b) == Cut(a + b)
    decreases |a|
  {
    hide Size;
    if |a| >= HEADER_SIZE {
      SizeOfPrefix(a, b);
      var n := Size(a);
      if Broken(n) {
        assert b == [];
      } else if n <= |a| {
        assert (a + b)[..n] == a[..n] && (a + b)[n..] == a[n..] + b;
        CutInTwo(a[n..], b);
        var x, y := Cut(a[n..]), Cut(a[n..] + b);
        assert [a[..n]] + (x.packets + Cut(x.rest + b).packets) == [a[..n]] + x.packets + Cut(x.rest + b).packets;
      }
    }
  }

  lemma {:induction false} SettledPrefix(a: seq<byte>, b: seq<byte>)
    requires Settled(a + b)
    ensures Settled(a)
    decreases |a|
  {
    hide Size;
    if |a| >= HEADER_SIZE {
      SizeOfPrefix(a, b);
      var n := Size(a);
      if !Broken(n) && n <= |a| {
        assert (a + b)[n..] == a[n..] + b;
        SettledPrefix(a[n..], b);
      }
    }
  }

  /** However a settled stream is cut, the same packets come out in the same order. */
  lemma {:induction false} AnyChunks(chunks: seq<seq<byte>>)
    requires Settled(Concat(chunks))
    ensures Fed(chunks) == Cut(Concat(chunks))
  {
    if chunks != [] {
      var a, b := Concat(chunks[..|chunks| - 1]), chunks[|chunks| - 1];
      SettledPrefix(a, b);
      AnyChunks(chunks[..|chunks| - 1]);
      CutInTwo(a, b);
    }
  }

  /** An unsettled stream is cut differently when its last byte comes alone. */
  lemma {:induction false} LastByteAlone(s: seq<byte>)
    requires !Settled(s)
    ensures s != [] && Cut(s).rest == [] && Then(Cut(s[..|s| - 1]), s[|s| - 1..]).rest == s[|s| - 1..]
    decreases |s|
  {
    hide Size;
    var a, b := s[..|s| - 1], s[|s| - 1..];
    assert s == a + b;
    if Broken(Size(s)) {
      SizeOfPrefix(a, b);
    } else {
      var n := Size(s);
      LastByteAlone(s[n..]);
      assert |a| >= n;
      assert a[n..] == s[n..][..|s| - n - 1] && b == s[n..][|s| - n - 1..];
      if |a| >= HEADER_SIZE { SizeOfPrefix(a, b); }
    }
  }

  /** Chunk independence, exactly: every two-way cut agrees with the whole if and only if the
      stream is settled. */
  lemma ChunkIndependence(s: seq<byte>)
    ensures Settled(s) <==> forall k :: 0 <= k <= |s| ==> Then(Cut(s[..k]), s[k..]) == Cut(s)
  {
    hide Cut, Settled;
    if Settled(s) {
      forall k | 0 <= k <= |s| ensures Then(Cut(s[..k]), s[k..]) == Cut(s) {
        assert s == s[..k] + s[k..];
        CutInTwo(s[..k], s[k..]);
      }
    } else {
      LastByteAlone(s);
      assert Then(Cut(s[..|s| - 1]), s[|s| - 1..]) != Cut(s);
    }
  }

  /** A stream cut differently: eight zero bytes announce an impossible size and are dropped, with
      the byte after them when it is already there. */
  lemma NinthByteKept(s: seq<byte>, b: byte)
    requires s == Zeros(HEADER_SIZE)
    ensures !Settled(s + [b]) && Cut(s + [b]) == Split([], []) && Fed([s, [b]]) == Split([], [b])
  {
    assert Size(s) == Size(s + [b]) == INT32_MAX;
    assert [s, [b]][..1] == [s] && [s][..0] == [];
    assert Fed([s]) == Then(Split([], []), s) && [] + s == s;
    assert Cut(s) == Split([], []);
    assert [] + [b] == [b] && Cut([b]) == Split([], [b]);
  }

  // ----- Streams of packets -----

  predicate IsPacket(p: seq<byte>) {
    HEADER_SIZE <= |p| <= MAX_PACKET && Size(p) == |p|
  }

  function Flat(packets: seq<seq<byte>>): seq<byte> {
    if packets == [] then [] else packets[0] + Flat(packets[1..])
  }

  /** The start of a packet that has not arrived in full. */
  predicate Incomplete(s: seq<byte>) {
    |s| < HEADER_SIZE || (!Broken(Size(s)) && |s| < Size(s))
  }

  /** Packets of legal size, whole ones and the start of another, are handed on as they were sent. */
  lemma {:induction false} PacketsHandedOn(packets: seq<seq<byte>>, tail: seq<byte>)
    requires (forall i :: 0 <= i < |packets| ==> IsPacket(packets[i])) && Incomplete(tail)
    ensures Cut(Flat(packets) + tail) == Split(packets, tail) && Settled(Flat(packets) + tail)
    decreases |packets|
  {
    hide Size;
    if packets == [] {
      assert Flat(packets) + tail == tail;
    } else {
      var p, rest := packets[0], Flat(packets[1..]) + tail;
      assert Flat(packets) + tail == p + rest;
      SizeOfPrefix(p, rest);
      assert (p + rest)[..|p|] == p && (p + rest)[|p|..] == rest;
      PacketsHandedOn(packets[1..], tail);
    }
  }

  /** Whatever the chunks, the packets sent are the packets received. */
  lemma SentIsReceived(packets: seq<seq<byte>>, tail: seq<byte>, chunks: seq<seq<byte>>)
    requires (forall i :: 0 <= i < |packets| ==> IsPacket(packets[i])) && Incomplete(tail)
    requires Concat(chunks) == Flat(packets) + tail
    ensures Fed(chunks) == Split(packets, tail)
  {
    PacketsHandedOn(packets, tail);
    AnyChunks(chunks);
  }

  // ----- The receive buffer -----

  class RecvBuffer {
    var buf: seq<byte>
    var packets: seq<seq<byte>>

    predicate Valid()
      reads this
    {
      |buf| < MAX_PACKET
    }

    constructor ()
      ensures Valid() && buf == [] && packets == []
    {
      buf, packets := [], [];
    }

    /** processRecvBuffer: packets are handed on from a moving position, then erased at once. */
    method Process()
      modifies this
      ensures Valid()
      ensures buf == Cut(old(buf)).rest && packets == old(packets) + Cut(old(buf)).packets
    {
      hide Size;
      LeftOverBound(buf);
      var pos := 0;
      ghost var whole := Cut(buf);
      while pos + HEADER_SIZE <= |buf|
        invariant 0 <= pos <= |buf| && buf == old(buf)
        invariant packets + Cut(buf[pos..]).packets == old(packets) + whole.packets && Cut(buf[pos..]).rest == whole.rest
        decreases |buf| - pos
      {
        var packetSize := Size(buf[pos..]);
        if Broken(packetSize) {
          buf := [];
          return;
        }
        if pos + packetSize > |buf| { break; }
        assert buf[pos..][..packetSize] == buf[pos..pos + packetSize] && buf[pos..][packetSize..] == buf[pos + packetSize..];
        packets := packets + [buf[pos..pos + packetSize]];
        pos := pos + packetSize;
      }
      assert Cut(buf[pos..]) == Split([], buf[pos..]);
      if pos > 0 { buf := buf[pos..]; }
    }

    /** One read of the receive loop. */
    method Receive(chunk: seq<byte>)
      requires Valid() && |chunk| <= 4096
      modifies this
      ensures Valid()
      ensures Split(packets, buf) == Then(old(Split(packets, buf)), chunk)
    {
      hide Cut;
      buf := buf + chunk;
      Process();
    }
  }

  /** A run of the receive loop over all chunks of a connection. */
  method ReceiveAll(chunks: seq<seq<byte>>) returns (packets: seq<seq<byte>>, rest: seq<byte>)
    requires forall i :: 0 <= i < |chunks| ==> |chunks[i]| <= 4096
    ensures Split(packets, rest) == Fed(chunks) && |rest| < MAX_PACKET
    ensures Settled(Concat(chunks)) ==> Split(packets, rest) == Cut(Concat(chunks))
  {
    hide Cut, Settled, Concat;
    var r := new RecvBuffer();
    for i := 0 to |chunks|
      invariant fresh(r) && r.Valid() && Split(r.packets, r.buf) == Fed(chunks[..i])
    {
      assert chunks[..i + 1][..i] == chunks[..i];
      r.Receive(chunks[i]);
    }
    assert chunks[..|chunks|] == chunks;
    packets, rest := r.packets, r.buf;
    if Settled(Concat(chunks)) { AnyChunks(chunks); }
  }
}
