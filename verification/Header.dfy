/** The 80-byte block header: the pool sends a template as stratum parameters, the dispatcher
    builds a header from them and hashes it, and the pool rebuilds the header from the submitted
    hex strings. */
module Header {
  import opened Wrappers
  import opened Bytes
  import opened Hex

  const TWO31 := 0x8000_0000
  const TWO32 := 0x1_0000_0000

  /** The parts of a block template that reach the header. */
  datatype Template = Template(version: int, previousblockhash: string, bits: string, curtime: int)

  /** The mining.notify parameters that reach the header. */
  datatype Params = Params(prevHash: string, version: string, nbits: string, ntime: string)

  // ----- The pool's buffers -----

  function Word32BE(x: int): (b: seq<byte>)
    requires 0 <= x < TWO32
    ensures |b| == 4
  {
    [x / 0x100_0000, x / 0x1_0000 % 256, x / 0x100 % 256, x % 256]
  }

  lemma Word32Value(x: int)
    requires 0 <= x < TWO32
    ensures BigEndianValue(Word32BE(x)) == x
  {
    FourBytesValue(Word32BE(x));
    var p := x / 0x100;
    assert x == 0x100 * p + x % 0x100 && p == 0x100 * (p / 0x100) + p % 0x100 && p / 0x100 == 0x100 * (p / 0x100 / 0x100) + p / 0x100 % 0x100;
    DivideTwice(x, 0x100, 0x100);
    DivideTwice(x, 0x1_0000, 0x100);
  }

  /** packInt32BE: writeInt32BE throws outside the signed range. */
  function PackInt32BE(x: int): Option<seq<byte>> {
    if -TWO31 <= x < TWO31 then Some(Word32BE(x % TWO32)) else None
  }

  /** packUInt32BE and writeUInt32BE throw outside the unsigned range. */
  function PackUInt32BE(x: int): Option<seq<byte>> {
    if 0 <= x < TWO32 then Some(Word32BE(x)) else None
  }

  /** Each four-byte word of the first 8n bytes with its bytes reversed. */
  function SwapWords(b: seq<byte>, n: nat): (r: seq<byte>)
    requires 4 * n <= |b|
    ensures |r| == |b|
  {
    seq(|b|, i requires 0 <= i < |b| => if i < 4 * n then b[SwapIndex(i)] else b[i])
  }

  /** 3, 2, 1, 0, 7, 6, 5, 4, ... */
  function SwapIndex(i: nat): (j: nat)
    ensures j / 4 == i / 4 && j % 4 == 3 - i % 4
  {
    i - i % 4 + 3 - i % 4
  }

  /** The hash with its words in reverse order, as the pool sends it. */
  function WordReversed(b: seq<byte>): (r: seq<byte>)
    requires |b| >= 32
    ensures |r| == |b|
  {
    Reversed(SwapWords(b, 8))
  }

  /** reverseByteOrder: each word read big-endian and written little-endian in place, then all
      bytes reversed. */
  method ReverseByteOrder(buff: array<byte>) returns (r: seq<byte>)
    requires buff.Length >= 32
    modifies buff
    ensures r == WordReversed(old(buff[..]))
  {
    hide Reversed;
    for i := 0 to 8
      invariant forall k :: 0 <= k < buff.Length ==> buff[k] == if k < 4 * i then old(buff[SwapIndex(k)]) else old(buff[k])
    {
      SwapWord(buff, i * 4, i);
    }
    assert buff[..] == SwapWords(old(buff[..]), 8);
    r := ReverseBytes(buff[..]);
  }

  method SwapWord(buff: array<byte>, at: nat, ghost i: nat)
    requires at == 4 * i && at + 4 <= buff.Length
    modifies buff
    ensures forall k :: 0 <= k < buff.Length ==> buff[k] == if k / 4 == i then old(buff[SwapIndex(k)]) else old(buff[k])
  {
    buff[at], buff[at + 1], buff[at + 2], buff[at + 3] := buff[at + 3], buff[at + 2], buff[at + 1], buff[at];
  }

  /** buffer.write(s, at, len, 'hex'). */
  method WriteHex(header: array<byte>, s: string, at: nat, len: nat)
    requires at + len <= header.Length
    modifies header
    ensures forall k :: 0 <= k < header.Length ==>
      header[k] == if at <= k < at + len && k - at < |JsDecode(s)| then JsDecode(s)[k - at] else old(header[k])
  {
    var b := JsDecode(s);
    var n := if |b| < len then |b| else len;
    forall k | 0 <= k < n { header[at + k] := b[k]; }
  }

  // ----- The pool -----

  /** handleParameters: None when a buffer write throws. */
  function Parameters(t: Template): Option<Params> {
    var prev := JsDecode(t.previousblockhash);
    var version := PackInt32BE(t.version);
    var time := PackUInt32BE(t.curtime);
    if |prev| < 32 || version.None? || time.None? then None
    else Some(Params(HexOf(WordReversed(prev)), HexOf(version.value), t.bits, HexOf(time.value)))
  }

  /** n bytes of a zeroed buffer after buffer.write(s, at, n, 'hex'). */
  function Field(s: string, n: nat): (b: seq<byte>)
    ensures |b| == n
  {
    var d := JsDecode(s);
    seq(n, k requires 0 <= k < n => if k < |d| then d[k] else 0)
  }

  /** The header before the last reversal. */
  function Fields(t: Template, merkleRoot: seq<byte>, nTime: string, nonce: string): (h: seq<byte>)
    requires |merkleRoot| == 32 && 0 <= t.version < TWO32
    ensures |h| == 80
  {
    Field(nonce, 4) + Field(t.bits, 4) + Field(nTime, 4) + Reversed(merkleRoot) + Field(t.previousblockhash, 32) + Word32BE(t.version)
  }

  function PoolHeader(t: Template, merkleRoot: seq<byte>, nTime: string, nonce: string): Option<seq<byte>>
    requires |merkleRoot| == 32
  {
    if 0 <= t.version < TWO32 then Some(Reversed(Fields(t, merkleRoot, nTime, nonce))) else None
  }

  /** handleHeader: the fields written at a moving position, then everything reversed. */
  method HandleHeader(t: Template, merkleRoot: seq<byte>, nTime: string, nonce: string) returns (header: Option<seq<byte>>)
    requires |merkleRoot| == 32
    ensures header == PoolHeader(t, merkleRoot, nTime, nonce)
  {
    hide JsDecode, Reversed, HexOf, Word32BE;
    var position := 0;
    var h := new byte[80](_ => 0);
    WriteHex(h, nonce, position, 4);
    position := position + 4;
    WriteHex(h, t.bits, position, 4);
    position := position + 4;
    WriteHex(h, nTime, position, 4);
    position := position + 4;
    var root := ReverseBytes(merkleRoot);
    DecodeHexOf(root);
    WriteHex(h, HexOf(root), position, 32);
    position := position + 32;
    WriteHex(h, t.previousblockhash, position, 32);
    position := position + 32;
    if t.version < 0 || t.version >= TWO32 { return None; }
    WriteWord(h, position, Word32BE(t.version));
    assert h[..] == Fields(t, merkleRoot, nTime, nonce);
    var r := ReverseBytes(h[..]);
    header := Some(r);
  }

  method WriteWord(h: array<byte>, at: nat, v: seq<byte>)
    requires |v| == 4 && at + 4 <= h.Length
    modifies h
    ensures forall k :: 0 <= k < h.Length ==> h[k] == if at <= k < at + 4 then v[k - at] else old(h[k])
  {
    h[at], h[at + 1], h[at + 2], h[at + 3] := v[0], v[1], v[2], v[3];
  }

  // ----- The dispatcher -----

  /** The version and previous hash, and the network target, as they stand in the header. */
  datatype Partial = Partial(header: seq<byte>, nBits: seq<byte>)

  /** What distributeTask keeps of the parameters; None when a size is not the expected one. */
  function PartialHeader(p: Params): Option<Partial> {
    var version := Reversed(CppDecode(p.version));
    var ntime := Reversed(CppDecode(p.ntime));
    var nbits := Reversed(CppDecode(p.nbits));
    var prev := CppDecode(p.prevHash);
    if |version| != 4 || |prev| != 32 || |ntime| != 4 || |nbits| != 4 then None
    else Some(Partial(version + SwapWords(prev, 8), nbits))
  }

  /** The swap loop over the whole words of prevHash. */
  method SwapInPlace(b: array<byte>)
    modifies b
    ensures b[..] == SwapWords(old(b[..]), b.Length / 4)
  {
    var i := 0;
    ghost var h := 0;
    while i + 3 < b.Length
      invariant i == 4 * h && h <= b.Length / 4
      invariant forall k :: 0 <= k < b.Length ==> b[k] == if k < 4 * h then old(b[SwapIndex(k)]) else old(b[k])
    {
      SwapWord(b, i, h);
      i := i + 4;
      h := h + 1;
    }
  }

  method Distribute(p: Params) returns (r: Option<Partial>)
    ensures r == PartialHeader(p)
  {
    hide CppDecode, Reversed, SwapWords;
    var version := HexToBytes(p.version, LittleEndian);
    var ntime := HexToBytes(p.ntime, LittleEndian);
    var nbits := HexToBytes(p.nbits, LittleEndian);
    var prev := HexToBytes(p.prevHash, BigEndian);
    var a := new byte[|prev|](i requires 0 <= i < |prev| => prev[i]);
    assert a[..] == prev;
    SwapInPlace(a);
    var prevHash := a[..];
    if |version| != 4 || |prevHash| != 32 || |ntime| != 4 || |nbits| != 4 { return None; }
    r := Some(Partial(version + prevHash, nbits));
  }

  /** The header the validator hashes, assembled at a moving offset. */
  function DispatcherHeader(d: Partial, merkleRoot: seq<byte>, nTime: seq<byte>, nonce: seq<byte>): seq<byte> {
    d.header + merkleRoot + nTime + d.nBits + nonce
  }

  /** The fields copied to a moving offset of the 80-byte buffer. */
  method Assemble(d: Partial, merkleRoot: seq<byte>, nTime: seq<byte>, nonce: seq<byte>) returns (full: array<byte>)
    requires |d.header| == 36 && |d.nBits| == 4 && |merkleRoot| == 32 && |nTime| == |nonce| == 4
    ensures full.Length == 80 && full[..] == DispatcherHeader(d, merkleRoot, nTime, nonce)
  {
    full := new byte[80](_ => 0);
    var offset := Copy(full, 0, d.header);
    offset := Copy(full, offset, merkleRoot);
    offset := Copy(full, offset, nTime);
    offset := Copy(full, offset, d.nBits);
    offset := Copy(full, offset, nonce);
  }

  method Copy(full: array<byte>, at: nat, data: seq<byte>) returns (offset: nat)
    requires at + |data| <= full.Length
    modifies full
    ensures offset == at + |data|
    ensures forall k :: 0 <= k < full.Length ==> full[k] == if at <= k < offset then data[k - at] else old(full[k])
  {
    forall k | 0 <= k < |data| { full[at + k] := data[k]; }
    offset := at + |data|;
  }

  // ----- Both sides build the same 80 bytes -----

  lemma {:induction false} DecodeAll(s: string)
    requires AllHex(s) && |s| % 2 == 0
    ensures |JsDecode(s)| == |s| / 2 && CppDecode(s) == JsDecode(s)
  {
    DecodersAgree(s);
    assert s[..|s| / 2 * 2] == s;
  }

  /** The pool's word swap and reversal, undone word by word by the dispatcher, leave a reversal. */
  lemma SwapOfWordReversed(b: seq<byte>)
    requires |b| == 32
    ensures SwapWords(WordReversed(b), 8) == Reversed(b)
  {
    var w := WordReversed(b);
    hide SwapIndex;
    forall i | 0 <= i < 32 ensures SwapWords(w, 8)[i] == b[31 - i] {
      MirroredIndex(i);
      var j := SwapIndex(i);
      assert w[j] == SwapWords(b, 8)[31 - j] == b[SwapIndex(31 - j)];
    }
  }

  lemma MirroredIndex(i: nat)
    requires i < 32
    ensures SwapIndex(i) < 32 && SwapIndex(31 - SwapIndex(i)) == 31 - i
  {
  }

  lemma {:induction false} FieldOfHex(s: string, n: nat)
    requires |JsDecode(s)| == n
    ensures Field(s, n) == JsDecode(s)
  {
  }

  lemma ReversedFields(a: seq<byte>, b: seq<byte>, c: seq<byte>, d: seq<byte>, e: seq<byte>, f: seq<byte>)
    ensures Reversed(a + b + c + Reversed(d) + e + f) == Reversed(f) + Reversed(e) + d + Reversed(c) + Reversed(b) + Reversed(a)
  {
    ReversedAppend(a + b + c + Reversed(d) + e, f);
    ReversedAppend(a + b + c + Reversed(d), e);
    ReversedAppend(a + b + c, Reversed(d));
    ReversedAppend(a + b, c);
    ReversedAppend(a, b);
    assert Reversed(Reversed(d)) == d;
    hide Reversed;
    assert Reversed(f) + (Reversed(e) + (d + (Reversed(c) + (Reversed(b) + Reversed(a)))))
        == Reversed(f) + Reversed(e) + d + Reversed(c) + Reversed(b) + Reversed(a);
  }

  lemma ReversedAppend(a: seq<byte>, b: seq<byte>)
    ensures Reversed(a + b) == Reversed(b) + Reversed(a)
  {
  }

  /** A template of the right shape reaches the dispatcher, and the pool can serialize a header for
      it, exactly when the version is a non-negative signed 32-bit number. Then the header the pool
      rebuilds from the strings of mining.submit and its own merkle root is the header the
      dispatcher hashed, byte for byte, exactly when the solution's merkle root is the pool's. */
  lemma {:induction false} HeadersAgree(t: Template, poolRoot: seq<byte>, merkleRoot: seq<byte>, nTime: seq<byte>, nonce: seq<byte>)
    requires |t.previousblockhash| == 64 && AllHex(t.previousblockhash) && |t.bits| == 8 && AllHex(t.bits)
    requires 0 <= t.curtime < TWO32 && |poolRoot| == |merkleRoot| == 32 && |nTime| == |nonce| == 4
    ensures (Parameters(t).Some? && PoolHeader(t, poolRoot, HexOf(Reversed(nTime)), HexOf(Reversed(nonce))).Some?) <==> 0 <= t.version < TWO31
    ensures 0 <= t.version < TWO31 ==>
      && PartialHeader(Parameters(t).value).Some?
      && (PoolHeader(t, poolRoot, HexOf(Reversed(nTime)), HexOf(Reversed(nonce)))
            == Some(DispatcherHeader(PartialHeader(Parameters(t).value).value, merkleRoot, nTime, nonce))
          <==> poolRoot == merkleRoot)
  {
    hide JsDecode, CppDecode, HexOf, Reversed, WordReversed, SwapWords, Word32BE, DispatcherHeader;
    DecodeAll(t.previousblockhash);
    DecodeAll(t.bits);
    if 0 <= t.version < TWO31 {
      var prev, v := JsDecode(t.previousblockhash), Word32BE(t.version);
      DecodeHexOf(WordReversed(prev));
      DecodeHexOf(v);
      DecodeHexOf(Word32BE(t.curtime));
      SwapOfWordReversed(prev);
      SubmittedFields(t, poolRoot, nTime, nonce);
      var d := PartialHeader(Parameters(t).value).value;
      SameHeader(d, poolRoot, nTime, nonce, Reversed(v), Reversed(prev));
      RootDecides(d, poolRoot, merkleRoot, nTime, nonce);
    }
  }

  lemma SameHeader(d: Partial, root: seq<byte>, nTime: seq<byte>, nonce: seq<byte>, version: seq<byte>, prev: seq<byte>)
    requires d.header == version + prev
    ensures DispatcherHeader(d, root, nTime, nonce) == version + prev + root + nTime + d.nBits + nonce
  {
  }

  /** Headers that differ in nothing but the merkle root are equal exactly when the roots are. */
  lemma RootDecides(d: Partial, r: seq<byte>, r': seq<byte>, nTime: seq<byte>, nonce: seq<byte>)
    requires |r| == |r'|
    ensures DispatcherHeader(d, r, nTime, nonce) == DispatcherHeader(d, r', nTime, nonce) <==> r == r'
  {
    var a, b := DispatcherHeader(d, r, nTime, nonce), DispatcherHeader(d, r', nTime, nonce);
    var n := |d.header|;
    assert a[n..n + |r|] == r && b[n..n + |r|] == r';
  }

  lemma {:induction false} SubmittedFields(t: Template, merkleRoot: seq<byte>, nTime: seq<byte>, nonce: seq<byte>)
    requires |JsDecode(t.previousblockhash)| == 32 && |JsDecode(t.bits)| == 4
    requires 0 <= t.version < TWO32 && |merkleRoot| == 32 && |nTime| == |nonce| == 4
    ensures Reversed(Fields(t, merkleRoot, HexOf(Reversed(nTime)), HexOf(Reversed(nonce))))
      == Reversed(Word32BE(t.version)) + Reversed(JsDecode(t.previousblockhash)) + merkleRoot + nTime + Reversed(JsDecode(t.bits)) + nonce
  {
    assert Reversed(Reversed(nTime)) == nTime && Reversed(Reversed(nonce)) == nonce;
    hide JsDecode, HexOf, Reversed, Word32BE, Field;
    DecodeHexOf(Reversed(nTime));
    DecodeHexOf(Reversed(nonce));
    FieldOfHex(HexOf(Reversed(nTime)), 4);
    FieldOfHex(HexOf(Reversed(nonce)), 4);
    FieldOfHex(t.bits, 4);
    FieldOfHex(t.previousblockhash, 32);
    ReversedFields(Reversed(nonce), JsDecode(t.bits), Reversed(nTime), merkleRoot, JsDecode(t.previousblockhash), Word32BE(t.version));
  }
}
