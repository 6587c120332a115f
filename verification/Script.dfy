/** Scripts in the coinbase: address scripts written in a size pass and a write pass, and the
    numbers pushed by the input script. */
module Script {
  import opened Wrappers
  import opened Words
  import opened Bytes
  import opened Transaction

  /** A chunk is a buffer to push or an operation code. */
  datatype Chunk = Data(bytes: seq<byte>) | Op(code: byte)

  function EncodingLength(n: nat): nat {
    if n < 76 then 1 else if n <= 0xff then 2 else if n <= 0xffff then 3 else 5
  }

  /** getMinimalOPCodes: OP_0, OP_1 to OP_16 and OP_1NEGATE stand for short buffers. */
  function MinimalOp(b: seq<byte>): Option<byte> {
    if b == [] then Some(0)
    else if |b| != 1 then None
    else if 1 <= b[0] <= 16 then Some(80 + b[0])
    else if b[0] == 0x81 then Some(79)
    else None
  }

  /** What the size pass counts for a chunk. */
  function ChunkSize(c: Chunk): nat {
    if c.Op? || (|c.bytes| == 1 && MinimalOp(c.bytes).Some?) then 1 else EncodingLength(|c.bytes|) + |c.bytes|
  }

  /** encodeBuffer: the push prefix for a length. */
  function Prefix(n: nat): (b: seq<byte>)
    ensures |b| == EncodingLength(n)
  {
    if n < 76 then [n] else if n <= 0xff then [76, n] else if n <= 0xffff then [77] + ToBytes(n, 2) else [78] + ToBytes(n, 4)
  }

  /** What the write pass writes for a chunk. */
  function ChunkBytes(c: Chunk): seq<byte> {
    if c.Op? then [c.code]
    else if MinimalOp(c.bytes).Some? then [MinimalOp(c.bytes).value]
    else Prefix(|c.bytes|) + c.bytes
  }

  function ScriptBytes(chunks: seq<Chunk>): seq<byte> {
    if chunks == [] then [] else ChunkBytes(chunks[0]) + ScriptBytes(chunks[1..])
  }

  lemma SizeIsWritten(c: Chunk)
    ensures |ChunkBytes(c)| == ChunkSize(c)
  {
    hide ToBytes;
  }

  method SizePass(chunks: seq<Chunk>) returns (n: nat)
    ensures n == |ScriptBytes(chunks)|
  {
    hide ChunkBytes, ChunkSize;
    n := 0;
    assert chunks[0..] == chunks;
    for i := 0 to |chunks|
      invariant n + |ScriptBytes(chunks[i..])| == |ScriptBytes(chunks)|
    {
      assert chunks[i..][1..] == chunks[i + 1..];
      SizeIsWritten(chunks[i]);
      n := n + ChunkSize(chunks[i]);
    }
  }

  /** encodeChunks: the buffer is allocated by the size pass, filled by the write pass, and the
      final offset always equals its length. */
  method EncodeChunks(chunks: seq<Chunk>) returns (script: Option<seq<byte>>)
    requires forall i :: 0 <= i < |chunks| ==> chunks[i].Data? ==> |chunks[i].bytes| < TWO32
    ensures script == Some(ScriptBytes(chunks))
  {
    hide ChunkBytes;
    var size := SizePass(chunks);
    var buffer := new byte[size];
    var offset := 0;
    assert chunks[0..] == chunks;
    for i := 0 to |chunks|
      invariant 0 <= offset && offset + |ScriptBytes(chunks[i..])| == buffer.Length
      invariant buffer[..offset] + ScriptBytes(chunks[i..]) == ScriptBytes(chunks)
    {
      assert chunks[i..][1..] == chunks[i + 1..];
      ghost var b := ChunkBytes(chunks[i]);
      assert ScriptBytes(chunks[i..]) == b + ScriptBytes(chunks[i + 1..]);
      offset := WriteChunk(buffer, offset, chunks[i]);
    }
    assert ScriptBytes(chunks[|chunks|..]) == [];
    assert buffer[..offset] == buffer[..] == ScriptBytes(chunks);
    if offset != buffer.Length { return None; }
    script := Some(buffer[..]);
  }

  method WriteChunk(buffer: array<byte>, at: nat, c: Chunk) returns (offset: nat)
    requires at + |ChunkBytes(c)| <= buffer.Length
    modifies buffer
    ensures offset == at + |ChunkBytes(c)| && buffer[..offset] == old(buffer[..at]) + ChunkBytes(c)
  {
    if c.Data? {
      var opcode := MinimalOp(c.bytes);
      if opcode.Some? {
        buffer[at] := opcode.value;
        return at + 1;
      }
      offset := Write(buffer, at, Prefix(|c.bytes|));
      offset := Write(buffer, offset, c.bytes);
    } else {
      buffer[at] := c.code;
      offset := at + 1;
    }
  }

  method Write(buffer: array<byte>, at: nat, data: seq<byte>) returns (offset: nat)
    requires at + |data| <= buffer.Length
    modifies buffer
    ensures offset == at + |data| && buffer[..offset] == old(buffer[..at]) + data
  {
    for i := 0 to |data|
      invariant buffer[..at + i] == old(buffer[..at]) + data[..i]
    {
      buffer[at + i] := data[i];
    }
    offset := at + |data|;
    assert data[..|data|] == data;
  }

  // ----- What a script says -----

  datatype Item = Push(bytes: seq<byte>) | Opcode(code: byte)

  function ReadPush(s: seq<byte>, n: nat): Option<Read<Item>> {
    if |s| < n then None else Some(Read(Push(s[..n]), s[n..]))
  }

  function ReadSized(s: seq<byte>, k: nat): Option<Read<Item>> {
    if |s| < k then None else ReadPush(s[k..], LittleEndian(s[..k]))
  }

  function ReadItem(s: seq<byte>): Option<Read<Item>> {
    if s == [] then None
    else
      var op, rest := s[0], s[1..];
      if op < 76 then ReadPush(rest, op)
      else if op == 76 then ReadSized(rest, 1)
      else if op == 77 then ReadSized(rest, 2)
      else if op == 78 then ReadSized(rest, 4)
      else if op == 79 then Some(Read(Push([0x81]), rest))
      else if 81 <= op <= 96 then Some(Read(Push([op - 80]), rest))
      else Some(Read(Opcode(op), rest))
  }

  function Items(s: seq<byte>): Option<seq<Item>>
    decreases |s|
  {
    if s == [] then Some([])
    else
      match ReadItem(s)
      case None => None
      case Some(i) =>
        if |i.rest| >= |s| then None
        else
          match Items(i.rest)
          case None => None
          case Some(r) => Some([i.value] + r)
  }

  /** What follows an item does not change how it is read. */
  lemma {:induction false} ReadItemAppend(a: seq<byte>, b: seq<byte>)
    requires ReadItem(a).Some?
    ensures ReadItem(a + b) == Some(Read(ReadItem(a).value.value, ReadItem(a).value.rest + b))
  {
    hide LittleEndian;
    var op, rest := a[0], a[1..];
    assert (a + b)[1..] == rest + b;
    if op < 76 {
      PushAppend(rest, op, b);
    } else if op <= 78 {
      SizedAppend(rest, if op == 76 then 1 else if op == 77 then 2 else 4, b);
    }
  }

  lemma PushAppend(s: seq<byte>, n: nat, b: seq<byte>)
    requires n <= |s|
    ensures (s + b)[..n] == s[..n] && (s + b)[n..] == s[n..] + b
  {
  }

  lemma {:induction false} SizedAppend(s: seq<byte>, k: nat, b: seq<byte>)
    requires ReadSized(s, k).Some?
    ensures ReadSized(s + b, k) == Some(Read(ReadSized(s, k).value.value, ReadSized(s, k).value.rest + b))
  {
    hide LittleEndian;
    PushAppend(s, k, b);
    PushAppend(s[k..], LittleEndian(s[..k]), b);
  }

  /** A script that can be read to its end is read first when another follows it. */
  lemma {:induction false} ItemsAppend(a: seq<byte>, b: seq<byte>)
    requires Items(a).Some?
    ensures Items(a + b) == if Items(b).None? then None else Some(Items(a).value + Items(b).value)
    decreases |a|
  {
    hide ReadItem;
    if a == [] {
      assert a + b == b;
      if Items(b).Some? { assert Items(a).value + Items(b).value == Items(b).value; }
    } else {
      ReadItemAppend(a, b);
      var i := ReadItem(a).value;
      ItemsAppend(i.rest, b);
      if Items(b).Some? {
        assert [i.value] + (Items(i.rest).value + Items(b).value) == [i.value] + Items(i.rest).value + Items(b).value;
      }
    }
  }

  /** One item in front. */
  lemma ItemFirst(s: seq<byte>, item: Item, rest: seq<byte>)
    requires ReadItem(s) == Some(Read(item, rest)) && |rest| < |s|
    ensures Items(s) == if Items(rest).None? then None else Some([item] + Items(rest).value)
  {
    hide ReadItem;
  }

  /** The meaning of a chunk; OP_0 pushes the empty buffer. */
  function Meaning(c: Chunk): Item {
    if c.Data? then Push(c.bytes) else if c.code == 0 then Push([]) else Opcode(c.code)
  }

  function Meanings(chunks: seq<Chunk>): seq<Item> {
    if chunks == [] then [] else [Meaning(chunks[0])] + Meanings(chunks[1..])
  }

  /** An operation code that is not itself a push. */
  predicate Plain(c: Chunk) {
    if c.Data? then |c.bytes| < TWO32 else c.code == 0 || c.code == 80 || c.code > 96
  }

  lemma {:induction false} SizedReadBack(n: nat, k: nat, data: seq<byte>, rest: seq<byte>)
    requires |data| == n < Pow2(8 * k)
    ensures ReadSized(ToBytes(n, k) + data + rest, k) == Some(Read(Push(data), rest))
  {
    hide ToBytes, LittleEndian;
    var s := ToBytes(n, k) + data + rest;
    RoundTripNumber(n, k);
    assert s[..k] == ToBytes(n, k) && s[k..] == data + rest;
    assert (data + rest)[..n] == data && (data + rest)[n..] == rest;
  }

  lemma {:induction false} ChunkReadBack(c: Chunk, rest: seq<byte>)
    requires Plain(c)
    ensures ReadItem(ChunkBytes(c) + rest) == Some(Read(Meaning(c), rest))
  {
    if c.Data? && MinimalOp(c.bytes).None? {
      DataReadBack(c.bytes, rest);
    } else {
      var op := if c.Op? then c.code else MinimalOp(c.bytes).value;
      if c.Data? && |c.bytes| == 1 { assert c.bytes == [c.bytes[0]]; }
      OpReadBack(op, rest);
    }
  }

  lemma OpReadBack(op: byte, rest: seq<byte>)
    requires op == 0 || op >= 79
    ensures ReadItem([op] + rest) == Some(Read(
      if op == 0 then Push([]) else if op == 79 then Push([0x81]) else if 81 <= op <= 96 then Push([op - 80]) else Opcode(op), rest))
  {
    var s := [op] + rest;
    assert s[1..] == rest && rest[..0] == [] && rest[0..] == rest;
  }

  lemma {:induction false} DataReadBack(b: seq<byte>, rest: seq<byte>)
    requires |b| < TWO32
    ensures ReadItem(Prefix(|b|) + b + rest) == Some(Read(Push(b), rest))
  {
    hide ToBytes, ReadSized, Pow2;
    Pow2Values();
    var n := |b|;
    var s := Prefix(n) + b + rest;
    if n < 76 {
      assert s[1..] == b + rest && (b + rest)[..n] == b && (b + rest)[n..] == rest;
    } else {
      var k := if n <= 0xff then 1 else if n <= 0xffff then 2 else 4;
      OneByte(n);
      assert s[1..] == ToBytes(n, k) + b + rest;
      SizedReadBack(n, k, b, rest);
    }
  }

  lemma OneByte(n: nat)
    ensures n <= 0xff ==> ToBytes(n, 1) == [n]
  {
  }

  /** The script written for some chunks says exactly those chunks. */
  lemma {:induction false} ScriptReadBack(chunks: seq<Chunk>)
    requires forall i :: 0 <= i < |chunks| ==> Plain(chunks[i])
    ensures Items(ScriptBytes(chunks)) == Some(Meanings(chunks))
  {
    hide ReadItem, ChunkBytes, Meaning, Plain;
    if chunks != [] {
      var rest := ScriptBytes(chunks[1..]);
      ChunkReadBack(chunks[0], rest);
      ChunkNotEmpty(chunks[0]);
      ScriptReadBack(chunks[1..]);
    }
  }

  lemma ChunkNotEmpty(c: Chunk)
    ensures |ChunkBytes(c)| > 0
  {
    hide ToBytes;
  }

  // ----- serializeNumber -----

  /** The bytes of n, least significant first, the last of them below 128. */
  function NumberBytes(n: nat): (b: seq<byte>)
    ensures |b| >= 1 && b[|b| - 1] < 0x80
  {
    if n < 0x80 then [n] else [n % 256] + NumberBytes(n / 256)
  }

  lemma {:induction false} NumberBytesShort(n: nat, k: nat)
    requires n < 0x80 * Pow2(8 * k)
    ensures |NumberBytes(n)| <= k + 1
    decreases k
  {
    if k > 0 && n >= 0x80 {
      Pow2Values();
      Pow2Add(8, 8 * k - 8);
      hide Pow2;
      Quarter(n, Pow2(8 * k - 8));
      NumberBytesShort(n / 256, k - 1);
    }
  }

  lemma Quarter(n: nat, p: nat)
    requires n < 0x80 * (256 * p)
    ensures n / 256 < 0x80 * p
  {
  }

  lemma {:induction false} NumberBytesValue(n: nat)
    ensures LittleEndian(NumberBytes(n)) == n
  {
    if n >= 0x80 {
      NumberBytesValue(n / 256);
      assert NumberBytes(n)[1..] == NumberBytes(n / 256);
    } else {
      assert LittleEndian([n][1..]) == 0;
    }
  }

  function Serialized(n: nat): seq<byte>
    requires n < 0x8000_0000
  {
    FourBytes(n);
    if 1 <= n <= 16 then [0x50 + n] else [|NumberBytes(n)|] + NumberBytes(n)
  }

  /** The bytes after the length: the first shift takes the number to 32 bits with a sign, so from
      2^31 on the high part is lost, or negative and then not writable. */
  function JsBytes(x: nat): Option<seq<byte>> {
    if x < 0x8000_0000 then Some(NumberBytes(x))
    else if Int32(x) < 0 then None
    else Some([Int32(x) % 256] + NumberBytes(Int32(x) / 256))
  }

  lemma {:induction false} JsBytesShort(x: nat)
    ensures JsBytes(x).Some? ==> 1 <= |JsBytes(x).value| <= 5
  {
    if x < 0x8000_0000 { FourBytes(x); } else if Int32(x) >= 0 { FourBytes(Int32(x) / 256); }
  }

  /** What serializeNumber returns for any integer; None when a byte write throws. */
  function JsSerialized(x: int): Option<seq<byte>> {
    if x < 0 then None
    else if 1 <= x <= 16 then Some([0x50 + x])
    else
      JsBytesShort(x);
      var b := JsBytes(x);
      if b.None? then None else Some([|b.value|] + b.value)
  }

  /** serializeNumber. */
  method SerializeNumber(x: int) returns (r: Option<seq<byte>>)
    ensures r == JsSerialized(x) && (r.Some? ==> |r.value| <= 6)
  {
    hide JsBytes;
    if 1 <= x <= 16 { return Some([0x50 + x]); }
    var buff := new byte[9](_ => 0);
    var n, l := SpillBytes(buff, x);
    if n < 0 { return None; }
    JsBytesShort(x);
    ghost var done := buff[1..l];
    buff[0] := l;
    buff[l] := n;
    assert buff[1..l + 1] == done + [n];
    l := l + 1;
    var b := buff[..l];
    assert b == [buff[0]] + buff[1..l];
    r := Some(b);
  }

  /** What the loop has done when l bytes are used and n is left. */
  predicate Spilled(x: int, n: int, l: nat, done: seq<byte>) {
    if l <= 1 then n == x && l == 1 && done == []
    else
      && x > 0x7f && n < 0x8000_0000
      && (if n < 0 then JsBytes(x).None?
          else JsBytes(x).Some? && done + NumberBytes(n) == JsBytes(x).value && l - 1 + |NumberBytes(n)| == |JsBytes(x).value|)
  }

  /** The loop: all bytes but the last, from index 1 on. */
  method SpillBytes(buff: array<byte>, x: int) returns (n: int, l: nat)
    requires buff.Length == 9
    modifies buff
    ensures n <= 0x7f && 1 <= l < 9
    ensures x < 0 ==> n < 0
    ensures x >= 0 && n < 0 ==> JsBytes(x).None?
    ensures x >= 0 && n >= 0 ==> JsBytes(x).Some? && l == |JsBytes(x).value| && buff[1..l] + [n] == JsBytes(x).value
  {
    hide Spilled, JsBytes, NumberBytes, Int32;
    n, l := x, 1;
    SpillStart(x);
    assert buff[1..1] == [];
    while n > 0x7f
      invariant 1 <= l <= 6 && Spilled(x, n, l, buff[1..l])
      decreases n
    {
      SpillStep(x, n, l, buff[1..l]);
      PutByte(buff, l, n % 256);
      l := l + 1;
      n := Int32(n) / 256;
    }
    SpillEnd(x, n, l, buff[1..l]);
  }

  lemma SpillStart(x: int)
    ensures Spilled(x, x, 1, [])
  {
  }

  lemma {:induction false} SpillStep(x: int, n: int, l: nat, done: seq<byte>)
    requires Spilled(x, n, l, done) && n > 0x7f
    ensures l <= 5 && Spilled(x, Int32(n) / 256, l + 1, done + [n % 256]) && Int32(n) / 256 < n
  {
    hide NumberBytes;
    JsBytesShort(x);
    Int32Facts(n);
    NextNumberByte(n);
    if l > 1 || x < 0x8000_0000 {
      assert done + ([n % 256] + NumberBytes(n / 256)) == done + [n % 256] + NumberBytes(n / 256);
    }
  }

  lemma Int32Facts(n: int)
    requires n > 0x7f
    ensures Int32(n) / 256 < n && Int32(n) % 256 == n % 256 && (n < 0x8000_0000 ==> Int32(n) == n)
    ensures Int32(n) / 256 < 0x8000_0000 && (Int32(n) < 0 <==> Int32(n) / 256 < 0)
  {
    var q := n / 0x1_0000_0000;
    assert n == q * 0x1_0000_0000 + n % 0x1_0000_0000;
  }

  lemma {:induction false} SpillEnd(x: int, n: int, l: nat, done: seq<byte>)
    requires Spilled(x, n, l, done) && n <= 0x7f
    ensures x < 0 ==> n < 0
    ensures x >= 0 && n < 0 ==> JsBytes(x).None?
    ensures x >= 0 && n >= 0 ==> JsBytes(x).Some? && l == |JsBytes(x).value| && done + [n] == JsBytes(x).value
  {
    hide NumberBytes;
    if n >= 0 { NextNumberByte(n); }
  }

  method PutByte(buff: array<byte>, l: nat, b: byte)
    requires 1 <= l < buff.Length
    modifies buff
    ensures buff[1..l + 1] == old(buff[1..l]) + [b]
  {
    buff[l] := b;
  }

  lemma NextNumberByte(n: nat)
    ensures NumberBytes(n) == if n < 0x80 then [n] else [n % 256] + NumberBytes(n / 256)
  {
  }

  lemma {:induction false} FourBytes(x: nat)
    requires x < 0x8000_0000
    ensures |NumberBytes(x)| <= 4
  {
    Pow2Values();
    Pow2Add(8, 16);
    NumberBytesShort(x, 3);
  }

  /** The number pushed at the front of a script, as BIP 34 asks of the height, is the number given. */
  lemma {:induction false} NumberReadBack(n: nat, rest: seq<byte>) returns (b: seq<byte>)
    requires n < 0x8000_0000
    ensures ReadItem(Serialized(n) + rest) == Some(Read(Push(b), rest)) && LittleEndian(b) == n
  {
    FourBytes(n);
    NumberBytesValue(n);
    hide NumberBytes, LittleEndian, ReadItem;
    if 1 <= n <= 16 {
      b := [n];
      SmallNumber(n);
      OpReadBack(0x50 + n, rest);
    } else {
      b := NumberBytes(n);
      assert Serialized(n) + rest == Prefix(|b|) + b + rest;
      DataReadBack(b, rest);
    }
  }

  /** The number a script starts by pushing. */
  function PushedNumber(s: seq<byte>): Option<nat> {
    match ReadItem(s)
    case None => None
    case Some(r) => if r.value.Push? then Some(LittleEndian(r.value.bytes)) else None
  }

  /** A number is pushed as itself exactly when it is not negative and below 2^31. */
  lemma {:induction false} SerializedExactly(x: int, rest: seq<byte>)
    ensures JsSerialized(x).Some? && PushedNumber(JsSerialized(x).value + rest) == Some(x) <==> 0 <= x < 0x8000_0000
  {
    hide NumberBytes, LittleEndian, ReadItem, Int32;
    if 0 <= x < 0x8000_0000 {
      var b := NumberReadBack(x, rest);
    } else if x >= 0 && Int32(x) >= 0 {
      var w := Int32(x);
      var b := JsBytes(x).value;
      JsBytesShort(x);
      TruncatedValue(w, b);
      assert JsSerialized(x).value + rest == Prefix(|b|) + b + rest;
      DataReadBack(b, rest);
    }
  }

  lemma {:induction false} TruncatedValue(w: nat, b: seq<byte>)
    requires b == [w % 256] + NumberBytes(w / 256)
    ensures LittleEndian(b) == w
  {
    hide NumberBytes;
    NumberBytesValue(w / 256);
    assert b[1..] == NumberBytes(w / 256);
  }

  lemma SmallNumber(n: byte)
    ensures LittleEndian([n]) == n
  {
    assert LittleEndian([n][1..]) == 0;
  }
}
