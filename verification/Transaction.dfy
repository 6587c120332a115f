/** Bitcoin-style transactions: variable-length integers, and a decoder used to say what a
    serialized coinbase means. */
module Transaction {
  import opened Wrappers
  import opened Words
  import opened Bytes

  const TWO32 := 0x1_0000_0000

  // ----- Variable-length integers -----

  /** varIntBuffer. */
  function VarInt(n: nat): (b: seq<byte>)
    requires n < TWO64
    ensures 1 <= |b| <= 9
  {
    if n < 0xfd then [n]
    else if n <= 0xffff then [0xfd] + ToBytes(n, 2)
    else if n <= 0xffff_ffff then [0xfe] + ToBytes(n, 4)
    else [0xff] + ToBytes(n, 8)
  }

  datatype Read<T> = Read(value: T, rest: seq<byte>)

  function ReadBytes(s: seq<byte>, n: nat): Option<Read<seq<byte>>> {
    if |s| < n then None else Some(Read(s[..n], s[n..]))
  }

  function ReadNumber(s: seq<byte>, n: nat): Option<Read<nat>> {
    if |s| < n then None else Some(Read(LittleEndian(s[..n]), s[n..]))
  }

  function ReadVarInt(s: seq<byte>): Option<Read<nat>> {
    if s == [] then None
    else if s[0] == 0xfd then ReadNumber(s[1..], 2)
    else if s[0] == 0xfe then ReadNumber(s[1..], 4)
    else if s[0] == 0xff then ReadNumber(s[1..], 8)
    else Some(Read(s[0], s[1..]))
  }

  lemma {:induction false} NumberReadBack(x: nat, n: nat, rest: seq<byte>)
    requires x < Pow2(8 * n)
    ensures ReadNumber(ToBytes(x, n) + rest, n) == Some(Read(x, rest))
  {
    RoundTripNumber(x, n);
    var s := ToBytes(x, n) + rest;
    assert s[..n] == ToBytes(x, n) && s[n..] == rest;
  }

  /** A variable-length integer is read back, whatever follows it. */
  lemma {:induction false} VarIntReadBack(n: nat, rest: seq<byte>)
    requires n < TWO64
    ensures ReadVarInt(VarInt(n) + rest) == Some(Read(n, rest))
  {
    hide ToBytes, ReadNumber, Pow2;
    Pow2Values();
    var s := VarInt(n) + rest;
    if n >= 0xfd {
      var k := if n <= 0xffff then 2 else if n <= 0xffff_ffff then 4 else 8;
      assert s[1..] == ToBytes(n, k) + rest;
      NumberReadBack(n, k, rest);
    }
  }

  // ----- Transactions -----

  datatype Input = Input(previous: seq<byte>, index: nat, script: seq<byte>, sequence: nat)
  datatype Output = Output(amount: nat, script: seq<byte>)
  datatype Tx = Tx(version: nat, inputs: seq<Input>, outputs: seq<Output>, lockTime: nat)

  function ReadScript(s: seq<byte>): Option<Read<seq<byte>>> {
    match ReadVarInt(s)
    case None => None
    case Some(n) => ReadBytes(n.rest, n.value)
  }

  function ReadInput(s: seq<byte>): Option<Read<Input>> {
    match ReadBytes(s, 32)
    case None => None
    case Some(prev) =>
      match ReadNumber(prev.rest, 4)
      case None => None
      case Some(index) =>
        match ReadScript(index.rest)
        case None => None
        case Some(script) =>
          match ReadNumber(script.rest, 4)
          case None => None
          case Some(sequence) => Some(Read(Input(prev.value, index.value, script.value, sequence.value), sequence.rest))
  }

  function ReadOutput(s: seq<byte>): Option<Read<Output>> {
    match ReadNumber(s, 8)
    case None => None
    case Some(amount) =>
      match ReadScript(amount.rest)
      case None => None
      case Some(script) => Some(Read(Output(amount.value, script.value), script.rest))
  }

  function ReadInputs(s: seq<byte>, n: nat): Option<Read<seq<Input>>> {
    if n == 0 then Some(Read([], s))
    else
      match ReadInput(s)
      case None => None
      case Some(i) =>
        match ReadInputs(i.rest, n - 1)
        case None => None
        case Some(r) => Some(Read([i.value] + r.value, r.rest))
  }

  function ReadOutputs(s: seq<byte>, n: nat): Option<Read<seq<Output>>> {
    if n == 0 then Some(Read([], s))
    else
      match ReadOutput(s)
      case None => None
      case Some(o) =>
        match ReadOutputs(o.rest, n - 1)
        case None => None
        case Some(r) => Some(Read([o.value] + r.value, r.rest))
  }

  /** The outputs and the lock time, with nothing after them. */
  function ReadTail(s: seq<byte>): Option<(seq<Output>, nat)> {
    match ReadVarInt(s)
    case None => None
    case Some(n) =>
      match ReadOutputs(n.rest, n.value)
      case None => None
      case Some(outs) =>
        match ReadNumber(outs.rest, 4)
        case None => None
        case Some(lock) => if lock.rest == [] then Some((outs.value, lock.value)) else None
  }

  /** A whole transaction. */
  function DecodeTx(s: seq<byte>): Option<Tx> {
    match ReadNumber(s, 4)
    case None => None
    case Some(version) =>
      match ReadVarInt(version.rest)
      case None => None
      case Some(n) =>
        match ReadInputs(n.rest, n.value)
        case None => None
        case Some(ins) =>
          match ReadTail(ins.rest)
          case None => None
          case Some(tail) => Some(Tx(version.value, ins.value, tail.0, tail.1))
  }

  // ----- Outputs -----

  predicate Encodable(o: Output) {
    o.amount < TWO64 && |o.script| < TWO64
  }

  function OutputBytes(o: Output): seq<byte>
    requires Encodable(o)
  {
    ToBytes(o.amount, 8) + VarInt(|o.script|) + o.script
  }

  function OutputsBytes(outs: seq<Output>): seq<byte>
    requires forall i :: 0 <= i < |outs| ==> Encodable(outs[i])
  {
    if outs == [] then [] else OutputBytes(outs[0]) + OutputsBytes(outs[1..])
  }

  lemma ScriptReadBack(script: seq<byte>, rest: seq<byte>)
    requires |script| < TWO64
    ensures ReadScript(VarInt(|script|) + script + rest) == Some(Read(script, rest))
  {
    hide VarInt, ReadVarInt;
    assert VarInt(|script|) + script + rest == VarInt(|script|) + (script + rest);
    VarIntReadBack(|script|, script + rest);
    assert (script + rest)[..|script|] == script && (script + rest)[|script|..] == rest;
  }

  lemma {:induction false} OutputReadBack(o: Output, rest: seq<byte>)
    requires Encodable(o)
    ensures ReadOutput(OutputBytes(o) + rest) == Some(Read(o, rest))
  {
    hide VarInt, ReadScript, ToBytes, ReadNumber, Pow2;
    Pow2Values();
    var tail := VarInt(|o.script|) + o.script + rest;
    assert OutputBytes(o) + rest == ToBytes(o.amount, 8) + tail;
    NumberReadBack(o.amount, 8, tail);
    ScriptReadBack(o.script, rest);
  }

  lemma {:induction false} OutputsReadBack(outs: seq<Output>, rest: seq<byte>)
    requires forall i :: 0 <= i < |outs| ==> Encodable(outs[i])
    ensures ReadOutputs(OutputsBytes(outs) + rest, |outs|) == Some(Read(outs, rest))
  {
    hide OutputBytes, ReadOutput;
    if outs == [] {
      assert OutputsBytes(outs) + rest == rest;
    } else {
      var tail := OutputsBytes(outs[1..]) + rest;
      assert OutputsBytes(outs) + rest == OutputBytes(outs[0]) + tail;
      OutputReadBack(outs[0], tail);
      OutputsReadBack(outs[1..], rest);
      assert [outs[0]] + outs[1..] == outs;
    }
  }
}
