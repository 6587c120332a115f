/** The sponge under KangarooTwelve: byte-wise absorption into a 200-byte state with a rate of
    168 bytes, and TurboSHAKE128 as the reference it must compute. The permutation is a
    parameter throughout. */
module Sponge {
  import opened Bytes
  import opened Words

  const RATE := 168

  type State = s: seq<byte> | |s| == 200 witness seq(200, _ => 0)
  type Permutation = State -> State

  const ZERO_STATE: State := Zeros(200)

  /** data xored into the state at an offset. */
  function XorInto(st: State, at: nat, data: seq<byte>): (r: State)
    requires at + |data| <= 200
  {
    seq(200, i requires 0 <= i < 200 => if at <= i < at + |data| then XorByte(st[i], data[i - at]) else st[i])
  }

  /** Applied twice it cancels. */
  lemma XorIntoCancel(st: State, at: nat, data: seq<byte>)
    requires at + |data| <= 200
    ensures XorInto(XorInto(st, at, data), at, data) == st
  {
    forall i | at <= i < at + |data| ensures XorByte(XorByte(st[i], data[i - at]), data[i - at]) == st[i] { XorCancel(st[i], data[i - at]); }
  }

  // ----- Absorption, one byte at a time -----

  datatype Sponge = Sponge(st: State, index: nat) {
    predicate Valid() {
      index < RATE
    }
  }

  const FRESH := Sponge(ZERO_STATE, 0)

  function AbsorbByte(f: Permutation, s: Sponge, b: byte): (r: Sponge)
    requires s.Valid()
    ensures r.Valid()
  {
    var st := XorInto(s.st, s.index, [b]);
    if s.index + 1 == RATE then Sponge(f(st), 0) else Sponge(st, s.index + 1)
  }

  function Absorbed(f: Permutation, s: Sponge, data: seq<byte>): (r: Sponge)
    requires s.Valid()
    ensures r.Valid()
  {
    if data == [] then s else AbsorbByte(f, Absorbed(f, s, data[..|data| - 1]), data[|data| - 1])
  }

  /** Absorbing does not depend on how the data is split into calls. */
  lemma {:induction false} AbsorbSplit(f: Permutation, s: Sponge, a: seq<byte>, b: seq<byte>)
    requires s.Valid()
    ensures Absorbed(f, s, a + b) == Absorbed(f, Absorbed(f, s, a), b)
  {
    if b == [] {
      assert a + b == a;
    } else {
      var n := |b| - 1;
      AbsorbSplit(f, s, a, b[..n]);
      assert (a + b)[..|a| + n] == a + b[..n];
    }
  }

  lemma XorIntoSplit(st: State, at: nat, a: seq<byte>, b: seq<byte>)
    requires at + |a| + |b| <= 200
    ensures XorInto(XorInto(st, at, a), at + |a|, b) == XorInto(st, at, a + b)
  {
  }

  lemma XorIntoNothing(st: State, at: nat)
    requires at <= 200
    ensures XorInto(st, at, []) == st
  {
  }

  /** Data that does not fill the block is simply xored in. */
  lemma {:induction false} AbsorbPart(f: Permutation, st: State, at: nat, data: seq<byte>)
    requires at + |data| < RATE
    ensures Absorbed(f, Sponge(st, at), data) == Sponge(XorInto(st, at, data), at + |data|)
  {
    if data == [] {
      XorIntoNothing(st, at);
    } else {
      var n := |data| - 1;
      AbsorbPart(f, st, at, data[..n]);
      XorIntoSplit(st, at, data[..n], [data[n]]);
      assert data[..n] + [data[n]] == data;
    }
  }

  /** Data that fills the block exactly permutes the state once. */
  lemma AbsorbFill(f: Permutation, st: State, at: nat, data: seq<byte>)
    requires at + |data| == RATE && data != []
    ensures Absorbed(f, Sponge(st, at), data) == Sponge(f(XorInto(st, at, data)), 0)
  {
    var n := |data| - 1;
    AbsorbPart(f, st, at, data[..n]);
    XorIntoSplit(st, at, data[..n], [data[n]]);
    assert data[..n] + [data[n]] == data;
  }

  // ----- TurboSHAKE128 (section 2 of RFC 9861) -----

  /** The message, the domain byte, and zeros up to a whole block. */
  function Unmarked(m: seq<byte>, d: byte): (q: seq<byte>)
    ensures |q| % RATE == 0 && |q| == |m| + RATE - |m| % RATE
  {
    UpToBlock(|m|, |m| / RATE, |m| % RATE);
    m + [d] + Zeros(RATE - 1 - |m| % RATE)
  }

  lemma UpToBlock(n: nat, q: nat, r: nat)
    requires n == q * RATE + r && r < RATE
    ensures (n + RATE - r) % RATE == 0
  {
    DivModUnique(n + RATE - r, q + 1, 0, RATE);
  }

  /** ... with the top bit of the last byte flipped. */
  function Pad(m: seq<byte>, d: byte): (p: seq<byte>)
    ensures |p| % RATE == 0 && |p| > |m|
  {
    var q := Unmarked(m, d);
    q[|q| - 1 := XorByte(q[|q| - 1], 0x80)]
  }

  /** The last byte that is not zero ends the message. */
  lemma UnmarkedTellsApart(m: seq<byte>, d: byte, n: seq<byte>, e: byte)
    requires d != 0 && e != 0 && Unmarked(m, d) == Unmarked(n, e)
    ensures m == n && d == e
  {
    var q := Unmarked(m, d);
    assert q[|m|] == d && q[|n|] == e;
    assert forall i :: |m| < i < |q| ==> q[i] == 0;
    assert forall i :: |n| < i < |q| ==> q[i] == 0;
    assert |m| == |n|;
    assert q[..|m|] == m && q[..|n|] == n;
  }

  /** Different messages or domain bytes are padded differently. */
  lemma PadTellsApart(m: seq<byte>, d: byte, n: seq<byte>, e: byte)
    requires d != 0 && e != 0 && Pad(m, d) == Pad(n, e)
    ensures m == n && d == e
  {
    var p, q, k := Unmarked(m, d), Unmarked(n, e), |Pad(m, d)| - 1;
    hide XorByte;
    assert Pad(m, d) == p[k := XorByte(p[k], 0x80)] && Pad(n, e) == q[k := XorByte(q[k], 0x80)];
    assert XorByte(p[k], 0x80) == Pad(m, d)[k] == XorByte(q[k], 0x80);
    ByteCancels(p[k], q[k], 0x80);
    assert forall i :: 0 <= i < k ==> p[i] == Pad(m, d)[i] == q[i];
    assert p == q;
    UnmarkedTellsApart(m, d, n, e);
  }

  lemma ByteCancels(a: byte, b: byte, c: byte)
    requires XorByte(a, c) == XorByte(b, c)
    ensures a == b
  {
    XorCancel(a, c);
    XorCancel(b, c);
  }

  function AbsorbBlocks(f: Permutation, st: State, m: seq<byte>): State
    requires |m| % RATE == 0
    decreases |m|
  {
    if m == [] then st else AbsorbBlocks(f, f(XorInto(st, 0, m[..RATE])), m[RATE..])
  }

  /** The first 168 output bytes at most; further ones would need another permutation. */
  function TurboShake(f: Permutation, m: seq<byte>, d: byte, outLen: nat): (r: seq<byte>)
    requires outLen <= RATE
    ensures |r| == outLen
  {
    AbsorbBlocks(f, ZERO_STATE, Pad(m, d))[..outLen]
  }

  /** The end of absorption as the code does it: domain byte at the index, top bit at the rate's end. */
  function Finish(f: Permutation, s: Sponge, d: byte): State
    requires s.Valid()
  {
    f(XorInto(XorInto(s.st, s.index, [d]), RATE - 1, [0x80]))
  }

  lemma PadOfBlock(b: seq<byte>, m: seq<byte>, d: byte)
    requires |b| == RATE
    ensures Pad(b + m, d) == b + Pad(m, d)
  {
    var k := RATE - 1 - |m| % RATE;
    assert |b + m| % RATE == |m| % RATE;
    assert (b + m) + [d] + Zeros(k) == b + (m + [d] + Zeros(k));
  }

  lemma PadOfPart(st: State, m: seq<byte>, d: byte)
    requires |m| < RATE
    ensures |Pad(m, d)| == RATE
    ensures XorInto(st, 0, Pad(m, d)) == XorInto(XorInto(XorInto(st, 0, m), |m|, [d]), RATE - 1, [0x80])
  {
    hide Xor;
    var p, r := Pad(m, d), XorInto(XorInto(XorInto(st, 0, m), |m|, [d]), RATE - 1, [0x80]);
    forall i | 0 <= i < 200
      ensures XorInto(st, 0, p)[i] == r[i]
    {
      XorZero(st[i]);
      XorZero(0x80);
      if |m| == RATE - 1 { XorAssoc(st[i], d, 0x80); }
    }
  }

  lemma {:induction false} FinishIsPadded(f: Permutation, st: State, m: seq<byte>, d: byte)
    ensures Finish(f, Absorbed(f, Sponge(st, 0), m), d) == AbsorbBlocks(f, st, Pad(m, d))
    decreases |m|
  {
    if |m| < RATE {
      AbsorbPart(f, st, 0, m);
      PadOfPart(st, m, d);
      assert Pad(m, d)[..RATE] == Pad(m, d) && Pad(m, d)[RATE..] == [];
    } else {
      var b, rest := m[..RATE], m[RATE..];
      assert m == b + rest;
      AbsorbFill(f, st, 0, b);
      AbsorbSplit(f, Sponge(st, 0), b, rest);
      PadOfBlock(b, rest, d);
      FinishIsPadded(f, f(XorInto(st, 0, b)), rest, d);
      assert (b + Pad(rest, d))[..RATE] == b && (b + Pad(rest, d))[RATE..] == Pad(rest, d);
    }
  }

  /** Absorbing m from the zero state and finishing with d is TurboSHAKE128. */
  lemma FinishIsTurboShake(f: Permutation, m: seq<byte>, d: byte, outLen: nat)
    requires outLen <= RATE
    ensures Finish(f, Absorbed(f, FRESH, m), d)[..outLen] == TurboShake(f, m, d, outLen)
  {
    FinishIsPadded(f, ZERO_STATE, m, d);
  }
}
