/** SHA-256 streaming: Init, Update, Pad and Final over a context updated in place, against the
    one-shot hash of the padded message (section 5.1.1 of FIPS 180-4). The compression function
    is a parameter. */
module Sha256 {
  import opened Bytes
  import opened Words

  const TWO32 := 0x1_0000_0000
  type u32 = x: int | 0 <= x < TWO32
  type HashState = s: seq<u32> | |s| == 8 witness [0, 0, 0, 0, 0, 0, 0, 0]
  type Compression = (HashState, seq<byte>) -> HashState

  const INITIAL: HashState := [0x6A09E667, 0xBB67AE85, 0x3C6EF372, 0xA54FF53A, 0x510E527F, 0x9B05688C, 0x1F83D9AB, 0x5BE0CD19]

  // ----- The reference -----

  /** The whole blocks of m, compressed in order; a partial block at the end is left over. */
  function Compressed(f: Compression, st: HashState, m: seq<byte>): HashState
    decreases |m|
  {
    if |m| < 64 then st else Compressed(f, f(st, m[..64]), m[64..])
  }

  function LeftOver(m: seq<byte>): (t: seq<byte>)
    ensures |t| == |m| % 64
  {
    m[|m| - |m| % 64..]
  }

  function BigEndian32(x: u32): (b: seq<byte>)
    ensures |b| == 4
  {
    [x / 0x100_0000, x / 0x1_0000 % 256, x / 0x100 % 256, x % 256]
  }

  function BigEndian64(x: nat): (b: seq<byte>)
    requires x < TWO64
    ensures |b| == 8
  {
    BigEndian32(x / TWO32) + BigEndian32(x % TWO32)
  }

  function StateBytes(st: seq<u32>): (b: seq<byte>)
    ensures |b| == 4 * |st|
  {
    if st == [] then [] else BigEndian32(st[0]) + StateBytes(st[1..])
  }

  function PadLength(n: nat): nat {
    if n % 64 < 56 then 55 - n % 64 else 119 - n % 64
  }

  /** A whole number of blocks. */
  function Padded(m: seq<byte>): (p: seq<byte>)
    ensures |p| % 64 == 0
  {
    PadArithmetic(|m|, |m| / 64, |m| % 64);
    m + [0x80] + Zeros(PadLength(|m|)) + BigEndian64(8 * |m| % TWO64)
  }

  function Digest(f: Compression, m: seq<byte>): (d: seq<byte>)
    ensures |d| == 32
  {
    StateBytes(Compressed(f, INITIAL, Padded(m)))
  }

  // ----- What the constants and the padding say -----

  /** The fractional part of the square root of p, to 32 bits, with whole part w. */
  predicate IsRootFraction(h: u32, w: nat, p: nat) {
    (w * TWO32 + h) * (w * TWO32 + h) <= p * TWO64 < (w * TWO32 + h + 1) * (w * TWO32 + h + 1)
  }

  /** The initial state is made of the square roots of the first eight primes (section 5.3.3 of FIPS
      180-4). */
  lemma InitialIsRoots()
    ensures IsRootFraction(INITIAL[0], 1, 2) && IsRootFraction(INITIAL[1], 1, 3) && IsRootFraction(INITIAL[2], 2, 5)
    ensures IsRootFraction(INITIAL[3], 2, 7) && IsRootFraction(INITIAL[4], 3, 11) && IsRootFraction(INITIAL[5], 3, 13)
    ensures IsRootFraction(INITIAL[6], 4, 17) && IsRootFraction(INITIAL[7], 4, 19)
  {
  }

  /** Word i of the state is bytes 4i to 4i + 3, most significant first. */
  lemma {:induction false} StateWord(st: seq<u32>, i: nat)
    requires i < |st|
    ensures BigEndianValue(StateBytes(st)[4 * i..4 * i + 4]) == st[i]
  {
    hide BigEndian32, BigEndianValue;
    var a, b := BigEndian32(st[0]), StateBytes(st[1..]);
    assert StateBytes(st) == a + b;
    hide StateBytes;
    if i == 0 {
      assert (a + b)[0..4] == a;
      WordValue(st[0]);
    } else {
      StateWord(st[1..], i - 1);
      NextSlice(a, b, 4 * (i - 1));
    }
  }

  lemma NextSlice(a: seq<byte>, b: seq<byte>, k: nat)
    requires |a| == 4 && k + 4 <= |b|
    ensures (a + b)[k + 4..k + 8] == b[k..k + 4]
  {
  }

  lemma WordValue(x: u32)
    ensures BigEndianValue(BigEndian32(x)) == x
  {
    FourBytesValue(BigEndian32(x));
    var p, q: int := x / 0x100, x / 0x1_0000;
    assert x == 0x100 * p + x % 0x100 && p == 0x100 * (p / 0x100) + p % 0x100 && p / 0x100 == 0x100 * (p / 0x100 / 0x100) + p / 0x100 % 0x100;
    DivideTwice(x, 0x100, 0x100);
    DivideTwice(x, 0x1_0000, 0x100);
  }

  lemma DoubleWordValue(x: nat)
    requires x < TWO64
    ensures BigEndianValue(BigEndian64(x)[..4]) * TWO32 + BigEndianValue(BigEndian64(x)[4..]) == x
  {
    hide BigEndian32, BigEndianValue;
    WordValue(x / TWO32);
    WordValue(x % TWO32);
    assert BigEndian64(x)[..4] == BigEndian32(x / TWO32) && BigEndian64(x)[4..] == BigEndian32(x % TWO32);
  }

  /** Different messages have different paddings: the last eight bytes tell the length. */
  lemma PaddingTellsApart(a: seq<byte>, b: seq<byte>)
    requires 8 * |a| < TWO64 && 8 * |b| < TWO64 && Padded(a) == Padded(b)
    ensures a == b
  {
    LastEight(a);
    LastEight(b);
    DoubleWordValue(8 * |a|);
    DoubleWordValue(8 * |b|);
    assert Padded(a)[..|a|] == a && Padded(b)[..|b|] == b;
  }

  lemma LastEight(m: seq<byte>)
    requires 8 * |m| < TWO64
    ensures var p := Padded(m); |p| >= 8 && p[|p| - 8..] == BigEndian64(8 * |m|)
  {
    hide BigEndian64;
  }

  lemma {:induction false} CompressedSplit(f: Compression, st: HashState, a: seq<byte>, b: seq<byte>)
    requires |a| % 64 == 0
    ensures Compressed(f, st, a + b) == Compressed(f, Compressed(f, st, a), b)
    decreases |a|
  {
    if a == [] {
      assert a + b == b;
    } else {
      assert (a + b)[..64] == a[..64] && (a + b)[64..] == a[64..] + b;
      CompressedSplit(f, f(st, a[..64]), a[64..], b);
    }
  }

  /** Continuing from the compressed part and the left-over is the same as starting again. */
  lemma {:induction false} Continue(f: Compression, st: HashState, m: seq<byte>, data: seq<byte>)
    ensures Compressed(f, st, m + data) == Compressed(f, Compressed(f, st, m), LeftOver(m) + data)
    ensures LeftOver(m + data) == LeftOver(LeftOver(m) + data)
  {
    hide LeftOver, Compressed;
    var q := |m| / 64;
    var a, t := m[..64 * q], m[64 * q..];
    assert m == a + t && m + data == a + (t + data);
    CompressedSplit(f, st, a, t);
    CompressedSplit(f, st, a, t + data);
    NoBlock(f, Compressed(f, st, a), t);
    DropBlocks(q, a, t);
    DropBlocks(q, a, t + data);
  }

  /** Whole blocks at the front do not change the left-over. */
  lemma DropBlocks(q: nat, a: seq<byte>, t: seq<byte>)
    requires |a| == 64 * q
    ensures LeftOver(a + t) == LeftOver(t)
  {
    assert (64 * q + |t|) % 64 == |t| % 64;
  }

  // ----- The context -----

  class Context {
    var state: HashState
    var count0: u32
    var count1: u32
    const buf: array<byte>

    /** The context after the bytes m. */
    ghost predicate Holds(f: Compression, m: seq<byte>)
      reads this, buf
    {
      && buf.Length == 64
      && state == Compressed(f, INITIAL, m)
      && count0 * TWO32 + count1 == 8 * |m| % TWO64
      && buf[..|m| % 64] == LeftOver(m)
    }

    constructor (ghost f: Compression)
      ensures fresh(buf) && Holds(f, [])
    {
      state := INITIAL;
      count0, count1 := 0, 0;
      buf := new byte[64];
    }

    constructor Copy(other: Context, ghost f: Compression, ghost m: seq<byte>)
      requires other.Holds(f, m)
      ensures fresh(buf) && Holds(f, m)
    {
      state := other.state;
      count0, count1 := other.count0, other.count1;
      buf := new byte[64];
      new;
      Write(0, other.buf[..]);
    }

    /** The two-word bit counter, with the carry found by comparison. */
    method AddBits(len: nat)
      requires len < TWO64
      modifies this`count0, this`count1
      ensures count0 * TWO32 + count1 == (old(count0) * TWO32 + old(count1) + 8 * len) % TWO64
    {
      var bitlen1 := len % TWO32 * 8 % TWO32;
      var bitlen0 := len / 0x2000_0000 % TWO32;
      ghost var c0, c1 := count0, count1;
      count1 := (count1 + bitlen1) % TWO32;
      if count1 < bitlen1 {
        count0 := (count0 + 1) % TWO32;
      }
      count0 := (count0 + bitlen0) % TWO32;
      CounterSum(c0, c1, len, bitlen0, bitlen1, count0, count1);
    }

    method Write(at: nat, data: seq<byte>)
      requires at + |data| <= buf.Length
      modifies buf
      ensures buf[..] == old(buf[..at]) + data + old(buf[at + |data|..])
    {
      for i := 0 to |data|
        invariant forall k :: 0 <= k < buf.Length ==> buf[k] == if at <= k < at + i then data[k - at] else old(buf[k])
      {
        buf[at + i] := data[i];
      }
    }

    /** Fill the buffer, then whole blocks straight from the source, then buffer what is left. */
    method Feed(f: Compression, r: nat, data: seq<byte>, ghost all: seq<byte>)
      requires buf.Length == 64 && r < 64 && all == buf[..r] + data
      modifies this`state, buf
      ensures state == Compressed(f, old(state), all) && buf[..|all| % 64] == LeftOver(all)
    {
      hide Compressed, LeftOver;
      if |data| < 64 - r {
        Write(r, data);
        NoBlock(f, state, all);
        assert buf[..|all|] == all;
        return;
      }
      Write(r, data[..64 - r]);
      assert buf[..] == all[..64];
      OneBlock(f, state, all);
      state := f(state, buf[..]);
      var src := data[64 - r..];
      assert src == all[64..];
      while |src| >= 64
        invariant Compressed(f, state, src) == Compressed(f, old(state), all) && LeftOver(src) == LeftOver(all)
      {
        OneBlock(f, state, src);
        state := f(state, src[..64]);
        src := src[64..];
      }
      NoBlock(f, state, src);
      Write(0, src);
      assert buf[..|src|] == src;
    }

    /** SHA256_Update: the context of m becomes that of m followed by the data. */
    method Update(f: Compression, data: seq<byte>, ghost m: seq<byte>)
      requires Holds(f, m) && |data| < TWO64
      modifies this, buf
      ensures Holds(f, m + data)
    {
      hide Compressed, LeftOver;
      var r := count1 / 8 % 64;
      BufferedBytes(count0, count1, |m|);
      ghost var all := LeftOver(m) + data;
      Continue(f, INITIAL, m, data);
      CountAppend(|m|, |data|);
      AddBits(|data|);
      Feed(f, r, data, all);
    }
  }

  lemma NoBlock(f: Compression, st: HashState, m: seq<byte>)
    requires |m| < 64
    ensures Compressed(f, st, m) == st && LeftOver(m) == m
  {
  }

  lemma OneBlock(f: Compression, st: HashState, m: seq<byte>)
    requires |m| >= 64
    ensures Compressed(f, st, m) == Compressed(f, f(st, m[..64]), m[64..]) && LeftOver(m[64..]) == LeftOver(m)
  {
    assert |m[64..]| % 64 == |m| % 64;
  }

  /** The byte index in the buffer is the message length modulo 64. */
  lemma BufferedBytes(count0: u32, count1: u32, n: nat)
    requires count0 * TWO32 + count1 == 8 * n % TWO64
    ensures count1 / 8 % 64 == n % 64
  {
    var q := 8 * n / TWO64;
    assert 8 * n == q * TWO64 + (count0 * TWO32 + count1);
    LowSixBits(n, q * 0x80_0000_0000_0000 + count0 * 0x80_0000, count1);
  }

  lemma LowSixBits(n: nat, high: int, low: nat)
    requires 8 * n == 512 * high + low
    ensures low / 8 % 64 == n % 64
  {
    var k := n - 64 * high;
    assert low == 8 * k && low / 8 == k;
    DivModUnique(n, high + k / 64, k % 64, 64);
  }

  lemma CountAppend(m: nat, d: nat)
    ensures (8 * m % TWO64 + 8 * d) % TWO64 == 8 * (m + d) % TWO64
  {
  }

  lemma BitLength(len: nat)
    ensures 8 * len == len / 0x2000_0000 * TWO32 + len % TWO32 * 8 % TWO32
  {
    var q, r := len / 0x2000_0000, len % 0x2000_0000;
    DivModUnique(len, q / 8, q % 8 * 0x2000_0000 + r, TWO32);
    DivModUnique(len % TWO32 * 8, q % 8, 8 * r, TWO32);
  }

  lemma CounterSum(c0: u32, c1: u32, len: nat, b0: u32, b1: u32, d0: u32, d1: u32)
    requires b1 == len % TWO32 * 8 % TWO32 && b0 == len / 0x2000_0000 % TWO32
    requires d1 == (c1 + b1) % TWO32
    requires d0 == ((if d1 < b1 then (c0 + 1) % TWO32 else c0) + b0) % TWO32
    ensures d0 * TWO32 + d1 == (c0 * TWO32 + c1 + 8 * len) % TWO64
  {
    BitLength(len);
    var q := len / 0x2000_0000;
    var carry := if d1 < b1 then 1 else 0;
    assert c1 + b1 == carry * TWO32 + d1;
    var t: int := c0 + carry + q;
    HighWord(c0, carry, q, d0);
    DivModUnique(t * TWO32 + d1, t / TWO32, d0 * TWO32 + d1, TWO64);
  }

  lemma HighWord(c0: u32, carry: int, q: int, d0: u32)
    requires 0 <= carry <= 1 && q >= 0 && d0 == ((if carry == 1 then (c0 + 1) % TWO32 else c0) + q % TWO32) % TWO32
    ensures d0 == (c0 + carry + q) % TWO32
  {
  }

  // ----- Padding and finishing -----

  lemma PadArithmetic(n: nat, q: nat, r: nat)
    requires n == 64 * q + r && r < 64
    ensures (n + 9 + PadLength(n)) % 64 == 0
  {
    DivModUnique(n, q, r, 64);
    assert n + 9 + PadLength(n) == 64 * (q + if r < 56 then 1 else 2);
  }

  /** SHA256_Pad and SHA256_Final; the context is cleared. */
  method Final(f: Compression, ctx: Context, ghost m: seq<byte>) returns (digest: seq<byte>)
    requires ctx.Holds(f, m)
    modifies ctx, ctx.buf
    ensures digest == Digest(f, m)
  {
    hide Compressed, StateBytes, BigEndian32;
    var len := BigEndian32(ctx.count0) + BigEndian32(ctx.count1);
    LengthBytes(ctx.count0, ctx.count1, 8 * |m| % TWO64);
    var r := ctx.count1 / 8 % 64;
    BufferedBytes(ctx.count0, ctx.count1, |m|);
    var plen := if r < 56 then 56 - r else 120 - r;
    var pad := [0x80] + Zeros(plen - 1);
    ctx.Update(f, pad, m);
    ctx.Update(f, len, m + pad);
    assert m + pad + len == Padded(m);
    digest := StateBytes(ctx.state);
    ctx.state, ctx.count0, ctx.count1 := [0, 0, 0, 0, 0, 0, 0, 0], 0, 0;
    ctx.Write(0, Zeros(64));
  }

  lemma LengthBytes(c0: u32, c1: u32, x: nat)
    requires c0 * TWO32 + c1 == x < TWO64
    ensures BigEndian64(x) == BigEndian32(c0) + BigEndian32(c1)
  {
    DivModUnique(x, c0, c1, TWO32);
  }

  /** The digest does not depend on how the message is split into updates. */
  method HashPieces(f: Compression, pieces: seq<seq<byte>>) returns (digest: seq<byte>)
    requires forall i :: 0 <= i < |pieces| ==> |pieces[i]| < TWO64
    ensures digest == Digest(f, Concat(pieces))
  {
    hide Compressed, Digest, LeftOver;
    var ctx := new Context(f);
    ghost var m := [];
    for i := 0 to |pieces|
      invariant fresh(ctx) && fresh(ctx.buf) && ctx.Holds(f, m)
      invariant m + Concat(pieces[i..]) == Concat(pieces)
    {
      ctx.Update(f, pieces[i], m);
      assert pieces[i..][1..] == pieces[i + 1..];
      m := m + pieces[i];
    }
    assert m == Concat(pieces);
    digest := Final(f, ctx, m);
  }

  function Concat(pieces: seq<seq<byte>>): seq<byte> {
    if pieces == [] then [] else pieces[0] + Concat(pieces[1..])
  }
}
