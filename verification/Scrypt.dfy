/** scrypt: the in-place block mix and the two-step unrolled, buffer-swapping mixing loop, against
    scryptBlockMix and scryptROMix (sections 4 and 5 of RFC 7914). The salsa20/8 core is a
    parameter on blocks of sixteen words. */
module Scrypt {
  import opened Bytes
  import opened Words
  import opened Sha256
  import opened Pbkdf2

  type Block = b: seq<u32> | |b| == 16 witness [0, 0, 0, 0, 0, 0, 0, 0, 0, 0, 0, 0, 0, 0, 0, 0]
  type Core = Block -> Block

  // ----- Words and octets -----

  function XorWord(a: u32, b: u32): u32 {
    Pow2Values();
    XorBound(a, b, 32);
    Xor(a, b)
  }

  function XorWords(a: seq<u32>, b: seq<u32>): (r: seq<u32>)
    requires |a| == |b|
    ensures |r| == |a|
  {
    seq(|a|, i requires 0 <= i < |a| => XorWord(a[i], b[i]))
  }

  /** The words as octets, each word least significant octet first. */
  function Octets(w: seq<u32>): (b: seq<byte>)
    ensures |b| == 4 * |w|
  {
    if w == [] then [] else Octets(w[..|w| - 1]) + ToBytes(w[|w| - 1], 4)
  }

  /** The little-endian words of a whole number of words. */
  function WordsOf(b: seq<byte>): (w: seq<u32>)
    ensures |w| == |b| / 4
  {
    seq(|b| / 4, k requires 0 <= k < |b| / 4 => DecodeWord(b[4 * k..4 * k + 4]))
  }

  /** le32dec. */
  function DecodeWord(b: seq<byte>): u32
    requires |b| == 4
  {
    var b0: int, b1: int, b2: int, b3: int := b[0], b[1], b[2], b[3];
    b0 + b1 * 0x100 + b2 * 0x1_0000 + b3 * 0x100_0000
  }

  /** le32enc. */
  function EncodeWord(x: u32): (b: seq<byte>)
    ensures |b| == 4
  {
    [x % 256, x / 0x100 % 256, x / 0x1_0000 % 256, x / 0x100_0000]
  }

  lemma EncodeWordBytes(x: u32)
    ensures EncodeWord(x) == ToBytes(x, 4) && DecodeWord(ToBytes(x, 4)) == x
  {
    var b := ToBytes(x, 4);
    assert b == [x % 256] + ToBytes(x / 256, 3);
    assert ToBytes(x / 256, 3) == [x / 256 % 256] + ToBytes(x / 256 / 256, 2);
    assert ToBytes(x / 256 / 256, 2) == [x / 256 / 256 % 256] + ToBytes(x / 256 / 256 / 256, 1);
    assert ToBytes(x / 256 / 256 / 256, 1) == [x / 256 / 256 / 256 % 256] + ToBytes(0, 0);
  }

  /** Decoding undoes encoding. */
  lemma {:induction false} WordsRoundTrip(w: seq<u32>)
    ensures WordsOf(Octets(w)) == w
  {
    hide ToBytes, DecodeWord;
    if w != [] {
      var n := |w| - 1;
      var a, b := w[..n], Octets(w);
      WordsRoundTrip(a);
      EncodeWordBytes(w[n]);
      forall k | 0 <= k < |w| ensures WordsOf(b)[k] == w[k] {
        if k < n {
          assert b[4 * k..4 * k + 4] == Octets(a)[4 * k..4 * k + 4];
          assert WordsOf(Octets(a))[k] == a[k];
        } else {
          assert b[4 * k..4 * k + 4] == ToBytes(w[n], 4);
        }
      }
    }
  }

  // ----- scryptBlockMix and scryptROMix -----

  /** Block i of b. */
  function BlockAt(b: seq<u32>, i: nat): Block
    requires 16 * i + 16 <= |b|
  {
    b[16 * i..16 * i + 16]
  }

  /** The value of X after i rounds: X is the last block at first, then H(X xor B_i). */
  function Chain(core: Core, r: nat, b: seq<u32>, i: nat): Block
    requires r >= 1 && |b| == 32 * r && i <= 2 * r
  {
    if i == 0 then BlockAt(b, 2 * r - 1) else core(XorWords(Chain(core, r, b, i - 1), BlockAt(b, i - 1)))
  }

  /** Y_s, Y_{s+2}, ..., n of them in a row, where Y_i is X after round i. */
  function EverySecond(core: Core, r: nat, b: seq<u32>, s: nat, n: nat): (y: seq<u32>)
    requires r >= 1 && |b| == 32 * r && s <= 1 && n <= r
    ensures |y| == 16 * n
  {
    if n == 0 then [] else EverySecond(core, r, b, s, n - 1) + Chain(core, r, b, 2 * n - 1 + s)
  }

  function BlockMixed(core: Core, r: nat, b: seq<u32>): (y: seq<u32>)
    requires r >= 1 && |b| == 32 * r
    ensures |y| == 32 * r
  {
    EverySecond(core, r, b, 0, r) + EverySecond(core, r, b, 1, r)
  }

  /** V_i: the block mix applied i times. */
  function Iterated(core: Core, r: nat, b: seq<u32>, i: nat): (x: seq<u32>)
    requires r >= 1 && |b| == 32 * r
    ensures |x| == 32 * r
  {
    if i == 0 then b else BlockMixed(core, r, Iterated(core, r, b, i - 1))
  }

  /** The last 64 octets as one little-endian number of 512 bits. */
  function Integerify(r: nat, x: seq<u32>): nat
    requires r >= 1 && |x| == 32 * r
  {
    LittleEndian(Octets(x[32 * r - 16..]))
  }

  /** X after i rounds of the second loop. */
  function Mixed(core: Core, r: nat, b: seq<u32>, n: nat, i: nat): (x: seq<u32>)
    requires r >= 1 && n >= 1 && |b| == 32 * r
    ensures |x| == 32 * r
  {
    if i == 0 then Iterated(core, r, b, n)
    else
      var x := Mixed(core, r, b, n, i - 1);
      BlockMixed(core, r, XorWords(x, Iterated(core, r, b, Integerify(r, x) % n)))
  }

  function RoMix(core: Core, r: nat, b: seq<u32>, n: nat): (x: seq<u32>)
    requires r >= 1 && n >= 1 && |b| == 32 * r
    ensures |x| == 32 * r
  {
    Mixed(core, r, b, n, n)
  }

  // ----- The references, told by their traces -----

  lemma XorWordsCancel(x: seq<u32>, v: seq<u32>)
    requires |x| == |v|
    ensures XorWords(XorWords(x, v), v) == x
  {
    forall i | 0 <= i < |x| ensures XorWord(XorWord(x[i], v[i]), v[i]) == x[i] { XorCancel(x[i], v[i]); }
  }

  /** scryptBlockMix step by step (section 4 of RFC 7914): X is the last block at first, and block i of
      the input is mixed in at step i. */
  ghost predicate IsBlockTrace(core: Core, r: nat, b: seq<u32>, xs: seq<Block>)
    requires r >= 1 && |b| == 32 * r
  {
    && |xs| == 2 * r + 1 && xs[0] == BlockAt(b, 2 * r - 1)
    && forall i :: 0 <= i < 2 * r ==> xs[i + 1] == core(XorWords(xs[i], BlockAt(b, i)))
  }

  lemma {:induction false} BlockTraceIsChain(core: Core, r: nat, b: seq<u32>, xs: seq<Block>, i: nat)
    requires r >= 1 && |b| == 32 * r && IsBlockTrace(core, r, b, xs) && i <= 2 * r
    ensures xs[i] == Chain(core, r, b, i)
  {
    hide XorWords, BlockAt;
    if i > 0 {
      BlockTraceIsChain(core, r, b, xs, i - 1);
      assert xs[i - 1 + 1] == core(XorWords(xs[i - 1], BlockAt(b, i - 1)));
    }
  }

  lemma {:induction false} EverySecondBlock(core: Core, r: nat, b: seq<u32>, s: nat, n: nat, k: nat)
    requires r >= 1 && |b| == 32 * r && s <= 1 && k < n <= r
    ensures BlockAt(EverySecond(core, r, b, s, n), k) == Chain(core, r, b, 2 * k + 1 + s)
  {
    hide Chain;
    var y := EverySecond(core, r, b, s, n - 1);
    if k < n - 1 {
      EverySecondBlock(core, r, b, s, n - 1, k);
      assert BlockAt(EverySecond(core, r, b, s, n), k) == BlockAt(y, k);
    }
  }

  /** The output is the steps after the even blocks, then the steps after the odd ones, and there is
      one trace only. */
  lemma BlockMixTrace(core: Core, r: nat, b: seq<u32>, xs: seq<Block>, k: nat)
    requires r >= 1 && |b| == 32 * r && IsBlockTrace(core, r, b, xs) && k < r
    ensures BlockAt(BlockMixed(core, r, b), k) == xs[2 * k + 1] && BlockAt(BlockMixed(core, r, b), r + k) == xs[2 * k + 2]
  {
    hide EverySecond, Chain, IsBlockTrace;
    EverySecondBlock(core, r, b, 0, r, k);
    EverySecondBlock(core, r, b, 1, r, k);
    BlockTraceIsChain(core, r, b, xs, 2 * k + 1);
    BlockTraceIsChain(core, r, b, xs, 2 * k + 2);
    var y, z := EverySecond(core, r, b, 0, r), EverySecond(core, r, b, 1, r);
    assert BlockAt(y + z, k) == BlockAt(y, k) && BlockAt(y + z, r + k) == BlockAt(z, k);
  }

  lemma BlockTraceExists(core: Core, r: nat, b: seq<u32>) returns (xs: seq<Block>)
    requires r >= 1 && |b| == 32 * r
    ensures IsBlockTrace(core, r, b, xs)
  {
    xs := seq(2 * r + 1, i requires 0 <= i < 2 * r + 1 => Chain(core, r, b, i));
  }

  /** scryptROMix step by step (section 5 of RFC 7914): n block mixes, then n more, each of the state
      with the state the index names mixed in. */
  ghost predicate IsTrace(core: Core, r: nat, b: seq<u32>, n: nat, xs: seq<seq<u32>>)
    requires r >= 1 && n >= 1 && |b| == 32 * r
  {
    && |xs| == 2 * n + 1 && (forall i :: 0 <= i <= 2 * n ==> |xs[i]| == 32 * r) && xs[0] == b
    && (forall i :: 0 <= i < n ==> xs[i + 1] == BlockMixed(core, r, xs[i]))
    && (forall i :: n <= i < 2 * n ==> xs[i + 1] == BlockMixed(core, r, XorWords(xs[i], xs[Integerify(r, xs[i]) % n])))
  }

  lemma {:induction false} TraceFills(core: Core, r: nat, b: seq<u32>, n: nat, xs: seq<seq<u32>>, i: nat)
    requires r >= 1 && n >= 1 && |b| == 32 * r && IsTrace(core, r, b, n, xs) && i <= n
    ensures xs[i] == Iterated(core, r, b, i)
  {
    hide BlockMixed, XorWords, Integerify;
    if i > 0 {
      TraceFills(core, r, b, n, xs, i - 1);
      assert xs[i - 1 + 1] == BlockMixed(core, r, xs[i - 1]);
    }
  }

  lemma {:induction false} TraceMixes(core: Core, r: nat, b: seq<u32>, n: nat, xs: seq<seq<u32>>, i: nat)
    requires r >= 1 && n >= 1 && |b| == 32 * r && IsTrace(core, r, b, n, xs) && i <= n
    ensures xs[n + i] == Mixed(core, r, b, n, i)
  {
    hide BlockMixed, XorWords, Integerify, Iterated;
    if i == 0 {
      TraceFills(core, r, b, n, xs, n);
    } else {
      TraceMixes(core, r, b, n, xs, i - 1);
      var j := Integerify(r, xs[n + i - 1]) % n;
      TraceFills(core, r, b, n, xs, j);
      assert xs[n + (i - 1) + 1] == BlockMixed(core, r, XorWords(xs[n + i - 1], xs[j]));
    }
  }

  /** The result is the end of every such trace ... */
  lemma RoMixIsTraceEnd(core: Core, r: nat, b: seq<u32>, n: nat, xs: seq<seq<u32>>)
    requires r >= 1 && n >= 1 && |b| == 32 * r && IsTrace(core, r, b, n, xs)
    ensures RoMix(core, r, b, n) == xs[2 * n]
  {
    hide IsTrace;
    TraceMixes(core, r, b, n, xs, n);
  }

  /** ... and there is one. */
  lemma TraceExists(core: Core, r: nat, b: seq<u32>, n: nat) returns (xs: seq<seq<u32>>)
    requires r >= 1 && n >= 1 && |b| == 32 * r
    ensures IsTrace(core, r, b, n, xs)
  {
    hide BlockMixed, XorWords, Integerify, TraceAt;
    xs := seq(2 * n + 1, i requires 0 <= i < 2 * n + 1 => TraceAt(core, r, b, n, i));
    FirstOfTrace(core, r, b, n);
    assert forall i :: 0 <= i <= 2 * n ==> |xs[i]| == 32 * r;
    forall i | 0 <= i < n ensures xs[i + 1] == BlockMixed(core, r, xs[i]) { FillingStep(core, r, b, n, i); }
    forall i | n <= i < 2 * n ensures xs[i + 1] == BlockMixed(core, r, XorWords(xs[i], xs[Integerify(r, xs[i]) % n])) {
      MixingStep(core, r, b, n, i);
    }
  }

  ghost function TraceAt(core: Core, r: nat, b: seq<u32>, n: nat, i: nat): (x: seq<u32>)
    requires r >= 1 && n >= 1 && |b| == 32 * r
    ensures |x| == 32 * r
  {
    if i < n then Iterated(core, r, b, i) else Mixed(core, r, b, n, i - n)
  }

  lemma FirstOfTrace(core: Core, r: nat, b: seq<u32>, n: nat)
    requires r >= 1 && n >= 1 && |b| == 32 * r
    ensures TraceAt(core, r, b, n, 0) == b
  {
    hide BlockMixed;
  }

  lemma FillingStep(core: Core, r: nat, b: seq<u32>, n: nat, i: nat)
    requires r >= 1 && n >= 1 && |b| == 32 * r && i < n
    ensures TraceAt(core, r, b, n, i + 1) == BlockMixed(core, r, TraceAt(core, r, b, n, i))
  {
    hide BlockMixed, XorWords, Integerify;
  }

  lemma MixingStep(core: Core, r: nat, b: seq<u32>, n: nat, i: nat)
    requires r >= 1 && n >= 1 && |b| == 32 * r && n <= i
    ensures
      var x := TraceAt(core, r, b, n, i);
      TraceAt(core, r, b, n, i + 1) == BlockMixed(core, r, XorWords(x, TraceAt(core, r, b, n, Integerify(r, x) % n)))
  {
    hide BlockMixed, XorWords, Integerify, Iterated;
  }

  /** A round forgets nothing: two states that name the same index stay apart under an injective
      block mix. */
  lemma RoundKeepsApart(core: Core, r: nat, v: seq<u32>, x: seq<u32>, y: seq<u32>)
    requires r >= 1 && |v| == |x| == |y| == 32 * r
    requires forall p, q :: |p| == |q| == 32 * r && BlockMixed(core, r, p) == BlockMixed(core, r, q) ==> p == q
    ensures BlockMixed(core, r, XorWords(x, v)) == BlockMixed(core, r, XorWords(y, v)) ==> x == y
  {
    hide BlockMixed, XorWords;
    XorWordsCancel(x, v);
    XorWordsCancel(y, v);
  }

  // ----- Integerify -----

  lemma {:induction false} OctetsSplit(a: seq<u32>, b: seq<u32>)
    ensures Octets(a + b) == Octets(a) + Octets(b)
    decreases |b|
  {
    if b == [] {
      assert a + b == a;
    } else {
      assert (a + b)[..|a + b| - 1] == a + b[..|b| - 1];
      OctetsSplit(a, b[..|b| - 1]);
      hide ToBytes;
      assert Octets(a) + (Octets(b[..|b| - 1]) + ToBytes(b[|b| - 1], 4)) == Octets(a) + Octets(b[..|b| - 1]) + ToBytes(b[|b| - 1], 4);
    }
  }

  lemma WordOctets(w: u32)
    ensures LittleEndian(Octets([w])) == w
  {
    Pow2Values();
    assert Octets([w]) == Octets([]) + ToBytes(w, 4) == ToBytes(w, 4);
    RoundTripNumber(w, 4);
  }

  /** The number read from the first two words agrees with the whole 512-bit number modulo 2^64. */
  lemma {:induction false} LowWords(x: Block) returns (rest: nat)
    ensures LittleEndian(Octets(x)) == x[1] * TWO32 + x[0] + rest * TWO64
  {
    hide Octets, LittleEndian, ToBytes;
    var tail := x[2..];
    assert x == [x[0]] + ([x[1]] + tail);
    OctetsSplit([x[0]], [x[1]] + tail);
    OctetsSplit([x[1]], tail);
    LittleEndianAppend(Octets([x[0]]), Octets([x[1]] + tail));
    LittleEndianAppend(Octets([x[1]]), Octets(tail));
    WordOctets(x[0]);
    WordOctets(x[1]);
    rest := LittleEndian(Octets(tail));
    Pow2Values();
  }

  lemma {:induction false} SameRemainder(x: nat, low: nat, rest: nat, k: nat)
    requires k <= 64 && x == low + rest * TWO64
    ensures x % Pow2(k) == low % Pow2(k)
  {
    hide Pow2;
    Pow2Values();
    Pow2Add(k, 64 - k);
    AddMultiple(low, rest, Pow2(k), Pow2(64 - k));
  }

  lemma AddMultiple(low: nat, rest: nat, p: nat, q: nat)
    requires p >= 1
    ensures (low + rest * (p * q)) % p == low % p
  {
    var d, t := low / p, low % p;
    assert low == d * p + t;
    assert rest * (p * q) == rest * q * p;
    assert (d + rest * q) * p == d * p + rest * q * p;
    DivModUnique(low + rest * (p * q), d + rest * q, t, p);
  }

  /** integerify masked with N - 1 is Integerify modulo N, for N a power of two of at most 64 bits. */
  method MaskedIndex(x: array<u32>, r: nat, n: nat, ghost k: nat) returns (j: nat)
    requires r >= 1 && x.Length == 32 * r && n == Pow2(k) && k < 64
    ensures j == Integerify(r, x[..]) % n && j < n
  {
    hide Octets, LittleEndian, Pow2, And;
    var last := (2 * r - 1) * 16;
    var low: nat := x[last + 1] * TWO32 + x[last];
    j := And(low, n - 1);
    ghost var b: Block := x[last..last + 16];
    assert x[..][32 * r - 16..] == b;
    ghost var rest := LowWords(b);
    MaskIsRemainder(low, k);
    SameRemainder(LittleEndian(Octets(b)), b[1] * TWO32 + b[0], rest, k);
  }

  // ----- Copying and xoring stretches of words -----

  /** s with data written at the index. */
  function Put(s: seq<u32>, at: nat, data: seq<u32>): (t: seq<u32>)
    requires at + |data| <= |s|
    ensures |t| == |s|
  {
    s[..at] + data + s[at + |data|..]
  }

  lemma PutAll(s: seq<u32>, data: seq<u32>)
    requires |s| == |data|
    ensures Put(s, 0, data) == data
  {
  }

  /** blkcpy, word by word. */
  method CopyWords(dst: array<u32>, d: nat, src: array<u32>, s: nat, n: nat)
    requires dst != src && d + n <= dst.Length && s + n <= src.Length
    modifies dst
    ensures dst[..] == Put(old(dst[..]), d, src[s..s + n])
  {
    for i := 0 to n
      invariant dst[..] == old(dst[..d]) + src[s..s + i] + old(dst[d + i..])
    {
      dst[d + i] := src[s + i];
    }
  }

  /** blkxor, word by word, onto the whole of dst. */
  method XorInto(dst: array<u32>, src: array<u32>, s: nat)
    requires dst != src && s + dst.Length <= src.Length
    modifies dst
    ensures dst[..] == XorWords(old(dst[..]), src[s..s + dst.Length])
  {
    hide XorWord;
    for i := 0 to dst.Length
      invariant forall k :: 0 <= k < dst.Length ==> dst[k] == if k < i then XorWord(old(dst[k]), src[s + k]) else old(dst[k])
    {
      dst[i] := XorWord(dst[i], src[s + i]);
    }
  }

  /** One round, with the core applied in place: X <-- H(X xor B_i). */
  method Round(core: Core, x: array<u32>, bin: array<u32>, b: nat)
    requires x != bin && x.Length == 16 && b + 16 <= bin.Length
    modifies x
    ensures x[..] == core(XorWords(old(x[..]), bin[b..b + 16]))
  {
    hide XorWords;
    ghost var mixed: Block := XorWords(x[..], bin[b..b + 16]);
    XorInto(x, bin, b);
    assert x[..] == mixed;
    var out := core(x[..]);
    assert out == core(mixed);
    for k := 0 to 16
      invariant x[..k] == out[..k]
    {
      x[k] := out[k];
    }
    assert x[..] == out;
  }

  // ----- blockmix_salsa8 -----

  lemma ChainStart(core: Core, r: nat, b: seq<u32>)
    requires r >= 1 && |b| == 32 * r
    ensures Chain(core, r, b, 0) == b[32 * r - 16..] && EverySecond(core, r, b, 0, 0) == EverySecond(core, r, b, 1, 0) == []
  {
  }

  lemma ChainStep(core: Core, r: nat, b: seq<u32>, i: nat)
    requires r >= 1 && |b| == 32 * r && i < 2 * r
    ensures Chain(core, r, b, i + 1) == core(XorWords(Chain(core, r, b, i), b[i * 16..i * 16 + 16]))
  {
    hide XorWords;
  }

  /** Writing the next even and the next odd block keeps the two halves of the output growing. */
  lemma HalvesGrow(core: Core, r: nat, b: seq<u32>, q: nat, o: seq<u32>, o': seq<u32>)
    requires |b| == 32 * r && q < r && |o| == |o'| == 32 * r
    requires o[..16 * q] == EverySecond(core, r, b, 0, q) && o[16 * r..16 * r + 16 * q] == EverySecond(core, r, b, 1, q)
    requires o' == Put(Put(o, 16 * q, Chain(core, r, b, 2 * q + 1)), 16 * r + 16 * q, Chain(core, r, b, 2 * q + 2))
    ensures o'[..16 * q + 16] == EverySecond(core, r, b, 0, q + 1)
    ensures o'[16 * r..16 * r + 16 * q + 16] == EverySecond(core, r, b, 1, q + 1)
  {
    hide Chain, Put;
    var y, z := Chain(core, r, b, 2 * q + 1), Chain(core, r, b, 2 * q + 2);
    var p := Put(o, 16 * q, y);
    PutThere(o, 16 * q, y);
    PutElsewhere(o, 16 * q, y, 16 * r, 16 * r + 16 * q);
    PutThere(p, 16 * r + 16 * q, z);
    PutElsewhere(p, 16 * r + 16 * q, z, 0, 16 * q + 16);
    SplitAt(o', 16 * r, 16 * q, z);
    SplitAt(p, 0, 16 * q, y);
  }

  lemma PutThere(s: seq<u32>, at: nat, data: seq<u32>)
    requires at + |data| <= |s|
    ensures Put(s, at, data)[at..at + |data|] == data && Put(s, at, data)[..at] == s[..at]
  {
  }

  lemma PutElsewhere(s: seq<u32>, at: nat, data: seq<u32>, lo: nat, hi: nat)
    requires at + |data| <= |s| && lo <= hi <= |s| && (hi <= at || at + |data| <= lo)
    ensures Put(s, at, data)[lo..hi] == s[lo..hi]
  {
    var t := Put(s, at, data);
    assert forall k :: lo <= k < hi ==> t[k] == s[k];
  }

  lemma SplitAt(s: seq<u32>, lo: nat, n: nat, data: seq<u32>)
    requires lo + n + |data| <= |s| && s[lo + n..lo + n + |data|] == data
    ensures s[lo..lo + n + |data|] == s[lo..lo + n] + data
  {
    var m := lo + n;
    assert forall k :: 0 <= k < |data| ==> data[k] == s[m + k];
  }

  /** Rounds i and i + 1, their blocks written to the two halves of the output. */
  method TwoRounds(core: Core, bin: array<u32>, bout: array<u32>, x: array<u32>, r: nat, i: nat)
    requires r >= 1 && bin.Length == bout.Length == 32 * r && x.Length == 16 && i % 2 == 0 && i < 2 * r
    requires bin != bout && bin != x && bout != x
    requires x[..] == Chain(core, r, bin[..], i)
    modifies bout, x
    ensures x[..] == Chain(core, r, bin[..], i + 2)
    ensures bout[..] == Put(Put(old(bout[..]), i * 8, Chain(core, r, bin[..], i + 1)), i * 8 + r * 16, Chain(core, r, bin[..], i + 2))
  {
    hide XorWords, Chain, Put;
    ChainStep(core, r, bin[..], i);
    ChainStep(core, r, bin[..], i + 1);
    Round(core, x, bin, i * 16);
    assert x[..] == x[0..16];
    CopyWords(bout, i * 8, x, 0, 16);
    Round(core, x, bin, i * 16 + 16);
    assert x[..] == x[0..16];
    CopyWords(bout, i * 8 + r * 16, x, 0, 16);
  }

  /** blockmix_salsa8. */
  method BlockMix(core: Core, bin: array<u32>, bout: array<u32>, x: array<u32>, r: nat)
    requires r >= 1 && bin.Length == bout.Length == 32 * r && x.Length == 16
    requires bin != bout && bin != x && bout != x
    modifies bout, x
    ensures bout[..] == BlockMixed(core, r, bin[..])
  {
    hide XorWords, Chain, EverySecond, Put;
    ghost var b := bin[..];
    CopyWords(x, 0, bin, (2 * r - 1) * 16, 16);
    assert bin[(2 * r - 1) * 16..(2 * r - 1) * 16 + 16] == b[32 * r - 16..];
    PutAll(old(x[..]), b[32 * r - 16..]);
    ChainStart(core, r, b);
    var i := 0;
    ghost var q := 0;
    while i < 2 * r
      invariant i == 2 * q && q <= r
      invariant x[..] == Chain(core, r, b, 2 * q)
      invariant bout[..16 * q] == EverySecond(core, r, b, 0, q) && bout[16 * r..16 * r + 16 * q] == EverySecond(core, r, b, 1, q)
    {
      ghost var o := bout[..];
      TwoRounds(core, bin, bout, x, r, i);
      HalvesGrow(core, r, b, q, o, bout[..]);
      i := i + 2;
      q := q + 1;
    }
    assert bout[..] == bout[..16 * r] + bout[16 * r..];
  }

  // ----- smix -----

  /** Row q of a table of rows of w words. */
  function Row(v: seq<u32>, w: nat, q: nat): seq<u32> {
    if q * w + w <= |v| then v[q * w..q * w + w] else []
  }

  lemma RowInside(q: nat, w: nat, n: nat)
    requires q < n
    ensures 0 <= q * w && q * w + w <= w * n
  {
    assert (q + 1) * w <= n * w;
  }

  /** The first i rows hold V_0 to V_{i-1}. */
  ghost predicate Filled(core: Core, r: nat, b: seq<u32>, v: seq<u32>, i: nat)
    requires r >= 1 && |b| == 32 * r
  {
    forall q :: 0 <= q < i ==> Row(v, 32 * r, q) == Iterated(core, r, b, q)
  }

  lemma FilledGrows(core: Core, r: nat, b: seq<u32>, v: seq<u32>, i: nat, n: nat)
    requires r >= 1 && |b| == 32 * r && |v| == 32 * r * n && i < n && Filled(core, r, b, v, i)
    ensures i * (32 * r) + 32 * r <= |v|
    ensures Filled(core, r, b, Put(v, i * (32 * r), Iterated(core, r, b, i)), i + 1)
  {
    hide Iterated;
    var w := 32 * r;
    RowInside(i, w, n);
    var v' := Put(v, i * w, Iterated(core, r, b, i));
    forall q | 0 <= q < i + 1 ensures Row(v', w, q) == Iterated(core, r, b, q) {
      RowInside(q, w, n);
      if q < i {
        RowInside(q, w, i);
        assert Row(v', w, q) == Row(v, w, q);
      }
    }
  }

  /** One step of the first loop: V_i <-- X, then H(X) into the other buffer. */
  method FillStep(core: Core, r: nat, ghost b: seq<u32>, v: array<u32>, n: nat, i: nat, x: array<u32>, y: array<u32>, z: array<u32>)
    requires r >= 1 && |b| == 32 * r && x.Length == y.Length == 32 * r && z.Length == 16 && v.Length == 32 * r * n && i < n
    requires x != y && x != z && y != z && v != x && v != y && v != z
    requires x[..] == Iterated(core, r, b, i) && Filled(core, r, b, v[..], i)
    modifies v, y, z
    ensures y[..] == Iterated(core, r, b, i + 1) && Filled(core, r, b, v[..], i + 1)
  {
    hide BlockMixed, Filled, Put;
    FilledGrows(core, r, b, v[..], i, n);
    assert x[0..32 * r] == x[..];
    CopyWords(v, i * (32 * r), x, 0, 32 * r);
    BlockMix(core, x, y, z, r);
  }

  /** One step of the second loop: X <-- H(X xor V_j), into the other buffer. */
  method MixStep(core: Core, r: nat, ghost b: seq<u32>, v: array<u32>, n: nat, ghost k: nat, ghost i: nat, x: array<u32>, y: array<u32>, z: array<u32>)
    requires r >= 1 && |b| == 32 * r && x.Length == y.Length == 32 * r && z.Length == 16 && v.Length == 32 * r * n
    requires x != y && x != z && y != z && v != x && v != y && v != z
    requires n == Pow2(k) && k < 64
    requires x[..] == Mixed(core, r, b, n, i) && Filled(core, r, b, v[..], n)
    modifies x, y, z
    ensures y[..] == Mixed(core, r, b, n, i + 1)
  {
    hide BlockMixed, XorWords, Integerify, Iterated, Pow2;
    var j := MaskedIndex(x, r, n, k);
    RowInside(j, 32 * r, n);
    assert Row(v[..], 32 * r, j) == Iterated(core, r, b, j);
    assert v[j * (32 * r)..j * (32 * r) + x.Length] == Row(v[..], 32 * r, j);
    XorInto(x, v, j * (32 * r));
    BlockMix(core, x, y, z, r);
  }

  /** X <-- B. */
  method LoadWords(b: array<byte>, x: array<u32>)
    requires b.Length == 4 * x.Length
    modifies x
    ensures x[..] == WordsOf(b[..])
  {
    hide DecodeWord;
    for k := 0 to x.Length
      invariant forall q :: 0 <= q < k ==> x[q] == DecodeWord(b[4 * q..4 * q + 4])
    {
      x[k] := DecodeWord(b[4 * k..4 * k + 4]);
    }
  }

  /** B' <-- X. */
  method StoreWords(x: array<u32>, b: array<byte>)
    requires b.Length == 4 * x.Length
    modifies b
    ensures b[..] == Octets(x[..])
  {
    hide ToBytes, EncodeWord;
    for k := 0 to x.Length
      invariant b[..4 * k] == Octets(x[..k])
    {
      var e := EncodeWord(x[k]);
      EncodeWordBytes(x[k]);
      b[4 * k], b[4 * k + 1], b[4 * k + 2], b[4 * k + 3] := e[0], e[1], e[2], e[3];
      assert x[..k + 1][..k] == x[..k];
      assert b[..4 * k + 4] == b[..4 * k] + e;
    }
    assert x[..x.Length] == x[..];
  }

  /** The first loop of smix, unrolled by two: X and Y change roles. */
  method FillTable(core: Core, r: nat, n: nat, ghost k: nat, v: array<u32>, x: array<u32>, y: array<u32>, z: array<u32>)
    requires r >= 1 && n == 2 * k && x.Length == y.Length == 32 * r && z.Length == 16 && v.Length == 32 * r * n
    requires x != y && x != z && y != z && v != x && v != y && v != z
    modifies v, x, y, z
    ensures x[..] == Iterated(core, r, old(x[..]), n) && Filled(core, r, old(x[..]), v[..], n)
  {
    hide Iterated, Filled;
    ghost var b := x[..];
    FirstStates(core, r, b, n + 1, v[..]);
    var i := 0;
    ghost var h := 0;
    while i < n
      invariant i == 2 * h && h <= k
      invariant x[..] == Iterated(core, r, b, i) && Filled(core, r, b, v[..], i)
    {
      FillStep(core, r, b, v, n, i, x, y, z);
      FillStep(core, r, b, v, n, i + 1, y, x, z);
      i := i + 2;
      h := h + 1;
    }
  }

  /** The second loop of smix, unrolled by two. */
  method MixLoop(core: Core, r: nat, ghost b: seq<u32>, n: nat, ghost k: nat, v: array<u32>, x: array<u32>, y: array<u32>, z: array<u32>)
    requires r >= 1 && |b| == 32 * r && n == Pow2(k) && 1 <= k < 64
    requires x.Length == y.Length == 32 * r && z.Length == 16 && v.Length == 32 * r * n
    requires x != y && x != z && y != z && v != x && v != y && v != z
    requires x[..] == Mixed(core, r, b, n, 0) && Filled(core, r, b, v[..], n)
    modifies x, y, z
    ensures x[..] == RoMix(core, r, b, n)
  {
    hide Mixed, Filled;
    var i := 0;
    ghost var h := 0;
    assert n == 2 * Pow2(k - 1);
    hide Pow2;
    while i < n
      invariant i == 2 * h && h <= Pow2(k - 1)
      invariant x[..] == Mixed(core, r, b, n, i)
    {
      MixStep(core, r, b, v, n, k, i, x, y, z);
      MixStep(core, r, b, v, n, k, i + 1, y, x, z);
      i := i + 2;
      h := h + 1;
    }
  }

  /** smix. */
  method SMix(core: Core, b: array<byte>, r: nat, n: nat, ghost k: nat, v: array<u32>, x: array<u32>, y: array<u32>, z: array<u32>)
    requires r >= 1 && n == Pow2(k) && 1 <= k < 64
    requires b.Length == 128 * r && v.Length == 32 * r * n && x.Length == y.Length == 32 * r && z.Length == 16
    requires x != y && x != z && y != z && v != x && v != y && v != z
    modifies b, v, x, y, z
    ensures b[..] == Octets(RoMix(core, r, WordsOf(old(b[..])), n))
  {
    hide Iterated, Mixed, Filled, Octets, RoMix, WordsOf;
    LoadWords(b, x);
    ghost var w := x[..];
    FillTable(core, r, n, Pow2(k - 1), v, x, y, z);
    FirstStates(core, r, w, n, v[..]);
    MixLoop(core, r, w, n, k, v, x, y, z);
    StoreWords(x, b);
  }

  lemma FirstStates(core: Core, r: nat, b: seq<u32>, n: nat, v: seq<u32>)
    requires r >= 1 && |b| == 32 * r && n >= 1
    ensures Iterated(core, r, b, 0) == b && Filled(core, r, b, v, 0)
    ensures Mixed(core, r, b, n, 0) == Iterated(core, r, b, n)
  {
  }

  // ----- scrypt with N = 1024, r = p = 1 and 32 octets of output -----

  /** Section 6 of RFC 7914, with the password as its own salt. */
  function ScryptHash(f: Compression, core: Core, input: seq<byte>): seq<byte> {
    var b := DerivedKey(f, input, input, 1, 128);
    DerivedKey(f, input, Octets(RoMix(core, 1, WordsOf(b), 1024)), 1, 32)
  }

  /** scrypt_1024_1_1_256_sp. */
  method Scrypt1024(f: Compression, core: Core, input: seq<byte>, output: array<byte>)
    requires |input| == 80 && output.Length == 32
    modifies output
    ensures output[..] == ScryptHash(f, core, input)
  {
    hide DerivedKey, RoMix, Octets, WordsOf;
    var b := new byte[128];
    var x, y, z := new u32[32], new u32[32], new u32[16];
    var v := new u32[32 * 1024];
    DeriveKey(f, input, input, 1, b, 128);
    assert b[..128] == b[..];
    ThousandTwentyFour();
    SMix(core, b, 1, 1024, 10, v, x, y, z);
    DeriveKey(f, input, b[..], 1, output, 32);
    assert output[..32] == output[..];
  }

  lemma ThousandTwentyFour()
    ensures Pow2(10) == 1024
  {
    Pow2Values();
    assert Pow2(10) == 2 * Pow2(9) && Pow2(9) == 2 * Pow2(8);
  }
}
