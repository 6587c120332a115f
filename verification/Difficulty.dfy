/** 256-bit targets: long division by the pool's difficulty, the compact four-byte form sent to
    miners, and the comparison of a hash with a target. */
module Difficulty {
  import opened Words
  import opened Bytes

  const TWO15 := 0x8000
  const TWO23 := 0x80_0000
  const TWO24 := 0x100_0000

  // ----- Rounding to a 23-bit mantissa -----

  /** Drop whole low bytes until the rest fits in 23 bits, then put zero bytes back. */
  function Rounded(x: nat): nat
    decreases x
  {
    if x < TWO23 then x else 256 * Rounded(x / 256)
  }

  /** Rounding is determined by any scale that leaves a mantissa of 15 to 23 bits. */
  lemma {:induction false} RoundedAtScale(x: nat, m: nat, t: nat, j: nat)
    requires x == m * Pow2(8 * j) + t && t < Pow2(8 * j)
    requires m < TWO23 && (j > 0 ==> m >= TWO15)
    ensures Rounded(x) == m * Pow2(8 * j)
    decreases j
  {
    if j > 0 {
      hide Rounded, Pow2;
      NextScale(j);
      DropByte(x, m, t, Pow2(8 * j - 8));
      RoundedAtScale(x / 256, m, t / 256, j - 1);
      RoundedStep(x);
    }
  }

  lemma NextScale(j: nat)
    requires j > 0
    ensures Pow2(8 * j) == 256 * Pow2(8 * j - 8)
  {
    Pow2Values();
    Pow2Add(8, 8 * j - 8);
  }

  lemma RoundedStep(x: nat)
    requires x >= TWO23
    ensures Rounded(x) == 256 * Rounded(x / 256)
  {
  }

  lemma DropByte(x: nat, m: nat, t: nat, p: nat)
    requires p > 0 && x == m * (256 * p) + t && t < 256 * p && m >= TWO15
    ensures x / 256 == m * p + t / 256 && t / 256 < p && x >= TWO23 && m * (256 * p) == 256 * (m * p)
  {
    assert m * (256 * p) == 256 * (m * p);
    DivModUnique(x, m * p + t / 256, t % 256, 256);
    assert m * p >= m * 1;
  }

  /** The scale: how many low bytes are dropped. */
  function Scale(x: nat): nat
    decreases x
  {
    if x < TWO23 then 0 else 1 + Scale(x / 256)
  }

  lemma {:induction false} ScaleRange(x: nat)
    ensures x < TWO23 * Pow2(8 * Scale(x))
    ensures Scale(x) > 0 ==> x >= TWO15 * Pow2(8 * Scale(x))
    decreases x
  {
    if x >= TWO23 {
      ScaleRange(x / 256);
      var j := Scale(x / 256);
      Pow2Values();
      Pow2Add(8, 8 * j);
      assert 256 * (TWO23 * Pow2(8 * j)) == TWO23 * Pow2(8 * j + 8);
      assert 256 * (TWO15 * Pow2(8 * j)) == TWO15 * Pow2(8 * j + 8);
    }
  }

  /** Rounding clears the low Scale(x) bytes. */
  lemma {:induction false} RoundedClears(x: nat)
    ensures Rounded(x) == x / Pow2(8 * Scale(x)) * Pow2(8 * Scale(x)) == x - x % Pow2(8 * Scale(x))
    ensures x / Pow2(8 * Scale(x)) < TWO23 && (Scale(x) > 0 ==> x / Pow2(8 * Scale(x)) >= TWO15)
  {
    hide Rounded, Scale, Pow2;
    var j := Scale(x);
    var p := Pow2(8 * j);
    ScaleRange(x);
    QuotientRange(x, p, j > 0);
    RoundedAtScale(x, x / p, x % p, j);
  }

  lemma QuotientRange(x: nat, p: nat, low: bool)
    requires p > 0 && x < TWO23 * p && (low ==> x >= TWO15 * p)
    ensures x == x / p * p + x % p && x / p < TWO23 && (low ==> x / p >= TWO15)
  {
    var q, t := x / p, x % p;
    assert x == q * p + t;
    assert q >= TWO23 ==> q * p >= TWO23 * p;
    assert q < TWO15 ==> (q + 1) * p <= TWO15 * p;
  }

  /** Never above, and off by at most one part in 32768. */
  lemma RoundedClose(x: nat)
    ensures Rounded(x) <= x && 32768 * (x - Rounded(x)) <= Rounded(x)
  {
    hide Rounded, Scale, Pow2;
    var j := Scale(x);
    var p := Pow2(8 * j);
    RoundedClears(x);
    if j > 0 {
      CloseAtScale(x / p, x % p, p);
    } else {
      ScaleZero(x);
    }
  }

  lemma CloseAtScale(m: nat, t: nat, p: nat)
    requires m >= TWO15 && t < p
    ensures 32768 * t <= m * p
  {
    assert m * p >= TWO15 * p;
  }

  lemma ScaleZero(x: nat)
    requires Scale(x) == 0
    ensures Rounded(x) == x
  {
  }

  /** The order of targets is kept. */
  lemma {:induction false} RoundedMonotone(x: nat, y: nat)
    requires x <= y
    ensures Rounded(x) <= Rounded(y)
    decreases y
  {
    if x >= TWO23 {
      RoundedMonotone(x / 256, y / 256);
    } else if y >= TWO23 {
      RoundedAtLeast(y);
    }
  }

  lemma {:induction false} RoundedAtLeast(y: nat)
    requires y >= TWO23
    ensures Rounded(y) >= TWO23
    decreases y
  {
    if y / 256 >= TWO23 { RoundedAtLeast(y / 256); }
  }

  /** Rounding again changes nothing. */
  lemma {:induction false} RoundedTwice(x: nat)
    ensures Rounded(Rounded(x)) == Rounded(x)
    decreases x
  {
    if x >= TWO23 {
      RoundedTwice(x / 256);
      RoundedAtLeast(x);
      var y := Rounded(x / 256);
      RoundedStep(x);
      RoundedStep(256 * y);
      hide Rounded;
      DivModUnique(256 * y, y, 0, 256);
    }
  }

  // ----- calculateFullRepFromCompactRep -----

  function Mantissa(c: Bytes4): nat {
    LittleEndian(c[..3])
  }

  function ExponentOf(c: Bytes4): int {
    c[3]
  }

  /** The value meant by a compact form, for every exponent byte. */
  function Expanded(c: Bytes4): int {
    var e := ExponentOf(c);
    if e >= 3 then Mantissa(c) * Pow2(8 * (e - 3)) else Mantissa(c) / Pow2(8 * (3 - e))
  }

  function Shifted(c: Bytes4, k: int): byte {
    var i := k - (ExponentOf(c) - 3);
    if 0 <= i < 3 then c[i] else 0
  }

  /** The bytes of the full form are the value modulo 2^256: bytes past the end are dropped. */
  method FullRep(c: Bytes4) returns (full: Bytes32)
    ensures LittleEndian(full) == Expanded(c) % TWO256
  {
    hide LittleEndian;
    var a := new byte[32](_ => 0);
    var start := ExponentOf(c) - 3;
    for i := 0 to 3
      invariant forall k :: 0 <= k < 32 ==> a[k] == if k - start < i then Shifted(c, k) else 0
    {
      var idx := start + i;
      if 0 <= idx < 32 { a[idx] := c[i]; }
    }
    full := a[..];
    ShiftedValue(c, full);
  }

  lemma ShiftedValue(c: Bytes4, full: Bytes32)
    requires forall k :: 0 <= k < 32 ==> full[k] == Shifted(c, k)
    ensures LittleEndian(full) == Expanded(c) % TWO256
  {
    hide LittleEndian, Pow2;
    Pow2Values();
    var m, e := c[..3], ExponentOf(c);
    if e >= 3 {
      ghost var all := ShiftUp(m, e - 3);
      assert all[..32] == full;
      LittleEndianSplit(all, 32);
    } else {
      ShiftDown(m, 3 - e, full);
      LittleEndianBound(full);
      DivModUnique(LittleEndian(full), 0, LittleEndian(full), TWO256);
    }
  }

  lemma ShiftUp(m: seq<byte>, s: nat) returns (all: seq<byte>)
    ensures all == Zeros(s) + (m + Zeros(32)) && LittleEndian(all) == LittleEndian(m) * Pow2(8 * s)
  {
    hide LittleEndian, Pow2;
    all := Zeros(s) + (m + Zeros(32));
    ZeroValue(s);
    AppendZeros(m, 32);
    LittleEndianAppend(Zeros(s), m + Zeros(32));
  }

  lemma AppendZeros(m: seq<byte>, n: nat)
    ensures LittleEndian(m + Zeros(n)) == LittleEndian(m)
  {
    hide LittleEndian, Pow2;
    ZeroValue(n);
    LittleEndianAppend(m, Zeros(n));
  }

  lemma ShiftDown(m: seq<byte>, d: nat, full: Bytes32)
    requires d <= |m| <= 32 && full == m[d..] + Zeros(32 - (|m| - d))
    ensures LittleEndian(full) == LittleEndian(m) / Pow2(8 * d)
  {
    hide LittleEndian, Pow2;
    LittleEndianSplit(m, d);
    AppendZeros(m[d..], 32 - (|m| - d));
  }

  // ----- calculateCompactRepFromFullRep -----

  /** One more than the index of the most significant nonzero byte. */
  method Exponent(full: Bytes32) returns (e: nat)
    ensures e <= 32 && (e > 0 ==> full[e - 1] != 0)
    ensures forall k :: e <= k < 32 ==> full[k] == 0
  {
    e := 0;
    var i := 31;
    while i >= 0
      invariant -1 <= i < 32 && e == 0
      invariant forall k :: i < k < 32 ==> full[k] == 0
    {
      if full[i] != 0 {
        e := i + 1;
        break;
      }
      i := i - 1;
    }
  }

  /** The compact form of x has a mantissa below 2^23 and stands for Rounded(x). */
  method CompactRep(full: Bytes32) returns (c: Bytes4)
    ensures 3 <= c[3] <= 33 && Mantissa(c) < TWO23
    ensures Expanded(c) == Rounded(LittleEndian(full)) < TWO256
  {
    hide LittleEndian, Rounded, Pow2, ToBytes;
    var e := Exponent(full);
    var mantissa: nat;
    if e <= 3 {
      mantissa := ThreeBytes(full, 0);
      e := 3;
    } else {
      mantissa := ThreeBytes(full, e - 3);
    }
    ghost var t := TopBytes(full, e, mantissa);
    ghost var x := LittleEndian(full);
    if mantissa >= TWO23 {
      Shift(x, mantissa, t, e - 3);
      mantissa := mantissa / 256;
      e := e + 1;
    } else {
      RoundedAtScale(x, mantissa, t, e - 3);
    }
    c := [mantissa % 256, mantissa / 256 % 256, mantissa / 65536 % 256, e];
    ThreeByteValue(mantissa, c[..3]);
    RoundedFits(full);
  }

  /** b[i] | b[i+1] << 8 | b[i+2] << 16. */
  method ThreeBytes(full: Bytes32, i: nat) returns (m: nat)
    requires i + 3 <= 32
    ensures m == LittleEndian(full[i..i + 3]) < TWO24
  {
    var b0: int, b1: int, b2: int := full[i], full[i + 1], full[i + 2];
    m := b0 + b1 * 256 + b2 * 65536;
    ThreeByteSum(full[i..i + 3], b0, b1, b2);
  }

  lemma ThreeByteSum(b: seq<byte>, b0: int, b1: int, b2: int)
    requires |b| == 3 && b0 == b[0] && b1 == b[1] && b2 == b[2]
    ensures LittleEndian(b) == b0 + b1 * 256 + b2 * 65536
  {
    assert LittleEndian(b[1..][1..][1..]) == 0;
    assert LittleEndian(b[1..][1..]) == b2;
    assert LittleEndian(b[1..]) == b1 + 256 * b2;
  }

  lemma ThreeByteValue(m: nat, b: seq<byte>)
    requires |b| == 3 && m < TWO24 && b[0] == m % 256 && b[1] == m / 256 % 256 && b[2] == m / 65536 % 256
    ensures LittleEndian(b) == m
  {
    ThreeByteSum(b, b[0], b[1], b[2]);
  }

  /** With its high bytes zero, a number is the three bytes below the exponent and a remainder. */
  lemma TopBytes(full: Bytes32, e: nat, m: nat) returns (t: nat)
    requires 3 <= e <= 32 && m == LittleEndian(full[e - 3..e]) && forall k :: e <= k < 32 ==> full[k] == 0
    ensures LittleEndian(full) == m * Pow2(8 * (e - 3)) + t && t < Pow2(8 * (e - 3))
    ensures full[e - 1] != 0 ==> m >= 65536
  {
    hide LittleEndian, Pow2;
    LittleEndianSplit(full, e - 3);
    t := LittleEndian(full[..e - 3]);
    LittleEndianBound(full[..e - 3]);
    assert full[e - 3..] == full[e - 3..e] + Zeros(32 - e);
    AppendZeros(full[e - 3..e], 32 - e);
    HighByte(full[e - 3..e]);
  }

  lemma HighByte(b: seq<byte>)
    requires |b| == 3
    ensures b[2] != 0 ==> LittleEndian(b) >= 65536
  {
    ThreeByteSum(b, b[0], b[1], b[2]);
  }

  /** The sign bit rule: one more byte is dropped and the exponent goes up. */
  lemma Shift(x: nat, m: nat, t: nat, j: nat)
    requires x == m * Pow2(8 * j) + t && t < Pow2(8 * j) && TWO23 <= m < TWO24
    ensures Rounded(x) == m / 256 * Pow2(8 * (j + 1))
  {
    hide Rounded, Pow2;
    var p := Pow2(8 * j);
    Pow2Values();
    Pow2Add(8, 8 * j);
    var q, s := m / 256, m % 256;
    assert m * p == q * (256 * p) + s * p;
    assert s * p <= 255 * p;
    RoundedAtScale(x, q, s * p + t, j + 1);
  }

  lemma RoundedFits(full: Bytes32)
    ensures Rounded(LittleEndian(full)) < TWO256
  {
    hide LittleEndian, Rounded, Pow2;
    LittleEndianBound(full);
    Pow2Values();
    RoundedClose(LittleEndian(full));
  }

  // ----- divideTarget -----

  /** w[0] + 2^64 w[1] + ... */
  function WordsValue(w: seq<u64>): nat {
    if w == [] then 0 else w[0] + TWO64 * WordsValue(w[1..])
  }

  /** One word from eight bytes: b[0] | b[1] << 8 | ... */
  method LoadWord(b: seq<byte>) returns (w: u64)
    requires |b| == 8
    ensures w == LittleEndian(b)
  {
    hide LittleEndian, Pow2;
    Pow2Values();
    assert b[..0] == [];
    assert LittleEndian([]) == 0 by { LittleEndianBound([]); EmptyValue(); }
    w := 0;
    for j := 0 to 8
      invariant w == LittleEndian(b[..j])
    {
      assert b[..j + 1] == b[..j] + [b[j]];
      LittleEndianAppend(b[..j], [b[j]]);
      SingleByte(b[j]);
      LittleEndianBound(b[..j + 1]);
      Pow2Mono(8 * (j + 1), 64);
      w := w + Pow2(8 * j) * b[j];
    }
    assert b[..8] == b;
  }

  lemma EmptyValue()
    ensures LittleEndian([]) == 0
  {
  }

  lemma SingleByte(b: byte)
    ensures LittleEndian([b]) == b
  {
  }

  method LoadWords(b: Bytes32) returns (w: seq<u64>)
    ensures |w| == 4 && WordsValue(w) == LittleEndian(b)
  {
    hide LittleEndian, Pow2;
    var w0 := LoadWord(b[0..8]);
    var w1 := LoadWord(b[8..16]);
    var w2 := LoadWord(b[16..24]);
    var w3 := LoadWord(b[24..32]);
    w := [w0, w1, w2, w3];
    FourWords(b, w);
  }

  lemma FourWords(b: seq<byte>, w: seq<u64>)
    requires |b| == 8 * |w| && forall i :: 0 <= i < |w| ==> w[i] == LittleEndian(b[8 * i..8 * i + 8])
    ensures WordsValue(w) == LittleEndian(b)
  {
    hide LittleEndian, Pow2;
    if w != [] {
      Pow2Values();
      LittleEndianSplit(b, 8);
      assert w[0] == LittleEndian(b[8 * 0..8 * 0 + 8]);
      forall i | 0 <= i < |w| - 1 ensures w[1..][i] == LittleEndian(b[8..][8 * i..8 * i + 8]) {
        assert b[8..][8 * i..8 * i + 8] == b[8 * (i + 1)..8 * (i + 1) + 8];
      }
      FourWords(b[8..], w[1..]);
    } else {
      assert b == [];
      EmptyValue();
    }
  }

  /** Long division, most significant word first; the quotient word always fits. */
  method DivideWords(w: seq<u64>, d: u64) returns (q: seq<u64>)
    requires |w| == 4 && d >= 1
    ensures |q| == 4 && WordsValue(q) == WordsValue(w) / d
  {
    hide WordsValue;
    q := [];
    var remainder: int := 0;
    var i := 4;
    NoWords();
    assert w[4..] == [];
    while i > 0
      invariant 0 <= i <= 4 && |q| == 4 - i && 0 <= remainder < d
      invariant WordsValue(w[i..]) == WordsValue(q) * d + remainder
    {
      i := i - 1;
      ghost var q0, r0 := q, remainder;
      var current: int := remainder * TWO64 + w[i];
      DigitFits(remainder, w[i], d);
      q, remainder := [current / d] + q, current % d;
      NextWord(w[i..], w[i + 1..]);
      NextWord(q, q0);
      LongStep(WordsValue(w[i + 1..]), WordsValue(q0), d, r0, w[i], current, current / d, current % d);
    }
    assert w[0..] == w;
    DivModUnique(WordsValue(w), WordsValue(q), remainder, d);
  }

  lemma NoWords()
    ensures WordsValue([]) == 0
  {
  }

  lemma NextWord(w: seq<u64>, rest: seq<u64>)
    requires |w| > 0 && rest == w[1..]
    ensures WordsValue(w) == w[0] + TWO64 * WordsValue(rest)
  {
  }

  lemma DigitFits(r: int, w: u64, d: u64)
    requires 0 <= r < d
    ensures 0 <= (r * TWO64 + w) / d < TWO64
  {
    var c := r * TWO64 + w;
    var q, t := c / d, c % d;
    assert c == q * d + t;
    if q >= TWO64 { TimesMono(TWO64, q, d); }
  }

  lemma LongStep(high: int, q0: int, d: int, r0: int, w: int, current: int, digit: int, r: int)
    requires high == q0 * d + r0 && current == r0 * TWO64 + w && current == digit * d + r
    ensures w + TWO64 * high == (digit + TWO64 * q0) * d + r
  {
    assert TWO64 * (q0 * d) == TWO64 * q0 * d;
    assert (digit + TWO64 * q0) * d == digit * d + TWO64 * q0 * d;
  }

  /** One result word written back byte by byte: (word >> 8j) & 0xFF. */
  method StoreWord(a: array<byte>, at: nat, w: u64)
    requires at + 8 <= a.Length
    modifies a
    ensures a[at..at + 8] == ToBytes(w, 8) && a[..at] == old(a[..at])
  {
    hide Pow2, ToBytes;
    for j := 0 to 8
      invariant a[..at] == old(a[..at]) && forall k :: 0 <= k < j ==> a[at + k] == ToBytes(w, 8)[k]
    {
      ByteAt(w, 8, j);
      a[at + j] := w / Pow2(8 * j) % 256;
    }
  }

  method StoreWords(q: seq<u64>) returns (b: Bytes32)
    requires |q| == 4
    ensures LittleEndian(b) == WordsValue(q)
  {
    hide LittleEndian, Pow2, ToBytes;
    var a := new byte[32];
    ghost var done: seq<byte> := [];
    for i := 0 to 4
      invariant a[..8 * i] == done && WordsIn(done, q, i)
    {
      StoreWord(a, 8 * i, q[i]);
      OneMoreWord(done, q, i);
      assert a[..8 * i + 8] == a[..8 * i] + a[8 * i..8 * i + 8];
      done := done + ToBytes(q[i], 8);
    }
    b := a[..];
    assert b == done;
    Pow2Values();
    forall i | 0 <= i < 4 ensures q[i] == LittleEndian(b[8 * i..8 * i + 8]) {
      RoundTripNumber(q[i], 8);
    }
    FourWords(b, q);
  }

  /** The bytes hold the first n words. */
  predicate WordsIn(b: seq<byte>, q: seq<u64>, n: nat)
    requires n <= |q|
  {
    |b| == 8 * n && forall k :: 0 <= k < n ==> b[8 * k..8 * k + 8] == ToBytes(q[k], 8)
  }

  lemma OneMoreWord(b: seq<byte>, q: seq<u64>, n: nat)
    requires n < |q| && WordsIn(b, q, n)
    ensures WordsIn(b + ToBytes(q[n], 8), q, n + 1)
  {
    hide ToBytes;
    var c := b + ToBytes(q[n], 8);
    forall k | 0 <= k < n + 1 ensures c[8 * k..8 * k + 8] == ToBytes(q[k], 8) {
      if k < n { assert c[8 * k..8 * k + 8] == b[8 * k..8 * k + 8]; }
    }
  }

  /** divideTarget: the exact quotient, and the dividend itself for difficulty 0. */
  method DivideTarget(base: Bytes32, d: u64) returns (target: Bytes32)
    ensures LittleEndian(target) == if d == 0 then LittleEndian(base) else LittleEndian(base) / d
  {
    hide LittleEndian, WordsValue;
    if d <= 1 {
      target := base;
    } else {
      var w := LoadWords(base);
      var q := DivideWords(w, d);
      target := StoreWords(q);
    }
  }

  // ----- verifyHashVsTarget -----

  lemma {:induction false} SameHigh(a: seq<byte>, b: seq<byte>, i: nat)
    requires |a| == |b| && i < |a| && a[i] < b[i] && forall k :: i < k < |a| ==> a[k] == b[k]
    ensures LittleEndian(a) < LittleEndian(b)
  {
    hide LittleEndian, Pow2;
    assert a[i + 1..] == b[i + 1..];
    LittleEndianSplit(a, i);
    LittleEndianSplit(b, i);
    LittleEndianBound(a[..i]);
    NextByte(a[i..], a[i + 1..]);
    NextByte(b[i..], b[i + 1..]);
    HighDecides(Pow2(8 * i), LittleEndian(a[i..]), LittleEndian(b[i..]), LittleEndian(a[..i]), LittleEndian(b[..i]));
  }

  lemma HighDecides(p: nat, x: nat, y: nat, s: nat, t: nat)
    requires x < y && s < p
    ensures s + p * x < t + p * y
  {
    assert p * (x + 1) <= p * y;
    assert p * (x + 1) == p * x + p;
  }

  lemma NextByte(b: seq<byte>, rest: seq<byte>)
    requires |b| > 0 && rest == b[1..]
    ensures LittleEndian(b) == b[0] + 256 * LittleEndian(rest)
  {
  }

  /** The scan from the most significant byte decides the comparison of the two numbers. */
  method VerifyHash(hash: Bytes32, target: Bytes32) returns (ok: bool)
    ensures ok <==> LittleEndian(hash) <= LittleEndian(target)
  {
    hide LittleEndian;
    var i := 31;
    while i >= 0
      invariant -1 <= i < 32 && forall k :: i < k < 32 ==> hash[k] == target[k]
    {
      if hash[i] < target[i] {
        SameHigh(hash, target, i);
        return true;
      }
      if hash[i] > target[i] {
        SameHigh(target, hash, i);
        return false;
      }
      i := i - 1;
    }
    assert hash == target;
    return true;
  }

  // ----- The targets of the pool, the dispatcher and the miners -----

  /** DifficultyTarget built from a full form keeps it next to its compact form. */
  class DifficultyTarget {
    var full: Bytes32
    var compact: Bytes4

    predicate Valid()
      reads this
    {
      Expanded(compact) == Rounded(LittleEndian(full)) < TWO256
    }

    constructor FromFull(f: Bytes32)
      ensures full == f && Valid()
    {
      hide LittleEndian, Rounded, Expanded;
      var c := CompactRep(f);
      full, compact := f, c;
    }

    /** DifficultyTarget::div. */
    method Div(d: u64)
      modifies this
      ensures LittleEndian(full) == (if d == 0 then LittleEndian(old(full)) else LittleEndian(old(full)) / d) && Valid()
    {
      hide LittleEndian, Rounded, Expanded;
      full := DivideTarget(full, d);
      compact := CompactRep(full);
    }
  }

  /** What a pool difficulty does to the targets: the dispatcher checks against the exact quotient,
      a miner who expands the compact form works against a target at most that, so every share a
      miner finds is one the dispatcher takes, and the miner misses at most one part in 32768. */
  method PoolTargets(base: Bytes32, d: u64) returns (pool: Bytes32, compact: Bytes4, miner: Bytes32)
    requires d >= 1
    ensures LittleEndian(pool) == LittleEndian(base) / d
    ensures LittleEndian(miner) == Rounded(LittleEndian(pool))
    ensures 32768 * (LittleEndian(pool) - LittleEndian(miner)) <= LittleEndian(miner) <= LittleEndian(pool)
    ensures forall hash: Bytes32 :: LittleEndian(hash) <= LittleEndian(miner) ==> LittleEndian(hash) <= LittleEndian(pool)
  {
    hide LittleEndian, Rounded, Expanded;
    pool := DivideTarget(base, d);
    compact := CompactRep(pool);
    miner := FullRep(compact);
    DivModUnique(Expanded(compact), 0, Expanded(compact), TWO256);
    RoundedClose(LittleEndian(pool));
  }

  /** A higher difficulty never gives an easier target, to the dispatcher or to the miners. */
  lemma HarderIsSmaller(base: nat, d: nat, e: nat)
    requires 1 <= d <= e
    ensures base / e <= base / d && Rounded(base / e) <= Rounded(base / d)
  {
    QuotientOrder(base, d, e);
    RoundedMonotone(base / e, base / d);
  }

  lemma QuotientOrder(x: nat, d: nat, e: nat)
    requires 1 <= d <= e
    ensures x / e <= x / d
  {
    CompareQuotients(x / e, x % e, x / d, x % d, d, e);
  }

  lemma CompareQuotients(q: nat, r: nat, p: nat, s: nat, d: nat, e: nat)
    requires q * e + r == p * d + s && s < d <= e
    ensures q <= p
  {
    TimesMono(d, e, q);
    if q > p { TimesMono(p + 1, q, d); }
  }
}
