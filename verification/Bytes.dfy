/** Bytes, exclusive or, and little-endian numbers. */
module Bytes {
  import opened Words

  type byte = x: int | 0 <= x < 256
  type Bytes32 = b: seq<byte> | |b| == 32 witness Zeros(32)
  type Bytes4 = b: seq<byte> | |b| == 4 witness Zeros(4)
  type Bytes8 = b: seq<byte> | |b| == 8 witness Zeros(8)

  // ----- Exclusive or of natural numbers, bit by bit -----

  function Xor(a: nat, b: nat): nat
    decreases a + b
  {
    if a == 0 && b == 0 then 0
    else (a % 2 + b % 2) % 2 + 2 * Xor(a / 2, b / 2)
  }

  lemma {:induction false} XorZero(a: nat)
    ensures Xor(a, 0) == a && Xor(0, a) == a
    decreases a
  {
    if a > 0 { XorZero(a / 2); }
  }

  lemma {:induction false} XorBound(a: nat, b: nat, n: nat)
    requires a < Pow2(n) && b < Pow2(n)
    ensures Xor(a, b) < Pow2(n)
  {
    if n > 0 { XorBound(a / 2, b / 2, n - 1); }
  }

  /** Applied twice it cancels. */
  lemma {:induction false} XorCancel(a: nat, b: nat)
    ensures Xor(Xor(a, b), b) == a
    decreases a + b
  {
    if a != 0 || b != 0 {
      XorCancel(a / 2, b / 2);
      var h := Xor(a / 2, b / 2);
      var x := (a % 2 + b % 2) % 2 + 2 * h;
      DivModUnique(x, h, (a % 2 + b % 2) % 2, 2);
      assert Xor(a, b) == x;
      CancelParity(a % 2, b % 2);
    }
  }

  lemma CancelParity(p: nat, q: nat)
    requires p < 2 && q < 2
    ensures ((p + q) % 2 + q) % 2 == p
  {
  }

  lemma {:induction false} XorAssoc(a: nat, b: nat, c: nat)
    ensures Xor(Xor(a, b), c) == Xor(a, Xor(b, c))
    decreases a + b + c
  {
    if a == 0 {
      XorZero(b);
      XorZero(Xor(b, c));
    } else {
      XorAssoc(a / 2, b / 2, c / 2);
      SameHalfAndParity(a, b, c);
      var l, r := Xor(Xor(a, b), c), Xor(a, Xor(b, c));
      assert l == 2 * (l / 2) + l % 2 && r == 2 * (r / 2) + r % 2;
    }
  }

  lemma SameHalfAndParity(a: nat, b: nat, c: nat)
    requires Xor(Xor(a / 2, b / 2), c / 2) == Xor(a / 2, Xor(b / 2, c / 2))
    ensures Xor(Xor(a, b), c) / 2 == Xor(a, Xor(b, c)) / 2 && Xor(Xor(a, b), c) % 2 == Xor(a, Xor(b, c)) % 2
  {
    hide Xor;
    HalfOfXor(a, b);
    HalfOfXor(b, c);
    HalfOfXor(Xor(a, b), c);
    HalfOfXor(a, Xor(b, c));
    ParityAssoc(a % 2, b % 2, c % 2);
  }

  lemma ParityAssoc(a: nat, b: nat, c: nat)
    ensures ((a + b) % 2 + c) % 2 == (a + (b + c) % 2) % 2
  {
  }

  lemma HalfOfXor(a: nat, b: nat)
    ensures Xor(a, b) / 2 == Xor(a / 2, b / 2) && Xor(a, b) % 2 == (a % 2 + b % 2) % 2
  {
  }

  function XorByte(a: byte, b: byte): byte {
    assert Pow2(8) == 256;
    XorBound(a, b, 8);
    Xor(a, b)
  }

  /** Bitwise and. */
  function And(a: nat, b: nat): nat
    decreases a
  {
    if a == 0 then 0 else (a % 2) * (b % 2) + 2 * And(a / 2, b / 2)
  }

  /** Masking with a power of two less one is the remainder. */
  lemma {:induction false} MaskIsRemainder(x: nat, n: nat)
    ensures And(x, Pow2(n) - 1) == x % Pow2(n)
    decreases n
  {
    if n == 0 {
      AndZero(x);
    } else {
      hide And;
      MaskIsRemainder(x / 2, n - 1);
      HalvedMask(Pow2(n - 1));
      HalvedRemainder(x, Pow2(n - 1));
      AndStep(x, Pow2(n) - 1);
    }
  }

  lemma AndStep(x: nat, y: nat)
    requires y % 2 == 1
    ensures And(x, y) == x % 2 + 2 * And(x / 2, y / 2)
  {
  }

  lemma HalvedMask(p: nat)
    requires p >= 1
    ensures (2 * p - 1) / 2 == p - 1 && (2 * p - 1) % 2 == 1
  {
  }

  lemma HalvedRemainder(x: nat, p: nat)
    requires p >= 1
    ensures x % (2 * p) == x % 2 + 2 * (x / 2 % p)
  {
    var h := x / 2;
    var q, t := h / p, h % p;
    assert h == q * p + t;
    assert q * (2 * p) == 2 * (q * p);
    DivModUnique(x, q, 2 * t + x % 2, 2 * p);
  }

  lemma {:induction false} AndZero(x: nat)
    ensures And(x, 0) == 0
    decreases x
  {
    if x > 0 { AndZero(x / 2); }
  }

  // ----- Big-endian numbers -----

  function BigEndianValue(b: seq<byte>): nat {
    if b == [] then 0 else 256 * BigEndianValue(b[..|b| - 1]) + b[|b| - 1]
  }

  lemma FourBytesValue(b: seq<byte>)
    requires |b| == 4
    ensures var c: seq<int> := b; BigEndianValue(b) == c[0] * 0x100_0000 + c[1] * 0x1_0000 + c[2] * 0x100 + c[3]
  {
    assert b[..3][..2] == b[..2] && b[..2][..1] == b[..1] && b[..1][..0] == [];
    assert BigEndianValue(b[..1]) == 256 * BigEndianValue([]) + b[0];
    assert BigEndianValue(b[..2]) == 256 * BigEndianValue(b[..1]) + b[1];
    assert BigEndianValue(b[..3]) == 256 * BigEndianValue(b[..2]) + b[2];
  }

  // ----- Little-endian numbers -----

  /** b[0] + 256 b[1] + 65536 b[2] + ... */
  function LittleEndian(b: seq<byte>): nat {
    if b == [] then 0 else b[0] + 256 * LittleEndian(b[1..])
  }

  /** The n low bytes of x, least significant first. */
  function ToBytes(x: nat, n: nat): (b: seq<byte>)
    ensures |b| == n
  {
    if n == 0 then [] else [x % 256] + ToBytes(x / 256, n - 1)
  }

  lemma {:induction false} LittleEndianBound(b: seq<byte>)
    ensures LittleEndian(b) < Pow2(8 * |b|)
  {
    if b != [] {
      LittleEndianBound(b[1..]);
      Pow2Add(8, 8 * |b| - 8);
      assert Pow2(8) == 256;
    }
  }

  lemma {:induction false} RoundTripNumber(x: nat, n: nat)
    requires x < Pow2(8 * n)
    ensures LittleEndian(ToBytes(x, n)) == x
  {
    if n > 0 {
      Pow2Add(8, 8 * n - 8);
      assert Pow2(8) == 256;
      RoundTripNumber(x / 256, n - 1);
    }
  }

  lemma {:induction false} RoundTripBytes(b: seq<byte>)
    ensures ToBytes(LittleEndian(b), |b|) == b
  {
    if b != [] {
      RoundTripBytes(b[1..]);
      FirstByte(b);
      hide LittleEndian;
      DivModUnique(LittleEndian(b), LittleEndian(b[1..]), b[0], 256);
      assert b == [b[0]] + b[1..];
    }
  }

  lemma {:induction false} LittleEndianAppend(a: seq<byte>, b: seq<byte>)
    ensures LittleEndian(a + b) == LittleEndian(a) + Pow2(8 * |a|) * LittleEndian(b)
  {
    if a == [] {
      assert a + b == b;
    } else {
      LittleEndianAppend(a[1..], b);
      assert (a + b)[1..] == a[1..] + b;
      hide LittleEndian, Pow2;
      FirstByte(a);
      FirstByte(a + b);
      Pow2Values();
      Pow2Add(8, 8 * |a| - 8);
      TimesTwice(256, Pow2(8 * |a| - 8), LittleEndian(b));
    }
  }

  lemma FirstByte(b: seq<byte>)
    requires b != []
    ensures LittleEndian(b) == b[0] + 256 * LittleEndian(b[1..])
  {
  }

  lemma TimesTwice(a: int, b: int, c: int)
    ensures a * (b * c) == a * b * c
  {
  }

  /** The middle of three parts. */
  lemma Middle(a: seq<byte>, x: seq<byte>, c: seq<byte>, whole: seq<byte>)
    requires whole == a + x + c
    ensures whole[|a|..|a| + |x|] == x
  {
  }

  function Zeros(n: nat): (z: seq<byte>)
    ensures |z| == n && forall i :: 0 <= i < n ==> z[i] == 0
  {
    seq(n, _ => 0)
  }

  lemma {:induction false} ZeroValue(n: nat)
    ensures LittleEndian(Zeros(n)) == 0
  {
    if n > 0 {
      assert Zeros(n)[1..] == Zeros(n - 1);
      ZeroValue(n - 1);
    }
  }

  /** The low n bytes and the rest are the remainder and the quotient by 256^n. */
  lemma {:induction false} LittleEndianSplit(b: seq<byte>, n: nat)
    requires n <= |b|
    ensures LittleEndian(b) == LittleEndian(b[..n]) + Pow2(8 * n) * LittleEndian(b[n..])
    ensures LittleEndian(b[..n]) == LittleEndian(b) % Pow2(8 * n)
    ensures LittleEndian(b[n..]) == LittleEndian(b) / Pow2(8 * n)
  {
    hide LittleEndian, Pow2;
    assert b == b[..n] + b[n..];
    LittleEndianAppend(b[..n], b[n..]);
    LittleEndianBound(b[..n]);
    var lo, hi, p := LittleEndian(b[..n]), LittleEndian(b[n..]), Pow2(8 * n);
    assert p * hi == hi * p;
    DivModUnique(LittleEndian(b), hi, lo, p);
  }

  lemma {:induction false} ByteAt(x: nat, n: nat, j: nat)
    requires j < n
    ensures ToBytes(x, n)[j] == x / Pow2(8 * j) % 256
  {
    if j > 0 {
      ByteAt(x / 256, n - 1, j - 1);
      Pow2Values();
      Pow2Add(8, 8 * j - 8);
      DivideTwice(x, 256, Pow2(8 * j - 8));
    }
  }

  lemma DivideTwice(x: nat, a: nat, b: nat)
    requires a > 0 && b > 0
    ensures a * b > 0 && x / a / b == x / (a * b)
  {
    var q, r := x / a, x % a;
    var s, t := q / b, q % b;
    assert x == a * q + r && q == b * s + t;
    Nested(a, b, q, r, s, t);
    DivModUnique(x, s, a * t + r, a * b);
  }

  lemma Nested(a: int, b: int, q: int, r: int, s: int, t: int)
    requires q == b * s + t && 0 <= r < a && 0 <= t < b
    ensures a * b > 0 && a * q + r == s * (a * b) + (a * t + r) && 0 <= a * t + r < a * b
  {
    TimesMono(t + 1, b, a);
    TimesTwice(a, b, s);
  }
}
