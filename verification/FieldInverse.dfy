/** Exponentiation, the quadratic extension and projective normalization over GF(2^127 - 1). */
module FieldInverse {
  import opened Words
  import opened Congruence
  import opened Field1271

  // ----- Integer powers -----

  ghost function Pow(x: int, n: nat): int {
    if n == 0 then 1 else x * Pow(x, n - 1)
  }

  lemma {:induction false} PowAdd(x: int, m: nat, n: nat)
    ensures Pow(x, m + n) == Pow(x, m) * Pow(x, n)
  {
    if m > 0 {
      PowAdd(x, m - 1, n);
      assert x * (Pow(x, m - 1) * Pow(x, n)) == (x * Pow(x, m - 1)) * Pow(x, n);
    }
  }

  lemma Shuffle(x: int, y: int, p: int, q: int)
    ensures (x * y) * (p * q) == (x * p) * (y * q)
  {
    assert (x * y) * (p * q) == x * (y * (p * q));
    assert y * (p * q) == p * (y * q);
    assert x * (p * (y * q)) == (x * p) * (y * q);
  }

  lemma {:induction false} PowProduct(x: int, y: int, n: nat)
    ensures Pow(x * y, n) == Pow(x, n) * Pow(y, n)
  {
    if n > 0 {
      PowProduct(x, y, n - 1);
      Shuffle(x, y, Pow(x, n - 1), Pow(y, n - 1));
    }
  }

  lemma {:induction false} PowPow(x: int, m: nat, n: nat)
    ensures m * n >= 0 && Pow(Pow(x, m), n) == Pow(x, m * n)
  {
    if n > 0 {
      PowPow(x, m, n - 1);
      PowAdd(x, m, m * (n - 1));
      assert m + m * (n - 1) == m * n;
    }
  }

  lemma {:induction false} CongPow(x: int, y: int, n: nat)
    requires Cong(x, y)
    ensures Cong(Pow(x, n), Pow(y, n))
  {
    if n == 0 {
      CongMultiple(P, 1, 0, 1);
    } else {
      CongPow(x, y, n - 1);
      CongMul(P, x, y, Pow(x, n - 1), Pow(y, n - 1));
    }
  }

  lemma PowTwo(x: int)
    ensures Pow(x, 2) == x * x && Pow(x, 1) == x
  {
    assert Pow(x, 1) == x * Pow(x, 0);
    assert Pow(x, 2) == x * Pow(x, 1);
  }

  // ----- The addition chain for 2^125 - 1 -----

  function Ones(k: nat): (r: nat)
  {
    Pow2(k) - 1
  }

  /** t holds x to the power of k one-bits. */
  ghost predicate Holds(t: array<u64>, x: int, k: nat)
    reads t
  {
    Felm(t) && Cong(Val(t), Pow(x, Ones(k)))
  }

  lemma OnesAppend(k: nat, n: nat)
    ensures Ones(k) * Pow2(n) >= 0 && Ones(k) * Pow2(n) + Ones(n) == Ones(k + n)
  {
    Pow2Add(k, n);
  }

  lemma Squared(x: int, e: nat, s: int, s': int)
    requires Cong(s, Pow(x, e)) && Cong(s', s * s)
    ensures Cong(s', Pow(x, 2 * e))
  {
    CongMul(P, s, Pow(x, e), s, Pow(x, e));
    PowAdd(x, e, e);
    CongTrans(P, s', s * s, Pow(x, 2 * e));
  }

  method SquareTimes(t: array<u64>, n: nat, ghost x: int, ghost e: nat)
    requires Felm(t) && Cong(Val(t), Pow(x, e))
    modifies t
    ensures Felm(t) && e * Pow2(n) >= 0 && Cong(Val(t), Pow(x, e * Pow2(n)))
  {
    ghost var d: nat := e;
    for i := 0 to n
      invariant Felm(t) && Cong(Val(t), Pow(x, d)) && d == e * Pow2(i)
    {
      ghost var s := Val(t);
      FpSqr(t, t);
      Squared(x, d, s, Val(t));
      d := 2 * d;
    }
  }

  lemma DoubleOnce(e: nat, n: nat)
    requires n >= 1
    ensures 2 * e * Pow2(n - 1) == e * Pow2(n)
  {
  }

  lemma Appended(x: int, k: nat, n: nat, w: int, s: int, r: int)
    requires Cong(w, Pow(x, Ones(n))) && Ones(k) * Pow2(n) >= 0 && Cong(s, Pow(x, Ones(k) * Pow2(n)))
    requires Cong(r, w * s)
    ensures Cong(r, Pow(x, Ones(k + n)))
  {
    var e := Ones(k) * Pow2(n);
    CongMul(P, w, Pow(x, Ones(n)), s, Pow(x, e));
    PowAdd(x, Ones(n), e);
    OnesAppend(k, n);
    CongTrans(P, r, w * s, Pow(x, Ones(k + n)));
  }

  /** Square src n times into dst, then multiply by w: appends n one-bits to the exponent. */
  method Window(src: array<u64>, n: nat, w: array<u64>, dst: array<u64>, ghost x: int, ghost k: nat, ghost r: nat)
    requires n >= 1 && r == k + n && Holds(src, x, k) && Holds(w, x, n) && w != dst && dst.Length == 2
    modifies dst
    ensures Holds(dst, x, r)
  {
    FpSqr(src, dst);
    Squared(x, Ones(k), old(Val(src)), Val(dst));
    SquareTimes(dst, n - 1, x, 2 * Ones(k));
    ghost var s := Val(dst);
    DoubleOnce(Ones(k), n);
    FpMul(w, dst, dst);
    Appended(x, k, n, Val(w), s, Val(dst));
  }

  lemma HoldsOne(a: array<u64>)
    requires Felm(a)
    ensures Holds(a, Val(a), 1)
  {
    PowTwo(Val(a));
    CongMultiple(P, Val(a), 0, Val(a));
  }

  method FpExp1251(a: array<u64>, af: array<u64>)
    requires Felm(a) && af.Length == 2
    modifies af
    ensures Holds(af, old(Val(a)), 125)
  {
    ghost var x, c1, c2, c4, c8, c16, c32 := Val(a), 1, 2, 4, 8, 16, 32;
    HoldsOne(a);
    var t2, t3, t4, t5 := new u64[2], new u64[2], new u64[2], new u64[2];
    Window(a, 1, a, t2, x, c1, c2);
    Window(t2, 2, t2, t3, x, c2, c4);
    Window(t3, 4, t3, t4, x, c4, c8);
    Window(t4, 8, t4, t5, x, c8, c16);
    Window(t5, 16, t5, t2, x, c16, c32);
    LongWindows(a, t2, t3, t4, t5, af, x, 125);
  }

  method LongWindows(a: array<u64>, t2: array<u64>, t3: array<u64>, t4: array<u64>, t5: array<u64>, af: array<u64>,
                     ghost x: int, ghost r: nat)
    requires r == 125
    requires Holds(a, x, 1) && Holds(t3, x, 4) && Holds(t4, x, 8) && Holds(t5, x, 16) && Holds(t2, x, 32)
    requires af.Length == 2
    modifies af
    ensures Holds(af, x, r)
  {
    hide Pow, Ones;
    ghost var c32, c64, c96 := 32, 64, 96;
    var t1 := new u64[2];
    Window(t2, 32, t2, t1, x, c32, c64);
    Window(t1, 32, t2, t1, x, c64, c96);
    LastWindows(a, t1, t3, t4, t5, x, c96, r);
    CopyPower(t1, af, x, r);
  }

  method CopyPower(t: array<u64>, af: array<u64>, ghost x: int, ghost r: nat)
    requires Holds(t, x, r) && af.Length == 2
    modifies af
    ensures Holds(af, x, r)
  {
    af[0], af[1] := t[0], t[1];
  }

  method LastWindows(a: array<u64>, t1: array<u64>, t3: array<u64>, t4: array<u64>, t5: array<u64>,
                     ghost x: int, ghost c96: nat, ghost r: nat)
    requires c96 == 96 && r == 125 && t1 != a && t1 != t3 && t1 != t4 && t1 != t5
    requires Holds(a, x, 1) && Holds(t3, x, 4) && Holds(t4, x, 8) && Holds(t5, x, 16) && Holds(t1, x, c96)
    modifies t1
    ensures Holds(t1, x, r)
  {
    ghost var c112, c120, c124 := 112, 120, 124;
    Window(t1, 16, t5, t1, x, c96, c112);
    Window(t1, 8, t4, t1, x, c112, c120);
    Window(t1, 4, t3, t1, x, c120, c124);
    Window(t1, 1, a, t1, x, c124, r);
  }

  // ----- The quadratic extension GF(P^2) = GF(P)[i] -----

  datatype C = C(re: int, im: int)

  ghost function CMul(x: C, y: C): C {
    C(x.re * y.re - x.im * y.im, x.re * y.im + x.im * y.re)
  }

  ghost predicate CongC(x: C, y: C) {
    Cong(x.re, y.re) && Cong(x.im, y.im)
  }

  datatype F2 = F2(re: array<u64>, im: array<u64>)

  ghost predicate IsF2(a: F2)
    reads a.re, a.im
  {
    a.re != a.im && Felm(a.re) && Felm(a.im)
  }

  ghost function CVal(a: F2): C
    requires a.re.Length == 2 && a.im.Length == 2
    reads a.re, a.im
  {
    C(Val(a.re), Val(a.im))
  }

  lemma CongCMul(x: C, x': C, y: C, y': C)
    requires CongC(x, x') && CongC(y, y')
    ensures CongC(CMul(x, y), CMul(x', y'))
  {
    CongMul(P, x.re, x'.re, y.re, y'.re);
    CongMul(P, x.im, x'.im, y.im, y'.im);
    CongMul(P, x.re, x'.re, y.im, y'.im);
    CongMul(P, x.im, x'.im, y.re, y'.re);
    CongAdd(P, x.re * y.re, x'.re * y'.re, x.im * y.im, x'.im * y'.im);
    CongAdd(P, x.re * y.im, x'.re * y'.im, x.im * y.re, x'.im * y'.re);
  }

  lemma CMulAssoc(x: C, y: C, z: C)
    ensures CMul(CMul(x, y), z) == CMul(x, CMul(y, z))
  {
    Assoc4(x.re, x.im, y.re, y.im, z.re);
    Assoc4(x.re, x.im, y.re, y.im, z.im);
    Assoc4'(x.re, x.im, y.re, y.im, z.re);
    Assoc4'(x.re, x.im, y.re, y.im, z.im);
    Distribute(x.re, y.re * z.re, y.im * z.im, y.re * z.im, y.im * z.re);
    Distribute(x.im, y.re * z.re, y.im * z.im, y.re * z.im, y.im * z.re);
  }

  lemma Assoc4(a: int, b: int, c: int, d: int, e: int)
    ensures (a * c - b * d) * e == a * (c * e) - b * (d * e)
  {
    assert (a * c - b * d) * e == a * c * e - b * d * e;
  }

  lemma Assoc4'(a: int, b: int, c: int, d: int, e: int)
    ensures (a * d + b * c) * e == a * (d * e) + b * (c * e)
  {
    assert (a * d + b * c) * e == a * d * e + b * c * e;
  }

  lemma Distribute(a: int, p: int, q: int, r: int, s: int)
    ensures a * (p - q) == a * p - a * q && a * (r + s) == a * r + a * s
  {
  }

  /** The cross term of the Karatsuba product: st - t1 - t2 with st = (x.re + x.im)(y.re + y.im). */
  lemma KaratsubaCross(full: int, rr: int, ii: int, cross: int, st: int, t1: int, t2: int, u: int, c1: int)
    requires Cong(st, full) && Cong(t1, rr) && Cong(t2, ii)
    requires Cong(u, st - t1) && Cong(c1, u - t2) && full == rr + cross + ii
    ensures Cong(c1, cross)
  {
    CongAdd(P, st, full, t1, rr);
    CongTrans(P, u, st - t1, full - rr);
    CongAdd(P, u, full - rr, t2, ii);
    CongTrans(P, c1, u - t2, full - rr - ii);
  }

  /** The value lemma behind the Karatsuba product of fp2mul1271. */
  lemma Karatsuba(x: C, y: C, t1: int, t2: int, s: int, t: int, st: int, c0: int, u: int, c1: int)
    requires Cong(t1, x.re * y.re) && Cong(t2, x.im * y.im)
    requires Cong(s, x.re + x.im) && Cong(t, y.re + y.im) && Cong(st, s * t)
    requires Cong(c0, t1 - t2) && Cong(u, st - t1) && Cong(c1, u - t2)
    ensures CongC(C(c0, c1), CMul(x, y))
  {
    var rr, ii, cross := x.re * y.re, x.im * y.im, x.re * y.im + x.im * y.re;
    CongAdd(P, t1, rr, t2, ii);
    CongTrans(P, c0, t1 - t2, rr - ii);
    var full := rr + cross + ii;
    assert (x.re + x.im) * (y.re + y.im) == full by { FullProduct(x.re, x.im, y.re, y.im); }
    CongMul(P, s, x.re + x.im, t, y.re + y.im);
    CongTrans(P, st, s * t, full);
    KaratsubaCross(full, rr, ii, cross, st, t1, t2, u, c1);
  }

  lemma FullProduct(a: int, b: int, c: int, d: int)
    ensures (a + b) * (c + d) == a * c + (a * d + b * c) + b * d
  {
  }

  method Fp2Mul(a: F2, b: F2, c: F2)
    requires IsF2(a) && IsF2(b) && c.re.Length == 2 && c.im.Length == 2 && c.re != c.im
    modifies c.re, c.im
    ensures IsF2(c) && CongC(CVal(c), CMul(old(CVal(a)), old(CVal(b))))
  {
    ghost var x, y := CVal(a), CVal(b);
    var t1, t2, t3, t4 := new u64[2], new u64[2], new u64[2], new u64[2];
    FpMul(a.re, b.re, t1);
    FpMul(a.im, b.im, t2);
    FpAdd(a.re, a.im, t3);
    FpAdd(b.re, b.im, t4);
    ghost var v1, v2, s, t := Val(t1), Val(t2), Val(t3), Val(t4);
    FpSub(t1, t2, c.re);
    ghost var c0 := Val(c.re);
    FpMul(t3, t4, t3);
    ghost var st := Val(t3);
    FpSub(t3, t1, t3);
    ghost var u := Val(t3);
    FpSub(t3, t2, c.im);
    Karatsuba(x, y, v1, v2, s, t, st, c0, u, Val(c.im));
  }

  lemma SquareRe(a: int, b: int, t1: int, t2: int, c0: int)
    requires Cong(t1, a + b) && Cong(t2, a - b) && Cong(c0, t1 * t2)
    ensures Cong(c0, a * a - b * b)
  {
    CongMul(P, t1, a + b, t2, a - b);
    DifferenceOfSquares(a, b);
    CongTrans(P, c0, t1 * t2, (a + b) * (a - b));
  }

  lemma SquareIm(ab: int, t3: int, c1: int)
    requires Cong(t3, ab) && Cong(c1, t3 + t3)
    ensures Cong(c1, ab + ab)
  {
    CongAdd(P, t3, ab, t3, ab);
    CongTrans(P, c1, t3 + t3, ab + ab);
  }

  lemma DifferenceOfSquares(a: int, b: int)
    ensures (a + b) * (a - b) == a * a - b * b
  {
  }

  method Fp2Sqr(a: F2, c: F2)
    requires IsF2(a) && c.re.Length == 2 && c.im.Length == 2 && c.re != c.im
    modifies c.re, c.im
    ensures IsF2(c) && CongC(CVal(c), CMul(old(CVal(a)), old(CVal(a))))
  {
    ghost var x := CVal(a);
    var t1, t2, t3 := new u64[2], new u64[2], new u64[2];
    FpAdd(a.re, a.im, t1);
    FpSub(a.re, a.im, t2);
    FpMul(a.re, a.im, t3);
    FpMul(t1, t2, c.re);
    ghost var c0 := Val(c.re);
    FpAdd(t3, t3, c.im);
    SquareRe(x.re, x.im, Val(t1), Val(t2), c0);
    SquareIm(x.re * x.im, Val(t3), Val(c.im));
  }

  // ----- Inversion by Fermat's theorem -----

  /** Fermat's little theorem for the prime P, taken as a hypothesis where it is used. */
  ghost predicate Fermat() {
    forall x :: !Cong(x, 0) ==> Cong(Pow(x, P - 1), 1)
  }

  lemma {:induction false} PowZero(n: nat)
    requires n > 0
    ensures Pow(0, n) == 0
  {
  }

  lemma {:induction false} PowMinusOne(q: nat)
    requires q % 2 == 1
    ensures Pow(-1, q) == -1
  {
    PowTwo(-1);
    if q > 1 {
      PowMinusOne(q - 2);
      PowAdd(-1, 2, q - 2);
    }
  }

  /** x^(P-1) as a power of the square of x. */
  lemma PowOfSquare(x: int)
    ensures Pow(x * x, (P - 1) / 2) == Pow(x, P - 1)
  {
    PowTwo(x);
    PowPow(x, 2, (P - 1) / 2);
  }

  /** -1 is not a square modulo P, so a sum of two squares vanishes only with both. */
  lemma NormZero(a: int, b: int)
    requires Fermat() && Cong(a * a + b * b, 0)
    ensures Cong(a, 0) && Cong(b, 0)
  {
    OppositePowers(a, b);
    var s, t := Pow(a, P - 1), Pow(b, P - 1);
    ZeroOrOne(a);
    ZeroOrOne(b);
    var ea, eb := if Cong(a, 0) then 0 else 1, if Cong(b, 0) then 0 else 1;
    CongAdd(P, s, ea, t, eb);
    SmallSum(s + t, ea + eb);
  }

  lemma SmallSum(x: int, y: int)
    requires Cong(x, y) && Cong(x, 0) && 0 <= y <= 2
    ensures y == 0
  {
    var k :| x - y == Multiple(k, P);
    var l :| x - 0 == Multiple(l, P);
  }

  lemma OppositePowers(a: int, b: int)
    requires Cong(a * a + b * b, 0)
    ensures Cong(Pow(a, P - 1) + Pow(b, P - 1), 0)
  {
    var q, aa, bb := (P - 1) / 2, a * a, b * b;
    var k :| aa + bb - 0 == Multiple(k, P);
    CongMultiple(P, aa, k, -1 * bb);
    CongPow(aa, -1 * bb, q);
    PowProduct(-1, bb, q);
    PowMinusOne(q);
    PowOfSquare(a);
    PowOfSquare(b);
    CongRefl(P, Pow(bb, q));
    CongAdd(P, Pow(aa, q), -1 * Pow(bb, q), Pow(bb, q), Pow(bb, q));
  }

  lemma ZeroOrOne(a: int)
    requires Fermat()
    ensures Cong(Pow(a, P - 1), if Cong(a, 0) then 0 else 1)
  {
    if Cong(a, 0) {
      CongPow(a, 0, P - 1);
      PowZero(P - 1);
    }
  }

  lemma ExponentValue(x: int, e: int, s1: int, s2: int, n: int)
    requires Cong(e, Pow(x, Ones(125))) && Cong(s1, e * e) && Cong(s2, s1 * s1) && Cong(n, x * s2)
    ensures Cong(n, Pow(x, P - 2))
  {
    var k: nat := 125;
    assert 4 * Ones(k) + 1 == P - 2 by {
      Pow2Values();
      assert Pow2(k + 3) == 2 * Pow2(k + 2);
      assert Pow2(k + 2) == 2 * Pow2(k + 1);
    }
    Squared(x, Ones(k), e, s1);
    Squared(x, 2 * Ones(k), s1, s2);
    CongRefl(P, x);
    CongMul(P, x, x, s2, Pow(x, 4 * Ones(k)));
    CongTrans(P, n, x * s2, Pow(x, P - 2));
  }

  /** The conjugate times n = 1/norm is the inverse. */
  lemma InverseValue(z: C, norm: int, n: int, m: int, w: C)
    requires Fermat() && !CongC(z, C(0, 0))
    requires Cong(norm, z.re * z.re + z.im * z.im) && Cong(n, Pow(norm, P - 2))
    requires Cong(m, -z.im) && Cong(w.re, z.re * n) && Cong(w.im, m * n)
    ensures CongC(CMul(w, z), C(1, 0))
  {
    var nn := z.re * z.re + z.im * z.im;
    CongRefl(P, n);
    CongMul(P, m, -z.im, n, n);
    CongTrans(P, w.im, m * n, -z.im * n);
    CongRefl(P, z.re);
    CongRefl(P, z.im);
    CongCMul(w, C(z.re * n, -z.im * n), z, z);
    ConjugateProduct(z, n);
    NormTimesInverse(norm, nn, n, z);
    CongTrans(P, CMul(w, z).re, n * nn, 1);
  }

  lemma ConjugateProduct(z: C, n: int)
    ensures CMul(C(z.re * n, -z.im * n), z) == C(n * (z.re * z.re + z.im * z.im), 0)
  {
    assert z.re * n * z.re == n * (z.re * z.re);
    assert -z.im * n * z.im == -(n * (z.im * z.im));
    assert z.re * n * z.im == n * (z.re * z.im);
    assert -z.im * n * z.re == -(n * (z.re * z.im));
  }

  lemma NormNonzero(norm: int, z: C)
    requires Fermat() && !CongC(z, C(0, 0)) && Cong(norm, z.re * z.re + z.im * z.im)
    ensures !Cong(norm, 0)
  {
    if Cong(norm, 0) {
      CongSym(P, norm, z.re * z.re + z.im * z.im);
      CongTrans(P, z.re * z.re + z.im * z.im, norm, 0);
      NormZero(z.re, z.im);
      assert false;
    }
  }

  lemma NormTimesInverse(norm: int, nn: int, n: int, z: C)
    requires Fermat() && !CongC(z, C(0, 0)) && nn == z.re * z.re + z.im * z.im
    requires Cong(norm, nn) && Cong(n, Pow(norm, P - 2))
    ensures Cong(n * nn, 1)
  {
    NormNonzero(norm, z);
    CongSym(P, norm, nn);
    CongMul(P, n, Pow(norm, P - 2), nn, norm);
    LastFactor(norm);
    CongTrans(P, n * nn, Pow(norm, P - 1), 1);
  }

  lemma LastFactor(x: int)
    ensures Pow(x, P - 2) * x == Pow(x, P - 1)
  {
  }

  ghost predicate Apart(a: F2, b: F2) {
    {a.re, a.im} !! {b.re, b.im}
  }

  /** n = norm(z)^(P-2); `norm` is a representative of the norm. */
  method PowerOfNorm(z: F2) returns (n: array<u64>, ghost norm: int)
    requires IsF2(z)
    ensures fresh(n) && Felm(n)
    ensures Cong(norm, Val(z.re) * Val(z.re) + Val(z.im) * Val(z.im)) && Cong(Val(n), Pow(norm, P - 2))
  {
    n := new u64[2];
    var t := new u64[2];
    FpSqr(z.re, n);
    FpSqr(z.im, t);
    CongAdd(P, Val(n), Val(z.re) * Val(z.re), Val(t), Val(z.im) * Val(z.im));
    ghost var sum := Val(n) + Val(t);
    FpAdd(n, t, n);
    norm := Val(n);
    CongTrans(P, norm, sum, Val(z.re) * Val(z.re) + Val(z.im) * Val(z.im));
    FpExp1251(n, t);
    ghost var e := Val(t);
    FpSqr(t, t);
    ghost var s1 := Val(t);
    FpSqr(t, t);
    ghost var s2 := Val(t);
    FpMul(n, t, n);
    ExponentValue(norm, e, s1, s2, Val(n));
  }

  /** The inverse of a nonzero z, in place. */
  method Invert(z: F2)
    requires IsF2(z)
    modifies z.re, z.im
    ensures IsF2(z)
    ensures Fermat() && !CongC(old(CVal(z)), C(0, 0)) ==> CongC(CMul(CVal(z), old(CVal(z))), C(1, 0))
  {
    ghost var v := CVal(z);
    var n; ghost var norm;
    n, norm := PowerOfNorm(z);
    FpNeg(z.im);
    ghost var m := Val(z.im);
    FpMul(z.re, n, z.re);
    FpMul(z.im, n, z.im);
    if Fermat() && !CongC(v, C(0, 0)) {
      InverseValue(v, norm, Val(n), m, CVal(z));
    }
  }

  /** q is p divided by z. */
  lemma QuotientValue(p: C, z: C, w: C, q: C)
    requires CongC(CMul(w, z), C(1, 0)) && CongC(q, CMul(p, w))
    ensures CongC(CMul(q, z), p)
  {
    CongRefl(P, z.re);
    CongRefl(P, z.im);
    CongCMul(q, CMul(p, w), z, z);
    CMulAssoc(p, w, z);
    CongRefl(P, p.re);
    CongRefl(P, p.im);
    CongCMul(p, p, CMul(w, z), C(1, 0));
    assert CMul(p, C(1, 0)) == p;
    CongTrans(P, CMul(q, z).re, CMul(p, CMul(w, z)).re, p.re);
    CongTrans(P, CMul(q, z).im, CMul(p, CMul(w, z)).im, p.im);
  }

  ghost predicate Reduced2(a: F2)
    requires a.re.Length == 2 && a.im.Length == 2
    reads a.re, a.im
  {
    Val(a.re) < P && Val(a.im) < P
  }

  method Quotient(p: F2, w: F2, q: F2)
    requires IsF2(p) && IsF2(w) && IsF2(q) && Apart(q, p) && Apart(q, w)
    modifies q.re, q.im
    ensures IsF2(q) && Reduced2(q) && CongC(CVal(q), CMul(CVal(p), CVal(w)))
  {
    Fp2Mul(p, w, q);
    ghost var v := CVal(q);
    Mod1271(q.re);
    Mod1271(q.im);
    CongMultiple(P, v.re % P, -(v.re / P), v.re);
    CongMultiple(P, v.im % P, -(v.im / P), v.im);
    CongTrans(P, Val(q.re), v.re, CMul(CVal(p), CVal(w)).re);
    CongTrans(P, Val(q.im), v.im, CMul(CVal(p), CVal(w)).im);
  }

  /** Projective normalization: (X, Y, Z) to the reduced affine (X/Z, Y/Z). */
  method EccNorm(px: F2, py: F2, pz: F2, qx: F2, qy: F2)
    requires IsF2(px) && IsF2(py) && IsF2(pz) && IsF2(qx) && IsF2(qy)
    requires Apart(px, pz) && Apart(py, pz) && Apart(qx, qy)
    requires Apart(qx, px) && Apart(qx, py) && Apart(qx, pz) && Apart(qy, py) && Apart(qy, px) && Apart(qy, pz)
    modifies pz.re, pz.im, qx.re, qx.im, qy.re, qy.im
    ensures IsF2(qx) && IsF2(qy) && Reduced2(qx) && Reduced2(qy)
    ensures Fermat() && !CongC(old(CVal(pz)), C(0, 0)) ==>
              && CongC(CMul(CVal(qx), old(CVal(pz))), old(CVal(px)))
              && CongC(CMul(CVal(qy), old(CVal(pz))), old(CVal(py)))
  {
    ghost var x, y, z := CVal(px), CVal(py), CVal(pz);
    Invert(pz);
    Quotient(px, pz, qx);
    Quotient(py, pz, qy);
    if Fermat() && !CongC(z, C(0, 0)) {
      QuotientValue(x, z, CVal(pz), CVal(qx));
      QuotientValue(y, z, CVal(pz), CVal(qy));
    }
  }
}