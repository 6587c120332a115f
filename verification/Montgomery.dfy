/** 256-bit schoolbook multiplication and Montgomery multiplication modulo the curve order,
    limb by limb, with every carry accounted for. */
module Montgomery {
  import opened Words
  import opened Congruence

  const ORDER_0 := 0x2FB2540EC7768CE7
  const ORDER_1 := 0xDFBD004DFE0F7999
  const ORDER_2 := 0xF05397829CBC14E5
  const ORDER_3 := 0x0029CBC14E5E0A72
  const ORDER := ORDER_0 + TWO64 * ORDER_1 + TWO128 * ORDER_2 + TWO192 * ORDER_3

  // The Montgomery constant -ORDER^(-1) mod 2^256.
  const RPRIME_0 := 0xE12FE5F079BC3929
  const RPRIME_1 := 0xD75E78B8D1FCDCF3
  const RPRIME_2 := 0xBCE409ED76B5DB21
  const RPRIME_3 := 0xF32702FDAFC1C074
  const RPRIME := RPRIME_0 + TWO64 * RPRIME_1 + TWO128 * RPRIME_2 + TWO192 * RPRIME_3

  const RSQUARE := 0xC81DB8795FF3D621 + TWO64 * 0x173EA5AAEA6B387D + TWO128 * 0x3D01B7C72136F61C + TWO192 * 0x0006A5F16AC8F9D3

  // ----- Schoolbook multiplication -----

  const M := TWO64 - 1

  /** The value of four limbs. */
  function Num4(x0: int, x1: int, x2: int, x3: int): int {
    x0 + TWO64 * x1 + TWO128 * x2 + TWO192 * x3
  }

  lemma RowProduct(a: u64, b0: u64, b1: u64, b2: u64, b3: u64)
    ensures a * Num4(b0, b1, b2, b3) == Num4(a * b0, a * b1, a * b2, a * b3)
  {
    assert a * (TWO64 * b1) == TWO64 * (a * b1);
    assert a * (TWO128 * b2) == TWO128 * (a * b2);
    assert a * (TWO192 * b3) == TWO192 * (a * b3);
  }

  /** First row: a * b in five limbs. */
  method FirstRow(a: u64, b0: u64, b1: u64, b2: u64, b3: u64) returns (c0: u64, c1: u64, c2: u64, c3: u64, c4: u64)
    ensures Num4(c0, c1, c2, c3) + TWO256 * c4 == a * Num4(b0, b1, b2, b3)
  {
    RowProduct(a, b0, b1, b2, b3);
    var u, lo, hi, k;
    c0, u := Mul128(a, b0);
    lo, hi := Mul128(a, b1);
    k, c1 := AddCarry(0, lo, u);
    u := k + hi;
    lo, hi := Mul128(a, b2);
    k, c2 := AddCarry(0, lo, u);
    u := k + hi;
    lo, hi := Mul128(a, b3);
    k, c3 := AddCarry(0, lo, u);
    c4 := k + hi;
  }

  /** A further row: a * b added to four limbs; the top word cannot overflow. */
  method NextRow(a: u64, b0: u64, b1: u64, b2: u64, b3: u64, d0: u64, d1: u64, d2: u64, d3: u64)
    returns (c0: u64, c1: u64, c2: u64, c3: u64, c4: u64)
    ensures Num4(c0, c1, c2, c3) + TWO256 * c4 == Num4(d0, d1, d2, d3) + a * Num4(b0, b1, b2, b3)
  {
    RowProduct(a, b0, b1, b2, b3);
    ghost var p0: int, p1: int, p2: int, p3: int := a * b0, a * b1, a * b2, a * b3;
    var l0, h0 := Mul128(a, b0);
    var k0;
    k0, c0 := AddCarry(0, d0, l0);
    var l1, h1 := Mul128(a, b1);
    var k1, v1 := AddCarry(0, l1, k0 + h0);
    var l2, h2 := Mul128(a, b2);
    var k2, k3, v2;
    k2, c1 := AddCarry(0, d1, v1);
    k3, v2 := AddCarry(k2, l2, k1 + h1);
    var l3, h3 := Mul128(a, b3);
    var k4, k5, v3;
    k4, c2 := AddCarry(0, d2, v2);
    k5, v3 := AddCarry(k4, l3, k3 + h2);
    var k6;
    k6, c3 := AddCarry(0, d3, v3);
    ProductBound(a, b0, M, M); ProductBound(a, b1, M, M); ProductBound(a, b2, M, M); ProductBound(a, b3, M, M);
    RowSum(p0, p1, p2, p3, l0, h0, l1, h1, l2, h2, l3, h3, d0, d1, d2, d3, k0, c0, k1, v1, k2, c1, k3, v2, k4, c2, k5, v3, k6, c3);
    c4 := k5 + h3 + k6;
  }

  lemma RowSum(p0: int, p1: int, p2: int, p3: int, l0: u64, h0: u64, l1: u64, h1: u64, l2: u64, h2: u64, l3: u64, h3: u64,
               d0: u64, d1: u64, d2: u64, d3: u64, k0: bit, c0: u64, k1: bit, v1: u64, k2: bit, c1: u64, k3: bit, v2: u64,
               k4: bit, c2: u64, k5: bit, v3: u64, k6: bit, c3: u64)
    requires l0 + TWO64 * h0 == p0 && l1 + TWO64 * h1 == p1 && l2 + TWO64 * h2 == p2 && l3 + TWO64 * h3 == p3
    requires p0 <= M * M && p1 <= M * M && p2 <= M * M && p3 <= M * M
    requires k0 * TWO64 + c0 == d0 + l0 && k1 * TWO64 + v1 == l1 + k0 + h0
    requires k2 * TWO64 + c1 == d1 + v1 && k3 * TWO64 + v2 == k2 + l2 + k1 + h1
    requires k4 * TWO64 + c2 == d2 + v2 && k5 * TWO64 + v3 == k4 + l3 + k3 + h2
    requires k6 * TWO64 + c3 == d3 + v3
    ensures Num4(c0, c1, c2, c3) + TWO256 * (k5 + h3 + k6) == Num4(d0, d1, d2, d3) + Num4(p0, p1, p2, p3)
    ensures k5 + h3 + k6 < TWO64
  {
    assert Num4(d0, d1, d2, d3) <= TWO256 - 1;
    assert Num4(p0, p1, p2, p3) <= Num4(M * M, M * M, M * M, M * M);
  }

  ghost function Value4(x: array<u64>): int
    requires x.Length >= 4
    reads x
  {
    Num4(x[0], x[1], x[2], x[3])
  }

  ghost function Value8(x: array<u64>): int
    requires x.Length >= 8
    reads x
  {
    Num4(x[0], x[1], x[2], x[3]) + TWO256 * Num4(x[4], x[5], x[6], x[7])
  }

  /** The sum of the four shifted rows is the whole product. */
  lemma RowsAddUp(a0: u64, a1: u64, a2: u64, a3: u64, b: int)
    ensures Num4(a0, a1, a2, a3) * b == Num4(a0 * b, a1 * b, a2 * b, a3 * b)
  {
    assert TWO64 * a1 * b == TWO64 * (a1 * b);
    assert TWO128 * a2 * b == TWO128 * (a2 * b);
    assert TWO192 * a3 * b == TWO192 * (a3 * b);
  }

  lemma RowTotal(x0: int, x1: int, x2: int, x3: int, r0: u64, r1: u64, r2: u64, r3: u64, r4: u64,
                 s1: u64, s2: u64, s3: u64, s4: u64, s5: u64, t2: u64, t3: u64, t4: u64, t5: u64, t6: u64,
                 w3: u64, w4: u64, w5: u64, w6: u64, w7: u64)
    requires Num4(r0, r1, r2, r3) + TWO256 * r4 == x0
    requires Num4(s1, s2, s3, s4) + TWO256 * s5 == Num4(r1, r2, r3, r4) + x1
    requires Num4(t2, t3, t4, t5) + TWO256 * t6 == Num4(s2, s3, s4, s5) + x2
    requires Num4(w3, w4, w5, w6) + TWO256 * w7 == Num4(t3, t4, t5, t6) + x3
    ensures Num4(r0, s1, t2, w3) + TWO256 * Num4(w4, w5, w6, w7) == Num4(x0, x1, x2, x3)
  {
  }

  method Rows(a0: u64, a1: u64, a2: u64, a3: u64, b0: u64, b1: u64, b2: u64, b3: u64)
    returns (c0: u64, c1: u64, c2: u64, c3: u64, c4: u64, c5: u64, c6: u64, c7: u64)
    ensures Num4(c0, c1, c2, c3) + TWO256 * Num4(c4, c5, c6, c7) == Num4(a0, a1, a2, a3) * Num4(b0, b1, b2, b3)
  {
    ghost var n := Num4(b0, b1, b2, b3);
    RowsAddUp(a0, a1, a2, a3, n);
    var r1, r2, r3, r4, s2, s3, s4, s5, t3, t4, t5, t6;
    c0, r1, r2, r3, r4 := FirstRow(a0, b0, b1, b2, b3);
    c1, s2, s3, s4, s5 := NextRow(a1, b0, b1, b2, b3, r1, r2, r3, r4);
    c2, t3, t4, t5, t6 := NextRow(a2, b0, b1, b2, b3, s2, s3, s4, s5);
    c3, c4, c5, c6, c7 := NextRow(a3, b0, b1, b2, b3, t3, t4, t5, t6);
    RowTotal(a0 * n, a1 * n, a2 * n, a3 * n, c0, r1, r2, r3, r4, c1, s2, s3, s4, s5, c2, t3, t4, t5, t6, c3, c4, c5, c6, c7);
  }

  /** The exact 512-bit product. */
  method Multiply(a: array<u64>, b: array<u64>, c: array<u64>)
    requires a.Length >= 4 && b.Length >= 4 && c.Length >= 8 && c != a && c != b
    modifies c
    ensures Value8(c) == Value4(a) * Value4(b)
    ensures forall i :: 8 <= i < c.Length ==> c[i] == old(c[i])
  {
    var c0, c1, c2, c3, c4, c5, c6, c7 := Rows(a[0], a[1], a[2], a[3], b[0], b[1], b[2], b[3]);
    c[0], c[1], c[2], c[3], c[4], c[5], c[6], c[7] := c0, c1, c2, c3, c4, c5, c6, c7;
  }

  // ----- The quotient digit Q = P * RPRIME mod 2^256 -----

  /** The low word of a product. */
  method MulLow(x: u64, y: u64) returns (lo: u64, ghost hi: int)
    ensures lo + TWO64 * hi == x * y
  {
    lo, hi := x * y % TWO64, x * y / TWO64;
  }

  /** Q holds the low 256 bits of p * RPRIME; `over` is what was dropped. */
  method TruncatedProduct(p0: u64, p1: u64, p2: u64, p3: u64)
    returns (q0: u64, q1: u64, q2: u64, q3: u64, ghost over: int)
    ensures Num4(q0, q1, q2, q3) + TWO256 * over == Num4(p0, p1, p2, p3) * RPRIME
  {
    var x1, x2, x3, y2, y3, z3;
    ghost var o0, o1, o2, o3;
    q0, x1, x2, x3, o0 := LowRow0(p0);
    q1, y2, y3, o1 := LowRow1(p1, x1, x2, x3);
    q2, z3, o2 := LowRow2(p2, y2, y3);
    var lo; 
    lo, o3 := MulLow(p3, RPRIME_0);
    var k;
    k, q3 := AddCarry(0, z3, lo);
    over := o0 + o1 + o2 + o3 + k + Dropped(p1, p2, p3);
    TruncatedTotal(p0, p1, p2, p3, q0, x1, x2, x3, o0, q1, y2, y3, o1, q2, z3, o2, lo, o3, k, q3);
  }

  /** The partial products that lie above bit 256 altogether. */
  ghost function Dropped(p1: int, p2: int, p3: int): int {
    p1 * RPRIME_3 + p2 * RPRIME_2 + p3 * RPRIME_1 + TWO64 * (p2 * RPRIME_3 + p3 * RPRIME_2) + TWO128 * (p3 * RPRIME_3)
  }

  lemma TruncatedTotal(p0: int, p1: int, p2: int, p3: int, q0: int, x1: int, x2: int, x3: int, o0: int,
                       q1: int, y2: int, y3: int, o1: int, q2: int, z3: int, o2: int, lo: int, o3: int, k: int, q3: int)
    requires Num4(q0, x1, x2, x3) + TWO256 * o0 == p0 * RPRIME
    requires q1 + TWO64 * y2 + TWO128 * y3 + TWO192 * o1
          == x1 + TWO64 * x2 + TWO128 * x3 + p1 * RPRIME_0 + TWO64 * (p1 * RPRIME_1) + TWO128 * (p1 * RPRIME_2)
    requires q2 + TWO64 * z3 + TWO128 * o2 == y2 + TWO64 * y3 + p2 * RPRIME_0 + TWO64 * (p2 * RPRIME_1)
    requires lo + TWO64 * o3 == p3 * RPRIME_0 && k * TWO64 + q3 == z3 + lo
    ensures Num4(q0, q1, q2, q3) + TWO256 * (o0 + o1 + o2 + o3 + k + Dropped(p1, p2, p3)) == Num4(p0, p1, p2, p3) * RPRIME
  {
  }

  method LowRow0(p: u64) returns (q0: u64, q1: u64, q2: u64, q3: u64, ghost over: int)
    ensures Num4(q0, q1, q2, q3) + TWO256 * over == p * RPRIME
  {
    var u, lo, hi, k;
    q0, u := Mul128(p, RPRIME_0);
    lo, hi := Mul128(p, RPRIME_1);
    k, q1 := AddCarry(0, lo, u);
    u := k + hi;
    lo, hi := Mul128(p, RPRIME_2);
    k, q2 := AddCarry(0, lo, u);
    u := k + hi;
    lo, over := MulLow(p, RPRIME_3);
    k, q3 := AddCarry(0, lo, u);
    over := over + k;
  }

  method LowRow1(p: u64, d1: u64, d2: u64, d3: u64) returns (q1: u64, q2: u64, q3: u64, ghost over: int)
    ensures q1 + TWO64 * q2 + TWO128 * q3 + TWO192 * over
         == d1 + TWO64 * d2 + TWO128 * d3 + p * RPRIME_0 + TWO64 * (p * RPRIME_1) + TWO128 * (p * RPRIME_2)
  {
    var lo, hi := Mul128(p, RPRIME_0);
    var k;
    k, q1 := AddCarry(0, d1, lo);
    var u := k + hi;
    lo, hi := Mul128(p, RPRIME_1);
    var v;
    k, v := AddCarry(0, lo, u);
    u := k + hi;
    k, q2 := AddCarry(0, d2, v);
    ghost var o;
    lo, o := MulLow(p, RPRIME_2);
    var k1;
    k1, v := AddCarry(k, lo, u);
    var k2;
    k2, q3 := AddCarry(0, d3, v);
    over := o + k1 + k2;
  }

  method LowRow2(p: u64, d2: u64, d3: u64) returns (q2: u64, q3: u64, ghost over: int)
    ensures q2 + TWO64 * q3 + TWO128 * over == d2 + TWO64 * d3 + p * RPRIME_0 + TWO64 * (p * RPRIME_1)
  {
    var lo, hi := Mul128(p, RPRIME_0);
    var k;
    k, q2 := AddCarry(0, d2, lo);
    var u := k + hi;
    ghost var o;
    lo, o := MulLow(p, RPRIME_1);
    var k1, v := AddCarry(0, lo, u);
    var k2;
    k2, q3 := AddCarry(0, d3, v);
    over := o + k1 + k2;
  }

  // ----- Montgomery multiplication -----

  method Add4(c: bit, x0: u64, x1: u64, x2: u64, x3: u64, y0: u64, y1: u64, y2: u64, y3: u64)
    returns (k: bit, s0: u64, s1: u64, s2: u64, s3: u64)
    ensures Num4(s0, s1, s2, s3) + TWO256 * k == Num4(x0, x1, x2, x3) + Num4(y0, y1, y2, y3) + c
  {
    k, s0 := AddCarry(c, x0, y0);
    k, s1 := AddCarry(k, x1, y1);
    k, s2 := AddCarry(k, x2, y2);
    k, s3 := AddCarry(k, x3, y3);
  }

  method Sub4(x0: u64, x1: u64, x2: u64, x3: u64, y0: u64, y1: u64, y2: u64, y3: u64)
    returns (k: bit, s0: u64, s1: u64, s2: u64, s3: u64)
    ensures Num4(s0, s1, s2, s3) - TWO256 * k == Num4(x0, x1, x2, x3) - Num4(y0, y1, y2, y3)
  {
    k, s0 := SubBorrow(0, x0, y0);
    k, s1 := SubBorrow(k, x1, y1);
    k, s2 := SubBorrow(k, x2, y2);
    k, s3 := SubBorrow(k, x3, y3);
  }

  /** The inverse of 2^256 modulo the order. */
  const TWO256_INVERSE := (RPRIME * ORDER + 1) / TWO256

  lemma InverseOfTwo256()
    ensures RPRIME * ORDER + 1 == TWO256 * TWO256_INVERSE
    ensures Congruent(ORDER, TWO256 * TWO256_INVERSE, 1)
  {
    CongMultiple(ORDER, TWO256 * TWO256_INVERSE, RPRIME, 1);
  }

  /** Adding q * ORDER clears the low 256 bits. */
  lemma LowHalfVanishes(plo: int, phi: int, q: int, over: int, low: int, high: int)
    requires q + TWO256 * over == plo * RPRIME
    requires low + TWO256 * high == plo + TWO256 * phi + q * ORDER
    requires 0 <= low < TWO256
    ensures low == 0
  {
    assert low == TWO256 * (phi + plo * TWO256_INVERSE - over * ORDER - high);
  }

  /** The final conditional subtraction; no carry can come in. */
  method SubtractOrder(k: bit, h0: u64, h1: u64, h2: u64, h3: u64) returns (m0: u64, m1: u64, m2: u64, m3: u64)
    requires Num4(h0, h1, h2, h3) + TWO256 * k < 2 * ORDER
    ensures Num4(m0, m1, m2, m3) < ORDER
    ensures Num4(m0, m1, m2, m3) == Num4(h0, h1, h2, h3) || Num4(m0, m1, m2, m3) == Num4(h0, h1, h2, h3) - ORDER
  {
    ghost var h := Num4(h0, h1, h2, h3);
    assert 0 <= h < 2 * ORDER && k == 0;
    var b;
    b, m0, m1, m2, m3 := Sub4(h0, h1, h2, h3, ORDER_0, ORDER_1, ORDER_2, ORDER_3);
    assert Num4(m0, m1, m2, m3) == h - ORDER + TWO256 * b;
    assert b == 0 <==> h >= ORDER;
    if k - b != 0 {
      b, m0, m1, m2, m3 := Add4(0, m0, m1, m2, m3, ORDER_0, ORDER_1, ORDER_2, ORDER_3);
    }
  }

  lemma HighBound(p: int, q: int, high: int)
    requires TWO256 * high == p + q * ORDER && p < TWO256 * ORDER && q < TWO256
    ensures high < 2 * ORDER
  {
  }

  lemma MontgomeryCongruence(p: int, q: int, high: int, m: int)
    requires TWO256 * high == p + q * ORDER && (m == high || m == high - ORDER)
    ensures Congruent(ORDER, m * TWO256, p)
  {
    CongMultiple(ORDER, m * TWO256, if m == high then q else q - TWO256, p);
  }

  /** The product plus the multiple of the order that clears its low half, shifted down. */
  method AddMultiple(p0: u64, p1: u64, p2: u64, p3: u64, p4: u64, p5: u64, p6: u64, p7: u64)
    returns (k: bit, h0: u64, h1: u64, h2: u64, h3: u64, ghost q: int)
    ensures q < TWO256
    ensures TWO256 * (Num4(h0, h1, h2, h3) + TWO256 * k) == Num4(p0, p1, p2, p3) + TWO256 * Num4(p4, p5, p6, p7) + q * ORDER
  {
    var q0, q1, q2, q3; ghost var over;
    q0, q1, q2, q3, over := TruncatedProduct(p0, p1, p2, p3);
    var t0, t1, t2, t3, t4, t5, t6, t7 := Rows(q0, q1, q2, q3, ORDER_0, ORDER_1, ORDER_2, ORDER_3);
    var c, l0, l1, l2, l3 := Add4(0, p0, p1, p2, p3, t0, t1, t2, t3);
    k, h0, h1, h2, h3 := Add4(c, p4, p5, p6, p7, t4, t5, t6, t7);
    q := Num4(q0, q1, q2, q3);
    LowHalfVanishes(Num4(p0, p1, p2, p3), Num4(p4, p5, p6, p7), q, over, Num4(l0, l1, l2, l3), Num4(h0, h1, h2, h3) + TWO256 * k);
  }

  method Reduce(p0: u64, p1: u64, p2: u64, p3: u64, p4: u64, p5: u64, p6: u64, p7: u64)
    returns (m0: u64, m1: u64, m2: u64, m3: u64)
    requires Num4(p0, p1, p2, p3) + TWO256 * Num4(p4, p5, p6, p7) < TWO256 * ORDER
    ensures Num4(m0, m1, m2, m3) < ORDER
    ensures Congruent(ORDER, Num4(m0, m1, m2, m3) * TWO256, Num4(p0, p1, p2, p3) + TWO256 * Num4(p4, p5, p6, p7))
  {
    var k, h0, h1, h2, h3; ghost var q;
    k, h0, h1, h2, h3, q := AddMultiple(p0, p1, p2, p3, p4, p5, p6, p7);
    ghost var p, high := Num4(p0, p1, p2, p3) + TWO256 * Num4(p4, p5, p6, p7), Num4(h0, h1, h2, h3) + TWO256 * k;
    HighBound(p, q, high);
    m0, m1, m2, m3 := SubtractOrder(k, h0, h1, h2, h3);
    MontgomeryCongruence(p, q, high, Num4(m0, m1, m2, m3));
  }

  /** The product, with the shortcut for mb = 1. */
  method Product(ma: array<u64>, mb: array<u64>) returns (p: array<u64>)
    requires ma.Length >= 4 && mb.Length >= 4
    ensures fresh(p) && p.Length == 8 && Value8(p) == Value4(ma) * Value4(mb)
  {
    p := new u64[8];
    if mb[0] == 1 && mb[1] == 0 && mb[2] == 0 && mb[3] == 0 {
      p[0], p[1], p[2], p[3] := ma[0], ma[1], ma[2], ma[3];
      p[4], p[5], p[6], p[7] := 0, 0, 0, 0;
      assert Value4(mb) == 1;
    } else {
      Multiply(ma, mb, p);
    }
  }

  /** mc = ma * mb / 2^256 modulo the order; mc may be ma or mb. */
  method MontgomeryMultiply(ma: array<u64>, mb: array<u64>, mc: array<u64>)
    requires ma.Length >= 4 && mb.Length >= 4 && mc.Length >= 4
    requires Value4(ma) * Value4(mb) < TWO256 * ORDER
    modifies mc
    ensures Value4(mc) < ORDER
    ensures Congruent(ORDER, Value4(mc) * TWO256, old(Value4(ma)) * old(Value4(mb)))
    ensures forall i :: 4 <= i < mc.Length ==> mc[i] == old(mc[i])
  {
    var p := Product(ma, mb);
    var m0, m1, m2, m3 := Reduce(p[0], p[1], p[2], p[3], p[4], p[5], p[6], p[7]);
    mc[0], mc[1], mc[2], mc[3] := m0, m1, m2, m3;
  }

  lemma RSquareIsTwo512()
    ensures Congruent(ORDER, RSQUARE, TWO256 * TWO256)
  {
    CongMultiple(ORDER, RSQUARE, (RSQUARE - TWO256 * TWO256) / ORDER, TWO256 * TWO256);
  }

  /** Multiplying by 2^512 and dividing by 2^256 enters Montgomery form. */
  lemma EnterMontgomery(k: int, x: int)
    requires Congruent(ORDER, x * TWO256, k * RSQUARE)
    ensures Congruent(ORDER, x, k * TWO256)
  {
    RSquareIsTwo512();
    InverseOfTwo256();
    CongRefl(ORDER, k);
    CongMul(ORDER, k, k, RSQUARE, TWO256 * TWO256);
    CongTrans(ORDER, x * TWO256, k * RSQUARE, k * TWO256 * TWO256);
    CongCancel(ORDER, TWO256, TWO256_INVERSE, x, k * TWO256);
  }

  /** Dividing by 2^256 once more leaves it. */
  lemma LeaveMontgomery(k: int, x: int, y: int)
    requires Congruent(ORDER, x, k * TWO256) && Congruent(ORDER, y * TWO256, x * 1)
    ensures Congruent(ORDER, y, k)
  {
    InverseOfTwo256();
    CongTrans(ORDER, y * TWO256, x, k * TWO256);
    CongCancel(ORDER, TWO256, TWO256_INVERSE, y, k);
  }

  method MontgomeryConstants() returns (rsquare: array<u64>, one: array<u64>)
    ensures fresh(rsquare) && rsquare.Length == 4 && Value4(rsquare) == RSQUARE
    ensures fresh(one) && one.Length == 4 && Value4(one) == 1 && one != rsquare
  {
    rsquare := new u64[4][0xC81DB8795FF3D621, 0x173EA5AAEA6B387D, 0x3D01B7C72136F61C, 0x0006A5F16AC8F9D3];
    one := new u64[4][1, 0, 0, 0];
  }

  lemma FitsMontgomery(x: int, y: int)
    requires 0 <= x < TWO256 && 0 <= y < ORDER
    ensures 0 <= x * y < TWO256 * ORDER
  {
    ProductBound(x, y, TWO256, ORDER - 1);
  }

  /** The two-call sequence: any 256-bit number modulo the order. s may be k. */
  method ReduceModOrder(k: array<u64>, s: array<u64>)
    requires k.Length >= 4 && s.Length >= 4
    modifies s
    ensures Value4(s) == old(Value4(k)) % ORDER
    ensures forall i :: 4 <= i < s.Length ==> s[i] == old(s[i])
  {
    ghost var v := Value4(k);
    var rsquare, one := MontgomeryConstants();
    FitsMontgomery(v, RSQUARE);
    MontgomeryMultiply(k, rsquare, s);
    ghost var x := Value4(s);
    EnterMontgomery(v, x);
    MontgomeryMultiply(s, one, s);
    LeaveMontgomery(v, x, Value4(s));
    CongMod(ORDER, v);
    CongSym(ORDER, v % ORDER, v);
    CongTrans(ORDER, Value4(s), v, v % ORDER);
    CongUnique(ORDER, Value4(s), v % ORDER);
  }
}