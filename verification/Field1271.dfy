/** Arithmetic in GF(2^127 - 1) and its quadratic extension, on two-limb elements
    updated in place. Outputs may alias inputs throughout. */
module Field1271 {
  import opened Words
  import opened Congruence

  const P := TWO127 - 1

  /** Equality in GF(P). */
  ghost predicate Cong(x: int, y: int) {
    Congruent(P, x, y)
  }

  // ----- Field elements -----

  ghost predicate Felm(a: array<u64>)
    reads a
  {
    a.Length == 2 && a[1] < TWO63
  }

  ghost function Val(a: array<u64>): int
    requires a.Length == 2
    reads a
  {
    a[0] + TWO64 * a[1]
  }

  /** Full reduction: the canonical representative. */
  method Mod1271(a: array<u64>)
    requires Felm(a)
    modifies a
    ensures Felm(a) && Val(a) == old(Val(a)) % P
  {
    var k, s0 := SubBorrow(0, a[0], TWO64 - 1);
    var k1, s1 := SubBorrow(k, a[1], TWO63 - 1);
    a[0], a[1] := s0, s1;
    var top, rest := SplitTop(a[1]);
    var mask := if top == 1 then TWO64 - 1 else 0;
    var k2, r0 := AddCarry(0, a[0], mask);
    var k3, r1 := AddCarry(k2, a[1], if top == 1 then TWO63 - 1 else 0);
    a[0], a[1] := r0, r1;
    Reduced(old(a[0]), old(a[1]), k, s0, k1, s1, top, rest, k2, r0, k3, r1);
  }

  lemma Reduced(x0: u64, x1: u64, k: bit, s0: u64, k1: bit, s1: u64, top: bit, rest: u64, k2: bit, r0: u64, k3: bit, r1: u64)
    requires x1 < TWO63
    requires s0 - k * TWO64 == x0 - (TWO64 - 1) && s1 - k1 * TWO64 == x1 - (TWO63 - 1) - k
    requires s1 == top * TWO63 + rest && rest < TWO63
    requires k2 * TWO64 + r0 == s0 + (if top == 1 then TWO64 - 1 else 0)
    requires k3 * TWO64 + r1 == k2 + s1 + (if top == 1 then TWO63 - 1 else 0)
    ensures r1 < TWO63 && r0 + TWO64 * r1 == (x0 + TWO64 * x1) % P
  {
    var x := x0 + TWO64 * x1;
    SmallRemainder(x);
    if x == P {
      assert k1 == 0 && s0 == 0 && s1 == 0;
    } else {
      assert k1 == 1;
      assert top == 1;
    }
  }

  lemma SmallRemainder(x: nat)
    requires x <= P
    ensures x % P == if x == P then 0 else x
  {
    DivModUnique(x, if x == P then 1 else 0, if x == P then 0 else x, P);
  }

  method FpAdd(a: array<u64>, b: array<u64>, c: array<u64>)
    requires Felm(a) && Felm(b) && c.Length == 2
    modifies c
    ensures Felm(c) && Cong(Val(c), old(Val(a)) + old(Val(b)))
  {
    ghost var x := Val(a) + Val(b);
    var k, s0 := AddCarry(0, a[0], b[0]);
    c[0] := s0;
    var k1, s1 := AddCarry(k, a[1], b[1]);
    c[1] := s1;
    FoldInto(x, k1, c[0], c[1], c);
  }

  /** Adding bit 127 of x back in at bit 0. */
  lemma Folded(x: int, s0: u64, k1: bit, top: bit, rest: u64, k2: bit, r0: u64, k3: bit, r1: u64)
    requires x == s0 + TWO64 * rest + TWO127 * top + TWO128 * k1 && 0 <= x <= 2 * P && rest < TWO63
    requires k2 * TWO64 + r0 == s0 + top && k3 * TWO64 + r1 == k2 + rest
    ensures r1 < TWO63 && Cong(r0 + TWO64 * r1, x)
  {
    CongMultiple(P, r0 + TWO64 * r1, 0 - top, x);
  }

  method FpSub(a: array<u64>, b: array<u64>, c: array<u64>)
    requires Felm(a) && Felm(b) && c.Length == 2
    modifies c
    ensures Felm(c) && Cong(Val(c), old(Val(a)) - old(Val(b)))
  {
    ghost var x := Val(a) - Val(b);
    var k, s0 := SubBorrow(0, a[0], b[0]);
    c[0] := s0;
    var k1, s1 := SubBorrow(k, a[1], b[1]);
    c[1] := s1;
    var top, rest := SplitTop(c[1]);
    var k2, r0 := SubBorrow(0, c[0], top);
    c[0] := r0;
    var k3, r1 := SubBorrow(k2, rest, 0);
    c[1] := r1;
    Borrowed(x, s0, k1, top, rest, k2, r0, k3, r1);
  }

  lemma Borrowed(x: int, s0: u64, k1: bit, top: bit, rest: u64, k2: bit, r0: u64, k3: bit, r1: u64)
    requires x == s0 + TWO64 * rest + TWO127 * top - TWO128 * k1 && -P <= x <= P && rest < TWO63
    requires r0 - k2 * TWO64 == s0 - top && r1 - k3 * TWO64 == rest - k2
    ensures r1 < TWO63 && Cong(r0 + TWO64 * r1, x)
  {
    CongMultiple(P, r0 + TWO64 * r1, top, x);
  }

  method FpNeg(a: array<u64>)
    requires Felm(a)
    modifies a
    ensures Felm(a) && Cong(Val(a), -old(Val(a)))
  {
    a[0] := TWO64 - 1 - a[0];
    a[1] := TWO63 - 1 - a[1];
    CongMultiple(P, Val(a), 1, -old(Val(a)));
  }

  /** The four partial products of two field elements. */
  lemma PartialProducts(a0: u64, a1: u64, b0: u64, b1: u64)
    requires a1 < TWO63 && b1 < TWO63
    ensures (a0 + TWO64 * a1) * (b0 + TWO64 * b1)
         == a0 * b0 + TWO64 * (a0 * b1 + a1 * b0) + TWO128 * (a1 * b1)
    ensures 0 <= a0 * b1 <= (TWO64 - 1) * (TWO63 - 1)
    ensures 0 <= a1 * b0 <= (TWO64 - 1) * (TWO63 - 1)
    ensures 0 <= a1 * b1 <= (TWO63 - 1) * (TWO63 - 1)
    ensures 0 <= (a0 + TWO64 * a1) * (b0 + TWO64 * b1) <= P * P
  {
    ProductBound(a0, b1, TWO64 - 1, TWO63 - 1);
    ProductBound(a1, b0, TWO63 - 1, TWO64 - 1);
    ProductBound(a1, b1, TWO63 - 1, TWO63 - 1);
    ProductBound(a0 + TWO64 * a1, b0 + TWO64 * b1, P, P);
    calc {
      (a0 + TWO64 * a1) * (b0 + TWO64 * b1);
      a0 * b0 + a0 * (TWO64 * b1) + TWO64 * a1 * b0 + TWO64 * a1 * (TWO64 * b1);
      a0 * b0 + TWO64 * (a0 * b1) + TWO64 * (a1 * b0) + TWO64 * TWO64 * (a1 * b1);
    }
  }

  /** `mid` is the 128-bit middle column (v0, v1); the product modulo 2^127 - 1 is the
      low 127 bits plus everything above them. */
  lemma FoldProduct(xy: int, l00: u64, v0top: bit, v0rest: u64, v1top: bit, v1rest: u64, p11: int, high: int, z: int)
    requires xy == l00 + TWO64 * (v0top * TWO63 + v0rest + TWO64 * (v1top * TWO63 + v1rest)) + TWO128 * p11
    requires high == 2 * p11 + v0top + 2 * v1rest + TWO64 * v1top
    requires z == l00 + TWO64 * v0rest + high
    requires 0 <= xy <= P * P && v0rest < TWO63 && v1rest < TWO63 && p11 >= 0
    ensures 0 <= high < P && 0 <= z <= 2 * P && Cong(z, xy)
  {
    assert xy == l00 + TWO64 * v0rest + TWO127 * high;
    CongMultiple(P, z, -high, xy);
  }

  /** No carry is lost while 2 * p11 and the column above bit 63 are added. */
  lemma HighColumn(p11: int, l11top: bit, l11rest: u64, h11: u64, v0top: bit, v1top: bit, v1rest: u64,
                   k4: bit, x0: u64, k5: bit, x1: u64, high: int)
    requires l11top * TWO63 + l11rest + TWO64 * h11 == p11 && l11rest < TWO63 && v1rest < TWO63
    requires high == 2 * p11 + v0top + 2 * v1rest + TWO64 * v1top && 0 <= high < P
    requires k4 * TWO64 + x0 == 2 * v1rest + v0top + 2 * l11rest
    requires k5 * TWO64 + x1 == k4 + v1top + 2 * h11 + l11top
    ensures k5 == 0 && x0 + TWO64 * x1 == high
  {
    assert x0 + TWO64 * x1 + TWO128 * k5 == high;
  }

  /** From the middle column on, fpmul1271 and fpsqr1271 are the same code. The two shifts
      of (v0, v1) and of the product a1 * b1 are written with their top bits split off. */
  method FoldColumns(ghost xy: int, l00: u64, v0: u64, v1: u64, a1: u64, b1: u64, c: array<u64>)
    requires a1 < TWO63 && b1 < TWO63 && c.Length == 2
    requires xy == l00 + TWO64 * (v0 + TWO64 * v1) + TWO128 * (a1 * b1)
    requires 0 <= xy <= P * P
    modifies c
    ensures Felm(c) && Cong(Val(c), xy)
  {
    ghost var p11 := a1 * b1;
    var l11, h11 := Mul128(a1, b1);
    assert 0 <= p11 < TWO127 by { ProductBound(a1, b1, TWO63 - 1, TWO63 - 1); }
    var l11top, l11rest := SplitTop(l11);
    var v0top, v0rest := SplitTop(v0);
    var v1top, v1rest := SplitTop(v1);
    ghost var high := 2 * p11 + v0top + 2 * v1rest + TWO64 * v1top;
    ghost var z := l00 + TWO64 * v0rest + high;
    FoldProduct(xy, l00, v0top, v0rest, v1top, v1rest, p11, high, z);
    var k4, x0 := AddCarry(0, 2 * v1rest + v0top, 2 * l11rest);
    var k5, x1 := AddCarry(k4, v1top, 2 * h11 + l11top);
    HighColumn(p11, l11top, l11rest, h11, v0top, v1top, v1rest, k4, x0, k5, x1, high);
    var k6, y0 := AddCarry(0, l00, x0);
    var k7, y1 := AddCarry(k6, v0rest, x1);
    FoldInto(z, k7, y0, y1, c);
    CongTrans(P, Val(c), z, xy);
  }

  /** The last line of fpadd1271, fpmul1271 and fpsqr1271. */
  method FoldInto(ghost z: int, ghost k: bit, y0: u64, y1: u64, c: array<u64>)
    requires c.Length == 2 && z == y0 + TWO64 * y1 + TWO128 * k && 0 <= z <= 2 * P
    modifies c
    ensures Felm(c) && Cong(Val(c), z)
  {
    var top, rest := SplitTop(y1);
    var k8, r0 := AddCarry(0, y0, top);
    c[0] := r0;
    var k9, r1 := AddCarry(k8, rest, 0);
    c[1] := r1;
    Folded(z, y0, k, top, rest, k8, r0, k9, r1);
  }

  /** The middle column a0*b1 + a1*b0 + hi(a0*b0) fits 128 bits: both discarded carries are 0. */
  lemma MiddleColumn(p01: int, p10: int, h00: u64, l01: u64, h01: u64, l10: u64, h10: u64,
                     k0: bit, u0: u64, k1: bit, u1: u64, k2: bit, v0: u64, k3: bit, v1: u64)
    requires 0 <= p01 <= (TWO64 - 1) * (TWO63 - 1) && 0 <= p10 <= (TWO64 - 1) * (TWO63 - 1)
    requires l01 + TWO64 * h01 == p01 && l10 + TWO64 * h10 == p10
    requires k0 * TWO64 + u0 == l01 + h00 && k1 * TWO64 + u1 == k0 + h01
    requires k2 * TWO64 + v0 == u0 + l10 && k3 * TWO64 + v1 == k2 + u1 + h10
    ensures v0 + TWO64 * v1 == p01 + p10 + h00
  {
    assert u0 + TWO64 * u1 + TWO128 * k1 == p01 + h00;
    assert k1 == 0;
    assert v0 + TWO64 * v1 + TWO128 * k3 == p01 + p10 + h00;
  }

  /** Everything of the product except a1*b1: its lowest limb and its 128-bit middle column. */
  method LowColumns(a0: u64, a1: u64, b0: u64, b1: u64) returns (l00: u64, v0: u64, v1: u64)
    requires a1 < TWO63 && b1 < TWO63
    ensures a0 * b0 + TWO64 * (a0 * b1 + a1 * b0) == l00 + TWO64 * (v0 + TWO64 * v1)
  {
    ghost var p01: int, p10: int := a0 * b1, a1 * b0;
    PartialProducts(a0, a1, b0, b1);
    var h00;
    l00, h00 := Mul128(a0, b0);
    var l01, h01 := Mul128(a0, b1);
    var k0, u0 := AddCarry(0, l01, h00);
    var k1, u1 := AddCarry(k0, h01, 0);
    var l10, h10 := Mul128(a1, b0);
    var k2, k3;
    k2, v0 := AddCarry(0, u0, l10);
    k3, v1 := AddCarry(k2, u1, h10);
    MiddleColumn(p01, p10, h00, l01, h01, l10, h10, k0, u0, k1, u1, k2, v0, k3, v1);
  }

  method FpMul(a: array<u64>, b: array<u64>, c: array<u64>)
    requires Felm(a) && Felm(b) && c.Length == 2
    modifies c
    ensures Felm(c) && Cong(Val(c), old(Val(a)) * old(Val(b)))
  {
    var a1, b1 := a[1], b[1];
    PartialProducts(a[0], a1, b[0], b1);
    var l00, v0, v1 := LowColumns(a[0], a1, b[0], b1);
    FoldColumns(Val(a) * Val(b), l00, v0, v1, a1, b1, c);
  }

  /** LowColumns for a square, which doubles a0*a1 instead of multiplying again. */
  method LowColumnsOfSquare(a0: u64, a1: u64) returns (l00: u64, v0: u64, v1: u64)
    requires a1 < TWO63
    ensures a0 * a0 + TWO64 * (a0 * a1 + a1 * a0) == l00 + TWO64 * (v0 + TWO64 * v1)
  {
    ghost var p01: int := a0 * a1;
    PartialProducts(a0, a1, a0, a1);
    var h00;
    l00, h00 := Mul128(a0, a0);
    var l01, h01 := Mul128(a0, a1);
    var k0, u0 := AddCarry(0, l01, h00);
    var k1, u1 := AddCarry(k0, h01, 0);
    var k2, k3;
    k2, v0 := AddCarry(0, l01, u0);
    k3, v1 := AddCarry(k2, h01, u1);
    MiddleColumn(p01, p01, h00, l01, h01, l01, h01, k0, u0, k1, u1, k2, v0, k3, v1);
  }

  method FpSqr(a: array<u64>, c: array<u64>)
    requires Felm(a) && c.Length == 2
    modifies c
    ensures Felm(c) && Cong(Val(c), old(Val(a)) * old(Val(a)))
  {
    var a1 := a[1];
    PartialProducts(a[0], a1, a[0], a1);
    var l00, v0, v1 := LowColumnsOfSquare(a[0], a1);
    FoldColumns(Val(a) * Val(a), l00, v0, v1, a1, a1, c);
  }
}
