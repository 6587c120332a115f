/** The linear operations of GF(P^2): negation, addition, subtraction, doubling less a term, and
    division by two. */
module FieldLinear {
  import opened Words
  import opened Congruence
  import opened Field1271
  import opened FieldInverse

  /** c may be a, be b, or be apart from them, component by component. */
  predicate NotCrossed(a: F2, c: F2) {
    c.re != a.im && c.im != a.re && c.re != c.im
  }

  method Fp2Neg(a: F2)
    requires IsF2(a)
    modifies a.re, a.im
    ensures IsF2(a) && CongC(CVal(a), C(-old(Val(a.re)), -old(Val(a.im))))
  {
    FpNeg(a.re);
    FpNeg(a.im);
  }

  method Fp2Add(a: F2, b: F2, c: F2)
    requires IsF2(a) && IsF2(b) && c.re.Length == c.im.Length == 2 && NotCrossed(a, c) && NotCrossed(b, c)
    modifies c.re, c.im
    ensures IsF2(c) && CongC(CVal(c), C(old(Val(a.re)) + old(Val(b.re)), old(Val(a.im)) + old(Val(b.im))))
  {
    FpAdd(a.re, b.re, c.re);
    FpAdd(a.im, b.im, c.im);
  }

  method Fp2Sub(a: F2, b: F2, c: F2)
    requires IsF2(a) && IsF2(b) && c.re.Length == c.im.Length == 2 && NotCrossed(a, c) && NotCrossed(b, c)
    modifies c.re, c.im
    ensures IsF2(c) && CongC(CVal(c), C(old(Val(a.re)) - old(Val(b.re)), old(Val(a.im)) - old(Val(b.im))))
  {
    FpSub(a.re, b.re, c.re);
    FpSub(a.im, b.im, c.im);
  }

  /** c = 2a - b; a is left doubled, unless c is a. b must not be a. */
  method Fp2AddSub(a: F2, b: F2, c: F2)
    requires IsF2(a) && IsF2(b) && c.re.Length == c.im.Length == 2 && NotCrossed(a, c) && NotCrossed(b, c)
    requires Apart(a, b)
    modifies a.re, a.im, c.re, c.im
    ensures IsF2(c) && CongC(CVal(c), C(2 * old(Val(a.re)) - old(Val(b.re)), 2 * old(Val(a.im)) - old(Val(b.im))))
    ensures Apart(a, c) ==> IsF2(a) && CongC(CVal(a), C(2 * old(Val(a.re)), 2 * old(Val(a.im))))
  {
    ghost var x, y, u, v := Val(a.re), Val(a.im), Val(b.re), Val(b.im);
    Fp2Add(a, a, a);
    ghost var p, q := Val(a.re), Val(a.im);
    Fp2Sub(a, b, c);
    Substitute(Val(c.re), p, 2 * x, u);
    Substitute(Val(c.im), q, 2 * y, v);
  }

  lemma Substitute(z: int, p: int, x: int, u: int)
    requires Cong(z, p - u) && Cong(p, x)
    ensures Cong(z, x - u)
  {
    CongRefl(P, u);
    CongAdd(P, p, x, u, u);
    CongTrans(P, z, p - u, x - u);
  }

  /** One component of fp2div1271: an odd number gets P added, then everything moves one bit down. */
  method FpHalve(a: array<u64>)
    requires Felm(a)
    modifies a
    ensures Felm(a) && Cong(2 * Val(a), old(Val(a)))
  {
    ghost var x := Val(a);
    var odd: bit := a[0] % 2;
    var mask := if odd == 1 then TWO64 - 1 else 0;
    var k, t0 := AddCarry(0, a[0], mask);
    var k1, t1 := AddCarry(k, a[1], mask / 2);
    Halved(a[0], a[1], odd, k, t0, k1, t1);
    a[0] := t0 / 2 + t1 % 2 * TWO63;
    a[1] := t1 / 2;
    CongMultiple(P, 2 * Val(a), odd, x);
  }

  lemma Halved(x0: u64, x1: u64, odd: bit, k: bit, t0: u64, k1: bit, t1: u64)
    requires x1 < TWO63 && odd == x0 % 2
    requires k * TWO64 + t0 == x0 + (if odd == 1 then TWO64 - 1 else 0)
    requires k1 * TWO64 + t1 == k + x1 + (if odd == 1 then TWO63 - 1 else 0)
    ensures k1 == 0 && t0 % 2 == 0 && t1 / 2 < TWO63
    ensures 2 * (t0 / 2 + t1 % 2 * TWO63 + TWO64 * (t1 / 2)) == x0 + TWO64 * x1 + (if odd == 1 then P else 0)
  {
  }

  method Fp2Div(a: F2)
    requires IsF2(a)
    modifies a.re, a.im
    ensures IsF2(a) && CongC(C(2 * Val(a.re), 2 * Val(a.im)), C(old(Val(a.re)), old(Val(a.im))))
  {
    FpHalve(a.re);
    FpHalve(a.im);
  }
}
