/** The hypotheses about the curve can be met together: the residues modulo the curve order, with
    the tables and the decomposition they should have, satisfy every one of them. */
module CurveModel {
  import opened Wrappers
  import opened Words
  import opened Bytes
  import opened Congruence
  import opened AbelianGroup
  import opened Montgomery
  import opened Schnorr
  import Comb
  import DoubleScalar
  import Field1271

  type Residue = x: int | 0 <= x < ORDER

  function Plus(a: Residue, b: Residue): Residue {
    if a + b < ORDER then a + b else a + b - ORDER
  }

  function Minus(a: Residue): Residue {
    if a == 0 then 0 else ORDER - a
  }

  function Residues(): Group<Residue> {
    Group(0, (a, b) => Plus(a, b), a => Minus(a))
  }

  lemma ResiduesAreAGroup()
    ensures Laws(Residues())
  {
    var g := Residues();
    forall a: Residue, b: Residue, c: Residue | Use3(a, b, c)
      ensures g.add(g.add(a, b), c) == g.add(a, g.add(b, c)) && g.add(a, b) == g.add(b, a) && g.add(g.zero, a) == a && g.add(a, g.neg(a)) == g.zero
    {
      PlusLaws(a, b, c);
    }
  }

  lemma PlusLaws(a: Residue, b: Residue, c: Residue)
    ensures Plus(Plus(a, b), c) == Plus(a, Plus(b, c)) && Plus(a, b) == Plus(b, a) && Plus(0, a) == a && Plus(a, Minus(a)) == 0
  {
  }

  /** n times 1 is n. */
  lemma {:induction false} MultiplesOfOne(n: nat)
    requires n < ORDER
    ensures Mul(Residues(), n, 1) == n
  {
    if n > 0 { MultiplesOfOne(n - 1); }
  }

  lemma {:induction false} OrderOfOne(n: nat)
    requires n == ORDER
    ensures Mul(Residues(), n, 1) == 0 == Residues().zero
  {
    MultiplesOfOne(n - 1);
  }

  // ----- Encoding -----

  function Coordinates(n: Residue): Affine {
    Affine(0, 0, n % TWO126, n / TWO126)
  }

  function Decoded(b: seq<byte>): Option<Residue> {
    if |b| != 32 then None
    else
      var v := LittleEndian(b[..16]) + TWO126 * LittleEndian(b[16..]);
      if v < ORDER then Some(v) else None
  }

  lemma CoordinatesReduced(n: Residue)
    ensures Coordinates(n).Reduced()
  {
    SmallQuotient(n, n / TWO126, n % TWO126);
  }

  lemma SmallQuotient(n: Residue, q: int, r: int)
    requires n == q * TWO126 + r && 0 <= r < TWO126
    ensures q < Field1271.P && r < Field1271.P
  {
  }

  lemma {:induction false} DecodedBack(n: Residue)
    ensures Decoded(Encode(Coordinates(n))) == Some(n)
  {
    hide LittleEndian, ToBytes, Pow2;
    var y0, y1 := n % TWO126, n / TWO126;
    assert n == y1 * TWO126 + y0;
    SmallQuotient(n, y1, y0);
    hide Coordinates, Encode;
    EncodeOfY(n, y0, y1);
    HalvesRead(y0, y1);
  }

  lemma EncodeOfY(n: Residue, y0: nat, y1: nat)
    requires y0 == n % TWO126 && y1 == n / TWO126
    ensures Encode(Coordinates(n)) == ToBytes(y0, 16) + ToBytes(y1, 16)
  {
    hide ToBytes;
    assert Coordinates(n) == Affine(0, 0, y0, y1);
    assert 0 / TWO126 % 2 == 0;
  }

  lemma {:induction false} HalvesRead(y0: nat, y1: nat)
    requires y0 < TWO128 && y1 < TWO128
    ensures var b := ToBytes(y0, 16) + ToBytes(y1, 16); LittleEndian(b[..16]) == y0 && LittleEndian(b[16..]) == y1
  {
    hide LittleEndian, ToBytes, Pow2;
    Pow2Values();
    var b := ToBytes(y0, 16) + ToBytes(y1, 16);
    assert b[..16] == ToBytes(y0, 16) && b[16..] == ToBytes(y1, 16);
    RoundTripNumber(y0, 16);
    RoundTripNumber(y1, 16);
  }

  // ----- Decomposition into limbs -----

  function Limbs(x: nat): seq<u64> {
    [x % TWO64, x / TWO64 % TWO64, x / TWO128 % TWO64, x / TWO192 % TWO64]
  }

  const LAMBDA: seq<int> := [1, TWO64, TWO128, TWO192]

  lemma LimbsDecompose(x: nat)
    requires x < TWO256
    ensures DoubleScalar.Decomposes(Limbs(x), LAMBDA, ORDER, x)
  {
    var l: seq<int> := Limbs(x);
    LimbSum(x);
    DotOfFour(l, LAMBDA);
    CongRefl(ORDER, x);
  }

  lemma LimbSum(x: nat)
    requires x < TWO256
    ensures x == x % TWO64 + x / TWO64 % TWO64 * TWO64 + x / TWO128 % TWO64 * TWO128 + x / TWO192 % TWO64 * TWO192
  {
    var a, b, c := x / TWO64, x / TWO128, x / TWO192;
    assert a / TWO64 == b && b / TWO64 == c && c < TWO64;
  }

  lemma DotOfFour(c: seq<int>, d: seq<int>)
    requires |c| == |d| == 4
    ensures DoubleScalar.Dot(c, d) == c[0] * d[0] + c[1] * d[1] + c[2] * d[2] + c[3] * d[3]
  {
    var c3, d3 := c[..3], d[..3];
    var c2, d2 := c3[..2], d3[..2];
    var c1, d1 := c2[..1], d2[..1];
    assert DoubleScalar.Dot(c1[..0], d1[..0]) == 0;
    assert DoubleScalar.Dot(c1, d1) == c[0] * d[0];
    assert DoubleScalar.Dot(c2, d2) == c[0] * d[0] + c[1] * d[1];
    assert DoubleScalar.Dot(c3, d3) == c[0] * d[0] + c[1] * d[1] + c[2] * d[2];
  }

  // ----- The curve -----

  ghost function CombTable(s: nat): seq<Residue> {
    seq(80, k requires 0 <= k < 80 => Mul(Residues(), Comb.EntryScalar(s, k / 16, k % 16), 1))
  }

  ghost function OddTable(factor: int): seq<Residue> {
    seq(64, m requires 0 <= m < 64 => Mul(Residues(), 2 * m + 1, Mul(Residues(), factor, 1)))
  }

  ghost function ResidueCurve(s: nat): Curve<Residue> {
    Curve(Residues(), 1, CombTable(s), seq(4, j requires 0 <= j < 4 => OddTable(LAMBDA[j])),
          p => seq(4, j requires 0 <= j < 4 => Mul(Residues(), LAMBDA[j], p)), x => Limbs(x), LAMBDA,
          n => Coordinates(n), b => Decoded(b))
  }

  lemma TableIsComb(s: nat)
    ensures Comb.IsCombTable(Residues(), 1, CombTable(s), s)
  {
    hide Mul, Comb.EntryScalar;
    forall b: nat, u: nat | b < 5 && u < 16 ensures CombTable(s)[16 * b + u] == Mul(Residues(), Comb.EntryScalar(s, b, u), 1) {
      assert (16 * b + u) / 16 == b && (16 * b + u) % 16 == u;
    }
  }

  lemma TablesAreOdd(s: nat)
    ensures var c := ResidueCurve(s);
      |c.baseTables| == 4 && forall j :: 0 <= j < 4 ==> |c.baseTables[j]| == 64 && DoubleScalar.OddMultiples(c.g, c.baseTables[j], Mul(c.g, LAMBDA[j], c.base))
  {
    hide Mul, CombTable, Limbs, Decoded, Coordinates, Residues;
    var c := ResidueCurve(s);
    forall j | 0 <= j < 4 ensures |c.baseTables[j]| == 64 && DoubleScalar.OddMultiples(c.g, c.baseTables[j], Mul(c.g, LAMBDA[j], c.base)) {
      assert c.baseTables[j] == OddTable(LAMBDA[j]);
    }
  }

  lemma ImagesAreMultiples(s: nat, p: Residue)
    ensures IsImages(ResidueCurve(s), p)
  {
    hide Mul, CombTable, OddTable, Limbs, Decoded, Coordinates, Residues;
  }

  /** Every hypothesis of the signature theorems holds of this curve, so none of them is vacuous. */
  lemma ResidueCurveIsSound(s: nat)
    ensures Sound(ResidueCurve(s), s)
  {
    hide Mul, Comb.EntryScalar, Comb.IsCombTable, CombTable, OddTable, Limbs, Decoded, Encode, Laws, Residues, Coordinates, IsImages;
    hide DoubleScalar.OddMultiples, DoubleScalar.Decomposes;
    var c := ResidueCurve(s);
    ResiduesAreAGroup();
    OrderOfOne(ORDER);
    TableIsComb(s);
    TablesAreOdd(s);
    forall x: nat | x < TWO256 ensures DoubleScalar.Decomposes(c.decompose(x), c.lambda, ORDER, x) { LimbsDecompose(x); }
    forall p ensures IsImages(c, p) { ImagesAreMultiples(s, p); }
    forall p ensures c.coords(p).Reduced() { CoordinatesReduced(p); }
    forall n ensures c.decode(Encode(c.coords(Mul(c.g, n, c.base)))) == Some(Mul(c.g, n, c.base)) { DecodedBack(Mul(c.g, n, c.base)); }
  }
}
