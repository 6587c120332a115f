/** SchnorrQ: key derivation, signing and verification, from the limb arithmetic and the hash up.
    The curve enters as an abelian group with the facts listed in `Sound`. */
module Schnorr {
  import opened Wrappers
  import opened Words
  import opened Bytes
  import opened Congruence
  import opened AbelianGroup
  import opened Montgomery
  import opened Sponge
  import opened KangarooTwelve
  import Comb
  import DoubleScalar
  import Field1271

  // ----- Between bytes and limbs -----

  lemma WordBound(b: seq<byte>)
    requires |b| == 8
    ensures LittleEndian(b) < TWO64
  {
    LittleEndianBound(b);
    Pow2Values();
  }

  lemma FourWords(w0: seq<byte>, w1: seq<byte>, w2: seq<byte>, w3: seq<byte>)
    requires |w0| == |w1| == |w2| == |w3| == 8
    ensures LittleEndian(w0 + w1 + w2 + w3)
         == Num4(LittleEndian(w0), LittleEndian(w1), LittleEndian(w2), LittleEndian(w3))
  {
    Pow2Values();
    hide LittleEndian, Pow2;
    AppendAt(w0, w1, TWO64);
    AppendAt(w0 + w1, w2, TWO128);
    AppendAt(w0 + w1 + w2, w3, TWO192);
  }

  lemma AppendAt(a: seq<byte>, b: seq<byte>, p: int)
    requires p == Pow2(8 * |a|)
    ensures LittleEndian(a + b) == LittleEndian(a) + p * LittleEndian(b)
  {
    LittleEndianAppend(a, b);
  }

  /** The first 32 bytes as four limbs. */
  method Load(b: seq<byte>) returns (x: array<u64>)
    requires |b| >= 32
    ensures fresh(x) && x.Length == 4 && Value4(x) == LittleEndian(b[..32])
  {
    WordBound(b[..8]);
    WordBound(b[8..16]);
    WordBound(b[16..24]);
    WordBound(b[24..32]);
    FourWords(b[..8], b[8..16], b[16..24], b[24..32]);
    assert b[..8] + b[8..16] + b[16..24] + b[24..32] == b[..32];
    x := new u64[4][LittleEndian(b[..8]), LittleEndian(b[8..16]), LittleEndian(b[16..24]), LittleEndian(b[24..32])];
  }

  /** Four limbs as 32 bytes. */
  method Store(x: array<u64>) returns (b: seq<byte>)
    requires x.Length >= 4
    ensures |b| == 32 && LittleEndian(b) == Value4(x)
  {
    Pow2Values();
    hide LittleEndian, Pow2, ToBytes;
    RoundTripNumber(x[0], 8);
    RoundTripNumber(x[1], 8);
    RoundTripNumber(x[2], 8);
    RoundTripNumber(x[3], 8);
    b := ToBytes(x[0], 8) + ToBytes(x[1], 8) + ToBytes(x[2], 8) + ToBytes(x[3], 8);
    FourWords(ToBytes(x[0], 8), ToBytes(x[1], 8), ToBytes(x[2], 8), ToBytes(x[3], 8));
  }

  // ----- Points -----

  /** Affine coordinates in GF(P^2), fully reduced. */
  datatype Affine = Affine(x0: nat, x1: nat, y0: nat, y1: nat) {
    predicate Reduced() {
      x0 < Field1271.P && x1 < Field1271.P && y0 < Field1271.P && y1 < Field1271.P
    }
  }

  const TWO126 := TWO127 / 2

  /** The y-coordinate, with bit 126 of x (of its second half when the first is 0) as the top bit. */
  function Encode(p: Affine): (b: seq<byte>)
    ensures |b| == 32
  {
    var sign := if p.x0 == 0 then p.x1 / TWO126 % 2 else p.x0 / TWO126 % 2;
    ToBytes(p.y0, 16) + ToBytes(p.y1 + sign * TWO127, 16)
  }

  lemma {:induction false} TopByte(x: nat, n: nat)
    requires n >= 1 && x < Pow2(8 * n - 1)
    ensures ToBytes(x, n)[n - 1] < 128
  {
    if n == 1 {
      assert Pow2(7) == 128;
    } else {
      Pow2Add(8, 8 * n - 9);
      assert Pow2(8) == 256;
      TopByte(x / 256, n - 1);
    }
  }

  /** The first format guard of verify holds of every encoded point. */
  lemma EncodedGuard(p: Affine)
    requires p.Reduced()
    ensures Encode(p)[15] < 0x80
  {
    Pow2Values();
    var k := 127;
    assert 2 * Pow2(k) == Pow2(k + 1);
    TopByte(p.y0, 16);
  }

  // ----- What an encoding says of its point -----

  /** Bit 126 of x, of its second half when the first is 0. */
  function SignBit(p: Affine): bit
    requires p.Reduced()
  {
    if p.x0 == 0 then TopBit(p.x1) else TopBit(p.x0)
  }

  function TopBit(x: nat): bit
    requires x < Field1271.P
  {
    if x < TWO126 then 0 else 1
  }

  lemma TopBitIs(x: nat)
    requires x < Field1271.P
    ensures x / TWO126 % 2 == TopBit(x)
  {
    DivModUnique(x, TopBit(x), if x < TWO126 then x else x - TWO126, TWO126);
  }

  /** The y-coordinate and the sign can be read back. */
  lemma EncodingReadBack(p: Affine)
    requires p.Reduced()
    ensures LittleEndian(Encode(p)[..16]) == p.y0
    ensures LittleEndian(Encode(p)[16..]) % TWO127 == p.y1 && LittleEndian(Encode(p)[16..]) / TWO127 == SignBit(p)
  {
    hide ToBytes, LittleEndian, Pow2;
    EncodingParts(p);
    var sign := SignBit(p);
    var y: nat := p.y1 + sign * TWO127;
    Pow2Values();
    RoundTripNumber(p.y0, 16);
    RoundTripNumber(y, 16);
    DivModUnique(y, sign, p.y1, TWO127);
  }

  lemma EncodingParts(p: Affine)
    requires p.Reduced()
    ensures Encode(p)[..16] == ToBytes(p.y0, 16) && Encode(p)[16..] == ToBytes(p.y1 + SignBit(p) * TWO127, 16)
  {
    hide ToBytes;
    TopBitIs(p.x0);
    TopBitIs(p.x1);
  }

  function Minus(x: nat): (y: nat)
    requires x < Field1271.P
    ensures y < Field1271.P && (x + y) % Field1271.P == 0
  {
    if x == 0 then 0 else Field1271.P - x
  }

  /** The point with both halves of x negated. */
  function Negated(p: Affine): (q: Affine)
    requires p.Reduced()
    ensures q.Reduced()
  {
    Affine(Minus(p.x0), Minus(p.x1), p.y0, p.y1)
  }

  /** A point and its negative have different encodings, unless they are one point. */
  lemma SignTellsNegatives(p: Affine)
    requires p.Reduced()
    ensures Encode(p) == Encode(Negated(p)) <==> p.x0 == 0 && p.x1 == 0
  {
    hide Encode, LittleEndian;
    EncodingReadBack(p);
    EncodingReadBack(Negated(p));
  }

  /** Equal encodings have equal y-coordinates and signs: with x known up to its sign they are of one
      point. */
  lemma EncodingDecides(p: Affine, q: Affine)
    requires p.Reduced() && q.Reduced() && ((q.x0, q.x1) == (p.x0, p.x1) || (q.x0, q.x1) == (Minus(p.x0), Minus(p.x1)))
    ensures Encode(p) == Encode(q) <==> p == q
  {
    hide Encode, LittleEndian;
    EncodingReadBack(p);
    EncodingReadBack(q);
  }

  /** A group with the curve's precomputed data. `images` gives a point and its images under the
      endomorphisms, `decompose` the four sub-scalars of a scalar. */
  datatype Curve<!T> = Curve(g: Group<T>, base: T, combTable: seq<T>, baseTables: seq<seq<T>>, images: T -> seq<T>,
                             decompose: nat -> seq<u64>, lambda: seq<int>, coords: T -> Affine, decode: seq<byte> -> Option<T>)

  /** What is taken on trust about the curve: the group law, the order of the base point, the
      contents of the tables, the endomorphism data, and that decoding undoes encoding. */
  ghost predicate Sound<T(!new)>(c: Curve<T>, s: nat) {
    && Laws(c.g) && Mul(c.g, ORDER, c.base) == c.g.zero
    && Comb.IsCombTable(c.g, c.base, c.combTable, s)
    && |c.lambda| == |c.baseTables|
    && (forall j :: 0 <= j < |c.lambda| ==> |c.baseTables[j]| == 64)
    && (forall j :: 0 <= j < |c.lambda| ==> DoubleScalar.OddMultiples(c.g, c.baseTables[j], Mul(c.g, c.lambda[j], c.base)))
    && (forall x: nat :: x < TWO256 ==> DoubleScalar.Decomposes(c.decompose(x), c.lambda, ORDER, x))
    && (forall p :: |c.images(p)| == |c.lambda|)
    && (forall p :: Mul(c.g, ORDER, p) == c.g.zero ==> IsImages(c, p))
    && (forall p :: c.coords(p).Reduced())
    && (forall n :: c.decode(Encode(c.coords(Mul(c.g, n, c.base)))) == Some(Mul(c.g, n, c.base)))
  }

  ghost predicate IsImages<T>(c: Curve<T>, p: T) {
    && |c.images(p)| == |c.lambda|
    && forall j :: 0 <= j < |c.lambda| ==> c.images(p)[j] == Mul(c.g, c.lambda[j], p)
  }

  // ----- What signing and verification compute -----

  /** A hash, read as a 256-bit scalar. */
  function HashScalar(f: Permutation, m: seq<byte>): nat
    requires |m| < 0x1_0000_0000
  {
    LittleEndian(KT128(f, m, 64)[..32])
  }

  /** What is hashed into the nonce. */
  function NonceInput(secret: seq<byte>, digest: seq<byte>): (m: seq<byte>)
    requires |secret| == |digest| == 32
    ensures |m| == 64
  {
    secret + digest
  }

  /** What is hashed into the challenge. */
  function ChallengeInput(commitment: seq<byte>, publicKey: seq<byte>, digest: seq<byte>): (m: seq<byte>)
    requires |commitment| == |publicKey| == |digest| == 32
    ensures |m| == 96
  {
    commitment + publicKey + digest
  }

  /** Commitment, key and digest all enter the challenge, and each has its own place in it; secret and
      digest enter the nonce. */
  lemma ChallengeTellsApart(r: seq<byte>, a: seq<byte>, d: seq<byte>, r': seq<byte>, a': seq<byte>, d': seq<byte>)
    requires |r| == |a| == |d| == |r'| == |a'| == |d'| == 32
    ensures ChallengeInput(r, a, d) == ChallengeInput(r', a', d') <==> r == r' && a == a' && d == d'
    ensures NonceInput(r, d) == NonceInput(r', d') <==> r == r' && d == d'
  {
    var m, m' := ChallengeInput(r, a, d), ChallengeInput(r', a', d');
    assert m[..32] == r && m[32..64] == a && m[64..] == d && m'[..32] == r' && m'[32..64] == a' && m'[64..] == d';
    var n, n' := NonceInput(r, d), NonceInput(r', d');
    assert n[..32] == r && n[32..] == d && n'[..32] == r' && n'[32..] == d';
  }

  ghost function PublicKey<T>(f: Permutation, c: Curve<T>, subseed: seq<byte>): (b: seq<byte>)
    requires |subseed| == 32
    ensures |b| == 32
  {
    Encode(c.coords(Mul(c.g, LittleEndian(KT128(f, subseed, 32)), c.base)))
  }

  ghost function Commitment<T>(c: Curve<T>, r: nat): (b: seq<byte>)
    ensures |b| == 32
  {
    Encode(c.coords(Mul(c.g, r, c.base)))
  }

  /** The scalar half of a signature: (r - h * k) mod order. */
  function Response(r: nat, h: nat, k: nat): (s: nat)
    ensures s < ORDER
  {
    (r - h * k) % ORDER
  }

  ghost predicate IsSignature<T>(f: Permutation, c: Curve<T>, subseed: seq<byte>, publicKey: seq<byte>, digest: seq<byte>,
                                 signature: seq<byte>)
    requires |subseed| == |publicKey| == |digest| == 32
  {
    var k := KT128(f, subseed, 64);
    var r := HashScalar(f, NonceInput(k[32..], digest));
    var h := HashScalar(f, ChallengeInput(Commitment(c, r), publicKey, digest));
    && |signature| == 64 && signature[..32] == Commitment(c, r)
    && LittleEndian(signature[32..]) == Response(r, h, LittleEndian(k[..32]))
  }

  /** The bases of the precomputed tables. */
  ghost function Bases<T>(c: Curve<T>): (b: seq<T>)
    ensures |b| == |c.lambda|
  {
    seq(|c.lambda|, j requires 0 <= j < |c.lambda| => Mul(c.g, c.lambda[j], c.base))
  }

  /** What the double multiplication computes for any point: the sub-scalars of h on the images of
      the point, and those of s on the fixed bases. */
  ghost function DoubleSum<T>(c: Curve<T>, h: nat, s: nat, a: T): T
    requires |c.decompose(h)| == |c.decompose(s)| == |c.images(a)| == |c.lambda|
  {
    DoubleScalar.Combination(c.g, c.decompose(h) + c.decompose(s), c.images(a) + Bases(c))
  }

  ghost predicate Formatted(publicKey: seq<byte>, signature: seq<byte>)
    requires |publicKey| == 32 && |signature| == 64
  {
    publicKey[15] < 0x80 && signature[15] < 0x80 && signature[62] < 0x40 && signature[63] == 0
  }

  /** The tests of verify: bit 127 of both points clear, s below 2^246, the key decodes to a point A
      of the curve, and the double sum of A encodes to the commitment. */
  ghost predicate Accepts<T(!new)>(f: Permutation, c: Curve<T>, t: nat, publicKey: seq<byte>, digest: seq<byte>, signature: seq<byte>)
    requires Sound(c, t) && |publicKey| == |digest| == 32 && |signature| == 64
  {
    && Formatted(publicKey, signature) && c.decode(publicKey).Some?
    && var h, s, a := HashScalar(f, ChallengeInput(signature[..32], publicKey, digest)), LittleEndian(signature[32..]), c.decode(publicKey).value;
       ScalarsFit(c, t, h, s, f, ChallengeInput(signature[..32], publicKey, digest), signature[32..]);
       Encode(c.coords(DoubleSum(c, h, s, a))) == signature[..32]
  }

  lemma ScalarsFit<T(!new)>(c: Curve<T>, t: nat, h: nat, s: nat, f: Permutation, m: seq<byte>, b: seq<byte>)
    requires Sound(c, t) && |m| < 0x1_0000_0000 && h == HashScalar(f, m) && |b| == 32 && s == LittleEndian(b)
    ensures h < TWO256 && s < TWO256 && |c.decompose(h)| == |c.decompose(s)| == |c.lambda|
  {
    ScalarBound(KT128(f, m, 64)[..32]);
    ScalarBound(b);
    hide LittleEndian, KT128, Mul, Encode, HashScalar, Comb.IsCombTable;
    assert DoubleScalar.Decomposes(c.decompose(h), c.lambda, ORDER, h);
    assert DoubleScalar.Decomposes(c.decompose(s), c.lambda, ORDER, s);
  }

  /** The verification equation: h*A + s*G is the commitment. */
  ghost predicate Satisfies<T>(f: Permutation, c: Curve<T>, publicKey: seq<byte>, digest: seq<byte>, signature: seq<byte>)
    requires |publicKey| == |digest| == 32 && |signature| == 64
  {
    && Formatted(publicKey, signature) && c.decode(publicKey).Some?
    && var h := HashScalar(f, ChallengeInput(signature[..32], publicKey, digest));
       Encode(c.coords(c.g.add(Mul(c.g, h, c.decode(publicKey).value), Mul(c.g, LittleEndian(signature[32..]), c.base))))
         == signature[..32]
  }

  /** On points of the curve order the double sum is h*A + s*G ... */
  lemma DoubleSumInSubgroup<T(!new)>(c: Curve<T>, t: nat, h: nat, s: nat, a: T)
    requires Sound(c, t) && h < TWO256 && s < TWO256 && Mul(c.g, ORDER, a) == c.g.zero
    ensures |c.decompose(h)| == |c.decompose(s)| == |c.images(a)| == |c.lambda|
    ensures DoubleSum(c, h, s, a) == c.g.add(Mul(c.g, h, a), Mul(c.g, s, c.base))
  {
    hide Mul, Comb.IsCombTable, DoubleScalar.OddMultiples, Encode;
    assert IsImages(c, a);
    assert DoubleScalar.Decomposes(c.decompose(h), c.lambda, ORDER, h);
    assert DoubleScalar.Decomposes(c.decompose(s), c.lambda, ORDER, s);
    DoubleScalar.DecomposedSum(c.g, ORDER, c.decompose(h), c.decompose(s), c.lambda, h, s, c.images(a), Bases(c), a, c.base);
  }

  /** ... so a key that decodes into the subgroup is accepted exactly when the equation holds. */
  lemma AcceptsIsEquation<T(!new)>(f: Permutation, c: Curve<T>, t: nat, publicKey: seq<byte>, digest: seq<byte>, signature: seq<byte>)
    requires Sound(c, t) && |publicKey| == |digest| == 32 && |signature| == 64
    requires c.decode(publicKey).Some? ==> Mul(c.g, ORDER, c.decode(publicKey).value) == c.g.zero
    ensures Accepts(f, c, t, publicKey, digest, signature) <==> Satisfies(f, c, publicKey, digest, signature)
  {
    if c.decode(publicKey).Some? {
      var m := ChallengeInput(signature[..32], publicKey, digest);
      ScalarsFit(c, t, HashScalar(f, m), LittleEndian(signature[32..]), f, m, signature[32..]);
      DoubleSumInSubgroup(c, t, HashScalar(f, m), LittleEndian(signature[32..]), c.decode(publicKey).value);
      hide Sound, Mul, DoubleSum, LittleEndian, HashScalar, Encode;
    }
  }

  // ----- Correctness of the scheme -----

  /** h*A + s*G = R when A = k*G and s = r - h*k modulo the order. */
  lemma SchnorrEquation<T(!new)>(g: Group<T>, base: T, r: int, h: int, k: int, s: int)
    requires Laws(g) && Mul(g, ORDER, base) == g.zero && s == (r - h * k) % ORDER
    ensures g.add(Mul(g, h, Mul(g, k, base)), Mul(g, s, base)) == Mul(g, r, base)
  {
    hide Mul;
    MulMul(g, h, k, base);
    MulAdd(g, h * k, s, base);
    ResponseSum(r, h * k, s);
    MulCongruent(g, ORDER, h * k + s, r, base);
  }

  lemma ResponseSum(r: int, x: int, s: int)
    requires s == (r - x) % ORDER
    ensures Congruent(ORDER, x + s, r)
  {
    CongMod(ORDER, r - x);
    CongRefl(ORDER, x);
    CongAdd(ORDER, x, x, s, r - x);
  }

  /** A scalar below the order meets the guards on the last two bytes. */
  lemma {:induction false} ResponseGuard(b: seq<byte>)
    requires |b| == 32 && LittleEndian(b) < ORDER
    ensures b[30] < 0x40 && b[31] == 0
  {
    var low, high := b[..30], b[30..];
    assert b == low + high;
    LittleEndianAppend(low, high);
    var h: nat := LittleEndian(high);
    assert h == high[0] + 256 * (high[1] + 256 * LittleEndian(high[2..]));
    GuardArithmetic(LittleEndian(low), h, Pow2(8 * |low|));
  }

  lemma GuardArithmetic(low: nat, high: nat, p: nat)
    requires p == Pow2(240) && low + p * high < ORDER
    ensures high < 0x40
  {
    Pow2Values();
    var n := 240;
    Pow2Add(n, 16);
    assert high >= 0x40 ==> p * high >= p * 0x40;
  }

  /** Every signature made with a derived key is accepted. */
  lemma SignatureAccepted<T(!new)>(f: Permutation, c: Curve<T>, s: nat, subseed: seq<byte>, digest: seq<byte>, signature: seq<byte>)
    requires Sound(c, s) && |subseed| == |digest| == 32
    requires IsSignature(f, c, subseed, PublicKey(f, c, subseed), digest, signature)
    ensures Satisfies(f, c, PublicKey(f, c, subseed), digest, signature) && Accepts(f, c, s, PublicKey(f, c, subseed), digest, signature)
  {
    EquationHolds(f, c, s, subseed, digest, signature);
    hide LittleEndian, KT128, Encode, Mul, Comb.IsCombTable, Accepts, Satisfies;
    var n := LittleEndian(KT128(f, subseed, 32));
    assert c.decode(Encode(c.coords(Mul(c.g, n, c.base)))) == Some(Mul(c.g, n, c.base));
    OrderOfMultiple(c.g, c.base, n);
    AcceptsIsEquation(f, c, s, PublicKey(f, c, subseed), digest, signature);
  }

  lemma EquationHolds<T(!new)>(f: Permutation, c: Curve<T>, s: nat, subseed: seq<byte>, digest: seq<byte>, signature: seq<byte>)
    requires Sound(c, s) && |subseed| == |digest| == 32
    requires IsSignature(f, c, subseed, PublicKey(f, c, subseed), digest, signature)
    ensures Satisfies(f, c, PublicKey(f, c, subseed), digest, signature)
  {
    hide LittleEndian, KT128, Encode, Mul, Comb.IsCombTable;
    var pk := PublicKey(f, c, subseed);
    var kb := KT128(f, subseed, 64);
    OutputPrefix(f, subseed, 32, 64);
    var k := LittleEndian(kb[..32]);
    var r := HashScalar(f, NonceInput(kb[32..], digest));
    var h := HashScalar(f, ChallengeInput(Commitment(c, r), pk, digest));
    EncodedGuard(c.coords(Mul(c.g, k, c.base)));
    EncodedGuard(c.coords(Mul(c.g, r, c.base)));
    ResponseGuard(signature[32..]);
    assert signature[15] == signature[..32][15];
    assert signature[62] == signature[32..][30] && signature[63] == signature[32..][31];
    SchnorrEquation(c.g, c.base, r, h, k, LittleEndian(signature[32..]));
  }

  // ----- The code -----

  method Multiple<T(!new)>(c: Curve<T>, scalar: seq<byte>, ghost s: nat) returns (b: seq<byte>)
    requires Sound(c, s) && s == Comb.COLUMNS && |scalar| >= 32
    ensures b == Encode(c.coords(Mul(c.g, LittleEndian(scalar[..32]), c.base)))
  {
    hide LittleEndian, Encode, Mul, Comb.IsCombTable;
    var k := Load(scalar);
    var p := Comb.EccMulFixed(c.g, c.combTable, k, c.base, s);
    b := Encode(c.coords(p));
  }

  /** getPrivateKeyFromSubSeed followed by getPublicKeyFromPrivateKey. */
  method DerivePublicKey<T(!new)>(f: Permutation, c: Curve<T>, subseed: seq<byte>, ghost s: nat) returns (publicKey: seq<byte>)
    requires Sound(c, s) && s == Comb.COLUMNS && |subseed| == 32
    ensures publicKey == PublicKey(f, c, subseed)
  {
    var privateKey := Hash(f, subseed, 32);
    hide LittleEndian, Encode, KT128, Mul, Comb.IsCombTable;
    publicKey := Multiple(c, privateKey, s);
    assert privateKey[..32] == privateKey;
  }

  /** Both factors enter Montgomery form with radix r, their product leaves it. */
  lemma ProductInMontgomery(m: int, r: int, inv: int, k: int, h: int, x: int, y: int, z: int, w: int)
    requires Congruent(m, r * inv, 1)
    requires Congruent(m, x, k * r) && Congruent(m, y, h * r)
    requires Congruent(m, z * r, x * y) && Congruent(m, w * r, z * 1)
    ensures Congruent(m, w, h * k)
  {
    CongMul(m, x, k * r, y, h * r);
    Regroup(k, h, r);
    CongTrans(m, z * r, x * y, h * k * r * r);
    CongCancel(m, r, inv, z, h * k * r);
    CongTrans(m, w * r, z, h * k * r);
    CongCancel(m, r, inv, w, h * k);
  }

  lemma Regroup(k: int, h: int, r: int)
    ensures k * r * (h * r) == h * k * r * r
  {
    assert k * r * (h * r) == (k * h) * (r * r);
  }

  /** t = h * k mod order, through Montgomery form. */
  method MultiplyModOrder(h: array<u64>, k: array<u64>) returns (t: array<u64>)
    requires h.Length == 4 && k.Length == 4 && Value4(h) < ORDER && h != k
    modifies h
    ensures fresh(t) && t.Length == 4 && Value4(t) == old(Value4(h)) * old(Value4(k)) % ORDER
  {
    ghost var hv, kv := Value4(h), Value4(k);
    var rsquare, one := MontgomeryConstants();
    t := new u64[4];
    FitsMontgomery(kv, RSQUARE);
    MontgomeryMultiply(k, rsquare, t);
    ghost var x := Value4(t);
    EnterMontgomery(kv, x);
    FitsMontgomery(hv, RSQUARE);
    MontgomeryMultiply(h, rsquare, h);
    ghost var y := Value4(h);
    EnterMontgomery(hv, y);
    FitsMontgomery(x, y);
    MontgomeryMultiply(t, h, t);
    ghost var z := Value4(t);
    MontgomeryMultiply(t, one, t);
    InverseOfTwo256();
    ProductInMontgomery(ORDER, TWO256, TWO256_INVERSE, kv, hv, x, y, z, Value4(t));
    SameResidue(Value4(t), hv * kv);
  }

  lemma SameResidue(w: int, v: int)
    requires 0 <= w < ORDER && Congruent(ORDER, w, v)
    ensures w == v % ORDER
  {
    CongMod(ORDER, v);
    CongSym(ORDER, v % ORDER, v);
    CongTrans(ORDER, w, v, v % ORDER);
    CongUnique(ORDER, w, v % ORDER);
  }

  /** t becomes (r - t) mod order. */
  method SubtractModOrder(r: array<u64>, t: array<u64>)
    requires r.Length == 4 && t.Length == 4 && Value4(r) < ORDER && Value4(t) < ORDER && r != t
    modifies t
    ensures Value4(t) == (Value4(r) - old(Value4(t))) % ORDER
  {
    ghost var d := Value4(r) - Value4(t);
    var b, m0, m1, m2, m3 := Sub4(r[0], r[1], r[2], r[3], t[0], t[1], t[2], t[3]);
    assert Num4(m0, m1, m2, m3) == d + TWO256 * b && (b == 1 <==> d < 0);
    if b != 0 {
      var k;
      k, m0, m1, m2, m3 := Add4(0, m0, m1, m2, m3, ORDER_0, ORDER_1, ORDER_2, ORDER_3);
      assert Num4(m0, m1, m2, m3) + TWO256 * k == d + TWO256 + ORDER;
    }
    t[0], t[1], t[2], t[3] := m0, m1, m2, m3;
    CongMultiple(ORDER, Value4(t), if d < 0 then 1 else 0, d);
    SameResidue(Value4(t), d);
  }

  lemma ResponseFrom(r: nat, h: nat, k: nat)
    ensures (r % ORDER - (h % ORDER) * k % ORDER) % ORDER == Response(r, h, k)
  {
    var x, y := r % ORDER, (h % ORDER) * k % ORDER;
    CongMod(ORDER, r);
    CongMod(ORDER, h);
    CongRefl(ORDER, k);
    CongMul(ORDER, h % ORDER, h, k, k);
    CongMod(ORDER, (h % ORDER) * k);
    CongTrans(ORDER, y, (h % ORDER) * k, h * k);
    CongAdd(ORDER, x, r, y, h * k);
    CongMod(ORDER, x - y);
    CongTrans(ORDER, (x - y) % ORDER, x - y, r - h * k);
    SameResidue((x - y) % ORDER, r - h * k);
  }

  /** The scalar half of the signature from the three hashes, by limb arithmetic. */
  method Respond(rBytes: seq<byte>, hBytes: seq<byte>, kBytes: seq<byte>) returns (b: seq<byte>)
    requires |rBytes| >= 32 && |hBytes| >= 32 && |kBytes| >= 32
    ensures |b| == 32
    ensures LittleEndian(b) == Response(LittleEndian(rBytes[..32]), LittleEndian(hBytes[..32]), LittleEndian(kBytes[..32]))
  {
    hide LittleEndian;
    var r := Load(rBytes);
    var h := Load(hBytes);
    var k := Load(kBytes);
    ghost var rv, hv, kv := Value4(r), Value4(h), Value4(k);
    ReduceModOrder(r, r);
    ReduceModOrder(h, h);
    var t := MultiplyModOrder(h, k);
    SubtractModOrder(r, t);
    ResponseFrom(rv, hv, kv);
    b := Store(t);
  }

  /** sign: the nonce and the key scalar are the two halves of one hash of the subseed. */
  method Sign<T(!new)>(f: Permutation, c: Curve<T>, subseed: seq<byte>, publicKey: seq<byte>, digest: seq<byte>, ghost s: nat)
    returns (signature: seq<byte>)
    requires Sound(c, s) && s == Comb.COLUMNS && |subseed| == |publicKey| == |digest| == 32
    ensures IsSignature(f, c, subseed, publicKey, digest, signature)
  {
    var k := Hash(f, subseed, 64);
    var r := Hash(f, k[32..] + digest, 64);
    hide LittleEndian, Encode, KT128, Mul, Comb.IsCombTable, Response;
    var commitment := Multiple(c, r, s);
    var h := Hash(f, commitment + publicKey + digest, 64);
    var response := Respond(r, h, k);
    signature := commitment + response;
    assert signature[..32] == commitment && signature[32..] == response;
  }

  /** The double scalar multiplication of verify, with the decomposed scalars and the point's images. */
  method DoubleMultiple<T(!new)>(c: Curve<T>, k: nat, l: nat, a: T, ghost s: nat) returns (q: T)
    requires Sound(c, s) && k < TWO256 && l < TWO256
    ensures |c.decompose(l)| == |c.decompose(k)| == |c.images(a)| == |c.lambda| && q == DoubleSum(c, l, k, a)
  {
    hide Mul, Comb.IsCombTable, DoubleScalar.OddMultiples, Encode;
    assert DoubleScalar.Decomposes(c.decompose(l), c.lambda, ORDER, l);
    assert DoubleScalar.Decomposes(c.decompose(k), c.lambda, ORDER, k);
    q := DoubleScalar.EccMulDouble(c.g, c.decompose(l), c.decompose(k), c.images(a), c.baseTables, Bases(c));
  }

  lemma OrderOfMultiple<T(!new)>(g: Group<T>, base: T, n: int)
    requires Laws(g) && Mul(g, ORDER, base) == g.zero
    ensures Mul(g, ORDER, Mul(g, n, base)) == g.zero
  {
    MulMul(g, ORDER, n, base);
    MulMul(g, n, ORDER, base);
    MulZero(g, n);
  }

  lemma ScalarBound(b: seq<byte>)
    requires |b| == 32
    ensures LittleEndian(b) < TWO256
  {
    LittleEndianBound(b);
    Pow2Values();
  }

  /** verify, for every key, digest and signature. */
  method Verify<T(!new)>(f: Permutation, c: Curve<T>, publicKey: seq<byte>, digest: seq<byte>, signature: seq<byte>,
                         ghost s: nat) returns (ok: bool)
    requires Sound(c, s) && |publicKey| == |digest| == 32 && |signature| == 64
    ensures ok == Accepts(f, c, s, publicKey, digest, signature)
  {
    if publicKey[15] >= 0x80 || signature[15] >= 0x80 || signature[62] >= 0x40 || signature[63] != 0 {
      return false;
    }
    var a := c.decode(publicKey);
    if a.None? {
      return false;
    }
    var h := Hash(f, signature[..32] + publicKey + digest, 64);
    hide LittleEndian, Encode, KT128, Mul, Comb.IsCombTable, DoubleSum;
    ScalarBound(signature[32..]);
    ScalarBound(h[..32]);
    var q := DoubleMultiple(c, LittleEndian(signature[32..]), LittleEndian(h[..32]), a.value, s);
    ok := Encode(c.coords(q)) == signature[..32];
  }

  /** Derive a key, sign with it, verify: always accepted. */
  method SignThenVerify<T(!new)>(f: Permutation, c: Curve<T>, subseed: seq<byte>, digest: seq<byte>, ghost s: nat) returns (ok: bool)
    requires Sound(c, s) && s == Comb.COLUMNS && |subseed| == |digest| == 32
    ensures ok
  {
    var publicKey := DerivePublicKey(f, c, subseed, s);
    var signature := Sign(f, c, subseed, publicKey, digest, s);
    SignatureAccepted(f, c, s, subseed, digest, signature);
    ok := Verify(f, c, publicKey, digest, signature, s);
  }
}
