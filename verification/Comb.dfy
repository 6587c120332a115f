/** Fixed-base scalar multiplication: the signed comb recoding of a scalar into five rows of
    fifty digits, and the double-and-lookup schedule over a table of comb multiples. */
module Comb {
  import opened Words
  import opened Congruence
  import opened Montgomery
  import opened AbelianGroup

  /** The shape of the comb. A lemma at one of these sizes takes it as a parameter with the value
      in its requires, so that the recursive sums below are not unrolled fifty times. */
  const COLUMNS := 50
  const ROWS := 5
  const BLOCKS := 5
  const ORDER_BITS := 246

  // ----- Sums weighted by powers of two -----

  /** f(a) + 2 f(a+1) + ... + 2^(n-1) f(a+n-1) */
  ghost function WSum(f: int -> int, a: int, n: nat): int {
    if n == 0 then 0 else WSum(f, a, n - 1) + Pow2(n - 1) * f(a + n - 1)
  }

  lemma {:induction false} WSumSplit(f: int -> int, m: nat, n: nat)
    ensures WSum(f, 0, m + n) == WSum(f, 0, m) + Pow2(m) * WSum(f, m, n)
  {
    if n > 0 {
      WSumSplit(f, m, n - 1);
      Pow2Add(m, n - 1);
      SplitStep(Pow2(m), Pow2(n - 1), f(m + n - 1), WSum(f, m, n - 1));
    }
  }

  lemma SplitStep(p: int, q: int, x: int, w: int)
    ensures p * w + (p * q) * x == p * (w + q * x)
  {
    assert p * (w + q * x) == p * w + p * (q * x);
    assert (p * q) * x == p * (q * x);
  }

  lemma {:induction false} WSumCombine(h: int -> int, f: int -> int, c: int, g: int -> int, a: int, n: nat)
    requires forall i :: 0 <= i < n ==> h(i) == f(i) + c * g(a + i)
    ensures WSum(h, 0, n) == WSum(f, 0, n) + c * WSum(g, a, n)
  {
    if n > 0 {
      WSumCombine(h, f, c, g, a, n - 1);
      var p, x, y := Pow2(n - 1), f(n - 1), g(a + n - 1);
      assert h(n - 1) == x + c * y;
      SplitStep(c, p, y, WSum(g, a, n - 1));
      CombineStep(p, x, c, y);
    }
  }

  lemma CombineStep(p: int, x: int, c: int, y: int)
    ensures p * (x + c * y) == p * x + (c * p) * y
  {
    assert p * (c * y) == (c * p) * y;
  }

  /** k entries of f, s apart, folded into one: f(e) + 2^s f(s+e) + ... + 2^((k-1)s) f((k-1)s+e). */
  ghost function FoldAt(f: int -> int, s: nat, k: nat, e: int): int {
    if k == 0 then 0
    else FoldAt(f, s, k - 1, e) + Pow2((k - 1) * s) * f((k - 1) * s + e)
  }

  ghost function Fold(f: int -> int, s: nat, k: nat): int -> int {
    e => FoldAt(f, s, k, e)
  }

  /** A sum over k stretches of length s is one sum of folded entries. */
  lemma {:induction false} FoldSum(f: int -> int, s: nat, k: nat)
    ensures k * s >= 0 && WSum(f, 0, k * s) == WSum(Fold(f, s, k), 0, s)
  {
    if k == 0 {
      WSumNothing(Fold(f, s, 0), s);
    } else {
      FoldSum(f, s, k - 1);
      var a := (k - 1) * s;
      assert a + s == k * s;
      WSumSplit(f, a, s);
      FoldEntries(f, s, k, a);
      hide Fold, WSum, Pow2;
      WSumCombine(Fold(f, s, k), Fold(f, s, k - 1), Pow2(a), f, a, s);
    }
  }

  lemma FoldEntries(f: int -> int, s: nat, k: nat, a: int)
    requires k > 0 && a == (k - 1) * s && a >= 0
    ensures forall i :: 0 <= i < s ==> Fold(f, s, k)(i) == Fold(f, s, k - 1)(i) + Pow2(a) * f(a + i)
  {
  }

  lemma {:induction false} WSumNothing(f: int -> int, n: nat)
    requires forall i :: f(i) == 0
    ensures WSum(f, 0, n) == 0
  {
    if n > 0 { WSumNothing(f, n - 1); }
  }

  lemma {:induction false} WSumSame(f: int -> int, g: int -> int, n: nat)
    requires forall i :: 0 <= i < n ==> f(i) == g(i)
    ensures WSum(f, 0, n) == WSum(g, 0, n)
  {
    if n > 0 { WSumSame(f, g, n - 1); }
  }

  // ----- The recoding as a function of the odd scalar -----

  const TWO32 := 0x1_0000_0000
  type u32 = x: int | 0 <= x < TWO32

  /** The scalar after the first shift and i more. */
  ghost function Half(v: nat, i: nat): nat {
    if i == 0 then v / 2 else Half(v, i - 1) / 2
  }

  /** The sign row: column m is negative when the bit above bit m of v is clear; column 49 never is. */
  ghost predicate Negative(v: nat, m: nat) {
    m != 49 && Half(v, m) % 2 == 0
  }

  ghost function Sign(v: nat, m: nat): int {
    if Negative(v, m) then -1 else 1
  }

  /** What is left of the scalar once the sign row and t bits have been taken. */
  ghost function Rest(v: nat, t: nat): nat {
    if t == 0 then Half(v, 49)
    else Rest(v, t - 1) / 2 + if Negative(v, (t - 1) % 50) && Rest(v, t - 1) % 2 == 1 then 1 else 0
  }

  /** Digit j as it is stored: 0 or 0xFFFFFFFF in the sign row, a bit in the other four rows. */
  ghost function Digit(v: nat, j: nat): u32 {
    if j >= 50 then Rest(v, j - 50) % 2 else if Negative(v, j) then TWO32 - 1 else 0
  }

  /** The coefficient of 2^j. */
  ghost function CoefAt(v: nat, j: int): int {
    if j < 0 then 0 else if j < 50 then Sign(v, j) else Sign(v, j % 50) * (Rest(v, j - 50) % 2)
  }

  ghost function Coef(v: nat): int -> int {
    j => CoefAt(v, j)
  }

  lemma NextTerm(f: int -> int, n: nat)
    ensures WSum(f, 0, n + 1) == WSum(f, 0, n) + Pow2(n) * f(n)
  {
  }

  lemma SignStep(w: int, p: int, s: int, b: int, s': int)
    requires s == 2 * s' + b
    ensures w + p * (2 * s + 1) == (w + p * (2 * b - 1)) + 2 * p * (2 * s' + 1)
  {
    assert p * (2 * s + 1) == p * ((2 * b - 1) + 2 * (2 * s' + 1));
  }

  lemma DigitStep(w: int, p: int, q: int, c: int, q': int)
    requires q == c + 2 * q'
    ensures w + p * q == (w + p * c) + 2 * p * q'
  {
    assert p * (c + 2 * q') == p * c + 2 * p * q';
  }

  lemma {:induction false} SignsSum(v: nat, i: nat)
    requires v % 2 == 1 && i <= 49
    ensures v == WSum(Coef(v), 0, i) + Pow2(i) * (2 * Half(v, i) + 1)
  {
    if i > 0 {
      SignsSum(v, i - 1);
      NextTerm(Coef(v), i - 1);
      SignStep(WSum(Coef(v), 0, i - 1), Pow2(i - 1), Half(v, i - 1), Half(v, i - 1) % 2, Half(v, i));
    }
  }

  lemma SignRowSum(v: nat, n: nat)
    requires v % 2 == 1 && n <= 49 && Coef(v)(n) == 1 && Rest(v, 0) == Half(v, n)
    ensures v == WSum(Coef(v), 0, n + 1) + Pow2(n + 1) * Rest(v, 0)
  {
    SignsSum(v, n);
    NextTerm(Coef(v), n);
    DigitStep(WSum(Coef(v), 0, n), Pow2(n), 2 * Half(v, n) + 1, 1, Half(v, n));
  }

  /** A digit times its column's sign, taken from the rest, leaves twice the new rest. */
  lemma RestStep(v: nat, t: nat)
    ensures Rest(v, t) == Coef(v)(t + 50) + 2 * Rest(v, t + 1)
  {
  }

  /** The digits taken so far and the rest make up v, at every step. */
  lemma {:induction false} DigitsSum(v: nat, t: nat)
    requires v % 2 == 1
    ensures v == WSum(Coef(v), 0, t + 50) + Pow2(t + 50) * Rest(v, t)
  {
    if t == 0 {
      SignRowSum(v, 49);
    } else {
      DigitsSum(v, t - 1);
      RestStep(v, t - 1);
      NextTerm(Coef(v), t + 49);
      DigitStep(WSum(Coef(v), 0, t + 49), Pow2(t + 49), Rest(v, t - 1), Coef(v)(t + 49), Rest(v, t));
    }
  }

  lemma {:induction false} HalfBound(v: nat, i: nat, bits: nat)
    requires v < Pow2(bits) && i < bits
    ensures Half(v, i) < Pow2(bits - 1 - i)
  {
    if i > 0 { HalfBound(v, i - 1, bits); }
  }

  /** The rest shrinks to at most one ... */
  lemma {:induction false} RestBound(v: nat, t: nat, bits: nat)
    requires v < Pow2(bits + 50)
    ensures t <= bits ==> Rest(v, t) <= Pow2(bits - t)
    ensures t >= bits ==> Rest(v, t) <= 1
  {
    if t == 0 {
      HalfBound(v, 49, bits + 50);
    } else {
      RestBound(v, t - 1, bits);
    }
  }

  /** ... and the positive sign of column 49 clears it. */
  lemma RestVanishes(v: nat, t: nat)
    requires v < 2 * ORDER && t == (ROWS - 1) * COLUMNS
    ensures Rest(v, t) == 0
  {
    var bits := 197;
    OrderBits(bits + 50);
    RestBound(v, t - 1, bits);
    assert !Negative(v, (t - 1) % 50);
  }

  lemma OrderBits(bits: nat)
    requires bits == ORDER_BITS + 1
    ensures 2 * ORDER <= Pow2(bits)
  {
    Pow2Values();
    assert Pow2(bits + 9) == 256 * Pow2(bits + 1);
  }

  /** All 250 digits of an odd v below twice the order. */
  lemma AllDigits(v: nat, n: nat)
    requires v % 2 == 1 && v < 2 * ORDER && n == ROWS * COLUMNS
    ensures v == WSum(Coef(v), 0, n)
  {
    RestVanishes(v, n - 50);
    NothingLeft(v, n);
  }

  lemma NothingLeft(v: nat, n: nat)
    requires v % 2 == 1 && n >= 50 && Rest(v, n - 50) == 0
    ensures v == WSum(Coef(v), 0, n)
  {
    var t := n - 50;
    DigitsSum(v, t);
    assert Pow2(t + 50) * Rest(v, t) == 0;
  }

  // ----- The recoding loop -----

  method Halve(x: array<u64>)
    requires x.Length == 4
    modifies x
    ensures old(Value4(x)) == 2 * Value4(x) + old(x[0]) % 2
  {
    var b1, b2, b3 := x[1] % 2, x[2] % 2, x[3] % 2;
    x[0], x[1], x[2], x[3] := x[0] / 2 + b1 * TWO63, x[1] / 2 + b2 * TWO63, x[2] / 2 + b3 * TWO63, x[3] / 2;
  }

  /** One limb of the increment; the carry is found by testing the sum for zero. */
  method AddBitToLimb(x: u64, c: bit) returns (y: u64, carry: bit)
    ensures y + TWO64 * carry == x + c
  {
    y := (x + c) % TWO64;
    carry := if y != 0 then 0 else c;
  }

  method AddBit(x: array<u64>, temp: bit)
    requires x.Length == 4 && Value4(x) < TWO256 - 1
    modifies x
    ensures Value4(x) == old(Value4(x)) + temp
  {
    ghost var v := Value4(x);
    var y0, c0 := AddBitToLimb(x[0], temp);
    var y1, c1 := AddBitToLimb(x[1], c0);
    var y2, c2 := AddBitToLimb(x[2], c1);
    var y3, c3 := AddBitToLimb(x[3], c2);
    x[0], x[1], x[2], x[3] := y0, y1, y2, y3;
    assert Num4(y0, y1, y2, y3) + TWO256 * c3 == v + temp;
  }

  ghost predicate Written(digits: array<u32>, v: nat, i: nat)
    requires i <= digits.Length
    reads digits
  {
    forall j :: 0 <= j < i ==> digits[j] == Digit(v, j)
  }

  lemma LowBit(x0: int, x1: int, x2: int, x3: int)
    ensures Num4(x0, x1, x2, x3) % 2 == x0 % 2
  {
    assert Num4(x0, x1, x2, x3) == x0 + 2 * (TWO63 * x1 + TWO63 * TWO64 * x2 + TWO63 * TWO128 * x3);
  }

  /** Take the lowest bit off the scalar. */
  method TakeBit(scalar: array<u64>) returns (b: bit)
    requires scalar.Length == 4
    modifies scalar
    ensures b == old(Value4(scalar)) % 2 && Value4(scalar) == old(Value4(scalar)) / 2
  {
    LowBit(scalar[0], scalar[1], scalar[2], scalar[3]);
    b := scalar[0] % 2;
    Halve(scalar);
  }

  method RecodeSigns(scalar: array<u64>, digits: array<u32>, ghost v: nat)
    requires scalar.Length == 4 && digits.Length == 250 && Value4(scalar) == Half(v, 0)
    modifies scalar, digits
    ensures Value4(scalar) == Half(v, 49) && Written(digits, v, 50)
  {
    for i := 0 to 49
      invariant Value4(scalar) == Half(v, i) && Written(digits, v, i)
    {
      var b := TakeBit(scalar);
      digits[i] := (b - 1) % TWO32;
    }
    digits[49] := 0;
  }

  lemma BitStep(v: nat, i: nat, negative: int)
    requires i >= 50 && negative == (0 - Digit(v, i % 50)) % TWO32
    ensures Rest(v, i - 49) == Rest(v, i - 50) / 2 + (if negative % 2 == 1 && Rest(v, i - 50) % 2 == 1 then 1 else 0)
  {
    assert (i - 50) % 50 == i % 50;
    assert negative == if Negative(v, i % 50) then 1 else 0;
  }

  method RecodeBit(i: nat, scalar: array<u64>, digits: array<u32>, ghost v: nat)
    requires scalar.Length == 4 && 50 <= i < digits.Length && Value4(scalar) == Rest(v, i - 50) && Written(digits, v, i)
    modifies scalar, digits
    ensures Value4(scalar) == Rest(v, i - 49) && Written(digits, v, i + 1)
  {
    var b := TakeBit(scalar);
    digits[i] := b;
    var column := i - i / 50 * 50;
    assert column == i % 50;
    var negative := (0 - digits[column]) % TWO32;
    BitStep(v, i, negative);
    AddBit(scalar, if negative % 2 == 1 && b == 1 then 1 else 0);
  }

  method Recode(scalar: array<u64>, digits: array<u32>, ghost v: nat)
    requires scalar.Length == 4 && digits.Length == 250 && Value4(scalar) == v
    modifies scalar, digits
    ensures Written(digits, v, digits.Length) && Value4(scalar) == Rest(v, 200)
  {
    Halve(scalar);
    RecodeSigns(scalar, digits, v);
    for i := 50 to 250
      invariant Value4(scalar) == Rest(v, i - 50) && Written(digits, v, i)
    {
      RecodeBit(i, scalar, digits, v);
    }
  }

  // ----- The comb form, over s = 50 columns -----

  /** The multiple of the base point selected by the four bits of a column. */
  ghost function Multiplier(s: nat, b1: int, b2: int, b3: int, b4: int): int {
    1 + b1 * Pow2(s) + b2 * Pow2(2 * s) + b3 * Pow2(3 * s) + b4 * Pow2(4 * s)
  }

  /** Column m of the comb: its sign times 1 + the sum of digits[m + t*s] * 2^(t*s). */
  ghost function ColumnAt(v: nat, s: nat, m: int): int {
    if m < 0 then 0
    else Sign(v, m) * Multiplier(s, Digit(v, s + m), Digit(v, 2 * s + m), Digit(v, 3 * s + m), Digit(v, 4 * s + m))
  }

  ghost function Column(v: nat, s: nat): int -> int {
    m => ColumnAt(v, s, m)
  }

  lemma CoefInRow(v: nat, t: nat, m: nat)
    requires 1 <= t && m < 50
    ensures Coef(v)(t * 50 + m) == Sign(v, m) * Digit(v, t * 50 + m)
  {
    assert (t * 50 + m) % 50 == m;
  }

  lemma ColumnIsFold(v: nat, m: nat, s: nat)
    requires m < 50 && s == COLUMNS
    ensures FoldAt(Coef(v), s, 5, m) == ColumnAt(v, s, m)
  {
    CoefInRow(v, 1, m);
    CoefInRow(v, 2, m);
    CoefInRow(v, 3, m);
    CoefInRow(v, 4, m);
    FoldColumn(Coef(v), s, m, Sign(v, m), Digit(v, s + m), Digit(v, 2 * s + m), Digit(v, 3 * s + m), Digit(v, 4 * s + m));
  }

  lemma FoldColumn(f: int -> int, s: nat, m: nat, t: int, d1: int, d2: int, d3: int, d4: int)
    requires t == 1 || t == -1
    requires f(m) == t && f(s + m) == t * d1 && f(2 * s + m) == t * d2 && f(3 * s + m) == t * d3 && f(4 * s + m) == t * d4
    ensures FoldAt(f, s, 5, m) == t * Multiplier(s, d1, d2, d3, d4)
  {
    FoldFive(f, s, m);
    SignFactor(t, Pow2(s), d1, Pow2(2 * s), d2, Pow2(3 * s), d3, Pow2(4 * s), d4);
  }

  lemma FoldFive(f: int -> int, s: nat, m: int)
    ensures FoldAt(f, s, 5, m) == 1 * f(m) + Pow2(s) * f(s + m) + Pow2(2 * s) * f(2 * s + m)
                                + Pow2(3 * s) * f(3 * s + m) + Pow2(4 * s) * f(4 * s + m)
  {
    var k := 5;
    assert FoldAt(f, s, k - 4, m) == FoldAt(f, s, k - 5, m) + Pow2(0 * s) * f(0 * s + m);
    assert FoldAt(f, s, k - 3, m) == FoldAt(f, s, k - 4, m) + Pow2(1 * s) * f(1 * s + m);
    assert FoldAt(f, s, k - 2, m) == FoldAt(f, s, k - 3, m) + Pow2(2 * s) * f(2 * s + m);
    assert FoldAt(f, s, k - 1, m) == FoldAt(f, s, k - 2, m) + Pow2(3 * s) * f(3 * s + m);
  }

  lemma SignFactor(t: int, p1: int, d1: int, p2: int, d2: int, p3: int, d3: int, p4: int, d4: int)
    requires t == 1 || t == -1
    ensures 1 * t + p1 * (t * d1) + p2 * (t * d2) + p3 * (t * d3) + p4 * (t * d4)
         == t * (1 + d1 * p1 + d2 * p2 + d3 * p3 + d4 * p4)
  {
  }

  lemma FoldedColumns(v: nat, s: nat)
    requires s == COLUMNS
    ensures WSum(Fold(Coef(v), s, 5), 0, s) == WSum(Column(v, s), 0, s)
  {
    forall m | 0 <= m < s
      ensures Fold(Coef(v), s, 5)(m) == Column(v, s)(m)
    {
      ColumnIsFold(v, m, s);
    }
    WSumSame(Fold(Coef(v), s, 5), Column(v, s), s);
  }

  /** The comb recoding: an odd scalar below twice the order is the sum over its columns. */
  lemma CombRecoding(v: nat, s: nat)
    requires v % 2 == 1 && v < 2 * ORDER && s == COLUMNS
    ensures v == WSum(Column(v, s), 0, s)
  {
    AllDigits(v, 5 * s);
    FoldSum(Coef(v), s, 5);
    FoldedColumns(v, s);
  }

  // ----- The double-and-lookup schedule -----

  lemma {:induction false} WSumHorner(f: int -> int, e: int, n: nat)
    ensures WSum(f, e, n + 1) == f(e) + 2 * WSum(f, e + 1, n)
  {
    if n > 0 {
      WSumHorner(f, e, n - 1);
    }
  }

  /** Entry 16b + u of the fixed-base table: 2^(10b) times the multiplier of the bits of u. */
  ghost function EntryScalar(s: nat, b: nat, u: nat): int {
    Pow2(b * 10) * Multiplier(s, u % 2, u / 2 % 2, u / 4 % 2, u / 8)
  }

  ghost predicate IsCombTable<T>(g: Group<T>, base: T, table: seq<T>, s: nat) {
    && |table| == 80
    && forall b: nat, u: nat {:trigger EntryScalar(s, b, u)} :: b < 5 && u < 16 ==> table[16 * b + u] == Mul(g, EntryScalar(s, b, u), base)
  }

  lemma WindowBits(d1: int, d2: int, d3: int, d4: int, u: int)
    requires 0 <= d1 <= 1 && 0 <= d2 <= 1 && 0 <= d3 <= 1 && 0 <= d4 <= 1
    requires u == ((d4 * 2 + d3) * 2 + d2) * 2 + d1
    ensures 0 <= u < 16 && u % 2 == d1 && u / 2 % 2 == d2 && u / 4 % 2 == d3 && u / 8 == d4
  {
  }

  lemma EntryOfWindow(s: nat, b: nat, d1: int, d2: int, d3: int, d4: int, u: nat)
    requires 0 <= d1 <= 1 && 0 <= d2 <= 1 && 0 <= d3 <= 1 && 0 <= d4 <= 1
    requires u == ((d4 * 2 + d3) * 2 + d2) * 2 + d1
    ensures u < 16 && EntryScalar(s, b, u) == Pow2(b * 10) * (1 * Multiplier(s, d1, d2, d3, d4))
  {
    WindowBits(d1, d2, d3, d4, u);
  }

  lemma NegatedProduct(q: int, c: int)
    ensures -(q * (1 * c)) == q * (-1 * c)
  {
  }

  ghost predicate WellFormed(d: seq<u32>) {
    |d| == 250 && forall j :: 50 <= j < 250 ==> d[j] <= 1
  }

  function Window(d: seq<u32>, m: nat): (u: nat)
    requires WellFormed(d) && m < 50
    ensures u < 16
  {
    WindowBits(d[50 + m], d[100 + m], d[150 + m], d[200 + m], ((d[200 + m] * 2 + d[150 + m]) * 2 + d[100 + m]) * 2 + d[50 + m]);
    ((d[200 + m] * 2 + d[150 + m]) * 2 + d[100 + m]) * 2 + d[50 + m]
  }

  /** The table entry for column 10b + e, negated when the column is negative. */
  function Lookup<T>(g: Group<T>, table: seq<T>, d: seq<u32>, b: nat, e: nat): T
    requires |table| == 80 && WellFormed(d) && b < 5 && e < 10
  {
    var p := table[16 * b + Window(d, b * 10 + e)];
    if d[b * 10 + e] != 0 then g.neg(p) else p
  }

  function Lookups<T>(g: Group<T>, table: seq<T>, d: seq<u32>): (look: (int, int) -> T)
    requires |table| == 80 && WellFormed(d)
  {
    (b, e) => if 0 <= b < 5 && 0 <= e < 10 then Lookup(g, table, d, b, e) else g.zero
  }

  /** Every lookup yields the multiple f(m) of its column m = 10b + e, scaled by its block. */
  ghost predicate Selects<T>(g: Group<T>, look: (int, int) -> T, base: T, f: int -> int) {
    forall b: nat, e: nat :: b < 5 && e < 10 ==> look(b, e) == Mul(g, Pow2(b * 10) * f(b * 10 + e), base)
  }

  lemma LookupIsMultiple<T(!new)>(g: Group<T>, table: seq<T>, d: seq<u32>, base: T, s: nat, b: nat, e: nat)
    requires Laws(g) && IsCombTable(g, base, table, s) && WellFormed(d) && b < 5 && e < 10
    ensures var m := b * 10 + e;
            Lookup(g, table, d, b, e) == Mul(g, Pow2(b * 10) * ((if d[m] != 0 then -1 else 1)
                                        * Multiplier(s, d[50 + m], d[100 + m], d[150 + m], d[200 + m])), base)
  {
    var m := b * 10 + e;
    var u := Window(d, m);
    EntryOfWindow(s, b, d[50 + m], d[100 + m], d[150 + m], d[200 + m], u);
    if d[m] != 0 {
      MulNeg(g, EntryScalar(s, b, u), base);
      NegatedProduct(Pow2(b * 10), Multiplier(s, d[50 + m], d[100 + m], d[150 + m], d[200 + m]));
    }
  }

  lemma ColumnDigits(v: nat, s: nat, m: nat)
    requires s == COLUMNS && m < 50
    ensures ColumnAt(v, s, m) == (if Digit(v, m) != 0 then -1 else 1)
                                 * Multiplier(s, Digit(v, 50 + m), Digit(v, 100 + m), Digit(v, 150 + m), Digit(v, 200 + m))
  {
  }

  /** The recoded digits select the columns of the comb. */
  lemma RecodingSelects<T(!new)>(g: Group<T>, table: seq<T>, d: seq<u32>, base: T, v: nat, s: nat)
    requires Laws(g) && s == COLUMNS && IsCombTable(g, base, table, s)
    requires |d| == 250 && forall j :: 0 <= j < 250 ==> d[j] == Digit(v, j)
    ensures WellFormed(d) && Selects(g, Lookups(g, table, d), base, Column(v, s))
  {
    forall b: nat, e: nat | b < 5 && e < 10
      ensures Lookup(g, table, d, b, e) == Mul(g, Pow2(b * 10) * Column(v, s)(b * 10 + e), base)
    {
      LookupIsMultiple(g, table, d, base, s, b, e);
      ColumnDigits(v, s, b * 10 + e);
    }
  }

  lemma LastTerm(h: int -> int, e: int)
    ensures WSum(h, e, 1) == h(e)
  {
    assert WSum(h, e, 0) == 0;
  }

  lemma FoldStep(f: int -> int, s: nat, k: nat, e: int)
    ensures FoldAt(f, s, 0, e) == 0
    ensures FoldAt(f, s, k + 1, e) == FoldAt(f, s, k, e) + Pow2(k * s) * f(k * s + e)
  {
  }

  /** The lookups of row e for the given number of table blocks, from the last one down, added to r0. */
  method AddBlocks<T(!new)>(g: Group<T>, look: (int, int) -> T, blocks: nat, e: nat, r0: T,
                            ghost c: int, ghost base: T, ghost f: int -> int) returns (r: T)
    requires Laws(g) && Selects(g, look, base, f) && blocks <= 5 && e < 10 && r0 == Mul(g, c, base)
    ensures r == Mul(g, c + FoldAt(f, 10, blocks, e), base)
  {
    hide Mul, FoldAt, Pow2;
    FoldStep(f, 10, 0, e);
    r := r0;
    ghost var sum := c;
    for b := blocks downto 0
      invariant r == Mul(g, sum, base)
      invariant sum + FoldAt(f, 10, b, e) == c + FoldAt(f, 10, blocks, e)
    {
      r := g.add(r, look(b, e));
      ghost var x := Pow2(b * 10) * f(b * 10 + e);
      MulAdd(g, sum, x, base);
      FoldStep(f, 10, b, e);
      sum := sum + x;
    }
  }

  /** Ten rows, from e = 9 down to 0; each doubles and adds five table entries. */
  method Schedule<T(!new)>(g: Group<T>, look: (int, int) -> T, ghost base: T, ghost f: int -> int, ghost n: nat) returns (r: T)
    requires Laws(g) && Selects(g, look, base, f) && n == COLUMNS / BLOCKS
    ensures r == Mul(g, WSum(Fold(f, 10, 5), 0, n), base)
  {
    hide Mul, FoldAt, Pow2, WSum;
    ghost var h, k := Fold(f, 10, 5), 4;
    r := look(4, 9);
    r := AddBlocks(g, look, 4, 9, r, Pow2(k * 10) * f(k * 10 + 9), base, f);
    FoldStep(f, 10, k, 9);
    LastTerm(h, 9);
    ghost var sum := h(9);
    for e := 9 downto 0
      invariant r == Mul(g, sum, base) && sum == WSum(h, e, n - e)
    {
      r := g.add(r, r);
      MulAdd(g, sum, sum, base);
      r := AddBlocks(g, look, 5, e, r, 2 * sum, base, f);
      WSumHorner(h, e, n - 1 - e);
      sum := h(e) + 2 * sum;
    }
  }

  /** k modulo the order, made odd by adding the order where necessary. */
  method MakeOdd(k: array<u64>) returns (scalar: array<u64>)
    requires k.Length >= 4
    ensures fresh(scalar) && scalar.Length == 4
    ensures Value4(scalar) == OddForm(Value4(k) % ORDER)
  {
    scalar := new u64[4];
    ReduceModOrder(k, scalar);
    LowBit(scalar[0], scalar[1], scalar[2], scalar[3]);
    if scalar[0] % 2 == 0 {
      AddOrder(scalar);
    }
  }

  ghost function OddForm(x: nat): nat {
    if x % 2 == 0 then x + ORDER else x
  }

  lemma OddFormOf(k: nat)
    ensures OddForm(k % ORDER) % 2 == 1 && OddForm(k % ORDER) < 2 * ORDER && Congruent(ORDER, OddForm(k % ORDER), k)
  {
    var x := k % ORDER;
    CongMod(ORDER, k);
    CongMultiple(ORDER, x + ORDER, 1, x);
    CongTrans(ORDER, x + ORDER, x, k);
  }

  method AddOrder(scalar: array<u64>)
    requires scalar.Length == 4 && Value4(scalar) < ORDER
    modifies scalar
    ensures Value4(scalar) == old(Value4(scalar)) + ORDER
  {
    ghost var x := Value4(scalar);
    var carry, s0, s1, s2, s3 := Add4(0, scalar[0], scalar[1], scalar[2], scalar[3], ORDER_0, ORDER_1, ORDER_2, ORDER_3);
    scalar[0], scalar[1], scalar[2], scalar[3] := s0, s1, s2, s3;
    assert Num4(s0, s1, s2, s3) + TWO256 * carry == x + ORDER;
  }

  /** Fixed-base scalar multiplication: k * base for every 256-bit k, in any abelian group in
      which `base` has order dividing ORDER and the table holds its comb multiples. */
  method EccMulFixed<T(!new)>(g: Group<T>, table: seq<T>, k: array<u64>, ghost base: T, ghost s: nat) returns (q: T)
    requires Laws(g) && Mul(g, ORDER, base) == g.zero && s == COLUMNS && IsCombTable(g, base, table, s)
    requires k.Length >= 4
    ensures q == Mul(g, Value4(k), base)
  {
    var scalar := MakeOdd(k);
    ghost var v := Value4(scalar);
    OddFormOf(Value4(k));
    var digits := new u32[250];
    Recode(scalar, digits, v);
    RecodingSelects(g, table, digits[..], base, v, s);
    q := Schedule(g, Lookups(g, table, digits[..]), base, Column(v, s), 10);
    FoldSum(Column(v, s), 10, 5);
    CombRecoding(v, s);
    MulCongruent(g, ORDER, v, Value4(k), base);
  }
}