/** The interleaved loop of ecc_mul_double over eight recoded scalars and their tables of odd
    multiples, and the table precomputation. */
module DoubleScalar {
  import opened Words
  import opened Congruence
  import opened AbelianGroup
  import opened Wnaf

  // ----- Linear combinations -----

  /** c[0]*b[0] + ... + c[n-1]*b[n-1] */
  ghost function Combination<T>(g: Group<T>, c: seq<int>, b: seq<T>): T
    requires |c| == |b|
  {
    if |b| == 0 then g.zero
    else g.add(Combination(g, c[..|c| - 1], b[..|b| - 1]), Mul(g, c[|c| - 1], b[|b| - 1]))
  }

  lemma {:induction false} CombinationUpdate<T(!new)>(g: Group<T>, c: seq<int>, b: seq<T>, j: nat, x: int)
    requires Laws(g) && |c| == |b| && j < |c|
    ensures Combination(g, c[j := c[j] + x], b) == g.add(Combination(g, c, b), Mul(g, x, b[j]))
  {
    var n := |c| - 1;
    var c' := c[j := c[j] + x];
    var rest, last := Combination(g, c[..n], b[..n]), Mul(g, c[n], b[n]);
    if j == n {
      assert c'[..n] == c[..n];
      MulAdd(g, c[n], x, b[n]);
      Assoc(g, rest, last, Mul(g, x, b[n]));
    } else {
      assert c'[..n] == c[..n][j := c[j] + x];
      CombinationUpdate(g, c[..n], b[..n], j, x);
      var m := Mul(g, x, b[j]);
      Assoc(g, rest, m, last);
      Comm(g, m, last);
      Assoc(g, rest, last, m);
    }
  }

  lemma {:induction false} CombinationDouble<T(!new)>(g: Group<T>, c: seq<int>, d: seq<int>, b: seq<T>)
    requires Laws(g) && |c| == |b| == |d| && forall k :: 0 <= k < |c| ==> d[k] == 2 * c[k]
    ensures Combination(g, d, b) == g.add(Combination(g, c, b), Combination(g, c, b))
  {
    if |b| == 0 {
      Zero(g, g.zero);
    } else {
      var n := |c| - 1;
      CombinationDouble(g, c[..n], d[..n], b[..n]);
      var rest, last := Combination(g, c[..n], b[..n]), Mul(g, c[n], b[n]);
      MulAdd(g, c[n], c[n], b[n]);
      Interchange(g, rest, rest, last, last);
    }
  }

  lemma {:induction false} CombinationZero<T(!new)>(g: Group<T>, c: seq<int>, b: seq<T>)
    requires Laws(g) && |c| == |b| && forall k :: 0 <= k < |c| ==> c[k] == 0
    ensures Combination(g, c, b) == g.zero
  {
    if |b| > 0 {
      CombinationZero(g, c[..|c| - 1], b[..|b| - 1]);
      Zero(g, g.zero);
    }
  }

  // ----- Tables of odd multiples -----

  /** Slot m holds (2m + 1) * base. */
  ghost predicate OddMultiples<T>(g: Group<T>, table: seq<T>, base: T) {
    forall m :: 0 <= m < |table| ==> table[m] == Mul(g, 2 * m + 1, base)
  }

  /** ecc_precomp_double: each slot is the one before plus 2 * p. */
  method PrecompDouble<T(!new)>(g: Group<T>, p: T) returns (table: seq<T>)
    requires Laws(g)
    ensures |table| == 4 && OddMultiples(g, table, p)
  {
    var twice := g.add(p, p);
    table := [p];
    MulOne(g, p);
    MulAdd(g, 1, 1, p);
    for i := 1 to 4
      invariant |table| == i && OddMultiples(g, table, p)
    {
      MulAdd(g, 2 * i - 1, 2, p);
      table := table + [g.add(table[i - 1], twice)];
    }
  }

  ghost predicate Fits(d: int, slots: int) {
    d == 0 || (d % 2 == 1 && -2 * slots < d < 2 * slots)
  }

  /** Adds digit d times the base, from slot |d| / 2. */
  method AddDigit<T(!new)>(g: Group<T>, table: seq<T>, d: int, t: T, ghost base: T) returns (r: T)
    requires Laws(g) && OddMultiples(g, table, base) && Fits(d, |table|)
    ensures r == g.add(t, Mul(g, d, base))
  {
    if d < 0 {
      r := g.add(t, g.neg(table[-d / 2]));
      MulNeg(g, -d, base);
    } else if d > 0 {
      r := g.add(t, table[d / 2]);
    } else {
      r := t;
      Zero(g, t);
    }
  }

  // ----- The interleaved loop -----

  /** The values of all digit rows from position i on. */
  ghost function Tails(rows: seq<seq<int>>, i: nat): (c: seq<int>)
    requires forall j :: 0 <= j < |rows| ==> i <= |rows[j]|
  {
    seq(|rows|, j requires 0 <= j < |rows| => Value(rows[j][i..]))
  }

  ghost predicate Ready<T>(g: Group<T>, rows: seq<seq<int>>, tables: seq<seq<T>>, bases: seq<T>, n: nat) {
    && |rows| == |tables| == |bases|
    && (forall j :: 0 <= j < |rows| ==> |rows[j]| == n)
    && (forall j :: 0 <= j < |rows| ==> OddMultiples(g, tables[j], bases[j]))
    && (forall j, i :: 0 <= j < |rows| && 0 <= i < n ==> Fits(rows[j][i], |tables[j]|))
  }

  /** Position i of every row: double, then add the eight digits in turn. */
  method Position<T(!new)>(g: Group<T>, rows: seq<seq<int>>, tables: seq<seq<T>>, i: nat, t: T,
                           ghost bases: seq<T>, ghost n: nat) returns (r: T)
    requires Laws(g) && Ready(g, rows, tables, bases, n) && i < n
    requires t == Combination(g, Tails(rows, i + 1), bases)
    ensures r == Combination(g, Tails(rows, i), bases)
  {
    hide Combination, Mul;
    ghost var c := seq(|rows|, j requires 0 <= j < |rows| => 2 * Value(rows[j][i + 1..]));
    r := g.add(t, t);
    CombinationDouble(g, Tails(rows, i + 1), c, bases);
    for j := 0 to |rows|
      invariant |c| == |rows| && r == Combination(g, c, bases)
      invariant forall k :: 0 <= k < |rows| ==>
                  c[k] == if k < j then Value(rows[k][i..]) else 2 * Value(rows[k][i + 1..])
    {
      r := AddDigit(g, tables[j], rows[j][i], r, bases[j]);
      CombinationUpdate(g, c, bases, j, rows[j][i]);
      assert rows[j][i..][1..] == rows[j][i + 1..];
      c := c[j := c[j] + rows[j][i]];
    }
    assert c == Tails(rows, i);
  }

  /** All positions from the top down: the sum of the scalars times their bases. */
  method Interleave<T(!new)>(g: Group<T>, rows: seq<seq<int>>, tables: seq<seq<T>>, n: nat, ghost bases: seq<T>) returns (t: T)
    requires Laws(g) && Ready(g, rows, tables, bases, n)
    ensures t == Combination(g, Tails(rows, 0), bases)
  {
    t := g.zero;
    CombinationZero(g, Tails(rows, n), bases);
    for i := n downto 0
      invariant t == Combination(g, Tails(rows, i), bases)
    {
      t := Position(g, rows, tables, i, t, bases, n);
    }
  }

  // ----- ecc_mul_double -----

  lemma {:induction false} ValuePadded(s: seq<int>, n: nat)
    ensures Value(s + Zeros(n)) == Value(s)
  {
    if s == [] {
      ValueAfterZeros(n, []);
      assert Zeros(n) + [] == s + Zeros(n);
    } else {
      ValuePadded(s[1..], n);
      assert (s + Zeros(n))[1..] == s[1..] + Zeros(n);
    }
  }

  /** The 65 digits of a 64-bit scalar, ready for a table of the given number of slots. */
  method DigitRow(scalar: u64, w: nat, slots: nat) returns (row: seq<int>)
    requires 2 <= w <= 8 && Pow2(w - 1) == 2 * slots
    ensures |row| == 65 && Value(row) == scalar
    ensures forall i :: 0 <= i < 65 ==> Fits(row[i], slots)
  {
    var digits := new int[65];
    Recode(scalar, w, digits);
    row := digits[..];
    ghost var form := Naf(scalar, w);
    hide Naf, Pow2, Value;
    assert row == form + Zeros(65 - |form|);
    NafValue(scalar, w);
    NafForm(scalar, w);
    ValuePadded(form, 65 - |form|);
  }

  /** Four scalars recoded at width w. */
  method DigitRows(scalars: seq<u64>, w: nat, slots: nat) returns (rows: seq<seq<int>>)
    requires 2 <= w <= 8 && Pow2(w - 1) == 2 * slots
    ensures |rows| == |scalars|
    ensures forall j :: 0 <= j < |rows| ==> |rows[j]| == 65 && Value(rows[j]) == scalars[j]
    ensures forall j, i :: 0 <= j < |rows| && 0 <= i < 65 ==> Fits(rows[j][i], slots)
  {
    rows := [];
    for j := 0 to |scalars|
      invariant |rows| == j
      invariant forall k :: 0 <= k < j ==> |rows[k]| == 65 && Value(rows[k]) == scalars[k]
      invariant forall k, i :: 0 <= k < j && 0 <= i < 65 ==> Fits(rows[k][i], slots)
    {
      var row := DigitRow(scalars[j], w, slots);
      rows := rows + [row];
    }
  }

  method Precomputed<T(!new)>(g: Group<T>, points: seq<T>) returns (tables: seq<seq<T>>)
    requires Laws(g)
    ensures |tables| == |points|
    ensures forall j :: 0 <= j < |points| ==> |tables[j]| == 4 && OddMultiples(g, tables[j], points[j])
  {
    tables := [];
    for j := 0 to |points|
      invariant |tables| == j
      invariant forall k :: 0 <= k < j ==> |tables[k]| == 4 && OddMultiples(g, tables[k], points[k])
    {
      var table := PrecompDouble(g, points[j]);
      tables := tables + [table];
    }
  }

  lemma SlotCounts()
    ensures Pow2(4 - 1) == 2 * 4 && Pow2(8 - 1) == 2 * 64
  {
    assert Pow2(4) == 16 && Pow2(8) == 256;
  }

  /** The interleaved multiplication: the sum of l[j] * q[j] and k[j] * gBases[j] over the four
      sub-scalars of each side. q holds the point and its three images, gTables 64 odd multiples
      of each of the four fixed bases. */
  method EccMulDouble<T(!new)>(g: Group<T>, l: seq<u64>, k: seq<u64>, q: seq<T>, gTables: seq<seq<T>>, ghost gBases: seq<T>)
    returns (t: T)
    requires Laws(g) && |l| == |q| && |k| == |gTables| == |gBases|
    requires forall j :: 0 <= j < |k| ==> |gTables[j]| == 64 && OddMultiples(g, gTables[j], gBases[j])
    ensures t == Combination(g, l + k, q + gBases)
  {
    SlotCounts();
    hide Combination, Mul, Value, Pow2, Fits, OddMultiples;
    var lRows := DigitRows(l, 4, 4);
    var kRows := DigitRows(k, 8, 64);
    var qTables := Precomputed(g, q);
    t := Interleave(g, lRows + kRows, qTables + gTables, 65, q + gBases);
    assert Tails(lRows + kRows, 0) == l + k by { WholeRows(lRows + kRows, l + k); }
  }

  lemma WholeRows(rows: seq<seq<int>>, scalars: seq<int>)
    requires |rows| == |scalars| && forall j :: 0 <= j < |rows| ==> Value(rows[j]) == scalars[j]
    ensures Tails(rows, 0) == scalars
  {
    forall j | 0 <= j < |rows|
      ensures Tails(rows, 0)[j] == scalars[j]
    {
      assert rows[j][0..] == rows[j];
    }
  }

  // ----- From sub-scalars to the scalars -----

  ghost function Dot(c: seq<int>, d: seq<int>): int
    requires |c| == |d|
  {
    if |c| == 0 then 0 else Dot(c[..|c| - 1], d[..|d| - 1]) + c[|c| - 1] * d[|d| - 1]
  }

  /** A combination of multiples of one point. */
  lemma {:induction false} CombinationOfMultiples<T(!new)>(g: Group<T>, c: seq<int>, lambda: seq<int>, b: seq<T>, p: T)
    requires Laws(g) && |c| == |lambda| == |b|
    requires forall j :: 0 <= j < |b| ==> b[j] == Mul(g, lambda[j], p)
    ensures Combination(g, c, b) == Mul(g, Dot(c, lambda), p)
  {
    if |c| > 0 {
      var n := |c| - 1;
      CombinationOfMultiples(g, c[..n], lambda[..n], b[..n], p);
      MulMul(g, c[n], lambda[n], p);
      MulAdd(g, Dot(c[..n], lambda[..n]), c[n] * lambda[n], p);
    }
  }

  lemma {:induction false} CombinationConcat<T(!new)>(g: Group<T>, c: seq<int>, b: seq<T>, c': seq<int>, b': seq<T>)
    requires Laws(g) && |c| == |b| && |c'| == |b'|
    ensures Combination(g, c + c', b + b') == g.add(Combination(g, c, b), Combination(g, c', b'))
  {
    if |b'| == 0 {
      assert c + c' == c && b + b' == b;
      Zero(g, Combination(g, c, b));
    } else {
      var n := |b'| - 1;
      CombinationConcat(g, c, b, c'[..n], b'[..n]);
      assert (c + c')[..|c| + n] == c + c'[..n] && (b + b')[..|b| + n] == b + b'[..n];
      Assoc(g, Combination(g, c, b), Combination(g, c'[..n], b'[..n]), Mul(g, c'[n], b'[n]));
    }
  }

  /** `parts` represent the scalar s on the eigenvalues lambda, modulo the order r. */
  ghost predicate Decomposes(parts: seq<u64>, lambda: seq<int>, r: int, s: int) {
    |parts| == |lambda| && Congruent(r, Dot(parts, lambda), s)
  }

  /** With sub-scalars that decompose l and k, and bases that are the eigenvalue multiples of q
      and p, the interleaved sum is l*q + k*p. */
  lemma DecomposedSum<T(!new)>(g: Group<T>, r: int, lParts: seq<u64>, kParts: seq<u64>, lambda: seq<int>, l: int, k: int,
                               qs: seq<T>, ps: seq<T>, q: T, p: T)
    requires Laws(g) && Mul(g, r, q) == g.zero && Mul(g, r, p) == g.zero
    requires Decomposes(lParts, lambda, r, l) && Decomposes(kParts, lambda, r, k)
    requires |qs| == |lambda| == |ps|
    requires forall j :: 0 <= j < |lambda| ==> qs[j] == Mul(g, lambda[j], q) && ps[j] == Mul(g, lambda[j], p)
    ensures Combination(g, lParts + kParts, qs + ps) == g.add(Mul(g, l, q), Mul(g, k, p))
  {
    CombinationConcat(g, lParts, qs, kParts, ps);
    CombinationOfMultiples(g, lParts, lambda, qs, q);
    CombinationOfMultiples(g, kParts, lambda, ps, p);
    MulCongruent(g, r, Dot(lParts, lambda), l, q);
    MulCongruent(g, r, Dot(kParts, lambda), k, p);
  }
}
