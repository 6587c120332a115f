/** Width-w non-adjacent form recoding of 64-bit sub-scalars. */
module Wnaf {
  import opened Words

  // ----- The recoding as a function of the scalar -----

  /** The signed residue of x modulo p = 2^w: above p/2 - 1 it counts as negative. */
  function Residue(x: nat, p: nat): int
    requires p >= 4
  {
    if x % p > p / 2 - 1 then x % p - p else x % p
  }

  function Rounded(x: nat, p: nat): nat
    requires p >= 4
  {
    x / p + if Residue(x, p) < 0 then 1 else 0
  }

  lemma ResidueAndRounded(x: nat, p: nat)
    requires p >= 4
    ensures x == Residue(x, p) + p * Rounded(x, p)
  {
    var q, r := x / p, x % p;
    assert x == p * q + r;
    assert p * (q + 1) == p * q + p;
  }

  lemma RoundedShrinks(x: nat, p: nat)
    requires p >= 4 && x % 2 == 1
    ensures Rounded(x, p) < x
  {
    if x == 1 {
      SmallResidue(x, p);
    } else {
      var q := x / p;
      assert x == q * p + x % p;
      TimesMono(4, p, q);
      FourQuotients(x, q, p * q, x % p);
    }
  }

  lemma FourQuotients(x: nat, q: nat, m: nat, r: nat)
    requires x == m + r && m >= 4 * q && x >= 2
    ensures q + 1 < x
  {
  }

  lemma SmallResidue(x: nat, p: nat)
    requires p >= 4 && x < p / 2
    ensures Residue(x, p) == x && Rounded(x, p) == 0
  {
    DivModUnique(x, 0, x, p);
  }

  lemma OddResidue(x: nat, p: nat)
    requires p >= 4 && p % 4 == 0 && x % 2 == 1
    ensures Residue(x, p) % 2 == 1 && -(p / 2) < Residue(x, p) < p / 2
  {
    var k := p / 4;
    assert p == 4 * k && p / 2 == 2 * k;
    RemainderParity(x, p, k);
    CenteredOdd(x % p, k);
  }

  lemma CenteredOdd(r: nat, k: nat)
    requires r < 4 * k && r % 2 == 1
    ensures var c := if r > 2 * k - 1 then r - 4 * k else r; c % 2 == 1 && -2 * k < c < 2 * k
  {
  }

  lemma RemainderParity(x: nat, p: nat, k: nat)
    requires p == 4 * k && k > 0
    ensures x % p % 2 == x % 2
  {
    var q, r := x / p, x % p;
    var t := k * q;
    assert 4 * k * q == 4 * t;
    assert x == 4 * t + r;
  }

  lemma RoundedBound(x: nat, p: nat, q: nat)
    requires p >= 4 && x < p * q
    ensures Rounded(x, p) <= q
  {
    var d := x / p;
    assert x == p * d + x % p;
    assert d >= q ==> p * d >= p * q;
  }

  function SignedDigit(x: nat, w: nat): int
    requires w >= 2
  {
    assert Pow2(w) == 4 * Pow2(w - 2) by { FourTimes(w); }
    Residue(x, Pow2(w))
  }

  function Quotient(x: nat, w: nat): nat
    requires w >= 2
  {
    assert Pow2(w) == 4 * Pow2(w - 2) by { FourTimes(w); }
    Rounded(x, Pow2(w))
  }

  lemma FourTimes(w: nat)
    requires w >= 2
    ensures Pow2(w) == 4 * Pow2(w - 2) && Pow2(w) / 2 == Pow2(w - 1) && Pow2(w) % 4 == 0
  {
    assert Pow2(w - 1) == 2 * Pow2(w - 2);
  }

  function Zeros(n: nat): (z: seq<int>)
    ensures |z| == n && forall i :: 0 <= i < n ==> z[i] == 0
  {
    seq(n, _ => 0)
  }

  ghost function Naf(x: nat, w: nat): seq<int>
    requires w >= 2
    decreases x
  {
    if x == 0 then []
    else if x % 2 == 0 then [0] + Naf(x / 2, w)
    else
      assert Pow2(w) >= 4 by { FourTimes(w); }
      RoundedShrinks(x, Pow2(w));
      if Quotient(x, w) == 0 then [SignedDigit(x, w)]
      else [SignedDigit(x, w)] + Zeros(w - 1) + Naf(Quotient(x, w), w)
  }

  // ----- What the recoding means -----

  /** s[0] + 2 s[1] + 4 s[2] + ... */
  ghost function Value(s: seq<int>): int {
    if s == [] then 0 else s[0] + 2 * Value(s[1..])
  }

  lemma {:induction false} ValueAfterZeros(n: nat, s: seq<int>)
    ensures Value(Zeros(n) + s) == Pow2(n) * Value(s)
  {
    if n == 0 {
      assert Zeros(0) + s == s;
    } else {
      ValueAfterZeros(n - 1, s);
      assert (Zeros(n) + s)[1..] == Zeros(n - 1) + s;
      assert 2 * (Pow2(n - 1) * Value(s)) == Pow2(n) * Value(s);
    }
  }

  lemma NafStep(x: nat, w: nat)
    requires w >= 2 && x % 2 == 1
    ensures Quotient(x, w) < x && x == SignedDigit(x, w) + Pow2(w) * Quotient(x, w)
    ensures SignedDigit(x, w) % 2 == 1 && 0 - Pow2(w - 1) < SignedDigit(x, w) < Pow2(w - 1)
  {
    FourTimes(w);
    RoundedShrinks(x, Pow2(w));
    ResidueAndRounded(x, Pow2(w));
    OddResidue(x, Pow2(w));
  }

  lemma ValueOfStep(d: int, w: nat, s: seq<int>)
    requires w >= 2
    ensures Value([d] + Zeros(w - 1) + s) == d + Pow2(w) * Value(s)
  {
    ValueAfterZeros(w - 1, s);
    assert ([d] + Zeros(w - 1) + s)[1..] == Zeros(w - 1) + s;
    assert 2 * (Pow2(w - 1) * Value(s)) == Pow2(w) * Value(s);
  }

  lemma {:induction false} NafValue(x: nat, w: nat)
    requires w >= 2
    ensures Value(Naf(x, w)) == x
    decreases x
  {
    hide Pow2;
    if x == 0 {
    } else if x % 2 == 0 {
      NafValue(x / 2, w);
      assert ([0] + Naf(x / 2, w))[1..] == Naf(x / 2, w);
    } else {
      hide SignedDigit, Quotient;
      NafStep(x, w);
      var d, q := SignedDigit(x, w), Quotient(x, w);
      if q == 0 {
        assert Value([d]) == d + 2 * Value([]);
      } else {
        NafValue(q, w);
        ValueOfStep(d, w, Naf(q, w));
      }
    }
  }

  /** Every digit is 0 or odd and below 2^(w-1) in size. */
  ghost predicate Bounded(s: seq<int>, w: nat)
    requires w >= 1
  {
    forall i :: 0 <= i < |s| ==> s[i] == 0 || (s[i] % 2 == 1 && 0 - Pow2(w - 1) < s[i] < Pow2(w - 1))
  }

  /** At most one digit in any w in a row is nonzero. */
  ghost predicate Sparse(s: seq<int>, w: nat) {
    forall i, j :: 0 <= i < j < |s| && j < i + w ==> s[i] == 0 || s[j] == 0
  }

  lemma {:induction false} NafForm(x: nat, w: nat)
    requires w >= 2
    ensures Bounded(Naf(x, w), w) && Sparse(Naf(x, w), w)
    decreases x
  {
    hide Pow2, SignedDigit, Quotient;
    if x == 0 {
    } else if x % 2 == 0 {
      NafForm(x / 2, w);
    } else {
      NafStep(x, w);
      if Quotient(x, w) != 0 {
        NafForm(Quotient(x, w), w);
      }
    }
  }

  lemma {:induction false} TooFewBits(x: nat, w: nat, n: nat)
    requires w >= 2 && x % 2 == 1 && x <= Pow2(n) && n < w
    ensures Quotient(x, w) == 0
  {
    FourTimes(w);
    Pow2Mono(n, w - 1);
    EvenPower(w - 1);
    hide Pow2, Rounded, Residue;
    OddBelow(x, Pow2(w - 1));
    SmallResidue(x, Pow2(w));
  }

  /** A second digit is only needed when at least w bits are left. */
  lemma {:induction false} QuotientBound(x: nat, w: nat, n: nat)
    requires w >= 2 && x % 2 == 1 && x <= Pow2(n) && Quotient(x, w) != 0
    ensures n >= w && Quotient(x, w) <= Pow2(n - w)
  {
    FourTimes(w);
    if n < w { TooFewBits(x, w, n); }
    Pow2Add(w, n - w);
    EvenPower(n);
    hide Pow2, Rounded;
    OddBelow(x, Pow2(n));
    RoundedBound(x, Pow2(w), Pow2(n - w));
  }

  lemma {:induction false} EvenPower(n: nat)
    requires n >= 1
    ensures Pow2(n) % 2 == 0
  {
    var p := Pow2(n - 1);
    assert Pow2(n) == p * 2 + 0;
    hide Pow2;
    DivModUnique(Pow2(n), p, 0, 2);
  }

  lemma OddBelow(x: nat, p: nat)
    requires x % 2 == 1 && p % 2 == 0 && x <= p
    ensures x < p
  {
  }

  lemma {:induction false} NafLength(x: nat, w: nat, n: nat)
    requires w >= 2 && x <= Pow2(n)
    ensures |Naf(x, w)| <= n + 1
    decreases x
  {
    hide SignedDigit, Quotient;
    if x == 0 {
    } else if x % 2 == 0 {
      NafLength(x / 2, w, n - 1);
    } else {
      NafStep(x, w);
      if Quotient(x, w) != 0 {
        QuotientBound(x, w, n);
        NafLength(Quotient(x, w), w, n - w);
      }
    }
  }

  // ----- The recoding loop -----

  lemma NafUnfold(x: nat, w: nat)
    requires w >= 2
    ensures x == 0 ==> Naf(x, w) == []
    ensures x != 0 && x % 2 == 0 ==> Naf(x, w) == [0] + Naf(x / 2, w)
    ensures x % 2 == 1 && Quotient(x, w) == 0 ==> Naf(x, w) == [SignedDigit(x, w)]
    ensures x % 2 == 1 && Quotient(x, w) != 0 ==> Naf(x, w) == [SignedDigit(x, w)] + Zeros(w - 1) + Naf(Quotient(x, w), w)
  {
  }

  /** An odd step: the low w bits as a signed digit, and the scalar with that digit taken off;
      val1 is 2^(w-1) - 1 and val2 is 2^w. */
  method TakeDigit(x: nat, val1: nat, val2: nat) returns (digit: int, rest: nat)
    requires val2 >= 4 && val1 == val2 / 2 - 1
    ensures digit == Residue(x, val2) && rest == Rounded(x, val2)
  {
    digit := x % val2;
    rest := x / val2;
    if digit > val1 {
      digit := digit - val2;
    }
    if digit < 0 {
      rest := rest + 1;
    }
  }

  /** digits[i..i+n] become 0. */
  method WriteZeros(digits: array<int>, i: nat, n: nat)
    requires i + n <= digits.Length
    modifies digits
    ensures forall k :: 0 <= k < digits.Length ==> digits[k] == if i <= k < i + n then 0 else old(digits[k])
  {
    for j := 0 to n
      invariant forall k :: 0 <= k < digits.Length ==> digits[k] == if i <= k < i + j then 0 else old(digits[k])
    {
      digits[i + j] := 0;
    }
  }

  /** One turn of the loop at position `index`; `rest` is what is left of the form from there. */
  method RecodeStep(x: nat, w: nat, digits: array<int>, index: nat) returns (x': nat, index': nat)
    requires w >= 2 && x != 0 && index + |Naf(x, w)| <= digits.Length
    modifies digits
    ensures x' < x && index < index' <= index + |Naf(x, w)| && Naf(x', w) == Naf(x, w)[index' - index..]
    ensures forall k :: 0 <= k < digits.Length ==>
              digits[k] == if index <= k < index' then Naf(x, w)[k - index] else old(digits[k])
  {
    hide Naf, Residue, Rounded, Pow2;
    ghost var form := Naf(x, w);
    NafUnfold(x, w);
    if x % 2 == 0 {
      digits[index] := 0;
      x', index' := x / 2, index + 1;
    } else {
      NafStep(x, w);
      var digit;
      FourTimes(w);
      digit, x' := TakeDigit(x, Pow2(w - 1) - 1, Pow2(w));
      digits[index] := digit;
      index' := index + 1;
      if x' == 0 {
        NafUnfold(x', w);
      } else {
        WriteZeros(digits, index + 1, w - 1);
        index' := index + w;
      }
    }
  }

  /** Writes the width-w form of the scalar to digits[0..65], padded with zeros. */
  method Recode(scalar: u64, w: nat, digits: array<int>)
    requires 2 <= w <= 8 && digits.Length == 65
    modifies digits
    ensures |Naf(scalar, w)| <= 65
    ensures forall k :: 0 <= k < 65 ==> digits[k] == if k < |Naf(scalar, w)| then Naf(scalar, w)[k] else 0
  {
    hide Naf;
    ghost var form := Naf(scalar, w);
    Pow2Values();
    NafLength(scalar, w, 64);
    var x: nat, index := scalar, 0;
    while x != 0
      invariant index <= |form| <= 65 && Naf(x, w) == form[index..]
      invariant forall k :: 0 <= k < index ==> digits[k] == form[k]
      decreases x
    {
      x, index := RecodeStep(x, w, digits, index);
    }
    NafUnfold(0, w);
    WriteZeros(digits, index, 65 - index);
  }
}
