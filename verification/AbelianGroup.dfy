/** Abelian groups given by their operations, and integer multiples in them. Curve points are
    elements of such a group; nothing else about the curve is used. */
module AbelianGroup {
  import opened Congruence

  datatype Group<!T> = Group(zero: T, add: (T, T) -> T, neg: T -> T)

  /** Marks the elements at which the group laws are to be used. */
  ghost predicate Use3<T>(a: T, b: T, c: T) {
    true
  }

  ghost predicate Laws<T(!new)>(g: Group<T>) {
    forall a: T, b: T, c: T {:trigger Use3(a, b, c)} ::
      && g.add(g.add(a, b), c) == g.add(a, g.add(b, c))
      && g.add(a, b) == g.add(b, a)
      && g.add(g.zero, a) == a
      && g.add(a, g.neg(a)) == g.zero
  }

  lemma Assoc<T(!new)>(g: Group<T>, a: T, b: T, c: T)
    requires Laws(g)
    ensures g.add(g.add(a, b), c) == g.add(a, g.add(b, c))
  {
    assert Use3(a, b, c);
  }

  lemma Comm<T(!new)>(g: Group<T>, a: T, b: T)
    requires Laws(g)
    ensures g.add(a, b) == g.add(b, a)
  {
    assert Use3(a, b, b);
  }

  lemma Zero<T(!new)>(g: Group<T>, a: T)
    requires Laws(g)
    ensures g.add(g.zero, a) == a && g.add(a, g.zero) == a
  {
    assert Use3(a, a, a);
    Comm(g, a, g.zero);
  }

  lemma Inverse<T(!new)>(g: Group<T>, a: T)
    requires Laws(g)
    ensures g.add(a, g.neg(a)) == g.zero && g.add(g.neg(a), a) == g.zero
  {
    assert Use3(a, a, a);
    Comm(g, a, g.neg(a));
  }

  /** a + b = c determines b. */
  lemma Cancel<T(!new)>(g: Group<T>, a: T, b: T, b': T)
    requires Laws(g) && g.add(a, b) == g.add(a, b')
    ensures b == b'
  {
    Assoc(g, g.neg(a), a, b);
    Assoc(g, g.neg(a), a, b');
    Inverse(g, a);
    Zero(g, b);
    Zero(g, b');
  }

  /** (a + b) + (c + d) = (a + c) + (b + d). */
  lemma Interchange<T(!new)>(g: Group<T>, a: T, b: T, c: T, d: T)
    requires Laws(g)
    ensures g.add(g.add(a, b), g.add(c, d)) == g.add(g.add(a, c), g.add(b, d))
  {
    Assoc(g, a, b, g.add(c, d));
    Assoc(g, b, c, d);
    Comm(g, b, c);
    Assoc(g, c, b, d);
    Assoc(g, a, c, g.add(b, d));
  }

  ghost function Mul<T>(g: Group<T>, n: int, p: T): T
    decreases n < 0, if n < 0 then -n else n
  {
    if n < 0 then g.neg(Mul(g, -n, p)) else if n == 0 then g.zero else g.add(p, Mul(g, n - 1, p))
  }

  lemma NegUnique<T(!new)>(g: Group<T>, a: T, b: T)
    requires Laws(g) && g.add(a, b) == g.zero
    ensures b == g.neg(a)
  {
    Inverse(g, a);
    Cancel(g, a, b, g.neg(a));
  }

  lemma MulNeg<T(!new)>(g: Group<T>, n: int, p: T)
    requires Laws(g)
    ensures Mul(g, -n, p) == g.neg(Mul(g, n, p))
  {
    if n == 0 {
      Zero(g, g.zero);
      NegUnique(g, g.zero, g.zero);
    } else if n < 0 {
      Inverse(g, Mul(g, -n, p));
      NegUnique(g, g.neg(Mul(g, -n, p)), Mul(g, -n, p));
    }
  }

  lemma {:induction false} MulSucc<T(!new)>(g: Group<T>, n: int, p: T)
    requires Laws(g)
    ensures Mul(g, n + 1, p) == g.add(p, Mul(g, n, p))
  {
    if n < 0 {
      // -n = m + 1 with m >= 0
      var m := -n - 1;
      var q := Mul(g, m, p);
      MulNeg(g, m, p);
      assert Mul(g, n, p) == g.neg(g.add(p, q));
      Inverse(g, g.add(p, q));
      Assoc(g, p, g.neg(g.add(p, q)), q);
      Comm(g, g.neg(g.add(p, q)), q);
      Assoc(g, p, q, g.neg(g.add(p, q)));
      Comm(g, g.add(p, g.neg(g.add(p, q))), q);
      NegUnique(g, q, g.add(p, g.neg(g.add(p, q))));
    }
  }

  lemma {:induction false} MulAddNat<T(!new)>(g: Group<T>, m: nat, n: int, p: T)
    requires Laws(g)
    ensures Mul(g, m + n, p) == g.add(Mul(g, m, p), Mul(g, n, p))
  {
    if m == 0 {
      Zero(g, Mul(g, n, p));
    } else {
      MulAddNat(g, m - 1, n, p);
      MulSucc(g, m - 1 + n, p);
      Assoc(g, p, Mul(g, m - 1, p), Mul(g, n, p));
    }
  }

  lemma MulAdd<T(!new)>(g: Group<T>, m: int, n: int, p: T)
    requires Laws(g)
    ensures Mul(g, m + n, p) == g.add(Mul(g, m, p), Mul(g, n, p))
  {
    if m >= 0 {
      MulAddNat(g, m, n, p);
    } else {
      // n = -m + (m + n)
      MulAddNat(g, -m, m + n, p);
      MulNeg(g, m, p);
      var a, b := Mul(g, m, p), Mul(g, m + n, p);
      Assoc(g, a, g.neg(a), b);
      Inverse(g, a);
      Zero(g, b);
    }
  }

  lemma {:induction false} MulMulNat<T(!new)>(g: Group<T>, m: nat, n: int, p: T)
    requires Laws(g)
    ensures Mul(g, m, Mul(g, n, p)) == Mul(g, m * n, p)
  {
    if m > 0 {
      MulMulNat(g, m - 1, n, p);
      MulAdd(g, n, (m - 1) * n, p);
      assert n + (m - 1) * n == m * n;
    }
  }

  lemma MulMul<T(!new)>(g: Group<T>, m: int, n: int, p: T)
    requires Laws(g)
    ensures Mul(g, m, Mul(g, n, p)) == Mul(g, m * n, p)
  {
    if m >= 0 {
      MulMulNat(g, m, n, p);
    } else {
      MulMulNat(g, -m, n, p);
      MulNeg(g, -m * n, p);
      assert -(-m * n) == m * n;
    }
  }

  lemma {:induction false} MulSumNat<T(!new)>(g: Group<T>, n: nat, p: T, q: T)
    requires Laws(g)
    ensures Mul(g, n, g.add(p, q)) == g.add(Mul(g, n, p), Mul(g, n, q))
  {
    if n == 0 {
      Zero(g, g.zero);
    } else {
      MulSumNat(g, n - 1, p, q);
      Interchange(g, p, q, Mul(g, n - 1, p), Mul(g, n - 1, q));
    }
  }

  lemma MulZero<T(!new)>(g: Group<T>, n: int)
    requires Laws(g)
    ensures Mul(g, n, g.zero) == g.zero
  {
    MulMul(g, n, 0, g.zero);
  }

  /** Multiples of an element of order dividing r depend on the scalar modulo r only. */
  lemma MulCongruent<T(!new)>(g: Group<T>, r: int, m: int, n: int, p: T)
    requires Laws(g) && Mul(g, r, p) == g.zero && Congruent(r, m, n)
    ensures Mul(g, m, p) == Mul(g, n, p)
  {
    var k :| m - n == Multiple(k, r);
    MulMul(g, k, r, p);
    MulZero(g, k);
    MulAdd(g, k * r, n, p);
    Zero(g, Mul(g, n, p));
  }

  lemma MulOne<T(!new)>(g: Group<T>, p: T)
    requires Laws(g)
    ensures Mul(g, 1, p) == p
  {
    assert Mul(g, 1, p) == g.add(p, Mul(g, 0, p));
    Zero(g, p);
  }
}
