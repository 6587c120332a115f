/** Congruence of integers modulo m, by an explicit multiple. */
module Congruence {

  function Multiple(k: int, m: int): int {
    k * m
  }

  ghost predicate Congruent(m: int, x: int, y: int) {
    exists k :: x - y == Multiple(k, m)
  }

  lemma CongMultiple(m: int, x: int, k: int, y: int)
    requires x - y == k * m
    ensures Congruent(m, x, y)
  {
    assert x - y == Multiple(k, m);
  }

  lemma CongRefl(m: int, x: int)
    ensures Congruent(m, x, x)
  {
    CongMultiple(m, x, 0, x);
  }

  lemma CongSym(m: int, x: int, y: int)
    requires Congruent(m, x, y)
    ensures Congruent(m, y, x)
  {
    var k :| x - y == Multiple(k, m);
    CongMultiple(m, y, -k, x);
  }

  lemma CongAdd(m: int, x: int, x': int, y: int, y': int)
    requires Congruent(m, x, x') && Congruent(m, y, y')
    ensures Congruent(m, x + y, x' + y') && Congruent(m, x - y, x' - y')
  {
    var k :| x - x' == Multiple(k, m);
    var l :| y - y' == Multiple(l, m);
    CongMultiple(m, x + y, k + l, x' + y');
    CongMultiple(m, x - y, k - l, x' - y');
  }

  lemma CongTrans(m: int, x: int, y: int, z: int)
    requires Congruent(m, x, y) && Congruent(m, y, z)
    ensures Congruent(m, x, z)
  {
    CongAdd(m, x, y, y, z);
  }

  lemma CongMul(m: int, x: int, x': int, y: int, y': int)
    requires Congruent(m, x, x') && Congruent(m, y, y')
    ensures Congruent(m, x * y, x' * y')
  {
    var k :| x - x' == Multiple(k, m);
    var l :| y - y' == Multiple(l, m);
    assert x * y - x' * y' == (x - x') * y + x' * (y - y');
    assert k * m * y == k * y * m;
    assert x' * (l * m) == x' * l * m;
    assert k * y * m + x' * l * m == (k * y + x' * l) * m;
    CongMultiple(m, x * y, k * y + x' * l, x' * y');
  }

  /** Congruent numbers in the same residue range are equal. */
  lemma CongUnique(m: int, x: int, y: int)
    requires m > 0 && Congruent(m, x, y) && 0 <= x < m && 0 <= y < m
    ensures x == y
  {
    var k :| x - y == Multiple(k, m);
    assert k >= 1 ==> k * m >= m;
    assert k <= -1 ==> k * m <= -m;
  }

  lemma CongMod(m: int, x: int)
    requires m > 0
    ensures Congruent(m, x % m, x)
  {
    CongMultiple(m, x % m, -(x / m), x);
  }

  lemma CongUndo(m: int, t: int, inv: int, x: int)
    requires Congruent(m, t * inv, 1)
    ensures Congruent(m, x * t * inv, x)
  {
    CongRefl(m, x);
    CongMul(m, x, x, t * inv, 1);
    assert x * t * inv == x * (t * inv);
  }

  /** A factor with an inverse cancels. */
  lemma CongCancel(m: int, t: int, inv: int, x: int, y: int)
    requires Congruent(m, t * inv, 1) && Congruent(m, x * t, y * t)
    ensures Congruent(m, x, y)
  {
    CongRefl(m, inv);
    CongMul(m, x * t, y * t, inv, inv);
    CongUndo(m, t, inv, x);
    CongUndo(m, t, inv, y);
    CongSym(m, x * t * inv, x);
    CongTrans(m, x, x * t * inv, y * t * inv);
    CongTrans(m, x, y * t * inv, y);
  }
}
