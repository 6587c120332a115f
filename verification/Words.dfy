/** Machine words and the x86 carry intrinsics, with every wrap-around written out. */
module Words {

  const TWO63 := 0x8000_0000_0000_0000
  const TWO64 := 0x1_0000_0000_0000_0000
  const TWO127 := 0x8000_0000_0000_0000_0000_0000_0000_0000
  const TWO128 := 0x1_0000_0000_0000_0000_0000_0000_0000_0000
  const TWO192 := 0x1_0000_0000_0000_0000_0000_0000_0000_0000_0000_0000_0000_0000
  const TWO256 := 0x1_0000_0000_0000_0000_0000_0000_0000_0000_0000_0000_0000_0000_0000_0000_0000_0000

  type u64 = x: int | 0 <= x < TWO64
  type bit = x: int | 0 <= x <= 1

  /** `_addcarry_u64`: the carry out and the low word of c + x + y. */
  method AddCarry(c: bit, x: u64, y: u64) returns (carry: bit, sum: u64)
    ensures carry * TWO64 + sum == c + x + y
  {
    if c + x + y < TWO64 {
      carry, sum := 0, c + x + y;
    } else {
      carry, sum := 1, c + x + y - TWO64;
    }
  }

  /** `_subborrow_u64`: the borrow out and the low word of x - y - b. */
  method SubBorrow(b: bit, x: u64, y: u64) returns (borrow: bit, diff: u64)
    ensures diff - borrow * TWO64 == x - y - b
  {
    if x - y - b >= 0 {
      borrow, diff := 0, x - y - b;
    } else {
      borrow, diff := 1, x - y - b + TWO64;
    }
  }

  lemma ProductBound(x: int, y: int, m: int, n: int)
    requires 0 <= x <= m && 0 <= y <= n
    ensures 0 <= x * y <= m * n
  {
    assert x * y <= m * y;
    assert m * y <= m * n;
  }

  lemma TimesMono(x: int, y: int, k: int)
    requires x <= y && k >= 0
    ensures x * k <= y * k
  {
  }

  lemma NoMultipleInside(k: int, d: int)
    requires d > 0 && -d < k * d < d
    ensures k == 0
  {
    assert k >= 1 ==> k * d >= 1 * d;
    assert k <= -1 ==> -k * d >= 1 * d;
  }

  lemma DivModUnique(x: int, q: int, r: int, d: int)
    requires d > 0 && x == q * d + r && 0 <= r < d
    ensures x / d == q && x % d == r
  {
    var q', r' := x / d, x % d;
    assert x == q' * d + r';
    assert (q - q') * d == q * d - q' * d;
    NoMultipleInside(q - q', d);
  }

  /** `_umul128`: the low and the high word of the 128-bit product. */
  method Mul128(x: u64, y: u64) returns (lo: u64, hi: u64)
    ensures lo + TWO64 * hi == x * y
    ensures hi <= TWO64 - 2
  {
    ProductBound(x, y, TWO64 - 1, TWO64 - 1);
    lo, hi := x * y % TWO64, x * y / TWO64;
  }

  /** `x >> 63` and `x & 0x7FFF_FFFF_FFFF_FFFF`. */
  method SplitTop(x: u64) returns (top: bit, rest: u64)
    ensures x == top * TWO63 + rest && rest < TWO63
  {
    top, rest := x / TWO63, x % TWO63;
  }

  function Pow2(n: nat): (p: nat)
    ensures p > 0
  {
    if n == 0 then 1 else 2 * Pow2(n - 1)
  }

  lemma {:induction false} Pow2Add(m: nat, n: nat)
    ensures Pow2(m + n) == Pow2(m) * Pow2(n)
  {
    if m > 0 {
      Pow2Add(m - 1, n);
      assert Pow2(m) * Pow2(n) == 2 * (Pow2(m - 1) * Pow2(n));
    }
  }

  lemma Pow2Mono(m: nat, n: nat)
    requires m <= n
    ensures Pow2(m) <= Pow2(n)
  {
    if m < n { Pow2Mono(m, n - 1); }
  }

  lemma Pow2Square(n: nat, v: nat)
    requires Pow2(n) == v
    ensures Pow2(n + n) == v * v
  {
    Pow2Add(n, n);
  }

  lemma Pow2Values()
    ensures Pow2(8) == 0x100 && Pow2(16) == 0x1_0000 && Pow2(32) == 0x1_0000_0000
    ensures Pow2(64) == TWO64 && Pow2(128) == TWO128 && Pow2(192) == TWO192 && Pow2(256) == TWO256
  {
    Pow2Square(8, 0x100);
    Pow2Square(16, 0x1_0000);
    Pow2Square(32, 0x1_0000_0000);
    Pow2Square(64, TWO64);
    Pow2Square(128, TWO128);
    Pow2Add(64, 128);
  }

  /** Conversion to a signed 32-bit number, dropping what does not fit. */
  function Int32(x: int): (r: int)
    ensures -0x8000_0000 <= r < 0x8000_0000
  {
    var r := x % 0x1_0000_0000;
    if r < 0x8000_0000 then r else r - 0x1_0000_0000
  }

  lemma Int32Small(x: int)
    requires 0 <= x < 0x8000_0000
    ensures Int32(x) == x
  {
  }
}
