/** Bytes, powers of two and the bit operations the C code leans on. */
module Bits {
  type Byte = b: int | 0 <= b < 256
  type Bytes = seq<Byte>

  function Pow2(k: nat): (r: nat)
    ensures r >= 1
  {
    if k == 0 then 1 else 2 * Pow2(k - 1)
  }

  /** The bitwise `&` of two unsigned words, bit by bit. */
  function BitAnd(x: nat, y: nat): nat
  {
    if x == 0 || y == 0 then 0 else 2 * BitAnd(x / 2, y / 2) + (x % 2) * (y % 2)
  }

  lemma {:induction false} MulGrows(a: int, m: int)
    requires a >= 1 && m > 0
    ensures a * m >= m
  {
    assert (a - 1) * m >= 0;
  }

  lemma {:induction false} DivModUnique(x: int, m: int, q: int, r: int)
    requires m > 0 && x == q * m + r && 0 <= r < m
    ensures x / m == q && x % m == r
  {
    var q', r' := x / m, x % m;
    assert (q - q') * m == r' - r;
    if q > q' {
      MulGrows(q - q', m);
    } else if q < q' {
      MulGrows(q' - q, m);
    }
  }

  lemma {:induction false} ModHalves(x: nat, m: nat)
    requires m > 0
    ensures x % (2 * m) == 2 * (x / 2 % m) + x % 2
  {
    var q := x / 2 / m;
    var r := x / 2 % m;
    assert x == 2 * (q * m + r) + x % 2;
    assert x == q * (2 * m) + (2 * r + x % 2);
    DivModUnique(x, 2 * m, q, 2 * r + x % 2);
  }

  lemma {:induction false} ModAdd(a: int, b: int, m: int)
    requires m > 0
    ensures (a % m + b) % m == (a + b) % m
  {
    var q, r := (a % m + b) / m, (a % m + b) % m;
    assert a + b == (a / m + q) * m + r;
    DivModUnique(a + b, m, a / m + q, r);
  }

  lemma {:induction false} MulBound(s: nat, a: nat, b: nat)
    requires s < b
    ensures s * a <= a * b - a
  {
    var room := b - 1 - s;
    assert a * b - a - s * a == room * a;
    assert room * a >= 0;
  }

  lemma {:induction false} DivDiv(v: nat, a: nat, b: nat)
    requires a > 0 && b > 0
    ensures a * b > 0 && v / (a * b) == v / a / b
  {
    MulGrows(a, b);
    var q, s, r := v / a / b, v / a % b, v % a;
    assert v == (q * b + s) * a + r == q * (a * b) + (s * a + r) by {
      assert (q * b + s) * a == q * b * a + s * a;
      assert q * b * a == q * (a * b);
    }
    MulBound(s, a, b);
    DivModUnique(v, a * b, q, s * a + r);
  }

  lemma {:induction false} DivZeroIff(v: nat, m: nat)
    requires m > 0
    ensures v / m == 0 <==> v < m
  {
    if v < m {
      DivModUnique(v, m, 0, v);
    }
  }

  /** Masking with `2^k - 1` is reduction modulo `2^k`. */
  lemma {:induction false} MaskIsMod(x: nat, k: nat)
    ensures BitAnd(x, Pow2(k) - 1) == x % Pow2(k)
  {
    if x == 0 || k == 0 {
    } else {
      var m := Pow2(k - 1);
      assert (2 * m - 1) / 2 == m - 1 && (2 * m - 1) % 2 == 1;
      MaskIsMod(x / 2, k - 1);
      ModHalves(x, m);
    }
  }

  /** The number of bits up to the highest set one: `BITS - CLZ(n)` of the C macros. */
  function BitLength(n: nat): (r: nat)
    ensures n < Pow2(r)
    ensures n > 0 ==> r > 0 && Pow2(r - 1) <= n
  {
    if n == 0 then 0 else 1 + BitLength(n / 2)
  }

  lemma {:induction false} Pow2Sum(i: nat, j: nat)
    ensures Pow2(i + j) == Pow2(i) * Pow2(j)
  {
    if j > 0 {
      Pow2Sum(i, j - 1);
      assert Pow2(i) * (2 * Pow2(j - 1)) == 2 * (Pow2(i) * Pow2(j - 1));
    }
  }

  /** Shifting right by `i` and then by `j`. */
  lemma {:induction false} DivPow2(v: nat, i: nat, j: nat)
    ensures v / Pow2(i + j) == v / Pow2(i) / Pow2(j)
  {
    Pow2Sum(i, j);
    DivDiv(v, Pow2(i), Pow2(j));
  }

  lemma {:induction false} Pow2Monotone(a: nat, b: nat)
    requires a <= b
    ensures Pow2(a) <= Pow2(b)
    decreases b
  {
    if a < b {
      Pow2Monotone(a, b - 1);
    }
  }
}
