/** Integer arithmetic shared by the whole project: powers, Euclidean division
    by a witness, and congruence calculations written as equal remainders. */
module Arith {

  function Pow(b: int, e: nat): int
  {
    if e == 0 then 1 else b * Pow(b, e - 1)
  }

  function Pow2(e: nat): (r: int)
    ensures r > 0
  {
    if e == 0 then 1 else 2 * Pow2(e - 1)
  }

  lemma {:induction false} PowAdd(b: int, m: nat, n: nat)
    ensures Pow(b, m + n) == Pow(b, m) * Pow(b, n)
  {
    if m == 0 {
    } else {
      PowAdd(b, m - 1, n);
      var x, y := Pow(b, m - 1), Pow(b, n);
      assert Pow(b, m + n) == b * Pow(b, m - 1 + n);
      assert b * (x * y) == (b * x) * y;
    }
  }

  lemma {:induction false} PowMul(b: int, m: nat, n: nat)
    ensures Pow(Pow(b, m), n) == Pow(b, m * n)
  {
    if n == 0 {
      assert m * n == 0;
    } else {
      PowMul(b, m, n - 1);
      assert m * n == m + m * (n - 1);
      PowAdd(b, m, m * (n - 1));
    }
  }

  lemma {:induction false} Pow2Add(m: nat, n: nat)
    ensures Pow2(m + n) == Pow2(m) * Pow2(n)
  {
    if m == 0 {
    } else {
      Pow2Add(m - 1, n);
      var x, y := Pow2(m - 1), Pow2(n);
      assert Pow2(m + n) == 2 * Pow2(m - 1 + n);
      assert 2 * (x * y) == (2 * x) * y;
    }
  }

  /** Quotient and remainder are determined by any decomposition. */
  lemma DivModUnique(a: int, m: int, q: int, r: int)
    requires 0 <= r < m
    requires a == q * m + r
    ensures a / m == q && a % m == r
  {
    var d := a / m - q;
    assert d * m == r - a % m by {
      assert (a / m) * m + a % m == a;
      assert (a / m) * m - q * m == d * m;
    }
    assert d >= 1 ==> d * m >= m;
    assert d <= -1 ==> d * m <= -m;
  }

  /** Adding a multiple of the modulus leaves the remainder alone. */
  lemma ModShift(a: int, k: int, m: int)
    requires m > 0
    ensures (a + k * m) % m == a % m
  {
    var q := a / m;
    assert (a + k * m) == (q + k) * m + a % m;
    DivModUnique(a + k * m, m, q + k, a % m);
  }

  /** Equal remainders have a multiple of the modulus between them. */
  lemma ModWitness(a: int, b: int, m: int) returns (k: int)
    requires m > 0
    requires a % m == b % m
    ensures a == b + k * m
  {
    k := a / m - b / m;
    assert (a / m) * m - (b / m) * m == k * m;
  }

  lemma ModEq(x: int, y: int, k: int, m: int)
    requires m > 0 && x == y + k * m
    ensures x % m == y % m
  {
    ModShift(y, k, m);
  }

  lemma SumShift(a: int, b: int, c: int, d: int, k: int, l: int, m: int)
    requires a == c + k * m && b == d + l * m
    ensures a + b == (c + d) + (k + l) * m
    ensures a - b == (c - d) + (k - l) * m
  {
  }

  lemma ModAdd(a: int, b: int, c: int, d: int, m: int)
    requires m > 0
    requires a % m == c % m && b % m == d % m
    ensures (a + b) % m == (c + d) % m
  {
    var k := ModWitness(a, c, m);
    var l := ModWitness(b, d, m);
    SumShift(a, b, c, d, k, l, m);
    ModEq(a + b, c + d, k + l, m);
  }

  lemma ModSub(a: int, b: int, c: int, d: int, m: int)
    requires m > 0
    requires a % m == c % m && b % m == d % m
    ensures (a - b) % m == (c - d) % m
  {
    var k := ModWitness(a, c, m);
    var l := ModWitness(b, d, m);
    SumShift(a, b, c, d, k, l, m);
    ModEq(a - b, c - d, k - l, m);
  }

  lemma ModMul(a: int, b: int, c: int, d: int, m: int)
    requires m > 0
    requires a % m == c % m && b % m == d % m
    ensures (a * b) % m == (c * d) % m
  {
    var k := ModWitness(a, c, m);
    var l := ModWitness(b, d, m);
    calc {
      a * b;
      (c + k * m) * (d + l * m);
      c * d + c * (l * m) + (k * m) * d + (k * m) * (l * m);
      { assert c * (l * m) == (c * l) * m; assert (k * m) * d == (k * d) * m;
        assert (k * m) * (l * m) == (k * l * m) * m; }
      c * d + (c * l) * m + (k * d) * m + (k * l * m) * m;
      c * d + (c * l + k * d + k * l * m) * m;
    }
    ModShift(c * d, c * l + k * d + k * l * m, m);
  }

  lemma ModSelf(a: int, m: int)
    requires m > 0
    ensures (a % m) % m == a % m
  {
  }

  /** Powers of congruent bases are congruent. */
  lemma {:induction false} ModPow(a: int, b: int, e: nat, m: int)
    requires m > 0
    requires a % m == b % m
    ensures Pow(a, e) % m == Pow(b, e) % m
  {
    if e == 0 {
    } else {
      ModPow(a, b, e - 1, m);
      ModMul(a, Pow(a, e - 1), b, Pow(b, e - 1), m);
    }
  }

  lemma MulMono(x: int, y: int, z: int)
    requires x <= y && 0 <= z
    ensures x * z <= y * z
  {
  }

  lemma NatMulBound(x: nat, y: nat, a: nat, b: nat)
    requires x <= a && y <= b
    ensures 0 <= x * y <= a * b
  {
    MulMono(x, a, y);
    MulMono(y, b, a);
  }

  /** The product of bounded factors is bounded. */
  lemma AbsMulBound(x: int, y: int, a: int, b: int)
    requires -a <= x <= a && -b <= y <= b
    ensures -(a * b) <= x * y <= a * b
  {
    NatMulBound(if x < 0 then -x else x, if y < 0 then -y else y, a, b);
  }
}
