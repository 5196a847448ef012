/** Single bits of little-endian scalars. */
module Bits {
  import opened Arith
  import opened Words

  /** Bit i of a number. */
  function Bit(v: nat, i: nat): (b: int)
    ensures b == 0 || b == 1
  {
    (v / Pow2(i)) % 2
  }

  /** Bit i of a 32-byte scalar; positions below zero read as zero. */
  function ScalarBit(s: seq<u8>, i: int): (b: int)
    requires i < 8 * |s|
    ensures b == 0 || b == 1
  {
    if i < 0 then 0 else Bit(s[i / 8], i % 8)
  }

  lemma NestedDecomposition(q2: int, r2: int, r: int, m: int, n: int)
    requires 0 <= r2 < n && 0 <= r < m
    ensures (q2 * n + r2) * m + r == q2 * (m * n) + (r2 * m + r)
    ensures 0 <= r2 * m + r < m * n
  {
    assert (q2 * n) * m == q2 * (m * n);
    NatMulBound(r2, m, n - 1, m);
    assert (n - 1) * m == m * n - m;
  }

  lemma DivStep(a: nat, m: nat, n: nat)
    requires m > 0 && n > 0
    ensures m * n > 0
    ensures a / (m * n) == (a / m) / n
  {
    var q, r := a / m, a % m;
    var q2, r2 := q / n, q % n;
    NestedDecomposition(q2, r2, r, m, n);
    DivModUnique(a, m * n, q2, r2 * m + r);
  }

  /** Shifting right twice. */
  lemma Pow2Div(v: nat, m: nat, n: nat)
    ensures v / Pow2(m + n) == (v / Pow2(m)) / Pow2(n)
  {
    Pow2Add(m, n);
    DivStep(v, Pow2(m), Pow2(n));
  }

  /** Halving consumes the lowest bit of what is left. */
  lemma ShiftBit(v: nat, i: nat)
    ensures v / Pow2(i) == 2 * (v / Pow2(i + 1)) + Bit(v, i)
  {
    Pow2Div(v, i, 1);
    assert Pow2(1) == 2;
  }

  lemma ShiftBeyond(v: nat, i: nat)
    requires v < Pow2(i)
    ensures v / Pow2(i) == 0
  {
    DivModUnique(v, Pow2(i), 0, v);
  }

  lemma BitZeroBeyond(v: nat, i: nat)
    requires v < Pow2(i)
    ensures Bit(v, i) == 0
  {
    ShiftBeyond(v, i);
  }

  lemma {:induction false} Pow2Mono(i: nat, j: nat)
    requires i <= j
    ensures Pow2(i) <= Pow2(j)
    decreases j
  {
    if i == j {
    } else {
      Pow2Mono(i, j - 1);
    }
  }

  lemma {:induction false} Val8Bound(s: seq<u8>)
    ensures Val8(s) < Pow2(8 * |s|)
  {
    if |s| == 0 {
    } else {
      Val8Bound(s[1..]);
      Pow2Add(8, 8 * |s| - 8);
      assert Pow2(8) == 256 by { assert Pow2(4) == 16; Pow2Add(4, 4); }
    }
  }

  lemma Pow2Eight()
    ensures Pow2(8) == 256 && Pow2(4) == 16
  {
    assert Pow2(4) == 16;
    Pow2Add(4, 4);
  }

  /** The number of two byte strings put together. */
  lemma {:induction false} Val8Join(s: seq<u8>, t: seq<u8>)
    ensures Val8(s + t) == Val8(s) + Pow2(8 * |s|) * Val8(t)
  {
    if |s| == 0 {
      assert s + t == t;
    } else {
      Val8Join(s[1..], t);
      assert (s + t)[1..] == s[1..] + t;
      Pow2Eight();
      Pow2Add(8, 8 * |s| - 8);
      var w, v := Pow2(8 * |s| - 8), Val8(t);
      assert 0x100 * (w * v) == (0x100 * w) * v;
    }
  }

  lemma EvenShift(x: nat, a: nat, k: nat)
    requires a > 0
    ensures 0 <= x + (2 * k) * a
    ensures ((x + (2 * k) * a) / a) % 2 == (x / a) % 2
  {
    var q, r := x / a, x % a;
    assert x + (2 * k) * a == (2 * k + q) * a + r;
    DivModUnique(x + (2 * k) * a, a, 2 * k + q, r);
    assert (2 * k + q) % 2 == q % 2;
  }

  lemma Regroup(a: nat, c: nat, t: nat)
    ensures (a * (2 * c)) * t == (2 * (c * t)) * a && c * t >= 0
  {
    assert (a * (2 * c)) * t == (2 * c) * (t * a);
  }

  lemma Pow2Words()
    ensures Pow2(32) == B32 && Pow2(64) == B64
  {
    Pow2Eight();
    Pow2Add(8, 8);
    Pow2Add(16, 16);
    Pow2Add(32, 32);
  }

  /** Multiples of a higher power do not show in a lower bit. */
  lemma LowBit(x: nat, t: nat, i: nat, n: nat)
    requires i < n
    ensures 0 <= x + Pow2(n) * t
    ensures Bit(x + Pow2(n) * t, i) == Bit(x, i)
  {
    Pow2Add(i, n - i);
    var a, c := Pow2(i), Pow2(n - i - 1);
    Regroup(a, c, t);
    EvenShift(x, a, c * t);
  }

  /** The byte-indexed bit is the bit of the number the bytes stand for. */
  lemma {:induction false} ScalarBitIsBit(s: seq<u8>, i: nat)
    requires i < 8 * |s|
    ensures ScalarBit(s, i) == Bit(Val8(s), i)
  {
    Pow2Eight();
    if i >= 8 {
      ScalarBitIsBit(s[1..], i - 8);
      DivModUnique(Val8(s), 256, Val8(s[1..]), s[0]);
      Pow2Div(Val8(s), 8, i - 8);
      assert i / 8 - 1 == (i - 8) / 8 && i % 8 == (i - 8) % 8;
    } else {
      LowBit(s[0], Val8(s[1..]), i, 8);
    }
  }

  // ---- bitwise operators on numbers --------------------------------------------

  function BitOr(a: nat, b: nat): (r: nat)
  {
    if a == 0 && b == 0 then 0
    else (if a % 2 == 1 || b % 2 == 1 then 1 else 0) + 2 * BitOr(a / 2, b / 2)
  }

  function BitXor(a: nat, b: nat): (r: nat)
  {
    if a == 0 && b == 0 then 0
    else (if a % 2 == b % 2 then 0 else 1) + 2 * BitXor(a / 2, b / 2)
  }

  function BitAnd(a: nat, b: nat): (r: nat)
    ensures r <= a
  {
    if a == 0 || b == 0 then 0
    else (if a % 2 == 1 && b % 2 == 1 then 1 else 0) + 2 * BitAnd(a / 2, b / 2)
  }

  lemma {:induction false} OrZero(a: nat)
    ensures BitOr(0, a) == a
  {
    if a == 0 {
    } else {
      OrZero(a / 2);
    }
  }

  lemma {:induction false} OrEven(a: nat, d: nat)
    ensures BitOr(a, 2 * d) == a % 2 + 2 * BitOr(a / 2, d)
  {
    if a == 0 && d == 0 {
      assert BitOr(0, 0) == 0;
    }
  }

  lemma EvenProduct(c: nat, h: nat)
    ensures 0 <= c * h && c * (2 * h) == 2 * (c * h)
  {
  }

  /** Operands without a common bit: or is addition. */
  lemma {:induction false} OrDisjoint(a: nat, c: nat, k: nat)
    requires a < Pow2(k)
    ensures 0 <= c * Pow2(k)
    ensures BitOr(a, c * Pow2(k)) == a + c * Pow2(k)
    decreases k
  {
    if k == 0 {
      OrZero(c);
    } else {
      EvenProduct(c, Pow2(k - 1));
      OrDisjoint(a / 2, c, k - 1);
      OrEven(a, c * Pow2(k - 1));
    }
  }

  /** Or is zero only of zeros. */
  lemma {:induction false} OrIsZero(a: nat, b: nat)
    ensures BitOr(a, b) == 0 <==> a == 0 && b == 0
    decreases a + b
  {
    if a == 0 && b == 0 {
    } else {
      OrIsZero(a / 2, b / 2);
    }
  }

  /** Exclusive or is zero exactly of equals. */
  lemma {:induction false} XorIsZero(a: nat, b: nat)
    ensures BitXor(a, b) == 0 <==> a == b
    decreases a + b
  {
    if a == 0 && b == 0 {
    } else {
      XorIsZero(a / 2, b / 2);
    }
  }

  lemma {:induction false} OrBound(a: nat, b: nat, k: nat)
    requires a < Pow2(k) && b < Pow2(k)
    ensures BitOr(a, b) < Pow2(k)
    decreases k
  {
    if k == 0 || (a == 0 && b == 0) {
    } else {
      OrBound(a / 2, b / 2, k - 1);
    }
  }

  lemma {:induction false} XorBound(a: nat, b: nat, k: nat)
    requires a < Pow2(k) && b < Pow2(k)
    ensures BitXor(a, b) < Pow2(k)
    decreases k
  {
    if k == 0 || (a == 0 && b == 0) {
    } else {
      XorBound(a / 2, b / 2, k - 1);
    }
  }

  lemma {:induction false} OrComm(a: nat, b: nat)
    ensures BitOr(a, b) == BitOr(b, a)
    decreases a + b
  {
    if a == 0 && b == 0 {
    } else {
      OrComm(a / 2, b / 2);
    }
  }

  /** And with a mask of k ones is the remainder. */
  lemma {:induction false} AndMask(v: nat, k: nat)
    ensures BitAnd(v, Pow2(k) - 1) == v % Pow2(k)
    decreases k
  {
    if k == 0 {
      assert BitAnd(v, 0) == 0;
    } else {
      AndMask(v / 2, k - 1);
      var m := Pow2(k - 1);
      assert (Pow2(k) - 1) % 2 == 1 && (Pow2(k) - 1) / 2 == m - 1;
      HalfRemainder(v, m);
      if v == 0 {
        DivModUnique(0, Pow2(k), 0, 0);
      }
      assert m == 1 ==> BitAnd(v / 2, 0) == 0;
    }
  }

  lemma HalfRemainder(v: nat, m: int)
    requires m > 0
    ensures v % (2 * m) == v % 2 + 2 * ((v / 2) % m)
  {
    var q, r := (v / 2) / m, (v / 2) % m;
    assert v == 2 * (q * m + r) + v % 2;
    assert q * (2 * m) == 2 * (q * m);
    DivModUnique(v, 2 * m, q, v % 2 + 2 * r);
  }

  // ---- single bits of operators ---------------------------------------------------

  /** A bit above the lowest is a bit of the half. */
  lemma BitHalf(v: nat, i: nat)
    ensures Bit(v, 0) == v % 2
    ensures Bit(v, i + 1) == Bit(v / 2, i)
  {
    Pow2Div(v, 1, i);
    assert Pow2(1) == 2;
  }

  lemma {:induction false} BitOfOr(a: nat, b: nat, i: nat)
    ensures Bit(BitOr(a, b), i) == if Bit(a, i) == 1 || Bit(b, i) == 1 then 1 else 0
    decreases i
  {
    hide Bit, Pow2;
    BitHalf(a, if i == 0 then 0 else i - 1);
    BitHalf(b, if i == 0 then 0 else i - 1);
    BitHalf(BitOr(a, b), if i == 0 then 0 else i - 1);
    if i == 0 {
    } else {
      BitOfOr(a / 2, b / 2, i - 1);
      assert BitOr(a, b) / 2 == BitOr(a / 2, b / 2);
    }
  }

  /** Exclusive or adds bits modulo 2. */
  lemma {:induction false} BitOfXor(a: nat, b: nat, i: nat)
    ensures Bit(BitXor(a, b), i) == (Bit(a, i) + Bit(b, i)) % 2
    decreases i
  {
    hide Bit, Pow2;
    BitHalf(a, if i == 0 then 0 else i - 1);
    BitHalf(b, if i == 0 then 0 else i - 1);
    BitHalf(BitXor(a, b), if i == 0 then 0 else i - 1);
    if i == 0 {
    } else {
      BitOfXor(a / 2, b / 2, i - 1);
      assert BitXor(a, b) / 2 == BitXor(a / 2, b / 2);
    }
  }

  lemma {:induction false} BitOfAnd(a: nat, b: nat, i: nat)
    ensures Bit(BitAnd(a, b), i) == if Bit(a, i) == 1 && Bit(b, i) == 1 then 1 else 0
    decreases i
  {
    hide Bit, Pow2;
    BitHalf(a, if i == 0 then 0 else i - 1);
    BitHalf(b, if i == 0 then 0 else i - 1);
    BitHalf(BitAnd(a, b), if i == 0 then 0 else i - 1);
    if i == 0 {
    } else {
      BitOfAnd(a / 2, b / 2, i - 1);
      assert BitAnd(a, b) / 2 == BitAnd(a / 2, b / 2);
    }
  }

  /** The complement of an n-bit number flips each of its bits. */
  lemma {:induction false} BitOfNot(x: nat, n: nat, i: nat)
    requires x < Pow2(n) && i < n
    ensures Bit(Pow2(n) - 1 - x, i) == 1 - Bit(x, i)
    decreases n
  {
    hide Bit;
    var y := Pow2(n) - 1 - x;
    BitHalf(x, if i == 0 then 0 else i - 1);
    BitHalf(y, if i == 0 then 0 else i - 1);
    assert y / 2 == Pow2(n - 1) - 1 - x / 2;
    if i == 0 {
    } else {
      BitOfNot(x / 2, n - 1, i - 1);
    }
  }

  lemma QuotientBound(x: int, p: int, q: int, r: int)
    requires x >= 0 && p >= 1 && x == q * p + r && 0 <= r < p
    ensures 0 <= q <= x
  {
    if q < 0 {
      MulMono(q, -1, p);
    } else {
      MulMono(1, p, q);
    }
  }

  lemma NatDiv(x: nat, p: int)
    requires p >= 1
    ensures 0 <= x / p <= x
  {
    var q, r := x / p, x % p;
    QuotientBound(x, p, q, r);
  }

  /** Shifting right moves every bit down. */
  lemma BitOfShr(x: nat, c: nat, i: nat)
    ensures 0 <= x / Pow2(c)
    ensures Bit(x / Pow2(c), i) == Bit(x, i + c)
  {
    hide Pow2;
    NatDiv(x, Pow2(c));
    Pow2Div(x, c, i);
  }

  /** Shifting left moves every bit up and brings in zeros. */
  lemma BitOfShl(x: nat, d: nat, i: nat)
    ensures 0 <= x * Pow2(d)
    ensures Bit(x * Pow2(d), i) == if i < d then 0 else Bit(x, i - d)
  {
    hide Bit, Pow2;
    var p := Pow2(d);
    NatMulBound(x, p, x, p);
    if i < d {
      LowBit(0, x, i, d);
      ZeroBit(i);
      assert 0 + p * x == x * p;
    } else {
      BitOfShr(x * p, d, i - d);
      DivModUnique(x * p, p, x, 0);
    }
  }

  lemma ZeroBit(i: nat)
    ensures Bit(0, i) == 0
  {
    BitZeroBeyond(0, i);
  }

  lemma BitOfRemainder(x: nat, q: nat, r: nat, n: nat, i: nat)
    requires x == r + Pow2(n) * q && r < Pow2(n)
    ensures Bit(r, i) == if i < n then Bit(x, i) else 0
  {
    hide Bit, Pow2;
    if i < n {
      LowBit(r, q, i, n);
    } else {
      Pow2Mono(n, i);
      BitZeroBeyond(r, i);
    }
  }

  /** The remainder by a power of two keeps the bits below it. */
  lemma BitOfMod(x: nat, n: nat, i: nat)
    ensures 0 <= x % Pow2(n)
    ensures Bit(x % Pow2(n), i) == if i < n then Bit(x, i) else 0
  {
    hide Bit, Pow2;
    var p := Pow2(n);
    NatDiv(x, p);
    BitOfRemainder(x, x / p, x % p, n, i);
  }

  // ---- alignment --------------------------------------------------------------------

  /** The smallest y that makes x + y a multiple of p. */
  function Align(x: nat, p: nat): (y: nat)
    requires p > 0
    ensures y < p && (x + y) % p == 0
  {
    var r := x % p;
    if r == 0 then AlignZero(x, p); 0 else AlignGap(x, p); p - r
  }

  lemma AlignZero(x: nat, p: nat)
    requires p > 0 && x % p == 0
    ensures (x + 0) % p == 0
  {
  }

  lemma AlignGap(x: nat, p: nat)
    requires p > 0 && x % p != 0
    ensures (x + (p - x % p)) % p == 0
  {
    var q := x / p;
    assert x + (p - x % p) == (q + 1) * p + 0;
    DivModUnique(x + (p - x % p), p, q + 1, 0);
  }

  /** gap: on n-bit words, negating and masking finds that distance for every power
      of two. */
  lemma GapIsAlign(x: nat, n: nat, k: nat)
    requires k <= n && x < Pow2(n)
    ensures (Pow2(n) - x) % Pow2(n) >= 0
    ensures BitAnd((Pow2(n) - x) % Pow2(n), Pow2(k) - 1) == Align(x, Pow2(k))
  {
    hide Pow2, BitAnd;
    var p, m, t := Pow2(k), Pow2(n), Pow2(n - k);
    AndMask((m - x) % m, k);
    Pow2Add(k, n - k);
    NegatedRemainder(m, p, t, x, x / p, x % p);
  }

  /** The remainder of a negated word. */
  lemma NegatedRemainder(m: int, p: int, t: int, x: int, q: int, r: int)
    requires m == p * t && 0 <= x < m && p > 0 && x == q * p + r && 0 <= r < p
    ensures ((m - x) % m) % p == if r == 0 then 0 else p - r
  {
    if x == 0 {
      DivModUnique(m, m, 1, 0);
      DivModUnique(0, p, q, r);
      DivModUnique(0, p, 0, 0);
    } else {
      DivModUnique(m - x, m, 0, m - x);
      if r == 0 {
        assert (t - q) * p == t * p - q * p;
        DivModUnique(m - x, p, t - q, 0);
      } else {
        assert (t - q - 1) * p == t * p - q * p - p;
        DivModUnique(m - x, p, t - q - 1, p - r);
      }
    }
  }
}
