/** The first eighty primes, from which SHA-512 takes its constants. */
module Primes {
  import opened Arith

  predicate IsPrime(n: nat)
  {
    n >= 2 && forall d :: 2 <= d < n ==> n % d != 0
  }

  /** How many primes are below n. */
  function PrimesBelow(n: nat): (c: nat)
  {
    if n == 0 then 0 else PrimesBelow(n - 1) + if IsPrime(n - 1) then 1 else 0
  }

  // The table, sixteen primes at a time.
  const P0: seq<nat> := [2, 3, 5, 7, 11, 13, 17, 19, 23, 29, 31, 37, 41, 43, 47, 53]
  const P1: seq<nat> := [59, 61, 67, 71, 73, 79, 83, 89, 97, 101, 103, 107, 109, 113, 127, 131]
  const P2: seq<nat> := [137, 139, 149, 151, 157, 163, 167, 173, 179, 181, 191, 193, 197, 199, 211, 223]
  const P3: seq<nat> := [227, 229, 233, 239, 241, 251, 257, 263, 269, 271, 277, 281, 283, 293, 307, 311]
  const P4: seq<nat> := [313, 317, 331, 337, 347, 349, 353, 359, 367, 373, 379, 383, 389, 397, 401, 409]

  const TABLE: seq<nat> := P0 + P1 + P2 + P3 + P4

  /** Entry t of five rows of sixteen put together. */
  lemma RowEntry<T>(a: seq<T>, b: seq<T>, c: seq<T>, d: seq<T>, e: seq<T>, t: nat)
    requires |a| == |b| == |c| == |d| == |e| == 16 && t < 80
    ensures |a + b + c + d + e| == 80
    ensures (a + b + c + d + e)[t] == if t < 16 then a[t] else if t < 32 then b[t - 16] else if t < 48 then c[t - 32]
        else if t < 64 then d[t - 48] else e[t - 64]
  {
  }

  /** Trial division by the primes below 20. */
  predicate Trial(n: nat)
  {
    && n >= 2
    && (n == 2 || n % 2 != 0) && (n == 3 || n % 3 != 0) && (n == 5 || n % 5 != 0) && (n == 7 || n % 7 != 0)
    && (n == 11 || n % 11 != 0) && (n == 13 || n % 13 != 0) && (n == 17 || n % 17 != 0) && (n == 19 || n % 19 != 0)
  }

  lemma SmallFactor(d: nat) returns (q: nat)
    requires 2 <= d < 23
    ensures q in {2, 3, 5, 7, 11, 13, 17, 19} && d % q == 0
  {
    q := if d % 2 == 0 then 2 else if d % 3 == 0 then 3 else if d % 5 == 0 then 5 else d;
  }

  lemma FactorOfProduct(n: nat, d: nat, e: nat, q: nat)
    requires n == d * e && q > 0 && d % q == 0
    ensures n % q == 0
  {
    var k := d / q;
    assert d == q * k;
    assert n == (k * e) * q + 0;
    DivModUnique(n, q, k * e, 0);
  }

  /** A small divisor of a number that passes is the number itself. */
  lemma TrialDivisor(n: nat, d: nat, e: nat)
    requires Trial(n) && n == d * e && 2 <= d < 23
    ensures d >= n
  {
    var q := SmallFactor(d);
    FactorOfProduct(n, d, e, q);
  }

  lemma SmallerFactor(n: nat, d: nat, e: nat)
    requires n == d * e && n < 529
    ensures d < 23 || e < 23
  {
    if d >= 23 && e >= 23 {
      MulMono(23, d, e);
    }
  }

  /** Below 23 squared, passing the trial is being prime. */
  lemma TrialIsPrime(n: nat)
    requires n < 529
    ensures Trial(n) <==> IsPrime(n)
  {
    if Trial(n) {
      forall d | 2 <= d < n ensures n % d != 0 {
        NoDivisor(n, d);
      }
    } else if IsPrime(n) {
      PrimePasses(n);
    }
  }

  lemma NoDivisor(n: nat, d: nat)
    requires n < 529 && Trial(n) && 2 <= d < n
    ensures n % d != 0
  {
    hide Trial;
    var e := n / d;
    if n % d == 0 {
      assert n == d * e && 1 < e < n;
      SmallerFactor(n, d, e);
      if d < 23 {
        TrialDivisor(n, d, e);
      } else {
        TrialDivisor(n, e, d);
      }
    }
  }

  lemma PrimePasses(n: nat)
    requires IsPrime(n)
    ensures Trial(n)
  {
  }

  lemma WheelResidue(r: nat)
    requires r < 30 && r % 2 != 0 && r % 3 != 0 && r % 5 != 0
    ensures r in {1, 7, 11, 13, 17, 19, 23, 29}
  {
  }

  /** Only eight residues modulo 30 pass. */
  lemma Wheel(n: nat, b: nat)
    requires 30 * b <= n < 30 * b + 30 && n > 5 && Trial(n)
    ensures n - 30 * b in {1, 7, 11, 13, 17, 19, 23, 29}
  {
    var r := n - 30 * b;
    ModShift(r, 15 * b, 2);
    ModShift(r, 10 * b, 3);
    ModShift(r, 6 * b, 5);
    WheelResidue(r);
  }

  lemma Passing0(n: nat)
    requires 0 <= n < 90 && Trial(n)
    ensures n in P0 || n in P1
  {
    if n <= 5 {
    } else if n < 30 {
      Wheel(n, 0);
    } else if n < 60 {
      Wheel(n, 1);
    } else if n < 90 {
      Wheel(n, 2);
    }
  }

  lemma Passing90(n: nat)
    requires 90 <= n < 180 && Trial(n)
    ensures n in P1 || n in P2
  {
    if n < 120 {
      Wheel(n, 3);
    } else if n < 150 {
      Wheel(n, 4);
    } else if n < 180 {
      Wheel(n, 5);
    }
  }

  lemma Passing180(n: nat)
    requires 180 <= n < 270 && Trial(n)
    ensures n in P2 || n in P3
  {
    if n < 210 {
      Wheel(n, 6);
    } else if n < 240 {
      Wheel(n, 7);
    } else if n < 270 {
      Wheel(n, 8);
    }
  }

  lemma Passing270(n: nat)
    requires 270 <= n < 360 && Trial(n)
    ensures n in P3 || n in P4
  {
    if n < 300 {
      Wheel(n, 9);
    } else if n < 330 {
      Wheel(n, 10);
    } else if n < 360 {
      Wheel(n, 11);
    }
  }

  lemma Passing360(n: nat)
    requires 360 <= n < 410 && Trial(n)
    ensures n in P4
  {
    if n < 390 {
      Wheel(n, 12);
    } else if n < 420 {
      Wheel(n, 13);
    }
  }

  lemma Row0Passes(i: nat)
    requires i < 16
    ensures |P0| == 16 && P0[i] < 410 && Trial(P0[i])
    ensures i > 0 ==> P0[i - 1] < P0[i]
  {
  }

  lemma Row1Passes(i: nat)
    requires i < 16
    ensures |P1| == 16 && P1[i] < 410 && Trial(P1[i])
    ensures i > 0 ==> P1[i - 1] < P1[i]
  {
  }

  lemma Row2Passes(i: nat)
    requires i < 16
    ensures |P2| == 16 && P2[i] < 410 && Trial(P2[i])
    ensures i > 0 ==> P2[i - 1] < P2[i]
  {
  }

  lemma Row3Passes(i: nat)
    requires i < 16
    ensures |P3| == 16 && P3[i] < 410 && Trial(P3[i])
    ensures i > 0 ==> P3[i - 1] < P3[i]
  {
  }

  lemma Row4Passes(i: nat)
    requires i < 16
    ensures |P4| == 16 && P4[i] < 410 && Trial(P4[i])
    ensures i > 0 ==> P4[i - 1] < P4[i]
  {
  }

  lemma Members(n: nat)
    ensures n in P0 || n in P1 || n in P2 || n in P3 || n in P4 ==> n in TABLE
  {
    hide P0, P1, P2, P3, P4;
  }

  /** Every prime below 410 is in the table. */
  lemma TableComplete(n: nat)
    requires n < 410 && IsPrime(n)
    ensures n in TABLE
  {
    hide Trial, IsPrime, P0, P1, P2, P3, P4, TABLE;
    TrialIsPrime(n);
    Members(n);
    if n < 90 {
      Passing0(n);
    } else if n < 180 {
      Passing90(n);
    } else if n < 270 {
      Passing180(n);
    } else if n < 360 {
      Passing270(n);
    } else {
      Passing360(n);
    }
  }

  lemma RowsAreLong()
    ensures |P0| == |P1| == |P2| == |P3| == |P4| == 16
    ensures P0[15] < P1[0] && P1[15] < P2[0] && P2[15] < P3[0] && P3[15] < P4[0]
  {
  }

  /** Entry t of the table: below 410, prime, above the entry before it. */
  lemma TableEntry(t: nat)
    requires t < 80
    ensures |TABLE| == 80 && TABLE[t] < 410 && IsPrime(TABLE[t])
    ensures t > 0 ==> TABLE[t - 1] < TABLE[t]
  {
    hide IsPrime, P0, P1, P2, P3, P4, Trial;
    RowsAreLong();
    RowEntry(P0, P1, P2, P3, P4, t);
    if t > 0 {
      RowEntry(P0, P1, P2, P3, P4, t - 1);
    }
    if t < 16 {
      Row0Passes(t);
    } else if t < 32 {
      Row1Passes(t - 16);
    } else if t < 48 {
      Row2Passes(t - 32);
    } else if t < 64 {
      Row3Passes(t - 48);
    } else {
      Row4Passes(t - 64);
    }
    TrialIsPrime(TABLE[t]);
  }

  /** The table ascends. */
  lemma {:induction false} Ascends(i: nat, j: nat)
    requires i < j < 80
    ensures |TABLE| == 80 && TABLE[i] < TABLE[j]
    decreases j
  {
    hide TABLE, IsPrime;
    TableEntry(j);
    if i == j - 1 {
    } else {
      Ascends(i, j - 1);
    }
  }

  /** Counting on over a range without primes. */
  lemma {:induction false} NoneBetween(a: nat, b: nat)
    requires a <= b && forall n :: a <= n < b ==> !IsPrime(n)
    ensures PrimesBelow(b) == PrimesBelow(a)
    decreases b
  {
    hide IsPrime;
    if a == b {
    } else {
      NoneBetween(a, b - 1);
    }
  }

  /** Entry t of the table is the prime with t primes below it. */
  lemma {:induction false} TableCounts(t: nat)
    requires t < 80
    ensures |TABLE| == 80 && IsPrime(TABLE[t]) && PrimesBelow(TABLE[t]) == t
  {
    hide TABLE, IsPrime, PrimesBelow;
    TableEntry(t);
    var a := if t == 0 then 0 else TABLE[t - 1] + 1;
    forall n | a <= n < TABLE[t] ensures !IsPrime(n) {
      Skipped(t, n);
    }
    NoneBetween(a, TABLE[t]);
    if t == 0 {
      NoPrimesBelowZero();
    } else {
      TableCounts(t - 1);
      NextCount(TABLE[t - 1]);
    }
  }

  lemma NoPrimesBelowZero()
    ensures PrimesBelow(0) == 0
  {
  }

  lemma NextCount(p: nat)
    requires IsPrime(p)
    ensures PrimesBelow(p + 1) == PrimesBelow(p) + 1
  {
  }

  /** No prime lies between neighbouring entries. */
  lemma Skipped(t: nat, n: nat)
    requires t < 80 && |TABLE| == 80 && n < TABLE[t] && (t > 0 ==> TABLE[t - 1] < n)
    ensures !IsPrime(n)
  {
    hide TABLE, IsPrime;
    if IsPrime(n) {
      TableEntry(t);
      TableComplete(n);
      var j :| 0 <= j < 80 && TABLE[j] == n;
      if j < t - 1 {
        Ascends(j, t - 1);
      } else if t < j {
        Ascends(t, j);
      }
    }
  }
}
