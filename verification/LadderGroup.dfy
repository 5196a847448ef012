/** What the Montgomery ladder computes: one step doubles a point and adds two, and the
    whole ladder multiplies a point by the scalar. */
module LadderGroup {
  import opened Arith
  import opened Words
  import opened Bits
  import opened G = Group
  import opened FieldMul
  import opened FieldInvert
  import opened FieldElement
  import opened FieldBytes
  import opened Ladder
  import opened ScalarInverse
  import ScalarL

  // ---- one step ---------------------------------------------------------------------------

  lemma SumIs(a: int, b: int, x: int, y: int)
    requires a % P == x % P && b % P == y % P
    ensures FAdd(a, b) == (x + y) % P && FAdd(a, b) % P == (x + y) % P
  {
    ModAdd(a, b, x, y, P);
  }

  lemma DifferenceIs(a: int, b: int, x: int, y: int)
    requires a % P == x % P && b % P == y % P
    ensures FSub(a, b) == (x - y) % P && FSub(a, b) % P == (x - y) % P
  {
    ModSub(a, b, x, y, P);
  }

  lemma ProductIs(a: int, b: int, x: int, y: int)
    requires a % P == x % P && b % P == y % P
    ensures FMul(a, b) == (x * y) % P && FMul(a, b) % P == (x * y) % P
  {
    ModMul(a, b, x, y, P);
    ModSelf(a * b, P);
  }

  lemma SquaresOfSums(x: int, z: int)
    ensures (x + z) * (x + z) == x * x + 2 * (x * z) + z * z
    ensures (x - z) * (x - z) == x * x - 2 * (x * z) + z * z
    ensures (x + z) * (x - z) == x * x - z * z
  {
  }

  lemma ProductOfSquares(s: int, d: int)
    ensures (s * s) * (d * d) == (s * d) * (s * d)
  {
  }

  lemma CrossTerms(x2: int, z2: int, x3: int, z3: int)
    ensures (x3 - z3) * (x2 + z2) + (x3 + z3) * (x2 - z2) == 2 * (x2 * x3 - z2 * z3)
    ensures (x3 - z3) * (x2 + z2) - (x3 + z3) * (x2 - z2) == -2 * (x2 * z3 - z2 * x3)
  {
    assert (x3 - z3) * (x2 + z2) == x3 * x2 + x3 * z2 - z3 * x2 - z3 * z2;
    assert (x3 + z3) * (x2 - z2) == x3 * x2 - x3 * z2 + z3 * x2 - z3 * z2;
  }

  lemma Fours(t: int, x1: int)
    ensures (2 * t) * (2 * t) == 4 * (t * t) && (-2 * t) * (-2 * t) == 4 * (t * t)
    ensures x1 * (4 * (t * t)) == 4 * (x1 * (t * t))
  {
  }

  /** The first half of a step is the doubling law: (X^2 - Z^2)^2 and
      4 X Z (X^2 + 486662 X Z + Z^2) modulo p. */
  lemma StepDoubles(x1: int, x2: int, z2: int, x3: int, z3: int, a: int, b: int, m: int)
    requires a == x2 * x2 && b == z2 * z2 && m == x2 * z2
    ensures var n := RfcStep(x1, Quad(x2, z2, x3, z3));
            n.x2 == FMul(a - b, a - b) && n.z2 == FMul(4 * m, a + 486662 * m + b)
  {
    hide FAdd, FSub, FMul;
    var s, d := x2 + z2, x2 - z2;
    var u, v := FAdd(x2, z2), FSub(x2, z2);
    SumIs(x2, z2, x2, z2);
    DifferenceIs(x2, z2, x2, z2);
    var aa, bb := FMul(u, u), FMul(v, v);
    ProductIs(u, u, s, s);
    ProductIs(v, v, d, d);
    var e := FSub(aa, bb);
    DifferenceIs(aa, bb, s * s, d * d);
    SquaresOfSums(x2, z2);
    ProductIs(aa, bb, s * s, d * d);
    ProductOfSquares(s, d);
    ProductIs(121665, e, 121665, s * s - d * d);
    SumIs(aa, FMul(121665, e), s * s, 121665 * (s * s - d * d));
    ProductIs(e, FAdd(aa, FMul(121665, e)), s * s - d * d, s * s + 121665 * (s * s - d * d));
    ProductIs(a - b, a - b, a - b, a - b);
    ProductIs(4 * m, a + 486662 * m + b, 4 * m, a + 486662 * m + b);
  }

  /** The second half is the law of differential addition: 4 (X2 X3 - Z2 Z3)^2 and
      4 x1 (X2 Z3 - Z2 X3)^2 modulo p. */
  lemma StepAdds(x1: int, x2: int, z2: int, x3: int, z3: int, p: int, q: int)
    requires p == x2 * x3 - z2 * z3 && q == x2 * z3 - z2 * x3
    ensures var n := RfcStep(x1, Quad(x2, z2, x3, z3)); n.x3 == FMul(4, p * p) && n.z3 == FMul(4, x1 * (q * q))
  {
    hide FAdd, FSub, FMul;
    var a, b := FAdd(x2, z2), FSub(x2, z2);
    var c, d := FAdd(x3, z3), FSub(x3, z3);
    SumIs(x2, z2, x2, z2);
    DifferenceIs(x2, z2, x2, z2);
    SumIs(x3, z3, x3, z3);
    DifferenceIs(x3, z3, x3, z3);
    var da, cb := FMul(d, a), FMul(c, b);
    var t, v := (x3 - z3) * (x2 + z2), (x3 + z3) * (x2 - z2);
    ProductIs(d, a, x3 - z3, x2 + z2);
    ProductIs(c, b, x3 + z3, x2 - z2);
    SumIs(da, cb, t, v);
    DifferenceIs(da, cb, t, v);
    CrossTerms(x2, z2, x3, z3);
    ProductIs(FAdd(da, cb), FAdd(da, cb), 2 * p, 2 * p);
    ProductIs(FSub(da, cb), FSub(da, cb), -2 * q, -2 * q);
    Fours(p, x1);
    Fours(q, x1);
    ProductIs(x1, FMul(FSub(da, cb), FSub(da, cb)), x1, 4 * (q * q));
    ProductIs(4, p * p, 4, p * p);
    ProductIs(4, x1 * (q * q), 4, x1 * (q * q));
  }

  // ---- the curve ----------------------------------------------------------------------------

  /** A Montgomery curve: its group, which projective coordinates stand for which point,
      the u-coordinate of a point, zero for the neutral element, and a point for every
      u-coordinate. */
  datatype Montgomery<!T> = Montgomery(g: Group<T>, rep: (int, int, T) -> bool, u: T -> int, lift: int -> T)

  /** Doubling on the curve v^2 = u^3 + 486662 u^2 + u, by coordinates alone. */
  ghost predicate Doubles<T>(c: Montgomery<T>, x: int, z: int, q: T)
  {
    var a, b, m := x * x, z * z, x * z;
    c.rep(x, z, q) ==> c.rep(FMul(a - b, a - b), FMul(4 * m, a + 486662 * m + b), c.g.add(q, q))
  }

  /** Adding q and q + d, where d has the coordinate x1, not zero. */
  ghost predicate Adds<T>(c: Montgomery<T>, x1: int, d: T, x2: int, z2: int, x3: int, z3: int, q: T)
  {
    var s, t := x2 * x3 - z2 * z3, x2 * z3 - z2 * x3;
    c.rep(x1, 1, d) && x1 % P != 0 && c.rep(x2, z2, q) && c.rep(x3, z3, c.g.add(q, d)) ==>
      c.rep(FMul(4, s * s), FMul(4, x1 * (t * t)), c.g.add(q, c.g.add(q, d)))
  }

  /** The coordinate of a point is the quotient of its two projective ones; it stands
      for the point again unless it is zero. */
  ghost predicate Reads<T>(c: Montgomery<T>, x: int, z: int, q: T)
  {
    c.rep(x, z, q) ==> FMul(x, FInv(z)) == c.u(q) && (c.u(q) != 0 ==> c.rep(c.u(q), 1, q))
  }

  /** The hypotheses.  A point with the coordinate zero is neutral or its own inverse. */
  ghost predicate Lawful<T(!new)>(c: Montgomery<T>)
  {
    && Abelian(c.g)
    && (forall x, z, q :: Doubles(c, x, z, q))
    && (forall x1, d, x2, z2, x3, z3, q :: Adds(c, x1, d, x2, z2, x3, z3, q))
    && (forall x, z, q :: Reads(c, x, z, q))
    && (forall q :: c.u(q) == 0 ==> c.g.add(q, q) == c.g.zero)
    && (forall u :: c.rep(u % P, 1, c.lift(u)))
    && c.rep(1, 0, c.g.zero) && c.u(c.g.zero) == 0
  }

  // ---- the ladder ------------------------------------------------------------------------------

  /** The bits of k from n-1 down to pos, as a number. */
  function Prefix(k: nat, n: nat, pos: nat): (m: nat)
    requires pos <= n
    decreases n - pos
  {
    if pos == n then 0 else 2 * Prefix(k, n, pos + 1) + Bit(k, pos)
  }

  lemma {:induction false} PrefixIs(k: nat, n: nat, pos: nat)
    requires pos <= n
    ensures k / Pow2(pos) == Prefix(k, n, pos) + (k / Pow2(n)) * Pow2(n - pos)
    ensures Prefix(k, n, pos) < Pow2(n - pos)
    decreases n - pos
  {
    hide Bit;
    if pos == n {
    } else {
      PrefixIs(k, n, pos + 1);
      ShiftBit(k, pos);
      var h, w := k / Pow2(n), Pow2(n - pos - 1);
      assert h * (2 * w) == 2 * (h * w);
    }
  }

  lemma WholePrefix(k: nat, n: nat)
    ensures Prefix(k, n, 0) == k % Pow2(n)
  {
    hide Prefix;
    PrefixIs(k, n, 0);
    assert Pow2(0) == 1;
    DivModUnique(k, Pow2(n), k / Pow2(n), Prefix(k, n, 0));
  }

  /** The quad stands for two points. */
  ghost predicate Stands<T(!new)>(c: Montgomery<T>, s: Quad, q2: T, q3: T)
  {
    c.rep(s.x2, s.z2, q2) && c.rep(s.x3, s.z3, q3)
  }

  /** One step on a point and its successor gives their sum and the double of the first. */
  lemma StepForward<T(!new)>(c: Montgomery<T>, u: int, d: T, s: Quad, q: T)
    requires Lawful(c) && c.rep(u, 1, d) && u % P != 0
    requires Stands(c, s, q, c.g.add(q, d))
    ensures Stands(c, RfcStep(u, s), c.g.add(q, q), c.g.add(q, c.g.add(q, d)))
  {
    hide Abelian, RfcStep, FMul;
    StepDoubles(u, s.x2, s.z2, s.x3, s.z3, s.x2 * s.x2, s.z2 * s.z2, s.x2 * s.z2);
    StepAdds(u, s.x2, s.z2, s.x3, s.z3, s.x2 * s.x3 - s.z2 * s.z3, s.x2 * s.z3 - s.z2 * s.x3);
    assert Doubles(c, s.x2, s.z2, q);
    assert Adds(c, u, d, s.x2, s.z2, s.x3, s.z3, q);
  }

  /** The same with the two points exchanged: the double of the second. */
  lemma StepExchanged<T(!new)>(c: Montgomery<T>, u: int, d: T, s: Quad, q: T)
    requires Lawful(c) && c.rep(u, 1, d) && u % P != 0
    requires Stands(c, s, c.g.add(q, d), q)
    ensures var r := c.g.add(q, d); Stands(c, RfcStep(u, s), c.g.add(r, r), c.g.add(q, r))
  {
    hide Abelian, RfcStep, FMul;
    StepDoubles(u, s.x2, s.z2, s.x3, s.z3, s.x2 * s.x2, s.z2 * s.z2, s.x2 * s.z2);
    StepAdds(u, s.x2, s.z2, s.x3, s.z3, s.x2 * s.x3 - s.z2 * s.z3, s.x2 * s.z3 - s.z2 * s.x3);
    SwappedFactors(s.x2, s.z2, s.x3, s.z3);
    assert Doubles(c, s.x2, s.z2, c.g.add(q, d));
    assert Adds(c, u, d, s.x3, s.z3, s.x2, s.z2, q);
  }

  lemma SwappedFactors(x2: int, z2: int, x3: int, z3: int)
    ensures x3 * x2 - z3 * z2 == x2 * x3 - z2 * z3
    ensures (x3 * z2 - z3 * x2) * (x3 * z2 - z3 * x2) == (x2 * z3 - z2 * x3) * (x2 * z3 - z2 * x3)
  {
    var t := x2 * z3 - z2 * x3;
    assert x3 * z2 - z3 * x2 == -t;
    assert (-t) * (-t) == t * t;
  }

  /** A step on [m]D and [m+1]D, in the order the bit asks for. */
  lemma StepOnMultiples<T(!new)>(c: Montgomery<T>, u: int, d: T, s: Quad, m: int, b: int)
    requires Lawful(c) && c.rep(u, 1, d) && u % P != 0 && (b == 0 || b == 1)
    requires Stands(c, s, Times(c.g, m, d), Times(c.g, m + 1, d))
    ensures var n := Swapped(b, RfcStep(u, Swapped(b, s)));
            Stands(c, n, Times(c.g, 2 * m + b, d), Times(c.g, 2 * m + b + 1, d))
  {
    hide Abelian, Times, RfcStep, Doubles, Adds, Reads;
    var q := Times(c.g, m, d);
    TimesSuccessor(c.g, m, d);
    TimesAdd(c.g, m, m, d);
    TimesAdd(c.g, m, m + 1, d);
    TimesAdd(c.g, m + 1, m + 1, d);
    if b == 0 {
      StepForward(c, u, d, s, q);
    } else {
      StepExchanged(c, u, d, Swapped(b, s), q);
    }
  }

  /** After the bits from n-1 down to pos, [m]D and [m+1]D for the number m they make. */
  lemma {:induction false} RungsMultiply<T(!new)>(c: Montgomery<T>, u: int, d: T, k: nat, n: nat, pos: nat)
    requires Lawful(c) && c.rep(u, 1, d) && u % P != 0 && pos <= n
    ensures var m := Prefix(k, n, pos);
            Stands(c, Rungs(u, k, n, pos), Times(c.g, m, d), Times(c.g, m + 1, d))
    decreases n - pos
  {
    hide Lawful, Times, RfcStep, Bit, Stands, Swapped;
    if pos == n {
      StartStands(c, u, d);
    } else {
      RungsMultiply(c, u, d, k, n, pos + 1);
      StepOnMultiples(c, u, d, Rungs(u, k, n, pos + 1), Prefix(k, n, pos + 1), Bit(k, pos));
    }
  }

  lemma StartStands<T(!new)>(c: Montgomery<T>, u: int, d: T)
    requires Lawful(c) && c.rep(u, 1, d)
    ensures Stands(c, Quad(1, 0, u, 1), Times(c.g, 0, d), Times(c.g, 0 + 1, d))
  {
    hide Abelian, Times;
    TimesZero(c.g, d);
    G.TimesOne(c.g, d);
  }

  lemma ValueRead<T(!new)>(c: Montgomery<T>, s: Quad, q: T, r: T)
    requires Lawful(c) && Stands(c, s, q, r)
    ensures FMul(s.x2, FInv(s.z2)) == c.u(q)
    ensures c.u(q) != 0 ==> c.rep(c.u(q), 1, q)
  {
    hide Abelian, FMul, FInv;
    assert Reads(c, s.x2, s.z2, q);
  }

  /** X25519 is scalar multiplication: the ladder over n bits of k, started at the
      coordinate of D, gives the coordinate of [k mod 2^n]D. */
  lemma LadderMultiplies<T(!new)>(c: Montgomery<T>, u: int, d: T, k: nat, n: nat)
    requires Lawful(c) && c.rep(u % P, 1, d) && u % P != 0
    ensures X25519Value(k, u, n) == c.u(Times(c.g, k % Pow2(n), d))
    ensures X25519Value(k, u, n) != 0 ==> c.rep(X25519Value(k, u, n), 1, Times(c.g, k % Pow2(n), d))
  {
    hide Lawful, Times, Rungs, Prefix, FMul, FInv, Stands;
    RungsMultiply(c, u % P, d, k, n, 0);
    WholePrefix(k, n);
    var m := Prefix(k, n, 0);
    ValueRead(c, Rungs(u % P, k, n, 0), Times(c.g, m, d), Times(c.g, m + 1, d));
  }

  // ---- the coordinate zero ------------------------------------------------------------------------

  lemma ZeroProduct(x: int)
    ensures FMul(x, 0) == 0 && FMul(0, x) == 0
  {
  }

  lemma ZeroStep(s: Quad)
    requires s.x2 * s.z2 == 0
    ensures var n := RfcStep(0, s); n.z2 == 0 && n.z3 == 0
  {
    hide RfcStep, FMul;
    var q := s.x2 * s.z3 - s.z2 * s.x3;
    StepDoubles(0, s.x2, s.z2, s.x3, s.z3, s.x2 * s.x2, s.z2 * s.z2, 0);
    StepAdds(0, s.x2, s.z2, s.x3, s.z3, s.x2 * s.x3 - s.z2 * s.z3, q);
    ZeroProduct(4);
    ZeroProduct(s.x2 * s.x2 + s.z2 * s.z2);
    assert 0 * (q * q) == 0;
  }

  /** Started at the coordinate zero, the ladder loses both denominators at once. */
  lemma {:induction false} ZeroRungs(k: nat, n: nat, pos: nat)
    requires pos <= n
    ensures var s := Rungs(0, k, n, pos);
            s.x2 * s.z2 == 0 && s.x3 * s.z3 == 0 && s.z2 == 0 && (pos < n ==> s.z3 == 0)
    decreases n - pos
  {
    hide RfcStep, Bit;
    if pos == n {
    } else {
      ZeroRungs(k, n, pos + 1);
      var s := Rungs(0, k, n, pos + 1);
      ZeroStep(Swapped(Bit(k, pos), s));
    }
  }

  /** X25519 of the coordinate zero is zero, whatever the scalar. */
  lemma ZeroStaysZero(k: nat, u: int, n: nat)
    requires u % P == 0
    ensures X25519Value(k, u, n) == 0
  {
    hide Rungs, FMul, FInv;
    ZeroRungs(k, n, 0);
    InverseOfZero(0);
    ZeroProduct(Rungs(0, k, n, 0).x2);
  }

  // ---- agreement ------------------------------------------------------------------------------------

  /** Multiples of a point that is its own inverse. */
  lemma OwnInverse<T(!new)>(g: Group<T>, q: T, k: int)
    requires Abelian(g) && g.add(q, q) == g.zero
    ensures Times(g, k, q) == if k % 2 == 0 then g.zero else q
  {
    hide Abelian, Times;
    G.TimesOne(g, q);
    TimesSuccessor(g, 1, q);
    TimesOrder(g, 2, k / 2, k, k % 2, q);
    TimesZero(g, q);
  }

  lemma ZeroCoordinate<T(!new)>(c: Montgomery<T>, q: T, k: int)
    requires Lawful(c) && c.u(q) == 0
    ensures c.u(Times(c.g, k, q)) == 0
  {
    hide Abelian, Times;
    OwnInverse(c.g, q, k);
  }

  lemma Lifted<T(!new)>(c: Montgomery<T>, u: int)
    requires Lawful(c)
    ensures Abelian(c.g) && c.rep(u % P, 1, c.lift(u)) && c.u(c.lift(u)) == u % P
  {
    hide Abelian, FInv;
    assert Reads(c, u % P, 1, c.lift(u));
    InverseOfOne();
    ModSelf(u, P);
  }

  lemma InverseOfOne()
    ensures FInv(1) == 1
  {
    OnePower(P - 2);
  }

  lemma {:induction false} OnePower(e: nat)
    ensures Pow(1, e) == 1
  {
    if e == 0 {
    } else {
      OnePower(e - 1);
    }
  }

  /** X25519 for every coordinate: the one of the multiple of its point. */
  lemma LadderValue<T(!new)>(c: Montgomery<T>, u: int, k: nat, n: nat)
    requires Lawful(c)
    ensures X25519Value(k, u, n) == c.u(Times(c.g, k % Pow2(n), c.lift(u)))
  {
    hide Lawful, Times, X25519Value;
    Lifted(c, u);
    if u % P == 0 {
      ZeroStaysZero(k, u, n);
      ZeroCoordinate(c, c.lift(u), k % Pow2(n));
    } else {
      LadderMultiplies(c, u, c.lift(u), k, n);
    }
  }

  /** Applied twice, the scalars multiply. */
  lemma LadderTwice<T(!new)>(c: Montgomery<T>, u: int, a: nat, n: nat, b: nat, m: nat)
    requires Lawful(c)
    ensures X25519Value(a, X25519Value(b, u, m), n)
         == c.u(Times(c.g, (a % Pow2(n)) * (b % Pow2(m)), c.lift(u)))
  {
    hide Lawful, Times, X25519Value, Pow2;
    var p, q, d := a % Pow2(n), b % Pow2(m), c.lift(u);
    var v := X25519Value(b, u, m);
    Lifted(c, u);
    LadderValue(c, u, b, m);
    TimesTimes(c.g, p, q, d);
    ValueRange(b, u, m);
    if v == 0 {
      ZeroStaysZero(a, v, n);
      ZeroCoordinate(c, Times(c.g, q, d), p);
    } else {
      NonzeroBelow(v);
      if u % P == 0 {
        ZeroStaysZero(b, u, m);
      } else {
        LadderMultiplies(c, u, d, b, m);
        LadderMultiplies(c, v, Times(c.g, q, d), a, n);
      }
    }
  }

  lemma ValueRange(k: nat, u: int, n: nat)
    ensures 0 <= X25519Value(k, u, n) < P
  {
    hide Rungs, FInv;
  }

  lemma NonzeroBelow(v: int)
    requires 0 < v < P
    ensures v % P == v
  {
    DivModUnique(v, P, 0, v);
  }

  /** Key agreement: both orders of two scalars give the same value. */
  lemma LadderCommutes<T(!new)>(c: Montgomery<T>, u: int, a: nat, b: nat, n: nat)
    requires Lawful(c)
    ensures X25519Value(a, X25519Value(b, u, n), n) == X25519Value(b, X25519Value(a, u, n), n)
  {
    hide Lawful, Times, X25519Value, Pow2;
    LadderTwice(c, u, a, n, b, n);
    LadderTwice(c, u, b, n, a, n);
    var p, q := a % Pow2(n), b % Pow2(n);
    assert p * q == q * p;
  }

  /** What trimming is for: a point of order dividing eight yields zero under every
      trimmed scalar. */
  lemma SmallOrderIsZero<T(!new)>(c: Montgomery<T>, u: int, s: seq<u8>)
    requires Lawful(c) && |s| == 32 && Times(c.g, 8, c.lift(u)) == c.g.zero
    ensures X25519Value(Val8(Trim(s)), u, 255) == 0
  {
    hide Times, X25519Value, Pow2, Val8, Trim, Doubles, Adds, Reads, Abelian;
    var k, d := Val8(Trim(s)), c.lift(u);
    TrimmedScalar(s);
    DivModUnique(k, Pow2(255), 0, k);
    LadderValue(c, u, k, 255);
    TimesOrder(c.g, 8, k / 8, k, 0, d);
    TimesZero(c.g, d);
  }

  // ---- the calls ----------------------------------------------------------------------------------------

  /** crypto_x25519_public_key: the base point is the coordinate nine. */
  const NINE: seq<u8> := StoreLimbs([9, 0, 0, 0, 0, 0, 0, 0])

  lemma NineIs()
    ensures |NINE| == 32 && Val8(NINE) == 9
  {
    hide Val8, Val32, StoreLimbs;
    var w := [9, 0, 0, 0, 0, 0, 0, 0];
    StoreLimbsVal(w);
    Val32Of8(w);
  }

  lemma BelowTopBit(v: int)
    requires 0 <= v < P
    ensures v % W255 == v
  {
    DivModUnique(v, W255, 0, v);
  }

  method X25519PublicKey(secretKey: seq<u8>) returns (publicKey: seq<u8>)
    requires |secretKey| == 32 && PrimeField()
    ensures |publicKey| == 32 && Val8(publicKey) == X25519Value(Val8(Trim(secretKey)), 9, 255)
  {
    hide PrimeField, Val8, Trim, X25519Value, StoreLimbs, NINE;
    NineIs();
    BelowTopBit(9);
    publicKey := X25519(secretKey, NINE);
  }

  /** Two parties that exchange public keys compute the same shared secret, the
      coordinate of the product of their scalars. */
  method Agree<T(!new)>(ghost c: Montgomery<T>, a: seq<u8>, b: seq<u8>) returns (s: seq<u8>, t: seq<u8>)
    requires Lawful(c) && |a| == 32 && |b| == 32 && PrimeField()
    ensures s == t && |s| == 32
    ensures Val8(s) == c.u(Times(c.g, Val8(Trim(a)) * Val8(Trim(b)), c.lift(9)))
  {
    hide PrimeField, Val8, Trim, X25519Value, Lawful, Times, Pow2;
    var x := X25519PublicKey(a);
    var y := X25519PublicKey(b);
    s := X25519(a, y);
    t := X25519(b, x);
    ghost var k, l := Val8(Trim(a)), Val8(Trim(b));
    ValueRange(k, 9, 255);
    ValueRange(l, 9, 255);
    BelowTopBit(Val8(x));
    BelowTopBit(Val8(y));
    LadderCommutes(c, 9, k, l, 255);
    LadderTwice(c, 9, k, 255, l, 255);
    TrimmedScalar(a);
    TrimmedScalar(b);
    DivModUnique(k, Pow2(255), 0, k);
    DivModUnique(l, Pow2(255), 0, l);
    Val8Injective(s, t);
  }

  const L: int := ScalarL.L

  /** Eight times the group order is above every trimmed scalar, so L divides none. */
  lemma TrimmedIsInvertible(s: seq<u8>)
    requires |s| == 32
    ensures Val8(Trim(s)) % L != 0
  {
    hide Val8, Trim, Pow2;
    TrimmedScalar(s);
    BelowEightL();
    NotMultiple(Val8(Trim(s)));
  }

  lemma BelowEightL()
    ensures Pow2(255) < 8 * L && 0 < Pow2(254) && 8 * L < Pow2(256)
  {
    Pow2Words();
    Pow2Add(64, 64);
    Pow2Add(128, 64);
    Pow2Add(192, 64);
    assert Pow2(256) == 2 * Pow2(255);
  }

  lemma NotMultiple(v: int)
    requires 0 < v < 8 * L && v % 8 == 0
    ensures v % L != 0
  {
  }

  lemma BlindingBound(k: nat, s: nat)
    requires Blinds(k, s)
    ensures k < Pow2(256)
  {
    hide Pow2;
    BelowEightL();
  }

  lemma BackToPoint<T(!new)>(c: Montgomery<T>, d: T, s: int, k: int)
    requires Lawful(c) && InverseModL(s, k) && Times(c.g, L, d) == c.g.zero
    ensures Times(c.g, s * k, d) == d
  {
    hide Abelian, Times, Doubles, Adds, Reads;
    var q :| s * k == 1 + TimesL(q);
    TimesOrder(c.g, L, q, s * k, 1, d);
    G.TimesOne(c.g, d);
  }

  /** The key after the blinding scalar leaves a point of order L where it was. */
  lemma InverseUndone<T(!new)>(c: Montgomery<T>, u: int, key: seq<u8>, k: nat)
    requires Lawful(c) && PrimeOrder() && |key| == 32 && Blinds(k, Val8(Trim(key)))
    requires Times(c.g, L, c.lift(u)) == c.g.zero
    ensures X25519Value(Val8(Trim(key)), X25519Value(k, u, 256), 255) == u % P
  {
    hide PrimeOrder, Val8, Trim, X25519Value, Lawful, Times, Pow2, Blinds, InverseModL;
    var s := Val8(Trim(key));
    LadderTwice(c, u, s, 255, k, 256);
    TrimmedScalar(key);
    TrimmedIsInvertible(key);
    BlindingBound(k, s);
    DivModUnique(s, Pow2(255), 0, s);
    DivModUnique(k, Pow2(256), 0, k);
    BlindingInverts(k, s);
    BackToPoint(c, c.lift(u), s, k);
    Lifted(c, u);
  }

  /** crypto_x25519_inverse undone: the key applied to the salt gives back the
      coordinate of a point of order L. */
  method UndoInverse<T(!new)>(ghost c: Montgomery<T>, privateKey: seq<u8>, curvePoint: seq<u8>) returns (p: seq<u8>)
    requires Lawful(c) && PrimeField() && PrimeOrder() && |privateKey| == 32 && |curvePoint| == 32
    requires Times(c.g, L, c.lift(Val8(curvePoint) % W255)) == c.g.zero
    ensures |p| == 32 && Val8(p) == (Val8(curvePoint) % W255) % P
  {
    hide PrimeField, PrimeOrder, Val8, Trim, X25519Value, Lawful, Times, Blinds;
    ghost var u := Val8(curvePoint) % W255;
    ghost var k;
    var salt;
    salt, k := X25519Inverse(privateKey, curvePoint);
    ValueRange(k, u, 256);
    BelowTopBit(Val8(salt));
    p := X25519(privateKey, salt);
    InverseUndone(c, u, privateKey, k);
  }
}
