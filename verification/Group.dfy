/** An abstract abelian group and its integer multiples: what the curve code
    relies on, with the group law itself taken as a hypothesis. */
module Group {

  datatype Group<!T> = Group(zero: T, add: (T, T) -> T, neg: T -> T)

  ghost predicate Commutes<T>(g: Group<T>, x: T, y: T)
  {
    g.add(x, y) == g.add(y, x)
  }

  ghost predicate Associates<T>(g: Group<T>, x: T, y: T, z: T)
  {
    g.add(g.add(x, y), z) == g.add(x, g.add(y, z))
  }

  ghost predicate HasUnit<T>(g: Group<T>, x: T)
  {
    g.add(x, g.zero) == x
  }

  ghost predicate HasInverse<T>(g: Group<T>, x: T)
  {
    g.add(x, g.neg(x)) == g.zero
  }

  ghost predicate Abelian<T(!new)>(g: Group<T>)
  {
    && (forall x: T, y: T :: Commutes(g, x, y))
    && (forall x: T, y: T, z: T :: Associates(g, x, y, z))
    && (forall x: T :: HasUnit(g, x))
    && (forall x: T :: HasInverse(g, x))
  }

  /** n times x, for a natural number. */
  ghost function NatTimes<T>(g: Group<T>, n: nat, x: T): T
  {
    if n == 0 then g.zero else g.add(NatTimes(g, n - 1, x), x)
  }

  /** n times x, for any integer. */
  ghost function Times<T>(g: Group<T>, n: int, x: T): T
  {
    if n >= 0 then NatTimes(g, n, x) else g.neg(NatTimes(g, -n, x))
  }

  lemma Comm<T(!new)>(g: Group<T>, x: T, y: T)
    requires Abelian(g)
    ensures g.add(x, y) == g.add(y, x)
  {
    assert Commutes(g, x, y);
  }

  lemma Assoc<T(!new)>(g: Group<T>, x: T, y: T, z: T)
    requires Abelian(g)
    ensures g.add(g.add(x, y), z) == g.add(x, g.add(y, z))
  {
    assert Associates(g, x, y, z);
  }

  lemma Unit<T(!new)>(g: Group<T>, x: T)
    requires Abelian(g)
    ensures g.add(x, g.zero) == x && g.add(g.zero, x) == x
  {
    assert HasUnit(g, x);
    assert Commutes(g, x, g.zero);
  }

  lemma Inverse<T(!new)>(g: Group<T>, x: T)
    requires Abelian(g)
    ensures g.add(x, g.neg(x)) == g.zero && g.add(g.neg(x), x) == g.zero
  {
    assert HasInverse(g, x);
    assert Commutes(g, x, g.neg(x));
  }

  /** The inverse is unique. */
  lemma InverseIs<T(!new)>(g: Group<T>, x: T, y: T)
    requires Abelian(g) && g.add(x, y) == g.zero
    ensures y == g.neg(x)
  {
    hide Abelian;
    Unit(g, y);
    Inverse(g, x);
    Assoc(g, g.neg(x), x, y);
    Unit(g, g.neg(x));
  }

  /** Swapping the middle of a sum of four. */
  lemma Middle<T(!new)>(g: Group<T>, a: T, b: T, c: T, d: T)
    requires Abelian(g)
    ensures g.add(g.add(a, b), g.add(c, d)) == g.add(g.add(a, c), g.add(b, d))
  {
    hide Abelian;
    Assoc(g, a, b, g.add(c, d));
    Assoc(g, b, c, d);
    Comm(g, b, c);
    Assoc(g, c, b, d);
    Assoc(g, a, c, g.add(b, d));
  }

  lemma NegZero<T(!new)>(g: Group<T>)
    requires Abelian(g)
    ensures g.neg(g.zero) == g.zero
  {
    hide Abelian;
    Unit(g, g.zero);
    InverseIs(g, g.zero, g.zero);
  }

  lemma NegNeg<T(!new)>(g: Group<T>, x: T)
    requires Abelian(g)
    ensures g.neg(g.neg(x)) == x
  {
    hide Abelian;
    Inverse(g, x);
    InverseIs(g, g.neg(x), x);
  }

  lemma NegAdd<T(!new)>(g: Group<T>, x: T, y: T)
    requires Abelian(g)
    ensures g.neg(g.add(x, y)) == g.add(g.neg(x), g.neg(y))
  {
    hide Abelian;
    Middle(g, x, y, g.neg(x), g.neg(y));
    Inverse(g, x);
    Inverse(g, y);
    Unit(g, g.zero);
    InverseIs(g, g.add(x, y), g.add(g.neg(x), g.neg(y)));
  }

  lemma TimesNegate<T(!new)>(g: Group<T>, n: int, x: T)
    requires Abelian(g)
    ensures Times(g, -n, x) == g.neg(Times(g, n, x))
  {
    hide Abelian;
    NegNeg(g, NatTimes(g, if n >= 0 then n else -n, x));
    NegZero(g);
  }

  lemma TimesSuccessor<T(!new)>(g: Group<T>, n: int, x: T)
    requires Abelian(g)
    ensures Times(g, n + 1, x) == g.add(Times(g, n, x), x)
  {
    hide Abelian;
    if n < 0 {
      var y := NatTimes(g, -n - 1, x);
      NegAdd(g, y, x);
      Assoc(g, g.neg(y), g.neg(x), x);
      Inverse(g, x);
      Unit(g, g.neg(y));
      NegZero(g);
    }
  }

  lemma TimesZero<T(!new)>(g: Group<T>, x: T)
    ensures Times(g, 0, x) == g.zero
  {
  }

  lemma TimesOne<T(!new)>(g: Group<T>, x: T)
    requires Abelian(g)
    ensures Times(g, 1, x) == x
  {
    hide Abelian;
    TimesSuccessor(g, 0, x);
    Unit(g, x);
  }

  /** Multiples add. */
  lemma {:induction false} TimesAdd<T(!new)>(g: Group<T>, m: int, n: int, x: T)
    requires Abelian(g)
    ensures Times(g, m + n, x) == g.add(Times(g, m, x), Times(g, n, x))
    decreases if n < 0 then -n else n
  {
    hide Abelian, Times;
    if n == 0 {
      TimesZero(g, x);
      Unit(g, Times(g, m, x));
    } else if n > 0 {
      TimesAdd(g, m, n - 1, x);
      TimesSuccessor(g, n - 1, x);
      TimesSuccessor(g, m + n - 1, x);
      Assoc(g, Times(g, m, x), Times(g, n - 1, x), x);
    } else {
      TimesAdd(g, m, n + 1, x);
      TimesSuccessor(g, n, x);
      TimesSuccessor(g, m + n, x);
      Assoc(g, Times(g, m, x), Times(g, n, x), x);
      CancelRight(g, Times(g, m + n, x), g.add(Times(g, m, x), Times(g, n, x)), x);
    }
  }

  lemma CancelRight<T(!new)>(g: Group<T>, a: T, b: T, x: T)
    requires Abelian(g) && g.add(a, x) == g.add(b, x)
    ensures a == b
  {
    hide Abelian;
    Assoc(g, a, x, g.neg(x));
    Assoc(g, b, x, g.neg(x));
    Inverse(g, x);
    Unit(g, a);
    Unit(g, b);
  }

  /** Multiples of a multiple multiply. */
  lemma {:induction false} TimesTimes<T(!new)>(g: Group<T>, m: int, n: int, x: T)
    requires Abelian(g)
    ensures Times(g, m, Times(g, n, x)) == Times(g, m * n, x)
    decreases if m < 0 then -m else m, m < 0
  {
    hide Abelian, Times;
    var y := Times(g, n, x);
    if m == 0 {
      TimesZero(g, y);
      TimesZero(g, x);
    } else if m > 0 {
      TimesTimes(g, m - 1, n, x);
      TimesSuccessor(g, m - 1, y);
      TimesAdd(g, (m - 1) * n, n, x);
      assert (m - 1) * n + n == m * n;
    } else {
      TimesTimes(g, -m, n, x);
      TimesNegate(g, -m, y);
      TimesNegate(g, (-m) * n, x);
      assert -((-m) * n) == m * n;
    }
  }

  /** A multiple of a point whose order divides the factor vanishes. */
  lemma TimesOrder<T(!new)>(g: Group<T>, order: int, k: int, n: int, m: int, x: T)
    requires Abelian(g) && Times(g, order, x) == g.zero && n == m + k * order
    ensures Times(g, n, x) == Times(g, m, x)
  {
    hide Abelian, Times;
    TimesAdd(g, m, k * order, x);
    TimesTimes(g, k, order, x);
    TimesOfZero(g, k);
    Unit(g, Times(g, m, x));
  }

  lemma {:induction false} TimesOfZero<T(!new)>(g: Group<T>, k: int)
    requires Abelian(g)
    ensures Times(g, k, g.zero) == g.zero
  {
    hide Abelian, Times;
    TimesZero(g, g.zero);
    TimesTimes(g, k, 0, g.zero);
    assert k * 0 == 0;
  }

  /** a*x + b*y: what the merged double-and-add loop accumulates. */
  ghost function Lin<T>(g: Group<T>, a: int, x: T, b: int, y: T): T
  {
    g.add(Times(g, a, x), Times(g, b, y))
  }

  lemma LinDouble<T(!new)>(g: Group<T>, a: int, x: T, b: int, y: T)
    requires Abelian(g)
    ensures g.add(Lin(g, a, x, b, y), Lin(g, a, x, b, y)) == Lin(g, 2 * a, x, 2 * b, y)
  {
    hide Abelian, Times;
    Middle(g, Times(g, a, x), Times(g, b, y), Times(g, a, x), Times(g, b, y));
    TimesAdd(g, a, a, x);
    TimesAdd(g, b, b, y);
  }

  lemma LinAddLeft<T(!new)>(g: Group<T>, a: int, x: T, b: int, y: T, d: int)
    requires Abelian(g)
    ensures g.add(Lin(g, a, x, b, y), Times(g, d, x)) == Lin(g, a + d, x, b, y)
  {
    hide Abelian, Times;
    var p, q, r := Times(g, a, x), Times(g, b, y), Times(g, d, x);
    Assoc(g, p, q, r);
    Comm(g, q, r);
    Assoc(g, p, r, q);
    TimesAdd(g, a, d, x);
  }

  lemma LinAddRight<T(!new)>(g: Group<T>, a: int, x: T, b: int, y: T, d: int)
    requires Abelian(g)
    ensures g.add(Lin(g, a, x, b, y), Times(g, d, y)) == Lin(g, a, x, b + d, y)
  {
    hide Abelian, Times;
    Assoc(g, Times(g, a, x), Times(g, b, y), Times(g, d, y));
    TimesAdd(g, b, d, y);
  }
}
