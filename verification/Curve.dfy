/** The Edwards curve as the signature code sees it: an abelian group, a base
    point of order L, a point encoding, and tables of base point multiples. */
module Curve {
  import opened Arith
  import opened Words
  import opened Group
  import opened ScalarL

  datatype Option<+T> = None | Some(value: T)

  datatype Curve<!T> = Curve(
    g: Group<T>, base: T,
    window: seq<T>, combLow: seq<T>, combHigh: seq<T>,
    encode: T -> seq<u8>, decodeNeg: seq<u8> -> Option<T>)

  const W32N: int := 0x1_0000_0000
  const W64N: int := 0x1_0000_0000_0000_0000
  const W96N: int := 0x1_0000_0000_0000_0000_0000_0000
  const W128N: int := 0x1_0000_0000_0000_0000_0000_0000_0000_0000

  function Sign(b: int): int
  {
    2 * b - 1
  }

  /** Entry j of the comb table: 2^96 and the lower three teeth signed by the
      bits of j. */
  function CombWeight(j: int): int
  {
    W96N + Sign((j / 4) % 2) * W64N + Sign((j / 2) % 2) * W32N + Sign(j % 2)
  }

  /** The encoding of the neutral element. */
  const ZERO_POINT: seq<u8> := StoreLimbs([1, 0, 0, 0, 0, 0, 0, 0])

  ghost predicate TablesLawful<T>(c: Curve<T>)
  {
    && |c.window| == 8 && (forall k :: 0 <= k < 8 ==> c.window[k] == Times(c.g, 2 * k + 1, c.base))
    && |c.combLow| == 8 && (forall j :: 0 <= j < 8 ==> c.combLow[j] == Times(c.g, CombWeight(j), c.base))
    && |c.combHigh| == 8 && (forall j :: 0 <= j < 8 ==> c.combHigh[j] == Times(c.g, W128N * CombWeight(j), c.base))
  }

  ghost predicate EncodingLawful<T(!new)>(c: Curve<T>)
  {
    && (forall x: T :: |c.encode(x)| == 32)
    && (forall x: T :: c.decodeNeg(c.encode(x)) == Some(c.g.neg(x)))
    && c.encode(c.g.zero) == ZERO_POINT
  }

  /** The hypotheses: group law, order of the base point, tables, encoding. */
  ghost predicate Lawful<T(!new)>(c: Curve<T>)
  {
    && Abelian(c.g)
    && Times(c.g, L, c.base) == c.g.zero
    && TablesLawful(c)
    && EncodingLawful(c)
  }

  lemma Encodes<T(!new)>(c: Curve<T>, x: T)
    requires Lawful(c)
    ensures |c.encode(x)| == 32 && c.decodeNeg(c.encode(x)) == Some(c.g.neg(x))
    ensures c.encode(c.g.zero) == ZERO_POINT && |ZERO_POINT| == 32
  {
    hide Abelian, TablesLawful, StoreLimbs;
  }

  lemma GroupPart<T(!new)>(c: Curve<T>)
    requires Lawful(c)
    ensures Abelian(c.g) && Times(c.g, L, c.base) == c.g.zero
  {
    hide Abelian, TablesLawful, EncodingLawful, Times;
  }

  lemma TablesPart<T(!new)>(c: Curve<T>)
    requires Lawful(c)
    ensures TablesLawful(c)
  {
    hide Abelian, TablesLawful, EncodingLawful, Times;
  }

  /** Only the neutral element encodes as the zero point. */
  lemma ZeroEncoding<T(!new)>(c: Curve<T>, x: T)
    requires Lawful(c)
    ensures c.encode(x) == ZERO_POINT <==> x == c.g.zero
  {
    hide Lawful, Abelian, StoreLimbs;
    Encodes(c, x);
    Encodes(c, c.g.zero);
    GroupPart(c);
    NegNeg(c.g, x);
    NegNeg(c.g, c.g.zero);
  }
}
