/** Signature verification's group equation: a merged double-and-add loop over
    two sliding-window recodings. */
module CheckEquation {
  import opened Arith
  import opened Words
  import opened Bits
  import opened Group
  import opened ScalarL
  import opened Curve
  import opened Slide
  import FieldBytes

  /** A table of the odd multiples x, 3x, 5x, ... */
  ghost predicate OddMultiples<T>(g: Group<T>, table: seq<T>, x: T, width: nat)
    requires width >= 2
  {
    |table| == Pow2(width - 2) && forall k :: 0 <= k < |table| ==> table[k] == Times(g, 2 * k + 1, x)
  }

  /** Adding one signed digit through the table: nothing for zero, the entry at
      half the digit otherwise, subtracted for a negative digit. */
  method AddDigit<T(!new)>(g: Group<T>, sum: T, table: seq<T>, digit: int, ghost x: T, ghost width: nat) returns (q: T)
    requires Abelian(g) && width >= 2 && OddMultiples(g, table, x, width)
    requires digit != 0 ==> TableDigit(width, digit)
    ensures q == g.add(sum, Times(g, digit, x))
  {
    hide Abelian, Times, Pow2;
    q := sum;
    if digit > 0 {
      q := g.add(q, table[digit / 2]);
    }
    if digit < 0 {
      TimesNegate(g, -digit, x);
      q := g.add(q, g.neg(table[-digit / 2]));
    }
    TimesZero(g, x);
    Unit(g, sum);
  }

  /** The look-up table for minus the public key. */
  method LookupTable<T(!new)>(g: Group<T>, minusA: T) returns (lut: seq<T>)
    requires Abelian(g)
    ensures OddMultiples(g, lut, minusA, 3)
  {
    hide Abelian, Times;
    var minusA2 := g.add(minusA, minusA);
    TimesOne(g, minusA);
    TimesAdd(g, 1, 1, minusA);
    lut := [minusA];
    assert Pow2(1) == 2;
    for i := 1 to 2
      invariant |lut| == i
      invariant forall k :: 0 <= k < i ==> lut[k] == Times(g, 2 * k + 1, minusA)
    {
      TimesAdd(g, 2, 2 * i - 1, minusA);
      lut := lut + [g.add(minusA2, lut[i - 1])];
    }
  }

  lemma BaseTable<T(!new)>(c: Curve<T>)
    requires TablesLawful(c)
    ensures OddMultiples(c.g, c.window, c.base, 5)
  {
    hide Times, CombWeight;
    assert Pow2(3) == 8;
  }

  /** One iteration: double, then the digits of both recodings. */
  method Iterate<T(!new)>(c: Curve<T>, sum: T, lut: seq<T>, hDigit: int, sDigit: int, ghost minusA: T, ghost a: int,
      ghost b: int)
    returns (q: T)
    requires Abelian(c.g) && OddMultiples(c.g, lut, minusA, 3) && OddMultiples(c.g, c.window, c.base, 5)
    requires hDigit != 0 ==> TableDigit(3, hDigit)
    requires sDigit != 0 ==> TableDigit(5, sDigit)
    requires sum == Lin(c.g, a, minusA, b, c.base)
    ensures q == Lin(c.g, 2 * a + hDigit, minusA, 2 * b + sDigit, c.base)
  {
    hide Abelian, Times, Lin, OddMultiples, TableDigit;
    LinDouble(c.g, a, minusA, b, c.base);
    q := c.g.add(sum, sum);
    LinAddLeft(c.g, 2 * a, minusA, 2 * b, c.base, hDigit);
    q := AddDigit(c.g, q, lut, hDigit, minusA, 3);
    LinAddRight(c.g, 2 * a + hDigit, minusA, 2 * b, c.base, sDigit);
    q := AddDigit(c.g, q, c.window, sDigit, c.base, 5);
  }

  lemma LinStart<T(!new)>(g: Group<T>, x: T, y: T)
    requires Abelian(g)
    ensures g.zero == Lin(g, 0, x, 0, y)
  {
    Unit(g, g.zero);
  }

  /** The loop: [s]B + [h](-A), doubling and adding from the higher of the two
      recodings' starting positions down to zero. */
  method MergedLoop<T(!new)>(c: Curve<T>, lut: seq<T>, h: seq<u8>, s: seq<u8>, ghost minusA: T) returns (sum: T)
    requires Abelian(c.g) && OddMultiples(c.g, lut, minusA, 3) && OddMultiples(c.g, c.window, c.base, 5)
    requires |h| == 32 && |s| == 32 && Val8(h) < Pow2(253) && Val8(s) < Pow2(253)
    ensures sum == Lin(c.g, Val8(h), minusA, Val8(s), c.base)
  {
    hide Abelian, Times, Lin, OddMultiples, TableDigit, Val8, Pow2, Covered;
    var hSlide := new SlideCtx(h, 3);
    var sSlide := new SlideCtx(s, 5);
    var i: int := if hSlide.nextCheck >= sSlide.nextCheck then hSlide.nextCheck else sSlide.nextCheck;
    sum := c.g.zero;
    ghost var a, b := 0, 0;
    LinStart(c.g, minusA, c.base);
    while i >= 0
      invariant -1 <= i < 254
      invariant hSlide.Valid(3, Val8(h), a, i) && sSlide.Valid(5, Val8(s), b, i)
      invariant sum == Lin(c.g, a, minusA, b, c.base)
    {
      label Before:
      var hDigit := hSlide.Step(3, i, h, a);
      var sDigit := sSlide.Step(5, i, s, b);
      sum := Iterate(c, sum, lut, hDigit, sDigit, minusA, a, b);
      a, b := 2 * a + hDigit, 2 * b + sDigit;
      i := i - 1;
    }
    Finished(hSlide, 3, Val8(h), a);
    Finished(sSlide, 5, Val8(s), b);
  }

  /** What verification decides: the points decode, S is below L, and eight
      times [S]B - [h]A - R vanishes. */
  ghost predicate Equation<T>(c: Curve<T>, signature: seq<u8>, publicKey: seq<u8>, h: nat)
    requires |signature| == 64
  {
    var a, r, s := c.decodeNeg(publicKey), c.decodeNeg(signature[..32]), Val8(signature[32..]);
    && a.Some? && r.Some? && s < L
    && Times(c.g, 8, c.g.add(Lin(c.g, h, a.value, s, c.base), r.value)) == c.g.zero
  }

  lemma EightTimes<T(!new)>(g: Group<T>, x: T)
    requires Abelian(g)
    ensures var x2 := g.add(x, x);
            var x4 := g.add(x2, x2);
            g.add(x4, x4) == Times(g, 8, x)
  {
    hide Abelian, Times;
    TimesOne(g, x);
    TimesAdd(g, 1, 1, x);
    TimesAdd(g, 2, 2, x);
    TimesAdd(g, 4, 4, x);
  }

  lemma BelowTop(v: nat)
    requires v < L
    ensures v < Pow2(253)
  {
    hide Pow2;
    Pow2Eight();
    Pow2Add(8, 8);
    Pow2Add(16, 16);
    Pow2Add(32, 32);
    Pow2Add(64, 64);
    Pow2Add(128, 64);
    Pow2Add(192, 32);
    Pow2Add(224, 16);
    Pow2Add(240, 8);
    Pow2Add(248, 4);
    Pow2Mono(252, 253);
    Double252();
  }

  lemma Double252()
    ensures Pow2(253) == 2 * Pow2(252)
  {
    hide Pow2;
    Pow2Next(252);
  }

  /** crypto_eddsa_check_equation: 0 exactly when the equation holds, else -1. */
  method CryptoEddsaCheckEquation<T(!new)>(c: Curve<T>, signature: seq<u8>, publicKey: seq<u8>,
      h: seq<u8>) returns (r: int)
    requires Lawful(c) && |signature| == 64 && |publicKey| == 32 && |h| == 32 && Val8(h) < Pow2(253)
    ensures r == (if Equation(c, signature, publicKey, Val8(h)) then 0 else -1)
  {
    hide Lawful, TablesLawful, Abelian, Times, Lin, OddMultiples, Val8, Pow2, StoreLimbs, LoadLimbs;
    var s := signature[32..];
    var minusA := c.decodeNeg(publicKey);
    var minusR := c.decodeNeg(signature[..32]);
    var above := IsAboveL(LoadLimbs(s));
    LoadLimbsVal(s);
    if minusA.None? || minusR.None? || above != 0 {
      return -1;
    }
    GroupPart(c);
    TablesPart(c);
    BaseTable(c);
    BelowTop(Val8(s));
    var lut := LookupTable(c.g, minusA.value);
    var sum := MergedLoop(c, lut, h, s, minusA.value);
    sum := c.g.add(sum, minusR.value);
    EightTimes(c.g, sum);
    sum := c.g.add(sum, sum);
    sum := c.g.add(sum, sum);
    sum := c.g.add(sum, sum);
    var check := c.encode(sum);
    Encodes(c, sum);
    ZeroEncoding(c, sum);
    r := FieldBytes.Verify32(check, ZERO_POINT);
  }
}
