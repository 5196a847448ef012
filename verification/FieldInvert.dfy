/** Inverse square root and inverse in the field, by the exponentiation chain. */
module FieldInvert {
  import opened Arith
  import opened Words
  import opened FieldElement
  import opened FieldMul
  import opened FieldBytes

  /** The e-th power of a residue. */
  function FPow(x: int, e: nat): int
  {
    Pow(x, e) % P
  }

  /** What primality of p gives: Fermat's little theorem and no zero divisors. */
  ghost predicate PrimeField()
  {
    && (forall x: int :: x % P != 0 ==> FPow(x, P - 1) == 1)
    && (forall a: int, b: int :: FMul(a, b) == 0 ==> a % P == 0 || b % P == 0)
  }

  lemma PowSum(x: int, m: nat, n: nat)
    ensures FMul(FPow(x, m), FPow(x, n)) == FPow(x, m + n)
  {
    PowAdd(x, m, n);
    MulMod(Pow(x, m), Pow(x, n));
  }

  lemma PowOne(x: int)
    ensures FPow(x, 1) == x % P && FPow(x, 0) == 1
  {
    assert Pow(x, 1) == x * Pow(x, 0);
  }

  lemma PowOneResidue(f: Fe)
    ensures FPow(Residue(f), 1) == Residue(f)
  {
    PowOne(Residue(f));
  }

  lemma PowOfResidue(x: int, e: nat)
    ensures FPow(x % P, e) == FPow(x, e)
  {
    ModPow(x % P, x, e, P);
  }

  lemma PowOfPow(x: int, m: nat, n: nat)
    ensures FPow(FPow(x, m), n) == FPow(x, m * n)
  {
    PowOfResidue(Pow(x, m), n);
    PowMul(x, m, n);
  }

  lemma PowZero(x: int, e: nat)
    requires x % P == 0 && e > 0
    ensures FPow(x, e) == 0
  {
    ModMul(x, Pow(x, e - 1), 0, Pow(x, e - 1), P);
  }

  lemma MulAssoc(a: int, b: int, c: int)
    ensures FMul(FMul(a, b), c) == FMul(a, FMul(b, c)) == ((a * b) * c) % P
  {
    ModMul(a * b, c, FMul(a, b), c, P);
    ModMul(a, b * c, a, FMul(b, c), P);
    assert (a * b) * c == a * (b * c);
  }

  lemma MulComm(a: int, b: int)
    ensures FMul(a, b) == FMul(b, a)
  {
  }

  lemma MulRange(a: int, b: int)
    ensures 0 <= FMul(a, b) < P
  {
  }

  // ---- the chain ----------------------------------------------------------------------

  /** A product whose exponents add up. */
  method MulPow(f: Fe, g: Fe, ghost x: int, ghost m: nat, ghost n: nat) returns (h: Fe)
    requires Loose(f) && Loose(g) && Residue(f) == FPow(x, m) && Residue(g) == FPow(x, n)
    ensures Tight(h) && Residue(h) == FPow(x, m + n)
  {
    h := FeMul(f, g);
    PowSum(x, m, n);
  }

  method SqPow(f: Fe, ghost x: int, ghost m: nat) returns (h: Fe)
    requires Loose(f) && Residue(f) == FPow(x, m)
    ensures Tight(h) && Residue(h) == FPow(x, m + m)
  {
    h := FeSq(f);
    PowSum(x, m, m);
  }

  lemma TwiceProduct(e: nat, w: nat)
    ensures 0 <= e * w && e * w + e * w == e * (2 * w)
  {
  }

  predicate TightPow(h: Fe, x: int, e: nat)
  {
    Tight(h) && Residue(h) == FPow(x, e)
  }

  /** n squarings in a row. */
  method Squarings(f: Fe, n: nat, ghost x: int, ghost e: nat, ghost e': nat) returns (h: Fe)
    requires n > 0 && TightPow(f, x, e)
    requires e' == e * Pow2(n)
    ensures TightPow(h, x, e')
  {
    hide FPow, Residue;
    h := SqPow(f, x, e);
    ghost var d: nat := e + e;
    for i := 1 to n
      invariant d == e * Pow2(i)
      invariant TightPow(h, x, d)
    {
      h := SqPow(h, x, d);
      TwiceProduct(e, Pow2(i));
      d := d + d;
    }
  }

  lemma ChainPowers()
    ensures Pow2(2) == 4 && Pow2(5) == 0x20 && Pow2(10) == 0x400 && Pow2(20) == 0x10_0000
  {
    assert Pow2(5) == 0x20;
    Pow2Add(5, 5);
    Pow2Add(10, 10);
  }

  lemma ChainPowersHigh()
    ensures Pow2(50) == 0x4_0000_0000_0000 && Pow2(100) == 0x10_0000_0000_0000_0000_0000_0000
  {
    ChainPowers();
    Pow2Add(20, 20);
    Pow2Add(40, 10);
    Pow2Add(50, 50);
  }

  /** The first half of the chain: x to the power 2^50 - 1. */
  method ChainTo50(x: Fe) returns (t0: Fe)
    requires Tight(x)
    ensures TightPow(t0, Residue(x), E50)
  {
    hide FPow, Residue;
    ghost var r := Residue(x);
    PowOneResidue(x);
    ChainPowers();
    var t1, t2;
    t0 := SqPow(x, r, 1);
    t1 := SqPow(t0, r, 2);
    t1 := SqPow(t1, r, 4);
    t1 := MulPow(x, t1, r, 1, 8);
    t0 := MulPow(t0, t1, r, 2, 9);
    t0 := SqPow(t0, r, 11);
    t0 := MulPow(t1, t0, r, 9, 22);
    t1 := Squarings(t0, 5, r, 31, 0x3e0);
    t0 := MulPow(t1, t0, r, 0x3e0, 31);
    t1 := Squarings(t0, 10, r, 0x3ff, 0xf_fc00);
    t1 := MulPow(t1, t0, r, 0xf_fc00, 0x3ff);
    t2 := Squarings(t1, 20, r, 0xf_ffff, 0xff_fff0_0000);
    t1 := MulPow(t2, t1, r, 0xff_fff0_0000, 0xf_ffff);
    t1 := Squarings(t1, 10, r, 0xff_ffff_ffff, 0x3_ffff_ffff_fc00);
    t0 := MulPow(t1, t0, r, 0x3_ffff_ffff_fc00, 0x3ff);
  }

  const E50: nat := 0x3_ffff_ffff_ffff
  const E200: nat := 0xff_ffff_ffff_ffff_ffff_ffff_ffff_ffff_ffff_ffff_ffff_ffff_ffff
  const EXPONENT: nat := 0x0fffffffffffffff_ffffffffffffffff_ffffffffffffffff_fffffffffffffffd

  /** The second half: x to the power 2^200 - 1. */
  method ChainTo200(t0: Fe, ghost r: int) returns (t1: Fe)
    requires TightPow(t0, r, E50)
    ensures TightPow(t1, r, E200)
  {
    hide FPow, Residue;
    ChainPowersHigh();
    ghost var e50s := 0xf_ffff_ffff_fffc_0000_0000_0000;
    t1 := Squarings(t0, 50, r, E50, e50s);
    t1 := MulPow(t1, t0, r, e50s, E50);
    ghost var e100 := 0xf_ffff_ffff_ffff_ffff_ffff_ffff;
    ghost var e100s := 0xff_ffff_ffff_ffff_ffff_ffff_fff0_0000_0000_0000_0000_0000_0000;
    var t2 := Squarings(t1, 100, r, e100, e100s);
    t1 := MulPow(t2, t1, r, e100s, e100);
  }

  /** The whole chain: x to the power (p-5)/8 = 2^252 - 3. */
  method Chain(x: Fe) returns (t0: Fe)
    requires Tight(x)
    ensures TightPow(t0, Residue(x), EXPONENT)
  {
    hide FPow, Residue;
    ghost var r := Residue(x);
    PowOneResidue(x);
    ChainPowers();
    ChainPowersHigh();
    t0 := ChainTo50(x);
    var t1 := ChainTo200(t0, r);
    ghost var e200s := 0x3ff_ffff_ffff_ffff_ffff_ffff_ffff_ffff_ffff_ffff_ffff_ffff_fffc_0000_0000_0000;
    t1 := Squarings(t1, 50, r, E200, e200s);
    t0 := MulPow(t1, t0, r, e200s, E50);
    ghost var e250 := 0x3ff_ffff_ffff_ffff_ffff_ffff_ffff_ffff_ffff_ffff_ffff_ffff_ffff_ffff_ffff_ffff;
    ghost var e250s := 0xfff_ffff_ffff_ffff_ffff_ffff_ffff_ffff_ffff_ffff_ffff_ffff_ffff_ffff_ffff_fffc;
    t0 := Squarings(t0, 2, r, e250, e250s);
    t0 := MulPow(t0, x, r, e250s, 1);
  }

  // ---- inverse square root --------------------------------------------------------------

  const SQRTM1: Fe := Fe(-32595792, -7943725, 9377950, 3500415, 12389472,
                         -272473, -25146209, -2005654, 326686, 11406482)
  /** The square root of -1 the constant stands for. */
  const I: int := 0x2b8324804fc1df0b_2b4d00993dfbd7a7_2f431806ad2fe478_c4ee1b274a0ea0b0

  lemma RootOfMinusOne()
    ensures Tight(SQRTM1) && Residue(SQRTM1) == I
    ensures FMul(I, I) == P - 1
  {
  }

  const HALF: nat := 0x3fffffffffffffff_ffffffffffffffff_ffffffffffffffff_fffffffffffffff6
  const QUARTER: nat := 0x1fffffffffffffff_ffffffffffffffff_ffffffffffffffff_fffffffffffffffb

  /** (p-1)/2 and (p-1)/4 against the exponent of the chain. */
  lemma Exponents()
    ensures 2 * HALF == P - 1 && 2 * QUARTER == HALF && 2 * EXPONENT + 1 == QUARTER
  {
  }

  lemma FermatAt(x: int)
    requires PrimeField() && x % P != 0
    ensures FPow(x, P - 1) == 1
  {
  }

  lemma NoZeroDivisors(a: int, b: int)
    requires PrimeField() && FMul(a, b) == 0
    ensures a % P == 0 || b % P == 0
  {
  }

  /** Equal squares: the factors of the difference multiply to zero. */
  lemma DifferenceOfSquares(y: int, z: int)
    requires FMul(y, y) == FMul(z, z)
    ensures FMul(y - z, y + z) == 0
  {
    var k := ModWitness(y * y, z * z, P);
    assert (y - z) * (y + z) == y * y - z * z;
    DivModUnique((y - z) * (y + z), P, k, 0);
  }

  lemma SmallMultiple(a: int)
    requires -P < a < P && a % P == 0
    ensures a == 0
  {
  }

  lemma SmallMultipleUp(a: int)
    requires 0 < a < 2 * P && a % P == 0
    ensures a == P
  {
  }

  /** Equal squares have equal or opposite roots. */
  lemma EqualSquares(y: int, z: int)
    requires PrimeField() && 0 <= y < P && 0 < z < P && FMul(y, y) == FMul(z, z)
    ensures y == z || y == P - z
  {
    hide PrimeField, FMul;
    DifferenceOfSquares(y, z);
    NoZeroDivisors(y - z, y + z);
    if (y - z) % P == 0 {
      SmallMultiple(y - z);
    } else {
      SmallMultipleUp(y + z);
    }
  }

  /** The fourth power of x^((p-1)/4) is one, so it is one of four constants. */
  lemma QuarticCases(x: int)
    requires PrimeField() && x % P != 0
    ensures var q := FPow(x, QUARTER);
            && (q == 1 || q == P - 1 || q == I || q == P - I)
            && (FPow(x, HALF) == 1 <==> q == 1 || q == P - 1)
  {
    hide PrimeField, FPow, FMul;
    var q, h := FPow(x, QUARTER), FPow(x, HALF);
    PowSum(x, QUARTER, QUARTER);
    PowSum(x, HALF, HALF);
    FermatAt(x);
    RootOfMinusOne();
    SquareOfOne();
    PowRange(x, QUARTER);
    PowRange(x, HALF);
    Exponents();
    EqualSquares(h, 1);
    if h == 1 {
      EqualSquares(q, 1);
    } else {
      EqualSquares(q, I);
    }
    SquareOfFour(q);
  }

  lemma SquareOfOne()
    ensures FMul(1, 1) == 1 && FMul(P - 1, P - 1) == 1
  {
  }

  lemma PowRange(x: int, e: nat)
    ensures 0 <= FPow(x, e) < P
  {
  }

  lemma SquareOfFour(q: int)
    ensures q == 1 || q == P - 1 ==> FMul(q, q) == 1
    ensures q == I || q == P - I ==> FMul(q, q) == P - 1
  {
  }

  const ONE: Fe := Fe(1, 0, 0, 0, 0, 0, 0, 0, 0, 0)
  const ZERO: Fe := Fe(0, 0, 0, 0, 0, 0, 0, 0, 0, 0)

  function FeNeg(f: Fe): (h: Fe)
    requires Loose(f)
    ensures Tight(f) ==> Tight(h)
    ensures Value(h) == -Value(f)
  {
    var h := Fe(-f.f0, -f.f1, -f.f2, -f.f3, -f.f4, -f.f5, -f.f6, -f.f7, -f.f8, -f.f9);
    ValueIs(f);
    ValueIs(h);
    h
  }

  lemma Constants()
    ensures Tight(ONE) && Value(ONE) == 1 && Tight(ZERO) && Value(ZERO) == 0
  {
  }

  lemma SmallModulus(v: int)
    ensures 0 <= v < P ==> v % P == v
    ensures -P <= v < 0 ==> v % P == v + P
  {
  }

  lemma ResidueOf(f: Fe, v: int)
    requires Value(f) == v && -P <= v < P
    ensures Residue(f) == if v >= 0 then v else v + P
  {
    hide Value;
    SmallModulus(v);
  }

  /** fe_neg of an element with a nonzero residue. */
  lemma NegResidue(f: Fe)
    requires Tight(f) && Residue(f) != 0
    ensures Residue(FeNeg(f)) == P - Residue(f)
  {
    hide Value;
    OppositeResidue(Value(f), Value(FeNeg(f)));
  }

  lemma OppositeResidue(a: int, b: int)
    requires b == -a && a % P != 0
    ensures b % P == P - a % P
  {
    DivModUnique(b, P, -(a / P) - 1, P - a % P);
  }

  /** quartic: the square of x^((p-5)/8) times x. */
  lemma QuarticIs(x: int, t0: int)
    requires t0 == FPow(x, EXPONENT) && x % P == x
    ensures FMul(FMul(t0, t0), x) == FPow(x, QUARTER)
  {
    hide FPow, FMul;
    PowSum(x, EXPONENT, EXPONENT);
    PowOne(x);
    PowSum(x, EXPONENT + EXPONENT, 1);
    Exponents();
  }

  /** Multiplying a root by I changes the sign of its square. */
  lemma TimesI(t: int, x: int)
    ensures var i := FMul(t, I);
            FMul(FMul(i, i), x) == FMul(P - 1, FMul(FMul(t, t), x))
  {
    hide FMul;
    var i := FMul(t, I);
    RootOfMinusOne();
    calc {
      FMul(FMul(i, i), x);
      { MulAssoc(t, I, i); MulComm(I, i); }
      FMul(FMul(t, FMul(i, I)), x);
      { MulAssoc(t, I, I); }
      FMul(FMul(t, FMul(t, P - 1)), x);
      { MulAssoc(t, t, P - 1); MulComm(FMul(t, t), P - 1); }
      FMul(FMul(P - 1, FMul(t, t)), x);
      { MulAssoc(P - 1, FMul(t, t), x); }
      FMul(P - 1, FMul(FMul(t, t), x));
    }
  }

  lemma Negations()
    ensures FMul(P - 1, P - 1) == 1 && FMul(P - 1, P - I) == I
  {
  }

  /** What the returned root satisfies, case by case of the quartic. */
  ghost predicate InverseRoot(x: int, isr: int, isSquare: int)
  {
    && (isSquare == if x == 0 || FPow(x, HALF) == 1 then 1 else 0)
    && (x == 0 ==> isr == 0)
    && (x != 0 ==> FMul(FMul(isr, isr), x) == if isSquare == 1 then 1 else I)
  }

  lemma RootCases(x: int, t0: int, q: int, isr: int, isSquare: int)
    requires PrimeField() && 0 <= x < P
    requires t0 == FPow(x, EXPONENT) && q == FMul(FMul(t0, t0), x)
    requires isr == if q == P - 1 || q == P - I then FMul(t0, I) else t0
    requires isSquare == if q == 1 || q == P - 1 || x == 0 then 1 else 0
    ensures InverseRoot(x, isr, isSquare)
  {
    hide FPow, FMul, PrimeField;
    QuarticIs(x, t0);
    if x == 0 {
      PowZero(x, EXPONENT);
      PowZero(x, QUARTER);
    } else {
      QuarticCases(x);
      TimesI(t0, x);
      Negations();
    }
  }

  /** The constants invsqrt compares with. */
  lemma ConstantResidues()
    ensures Tight(ONE) && Residue(ONE) == 1 && Tight(ZERO) && Residue(ZERO) == 0
    ensures Tight(SQRTM1) && Loose(SQRTM1) && Residue(SQRTM1) == I
    ensures Loose(ONE) && Residue(FeNeg(ONE)) == P - 1 && Residue(FeNeg(SQRTM1)) == P - I
  {
    hide Value, Residue;
    Constants();
    RootOfMinusOne();
    ResidueOf(ONE, 1);
    ResidueOf(ZERO, 0);
    NegResidue(ONE);
    NegResidue(SQRTM1);
  }

  lemma TightIsLoose(f: Fe)
    requires Tight(f)
    ensures Loose(f)
  {
  }

  /** invsqrt. */
  method Invsqrt(x: Fe) returns (isr: Fe, isSquare: int)
    requires Tight(x) && PrimeField()
    ensures Tight(isr) && InverseRoot(Residue(x), Residue(isr), isSquare)
  {
    hide FPow, FMul, PrimeField, InverseRoot, Residue, FeNeg, Within, Value;
    ghost var r := Residue(x);
    ResidueRange(x);
    ConstantResidues();
    var t0 := Chain(x);
    TightIsLoose(x);
    TightIsLoose(t0);
    var quartic := FeSq(t0);
    TightIsLoose(quartic);
    quartic := FeMul(quartic, x);
    var check := ZERO;
    var z0 := FeIsEqual(x, check);
    check := ONE;
    var p1 := FeIsEqual(quartic, check);
    check := FeNeg(check);
    var m1 := FeIsEqual(quartic, check);
    check := FeNeg(SQRTM1);
    var ms := FeIsEqual(quartic, check);
    isr := FeMul(t0, SQRTM1);
    if !(m1 == 1 || ms == 1) {
      isr := t0;
    }
    isSquare := if p1 == 1 || m1 == 1 || z0 == 1 then 1 else 0;
    RootCases(r, Residue(t0), Residue(quartic), Residue(isr), isSquare);
  }

  lemma ResidueRange(f: Fe)
    ensures 0 <= Residue(f) < P
  {
  }

  // ---- inverse -----------------------------------------------------------------------------

  /** The inverse as the power p-2. */
  function FInv(x: int): int
  {
    FPow(x, P - 2)
  }

  lemma InverseOfZero(x: int)
    requires x == 0
    ensures FInv(x) == 0
  {
    PowZero(x, P - 2);
  }

  /** Any r with r*x = 1 is the power p-2 of x. */
  lemma InverseUnique(x: int, r: int)
    requires PrimeField() && 0 < x < P && 0 <= r < P && FMul(r, x) == 1
    ensures r == FInv(x)
  {
    hide FMul, FPow, PrimeField;
    var v := FInv(x);
    FermatAt(x);
    PowOne(x);
    PowSum(x, 1, P - 2);
    assert FMul(x, v) == 1;
    MulAssoc(r, x, v);
    TimesOne(r);
    TimesOne(v);
    PowRange(x, P - 2);
  }

  /** That power inverts every nonzero residue. */
  lemma InverseInverts(x: int)
    requires PrimeField() && x % P != 0
    ensures FMul(x, FInv(x)) == 1
  {
    hide FMul, FPow, PrimeField;
    FermatAt(x);
    PowSum(x, 1, P - 2);
    PowOne(x);
    ResidueFactor(x, FInv(x));
  }

  lemma ResidueFactor(x: int, y: int)
    ensures FMul(x % P, y) == FMul(x, y)
  {
    ModSelf(x, P);
    ModMul(x % P, y, x, y, P);
  }

  lemma TimesOne(r: int)
    ensures 0 <= r < P ==> FMul(r, 1) == r && FMul(1, r) == r
  {
  }

  /** An inverse square root of x*x, squared and times x, inverts x. */
  lemma InverseFromRoot(x: int, isr: int, isSquare: int)
    requires PrimeField() && 0 <= x < P && InverseRoot(FMul(x, x), isr, isSquare)
    ensures FMul(FMul(isr, isr), x) == FInv(x)
  {
    hide FMul, FPow, PrimeField;
    var a, y := FMul(x, x), FMul(FMul(isr, isr), x);
    if x == 0 {
      InverseOfZero(x);
      ZeroProducts();
    } else {
      SquareIsSquare(x);
      MulAssoc(FMul(isr, isr), x, x);
      MulRange(FMul(isr, isr), x);
      InverseUnique(x, y);
    }
  }

  lemma ZeroProducts()
    ensures FMul(0, 0) == 0
  {
  }

  /** A nonzero square passes Euler's criterion. */
  lemma SquareIsSquare(x: int)
    requires PrimeField() && 0 < x < P
    ensures FMul(x, x) != 0 && FPow(FMul(x, x), HALF) == 1
  {
    hide FMul, FPow, PrimeField;
    PowOne(x);
    PowSum(x, 1, 1);
    PowOfPow(x, 2, HALF);
    Exponents();
    FermatAt(x);
    if FMul(x, x) == 0 {
      NoZeroDivisors(x, x);
    }
  }

  /** fe_invert: the power p-2, hence the inverse of every nonzero element. */
  method FeInvert(x: Fe) returns (out: Fe)
    requires Tight(x) && PrimeField()
    ensures Tight(out) && Residue(out) == FInv(Residue(x))
  {
    hide FPow, FMul, PrimeField, InverseRoot, Residue, FInv, Within, Value;
    ResidueRange(x);
    TightIsLoose(x);
    var tmp := FeSq(x);
    var isSquare;
    tmp, isSquare := Invsqrt(tmp);
    InverseFromRoot(Residue(x), Residue(tmp), isSquare);
    TightIsLoose(tmp);
    tmp := FeSq(tmp);
    TightIsLoose(tmp);
    out := FeMul(tmp, x);
  }
}
