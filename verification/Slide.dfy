/** Incremental signed sliding windows: the digits slide_step hands out, one
    position at a time from the top, are a signed-digit form of the scalar. */
module Slide {
  import opened Arith
  import opened Words
  import opened Bits

  /** Bit i of s, with nothing below position zero. */
  function BitAt(s: nat, i: int): (b: int)
    ensures b == 0 || b == 1
  {
    if i < 0 then 0 else Bit(s, i)
  }

  /** What the digits above position c must add up to: the bits above c,
      rounded up by the bit at c. */
  function Covered(s: nat, c: int): int
    requires c >= -1
  {
    Pow2(c + 1) * (s / Pow2(c + 1) + BitAt(s, c))
  }

  lemma CoveredEnd(s: nat)
    ensures Covered(s, -1) == s
  {
    assert Pow2(0) == 1;
  }

  lemma CoveredStart(s: nat, c: nat)
    requires s < Pow2(c)
    ensures Covered(s, c) == 0
  {
    Pow2Mono(c, c + 1);
    ShiftBeyond(s, c + 1);
    BitZeroBeyond(s, c);
  }

  /** Equal neighbouring bits need no digit. */
  lemma CoveredEqualBits(s: nat, c: nat)
    requires Bit(s, c) == BitAt(s, c - 1)
    ensures Covered(s, c - 1) == Covered(s, c)
  {
    hide Bit;
    ShiftBit(s, c);
    Doubling(Pow2(c), s / Pow2(c + 1), Bit(s, c));
  }

  lemma Doubling(w: int, hi: int, b: int)
    ensures w * ((2 * hi + b) + b) == (2 * w) * (hi + b)
  {
  }

  /** The signed value of the window of width w whose top bit is i. */
  function Window(s: nat, i: nat, w: nat): int
    requires 0 < w <= i + 1
  {
    -(Bit(s, i) * Pow2(w - 1)) + (s / Pow2(i - w + 1)) % Pow2(w - 1) + BitAt(s, i - w)
  }

  lemma ModDecompose(u: nat, m: int)
    requires m > 0
    ensures u == m * (u / m) + u % m
  {
  }

  lemma WindowAlgebra(p: int, w: int, hi: int, b: int, low: int, below: int)
    ensures p * ((w * (2 * hi + b) + low) + below) == ((2 * w) * p) * (hi + b) + p * (-(b * w) + low + below)
  {
    calc {
      p * ((w * (2 * hi + b) + low) + below);
      p * (w * (2 * hi + b)) + p * (low + below);
      { assert w * (2 * hi + b) == (2 * w) * (hi + b) - b * w; }
      p * ((2 * w) * (hi + b) - b * w) + p * (low + below);
      { assert p * ((2 * w) * (hi + b) - b * w) == p * ((2 * w) * (hi + b)) - p * (b * w); }
      p * ((2 * w) * (hi + b)) - p * (b * w) + p * (low + below);
      { assert p * ((2 * w) * (hi + b)) == ((2 * w) * p) * (hi + b); }
      ((2 * w) * p) * (hi + b) - p * (b * w) + p * (low + below);
      { assert p * (-(b * w) + low + below) == -(p * (b * w)) + p * (low + below); }
      ((2 * w) * p) * (hi + b) + p * (-(b * w) + low + below);
    }
  }

  /** A window accounts for the w bits it consumes. */
  lemma CoveredWindow(s: nat, i: nat, w: nat)
    requires 0 < w <= i + 1
    ensures Covered(s, i - w) == Covered(s, i) + Pow2(i - w + 1) * Window(s, i, w)
  {
    hide Bit, Pow2;
    var k := i - w + 1;
    var u := s / Pow2(k);
    Pow2Div(s, k, w - 1);
    assert k + (w - 1) == i;
    ModDecompose(u, Pow2(w - 1));
    ShiftBit(s, i);
    Pow2Add(w, k);
    assert w + k == i + 1;
    Pow2Next(w - 1);
    WindowAlgebra(Pow2(k), Pow2(w - 1), s / Pow2(i + 1), Bit(s, i), u % Pow2(w - 1), BitAt(s, i - w));
  }

  lemma Pow2Next(k: nat)
    ensures Pow2(k + 1) == 2 * Pow2(k)
  {
  }

  /** A window that opens at a bit change is nonzero and at most 2^(w-1). */
  lemma WindowRange(s: nat, i: nat, w: nat)
    requires 0 < w <= i + 1 && Bit(s, i) != BitAt(s, i - 1)
    ensures Window(s, i, w) != 0
    ensures -Pow2(w - 1) <= Window(s, i, w) <= Pow2(w - 1)
  {
    hide Bit;
    var k, m := i - w + 1, Pow2(w - 1);
    LowPart(s / Pow2(k), m);
    if w == 1 {
    } else {
      hide Pow2;
      TopOfLow(s, k, w - 1);
    }
  }

  lemma LowPart(u: int, m: int)
    requires m > 0
    ensures 0 <= u % m < m
  {
  }

  /** The top bit of the low part of a window is the bit below the window's top. */
  lemma TopOfLow(s: nat, k: nat, n: nat)
    requires n > 0
    ensures var low := (s / Pow2(k)) % Pow2(n);
            if Bit(s, k + n - 1) == 1 then low >= Pow2(n - 1) else low < Pow2(n - 1)
  {
    var u, h := s / Pow2(k), Pow2(n - 1);
    Pow2Div(s, k, n - 1);
    assert k + (n - 1) == k + n - 1;
    Pow2Next(n - 1);
    HalfSplit(u, h);
  }

  lemma HalfSplit(u: nat, h: int)
    requires h > 0
    ensures u % (2 * h) == u % h + h * ((u / h) % 2)
  {
    var q, r := u / h, u % h;
    assert u == (q / 2) * (2 * h) + (h * (q % 2) + r) by {
      assert q == 2 * (q / 2) + q % 2;
      assert h * q == (q / 2) * (2 * h) + h * (q % 2);
    }
    NatMulBound(h, q % 2, h, 1);
    DivModUnique(u, 2 * h, q / 2, h * (q % 2) + r);
  }

  // ---- two's complement bit tricks -----------------------------------------------------

  /** a & b in two's complement, for operands of at most n bits plus sign. */
  function And(a: int, b: int, n: nat): int
    decreases n
  {
    if n == 0 then (if a < 0 && b < 0 then -1 else 0)
    else (if a % 2 == 1 && b % 2 == 1 then 1 else 0) + 2 * And(a / 2, b / 2, n - 1)
  }

  /** x & ~x is zero. */
  lemma {:induction false} AndComplement(x: int, n: nat)
    ensures And(x, -x - 1, n) == 0
    decreases n
  {
    if n == 0 {
    } else {
      AndComplement(x / 2, n - 1);
      assert (-x - 1) / 2 == -(x / 2) - 1;
    }
  }

  /** The position of the lowest one of v. */
  function Trailing(v: int): (t: nat)
    requires v != 0
    decreases if v < 0 then -v else v
  {
    if v % 2 == 1 then 0 else 1 + Trailing(v / 2)
  }

  /** v & (~v + 1) isolates the lowest one. */
  lemma {:induction false} LowestOne(v: int, n: nat)
    requires v != 0 && Trailing(v) < n
    ensures And(v, -v, n) == Pow2(Trailing(v))
    decreases n
  {
    if v % 2 == 1 {
      assert (-v) / 2 == -(v / 2) - 1;
      AndComplement(v / 2, n - 1);
    } else {
      assert (-v) / 2 == -(v / 2);
      LowestOne(v / 2, n - 1);
    }
  }

  lemma {:induction false} TrailingDivides(v: int)
    requires v != 0
    ensures v == Pow2(Trailing(v)) * (v / Pow2(Trailing(v)))
    ensures (v / Pow2(Trailing(v))) % 2 == 1
    decreases if v < 0 then -v else v
  {
    if v % 2 == 1 {
      assert Pow2(0) == 1;
    } else {
      var h, p := v / 2, Pow2(Trailing(v / 2));
      TrailingDivides(h);
      assert v == 2 * (p * (h / p)) == (2 * p) * (h / p);
      DivModUnique(v, 2 * p, h / p, 0);
    }
  }

  lemma {:induction false} TrailingBound(v: int, k: nat)
    requires v != 0 && -Pow2(k) <= v <= Pow2(k)
    ensures Trailing(v) <= k
    ensures Trailing(v) == k ==> v == Pow2(k) || v == -Pow2(k)
    decreases k
  {
    if v % 2 != 0 || k == 0 {
    } else {
      TrailingBound(v / 2, k - 1);
    }
  }

  /** The shift slide_step derives from the window value with three masks; a
      window value fits eight bits. */
  function ShiftOf(v: int): int
  {
    var lsb := And(v, -v, 8);
    (if And(lsb, 0xAA, 8) != 0 then 1 else 0)
    + (if And(lsb, 0xCC, 8) != 0 then 2 else 0)
    + (if And(lsb, 0xF0, 8) != 0 then 4 else 0)
  }

  lemma {:induction false} AndZero(m: int, n: nat)
    ensures And(0, m, n) == 0
    decreases n
  {
    if n == 0 {
    } else {
      AndZero(m / 2, n - 1);
    }
  }

  /** Masking a power of two tests one bit of the mask. */
  lemma {:induction false} AndPower(k: nat, m: nat, n: nat)
    requires k < n
    ensures And(Pow2(k), m, n) != 0 <==> Bit(m, k) == 1
    decreases k
  {
    if k == 0 {
      AndZero(m / 2, n - 1);
      assert Pow2(0) == 1;
    } else {
      AndPower(k - 1, m / 2, n - 1);
      Pow2Div(m, 1, k - 1);
      assert Pow2(1) == 2;
    }
  }

  /** The masks spell the position of the one in binary. */
  lemma MaskBits(t: nat)
    requires t <= 4
    ensures Bit(0xAA, t) + 2 * Bit(0xCC, t) + 4 * Bit(0xF0, t) == t
  {
    assert Pow2(0) == 1 && Pow2(1) == 2 && Pow2(2) == 4 && Pow2(3) == 8 && Pow2(4) == 16;
  }

  lemma ShiftIsTrailing(v: int)
    requires v != 0 && -16 <= v <= 16
    ensures ShiftOf(v) == Trailing(v)
  {
    hide And, Bit, Pow2, Trailing;
    Pow2Four();
    TrailingBound(v, 4);
    LowestOne(v, 8);
    AndPower(Trailing(v), 0xAA, 8);
    AndPower(Trailing(v), 0xCC, 8);
    AndPower(Trailing(v), 0xF0, 8);
    MaskBits(Trailing(v));
  }

  // ---- digits ------------------------------------------------------------------------------

  /** An odd digit whose half indexes a table of 2^(width-2) odd multiples. */
  predicate TableDigit(width: nat, d: int)
    requires width >= 2
  {
    d % 2 == 1 && (if d < 0 then -d else d) / 2 < Pow2(width - 2)
  }

  /** A window value is its digit shifted into place, and the digit fits the table. */
  lemma WindowDigit(v: int, w: nat, width: nat)
    requires v != 0 && 0 < w <= width && width >= 2 && -Pow2(w - 1) <= v <= Pow2(w - 1)
    ensures Trailing(v) <= w - 1
    ensures v == Pow2(Trailing(v)) * (v / Pow2(Trailing(v)))
    ensures TableDigit(width, v / Pow2(Trailing(v)))
  {
    var t := Trailing(v);
    TrailingBound(v, w - 1);
    TrailingDivides(v);
    var d := v / Pow2(t);
    Pow2Next(width - 2);
    Pow2Mono(w - 1, width - 1);
    if t == w - 1 {
      UnitDigit(v, d, Pow2(t));
    } else {
      SmallDigit(v, d, t, w - 1);
    }
  }

  lemma UnitDigit(v: int, d: int, p: int)
    requires p > 0 && (v == p || v == -p) && v == p * d
    ensures d == 1 || d == -1
  {
    assert v == p ==> p * (d - 1) == 0;
    assert v == -p ==> p * (d + 1) == 0;
  }

  lemma SmallDigit(v: int, d: int, t: nat, k: nat)
    requires -Pow2(k) <= v <= Pow2(k) && t < k && v == Pow2(t) * d && d % 2 == 1
    ensures -Pow2(k) < d < Pow2(k)
  {
    Pow2Next(k - 1);
    if t == 0 {
      assert Pow2(0) == 1;
    } else {
      Pow2Next(t - 1);
      DigitBelow(Pow2(t), d, Pow2(k));
    }
  }

  lemma DigitBelow(p: int, d: int, q: int)
    requires p >= 2 && q >= 1 && -q <= p * d <= q
    ensures -q < d < q
  {
    if d >= 1 {
      MulMono(2, p, d);
    } else if d <= -1 {
      MulMono(2, p, -d);
    }
  }

  lemma Pow2Four()
    ensures Pow2(4) == 16
  {
  }

  lemma SmallPowers(k: nat)
    requires k <= 4
    ensures Pow2(k) <= 16
  {
    assert Pow2(4) == 16;
    Pow2Mono(k, 4);
  }

  lemma DropZeroBit(s: nat, i: nat)
    requires s < Pow2(i + 1) && Bit(s, i) == 0
    ensures s < Pow2(i)
  {
    ShiftBeyond(s, i + 1);
    ShiftBit(s, i);
    ZeroQuotient(s, Pow2(i));
  }

  lemma ZeroQuotient(s: nat, p: nat)
    requires p > 0 && s / p == 0
    ensures s < p
  {
  }

  lemma PreviousBit(scalar: seq<u8>, i: nat)
    requires |scalar| == 32 && i < 256
    ensures ScalarBit(scalar, i - 1) == BitAt(Val8(scalar), i - 1)
  {
    if i > 0 {
      ScalarBitIsBit(scalar, i - 1);
    }
  }

  lemma Rescale(k: nat, t: nat, d: int, v: int)
    requires v == Pow2(t) * d
    ensures d * Pow2(k + t) == Pow2(k) * v
  {
    Pow2Add(k, t);
    var a, b := Pow2(k), Pow2(t);
    assert d * (a * b) == a * (b * d);
  }

  lemma Shifted(acc: int, digit: int, p: int)
    ensures (2 * acc + digit) * p == acc * (2 * p) + digit * p
  {
  }

  /** The loop that gathers a window: its low bits, then the bit below it. */
  method WindowValue(scalar: seq<u8>, i: nat, w: nat) returns (v: int)
    requires |scalar| == 32 && 0 < w <= i + 1 && i < 254
    ensures v == Window(Val8(scalar), i, w)
  {
    hide Pow2, Bit, ScalarBit, Val8;
    ghost var s, k := Val8(scalar), i - w + 1;
    ScalarBitIsBit(scalar, i);
    v := -(ScalarBit(scalar, i) * Pow2(w - 1));
    ghost var top := v;
    ModOne(s / Pow2(k));
    for j := 0 to w - 1
      invariant v == top + (s / Pow2(k)) % Pow2(j)
    {
      ScalarBitIsBit(scalar, i - (w - 1) + j);
      v := v + ScalarBit(scalar, i - (w - 1) + j) * Pow2(j);
      NextLowBit(s, k, j);
    }
    PreviousBit(scalar, i - w + 1);
    v := v + ScalarBit(scalar, i - w);
  }

  lemma ModOne(u: nat)
    ensures u % Pow2(0) == 0
  {
    assert Pow2(0) == 1;
  }

  lemma NextLowBit(s: nat, k: nat, j: nat)
    ensures var u := s / Pow2(k); u % Pow2(j + 1) == u % Pow2(j) + Bit(s, k + j) * Pow2(j)
  {
    Pow2Div(s, k, j);
    Pow2Next(j);
    HalfSplit(s / Pow2(k), Pow2(j));
  }

  // ---- the incremental recoder -----------------------------------------------------------

  /** The state of one recoding.  nextCheck is a byte: after the last window it
      has wrapped from 0 to 255, a position that is never visited again. */
  class SlideCtx {
    var nextIndex: int
    var nextDigit: int
    var nextCheck: u8

    /** The position below which nothing has been recoded yet. */
    ghost function Frontier(): int
      reads this
    {
      if nextCheck == 255 then -1 else nextCheck
    }

    /** The digit already computed but not yet handed out at or below i. */
    ghost function Pending(i: int): int
      reads this
    {
      if 0 <= nextIndex <= i then nextDigit * Pow2(nextIndex) else 0
    }

    /** Before step i: the digits handed out so far, acc at weight 2^(i+1), and
        the pending one cover the scalar down to the frontier; a pending digit
        lies above the frontier. */
    ghost predicate Valid(width: nat, s: nat, acc: int, i: int)
      reads this
    {
      && width >= 2 && -1 <= i <= 254 && -1 <= Frontier() <= i
      && (0 <= nextIndex <= i ==> Frontier() < nextIndex && TableDigit(width, nextDigit))
      && acc * Pow2(i + 1) + Pending(i) == Covered(s, Frontier())
    }

    /** slide_init: start at the highest set bit among the low 253. */
    constructor (scalar: seq<u8>, ghost width: nat)
      requires width >= 2 && |scalar| == 32 && Val8(scalar) < Pow2(253)
      ensures nextCheck <= 253
      ensures forall i :: nextCheck <= i <= 254 ==> Valid(width, Val8(scalar), 0, i)
    {
      hide Covered, Pow2, Bit, ScalarBit, Val8, TableDigit;
      ghost var s := Val8(scalar);
      var i := 252;
      while i > 0 && ScalarBit(scalar, i) == 0
        invariant 0 <= i <= 252 && s < Pow2(i + 1)
      {
        ScalarBitIsBit(scalar, i);
        DropZeroBit(s, i);
        i := i - 1;
      }
      nextCheck := i + 1;
      nextIndex := -1;
      nextDigit := -1;
      new;
      CoveredStart(s, i + 1);
    }

    /** slide_step. */
    method Step(width: nat, i: nat, scalar: seq<u8>, ghost acc: int) returns (digit: int)
      requires 2 <= width <= 5 && |scalar| == 32 && i < 254
      requires Valid(width, Val8(scalar), acc, i)
      modifies this
      ensures Valid(width, Val8(scalar), 2 * acc + digit, i - 1)
      ensures digit != 0 ==> TableDigit(width, digit)
    {
      hide Covered, Pow2, Bit, ScalarBit, Val8, Window, ShiftOf, Trailing, TableDigit;
      ghost var s := Val8(scalar);
      if i == nextCheck {
        ScalarBitIsBit(scalar, i);
        PreviousBit(scalar, i);
        if ScalarBit(scalar, i) == ScalarBit(scalar, i - 1) {
          CoveredEqualBits(s, i);
          nextCheck := (nextCheck + 255) % 256;
        } else {
          var w := if width < i + 1 then width else i + 1;
          var v := WindowValue(scalar, i, w);
          WindowRange(s, i, w);
          SmallPowers(w - 1);
          ShiftIsTrailing(v);
          var t := ShiftOf(v);
          WindowDigit(v, w, width);
          nextIndex := i - (w - 1) + t;
          nextDigit := v / Pow2(t);
          CoveredWindow(s, i, w);
          Rescale(i - w + 1, t, nextDigit, v);
          nextCheck := (nextCheck + 256 - w) % 256;
        }
      }
      digit := if i == nextIndex then nextDigit else 0;
      Shifted(acc, digit, Pow2(i));
      Pow2Next(i);
    }
  }

  // ---- a whole recoding ------------------------------------------------------------------------

  /** The number a sequence of signed digits stands for, highest weight first. */
  function DigitSum(digits: seq<int>): int
  {
    if |digits| == 0 then 0 else 2 * DigitSum(digits[..|digits| - 1]) + digits[|digits| - 1]
  }

  /** The last digit has weight 1, the first one weight 2^(|digits|-1). */
  lemma {:induction false} DigitWeights(digits: seq<int>)
    ensures |digits| > 0 ==> DigitSum(digits) == digits[0] * Pow2(|digits| - 1) + DigitSum(digits[1..])
  {
    if |digits| <= 1 {
    } else {
      var n := |digits| - 1;
      DigitWeights(digits[..n]);
      assert digits[1..][..n - 1] == digits[..n][1..];
      Twice(digits[0], Pow2(n - 1));
    }
  }

  lemma Twice(d: int, p: int)
    ensures 2 * (d * p) == d * (2 * p)
  {
  }

  /** At position -1 the accumulated digits are the whole scalar. */
  lemma Finished(ctx: SlideCtx, width: nat, s: nat, acc: int)
    requires ctx.Valid(width, s, acc, -1)
    ensures acc == s
  {
    CoveredEnd(s);
    assert Pow2(0) == 1;
  }

  /** The digits slide_step hands out from the starting position down to 0 sum to the
      scalar, and every nonzero one is odd and within its table. */
  method Recode(scalar: seq<u8>, width: nat) returns (digits: seq<int>)
    requires 2 <= width <= 5 && |scalar| == 32 && Val8(scalar) < Pow2(253)
    ensures |digits| <= 254 && DigitSum(digits) == Val8(scalar)
    ensures forall d :: d in digits && d != 0 ==> TableDigit(width, d)
  {
    hide Covered, Pow2, Val8, TableDigit;
    var ctx := new SlideCtx(scalar, width);
    var i: int := ctx.nextCheck;
    digits := [];
    while i >= 0
      invariant -1 <= i < 254 && |digits| + i + 1 <= 254
      invariant ctx.Valid(width, Val8(scalar), DigitSum(digits), i)
      invariant forall d :: d in digits && d != 0 ==> TableDigit(width, d)
    {
      var digit := ctx.Step(width, i, scalar, DigitSum(digits));
      assert (digits + [digit])[..|digits|] == digits;
      digits := digits + [digit];
      i := i - 1;
    }
    Finished(ctx, width, Val8(scalar), DigitSum(digits));
  }
}
