/** Schoolbook arithmetic on arrays of 32-bit limbs: the multiply-accumulate
    loops of the scalar code, each proved against Val32. */
module Limbs {
  import opened Arith
  import opened Words

  /** One column of a row: the limb stored and the carry passed on. */
  lemma RowStep(lo: int, c: int, c': int, limb: int, old_: int, x: int, y: int, w: int, vold: int, vy: int)
    requires lo + c * w == vold + x * vy
    requires limb + B32 * c' == c + old_ + x * y
    ensures (lo + w * limb) + c' * (B32 * w) == (vold + w * old_) + x * (vy + w * y)
  {
    calc {
      (lo + w * limb) + c' * (B32 * w);
      lo + w * (limb + B32 * c');
      lo + w * (c + old_ + x * y);
      lo + c * w + w * old_ + w * (x * y);
      { assert w * (x * y) == x * (w * y); }
      vold + x * vy + w * old_ + x * (w * y);
      (vold + w * old_) + x * (vy + w * y);
    }
  }

  lemma ColumnFits(c: int, p: int, x: int, y: int)
    requires 0 <= c < B32 && 0 <= p < B32 && 0 <= x < B32 && 0 <= y < B32
    ensures 0 <= c + p + x * y < B64
    ensures (c + p + x * y) / B32 < B32
  {
    AbsMulBound(x, y, B32 - 1, B32 - 1);
    assert 0 <= x * y;
  }

  lemma ValPrefixSnoc(s: seq<u32>, j: nat)
    requires j < |s|
    ensures Val32(s[..j + 1]) == Val32(s[..j]) + W32(j) * s[j]
  {
    assert s[..j + 1] == s[..j] + [s[j]];
    Val32Snoc(s[..j], s[j]);
  }

  lemma W32Next(j: nat)
    ensures W32(j + 1) == B32 * W32(j)
  {
  }

  lemma EmptyRow(a: seq<u32>, b: seq<u32>, c: seq<u32>)
    requires |a| == 0 && |b| == 0 && |c| == 0
    ensures Val32(a) == Val32(b) == Val32(c) == 0
  {
  }

  /** p[off .. off+n] += x * y[..n]; the carry out of the row is returned. */
  method MulAddRow(p: array<u32>, off: nat, n: nat, x: u32, y: seq<u32>) returns (carry: u64)
    requires off + n <= p.Length && n <= |y|
    modifies p
    ensures carry < B32
    ensures Val32(p[off..off + n]) + carry * W32(n) == old(Val32(p[off..off + n])) + x * Val32(y[..n])
    ensures p[..off] == old(p[..off]) && p[off + n..] == old(p[off + n..])
  {
    hide Val32, W32;
    carry := 0;
    ghost var was := p[..];
    ghost var win := p[off..off + n];
    EmptyRow(p[off..off], win[..0], y[..0]);
    for j := 0 to n
      invariant carry < B32
      invariant p[..off] == was[..off] && p[off + j..] == was[off + j..]
      invariant Val32(p[off..off + j]) + carry * W32(j) == Val32(win[..j]) + x * Val32(y[..j])
    {
      ColumnFits(carry, p[off + j], x, y[j]);
      W32Next(j);
      ghost var done, c, pj := p[off..off + j], carry, p[off + j];
      assert pj == win[j];
      carry := carry + p[off + j] + x * y[j];
      p[off + j] := carry % B32;
      carry := carry / B32;
      assert p[off..off + j + 1] == done + [p[off + j]];
      Val32Snoc(done, p[off + j]);
      ValPrefixSnoc(win, j);
      ValPrefixSnoc(y, j);
      RowStep(Val32(done), c, carry, p[off + j], pj, x, y[j], W32(j), Val32(win[..j]), Val32(y[..j]));
    }
    assert win[..n] == win;
  }

  /** Assembling a finished row with the limbs below it. */
  lemma RowIntoTotal(lo: int, wi: int, mid: int, mid': int, c: int, wn: int, ai: int, b: int, total: int)
    requires mid' + c * wn == mid + ai * b
    requires total == lo + wi * mid
    ensures lo + wi * (mid' + wn * c) == total + (wi * ai) * b
  {
    calc {
      lo + wi * (mid' + wn * c);
      { assert wn * c == c * wn; }
      lo + wi * (mid + ai * b);
      lo + wi * mid + wi * (ai * b);
      { assert wi * (ai * b) == (wi * ai) * b; }
      total + (wi * ai) * b;
    }
  }

  /** Row i of a product: its own limb of weight W32(i) times b is added. */
  method ProductRow(p: array<u32>, i: nat, x: u32, b: seq<u32>)
    requires i + |b| < p.Length
    modifies p
    ensures Val32(p[..i + |b| + 1]) == old(Val32(p[..i + |b|])) + (W32(i) * x) * Val32(b)
    ensures p[i + |b| + 1..] == old(p[i + |b| + 1..])
  {
    ghost var n := |b|;
    ghost var s0 := p[..];
    ghost var lo, mid := p[..i], p[i..i + n];
    assert p[..i + n] == lo + mid;
    Val32Append(lo, mid);
    var carry := MulAddRow(p, i, |b|, x, b);
    ghost var mid' := p[i..i + n];
    p[i + |b|] := carry;
    assert p[i..i + n + 1] == mid' + [p[i + n]];
    assert p[..i + n + 1] == lo + (mid' + [p[i + n]]);
    Val32Append(lo, mid' + [p[i + n]]);
    Val32Snoc(mid', p[i + n]);
    assert b[..n] == b;
    RowIntoTotal(Val32(lo), W32(i), Val32(mid), Val32(mid'), carry, W32(n), x, Val32(b), Val32(s0[..i + n]));
    assert p[i + n + 1..] == s0[i + n + 1..];
  }

  lemma Distribute(x: int, y: int, z: int)
    ensures (x + y) * z == x * z + y * z
  {
  }

  /** One more digit of the left factor. */
  lemma ProductSnoc(a: seq<u32>, i: nat, b: int)
    requires i < |a|
    ensures Val32(a[..i + 1]) * b == Val32(a[..i]) * b + (W32(i) * a[i]) * b
  {
    ValPrefixSnoc(a, i);
    Distribute(Val32(a[..i]), W32(i) * a[i], b);
  }

  /** p[..|b|] plus the product a*b, over |a|+|b| limbs.  The limbs from |b| on
      are overwritten, whatever they held. */
  method MultiplyAcc(p: array<u32>, a: seq<u32>, b: seq<u32>)
    requires |a| + |b| <= p.Length && |b| > 0
    modifies p
    ensures Val32(p[..|a| + |b|]) == old(Val32(p[..|b|])) + Val32(a) * Val32(b)
    ensures p[|a| + |b|..] == old(p[|a| + |b|..])
  {
    assert Val32(a[..0]) == 0;
    for i := 0 to |a|
      invariant Val32(p[..i + |b|]) == old(Val32(p[..|b|])) + Val32(a[..i]) * Val32(b)
      invariant p[|a| + |b|..] == old(p[|a| + |b|..])
    {
      ProductSnoc(a, i, Val32(b));
      ghost var s0 := p[..];
      ProductRow(p, i, a[i], b);
      assert p[|a| + |b|..] == p[i + |b| + 1..][|a| - i - 1..];
      assert s0[|a| + |b|..] == s0[i + |b| + 1..][|a| - i - 1..];
    }
    assert a[..|a|] == a;
  }

  /** The part of a truncated row that falls off is a multiple of the top weight. */
  lemma TruncatedRow(lo: int, wi: int, mid: int, mid': int, c: int, wr: int, xi: int, ylo: int, yhi: int, wn: int)
    requires mid' + c * wr == mid + xi * ylo
    requires wi * wr == wn
    ensures lo + wi * mid' + (c + xi * yhi) * wn == (lo + wi * mid) + (wi * xi) * (ylo + wr * yhi)
  {
    calc {
      lo + wi * mid' + (c + xi * yhi) * wn;
      lo + wi * mid' + (c + xi * yhi) * (wi * wr);
      { assert (c + xi * yhi) * (wi * wr) == wi * (c * wr) + wi * (xi * yhi * wr); }
      lo + wi * mid' + wi * (c * wr) + wi * (xi * yhi * wr);
      lo + wi * (mid' + c * wr) + wi * (xi * yhi * wr);
      lo + wi * (mid + xi * ylo) + wi * (xi * yhi * wr);
      { assert wi * (xi * ylo) + wi * (xi * yhi * wr) == (wi * xi) * (ylo + wr * yhi); }
      (lo + wi * mid) + (wi * xi) * (ylo + wr * yhi);
    }
  }

  /** Row i of a product modulo 2^(32 n): cut at limb n, carry dropped. */
  method LowProductRow(p: array<u32>, n: nat, i: nat, x: u32, y: seq<u32>) returns (ghost wraps: int)
    requires i < n == |y| <= p.Length
    modifies p
    ensures Val32(p[..n]) + wraps * W32(n) == old(Val32(p[..n])) + (W32(i) * x) * Val32(y)
    ensures p[n..] == old(p[n..])
  {
    hide Val32, W32;
    ghost var lo, mid := p[..i], p[i..n];
    assert p[..n] == lo + mid;
    Val32Append(lo, mid);
    assert i + (n - i) == n;
    var carry := MulAddRow(p, i, n - i, x, y);
    ghost var mid' := p[i..n];
    assert p[..n] == lo + mid';
    Val32Append(lo, mid');
    Val32Split(y, n - i);
    W32Add(i, n - i);
    TruncatedRow(Val32(lo), W32(i), Val32(mid), Val32(mid'), carry, W32(n - i), x, Val32(y[..n - i]),
        Val32(y[n - i..]), W32(n));
    wraps := carry + x * Val32(y[n - i..]);
  }

  /** p[..n] += x*y modulo 2^(32 n): the rows are cut at limb n and their
      carries dropped.  The number of whole wrap-arounds is returned. */
  method MultiplyLow(p: array<u32>, x: seq<u32>, y: seq<u32>) returns (ghost wraps: int)
    requires |x| == |y| <= p.Length
    modifies p
    ensures Val32(p[..|x|]) + wraps * W32(|x|) == old(Val32(p[..|x|])) + Val32(x) * Val32(y)
    ensures p[|x|..] == old(p[|x|..])
  {
    wraps := 0;
    assert Val32(x[..0]) == 0;
    for i := 0 to |x|
      invariant Val32(p[..|x|]) + wraps * W32(|x|) == old(Val32(p[..|x|])) + Val32(x[..i]) * Val32(y)
      invariant p[|x|..] == old(p[|x|..])
    {
      ProductSnoc(x, i, Val32(y));
      ghost var extra := LowProductRow(p, |x|, i, x[i], y);
      Distribute(wraps, extra, W32(|x|));
      wraps := wraps + extra;
    }
    assert x[..|x|] == x;
  }
}
