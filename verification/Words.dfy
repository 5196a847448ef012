/** Machine words as bounded integers, and the numbers that little-endian
    byte strings and 32-bit limb arrays stand for.  A subset type makes every
    assignment an overflow check: a method over these types verifies only if
    no intermediate leaves the width the C code gives it. */
module Words {
  import opened Arith

  const B32: int := 0x1_0000_0000
  const B64: int := 0x1_0000_0000_0000_0000

  type u8 = x: int | 0 <= x < 0x100
  type u32 = x: int | 0 <= x < 0x1_0000_0000
  type u64 = x: int | 0 <= x < 0x1_0000_0000_0000_0000
  type i32 = x: int | -0x8000_0000 <= x < 0x8000_0000
  type i64 = x: int | -0x8000_0000_0000_0000 <= x < 0x8000_0000_0000_0000

  /** Weight of limb k. */
  function W32(k: nat): (r: int)
    ensures r > 0
  {
    if k == 0 then 1 else B32 * W32(k - 1)
  }

  /** The number a little-endian sequence of 32-bit limbs stands for. */
  function Val32(s: seq<u32>): (r: nat)
  {
    if |s| == 0 then 0 else s[0] + B32 * Val32(s[1..])
  }

  /** The number a little-endian byte string stands for. */
  function Val8(s: seq<u8>): (r: nat)
  {
    if |s| == 0 then 0 else s[0] + 0x100 * Val8(s[1..])
  }

  lemma {:induction false} W32Add(m: nat, n: nat)
    ensures W32(m + n) == W32(m) * W32(n)
  {
    if m == 0 {
    } else {
      W32Add(m - 1, n);
      var x, y := W32(m - 1), W32(n);
      assert B32 * (x * y) == (B32 * x) * y;
    }
  }

  lemma {:induction false} Val32Append(s: seq<u32>, t: seq<u32>)
    ensures Val32(s + t) == Val32(s) + W32(|s|) * Val32(t)
  {
    if |s| == 0 {
      assert s + t == t;
    } else {
      Val32Append(s[1..], t);
      assert (s + t)[1..] == s[1..] + t;
      var w, v := W32(|s| - 1), Val32(t);
      assert B32 * (w * v) == (B32 * w) * v;
    }
  }

  lemma Val32Snoc(s: seq<u32>, x: u32)
    ensures Val32(s + [x]) == Val32(s) + W32(|s|) * x
  {
    Val32Append(s, [x]);
    assert Val32([x]) == x + B32 * Val32([]);
  }

  lemma {:induction false} Val32Bound(s: seq<u32>)
    ensures Val32(s) < W32(|s|)
  {
    if |s| == 0 {
    } else {
      Val32Bound(s[1..]);
    }
  }

  /** Splitting a limb array at a boundary is division by the weight there. */
  lemma Val32Split(s: seq<u32>, k: nat)
    requires k <= |s|
    ensures Val32(s) == Val32(s[..k]) + W32(k) * Val32(s[k..])
  {
    assert s == s[..k] + s[k..];
    Val32Append(s[..k], s[k..]);
  }

  /** An exact multiple of the weight at k has zero limbs below k. */
  lemma Val32Multiple(s: seq<u32>, k: nat, q: int)
    requires k <= |s| && Val32(s) == q * W32(k)
    ensures Val32(s[k..]) == q && Val32(s[..k]) == 0
  {
    Val32Split(s, k);
    Val32Bound(s[..k]);
    ExactMultiple(Val32(s[..k]), Val32(s[k..]), W32(k), q);
  }

  lemma ExactMultiple(lo: int, hi: int, w: int, q: int)
    requires 0 <= lo < w && lo + w * hi == q * w
    ensures lo == 0 && hi == q
  {
    assert (q - hi) * w == lo;
    assert q - hi >= 1 ==> (q - hi) * w >= w;
    assert q - hi <= -1 ==> (q - hi) * w <= -w;
  }

  lemma {:induction false} Val32Zeros(s: seq<u32>)
    requires forall k :: 0 <= k < |s| ==> s[k] == 0
    ensures Val32(s) == 0
  {
    if |s| == 0 {
    } else {
      Val32Zeros(s[1..]);
    }
  }

  /** A limb array of a given length is determined by its number. */
  lemma {:induction false} Val32Injective(s: seq<u32>, t: seq<u32>)
    requires |s| == |t| && Val32(s) == Val32(t)
    ensures s == t
  {
    if |s| == 0 {
    } else {
      DivModUnique(Val32(s), B32, Val32(s[1..]), s[0]);
      DivModUnique(Val32(t), B32, Val32(t[1..]), t[0]);
      Val32Injective(s[1..], t[1..]);
      assert s == [s[0]] + s[1..] && t == [t[0]] + t[1..];
    }
  }

  lemma W32Eight()
    ensures W32(8) == 0x1_0000000000000000_0000000000000000_0000000000000000_0000000000000000
    ensures W32(16) == W32(8) * W32(8)
    ensures W32(4) == 0x1_0000000000000000_0000000000000000
  {
    assert W32(4) == B32 * W32(3) && W32(3) == B32 * W32(2) && W32(2) == B32 * W32(1) && W32(1) == B32;
    W32Add(4, 4);
    W32Add(8, 8);
  }

  /** The number of a fixed eight-limb display, written out. */
  lemma Val32Of8(s: seq<u32>)
    requires |s| == 8
    ensures Val32(s) == s[0] + B32 * (s[1] + B32 * (s[2] + B32 * (s[3] + B32 * (s[4] + B32 * (s[5] + B32 * (s[6]
        + B32 * s[7]))))))
  {
    var t := s[4..];
    assert s[1..][1..][1..][1..] == t;
    assert Val32(s[1..]) == s[1] + B32 * Val32(s[1..][1..]);
    assert Val32(s[1..][1..]) == s[2] + B32 * Val32(s[1..][1..][1..]);
    assert Val32(s[1..][1..][1..]) == s[3] + B32 * Val32(t);
    assert t[1..][1..][1..][1..] == [];
    assert Val32(t) == s[4] + B32 * Val32(t[1..]);
    assert Val32(t[1..]) == s[5] + B32 * Val32(t[1..][1..]);
    assert Val32(t[1..][1..]) == s[6] + B32 * Val32(t[1..][1..][1..]);
    assert Val32(t[1..][1..][1..]) == s[7] + B32 * Val32([]);
  }

  // ---- bytes and limbs -------------------------------------------------

  function Join4(a: int, b: int, c: int, d: int): int
  {
    a + 0x100 * b + 0x10000 * c + 0x1000000 * d
  }

  function Load32(s: seq<u8>): (r: u32)
    requires |s| == 4
  {
    Join4(s[0], s[1], s[2], s[3])
  }

  function Store32(x: u32): (s: seq<u8>)
    ensures |s| == 4 && Load32(s) == x
  {
    var q1 := x / 0x100;
    var q2 := q1 / 0x100;
    [x % 0x100, q1 % 0x100, q2 % 0x100, q2 / 0x100]
  }

  /** load32_le_buf over a whole byte string. */
  function LoadLimbs(s: seq<u8>): (r: seq<u32>)
    requires |s| % 4 == 0
    ensures |r| == |s| / 4
  {
    if |s| == 0 then [] else [Load32(s[..4])] + LoadLimbs(s[4..])
  }

  /** store32_le_buf over a whole limb array. */
  function StoreLimbs(s: seq<u32>): (r: seq<u8>)
    ensures |r| == 4 * |s|
  {
    if |s| == 0 then [] else Store32(s[0]) + StoreLimbs(s[1..])
  }

  lemma Val8Cons4(s: seq<u8>)
    requires |s| >= 4
    ensures Val8(s) == Load32(s[..4]) + B32 * Val8(s[4..])
  {
    var t1, t2, t3, t4 := s[1..], s[2..], s[3..], s[4..];
    assert s[1..] == t1 && t1[1..] == t2 && t2[1..] == t3 && t3[1..] == t4;
    assert Val8(s) == s[0] + 0x100 * Val8(t1);
    assert Val8(t1) == s[1] + 0x100 * Val8(t2);
    assert Val8(t2) == s[2] + 0x100 * Val8(t3);
    assert Val8(t3) == s[3] + 0x100 * Val8(t4);
  }

  /** Loading limbs keeps the number. */
  lemma {:induction false} LoadLimbsVal(s: seq<u8>)
    requires |s| % 4 == 0
    ensures Val32(LoadLimbs(s)) == Val8(s)
  {
    if |s| == 0 {
    } else {
      Val8Cons4(s);
      LoadLimbsVal(s[4..]);
      assert LoadLimbs(s)[1..] == LoadLimbs(s[4..]);
    }
  }

  /** Storing limbs keeps the number. */
  lemma {:induction false} StoreLimbsVal(s: seq<u32>)
    ensures Val8(StoreLimbs(s)) == Val32(s)
  {
    if |s| == 0 {
    } else {
      var r := StoreLimbs(s);
      assert r[..4] == Store32(s[0]) && r[4..] == StoreLimbs(s[1..]);
      Val8Cons4(r);
      StoreLimbsVal(s[1..]);
    }
  }

  lemma {:induction false} StoreLoad(s: seq<u32>)
    ensures LoadLimbs(StoreLimbs(s)) == s
  {
    if |s| == 0 {
    } else {
      var r := StoreLimbs(s);
      assert r[..4] == Store32(s[0]) && r[4..] == StoreLimbs(s[1..]);
      StoreLoad(s[1..]);
    }
  }

  lemma {:induction false} Val8Injective(s: seq<u8>, t: seq<u8>)
    requires |s| == |t| && Val8(s) == Val8(t)
    ensures s == t
  {
    if |s| == 0 {
    } else {
      DivModUnique(Val8(s), 0x100, Val8(s[1..]), s[0]);
      DivModUnique(Val8(t), 0x100, Val8(t[1..]), t[0]);
      Val8Injective(s[1..], t[1..]);
      assert s == [s[0]] + s[1..] && t == [t[0]] + t[1..];
    }
  }

  lemma {:induction false} StoreLimbsSnoc(s: seq<u32>, x: u32)
    ensures StoreLimbs(s + [x]) == StoreLimbs(s) + Store32(x)
  {
    if |s| == 0 {
      assert s + [x] == [x];
    } else {
      StoreLimbsSnoc(s[1..], x);
      assert (s + [x])[1..] == s[1..] + [x];
    }
  }

  lemma {:induction false} LoadLimbAt(s: seq<u8>, i: nat)
    requires |s| % 4 == 0 && 4 * i < |s|
    ensures LoadLimbs(s)[i] == Load32(s[4 * i..4 * i + 4])
  {
    hide Load32;
    if i == 0 {
    } else {
      assert LoadLimbs(s)[i] == LoadLimbs(s[4..])[i - 1];
      LoadLimbAt(s[4..], i - 1);
      assert s[4..][4 * (i - 1)..4 * (i - 1) + 4] == s[4 * i..4 * i + 4];
    }
  }

  function Min(a: nat, b: nat): nat
  {
    if a <= b then a else b
  }

  /** The pieces of a message put together again. */
  function Concat(parts: seq<seq<u8>>): seq<u8>
  {
    if |parts| == 0 then [] else Concat(parts[..|parts| - 1]) + parts[|parts| - 1]
  }

  lemma ConcatNothing(parts: seq<seq<u8>>)
    ensures Concat(parts[..0]) == []
  {
  }

  lemma ConcatNext(parts: seq<seq<u8>>, i: nat)
    requires i < |parts|
    ensures Concat(parts[..i + 1]) == Concat(parts[..i]) + parts[i]
  {
    assert parts[..i + 1][..i] == parts[..i];
  }

  /** The bytes are the characters of a text. */
  predicate Spells(b: seq<u8>, text: string)
  {
    |b| == |text| && forall i :: 0 <= i < |text| ==> b[i] == text[i] as int
  }
}
