/** The Poly1305 context: blocks buffered sixteen bytes at a time, against the
    one-shot definition. */
module Poly1305Stream {
  import opened Arith
  import opened Words
  import opened Bits
  import opened Poly1305

  function AccOf(h: seq<u32>): Acc
    requires |h| == 5
  {
    Acc(h[0], h[1], h[2], h[3], h[4])
  }

  function KeyOf(r: seq<u32>): Key
    requires |r| == 4
  {
    Key(r[0], r[1], r[2], r[3])
  }

  /** The words of block i of a message. */
  function WordsAt(m: seq<u8>, i: nat): (w: seq<u32>)
    requires 16 * i + 16 <= |m|
    ensures |w| == 4
  {
    LoadLimbs(m[16 * i..16 * i + 16])
  }

  /** The accumulator holds the definition's value for these whole blocks. */
  ghost predicate Holds(h: seq<u32>, k: Key, done: seq<u8>)
    requires |h| == 5
  {
    Bounded(AccOf(h)) && Value(AccOf(h)) % P == Accumulate(KeyValue(k), done)
  }

  lemma {:induction false} Val8Append(s: seq<u8>, b: u8, z: nat)
    ensures Val8(s + [b] + seq(z, _ => 0)) == Val8(s + [b])
  {
    if |s| == 0 {
      var t: seq<u8> := seq(z, _ => 0);
      assert s + [b] + t == [b] + t && s + [b] == [b];
      assert ([b] + t)[1..] == t && [b][1..] == [];
      ZeroBytes(z);
    } else {
      assert (s + [b] + seq(z, _ => 0))[1..] == s[1..] + [b] + seq(z, _ => 0);
      assert (s + [b])[1..] == s[1..] + [b];
      Val8Append(s[1..], b, z);
    }
  }

  lemma {:induction false} ZeroBytes(z: nat)
    ensures Val8(seq(z, _ => 0)) == 0
  {
    if z == 0 {
    } else {
      var t: seq<u8> := seq(z, _ => 0);
      assert t[1..] == seq(z - 1, _ => 0);
      ZeroBytes(z - 1);
    }
  }

  /** A one above sixteen bytes weighs 2^128. */
  lemma Val8One(s: seq<u8>)
    requires |s| == 16
    ensures Val8(s + [1]) == Val8(s) + W128
  {
    hide Load32;
    Val8Cons4(s); Val8Cons4(s[4..]); Val8Cons4(s[4..][4..]); Val8Cons4(s[4..][4..][4..]);
    var t := s + [1];
    Val8Cons4(t); Val8Cons4(t[4..]); Val8Cons4(t[4..][4..]); Val8Cons4(t[4..][4..][4..]);
    assert t[..4] == s[..4] && t[4..][..4] == s[4..][..4];
    assert t[4..][4..][..4] == s[4..][4..][..4] && t[4..][4..][4..][..4] == s[4..][4..][4..][..4];
    assert t[4..][4..][4..][4..] == [1] && s[4..][4..][4..][4..] == [];
    assert Val8([1]) == 1 + 0x100 * Val8([]);
  }

  /** One whole block keeps the accumulator on the definition. */
  lemma BlockHolds(h: seq<u32>, k: Key, done: seq<u8>, block: seq<u8>, h': seq<u32>)
    requires |h| == 5 && |h'| == 5 && |block| == 16 && |done| % 16 == 0 && Clamped(k)
    requires Holds(h, k, done)
    requires AccOf(h') == Block(k, AccOf(h), LoadLimbs(block), 1)
    ensures Holds(h', k, done + block)
  {
    hide Accumulate, Value, Block, Val8, Val32, KeyValue, Load32, LoadLimbs;
    BlockIsStep(k, AccOf(h), LoadLimbs(block), 1);
    LoadLimbsVal(block);
    Val8One(block);
    AccumulateAppend(KeyValue(k), done, block);
    StepCongruent(Value(AccOf(h)), Accumulate(KeyValue(k), done), Val8(block + [1]), KeyValue(k));
  }

  /** The last block: the one is inside the sixteen bytes. */
  lemma LastHolds(h: seq<u32>, k: Key, done: seq<u8>, tail: seq<u8>, block: seq<u8>, h': seq<u32>)
    requires |h| == 5 && |h'| == 5 && |block| == 16 && |done| % 16 == 0 && Clamped(k)
    requires 0 < |tail| < 16 && block == tail + [1] + seq(15 - |tail|, _ => 0)
    requires Holds(h, k, done)
    requires AccOf(h') == Block(k, AccOf(h), LoadLimbs(block), 0)
    ensures Holds(h', k, done + tail)
  {
    hide Accumulate, Value, Block, Val8, Val32, KeyValue, Load32, LoadLimbs;
    BlockIsStep(k, AccOf(h), LoadLimbs(block), 0);
    LoadLimbsVal(block);
    Val8Append(tail, 1, 15 - |tail|);
    AccumulateAppend(KeyValue(k), done, tail);
    StepCongruent(Value(AccOf(h)), Accumulate(KeyValue(k), done), Val8(tail + [1]), KeyValue(k));
  }

  /** Four carry steps of a sum of limbs, from a start value of at most 64 bits. */
  lemma CarryStep(lo: int, w: int, v: int, c: int, x: int, limb: int, c': int, start: int)
    requires lo + c * w == start + v && c + x == limb + B32 * c'
    ensures (lo + w * limb) + c' * (B32 * w) == start + (v + w * x)
  {
    assert w * (c + x) == w * c + w * x;
    assert w * (limb + B32 * c') == w * limb + c' * (B32 * w);
  }

  lemma Prefix(s: seq<u32>, i: nat)
    requires i < |s|
    ensures Val32(s[..i + 1]) == Val32(s[..i]) + W32(i) * s[i]
  {
    assert s[..i + 1] == s[..i] + [s[i]];
    Val32Snoc(s[..i], s[i]);
  }

  /** The accumulator after the first n blocks. */
  function Blocks(k: Key, h: Acc, input: seq<u8>, n: nat, end: u32): (a: Acc)
    requires Clamped(k) && Bounded(h) && 16 * n <= |input| && end <= 1
    ensures Bounded(a)
  {
    if n == 0 then h else Block(k, Blocks(k, h, input, n - 1, end), WordsAt(input, n - 1), end)
  }

  /** Whole blocks in a row keep the accumulator on the definition. */
  lemma {:induction false} BlocksHold(h: seq<u32>, k: Key, done: seq<u8>, input: seq<u8>, n: nat)
    requires |h| == 5 && |done| % 16 == 0 && 16 * n <= |input| && Clamped(k)
    requires Holds(h, k, done)
    ensures Value(Blocks(k, AccOf(h), input, n, 1)) % P == Accumulate(KeyValue(k), done + input[..16 * n])
  {
    hide Accumulate, Value, Block, KeyValue, LoadLimbs;
    if n == 0 {
      assert done + input[..0] == done;
    } else {
      BlocksHold(h, k, done, input, n - 1);
      var a, b := Blocks(k, AccOf(h), input, n - 1, 1), Blocks(k, AccOf(h), input, n, 1);
      var block := input[16 * n - 16..16 * n];
      BlockHolds(WordsOf(a), k, done + input[..16 * (n - 1)], block, WordsOf(b));
      assert done + input[..16 * (n - 1)] + block == done + input[..16 * n];
    }
  }

  function WordsOf(a: Acc): (h: seq<u32>)
    ensures |h| == 5 && AccOf(h) == a
  {
    [a.h0, a.h1, a.h2, a.h3, a.h4]
  }

  function ClampLow(x: u32): (y: u32)
    ensures y <= 0x0fff_ffff && y == Clamp0(x)
  {
    x % 0x1000_0000
  }

  function ClampWord(x: u32): (y: u32)
    ensures y <= 0x0fff_fffc && y % 4 == 0 && y == Clamp(x)
  {
    x % 0x1000_0000 - x % 4
  }

  class Poly1305Ctx {
    const c: array<u8>
    var cIdx: nat
    const r: array<u32>
    const pad: array<u32>
    const h: array<u32>

    /** The message bytes already multiplied in and those still buffered. */
    ghost var done: seq<u8>
    ghost var tail: seq<u8>

    ghost predicate Shape()
    {
      && c.Length == 16 && r.Length == 4 && pad.Length == 4 && h.Length == 5
      && h != r && h != pad && r != pad
    }

    ghost predicate Valid()
      reads this, c, r, pad, h
    {
      && Shape() && Clamped(KeyOf(r[..]))
      && |done| % 16 == 0 && cIdx == |tail| <= 16
      && c[..cIdx] == tail
      && Holds(h[..], KeyOf(r[..]), done)
    }

    ghost function Absorbed(): seq<u8>
      reads this
    {
      done + tail
    }

    /** The context was keyed with this key. */
    ghost predicate Keyed(key: seq<u8>)
      requires |key| == 32
      reads r, pad
    {
      && r.Length == 4 && KeyValue(KeyOf(r[..])) == KeyR(key)
      && Val32(pad[..]) == KeyS(key)
    }

    /** poly_blocks. */
    method PolyBlocks(input: seq<u8>, nbBlocks: nat, end: u32)
      requires Shape() && Clamped(KeyOf(r[..])) && Bounded(AccOf(h[..]))
      requires 16 * nbBlocks <= |input| && end <= 1
      modifies h
      ensures AccOf(h[..]) == Blocks(KeyOf(r[..]), old(AccOf(h[..])), input, nbBlocks, end)
    {
      hide Block;
      var a := AccOf(h[..]);
      var k := KeyOf(r[..]);
      for i := 0 to nbBlocks
        invariant a == Blocks(k, old(AccOf(h[..])), input, i, end)
      {
        a := Block(k, a, WordsAt(input, i), end);
      }
      h[0], h[1], h[2], h[3], h[4] := a.h0, a.h1, a.h2, a.h3, a.h4;
    }

    /** crypto_poly1305_init: the key is loaded and clamped. */
    constructor (key: seq<u8>)
      requires |key| == 32
      ensures Valid() && Absorbed() == [] && cIdx == 0 && Keyed(key)
      ensures fresh(c) && fresh(r) && fresh(pad) && fresh(h)
    {
      hide LoadLimbs, ClampLow, ClampWord, Clamp0, Clamp, Holds, Val8, Val32;
      var l, p := LoadLimbs(key[..16]), LoadLimbs(key[16..]);
      c := new u8[16](_ => 0);
      h := new u32[5](_ => 0);
      r := new u32[4] [ClampLow(l[0]), ClampWord(l[1]), ClampWord(l[2]), ClampWord(l[3])];
      pad := new u32[4] [p[0], p[1], p[2], p[3]];
      cIdx, done, tail := 0, [], [];
      new;
      assert pad[..] == p;
      LoadLimbsVal(key[16..]);
      assert KeyOf(r[..]) == Key(ClampLow(l[0]), ClampWord(l[1]), ClampWord(l[2]), ClampWord(l[3]));
      ZeroHolds(h[..], KeyOf(r[..]));
    }

    /** A full buffer is multiplied in. */
    method FlushBlock()
      requires Valid() && cIdx == 16
      modifies this`cIdx, this`done, this`tail, h
      ensures Valid() && cIdx == 0 && Absorbed() == old(Absorbed())
    {
      hide Blocks, Clamped, Value, KeyValue, Accumulate, KeyOf, AccOf;
      BlocksHold(h[..], KeyOf(r[..]), done, c[..], 1);
      assert c[..] == tail && tail[..16] == tail;
      PolyBlocks(c[..], 1, 1);
      MakeHolds(h[..], KeyOf(r[..]), done + tail);
      cIdx, done, tail := 0, done + tail, [];
    }

    /** The whole blocks of update. */
    method PutBlocks(msg: seq<u8>, n: nat)
      requires Valid() && 16 * n <= |msg| && (n > 0 ==> cIdx == 0)
      modifies this`done, h
      ensures Valid() && Absorbed() == old(Absorbed()) + msg[..16 * n]
    {
      hide Blocks, Clamped, Value, KeyValue, Accumulate, KeyOf, AccOf;
      BlocksHold(h[..], KeyOf(r[..]), done, msg, n);
      PolyBlocks(msg, n, 1);
      MakeHolds(h[..], KeyOf(r[..]), done + msg[..16 * n]);
      Resting(done, tail, msg, n);
      done := done + msg[..16 * n];
    }

    /** The byte loops of update. */
    method PutBytes(bytes: seq<u8>)
      requires Valid() && cIdx + |bytes| <= 16
      modifies this`cIdx, this`tail, c
      ensures Valid() && cIdx == old(cIdx) + |bytes|
      ensures tail == old(tail) + bytes && Absorbed() == old(Absorbed()) + bytes
    {
      hide Holds, Clamped;
      for i := 0 to |bytes|
        invariant Valid() && cIdx == old(cIdx) + i
        invariant tail == old(tail) + bytes[..i]
      {
        c[cIdx] := bytes[i];
        cIdx := cIdx + 1;
        tail := tail + [bytes[i]];
      }
    }

    /** The head of update: bytes up to a block boundary, and a completed block
        multiplied in.  Whatever is left starts on a block boundary. */
    method AlignInput(message: seq<u8>) returns (msg: seq<u8>)
      requires Valid() && cIdx < 16
      modifies this, c, h
      ensures Valid() && cIdx < 16
      ensures Absorbed() + msg == old(Absorbed()) + message
      ensures |msg| > 0 ==> cIdx == 0
    {
      hide Holds, Clamped, KeyOf;
      var aligned := Min(Align(cIdx, 16), |message|);
      msg := message[aligned..];
      assert message == message[..aligned] + msg;
      PutBytes(message[..aligned]);
      if cIdx == 16 {
        FlushBlock();
      }
    }

    /** crypto_poly1305_update: absorbs the message, however the calls cut it up. */
    method Update(message: seq<u8>)
      requires Valid() && cIdx < 16
      modifies this, c, h
      ensures Valid() && cIdx < 16
      ensures Absorbed() == old(Absorbed()) + message
    {
      hide Holds, Clamped, KeyOf;
      if |message| == 0 {
        return;
      }
      var msg := AlignInput(message);
      PutAligned(msg);
    }

    /** The rest of update: whole blocks, then the bytes short of a block. */
    method PutAligned(msg: seq<u8>)
      requires Valid() && cIdx < 16 && (|msg| > 0 ==> cIdx == 0)
      modifies this, c, h
      ensures Valid() && cIdx < 16
      ensures Absorbed() == old(Absorbed()) + msg
    {
      hide Holds, Clamped, KeyOf, Accumulate;
      var n := |msg| / 16;
      ghost var a := Absorbed();
      PutBlocks(msg, n);
      PutBytes(msg[16 * n..]);
      Pieces(a, msg, 16 * n);
    }

    /** The zero padding and the closing one. */
    method PadTail()
      requires Valid() && 0 < cIdx < 16
      modifies c
      ensures c[..] == tail + [1] + seq(15 - |tail|, _ => 0)
    {
      hide Holds, Clamped;
      for i := cIdx to 16
        invariant c[..cIdx] == tail
        invariant forall k :: cIdx <= k < i ==> c[k] == 0
      {
        c[i] := 0;
      }
      c[cIdx] := 1;
    }

    /** The last block, if any byte is buffered. */
    method LastBlock()
      requires Valid() && cIdx < 16
      modifies c, h
      ensures Shape() && Holds(h[..], KeyOf(r[..]), Absorbed())
    {
      hide Blocks, Clamped, Value, KeyValue, Accumulate, KeyOf, AccOf;
      if cIdx != 0 {
        PadTail();
        LastBlockHolds(h[..], KeyOf(r[..]), done, tail, c[..]);
        PolyBlocks(c[..], 1, 0);
        MakeHolds(h[..], KeyOf(r[..]), done + tail);
      } else {
        assert done + tail == done;
      }
    }

    /** The carry of h + 5 out of the low four limbs. */
    method SubtractCarry() returns (carry: u64)
      requires Shape() && Bounded(AccOf(h[..]))
      ensures carry == (Value(AccOf(h[..])) + 5) / W128
    {
      hide Value;
      carry := 5;
      ghost var lo := 0;
      for i := 0 to 4
        invariant carry <= B32
        invariant 0 <= lo < W32(i) && lo + carry * W32(i) == 5 + Val32(h[..i])
      {
        hide W32, Val32;
        ghost var limb := (carry + h[i]) % B32;
        CarryStep(lo, W32(i), Val32(h[..i]), carry, h[i], limb, (carry + h[i]) / B32, 5);
        Prefix(h[..], i);
        WeightStep(i);
        LimbFits(lo, W32(i), limb);
        lo := lo + W32(i) * limb;
        carry := carry + h[i];
        carry := carry / B32;
      }
      carry := carry + h[4];
      LowAndTop(h[..], lo, carry - h[4]);
    }

    /** The sum h + pad + 5q with its carries, four limbs stored as bytes. */
    method AddPad(q: nat) returns (mac: seq<u8>, ghost words: seq<u32>, carry: u64)
      requires Shape() && q <= 1
      ensures |words| == 4 && mac == StoreLimbs(words)
      ensures Val32(words) + carry * W32(4) == 5 * q + (Val32(h[..4]) + Val32(pad[..4]))
    {
      hide W32, Val32, StoreLimbs;
      carry := q * 5;
      words := [];
      mac := [];
      NoLimbs(h[..], pad[..]);
      for i := 0 to 4
        invariant |words| == i && mac == StoreLimbs(words) && carry <= B32
        invariant Val32(words) + carry * W32(i) == 5 * q + (Val32(h[..i]) + Val32(pad[..i]))
      {
        PadStep(words, h[..], pad[..], i, carry, q, h[i], pad[i]);
        carry := Plus(carry, Plus(h[i], pad[i]));
        StoreLimbsSnoc(words, carry % B32);
        mac := mac + Store32(carry % B32);
        words := words + [carry % B32];
        carry := carry / B32;
      }
    }

    /** The conditional subtraction and the pad: the residue of h plus the pad. */
    method AddResidue() returns (mac: seq<u8>)
      requires Shape() && Bounded(AccOf(h[..]))
      ensures |mac| == 16 && Val8(mac) == (Value(AccOf(h[..])) % P + Val32(pad[..])) % W128
    {
      hide Value, Val8, Val32, Bounded, AccOf, W32;
      var carry := SubtractCarry();
      ghost var v, p := Value(AccOf(h[..])), Val32(pad[..]);
      ValueBound(AccOf(h[..]));
      SubtractOnce(v, carry);
      ghost var words, top;
      mac, words, top := AddPad(carry / 4);
      assert pad[..4] == pad[..];
      StoredSum(words, top, Val32(h[..4]) + p + 5 * (carry / 4));
      FinalSum(h[..], v, carry / 4, p, v % P);
    }

    /** Nothing of the key or the message is left. */
    ghost predicate Wiped()
      reads this, c, r, pad, h
    {
      && cIdx == 0 && (forall k :: 0 <= k < c.Length ==> c[k] == 0)
      && (forall k :: 0 <= k < r.Length ==> r[k] == 0) && (forall k :: 0 <= k < pad.Length ==> pad[k] == 0)
      && (forall k :: 0 <= k < h.Length ==> h[k] == 0)
    }

    /** WIPE_CTX. */
    method Wipe()
      requires Shape()
      modifies this`cIdx, c, r, pad, h
      ensures Wiped()
    {
      forall k | 0 <= k < 16 {
        c[k] := 0;
      }
      forall k | 0 <= k < 4 {
        r[k] := 0;
      }
      forall k | 0 <= k < 4 {
        pad[k] := 0;
      }
      forall k | 0 <= k < 5 {
        h[k] := 0;
      }
      cIdx := 0;
    }

    /** crypto_poly1305_final: the authenticator of everything absorbed, and a wiped
        context. */
    method Final(ghost key: seq<u8>) returns (mac: seq<u8>)
      requires |key| == 32 && Valid() && cIdx < 16 && Keyed(key)
      modifies this`cIdx, c, r, pad, h
      ensures |mac| == 16 && Val8(mac) == Tag(key, old(Absorbed())) && Wiped()
    {
      hide Clamped, Accumulate, Value, KeyR, KeyS, Val8, Val32, Bounded, AccOf, KeyOf;
      LastBlock();
      mac := AddResidue();
      Wipe();
    }
  }

  /** crypto_poly1305. */
  method CryptoPoly1305(message: seq<u8>, key: seq<u8>) returns (mac: seq<u8>)
    requires |key| == 32
    ensures |mac| == 16 && Val8(mac) == Tag(key, message)
  {
    hide Tag, Val8;
    var ctx := new Poly1305Ctx(key);
    ctx.Update(message);
    assert [] + message == message;
    mac := ctx.Final(key);
  }

  /** Any sequence of updates authenticates the concatenation. */
  method MacParts(parts: seq<seq<u8>>, key: seq<u8>) returns (mac: seq<u8>)
    requires |key| == 32
    ensures |mac| == 16 && Val8(mac) == Tag(key, Concat(parts))
  {
    hide Tag, Val8, Concat, KeyValue, KeyR, KeyS, Accumulate, Clamped, Value, Val32, LoadLimbs, KeyOf, AccOf;
    var ctx := new Poly1305Ctx(key);
    ConcatNothing(parts);
    for i := 0 to |parts|
      invariant fresh(ctx) && fresh(ctx.c) && fresh(ctx.r) && fresh(ctx.pad) && fresh(ctx.h)
      invariant ctx.Valid() && ctx.cIdx < 16 && ctx.Keyed(key) && ctx.Absorbed() == Concat(parts[..i])
    {
      ConcatNext(parts, i);
      ctx.Update(parts[i]);
    }
    assert parts[..|parts|] == parts;
    mac := ctx.Final(key);
  }

  // ---- helpers of the methods ---------------------------------------------------------------

  /** Whole blocks go in when nothing is buffered. */
  lemma Resting(done: seq<u8>, tail: seq<u8>, msg: seq<u8>, n: nat)
    requires 16 * n <= |msg| && (n > 0 ==> |tail| == 0)
    ensures done + tail + msg[..16 * n] == done + msg[..16 * n] + tail
  {
    assert n == 0 ==> msg[..16 * n] == [];
  }

  lemma Pieces(a: seq<u8>, msg: seq<u8>, n: nat)
    requires n <= |msg|
    ensures a + msg[..n] + msg[n..] == a + msg
  {
  }

  lemma ZeroHolds(h: seq<u32>, k: Key)
    requires |h| == 5 && (forall i :: 0 <= i < 5 ==> h[i] == 0)
    ensures Holds(h, k, [])
  {
  }

  lemma MakeHolds(h: seq<u32>, k: Key, done: seq<u8>)
    requires |h| == 5 && Bounded(AccOf(h)) && Value(AccOf(h)) % P == Accumulate(KeyValue(k), done)
    ensures Holds(h, k, done)
  {
  }

  lemma LastBlockHolds(h: seq<u32>, k: Key, done: seq<u8>, tail: seq<u8>, block: seq<u8>)
    requires |h| == 5 && |block| == 16 && |done| % 16 == 0 && Clamped(k)
    requires 0 < |tail| < 16 && block == tail + [1] + seq(15 - |tail|, _ => 0)
    requires Holds(h, k, done)
    ensures Value(Blocks(k, AccOf(h), block, 1, 0)) % P == Accumulate(KeyValue(k), done + tail)
  {
    hide Value, Accumulate, Block, LoadLimbs;
    assert block[0..16] == block;
    var a := Blocks(k, AccOf(h), block, 1, 0);
    assert a == Block(k, Blocks(k, AccOf(h), block, 0, 0), WordsAt(block, 0), 0);
    LastHolds(h, k, done, tail, block, WordsOf(a));
  }

  lemma WeightStep(i: nat)
    ensures W32(i + 1) == B32 * W32(i) && W32(0) == 1
  {
  }

  lemma FourWeight()
    ensures W32(4) == W128
  {
    W32Eight();
  }

  lemma LimbFits(lo: int, w: int, limb: int)
    requires 0 <= lo < w && 0 <= limb < B32
    ensures 0 <= lo + w * limb < B32 * w
  {
    MulMono(limb, B32 - 1, w);
  }

  lemma Distribute(w: int, a: int, b: int)
    ensures w * (a + b) == w * a + w * b
  {
  }

  lemma NoLimbs(h: seq<u32>, pad: seq<u32>)
    ensures Val32([]) == 0 && W32(0) == 1 && StoreLimbs([]) == []
    ensures Val32(h[..0]) == 0 && Val32(pad[..0]) == 0
  {
  }

  /** Four stored limbs hold the sum mod 2^128. */
  lemma StoredSum(words: seq<u32>, carry: int, sum: int)
    requires |words| == 4 && Val32(words) + carry * W32(4) == sum
    ensures Val8(StoreLimbs(words)) == sum % W128
  {
    hide Val32, StoreLimbs, Val8;
    StoreLimbsVal(words);
    Val32Bound(words);
    FourWeight();
    DivModUnique(sum, W128, carry, Val32(words));
  }

  /** A sum computed in 64 bits. */
  function Plus(x: u64, y: u64): (z: u64)
    requires x + y < B64
    ensures z == x + y
  {
    x + y
  }

  lemma PadStep(words: seq<u32>, h: seq<u32>, pad: seq<u32>, i: nat, carry: int, q: int, x: int, y: int)
    requires |words| == i < |h| && i < |pad| && x == h[i] && y == pad[i] && carry >= 0
    requires Val32(words) + carry * W32(i) == 5 * q + (Val32(h[..i]) + Val32(pad[..i]))
    ensures Val32(words + [(carry + (x + y)) % B32]) + ((carry + (x + y)) / B32) * W32(i + 1) == 5 * q + (Val32(h[..i
        + 1]) + Val32(pad[..i + 1]))
  {
    hide W32, Val32;
    CarryStep(Val32(words), W32(i), Val32(h[..i]) + Val32(pad[..i]), carry, x + y, (carry + (x + y)) % B32, (carry
        + (x + y)) / B32, 5 * q);
    Prefix(h, i);
    Prefix(pad, i);
    WeightStep(i);
    Distribute(W32(i), x, y);
    Val32Snoc(words, (carry + (x + y)) % B32);
  }

  lemma LowAndTop(h: seq<u32>, lo: int, carry: int)
    requires |h| == 5 && 0 <= lo < W32(4) && lo + carry * W32(4) == 5 + Val32(h[..4])
    ensures carry + h[4] == (Value(AccOf(h)) + 5) / W128
  {
    hide W32, Val32;
    FourWeight();
    Val32Of4(h[..4]);
    DivModUnique(Value(AccOf(h)) + 5, W128, carry + h[4], lo);
  }

  lemma ValueBound(a: Acc)
    requires Bounded(a)
    ensures 0 <= Value(a) < 5 * W128
  {
  }

  /** h + 5q + pad, cut to 128 bits, is the residue plus the pad. */
  lemma FinalSum(h: seq<u32>, v: int, q: int, pad: int, acc: int)
    requires |h| == 5 && v == Value(AccOf(h))
    requires v % P + W128 * (4 * q) == v + 5 * q && v % P == acc
    ensures (Val32(h[..4]) + pad + 5 * q) % W128 == (acc + pad) % W128
  {
    hide Val32;
    Val32Of4(h[..4]);
    ModEq(Val32(h[..4]) + pad + 5 * q, acc + pad, 4 * q - h[4], W128);
  }
}
