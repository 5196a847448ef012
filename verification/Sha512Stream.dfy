/** The streaming SHA-512 context: byte, word and block buffering and the
    in-place message schedule, against the one-shot definition. */
module Sha512Stream {
  import opened Arith
  import opened Words
  import opened Bits
  import opened Sha512Spec

  function RegsOf(h: seq<Word>): Regs
    requires |h| == 8
  {
    Regs(h[0], h[1], h[2], h[3], h[4], h[5], h[6], h[7])
  }

  // ---- the compression function -----------------------------------------------------------

  lemma AddComm(x: Word, y: Word)
    ensures Add(x, y) == Add(y, x)
  {
  }

  lemma AddAssoc(x: Word, y: Word, z: Word)
    ensures Add(Add(x, y), z) == Add(x, Add(y, z))
  {
  }

  lemma FourTerms(h: Word, s: Word, c: Word, k: Word, w: Word)
    ensures Add(Add(Add(Add(h, s), c), k), w) == Add(Add(Add(s, c), h), Add(k, w))
  {
    hide Add;
    AddAssoc(Add(Add(h, s), c), k, w);
    AddAssoc(h, s, c);
    AddComm(h, Add(s, c));
  }

  lemma ScheduleOrder(a: Word, b: Word, c: Word, d: Word)
    ensures Add(Add(Add(d, a), c), b) == Add(Add(Add(a, b), c), d)
  {
    hide Add;
    AddAssoc(d, a, c);
    AddAssoc(d, Add(a, c), b);
    AddAssoc(a, c, b);
    AddComm(c, b);
    AddAssoc(a, b, c);
    AddComm(d, Add(Add(a, b), c));
  }

  lemma ScheduleAt(m: seq<Word>, t: nat)
    requires |m| == 16 && t >= 16
    ensures Add(Add(Add(Schedule(m, t - 16), LitSigma1(Schedule(m, t - 2))), LitSigma0(Schedule(m, t - 15))),
        Schedule(m, t - 7))
         == Schedule(m, t)
  {
    hide LitSigma0, LitSigma1, Add;
    ScheduleOrder(LitSigma1(Schedule(m, t - 2)), Schedule(m, t - 7), LitSigma0(Schedule(m, t - 15)), Schedule(m,
        t - 16));
  }

  /** Words t .. t+15 of the schedule sit in the buffer at their index modulo 16. */
  ghost predicate HoldsSchedule(buf: seq<Word>, m: seq<Word>, t: nat)
    requires |buf| == 16 && |m| == 16
  {
    forall j :: t <= j < t + 16 ==> buf[j % 16] == Schedule(m, j)
  }

  lemma ScheduleStart(m: seq<Word>)
    requires |m| == 16
    ensures HoldsSchedule(m, m, 0)
  {
  }

  /** Replacing the oldest word by the next one slides the window by one. */
  lemma ScheduleSlides(buf: seq<Word>, buf': seq<Word>, m: seq<Word>, t: nat)
    requires |buf| == |buf'| == 16 && |m| == 16 && HoldsSchedule(buf, m, t)
    requires buf' == buf[t % 16 := Schedule(m, t + 16)]
    ensures HoldsSchedule(buf', m, t + 1)
  {
    hide Schedule;
    forall j | t + 1 <= j < t + 17
      ensures buf'[j % 16] == Schedule(m, j)
    {
      if j < t + 16 {
        OtherSlot(j, t);
        assert buf[j % 16] == Schedule(m, j);
      } else {
        assert j % 16 == t % 16;
      }
    }
  }

  lemma OtherSlot(j: nat, t: nat)
    requires t < j < t + 16
    ensures j % 16 != t % 16
  {
  }

  /** A round as the C code sums it. */
  function RoundStep(r: Regs, k: Word, w: Word): Regs
  {
    var t1 := Add(Add(Add(BigSigma1(r.e), Ch(r.e, r.f, r.g)), r.h), Add(k, w));
    var t2 := Add(BigSigma0(r.a), Maj(r.a, r.b, r.c));
    Regs(Add(t1, t2), r.a, r.b, r.c, Add(r.d, t1), r.e, r.f, r.g)
  }

  lemma RoundOrder(r: Regs, k: Word, w: Word)
    ensures RoundStep(r, k, w) == Round(r, k, w)
  {
    hide BigSigma0, BigSigma1, Ch, Maj, Add;
    FourTerms(r.h, BigSigma1(r.e), Ch(r.e, r.f, r.g), k, w);
  }

  /** sha512_compress on plain arrays: 16 rounds over the message words, then 64
      rounds that extend the schedule in place. */
  method CompressInPlace(hash: array<Word>, input: array<Word>)
    requires hash.Length == 8 && input.Length == 16 && hash != input
    modifies hash, input
    ensures RegsOf(hash[..]) == Compress(old(RegsOf(hash[..])), old(input[..]))
  {
    hide RoundStep, Schedule, Round, Rounds, Add, HoldsSchedule;
    NoRounds(RegsOf(hash[..]), input[..]);
    ghost var m := input[..];
    ghost var start := RegsOf(hash[..]);
    var r := Regs(hash[0], hash[1], hash[2], hash[3], hash[4], hash[5], hash[6], hash[7]);
    ScheduleStart(m);
    for j := 0 to 16
      invariant input[..] == m && hash[..] == old(hash[..])
      invariant r == Rounds(start, m, j)
    {
      FirstWords(m, j);
      StepIsRound(start, m, j, r);
      r := RoundStep(r, K[j], input[j]);
    }
    var i16 := 0;
    for i := 1 to 5
      invariant i16 == 16 * (i - 1) && hash[..] == old(hash[..])
      invariant HoldsSchedule(input[..], m, i16)
      invariant r == Rounds(start, m, i16 + 16)
    {
      i16 := i16 + 16;
      for j := 0 to 16
        invariant hash[..] == old(hash[..])
        invariant HoldsSchedule(input[..], m, i16 - 16 + j)
        invariant r == Rounds(start, m, i16 + j)
      {
        ExtendSchedule(input, m, i16, j);
        StepIsRound(start, m, i16 + j, r);
        r := RoundStep(r, K[i16 + j], input[j]);
      }
    }
    AddInto(hash, r);
  }

  /** The final additions into the chaining value. */
  method AddInto(hash: array<Word>, r: Regs)
    requires hash.Length == 8
    modifies hash
    ensures RegsOf(hash[..]) == AddRegs(old(RegsOf(hash[..])), r)
  {
    hide Add;
    hash[0], hash[1], hash[2], hash[3] := Add(hash[0], r.a), Add(hash[1], r.b), Add(hash[2], r.c), Add(hash[3], r.d);
    hash[4], hash[5], hash[6], hash[7] := Add(hash[4], r.e), Add(hash[5], r.f), Add(hash[6], r.g), Add(hash[7], r.h);
  }

  lemma NoRounds(r: Regs, m: seq<Word>)
    requires |m| == 16
    ensures Rounds(r, m, 0) == r
  {
  }

  lemma FirstWords(m: seq<Word>, j: nat)
    requires |m| == 16 && j < 16
    ensures Schedule(m, j) == m[j]
  {
  }

  lemma StepIsRound(start: Regs, m: seq<Word>, t: nat, r: Regs)
    requires |m| == 16 && t < 80 && r == Rounds(start, m, t)
    ensures RoundStep(r, K[t], Schedule(m, t)) == Rounds(start, m, t + 1)
  {
    hide Round, RoundStep, Schedule, Add;
    RoundOrder(r, K[t], Schedule(m, t));
  }

  /** The three in-place additions at slot j make it word i16 + j of the schedule. */
  method ExtendSchedule(input: array<Word>, ghost m: seq<Word>, ghost i16: nat, j: nat)
    requires input.Length == 16 && |m| == 16 && j < 16 && i16 >= 16 && i16 % 16 == 0
    requires HoldsSchedule(input[..], m, i16 - 16 + j)
    modifies input
    ensures HoldsSchedule(input[..], m, i16 - 16 + j + 1)
    ensures input[j] == Schedule(m, i16 + j)
  {
    hide Schedule, LitSigma0, LitSigma1, HoldsSchedule, Add;
    ghost var buf := input[..];
    ghost var t := i16 + j;
    SameSlot(i16, j);
    SlotOf(buf, m, t - 16, t - 16, j);
    SlotOf(buf, m, t - 16, t - 2, (j - 2) % 16);
    SlotOf(buf, m, t - 16, t - 15, (j - 15) % 16);
    SlotOf(buf, m, t - 16, t - 7, (j - 7) % 16);
    ScheduleAt(m, t);
    OtherSlots(j);
    var j2, j15, j7 := (j - 2) % 16, (j - 15) % 16, (j - 7) % 16;
    input[j] := Add(input[j], LitSigma1(input[j2]));
    assert input[..] == buf[j := Add(buf[j], LitSigma1(buf[j2]))];
    input[j] := Add(input[j], LitSigma0(input[j15]));
    assert input[..] == buf[j := Add(Add(buf[j], LitSigma1(buf[j2])), LitSigma0(buf[j15]))];
    input[j] := Add(input[j], input[j7]);
    assert input[..] == buf[j := Add(Add(Add(buf[j], LitSigma1(buf[j2])), LitSigma0(buf[j15])), buf[j7])];
    assert (t - 16) % 16 == j;
    ScheduleSlides(buf, input[..], m, t - 16);
  }

  lemma SameSlot(i16: nat, j: nat)
    requires i16 >= 16 && i16 % 16 == 0 && j < 16
    ensures (i16 + j - 16) % 16 == j && (i16 + j - 2) % 16 == (j - 2) % 16
    ensures (i16 + j - 15) % 16 == (j - 15) % 16 && (i16 + j - 7) % 16 == (j - 7) % 16
  {
  }

  lemma OtherSlots(j: nat)
    requires j < 16
    ensures (j - 2) % 16 != j && (j - 15) % 16 != j && (j - 7) % 16 != j
  {
  }

  lemma SlotOf(buf: seq<Word>, m: seq<Word>, t: nat, j: nat, slot: int)
    requires |buf| == |m| == 16 && HoldsSchedule(buf, m, t) && t <= j < t + 16 && slot == j % 16
    ensures 0 <= slot < 16 && buf[slot] == Schedule(m, j)
  {
    hide Schedule;
  }

  // ---- the input buffer -----------------------------------------------------------------

  /** The buffer after the bytes of an unfinished block: zeros behind them. */
  function Buffered(tail: seq<u8>): (m: seq<Word>)
    requires |tail| <= 128
    ensures |m| == 16
  {
    BlockWords(tail + Zeros(128 - |tail|))
  }

  /** Appending zero bytes shifts a big-endian number. */
  lemma {:induction false} BigEndianZeros(s: seq<u8>, n: nat)
    ensures BigEndian(s + Zeros(n)) == BigEndian(s) * Pow2(8 * n)
  {
    if n == 0 {
      assert s + Zeros(0) == s;
      assert Pow2(0) == 1;
    } else {
      BigEndianZeros(s, n - 1);
      var t := s + Zeros(n);
      assert t[..|t| - 1] == s + Zeros(n - 1);
      Pow2Eight();
      Pow2Add(8, 8 * (n - 1));
      ShiftByte(BigEndian(s), Pow2(8 * (n - 1)));
    }
  }

  lemma ShiftByte(x: int, p: int)
    ensures 0x100 * (x * p) == x * (0x100 * p)
  {
  }

  lemma BigEndianSnoc(p: seq<u8>, b: u8)
    ensures BigEndian(p + [b]) == 0x100 * BigEndian(p) + b
  {
    assert (p + [b])[..|p|] == p;
  }

  lemma ByteTimes(b: nat, w: nat)
    requires b < 0x100 && w > 0
    ensures 0 <= b * w < 0x100 * w
  {
  }

  /** A shifted byte or-ed below a shifted number is their sum. */
  lemma OrJoins(x: nat, b: u8, w: nat, n: nat)
    requires w > 0 && Pow2(n) == 0x100 * w
    ensures 0 <= b * w && 0 <= x * Pow2(n)
    ensures BitOr(b * w, x * Pow2(n)) == (0x100 * x + b) * w
  {
    hide Pow2, BitOr;
    ByteTimes(b, w);
    OrDisjoint(b * w, x, n);
    SetByteSum(x, b, w);
  }

  /** Setting the first unset byte of a word is an or with the shifted byte. */
  lemma SetByteOfWord(p: seq<u8>, b: u8, k: nat)
    requires k == 7 - |p|
    ensures 0 <= b * Pow2(8 * k)
    ensures BigEndian((p + [b]) + Zeros(k)) == BitOr(b * Pow2(8 * k), BigEndian(p + Zeros(k + 1)))
  {
    hide Pow2, BitOr, BigEndian, Zeros;
    BigEndianZeros(p + [b], k);
    BigEndianZeros(p, k + 1);
    BigEndianSnoc(p, b);
    NextBytePower(k);
    OrJoins(BigEndian(p), b, Pow2(8 * k), 8 * (k + 1));
  }

  lemma NextBytePower(k: nat)
    ensures Pow2(8 * (k + 1)) == 0x100 * Pow2(8 * k)
  {
    hide Pow2;
    Pow2Eight();
    Pow2Add(8, 8 * k);
  }

  lemma SetByteSum(x: int, b: int, w: int)
    ensures (0x100 * x + b) * w == b * w + x * (0x100 * w)
  {
  }

  /** Words of a block depend on their own eight bytes only. */
  lemma SameWord(x: seq<u8>, y: seq<u8>, w: nat)
    requires |x| == |y| == 128 && w < 16
    requires forall i :: 8 * w <= i < 8 * w + 8 ==> x[i] == y[i]
    ensures WordAt(x, w) == WordAt(y, w)
  {
    assert x[8 * w..8 * w + 8] == y[8 * w..8 * w + 8];
  }

  /** sha512_set_input at the end of the buffered bytes. */
  lemma SetInputBuffered(tail: seq<u8>, b: u8)
    requires |tail| < 128
    ensures var w, k := |tail| / 8, |tail| % 8;
            Buffered(tail + [b]) == Buffered(tail)[w := WordAfterByte(Buffered(tail)[w], b, k)]
  {
    hide BigEndian, WordAfterByte;
    var w, k := |tail| / 8, |tail| % 8;
    var x, y := tail + Zeros(128 - |tail|), tail + [b] + Zeros(127 - |tail|);
    forall j | 0 <= j < 16 && j != w
      ensures WordAt(x, j) == WordAt(y, j)
    {
      SameWord(x, y, j);
    }
    WordGetsByte(tail, b);
    assert tail + [b] + Zeros(127 - |tail|) == (tail + [b]) + Zeros(128 - |tail + [b]|);
  }

  /** input[word] | (u64)byte << (8 * (7 - k)). */
  function WordAfterByte(word: Word, b: u8, k: nat): Word
    requires k < 8
  {
    Pow2Words();
    var shifted := (b * Pow2(8 * (7 - k))) % B64;
    OrBound(shifted, word, 64);
    BitOr(shifted, word)
  }

  lemma ByteShiftFits(b: u8, k: nat)
    requires k < 8
    ensures 0 <= b * Pow2(8 * (7 - k)) < B64
  {
    hide Pow2;
    Pow2Words();
    Pow2Eight();
    Pow2Add(8, 8 * (7 - k));
    Pow2Mono(8 + 8 * (7 - k), 64);
    MulMono(b, 255, Pow2(8 * (7 - k)));
  }

  lemma WordGetsByte(tail: seq<u8>, b: u8)
    requires |tail| < 128
    ensures var w, k := |tail| / 8, |tail| % 8;
            var x, y := tail + Zeros(128 - |tail|), tail + [b] + Zeros(127 - |tail|);
            WordAt(y, w) == WordAfterByte(WordAt(x, w), b, k)
  {
    hide WordAt, WordAfterByte;
    WordGetsByteAt(tail, b, |tail| / 8, |tail| % 8);
  }

  lemma WordGetsByteAt(tail: seq<u8>, b: u8, w: nat, k: nat)
    requires |tail| == 8 * w + k && k < 8 && w < 16
    ensures var x, y := tail + Zeros(128 - |tail|), tail + [b] + Zeros(127 - |tail|);
            WordAt(y, w) == WordAfterByte(WordAt(x, w), b, k)
  {
    hide BigEndian, BitOr;
    var x, y := tail + Zeros(128 - |tail|), tail + [b] + Zeros(127 - |tail|);
    var p := tail[8 * w..];
    assert x[8 * w..8 * w + 8] == p + Zeros(8 - k);
    assert y[8 * w..8 * w + 8] == (p + [b]) + Zeros(7 - k);
    SetByteOfWord(p, b, 7 - k);
    ByteShiftFits(b, k);
  }

  /** load64_be_buf at a word boundary of the buffer. */
  lemma LoadWordsBuffered(tail: seq<u8>, chunk: seq<u8>, m: seq<Word>)
    requires |tail| % 8 == 0 && |chunk| % 8 == 0 && |tail| + |chunk| <= 128 && |m| == 16
    requires forall w :: 0 <= w < 16 && !(|tail| / 8 <= w < (|tail| + |chunk|) / 8) ==> m[w] == Buffered(tail)[w]
    requires forall i :: 0 <= i < |chunk| / 8 ==> m[|tail| / 8 + i] == WordAt(chunk, i)
    ensures m == Buffered(tail + chunk)
  {
    hide BigEndian, WordAt;
    forall w | 0 <= w < 16
      ensures m[w] == Buffered(tail + chunk)[w]
    {
      LoadedWord(tail, chunk, m, |tail| / 8, |chunk| / 8, w);
    }
  }

  lemma LoadedWord(tail: seq<u8>, chunk: seq<u8>, m: seq<Word>, a: nat, n: nat, w: nat)
    requires |tail| == 8 * a && |chunk| == 8 * n && a + n <= 16 && |m| == 16 && w < 16
    requires !(a <= w < a + n) ==> m[w] == Buffered(tail)[w]
    requires a <= w < a + n ==> m[w] == WordAt(chunk, w - a)
    ensures m[w] == Buffered(tail + chunk)[w]
  {
    hide BigEndian;
    var x, y := tail + Zeros(128 - |tail|), tail + chunk + Zeros(128 - |tail| - |chunk|);
    assert (tail + chunk) + Zeros(128 - |tail + chunk|) == y;
    if a <= w < a + n {
      var i := w - a;
      assert y[8 * w..8 * w + 8] == chunk[8 * i..8 * i + 8];
    } else {
      SameWord(x, y, w);
    }
  }

  /** Storing a word and loading it again. */
  lemma {:induction false} BigEndianStored(w: nat, n: nat)
    requires w < Pow2(8 * n)
    ensures BigEndian(StoreBigEndian(w, n)) == w
  {
    if n == 0 {
    } else {
      Pow2Eight();
      Pow2Add(8, 8 * (n - 1));
      var s := StoreBigEndian(w, n);
      assert s[..n - 1] == StoreBigEndian(w / 0x100, n - 1);
      BigEndianStored(w / 0x100, n - 1);
    }
  }

  /** Hashing one more block. */
  lemma HashAppend(done: seq<u8>, block: seq<u8>)
    requires |done| % 128 == 0 && |block| == 128
    ensures HashBlocks(done + block) == Compress(HashBlocks(done), BlockWords(block))
  {
    hide Compress, BlockWords;
    var d := done + block;
    assert d[..|d| - 128] == done && d[|d| - 128..] == block;
  }

  const B128: int := 0x1_0000_0000_0000_0000_0000_0000_0000_0000

  lemma IncrStep(x0: int, x1: int, y: int, x0': int, x1': int)
    requires 0 <= x0 < B64 && 0 <= x1 < B64 && 0 <= y < B64
    requires x1' == (x1 + y) % B64 && x0' == (if x1' < y then (x0 + 1) % B64 else x0)
    ensures x0' * B64 + x1' == (x0 * B64 + x1 + y) % B128
  {
  }

  /** The two halves of the padded length field. */
  lemma LengthHalves(n: nat, x0: int, x1: int)
    requires 0 <= x0 < B64 && 0 <= x1 < B64 && x0 * B64 + x1 == (8 * n) % B128
    ensures x1 == (8 * n) % B64 && x0 == (8 * n / B64) % B64
  {
  }

  lemma SizeStep(blocks: nat, size: int, y: nat)
    requires size == (8 * blocks) % B128
    ensures (size + 8 * y) % B128 == (8 * (blocks + y)) % B128
  {
  }

  /** The length field loads back as the two size words. */
  lemma LengthWords(n: nat, x0: Word, x1: Word)
    requires x0 * B64 + x1 == (8 * n) % B128
    ensures LengthBytes(n)[..8] == StoreWord(x0) && LengthBytes(n)[8..] == StoreWord(x1)
    ensures BigEndian(StoreWord(x0)) == x0 && BigEndian(StoreWord(x1)) == x1
  {
    hide BigEndian;
    LengthHalves(n, x0, x1);
    Pow2Words();
    BigEndianStored(x0, 8);
    BigEndianStored(x1, 8);
  }

  /** The last block: buffered bytes with the 0x80 already set, their size words in place. */
  lemma LastBlock(body: seq<u8>, len: seq<u8>, m: seq<Word>, x0: Word, x1: Word)
    requires |body| <= 112 && |len| == 16 && |m| == 16
    requires BigEndian(len[..8]) == x0 && BigEndian(len[8..]) == x1
    requires (forall w :: 0 <= w < 14 ==> m[w] == Buffered(body)[w]) && m[14] == x0 && m[15] == x1
    ensures |body + Zeros(112 - |body|) + len| == 128
    ensures BlockWords(body + Zeros(112 - |body|) + len) == m
  {
    hide BigEndian;
    var x, y := body + Zeros(128 - |body|), body + Zeros(112 - |body|) + len;
    forall w | 0 <= w < 16
      ensures WordAt(y, w) == m[w]
    {
      if w < 14 {
        SameWord(x, y, w);
      } else if w == 14 {
        assert y[112..120] == len[..8];
      } else {
        assert y[120..128] == len[8..];
      }
    }
  }

  /** The padding completes the current block when the length still fits. */
  lemma PadFits(done: seq<u8>, tail: seq<u8>)
    requires |done| % 128 == 0 && |tail| <= 111
    ensures var body := tail + [0x80];
            Pad(done + tail) == done + (body + Zeros(112 - |body|) + LengthBytes(|done + tail|))
  {
    assert PadZeros(|done + tail|) == 111 - |tail|;
  }

  /** Otherwise it completes this block with zeros and fills another one. */
  lemma PadSpills(done: seq<u8>, tail: seq<u8>)
    requires |done| % 128 == 0 && 111 < |tail| < 128
    ensures var body := tail + [0x80];
            Pad(done + tail) == (done + (body + Zeros(128 - |body|))) + ([] + Zeros(112) + LengthBytes(|done + tail|))
  {
    assert PadZeros(|done + tail|) == 239 - |tail|;
    assert Zeros(239 - |tail|) == Zeros(127 - |tail|) + Zeros(112);
  }

  lemma EmptyNumber()
    ensures BigEndian([]) == 0
  {
  }

  lemma ZeroWord(w: nat)
    requires w < 16
    ensures WordAt(Zeros(128), w) == 0
  {
    hide BigEndian;
    assert Zeros(128)[8 * w..8 * w + 8] == [] + Zeros(8);
    BigEndianZeros([], 8);
    EmptyNumber();
  }

  lemma EmptyBuffer(m: seq<Word>)
    requires |m| == 16 && (forall w :: 0 <= w < 16 ==> m[w] == 0)
    ensures m == Buffered([])
  {
    forall w | 0 <= w < 16
      ensures WordAt(Zeros(128), w) == 0
    {
      ZeroWord(w);
    }
    assert [] + Zeros(128) == Zeros(128);
  }

  lemma EmptyWords()
    ensures forall w :: 0 <= w < 16 ==> Buffered([])[w] == 0
  {
    EmptyBuffer(seq(16, _ => 0));
  }

  lemma FullBuffer(tail: seq<u8>)
    requires |tail| == 128
    ensures Buffered(tail) == BlockWords(tail)
  {
    assert tail + Zeros(0) == tail;
  }

  lemma BufferedIs(body: seq<u8>)
    requires |body| <= 128
    ensures Buffered(body) == BlockWords(body + Zeros(128 - |body|))
  {
  }

  // ---- big-endian loads and stores -------------------------------------------------------------

  /** load64_be: the first n bytes, each shifted to its place, or-ed together. */
  function OrBytes(s: seq<u8>, n: nat): (r: nat)
    requires |s| == 8 && 0 < n <= 8
  {
    if n == 1 then s[0] * Pow2(56) else BitOr(OrBytes(s, n - 1), s[n - 1] * Pow2(8 * (8 - n)))
  }

  lemma {:induction false} OrBytesIs(s: seq<u8>, n: nat)
    requires |s| == 8 && 0 < n <= 8
    ensures OrBytes(s, n) == BigEndian(s[..n]) * Pow2(8 * (8 - n))
    decreases n
  {
    hide Pow2, BitOr, BigEndian;
    if n == 1 {
      OneByte(s[0]);
      assert s[..1] == [s[0]];
    } else {
      OrBytesIs(s, n - 1);
      var x, w := BigEndian(s[..n - 1]), Pow2(8 * (8 - n));
      NextBytePower(8 - n);
      assert 8 * (8 - n + 1) == 8 * (8 - (n - 1));
      OrJoins(x, s[n - 1], w, 8 * (8 - n + 1));
      OrComm(x * Pow2(8 * (8 - n + 1)), s[n - 1] * w);
      assert s[..n] == s[..n - 1] + [s[n - 1]];
      BigEndianSnoc(s[..n - 1], s[n - 1]);
    }
  }

  lemma OneByte(b: u8)
    ensures BigEndian([b]) == b
  {
    assert [b][..0] == [];
  }

  /** The or of shifted bytes is the big-endian word. */
  lemma LoadIsWord(chunk: seq<u8>, i: nat)
    requires 8 * i + 8 <= |chunk|
    ensures OrBytes(chunk[8 * i..8 * i + 8], 8) == WordAt(chunk, i)
  {
    hide BigEndian, OrBytes;
    var s := chunk[8 * i..8 * i + 8];
    OrBytesIs(s, 8);
    assert s[..8] == s && Pow2(0) == 1;
  }

  /** store64_be: byte i is the word shifted right, cut to eight bits. */
  function StoreBytes(w: Word): (s: seq<u8>)
    ensures |s| == 8
  {
    seq(8, i requires 0 <= i < 8 => ShiftedByte(w, 8 * (7 - i)))
  }

  function ShiftedByte(w: nat, k: nat): u8
  {
    (w / Pow2(k)) % 0x100
  }

  lemma {:induction false} StoredByte(w: nat, n: nat, i: nat)
    requires i < n
    ensures StoreBigEndian(w, n)[i] == ShiftedByte(w, 8 * (n - 1 - i))
    decreases n
  {
    if i == n - 1 {
      assert Pow2(0) == 1;
    } else {
      StoredByte(w / 0x100, n - 1, i);
      Pow2Eight();
      var k := 8 * (n - 2 - i);
      Pow2Div(w, 8, k);
      assert 8 + k == 8 * (n - 1 - i);
    }
  }

  /** Shifting and truncating stores the big-endian bytes. */
  lemma StoreIsWord(w: Word)
    ensures StoreBytes(w) == StoreWord(w)
  {
    hide ShiftedByte, StoreBigEndian;
    forall i | 0 <= i < 8
      ensures StoreBytes(w)[i] == StoreWord(w)[i]
    {
      StoredByte(w, 8, i);
    }
  }

  // ---- the context --------------------------------------------------------------------------------

  class Sha512Ctx {
    const hash: array<Word>
    const input: array<Word>
    var inputSize0: u64
    var inputSize1: u64
    var inputIdx: nat

    /** The message bytes already compressed and those still buffered. */
    ghost var done: seq<u8>
    ghost var tail: seq<u8>

    ghost predicate Valid()
      reads this, hash, input
    {
      && hash.Length == 8 && input.Length == 16 && hash != input
      && |done| % 128 == 0 && inputIdx == |tail| <= 128
      && RegsOf(hash[..]) == HashBlocks(done)
      && input[..] == Buffered(tail)
      && inputSize0 * B64 + inputSize1 == (8 * |done|) % B128
    }

    ghost function Absorbed(): seq<u8>
      reads this
    {
      done + tail
    }

    /** crypto_sha512_init. */
    constructor ()
      ensures Valid() && Absorbed() == [] && inputIdx == 0
      ensures fresh(hash) && fresh(input)
    {
      hash := new Word[8] [0x6a09e667f3bcc908, 0xbb67ae8584caa73b, 0x3c6ef372fe94f82b, 0xa54ff53a5f1d36f1,
                           0x510e527fade682d1, 0x9b05688c2b3e6c1f, 0x1f83d9abfb41bd6b, 0x5be0cd19137e2179];
      input := new Word[16](_ => 0);
      inputSize0, inputSize1, inputIdx := 0, 0, 0;
      done, tail := [], [];
      new;
      assert RegsOf(hash[..]) == IV;
      EmptyBuffer(input[..]);
    }

    /** sha512_incr on the 128-bit size. */
    method Incr(y: u64)
      modifies this`inputSize0, this`inputSize1
      ensures inputSize0 * B64 + inputSize1 == (old(inputSize0) * B64 + old(inputSize1) + y) % B128
    {
      IncrStep(inputSize0, inputSize1, y,
               if (inputSize1 + y) % B64 < y then (inputSize0 + 1) % B64 else inputSize0, (inputSize1 + y) % B64);
      inputSize1 := (inputSize1 + y) % B64;
      if inputSize1 < y {
        inputSize0 := (inputSize0 + 1) % B64;
      }
    }

    /** A full buffer is counted, compressed and cleared. */
    method FlushBlock()
      requires Valid() && inputIdx == 128
      modifies this, hash, input
      ensures Valid() && inputIdx == 0 && Absorbed() == old(Absorbed())
    {
      hide HashBlocks, Compress, Buffered, BlockWords;
      SizeStep(|done|, inputSize0 * B64 + inputSize1, 128);
      Incr(1024);
      CompressFull();
      inputIdx := 0;
      done, tail := done + tail, [];
    }

    /** Compressing a full buffer and clearing it. */
    method CompressFull()
      requires hash.Length == 8 && input.Length == 16 && hash != input && |done| % 128 == 0 && |tail| == 128
      requires RegsOf(hash[..]) == HashBlocks(done) && input[..] == Buffered(tail)
      modifies hash, input
      ensures |done + tail| % 128 == 0 && RegsOf(hash[..]) == HashBlocks(done + tail)
      ensures input[..] == Buffered([])
    {
      hide HashBlocks, Compress, Buffered, BlockWords;
      FullBuffer(tail);
      HashAppend(done, tail);
      CompressInPlace(hash, input);
      ZeroInput(16);
      EmptyBuffer(input[..]);
    }

    /** ZERO(input, n). */
    method ZeroInput(n: nat)
      requires input.Length == 16 && n <= 16
      modifies input
      ensures forall k :: 0 <= k < n ==> input[k] == 0
      ensures input[n..] == old(input[n..])
    {
      for i := 0 to n
        invariant forall k :: 0 <= k < i ==> input[k] == 0
        invariant input[n..] == old(input[n..])
      {
        input[i] := 0;
      }
    }

    /** sha512_set_input followed by the index increment. */
    method PutByte(b: u8)
      requires Valid() && inputIdx < 128
      modifies this`inputIdx, this`tail, input
      ensures Valid() && inputIdx == old(inputIdx) + 1
      ensures done == old(done) && tail == old(tail) + [b]
    {
      hide HashBlocks, Buffered, WordAfterByte;
      SetInput(b);
      inputIdx := inputIdx + 1;
      tail := tail + [b];
    }

    /** sha512_set_input. */
    method SetInput(b: u8)
      requires Valid() && inputIdx < 128
      modifies input
      ensures input[..] == Buffered(tail + [b])
    {
      hide HashBlocks, Buffered, WordAfterByte;
      SetInputBuffered(tail, b);
      var word, k := inputIdx / 8, inputIdx % 8;
      ghost var m := input[..];
      input[word] := WordAfterByte(input[word], b, k);
      assert input[..] == m[word := WordAfterByte(m[word], b, k)];
    }

    /** load64_be_buf at the current word boundary. */
    method PutWords(chunk: seq<u8>)
      requires Valid() && |chunk| % 8 == 0 && inputIdx + |chunk| <= 128
      requires |chunk| > 0 ==> inputIdx % 8 == 0
      modifies this`inputIdx, this`tail, input
      ensures Valid() && inputIdx == old(inputIdx) + |chunk|
      ensures done == old(done) && tail == old(tail) + chunk
    {
      hide HashBlocks, Buffered, WordAt, OrBytes;
      var n, base := |chunk| / 8, inputIdx / 8;
      ghost var m := input[..];
      for i := 0 to n
        modifies input
        invariant forall w :: 0 <= w < 16 && !(base <= w < base + i) ==> input[w] == m[w]
        invariant forall k :: 0 <= k < i ==> input[base + k] == WordAt(chunk, k)
      {
        LoadIsWord(chunk, i);
        input[base + i] := OrBytes(chunk[8 * i..8 * i + 8], 8);
      }
      if n > 0 {
        LoadWordsBuffered(tail, chunk, input[..]);
      } else {
        assert input[..] == m && tail + chunk == tail;
      }
      inputIdx := inputIdx + 8 * n;
      tail := tail + chunk;
    }

    /** The byte loops of update. */
    method PutBytes(bytes: seq<u8>)
      requires Valid() && inputIdx + |bytes| <= 128
      modifies this`inputIdx, this`tail, input
      ensures Valid() && inputIdx == old(inputIdx) + |bytes|
      ensures done == old(done) && tail == old(tail) + bytes
    {
      hide HashBlocks, Buffered;
      for i := 0 to |bytes|
        invariant Valid() && inputIdx == old(inputIdx) + i
        invariant done == old(done) && tail == old(tail) + bytes[..i]
      {
        PutByte(bytes[i]);
        assert bytes[..i + 1] == bytes[..i] + [bytes[i]];
      }
      assert bytes[..|bytes|] == bytes;
    }

    /** The whole blocks of update. */
    method PutBlocks(msg: seq<u8>, n: nat)
      requires Valid() && 128 * n <= |msg| && (n > 0 ==> inputIdx == 0)
      modifies this, hash, input
      ensures Valid() && inputIdx == old(inputIdx)
      ensures Absorbed() == old(Absorbed()) + msg[..128 * n]
    {
      hide HashBlocks, Buffered;
      for i := 0 to n
        invariant Valid() && inputIdx == old(inputIdx)
        invariant Absorbed() == old(Absorbed()) + msg[..128 * i]
      {
        ghost var a, chunk := Absorbed(), msg[128 * i..128 * i + 128];
        PutWords(msg[128 * i..128 * i + 128]);
        assert Absorbed() == a + chunk;
        FlushBlock();
        assert (old(Absorbed()) + msg[..128 * i]) + chunk == old(Absorbed()) + (msg[..128 * i] + chunk);
        assert msg[..128 * (i + 1)] == msg[..128 * i] + msg[128 * i..128 * i + 128];
      }
    }

    /** Bytes up to a word boundary, as far as the message goes. */
    method AlignBytes(message: seq<u8>) returns (msg: seq<u8>)
      requires Valid() && inputIdx < 128
      modifies this`inputIdx, this`tail, input
      ensures Valid()
      ensures done == old(done) && tail + msg == old(tail) + message
      ensures |msg| > 0 ==> inputIdx % 8 == 0
    {
      hide HashBlocks, Buffered;
      msg := message;
      if inputIdx % 8 != 0 {
        var nb := Min(Align(inputIdx, 8), |msg|);
        PutBytes(msg[..nb]);
        assert msg == msg[..nb] + msg[nb..];
        msg := msg[nb..];
      }
    }

    /** Words up to a block boundary, as far as the message has whole words. */
    method AlignWords(message: seq<u8>) returns (msg: seq<u8>)
      requires Valid() && (|message| > 0 ==> inputIdx % 8 == 0)
      modifies this`inputIdx, this`tail, input
      ensures Valid()
      ensures done == old(done) && tail + msg == old(tail) + message
      ensures |msg| >= 8 ==> inputIdx % 128 == 0
      ensures |msg| > 0 ==> inputIdx % 8 == 0
    {
      hide HashBlocks, Buffered;
      msg := message;
      if inputIdx % 128 != 0 {
        var nb := 8 * (Min(Align(inputIdx, 128), |msg|) / 8);
        PutWords(msg[..nb]);
        assert msg == msg[..nb] + msg[nb..];
        msg := msg[nb..];
      }
    }

    /** The head of update: alignment, and a completed block compressed.  What is
        left of the message starts on a block boundary unless it is shorter than
        a word. */
    method AlignInput(message: seq<u8>) returns (msg: seq<u8>)
      requires Valid() && inputIdx < 128
      modifies this, hash, input
      ensures Valid() && inputIdx < 128
      ensures Absorbed() + msg == old(Absorbed()) + message
      ensures |msg| >= 8 ==> inputIdx == 0
      ensures inputIdx + |msg| % 8 < 128
    {
      hide HashBlocks, Buffered;
      msg := AlignBytes(message);
      msg := AlignWords(msg);
      assert Absorbed() + msg == done + (tail + msg);
      assert old(Absorbed()) + message == done + (old(tail) + message);
      if inputIdx == 128 {
        FlushBlock();
      }
    }

    /** crypto_sha512_update: absorbs the message, however the calls cut it up. */
    method Update(message: seq<u8>)
      requires Valid() && inputIdx < 128
      modifies this, hash, input
      ensures Valid() && inputIdx < 128
      ensures Absorbed() == old(Absorbed()) + message
    {
      hide HashBlocks, Buffered;
      if |message| == 0 {
        assert message == [];
        return;
      }
      var msg := AlignInput(message);
      ghost var a := Absorbed();
      var n := |msg| / 128;
      var whole, rest := msg[..128 * n], msg[128 * n..];
      assert msg == whole + rest;
      PutBlocks(msg, n);
      assert a + (whole + rest) == (a + whole) + rest;
      if |rest| != 0 {
        PutRest(rest);
      } else {
        assert (a + whole) + rest == a + whole;
      }
    }

    /** The end of update: remaining words, then remaining bytes. */
    method PutRest(msg: seq<u8>)
      requires Valid() && inputIdx + |msg| < 128 && (|msg| >= 8 ==> inputIdx == 0)
      modifies this`inputIdx, this`tail, input
      ensures Valid() && inputIdx == old(inputIdx) + |msg|
      ensures Absorbed() == old(Absorbed()) + msg
    {
      hide HashBlocks, Buffered;
      var nb := 8 * (|msg| / 8);
      assert msg == msg[..nb] + msg[nb..];
      PutWords(msg[..nb]);
      PutBytes(msg[nb..]);
    }

    /** The padding spilling into another block: this one is compressed and the
        first fourteen words cleared. */
    method SpillBlock(ghost start: seq<u8>, ghost body: seq<u8>)
      requires hash.Length == 8 && input.Length == 16 && hash != input
      requires |start| % 128 == 0 && |body| <= 128
      requires RegsOf(hash[..]) == HashBlocks(start) && input[..] == Buffered(body)
      modifies hash, input
      ensures (|start| + 128) % 128 == 0 && |start + (body + Zeros(128 - |body|))| % 128 == 0
      ensures RegsOf(hash[..]) == HashBlocks(start + (body + Zeros(128 - |body|)))
      ensures forall w :: 0 <= w < 14 ==> input[w] == Buffered([])[w]
    {
      hide HashBlocks, Buffered, Compress, BlockWords;
      HashAppend(start, body + Zeros(128 - |body|));
      BufferedIs(body);
      CompressInPlace(hash, input);
      ZeroInput(14);
      EmptyWords();
    }

    /** The last block: the size goes into the last two words. */
    method LastCompress(ghost start: seq<u8>, ghost body: seq<u8>, ghost n: nat)
      requires hash.Length == 8 && input.Length == 16 && hash != input
      requires |start| % 128 == 0 && |body| <= 112
      requires RegsOf(hash[..]) == HashBlocks(start) && (forall w :: 0 <= w < 14 ==> input[w] == Buffered(body)[w])
      requires inputSize0 * B64 + inputSize1 == (8 * n) % B128
      modifies hash, input
      ensures |start + (body + Zeros(112 - |body|) + LengthBytes(n))| % 128 == 0
      ensures RegsOf(hash[..]) == HashBlocks(start + (body + Zeros(112 - |body|) + LengthBytes(n)))
    {
      hide HashBlocks, Buffered, Compress, BlockWords, LengthBytes, StoreWord, BigEndian;
      LengthWords(n, inputSize0, inputSize1);
      input[14] := inputSize0;
      input[15] := inputSize1;
      LastBlock(body, LengthBytes(n), input[..], inputSize0, inputSize1);
      HashAppend(start, body + Zeros(112 - |body|) + LengthBytes(n));
      CompressInPlace(hash, input);
    }

    /** The padding bit, the message size, and a spilled block when the size no longer
        fits. */
    method PadBlocks() returns (ghost start: seq<u8>, ghost body: seq<u8>)
      requires Valid() && inputIdx < 128
      modifies this`inputSize0, this`inputSize1, hash, input
      ensures |start| % 128 == 0 && |body| <= 112
      ensures RegsOf(hash[..]) == HashBlocks(start) && (forall w :: 0 <= w < 14 ==> input[w] == Buffered(body)[w])
      ensures inputSize0 * B64 + inputSize1 == (8 * |done + tail|) % B128
      ensures Pad(done + tail) == start + (body + Zeros(112 - |body|) + LengthBytes(|done + tail|))
    {
      hide HashBlocks, Buffered, Pad, LengthBytes;
      if inputIdx == 0 {
        ZeroInput(16);
        EmptyBuffer(input[..]);
      }
      SetInput(128);
      SizeStep(|done|, inputSize0 * B64 + inputSize1, inputIdx);
      Incr(8 * inputIdx);
      start, body := done, tail + [0x80];
      if inputIdx > 111 {
        PadSpills(start, tail);
        SpillBlock(start, body);
        start, body := start + (body + Zeros(128 - |body|)), [];
      } else {
        PadFits(start, tail);
      }
    }

    /** The hash words stored big-endian. */
    method StoreHash() returns (digest: seq<u8>)
      requires hash.Length == 8
      ensures digest == StoreRegs(RegsOf(hash[..]))
    {
      hide StoreWord, StoreBytes;
      assert hash[..0] == [];
      digest := [];
      for i := 0 to 8
        invariant digest == StoreWords(hash[..i])
      {
        StoreIsWord(hash[i]);
        assert hash[..i + 1][..i] == hash[..i];
        digest := digest + StoreBytes(hash[i]);
      }
      ghost var r := RegsOf(hash[..]);
      assert hash[..8] == [r.a, r.b, r.c, r.d, r.e, r.f, r.g, r.h];
    }

    /** WIPE_CTX. */
    method Wipe()
      requires hash.Length == 8 && input.Length == 16
      modifies this`inputSize0, this`inputSize1, this`inputIdx, hash, input
      ensures Wiped()
    {
      forall k | 0 <= k < 8 {
        hash[k] := 0;
      }
      forall k | 0 <= k < 16 {
        input[k] := 0;
      }
      inputSize0, inputSize1, inputIdx := 0, 0, 0;
    }

    /** Nothing of the message is left. */
    ghost predicate Wiped()
      reads this, hash, input
    {
      && inputSize0 == 0 && inputSize1 == 0 && inputIdx == 0
      && (forall k :: 0 <= k < hash.Length ==> hash[k] == 0)
      && (forall k :: 0 <= k < input.Length ==> input[k] == 0)
    }

    /** crypto_sha512_final: the digest of everything absorbed, and a wiped context. */
    method Final() returns (digest: seq<u8>)
      requires Valid() && inputIdx < 128
      modifies this, hash, input
      ensures digest == old(Sha512(Absorbed())) && Wiped()
    {
      hide HashBlocks, Buffered, Pad, LengthBytes;
      ghost var start, body := PadBlocks();
      LastCompress(start, body, |done + tail|);
      digest := StoreHash();
      Wipe();
    }
  }

  /** crypto_sha512. */
  method CryptoSha512(message: seq<u8>) returns (digest: seq<u8>)
    ensures digest == Sha512(message)
  {
    hide Sha512;
    var ctx := new Sha512Ctx();
    assert [] + message == message;
    ctx.Update(message);
    digest := ctx.Final();
  }

  /** Any sequence of updates hashes the concatenation. */
  method HashParts(parts: seq<seq<u8>>) returns (digest: seq<u8>)
    ensures digest == Sha512(Concat(parts))
  {
    hide Sha512, HashBlocks, Buffered, Concat;
    var ctx := new Sha512Ctx();
    ConcatNothing(parts);
    for i := 0 to |parts|
      invariant fresh(ctx) && fresh(ctx.hash) && fresh(ctx.input)
      invariant ctx.Valid() && ctx.inputIdx < 128 && ctx.Absorbed() == Concat(parts[..i])
    {
      ConcatNext(parts, i);
      ctx.Update(parts[i]);
    }
    assert parts[..|parts|] == parts;
    digest := ctx.Final();
  }
}
