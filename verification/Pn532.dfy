/** The PN532 frame codec: normal and extended information frames with their two
    checksums, as section 6.2.1 of NXP UM0701-02 lays them out. */
module Pn532 {
  import opened Arith
  import opened Words

  const MAX_PAYLOAD: nat := 265
  const TX_BUF_SIZE: nat := 11 + (MAX_PAYLOAD - 1)
  const RX_BUF_SIZE: nat := 12 + (MAX_PAYLOAD - 1)
  const NORMAL_LEN_MAX: nat := 0xFE
  const TFI_HOST: u8 := 0xD4
  const TFI_CHIP: u8 := 0xD5

  datatype Error = InvalidArg | Fail | InvalidResponse | InvalidCrc | InvalidSize
  datatype Result<T> = Ok(value: T) | Err(error: Error)

  // ---- checksums ---------------------------------------------------------------------------

  function Sum(s: seq<u8>): (n: nat)
  {
    if |s| == 0 then 0 else Sum(s[..|s| - 1]) + s[|s| - 1]
  }

  /** The byte that makes a sum a multiple of 256. */
  function Complement(n: int): (c: u8)
    ensures (n + c) % 0x100 == 0
  {
    (0 - n) % 0x100
  }

  lemma ComplementUnique(n: int, x: u8)
    ensures (n + x) % 0x100 == 0 <==> x == Complement(n)
  {
  }

  lemma {:induction false} SumAppend(s: seq<u8>, t: seq<u8>)
    ensures Sum(s + t) == Sum(s) + Sum(t)
  {
    if |t| == 0 {
      assert s + t == s;
    } else {
      SumAppend(s, t[..|t| - 1]);
      assert (s + t)[..|s + t| - 1] == s + t[..|t| - 1];
    }
  }

  /** Changing one byte changes the sum mod 256. */
  lemma SumChanged(s: seq<u8>, k: nat, x: u8)
    requires k < |s| && x != s[k]
    ensures (Sum(s[k := x]) - Sum(s)) % 0x100 != 0
  {
    var a, b := s[..k], s[k + 1..];
    assert s == a + [s[k]] + b && s[k := x] == a + [x] + b;
    SumAppend(a + [s[k]], b);
    SumAppend(a + [x], b);
    SumAppend(a, [s[k]]);
    SumAppend(a, [x]);
    SumOne(x);
    SumOne(s[k]);
  }

  lemma SumOne(x: u8)
    ensures Sum([x]) == x
  {
    assert [x][..0] == [];
  }

  // ---- frames --------------------------------------------------------------------------------

  /** LEN and its checksum for a body of n bytes. */
  function NormalHeader(n: nat): (h: seq<u8>)
    requires n <= 0xFF
    ensures |h| == 2
  {
    [n, Complement(n)]
  }

  function ExtendedHeader(n: nat): (h: seq<u8>)
    requires n <= 0xFFFF
    ensures |h| == 5
  {
    [0xFF, 0xFF, n / 0x100, n % 0x100, Complement(n / 0x100 + n % 0x100)]
  }

  function Header(n: nat): (h: seq<u8>)
    requires n <= 0xFFFF
  {
    if n > NORMAL_LEN_MAX then ExtendedHeader(n) else NormalHeader(n)
  }

  /** TFI, data and checksum. */
  function Body(tfi: u8, data: seq<u8>): (b: seq<u8>)
    ensures |b| == |data| + 2
  {
    [tfi] + data + [Complement(Sum([tfi] + data))]
  }

  /** Preamble, start code, header, TFI and data with their checksum, postamble. */
  function Frame(tfi: u8, data: seq<u8>): (f: seq<u8>)
    requires 1 + |data| <= 0xFFFF
  {
    [0, 0, 0xFF] + Header(1 + |data|) + Body(tfi, data) + [0]
  }

  /** The transmit buffer and the receive buffer hold the longest frame exactly. */
  lemma BuffersFit(tfi: u8, data: seq<u8>)
    requires 1 + |data| <= MAX_PAYLOAD
    ensures |Frame(tfi, data)| <= TX_BUF_SIZE && 1 + |Frame(tfi, data)| <= RX_BUF_SIZE
    ensures 1 + |data| == MAX_PAYLOAD ==>
        |Frame(tfi, data)| == TX_BUF_SIZE == 275 && 1 + |Frame(tfi, data)| == RX_BUF_SIZE == 276
  {
  }

  lemma {:induction false} SumSnoc(s: seq<u8>, x: u8)
    ensures Sum(s + [x]) == Sum(s) + x
  {
    SumAppend(s, [x]);
    SumOne(x);
  }

  /** pn532_build_frame. */
  method BuildFrame(cmdCode: u8, params: seq<u8>, out: array<u8>) returns (r: Result<nat>)
    requires out.Length >= TX_BUF_SIZE
    modifies out
    ensures 2 + |params| > MAX_PAYLOAD ==> r == Err(InvalidArg) && out[..] == old(out[..])
    ensures 2 + |params| <= MAX_PAYLOAD ==> r.Ok? && r.value <= TX_BUF_SIZE
    ensures r.Ok? ==> out[..r.value] == Frame(TFI_HOST, [cmdCode] + params)
    ensures r.Ok? ==> out[r.value..] == old(out[r.value..])
  {
    hide Sum, Complement, Header, Frame;
    var infoLen := 1 + (1 + |params|);
    if infoLen > MAX_PAYLOAD {
      return Err(InvalidArg);
    }
    ghost var was := out[..];
    var i := WriteHeader(infoLen, out);
    ghost var headed := out[..];
    ghost var body := [TFI_HOST] + ([cmdCode] + params);
    var sum;
    SameTail(headed, was, i, i + 2 + |params|);
    sum, i := WriteBody(cmdCode, params, out, i);
    ghost var filled := out[..];
    SameTail(filled, was, i, i + 2);
    ComplementMod(Sum(body));
    var dcs := Complement(sum);
    ghost var written := out[..i];
    FrameIs(infoLen, TFI_HOST, [cmdCode] + params, written, dcs);
    WriteEnd(dcs, out, i);
    return Ok(i + 2);
  }

  /** What is the same from i on is the same from any later place on. */
  lemma SameTail(s: seq<u8>, t: seq<u8>, i: nat, j: nat)
    requires |s| == |t| && i <= j <= |s| && s[i..] == t[i..]
    ensures s[j..] == t[j..]
  {
    assert s[j..] == s[i..][j - i..] && t[j..] == t[i..][j - i..];
  }

  /** Checksum and postamble. */
  method WriteEnd(dcs: u8, out: array<u8>, i: nat)
    requires i + 2 <= out.Length
    modifies out
    ensures out[..i + 2] == old(out[..i]) + [dcs, 0]
    ensures out[i + 2..] == old(out[i + 2..])
  {
    out[i] := dcs;
    out[i + 1] := 0;
    assert out[..i] == old(out[..i]);
    assert out[..i + 2] == out[..i] + [out[i], out[i + 1]];
  }

  lemma FrameIs(n: nat, tfi: u8, data: seq<u8>, written: seq<u8>, dcs: u8)
    requires n == 1 + |data| <= MAX_PAYLOAD && dcs == Complement(Sum([tfi] + data))
    requires written == [0, 0, 0xFF] + Header(n) + ([tfi] + data)
    ensures Frame(tfi, data) == written + [dcs, 0] && |written| <= 8 + n
  {
    hide Sum, Complement;
  }

  /** TFI and data, and their running checksum. */
  method WriteBody(cmdCode: u8, params: seq<u8>, out: array<u8>, start: nat) returns (sum: u8, i: nat)
    requires start + 2 + |params| <= out.Length
    modifies out
    ensures i == start + 2 + |params|
    ensures out[..i] == old(out[..start]) + ([TFI_HOST] + ([cmdCode] + params))
    ensures sum == Sum([TFI_HOST] + ([cmdCode] + params)) % 0x100
    ensures out[i..] == old(out[i..])
  {
    hide Sum, Add8;
    i := start;
    ghost var head := out[..start];
    sum := TFI_HOST;
    out[i], out[i + 1] := TFI_HOST, cmdCode;
    SumOne(TFI_HOST);
    SumStep([TFI_HOST], sum, cmdCode);
    sum := Add8(sum, cmdCode);
    assert [TFI_HOST] + ([cmdCode] + params[..0]) == [TFI_HOST] + [cmdCode];
    i := i + 2;
    for p := 0 to |params|
      invariant i == start + 2 + p
      invariant out[..i] == head + ([TFI_HOST] + ([cmdCode] + params[..p]))
      invariant sum == Sum([TFI_HOST] + ([cmdCode] + params[..p])) % 0x100
      invariant out[start + 2 + |params|..] == old(out[start + 2 + |params|..])
    {
      SumStep([TFI_HOST] + ([cmdCode] + params[..p]), sum, params[p]);
      assert [TFI_HOST] + ([cmdCode] + params[..p + 1]) == [TFI_HOST] + ([cmdCode] + params[..p]) + [params[p]];
      out[i] := params[p];
      sum := Add8(sum, params[p]);
      i := i + 1;
    }
    assert params[..|params|] == params;
  }

  /** The running checksum after one more byte. */
  lemma SumStep(body: seq<u8>, sum: u8, x: u8)
    requires sum == Sum(body) % 0x100
    ensures Add8(sum, x) == Sum(body + [x]) % 0x100
  {
    SumSnoc(body, x);
    ModAdd(sum, x, Sum(body), x, 0x100);
  }

  function Add8(x: u8, y: u8): (z: u8)
    ensures z == (x + y) % 0x100
  {
    (x + y) % 0x100
  }

  lemma ComplementMod(n: nat)
    ensures Complement(n % 0x100) == Complement(n)
  {
    var m, q := n % 0x100, n / 0x100;
    ModEq(0 - n, 0 - m, 0 - q, 0x100);
  }

  /** Preamble, start code and header. */
  method WriteHeader(infoLen: nat, out: array<u8>) returns (i: nat)
    requires infoLen <= MAX_PAYLOAD && out.Length >= TX_BUF_SIZE
    modifies out
    ensures i <= 8 && out[..i] == [0, 0, 0xFF] + Header(infoLen)
    ensures out[i..] == old(out[i..])
  {
    out[0], out[1], out[2] := 0, 0, 0xFF;
    if infoLen > NORMAL_LEN_MAX {
      out[3], out[4], out[5], out[6] := 0xFF, 0xFF, infoLen / 0x100, infoLen % 0x100;
      out[7] := Complement(infoLen / 0x100 + infoLen % 0x100);
      i := 8;
    } else {
      out[3] := infoLen;
      out[4] := Complement(infoLen);
      i := 5;
    }
  }

  // ---- what the parser accepts -------------------------------------------------------------------

  /** Index just past the first start code at or after i. */
  function FindStart(buf: seq<u8>, i: nat): (r: Result<nat>)
    ensures r.Ok? ==> i + 2 <= r.value <= |buf| && buf[r.value - 2] == 0 && buf[r.value - 1] == 0xFF
    ensures r.Ok? ==> forall k :: i <= k < r.value - 2 ==> !(buf[k] == 0 && buf[k + 1] == 0xFF)
    ensures r.Err? ==> r == Err(InvalidResponse) && forall k :: i <= k < |buf| - 1 ==>
        !(buf[k] == 0 && buf[k + 1] == 0xFF)
    decreases |buf| - i
  {
    if i + 1 >= |buf| then Err(InvalidResponse)
    else if buf[i] == 0 && buf[i + 1] == 0xFF then Ok(i + 2)
    else FindStart(buf, i + 1)
  }

  /** The header after the start code: body length and where the body begins. */
  datatype Lead = Lead(infoLen: nat, off: nat)

  function ParseHeader(buf: seq<u8>, off: nat): (r: Result<Lead>)
    requires off <= |buf|
    ensures r.Ok? ==> r.value.off <= |buf| && r.value.infoLen <= 0xFFFF
  {
    if off + 2 > |buf| then Err(InvalidResponse)
    else if buf[off] == 0xFF && buf[off + 1] == 0xFF then
      if off + 5 > |buf| then Err(InvalidResponse)
      else if (buf[off + 2] as int + buf[off + 3] as int + buf[off + 4] as int) % 0x100 != 0 then Err(InvalidCrc)
      else Ok(Lead(0x100 * (buf[off + 2] as int) + buf[off + 3], off + 5))
    else if (buf[off] as int + buf[off + 1] as int) % 0x100 != 0 then Err(InvalidCrc)
    else Ok(Lead(buf[off], off + 2))
  }

  function ParseBody(buf: seq<u8>, l: Lead, size: nat): (r: Result<seq<u8>>)
  {
    if l.infoLen < 1 then Err(InvalidResponse)
    else if l.off + l.infoLen + 1 > |buf| then Err(InvalidResponse)
    else if buf[l.off] != TFI_CHIP then Err(InvalidResponse)
    else if (Sum(buf[l.off..l.off + l.infoLen]) + buf[l.off + l.infoLen]) % 0x100 != 0 then Err(InvalidCrc)
    else if l.infoLen - 1 > size then Err(InvalidSize)
    else Ok(buf[l.off + 1..l.off + l.infoLen])
  }

  function IsErrorFrame(buf: seq<u8>): (b: bool)
  {
    var s := FindStart(buf, 0);
    s.Ok? && s.value + 3 <= |buf| && buf[s.value] == 0x01 && buf[s.value + 1] == 0xFF && buf[s.value + 2] == 0x7F
  }

  /** The outcome of parsing a read that begins with the status byte. */
  function Parse(raw: seq<u8>, size: nat): (r: Result<seq<u8>>)
  {
    var buf := if |raw| > 0 then raw[1..] else [];
    if IsErrorFrame(buf) then Err(Fail)
    else
      var s := FindStart(buf, 0);
      if s.Err? then Err(s.error)
      else
        var h := ParseHeader(buf, s.value);
        if h.Err? then Err(h.error) else ParseBody(buf, h.value, size)
  }

  /** pn532_find_start. */
  method FindStartCode(buf: seq<u8>) returns (r: Result<nat>)
    ensures r == FindStart(buf, 0)
  {
    var i := 0;
    while i + 1 < |buf|
      invariant FindStart(buf, 0) == FindStart(buf, i)
    {
      if buf[i] == 0 && buf[i + 1] == 0xFF {
        return Ok(i + 2);
      }
      i := i + 1;
    }
    return Err(InvalidResponse);
  }

  /** pn532_is_error_frame. */
  method CheckErrorFrame(buf: seq<u8>) returns (b: bool)
    ensures b == IsErrorFrame(buf)
  {
    var off := FindStartCode(buf);
    if off.Err? {
      return false;
    }
    return off.value + 3 <= |buf| && buf[off.value] == 0x01 && buf[off.value + 1] == 0xFF && buf[off.value + 2] == 0x7F;
  }

  /** The checksum loop of the parser. */
  method SumBody(body: seq<u8>) returns (sum: u8)
    ensures sum == Sum(body) % 0x100
  {
    hide Sum, Add8;
    sum := 0;
    EmptySum();
    for k := 0 to |body|
      invariant sum == Sum(body[..k]) % 0x100
    {
      SumStep(body[..k], sum, body[k]);
      assert body[..k + 1] == body[..k] + [body[k]];
      sum := Add8(sum, body[k]);
    }
    assert body[..|body|] == body;
  }

  lemma EmptySum()
    ensures Sum([]) == 0
  {
  }

  /** pn532_parse_frame. */
  method ParseFrame(raw: seq<u8>, out: array<u8>) returns (r: Result<nat>)
    modifies out
    ensures var p := Parse(raw, out.Length);
            if p.Err? then r == Err(p.error) && out[..] == old(out[..])
            else r == Ok(|p.value|) && |p.value| <= out.Length && out[..] == p.value + old(out[|p.value|..])
  {
    hide Sum, FindStart;
    var buf := if |raw| > 0 then raw[1..] else [];
    var bad := CheckErrorFrame(buf);
    if bad {
      return Err(Fail);
    }
    var s := FindStartCode(buf);
    if s.Err? {
      return Err(s.error);
    }
    var h := ReadHeader(buf, s.value);
    if h.Err? {
      return Err(h.error);
    }
    r := ReadBody(buf, h.value, out);
  }

  /** LEN and its checksum, in both forms. */
  method ReadHeader(buf: seq<u8>, start: nat) returns (r: Result<Lead>)
    requires start <= |buf|
    ensures r == ParseHeader(buf, start)
  {
    var off := start;
    if off + 2 > |buf| {
      return Err(InvalidResponse);
    }
    var infoLen: nat;
    if buf[off] == 0xFF && off + 1 < |buf| && buf[off + 1] == 0xFF {
      off := off + 2;
      if off + 3 > |buf| {
        return Err(InvalidResponse);
      }
      var lenHi, lenLo, lcs := buf[off], buf[off + 1], buf[off + 2];
      off := off + 3;
      infoLen := 0x100 * (lenHi as int) + lenLo;
      if (lenHi as int + lenLo as int + lcs as int) % 0x100 != 0 {
        return Err(InvalidCrc);
      }
    } else {
      infoLen := buf[off];
      var lcs := buf[off + 1];
      off := off + 2;
      if (infoLen + lcs as int) % 0x100 != 0 {
        return Err(InvalidCrc);
      }
    }
    return Ok(Lead(infoLen, off));
  }

  /** TFI, checksum and the copy of the payload. */
  method ReadBody(buf: seq<u8>, l: Lead, out: array<u8>) returns (r: Result<nat>)
    modifies out
    ensures var p := ParseBody(buf, l, out.Length);
            if p.Err? then r == Err(p.error) && out[..] == old(out[..])
            else r == Ok(|p.value|) && |p.value| <= out.Length && out[..] == p.value + old(out[|p.value|..])
  {
    hide Sum;
    if l.infoLen < 1 {
      return Err(InvalidResponse);
    }
    if l.off + l.infoLen + 1 > |buf| {
      return Err(InvalidResponse);
    }
    if buf[l.off] != TFI_CHIP {
      return Err(InvalidResponse);
    }
    var sum := SumBody(buf[l.off..l.off + l.infoLen]);
    SumTest(Sum(buf[l.off..l.off + l.infoLen]), buf[l.off + l.infoLen]);
    if (sum as int + buf[l.off + l.infoLen] as int) % 0x100 != 0 {
      return Err(InvalidCrc);
    }
    var dataLen := l.infoLen - 1;
    if dataLen > out.Length {
      return Err(InvalidSize);
    }
    forall k | 0 <= k < dataLen {
      out[k] := buf[l.off + 1 + k];
    }
    return Ok(dataLen);
  }

  lemma SumTest(n: nat, x: int)
    ensures (n % 0x100 + x) % 0x100 == (n + x) % 0x100
  {
    ModAdd(n % 0x100, x, n, x, 0x100);
  }

  // ---- round trip ------------------------------------------------------------------------------------

  /** What follows the start code carries this payload, in the normal or in the
      extended form. */
  predicate Carries(rest: seq<u8>, payload: seq<u8>)
  {
    var n := 1 + |payload|;
    || (n <= 0xFF && NormalHeader(n) + Body(TFI_CHIP, payload) <= rest)
    || (n <= 0xFFFF && ExtendedHeader(n) + Body(TFI_CHIP, payload) <= rest)
  }

  lemma HeaderExact(buf: seq<u8>, off: nat, l: Lead)
    requires off <= |buf|
    ensures ParseHeader(buf, off) == Ok(l)
       <==> || (l.off == off + 2 && l.infoLen <= 0xFF && NormalHeader(l.infoLen) <= buf[off..])
            || (l.off == off + 5 && l.infoLen <= 0xFFFF && ExtendedHeader(l.infoLen) <= buf[off..])
  {
    hide Complement;
    var rest := buf[off..];
    if off + 2 <= |buf| {
      assert rest[0] == buf[off] && rest[1] == buf[off + 1] && rest[..2] == [buf[off], buf[off + 1]];
      ComplementUnique(buf[off], buf[off + 1]);
      NotBothMarkers();
      if off + 5 <= |buf| {
        assert rest[..5] == [buf[off], buf[off + 1], buf[off + 2], buf[off + 3], buf[off + 4]];
        ComplementUnique(buf[off + 2] as int + buf[off + 3] as int, buf[off + 4]);
      }
    }
  }

  /** A normal header never starts with the extended marker. */
  lemma NotBothMarkers()
    ensures Complement(0xFF) != 0xFF
  {
  }

  lemma PrefixJoin(h: seq<u8>, b: seq<u8>, rest: seq<u8>)
    ensures h + b <= rest <==> h <= rest && b <= rest[|h|..]
  {
    if h + b <= rest {
      assert rest[..|h|] == (h + b)[..|h|] == h;
      assert rest[|h|..][..|b|] == (h + b)[|h|..] == b;
    }
    if h <= rest && b <= rest[|h|..] {
      assert rest[..|h| + |b|] == rest[..|h|] + rest[|h|..][..|b|];
    }
  }

  lemma HeaderThenBody(buf: seq<u8>, off: nat, size: nat, payload: seq<u8>)
    requires off <= |buf|
    ensures ParseHeader(buf, off).Ok? && ParseBody(buf, ParseHeader(buf, off).value, size) == Ok(payload)
       <==> |payload| <= size && Carries(buf[off..], payload)
  {
    hide Sum, Complement, ParseHeader, ParseBody, Body, NormalHeader, ExtendedHeader;
    var n, rest, h := 1 + |payload|, buf[off..], ParseHeader(buf, off);
    if n <= 0xFF {
      HeaderExact(buf, off, Lead(n, off + 2));
      PrefixJoin(NormalHeader(n), Body(TFI_CHIP, payload), rest);
      if off + 2 <= |buf| {
        BodyExact(buf, Lead(n, off + 2), size, payload);
        assert rest[2..] == buf[off + 2..];
      }
    }
    if n <= 0xFFFF {
      HeaderExact(buf, off, Lead(n, off + 5));
      PrefixJoin(ExtendedHeader(n), Body(TFI_CHIP, payload), rest);
      if off + 5 <= |buf| {
        BodyExact(buf, Lead(n, off + 5), size, payload);
        assert rest[5..] == buf[off + 5..];
      }
    }
    if h.Ok? {
      HeaderExact(buf, off, h.value);
      BodyExact(buf, h.value, size, payload);
    }
  }

  lemma BodyExact(buf: seq<u8>, l: Lead, size: nat, payload: seq<u8>)
    requires l.off <= |buf|
    ensures ParseBody(buf, l, size) == Ok(payload)
       <==> l.infoLen == 1 + |payload| && |payload| <= size && Body(TFI_CHIP, payload) <= buf[l.off..]
  {
    hide Sum, Complement, Body;
    if l.infoLen == 1 + |payload| && l.off + l.infoLen + 1 <= |buf| {
      var t, x, dcs := buf[l.off], buf[l.off + 1..l.off + l.infoLen], buf[l.off + l.infoLen];
      assert buf[l.off..l.off + l.infoLen] == [t] + x;
      ComplementUnique(Sum([t] + x), dcs);
      assert buf[l.off..][..l.infoLen + 1] == [t] + x + [dcs];
      BodyIs(TFI_CHIP, payload, t, x, dcs);
    }
    BodyLength(TFI_CHIP, payload);
  }

  lemma BodyLength(tfi: u8, data: seq<u8>)
    ensures |Body(tfi, data)| == |data| + 2
  {
  }

  lemma BodyIs(tfi: u8, data: seq<u8>, t: u8, x: seq<u8>, dcs: u8)
    requires |x| == |data|
    ensures Body(tfi, data) == [t] + x + [dcs] <==> t == tfi && x == data && dcs == Complement(Sum([t] + x))
  {
    hide Sum, Complement;
    var b, c := Body(tfi, data), [t] + x + [dcs];
    assert b[0] == tfi && b[1..1 + |data|] == data && b[1 + |data|] == Complement(Sum([tfi] + data));
    assert c[0] == t && c[1..1 + |data|] == x && c[1 + |data|] == dcs;
  }

  /** The parser accepts exactly the reads that carry a payload that fits. */
  lemma AcceptsExactly(raw: seq<u8>, size: nat, payload: seq<u8>)
    ensures Parse(raw, size) == Ok(payload)
       <==> && |raw| > 0 && FindStart(raw[1..], 0).Ok? && |payload| <= size
            && Carries(raw[1..][FindStart(raw[1..], 0).value..], payload)
  {
    hide Sum, Complement, FindStart, ParseHeader, ParseBody, Body, Carries, NormalHeader, ExtendedHeader;
    if |raw| == 0 {
      NothingToFind();
    } else {
      var buf := raw[1..];
      var s := FindStart(buf, 0);
      if s.Ok? {
        StartInside(buf);
        if Carries(buf[s.value..], payload) {
          NoErrorFrame(buf[s.value..], payload);
        }
        HeaderThenBody(buf, s.value, size, payload);
        ErrorFrameRest(buf, s.value);
      }
    }
  }

  lemma NothingToFind()
    ensures FindStart([], 0).Err?
  {
  }

  lemma StartInside(buf: seq<u8>)
    ensures FindStart(buf, 0).Ok? ==> FindStart(buf, 0).value <= |buf|
  {
  }

  lemma ErrorFrameRest(buf: seq<u8>, off: nat)
    requires off <= |buf| && FindStart(buf, 0) == Ok(off)
    ensures IsErrorFrame(buf) ==> |buf[off..]| >= 3 && buf[off..][0] == 0x01 && buf[off..][2] == 0x7F
  {
    hide FindStart;
  }

  /** A carried payload never looks like the error frame. */
  lemma NoErrorFrame(rest: seq<u8>, payload: seq<u8>)
    requires Carries(rest, payload)
    ensures |rest| >= 3 && (rest[0] == 0xFF || rest[2] == TFI_CHIP)
  {
    hide Sum, Complement;
    var n := 1 + |payload|;
    if n <= 0xFF && NormalHeader(n) + Body(TFI_CHIP, payload) <= rest {
      assert rest[2] == (NormalHeader(n) + Body(TFI_CHIP, payload))[2];
    }
  }

  lemma FrameStart(status: u8, data: seq<u8>, rest: seq<u8>, raw: seq<u8>)
    requires raw == [status] + ([0, 0, 0xFF] + rest)
    ensures FindStart(raw[1..], 0) == Ok(3) && raw[1..][3..] == rest
  {
    var buf := raw[1..];
    assert buf == [0, 0, 0xFF] + rest;
    assert FindStart(buf, 0) == FindStart(buf, 1);
  }

  /** A chip frame behind the status byte, with anything after it, parses back to
      its payload. */
  lemma RoundTrip(status: u8, data: seq<u8>, trailing: seq<u8>, size: nat)
    requires 1 + |data| <= 0xFFFF && |data| <= size
    ensures Parse([status] + Frame(TFI_CHIP, data) + trailing, size) == Ok(data)
  {
    hide Sum, Complement, Parse, Body, NormalHeader, ExtendedHeader, FindStart;
    var n := 1 + |data|;
    var raw := [status] + Frame(TFI_CHIP, data) + trailing;
    var rest := Header(n) + Body(TFI_CHIP, data) + [0] + trailing;
    assert raw == [status] + ([0, 0, 0xFF] + rest);
    FrameStart(status, data, rest, raw);
    assert rest == (Header(n) + Body(TFI_CHIP, data)) + ([0] + trailing);
    AcceptsExactly(raw, size, data);
  }

  /** Preamble and postamble are not looked at: any first byte and any tail will do, also
      none. */
  lemma EndsIgnored(status: u8, x: u8, data: seq<u8>, tail: seq<u8>, size: nat)
    requires 1 + |data| <= 0xFFFF && |data| <= size
    ensures Parse([status, x, 0, 0xFF] + (Header(1 + |data|) + Body(TFI_CHIP, data)) + tail, size) == Ok(data)
  {
    hide Sum, Complement, Parse, Body, NormalHeader, ExtendedHeader, FindStart;
    var n := 1 + |data|;
    var rest := (Header(n) + Body(TFI_CHIP, data)) + tail;
    var raw := [status, x, 0, 0xFF] + (Header(n) + Body(TFI_CHIP, data)) + tail;
    assert raw[1..] == [x, 0, 0xFF] + rest;
    StartAfter(x, rest);
    assert raw[1..][3..] == rest;
    AcceptsExactly(raw, size, data);
  }

  lemma StartAfter(x: u8, rest: seq<u8>)
    ensures FindStart([x, 0, 0xFF] + rest, 0) == Ok(3)
  {
    var buf := [x, 0, 0xFF] + rest;
    assert FindStart(buf, 0) == FindStart(buf, 1);
  }

  /** Length of the tail that an empty frame with LEN changed to FF would need. */
  const COLLISION: nat := 0xD52C

  // ---- damaged frames ------------------------------------------------------------------------------------

  lemma ShiftedSum(a: int, b: int, c: int)
    requires (a - b) % 0x100 != 0 && (b + c) % 0x100 == 0
    ensures (a + c) % 0x100 != 0
  {
    if (a + c) % 0x100 == 0 {
      ModSub(a + c, b + c, 0, 0, 0x100);
    }
  }

  /** A changed byte in the body or its checksum, and the error it is reported as. */
  lemma BodyDamaged(buf: seq<u8>, l: Lead, data: seq<u8>, j: nat, x: u8, size: nat)
    requires l.infoLen == 1 + |data| && l.off + l.infoLen + 1 <= |buf| && j <= l.infoLen
    requires x != Body(TFI_CHIP, data)[j]
    requires buf[l.off..l.off + l.infoLen + 1] == Body(TFI_CHIP, data)[j := x]
    ensures ParseBody(buf, l, size) == Err(if j == 0 then InvalidResponse else InvalidCrc)
  {
    hide Sum, Complement;
    var info, inner := [TFI_CHIP] + data, buf[l.off..l.off + l.infoLen];
    var b := buf[l.off..l.off + l.infoLen + 1];
    assert b[0] == buf[l.off] && b[..l.infoLen] == inner && b[l.infoLen] == buf[l.off + l.infoLen];
    if j == 0 {
    } else if j <= |data| {
      assert inner == info[j := x];
      SumChanged(info, j, x);
      ShiftedSum(Sum(inner), Sum(info), Complement(Sum(info)));
    } else {
      assert inner == info;
      ComplementUnique(Sum(info), x);
    }
  }

  lemma EmptyBody()
    ensures Body(TFI_CHIP, []) == [0xD5, 0x2B]
  {
    SumOne(TFI_CHIP);
    assert [TFI_CHIP] + [] == [TFI_CHIP];
  }

  /** Parsing behind a start code at the usual place. */
  function ParseRest(rest: seq<u8>, size: nat): (r: Result<seq<u8>>)
  {
    if |rest| >= 3 && rest[0] == 0x01 && rest[1] == 0xFF && rest[2] == 0x7F then Err(Fail)
    else
      var buf := [0, 0, 0xFF] + rest;
      var h := ParseHeader(buf, 3);
      if h.Err? then Err(h.error) else ParseBody(buf, h.value, size)
  }

  lemma ParseBehindStart(status: u8, rest: seq<u8>, raw: seq<u8>, size: nat)
    requires raw == [status] + ([0, 0, 0xFF] + rest)
    ensures Parse(raw, size) == ParseRest(rest, size)
  {
    hide FindStart, ParseHeader, ParseBody;
    FrameStart(status, [], rest, raw);
    var buf := raw[1..];
    assert buf == [0, 0, 0xFF] + rest;
    assert buf[3..] == rest;
  }

  /** How the parser reports byte k of a chip frame changed to x.  The frame's first
      and last byte are not looked at, and a damaged start code is not covered. */
  function DamageError(data: seq<u8>, k: nat, x: u8): (e: Error)
  {
    var tfi := if 1 + |data| > NORMAL_LEN_MAX then 8 else 5;
    if k == tfi then if |data| == 0 && x == 0x7F then Fail else InvalidResponse
    else if k > tfi then InvalidCrc
    else if tfi == 8 then if k <= 4 && x == 1 then InvalidResponse else InvalidCrc
    else if |data| == 0 && k == 3 && x == 0xFF then InvalidResponse
    else InvalidCrc
  }

  lemma TfiFirst(data: seq<u8>)
    ensures Body(TFI_CHIP, data)[0] == TFI_CHIP
  {
  }

  /** The header of n bytes, read back. */
  lemma HeaderReads(buf: seq<u8>, n: nat)
    requires n <= 0xFFFF && 3 + |Header(n)| <= |buf| && buf[3..3 + |Header(n)|] == Header(n)
    ensures ParseHeader(buf, 3) == Ok(Lead(n, 3 + |Header(n)|))
  {
    var h := buf[3..3 + |Header(n)|];
    assert h[0] == buf[3] && h[1] == buf[4];
    if n > NORMAL_LEN_MAX {
      assert h[2] == buf[5] && h[3] == buf[6] && h[4] == buf[7];
    }
  }

  lemma ShortLengthDamaged(rest: seq<u8>, n: nat, j: nat, x: u8, size: nat)
    requires 1 < n <= NORMAL_LEN_MAX && |rest| >= 2 && j < 2 && x != NormalHeader(n)[j]
    requires rest[..2] == NormalHeader(n)[j := x]
    ensures ParseRest(rest, size) == Err(InvalidCrc)
  {
    hide Sum, ParseBody;
    var buf, d := [0, 0, 0xFF] + rest, rest[..2];
    assert d[0] == buf[3] == rest[0] && d[1] == buf[4] == rest[1];
  }

  /** An empty frame: 01 FF D5 2B behind the start code. */
  lemma EmptyLengthDamaged(rest: seq<u8>, j: nat, x: u8, size: nat)
    requires 5 <= |rest| < 5 + COLLISION && j < 2 && rest[2] == 0xD5 && rest[3] == 0x2B && rest[4] == 0
    requires [rest[0], rest[1]] == [0x01, 0xFF][j := x] && x != [0x01, 0xFF][j]
    ensures ParseRest(rest, size) == Err(if j == 0 && x == 0xFF then InvalidResponse else InvalidCrc)
  {
    hide Sum;
    var buf := [0, 0, 0xFF] + rest;
    assert buf[3] == rest[0] && buf[4] == rest[1] && buf[5] == rest[2] && buf[6] == rest[3] && buf[7] == rest[4];
    assert [rest[0], rest[1]][0] == rest[0] && [rest[0], rest[1]][1] == rest[1];
  }

  lemma ComplementOfOne()
    ensures Complement(1) == 0xFF
  {
  }

  lemma NormalDamaged(rest: seq<u8>, data: seq<u8>, j: nat, x: u8, size: nat)
    requires 1 + |data| <= NORMAL_LEN_MAX && |data| + 5 <= |rest| && j < |data| + 4 && rest[|data| + 4] == 0
    requires |data| > 0 || |rest| < 5 + COLLISION
    requires x != (NormalHeader(1 + |data|) + Body(TFI_CHIP, data))[j]
    requires rest[..|data| + 4] == (NormalHeader(1 + |data|) + Body(TFI_CHIP, data))[j := x]
    ensures ParseRest(rest, size) == Err(DamageError(data, j + 3, x))
  {
    hide Sum, Body, Complement, ParseHeader, ParseBody;
    var n, buf, h := 1 + |data|, [0, 0, 0xFF] + rest, NormalHeader(1 + |data|);
    var d := rest[..|data| + 4];
    if j >= 2 {
      assert d[..2] == h && buf[3..5] == d[..2];
      HeaderReads(buf, n);
      TfiFirst(data);
      ComplementOfOne();
      assert d[..2][0] == rest[0] == n && d[..2][1] == rest[1] == Complement(n) && d[2] == rest[2];
      assert d[2..] == Body(TFI_CHIP, data)[j - 2 := x];
      assert buf[5..5 + n + 1] == d[2..];
      BodyDamaged(buf, Lead(n, 5), data, j - 2, x, size);
    } else if n > 1 {
      assert d[..2] == h[j := x] && rest[..2] == d[..2];
      ShortLengthDamaged(rest, n, j, x, size);
    } else {
      EmptyBody();
      ComplementOfOne();
      assert d[0] == rest[0] && d[1] == rest[1] && d[2] == rest[2] && d[3] == rest[3];
      assert d[..2] == h[j := x] && [rest[0], rest[1]] == d[..2];
      EmptyLengthDamaged(rest, j, x, size);
    }
  }

  /** In the extended form a changed marker byte makes the rest read as a normal
      header whose body would start with the high length byte. */
  lemma MarkerDamaged(rest: seq<u8>, j: nat, x: u8, size: nat)
    requires |rest| >= 5 && j < 2 && x != 0xFF && rest[j] == x && rest[1 - j] == 0xFF && rest[2] < 2
    ensures ParseRest(rest, size) == Err(if x == 1 then InvalidResponse else InvalidCrc)
  {
    hide Sum;
    var buf := [0, 0, 0xFF] + rest;
    assert buf[3] == rest[0] && buf[4] == rest[1] && buf[5] == rest[2];
  }

  lemma LengthSum(a: u8, b: u8, c: u8, j: nat, x: u8)
    requires j < 3 && (a as int + b as int + c as int) % 0x100 == 0 && x != [a, b, c][j]
    ensures var d := [a, b, c][j := x]; (d[0] as int + d[1] as int + d[2] as int) % 0x100 != 0
  {
  }

  lemma LongLengthDamaged(rest: seq<u8>, n: nat, j: nat, x: u8, size: nat)
    requires n <= 0xFFFF && |rest| >= 5 && 2 <= j < 5 && x != ExtendedHeader(n)[j]
    requires rest[..5] == ExtendedHeader(n)[j := x]
    ensures ParseRest(rest, size) == Err(InvalidCrc)
  {
    hide Sum, ParseBody, Complement;
    var buf, h, d := [0, 0, 0xFF] + rest, ExtendedHeader(n), rest[..5];
    LengthSum(h[2], h[3], h[4], j - 2, x);
    assert d[0] == buf[3] && d[1] == buf[4] && d[2] == buf[5] && d[3] == buf[6] && d[4] == buf[7];
  }

  lemma ExtendedDamaged(rest: seq<u8>, data: seq<u8>, j: nat, x: u8, size: nat)
    requires NORMAL_LEN_MAX < 1 + |data| <= MAX_PAYLOAD && |data| + 7 <= |rest| && j < |data| + 7
    requires x != (ExtendedHeader(1 + |data|) + Body(TFI_CHIP, data))[j]
    requires rest[..|data| + 7] == (ExtendedHeader(1 + |data|) + Body(TFI_CHIP, data))[j := x]
    ensures ParseRest(rest, size) == Err(DamageError(data, j + 3, x))
  {
    hide Sum, Body, Complement, ParseHeader, ParseBody;
    var n, buf, h := 1 + |data|, [0, 0, 0xFF] + rest, ExtendedHeader(1 + |data|);
    var d := rest[..|data| + 7];
    if j >= 5 {
      assert d[..5] == h && buf[3..8] == d[..5];
      HeaderReads(buf, n);
      assert rest[0] == d[..5][0] == 0xFF;
      assert d[5..] == Body(TFI_CHIP, data)[j - 5 := x];
      assert buf[8..8 + n + 1] == d[5..] == Body(TFI_CHIP, data)[j - 5 := x];
      BodyDamaged(buf, Lead(n, 8), data, j - 5, x, size);
    } else if j >= 2 {
      assert d[..5] == h[j := x] && rest[..5] == d[..5];
      LongLengthDamaged(rest, n, j, x, size);
    } else {
      var five := rest[..5];
      assert five == d[..5] == h[j := x];
      assert five[0] == rest[0] && five[1] == rest[1] && five[2] == rest[2] == n / 0x100;
      MarkerDamaged(rest, j, x, size);
    }
  }

  /** No single changed byte from LEN through the data checksum gets past the parser,
      whatever follows the frame, unless the frame is empty and tens of kilobytes
      follow it; a read fills at most RX_BUF_SIZE bytes.  Each is reported as its own
      error. */
  lemma SingleByteDamage(status: u8, data: seq<u8>, trailing: seq<u8>, size: nat, k: nat, x: u8)
    requires 1 + |data| <= MAX_PAYLOAD && (|data| > 0 || |trailing| < COLLISION)
    requires 3 <= k < |Frame(TFI_CHIP, data)| - 1 && x != Frame(TFI_CHIP, data)[k]
    ensures Parse([status] + Frame(TFI_CHIP, data)[k := x] + trailing, size) == Err(DamageError(data, k, x))
  {
    hide Sum, Complement, Body, NormalHeader, ExtendedHeader, FindStart, Parse, ParseRest, DamageError;
    var n, c := 1 + |data|, Header(1 + |data|) + Body(TFI_CHIP, data);
    var f := Frame(TFI_CHIP, data);
    assert f == [0, 0, 0xFF] + c + [0];
    var raw := [status] + f[k := x] + trailing;
    var rest := c[k - 3 := x] + ([0] + trailing);
    assert f[k := x] == [0, 0, 0xFF] + c[k - 3 := x] + [0];
    assert raw == [status] + ([0, 0, 0xFF] + rest);
    ParseBehindStart(status, rest, raw, size);
    assert rest[..|c|] == c[k - 3 := x] && rest[|c|] == 0;
    if n <= NORMAL_LEN_MAX {
      NormalDamaged(rest, data, k - 3, x, size);
    } else {
      ExtendedDamaged(rest, data, k - 3, x, size);
    }
  }

  /** The same errors one by one: a changed data or checksum byte, a changed TFI, and a
      changed LEN or LCS of a normal, an empty and an extended frame. */
  lemma DamagePlaces(status: u8, data: seq<u8>, trailing: seq<u8>, size: nat, k: nat, x: u8)
    requires 1 + |data| <= MAX_PAYLOAD && (|data| > 0 || |trailing| < COLLISION)
    requires 3 <= k < |Frame(TFI_CHIP, data)| - 1 && x != Frame(TFI_CHIP, data)[k]
    ensures var f := Frame(TFI_CHIP, data); var r := Parse([status] + f[k := x] + trailing, size);
            && (|f| - 2 - |data| <= k ==> r == Err(InvalidCrc))
            && (k == |f| - 3 - |data| ==> r == Err(if |data| == 0 && x == 0x7F then Fail else InvalidResponse))
            && (k < |f| - 3 - |data| && 0 < |data| < NORMAL_LEN_MAX ==> r == Err(InvalidCrc))
            && (k < |f| - 3 && |data| == 0 ==> r == Err(if k == 3 && x == 0xFF then InvalidResponse else InvalidCrc))
            && (k < |f| - 3 - |data| && NORMAL_LEN_MAX <= |data| ==>
                  r == Err(if k <= 4 && x == 1 then InvalidResponse else InvalidCrc))
  {
    hide Sum, Complement, Body, NormalHeader, ExtendedHeader, Parse;
    SingleByteDamage(status, data, trailing, size, k, x);
  }

  /** Without exception for everything one read can bring in: the receive buffer ends
      long before such a tail would. */
  lemma DamageInOneRead(status: u8, data: seq<u8>, trailing: seq<u8>, size: nat, k: nat, x: u8)
    requires 1 + |data| <= MAX_PAYLOAD && 1 + |Frame(TFI_CHIP, data)| + |trailing| <= RX_BUF_SIZE
    requires 3 <= k < |Frame(TFI_CHIP, data)| - 1 && x != Frame(TFI_CHIP, data)[k]
    ensures Parse([status] + Frame(TFI_CHIP, data)[k := x] + trailing, size) == Err(DamageError(data, k, x))
  {
    SingleByteDamage(status, data, trailing, size, k, x);
  }

  /** The exception is real for the parser as such: with LEN changed to FF an empty frame
      reads as an extended header, and every tail that begins with a body of that
      length completes it. */
  lemma EmptyFrameDamage(status: u8, p: seq<u8>, more: seq<u8>)
    requires |p| + 2 == COLLISION
    ensures Parse([status] + Frame(TFI_CHIP, [])[3 := 0xFF] + Body(TFI_CHIP, p) + more, |p|) == Ok(p)
  {
    hide Sum, Parse, FindStart;
    var f := Frame(TFI_CHIP, [])[3 := 0xFF];
    EmptyBody();
    assert f == [0, 0, 0xFF] + ExtendedHeader(0xD52B);
    var raw, rest := [status] + f + Body(TFI_CHIP, p) + more, ExtendedHeader(0xD52B) + Body(TFI_CHIP, p) + more;
    assert raw == [status] + ([0, 0, 0xFF] + rest);
    FrameStart(status, [], rest, raw);
    AcceptsExactly(raw, |p|, p);
  }

  // ---- other refused reads ------------------------------------------------------------------------------------

  /** The chip's error frame: 00 00 FF 01 FF 7F 81 00. */
  lemma ErrorFrameFails(status: u8, trailing: seq<u8>, size: nat)
    ensures Frame(0x7F, []) == [0, 0, 0xFF, 0x01, 0xFF, 0x7F, 0x81, 0]
    ensures Parse([status] + Frame(0x7F, []) + trailing, size) == Err(Fail)
  {
    hide Sum, Parse, FindStart, ParseHeader, ParseBody;
    SumOne(0x7F);
    assert [0x7F] + [] == [0x7F];
    var rest := [0x01, 0xFF, 0x7F, 0x81, 0] + trailing;
    var raw := [status] + Frame(0x7F, []) + trailing;
    assert raw == [status] + ([0, 0, 0xFF] + rest);
    ParseBehindStart(status, rest, raw, size);
  }

  lemma ThirdByte(n: nat, b: seq<u8>, tail: seq<u8>, rest: seq<u8>)
    requires n <= 0xFFFF && |b| > 0 && rest == Header(n) + b + tail
    ensures |rest| >= 3 && (n > NORMAL_LEN_MAX ==> rest[0] == 0xFF) && (n <= NORMAL_LEN_MAX ==> rest[2] == b[0])
  {
  }

  lemma SliceOf(a: seq<u8>, b: seq<u8>, c: seq<u8>, s: seq<u8>)
    requires s == a + b + c
    ensures |s| >= |a| + |b| && s[|a|..|a| + |b|] == b
  {
  }

  /** An intact frame that does not fit the caller's buffer. */
  lemma TooLarge(status: u8, data: seq<u8>, trailing: seq<u8>, size: nat)
    requires 1 + |data| <= 0xFFFF && |data| > size
    ensures Parse([status] + Frame(TFI_CHIP, data) + trailing, size) == Err(InvalidSize)
  {
    hide Sum, Complement, Parse, FindStart, Body, Header, ParseHeader, ParseBody;
    var n, b := 1 + |data|, Body(TFI_CHIP, data);
    var rest := Header(n) + b + ([0] + trailing);
    var raw := [status] + Frame(TFI_CHIP, data) + trailing;
    assert raw == [status] + ([0, 0, 0xFF] + rest);
    ParseBehindStart(status, rest, raw, size);
    var buf, off := [0, 0, 0xFF] + rest, 3 + |Header(n)|;
    HeaderReads(buf, n);
    SliceOf([0, 0, 0xFF] + Header(n), b, [0] + trailing, buf);
    IntactBody(buf, Lead(n, off), data, size);
    ThirdByte(n, b, [0] + trailing, rest);
  }

  /** An intact body, whether or not it fits. */
  lemma IntactBody(buf: seq<u8>, l: Lead, data: seq<u8>, size: nat)
    requires l.infoLen == 1 + |data| && l.off + l.infoLen + 1 <= |buf|
    requires buf[l.off..l.off + l.infoLen + 1] == Body(TFI_CHIP, data)
    ensures ParseBody(buf, l, size) == if |data| > size then Err(InvalidSize) else Ok(data)
    ensures buf[l.off] == TFI_CHIP
  {
    hide Sum, Complement;
    var b := buf[l.off..l.off + l.infoLen + 1];
    var info := [TFI_CHIP] + data;
    assert b == info + [Complement(Sum(info))];
    assert b[0] == buf[l.off] && b[l.infoLen] == buf[l.off + l.infoLen] && b[..l.infoLen] == info;
    assert buf[l.off..l.off + l.infoLen] == b[..l.infoLen];
    ComplementUnique(Sum(info), b[l.infoLen]);
    assert buf[l.off + 1..l.off + l.infoLen] == data;
  }

  /** A frame cut anywhere up to its checksum. */
  lemma CutFrame(status: u8, data: seq<u8>, m: nat, size: nat)
    requires 1 + |data| <= 0xFFFF && m < |Frame(TFI_CHIP, data)| - 1
    ensures Parse([status] + Frame(TFI_CHIP, data)[..m], size) == Err(InvalidResponse)
  {
    hide Sum, Complement, Parse, ParseRest, FindStart, Body, Header;
    var f, c := Frame(TFI_CHIP, data), Header(1 + |data|) + Body(TFI_CHIP, data);
    assert f == [0, 0, 0xFF] + c + [0];
    var raw := [status] + f[..m];
    if m < 3 {
      assert raw[1..] == f[..m];
      ShortFind(f[..m]);
      NoStartCode(raw, size);
    } else {
      var rest := c[..m - 3];
      assert f[..m] == [0, 0, 0xFF] + rest;
      ParseBehindStart(status, rest, raw, size);
      CutRest(data, rest, m - 3, size);
    }
  }

  lemma ShortFind(b: seq<u8>)
    requires |b| < 3 && forall i :: 0 <= i < |b| ==> b[i] == 0
    ensures FindStart(b, 0) == Err(InvalidResponse)
  {
  }

  /** No start code anywhere. */
  lemma NoStartCode(raw: seq<u8>, size: nat)
    requires FindStart(if |raw| > 0 then raw[1..] else [], 0).Err?
    ensures Parse(raw, size) == Err(InvalidResponse)
  {
    hide FindStart, ParseHeader, ParseBody;
  }

  lemma CutRest(data: seq<u8>, rest: seq<u8>, m: nat, size: nat)
    requires 1 + |data| <= 0xFFFF && m == |rest| < |Header(1 + |data|)| + |data| + 2
    requires rest == (Header(1 + |data|) + Body(TFI_CHIP, data))[..m]
    ensures ParseRest(rest, size) == Err(InvalidResponse)
  {
    hide Sum, Complement, Body;
    var n, h, buf := 1 + |data|, Header(1 + |data|), [0, 0, 0xFF] + rest;
    var c := h + Body(TFI_CHIP, data);
    if m >= |h| {
      assert rest[..|h|] == c[..|h|] == h;
      assert buf[3..3 + |h|] == rest[..|h|];
      HeaderReads(buf, n);
      if m >= 3 {
        TfiFirst(data);
        assert rest[2] == c[2];
      }
    } else if m >= 2 {
      assert rest[0] == c[0] && rest[1] == c[1];
    }
  }
}
