/**
 * The byte-level layer of the dump format: lengths, times, integers and strings (rdb.c). Every saver appends to a
 * Rio exactly the bytes an Encode function names, every loader consumes exactly what the matching Parse function
 * says, and the lemmas show that Parse undoes Encode with any bytes following.
 */
module RdbCodec {
  import opened Base
  import opened Decimal

  const RDB_6BITLEN := 0
  const RDB_14BITLEN := 1
  const RDB_32BITLEN: byte := 0x80
  const RDB_64BITLEN: byte := 0x81
  const RDB_ENCVAL := 3
  const RDB_LENERR: int := U64 - 1
  const RDB_ENC_INT8 := 0
  const RDB_ENC_INT16 := 1
  const RDB_ENC_INT32 := 2
  const RDB_ENC_LZF := 3

  // ------------------------------------------------------------------ fixed-width integers

  function Pow256(k: nat): (p: int)
    ensures p > 0
  {
    if k == 0 then 1 else 256 * Pow256(k - 1)
  }

  /** The low k bytes of v in two's complement, least significant first. */
  function LittleEndian(v: int, k: nat): (s: Bytes)
    ensures |s| == k
    decreases k
  {
    if k == 0 then [] else [v % 256] + LittleEndian(v / 256, k - 1)
  }

  function FromLittleEndian(s: Bytes): (n: nat) {
    if s == [] then 0 else s[0] + 256 * FromLittleEndian(s[1..])
  }

  function FromSignedLittleEndian(s: Bytes): (v: int) {
    var n: int := FromLittleEndian(s);
    if 2 * n >= Pow256(|s|) then n - Pow256(|s|) else n
  }

  /** The low k bytes of v, most significant first (network order). */
  function BigEndian(v: nat, k: nat): (s: Bytes)
    ensures |s| == k
  {
    if k == 0 then [] else BigEndian(v / 256, k - 1) + [v % 256]
  }

  function FromBigEndian(s: Bytes): (n: nat) {
    if s == [] then 0 else FromBigEndian(s[..|s| - 1]) * 256 + s[|s| - 1]
  }

  lemma {:induction false} BigEndianRoundTrip(v: nat, k: nat)
    requires v < Pow256(k)
    ensures FromBigEndian(BigEndian(v, k)) == v
  {
    if k > 0 {
      BigEndianRoundTrip(v / 256, k - 1);
      var s := BigEndian(v, k);
      assert s[..|s| - 1] == BigEndian(v / 256, k - 1);
    }
  }

  /** What is left of v above its low k bytes. */
  function HighPart(v: int, k: nat): int
    decreases k
  {
    if k == 0 then v else HighPart(v / 256, k - 1)
  }

  lemma {:induction false} LittleEndianSplits(v: int, k: nat)
    ensures v == FromLittleEndian(LittleEndian(v, k)) + Pow256(k) * HighPart(v, k)
    decreases k
  {
    if k > 0 {
      LittleEndianSplits(v / 256, k - 1);
      assert LittleEndian(v, k)[1..] == LittleEndian(v / 256, k - 1);
      assert 256 * (Pow256(k - 1) * HighPart(v / 256, k - 1)) == Pow256(k) * HighPart(v, k);
    }
  }

  lemma {:induction false} HighPartVanishes(v: int, k: nat)
    requires -Pow256(k) <= v < Pow256(k)
    ensures HighPart(v, k) == if v < 0 then -1 else 0
    decreases k
  {
    if k > 0 {
      HighPartVanishes(v / 256, k - 1);
    }
  }

  lemma {:induction false} SignedLittleEndianRoundTrip(v: int, k: nat)
    requires -Pow256(k) <= 2 * v < Pow256(k)
    ensures FromSignedLittleEndian(LittleEndian(v, k)) == v
  {
    LittleEndianSplits(v, k);
    HighPartVanishes(v, k);
    assert Pow256(k) * HighPart(v, k) == if v < 0 then -Pow256(k) else 0;
  }

  lemma Pow256Values()
    ensures Pow256(1) == 0x100 && Pow256(2) == 0x1_0000 && Pow256(4) == 0x1_0000_0000 && Pow256(8) == U64
  {
    assert Pow256(1) == 256 * Pow256(0);
    assert Pow256(4) == 256 * 256 * Pow256(2);
    assert Pow256(6) == 256 * 256 * Pow256(4);
    assert Pow256(8) == 256 * 256 * Pow256(6);
  }

  // ------------------------------------------------------------------ specification of the wire format

  datatype LenCode = LenCode(isencoded: bool, len: nat)

  function EncodeLen(len: nat): (s: Bytes)
    requires len < U64
    ensures s != []
  {
    if len < 0x40 then [len]
    else if len < 0x4000 then [RDB_14BITLEN * 64 + len / 256, len % 256]
    else if len < 0x1_0000_0000 then [RDB_32BITLEN] + BigEndian(len, 4)
    else [RDB_64BITLEN] + BigEndian(len, 8)
  }

  /** The four forms byte by byte, the longer ones in network order. */
  lemma {:induction false} LenFormat(len: nat)
    requires len < U64
    ensures len < 64 ==> EncodeLen(len) == [len]
    ensures 64 <= len < 16384 ==> EncodeLen(len) == [64 + len / 256, len % 256]
    ensures 16384 <= len < 0x1_0000_0000 ==>
      EncodeLen(len) == [128, len / 256 / 256 / 256 % 256, len / 256 / 256 % 256, len / 256 % 256, len % 256]
    ensures len >= 0x1_0000_0000 ==>
      var high := len / 256 / 256 / 256 / 256;
      EncodeLen(len) == [129,
        high / 256 / 256 / 256 % 256, high / 256 / 256 % 256, high / 256 % 256, high % 256,
        len / 256 / 256 / 256 % 256, len / 256 / 256 % 256, len / 256 % 256, len % 256]
  {
    hide BigEndian;
    BigEndianFour(len);
    BigEndianEight(len);
  }

  lemma {:induction false} BigEndianFour(v: nat)
    ensures BigEndian(v, 4) == [v / 256 / 256 / 256 % 256, v / 256 / 256 % 256, v / 256 % 256, v % 256]
  {
    assert BigEndian(v / 256 / 256, 2) == [v / 256 / 256 / 256 % 256, v / 256 / 256 % 256];
  }

  lemma {:induction false} BigEndianEight(v: nat)
    ensures BigEndian(v, 8) == BigEndian(v / 256 / 256 / 256 / 256, 4) +
      [v / 256 / 256 / 256 % 256, v / 256 / 256 % 256, v / 256 % 256, v % 256]
    ensures var high := v / 256 / 256 / 256 / 256;
      BigEndian(v, 8) == [
        high / 256 / 256 / 256 % 256, high / 256 / 256 % 256, high / 256 % 256, high % 256,
        v / 256 / 256 / 256 % 256, v / 256 / 256 % 256, v / 256 % 256, v % 256]
  {
    var high := v / 256 / 256 / 256 / 256;
    assert BigEndian(v / 256 / 256, 6) == BigEndian(high, 4) + [v / 256 / 256 / 256 % 256, v / 256 / 256 % 256];
    BigEndianFour(high);
  }

  function ParseLen(s: Bytes): (r: Option<(LenCode, Bytes)>)
    ensures r.Some? ==> |r.value.1| < |s| && r.value.1 == s[|s| - |r.value.1|..]
  {
    if s == [] then None
    else
      var kind := s[0] / 64;
      if kind == RDB_ENCVAL then Some((LenCode(true, s[0] % 64), s[1..]))
      else if kind == RDB_6BITLEN then Some((LenCode(false, s[0] % 64), s[1..]))
      else if kind == RDB_14BITLEN then
        if |s| < 2 then None
        else
          var high: int := s[0] % 64;
          Some((LenCode(false, high * 256 + s[1]), s[2..]))
      else if s[0] == RDB_32BITLEN then
        if |s| < 5 then None else Some((LenCode(false, FromBigEndian(s[1..5])), s[5..]))
      else if s[0] == RDB_64BITLEN then
        if |s| < 9 then None else Some((LenCode(false, FromBigEndian(s[1..9])), s[9..]))
      else None
  }

  /** A length that must not collide with the error marker, as every caller that checks RDB_LENERR reads it. */
  function ParseCount(s: Bytes): (r: Option<(nat, Bytes)>)
    ensures r.Some? ==> |r.value.1| < |s|
  {
    match ParseLen(s)
    case None => None
    case Some((code, rest)) => if code.len == RDB_LENERR then None else Some((code.len, rest))
  }

  lemma LenRoundTrip(len: nat, rest: Bytes)
    requires len < U64
    ensures ParseLen(EncodeLen(len) + rest) == Some((LenCode(false, len), rest))
  {
    var s := EncodeLen(len) + rest;
    assert s[|EncodeLen(len)|..] == rest;
    Pow256Values();
    if 0x4000 <= len < 0x1_0000_0000 {
      BigEndianRoundTrip(len, 4);
      assert s[1..5] == BigEndian(len, 4);
    } else if 0x1_0000_0000 <= len {
      BigEndianRoundTrip(len, 8);
      assert s[1..9] == BigEndian(len, 8);
    }
  }

  /** A count survives the round trip exactly when it is not the error marker itself. */
  lemma CountRoundTrip(len: nat, rest: Bytes)
    requires len < U64
    ensures ParseCount(EncodeLen(len) + rest) == Some((len, rest)) <==> len != RDB_LENERR
  {
    LenRoundTrip(len, rest);
  }

  function EncodeTime(t: int): (s: Bytes)
    ensures |s| == 8
  {
    LittleEndian(t, 8)
  }

  function ParseTime(s: Bytes): (r: Option<(int, Bytes)>)
    ensures r.Some? ==> |r.value.1| < |s|
  {
    if |s| < 8 then None else Some((FromSignedLittleEndian(s[..8]), s[8..]))
  }

  lemma TimeRoundTrip(t: int, rest: Bytes)
    requires Int64(t)
    ensures ParseTime(EncodeTime(t) + rest) == Some((t, rest))
  {
    var s := EncodeTime(t) + rest;
    assert s[..8] == EncodeTime(t) && s[8..] == rest;
    Pow256Values();
    SignedLittleEndianRoundTrip(t, 8);
  }

  /** The integer form of a string, or nothing when the value needs more than 32 bits. */
  function EncodeInteger(v: int): (s: Bytes) {
    if -0x80 <= v < 0x80 then [RDB_ENCVAL * 64 + RDB_ENC_INT8] + LittleEndian(v, 1)
    else if -0x8000 <= v < 0x8000 then [RDB_ENCVAL * 64 + RDB_ENC_INT16] + LittleEndian(v, 2)
    else if -0x8000_0000 <= v < 0x8000_0000 then [RDB_ENCVAL * 64 + RDB_ENC_INT32] + LittleEndian(v, 4)
    else []
  }

  /** The three integer forms byte by byte, least significant first and in two's complement. */
  lemma {:induction false} IntegerFormat(v: int)
    ensures -128 <= v < 128 ==> EncodeInteger(v) == [192, v % 256]
    ensures -32768 <= v < 32768 && !(-128 <= v < 128) ==> EncodeInteger(v) == [193, v % 256, v / 256 % 256]
    ensures -0x8000_0000 <= v < 0x8000_0000 && !(-32768 <= v < 32768) ==>
      EncodeInteger(v) == [194, v % 256, v / 256 % 256, v / 256 / 256 % 256, v / 256 / 256 / 256 % 256]
    ensures EncodeInteger(v) == [] <==> !(-0x8000_0000 <= v < 0x8000_0000)
  {
    hide LittleEndian;
    LittleEndianSmall(v);
    LittleEndianFour(v);
  }

  lemma {:induction false} LittleEndianSmall(v: int)
    ensures LittleEndian(v, 1) == [v % 256] && LittleEndian(v, 2) == [v % 256, v / 256 % 256]
  {
  }

  lemma {:induction false} LittleEndianFour(v: int)
    ensures LittleEndian(v, 4) == [v % 256, v / 256 % 256, v / 256 / 256 % 256, v / 256 / 256 / 256 % 256]
  {
    hide LittleEndian;
    LittleEndianStep(v, 4);
    LittleEndianStep(v / 256, 3);
    LittleEndianSmall(v / 256 / 256);
  }

  lemma {:induction false} LittleEndianStep(v: int, k: nat)
    requires k > 0
    ensures LittleEndian(v, k) == [v % 256] + LittleEndian(v / 256, k - 1)
  {
  }

  /** A time takes eight bytes, least significant first. */
  lemma {:induction false} TimeFormat(t: int)
    ensures var high := t / 256 / 256 / 256 / 256;
      EncodeTime(t) == [
        t % 256, t / 256 % 256, t / 256 / 256 % 256, t / 256 / 256 / 256 % 256,
        high % 256, high / 256 % 256, high / 256 / 256 % 256, high / 256 / 256 / 256 % 256]
  {
    hide LittleEndian;
    LittleEndianStep(t, 8);
    LittleEndianStep(t / 256, 7);
    LittleEndianStep(t / 256 / 256, 6);
    LittleEndianStep(t / 256 / 256 / 256, 5);
    LittleEndianFour(t / 256 / 256 / 256 / 256);
  }

  function IntegerWidth(enctype: nat): (k: nat) {
    if enctype == RDB_ENC_INT8 then 1 else if enctype == RDB_ENC_INT16 then 2 else 4
  }

  function ParseInteger(enctype: nat, s: Bytes): (r: Option<(Bytes, Bytes)>)
    ensures r.Some? ==> |r.value.1| <= |s|
  {
    var k := IntegerWidth(enctype);
    if enctype > RDB_ENC_INT32 || |s| < k then None
    else Some((Ll2String(FromSignedLittleEndian(s[..k])), s[k..]))
  }

  lemma IntegerRoundTrip(v: int, rest: Bytes)
    requires -0x8000_0000 <= v < 0x8000_0000
    ensures EncodeInteger(v) != []
    ensures ParseString(NoCompression(), EncodeInteger(v) + rest) == Some((Ll2String(v), rest))
  {
    hide ParseString, ParseInteger, EncodeInteger, LittleEndian, FromSignedLittleEndian, Ll2String;
    var e := IntegerForm(v);
    var bytes := LittleEndian(v, IntegerWidth(e));
    IntegerTag(e, bytes + rest);
    IntegerBody(e, v, rest);
    assert [RDB_ENCVAL * 64 + e] + bytes + rest == [RDB_ENCVAL * 64 + e] + (bytes + rest);
  }

  /** Which of the three forms a value gets; its bytes read back as the value. */
  lemma IntegerForm(v: int) returns (e: nat)
    requires -0x8000_0000 <= v < 0x8000_0000
    ensures e <= RDB_ENC_INT32 && EncodeInteger(v) == [RDB_ENCVAL * 64 + e] + LittleEndian(v, IntegerWidth(e))
    ensures FromSignedLittleEndian(LittleEndian(v, IntegerWidth(e))) == v
  {
    hide FromSignedLittleEndian, LittleEndian;
    Pow256Values();
    e := if -0x80 <= v < 0x80 then RDB_ENC_INT8 else if -0x8000 <= v < 0x8000 then RDB_ENC_INT16 else RDB_ENC_INT32;
    SignedLittleEndianRoundTrip(v, IntegerWidth(e));
  }

  lemma IntegerTag(e: nat, body: Bytes)
    requires e <= RDB_ENC_INT32
    ensures ParseString(NoCompression(), [RDB_ENCVAL * 64 + e] + body) == ParseInteger(e, body)
  {
    hide ParseInteger;
    assert ([RDB_ENCVAL * 64 + e] + body)[1..] == body;
  }

  lemma IntegerBody(e: nat, v: int, rest: Bytes)
    requires e <= RDB_ENC_INT32 && FromSignedLittleEndian(LittleEndian(v, IntegerWidth(e))) == v
    ensures ParseInteger(e, LittleEndian(v, IntegerWidth(e)) + rest) == Some((Ll2String(v), rest))
  {
    hide FromSignedLittleEndian, LittleEndian, Ll2String;
    var bytes := LittleEndian(v, IntegerWidth(e));
    assert (bytes + rest)[..|bytes|] == bytes && (bytes + rest)[|bytes|..] == rest;
  }

  // ------------------------------------------------------------------ strings

  /** LZF itself is not part of this model; only that decompression undoes compression is assumed of it. */
  datatype Lzf = Lzf(enabled: bool, compress: Bytes -> Option<Bytes>, decompress: (Bytes, nat) -> Option<Bytes>)
  {
    ghost predicate InversePair() {
      forall s {:trigger compress(s)} :: |s| > 4 && compress(s).Some? ==>
        0 < |compress(s).value| <= |s| - 4 && decompress(compress(s).value, |s|) == Some(s)
    }
  }

  function NoCompression(): Lzf {
    Lzf(false, (s: Bytes) => None, (s: Bytes, n: nat) => None)
  }

  /** The strings whose length the format can carry. */
  predicate Fits(s: Bytes) {
    |s| < RDB_LENERR
  }

  function EncodeString(z: Lzf, s: Bytes): (r: Bytes)
    requires Fits(s)
  {
    if |s| <= 11 && String2ll(s).Some? && EncodeInteger(String2ll(s).value) != [] then
      EncodeInteger(String2ll(s).value)
    else if z.enabled && |s| > 20 && z.compress(s).Some? && 0 < |z.compress(s).value| <= |s| - 4 then
      EncodeLzfBlob(z.compress(s).value, |s|)
    else
      EncodeLen(|s|) + s
  }

  /**
   * The form a string gets: a number when it is the text of a 32-bit one; else compressed when that saves at least four
   * bytes; else its length and itself.
   */
  lemma {:induction false} StringFormat(z: Lzf, s: Bytes)
    requires Fits(s)
    ensures forall v :: -0x8000_0000 <= v < 0x8000_0000 && s == Ll2String(v) ==> EncodeString(z, s) == EncodeInteger(v)
    ensures (forall v :: -0x8000_0000 <= v < 0x8000_0000 ==> s != Ll2String(v)) ==>
      var small := if z.enabled && |s| > 20 then z.compress(s) else None;
      EncodeString(z, s) ==
      if small.Some? && 0 < |small.value| && |small.value| + 4 <= |s| then
        [195] + EncodeLen(|small.value|) + EncodeLen(|s|) + small.value
      else EncodeLen(|s|) + s
  {
    hide EncodeLen, Ll2String, String2ll, EncodeInteger;
    forall v | -0x8000_0000 <= v < 0x8000_0000 && s == Ll2String(v)
      ensures String2ll(s) == Some(v) && |s| <= 11 && EncodeInteger(v) != []
    {
      String2llInvertsLl2String(s, v);
      ShortText(v);
      IntegerFormat(v);
    }
    if String2ll(s).Some? {
      var v := String2ll(s).value;
      String2llInvertsLl2String(s, v);
      IntegerFormat(v);
    }
  }

  /** A 32-bit number has at most ten digits and a sign. */
  lemma {:induction false} ShortText(v: int)
    requires -0x8000_0000 <= v < 0x8000_0000
    ensures |Ll2String(v)| <= 11
  {
    hide Digits;
    assert Pow10(5) == 100_000 * Pow10(0);
    assert Pow10(10) == 100_000 * Pow10(5);
    DigitsShort(if v < 0 then -v else v, 10);
  }

  function EncodeLzfBlob(data: Bytes, originalLen: nat): (r: Bytes)
    requires |data| < U64 && originalLen < U64
  {
    [RDB_ENCVAL * 64 + RDB_ENC_LZF] + EncodeLen(|data|) + EncodeLen(originalLen) + data
  }

  function ParseLzf(z: Lzf, s: Bytes): (r: Option<(Bytes, Bytes)>)
    ensures r.Some? ==> |r.value.1| <= |s|
  {
    match ParseCount(s)
    case None => None
    case Some((clen, s1)) =>
      match ParseCount(s1)
      case None => None
      case Some((len, s2)) =>
        if |s2| < clen then None
        else match z.decompress(s2[..clen], len)
          case None => None
          case Some(text) => if |text| != len then None else Some((text, s2[clen..]))
  }

  function ParseString(z: Lzf, s: Bytes): (r: Option<(Bytes, Bytes)>)
    ensures r.Some? ==> |r.value.1| < |s|
  {
    match ParseLen(s)
    case None => None
    case Some((code, rest)) =>
      if code.len == RDB_LENERR then None
      else if code.isencoded then
        if code.len <= RDB_ENC_INT32 then ParseInteger(code.len, rest)
        else if code.len == RDB_ENC_LZF then ParseLzf(z, rest)
        else None
      else if |rest| < code.len then None
      else Some((rest[..code.len], rest[code.len..]))
  }

  lemma LzfPayloadRoundTrip(z: Lzf, data: Bytes, text: Bytes, rest: Bytes)
    requires Fits(data) && Fits(text) && z.decompress(data, |text|) == Some(text)
    ensures ParseLzf(z, EncodeLen(|data|) + (EncodeLen(|text|) + (data + rest))) == Some((text, rest))
  {
    LenRoundTrip(|data|, EncodeLen(|text|) + (data + rest));
    LenRoundTrip(|text|, data + rest);
    assert (data + rest)[..|data|] == data && (data + rest)[|data|..] == rest;
  }

  lemma LzfRoundTrip(z: Lzf, s: Bytes, rest: Bytes)
    requires z.InversePair() && Fits(s) && |s| > 20
    requires z.compress(s).Some?
    ensures ParseString(z, EncodeLzfBlob(z.compress(s).value, |s|) + rest) == Some((s, rest))
  {
    var data := z.compress(s).value;
    LzfPayloadRoundTrip(z, data, s, rest);
    var payload := EncodeLen(|data|) + (EncodeLen(|s|) + (data + rest));
    var all := EncodeLzfBlob(data, |s|) + rest;
    ConcatAssoc([195], EncodeLen(|data|), EncodeLen(|s|), data, rest);
    assert all == [195] + payload;
    LzfTag(z, payload);
  }

  lemma AppendTwo<T>(start: seq<T>, a: seq<T>, b: seq<T>)
    ensures start + a + b == start + (a + b)
  {
  }

  lemma AppendFour(start: Bytes, a: Bytes, b: Bytes, c: Bytes, d: Bytes)
    ensures start + a + b + c + d == start + (a + b + c + d)
  {
  }

  lemma ConcatAssoc(a: Bytes, b: Bytes, c: Bytes, d: Bytes, e: Bytes)
    ensures a + b + c + d + e == a + (b + (c + (d + e)))
  {
  }

  lemma LzfTag(z: Lzf, payload: Bytes)
    ensures ParseString(z, [195] + payload) == ParseLzf(z, payload)
  {
    assert ([195] + payload)[1..] == payload;
  }

  /**
   * The string codec is self-delimiting and lossless: for every string, compressible or not, numeric or not, and
   * with any bytes following, loading returns the string and leaves exactly those bytes.
   */
  lemma StringRoundTrip(z: Lzf, s: Bytes, rest: Bytes)
    requires z.InversePair() && Fits(s)
    ensures ParseString(z, EncodeString(z, s) + rest) == Some((s, rest))
  {
    hide ParseString, EncodeLen, EncodeLzfBlob, String2ll;
    var v := String2ll(s);
    if |s| <= 11 && v.Some? && EncodeInteger(v.value) != [] {
      String2llInvertsLl2String(s, v.value);
      IntegerRoundTrip(v.value, rest);
      ParseStringIgnoresLzf(z, NoCompression(), EncodeInteger(v.value) + rest);
    } else if z.enabled && |s| > 20 && z.compress(s).Some? {
      LzfRoundTrip(z, s, rest);
    } else {
      VerbatimRoundTrip(z, s, rest);
    }
  }

  lemma VerbatimRoundTrip(z: Lzf, s: Bytes, rest: Bytes)
    requires Fits(s)
    ensures ParseString(z, EncodeLen(|s|) + s + rest) == Some((s, rest))
  {
    hide EncodeLen, ParseLen;
    LenRoundTrip(|s|, s + rest);
    AppendTwo(EncodeLen(|s|), s, rest);
    assert (s + rest)[..|s|] == s && (s + rest)[|s|..] == rest;
  }

  lemma ParseStringIgnoresLzf(z: Lzf, y: Lzf, s: Bytes)
    requires s != [] && !(s[0] == RDB_ENCVAL * 64 + RDB_ENC_LZF)
    ensures ParseString(z, s) == ParseString(y, s)
  {
    LzfCode(s);
    hide ParseLen, ParseInteger, ParseLzf;
  }

  /** Only one first byte announces a compressed string. */
  lemma {:induction false} LzfCode(s: Bytes)
    requires s != []
    ensures ParseLen(s).Some? && ParseLen(s).value.0.isencoded && ParseLen(s).value.0.len == RDB_ENC_LZF ==>
            s[0] == RDB_ENCVAL * 64 + RDB_ENC_LZF
  {
  }

  /** An object's string is either bytes or, after encoding, a number that prints as those bytes. */
  datatype StringObject = RawString(text: Bytes) | IntString(v: int)
  {
    predicate Storable() {
      match this
      case RawString(text) => Fits(text)
      case IntString(v) => Int64(v)
    }

    function Text(): Bytes {
      match this
      case RawString(text) => text
      case IntString(v) => Ll2String(v)
    }
  }

  function EncodeLongLong(v: int): (r: Bytes)
    requires Int64(v)
  {
    if EncodeInteger(v) != [] then EncodeInteger(v)
    else
      Ll2StringShort(v);
      EncodeLen(|Ll2String(v)|) + Ll2String(v)
  }

  function Pow10(k: nat): int {
    if k == 0 then 1 else 10 * Pow10(k - 1)
  }

  lemma {:induction false} DigitsShort(n: nat, k: nat)
    requires 0 < k && n < Pow10(k)
    ensures |Digits(n)| <= k
  {
    assert Pow10(1) == 10 * Pow10(0);
    if n >= 10 {
      DigitsShort(n / 10, k - 1);
    }
  }

  /** ll2string writes at most 20 bytes. */
  lemma Ll2StringShort(v: int)
    requires Int64(v)
    ensures |Ll2String(v)| <= 20
  {
    assert Pow10(7) == 10_000_000 * Pow10(0);
    assert Pow10(13) == 1_000_000 * Pow10(7);
    assert Pow10(19) == 1_000_000 * Pow10(13);
    DigitsShort(if v < 0 then -v else v, 19);
  }

  function EncodeStringObject(z: Lzf, o: StringObject): (r: Bytes)
    requires o.Storable()
  {
    match o
    case RawString(text) => EncodeString(z, text)
    case IntString(v) => EncodeLongLong(v)
  }

  /** Both representations of a string load back as the same text. */
  lemma StringObjectRoundTrip(z: Lzf, o: StringObject, rest: Bytes)
    requires z.InversePair() && o.Storable()
    ensures ParseString(z, EncodeStringObject(z, o) + rest) == Some((o.Text(), rest))
  {
    hide ParseString, EncodeLen, EncodeString, Ll2String;
    match o
    case RawString(text) =>
      StringRoundTrip(z, text, rest);
    case IntString(v) =>
      if EncodeInteger(v) != [] {
        IntegerRoundTrip(v, rest);
        ParseStringIgnoresLzf(z, NoCompression(), EncodeInteger(v) + rest);
      } else {
        Ll2StringShort(v);
        VerbatimRoundTrip(z, Ll2String(v), rest);
      }
  }
}
