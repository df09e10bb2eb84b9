/**
 * The savers and loaders of rdb.c as they work on a stream: a Rio is a byte buffer that savers extend at the end
 * and loaders consume from the front. Each method is tied to the Encode or Parse function it implements.
 */
module RdbIo {
  import opened Base
  import opened Decimal
  import opened RdbCodec

  class Rio {
    var buf: Bytes
    var readError: bool

    constructor (contents: Bytes)
      ensures buf == contents && !readError
    {
      buf, readError := contents, false;
    }

    method Write(p: Bytes) returns (n: nat)
      modifies this
      ensures buf == old(buf) + p && n == |p| && readError == old(readError)
    {
      buf := buf + p;
      n := |p|;
    }

    /** Reads exactly n bytes, or none and remembers the failure. */
    method Read(n: nat) returns (r: Option<Bytes>)
      modifies this
      ensures n <= |old(buf)| ==> r == Some(old(buf)[..n]) && buf == old(buf)[n..] && readError == old(readError)
      ensures n > |old(buf)| ==> r == None && buf == old(buf) && readError
    {
      if n > |buf| {
        readError := true;
        return None;
      }
      r := Some(buf[..n]);
      buf := buf[n..];
    }
  }

  method SaveType(rdb: Rio, t: byte) returns (n: nat)
    modifies rdb
    ensures rdb.buf == old(rdb.buf) + [t] && n == 1
  {
    n := rdb.Write([t]);
  }

  method LoadType(rdb: Rio) returns (t: Option<byte>)
    modifies rdb
    ensures old(rdb.buf) == [] ==> t == None
    ensures old(rdb.buf) != [] ==>
      t == Some(old(rdb.buf)[0]) && rdb.buf == old(rdb.buf)[1..] && rdb.readError == old(rdb.readError)
  {
    var raw := rdb.Read(1);
    t := if raw.Some? then Some(raw.value[0]) else None;
  }

  method SaveMillisecondTime(rdb: Rio, t: int) returns (n: nat)
    requires Int64(t)
    modifies rdb
    ensures rdb.buf == old(rdb.buf) + EncodeTime(t) && n == 8
  {
    n := rdb.Write(LittleEndian(t, 8));
  }

  /** On a short read the result is LLONG_MAX and the stream remembers the error. */
  method LoadMillisecondTime(rdb: Rio) returns (t: int)
    modifies rdb
    ensures match ParseTime(old(rdb.buf))
            case Some((v, rest)) => t == v && rdb.buf == rest && rdb.readError == old(rdb.readError)
            case None => t == 0x7FFF_FFFF_FFFF_FFFF && rdb.readError
  {
    var raw := rdb.Read(8);
    if raw.None? {
      return 0x7FFF_FFFF_FFFF_FFFF;
    }
    t := FromSignedLittleEndian(raw.value);
  }

  method SaveLen(rdb: Rio, len: nat) returns (nwritten: nat)
    requires len < U64
    modifies rdb
    ensures rdb.buf == old(rdb.buf) + EncodeLen(len)
    ensures nwritten == |EncodeLen(len)| && rdb.readError == old(rdb.readError)
  {
    ghost var start := rdb.buf;
    if len < 0x40 {
      nwritten := rdb.Write([len]);
    } else if len < 0x4000 {
      nwritten := rdb.Write([RDB_14BITLEN * 64 + len / 256, len % 256]);
    } else if len < 0x1_0000_0000 {
      var _ := rdb.Write([RDB_32BITLEN]);
      var _ := rdb.Write(BigEndian(len, 4));
      AppendTwo(start, [RDB_32BITLEN], BigEndian(len, 4));
      nwritten := 1 + 4;
    } else {
      var _ := rdb.Write([RDB_64BITLEN]);
      var _ := rdb.Write(BigEndian(len, 8));
      AppendTwo(start, [RDB_64BITLEN], BigEndian(len, 8));
      nwritten := 1 + 8;
    }
  }

  method LoadLenByRef(rdb: Rio) returns (r: Option<LenCode>)
    modifies rdb
    ensures match ParseLen(old(rdb.buf))
            case Some((code, rest)) => r == Some(code) && rdb.buf == rest && rdb.readError == old(rdb.readError)
            case None => r == None
  {
    ghost var s := rdb.buf;
    var first := rdb.Read(1);
    if first.None? {
      return None;
    }
    var b := first.value[0];
    var kind := b / 64;
    if kind == RDB_ENCVAL {
      r := Some(LenCode(true, b % 64));
    } else if kind == RDB_6BITLEN {
      r := Some(LenCode(false, b % 64));
    } else if kind == RDB_14BITLEN {
      var low := rdb.Read(1);
      if low.None? {
        return None;
      }
      var high: int := b % 64;
      assert low.value[0] == s[1] && rdb.buf == s[2..];
      r := Some(LenCode(false, high * 256 + low.value[0]));
    } else if b == RDB_32BITLEN {
      var raw := rdb.Read(4);
      if raw.None? {
        return None;
      }
      assert raw.value == s[1..5] && rdb.buf == s[5..];
      r := Some(LenCode(false, FromBigEndian(raw.value)));
    } else if b == RDB_64BITLEN {
      var raw := rdb.Read(8);
      if raw.None? {
        return None;
      }
      assert raw.value == s[1..9] && rdb.buf == s[9..];
      r := Some(LenCode(false, FromBigEndian(raw.value)));
    } else {
      r := None;
    }
  }

  /** Folds failure into the value RDB_LENERR, as rdbLoadLen does. */
  method LoadLen(rdb: Rio) returns (len: nat)
    modifies rdb
    ensures match ParseLen(old(rdb.buf))
            case Some((code, rest)) => len == code.len && rdb.buf == rest && rdb.readError == old(rdb.readError)
            case None => len == RDB_LENERR
  {
    var code := LoadLenByRef(rdb);
    len := if code.Some? then code.value.len else RDB_LENERR;
  }

  method SaveLzfStringObject(rdb: Rio, z: Lzf, s: Bytes) returns (nwritten: nat)
    requires Fits(s)
    modifies rdb
    ensures if |s| > 4 && z.compress(s).Some? && 0 < |z.compress(s).value| <= |s| - 4
            then rdb.buf == old(rdb.buf) + EncodeLzfBlob(z.compress(s).value, |s|) &&
                 nwritten == |EncodeLzfBlob(z.compress(s).value, |s|)| > 0
            else rdb.buf == old(rdb.buf) && nwritten == 0
  {
    if |s| <= 4 {
      return 0;
    }
    var out := z.compress(s);
    if out.None? || !(0 < |out.value| <= |s| - 4) {
      return 0;
    }
    ghost var start := rdb.buf;
    var n := rdb.Write([RDB_ENCVAL * 64 + RDB_ENC_LZF]);
    nwritten := n;
    n := SaveLen(rdb, |out.value|);
    nwritten := nwritten + n;
    n := SaveLen(rdb, |s|);
    nwritten := nwritten + n;
    n := rdb.Write(out.value);
    nwritten := nwritten + n;
    AppendFour(start, [195], EncodeLen(|out.value|), EncodeLen(|s|), out.value);
  }

  method SaveRawString(rdb: Rio, z: Lzf, s: Bytes) returns (nwritten: nat)
    requires Fits(s)
    modifies rdb
    ensures rdb.buf == old(rdb.buf) + EncodeString(z, s) && nwritten == |EncodeString(z, s)|
  {
    ghost var start := rdb.buf;
    if |s| <= 11 {
      var value := String2ll(s);
      if value.Some? && EncodeInteger(value.value) != [] {
        nwritten := rdb.Write(EncodeInteger(value.value));
        return;
      }
    }
    if z.enabled && |s| > 20 {
      var n := SaveLzfStringObject(rdb, z, s);
      if n > 0 {
        return n;
      }
    }
    nwritten := SaveLen(rdb, |s|);
    if |s| > 0 {
      var n := rdb.Write(s);
      nwritten := nwritten + n;
    }
    AppendTwo(start, EncodeLen(|s|), s);
  }

  method SaveStringObject(rdb: Rio, z: Lzf, o: StringObject) returns (nwritten: nat)
    requires o.Storable()
    modifies rdb
    ensures rdb.buf == old(rdb.buf) + EncodeStringObject(z, o) && nwritten == |EncodeStringObject(z, o)|
  {
    match o
    case RawString(text) =>
      nwritten := SaveRawString(rdb, z, text);
    case IntString(v) =>
      if EncodeInteger(v) != [] {
        nwritten := rdb.Write(EncodeInteger(v));
      } else {
        ghost var start := rdb.buf;
        var text := Ll2String(v);
        Ll2StringShort(v);
        nwritten := SaveLen(rdb, |text|);
        var n := rdb.Write(text);
        nwritten := nwritten + n;
        AppendTwo(start, EncodeLen(|text|), text);
      }
  }

  method LoadIntegerObject(rdb: Rio, enctype: nat) returns (r: Option<Bytes>)
    modifies rdb
    ensures match ParseInteger(enctype, old(rdb.buf))
            case Some((text, rest)) => r == Some(text) && rdb.buf == rest && rdb.readError == old(rdb.readError)
            case None => r == None
  {
    if enctype > RDB_ENC_INT32 {
      return None;
    }
    var raw := rdb.Read(IntegerWidth(enctype));
    if raw.None? {
      return None;
    }
    r := Some(Ll2String(FromSignedLittleEndian(raw.value)));
  }

  method LoadLzfStringObject(rdb: Rio, z: Lzf) returns (r: Option<Bytes>)
    modifies rdb
    ensures match ParseLzf(z, old(rdb.buf))
            case Some((text, rest)) => r == Some(text) && rdb.buf == rest && rdb.readError == old(rdb.readError)
            case None => r == None
  {
    var clen := LoadLen(rdb);
    if clen == RDB_LENERR {
      return None;
    }
    var len := LoadLen(rdb);
    if len == RDB_LENERR {
      return None;
    }
    var data := rdb.Read(clen);
    if data.None? {
      return None;
    }
    var text := z.decompress(data.value, len);
    if text.None? || |text.value| != len {
      return None;
    }
    r := text;
  }

  method GenericLoadStringObject(rdb: Rio, z: Lzf) returns (r: Option<Bytes>)
    modifies rdb
    ensures match ParseString(z, old(rdb.buf))
            case Some((text, rest)) => r == Some(text) && rdb.buf == rest && rdb.readError == old(rdb.readError)
            case None => r == None
  {
    var code := LoadLenByRef(rdb);
    if code.None? || code.value.len == RDB_LENERR {
      return None;
    }
    var len := code.value.len;
    if code.value.isencoded {
      if len <= RDB_ENC_INT32 {
        r := LoadIntegerObject(rdb, len);
      } else if len == RDB_ENC_LZF {
        r := LoadLzfStringObject(rdb, z);
      } else {
        r := None;
      }
    } else {
      r := rdb.Read(len);
    }
  }
}
