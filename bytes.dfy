/**
 * Byte strings and the text encodings that `str.encode` applies to them.
 * A Dafny `char` is a Unicode scalar value, so UTF-8 encoding is total here.
 */
module Bytes {
  import opened Wrappers

  newtype byte = x: int | 0 <= x < 256

  type Bytes = seq<byte>

  /** The codecs a `Response` may be asked to encode its content with. */
  datatype Codec = Utf8 | Latin1 | AsciiCodec

  /** The error `str.encode` raises for a character the codec cannot represent. */
  datatype EncodeError = UnicodeEncodeError(position: nat)

  predicate IsAscii(s: string) {
    forall i :: 0 <= i < |s| ==> (s[i] as int) < 128
  }

  /**
   * The bytes of a Python `b"..."` literal written with the text `s`.
   * Byte literals only admit ASCII characters, and every use below is one.
   */
  function Ascii(s: string): (b: Bytes)
    ensures |b| == |s|
    ensures forall i :: 0 <= i < |s| ==> b[i] as int == (s[i] as int) % 256
  {
    seq(|s|, i requires 0 <= i < |s| => ((s[i] as int) % 256) as byte)
  }

  lemma AsciiConcat(a: string, b: string)
    ensures Ascii(a + b) == Ascii(a) + Ascii(b)
  {
    assert forall i :: 0 <= i < |a + b| ==> Ascii(a + b)[i] == (Ascii(a) + Ascii(b))[i];
  }

  /** The UTF-8 encoding of one scalar value (section 3 of RFC 3629). */
  function EncodeChar(c: char): (b: Bytes)
    ensures 1 <= |b| <= 4
  {
    var n := c as int;
    if n < 0x80 then [n as byte]
    else if n < 0x800 then [(0xC0 + n / 64) as byte, (0x80 + n % 64) as byte]
    else if n < 0x1_0000 then
      [(0xE0 + n / 4096) as byte, (0x80 + (n / 64) % 64) as byte, (0x80 + n % 64) as byte]
    else
      [(0xF0 + n / 262144) as byte, (0x80 + (n / 4096) % 64) as byte,
       (0x80 + (n / 64) % 64) as byte, (0x80 + n % 64) as byte]
  }

  /** `s.encode("utf-8")`. */
  function EncodeUtf8(s: string): (b: Bytes)
    ensures |s| <= |b| <= 4 * |s|
  {
    if s == [] then [] else EncodeChar(s[0]) + EncodeUtf8(s[1..])
  }

  /** Whether `x` is a UTF-8 continuation byte, and its six payload bits. */
  predicate IsCont(x: byte) { 0x80 <= x < 0xC0 }

  function Payload(x: byte): int requires IsCont(x) { x as int - 0x80 }

  predicate IsScalar(n: int) { 0 <= n < 0xD800 || 0xE000 <= n < 0x11_0000 }

  /**
   * Decodes the first scalar value of `b`, giving it and the number of
   * bytes it took. Rejects bad continuation bytes, overlong forms,
   * surrogates and values above U+10FFFF.
   */
  function DecodeChar(b: Bytes): (r: Option<(char, nat)>)
    ensures r.Some? ==> 1 <= r.value.1 <= |b| && r.value.1 <= 4
  {
    if b == [] then None
    else if b[0] < 0x80 then Some((b[0] as int as char, 1))
    else if 0xC0 <= b[0] < 0xE0 && |b| >= 2 && IsCont(b[1]) then
      var n := (b[0] as int - 0xC0) * 64 + Payload(b[1]);
      if 0x80 <= n then Some((n as char, 2)) else None
    else if 0xE0 <= b[0] < 0xF0 && |b| >= 3 && IsCont(b[1]) && IsCont(b[2]) then
      var n := (b[0] as int - 0xE0) * 4096 + Payload(b[1]) * 64 + Payload(b[2]);
      if 0x800 <= n && IsScalar(n) then Some((n as char, 3)) else None
    else if 0xF0 <= b[0] < 0xF8 && |b| >= 4 && IsCont(b[1]) && IsCont(b[2]) && IsCont(b[3]) then
      var n := (b[0] as int - 0xF0) * 262144 + Payload(b[1]) * 4096 + Payload(b[2]) * 64 + Payload(b[3]);
      if 0x1_0000 <= n && IsScalar(n) then Some((n as char, 4)) else None
    else None
  }

  /** `b.decode("utf-8")`, `None` where Python raises `UnicodeDecodeError`. */
  function DecodeUtf8(b: Bytes): Option<string>
    decreases |b|
  {
    if b == [] then Some("")
    else match DecodeChar(b)
      case None => None
      case Some((c, k)) =>
        match DecodeUtf8(b[k..])
        case None => None
        case Some(s) => Some([c] + s)
  }

  lemma DecodeEncode2(n: int, b: Bytes)
    requires 0x80 <= n < 0x800 && |b| >= 2
    requires b[0] as int == 0xC0 + n / 64 && b[1] as int == 0x80 + n % 64
    ensures 0xC0 <= b[0] < 0xE0 && IsCont(b[1])
    ensures (b[0] as int - 0xC0) * 64 + Payload(b[1]) == n
  {
  }

  lemma DecodeEncode3(n: int, b: Bytes)
    requires 0x800 <= n < 0x1_0000 && |b| >= 3
    requires b[0] as int == 0xE0 + n / 4096
    requires b[1] as int == 0x80 + (n / 64) % 64 && b[2] as int == 0x80 + n % 64
    ensures 0xE0 <= b[0] < 0xF0 && IsCont(b[1]) && IsCont(b[2])
    ensures (b[0] as int - 0xE0) * 4096 + Payload(b[1]) * 64 + Payload(b[2]) == n
  {
    assert n / 4096 * 64 + (n / 64) % 64 == n / 64;
  }

  lemma DecodeEncode4(n: int, b: Bytes)
    requires 0x1_0000 <= n < 0x11_0000 && |b| >= 4
    requires b[0] as int == 0xF0 + n / 262144
    requires b[1] as int == 0x80 + (n / 4096) % 64
    requires b[2] as int == 0x80 + (n / 64) % 64 && b[3] as int == 0x80 + n % 64
    ensures 0xF0 <= b[0] < 0xF8 && IsCont(b[1]) && IsCont(b[2]) && IsCont(b[3])
    ensures (b[0] as int - 0xF0) * 262144 + Payload(b[1]) * 4096 + Payload(b[2]) * 64 + Payload(b[3]) == n
  {
    assert n / 262144 * 64 + (n / 4096) % 64 == n / 4096;
    assert n / 4096 * 64 + (n / 64) % 64 == n / 64;
  }

  lemma DecodeEncodeChar(c: char, rest: Bytes)
    ensures DecodeChar(EncodeChar(c) + rest) == Some((c, |EncodeChar(c)|))
  {
    var n := c as int;
    var b := EncodeChar(c) + rest;
    if n < 0x80 {
    } else if n < 0x800 {
      DecodeEncode2(n, b);
    } else if n < 0x1_0000 {
      DecodeEncode3(n, b);
    } else {
      DecodeEncode4(n, b);
    }
  }

  /** UTF-8 decoding inverts UTF-8 encoding. */
  lemma {:induction false} DecodeEncodeUtf8(s: string)
    ensures DecodeUtf8(EncodeUtf8(s)) == Some(s)
    decreases |s|
  {
    if s != [] {
      var e := EncodeChar(s[0]);
      var rest := EncodeUtf8(s[1..]);
      DecodeEncodeChar(s[0], rest);
      assert (e + rest)[|e|..] == rest;
      DecodeEncodeUtf8(s[1..]);
      assert [s[0]] + s[1..] == s;
    }
  }

  /** ASCII text has the same bytes under UTF-8 as under a bytes literal. */
  lemma {:induction false} EncodeUtf8Ascii(s: string)
    requires IsAscii(s)
    ensures EncodeUtf8(s) == Ascii(s)
    decreases |s|
  {
    if s != [] {
      EncodeUtf8Ascii(s[1..]);
      assert s == [s[0]] + s[1..];
      AsciiConcat([s[0]], s[1..]);
    }
  }

  /** Encodes with a single-byte codec whose characters are those below `limit`. */
  function EncodeBelow(s: string, limit: int, from: nat): (r: Result<Bytes, EncodeError>)
    requires limit <= 256
    ensures r.Success? ==> |r.value| == |s| && forall i :: 0 <= i < |s| ==> r.value[i] as int == s[i] as int
    ensures r.Success? <==> forall i :: 0 <= i < |s| ==> (s[i] as int) < limit
    ensures r.Failure? ==> from <= r.error.position < from + |s| && (s[r.error.position - from] as int) >= limit
    decreases |s|
  {
    if s == [] then Success([])
    else if (s[0] as int) >= limit then Failure(UnicodeEncodeError(from))
    else match EncodeBelow(s[1..], limit, from + 1)
      case Failure(e) => Failure(e)
      case Success(t) => Success([(s[0] as int) as byte] + t)
  }

  /** `s.encode(codec)`: UTF-8 never fails; Latin-1 and ASCII fail on the first character they lack. */
  function Encode(s: string, codec: Codec): (r: Result<Bytes, EncodeError>)
  {
    match codec
    case Utf8 => Success(EncodeUtf8(s))
    case Latin1 => EncodeBelow(s, 256, 0)
    case AsciiCodec => EncodeBelow(s, 128, 0)
  }

  /** Every codec agrees with UTF-8 on ASCII text, and none fails on it. */
  lemma EncodeAsciiAgrees(s: string, codec: Codec)
    requires IsAscii(s)
    ensures Encode(s, codec) == Success(Ascii(s))
  {
    match codec
    case Utf8 => EncodeUtf8Ascii(s);
    case Latin1 => assert Encode(s, codec).value == Ascii(s);
    case AsciiCodec => assert Encode(s, codec).value == Ascii(s);
  }
}
