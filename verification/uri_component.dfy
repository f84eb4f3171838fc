/** `encodeURIComponent`: percent-encoding (section 2.1 of RFC 3986) of the
    UTF-8 octets of every character outside the component-safe set, with a
    decoder as its partner. Dafny characters are Unicode scalar values, so a
    string here never holds the lone surrogate that makes the JavaScript
    function throw. */
module UriComponent {
  import opened Wrappers

  type Byte = b: int | 0 <= b < 256

  /** The characters `encodeURIComponent` copies unchanged: ASCII letters,
      digits and `- _ . ! ~ * ' ( )`. */
  predicate IsUnreserved(c: char) {
    ('A' <= c <= 'Z') || ('a' <= c <= 'z') || ('0' <= c <= '9')
    || c == '-' || c == '_' || c == '.' || c == '!' || c == '~'
    || c == '*' || c == '\'' || c == '(' || c == ')'
  }

  predicate IsUpperHexDigit(c: char) {
    ('0' <= c <= '9') || ('A' <= c <= 'F')
  }

  /** A character that can appear in an encoded component. */
  predicate IsEncodedChar(c: char) {
    IsUnreserved(c) || c == '%' || IsUpperHexDigit(c)
  }

  // ----- UTF-8 -------------------------------------------------------------

  predicate IsContinuation(b: Byte) {
    0x80 <= b < 0xC0
  }

  /** The UTF-8 encoding of one scalar value. */
  function Utf8(c: char): (bs: seq<Byte>)
    ensures 1 <= |bs| <= 4
    ensures |bs| == 1 <==> c as int < 0x80
    ensures |bs| == 1 ==> bs[0] == c as int
    ensures forall i :: 1 <= i < |bs| ==> IsContinuation(bs[i])
  {
    var n := c as int;
    if n < 0x80 then [n]
    else if n < 0x800 then [0xC0 + n / 64, 0x80 + n % 64]
    else if n < 0x10000 then [0xE0 + n / 4096, 0x80 + (n / 64) % 64, 0x80 + n % 64]
    else [0xF0 + n / 262144, 0x80 + (n / 4096) % 64, 0x80 + (n / 64) % 64, 0x80 + n % 64]
  }

  /** Decodes the scalar value at the front of `bs`, with the number of
      octets it used; rejects overlong forms, surrogates and values past
      U+10FFFF. */
  function DecodeScalar(bs: seq<Byte>): Option<(char, nat)>
  {
    if |bs| == 0 then None
    else
      var b0: int := bs[0];
      if b0 < 0x80 then Some((b0 as char, 1))
      else if 0xC0 <= b0 < 0xE0 && |bs| >= 2 && IsContinuation(bs[1]) then
        var n := (b0 - 0xC0) * 64 + (bs[1] as int - 0x80);
        if n >= 0x80 then Some((n as char, 2)) else None
      else if 0xE0 <= b0 < 0xF0 && |bs| >= 3 && IsContinuation(bs[1]) && IsContinuation(bs[2]) then
        var n := (b0 - 0xE0) * 4096 + (bs[1] as int - 0x80) * 64 + (bs[2] as int - 0x80);
        if n >= 0x800 && !(0xD800 <= n < 0xE000) then Some((n as char, 3)) else None
      else if 0xF0 <= b0 < 0xF8 && |bs| >= 4
              && IsContinuation(bs[1]) && IsContinuation(bs[2]) && IsContinuation(bs[3]) then
        var n := (b0 - 0xF0) * 262144 + (bs[1] as int - 0x80) * 4096 + (bs[2] as int - 0x80) * 64 + (bs[3] as int - 0x80);
        if 0x10000 <= n < 0x110000 then Some((n as char, 4)) else None
      else None
  }

  function Utf8String(s: string): seq<Byte>
  {
    if s == [] then [] else Utf8(s[0]) + Utf8String(s[1..])
  }

  function Utf8Decode(bs: seq<Byte>): Option<string>
    decreases |bs|
  {
    if bs == [] then Some([])
    else match DecodeScalar(bs)
      case None => None
      case Some((c, k)) =>
        if 0 < k <= |bs| then
          match Utf8Decode(bs[k..])
          case None => None
          case Some(rest) => Some([c] + rest)
        else None
  }

  /** Decoding the octets of one character gives that character back and
      consumes exactly its octets. */
  lemma DecodeScalarOfUtf8(c: char, rest: seq<Byte>)
    ensures DecodeScalar(Utf8(c) + rest) == Some((c, |Utf8(c)|))
  {
    var n := c as int;
    var bs := Utf8(c) + rest;
    if n < 0x80 {
    } else if n < 0x800 {
      assert (n / 64) * 64 + n % 64 == n;
    } else if n < 0x10000 {
      assert (n / 4096) * 4096 + ((n / 64) % 64) * 64 + n % 64 == n by {
        assert n / 4096 == (n / 64) / 64;
      }
    } else {
      assert (n / 262144) * 262144 + ((n / 4096) % 64) * 4096 + ((n / 64) % 64) * 64 + n % 64 == n by {
        assert n / 4096 == (n / 64) / 64;
        assert n / 262144 == (n / 4096) / 64;
      }
    }
  }

  lemma {:induction false} Utf8RoundTrip(s: string)
    ensures Utf8Decode(Utf8String(s)) == Some(s)
  {
    if s != [] {
      var bs := Utf8String(s);
      DecodeScalarOfUtf8(s[0], Utf8String(s[1..]));
      assert bs[|Utf8(s[0])|..] == Utf8String(s[1..]);
      Utf8RoundTrip(s[1..]);
      assert [s[0]] + s[1..] == s;
    }
  }

  // ----- percent-encoding --------------------------------------------------

  function HexDigit(v: nat): (c: char)
    requires v < 16
    ensures IsUpperHexDigit(c)
  {
    if v < 10 then ('0' as int + v) as char else ('A' as int + v - 10) as char
  }

  /** The value of a hexadecimal digit, either case. */
  function HexValue(c: char): Option<nat>
  {
    if '0' <= c <= '9' then Some(c as int - '0' as int)
    else if 'A' <= c <= 'F' then Some(c as int - 'A' as int + 10)
    else if 'a' <= c <= 'f' then Some(c as int - 'a' as int + 10)
    else None
  }

  function PercentTriple(b: Byte): string
  {
    ['%', HexDigit(b / 16), HexDigit(b % 16)]
  }

  function PercentOctets(bs: seq<Byte>): (r: string)
    ensures |r| == 3 * |bs|
    ensures forall i :: 0 <= i < |r| ==> r[i] == '%' || IsUpperHexDigit(r[i])
  {
    if bs == [] then [] else PercentTriple(bs[0]) + PercentOctets(bs[1..])
  }

  function EncodeChar(c: char): (r: string)
    ensures forall i :: 0 <= i < |r| ==> IsEncodedChar(r[i])
  {
    if IsUnreserved(c) then [c] else PercentOctets(Utf8(c))
  }

  /** `encodeURIComponent(s)`: the result holds only component-safe
      characters (no `&`, `=`, `#`, `?`, `/` or space survives), never
      shrinks the input, and leaves a string of safe characters as it is. */
  function Encode(s: string): (r: string)
    ensures forall i :: 0 <= i < |r| ==> IsEncodedChar(r[i])
    ensures |r| >= |s|
    ensures (forall i :: 0 <= i < |s| ==> IsUnreserved(s[i])) ==> r == s
  {
    if s == [] then [] else EncodeChar(s[0]) + Encode(s[1..])
  }

  /** Percent-decoding to octets: `%XX` gives octet XX, any other ASCII
      character gives its own code; anything else is malformed. */
  function PercentDecode(s: string): Option<seq<Byte>>
    decreases |s|
  {
    if s == [] then Some([])
    else if s[0] == '%' then
      if |s| < 3 then None
      else match (HexValue(s[1]), HexValue(s[2]))
        case (Some(hi), Some(lo)) =>
          if hi < 16 && lo < 16 then
            match PercentDecode(s[3..])
            case None => None
            case Some(rest) => Some([hi * 16 + lo] + rest)
          else None
        case _ => None
    else if s[0] as int < 0x80 then
      match PercentDecode(s[1..])
      case None => None
      case Some(rest) => Some([s[0] as int] + rest)
    else None
  }

  /** The inverse of the encoding: percent-decoding (section 2.1 of RFC 3986)
      followed by UTF-8 decoding; None on malformed input. */
  function Decode(s: string): Option<string>
  {
    match PercentDecode(s)
    case None => None
    case Some(bs) => Utf8Decode(bs)
  }

  lemma HexRoundTrip(v: nat)
    requires v < 16
    ensures HexValue(HexDigit(v)) == Some(v)
  {
  }

  lemma {:induction false} PercentOctetsDecode(bs: seq<Byte>, rest: string, tail: seq<Byte>)
    requires PercentDecode(rest) == Some(tail)
    ensures PercentDecode(PercentOctets(bs) + rest) == Some(bs + tail)
  {
    if bs != [] {
      var b := bs[0];
      var s := PercentOctets(bs) + rest;
      HexRoundTrip(b / 16);
      HexRoundTrip(b % 16);
      assert s == PercentTriple(b) + (PercentOctets(bs[1..]) + rest);
      assert s[3..] == PercentOctets(bs[1..]) + rest;
      PercentOctetsDecode(bs[1..], rest, tail);
      assert [b] + (bs[1..] + tail) == bs + tail;
    } else {
      assert PercentOctets(bs) + rest == rest;
      assert bs + tail == tail;
    }
  }

  lemma {:induction false} PercentDecodeOfEncode(s: string)
    ensures PercentDecode(Encode(s)) == Some(Utf8String(s))
  {
    if s != [] {
      var c := s[0];
      PercentDecodeOfEncode(s[1..]);
      if IsUnreserved(c) {
        var e := Encode(s);
        assert e[1..] == Encode(s[1..]);
      } else {
        PercentOctetsDecode(Utf8(c), Encode(s[1..]), Utf8String(s[1..]));
      }
    }
  }

  /** Decoding an encoded component gives back the original string. */
  lemma EncodeRoundTrip(s: string)
    ensures Decode(Encode(s)) == Some(s)
  {
    PercentDecodeOfEncode(s);
    Utf8RoundTrip(s);
  }
}
