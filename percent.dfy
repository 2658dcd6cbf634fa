/** Percent-encoding as the `urlencoding` crate's `encode` does it: each
    byte of the text's UTF-8 form is kept when it is an unreserved character
    of section 2.3 of RFC 3986 (letters, digits, `-`, `.`, `_`, `~`) and is
    otherwise written `%XY` with upper-case hexadecimal digits (section 2.1
    of RFC 3986). */
module PercentEncoding {
  import opened Wrappers
  import Utf8

  type byte = Utf8.byte

  predicate Unreserved(b: byte)
  {
    || (0x30 <= b <= 0x39)   // 0-9
    || (0x41 <= b <= 0x5A)   // A-Z
    || (0x61 <= b <= 0x7A)   // a-z
    || b == 0x2D || b == 0x2E || b == 0x5F || b == 0x7E   // - . _ ~
  }

  /** The upper-case hexadecimal digit for `d`. */
  function HexDigit(d: int): (c: char)
    requires 0 <= d < 16
    ensures c in "0123456789ABCDEF"
  {
    if d < 10 then (0x30 + d) as char else (0x41 + d - 10) as char
  }

  /** The value of a hexadecimal digit of either case. */
  function HexValue(c: char): (r: Option<int>)
    ensures r.Some? ==> 0 <= r.value < 16
  {
    if '0' <= c <= '9' then Some(c as int - 0x30)
    else if 'A' <= c <= 'F' then Some(c as int - 0x41 + 10)
    else if 'a' <= c <= 'f' then Some(c as int - 0x61 + 10)
    else None
  }

  function EncodeByte(b: byte): string
  {
    if Unreserved(b) then [b as int as char]
    else ['%', HexDigit(b as int / 16), HexDigit(b as int % 16)]
  }

  function EncodeBytes(bs: seq<byte>): string
    decreases |bs|
  {
    if bs == [] then "" else EncodeByte(bs[0]) + EncodeBytes(bs[1..])
  }

  /** `urlencoding::encode` */
  function Encode(s: string): string
  {
    EncodeBytes(Utf8.Encode(s))
  }

  /** The bytes a percent-encoded string stands for: `%XY` is the byte with
      hexadecimal value `XY`, any other ASCII character is its own byte. */
  function Decode(s: string): Option<seq<byte>>
    decreases |s|
  {
    if s == [] then Some([])
    else if s[0] == '%' then
      if |s| < 3 then None
      else
        match (HexValue(s[1]), HexValue(s[2]))
        case (Some(hi), Some(lo)) =>
          (match Decode(s[3..])
           case None => None
           case Some(rest) => Some([(hi * 16 + lo) as byte] + rest))
        case _ => None
    else if s[0] as int < 0x80 then
      match Decode(s[1..])
      case None => None
      case Some(rest) => Some([s[0] as int as byte] + rest)
    else None
  }

  lemma HexDigitValue(d: int)
    requires 0 <= d < 16
    ensures HexValue(HexDigit(d)) == Some(d)
  {
  }

  /** Decoding reads one encoded byte off the front and goes on with the rest. */
  lemma DecodeEncodeByte(b: byte, tail: string)
    ensures Decode(EncodeByte(b) + tail) ==
      match Decode(tail)
      case None => None
      case Some(rest) => Some([b] + rest)
  {
    var s := EncodeByte(b) + tail;
    if Unreserved(b) {
      assert s[0] == b as int as char && s[1..] == tail;
    } else {
      var hi, lo := b as int / 16, b as int % 16;
      HexDigitValue(hi);
      HexDigitValue(lo);
      assert s[0] == '%' && s[1] == HexDigit(hi) && s[2] == HexDigit(lo) && s[3..] == tail;
      assert (hi * 16 + lo) as byte == b;
    }
  }

  /** Decoding recovers every byte string from its encoding. */
  lemma {:induction false} DecodeEncodeBytes(bs: seq<byte>)
    ensures Decode(EncodeBytes(bs)) == Some(bs)
    decreases |bs|
  {
    if bs != [] {
      DecodeEncodeBytes(bs[1..]);
      DecodeEncodeByte(bs[0], EncodeBytes(bs[1..]));
      assert [bs[0]] + bs[1..] == bs;
    }
  }

  /** A character that may stand unescaped in a URL query value. */
  predicate QuerySafe(c: char)
  {
    || ('0' <= c <= '9') || ('A' <= c <= 'Z') || ('a' <= c <= 'z')
    || c == '-' || c == '.' || c == '_' || c == '~' || c == '%'
  }

  lemma EncodeByteQuerySafe(b: byte)
    ensures forall i :: 0 <= i < |EncodeByte(b)| ==> QuerySafe(EncodeByte(b)[i])
  {
  }

  /** Every character of an encoding is unreserved or part of a `%XY`
      escape, so the result never contains a reserved character such as
      `=`, `&` or `#`. */
  lemma {:induction false} EncodedIsQuerySafe(bs: seq<byte>)
    ensures forall i :: 0 <= i < |EncodeBytes(bs)| ==> QuerySafe(EncodeBytes(bs)[i])
    decreases |bs|
  {
    if bs != [] {
      EncodedIsQuerySafe(bs[1..]);
      EncodeByteQuerySafe(bs[0]);
      var e, rest := EncodeByte(bs[0]), EncodeBytes(bs[1..]);
      assert EncodeBytes(bs) == e + rest;
      forall i | 0 <= i < |e + rest|
        ensures QuerySafe((e + rest)[i])
      {
        if i >= |e| {
          assert (e + rest)[i] == rest[i - |e|];
        }
      }
    }
  }

  /** The padding character of base64 is escaped as `%3D`. */
  lemma EncodePaddingChar()
    ensures Encode("=") == "%3D"
  {
    assert Utf8.Encode("=") == [0x3D];
  }

  /** Encoding distributes over concatenation. */
  lemma {:induction false} EncodeBytesAppend(a: seq<byte>, b: seq<byte>)
    ensures EncodeBytes(a + b) == EncodeBytes(a) + EncodeBytes(b)
    decreases |a|
  {
    if a != [] {
      assert (a + b)[0] == a[0] && (a + b)[1..] == a[1..] + b;
      EncodeBytesAppend(a[1..], b);
    } else {
      assert a + b == b;
    }
  }
}
