/** Base64 with the standard alphabet and `=` padding (section 4 of
    RFC 4648), as `base64::engine::general_purpose::STANDARD` encodes. */
module Base64 {
  import opened Wrappers
  import Utf8

  type byte = Utf8.byte

  /** The character of the alphabet that stands for the 6-bit value `v`. */
  function SextetChar(v: int): (c: char)
    requires 0 <= v < 64
    ensures c != '='
    ensures c as int < 0x80
  {
    if v < 26 then (0x41 + v) as char            // A-Z
    else if v < 52 then (0x61 + v - 26) as char  // a-z
    else if v < 62 then (0x30 + v - 52) as char  // 0-9
    else if v == 62 then '+'
    else '/'
  }

  /** The 6-bit value a character of the alphabet stands for. */
  function SextetValue(c: char): (r: Option<int>)
    ensures r.Some? ==> 0 <= r.value < 64
  {
    if 'A' <= c <= 'Z' then Some(c as int - 0x41)
    else if 'a' <= c <= 'z' then Some(c as int - 0x61 + 26)
    else if '0' <= c <= '9' then Some(c as int - 0x30 + 52)
    else if c == '+' then Some(62)
    else if c == '/' then Some(63)
    else None
  }

  lemma SextetRoundTrip(v: int)
    requires 0 <= v < 64
    ensures SextetValue(SextetChar(v)) == Some(v)
  {
  }

  /** Three bytes become four characters. */
  function EncodeGroup(b0: byte, b1: byte, b2: byte): string
  {
    var x0, x1, x2 := b0 as int, b1 as int, b2 as int;
    [SextetChar(x0 / 4), SextetChar((x0 % 4) * 16 + x1 / 16),
     SextetChar((x1 % 16) * 4 + x2 / 64), SextetChar(x2 % 64)]
  }

  /** A final single byte: two characters and two `=`. */
  function EncodeLastOne(b0: byte): string
  {
    var x0 := b0 as int;
    [SextetChar(x0 / 4), SextetChar((x0 % 4) * 16), '=', '=']
  }

  /** A final pair of bytes: three characters and one `=`. */
  function EncodeLastTwo(b0: byte, b1: byte): string
  {
    var x0, x1 := b0 as int, b1 as int;
    [SextetChar(x0 / 4), SextetChar((x0 % 4) * 16 + x1 / 16), SextetChar((x1 % 16) * 4), '=']
  }

  /** `STANDARD.encode` */
  function Encode(bs: seq<byte>): string
    decreases |bs|
  {
    if |bs| == 0 then ""
    else if |bs| == 1 then EncodeLastOne(bs[0])
    else if |bs| == 2 then EncodeLastTwo(bs[0], bs[1])
    else EncodeGroup(bs[0], bs[1], bs[2]) + Encode(bs[3..])
  }

  /** Every started group of three bytes becomes four characters. */
  lemma {:induction false} EncodeLength(bs: seq<byte>)
    ensures |Encode(bs)| == 4 * ((|bs| + 2) / 3)
    decreases |bs|
  {
    if |bs| > 2 {
      EncodeLength(bs[3..]);
      assert (|bs| - 3 + 2) / 3 + 1 == (|bs| + 2) / 3;
    }
  }

  /** A non-empty input gives at least one group of four characters. */
  lemma EncodeNonEmpty(bs: seq<byte>)
    requires |bs| > 0
    ensures |Encode(bs)| >= 4
  {
  }

  /** Four characters without padding back to three bytes. */
  function DecodeGroup(c0: char, c1: char, c2: char, c3: char): Option<seq<byte>>
  {
    match (SextetValue(c0), SextetValue(c1), SextetValue(c2), SextetValue(c3))
    case (Some(v0), Some(v1), Some(v2), Some(v3)) =>
      Some([(v0 * 4 + v1 / 16) as byte, ((v1 % 16) * 16 + v2 / 4) as byte, ((v2 % 4) * 64 + v3) as byte])
    case _ => None
  }

  /** The final four characters, which may end in one or two `=`. */
  function DecodeLastGroup(c0: char, c1: char, c2: char, c3: char): Option<seq<byte>>
  {
    if c2 == '=' && c3 == '=' then
      match (SextetValue(c0), SextetValue(c1))
      case (Some(v0), Some(v1)) => Some([(v0 * 4 + v1 / 16) as byte])
      case _ => None
    else if c3 == '=' then
      match (SextetValue(c0), SextetValue(c1), SextetValue(c2))
      case (Some(v0), Some(v1), Some(v2)) =>
        Some([(v0 * 4 + v1 / 16) as byte, ((v1 % 16) * 16 + v2 / 4) as byte])
      case _ => None
    else DecodeGroup(c0, c1, c2, c3)
  }

  /** The bytes a padded base64 string stands for; `None` when its length
      is not a multiple of four or it holds a character outside the
      alphabet (padding is accepted in the last group only). */
  function Decode(s: string): Option<seq<byte>>
    decreases |s|
  {
    if |s| == 0 then Some([])
    else if |s| < 4 then None
    else if |s| == 4 then DecodeLastGroup(s[0], s[1], s[2], s[3])
    else
      match DecodeGroup(s[0], s[1], s[2], s[3])
      case None => None
      case Some(group) =>
        match Decode(s[4..])
        case None => None
        case Some(rest) => Some(group + rest)
  }

  /** The arithmetic behind one group: the four 6-bit values of three bytes
      give the three bytes back. */
  lemma GroupArithmetic(x0: int, x1: int, x2: int)
    requires 0 <= x0 < 256 && 0 <= x1 < 256 && 0 <= x2 < 256
    ensures (x0 / 4) * 4 + ((x0 % 4) * 16 + x1 / 16) / 16 == x0
    ensures (((x0 % 4) * 16 + x1 / 16) % 16) * 16 + ((x1 % 16) * 4 + x2 / 64) / 4 == x1
    ensures (((x1 % 16) * 4 + x2 / 64) % 4) * 64 + x2 % 64 == x2
  {
    assert x1 / 16 < 16;
    assert ((x0 % 4) * 16 + x1 / 16) / 16 == x0 % 4;
    assert ((x0 % 4) * 16 + x1 / 16) % 16 == x1 / 16;
    assert x2 / 64 < 4;
    assert ((x1 % 16) * 4 + x2 / 64) / 4 == x1 % 16;
    assert ((x1 % 16) * 4 + x2 / 64) % 4 == x2 / 64;
  }

  lemma DecodeEncodeGroup(b0: byte, b1: byte, b2: byte)
    ensures DecodeGroup(EncodeGroup(b0, b1, b2)[0], EncodeGroup(b0, b1, b2)[1],
                        EncodeGroup(b0, b1, b2)[2], EncodeGroup(b0, b1, b2)[3]) == Some([b0, b1, b2])
  {
    var x0, x1, x2 := b0 as int, b1 as int, b2 as int;
    GroupArithmetic(x0, x1, x2);
    SextetRoundTrip(x0 / 4);
    SextetRoundTrip((x0 % 4) * 16 + x1 / 16);
    SextetRoundTrip((x1 % 16) * 4 + x2 / 64);
    SextetRoundTrip(x2 % 64);
  }

  lemma DecodeEncodeLastOne(b0: byte)
    ensures Decode(EncodeLastOne(b0)) == Some([b0])
  {
    var x0 := b0 as int;
    var v0, v1 := x0 / 4, (x0 % 4) * 16;
    var s := EncodeLastOne(b0);
    SextetRoundTrip(v0);
    SextetRoundTrip(v1);
    assert s[2] == '=' && s[3] == '=';
    assert v0 * 4 + v1 / 16 == x0;
    assert DecodeLastGroup(s[0], s[1], s[2], s[3]) == Some([b0]);
  }

  lemma DecodeEncodeLastTwo(b0: byte, b1: byte)
    ensures Decode(EncodeLastTwo(b0, b1)) == Some([b0, b1])
  {
    var x0, x1 := b0 as int, b1 as int;
    var v0, v1, v2 := x0 / 4, (x0 % 4) * 16 + x1 / 16, (x1 % 16) * 4;
    var s := EncodeLastTwo(b0, b1);
    GroupArithmetic(x0, x1, 0);
    SextetRoundTrip(v0);
    SextetRoundTrip(v1);
    SextetRoundTrip(v2);
    assert s[2] != '=' && s[3] == '=';
    assert DecodeLastGroup(s[0], s[1], s[2], s[3]) == Some([b0, b1]);
  }

  lemma DecodeEncodeLastThree(b0: byte, b1: byte, b2: byte)
    ensures Decode(EncodeGroup(b0, b1, b2)) == Some([b0, b1, b2])
  {
    var s := EncodeGroup(b0, b1, b2);
    DecodeEncodeGroup(b0, b1, b2);
    assert s[3] != '=';
    assert Decode(s) == DecodeLastGroup(s[0], s[1], s[2], s[3]);
  }

  lemma FirstThree<T>(xs: seq<T>)
    requires |xs| >= 3
    ensures [xs[0], xs[1], xs[2]] + xs[3..] == xs
  {
  }

  /** A full group in front of a longer input decodes on its own. */
  lemma DecodeEncodeStep(bs: seq<byte>)
    requires |bs| > 3
    requires Decode(Encode(bs[3..])) == Some(bs[3..])
    ensures Decode(Encode(bs)) == Some(bs)
  {
    var g := EncodeGroup(bs[0], bs[1], bs[2]);
    var rest := Encode(bs[3..]);
    var s := g + rest;
    EncodeNonEmpty(bs[3..]);
    assert s[0] == g[0] && s[1] == g[1] && s[2] == g[2] && s[3] == g[3];
    assert s[4..] == rest;
    DecodeEncodeGroup(bs[0], bs[1], bs[2]);
    FirstThree(bs);
  }

  /** The last one to three bytes decode from their final group. */
  lemma DecodeEncodeShort(bs: seq<byte>)
    requires 0 < |bs| <= 3
    ensures Decode(Encode(bs)) == Some(bs)
  {
    if |bs| == 3 {
      DecodeEncodeThree(bs);
    } else if |bs| == 2 {
      DecodeEncodeTwo(bs);
    } else {
      DecodeEncodeOne(bs);
    }
  }

  lemma DecodeEncodeThree(bs: seq<byte>)
    requires |bs| == 3
    ensures Decode(Encode(bs)) == Some(bs)
  {
    assert bs[3..] == [];
    assert Encode(bs) == EncodeGroup(bs[0], bs[1], bs[2]) + "";
    DecodeEncodeLastThree(bs[0], bs[1], bs[2]);
    assert [bs[0], bs[1], bs[2]] == bs;
  }

  lemma DecodeEncodeTwo(bs: seq<byte>)
    requires |bs| == 2
    ensures Decode(Encode(bs)) == Some(bs)
  {
    assert Encode(bs) == EncodeLastTwo(bs[0], bs[1]);
    DecodeEncodeLastTwo(bs[0], bs[1]);
    assert [bs[0], bs[1]] == bs;
  }

  lemma DecodeEncodeOne(bs: seq<byte>)
    requires |bs| == 1
    ensures Decode(Encode(bs)) == Some(bs)
  {
    assert Encode(bs) == EncodeLastOne(bs[0]);
    DecodeEncodeLastOne(bs[0]);
    assert [bs[0]] == bs;
  }

  /** Decoding recovers every byte string from its encoding. */
  lemma {:induction false} DecodeEncode(bs: seq<byte>)
    ensures Decode(Encode(bs)) == Some(bs)
    decreases |bs|
  {
    if |bs| > 3 {
      DecodeEncode(bs[3..]);
      DecodeEncodeStep(bs);
    } else if |bs| > 0 {
      DecodeEncodeShort(bs);
    }
  }

  lemma DropGroupKeepsRemainder(n: int)
    requires n >= 3
    ensures (n - 3) % 3 == n % 3
  {
  }

  /** How the encoding ends: with `==` after one leftover byte, with a
      single `=` after two, and with no padding when the length is a
      multiple of three. */
  lemma {:induction false} EncodePadding(bs: seq<byte>)
    requires |bs| > 0
    ensures var s := Encode(bs);
      && |s| >= 4
      && (|bs| % 3 == 1 ==> s[|s| - 2] == '=' && s[|s| - 1] == '=')
      && (|bs| % 3 == 2 ==> s[|s| - 2] != '=' && s[|s| - 1] == '=')
      && (|bs| % 3 == 0 ==> s[|s| - 1] != '=')
    decreases |bs|
  {
    var s := Encode(bs);
    EncodeNonEmpty(bs);
    if |bs| > 3 {
      var tail := Encode(bs[3..]);
      EncodePadding(bs[3..]);
      assert s == EncodeGroup(bs[0], bs[1], bs[2]) + tail;
      assert s[|s| - 1] == tail[|tail| - 1] && s[|s| - 2] == tail[|tail| - 2];
      DropGroupKeepsRemainder(|bs|);
    } else if |bs| == 3 {
      assert s == EncodeGroup(bs[0], bs[1], bs[2]) + "";
    }
  }

  /** One leftover byte: the encoding ends with `==`. */
  lemma EncodeEndsWithDouble(bs: seq<byte>)
    requires |bs| % 3 == 1
    ensures |Encode(bs)| >= 2 && Encode(bs)[|Encode(bs)| - 2..] == "=="
  {
    EncodePadding(bs);
    var s := Encode(bs);
    assert s[|s| - 2..] == [s[|s| - 2], s[|s| - 1]];
  }

  /** Two leftover bytes: the encoding ends with a single `=`. */
  lemma EncodeEndsWithSingle(bs: seq<byte>)
    requires |bs| % 3 == 2
    ensures |Encode(bs)| >= 1 && Encode(bs)[|Encode(bs)| - 1..] == "="
  {
    EncodePadding(bs);
    var s := Encode(bs);
    assert s[|s| - 1..] == [s[|s| - 1]];
  }
}
