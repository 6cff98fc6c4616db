/**
 * The padded base64 encoding of section 4 of RFC 4648 (alphabet A-Z, a-z,
 * 0-9, '+', '/', padding '='), which `get_image_content` uses to carry file
 * bytes across the process boundary, with the decoding that inverts it.
 */
module Base64 {
  import opened Wrappers

  type byte = x: int | 0 <= x < 256

  const Padding: char := '='

  /** The character of the RFC 4648 alphabet for the 6-bit value `v`. */
  function Sextet(v: int): (c: char)
    requires 0 <= v < 64
    ensures c != Padding
  {
    if v < 26 then ('A' as int + v) as char
    else if v < 52 then ('a' as int + (v - 26)) as char
    else if v < 62 then ('0' as int + (v - 52)) as char
    else if v == 62 then '+'
    else '/'
  }

  /** The 6-bit value of an alphabet character; None for any other character. */
  function SextetValue(c: char): (r: Option<int>)
    ensures r.Some? ==> 0 <= r.value < 64 && Sextet(r.value) == c
  {
    if 'A' <= c <= 'Z' then Some(c as int - 'A' as int)
    else if 'a' <= c <= 'z' then Some(c as int - 'a' as int + 26)
    else if '0' <= c <= '9' then Some(c as int - '0' as int + 52)
    else if c == '+' then Some(62)
    else if c == '/' then Some(63)
    else None
  }

  lemma SextetInverse(v: int)
    requires 0 <= v < 64
    ensures SextetValue(Sextet(v)) == Some(v)
  {
  }

  /** Three bytes as four characters. */
  function EncodeBlock(b0: byte, b1: byte, b2: byte): string
  {
    [Sextet(b0 / 4), Sextet((b0 % 4) * 16 + b1 / 16), Sextet((b1 % 16) * 4 + b2 / 64), Sextet(b2 % 64)]
  }

  /** `base64::encode`: every three bytes become four characters; a final one or two bytes are padded. */
  function Encode(b: seq<byte>): string
    decreases |b|
  {
    if |b| == 0 then ""
    else if |b| == 1 then [Sextet(b[0] / 4), Sextet((b[0] % 4) * 16), Padding, Padding]
    else if |b| == 2 then [Sextet(b[0] / 4), Sextet((b[0] % 4) * 16 + b[1] / 16), Sextet((b[1] % 16) * 4), Padding]
    else EncodeBlock(b[0], b[1], b[2]) + Encode(b[3..])
  }

  /** Every three bytes, and a final one or two, take four characters. */
  lemma {:induction false} EncodedLength(b: seq<byte>)
    ensures |Encode(b)| == 4 * ((|b| + 2) / 3)
    decreases |b|
  {
    if |b| >= 3 {
      EncodedLength(b[3..]);
      assert (|b| + 2) / 3 == (|b[3..]| + 2) / 3 + 1;
    }
  }

  /** Four alphabet characters as three bytes. */
  function DecodeBlock(c0: char, c1: char, c2: char, c3: char): Option<seq<byte>>
  {
    match (SextetValue(c0), SextetValue(c1), SextetValue(c2), SextetValue(c3))
    case (Some(v0), Some(v1), Some(v2), Some(v3)) =>
      Some([v0 * 4 + v1 / 16, (v1 % 16) * 16 + v2 / 4, (v2 % 4) * 64 + v3])
    case _ => None
  }

  /** The last group of four characters, which may end in one or two padding characters. */
  function DecodeLast(c0: char, c1: char, c2: char, c3: char): Option<seq<byte>>
  {
    if c2 == Padding && c3 == Padding then
      match (SextetValue(c0), SextetValue(c1))
      case (Some(v0), Some(v1)) => Some([v0 * 4 + v1 / 16])
      case _ => None
    else if c3 == Padding then
      match (SextetValue(c0), SextetValue(c1), SextetValue(c2))
      case (Some(v0), Some(v1), Some(v2)) => Some([v0 * 4 + v1 / 16, (v1 % 16) * 16 + v2 / 4])
      case _ => None
    else DecodeBlock(c0, c1, c2, c3)
  }

  /** Decoding of padded base64 text; None when the text is not a sequence of well-formed groups. */
  function Decode(s: string): Option<seq<byte>>
    decreases |s|
  {
    if |s| == 0 then Some([])
    else if |s| < 4 then None
    else if |s| == 4 then DecodeLast(s[0], s[1], s[2], s[3])
    else
      match DecodeBlock(s[0], s[1], s[2], s[3])
      case None => None
      case Some(head) =>
        match Decode(s[4..])
        case None => None
        case Some(tail) => Some(head + tail)
  }

  lemma BlockRoundTrip(b0: byte, b1: byte, b2: byte)
    ensures var e := EncodeBlock(b0, b1, b2); DecodeBlock(e[0], e[1], e[2], e[3]) == Some([b0, b1, b2])
  {
    var v0, v1, v2, v3 := b0 / 4, (b0 % 4) * 16 + b1 / 16, (b1 % 16) * 4 + b2 / 64, b2 % 64;
    SextetInverse(v0);
    SextetInverse(v1);
    SextetInverse(v2);
    SextetInverse(v3);
    assert v1 / 16 == b0 % 4 && v1 % 16 == b1 / 16;
    assert v2 / 4 == b1 % 16 && v2 % 4 == b2 / 64;
  }

  lemma OneByteRoundTrip(b0: byte)
    ensures Decode(Encode([b0])) == Some([b0])
  {
    var v1 := (b0 % 4) * 16;
    SextetInverse(b0 / 4);
    SextetInverse(v1);
    assert v1 / 16 == b0 % 4;
    assert Encode([b0]) == [Sextet(b0 / 4), Sextet(v1), Padding, Padding];
  }

  lemma TwoBytesRoundTrip(b0: byte, b1: byte)
    ensures Decode(Encode([b0, b1])) == Some([b0, b1])
  {
    var v1 := (b0 % 4) * 16 + b1 / 16;
    var v2 := (b1 % 16) * 4;
    SextetInverse(b0 / 4);
    SextetInverse(v1);
    SextetInverse(v2);
    assert v1 / 16 == b0 % 4 && v1 % 16 == b1 / 16;
    assert v2 / 4 == b1 % 16;
    assert Encode([b0, b1]) == [Sextet(b0 / 4), Sextet(v1), Sextet(v2), Padding];
  }

  lemma DecodeCons(e: string, rest: string, head: seq<byte>, tail: seq<byte>)
    requires |e| == 4 && |rest| > 0
    requires DecodeBlock(e[0], e[1], e[2], e[3]) == Some(head)
    requires Decode(rest) == Some(tail)
    ensures Decode(e + rest) == Some(head + tail)
  {
    var s := e + rest;
    assert s[0] == e[0] && s[1] == e[1] && s[2] == e[2] && s[3] == e[3];
    assert s[4..] == rest;
  }

  /** Three final bytes are one full group, with no padding. */
  lemma ThreeBytesRoundTrip(b0: byte, b1: byte, b2: byte)
    ensures Decode(Encode([b0, b1, b2])) == Some([b0, b1, b2])
  {
    var e := EncodeBlock(b0, b1, b2);
    assert Encode([b0, b1, b2]) == e by {
      assert [b0, b1, b2][3..] == [];
    }
    BlockRoundTrip(b0, b1, b2);
    assert e[2] != Padding && e[3] != Padding;
  }

  /** A full block in front of text that decodes: the block's three bytes come first. */
  lemma BlockThenRest(b0: byte, b1: byte, b2: byte, rest: string, tail: seq<byte>)
    requires |rest| > 0 && Decode(rest) == Some(tail)
    ensures Decode(EncodeBlock(b0, b1, b2) + rest) == Some([b0, b1, b2] + tail)
  {
    BlockRoundTrip(b0, b1, b2);
    DecodeCons(EncodeBlock(b0, b1, b2), rest, [b0, b1, b2], tail);
  }

  /** Decoding inverts encoding: the presentation layer recovers exactly the file's bytes. */
  lemma {:induction false} DecodeEncode(b: seq<byte>)
    ensures Decode(Encode(b)) == Some(b)
    decreases |b|
  {
    if |b| == 0 {
    } else if |b| == 1 {
      assert b == [b[0]];
      OneByteRoundTrip(b[0]);
    } else if |b| == 2 {
      assert b == [b[0], b[1]];
      TwoBytesRoundTrip(b[0], b[1]);
    } else if |b| == 3 {
      assert b == [b[0], b[1], b[2]];
      ThreeBytesRoundTrip(b[0], b[1], b[2]);
    } else {
      var tail := b[3..];
      DecodeEncode(tail);
      assert Encode(b) == EncodeBlock(b[0], b[1], b[2]) + Encode(tail);
      assert |Encode(tail)| > 0;
      BlockThenRest(b[0], b[1], b[2], Encode(tail), tail);
      assert [b[0], b[1], b[2]] + tail == b;
    }
  }
}
