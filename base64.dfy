/**
 * The basic Base64 encoding with padding (section 4 of RFC 4648), as
 * `java.util.Base64.getEncoder()` produces it, together with a reference
 * decoder that undoes it.
 */
module Base64 {
  import opened Wrappers

  newtype byte = x: int | 0 <= x < 256

  /** The 64-character alphabet of section 4 of RFC 4648. */
  function IndexChar(i: int): (c: char)
    requires 0 <= i < 64
  {
    if i < 26 then ('A' as int + i) as char
    else if i < 52 then ('a' as int + (i - 26)) as char
    else if i < 62 then ('0' as int + (i - 52)) as char
    else if i == 62 then '+'
    else '/'
  }

  /** The alphabet position of `c`, or -1 for a character outside the alphabet. */
  function CharIndex(c: char): (i: int)
    ensures -1 <= i < 64
    ensures 0 <= i ==> IndexChar(i) == c
  {
    if 'A' as int <= c as int <= 'Z' as int then c as int - 'A' as int
    else if 'a' as int <= c as int <= 'z' as int then c as int - 'a' as int + 26
    else if '0' as int <= c as int <= '9' as int then c as int - '0' as int + 52
    else if c == '+' then 62
    else if c == '/' then 63
    else -1
  }

  /** Every alphabet character decodes to its own position. */
  lemma IndexCharInverse(i: int)
    requires 0 <= i < 64
    ensures CharIndex(IndexChar(i)) == i
  {
  }

  predicate InAlphabet(c: char) { CharIndex(c) >= 0 }

  /** Three bytes become four characters, six bits each, most significant first. */
  function EncodeBlock(b0: byte, b1: byte, b2: byte): string
  {
    [IndexChar(b0 as int / 4),
     IndexChar((b0 as int % 4) * 16 + b1 as int / 16),
     IndexChar((b1 as int % 16) * 4 + b2 as int / 64),
     IndexChar(b2 as int % 64)]
  }

  /** A final single byte: two characters and two pad characters. */
  function EncodeOne(b0: byte): string
  {
    [IndexChar(b0 as int / 4), IndexChar((b0 as int % 4) * 16), '=', '=']
  }

  /** A final pair of bytes: three characters and one pad character. */
  function EncodeTwo(b0: byte, b1: byte): string
  {
    [IndexChar(b0 as int / 4),
     IndexChar((b0 as int % 4) * 16 + b1 as int / 16),
     IndexChar((b1 as int % 16) * 4),
     '=']
  }

  /**
   * `Base64.getEncoder().encodeToString(bytes)`. The text is a whole number
   * of four-character groups, 4 * ceil(n / 3) characters in all, drawn from
   * the alphabet and the pad character, which appears only at the end.
   */
  function Encode(bytes: seq<byte>): (r: string)
    ensures |r| == 4 * ((|bytes| + 2) / 3)
    ensures forall i :: 0 <= i < |r| ==> InAlphabet(r[i]) || (r[i] == '=' && i >= |r| - 2)
  {
    if |bytes| == 0 then ""
    else if |bytes| == 1 then EncodeOne(bytes[0])
    else if |bytes| == 2 then EncodeTwo(bytes[0], bytes[1])
    else EncodeBlock(bytes[0], bytes[1], bytes[2]) + Encode(bytes[3..])
  }

  /**
   * Decodes one four-character group; `last` allows padding. As section 3.5
   * of RFC 4648 asks, the bits of the last character that no byte uses must
   * be zero.
   */
  function DecodeGroup(g: string, last: bool): Option<seq<byte>>
    requires |g| == 4
  {
    var i0, i1, i2, i3 := CharIndex(g[0]), CharIndex(g[1]), CharIndex(g[2]), CharIndex(g[3]);
    if i0 < 0 || i1 < 0 then None
    else if last && g[2] == '=' && g[3] == '=' then
      if i1 % 16 == 0 then Some([(i0 * 4 + i1 / 16) as byte]) else None
    else if last && i2 >= 0 && g[3] == '=' then
      if i2 % 4 == 0 then Some([(i0 * 4 + i1 / 16) as byte, ((i1 % 16) * 16 + i2 / 4) as byte]) else None
    else if i2 < 0 || i3 < 0 then None
    else
      Some([(i0 * 4 + i1 / 16) as byte,
            ((i1 % 16) * 16 + i2 / 4) as byte,
            ((i2 % 4) * 64 + i3) as byte])
  }

  /** A reference decoder for padded Base64 text; `None` for malformed text. */
  function Decode(s: string): Option<seq<byte>>
    decreases |s|
  {
    if |s| == 0 then Some([])
    else if |s| < 4 then None
    else
      match DecodeGroup(s[..4], |s| == 4)
      case None => None
      case Some(head) =>
        match Decode(s[4..])
        case None => None
        case Some(tail) => Some(head + tail)
  }

  lemma BlockRoundTrip(b0: byte, b1: byte, b2: byte)
    ensures DecodeGroup(EncodeBlock(b0, b1, b2), false) == Some([b0, b1, b2])
    ensures DecodeGroup(EncodeBlock(b0, b1, b2), true) == Some([b0, b1, b2])
  {
    var x0, x1, x2 := b0 as int, b1 as int, b2 as int;
    var i0, i1, i2, i3 := x0 / 4, (x0 % 4) * 16 + x1 / 16, (x1 % 16) * 4 + x2 / 64, x2 % 64;
    IndexCharInverse(i0);
    IndexCharInverse(i1);
    IndexCharInverse(i2);
    IndexCharInverse(i3);
    assert i1 / 16 == x0 % 4 && i1 % 16 == x1 / 16;
    assert i2 / 4 == x1 % 16 && i2 % 4 == x2 / 64;
  }

  lemma OneRoundTrip(b0: byte)
    ensures DecodeGroup(EncodeOne(b0), true) == Some([b0])
  {
    var x0 := b0 as int;
    IndexCharInverse(x0 / 4);
    IndexCharInverse((x0 % 4) * 16);
  }

  lemma TwoRoundTrip(b0: byte, b1: byte)
    ensures DecodeGroup(EncodeTwo(b0, b1), true) == Some([b0, b1])
  {
    var x0, x1 := b0 as int, b1 as int;
    var i0, i1, i2 := x0 / 4, (x0 % 4) * 16 + x1 / 16, (x1 % 16) * 4;
    IndexCharInverse(i0);
    IndexCharInverse(i1);
    IndexCharInverse(i2);
    assert i1 / 16 == x0 % 4 && i1 % 16 == x1 / 16;
    assert i2 / 4 == x1 % 16;
  }

  /** A lone group is decoded with padding allowed. */
  lemma DecodeLast(g: string)
    requires |g| == 4
    ensures Decode(g) == DecodeGroup(g, true)
  {
    assert g[..4] == g && g[4..] == [];
    match DecodeGroup(g, true)
    case None =>
    case Some(head) => assert head + [] == head;
  }

  /** A group followed by more text is decoded without padding, then the rest. */
  lemma DecodeCons(g: string, rest: string, head: seq<byte>, tail: seq<byte>)
    requires |g| == 4 && |rest| > 0
    requires DecodeGroup(g, false) == Some(head) && Decode(rest) == Some(tail)
    ensures Decode(g + rest) == Some(head + tail)
  {
    assert (g + rest)[..4] == g && (g + rest)[4..] == rest;
  }

  lemma RoundTripOne(bytes: seq<byte>)
    requires |bytes| == 1
    ensures Decode(Encode(bytes)) == Some(bytes)
  {
    var g := EncodeOne(bytes[0]);
    assert Encode(bytes) == g;
    OneRoundTrip(bytes[0]);
    DecodeLast(g);
    assert [bytes[0]] == bytes;
  }

  lemma RoundTripTwo(bytes: seq<byte>)
    requires |bytes| == 2
    ensures Decode(Encode(bytes)) == Some(bytes)
  {
    var g := EncodeTwo(bytes[0], bytes[1]);
    assert Encode(bytes) == g;
    TwoRoundTrip(bytes[0], bytes[1]);
    DecodeLast(g);
    assert [bytes[0], bytes[1]] == bytes;
  }

  lemma RoundTripBlock(bytes: seq<byte>)
    requires |bytes| == 3
    ensures Decode(Encode(bytes)) == Some(bytes)
  {
    var g := EncodeBlock(bytes[0], bytes[1], bytes[2]);
    BlockRoundTrip(bytes[0], bytes[1], bytes[2]);
    assert Encode(bytes[3..]) == [];
    assert Encode(bytes) == g;
    DecodeLast(g);
    assert [bytes[0], bytes[1], bytes[2]] == bytes;
  }

  /** Encoding loses nothing: the decoder gives back the original bytes. */
  lemma {:induction false} RoundTrip(bytes: seq<byte>)
    ensures Decode(Encode(bytes)) == Some(bytes)
  {
    if |bytes| == 1 {
      RoundTripOne(bytes);
    } else if |bytes| == 2 {
      RoundTripTwo(bytes);
    } else if |bytes| == 3 {
      RoundTripBlock(bytes);
    } else if |bytes| > 3 {
      RoundTrip(bytes[3..]);
      RoundTripCons(bytes);
    }
  }

  lemma SplitBlock(bytes: seq<byte>)
    requires |bytes| >= 3
    ensures bytes == [bytes[0], bytes[1], bytes[2]] + bytes[3..]
  {
    assert bytes[..3] == [bytes[0], bytes[1], bytes[2]];
    assert bytes == bytes[..3] + bytes[3..];
  }

  /** A leading block round-trips in front of a rest that does. */
  lemma RoundTripCons(bytes: seq<byte>)
    requires |bytes| > 3
    requires Decode(Encode(bytes[3..])) == Some(bytes[3..])
    ensures Decode(Encode(bytes)) == Some(bytes)
  {
    var head := [bytes[0], bytes[1], bytes[2]];
    SplitBlock(bytes);
    var g, rest := EncodeBlock(bytes[0], bytes[1], bytes[2]), Encode(bytes[3..]);
    assert Encode(bytes) == g + rest;
    BlockRoundTrip(bytes[0], bytes[1], bytes[2]);
    DecodeCons(g, rest, head, bytes[3..]);
  }

  /** Binary values are encoded injectively. */
  lemma EncodeInjective(a: seq<byte>, b: seq<byte>)
    requires Encode(a) == Encode(b)
    ensures a == b
  {
    RoundTrip(a);
    RoundTrip(b);
  }

  /** The sextets of a group read back from the bytes they were packed into. */
  lemma Unpack(i0: int, i1: int, i2: int, i3: int)
    requires 0 <= i0 < 64 && 0 <= i1 < 64 && 0 <= i2 < 64 && 0 <= i3 < 64
    ensures var x0, x1, x2 := i0 * 4 + i1 / 16, (i1 % 16) * 16 + i2 / 4, (i2 % 4) * 64 + i3;
            x0 / 4 == i0 && (x0 % 4) * 16 + x1 / 16 == i1 && (x1 % 16) * 4 + x2 / 64 == i2 && x2 % 64 == i3
  {
  }

  /** A full group that decodes is the encoding of the three bytes it gives. */
  lemma BlockCanonical(g: string, last: bool)
    requires |g| == 4 && DecodeGroup(g, last).Some? && |DecodeGroup(g, last).value| == 3
    ensures var h := DecodeGroup(g, last).value; g == EncodeBlock(h[0], h[1], h[2])
  {
    Unpack(CharIndex(g[0]), CharIndex(g[1]), CharIndex(g[2]), CharIndex(g[3]));
  }

  /** A padded group that decodes to one byte is the encoding of that byte. */
  lemma OneCanonical(g: string)
    requires |g| == 4 && DecodeGroup(g, true).Some? && |DecodeGroup(g, true).value| == 1
    ensures g == EncodeOne(DecodeGroup(g, true).value[0])
  {
    Unpack(CharIndex(g[0]), CharIndex(g[1]), 0, 0);
  }

  /** A padded group that decodes to two bytes is the encoding of those bytes. */
  lemma TwoCanonical(g: string)
    requires |g| == 4 && DecodeGroup(g, true).Some? && |DecodeGroup(g, true).value| == 2
    ensures var h := DecodeGroup(g, true).value; g == EncodeTwo(h[0], h[1])
  {
    Unpack(CharIndex(g[0]), CharIndex(g[1]), CharIndex(g[2]), 0);
  }

  /** An unpadded group decodes to three bytes, a padded one to one, two or three. */
  lemma GroupSizes(g: string, last: bool)
    requires |g| == 4 && DecodeGroup(g, last).Some?
    ensures 1 <= |DecodeGroup(g, last).value| <= 3
    ensures !last ==> |DecodeGroup(g, last).value| == 3
  {
  }

  /**
   * The encoding is canonical: the only text that decodes to a byte array is
   * the one `Encode` writes for it, so the pad bits are zero and nothing else
   * can stand for the same bytes.
   */
  lemma {:induction false} DecodeCanonical(s: string, bytes: seq<byte>)
    requires Decode(s) == Some(bytes)
    ensures s == Encode(bytes)
    decreases |s|
  {
    if |s| == 0 {
    } else if |s| == 4 {
      DecodeLast(s);
      GroupSizes(s, true);
      if |bytes| == 1 {
        OneCanonical(s);
      } else if |bytes| == 2 {
        TwoCanonical(s);
      } else {
        BlockCanonical(s, true);
        assert bytes[3..] == [];
      }
    } else {
      var g, rest := s[..4], s[4..];
      var head := DecodeGroup(g, false).value;
      var tail := Decode(rest).value;
      assert bytes == head + tail;
      GroupSizes(g, false);
      BlockCanonical(g, false);
      DecodeCanonical(rest, tail);
      assert |tail| > 0;
      assert bytes[..3] == head && bytes[3..] == tail;
      assert s == g + rest;
    }
  }

  /** "AB==" sets pad bits, so it is not the text of any byte array. */
  lemma NonZeroPadBitsRejected()
    ensures Decode("AB==") == None
  {
    DecodeLast("AB==");
  }

  /** The three bytes 0x00 0x7F 0xFF are written as "AH//". */
  lemma ExampleBytes()
    ensures Encode([0x00, 0x7F, 0xFF]) == "AH//"
    ensures Decode("AH//") == Some([0x00, 0x7F, 0xFF])
  {
    var s: seq<byte> := [0x00, 0x7F, 0xFF];
    assert s[3..] == [];
    assert Encode(s) == EncodeBlock(0x00, 0x7F, 0xFF);
    assert EncodeBlock(0x00, 0x7F, 0xFF) == [IndexChar(0), IndexChar(7), IndexChar(63), IndexChar(63)];
    RoundTrip(s);
  }
}
