/**
 UTF-8 encoding and decoding of Unicode scalar values, as defined in sections 3
 and 4 of RFC 3629. Dafny's `char` is a Unicode scalar value (U+0000..U+D7FF and
 U+E000..U+10FFFF), so every string can be encoded; decoding rejects every byte
 sequence that is not well-formed UTF-8 (overlong forms, surrogates, values above
 U+10FFFF, stray or missing continuation bytes), as a strict decoder must.
 */
module Utf8 {
  import opened Bytes
  import opened Wrappers

  /** A continuation byte, 10xxxxxx. */
  predicate IsContinuation(b: byte) {
    0x80 <= b <= 0xBF
  }

  /** The 1 to 4 bytes of the UTF-8 form of one scalar value (RFC 3629, section 3). */
  function EncodeChar(c: char): (r: seq<byte>)
    ensures 1 <= |r| <= 4
  {
    var n := c as int;
    if n < 0x80 then
      [n]
    else if n < 0x800 then
      [0xC0 + n / 0x40, 0x80 + n % 0x40]
    else if n < 0x1_0000 then
      [0xE0 + n / 0x1000, 0x80 + n / 0x40 % 0x40, 0x80 + n % 0x40]
    else
      [0xF0 + n / 0x4_0000, 0x80 + n / 0x1000 % 0x40, 0x80 + n / 0x40 % 0x40, 0x80 + n % 0x40]
  }

  /** The UTF-8 form of a string: the concatenation of the forms of its characters. */
  function Encode(s: string): (r: seq<byte>)
    ensures |s| <= |r| <= 4 * |s|
  {
    if s == [] then [] else EncodeChar(s[0]) + Encode(s[1..])
  }

  /**
   Decodes the character at the start of `b`, together with the number of bytes
   it occupies, following the well-formed byte sequences of RFC 3629, section 4:
     00..7F
     C2..DF 80..BF
     E0 A0..BF 80..BF | E1..EC 80..BF 80..BF | ED 80..9F 80..BF | EE..EF 80..BF 80..BF
     F0 90..BF 80..BF 80..BF | F1..F3 80..BF 80..BF 80..BF | F4 80..8F 80..BF 80..BF
   Any other lead byte (80..C1, F5..FF) starts no character.
   */
  function DecodeFirst(b: seq<byte>): (r: Option<(char, nat)>)
    requires |b| > 0
    ensures r.Some? ==> 1 <= r.value.1 <= |b|
  {
    var b0 := b[0];
    if b0 < 0x80 then Some((b0 as char, 1))
    else if 0xC2 <= b0 <= 0xDF then DecodeTwo(b)
    else if 0xE0 <= b0 <= 0xEF then DecodeThree(b)
    else if 0xF0 <= b0 <= 0xF4 then DecodeFour(b)
    else None
  }

  /** A two-byte character, lead byte C2..DF. */
  function DecodeTwo(b: seq<byte>): (r: Option<(char, nat)>)
    requires |b| > 0 && 0xC2 <= b[0] <= 0xDF
    ensures r.Some? ==> r.value.1 == 2 <= |b|
  {
    if 2 <= |b| && IsContinuation(b[1]) then
      Some((((b[0] as int - 0xC0) * 0x40 + (b[1] as int - 0x80)) as char, 2))
    else None
  }

  /** A three-byte character, lead byte E0..EF; E0 excludes overlong forms, ED the surrogates. */
  function DecodeThree(b: seq<byte>): (r: Option<(char, nat)>)
    requires |b| > 0 && 0xE0 <= b[0] <= 0xEF
    ensures r.Some? ==> r.value.1 == 3 <= |b|
  {
    var lo := if b[0] == 0xE0 then 0xA0 else 0x80;
    var hi := if b[0] == 0xED then 0x9F else 0xBF;
    if 3 <= |b| && lo <= b[1] <= hi && IsContinuation(b[2]) then
      Some((((b[0] as int - 0xE0) * 0x1000 + (b[1] as int - 0x80) * 0x40 + (b[2] as int - 0x80)) as char, 3))
    else None
  }

  /** A four-byte character, lead byte F0..F4; F0 excludes overlong forms, F4 values above U+10FFFF. */
  function DecodeFour(b: seq<byte>): (r: Option<(char, nat)>)
    requires |b| > 0 && 0xF0 <= b[0] <= 0xF4
    ensures r.Some? ==> r.value.1 == 4 <= |b|
  {
    var lo := if b[0] == 0xF0 then 0x90 else 0x80;
    var hi := if b[0] == 0xF4 then 0x8F else 0xBF;
    if 4 <= |b| && lo <= b[1] <= hi && IsContinuation(b[2]) && IsContinuation(b[3]) then
      Some((((b[0] as int - 0xF0) * 0x4_0000 + (b[1] as int - 0x80) * 0x1000
             + (b[2] as int - 0x80) * 0x40 + (b[3] as int - 0x80)) as char, 4))
    else None
  }

  /** Strict decoding: `None` unless all of `b` is well-formed UTF-8. */
  function Decode(b: seq<byte>): (r: Option<string>)
    ensures r.Some? ==> |r.value| <= |b|
    decreases |b|
  {
    if b == [] then
      Some([])
    else
      match DecodeFirst(b)
      case None => None
      case Some((c, n)) =>
        match Decode(b[n..])
        case None => None
        case Some(rest) => Some([c] + rest)
  }

  /** Splitting a three-byte code point into 4 + 6 + 6 bits, and the RFC 3629 range facts about the parts. */
  lemma SplitThree(n: int)
    requires 0x800 <= n < 0x1_0000
    ensures n / 0x1000 * 0x1000 + n / 0x40 % 0x40 * 0x40 + n % 0x40 == n
    ensures n / 0x1000 < 0x10
    ensures n / 0x1000 == 0 ==> 0x20 <= n / 0x40 % 0x40
    ensures n / 0x1000 == 0xD && n < 0xD800 ==> n / 0x40 % 0x40 < 0x20
  {
    var q := n / 0x40;
    assert n == q * 0x40 + n % 0x40;
    assert q == q / 0x40 * 0x40 + q % 0x40;
    assert n / 0x1000 == q / 0x40;
  }

  /** Splitting a four-byte code point into 3 + 6 + 6 + 6 bits, and the RFC 3629 range facts about the parts. */
  lemma SplitFour(n: int)
    requires 0x1_0000 <= n < 0x11_0000
    ensures n / 0x4_0000 * 0x4_0000 + n / 0x1000 % 0x40 * 0x1000 + n / 0x40 % 0x40 * 0x40 + n % 0x40 == n
    ensures n / 0x4_0000 <= 4
    ensures n / 0x4_0000 == 0 ==> 0x10 <= n / 0x1000 % 0x40
    ensures n / 0x4_0000 == 4 ==> n / 0x1000 % 0x40 < 0x10
  {
    var q := n / 0x40;
    var q2 := q / 0x40;
    assert n == q * 0x40 + n % 0x40;
    assert q == q2 * 0x40 + q % 0x40;
    assert q2 == q2 / 0x40 * 0x40 + q2 % 0x40;
    assert n / 0x1000 == q2;
    assert n / 0x4_0000 == q2 / 0x40;
  }

  /** Joining 4 + 6 + 6 bits is undone by the three-byte split. */
  lemma JoinThree(h: int, m: int, r: int)
    requires 0 <= h < 0x10 && 0 <= m < 0x40 && 0 <= r < 0x40
    ensures var n := h * 0x1000 + m * 0x40 + r;
      n / 0x1000 == h && n / 0x40 % 0x40 == m && n % 0x40 == r
  {
    var n := h * 0x1000 + m * 0x40 + r;
    assert n / 0x40 == h * 0x40 + m;
  }

  /** Joining 3 + 6 + 6 + 6 bits is undone by the four-byte split. */
  lemma JoinFour(h: int, m2: int, m: int, r: int)
    requires 0 <= h < 0x8 && 0 <= m2 < 0x40 && 0 <= m < 0x40 && 0 <= r < 0x40
    ensures var n := h * 0x4_0000 + m2 * 0x1000 + m * 0x40 + r;
      n / 0x4_0000 == h && n / 0x1000 % 0x40 == m2 && n / 0x40 % 0x40 == m && n % 0x40 == r
  {
    var n := h * 0x4_0000 + m2 * 0x1000 + m * 0x40 + r;
    assert n / 0x40 == h * 0x1000 + m2 * 0x40 + m;
    assert n / 0x1000 == h * 0x40 + m2;
  }

  /** The form of one character, followed by anything, decodes back to that character. */
  lemma EncodeCharDecodes(c: char, rest: seq<byte>)
    ensures DecodeFirst(EncodeChar(c) + rest) == Some((c, |EncodeChar(c)|))
  {
    var n := c as int;
    if n < 0x80 {
    } else if n < 0x800 {
      EncodeTwoDecodes(c, rest);
    } else if n < 0x1_0000 {
      EncodeThreeDecodes(c, rest);
    } else {
      EncodeFourDecodes(c, rest);
    }
  }

  lemma EncodeTwoDecodes(c: char, rest: seq<byte>)
    requires 0x80 <= c as int < 0x800
    ensures DecodeFirst(EncodeChar(c) + rest) == Some((c, 2))
  {
    var n := c as int;
    var b := EncodeChar(c) + rest;
    assert b[0] == 0xC0 + n / 0x40 && b[1] == 0x80 + n % 0x40;
    assert DecodeTwo(b) == Some((c, 2));
  }

  lemma EncodeThreeDecodes(c: char, rest: seq<byte>)
    requires 0x800 <= c as int < 0x1_0000
    ensures DecodeFirst(EncodeChar(c) + rest) == Some((c, 3))
  {
    var n := c as int;
    var b := EncodeChar(c) + rest;
    SplitThree(n);
    assert b[0] == 0xE0 + n / 0x1000 && b[1] == 0x80 + n / 0x40 % 0x40 && b[2] == 0x80 + n % 0x40;
    assert DecodeThree(b) == Some((c, 3));
  }

  lemma EncodeFourDecodes(c: char, rest: seq<byte>)
    requires 0x1_0000 <= c as int
    ensures DecodeFirst(EncodeChar(c) + rest) == Some((c, 4))
  {
    var n := c as int;
    var b := EncodeChar(c) + rest;
    SplitFour(n);
    assert b[0] == 0xF0 + n / 0x4_0000 && b[1] == 0x80 + n / 0x1000 % 0x40;
    assert b[2] == 0x80 + n / 0x40 % 0x40 && b[3] == 0x80 + n % 0x40;
    assert DecodeFour(b) == Some((c, 4));
  }

  /** Whatever `DecodeFirst` accepts is exactly the encoding of the character it returns. */
  lemma DecodeFirstIsEncoding(b: seq<byte>)
    requires |b| > 0 && DecodeFirst(b).Some?
    ensures b[..DecodeFirst(b).value.1] == EncodeChar(DecodeFirst(b).value.0)
  {
    if b[0] < 0x80 {
      assert b[..1] == [b[0]];
    } else if b[0] <= 0xDF {
      DecodeTwoIsEncoding(b);
    } else if b[0] <= 0xEF {
      DecodeThreeIsEncoding(b);
    } else {
      DecodeFourIsEncoding(b);
    }
  }

  lemma DecodeTwoIsEncoding(b: seq<byte>)
    requires |b| > 0 && 0xC2 <= b[0] <= 0xDF && DecodeTwo(b).Some?
    ensures b[..2] == EncodeChar(DecodeTwo(b).value.0)
  {
    var n := DecodeTwo(b).value.0 as int;
    assert n == (b[0] as int - 0xC0) * 0x40 + (b[1] as int - 0x80);
    assert b[..2] == [b[0], b[1]];
  }

  lemma DecodeThreeIsEncoding(b: seq<byte>)
    requires |b| > 0 && 0xE0 <= b[0] <= 0xEF && DecodeThree(b).Some?
    ensures b[..3] == EncodeChar(DecodeThree(b).value.0)
  {
    var n := DecodeThree(b).value.0 as int;
    assert n == (b[0] as int - 0xE0) * 0x1000 + (b[1] as int - 0x80) * 0x40 + (b[2] as int - 0x80);
    JoinThree(b[0] as int - 0xE0, b[1] as int - 0x80, b[2] as int - 0x80);
    assert b[..3] == [b[0], b[1], b[2]];
  }

  lemma DecodeFourIsEncoding(b: seq<byte>)
    requires |b| > 0 && 0xF0 <= b[0] <= 0xF4 && DecodeFour(b).Some?
    ensures b[..4] == EncodeChar(DecodeFour(b).value.0)
  {
    var n := DecodeFour(b).value.0 as int;
    assert n == (b[0] as int - 0xF0) * 0x4_0000 + (b[1] as int - 0x80) * 0x1000
               + (b[2] as int - 0x80) * 0x40 + (b[3] as int - 0x80);
    JoinFour(b[0] as int - 0xF0, b[1] as int - 0x80, b[2] as int - 0x80, b[3] as int - 0x80);
    assert b[..4] == [b[0], b[1], b[2], b[3]];
  }

  /** Round trip: decoding the UTF-8 form of a string gives the string back. */
  lemma {:induction false} DecodeEncode(s: string)
    ensures Decode(Encode(s)) == Some(s)
  {
    if s != [] {
      var head, tail := EncodeChar(s[0]), Encode(s[1..]);
      EncodeCharDecodes(s[0], tail);
      assert (head + tail)[|head|..] == tail;
      DecodeEncode(s[1..]);
      assert [s[0]] + s[1..] == s;
    }
  }

  /** One step of a successful decoding: a first character, then a successful decoding of the rest. */
  lemma DecodeStep(b: seq<byte>)
    requires b != [] && Decode(b).Some?
    ensures DecodeFirst(b).Some?
    ensures Decode(b[DecodeFirst(b).value.1..]).Some?
    ensures Decode(b).value == [DecodeFirst(b).value.0] + Decode(b[DecodeFirst(b).value.1..]).value
  {
  }

  /** The decoder is an exact inverse: what it accepts is the UTF-8 form of what it returns. */
  lemma {:induction false} EncodeDecode(b: seq<byte>, s: string)
    requires Decode(b) == Some(s)
    ensures Encode(s) == b
    decreases |b|
  {
    if b != [] {
      DecodeStep(b);
      var c, k := DecodeFirst(b).value.0, DecodeFirst(b).value.1;
      var rest := Decode(b[k..]).value;
      assert s == [c] + rest;
      assert Encode(rest) == b[k..] by {
        EncodeDecode(b[k..], rest);
      }
      assert EncodeChar(c) == b[..k] by {
        DecodeFirstIsEncoding(b);
      }
      assert Encode(s) == EncodeChar(c) + Encode(rest) by {
        assert s[0] == c && s[1..] == rest;
      }
      assert b[..k] + b[k..] == b;
    }
  }

  /** Decoding accepts exactly the UTF-8 forms of strings. */
  lemma DecodeIsInverse(b: seq<byte>, s: string)
    ensures Decode(b) == Some(s) <==> Encode(s) == b
  {
    if Decode(b) == Some(s) {
      EncodeDecode(b, s);
    }
    if Encode(s) == b {
      DecodeEncode(s);
    }
  }

  /** Bytes below 0x80 are ASCII: they decode, one character per byte, to the same code points. */
  lemma {:induction false} DecodeAscii(b: seq<byte>)
    requires forall i :: 0 <= i < |b| ==> b[i] < 0x80
    ensures Decode(b).Some? && |Decode(b).value| == |b|
    ensures forall i :: 0 <= i < |b| ==> Decode(b).value[i] as int == b[i]
    decreases |b|
  {
    if b != [] {
      DecodeAscii(b[1..]);
    }
  }

  /** An ASCII string encodes to one byte per character, each its code point. */
  lemma {:induction false} EncodeAscii(s: string)
    requires forall i :: 0 <= i < |s| ==> s[i] < 0x80 as char
    ensures |Encode(s)| == |s|
    ensures forall i :: 0 <= i < |s| ==> Encode(s)[i] == s[i] as int
    decreases |s|
  {
    if s != [] {
      EncodeAscii(s[1..]);
    }
  }

  /** The examples of RFC 3629, section 7: "A<NOT IDENTICAL TO><ALPHA>." */
  lemma Rfc3629ExampleMath()
    ensures Encode("A\U{2262}\U{0391}.") == [0x41, 0xE2, 0x89, 0xA2, 0xCE, 0x91, 0x2E]
  {
  }

  /** ... the Korean word "hangugeo" ... */
  lemma Rfc3629ExampleKorean()
    ensures Encode("\U{D55C}\U{AD6D}\U{C5B4}") == [0xED, 0x95, 0x9C, 0xEA, 0xB5, 0xAD, 0xEC, 0x96, 0xB4]
  {
  }

  /** ... the Japanese word "nihongo" ... */
  lemma Rfc3629ExampleJapanese()
    ensures Encode("\U{65E5}\U{672C}\U{8A9E}") == [0xE6, 0x97, 0xA5, 0xE6, 0x9C, 0xAC, 0xE8, 0xAA, 0x9E]
  {
  }

  /** ... and a byte order mark followed by the Chinese character U+233B4. */
  lemma Rfc3629ExampleBom()
    ensures Encode("\U{FEFF}\U{233B4}") == [0xEF, 0xBB, 0xBF, 0xF0, 0xA3, 0x8E, 0xB4]
  {
  }
}
