/**
 Base64 encoding of octet sequences with the standard alphabet and `=` padding,
 as defined in section 4 of RFC 4648. Both sides are octets, as in Python's
 `base64` module: the encoder turns bytes into the ASCII bytes of the encoded
 text. The decoder is strict (sections 3.3 and 3.5 of RFC 4648): it accepts
 only text whose length is a multiple of 4, whose symbols are all in the
 alphabet, whose padding is one or two `=` at the very end, and whose unused
 pad bits are zero. It therefore accepts exactly the outputs of the encoder.
 */
module Base64 {
  import opened Bytes
  import opened Wrappers

  /** The padding character `=`. */
  const Pad: byte := '=' as int

  /** The 64 symbols of the alphabet: A-Z, a-z, 0-9, `+`, `/` (RFC 4648, Table 1). */
  predicate IsSymbol(c: int) {
    || 'A' as int <= c <= 'Z' as int
    || 'a' as int <= c <= 'z' as int
    || '0' as int <= c <= '9' as int
    || c == '+' as int
    || c == '/' as int
  }

  /**
   The shape of an encoded text: its length is a multiple of 4, and every position
   holds an alphabet symbol except that the last two may be `=`, with no symbol
   after a `=`.
   */
  predicate WellFormed(t: seq<int>) {
    && |t| % 4 == 0
    && (forall i :: 0 <= i < |t| ==> IsSymbol(t[i]) || (t[i] == Pad && |t| - 2 <= i))
    && (|t| >= 2 && t[|t| - 2] == Pad ==> t[|t| - 1] == Pad)
  }

  /** The length of the encoding of `n` bytes: 4 symbols per started group of 3 bytes. */
  function EncodedLength(n: nat): nat {
    4 * ((n + 2) / 3)
  }

  /** Each full group of 3 bytes adds 4 symbols. */
  lemma EncodedLengthStep(n: nat)
    requires n >= 3
    ensures EncodedLength(n) == 4 + EncodedLength(n - 3)
  {
    assert (n + 2) / 3 == (n - 3 + 2) / 3 + 1;
  }

  /** The symbol for a 6-bit value (RFC 4648, Table 1). */
  function EncodeSymbol(v: int): (c: byte)
    requires 0 <= v < 64
    ensures IsSymbol(c)
  {
    if v < 26 then 'A' as int + v
    else if v < 52 then 'a' as int + (v - 26)
    else if v < 62 then '0' as int + (v - 52)
    else if v == 62 then '+' as int
    else '/' as int
  }

  /** The 6-bit value of an alphabet symbol; `None` for any other byte, `=` included. */
  function DecodeSymbol(c: byte): (r: Option<int>)
    ensures r.Some? <==> IsSymbol(c)
    ensures r.Some? ==> 0 <= r.value < 64 && EncodeSymbol(r.value) == c
  {
    if 'A' as int <= c <= 'Z' as int then Some(c - 'A' as int)
    else if 'a' as int <= c <= 'z' as int then Some(c - 'a' as int + 26)
    else if '0' as int <= c <= '9' as int then Some(c - '0' as int + 52)
    else if c == '+' as int then Some(62)
    else if c == '/' as int then Some(63)
    else None
  }

  /** The corners of Table 1 of RFC 4648. */
  lemma AlphabetTable()
    ensures EncodeSymbol(0) == 'A' as int && EncodeSymbol(25) == 'Z' as int
    ensures EncodeSymbol(26) == 'a' as int && EncodeSymbol(51) == 'z' as int
    ensures EncodeSymbol(52) == '0' as int && EncodeSymbol(61) == '9' as int
    ensures EncodeSymbol(62) == '+' as int && EncodeSymbol(63) == '/' as int
  {
  }

  /** Each symbol stands for exactly one 6-bit value. */
  lemma DecodeEncodeSymbol(v: int)
    requires 0 <= v < 64
    ensures DecodeSymbol(EncodeSymbol(v)) == Some(v)
  {
  }

  /** Three bytes (24 bits) as four symbols of 6 bits each. */
  function EncodeGroup(b0: byte, b1: byte, b2: byte): (q: seq<byte>)
    ensures |q| == 4 && forall i :: 0 <= i < 4 ==> IsSymbol(q[i])
  {
    [ EncodeSymbol(b0 / 4),
      EncodeSymbol(b0 % 4 * 16 + b1 / 16),
      EncodeSymbol(b1 % 16 * 4 + b2 / 64),
      EncodeSymbol(b2 % 64) ]
  }

  /**
   Encodes full 3-byte groups, then a final 1 or 2 bytes padded with `==` or `=`
   (RFC 4648, section 4, cases (1) to (3)).
   */
  function Encode(b: seq<byte>): (t: seq<byte>)
    ensures |t| == EncodedLength(|b|)
    decreases |b|
  {
    if |b| == 0 then
      []
    else if |b| == 1 then
      [EncodeSymbol(b[0] / 4), EncodeSymbol(b[0] % 4 * 16), Pad, Pad]
    else if |b| == 2 then
      [EncodeSymbol(b[0] / 4), EncodeSymbol(b[0] % 4 * 16 + b[1] / 16), EncodeSymbol(b[1] % 16 * 4), Pad]
    else
      EncodedLengthStep(|b|);
      EncodeGroup(b[0], b[1], b[2]) + Encode(b[3..])
  }

  /**
   The output of the encoder has the shape of RFC 4648 Base64 text: alphabet
   symbols only, up to two `=` at the end.
   */
  lemma {:induction false} EncodeIsWellFormed(b: seq<byte>)
    ensures WellFormed(Encode(b))
    decreases |b|
  {
    if |b| == 1 {
      var t := Encode(b);
      assert t == [EncodeSymbol(b[0] / 4), EncodeSymbol(b[0] % 4 * 16), Pad, Pad];
      assert forall i | 0 <= i < 2 :: IsSymbol(t[i]);
    } else if |b| == 2 {
      var t := Encode(b);
      assert t == [EncodeSymbol(b[0] / 4), EncodeSymbol(b[0] % 4 * 16 + b[1] / 16), EncodeSymbol(b[1] % 16 * 4), Pad];
      assert forall i | 0 <= i < 3 :: IsSymbol(t[i]);
    } else if |b| >= 3 {
      EncodeIsWellFormed(b[3..]);
      GroupThenWellFormed(EncodeGroup(b[0], b[1], b[2]), Encode(b[3..]));
    }
  }

  /** Four symbols in front of well-formed text make well-formed text. */
  lemma GroupThenWellFormed(group: seq<byte>, rest: seq<byte>)
    requires |group| == 4 && forall i | 0 <= i < 4 :: IsSymbol(group[i])
    requires WellFormed(rest)
    ensures WellFormed(group + rest)
  {
    var t := group + rest;
    forall i | 0 <= i < |t| ensures IsSymbol(t[i]) || (t[i] == Pad && |t| - 2 <= i) {
      if i >= 4 {
        assert t[i] == rest[i - 4];
      }
    }
    if rest != [] {
      assert t[|t| - 2] == rest[|rest| - 2] && t[|t| - 1] == rest[|rest| - 1];
    }
  }

  /** Four alphabet symbols as three bytes. */
  function DecodeQuad(q: seq<byte>): (r: Option<seq<byte>>)
    requires |q| == 4
    ensures r.Some? ==> |r.value| == 3
  {
    match (DecodeSymbol(q[0]), DecodeSymbol(q[1]), DecodeSymbol(q[2]), DecodeSymbol(q[3]))
    case (Some(v0), Some(v1), Some(v2), Some(v3)) =>
      Some([v0 * 4 + v1 / 16, v1 % 16 * 16 + v2 / 4, v2 % 4 * 64 + v3])
    case _ => None
  }

  /**
   The last quad of a text: `xx==` carries one byte, `xxx=` two, `xxxx` three.
   The bits of the last symbol that no byte uses must be zero.
   */
  function DecodeFinalQuad(q: seq<byte>): (r: Option<seq<byte>>)
    requires |q| == 4
    ensures r.Some? ==> 1 <= |r.value| <= 3
  {
    if q[2] == Pad && q[3] == Pad then
      match (DecodeSymbol(q[0]), DecodeSymbol(q[1]))
      case (Some(v0), Some(v1)) =>
        if v1 % 16 == 0 then Some([v0 * 4 + v1 / 16]) else None
      case _ => None
    else if q[3] == Pad then
      match (DecodeSymbol(q[0]), DecodeSymbol(q[1]), DecodeSymbol(q[2]))
      case (Some(v0), Some(v1), Some(v2)) =>
        if v2 % 4 == 0 then Some([v0 * 4 + v1 / 16, v1 % 16 * 16 + v2 / 4]) else None
      case _ => None
    else
      DecodeQuad(q)
  }

  /** Strict decoding: `None` for any text that is not the encoding of some bytes. */
  function Decode(t: seq<byte>): (r: Option<seq<byte>>)
    ensures r.Some? ==> |t| % 4 == 0 && |r.value| <= 3 * (|t| / 4)
    decreases |t|
  {
    if |t| == 0 then
      Some([])
    else if |t| < 4 then
      None
    else if |t| == 4 then
      DecodeFinalQuad(t)
    else
      match DecodeQuad(t[..4])
      case None => None
      case Some(group) =>
        match Decode(t[4..])
        case None => None
        case Some(rest) => Some(group + rest)
  }

  /** Cutting 24 bits into four 6-bit values and joining them again gives the same three bytes. */
  lemma SplitGroup(b0: byte, b1: byte, b2: byte)
    ensures var v0, v1, v2, v3 := b0 / 4, b0 % 4 * 16 + b1 / 16, b1 % 16 * 4 + b2 / 64, b2 % 64;
      v0 * 4 + v1 / 16 == b0 && v1 % 16 * 16 + v2 / 4 == b1 && v2 % 4 * 64 + v3 == b2
  {
    var v1, v2 := b0 % 4 * 16 + b1 / 16, b1 % 16 * 4 + b2 / 64;
    assert v1 / 16 == b0 % 4 && v1 % 16 == b1 / 16;
    assert v2 / 4 == b1 % 16 && v2 % 4 == b2 / 64;
  }

  /** Joining four 6-bit values into 24 bits and cutting them again gives the same four values. */
  lemma JoinGroup(v0: int, v1: int, v2: int, v3: int)
    requires 0 <= v0 < 64 && 0 <= v1 < 64 && 0 <= v2 < 64 && 0 <= v3 < 64
    ensures var b0, b1, b2 := v0 * 4 + v1 / 16, v1 % 16 * 16 + v2 / 4, v2 % 4 * 64 + v3;
      b0 / 4 == v0 && b0 % 4 * 16 + b1 / 16 == v1 && b1 % 16 * 4 + b2 / 64 == v2 && b2 % 64 == v3
  {
    var b0, b1, b2 := v0 * 4 + v1 / 16, v1 % 16 * 16 + v2 / 4, v2 % 4 * 64 + v3;
    assert b0 / 4 == v0 && b0 % 4 == v1 / 16;
    assert b1 / 16 == v1 % 16 && b1 % 16 == v2 / 4;
    assert b2 / 64 == v2 % 4 && b2 % 64 == v3;
  }

  /** A full group decodes back to its three bytes. */
  lemma DecodeEncodeGroup(b0: byte, b1: byte, b2: byte)
    ensures DecodeQuad(EncodeGroup(b0, b1, b2)) == Some([b0, b1, b2])
  {
    DecodeEncodeSymbol(b0 / 4);
    DecodeEncodeSymbol(b0 % 4 * 16 + b1 / 16);
    DecodeEncodeSymbol(b1 % 16 * 4 + b2 / 64);
    DecodeEncodeSymbol(b2 % 64);
    SplitGroup(b0, b1, b2);
  }

  /** Four symbols that decode to a group are the encoding of that group. */
  lemma DecodeQuadIsEncoding(q: seq<byte>)
    requires |q| == 4 && DecodeQuad(q).Some?
    ensures var g := DecodeQuad(q).value; EncodeGroup(g[0], g[1], g[2]) == q
  {
    var v0, v1 := DecodeSymbol(q[0]).value, DecodeSymbol(q[1]).value;
    var v2, v3 := DecodeSymbol(q[2]).value, DecodeSymbol(q[3]).value;
    assert DecodeQuad(q).value == [v0 * 4 + v1 / 16, v1 % 16 * 16 + v2 / 4, v2 % 4 * 64 + v3];
    JoinGroup(v0, v1, v2, v3);
  }

  /** One final byte, encoded as `xx==`, decodes back. */
  lemma DecodeEncodeOne(b0: byte)
    ensures Decode(Encode([b0])) == Some([b0])
  {
    var q := Encode([b0]);
    var v0, v1 := b0 / 4, b0 % 4 * 16;
    assert q == [EncodeSymbol(v0), EncodeSymbol(v1), Pad, Pad];
    DecodeEncodeSymbol(v0);
    DecodeEncodeSymbol(v1);
    SplitGroup(b0, 0, 0);
    assert DecodeFinalQuad(q) == Some([b0]);
  }

  /** Two final bytes, encoded as `xxx=`, decode back. */
  lemma DecodeEncodeTwo(b0: byte, b1: byte)
    ensures Decode(Encode([b0, b1])) == Some([b0, b1])
  {
    var q := Encode([b0, b1]);
    var v0, v1, v2 := b0 / 4, b0 % 4 * 16 + b1 / 16, b1 % 16 * 4;
    assert q == [EncodeSymbol(v0), EncodeSymbol(v1), EncodeSymbol(v2), Pad];
    DecodeEncodeSymbol(v0);
    DecodeEncodeSymbol(v1);
    DecodeEncodeSymbol(v2);
    SplitGroup(b0, b1, 0);
    assert DecodeFinalQuad(q) == Some([b0, b1]);
  }

  /** Three final bytes, encoded as one unpadded quad, decode back. */
  lemma DecodeEncodeThree(b0: byte, b1: byte, b2: byte)
    ensures Decode(Encode([b0, b1, b2])) == Some([b0, b1, b2])
  {
    var group := EncodeGroup(b0, b1, b2);
    assert Encode([b0, b1, b2]) == group by {
      assert [b0, b1, b2][3..] == [];
    }
    assert DecodeQuad(group) == Some([b0, b1, b2]) by {
      DecodeEncodeGroup(b0, b1, b2);
    }
    assert group[2] != Pad && group[3] != Pad;
    assert DecodeFinalQuad(group) == DecodeQuad(group);
  }

  /** A group of three bytes decodes back to itself. */
  lemma GroupDecodes(head: seq<byte>)
    requires |head| == 3
    ensures DecodeQuad(EncodeGroup(head[0], head[1], head[2])) == Some(head)
  {
    DecodeEncodeGroup(head[0], head[1], head[2]);
    assert [head[0], head[1], head[2]] == head;
  }

  /** The encoding of a leading group followed by more bytes. */
  lemma EncodeCons(head: seq<byte>, tail: seq<byte>)
    requires |head| == 3
    ensures Encode(head + tail) == EncodeGroup(head[0], head[1], head[2]) + Encode(tail)
  {
    assert (head + tail)[..3] == head && (head + tail)[3..] == tail;
  }

  /** A leading group in front of a further encoding that decodes. */
  lemma DecodeEncodeLonger(head: seq<byte>, tail: seq<byte>)
    requires |head| == 3 && tail != [] && Decode(Encode(tail)) == Some(tail)
    ensures Decode(Encode(head + tail)) == Some(head + tail)
  {
    var group, rest := EncodeGroup(head[0], head[1], head[2]), Encode(tail);
    var t := group + rest;
    EncodeCons(head, tail);
    GroupDecodes(head);
    assert t[..4] == group && t[4..] == rest;
    assert |t| > 4;
  }

  /** Round trip: decoding the encoding of any bytes gives those bytes back. */
  lemma {:induction false} DecodeEncode(b: seq<byte>)
    ensures Decode(Encode(b)) == Some(b)
    decreases |b|
  {
    if |b| == 1 {
      assert b == [b[0]];
      DecodeEncodeOne(b[0]);
    } else if |b| == 2 {
      assert b == [b[0], b[1]];
      DecodeEncodeTwo(b[0], b[1]);
    } else if |b| == 3 {
      assert b == [b[0], b[1], b[2]];
      DecodeEncodeThree(b[0], b[1], b[2]);
    } else if |b| > 3 {
      DecodeEncode(b[3..]);
      DecodeEncodeLonger(b[..3], b[3..]);
      assert b[..3] + b[3..] == b;
    }
  }

  /** The decoder is an exact inverse: what it accepts is the encoding of what it returns. */
  lemma {:induction false} EncodeDecode(t: seq<byte>, b: seq<byte>)
    requires Decode(t) == Some(b)
    ensures Encode(b) == t
    decreases |t|
  {
    if |t| == 4 {
      FinalQuadIsEncoding(t);
    } else if |t| > 4 {
      var group := DecodeQuad(t[..4]).value;
      var rest := Decode(t[4..]).value;
      assert b == group + rest;
      DecodeQuadIsEncoding(t[..4]);
      EncodeDecode(t[4..], rest);
      assert b[3..] == rest;
      assert t == t[..4] + t[4..];
    }
  }

  /** A final quad that decodes is the encoding of the 1 to 3 bytes it decodes to. */
  lemma FinalQuadIsEncoding(q: seq<byte>)
    requires |q| == 4 && DecodeFinalQuad(q).Some?
    ensures Encode(DecodeFinalQuad(q).value) == q
  {
    if q[2] == Pad && q[3] == Pad {
      FinalOneIsEncoding(q);
    } else if q[3] == Pad {
      FinalTwoIsEncoding(q);
    } else {
      var b := DecodeFinalQuad(q).value;
      DecodeQuadIsEncoding(q);
      assert b[3..] == [];
      assert Encode(b) == EncodeGroup(b[0], b[1], b[2]) + Encode([]);
    }
  }

  lemma FinalOneIsEncoding(q: seq<byte>)
    requires |q| == 4 && q[2] == Pad && q[3] == Pad && DecodeFinalQuad(q).Some?
    ensures Encode(DecodeFinalQuad(q).value) == q
  {
    var v0, v1 := DecodeSymbol(q[0]).value, DecodeSymbol(q[1]).value;
    assert DecodeFinalQuad(q).value == [v0 * 4 + v1 / 16];
    JoinGroup(v0, v1, 0, 0);
  }

  lemma FinalTwoIsEncoding(q: seq<byte>)
    requires |q| == 4 && q[2] != Pad && q[3] == Pad && DecodeFinalQuad(q).Some?
    ensures Encode(DecodeFinalQuad(q).value) == q
  {
    var v0, v1, v2 := DecodeSymbol(q[0]).value, DecodeSymbol(q[1]).value, DecodeSymbol(q[2]).value;
    assert DecodeFinalQuad(q).value == [v0 * 4 + v1 / 16, v1 % 16 * 16 + v2 / 4];
    JoinGroup(v0, v1, v2, 0);
  }

  /** Decoding accepts exactly the encodings of byte sequences. */
  lemma DecodeIsInverse(t: seq<byte>, b: seq<byte>)
    ensures Decode(t) == Some(b) <==> Encode(b) == t
  {
    if Decode(t) == Some(b) {
      EncodeDecode(t, b);
    }
    if Encode(b) == t {
      DecodeEncode(b);
    }
  }

  /** The test vectors of RFC 4648, section 10, up to one group: "", "f", "fo", "foo". */
  lemma Rfc4648TestVectors()
    ensures Encode([]) == []
    ensures Encode([0x66]) == [0x5A, 0x67, 0x3D, 0x3D]
    ensures Encode([0x66, 0x6F]) == [0x5A, 0x6D, 0x38, 0x3D]
    ensures Encode([0x66, 0x6F, 0x6F]) == [0x5A, 0x6D, 0x39, 0x76]
  {
  }


  /** The encoding of "foo", the first group of the longer RFC 4648 vectors. */
  lemma FooGroup()
    ensures EncodeGroup(0x66, 0x6F, 0x6F) == [0x5A, 0x6D, 0x39, 0x76]
  {
    assert EncodeSymbol(25) == 0x5A && EncodeSymbol(38) == 0x6D;
    assert EncodeSymbol(61) == 0x39 && EncodeSymbol(47) == 0x76;
  }

  /** Test vector "foob" of RFC 4648, section 10. */
  lemma Rfc4648VectorFoob()
    ensures Encode([0x66, 0x6F, 0x6F, 0x62]) == [0x5A, 0x6D, 0x39, 0x76, 0x59, 0x67, 0x3D, 0x3D]
  {
    var foo: seq<byte> := [0x66, 0x6F, 0x6F];
    FooGroup();
    assert Encode([0x62]) == [0x59, 0x67, 0x3D, 0x3D];
    EncodeCons(foo, [0x62]);
    assert foo + [0x62] == [0x66, 0x6F, 0x6F, 0x62];
  }

  /** Test vector "fooba" of RFC 4648, section 10. */
  lemma Rfc4648VectorFooba()
    ensures Encode([0x66, 0x6F, 0x6F, 0x62, 0x61]) == [0x5A, 0x6D, 0x39, 0x76, 0x59, 0x6D, 0x45, 0x3D]
  {
    var foo: seq<byte> := [0x66, 0x6F, 0x6F];
    FooGroup();
    assert Encode([0x62, 0x61]) == [0x59, 0x6D, 0x45, 0x3D];
    EncodeCons(foo, [0x62, 0x61]);
    assert foo + [0x62, 0x61] == [0x66, 0x6F, 0x6F, 0x62, 0x61];
  }

  /** Test vector "foobar" of RFC 4648, section 10. */
  lemma Rfc4648VectorFoobar()
    ensures Encode([0x66, 0x6F, 0x6F, 0x62, 0x61, 0x72]) == [0x5A, 0x6D, 0x39, 0x76, 0x59, 0x6D, 0x46, 0x79]
  {
    var foo: seq<byte> := [0x66, 0x6F, 0x6F];
    FooGroup();
    assert Encode([0x62, 0x61, 0x72]) == [0x59, 0x6D, 0x46, 0x79];
    EncodeCons(foo, [0x62, 0x61, 0x72]);
    assert foo + [0x62, 0x61, 0x72] == [0x66, 0x6F, 0x6F, 0x62, 0x61, 0x72];
  }
}
