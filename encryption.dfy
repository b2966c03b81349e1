/**
 The `Encryption` service object of encryption.py. It is configured once with an
 algorithm name. In mode "base64" it turns a string into the Base64 text of its
 UTF-8 bytes and back; in every other mode both directions return their argument.
 Signing is the identity and verification is equality, exactly as in encryption.py:
 no key is used and no hash is computed.
 */
module Encryption {
  import opened Bytes
  import opened Wrappers
  import Utf8
  import Base64

  /** The one mode that transforms its input. */
  const Base64Mode: string := "base64"

  /** The message of the single error `decrypt` raises. */
  const InvalidBase64Message: string := "Invalid base64 data"

  /** Python's `ValueError`, the only exception `decrypt` lets out. */
  datatype Error = ValueError(message: string)

  /** A value, or the exception raised instead of returning one. */
  datatype Result<T> = Ok(value: T) | Err(error: Error)

  /** The code points of a string, one integer per character. */
  function Codes(s: string): (r: seq<int>)
    ensures |r| == |s| && forall i :: 0 <= i < |s| ==> r[i] == s[i] as int
  {
    seq(|s|, i requires 0 <= i < |s| => s[i] as int)
  }

  /** A string is determined by its code points. */
  lemma CodesInjective(a: string, b: string)
    requires Codes(a) == Codes(b)
    ensures a == b
  {
    assert |a| == |b|;
    forall i | 0 <= i < |a| ensures a[i] == b[i] {
      assert Codes(a)[i] == Codes(b)[i];
    }
  }

  /** Text made only of Base64 alphabet symbols and trailing `=` padding (RFC 4648, section 4). */
  predicate IsBase64Text(s: string) {
    Base64.WellFormed(Codes(s))
  }

  class Encryption {
    /** The mode chosen at construction; never reassigned. */
    const algorithm: string
    /** Set to the empty string at construction and never read or reassigned. */
    const secretKey: string

    constructor (algorithm: string)
      ensures this.algorithm == algorithm && secretKey == ""
    {
      this.algorithm := algorithm;
      secretKey := "";
    }

    /**
     In mode "base64", the UTF-8 bytes of `data` in Base64, read back as text
     (`b64encode(data.encode()).decode()`); otherwise `data` itself.
     */
    function Encrypt(data: string): (r: string)
      ensures algorithm != Base64Mode ==> r == data
      ensures algorithm == Base64Mode ==>
        && IsBase64Text(r)
        && |r| == Base64.EncodedLength(|Utf8.Encode(data)|)
        && Codes(r) == Base64.Encode(Utf8.Encode(data))
        && Utf8.Encode(r) == Base64.Encode(Utf8.Encode(data))
    {
      if algorithm == Base64Mode then
        var token := Base64.Encode(Utf8.Encode(data));
        assert Base64.WellFormed(token) by {
          Base64.EncodeIsWellFormed(Utf8.Encode(data));
        }
        assert Utf8.Decode(token).Some? && Codes(Utf8.Decode(token).value) == token by {
          TokenIsAscii(token);
          Utf8.DecodeAscii(token);
        }
        var text := Utf8.Decode(token).value;
        assert Utf8.Encode(text) == token by {
          Utf8.EncodeDecode(token, text);
        }
        text
      else
        data
    }

    /**
     In mode "base64", the string whose UTF-8 bytes are the Base64 decoding of the
     UTF-8 bytes of `data` (`b64decode(data.encode()).decode()`); any failure of
     either decoder becomes `ValueError("Invalid base64 data")`. Otherwise `data`.
     */
    function Decrypt(data: string): (r: Result<string>)
      ensures algorithm != Base64Mode ==> r == Ok(data)
      ensures r.Err? ==> r.error == ValueError(InvalidBase64Message)
      ensures algorithm == Base64Mode && r.Ok? ==> Encrypt(r.value) == data
    {
      if algorithm == Base64Mode then
        match Base64.Decode(Utf8.Encode(data))
        case None => Err(ValueError(InvalidBase64Message))
        case Some(bytes) =>
          match Utf8.Decode(bytes)
          case None => Err(ValueError(InvalidBase64Message))
          case Some(text) =>
            DecryptedTextEncrypts(data, bytes, text);
            Ok(text)
      else
        Ok(data)
    }

    /** Signing returns its argument unchanged. */
    function Sign<T>(data: T): (r: T)
      ensures r == data
    {
      data
    }

    /** A signature is valid exactly when it equals the data. */
    predicate Verify<T(==)>(data: T, signature: T)
      ensures Verify(data, signature) <==> data == signature
    {
      data == signature
    }

    /** The two decoding steps of `Decrypt`, when both succeed, undo `Encrypt`. */
    lemma DecryptedTextEncrypts(data: string, bytes: seq<byte>, text: string)
      requires algorithm == Base64Mode
      requires Base64.Decode(Utf8.Encode(data)) == Some(bytes)
      requires Utf8.Decode(bytes) == Some(text)
      ensures Encrypt(text) == data
    {
      var e := Encrypt(text);
      Utf8.EncodeDecode(bytes, text);
      Base64.EncodeDecode(Utf8.Encode(data), bytes);
      assert Utf8.Encode(e) == Utf8.Encode(data);
      Utf8.DecodeIsInverse(Utf8.Encode(data), e);
      Utf8.DecodeIsInverse(Utf8.Encode(data), data);
    }
  }

  /** Round trip: in mode "base64", decrypting what was encrypted gives back the original string. */
  lemma RoundTrip(e: Encryption, s: string)
    requires e.algorithm == Base64Mode
    ensures e.Decrypt(e.Encrypt(s)) == Ok(s)
  {
    var t := e.Encrypt(s);
    var token := Base64.Encode(Utf8.Encode(s));
    Utf8.DecodeIsInverse(Utf8.Encode(t), t);
    assert Utf8.Encode(t) == token;
    Base64.DecodeEncode(Utf8.Encode(s));
    Utf8.DecodeEncode(s);
  }

  /**
   In mode "base64", `Decrypt` is the exact inverse of `Encrypt`: it returns `s`
   for `t` precisely when `t` is the encryption of `s`.
   */
  lemma DecryptInvertsEncrypt(e: Encryption, t: string, s: string)
    requires e.algorithm == Base64Mode
    ensures e.Decrypt(t) == Ok(s) <==> e.Encrypt(s) == t
  {
    if e.Encrypt(s) == t {
      RoundTrip(e, s);
    }
  }

  /** In mode "base64", different strings never encrypt to the same text. */
  lemma EncryptInjective(e: Encryption, a: string, b: string)
    requires e.algorithm == Base64Mode && e.Encrypt(a) == e.Encrypt(b)
    ensures a == b
  {
    RoundTrip(e, a);
    RoundTrip(e, b);
  }

  /**
   In mode "base64", `Decrypt` raises its error exactly for the texts that are
   the encryption of no string at all.
   */
  lemma DecryptFailsOffTheImage(e: Encryption, t: string)
    requires e.algorithm == Base64Mode
    ensures e.Decrypt(t).Err? <==> forall s :: e.Encrypt(s) != t
  {
    if e.Decrypt(t).Ok? {
      DecryptInvertsEncrypt(e, t, e.Decrypt(t).value);
    }
    forall s | e.Encrypt(s) == t ensures e.Decrypt(t).Ok? {
      RoundTrip(e, s);
    }
  }

  /** A signature made by `Sign` is always accepted by `Verify`. */
  lemma VerifyAcceptsSigned<T>(e: Encryption, data: T)
    ensures e.Verify(data, e.Sign(data))
  {
  }

  /** Any signature other than the data itself is rejected. */
  lemma VerifyRejectsOthers<T>(e: Encryption, data: T, signature: T)
    requires signature != data
    ensures !e.Verify(data, signature)
  {
  }

  /** Base64 text is ASCII. */
  lemma TokenIsAscii(token: seq<byte>)
    requires Base64.WellFormed(token)
    ensures forall i :: 0 <= i < |token| ==> token[i] < 0x80
  {
    forall i | 0 <= i < |token| ensures token[i] < 0x80 {
      assert Base64.IsSymbol(token[i]) || token[i] == Base64.Pad;
    }
  }
}
