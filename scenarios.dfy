/**
 Worked cases for the service as it is configured by the HTTP front end
 (`Encryption(algorithm="base64")`): the strings "John Doe" and "30" with their
 encryptions, and one text rejected by each of the two decoders.
 */
module Scenarios {
  import opened Encryption
  import Base64
  import Utf8
  import opened Wrappers

  lemma JohnDoeBytes()
    ensures Utf8.Encode("John Doe") == [0x4A, 0x6F, 0x68, 0x6E, 0x20, 0x44, 0x6F, 0x65]
  {
    Utf8.EncodeAscii("John Doe");
  }

  lemma JohnDoeGroups()
    ensures Base64.EncodeGroup(0x4A, 0x6F, 0x68) == [0x53, 0x6D, 0x39, 0x6F]
    ensures Base64.EncodeGroup(0x6E, 0x20, 0x44) == [0x62, 0x69, 0x42, 0x45]
    ensures Base64.Encode([0x6F, 0x65]) == [0x62, 0x32, 0x55, 0x3D]
  {
  }

  lemma JohnDoeToken()
    ensures Base64.Encode([0x4A, 0x6F, 0x68, 0x6E, 0x20, 0x44, 0x6F, 0x65])
         == [0x53, 0x6D, 0x39, 0x6F, 0x62, 0x69, 0x42, 0x45, 0x62, 0x32, 0x55, 0x3D]
  {
    JohnDoeGroups();
    var b: seq<Bytes.byte> := [0x4A, 0x6F, 0x68, 0x6E, 0x20, 0x44, 0x6F, 0x65];
    assert b[3..][3..] == [0x6F, 0x65];
    assert Base64.Encode(b[3..]) == [0x62, 0x69, 0x42, 0x45] + [0x62, 0x32, 0x55, 0x3D];
  }

  lemma JohnDoeText()
    ensures Codes("Sm9obiBEb2U=") == [0x53, 0x6D, 0x39, 0x6F, 0x62, 0x69, 0x42, 0x45, 0x62, 0x32, 0x55, 0x3D]
  {
  }

  lemma ThirtyBytes()
    ensures Utf8.Encode("30") == [0x33, 0x30]
    ensures Base64.Encode([0x33, 0x30]) == [0x4D, 0x7A, 0x41, 0x3D]
    ensures Codes("MzA=") == [0x4D, 0x7A, 0x41, 0x3D]
  {
    Utf8.EncodeAscii("30");
  }

  /** "John Doe" encrypts to "Sm9obiBEb2U=" and "30" to "MzA=", and both decrypt back. */
  lemma UsageExample(e: Encryption)
    requires e.algorithm == Base64Mode
    ensures e.Encrypt("John Doe") == "Sm9obiBEb2U=" && e.Decrypt("Sm9obiBEb2U=") == Ok("John Doe")
    ensures e.Encrypt("30") == "MzA=" && e.Decrypt("MzA=") == Ok("30")
  {
    JohnDoeBytes();
    JohnDoeToken();
    JohnDoeText();
    CodesInjective(e.Encrypt("John Doe"), "Sm9obiBEb2U=");
    RoundTrip(e, "John Doe");
    ThirtyBytes();
    CodesInjective(e.Encrypt("30"), "MzA=");
    RoundTrip(e, "30");
  }

  /**
   "QQ=" is not Base64 (its length is not a multiple of 4); "/w==" is Base64 for
   the single byte 0xFF, which is not UTF-8. Both raise the same error.
   */
  lemma RejectedTexts(e: Encryption)
    requires e.algorithm == Base64Mode
    ensures e.Decrypt("QQ=") == Err(ValueError("Invalid base64 data"))
    ensures Base64.Decode(Utf8.Encode("/w==")) == Some([0xFF])
    ensures e.Decrypt("/w==") == Err(ValueError("Invalid base64 data"))
  {
    assert |Utf8.Encode("QQ=")| == 3 by {
      Utf8.EncodeAscii("QQ=");
    }
    assert Base64.Decode(Utf8.Encode("/w==")) == Some([0xFF]) by {
      SlashWBytes();
    }
    assert Utf8.Decode([0xFF]) == None;
  }

  /** "/w==" is four ASCII bytes, the Base64 of 0xFF. */
  lemma SlashWBytes()
    ensures Utf8.Encode("/w==") == [0x2F, 0x77, 0x3D, 0x3D]
    ensures Base64.Decode([0x2F, 0x77, 0x3D, 0x3D]) == Some([0xFF])
  {
    Utf8.EncodeAscii("/w==");
  }

  /** In any other mode both directions hand their argument back unchanged. */
  lemma OtherModeExample(e: Encryption)
    requires e.algorithm == "plain"
    ensures e.Encrypt("John Doe") == "John Doe" && e.Decrypt("Sm9obiBEb2U=") == Ok("Sm9obiBEb2U=")
  {
  }
}
