# Encryption service model

This project models the `Encryption` service object of encryption.py. It is
constructed with an algorithm name and keeps a private `_secret_key` set to `""`.

- In mode `"base64"`, `encrypt` returns the Base64 text of the string's UTF-8
  bytes, and `decrypt` turns such text back into a string. Any failure in
  `decrypt` becomes `ValueError("Invalid base64 data")`.
- In every other mode, both `encrypt` and `decrypt` return their argument.
- `sign` returns the data it is given.
- `verify` compares data and signature for equality.

The model has no Python library to call, so it defines the two codecs that
`str.encode`/`bytes.decode` and `base64.b64encode`/`b64decode` provide:

- `bytes.dfy`: the `byte` type (`0 <= x < 256`).
- `wrappers.dfy`: `Option`.
- `utf8.dfy`: UTF-8 as RFC 3629, sections 3 and 4 define it. The decoder is
  strict: it rejects overlong forms, surrogates, values above U+10FFFF, stray
  continuation bytes and truncated sequences. A Dafny `char` is a Unicode scalar
  value, so every string has an encoding.
- `base64.dfy`: Base64 with the standard alphabet and `=` padding, as RFC 4648,
  section 4 defines it. The decoder accepts exactly the canonical encodings:
  - lengths that are a multiple of 4;
  - alphabet symbols only;
  - padding only at the end;
  - zero pad bits.
- `encryption.dfy`: the `Encryption` class.
  - Its two fields are `const`, since nothing reassigns them after `__init__`.
  - Its four methods are member functions.
  - A raised exception is a `Result.Err` carrying `ValueError(message)`.
- `scenarios.dfy`: worked cases for the service. They are the strings "John Doe"
  and "30" with their encryptions, one rejected text for each decoder, and a
  non-Base64 mode.

These are the main results:

- Decoding is the exact inverse of encoding, for both UTF-8 and Base64.
- In mode `"base64"`, `Decrypt(t) == Ok(s)` holds exactly when `Encrypt(s) == t`.
- `Encrypt` is injective.
- `Decrypt` fails exactly on the texts that no string encrypts to.
- The output of `Encrypt` is well-formed Base64 text of length `4 * ceil(n / 3)`,
  where `n` is the number of UTF-8 bytes of the input.

## Model

| member | source | states |
|---|---|---|
| Encryption.Encryption.constructor | encryption.py:5-7 | the algorithm is the argument and the secret key is the empty string; both fields are `const`, so no later call can change them |
| Encryption.Encryption.Encrypt | encryption.py:9-12 | outside mode "base64" the result is the input; in mode "base64" it is well-formed Base64 text, of length 4*ceil(n/3) for the n UTF-8 bytes of the input, whose code points (and whose UTF-8 bytes) are the Base64 encoding of the input's UTF-8 bytes |
| Encryption.Encryption.Decrypt | encryption.py:14-20 | outside mode "base64" the result is `Ok(data)`; every failure is the one error `ValueError("Invalid base64 data")`; every success in mode "base64" is a string that encrypts back to the input |
| Encryption.Encryption.DecryptedTextEncrypts | encryption.py:17 | when both decoding steps of decrypt succeed, encrypting the decoded text gives back the input |
| Encryption.Encryption.Sign | encryption.py:22-23 | the signature is the data itself |
| Encryption.Encryption.Verify | encryption.py:25-26 | a signature verifies iff it equals the data |
| Encryption.RoundTrip | encryption.py:9-20 | in mode "base64", decrypt(encrypt(s)) == s for every string |
| Encryption.DecryptInvertsEncrypt | encryption.py:9-20 | in mode "base64", decrypt(t) returns s iff encrypt(s) == t (both directions) |
| Encryption.EncryptInjective | encryption.py:10-11 | in mode "base64", two strings with the same encryption are equal |
| Encryption.DecryptFailsOffTheImage | encryption.py:15-19 | in mode "base64", decrypt raises exactly for the texts that are not the encryption of any string |
| Encryption.VerifyAcceptsSigned | encryption.py:22-26 | verify accepts the signature that sign produces |
| Encryption.VerifyRejectsOthers | encryption.py:25-26 | verify rejects any signature different from the data |
| Encryption.CodesInjective | encryption.py:11 | the text read back from the Base64 bytes is determined by its code points |
| Encryption.TokenIsAscii | encryption.py:11 | well-formed Base64 text is ASCII, so reading it back with `.decode()` cannot fail |
| Utf8.EncodeChar | encryption.py:11 | one character encodes to one to four bytes (RFC 3629, section 3) |
| Utf8.Encode | encryption.py:11 | a string of n characters encodes to between n and 4n bytes |
| Utf8.DecodeFirst | encryption.py:17 | a successful decoding of the first character consumes between 1 byte and the whole input |
| Utf8.DecodeTwo | encryption.py:17 | a two-byte sequence, when accepted, consumes exactly two bytes |
| Utf8.DecodeThree | encryption.py:17 | a three-byte sequence, when accepted, consumes exactly three bytes |
| Utf8.DecodeFour | encryption.py:17 | a four-byte sequence, when accepted, consumes exactly four bytes |
| Utf8.Decode | encryption.py:11-17 | the strict decoder standing for `bytes.decode()`: a decoded string has at most one character per byte; what it accepts is specified by `Utf8.DecodeEncode`, `Utf8.EncodeDecode` and `Utf8.DecodeIsInverse` |
| Utf8.EncodeCharDecodes | encryption.py:11 | the decoder reads an encoded character back, whatever follows it |
| Utf8.DecodeFirstIsEncoding | encryption.py:17 | the bytes consumed for a decoded character are its encoding (the decoder accepts nothing non-canonical) |
| Utf8.DecodeEncode | encryption.py:11 | decoding the UTF-8 encoding of any string gives the string back |
| Utf8.EncodeDecode | encryption.py:17 | every byte string the decoder accepts is the encoding of what it decodes to |
| Utf8.DecodeIsInverse | encryption.py:11 | decode(b) == s iff encode(s) == b |
| Utf8.EncodeAscii | encryption.py:11 | an ASCII string encodes to one byte per character, equal to its code point |
| Utf8.DecodeAscii | encryption.py:11 | ASCII bytes always decode, one character per byte with the same code |
| Utf8.Rfc3629ExampleMath | encryption.py:11 | RFC 3629 section 7 example "A<NOT IDENTICAL TO><ALPHA>." encodes to 41 E2 89 A2 CE 91 2E |
| Utf8.Rfc3629ExampleKorean | encryption.py:11 | RFC 3629 section 7 Korean example encodes to ED 95 9C EA B5 AD EC 96 B4 |
| Utf8.Rfc3629ExampleJapanese | encryption.py:11 | RFC 3629 section 7 Japanese example encodes to E6 97 A5 E6 9C AC E8 AA 9E |
| Utf8.Rfc3629ExampleBom | encryption.py:11 | RFC 3629 section 7 example with a byte order mark and U+233B4 encodes to EF BB BF F0 A3 8E B4 |
| Base64.EncodedLengthStep | encryption.py:11 | each further group of three bytes adds four symbols |
| Base64.EncodeSymbol | encryption.py:11 | every 6-bit value maps to a symbol of the alphabet |
| Base64.DecodeSymbol | encryption.py:17 | a byte decodes iff it is an alphabet symbol, and its value encodes back to it |
| Base64.AlphabetTable | encryption.py:11 | the alphabet's boundaries A/Z/a/z/0/9/+// sit at values 0/25/26/51/52/61/62/63 (RFC 4648, section 4, Table 1) |
| Base64.DecodeEncodeSymbol | encryption.py:11 | decoding the symbol of a 6-bit value gives the value back |
| Base64.EncodeGroup | encryption.py:11 | the 3-byte step of `b64encode`: four alphabet symbols; its value is specified by `Base64.DecodeEncodeGroup` and `Base64.DecodeQuadIsEncoding` |
| Base64.Encode | encryption.py:11 | the encoding of n bytes has length 4*ceil(n/3) |
| Base64.EncodeIsWellFormed | encryption.py:11 | every encoding consists of alphabet symbols with at most two trailing `=`, in a length that is a multiple of 4 |
| Base64.GroupThenWellFormed | encryption.py:11 | four symbols before well-formed text keep it well-formed |
| Base64.DecodeQuad | encryption.py:17 | an unpadded quantum decodes to three bytes |
| Base64.DecodeFinalQuad | encryption.py:17 | the last quantum decodes to one to three bytes |
| Base64.Decode | encryption.py:17 | the strict decoder standing for `b64decode`: accepted text has a length that is a multiple of 4 and yields at most 3 bytes per quantum; what it accepts is specified by `Base64.DecodeEncode`, `Base64.EncodeDecode` and `Base64.DecodeIsInverse` |
| Base64.DecodeEncodeGroup | encryption.py:11 | the quantum of three bytes decodes back to them |
| Base64.DecodeQuadIsEncoding | encryption.py:17 | an accepted unpadded quantum is the encoding of what it decodes to |
| Base64.DecodeEncodeOne | encryption.py:11 | one byte (`xx==`) round-trips |
| Base64.DecodeEncodeTwo | encryption.py:11 | two bytes (`xxx=`) round-trip |
| Base64.DecodeEncodeThree | encryption.py:11 | three bytes round-trip |
| Base64.GroupDecodes | encryption.py:11 | the group of the first three bytes decodes back to them |
| Base64.EncodeCons | encryption.py:11 | encoding three bytes followed by more is the group of the three followed by the encoding of the rest |
| Base64.DecodeEncodeLonger | encryption.py:11 | a group in front of a round-tripping tail round-trips |
| Base64.DecodeEncode | encryption.py:11 | decoding the Base64 encoding of any byte string gives it back |
| Base64.EncodeDecode | encryption.py:17 | every text the decoder accepts is the encoding of what it decodes to |
| Base64.FinalQuadIsEncoding | encryption.py:17 | an accepted last quantum is the encoding of what it decodes to |
| Base64.FinalOneIsEncoding | encryption.py:17 | an accepted `xx==` quantum is the encoding of its one byte |
| Base64.FinalTwoIsEncoding | encryption.py:17 | an accepted `xxx=` quantum is the encoding of its two bytes |
| Base64.DecodeIsInverse | encryption.py:11 | decode(t) == b iff encode(b) == t |
| Base64.Rfc4648TestVectors | encryption.py:11 | RFC 4648 section 10 vectors: "" → "", "f" → "Zg==", "fo" → "Zm8=", "foo" → "Zm9v" |
| Base64.FooGroup | encryption.py:11 | the group of "foo" is "Zm9v" |
| Base64.Rfc4648VectorFoob | encryption.py:11 | RFC 4648 section 10 vector "foob" → "Zm9vYg==" |
| Base64.Rfc4648VectorFooba | encryption.py:11 | RFC 4648 section 10 vector "fooba" → "Zm9vYmE=" |
| Base64.Rfc4648VectorFoobar | encryption.py:11 | RFC 4648 section 10 vector "foobar" → "Zm9vYmFy" |
| Scenarios.JohnDoeBytes | encryption.py:11 | "John Doe" is eight ASCII bytes |
| Scenarios.JohnDoeGroups | encryption.py:11 | the three quanta of "John Doe" are "Sm9o", "biBE", "b2U=" |
| Scenarios.JohnDoeToken | encryption.py:11 | the Base64 of the bytes of "John Doe" is "Sm9obiBEb2U=" |
| Scenarios.JohnDoeText | encryption.py:11 | the code points of "Sm9obiBEb2U=" are the twelve Base64 bytes 53 6D 39 6F 62 69 42 45 62 32 55 3D |
| Scenarios.ThirtyBytes | encryption.py:11 | "30" encodes to "MzA=" |
| Scenarios.UsageExample | main.py:7 | the service as configured by the HTTP front end encrypts "John Doe" to "Sm9obiBEb2U=" and "30" to "MzA=", and decrypts both back |
| Scenarios.RejectedTexts | encryption.py:16-19 | "QQ=" (malformed Base64) and "/w==" (Base64 of the non-UTF-8 byte FF) are both rejected with `ValueError("Invalid base64 data")` |
| Scenarios.SlashWBytes | encryption.py:17 | "/w==" is the four ASCII bytes 2F 77 3D 3D, which decode as Base64 to the single byte FF |
| Scenarios.OtherModeExample | encryption.py:12 | in mode "plain", encrypt and decrypt hand their argument back |

## Left out

- main.py, the HTTP front end: request parsing, status codes and the server are not part of this model. It passes `dict` values to `encrypt`, `decrypt` and `sign` (in mode "base64" such a call to `decrypt` always ends in `ValueError("Invalid base64 data")`); the model is typed and takes strings, or any type for `sign`/`verify`.
- Base64.Decode: `base64.b64decode` without `validate=True` is lenient. It discards bytes outside the alphabet, accepts non-zero pad bits (such as `QR==`) and ignores data after the padding. The model accepts only canonical RFC 4648 text and raises the error on the rest. So `Encryption.Encryption.Decrypt` is stated only for canonical input, and its error set is larger than Python's by exactly those texts.
- Encryption.Encryption.Encrypt: a Python `str` can hold a lone surrogate, which makes `data.encode()` raise `UnicodeEncodeError`; a Dafny `char` is a Unicode scalar value, so that failure cannot be expressed.
- Encryption.Encryption.Decrypt: for the same reason, a lone surrogate in the input to decrypt, which Python reports as `ValueError("Invalid base64 data")`, is not modelled.
- The `_secret_key` field is modelled as the constant `secretKey == ""`, which nothing reads. The imported `hashlib` is never used by the source, so no hashing is modelled.
- Exception types: every exception caught by decrypt's `except Exception` is collapsed into the one error it re-raises. The original exception types (`binascii.Error`, `UnicodeDecodeError`) are not kept.
- Encryption.Encryption.Sign and Encryption.Encryption.Verify are generic over the value type, because Python does not restrict what is passed. Python's `==` between values of different types is not modelled.
