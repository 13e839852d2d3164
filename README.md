# Varbinary codec functions

A Dafny model of the scalar SQL functions over `varbinary` values in
`presto-main/src/main/java/com/facebook/presto/operator/scalar/VarbinaryFunctions.java`:
`length`, `to_base64` / `from_base64`, `to_base64url` / `from_base64url`, `to_hex` / `from_hex`,
`to_big_endian_64` / `from_big_endian_64` and the big-endian serialisation of `xxhash64`.

A `Slice` is a `seq<Byte>` (bytes read unsigned, 0..255); a `varchar` argument is the bytes of its
UTF-8 text. A `PrestoException` becomes `Failure(Error(code, message))` in a `Result`. The only
error code the file raises is `INVALID_FUNCTION_ARGUMENT`, so `ErrorCode` has that one value.

Files:

- `wrappers.dfy` (`Wrappers`): `Option` and `Result`.
- `bytes.dfy` (`Bytes`): the `Byte` type and the decimal text Java prints for a length in a message.
- `base16.dfy` (`Base16`): the hex encoder behind `to_hex`, Guava's `BaseEncoding.base16()`, which
  is section 8 of RFC 4648: upper-case digits, two per byte, high nibble first.
- `base64.dfy` (`Base64`): the encoder and decoder behind the Base64 functions, `java.util.Base64`,
  which follows section 4 (standard alphabet) and section 5 (URL- and filename-safe alphabet) of
  RFC 4648. Output is padded with `=`.
- `big_endian.dfy` (`BigEndian`): `Int64` (a Java `long`) and its two's-complement bytes, most
  significant first. This is the net effect of `setLong(0, Long.reverseBytes(v))` and
  `Long.reverseBytes(getLong(0))`.
- `varbinary_functions.dfy` (`VarbinaryFunctions`): the SQL functions themselves.

`from_hex` is the one hand-written algorithm. `FromHexVarchar` is a method that checks the
length, allocates the result array and fills it in a loop two input bytes at a time, like the
source. Its contract ties it to `FromHex`, a declarative statement of the same behaviour:

- an odd length fails with "invalid input length N";
- otherwise the first byte that is not a hex digit fails with "invalid hex character: c";
- otherwise byte i of the result is `(digit(2i) << 4) | digit(2i+1)`.

The lemmas about `FromHex` state the properties. The other functions are pure and are modelled
as functions.

Base64 decoding is modelled from RFC 4648 alone, so it is stricter than `java.util.Base64`; see
"Left out".

## Model

| member | source | states |
|---|---|---|
| `Bytes.DecimalString` | presto-main/src/main/java/com/facebook/presto/operator/scalar/VarbinaryFunctions.java:127 | the length printed in an error message is a non-empty string of decimal digits that denotes exactly that length, and it has no leading zero unless the length is 0 |
| `VarbinaryFunctions.Length` | presto-main/src/main/java/com/facebook/presto/operator/scalar/VarbinaryFunctions.java:39-42 | `length` is the number of bytes of the value, not of characters |
| `VarbinaryFunctions.EncodedLengths` | presto-main/src/main/java/com/facebook/presto/operator/scalar/VarbinaryFunctions.java:36-42 | `length` counts bytes: 0 for the empty value, twice the input for `to_hex`, 4·⌈n/3⌉ for both Base64 encoders, 8 for `to_big_endian_64` |
| `Base64.Encode` | presto-main/src/main/java/com/facebook/presto/operator/scalar/VarbinaryFunctions.java:47-50 | the encoder writes 4·⌈n/3⌉ characters, each one in the chosen alphabet or `=`, and the bits under the padding are zero (section 3.5 of RFC 4648) |
| `Base64.Canonical` | presto-main/src/main/java/com/facebook/presto/operator/scalar/VarbinaryFunctions.java:49 | any text with zero pad bits that decodes to some bytes is exactly what the encoder writes for them; with `RoundTrip` and the encoder's contract this fixes every character the encoder writes |
| `Base64.RoundTrip` | presto-main/src/main/java/com/facebook/presto/operator/scalar/VarbinaryFunctions.java:47-111 | decoding what the encoder wrote returns the input bytes, for either alphabet and every byte sequence |
| `Base64.RejectsForeignCharacter` | presto-main/src/main/java/com/facebook/presto/operator/scalar/VarbinaryFunctions.java:56-64 | a byte anywhere in the text that is neither `=` nor in the alphabet makes the decoder fail |
| `Base64.Decode` | presto-main/src/main/java/com/facebook/presto/operator/scalar/VarbinaryFunctions.java:59 | a length that is not a multiple of 4 is rejected; a successful decode yields three bytes per 4-character quantum, less one per trailing `=` |
| `Base64.DecodeSucceedsIff` | presto-main/src/main/java/com/facebook/presto/operator/scalar/VarbinaryFunctions.java:59 | the decoder accepts a text if and only if its length is a multiple of 4 and every byte is an alphabet character, except for at most two `=` that end it; misplaced padding ("QQ==QQ==", "QQ=Q") is refused |
| `VarbinaryFunctions.ToBase64` | presto-main/src/main/java/com/facebook/presto/operator/scalar/VarbinaryFunctions.java:44-50 | `to_base64` writes 4·⌈n/3⌉ characters of the standard alphabet or `=`, with zero pad bits, that the standard decoder reads back as the input; by `Base64.Canonical` no other text does both |
| `VarbinaryFunctions.ToBase64Url` | presto-main/src/main/java/com/facebook/presto/operator/scalar/VarbinaryFunctions.java:79-85 | `to_base64url` writes 4·⌈n/3⌉ characters of the URL-safe alphabet or `=`, with zero pad bits, that the URL-safe decoder reads back as the input; by `Base64.Canonical` no other text does both |
| `VarbinaryFunctions.FromBase64With` | presto-main/src/main/java/com/facebook/presto/operator/scalar/VarbinaryFunctions.java:58-63 | the shared decode succeeds exactly when the decoder does, returning its bytes with the length above; a decoder rejection becomes an `INVALID_FUNCTION_ARGUMENT` error carrying the decoder's reason |
| `VarbinaryFunctions.FromBase64Varchar` | presto-main/src/main/java/com/facebook/presto/operator/scalar/VarbinaryFunctions.java:52-64 | `from_base64(varchar)` succeeds exactly when the standard decoder does and returns its bytes; any rejection is `INVALID_FUNCTION_ARGUMENT` with the decoder's reason |
| `VarbinaryFunctions.FromBase64Varbinary` | presto-main/src/main/java/com/facebook/presto/operator/scalar/VarbinaryFunctions.java:66-77 | `from_base64(varbinary)` returns exactly what `from_base64(varchar)` returns on the same bytes, errors included |
| `VarbinaryFunctions.FromBase64UrlVarchar` | presto-main/src/main/java/com/facebook/presto/operator/scalar/VarbinaryFunctions.java:87-98 | `from_base64url(varchar)` succeeds exactly when the URL-safe decoder does and returns its bytes; any rejection is `INVALID_FUNCTION_ARGUMENT` with the decoder's reason |
| `VarbinaryFunctions.FromBase64UrlVarbinary` | presto-main/src/main/java/com/facebook/presto/operator/scalar/VarbinaryFunctions.java:100-111 | `from_base64url(varbinary)` returns exactly what `from_base64url(varchar)` returns on the same bytes |
| `VarbinaryFunctions.Base64RoundTrip` | presto-main/src/main/java/com/facebook/presto/operator/scalar/VarbinaryFunctions.java:44-111 | `from_base64(to_base64(x)) == x` and `from_base64url(to_base64url(x)) == x` for every x, through both overloads |
| `VarbinaryFunctions.Base64AlphabetsDiffer` | presto-main/src/main/java/com/facebook/presto/operator/scalar/VarbinaryFunctions.java:52-111 | text containing `-` or `_` is rejected by `from_base64`, and text containing `+` or `/` by `from_base64url`, each with `INVALID_FUNCTION_ARGUMENT` |
| `Base16.Encode` | presto-main/src/main/java/com/facebook/presto/operator/scalar/VarbinaryFunctions.java:116-119 | two characters per byte: position 2i holds the upper-case digit of the high nibble of byte i, position 2i+1 the low nibble |
| `VarbinaryFunctions.ToHex` | presto-main/src/main/java/com/facebook/presto/operator/scalar/VarbinaryFunctions.java:113-119 | `to_hex` writes twice as many characters as input bytes, all of them from `0-9A-F` |
| `VarbinaryFunctions.HexDigitCharToInt` | presto-main/src/main/java/com/facebook/presto/operator/scalar/VarbinaryFunctions.java:190-202 | an accepted byte has a value below 16 and is that value's upper- or lower-case digit; any other byte fails with "invalid hex character: " followed by Java's `(char)` of the signed byte |
| `VarbinaryFunctions.HexDigitCharToIntAcceptsDigits` | presto-main/src/main/java/com/facebook/presto/operator/scalar/VarbinaryFunctions.java:192-200 | every digit 0..15 is accepted in both cases with its value, so exactly `0-9`, `a-f` and `A-F` are accepted |
| `VarbinaryFunctions.FromHexVarchar` | presto-main/src/main/java/com/facebook/presto/operator/scalar/VarbinaryFunctions.java:121-135 | the loop that fills `result[i / 2]` returns exactly `FromHex`: the length error, else the first bad character, else the decoded bytes |
| `VarbinaryFunctions.FromHexOfDigits` | presto-main/src/main/java/com/facebook/presto/operator/scalar/VarbinaryFunctions.java:130-134 | even-length input made only of hex digits decodes to the bytes given pair by pair |
| `VarbinaryFunctions.FromHexVarbinary` | presto-main/src/main/java/com/facebook/presto/operator/scalar/VarbinaryFunctions.java:214-220 | `from_hex(varbinary)` returns exactly what `from_hex(varchar)` returns on the same bytes, errors included |
| `VarbinaryFunctions.FromHexOddLength` | presto-main/src/main/java/com/facebook/presto/operator/scalar/VarbinaryFunctions.java:126-128 | `from_hex` fails with "invalid input length N" if and only if N is odd |
| `VarbinaryFunctions.FromHexReportsFirstBadCharacter` | presto-main/src/main/java/com/facebook/presto/operator/scalar/VarbinaryFunctions.java:131-133 | on even-length input, the error names the first byte, in input order, that is not a hex digit |
| `VarbinaryFunctions.FromHexAccepts` | presto-main/src/main/java/com/facebook/presto/operator/scalar/VarbinaryFunctions.java:126-135 | `from_hex` succeeds if and only if the length is even and every byte is a hex digit; the result has half the length, and byte i is 16·digit(2i) + digit(2i+1) |
| `VarbinaryFunctions.HexRoundTrip` | presto-main/src/main/java/com/facebook/presto/operator/scalar/VarbinaryFunctions.java:116-135 | `from_hex(to_hex(x)) == x` for every byte sequence x |
| `VarbinaryFunctions.HexCaseInsensitive` | presto-main/src/main/java/com/facebook/presto/operator/scalar/VarbinaryFunctions.java:190-200 | upper-casing the input changes neither whether `from_hex` succeeds nor, on success, what it returns |
| `VarbinaryFunctions.ToBigEndian64` | presto-main/src/main/java/com/facebook/presto/operator/scalar/VarbinaryFunctions.java:137-145 | `to_big_endian_64` always yields exactly 8 bytes |
| `VarbinaryFunctions.FromBigEndian64` | presto-main/src/main/java/com/facebook/presto/operator/scalar/VarbinaryFunctions.java:147-156 | `from_big_endian_64` fails if and only if the input is not 8 bytes long, including empty input, with "expected 8-byte input, but got instead: N" |
| `VarbinaryFunctions.BigEndianRoundTrip` | presto-main/src/main/java/com/facebook/presto/operator/scalar/VarbinaryFunctions.java:140-156 | `from_big_endian_64(to_big_endian_64(v)) == v` for every long v |
| `VarbinaryFunctions.BigEndianBytesRoundTrip` | presto-main/src/main/java/com/facebook/presto/operator/scalar/VarbinaryFunctions.java:140-156 | every 8-byte input decodes, and `to_big_endian_64` of the result gives the same 8 bytes back |
| `VarbinaryFunctions.ToBigEndian64Layout` | presto-main/src/main/java/com/facebook/presto/operator/scalar/VarbinaryFunctions.java:140-145 | byte i holds bits 56−8i to 63−8i of the value's two's-complement pattern |
| `VarbinaryFunctions.ToBigEndian64SignFirst` | presto-main/src/main/java/com/facebook/presto/operator/scalar/VarbinaryFunctions.java:140-145 | most significant byte first: the first byte is at least 0x80 exactly for negative values, and the last byte is the value's low eight bits |
| `VarbinaryFunctions.FromBigEndian64One` | presto-main/src/main/java/com/facebook/presto/operator/scalar/VarbinaryFunctions.java:150-156 | the bytes `00 00 00 00 00 00 00 01` decode to 1 |
| `BigEndian.FromToBytes` | presto-main/src/main/java/com/facebook/presto/operator/scalar/VarbinaryFunctions.java:143 | reading back the n bytes written for a number below 256^n gives that number |
| `BigEndian.ToFromBytes` | presto-main/src/main/java/com/facebook/presto/operator/scalar/VarbinaryFunctions.java:155 | writing the number that a byte sequence denotes, at the same width, gives the same bytes |
| `BigEndian.ToBytesAt` | presto-main/src/main/java/com/facebook/presto/operator/scalar/VarbinaryFunctions.java:143 | byte i of the n-byte layout is digit n−1−i of the number in base 256 |
| `VarbinaryFunctions.XxHash64` | presto-main/src/main/java/com/facebook/presto/operator/scalar/VarbinaryFunctions.java:207-212 | the result is 8 bytes, and `from_big_endian_64` reads back exactly the 64-bit hash of the input |

## Left out

- `md5`, `sha1`, `sha256`, `sha512` (lines 158-188): each is one call into Guava's `Hashing`. The
  compression functions of RFC 1321 and FIPS 180-4 are not in this code, so these functions are
  not part of this model.
- `xxhash64`: the hash is airlift's `XxHash64`, which is not part of this model. `XxHash64` takes the
  hash function as a parameter and models only its big-endian serialisation.
- `Base64.Decode`: modelled from RFC 4648 alone, so it is stricter than the `java.util.Base64`
  decoder the code calls. It requires a length that is a multiple of 4 and allows `=` only at
  the end of the last quantum. The JDK decoder also accepts text whose padding is left off
  ("QQ" decodes to one byte there). The model rejects that text, so its failure and length
  statements hold only for padded input.
- `Base64.DecodeSucceedsIff`: describes the padded texts only. Text whose padding is left off is
  outside `WellFormed` and is refused by the model, where the JDK decoder accepts it.
- `FromBase64With`: inherits that gap from `Base64.Decode`. On unpadded input it returns an
  error where the running code returns bytes.
- `FromBase64Varchar`, `FromBase64Varbinary`, `FromBase64UrlVarchar`, `FromBase64UrlVarbinary`: the
  decoder is modelled from RFC 4648 alone. It requires a length that is a multiple of 4 and allows
  `=` only at the end of the last quantum. `java.util.Base64` also accepts input without padding;
  the model rejects it, so on that input these contracts are stricter than the running code.
  Leftover bits under padding are ignored, as the JDK decoder does.
- The text of the JDK decoder's exception messages is not part of this model. A Base64 rejection
  carries the model's own reason, wrapped with `INVALID_FUNCTION_ARGUMENT` as the code does.
- `Slice` allocation, `Slices.wrappedBuffer` / `utf8Slice`, and the native-endian
  `setLong`/`getLong` paired with `Long.reverseBytes`: only their net effect is modelled, arithmetically.
  That effect is a two's-complement value written or read most significant byte first.
- `Length`: Java returns the length of an int-sized `Slice` as a `long`; the model has no size bound.
- The `@ScalarFunction`, `@SqlType`, `@Description` and `@LiteralParameters` registration.
- `PrestoException` beyond its error code and message, such as the wrapped cause.
