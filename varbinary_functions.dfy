/** The scalar SQL functions over varbinary values: length, Base64 and Base64-URL, hexadecimal,
    the 64-bit big-endian integer codec and the serialisation of xxhash64. A Slice is a sequence
    of bytes; a varchar argument is the bytes of its UTF-8 text. A thrown PrestoException is a
    Failure carrying the error code and the message. */
module VarbinaryFunctions {
  import opened Wrappers
  import opened Bytes
  import Base16
  import Base64
  import opened BigEndian

  /** The one error code these functions raise. */
  datatype ErrorCode = InvalidFunctionArgument

  /** A PrestoException: its error code and its message. */
  datatype Error = Error(code: ErrorCode, message: string)

  /** `length(varbinary)`: the number of bytes. */
  function Length(slice: seq<Byte>): (r: nat)
    ensures r == |slice|
  {
    |slice|
  }

  /** The lengths of the encodings, counted by `length`. */
  lemma EncodedLengths(slice: seq<Byte>, value: Int64)
    ensures Length(ToHex(slice)) == 2 * Length(slice)
    ensures Length(ToBase64(slice)) == Length(ToBase64Url(slice)) == 4 * ((Length(slice) + 2) / 3)
    ensures Length(ToBigEndian64(value)) == 8
    ensures Length([]) == 0
  {
    var standard, urlSafe := ToBase64(slice), ToBase64Url(slice);
    assert |standard| == |urlSafe| == 4 * ((|slice| + 2) / 3);
  }

  // ---------------------------------------------------------------- Base64

  /** `to_base64`: the standard alphabet, padded. */
  function ToBase64(slice: seq<Byte>): (r: seq<Byte>)
    ensures |r| == 4 * ((|slice| + 2) / 3)
    ensures forall i :: 0 <= i < |r| ==> Base64.InAlphabetOrPad(Base64.Standard, r[i])
    ensures Base64.ZeroPadBits(Base64.Standard, r)
    ensures Base64.Decode(Base64.Standard, r) == Success(slice)
  {
    Base64.RoundTrip(Base64.Standard, slice);
    Base64.Encode(Base64.Standard, slice)
  }

  /** `to_base64url`: the URL- and filename-safe alphabet, padded. */
  function ToBase64Url(slice: seq<Byte>): (r: seq<Byte>)
    ensures |r| == 4 * ((|slice| + 2) / 3)
    ensures forall i :: 0 <= i < |r| ==> Base64.InAlphabetOrPad(Base64.UrlSafe, r[i])
    ensures Base64.ZeroPadBits(Base64.UrlSafe, r)
    ensures Base64.Decode(Base64.UrlSafe, r) == Success(slice)
  {
    Base64.RoundTrip(Base64.UrlSafe, slice);
    Base64.Encode(Base64.UrlSafe, slice)
  }

  /** A decoder's IllegalArgumentException rethrown as PrestoException(INVALID_FUNCTION_ARGUMENT, e). */
  function WrapDecoderFailure(decoded: Result<seq<Byte>, string>): Result<seq<Byte>, Error> {
    match decoded
    case Success(bytes) => Success(bytes)
    case Failure(reason) => Failure(Error(InvalidFunctionArgument, reason))
  }

  /** Decoding with one alphabet, shared by the four `from_base64` and `from_base64url` overloads. */
  function FromBase64With(alphabet: Base64.Alphabet, slice: seq<Byte>): (r: Result<seq<Byte>, Error>)
    ensures r.Success? <==> Base64.Decode(alphabet, slice).Success?
    ensures r.Success? ==> r.value == Base64.Decode(alphabet, slice).value
    ensures r.Success? ==> |r.value| == 3 * (|slice| / 4) - Base64.TrailingPads(slice)
    ensures r.Failure? ==> r.error == Error(InvalidFunctionArgument, Base64.Decode(alphabet, slice).error)
  {
    WrapDecoderFailure(Base64.Decode(alphabet, slice))
  }

  /** `from_base64(varchar)`. */
  function FromBase64Varchar(slice: seq<Byte>): (r: Result<seq<Byte>, Error>)
    ensures r.Success? <==> Base64.Decode(Base64.Standard, slice).Success?
    ensures r.Success? ==> r.value == Base64.Decode(Base64.Standard, slice).value
    ensures r.Success? ==> |r.value| == 3 * (|slice| / 4) - Base64.TrailingPads(slice)
    ensures r.Failure? ==> r.error == Error(InvalidFunctionArgument, Base64.Decode(Base64.Standard, slice).error)
  {
    FromBase64With(Base64.Standard, slice)
  }

  /** `from_base64(varbinary)`: the same decoding of the same bytes. */
  function FromBase64Varbinary(slice: seq<Byte>): (r: Result<seq<Byte>, Error>)
    ensures r == FromBase64Varchar(slice)
  {
    FromBase64With(Base64.Standard, slice)
  }

  /** `from_base64url(varchar)`. */
  function FromBase64UrlVarchar(slice: seq<Byte>): (r: Result<seq<Byte>, Error>)
    ensures r.Success? <==> Base64.Decode(Base64.UrlSafe, slice).Success?
    ensures r.Success? ==> r.value == Base64.Decode(Base64.UrlSafe, slice).value
    ensures r.Success? ==> |r.value| == 3 * (|slice| / 4) - Base64.TrailingPads(slice)
    ensures r.Failure? ==> r.error == Error(InvalidFunctionArgument, Base64.Decode(Base64.UrlSafe, slice).error)
  {
    FromBase64With(Base64.UrlSafe, slice)
  }

  /** `from_base64url(varbinary)`: the same decoding of the same bytes. */
  function FromBase64UrlVarbinary(slice: seq<Byte>): (r: Result<seq<Byte>, Error>)
    ensures r == FromBase64UrlVarchar(slice)
  {
    FromBase64With(Base64.UrlSafe, slice)
  }

  /** Both Base64 codecs round-trip every byte sequence, through either overload. */
  lemma Base64RoundTrip(slice: seq<Byte>)
    ensures FromBase64Varchar(ToBase64(slice)) == Success(slice)
    ensures FromBase64Varbinary(ToBase64(slice)) == Success(slice)
    ensures FromBase64UrlVarchar(ToBase64Url(slice)) == Success(slice)
    ensures FromBase64UrlVarbinary(ToBase64Url(slice)) == Success(slice)
  {
    Base64.RoundTrip(Base64.Standard, slice);
    Base64.RoundTrip(Base64.UrlSafe, slice);
  }

  /** The alphabets are not interchangeable: text holding `-` or `_` is refused by `from_base64`,
      text holding `+` or `/` by `from_base64url`, each as an invalid function argument. */
  lemma Base64AlphabetsDiffer(slice: seq<Byte>, k: nat)
    requires k < |slice|
    ensures slice[k] == '-' as int || slice[k] == '_' as int ==>
      FromBase64Varchar(slice).Failure? && FromBase64Varchar(slice).error.code == InvalidFunctionArgument
    ensures slice[k] == '+' as int || slice[k] == '/' as int ==>
      FromBase64UrlVarchar(slice).Failure? && FromBase64UrlVarchar(slice).error.code == InvalidFunctionArgument
  {
    if slice[k] == '-' as int || slice[k] == '_' as int {
      Base64.RejectsForeignCharacter(Base64.Standard, slice, k);
    }
    if slice[k] == '+' as int || slice[k] == '/' as int {
      Base64.RejectsForeignCharacter(Base64.UrlSafe, slice, k);
    }
  }

  // ---------------------------------------------------------------- hexadecimal

  /** `to_hex`: Guava's base16, upper-case, two digits per byte. */
  function ToHex(slice: seq<Byte>): (r: seq<Byte>)
    ensures |r| == 2 * |slice|
    ensures forall j :: 0 <= j < |r| ==> Base16.IsUpperHexDigit(r[j])
  {
    Base16.Encode(slice)
  }

  /** Java's `(char) b` for a signed byte: values from 0x80 sign-extend into U+FF80 to U+FFFF. */
  function JavaChar(b: Byte): char {
    if b < 128 then b as char else (b + 0xFF00) as char
  }

  function InvalidInputLength(length: nat): Error {
    Error(InvalidFunctionArgument, "invalid input length " + DecimalString(length))
  }

  function InvalidHexCharacter(b: Byte): Error {
    Error(InvalidFunctionArgument, "invalid hex character: " + [JavaChar(b)])
  }

  /** `hexDigitCharToInt`: the value of a hex digit of either case; any other byte is refused. */
  function HexDigitCharToInt(b: Byte): (r: Result<nat, Error>)
    ensures r.Success? ==> r.value < 16 && (b == Base16.UpperHexDigit(r.value) || b == Base16.LowerHexDigit(r.value))
    ensures r.Failure? ==> r.error == InvalidHexCharacter(b)
  {
    if '0' as int <= b <= '9' as int then Success(b - '0' as int)
    else if 'a' as int <= b <= 'f' as int then Success(b - 'a' as int + 10)
    else if 'A' as int <= b <= 'F' as int then Success(b - 'A' as int + 10)
    else Failure(InvalidHexCharacter(b))
  }

  /** Every digit, in either case, is accepted with its value; with the contract of
      HexDigitCharToInt, exactly the 22 hex digit characters are accepted. */
  lemma HexDigitCharToIntAcceptsDigits(n: nat)
    requires n < 16
    ensures HexDigitCharToInt(Base16.UpperHexDigit(n)) == Success(n)
    ensures HexDigitCharToInt(Base16.LowerHexDigit(n)) == Success(n)
  {
  }

  function Nibble(b: Byte): (n: nat)
    requires HexDigitCharToInt(b).Success?
    ensures n < 16
  {
    HexDigitCharToInt(b).value
  }

  /** `(hexDigitCharToInt(hi) << 4) | hexDigitCharToInt(lo)` narrowed to a byte: shifting a nibble
      left by four multiplies it by 16 and leaves four zero bits, into which OR puts the low nibble. */
  function CombineNibbles(hi: nat, lo: nat): Byte
    requires hi < 16 && lo < 16
  {
    hi * 16 + lo
  }

  /** The byte that the hex digits at 2j and 2j+1 decode to. */
  function PairValue(slice: seq<Byte>, j: nat): Byte
    requires 2 * j + 1 < |slice|
    requires HexDigitCharToInt(slice[2 * j]).Success? && HexDigitCharToInt(slice[2 * j + 1]).Success?
  {
    CombineNibbles(Nibble(slice[2 * j]), Nibble(slice[2 * j + 1]))
  }

  /** The first position at or after `from` holding a byte that is not a hex digit. */
  function FirstNonHexDigit(slice: seq<Byte>, from: nat): (r: Option<nat>)
    requires from <= |slice|
    ensures r.None? ==> forall k :: from <= k < |slice| ==> HexDigitCharToInt(slice[k]).Success?
    ensures r.Some? ==> from <= r.value < |slice| && HexDigitCharToInt(slice[r.value]).Failure?
    ensures r.Some? ==> forall k :: from <= k < r.value ==> HexDigitCharToInt(slice[k]).Success?
    decreases |slice| - from
  {
    if from == |slice| then None
    else if HexDigitCharToInt(slice[from]).Failure? then Some(from)
    else FirstNonHexDigit(slice, from + 1)
  }

  /** What `from_hex` computes: the length check, then the first byte that is not a hex digit,
      then byte i from the digits at 2i and 2i+1. */
  function FromHex(slice: seq<Byte>): Result<seq<Byte>, Error> {
    if |slice| % 2 != 0 then Failure(InvalidInputLength(|slice|))
    else
      match FirstNonHexDigit(slice, 0)
      case Some(k) => Failure(InvalidHexCharacter(slice[k]))
      case None =>
        Success(seq(|slice| / 2, j requires 0 <= j < |slice| / 2 => PairValue(slice, j)))
  }

  /** `from_hex(varchar)`: fills the result two input bytes at a time. */
  method FromHexVarchar(slice: seq<Byte>) returns (r: Result<seq<Byte>, Error>)
    ensures r == FromHex(slice)
  {
    if |slice| % 2 != 0 {
      return Failure(InvalidInputLength(|slice|));
    }
    var result := new Byte[|slice| / 2];
    var i := 0;
    while i < |slice|
      invariant 0 <= i <= |slice| && i % 2 == 0
      invariant forall k :: 0 <= k < i ==> HexDigitCharToInt(slice[k]).Success?
      invariant forall j :: 0 <= j < i / 2 ==> result[j] == PairValue(slice, j)
    {
      var hi := HexDigitCharToInt(slice[i]);
      if hi.Failure? {
        FromHexReportsFirstBadCharacter(slice, i);
        return Failure(hi.error);
      }
      var lo := HexDigitCharToInt(slice[i + 1]);
      if lo.Failure? {
        FromHexReportsFirstBadCharacter(slice, i + 1);
        return Failure(lo.error);
      }
      result[i / 2] := CombineNibbles(hi.value, lo.value);
      i := i + 2;
    }
    FromHexOfDigits(slice, result[..]);
    return Success(result[..]);
  }

  /** Even-length input made only of hex digits decodes pair by pair. */
  lemma FromHexOfDigits(slice: seq<Byte>, bytes: seq<Byte>)
    requires |slice| % 2 == 0 && |bytes| == |slice| / 2
    requires forall k :: 0 <= k < |slice| ==> HexDigitCharToInt(slice[k]).Success?
    requires forall j :: 0 <= j < |bytes| ==> bytes[j] == PairValue(slice, j)
    ensures FromHex(slice) == Success(bytes)
  {
    assert FirstNonHexDigit(slice, 0).None?;
    var decoded := seq(|slice| / 2, j requires 0 <= j < |slice| / 2 => PairValue(slice, j));
    assert decoded == bytes;
  }

  /** `from_hex(varbinary)`: delegates to the varchar overload. */
  method FromHexVarbinary(slice: seq<Byte>) returns (r: Result<seq<Byte>, Error>)
    ensures r == FromHex(slice)
  {
    r := FromHexVarchar(slice);
  }

  /** A byte that is not a hex digit, preceded only by hex digits, is the one the error names. */
  lemma FromHexReportsFirstBadCharacter(slice: seq<Byte>, k: nat)
    requires |slice| % 2 == 0 && k < |slice|
    requires forall j :: 0 <= j < k ==> HexDigitCharToInt(slice[j]).Success?
    requires HexDigitCharToInt(slice[k]).Failure?
    ensures FromHex(slice) == Failure(InvalidHexCharacter(slice[k]))
  {
    var first := FirstNonHexDigit(slice, 0);
    assert first.Some?;
    assert first.value == k;
  }

  /** The length error is raised exactly for an odd-length input. */
  lemma FromHexOddLength(slice: seq<Byte>)
    ensures FromHex(slice) == Failure(InvalidInputLength(|slice|)) <==> |slice| % 2 == 1
  {
    if |slice| % 2 == 0 && FromHex(slice).Failure? {
      assert FromHex(slice).error.message[8] == 'h';
      assert InvalidInputLength(|slice|).message[8] == 'i';
    }
  }

  /** `from_hex` succeeds exactly on even-length input made of hex digits; byte i of the result is
      the digit at 2i times 16 plus the digit at 2i+1. */
  lemma FromHexAccepts(slice: seq<Byte>)
    ensures FromHex(slice).Success? <==>
      |slice| % 2 == 0 && forall k :: 0 <= k < |slice| ==> HexDigitCharToInt(slice[k]).Success?
    ensures FromHex(slice).Success? ==>
      |FromHex(slice).value| == |slice| / 2 &&
      forall i :: 0 <= i < |slice| / 2 ==>
        FromHex(slice).value[i] == Nibble(slice[2 * i]) * 16 + Nibble(slice[2 * i + 1])
  {
  }

  /** Hex round trip: `from_hex(to_hex(x)) == x`. */
  lemma HexRoundTrip(slice: seq<Byte>)
    ensures FromHex(ToHex(slice)) == Success(slice)
  {
    var hex := ToHex(slice);
    forall i | 0 <= i < |slice|
      ensures HexDigitCharToInt(hex[2 * i]) == Success(slice[i] / 16)
      ensures HexDigitCharToInt(hex[2 * i + 1]) == Success(slice[i] % 16)
    {
      HexDigitCharToIntAcceptsDigits(slice[i] / 16);
      HexDigitCharToIntAcceptsDigits(slice[i] % 16);
    }
    forall k | 0 <= k < |hex|
      ensures HexDigitCharToInt(hex[k]).Success?
    {
      assert k == 2 * (k / 2) || k == 2 * (k / 2) + 1;
    }
    FromHexOfDigits(hex, slice);
  }

  /** ASCII upper-casing of one byte. */
  function AsciiUpperCase(b: Byte): Byte {
    if 'a' as int <= b <= 'z' as int then b - 32 else b
  }

  /** Digits are read case-insensitively: upper-casing the input changes neither whether
      `from_hex` succeeds nor, on success, what it returns. */
  lemma HexCaseInsensitive(slice: seq<Byte>)
    ensures FromHex(seq(|slice|, i requires 0 <= i < |slice| => AsciiUpperCase(slice[i]))).Success?
        <==> FromHex(slice).Success?
    ensures FromHex(slice).Success? ==>
      FromHex(seq(|slice|, i requires 0 <= i < |slice| => AsciiUpperCase(slice[i]))) == FromHex(slice)
  {
    var upper := seq(|slice|, i requires 0 <= i < |slice| => AsciiUpperCase(slice[i]));
    forall k | 0 <= k < |slice|
      ensures HexDigitCharToInt(upper[k]).Success? == HexDigitCharToInt(slice[k]).Success?
      ensures HexDigitCharToInt(slice[k]).Success? ==> Nibble(upper[k]) == Nibble(slice[k])
    {
    }
    FromHexAccepts(slice);
    FromHexAccepts(upper);
    if FromHex(slice).Success? {
      var fromUpper, fromSlice := FromHex(upper).value, FromHex(slice).value;
      forall j | 0 <= j < |fromSlice|
        ensures fromUpper[j] == fromSlice[j]
      {
      }
      assert fromUpper == fromSlice;
    }
  }

  // ---------------------------------------------------------------- 64-bit big-endian

  /** `to_big_endian_64`: the two's-complement bits of the value, most significant byte first. */
  function ToBigEndian64(value: Int64): (r: seq<Byte>)
    ensures |r| == 8
  {
    Pow256Values();
    ToBytes(ToUnsigned(value), 8)
  }

  /** `from_big_endian_64`: exactly 8 bytes, most significant first, read as a two's-complement long. */
  function FromBigEndian64(slice: seq<Byte>): (r: Result<Int64, Error>)
    ensures r.Failure? <==> |slice| != 8
    ensures r.Failure? ==>
      r.error == Error(InvalidFunctionArgument, "expected 8-byte input, but got instead: " + DecimalString(|slice|))
  {
    if |slice| != 8 then
      Failure(Error(InvalidFunctionArgument, "expected 8-byte input, but got instead: " + DecimalString(|slice|)))
    else
      Pow256Values();
      Success(ToSigned(FromBytes(slice)))
  }

  /** Every long survives encoding then decoding. */
  lemma BigEndianRoundTrip(value: Int64)
    ensures FromBigEndian64(ToBigEndian64(value)) == Success(value)
  {
    Pow256Values();
    FromToBytes(ToUnsigned(value), 8);
    SignedUnsignedInverse(value, 0);
  }

  /** Every 8-byte value decodes, and encoding the result gives the same bytes back. */
  lemma BigEndianBytesRoundTrip(slice: seq<Byte>)
    requires |slice| == 8
    ensures FromBigEndian64(slice).Success?
    ensures ToBigEndian64(FromBigEndian64(slice).value) == slice
  {
    Pow256Values();
    SignedUnsignedInverse(0, FromBytes(slice));
    ToFromBytes(slice);
  }

  /** Byte i of the encoding holds bits 56-8i to 63-8i of the value's two's-complement pattern. */
  lemma ToBigEndian64Layout(value: Int64, i: nat)
    requires i < 8
    ensures ToBigEndian64(value)[i] == ToUnsigned(value) / Pow256(7 - i) % 256
  {
    Pow256Values();
    ToBytesAt(ToUnsigned(value), 8, i);
  }

  /** Most significant byte first: the sign bit is the top bit of the first byte, and the last
      byte is the value's low eight bits. */
  lemma ToBigEndian64SignFirst(value: Int64)
    ensures ToBigEndian64(value)[0] >= 128 <==> value < 0
    ensures ToBigEndian64(value)[7] == value % 256
  {
    var u := ToUnsigned(value);
    ToBigEndian64Layout(value, 0);
    ToBigEndian64Layout(value, 7);
    Pow256Values();
    assert u / 0x100_0000_0000_0000 < 256;
    assert (u - value) % 256 == 0;
  }

  /** The bytes 00 00 00 00 00 00 00 01 are the long 1. */
  lemma FromBigEndian64One()
    ensures FromBigEndian64([0, 0, 0, 0, 0, 0, 0, 1]) == Success(1)
  {
    Pow256Values();
    assert ToBytes(1, 8) == [0, 0, 0, 0, 0, 0, 0, 1];
    FromToBytes(1, 8);
  }

  // ---------------------------------------------------------------- xxhash64

  /** `xxhash64`: the 64-bit hash of the input (computed outside this code, passed in as `hash`),
      serialised big-endian like `to_big_endian_64`. */
  function XxHash64(hash: seq<Byte> -> Int64, slice: seq<Byte>): (r: seq<Byte>)
    ensures |r| == 8
    ensures FromBigEndian64(r) == Success(hash(slice))
  {
    BigEndianRoundTrip(hash(slice));
    ToBigEndian64(hash(slice))
  }
}
