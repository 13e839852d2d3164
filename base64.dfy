/** Base64 as `java.util.Base64` encodes and decodes it: section 4 of RFC 4648 (standard alphabet)
    and section 5 (URL- and filename-safe alphabet), with '=' padding and no line breaks. */
module Base64 {
  import opened Wrappers
  import opened Bytes

  /** The alphabet of section 4 (`+`, `/`) or of section 5 (`-`, `_`) of RFC 4648. */
  datatype Alphabet = Standard | UrlSafe

  const PAD: Byte := '=' as int

  /** Decoder failures; each surfaces to the SQL caller as an invalid function argument. */
  const BAD_LENGTH: string := "input length is not a multiple of 4"
  const BAD_CHARACTER: string := "illegal base64 character"
  const EARLY_PADDING: string := "padding before the last quantum"

  function Value62(alphabet: Alphabet): Byte {
    if alphabet.Standard? then '+' as int else '-' as int
  }

  function Value63(alphabet: Alphabet): Byte {
    if alphabet.Standard? then '/' as int else '_' as int
  }

  /** The character for a 6-bit value (Table 1 of RFC 4648, or Table 2 for the URL-safe alphabet). */
  function EncodeSextet(alphabet: Alphabet, v: nat): (c: Byte)
    requires v < 64
    ensures c != PAD
  {
    if v < 26 then 'A' as int + v
    else if v < 52 then 'a' as int + (v - 26)
    else if v < 62 then '0' as int + (v - 52)
    else if v == 62 then Value62(alphabet)
    else Value63(alphabet)
  }

  /** The 6-bit value of an alphabet character; None for every byte outside the alphabet. */
  function DecodeSextet(alphabet: Alphabet, c: Byte): (r: Option<nat>)
    ensures r.Some? ==> r.value < 64 && EncodeSextet(alphabet, r.value) == c
    ensures c == PAD ==> r.None?
  {
    if 'A' as int <= c <= 'Z' as int then Some(c - 'A' as int)
    else if 'a' as int <= c <= 'z' as int then Some(c - 'a' as int + 26)
    else if '0' as int <= c <= '9' as int then Some(c - '0' as int + 52)
    else if c == Value62(alphabet) then Some(62)
    else if c == Value63(alphabet) then Some(63)
    else None
  }

  lemma SextetRoundTrip(alphabet: Alphabet, v: nat)
    requires v < 64
    ensures DecodeSextet(alphabet, EncodeSextet(alphabet, v)) == Some(v)
  {
  }

  predicate InAlphabetOrPad(alphabet: Alphabet, c: Byte) {
    c == PAD || DecodeSextet(alphabet, c).Some?
  }

  /** The four characters for a final group of one to three bytes, padded with '=' when short. */
  function EncodeQuantum(alphabet: Alphabet, group: seq<Byte>): (r: seq<Byte>)
    requires 1 <= |group| <= 3
    ensures |r| == 4
    ensures forall i :: 0 <= i < 4 ==> InAlphabetOrPad(alphabet, r[i])
    ensures TrailingPads(r) == 3 - |group|
    ensures ZeroPadBits(alphabet, r)
  {
    var b0 := group[0];
    var b1 := if |group| > 1 then group[1] else 0;
    var b2 := if |group| > 2 then group[2] else 0;
    var r := [EncodeSextet(alphabet, b0 / 4),
              EncodeSextet(alphabet, (b0 % 4) * 16 + b1 / 16),
              if |group| > 1 then EncodeSextet(alphabet, (b1 % 16) * 4 + b2 / 64) else PAD,
              if |group| > 2 then EncodeSextet(alphabet, b2 % 64) else PAD];
    SextetRoundTrip(alphabet, b0 / 4);
    SextetRoundTrip(alphabet, (b0 % 4) * 16 + b1 / 16);
    SextetRoundTrip(alphabet, (b1 % 16) * 4 + b2 / 64);
    SextetRoundTrip(alphabet, b2 % 64);
    r
  }

  /** The encoder: every 3-byte group becomes 4 characters; a last group of 1 or 2 bytes is padded. */
  function Encode(alphabet: Alphabet, data: seq<Byte>): (r: seq<Byte>)
    ensures |r| == 4 * ((|data| + 2) / 3) && |r| % 4 == 0
    ensures forall i :: 0 <= i < |r| ==> InAlphabetOrPad(alphabet, r[i])
    ensures ZeroPadBits(alphabet, r)
    decreases |data|
  {
    if |data| == 0 then []
    else if |data| <= 3 then EncodeQuantum(alphabet, data)
    else
      var head := EncodeQuantum(alphabet, data[..3]);
      var tail := Encode(alphabet, data[3..]);
      ConcatPads(alphabet, head, tail);
      head + tail
  }

  /** One 4-character quantum. Padding ("xx==" or "xxx=") is allowed only in the last one; the bits
      that padding leaves over are discarded, as section 3.5 of RFC 4648 permits. */
  function DecodeQuantum(alphabet: Alphabet, q: seq<Byte>, last: bool): (r: Result<seq<Byte>, string>)
    requires |q| == 4
  {
    var s0 := DecodeSextet(alphabet, q[0]);
    var s1 := DecodeSextet(alphabet, q[1]);
    var s2 := DecodeSextet(alphabet, q[2]);
    var s3 := DecodeSextet(alphabet, q[3]);
    if s0.None? || s1.None? then Failure(BAD_CHARACTER)
    else if q[2] == PAD && q[3] == PAD then
      if last then Success([s0.value * 4 + s1.value / 16]) else Failure(EARLY_PADDING)
    else if s2.None? then Failure(BAD_CHARACTER)
    else if q[3] == PAD then
      if last then Success([s0.value * 4 + s1.value / 16, (s1.value % 16) * 16 + s2.value / 4])
      else Failure(EARLY_PADDING)
    else if s3.None? then Failure(BAD_CHARACTER)
    else Success([s0.value * 4 + s1.value / 16, (s1.value % 16) * 16 + s2.value / 4, (s2.value % 4) * 64 + s3.value])
  }

  /** The decoder: the text must be whole quanta of alphabet characters, padded only at the end. */
  function Decode(alphabet: Alphabet, text: seq<Byte>): (r: Result<seq<Byte>, string>)
    ensures |text| % 4 != 0 ==> r == Failure(BAD_LENGTH)
    ensures r.Success? ==> |r.value| == 3 * (|text| / 4) - TrailingPads(text)
  {
    if |text| % 4 != 0 then Failure(BAD_LENGTH)
    else
      var r := DecodeQuanta(alphabet, text);
      if r.Success? then QuantaDecodedLength(alphabet, text); r else r
  }

  /** Decodes quantum after quantum; only the one that ends the text may be padded. */
  function DecodeQuanta(alphabet: Alphabet, text: seq<Byte>): (r: Result<seq<Byte>, string>)
    decreases |text|
  {
    if text == [] then Success([])
    else if |text| < 4 then Failure(BAD_LENGTH)
    else
      match DecodeQuantum(alphabet, text[..4], |text| == 4)
      case Failure(e) => Failure(e)
      case Success(head) =>
        match DecodeQuanta(alphabet, text[4..])
        case Failure(e) => Failure(e)
        case Success(tail) => Success(head + tail)
  }

  /** The number of '=' characters that end the text (at most two count). */
  function TrailingPads(text: seq<Byte>): nat {
    if |text| >= 2 && text[|text| - 2] == PAD && text[|text| - 1] == PAD then 2
    else if |text| >= 1 && text[|text| - 1] == PAD then 1
    else 0
  }

  /** The value of an alphabet character, and 0 for any other byte. */
  function SextetValue(alphabet: Alphabet, c: Byte): nat {
    match DecodeSextet(alphabet, c)
    case Some(v) => v
    case None => 0
  }

  /** Section 3.5 of RFC 4648: the bits of the last character before the padding that no byte
      fills ("QR==" carries four of them, "QUJ=" two) are zero. */
  predicate ZeroPadBits(alphabet: Alphabet, text: seq<Byte>) {
    && (|text| >= 3 && TrailingPads(text) == 2 ==> SextetValue(alphabet, text[|text| - 3]) % 16 == 0)
    && (|text| >= 2 && TrailingPads(text) == 1 ==> SextetValue(alphabet, text[|text| - 2]) % 4 == 0)
  }

  /** Padding and its pad bits are read off the end of the text, so a prefix does not change them. */
  lemma ConcatPads(alphabet: Alphabet, a: seq<Byte>, b: seq<Byte>)
    requires |b| >= 3
    ensures TrailingPads(a + b) == TrailingPads(b)
    ensures ZeroPadBits(alphabet, a + b) == ZeroPadBits(alphabet, b)
  {
    var t := a + b;
    assert t[|t| - 1] == b[|b| - 1] && t[|t| - 2] == b[|b| - 2] && t[|t| - 3] == b[|b| - 3];
  }

  /** Decoding four alphabet characters whose values are known. */
  lemma DecodeFullQuantum(alphabet: Alphabet, q: seq<Byte>, last: bool, s0: nat, s1: nat, s2: nat, s3: nat)
    requires |q| == 4 && s0 < 64 && s1 < 64 && s2 < 64 && s3 < 64
    requires q == [EncodeSextet(alphabet, s0), EncodeSextet(alphabet, s1), EncodeSextet(alphabet, s2), EncodeSextet(alphabet, s3)]
    ensures DecodeQuantum(alphabet, q, last) == Success([s0 * 4 + s1 / 16, (s1 % 16) * 16 + s2 / 4, (s2 % 4) * 64 + s3])
  {
    SextetRoundTrip(alphabet, s0);
    SextetRoundTrip(alphabet, s1);
    SextetRoundTrip(alphabet, s2);
    SextetRoundTrip(alphabet, s3);
  }

  /** Decoding a final quantum "xxx=". */
  lemma DecodeOnePadQuantum(alphabet: Alphabet, q: seq<Byte>, s0: nat, s1: nat, s2: nat)
    requires |q| == 4 && s0 < 64 && s1 < 64 && s2 < 64
    requires q == [EncodeSextet(alphabet, s0), EncodeSextet(alphabet, s1), EncodeSextet(alphabet, s2), PAD]
    ensures DecodeQuantum(alphabet, q, true) == Success([s0 * 4 + s1 / 16, (s1 % 16) * 16 + s2 / 4])
  {
    SextetRoundTrip(alphabet, s0);
    SextetRoundTrip(alphabet, s1);
    SextetRoundTrip(alphabet, s2);
  }

  /** Decoding a final quantum "xx==". */
  lemma DecodeTwoPadQuantum(alphabet: Alphabet, q: seq<Byte>, s0: nat, s1: nat)
    requires |q| == 4 && s0 < 64 && s1 < 64
    requires q == [EncodeSextet(alphabet, s0), EncodeSextet(alphabet, s1), PAD, PAD]
    ensures DecodeQuantum(alphabet, q, true) == Success([s0 * 4 + s1 / 16])
  {
    SextetRoundTrip(alphabet, s0);
    SextetRoundTrip(alphabet, s1);
  }

  lemma QuantumRoundTrip(alphabet: Alphabet, group: seq<Byte>, last: bool)
    requires 1 <= |group| <= 3
    requires |group| == 3 || last
    ensures DecodeQuantum(alphabet, EncodeQuantum(alphabet, group), last) == Success(group)
  {
    if |group| == 1 {
      assert group == [group[0]];
      OneByteRoundTrip(alphabet, group[0]);
    } else if |group| == 2 {
      assert group == [group[0], group[1]];
      TwoByteRoundTrip(alphabet, group[0], group[1]);
    } else {
      assert group == [group[0], group[1], group[2]];
      ThreeByteRoundTrip(alphabet, group[0], group[1], group[2], last);
    }
  }

  lemma OneByteRoundTrip(alphabet: Alphabet, b0: Byte)
    ensures DecodeQuantum(alphabet, EncodeQuantum(alphabet, [b0]), true) == Success([b0])
  {
    var s0, s1 := b0 / 4, (b0 % 4) * 16;
    assert EncodeQuantum(alphabet, [b0]) == [EncodeSextet(alphabet, s0), EncodeSextet(alphabet, s1), PAD, PAD];
    DecodeTwoPadQuantum(alphabet, EncodeQuantum(alphabet, [b0]), s0, s1);
    assert s0 * 4 + s1 / 16 == b0;
  }

  lemma TwoByteRoundTrip(alphabet: Alphabet, b0: Byte, b1: Byte)
    ensures DecodeQuantum(alphabet, EncodeQuantum(alphabet, [b0, b1]), true) == Success([b0, b1])
  {
    var s0, s1, s2 := b0 / 4, (b0 % 4) * 16 + b1 / 16, (b1 % 16) * 4;
    assert EncodeQuantum(alphabet, [b0, b1]) ==
      [EncodeSextet(alphabet, s0), EncodeSextet(alphabet, s1), EncodeSextet(alphabet, s2), PAD];
    DecodeOnePadQuantum(alphabet, EncodeQuantum(alphabet, [b0, b1]), s0, s1, s2);
    assert s0 * 4 + s1 / 16 == b0;
    assert (s1 % 16) * 16 + s2 / 4 == b1;
  }

  lemma ThreeByteRoundTrip(alphabet: Alphabet, b0: Byte, b1: Byte, b2: Byte, last: bool)
    ensures DecodeQuantum(alphabet, EncodeQuantum(alphabet, [b0, b1, b2]), last) == Success([b0, b1, b2])
  {
    var s0, s1, s2, s3 := b0 / 4, (b0 % 4) * 16 + b1 / 16, (b1 % 16) * 4 + b2 / 64, b2 % 64;
    assert EncodeQuantum(alphabet, [b0, b1, b2]) ==
      [EncodeSextet(alphabet, s0), EncodeSextet(alphabet, s1), EncodeSextet(alphabet, s2), EncodeSextet(alphabet, s3)];
    DecodeFullQuantum(alphabet, EncodeQuantum(alphabet, [b0, b1, b2]), last, s0, s1, s2, s3);
    assert s0 * 4 + s1 / 16 == b0;
    assert (s1 % 16) * 16 + s2 / 4 == b1;
    assert (s2 % 4) * 64 + s3 == b2;
  }

  /** Decoding proceeds one quantum at a time. */
  lemma DecodeStep(alphabet: Alphabet, q: seq<Byte>, rest: seq<Byte>, head: seq<Byte>, tail: seq<Byte>)
    requires |q| == 4 && rest != []
    requires DecodeQuantum(alphabet, q, false) == Success(head)
    requires DecodeQuanta(alphabet, rest) == Success(tail)
    ensures DecodeQuanta(alphabet, q + rest) == Success(head + tail)
  {
    var text := q + rest;
    assert text[..4] == q && text[4..] == rest;
  }

  /** A single quantum is the last one. */
  lemma DecodeLast(alphabet: Alphabet, q: seq<Byte>, head: seq<Byte>)
    requires |q| == 4
    requires DecodeQuantum(alphabet, q, true) == Success(head)
    ensures DecodeQuanta(alphabet, q) == Success(head)
  {
    assert q[..4] == q && q[4..] == [];
    assert head + [] == head;
  }

  /** Round trip: decoding what the encoder wrote gives back the input bytes. */
  lemma RoundTrip(alphabet: Alphabet, data: seq<Byte>)
    ensures Decode(alphabet, Encode(alphabet, data)) == Success(data)
  {
    QuantaRoundTrip(alphabet, data);
  }

  lemma {:induction false} QuantaRoundTrip(alphabet: Alphabet, data: seq<Byte>)
    ensures DecodeQuanta(alphabet, Encode(alphabet, data)) == Success(data)
    decreases |data|
  {
    if |data| == 0 {
    } else if |data| <= 3 {
      QuantumRoundTrip(alphabet, data, true);
      DecodeLast(alphabet, EncodeQuantum(alphabet, data), data);
    } else {
      QuantaRoundTrip(alphabet, data[3..]);
      var head, tail := EncodeQuantum(alphabet, data[..3]), Encode(alphabet, data[3..]);
      assert Encode(alphabet, data) == head + tail;
      QuantumRoundTrip(alphabet, data[..3], false);
      DecodeStep(alphabet, head, tail, data[..3], data[3..]);
      assert data[..3] + data[3..] == data;
    }
  }

  lemma QuantumRejectsForeign(alphabet: Alphabet, q: seq<Byte>, last: bool, k: nat)
    requires |q| == 4 && k < 4
    requires !InAlphabetOrPad(alphabet, q[k])
    ensures DecodeQuantum(alphabet, q, last).Failure?
  {
  }

  /** A byte that is neither '=' nor in the alphabet, anywhere in the text, makes decoding fail. */
  lemma RejectsForeignCharacter(alphabet: Alphabet, text: seq<Byte>, k: nat)
    requires k < |text| && !InAlphabetOrPad(alphabet, text[k])
    ensures Decode(alphabet, text).Failure?
  {
    if |text| % 4 == 0 {
      QuantaRejectForeign(alphabet, text, k);
    }
  }

  lemma {:induction false} QuantaRejectForeign(alphabet: Alphabet, text: seq<Byte>, k: nat)
    requires k < |text| && !InAlphabetOrPad(alphabet, text[k])
    ensures DecodeQuanta(alphabet, text).Failure?
    decreases |text|
  {
    if |text| >= 4 {
      if k < 4 {
        QuantumRejectsForeign(alphabet, text[..4], |text| == 4, k);
      } else if DecodeQuantum(alphabet, text[..4], |text| == 4).Success? {
        QuantaRejectForeign(alphabet, text[4..], k - 4);
      }
    }
  }

  /** The texts the decoder accepts: whole quanta, every byte an alphabet character except for at
      most two '=' that end the text. */
  predicate WellFormed(alphabet: Alphabet, text: seq<Byte>) {
    && |text| % 4 == 0
    && forall k :: 0 <= k < |text| - TrailingPads(text) ==> DecodeSextet(alphabet, text[k]).Some?
  }

  /** The decoder accepts exactly the well-formed texts: padding anywhere but at the end ("QQ==QQ==",
      "QQ=Q"), three '=', or a foreign byte is refused. */
  lemma DecodeSucceedsIff(alphabet: Alphabet, text: seq<Byte>)
    ensures Decode(alphabet, text).Success? <==> WellFormed(alphabet, text)
  {
    if |text| % 4 == 0 {
      QuantaSucceedIff(alphabet, text);
    }
  }

  /** The last quantum decodes exactly when it is well formed on its own. */
  lemma QuantumSucceedsIff(alphabet: Alphabet, q: seq<Byte>)
    requires |q| == 4
    ensures DecodeQuantum(alphabet, q, true).Success? <==> WellFormed(alphabet, q)
  {
  }

  lemma {:induction false} QuantaSucceedIff(alphabet: Alphabet, text: seq<Byte>)
    requires |text| % 4 == 0
    ensures DecodeQuanta(alphabet, text).Success? <==> WellFormed(alphabet, text)
    decreases |text|
  {
    if |text| == 4 {
      assert text[..4] == text && text[4..] == [];
      QuantumSucceedsIff(alphabet, text);
    } else if text != [] {
      var q, rest := text[..4], text[4..];
      QuantaSucceedIff(alphabet, rest);
      TrailingPadsOfSuffix(text, rest);
      if WellFormed(alphabet, text) {
        forall k | 0 <= k < |rest| - TrailingPads(rest)
          ensures DecodeSextet(alphabet, rest[k]).Some?
        {
          assert rest[k] == text[k + 4];
        }
        assert DecodeSextet(alphabet, q[0]).Some? && DecodeSextet(alphabet, q[1]).Some?;
        assert DecodeSextet(alphabet, q[2]).Some? && DecodeSextet(alphabet, q[3]).Some?;
      }
      if DecodeQuanta(alphabet, text).Success? {
        assert DecodeQuantum(alphabet, q, false).Success?;
        forall k | 0 <= k < |text| - TrailingPads(text)
          ensures DecodeSextet(alphabet, text[k]).Some?
        {
          if k >= 4 {
            assert text[k] == rest[k - 4];
          }
        }
      }
    }
  }

  lemma QuantumDecodedLength(alphabet: Alphabet, q: seq<Byte>, last: bool)
    requires |q| == 4
    requires DecodeQuantum(alphabet, q, last).Success?
    ensures |DecodeQuantum(alphabet, q, last).value| == 3 - TrailingPads(q)
    ensures !last ==> TrailingPads(q) == 0
  {
  }

  lemma {:induction false} QuantaDecodedLength(alphabet: Alphabet, text: seq<Byte>)
    requires DecodeQuanta(alphabet, text).Success?
    ensures |DecodeQuanta(alphabet, text).value| == 3 * (|text| / 4) - TrailingPads(text)
    decreases |text|
  {
    if |text| == 4 {
      assert text[..4] == text;
      QuantumDecodedLength(alphabet, text, true);
    } else if text != [] {
      var q, rest := text[..4], text[4..];
      QuantumDecodedLength(alphabet, q, false);
      QuantaDecodedLength(alphabet, rest);
      TrailingPadsOfSuffix(text, rest);
    }
  }

  lemma TrailingPadsOfSuffix(text: seq<Byte>, rest: seq<Byte>)
    requires |text| >= 6 && rest == text[4..]
    ensures TrailingPads(rest) == TrailingPads(text)
    ensures |text| / 4 == |rest| / 4 + 1
  {
    assert rest[|rest| - 1] == text[|text| - 1];
    assert rest[|rest| - 2] == text[|text| - 2];
  }

  /** The encoder's output is the only text with zero pad bits that decodes to the data: with
      RoundTrip and the encoder's own ZeroPadBits guarantee this pins Encode down byte by byte. */
  lemma Canonical(alphabet: Alphabet, text: seq<Byte>)
    requires Decode(alphabet, text).Success? && ZeroPadBits(alphabet, text)
    ensures Encode(alphabet, Decode(alphabet, text).value) == text
  {
    QuantaCanonical(alphabet, text);
  }

  lemma {:induction false} QuantaCanonical(alphabet: Alphabet, text: seq<Byte>)
    requires DecodeQuanta(alphabet, text).Success? && ZeroPadBits(alphabet, text)
    ensures Encode(alphabet, DecodeQuanta(alphabet, text).value) == text
    decreases |text|
  {
    if |text| == 4 {
      LastCanonical(alphabet, text);
    } else if text != [] {
      var q, rest := text[..4], text[4..];
      DecodeSplit(alphabet, text);
      ConcatPads(alphabet, q, rest);
      QuantumDecodedLength(alphabet, q, false);
      QuantumCanonical(alphabet, q, false);
      QuantaCanonical(alphabet, rest);
      EncodeStep(alphabet, DecodeQuantum(alphabet, q, false).value, DecodeQuanta(alphabet, rest).value);
    }
  }

  lemma LastCanonical(alphabet: Alphabet, text: seq<Byte>)
    requires |text| == 4 && DecodeQuanta(alphabet, text).Success? && ZeroPadBits(alphabet, text)
    ensures Encode(alphabet, DecodeQuanta(alphabet, text).value) == text
  {
    assert text[..4] == text && text[4..] == [];
    var head := DecodeQuantum(alphabet, text, true).value;
    assert DecodeQuanta(alphabet, text).value == head + [] == head;
    QuantumCanonical(alphabet, text, true);
    assert Encode(alphabet, head) == EncodeQuantum(alphabet, head);
  }

  /** A successful decode of several quanta is the first quantum's bytes followed by the rest's. */
  lemma DecodeSplit(alphabet: Alphabet, text: seq<Byte>)
    requires |text| > 4 && DecodeQuanta(alphabet, text).Success?
    ensures DecodeQuantum(alphabet, text[..4], false).Success?
    ensures DecodeQuanta(alphabet, text[4..]).Success? && |text[4..]| >= 4
    ensures DecodeQuanta(alphabet, text[4..]).value != []
    ensures text[..4] + text[4..] == text
    ensures DecodeQuanta(alphabet, text).value
         == DecodeQuantum(alphabet, text[..4], false).value + DecodeQuanta(alphabet, text[4..]).value
  {
    var rest := text[4..];
    assert DecodeQuantum(alphabet, rest[..4], |rest| == 4).Success?;
    QuantumDecodedLength(alphabet, rest[..4], |rest| == 4);
  }

  lemma EncodeStep(alphabet: Alphabet, head: seq<Byte>, tail: seq<Byte>)
    requires |head| == 3 && tail != []
    ensures Encode(alphabet, head + tail) == EncodeQuantum(alphabet, head) + Encode(alphabet, tail)
  {
    assert (head + tail)[..3] == head && (head + tail)[3..] == tail;
  }

  /** One quantum: re-encoding what it decodes to gives it back, provided its pad bits are zero. */
  lemma QuantumCanonical(alphabet: Alphabet, q: seq<Byte>, last: bool)
    requires |q| == 4 && DecodeQuantum(alphabet, q, last).Success?
    requires last ==> ZeroPadBits(alphabet, q)
    ensures 1 <= |DecodeQuantum(alphabet, q, last).value| <= 3
    ensures EncodeQuantum(alphabet, DecodeQuantum(alphabet, q, last).value) == q
  {
    QuantumDecodedLength(alphabet, q, last);
    if TrailingPads(q) == 2 {
      TwoPadCanonical(alphabet, q);
    } else if TrailingPads(q) == 1 {
      OnePadCanonical(alphabet, q);
    } else {
      FullCanonical(alphabet, q, last);
    }
  }

  lemma TwoPadCanonical(alphabet: Alphabet, q: seq<Byte>)
    requires |q| == 4 && DecodeQuantum(alphabet, q, true).Success?
    requires TrailingPads(q) == 2 && ZeroPadBits(alphabet, q)
    ensures |DecodeQuantum(alphabet, q, true).value| == 1
    ensures EncodeQuantum(alphabet, DecodeQuantum(alphabet, q, true).value) == q
  {
    var v0, v1 := SextetValue(alphabet, q[0]), SextetValue(alphabet, q[1]);
    assert DecodeSextet(alphabet, q[0]) == Some(v0) && DecodeSextet(alphabet, q[1]) == Some(v1);
    var b0 := v0 * 4 + v1 / 16;
    assert DecodeQuantum(alphabet, q, true).value == [b0];
    assert b0 / 4 == v0 && b0 % 4 == v1 / 16;
    SixteenPadBits(v1);
  }

  lemma OnePadCanonical(alphabet: Alphabet, q: seq<Byte>)
    requires |q| == 4 && DecodeQuantum(alphabet, q, true).Success?
    requires TrailingPads(q) == 1 && ZeroPadBits(alphabet, q)
    ensures |DecodeQuantum(alphabet, q, true).value| == 2
    ensures EncodeQuantum(alphabet, DecodeQuantum(alphabet, q, true).value) == q
  {
    var v0, v1, v2 := SextetValue(alphabet, q[0]), SextetValue(alphabet, q[1]), SextetValue(alphabet, q[2]);
    assert DecodeSextet(alphabet, q[0]) == Some(v0) && DecodeSextet(alphabet, q[1]) == Some(v1);
    assert DecodeSextet(alphabet, q[2]) == Some(v2);
    var b0, b1 := v0 * 4 + v1 / 16, (v1 % 16) * 16 + v2 / 4;
    assert DecodeQuantum(alphabet, q, true).value == [b0, b1];
    assert b0 / 4 == v0 && b0 % 4 == v1 / 16;
    assert b1 / 16 == v1 % 16 && b1 % 16 == v2 / 4;
    FourPadBits(v2);
  }

  lemma FullCanonical(alphabet: Alphabet, q: seq<Byte>, last: bool)
    requires |q| == 4 && DecodeQuantum(alphabet, q, last).Success?
    requires TrailingPads(q) == 0
    ensures |DecodeQuantum(alphabet, q, last).value| == 3
    ensures EncodeQuantum(alphabet, DecodeQuantum(alphabet, q, last).value) == q
  {
    var v0, v1 := SextetValue(alphabet, q[0]), SextetValue(alphabet, q[1]);
    var v2, v3 := SextetValue(alphabet, q[2]), SextetValue(alphabet, q[3]);
    assert DecodeSextet(alphabet, q[0]) == Some(v0) && DecodeSextet(alphabet, q[1]) == Some(v1);
    assert DecodeSextet(alphabet, q[2]) == Some(v2) && DecodeSextet(alphabet, q[3]) == Some(v3);
    var b0, b1, b2 := v0 * 4 + v1 / 16, (v1 % 16) * 16 + v2 / 4, (v2 % 4) * 64 + v3;
    assert DecodeQuantum(alphabet, q, last).value == [b0, b1, b2];
    assert b0 / 4 == v0 && b0 % 4 == v1 / 16;
    assert b1 / 16 == v1 % 16 && b1 % 16 == v2 / 4;
    assert b2 / 64 == v2 % 4 && b2 % 64 == v3;
  }

  lemma SixteenPadBits(v: nat)
    requires v % 16 == 0
    ensures (v / 16) * 16 == v
  {
  }

  lemma FourPadBits(v: nat)
    requires v % 4 == 0
    ensures (v / 4) * 4 == v
  {
  }
}
