/** The hexadecimal encoding of section 8 of RFC 4648 as Guava's `BaseEncoding.base16()` writes it:
    upper-case digits, two per byte, the high nibble first, no separators. */
module Base16 {
  import opened Bytes

  /** The upper-case digit the encoder writes for a nibble. */
  function UpperHexDigit(n: nat): (c: Byte)
    requires n < 16
    ensures '0' as int <= c <= '9' as int || 'A' as int <= c <= 'F' as int
  {
    if n < 10 then '0' as int + n else 'A' as int + (n - 10)
  }

  /** The lower-case spelling of the same digit, which the encoder never writes but decoders accept. */
  function LowerHexDigit(n: nat): (c: Byte)
    requires n < 16
    ensures '0' as int <= c <= '9' as int || 'a' as int <= c <= 'f' as int
  {
    if n < 10 then '0' as int + n else 'a' as int + (n - 10)
  }

  predicate IsUpperHexDigit(c: Byte) {
    '0' as int <= c <= '9' as int || 'A' as int <= c <= 'F' as int
  }

  /** Two characters per input byte, byte i at positions 2i and 2i+1, high nibble first. */
  function Encode(data: seq<Byte>): (r: seq<Byte>)
    ensures |r| == 2 * |data|
    ensures forall i :: 0 <= i < |data| ==>
      r[2 * i] == UpperHexDigit(data[i] / 16) && r[2 * i + 1] == UpperHexDigit(data[i] % 16)
    ensures forall j :: 0 <= j < |r| ==> IsUpperHexDigit(r[j])
    decreases |data|
  {
    if data == [] then []
    else
      [UpperHexDigit(data[0] / 16), UpperHexDigit(data[0] % 16)] + Encode(data[1..])
  }
}
