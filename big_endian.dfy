/** The byte-level effect of `slice.setLong(0, Long.reverseBytes(value))` and of
    `Long.reverseBytes(slice.getLong(0))`: a 64-bit two's-complement value laid out most
    significant byte first. */
module BigEndian {
  import opened Bytes

  const TWO_TO_THE_63: int := 0x8000_0000_0000_0000
  const TWO_TO_THE_64: int := 0x1_0000_0000_0000_0000

  /** A Java `long`. */
  type Int64 = x: int | -0x8000_0000_0000_0000 <= x < 0x8000_0000_0000_0000

  function Pow256(n: nat): (r: nat)
    ensures r > 0
  {
    if n == 0 then 1 else 256 * Pow256(n - 1)
  }

  lemma Pow256Values()
    ensures Pow256(7) == 0x100_0000_0000_0000
    ensures Pow256(8) == TWO_TO_THE_64
  {
    assert Pow256(2) == 0x1_0000;
    assert Pow256(4) == 0x1_0000_0000;
    assert Pow256(6) == 0x1_0000_0000_0000;
  }

  /** The bit pattern of a long, read as an unsigned number. */
  function ToUnsigned(v: Int64): (u: nat)
    ensures u < TWO_TO_THE_64
    ensures (u - v) % TWO_TO_THE_64 == 0
    ensures v < 0 <==> u >= TWO_TO_THE_63
  {
    if v < 0 then v + TWO_TO_THE_64 else v
  }

  /** The long whose bit pattern is u. */
  function ToSigned(u: nat): (v: Int64)
    requires u < TWO_TO_THE_64
    ensures (u - v) % TWO_TO_THE_64 == 0
  {
    if u < TWO_TO_THE_63 then u else u - TWO_TO_THE_64
  }

  lemma SignedUnsignedInverse(v: Int64, u: nat)
    requires u < TWO_TO_THE_64
    ensures ToSigned(ToUnsigned(v)) == v
    ensures ToUnsigned(ToSigned(u)) == u
  {
  }

  /** The n bytes of u, most significant first. */
  function ToBytes(u: nat, n: nat): (r: seq<Byte>)
    requires u < Pow256(n)
    ensures |r| == n
  {
    if n == 0 then [] else ToBytes(u / 256, n - 1) + [u % 256]
  }

  /** The number that bytes denote, most significant first. */
  function FromBytes(bytes: seq<Byte>): (r: nat)
    ensures r < Pow256(|bytes|)
  {
    if bytes == [] then 0 else FromBytes(bytes[..|bytes| - 1]) * 256 + bytes[|bytes| - 1]
  }

  lemma {:induction false} FromToBytes(u: nat, n: nat)
    requires u < Pow256(n)
    ensures FromBytes(ToBytes(u, n)) == u
  {
    if n > 0 {
      var r := ToBytes(u, n);
      assert r[..n - 1] == ToBytes(u / 256, n - 1);
      FromToBytes(u / 256, n - 1);
    }
  }

  lemma {:induction false} ToFromBytes(bytes: seq<Byte>)
    ensures ToBytes(FromBytes(bytes), |bytes|) == bytes
  {
    if bytes != [] {
      var init := bytes[..|bytes| - 1];
      ToFromBytes(init);
      assert init + [bytes[|bytes| - 1]] == bytes;
    }
  }

  lemma MulSign(k: int, d: int)
    requires d > 0
    ensures k >= 1 ==> k * d >= d
    ensures k <= -1 ==> k * d <= -d
  {
  }

  /** Quotient and remainder are determined by `u == q * d + r` with `0 <= r < d`. */
  lemma DivUnique(u: int, d: int, q: int, r: int)
    requires d > 0 && 0 <= r < d && u == q * d + r
    ensures u / d == q && u % d == r
  {
    var k := q - u / d;
    assert k * d == u % d - r;
    MulSign(k, d);
  }

  lemma DivDiv(u: nat, k: nat)
    ensures u / 256 / Pow256(k) == u / Pow256(k + 1)
  {
    var p := Pow256(k);
    var q, r := u / 256, u % 256;
    var q2, r2 := q / p, q % p;
    assert q == q2 * p + r2;
    assert u == q2 * (256 * p) + (r2 * 256 + r);
    assert r2 * 256 + r < 256 * p by {
      assert r2 <= p - 1;
      assert r2 * 256 <= (p - 1) * 256;
    }
    DivUnique(u, 256 * p, q2, r2 * 256 + r);
  }

  /** Byte i of the n-byte layout holds bits 8(n-1-i) to 8(n-1-i)+7 of u. */
  lemma {:induction false} ToBytesAt(u: nat, n: nat, i: nat)
    requires u < Pow256(n) && i < n
    ensures ToBytes(u, n)[i] == u / Pow256(n - 1 - i) % 256
  {
    if i < n - 1 {
      ToBytesAt(u / 256, n - 1, i);
      DivDiv(u, n - 2 - i);
    }
  }
}
