/**
 * Fixed-width unsigned integers and their big-endian byte encoding,
 * as Rust's u8, u64 and u64::to_be_bytes / u64::from_be_bytes give them.
 */
module Bytes {

  newtype u8 = x: int | 0 <= x < 0x100

  /** One more than the largest u64. */
  const U64_BOUND: int := 0x1_0000_0000_0000_0000

  newtype u64 = x: int | 0 <= x < U64_BOUND

  /** 256 to the power n: how many distinct values n bytes can hold. */
  function Pow256(n: nat): (p: nat)
    ensures p > 0
  {
    if n == 0 then 1 else 256 * Pow256(n - 1)
  }

  /** The n-byte big-endian encoding of x: most significant byte first. */
  function EncodeBe(x: nat, n: nat): (r: seq<u8>)
    requires x < Pow256(n)
    ensures |r| == n
    decreases n
  {
    if n == 0 then [] else EncodeBe(x / 256, n - 1) + [(x % 256) as u8]
  }

  /** The number a big-endian byte sequence denotes; it always fits in |s| bytes. */
  function DecodeBe(s: seq<u8>): (v: nat)
    ensures v < Pow256(|s|)
  {
    if s == [] then 0
    else
      var high := DecodeBe(s[..|s| - 1]);
      assert high * 256 + s[|s| - 1] as nat < Pow256(|s|) by {
        assert high <= Pow256(|s| - 1) - 1;
      }
      high * 256 + s[|s| - 1] as nat
  }

  /** Decoding undoes encoding. */
  lemma {:induction false} DecodeEncode(x: nat, n: nat)
    requires x < Pow256(n)
    ensures DecodeBe(EncodeBe(x, n)) == x
  {
    if n > 0 {
      var r := EncodeBe(x, n);
      assert r[..n - 1] == EncodeBe(x / 256, n - 1);
      DecodeEncode(x / 256, n - 1);
    }
  }

  /** Encoding undoes decoding: every byte sequence is the encoding of its value. */
  lemma {:induction false} EncodeDecode(s: seq<u8>)
    ensures EncodeBe(DecodeBe(s), |s|) == s
  {
    if s != [] {
      var init, b := s[..|s| - 1], s[|s| - 1];
      var v := DecodeBe(s);
      assert v == DecodeBe(init) * 256 + b as nat;
      assert v / 256 == DecodeBe(init) && v % 256 == b as nat;
      EncodeDecode(init);
      assert s == init + [b];
    }
  }

  /** Two numbers below Pow256(n) have the same n-byte encoding only if they are equal. */
  lemma EncodeBeInjective(x: nat, y: nat, n: nat)
    requires x < Pow256(n) && y < Pow256(n)
    ensures EncodeBe(x, n) == EncodeBe(y, n) <==> x == y
  {
    DecodeEncode(x, n);
    DecodeEncode(y, n);
  }

  /** Eight bytes hold exactly the u64 values. */
  lemma Pow256Of8()
    ensures Pow256(8) == U64_BOUND
  {
  }

  /** u64::to_be_bytes: the eight bytes of x, most significant first. */
  function ToBeBytes(x: u64): (r: seq<u8>)
    ensures |r| == 8
  {
    Pow256Of8();
    EncodeBe(x as nat, 8)
  }

  /** u64::from_be_bytes: the u64 whose big-endian bytes are s. */
  function FromBeBytes(s: seq<u8>): (x: u64)
    requires |s| == 8
  {
    Pow256Of8();
    DecodeBe(s) as u64
  }

  /** from_be_bytes(to_be_bytes(x)) == x, and to_be_bytes(from_be_bytes(s)) == s. */
  lemma BeBytesRoundTrip(x: u64, s: seq<u8>)
    requires |s| == 8
    ensures FromBeBytes(ToBeBytes(x)) == x
    ensures ToBeBytes(FromBeBytes(s)) == s
  {
    Pow256Of8();
    DecodeEncode(x as nat, 8);
    EncodeDecode(s);
  }
}
