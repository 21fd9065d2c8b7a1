/** Bytes and fixed-width little-endian unsigned integers.
    The source writes lengths and block ids in host byte order; the model fixes
    that order to little-endian. */
module Bytes {

  newtype byte = b: int | 0 <= b < 256

  /** 256 to the power n: the number of values an n-byte unsigned integer holds. */
  function Pow256(n: nat): (r: nat)
    ensures r >= 1
  {
    if n == 0 then 1 else 256 * Pow256(n - 1)
  }

  /** An unsigned 64-bit integer. */
  type U64 = n: nat | n < 0x1_0000_0000_0000_0000

  /** block_id_t, the id of a block of the cache. */
  type BlockId = U64

  lemma Pow256Of8()
    ensures Pow256(8) == 0x1_0000_0000_0000_0000
  {
  }

  /** The n-byte little-endian image of v. */
  function LE(v: nat, n: nat): (r: seq<byte>)
    requires v < Pow256(n)
    ensures |r| == n
  {
    if n == 0 then []
    else
      assert v / 256 < Pow256(n - 1) by { DivBound(v, Pow256(n - 1)); }
      [(v % 256) as byte] + LE(v / 256, n - 1)
  }

  /** The unsigned integer whose little-endian image is s. */
  function FromLE(s: seq<byte>): (v: nat)
    ensures v < Pow256(|s|)
  {
    if s == [] then 0
    else
      var rest := FromLE(s[1..]);
      assert s[0] as nat + 256 * rest < Pow256(|s|) by {
        assert rest <= Pow256(|s| - 1) - 1;
        MulMono(rest, Pow256(|s| - 1) - 1);
      }
      s[0] as nat + 256 * rest
  }

  lemma DivBound(v: nat, p: nat)
    requires v < 256 * p
    ensures v / 256 < p
  {
  }

  lemma MulMono(a: nat, b: nat)
    requires a <= b
    ensures 256 * a <= 256 * b
  {
  }

  /** Decoding an encoded value gives the value back. */
  lemma {:induction false} FromLEOfLE(v: nat, n: nat)
    requires v < Pow256(n)
    ensures FromLE(LE(v, n)) == v
  {
    if n > 0 {
      DivBound(v, Pow256(n - 1));
      FromLEOfLE(v / 256, n - 1);
      assert LE(v, n)[1..] == LE(v / 256, n - 1);
    }
  }

  /** Encoding a decoded image gives the image back: the codec is a bijection
      between n-byte sequences and the integers below Pow256(n). */
  lemma {:induction false} LEOfFromLE(s: seq<byte>)
    ensures LE(FromLE(s), |s|) == s
  {
    if s != [] {
      LEOfFromLE(s[1..]);
      var v := FromLE(s);
      assert v % 256 == s[0] as nat;
      assert v / 256 == FromLE(s[1..]);
    }
  }
}
