/** Unsigned bytes and the fixed-width big-endian integers of the ledger's wire format. */
module Bytes {

  type byte = b: int | 0 <= b < 256

  /** 2^64 and 2^128: the ranges of Rust's u64 and u128. */
  const U64_LIMIT: int := 0x1_0000_0000_0000_0000
  const U128_LIMIT: int := 0x1_0000_0000_0000_0000_0000_0000_0000_0000

  type u64 = n: int | 0 <= n < U64_LIMIT
  type u128 = n: int | 0 <= n < U128_LIMIT

  /** 256^w: the number of distinct values a w-byte field can hold. */
  function Pow256(w: nat): (r: nat)
    ensures r >= 1
  {
    if w == 0 then 1 else 256 * Pow256(w - 1)
  }

  lemma Pow256Widths()
    ensures Pow256(8) == U64_LIMIT
    ensures Pow256(16) == U128_LIMIT
  {
    assert Pow256(4) == 0x1_0000_0000;
    assert Pow256(8) == Pow256(4) * Pow256(4) by { Pow256Add(4, 4); }
    assert Pow256(16) == Pow256(8) * Pow256(8) by { Pow256Add(8, 8); }
  }

  lemma {:induction false} Pow256Add(a: nat, b: nat)
    ensures Pow256(a + b) == Pow256(a) * Pow256(b)
  {
    if a > 0 {
      Pow256Add(a - 1, b);
    }
  }

  /** The w low-order bytes of n, most significant first (Rust's to_be_bytes for w = 8 or 16). */
  function BE(n: nat, w: nat): (r: seq<byte>)
    ensures |r| == w
  {
    if w == 0 then [] else BE(n / 256, w - 1) + [n % 256]
  }

  /** The unsigned number whose big-endian bytes are bs. */
  function FromBE(bs: seq<byte>): (n: nat)
    ensures n < Pow256(|bs|)
  {
    if bs == [] then 0
    else
      var hi := FromBE(bs[..|bs| - 1]);
      assert hi <= Pow256(|bs| - 1) - 1;
      assert hi * 256 <= (Pow256(|bs| - 1) - 1) * 256;
      hi * 256 + bs[|bs| - 1]
  }

  /** Decoding the w-byte encoding of a number that fits in w bytes gives it back. */
  lemma {:induction false} FromBEOfBE(n: nat, w: nat)
    requires n < Pow256(w)
    ensures FromBE(BE(n, w)) == n
  {
    if w > 0 {
      var bs := BE(n, w);
      assert bs[..w - 1] == BE(n / 256, w - 1);
      assert n / 256 < Pow256(w - 1);
      FromBEOfBE(n / 256, w - 1);
    }
  }

  /** Encoding is injective on the numbers a w-byte field can hold. */
  lemma BEInjective(m: nat, n: nat, w: nat)
    requires m < Pow256(w) && n < Pow256(w)
    requires BE(m, w) == BE(n, w)
    ensures m == n
  {
    FromBEOfBE(m, w);
    FromBEOfBE(n, w);
  }
}
