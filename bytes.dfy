/**
 * Bytes and the fixed-width little-endian integers of the casync formats.
 * Every integer field of the index and archive formats is an unsigned
 * 64-bit value stored least significant byte first (`struct.unpack("<Q", …)`).
 */
module Bytes {

  type byte = b: int | 0 <= b < 256

  const U64_LIMIT: int := 0x1_0000_0000_0000_0000

  type u64 = n: int | 0 <= n < 0x1_0000_0000_0000_0000

  function Pow256(k: nat): (p: nat)
    ensures p >= 1
  {
    if k == 0 then 1 else 256 * Pow256(k - 1)
  }

  /** The value of `s` read least significant byte first; it fits in |s| bytes. */
  function LeValue(s: seq<byte>): (n: nat)
    ensures n < Pow256(|s|)
  {
    if s == [] then 0 else s[0] + 256 * LeValue(s[1..])
  }

  /** The `k` low-order bytes of `n`, least significant first. */
  function LeBytes(n: nat, k: nat): (s: seq<byte>)
    ensures |s| == k
  {
    if k == 0 then [] else [n % 256] + LeBytes(n / 256, k - 1)
  }

  lemma {:induction false} LeValueOfLeBytes(n: nat, k: nat)
    requires n < Pow256(k)
    ensures LeValue(LeBytes(n, k)) == n
  {
    if k > 0 {
      LeValueOfLeBytes(n / 256, k - 1);
      var s := LeBytes(n, k);
      assert s[0] == n % 256 && s[1..] == LeBytes(n / 256, k - 1);
    }
  }

  lemma {:induction false} LeBytesOfLeValue(s: seq<byte>)
    ensures LeBytes(LeValue(s), |s|) == s
  {
    if s != [] {
      LeBytesOfLeValue(s[1..]);
      var n := LeValue(s);
      assert n % 256 == s[0] && n / 256 == LeValue(s[1..]);
    }
  }

  lemma Pow256Eight()
    ensures Pow256(8) == U64_LIMIT
  {
  }

  /**
   * The little-endian value of `buf[lo..hi]`, read in place. It recurses on
   * the distance `hi - lo` rather than on a byte count, so that a read of a
   * fixed width is not expanded into its bytes where only its value matters.
   */
  function LeRange(buf: seq<byte>, lo: nat, hi: nat): (n: nat)
    requires lo <= hi <= |buf|
    decreases hi - lo
  {
    if lo == hi then 0 else buf[lo] + 256 * LeRange(buf, lo + 1, hi)
  }

  lemma {:induction false} LeRangeBound(buf: seq<byte>, lo: nat, hi: nat)
    requires lo <= hi <= |buf|
    ensures LeRange(buf, lo, hi) < Pow256(hi - lo)
    decreases hi - lo
  {
    if lo < hi {
      LeRangeBound(buf, lo + 1, hi);
    }
  }

  lemma {:induction false} LeRangeIsLeValue(buf: seq<byte>, lo: nat, hi: nat)
    requires lo <= hi <= |buf|
    ensures LeRange(buf, lo, hi) == LeValue(buf[lo..hi])
    decreases hi - lo
  {
    if lo < hi {
      LeRangeIsLeValue(buf, lo + 1, hi);
      assert buf[lo..hi][1..] == buf[lo + 1..hi];
    }
  }

  /** `struct.unpack("<Q", …)` applied to the eight bytes of `buf` at `pos`. */
  function U64At(buf: seq<byte>, pos: nat): (v: u64)
    requires pos + 8 <= |buf|
  {
    LeRangeBound(buf, pos, pos + 8);
    Pow256Eight();
    LeRange(buf, pos, pos + 8)
  }

  /** A u64 field is read from its own eight bytes and no others. */
  lemma U64AtAgree(buf: seq<byte>, other: seq<byte>, pos: nat)
    requires pos + 8 <= |buf| && pos + 8 <= |other| && buf[pos..pos + 8] == other[pos..pos + 8]
    ensures U64At(buf, pos) == U64At(other, pos)
  {
    LeRangeIsLeValue(buf, pos, pos + 8);
    LeRangeIsLeValue(other, pos, pos + 8);
  }

  /** The eight bytes `struct.pack("<Q", n)` would produce. */
  function U64Encode(n: u64): (s: seq<byte>)
    ensures |s| == 8
  {
    LeBytes(n, 8)
  }

  /** Decoding the eight bytes at `pos` gives back the value encoded there. */
  lemma U64AtEncoded(buf: seq<byte>, pos: nat, n: u64)
    requires pos + 8 <= |buf| && buf[pos..pos + 8] == U64Encode(n)
    ensures U64At(buf, pos) == n
  {
    Pow256Eight();
    LeRangeIsLeValue(buf, pos, pos + 8);
    LeValueOfLeBytes(n, 8);
  }

  /** Every eight bytes are the encoding of the value they decode to. */
  lemma U64EncodeAt(buf: seq<byte>, pos: nat)
    requires pos + 8 <= |buf|
    ensures U64Encode(U64At(buf, pos)) == buf[pos..pos + 8]
  {
    LeRangeIsLeValue(buf, pos, pos + 8);
    LeBytesOfLeValue(buf[pos..pos + 8]);
  }
}
