/** Bytes and the fixed-width little-endian u64 that frames every length field. */
module Bytes {

  newtype byte = x: int | 0 <= x < 256

  /** 2^64: every u64 is below it. */
  const U64_LIMIT: int := 0x1_0000_0000_0000_0000

  /** A byte vector whose length fits a u64, as every Vec<u8> does. */
  type ByteString = s: seq<byte> | |s| < U64_LIMIT

  function Pow256(width: nat): (p: nat)
    ensures p >= 1
  {
    if width == 0 then 1 else 256 * Pow256(width - 1)
  }

  lemma Pow256Of8()
    ensures Pow256(8) == U64_LIMIT
  {
    assert Pow256(1) == 0x100;
    assert Pow256(2) == 0x1_0000;
    assert Pow256(3) == 0x100_0000;
    assert Pow256(4) == 0x1_0000_0000;
    assert Pow256(5) == 0x100_0000_0000;
    assert Pow256(6) == 0x1_0000_0000_0000;
    assert Pow256(7) == 0x100_0000_0000_0000;
  }

  /** The `width` low-order bytes of `n`, least significant first. */
  function LittleEndian(n: nat, width: nat): (s: seq<byte>)
    ensures |s| == width
  {
    if width == 0 then [] else [(n % 256) as byte] + LittleEndian(n / 256, width - 1)
  }

  /** The number whose little-endian digits are `s`. */
  function FromLittleEndian(s: seq<byte>): nat
  {
    if s == [] then 0 else s[0] as int + 256 * FromLittleEndian(s[1..])
  }

  lemma {:induction false} FromLittleEndianBound(s: seq<byte>)
    ensures FromLittleEndian(s) < Pow256(|s|)
  {
    if s != [] {
      var rest := FromLittleEndian(s[1..]);
      FromLittleEndianBound(s[1..]);
      assert 256 * rest <= 256 * (Pow256(|s| - 1) - 1);
    }
  }

  lemma {:induction false} FromLittleEndianInverts(n: nat, width: nat)
    requires n < Pow256(width)
    ensures FromLittleEndian(LittleEndian(n, width)) == n
  {
    if width > 0 {
      var s := LittleEndian(n, width);
      assert s[1..] == LittleEndian(n / 256, width - 1);
      assert n / 256 < Pow256(width - 1);
      FromLittleEndianInverts(n / 256, width - 1);
    }
  }

  lemma {:induction false} LittleEndianInverts(s: seq<byte>)
    ensures LittleEndian(FromLittleEndian(s), |s|) == s
  {
    if s != [] {
      var n := FromLittleEndian(s);
      var m := FromLittleEndian(s[1..]);
      assert n == s[0] as int + 256 * m;
      assert n % 256 == s[0] as int && n / 256 == m;
      LittleEndianInverts(s[1..]);
    }
  }

  /** The fixed-width (8-byte, little-endian) encoding of a u64. */
  function EncodeU64(n: nat): (s: seq<byte>)
    requires n < U64_LIMIT
    ensures |s| == 8
  {
    LittleEndian(n, 8)
  }

  /** The u64 an 8-byte little-endian field holds. */
  function DecodeU64(s: seq<byte>): (n: nat)
    requires |s| == 8
    ensures n < U64_LIMIT
  {
    Pow256Of8();
    FromLittleEndianBound(s);
    FromLittleEndian(s)
  }

  /** Round trip: decoding an encoded u64 gives it back. */
  lemma DecodeEncodeU64(n: nat)
    requires n < U64_LIMIT
    ensures DecodeU64(EncodeU64(n)) == n
  {
    Pow256Of8();
    FromLittleEndianInverts(n, 8);
  }

  /** Every 8-byte field is the encoding of the number it decodes to. */
  lemma DecodeU64Canonical(s: seq<byte>)
    requires |s| == 8
    ensures EncodeU64(DecodeU64(s)) == s
  {
    LittleEndianInverts(s);
  }

  /** A slice of a slice is a slice of the original. */
  lemma SubSlice<T>(s: seq<T>, lo: nat, hi: nat, i: nat, j: nat)
    requires lo <= hi <= |s| && i <= j <= hi - lo
    ensures s[lo..hi][i..j] == s[lo + i..lo + j]
  {
    var outer := s[lo..hi];
    var inner := outer[i..j];
    forall k | 0 <= k < j - i ensures inner[k] == s[lo + i + k] {
      assert inner[k] == outer[i + k];
    }
  }

  /** Where a sequence holds `a + b`, it holds `a` and then `b`. */
  lemma SplitSlice<T>(s: seq<T>, pos: nat, a: seq<T>, b: seq<T>)
    requires pos + |a| + |b| <= |s| && s[pos..pos + |a| + |b|] == a + b
    ensures s[pos..pos + |a|] == a
    ensures s[pos + |a|..pos + |a| + |b|] == b
  {
    SubSlice(s, pos, pos + |a| + |b|, 0, |a|);
    SubSlice(s, pos, pos + |a| + |b|, |a|, |a| + |b|);
    assert (a + b)[..|a|] == a;
    assert (a + b)[|a|..] == b;
  }
}
