/** Bytes and the fixed-width unsigned integers of the file format. */
module Bytes {

  type Byte = b: int | 0 <= b < 0x100

  type Uint16 = n: nat | n < 0x1_0000
  type Uint32 = n: nat | n < 0x1_0000_0000
  type Uint64 = n: nat | n < 0x1_0000_0000_0000_0000

  /** 256 to the power n: one more than the largest n-byte unsigned value. */
  function Pow256(n: nat): (r: nat)
    ensures r >= 1
  {
    if n == 0 then 1 else 0x100 * Pow256(n - 1)
  }

  /** The reference meaning of a big-endian unsigned integer: every byte is one
      base-256 digit, the most significant first. */
  function BigEndian(s: seq<Byte>): nat {
    if s == [] then 0 else BigEndian(s[..|s| - 1]) * 0x100 + s[|s| - 1] as int
  }

  lemma {:induction false} BigEndianBound(s: seq<Byte>)
    ensures BigEndian(s) < Pow256(|s|)
  {
    if s != [] {
      BigEndianBound(s[..|s| - 1]);
    }
  }

  /** `u16::from_be_bytes([s[i], s[i + 1]])`. */
  function U16At(s: seq<Byte>, i: nat): (r: Uint16)
    requires i + 2 <= |s|
    ensures r == BigEndian(s[i..i + 2])
  {
    BigEndian2(s[i..i + 2]);
    s[i] as int * 0x100 + s[i + 1]
  }

  /** `u32::from_be_bytes([s[i], .., s[i + 3]])`. */
  function U32At(s: seq<Byte>, i: nat): (r: Uint32)
    requires i + 4 <= |s|
    ensures r == BigEndian(s[i..i + 4])
  {
    BigEndian4(s[i..i + 4]);
    s[i] as int * 0x100_0000 + s[i + 1] as int * 0x1_0000 + s[i + 2] as int * 0x100 + s[i + 3]
  }

  lemma BigEndian2(s: seq<Byte>)
    requires |s| == 2
    ensures BigEndian(s) == s[0] as int * 0x100 + s[1]
  {
    assert s[..1][..0] == [];
    assert BigEndian(s[..1]) == s[0];
  }

  lemma BigEndian3(s: seq<Byte>)
    requires |s| == 3
    ensures BigEndian(s) == s[0] as int * 0x1_0000 + s[1] as int * 0x100 + s[2]
  {
    BigEndian2(s[..2]);
  }

  lemma BigEndian4(s: seq<Byte>)
    requires |s| == 4
    ensures BigEndian(s) == s[0] as int * 0x100_0000 + s[1] as int * 0x1_0000 + s[2] as int * 0x100 + s[3]
  {
    BigEndian3(s[..3]);
  }

  /** The w-byte big-endian encoding of n (`to_be_bytes`), the partner of
      `BigEndian`. */
  function ToBigEndian(n: nat, w: nat): (r: seq<Byte>)
    requires n < Pow256(w)
    ensures |r| == w
    decreases w
  {
    if w == 0 then [] else ToBigEndian(n / 0x100, w - 1) + [n % 0x100]
  }

  /** Encoding and then reading back gives the number again. */
  lemma {:induction false} BigEndianRoundTrip(n: nat, w: nat)
    requires n < Pow256(w)
    ensures BigEndian(ToBigEndian(n, w)) == n
    decreases w
  {
    if w > 0 {
      var r := ToBigEndian(n, w);
      assert r[..|r| - 1] == ToBigEndian(n / 0x100, w - 1);
      BigEndianRoundTrip(n / 0x100, w - 1);
    }
  }

  /** A slice of a slice is a slice of the original. */
  lemma SliceOfSlice(s: seq<Byte>, i: nat, j: nat, k: nat, l: nat)
    requires i <= j <= |s| && k <= l <= j - i
    ensures s[i..j][k..l] == s[i + k..i + l]
  {
    assert forall m :: 0 <= m < l - k ==> s[i..j][k..l][m] == s[i + k + m];
  }
}
