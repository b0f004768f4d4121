/** Bytes, fixed-width integers and the little-endian codec shared by every ZIP structure. */
module Bytes {
  newtype byte = n: int | 0 <= n < 0x100
  type bytes = seq<byte>

  type u8 = n: int | 0 <= n < 0x100
  type u16 = n: int | 0 <= n < 0x1_0000
  type u32 = n: int | 0 <= n < 0x1_0000_0000
  type u64 = n: int | 0 <= n < 0x1_0000_0000_0000_0000

  const BYTE_BITS: nat := 8

  const U16_MAX: u16 := 0xFFFF
  const U32_MAX: u32 := 0xFFFF_FFFF
  const U64_MAX: u64 := 0xFFFF_FFFF_FFFF_FFFF

  datatype Option<+T> = None | Some(value: T)

  datatype Result<+T> = Ok(value: T) | Err(error: ZipError)

  /** The error codes the modelled operations report. */
  datatype ZipError =
    | Nozip | Eof | Incons | Eftoolarge | TruncatedZip | CentralDirTooLarge | Compnotsupp
    | Cancelled | Inval | Encrmethnotsupp | Nopasswd | Wrongpasswd | Crc | CompressedData | DecompressionLimit
    | Seek | Read | Write | Exists | Noent | Rdonly | Opnotsupp | SizeMismatch | TaskCancelled

  /** A growable byte vector that callers pass to the printers by mutable reference. */
  class Vec {
    var contents: bytes

    constructor ()
      ensures contents == []
    {
      contents := [];
    }

    method Extend(s: bytes)
      modifies this
      ensures contents == old(contents) + s
    {
      contents := contents + s;
    }
  }

  function Pow256(k: nat): (p: nat)
    ensures p > 0
  {
    if k == 0 then 1 else 256 * Pow256(k - 1)
  }

  /** The low `k` bytes of `n`, least significant first: a truncating cast followed by `to_le_bytes`. */
  function Le(n: nat, k: nat): (s: bytes)
    ensures |s| == k
    decreases k, n
  {
    if k == 0 then [] else [(n % 256) as byte] + Le(n / 256, k - 1)
  }

  lemma SmallLe(n: nat)
    requires n < 256
    ensures Le(n, 2) == [n as byte, 0]
  {
    assert Le(0, 1) == [0];
  }

  function FromLe(s: bytes): nat {
    if s == [] then 0 else s[0] as int + 256 * FromLe(s[1..])
  }

  lemma {:induction false} FromLeBound(s: bytes)
    ensures FromLe(s) < Pow256(|s|)
  {
    if s != [] {
      FromLeBound(s[1..]);
    }
  }

  lemma {:induction false} DecodeEncode(n: nat, k: nat)
    requires n < Pow256(k)
    ensures FromLe(Le(n, k)) == n
  {
    if k > 0 {
      DecodeEncode(n / 256, k - 1);
      assert Le(n, k)[1..] == Le(n / 256, k - 1);
    }
  }

  lemma {:induction false} EncodeDecode(s: bytes)
    ensures Le(FromLe(s), |s|) == s
  {
    if s != [] {
      EncodeDecode(s[1..]);
      var n := FromLe(s);
      assert n % 256 == s[0] as int && n / 256 == FromLe(s[1..]);
      assert s == [s[0]] + s[1..];
    }
  }

  lemma Widths()
    ensures Pow256(2) == 0x1_0000 && Pow256(4) == 0x1_0000_0000 && Pow256(8) == 0x1_0000_0000_0000_0000
  {
    assert Pow256(1) == 256;
    assert Pow256(3) == 0x100_0000;
    assert Pow256(5) == 0x100_0000_0000;
    assert Pow256(7) == 0x100_0000_0000_0000;
  }

  function U16(b: bytes, p: nat): u16
    requires p + 2 <= |b|
  {
    FromLeBound(b[p..p + 2]); Widths();
    FromLe(b[p..p + 2])
  }

  function U32(b: bytes, p: nat): u32
    requires p + 4 <= |b|
  {
    FromLeBound(b[p..p + 4]); Widths();
    FromLe(b[p..p + 4])
  }

  function U64(b: bytes, p: nat): u64
    requires p + 8 <= |b|
  {
    FromLeBound(b[p..p + 8]); Widths();
    FromLe(b[p..p + 8])
  }

  lemma U16At(b: bytes, p: nat, n: u16)
    requires p + 2 <= |b| && b[p..p + 2] == Le(n, 2)
    ensures U16(b, p) == n
  {
    Widths(); DecodeEncode(n, 2);
  }

  lemma U32At(b: bytes, p: nat, n: u32)
    requires p + 4 <= |b| && b[p..p + 4] == Le(n, 4)
    ensures U32(b, p) == n
  {
    Widths(); DecodeEncode(n, 4);
  }

  lemma U64At(b: bytes, p: nat, n: u64)
    requires p + 8 <= |b| && b[p..p + 8] == Le(n, 8)
    ensures U64(b, p) == n
  {
    Widths(); DecodeEncode(n, 8);
  }

  lemma SubSlice(b: bytes, p: nat, s: bytes, i: nat, j: nat)
    requires p + |s| <= |b| && b[p..p + |s|] == s && i <= j <= |s|
    ensures b[p + i..p + j] == s[i..j]
  {
    forall k | 0 <= k < j - i
      ensures b[p + i..p + j][k] == s[i..j][k]
    {
      assert b[p..p + |s|][i + k] == b[p + i + k];
    }
  }

  // Reading a field and printing it again gives back its bytes.
  lemma LeU16(b: bytes, p: nat)
    requires p + 2 <= |b|
    ensures Le(U16(b, p), 2) == b[p..p + 2]
  {
    EncodeDecode(b[p..p + 2]);
  }

  lemma LeU32(b: bytes, p: nat)
    requires p + 4 <= |b|
    ensures Le(U32(b, p), 4) == b[p..p + 4]
  {
    EncodeDecode(b[p..p + 4]);
  }

  // A field of a slice is a field of the whole.
  lemma SlicedFields(b: bytes, lo: nat, hi: nat, p: nat)
    requires lo <= hi <= |b| && lo + p <= hi
    ensures lo + p + 2 <= hi ==> U16(b[lo..hi], p) == U16(b, lo + p)
    ensures lo + p + 4 <= hi ==> U32(b[lo..hi], p) == U32(b, lo + p)
    ensures lo + p + 8 <= hi ==> U64(b[lo..hi], p) == U64(b, lo + p)
  {
    if lo + p + 2 <= hi { SubSlice(b, lo, b[lo..hi], p, p + 2); }
    if lo + p + 4 <= hi { SubSlice(b, lo, b[lo..hi], p, p + 4); }
    if lo + p + 8 <= hi { SubSlice(b, lo, b[lo..hi], p, p + 8); }
  }

  lemma Join(b: bytes, i: nat, j: nat, k: nat)
    requires i <= j <= k <= |b|
    ensures b[i..j] + b[j..k] == b[i..k]
  {}
}
