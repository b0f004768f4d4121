/** WinZip AES: the counter mode with its little-endian counter, and the authenticated region of an entry. */
module AesCtr {
  import opened Bytes
  import Bits
  import Dirents

  const HMAC_LENGTH := 10
  const VERIFY_LENGTH := 2
  const BLOCK := 16

  /** The foreign primitives: a block cipher, a key derivation and a MAC, known only to be deterministic. */
  datatype Primitives = Primitives(
    block: (bytes, bytes) -> bytes, kdf: (bytes, bytes, nat) -> bytes, mac: (bytes, bytes) -> bytes)
  {
    predicate Sized(key: bytes, s: bytes) { |block(key, s)| == BLOCK }
  }

  ghost predicate WellSized(p: Primitives) {
    && (forall k, s :: |p.block(k, s)| == BLOCK)
    && (forall pw, salt, n :: |p.kdf(pw, salt, n)| == n)
    && (forall k, s :: |p.mac(k, s)| >= HMAC_LENGTH)
  }

  // ----- the counter -----

  /** The counter block used for block `k`: a 64-bit little-endian counter from 1, then eight zero bytes. */
  function Counter(k: nat): (s: bytes)
    ensures |s| == BLOCK
  {
    Le(k + 1, 8) + seq(8, _ => 0)
  }

  /** The carry loop as a function: increment, and carry while bytes wrap to zero. */
  function Increment(s: bytes): (r: bytes)
    ensures |r| == |s|
  {
    if s == [] then []
    else if s[0] == 255 then [0] + Increment(s[1..])
    else [s[0] + 1] + s[1..]
  }

  lemma {:induction false} IncrementIsSuccessor(n: nat, k: nat)
    ensures Increment(Le(n, k)) == Le(n + 1, k)
    decreases k
  {
    if k > 0 {
      assert Le(n, k)[1..] == Le(n / 256, k - 1);
      if n % 256 == 255 {
        IncrementIsSuccessor(n / 256, k - 1);
        assert (n + 1) % 256 == 0 && (n + 1) / 256 == n / 256 + 1;
      } else {
        assert (n + 1) % 256 == n % 256 + 1 && (n + 1) / 256 == n / 256;
      }
    }
  }

  lemma {:induction false} LeOnlySeesLowBytes(n: nat, k: nat)
    ensures FromLe(Le(n, k)) == n % Pow256(k)
    decreases k
  {
    if k > 0 {
      LeOnlySeesLowBytes(n / 256, k - 1);
      assert Le(n, k)[1..] == Le(n / 256, k - 1);
      ModStep(n, Pow256(k - 1));
    }
  }

  lemma ModStep(n: nat, p: nat)
    requires p > 0
    ensures n % 256 + 256 * ((n / 256) % p) == n % (256 * p)
  {
    var q, r := (n / 256) / p, (n / 256) % p;
    assert n / 256 == p * q + r;
    assert n == (256 * p) * q + (256 * r + n % 256);
    assert 256 * r + n % 256 < 256 * p;
    RemainderIs(n, 256 * p, q, 256 * r + n % 256);
  }

  lemma RemainderIs(n: nat, m: nat, q: nat, r: nat)
    requires r < m && n == m * q + r
    ensures n % m == r
  {
    var p, s := n / m, n % m;
    assert n == m * p + s;
    Bits.QuotientIs(n, m, q, r);
  }

  /** Counter blocks repeat exactly with period 2^64, so they are pairwise distinct for fewer than 2^64 blocks,
      as section 6.5 of NIST SP 800-38A requires. */
  lemma CountersRepeat(i: nat, j: nat)
    ensures Counter(i) == Counter(j) <==> i % 0x1_0000_0000_0000_0000 == j % 0x1_0000_0000_0000_0000
  {
    hide Le, FromLe, Pow256;
    Widths();
    LeOnlySeesLowBytes(i + 1, 8);
    LeOnlySeesLowBytes(j + 1, 8);
    assert Counter(i)[..8] == Le(i + 1, 8) && Counter(j)[..8] == Le(j + 1, 8);
    SuccessorsModulo(i, j);
    if Counter(i) != Counter(j) {
      EncodeDecode(Le(i + 1, 8));
      EncodeDecode(Le(j + 1, 8));
    }
  }

  lemma SuccessorsModulo(i: nat, j: nat)
    ensures (i + 1) % 0x1_0000_0000_0000_0000 == (j + 1) % 0x1_0000_0000_0000_0000 <==>
              i % 0x1_0000_0000_0000_0000 == j % 0x1_0000_0000_0000_0000
  {}

  lemma CountersDistinct(i: nat, j: nat, blocks: nat)
    requires i < j < blocks < 0x1_0000_0000_0000_0000
    ensures Counter(i) != Counter(j)
  {
    hide Counter;
    CountersRepeat(i, j);
  }

  // ----- counter mode -----

  function CtrByte(p: Primitives, key: bytes, i: nat, b: byte): byte
    requires p.Sized(key, Counter(i / BLOCK))
  {
    Bits.XorByte(b, p.block(key, Counter(i / BLOCK))[i % BLOCK])
  }

  ghost function CtrApply(p: Primitives, key: bytes, data: bytes): (r: bytes)
    requires WellSized(p)
    ensures |r| == |data|
  {
    seq(|data|, i requires 0 <= i < |data| => CtrByte(p, key, i, data[i]))
  }

  /** Counter mode is its own inverse. */
  lemma CtrIsInvolution(p: Primitives, key: bytes, data: bytes)
    requires WellSized(p)
    ensures CtrApply(p, key, CtrApply(p, key, data)) == data
  {
    hide Bits.XorByte, Counter;
    forall i | 0 <= i < |data|
      ensures CtrApply(p, key, CtrApply(p, key, data))[i] == data[i]
    {
      Bits.XorTwice(data[i], p.block(key, Counter(i / BLOCK))[i % BLOCK]);
    }
  }

  method IncrementInPlace(counter: array<byte>)
    requires counter.Length == BLOCK
    modifies counter
    ensures counter[..8] == Increment(old(counter[..8])) && counter[8..] == old(counter[8..])
  {
    hide Increment, Zeros;
    ghost var was := counter[..];
    NoZeros(was);
    var j := 0;
    while j < 8
      invariant 0 <= j <= 8
      invariant counter[..] == Zeros(j) + was[j..]
      invariant Increment(was[..8]) == Zeros(j) + Increment(was[j..8])
    {
      IncrementStep(was[j..8]);
      assert was[j..8][0] == was[j] && was[j..8][1..] == was[j + 1..8];
      assert counter[j] == counter[..][j] == was[j];
      var v: byte := if counter[j] == 255 then 0 else counter[j] + 1;
      ghost var c := counter[..];
      counter[j] := v;
      assert counter[..] == c[j := v];
      SetByte(Zeros(j), v, was, j);
      CarryStep(Zeros(j), v, was, j);
      if v != 0 { return; }
      OneMoreZero(j, Increment(was[j + 1..8]), was[j + 1..]);
      j := j + 1;
    }
    IncrementNothing();
    assert was[8..8] == [] && Zeros(8) + [] == Zeros(8);
  }

  function Zeros(n: nat): (s: bytes)
    ensures |s| == n
  {
    seq(n, _ => 0)
  }

  lemma NoZeros(was: bytes)
    requires |was| == BLOCK
    ensures Zeros(0) + was[0..] == was && Zeros(0) + Increment(was[0..8]) == Increment(was[..8])
  {
    assert was[0..8] == was[..8];
  }

  lemma SetByte(z: bytes, v: byte, was: bytes, j: nat)
    requires |z| == j < |was|
    ensures (z + was[j..])[j := v] == z + [v] + was[j + 1..]
  {}

  lemma CarryStep(z: bytes, v: byte, was: bytes, j: nat)
    requires |was| == BLOCK && |z| == j < 8
    ensures var c := z + [v] + was[j + 1..]; c[..8] == z + ([v] + was[j + 1..8]) && c[8..] == was[8..]
  {}

  lemma OneMoreZero(j: nat, low: bytes, rest: bytes)
    ensures Zeros(j) + ([0] + low) == Zeros(j + 1) + low && Zeros(j) + [0] + rest == Zeros(j + 1) + rest
  {
    assert Zeros(j) + [0] == Zeros(j + 1);
  }

  lemma IncrementNothing()
    ensures Increment([]) == []
  {}

  lemma IncrementStep(s: bytes)
    requires s != []
    ensures Increment(s) == if s[0] == 255 then [0] + Increment(s[1..]) else [s[0] + 1] + s[1..]
  {}

  /** Applies the keystream to the buffer in place, one counter block at a time. */
  method AesCtrApply(p: Primitives, key: bytes, data: array<byte>)
    requires WellSized(p)
    modifies data
    ensures data[..] == CtrApply(p, key, old(data[..]))
  {
    hide Bits.XorByte, Increment, Le;
    ghost var was := data[..];
    var counter := new byte[BLOCK](i => if i == 0 then 1 else 0);
    FirstCounter();
    assert counter[..] == Counter(0);
    var pos := 0;
    ghost var k := 0;
    while pos < data.Length
      invariant pos == BLOCK * k && fresh(counter) && counter.Length == BLOCK
      invariant counter[..] == Counter(k)
      invariant forall i | 0 <= i < data.Length ::
                  data[i] == if i < pos then CtrByte(p, key, i, was[i]) else was[i]
      decreases data.Length - pos
    {
      var pad := p.block(key, counter[..]);
      assert |pad| == BLOCK;
      var n := if 16 <= data.Length - pos then 16 else data.Length - pos;
      for j := 0 to n
        invariant counter[..] == Counter(k)
        invariant forall i | 0 <= i < data.Length ::
                    data[i] == if i < pos + j then CtrByte(p, key, i, was[i]) else was[i]
      {
        BlockIndex(k, j);
        data[pos + j] := Bits.XorByte(data[pos + j], pad[j]);
      }
      pos := pos + 16;
      ghost var before := counter[..];
      assert before[..8] == Le(k + 1, 8) && before[8..] == seq(8, _ => 0);
      assert counter[..8] == before[..8] && counter[8..] == before[8..];
      IncrementInPlace(counter);
      IncrementIsSuccessor(k + 1, 8);
      k := k + 1;
      assert counter[..] == counter[..8] + counter[8..];
    }
  }

  lemma FirstCounter()
    ensures Counter(0) == [1] + seq(15, _ => 0)
  {
    var n: nat := 8;
    assert Le(1, 8) == [1, 0, 0, 0, 0, 0, 0, 0];
  }

  lemma BlockIndex(k: nat, j: nat)
    requires j < BLOCK
    ensures (BLOCK * k + j) / BLOCK == k && (BLOCK * k + j) % BLOCK == j
  {}

  // ----- the authenticated region -----

  function KeyLength(enc: nat): nat {
    if enc == Dirents.ENC_AES_128 then 16 else if enc == Dirents.ENC_AES_192 then 24
    else if enc == Dirents.ENC_AES_256 then 32 else 0
  }

  function SaltLength(enc: nat): nat { KeyLength(enc) / 2 }

  datatype Derived = Derived(aesKey: bytes, hmacKey: bytes, verify: bytes)

  ghost function Derive(p: Primitives, enc: nat, password: bytes, salt: bytes): (d: Derived)
    requires WellSized(p)
    ensures |d.verify| == VERIFY_LENGTH
  {
    var n := KeyLength(enc);
    var k := p.kdf(password, salt, 2 * n + VERIFY_LENGTH);
    Derived(k[..n], k[n..2 * n], k[2 * n..])
  }

  // Any other method leaves the data as it is.
  ghost function Keystream(p: Primitives, enc: nat, key: bytes, data: bytes): (r: bytes)
    requires WellSized(p)
    ensures |r| == |data|
  {
    if KeyLength(enc) == 0 then data else CtrApply(p, key, data)
  }

  ghost function EncryptedRegion(p: Primitives, enc: nat, password: bytes, salt: bytes, data: bytes): bytes
    requires WellSized(p)
  {
    var d := Derive(p, enc, password, salt);
    var cipher := Keystream(p, enc, d.aesKey, data);
    salt + d.verify + cipher + p.mac(d.hmacKey, cipher)[..HMAC_LENGTH]
  }

  ghost function DecryptedRegion(p: Primitives, enc: nat, password: bytes, region: bytes): Result<bytes>
    requires WellSized(p)
  {
    var n := SaltLength(enc);
    if |region| < n + VERIFY_LENGTH + HMAC_LENGTH then Err(TruncatedZip)
    else
      var d := Derive(p, enc, password, region[..n]);
      var cipher := region[n + VERIFY_LENGTH..|region| - HMAC_LENGTH];
      if region[n..n + VERIFY_LENGTH] != d.verify then Err(Wrongpasswd)
      else if p.mac(d.hmacKey, cipher)[..HMAC_LENGTH] != region[|region| - HMAC_LENGTH..] then Err(Crc)
      else Ok(Keystream(p, enc, d.aesKey, cipher))
  }

  /** Decrypting an encrypted region gives the data back, whatever its length, for a salt of the right length. */
  lemma RegionRoundTrip(p: Primitives, enc: nat, password: bytes, salt: bytes, data: bytes)
    requires WellSized(p) && |salt| == SaltLength(enc)
    ensures DecryptedRegion(p, enc, password, EncryptedRegion(p, enc, password, salt, data)) == Ok(data)
  {
    hide CtrApply, KeyLength;
    var d := Derive(p, enc, password, salt);
    var cipher := Keystream(p, enc, d.aesKey, data);
    var tag := p.mac(d.hmacKey, cipher)[..HMAC_LENGTH];
    var r, n := EncryptedRegion(p, enc, password, salt, data), |salt|;
    assert r == salt + d.verify + cipher + tag;
    assert r[..n] == salt && r[n..n + VERIFY_LENGTH] == d.verify;
    assert r[n + VERIFY_LENGTH..|r| - HMAC_LENGTH] == cipher && r[|r| - HMAC_LENGTH..] == tag;
    CtrIsInvolution(p, d.aesKey, data);
  }

  /** A region is accepted only if its tag authenticates its ciphertext under the derived key. */
  lemma AcceptedIsAuthentic(p: Primitives, enc: nat, password: bytes, region: bytes)
    requires WellSized(p)
    ensures var r := DecryptedRegion(p, enc, password, region);
            r.Ok? ==>
              var salt := region[..SaltLength(enc)];
              |salt| == SaltLength(enc) && region == EncryptedRegion(p, enc, password, salt, r.value)
  {
    hide CtrApply, KeyLength;
    var n := SaltLength(enc);
    if DecryptedRegion(p, enc, password, region).Ok? {
      var d := Derive(p, enc, password, region[..n]);
      var cipher := region[n + VERIFY_LENGTH..|region| - HMAC_LENGTH];
      CtrIsInvolution(p, d.aesKey, cipher);
      assert region == region[..n] + region[n..n + VERIFY_LENGTH] + cipher + region[|region| - HMAC_LENGTH..];
    }
  }

  /** The region byte by byte, as numbers: keys of 16, 24 or 32 bytes and salts of half that; after the salt two
      bytes of verifier, then each byte of data under the block its position falls in, counted from 1, then ten bytes
      of tag. All keys come from one derivation of twice the key length and two bytes. */
  lemma RegionBytes(p: Primitives, enc: nat, password: bytes, salt: bytes, data: bytes, i: nat)
    requires WellSized(p) && 0x0101 <= enc <= 0x0103 && i < |data|
    ensures var n := 8 * (enc - 0x0100) + 8;
            var k, r := p.kdf(password, salt, 2 * n + 2), EncryptedRegion(p, enc, password, salt, data);
            && SaltLength(enc) == n / 2 && |k| == 2 * n + 2
            && |r| == |salt| + 2 + |data| + 10 && r[..|salt|] == salt && r[|salt|..|salt| + 2] == k[2 * n..]
            && r[|salt| + 2 + i] == Bits.XorByte(data[i], p.block(k[..n], Le(1 + i / 16, 8) + seq(8, _ => 0))[i % 16])
            && r[|r| - 10..] == p.mac(k[n..2 * n], r[|salt| + 2..|r| - 10])[..10]
  {
    hide Bits.XorByte, Le;
    var n := 8 * (enc - 0x0100) + 8;
    var d := Derive(p, enc, password, salt);
    var cipher := CtrApply(p, d.aesKey, data);
    var r, tag := EncryptedRegion(p, enc, password, salt, data), p.mac(d.hmacKey, cipher)[..HMAC_LENGTH];
    assert r == salt + d.verify + cipher + tag;
    assert r[|salt| + 2..|r| - 10] == cipher && r[|r| - 10..] == tag && r[|salt| + 2 + i] == cipher[i];
    assert Counter(i / 16) == Le(1 + i / 16, 8) + seq(8, _ => 0);
  }

  /** Why a region is refused: too short for salt, verifier and tag; another verifier than the password gives; another tag
      than the ciphertext has. */
  lemma RegionErrors(p: Primitives, enc: nat, password: bytes, region: bytes)
    requires WellSized(p) && 0x0101 <= enc <= 0x0103
    ensures var n := 8 * (enc - 0x0100) + 8;
            var m, r := n / 2, DecryptedRegion(p, enc, password, region);
            if |region| < m + 12 then r == Err(TruncatedZip)
            else
              var k := p.kdf(password, region[..m], 2 * n + 2);
              if region[m..m + 2] != k[2 * n..] then r == Err(Wrongpasswd)
              else if region[|region| - 10..] != p.mac(k[n..2 * n], region[m + 2..|region| - 10])[..10] then r == Err(Crc)
              else r.Ok? && |r.value| == |region| - m - 12
  {
    hide CtrApply;
  }

  method ApplyKeystream(p: Primitives, enc: nat, key: bytes, data: bytes) returns (r: bytes)
    requires WellSized(p)
    ensures r == Keystream(p, enc, key, data)
  {
    hide CtrApply;
    var buf := new byte[|data|](i requires 0 <= i < |data| => data[i]);
    assert buf[..] == data;
    if KeyLength(enc) != 0 {
      AesCtrApply(p, key, buf);
    }
    r := buf[..];
  }

  method AesEncryptData(p: Primitives, password: bytes, enc: nat, data: bytes, salt: bytes) returns (out: bytes)
    requires WellSized(p)
    ensures out == EncryptedRegion(p, enc, password, salt, data)
  {
    hide CtrApply, KeyLength;
    var n := KeyLength(enc);
    var k := p.kdf(password, salt, 2 * n + VERIFY_LENGTH);
    var cipher := ApplyKeystream(p, enc, k[..n], data);
    var tag := p.mac(k[n..2 * n], cipher);
    out := salt;
    out := out + k[2 * n..];
    out := out + cipher;
    out := out + tag[..HMAC_LENGTH];
  }

  method AesDecryptData(p: Primitives, password: bytes, enc: nat, data: bytes) returns (r: Result<bytes>)
    requires WellSized(p)
    ensures r == DecryptedRegion(p, enc, password, data)
  {
    hide CtrApply, KeyLength;
    var n, s := KeyLength(enc), SaltLength(enc);
    if |data| < s + VERIFY_LENGTH + HMAC_LENGTH { return Err(TruncatedZip); }
    var k := p.kdf(password, data[..s], 2 * n + VERIFY_LENGTH);
    var cipher := data[s + VERIFY_LENGTH..|data| - HMAC_LENGTH];
    if data[s..s + VERIFY_LENGTH] != k[2 * n..] { return Err(Wrongpasswd); }
    if p.mac(k[n..2 * n], cipher)[..HMAC_LENGTH] != data[|data| - HMAC_LENGTH..] { return Err(Crc); }
    var plain := ApplyKeystream(p, enc, k[..n], cipher);
    return Ok(plain);
  }
}
