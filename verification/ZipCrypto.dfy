/** Traditional PKWARE encryption (section 6.1 of APPNOTE.TXT): a stream cipher over three 32-bit keys. */
module ZipCryptos {
  import opened Bytes
  import opened Sources
  import opened Bits
  import Crc

  const ENCRYPTION_HEADER_LEN := 12

  datatype Keys = Keys(key0: bv32, key1: bv32, key2: bv32)

  const INITIAL := Keys(0x12345678, 0x23456789, 0x34567890)

  function TopByte(w: bv32): byte { ((w >> 24) as bv8) as byte }

  /** The linear congruential step of the second key, modulo 2^32. */
  function Congruential(key1: bv32, key0: bv32): bv32 { (key1 + (key0 & 0xFF)) * 134775813 + 1 }

  function UpdateKeys(k: Keys, b: byte): Keys {
    var key0 := Crc.BitwiseUpdate(k.key0, b);
    var key1 := Congruential(k.key1, key0);
    Keys(key0, key1, Crc.BitwiseUpdate(k.key2, TopByte(key1)))
  }

  function KeystreamByte(k: Keys): byte {
    var temp := (k.key2 | 2) & 0xFFFF;
    ((((temp * (temp ^ 1)) >> 8) & 0xFF) as bv8) as byte
  }

  function KeysFor(password: bytes): Keys {
    if password == [] then INITIAL else UpdateKeys(KeysFor(password[..|password| - 1]), password[|password| - 1])
  }

  // ----- the first keys and keystream bytes, as numbers -----

  lemma KeystreamNumbers()
    ensures KeystreamByte(Keys(0x1234_5678, 0x2345_6789, 0x3456_7890)) == 0xAB
    ensures KeystreamByte(Keys(0x6479_9C96, 0xB303_049C, 0xA253_270A)) == 0x33
  {}

  lemma SecondKeyNumber()
    ensures Congruential(0x2345_6789, 0x6479_9C96) == 0xB303_049C && TopByte(0xB303_049C) == 0xB3
  {}

  lemma FirstKeyNumber()
    ensures Crc.BitwiseUpdate(0x1234_5678, 0x61) == 0x6479_9C96
  {
    Crc.StepsUnrolled(0x1234_5619);
  }

  lemma ThirdKeyNumber()
    ensures Crc.BitwiseUpdate(0x3456_7890, 0xB3) == 0xA253_270A
  {
    Crc.StepsUnrolled(0x3456_7823);
  }

  /** Known keystreams: without a password, and after the one-letter password `a`. */
  lemma FirstKeystream()
    ensures KeysFor([]) == Keys(0x1234_5678, 0x2345_6789, 0x3456_7890) && KeystreamByte(KeysFor([])) == 0xAB
    ensures KeysFor([0x61]) == Keys(0x6479_9C96, 0xB303_049C, 0xA253_270A) && KeystreamByte(KeysFor([0x61])) == 0x33
  {
    hide KeystreamByte, Congruential, TopByte, Crc.BitwiseUpdate;
    KeystreamNumbers();
    FirstKeyNumber();
    SecondKeyNumber();
    ThirdKeyNumber();
    assert [0x61 as byte][..0] == [];
  }

  /** Ciphertext and final keys; the keys are always updated with the plaintext. */
  function Encrypt(k: Keys, s: bytes): (r: (bytes, Keys))
    ensures |r.0| == |s|
  {
    if s == [] then ([], k)
    else
      var n := |s| - 1;
      var (c, e) := Encrypt(k, s[..n]);
      (c + [XorByte(s[n], KeystreamByte(e))], UpdateKeys(e, s[n]))
  }

  function Decrypt(k: Keys, s: bytes): (r: (bytes, Keys))
    ensures |r.0| == |s|
  {
    if s == [] then ([], k)
    else
      var n := |s| - 1;
      var (p, e) := Decrypt(k, s[..n]);
      var plain := XorByte(s[n], KeystreamByte(e));
      (p + [plain], UpdateKeys(e, plain))
  }

  /** From any key state decryption undoes encryption and reaches the same state. */
  lemma {:induction false} DecryptUndoesEncrypt(k: Keys, s: bytes)
    ensures Decrypt(k, Encrypt(k, s).0) == (s, Encrypt(k, s).1)
  {
    hide UpdateKeys, KeystreamByte, XorByte;
    if s != [] {
      var n := |s| - 1;
      DecryptUndoesEncrypt(k, s[..n]);
      var c := Encrypt(k, s).0;
      assert c[..n] == Encrypt(k, s[..n]).0;
      XorTwice(s[n], KeystreamByte(Encrypt(k, s[..n]).1));
      assert s == s[..n] + [s[n]];
    }
  }

  /** Chunking does not matter: the state carries over. */
  lemma {:induction false} DecryptConcat(k: Keys, a: bytes, b: bytes)
    ensures var (p, e) := Decrypt(k, a); var (q, f) := Decrypt(e, b); Decrypt(k, a + b) == (p + q, f)
  {
    hide UpdateKeys, KeystreamByte, XorByte;
    if b == [] {
      assert a + b == a;
      assert Decrypt(k, a).0 + [] == Decrypt(k, a).0;
    } else {
      var n := |b| - 1;
      DecryptConcat(k, a, b[..n]);
      assert (a + b)[..|a + b| - 1] == a + b[..n] && (a + b)[|a + b| - 1] == b[n];
      var (p, e) := Decrypt(k, a);
      var (q, f) := Decrypt(e, b[..n]);
      var last := [XorByte(b[n], KeystreamByte(f))];
      assert p + (q + last) == p + q + last;
    }
  }

  /** The cipher object: keys updated byte by byte through the lookup table. */
  class ZipCrypto {
    const table: seq<bv32>
    var key0: bv32
    var key1: bv32
    var key2: bv32

    ghost predicate Valid()
    {
      Crc.IsTable(table)
    }

    ghost function State(): Keys
      reads this
    {
      Keys(key0, key1, key2)
    }

    constructor (password: bytes)
      ensures Valid() && State() == KeysFor(password)
    {
      hide Crc.IsTable;
      var t := Crc.BuildCrcTable();
      table := t[..];
      key0, key1, key2 := 0x12345678, 0x23456789, 0x34567890;
      new;
      for i := 0 to |password|
        invariant Valid() && State() == KeysFor(password[..i])
        modifies this
      {
        assert password[..i + 1][..i] == password[..i];
        Update(password[i]);
      }
      assert password[..|password|] == password;
    }

    method Update(b: byte)
      requires Valid()
      modifies this
      ensures Valid() && State() == UpdateKeys(old(State()), b)
    {
      hide Crc.BitwiseUpdate, Crc.TableUpdate, Crc.IsTable, Congruential, TopByte;
      TableSize(table);
      Crc.TableIsBitwise(table, key0, b);
      key0 := Crc.TableUpdate(table, key0, b);
      key1 := Congruential(key1, key0);
      Crc.TableIsBitwise(table, key2, TopByte(key1));
      key2 := Crc.TableUpdate(table, key2, TopByte(key1));
    }

    method EncryptByte(plain: byte) returns (cipher: byte)
      requires Valid()
      modifies this
      ensures Valid() && cipher == XorByte(plain, KeystreamByte(old(State())))
      ensures State() == UpdateKeys(old(State()), plain)
    {
      cipher := XorByte(plain, KeystreamByte(Keys(key0, key1, key2)));
      Update(plain);
    }

    method DecryptByte(cipher: byte) returns (plain: byte)
      requires Valid()
      modifies this
      ensures Valid() && plain == XorByte(cipher, KeystreamByte(old(State())))
      ensures State() == UpdateKeys(old(State()), plain)
    {
      plain := XorByte(cipher, KeystreamByte(Keys(key0, key1, key2)));
      Update(plain);
    }

    method EncryptInPlace(data: array<byte>)
      requires Valid()
      modifies this, data
      ensures Valid() && (data[..], State()) == Encrypt(old(State()), old(data[..]))
    {
      hide UpdateKeys, KeystreamByte, XorByte, Crc.IsTable;
      ghost var was := data[..];
      for i := 0 to data.Length
        invariant Valid() && forall k | i <= k < data.Length :: data[k] == was[k]
        invariant (data[..i], State()) == Encrypt(old(State()), was[..i])
      {
        assert was[..i + 1][..i] == was[..i];
        var c := EncryptByte(data[i]);
        ghost var done := data[..i];
        data[i] := c;
        assert data[..i] == done;
        assert data[..i + 1] == data[..i] + [c];
      }
      assert was[..data.Length] == was && data[..data.Length] == data[..];
    }

    /** Decrypts the first `n` bytes of the buffer in place. */
    method DecryptInPlace(data: array<byte>, n: nat)
      requires Valid() && n <= data.Length
      modifies this, data
      ensures Valid() && (data[..n], State()) == Decrypt(old(State()), old(data[..n]))
      ensures data[n..] == old(data[n..])
    {
      hide UpdateKeys, KeystreamByte, XorByte, Crc.IsTable;
      ghost var was := data[..];
      for i := 0 to n
        invariant Valid() && forall k | i <= k < data.Length :: data[k] == was[k]
        invariant (data[..i], State()) == Decrypt(old(State()), was[..i])
      {
        assert was[..i + 1][..i] == was[..i];
        var p := DecryptByte(data[i]);
        ghost var done := data[..i];
        data[i] := p;
        assert data[..i] == done;
        assert data[..i + 1] == data[..i] + [p];
      }
    }
  }

  lemma TableSize(table: seq<bv32>)
    requires Crc.IsTable(table)
    ensures |table| == 256
  {}

  // ----- the encrypted region of an entry -----

  function Xorshift(x: bv64): bv64 {
    var a := x ^ (x << 13);
    var b := a ^ (a >> 7);
    b ^ (b << 17)
  }

  function LowByte(x: bv64): byte { ((x & 0xFF) as bv8) as byte }

  /** The first `n` bytes of the deterministic generator. */
  function Random(state: bv64, n: nat): (s: bytes)
    ensures |s| == n
    decreases n
  {
    if n == 0 then [] else [LowByte(Xorshift(state))] + Random(Xorshift(state), n - 1)
  }

  function Seed(seed: bv64, password: bytes): bv64
    decreases |password|
  {
    if password == [] then seed
    else Seed(seed * 31 + (password[0] as int as bv64), password[1..])
  }

  function HeaderState(password: bytes, crc: bv32): bv64 {
    (Seed(0x9E37_79B9_7F4A_7C15, password) ^ (crc as bv64)) | 1
  }

  /** Eleven arbitrary bytes and the check byte. */
  function Header(password: bytes, crc: bv32): (s: bytes)
    ensures |s| == ENCRYPTION_HEADER_LEN && s[11] == TopByte(crc)
  {
    Random(HeaderState(password, crc), 11) + [TopByte(crc)]
  }

  function EncryptedData(password: bytes, crc: bv32, data: bytes): (s: bytes)
    ensures |s| == ENCRYPTION_HEADER_LEN + |data|
  {
    Encrypt(KeysFor(password), Header(password, crc) + data).0
  }

  lemma HeaderNumbers()
    ensures Xorshift(0x28B7_BD76_7831_5095) == 0x5F8E_259B_DC6F_B774 && LowByte(0x5F8E_259B_DC6F_B774) == 0x74
    ensures Xorshift(0x5F8E_259B_DC6F_B774) == 0xD35F_2902_6CE0_351A && LowByte(0xD35F_2902_6CE0_351A) == 0x1A
    ensures (0x28B7_BD76_6A05_06EC as bv64 ^ 0x1234_5678) | 1 == 0x28B7_BD76_7831_5095
    ensures 0x9E37_79B9_7F4A_7C15 as bv64 * 31 + 0x61 == 0x28B7_BD76_6A05_06EC
    ensures TopByte(0x1234_5678) == 0x12
  {}

  lemma SeedOfLetter(state: bv64)
    ensures Seed(state, [0x61]) == state * 31 + 0x61
  {
    var p: bytes := [0x61];
    assert p[1..] == [] && p[0] as int as bv64 == 0x61;
    hide *;
    SeedStep(state, p);
    SeedStep(state * 31 + 0x61, []);
  }

  lemma SeedStep(state: bv64, p: bytes)
    ensures Seed(state, p) == if p == [] then state else Seed(state * 31 + (p[0] as int as bv64), p[1..])
  {}

  lemma TwoRandom(state: bv64, n: nat)
    requires n >= 2
    ensures Random(state, n)[0] == LowByte(Xorshift(state)) && Random(state, n)[1] == LowByte(Xorshift(Xorshift(state)))
  {
    hide Xorshift, LowByte;
  }

  /** The header before encryption, for the one-letter password `a` and the CRC 0x12345678: its first two bytes, and the
      last, which is the first byte of the CRC. */
  lemma HeaderBytes()
    ensures var h := Header([0x61], 0x1234_5678); h[0] == 0x74 && h[1] == 0x1A && h[11] == 0x12
  {
    hide Xorshift, LowByte, TopByte, Seed, Random;
    HeaderNumbers();
    SeedOfLetter(0x9E37_79B9_7F4A_7C15);
    assert HeaderState([0x61], 0x1234_5678) == 0x28B7_BD76_7831_5095;
    TwoRandom(HeaderState([0x61], 0x1234_5678), 11);
  }

  lemma {:induction false} EncryptConcat(k: Keys, a: bytes, b: bytes)
    ensures var (p, e) := Encrypt(k, a); var (q, f) := Encrypt(e, b); Encrypt(k, a + b) == (p + q, f)
  {
    hide UpdateKeys, KeystreamByte, XorByte;
    if b == [] {
      assert a + b == a;
      assert Encrypt(k, a).0 + [] == Encrypt(k, a).0;
    } else {
      var n := |b| - 1;
      EncryptConcat(k, a, b[..n]);
      assert (a + b)[..|a + b| - 1] == a + b[..n] && (a + b)[|a + b| - 1] == b[n];
      var (p, e) := Encrypt(k, a);
      var (q, f) := Encrypt(e, b[..n]);
      var last := [XorByte(b[n], KeystreamByte(f))];
      assert p + (q + last) == p + q + last;
    }
  }

  method EncryptData(password: bytes, crc: bv32, data: bytes) returns (out: bytes)
    ensures out == EncryptedData(password, crc, data)
  {
    hide UpdateKeys, KeystreamByte, XorByte, Encrypt, Random, HeaderState, TopByte;
    var crypto := new ZipCrypto(password);
    var header := Header(password, crc);
    var h := new byte[ENCRYPTION_HEADER_LEN](i requires 0 <= i < ENCRYPTION_HEADER_LEN => header[i]);
    assert h[..] == header;
    crypto.EncryptInPlace(h);
    out := h[..];
    var d := new byte[|data|](i requires 0 <= i < |data| => data[i]);
    assert d[..] == data;
    crypto.EncryptInPlace(d);
    out := out + d[..];
    EncryptConcat(KeysFor(password), header, data);
  }

  /** A reader that decrypts what it reads from an inner source. */
  class DecryptingSource {
    const inner: Source
    const crypto: ZipCrypto

    ghost predicate Valid() { crypto.Valid() }

    constructor (inner: Source, crypto: ZipCrypto)
      requires crypto.Valid()
      ensures Valid() && this.inner == inner && this.crypto == crypto
    {
      this.inner := inner;
      this.crypto := crypto;
    }

    /** Fills the front of the buffer with plaintext; the key state advances with it. */
    method Read(buf: array<byte>) returns (n: nat)
      requires Valid()
      modifies inner, crypto, buf
      ensures n <= buf.Length && inner.pos == old(inner.pos) + n
      ensures n > 0 ==> inner.pos <= |inner.data|
      ensures old(inner.pos) <= |inner.data| ==>
                n == if buf.Length <= |inner.data| - old(inner.pos) then buf.Length else |inner.data| - old(inner.pos)
      ensures (buf[..n], crypto.State()) ==
              Decrypt(old(crypto.State()), if n == 0 then [] else inner.data[old(inner.pos)..inner.pos])
    {
      hide UpdateKeys, KeystreamByte, XorByte, Decrypt;
      n := inner.ReadInto(buf);
      crypto.DecryptInPlace(buf, n);
    }

    /** Reads with one buffer after another, of any sizes, zero included. */
    method ReadChunks(sizes: seq<nat>) returns (out: bytes)
      requires Valid() && inner.pos <= |inner.data|
      modifies inner, crypto
      ensures old(inner.pos) <= inner.pos <= |inner.data| && inner.pos == old(inner.pos) + |out|
      ensures (out, crypto.State()) == Decrypt(old(crypto.State()), inner.data[old(inner.pos)..inner.pos])
      ensures Total(sizes) >= |inner.data| - old(inner.pos) ==> inner.pos == |inner.data|
      ensures Total(sizes) <= |inner.data| - old(inner.pos) ==> |out| == Total(sizes)
    {
      hide UpdateKeys, KeystreamByte, XorByte, Decrypt;
      out := [];
      ghost var from := inner.pos;
      EmptyRun(crypto.State());
      assert inner.data[from..from] == [];
      for i := 0 to |sizes|
        invariant from <= inner.pos <= |inner.data| && inner.pos == from + |out|
        invariant (out, crypto.State()) == Decrypt(old(crypto.State()), inner.data[from..inner.pos])
        invariant |out| == if Total(sizes[..i]) <= |inner.data| - from then Total(sizes[..i]) else |inner.data| - from
      {
        ghost var at := inner.pos;
        var buf := new byte[sizes[i]];
        assert sizes[..i + 1][..i] == sizes[..i];
        var n := Read(buf);
        Join(inner.data, from, at, inner.pos);
        assert inner.data[at..at] == [];
        DecryptConcat(old(crypto.State()), inner.data[from..at], inner.data[at..inner.pos]);
        out := out + buf[..n];
      }
      assert sizes[..|sizes|] == sizes;
    }
  }

  lemma EmptyRun(k: Keys)
    ensures Decrypt(k, []) == ([], k)
  {}

  function Total(sizes: seq<nat>): nat {
    if sizes == [] then 0 else Total(sizes[..|sizes| - 1]) + sizes[|sizes| - 1]
  }

  /** Opens an encrypted entry whose data starts at the source position: reads and decrypts the header, checks its
      last byte against the stored CRC, and only then the recorded size. */
  method OpenEncrypted(src: Source, password: bytes, crc: bv32, compSize: nat) returns (r: Result<DecryptingSource>)
    modifies src
    ensures old(src.pos) + ENCRYPTION_HEADER_LEN > |src.data| ==> r == Err(Eof)
    ensures old(src.pos) + ENCRYPTION_HEADER_LEN <= |src.data| ==>
              var (head, keys) := Decrypt(KeysFor(password), src.data[old(src.pos)..old(src.pos) + ENCRYPTION_HEADER_LEN]);
              if head[11] != TopByte(crc) then r == Err(Wrongpasswd)
              else if compSize < ENCRYPTION_HEADER_LEN then r == Err(TruncatedZip)
              else r.Ok? && r.value.Valid() && r.value.inner == src && fresh(r.value.crypto)
                   && r.value.crypto.State() == keys && src.pos == old(src.pos) + ENCRYPTION_HEADER_LEN
  {
    hide UpdateKeys, KeystreamByte, XorByte, Decrypt, TopByte;
    var raw := src.ReadExact(ENCRYPTION_HEADER_LEN);
    if raw.Err? { return Err(Eof); }
    var header := new byte[ENCRYPTION_HEADER_LEN](i requires 0 <= i < ENCRYPTION_HEADER_LEN => raw.value[i]);
    assert header[..ENCRYPTION_HEADER_LEN] == raw.value;
    var crypto := new ZipCrypto(password);
    crypto.DecryptInPlace(header, ENCRYPTION_HEADER_LEN);
    if header[..ENCRYPTION_HEADER_LEN][11] != TopByte(crc) { return Err(Wrongpasswd); }
    if compSize < ENCRYPTION_HEADER_LEN { return Err(TruncatedZip); }
    var ds := new DecryptingSource(src, crypto);
    return Ok(ds);
  }

  /** Reading what `EncryptData` wrote: the check byte passes and any chunking that covers the region yields the data. */
  method ReadBack(before: bytes, password: bytes, crc: bv32, data: bytes, sizes: seq<nat>) returns (r: Result<bytes>)
    requires Total(sizes) >= |data|
    ensures r == Ok(data)
  {
    hide UpdateKeys, KeystreamByte, XorByte, Decrypt, Encrypt, TopByte, Header;
    var region := EncryptData(password, crc, data);
    var src := new Source(before + region);
    src.Seek(|before|);
    ghost var plain := Header(password, crc) + data;
    ghost var k := KeysFor(password);
    HeaderShape(password, crc);
    DecryptUndoesEncrypt(k, plain);
    assert src.data[|before|..|before| + 12] == region[..12];
    assert src.data[|before| + 12..] == region[12..];
    assert region == region[..12] + region[12..];
    DecryptConcat(k, region[..12], region[12..]);
    assert Decrypt(k, region[..12]).0 == plain[..12];
    var ds := OpenEncrypted(src, password, crc, |region|);
    var out := ds.value.ReadChunks(sizes);
    assert src.data[|before| + 12..src.pos] == region[12..];
    return Ok(out);
  }

  lemma HeaderShape(password: bytes, crc: bv32)
    ensures var h := Header(password, crc); |h| == 12 && h[11] == TopByte(crc)
  {}
}
