/** Opening an entry: which of the read strategies serves it, and why that choice does not show. */
module OpenEntry {
  import opened Bytes
  import opened Sources
  import opened Dirents
  import opened LocalHeaders
  import opened EntryReaders
  import Cdir
  import ZipCryptos
  import AesCtr
  import Crc

  const ZERO_COPY_FAST_MAX_UNCOMP := 64 * 1024
  const MAX_DECOMPRESSED := 32 * 1024 * 1024

  /** What a source exposes: an archive buffer that readers may share, only a slice, or nothing but reads. */
  datatype Backing = SharedBytes | SliceOnly | ReadsOnly

  /** The foreign decoders and primitives. */
  datatype Codecs = Codecs(inflate: bytes -> Decoded, bunzip2: bytes -> Decoded, primitives: AesCtr.Primitives)

  predicate IsEncrypted(d: Dirent) { d.bitflags % 2 == 1 }

  /** The size and CRC the directory records. */
  function Stored(d: Dirent): (k: Check)
    ensures k.size == d.sizes.uncomp && k.crc.Some?
  {
    Check(d.sizes.uncomp, Some(d.crc as bv32))
  }

  function Decode(c: Codecs, m: Method, w: bytes): Decoded
    requires !m.Unsupported?
  {
    match m case Store => Decoded(w, Clean) case Deflate => c.inflate(w) case Bzip2 => c.bunzip2(w)
  }

  /** The bytes of the archive an entry's decoder may see. */
  function Window(b: bytes, start: nat, n: nat): bytes {
    b[Lesser(start, |b|)..Lesser(start + n, |b|)]
  }

  lemma WindowCases(b: bytes, start: nat, n: nat)
    ensures Window(b, start, n) ==
              if start + n <= |b| then b[start..start + n] else if start <= |b| then b[start..] else []
  {}

  // ----- the reference: what an entry is, however it is attempt -----

  function PlainContent(c: Codecs, m: Method, w: bytes, check: Check): Result<(Decoded, Check)> {
    if m.Unsupported? then Err(Compnotsupp) else Ok((Decode(c, m, w), check))
  }

  ghost function AesContent(c: Codecs, b: bytes, start: nat, d: Dirent, password: bytes): Result<(Decoded, Check)>
    requires AesCtr.WellSized(c.primitives)
  {
    if d.sizes.comp > Cdir.MAX_CD_SIZE then Err(CentralDirTooLarge)
    else if d.sizes.comp > 0 && start + d.sizes.comp > |b| then Err(Eof)
    else
      match AesCtr.DecryptedRegion(c.primitives, d.encryptionMethod, password, Window(b, start, d.sizes.comp))
      case Err(e) => Err(e)
      case Ok(w) => PlainContent(c, d.compMethod, w, Check(d.sizes.uncomp, None))
  }

  /** The compressed bytes under traditional encryption, once the check byte matches. */
  function ZipCryptoPlain(b: bytes, start: nat, n: nat, crc: bv32, password: bytes): Result<bytes> {
    if start + ZipCryptos.ENCRYPTION_HEADER_LEN > |b| then Err(Eof)
    else
      var data := start + ZipCryptos.ENCRYPTION_HEADER_LEN;
      var (head, keys) := ZipCryptos.Decrypt(ZipCryptos.KeysFor(password), b[start..data]);
      if head[11] != ZipCryptos.TopByte(crc) then Err(Wrongpasswd)
      else if n < ZipCryptos.ENCRYPTION_HEADER_LEN then Err(TruncatedZip)
      else Ok(ZipCryptos.Decrypt(keys, Window(b, data, n - ZipCryptos.ENCRYPTION_HEADER_LEN)).0)
  }

  function ZipCryptoContent(c: Codecs, b: bytes, start: nat, m: Method, n: nat, check: Check, password: bytes)
    : Result<(Decoded, Check)>
    requires check.crc.Some?
  {
    match ZipCryptoPlain(b, start, n, check.crc.value, password)
    case Err(e) => Err(e)
    case Ok(w) => PlainContent(c, m, w, check)
  }

  /** The decoded stream of an entry and what it is checked against. */
  ghost function Content(c: Codecs, b: bytes, d: Dirent, password: Option<bytes>): Result<(Decoded, Check)>
    requires AesCtr.WellSized(c.primitives)
  {
    match LocalHeaderLen(b, d.sizes.offset)
    case Err(e) => Err(e)
    case Ok(start) =>
      if !IsEncrypted(d) then
        PlainContent(c, d.compMethod, Window(b, start, d.sizes.comp), Stored(d))
      else if IsAes(d.encryptionMethod) then
        if password.None? then Err(Nopasswd) else AesContent(c, b, start, d, password.value)
      else if d.encryptionMethod != ENC_TRAD_PKWARE then Err(Encrmethnotsupp)
      else if password.None? then Err(Nopasswd)
      else ZipCryptoContent(c, b, start, d.compMethod, d.sizes.comp, Stored(d), password.value)
  }

  /** Opening and reading to the end, in one step. */
  ghost function Extracted(c: Codecs, b: bytes, d: Dirent, password: Option<bytes>): Result<bytes>
    requires AesCtr.WellSized(c.primitives)
  {
    match Content(c, b, d, password) case Err(e) => Err(e) case Ok((stream, check)) => Drained(stream, check)
  }

  /** An entry that is not encrypted extracts to `s` if and only if its method is known, its bytes decode cleanly to `s`,
      stored ones as they are, and `s` has the recorded size and CRC. Any other method is not supported. */
  lemma PlainExtraction(c: Codecs, b: bytes, d: Dirent, password: Option<bytes>, s: bytes)
    requires AesCtr.WellSized(c.primitives) && d.bitflags % 2 == 0 && LocalHeaderLen(b, d.sizes.offset).Ok?
    requires LocalHeaderLen(b, d.sizes.offset).value + d.sizes.comp <= |b| && |s| <= U64_MAX
    ensures var start := LocalHeaderLen(b, d.sizes.offset).value;
            var w, r := b[start..start + d.sizes.comp], Extracted(c, b, d, password);
            && (r == Ok(s) <==>
                  && (match d.compMethod
                      case Store => w == s
                      case Deflate => c.inflate(w) == Decoded(s, Clean)
                      case Bzip2 => c.bunzip2(w) == Decoded(s, Clean)
                      case Unsupported(_) => false)
                  && |s| == d.sizes.uncomp && Crc.Hash(s) == d.crc as bv32)
            && (d.compMethod.Unsupported? ==> r == Err(Compnotsupp))
  {
    hide AesCtr.WellSized, LocalHeaderLen, Crc.Hash, Limit;
    var start := LocalHeaderLen(b, d.sizes.offset).value;
    assert Window(b, start, d.sizes.comp) == b[start..start + d.sizes.comp];
    if !d.compMethod.Unsupported? {
      var content := Decode(c, d.compMethod, b[start..start + d.sizes.comp]);
      DrainedOk(content, Stored(d), s);
    }
  }

  /** What stands in the way of reading an encrypted entry, in this order: an encryption that is neither AES nor the
      traditional one; a missing password; for AES a region above 1 GiB or past the end of the archive; for the
      traditional one a header past the end. */
  lemma EncryptedErrors(c: Codecs, b: bytes, d: Dirent, password: Option<bytes>)
    requires AesCtr.WellSized(c.primitives) && d.bitflags % 2 == 1 && LocalHeaderLen(b, d.sizes.offset).Ok?
    ensures var start, n, r := LocalHeaderLen(b, d.sizes.offset).value, d.sizes.comp, Extracted(c, b, d, password);
            if d.encryptionMethod != 1 && !(0x0101 <= d.encryptionMethod <= 0x0103) then r == Err(Encrmethnotsupp)
            else if password.None? then r == Err(Nopasswd)
            else if d.encryptionMethod == 1 then start + 12 > |b| ==> r == Err(Eof)
            else if n > 0x4000_0000 then r == Err(CentralDirTooLarge)
            else n > 0 && start + n > |b| ==> r == Err(Eof)
  {
    hide AesCtr.WellSized, LocalHeaderLen, AesCtr.DecryptedRegion, ZipCryptos.Decrypt, ZipCryptos.TopByte, ZipCryptos.KeysFor;
  }

  // ----- opening -----

  /** Small unencrypted entries of a known method may skip the stream. */
  predicate FastPath(d: Dirent) {
    !IsEncrypted(d) && !d.compMethod.Unsupported? && d.sizes.uncomp <= ZERO_COPY_FAST_MAX_UNCOMP
  }

  /** The decoded stream can be held in one buffer. */
  predicate Bufferable(s: Decoded) { s.ending.Clean? && |s.out| <= MAX_DECOMPRESSED }

  /** A fresh reader over this content. */
  ghost predicate Reads(r: EntryReader, content: (Decoded, Check))
    reads r
  {
    r.Valid() && r.Untouched() && r.whole == content.0 && r.check == content.1
  }

  // Decoding a slice stops one byte past the cap, so that an oversized stream is noticed before it breaks.
  method DecodeSlice(c: Codecs, m: Method, w: bytes) returns (r: Result<bytes>)
    ensures m.Unsupported? ==> r == Err(Compnotsupp)
    ensures !m.Unsupported? ==>
              var s := Decode(c, m, w);
              && (r.Ok? <==> Bufferable(s)) && (r.Ok? ==> r.value == s.out)
              && (r.Err? ==> r.error == if |s.out| > MAX_DECOMPRESSED then DecompressionLimit else CompressedData)
  {
    if m.Unsupported? { return Err(Compnotsupp); }
    var s := Decode(c, m, w);
    var copied := s.out[..Lesser(|s.out|, MAX_DECOMPRESSED + 1)];
    if |copied| <= MAX_DECOMPRESSED && s.ending.Broken? { return Err(CompressedData); }
    if |copied| > MAX_DECOMPRESSED { return Err(DecompressionLimit); }
    assert copied == s.out;
    return Ok(copied);
  }

  method NewStreaming(c: Codecs, m: Method, w: bytes, check: Check) returns (r: Result<EntryReader>)
    ensures PlainContent(c, m, w, check).Err? ==> r == Err(PlainContent(c, m, w, check).error)
    ensures PlainContent(c, m, w, check).Ok? ==> r.Ok? && fresh(r.value) && Reads(r.value, PlainContent(c, m, w, check).value)
  {
    if m.Unsupported? { return Err(Compnotsupp); }
    var reader := new EntryReader.OverDecoder(Decode(c, m, w), check);
    return Ok(reader);
  }

  method OpenFast(c: Codecs, backing: Backing, b: bytes, start: nat, d: Dirent) returns (r: Option<Result<EntryReader>>)
    requires FastPath(d)
    ensures var w := Window(b, start, d.sizes.comp);
            var content := (Decode(c, d.compMethod, w), Stored(d));
            && (r.Some? && r.value.Ok? ==> fresh(r.value.value) && Reads(r.value.value, content))
            && (r.Some? && r.value.Err? ==> !backing.ReadsOnly? && !Bufferable(content.0))
  {
    hide Stored;
    var check := Stored(d);
    if d.compMethod == Store && backing.SharedBytes? {
      var end := start + d.sizes.comp;
      if end <= |b| {
        var reader := new EntryReader.OverShared(b, start, d.sizes.comp, check);
        return Some(Ok(reader));
      }
    }
    if !backing.ReadsOnly? {
      var end := Lesser(start + d.sizes.comp, |b|);
      if start <= end {
        var decoded := DecodeSlice(c, d.compMethod, b[start..end]);
        if decoded.Err? { return Some(Err(decoded.error)); }
        var reader := new EntryReader.OverBuffer(decoded.value, check);
        return Some(Ok(reader));
      }
    }
    return None;
  }

  method OpenAes(c: Codecs, src: Source, d: Dirent, password: Option<bytes>) returns (r: Result<EntryReader>)
    requires AesCtr.WellSized(c.primitives)
    modifies src
    ensures var content := if password.None? then Err(Nopasswd) else AesContent(c, src.data, old(src.pos), d, password.value);
            if content.Err? then r == Err(content.error)
            else r.Ok? && fresh(r.value) && Reads(r.value, content.value)
  {
    hide AesCtr.DecryptedRegion, AesCtr.WellSized;
    if password.None? { return Err(Nopasswd); }
    if d.sizes.comp > Cdir.MAX_CD_SIZE { return Err(CentralDirTooLarge); }
    ghost var start := src.pos;
    var region := src.ReadExact(d.sizes.comp);
    if region.Err? { return Err(region.error); }
    WindowCases(src.data, start, d.sizes.comp);
    var plain := AesCtr.AesDecryptData(c.primitives, password.value, d.encryptionMethod, region.value);
    if plain.Err? { return Err(plain.error); }
    r := NewStreaming(c, d.compMethod, plain.value, Check(d.sizes.uncomp, None));
  }

  method OpenZipCrypto(c: Codecs, src: Source, m: Method, n: nat, check: Check, password: bytes)
    returns (r: Result<EntryReader>)
    requires check.crc.Some?
    modifies src
    ensures var content := ZipCryptoContent(c, src.data, old(src.pos), m, n, check, password);
            if content.Err? then r == Err(content.error)
            else r.Ok? && fresh(r.value) && Reads(r.value, content.value)
  {
    hide ZipCryptoPlain, PlainContent, Reads;
    var plain := DecryptWindow(src, n, check.crc.value, password);
    if plain.Err? { return Err(plain.error); }
    r := NewStreaming(c, m, plain.value, check);
  }

  // The header is checked, then the rest of the region is read through the decrypting source.
  method DecryptWindow(src: Source, n: nat, crc: bv32, password: bytes) returns (r: Result<bytes>)
    modifies src
    ensures r == ZipCryptoPlain(src.data, old(src.pos), n, crc, password)
  {
    hide ZipCryptos.Decrypt, ZipCryptos.TopByte, ZipCryptos.KeysFor, Window;
    var attempt := ZipCryptos.OpenEncrypted(src, password, crc, n);
    if attempt.Err? { return Err(attempt.error); }
    var rest := n - ZipCryptos.ENCRYPTION_HEADER_LEN;
    ghost var at := src.pos;
    var w := attempt.value.ReadChunks([rest]);
    ChunkIsWindow(src.data, at, rest, src.pos);
    return Ok(w);
  }

  lemma ChunkIsWindow(b: bytes, at: nat, n: nat, end: nat)
    requires at <= end <= |b|
    requires ZipCryptos.Total([n]) >= |b| - at ==> end == |b|
    requires ZipCryptos.Total([n]) <= |b| - at ==> end - at == ZipCryptos.Total([n])
    ensures b[at..end] == Window(b, at, n)
  {
    assert [n][..0] == [];
  }

  /** Opens an entry of an archive read through `src`, standing at the entry's local header. Whatever the backing,
      the reader is one over the entry's content; only an entry that cannot be buffered fails early. */
  method OpenDirent(c: Codecs, backing: Backing, src: Source, e: Entry, d: Dirent, password: Option<bytes>)
    returns (r: Result<EntryReader>)
    requires AesCtr.WellSized(c.primitives)
    requires e.Valid(src.data) && e.offset == d.sizes.offset && src.pos == d.sizes.offset
    modifies src, e
    ensures e.Valid(src.data)
    ensures Content(c, src.data, d, password).Err? ==> r == Err(Content(c, src.data, d, password).error)
    ensures Content(c, src.data, d, password).Ok? && r.Ok? ==>
              fresh(r.value) && Reads(r.value, Content(c, src.data, d, password).value)
    ensures Content(c, src.data, d, password).Ok? && r.Err? ==>
              FastPath(d) && !backing.ReadsOnly? && !Bufferable(Content(c, src.data, d, password).value.0)
  {
    hide AesCtr.WellSized, LocalHeaderLen, AesContent, ZipCryptoContent, Decode, Reads, Bufferable, Stored,
         Window;
    var at := e.DataOffset(src);
    if at.Err? { return Err(at.error); }
    var start := at.value;
    if FastPath(d) {
      var quick := OpenFast(c, backing, src.data, start, d);
      if quick.Some? { return quick.value; }
    }
    if IsEncrypted(d) {
      if IsAes(d.encryptionMethod) {
        r := OpenAes(c, src, d, password);
        return;
      }
      if d.encryptionMethod != ENC_TRAD_PKWARE { return Err(Encrmethnotsupp); }
      if password.None? { return Err(Nopasswd); }
      r := OpenZipCrypto(c, src, d.compMethod, d.sizes.comp, Stored(d), password.value);
      return;
    }
    var w := src.Read(d.sizes.comp);
    WindowCases(src.data, start, d.sizes.comp);
    r := NewStreaming(c, d.compMethod, w, Stored(d));
  }

  lemma UnbufferableFails(s: Decoded, check: Check)
    requires check.size <= ZERO_COPY_FAST_MAX_UNCOMP && !Bufferable(s)
    ensures Drained(s, check).Err?
  {}

  /** All strategies agree: opening an entry and draining it, with any buffer size and any short reads, succeeds for
      one backing exactly when it succeeds for every other, with the same bytes. */
  method OpenAndDrain(c: Codecs, backing: Backing, src: Source, e: Entry, d: Dirent, password: Option<bytes>,
                      n: nat, supply: nat -> nat)
    returns (r: Result<bytes>)
    requires AesCtr.WellSized(c.primitives) && n > 0
    requires e.Valid(src.data) && e.offset == d.sizes.offset && src.pos == d.sizes.offset
    modifies src, e
    ensures e.Valid(src.data)
    ensures r.Ok? <==> Extracted(c, src.data, d, password).Ok?
    ensures r.Ok? || backing.ReadsOnly? ==> r == Extracted(c, src.data, d, password)
  {
    hide AesCtr.WellSized, Content, Bufferable, Drained;
    var attempt := OpenDirent(c, backing, src, e, d, password);
    ghost var content := Content(c, src.data, d, password);
    if attempt.Err? {
      if content.Ok? {
        ContentCheck(c, src.data, d, password);
        UnbufferableFails(content.value.0, content.value.1);
      }
      return Err(attempt.error);
    }
    r := Drain(attempt.value, n, supply);
  }

  lemma ContentCheck(c: Codecs, b: bytes, d: Dirent, password: Option<bytes>)
    requires AesCtr.WellSized(c.primitives)
    ensures Content(c, b, d, password).Ok? ==> Content(c, b, d, password).value.1.size == d.sizes.uncomp
  {
    hide AesCtr.WellSized, AesCtr.DecryptedRegion, ZipCryptos.Decrypt, ZipCryptos.TopByte, ZipCryptos.KeysFor, Decode,
         LocalHeaderLen;
  }
}
