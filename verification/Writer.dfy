/** The archive writer: local headers and data, the second central-record printer, and the end records. */
module Writer {
  import opened Bytes
  import opened Dirents
  import opened Cdir
  import opened LocalHeaders

  const DESCRIPTOR_MAGIC: bytes := [0x50, 0x4B, 0x07, 0x08]

  /** One compressed (and possibly encrypted) file, ready to be laid out. */
  datatype CompressedFile = CompressedFile(
    name: bytes, rawMethod: u16, crc: u32, uncompSize: u64, data: bytes, encryptionMethod: u16,
    comment: Option<bytes>, extraFields: seq<ExtraField>, lastModTime: u16, lastModDate: u16,
    opsys: u8, externalAttributes: u32)

  // The compressed size is always the length of the stored bytes.
  function CompSize(cf: CompressedFile): nat { |cf.data| }

  predicate Aes(cf: CompressedFile) { IsAes(cf.encryptionMethod) }

  function Comment(cf: CompressedFile): bytes { if cf.comment.Some? then cf.comment.value else [] }

  function OnDisk(cf: CompressedFile): u16 { if Aes(cf) then ZIP_CM_WINZIP_AES else cf.rawMethod }

  function Flags(cf: CompressedFile): u16 {
    if cf.encryptionMethod == 0 then 0
    else if Aes(cf) then FLAG_ENCRYPTED + FLAG_DATA_DESCRIPTOR else FLAG_ENCRYPTED
  }

  // AE-2 entries store no CRC.
  function StoredCrc(cf: CompressedFile): u32 { if Aes(cf) then 0 else cf.crc }

  function VersionNeeded(cf: CompressedFile, zip64: bool): u16 {
    if Aes(cf) then 51 else if zip64 then 45 else 20
  }

  predicate NeedsZip64Sizes(cf: CompressedFile) { CompSize(cf) > U32_MAX || cf.uncompSize > U32_MAX }

  predicate EntryZip64(cf: CompressedFile, offset: nat) { NeedsZip64Sizes(cf) || offset > U32_MAX }

  // ----- extra fields -----

  /** The caller's extra fields without the two the writer manages itself. */
  function UserExtras(cf: CompressedFile): seq<ExtraField> {
    DropField(DropField(cf.extraFields, EF_WINZIP_AES), EXTRA_FIELD_ZIP64)
  }

  function AesExtras(cf: CompressedFile): seq<ExtraField> {
    if Aes(cf)
    then [ExtraField(EF_WINZIP_AES, Le(2, 2) + [0x41, 0x45, AesStrength(cf.encryptionMethod)] + Le(cf.rawMethod, 2))]
    else []
  }

  /** The sizes the ZIP64 field can carry: local headers never carry the offset. */
  function WriterSizes(cf: CompressedFile, central: bool, offset: u64): Sizes
    requires CompSize(cf) <= U64_MAX
  {
    Sizes(cf.uncompSize, CompSize(cf), if central then offset else 0, 0)
  }

  function WriterExtras(cf: CompressedFile, central: bool, offset: u64): seq<ExtraField>
    requires CompSize(cf) <= U64_MAX
  {
    var z := Overflow(WriterSizes(cf, central, offset));
    UserExtras(cf) + AesExtras(cf) + if z == [] then [] else [ExtraField(EXTRA_FIELD_ZIP64, z)]
  }

  // ----- local headers -----

  function LocalExtra(cf: CompressedFile): bytes
    requires CompSize(cf) <= U64_MAX
  {
    ExtraBytes(WriterExtras(cf, false, 0))
  }

  /** A local header puts the sentinel in both size fields as soon as either size overflows. */
  function LocalSize(cf: CompressedFile, size: nat): nat { if NeedsZip64Sizes(cf) then U32_MAX else size }

  function LocalFixed(cf: CompressedFile): (s: bytes)
    requires CompSize(cf) <= U64_MAX
    ensures |s| == LOCAL_SIZE
  {
    LOCAL_MAGIC + Le(VersionNeeded(cf, NeedsZip64Sizes(cf)), 2) + Le(Flags(cf), 2) + Le(OnDisk(cf), 2)
    + Le(cf.lastModTime, 2) + Le(cf.lastModDate, 2) + Le(StoredCrc(cf), 4)
    + Le(LocalSize(cf, CompSize(cf)), 4) + Le(LocalSize(cf, cf.uncompSize), 4)
    + Le(|cf.name|, 2) + Le(|LocalExtra(cf)|, 2)
  }

  function Descriptor(cf: CompressedFile): bytes {
    if !Aes(cf) then []
    else
      var k := if NeedsZip64Sizes(cf) then 8 else 4;
      DESCRIPTOR_MAGIC + Le(0, 4) + Le(CompSize(cf), k) + Le(cf.uncompSize, k)
  }

  /** Local header, data and data descriptor of one entry. */
  function Block(cf: CompressedFile): bytes
    requires CompSize(cf) <= U64_MAX
  {
    LocalFixed(cf) + cf.name + LocalExtra(cf) + cf.data + Descriptor(cf)
  }

  // ----- the writer's central record -----

  function CentralHead(cf: CompressedFile, offset: u64): (s: bytes)
    ensures |s| == 20
  {
    var v := VersionNeeded(cf, EntryZip64(cf, offset));
    CENTRAL_MAGIC + Le(cf.opsys * 0x100 + v, 2) + Le(v, 2) + Le(Flags(cf), 2) + Le(OnDisk(cf), 2)
    + Le(cf.lastModTime, 2) + Le(cf.lastModDate, 2) + Le(StoredCrc(cf), 4)
  }

  function Clamp32(n: nat): nat { if n > U32_MAX then U32_MAX else n }

  function CentralExtra(cf: CompressedFile, offset: u64): bytes
    requires CompSize(cf) <= U64_MAX
  {
    ExtraBytes(WriterExtras(cf, true, offset))
  }

  function CentralTail(cf: CompressedFile, offset: u64): (s: bytes)
    requires CompSize(cf) <= U64_MAX
    ensures |s| == 26
  {
    Le(Clamp32(CompSize(cf)), 4) + Le(Clamp32(cf.uncompSize), 4)
    + Le(|cf.name|, 2) + Le(|CentralExtra(cf, offset)|, 2) + Le(|Comment(cf)|, 2)
    + Le(0, 2) + Le(0, 2) + Le(cf.externalAttributes, 4) + Le(Clamp32(offset), 4)
  }

  function CentralEntry(cf: CompressedFile, offset: u64): bytes
    requires CompSize(cf) <= U64_MAX
  {
    CentralHead(cf, offset) + CentralTail(cf, offset) + cf.name + CentralExtra(cf, offset) + Comment(cf)
  }

  /** The lengths the writer checks before printing; the name length is truncated, not checked. */
  predicate Writable(cf: CompressedFile, offset: u64)
    requires CompSize(cf) <= U64_MAX
  {
    |LocalExtra(cf)| <= U16_MAX && |CentralExtra(cf, offset)| <= U16_MAX && |Comment(cf)| <= U16_MAX
  }

  // ----- whole archives -----

  predicate Sized(files: seq<CompressedFile>) { forall cf <- files :: CompSize(cf) <= U64_MAX }

  /** Everything before the central directory. */
  function Body(files: seq<CompressedFile>): bytes
    requires Sized(files)
  {
    if files == [] then [] else Body(files[..|files| - 1]) + Block(files[|files| - 1])
  }

  /** The archive is within 64-bit offsets. */
  predicate Fits(files: seq<CompressedFile>) { Sized(files) && |Body(files)| <= U64_MAX }

  lemma FitsInit(files: seq<CompressedFile>)
    requires Fits(files) && files != []
    ensures Fits(files[..|files| - 1])
  {
    hide Block;
  }

  function CentralEntries(files: seq<CompressedFile>): bytes
    requires Fits(files)
  {
    if files == [] then []
    else
      FitsInit(files);
      var init := files[..|files| - 1];
      CentralEntries(init) + CentralEntry(files[|files| - 1], |Body(init)|)
  }

  predicate AllWritable(files: seq<CompressedFile>)
    requires Fits(files)
  {
    files == [] ||
    (FitsInit(files);
     var init := files[..|files| - 1];
     AllWritable(init) && Writable(files[|files| - 1], |Body(init)|))
  }

  predicate AnyZip64(files: seq<CompressedFile>)
    requires Fits(files)
  {
    files != [] &&
    (FitsInit(files);
     var init := files[..|files| - 1];
     AnyZip64(init) || EntryZip64(files[|files| - 1], |Body(init)|))
  }

  predicate ArchiveZip64(files: seq<CompressedFile>)
    requires Fits(files)
  {
    |files| > U16_MAX || |CentralEntries(files)| > U32_MAX || |Body(files)| > U32_MAX || AnyZip64(files)
  }

  function Archive(files: seq<CompressedFile>, comment: bytes): bytes
    requires Fits(files)
  {
    var cdir := CentralEntries(files);
    Body(files) + cdir + EndRecords(ArchiveZip64(files), |files|, |cdir|, |Body(files)|, comment)
  }

  function WriteArchive(files: seq<CompressedFile>, comment: bytes): Result<bytes>
    requires Fits(files)
  {
    if AllWritable(files) then Ok(Archive(files, comment)) else Err(Eftoolarge)
  }
}
