# A verified model of kzip

kzip reads, writes and edits ZIP archives. This project models its archive core and the stateful readers and
handles around it, and proves what they are for:

* **The container.** The central-record parser and printer, the end-record search, the writer and the tail editor
  (`Dirents`, `Cdir`, `DirectoryReads`, `Writer`, `Modify`, `EditResults`, with `DirentIO`, `CdirIO`, `WriterIO`,
  `ModifyIO` as the imperative side). Each byte layout is a function; the methods that append to vectors, seek a source
  and loop over candidates are proved to compute that function, and the theorems relate the functions: printing then
  parsing, writing then reading, editing then reopening, and the two independent printers to each other. Where the
  original is correct only under a condition, the theorem is an equivalence with that condition.
* **From files to bytes and back.** `Extraction` joins compression, encryption, layout, directory search, data offsets,
  decryption, decoding and verification into one statement: what is written is what is extracted. `WrittenMetadata` and
  `Formats` say it of the rest of an entry. `EditExtraction` says it of an archive that was written and then edited, and
  for any archive which entries an edit keeps; `Leftovers` what a file reads as when an edit could not cut off its old
  end.
* **State machines.** The tokio bridge (`AsyncBridge`), readers sharing one file pointer (`SharedFiles`), the verifying
  reader (`EntryReaders`, `OpenEntry`), the write session of a memory source (`WriteSessions`) and the pending edits of
  a handle (`PendingOps`, `PendingProofs`, `ZipHandles`, `ClosedHandles`) are classes with an inductive invariant, each
  refining something simple: one stream, private cursors, the entry as a whole, a sparse file, a filtered history.
* **Kernels.** CRC-32 by table and by bits (`Crc`), ZipCrypto (`ZipCryptos`), AES counter mode and its authenticated
  region (`AesCtr`), date normalisation (`Dates`), progress and scheduling (`Compress`).

Bytes are numbers below 256, integers carry the widths the format gives them, and truncating casts, saturating and
wrapping additions are written out. Foreign code enters as a parameter: the deflate and bzip2 codecs, the AES block,
the key derivation, the MAC, the calendar of the host, the amount a short read delivers. A blocking task may complete
or be dropped at any point. Errors are values of `ZipError`; the error of a failing operation is part of its contract
unless the table says otherwise.

`dafny verify dfyconfig.toml` checks the whole project.

## Where the code departs from its documentation, or from what a caller would expect

The model follows the code. Each point names the member that states it.

* `to_central_record` is documented as byte-identical to the parsed record. It is so exactly for canonical records
  (`Dirents.ReprintIsIdentical`); a stray byte is dropped (`Dirents.StrayByteIsDropped`).
* A size or offset exactly at its 32-bit limit is printed in place, and the parser takes it for a sentinel as soon as
  a ZIP64 field is present (`Dirents.CentralRoundTrip`, `ArchiveProofs.WriteThenRead`, `Dirents.SentinelIsRejected`).
* An entry can be accepted, printed and read again with a different size and no error (`Dirents.MisreadExactly`,
  `Dirents.SilentMisread`), so an edit can change a kept entry (`Modify.ReopenModified`).
* A local header puts the sentinel in both size fields when only one size overflows, and then a full decode of it fails
  (`ArchiveProofs.LocalHeaderDecodes`, `ArchiveProofs.OneOverflowDoesNotDecode`).
* An end-record signature inside the archive comment is taken for the end record, exactly when the reader does not pass
  it over (`Cdir.SearchIsExact`, `ArchiveProofs.FalseCandidateWins`, `ArchiveProofs.HarmlessSignature`).
* A name longer than 65535 bytes is written with its length truncated, and then the archive does not come back
  (`ArchiveProofs.WriteThenRead`, `WriterProofs.WrittenRereads`); a file with a name of 65536 bytes comes back without
  a name and without an error (`Extraction.LongNameIsLost`).
* An edit is documented to copy all local headers and data verbatim and never to produce a corrupt archive. It copies
  what stands before the directory; an entry whose data reaches past the start of the directory loses it, without an
  error, unless the new tail happens to repeat it (`EditExtraction.KeptDataResolves`, `EditExtraction.StoredContentExactly`).
  In an archive whose directory stands first even an edit without edits loses the data, in memory and on disk
  (`EditExtraction.DirectoryFirstLosesData`).
* An in-place edit whose last step fails is documented to gain a correct new tail or to fail cleanly. It leaves old
  bytes after the new archive, and when that ends within the old directory the old end record decides what the file
  reads as (`Leftovers.FailedTruncation`): after deleting its only file an archive does not open any more
  (`Leftovers.OnlyFileDeleted`).
* A read into an empty buffer runs the end-of-entry check early and disarms the later one; `EntryReaders.Run` says
  exactly when the end of an entry is then reported wrongly, and `EntryReaders.EmptyReadDisarms` shows an error for an
  intact entry, and an entry recorded as empty whose content is never reported.
* `u64::MAX` is both a legal reader position and the marker of an unplaced shared handle (`SharedFiles.ConfusedRun`).
* The last rename of an entry does not win, the first does (`PendingProofs.FirstRenameWins`,
  `PendingProofs.RenameTakesEffect`), and so with replacements (`PendingProofs.ReplaceTakesEffect`);
  `PendingProofs.SecondRenameIsIgnored` shows both.
* Adding a file takes the bytes out of the caller's memory source, also when the add is then refused because the name
  exists (`crates/zip-sys/src/lib.rs:4754`). `ZipHandles.Zip.FileAdd` is about the handle and takes the bytes as a value.
* A DOS time never overrides a pending Unix time (`ZipHandles.DostimeTakesEffect`, `ZipHandles.DostimeIsHidden`).
* Deleting "all" extra-field ids deletes none but the literal one (`PendingOps.DeleteAllIdsKeepsOthers`,
  `PendingProofs.DeletesNothing`).
* Undoing an entry leaves its cached extra fields as they were (`PendingProofs.CacheIsCurrent`,
  `PendingProofs.UndoneOverlay`, `PendingProofs.StaleCache`).

## Model

| member | source | states |
|---|---|---|
| Bytes.DecodeEncode | crates/zip-core/src/dirent.rs:508-556 | reading a little-endian field gives back the number that was printed, if it fits the width |
| Bytes.EncodeDecode | crates/zip-core/src/dirent.rs:508-556 | printing the number read from a field gives back its bytes, at any width |
| Dirents.ExtraRoundTrip | crates/zip-core/src/dirent.rs:558-577 | parsing a printed extra-field block gives its fields back, and up to three trailing bytes are ignored |
| Dirents.ParsedExtraReprints | crates/zip-core/src/dirent.rs:558-577 | a block that parses is its printed fields plus fewer than four ignored bytes |
| Dirents.OverlayExact | crates/zip-core/src/dirent.rs:160-184 | a ZIP64 field restores the sizes whose 32-bit fields were printed if and only if it starts with exactly the values at or above their sentinels, in order; it is inconsistent if and only if it is too short for the sentinels |
| Dirents.FreshOverlay | crates/zip-core/src/dirent.rs:580-606 | the field the printer builds is one that restores its sizes exactly when no size is at its sentinel |
| Dirents.ParsePrinted | crates/zip-core/src/dirent.rs:265-355 | what the parser makes of a printed record anywhere in a buffer, for every printable entry, including the inconsistent outcomes |
| Dirents.CentralRoundTrip | crates/zip-core/src/dirent.rs:121-355 | parsing a printed record gives the entry back with one regenerated ZIP64 field if and only if its name is safe and no size is ambiguous; with an overflow, ambiguous is exactly being at the sentinel and the record is inconsistent (section 4.5.3 of APPNOTE.TXT) |
| Dirents.UnsafeIsRejected | crates/zip-core/src/dirent.rs:211-214 | a printed record whose name has two adjacent `0x2E` bytes anywhere, or starts with `0x2F` or `0x5C`, is inconsistent, whatever else it says |
| Dirents.SmallIsUnambiguous | crates/zip-core/src/dirent.rs:244-302 | an entry with no size at its sentinel is never ambiguous, whatever stale ZIP64 field it carries |
| Dirents.MisreadExactly | crates/zip-core/src/dirent.rs:160-184 | a printed record reads back as a different entry, without an error, exactly when it carries a stale ZIP64 field that is long enough for the marked sizes and does not start with them |
| Dirents.SilentMisread | crates/zip-core/src/dirent.rs:160-302 | a record that is accepted, printed and read again with another compressed size |
| Dirents.SentinelIsRejected | crates/zip-core/src/dirent.rs:283-302 | a size at its sentinel beside an overflowing one: the printed record is rejected |
| Dirents.ParsedIsPrintable | crates/zip-core/src/dirent.rs:121-237 | every entry the parser returns can be printed, has a safe name, and its method, encryption and AES field agree |
| Dirents.MethodsRead | crates/zip-core/src/dirent.rs:186-209 | method, encryption and CRC validity of a parsed entry, in terms of the numbers in its record and the bytes of its first AES field |
| Dirents.RecordErrors | crates/zip-core/src/dirent.rs:121-214 | why a record is refused, and with which error |
| Dirents.ReprintOfParsed | crates/zip-core/src/dirent.rs:262-355 | for every entry the parser can return, printing succeeds and parsing the print returns it if and only if no size is ambiguous |
| Dirents.ReprintIsIdentical | crates/zip-core/src/dirent.rs:262-355 | the print of a parsed record equals the original bytes if and only if that record has no sentinel standing for a smaller value, no bytes after its last extra field and, when a size overflows, one ZIP64 field, the last one, with exactly the overflowing values |
| Dirents.StrayByteIsDropped | crates/zip-core/src/dirent.rs:262-355 | a record with one byte after its extra fields is accepted and printed again without it |
| DirentIO.SerializeExtraFields | crates/zip-core/src/dirent.rs:24-35 | the loop prints the block, or reports it too large when it or a field passes 65535 bytes |
| DirentIO.ParseExtraFields | crates/zip-core/src/dirent.rs:558-577 | the cursor loop computes the parse, including the inconsistent outcome |
| DirentIO.ReadZip64 | crates/zip-core/src/dirent.rs:160-184 | the sentinel-driven reads over the field compute the overlay |
| DirentIO.ParseCentral | crates/zip-core/src/dirent.rs:121-237 | the cursor parser returns the specified entry and stands after it, and gives each specified error |
| DirentIO.BuildZip64Extra | crates/zip-core/src/dirent.rs:580-606 | the field holds exactly the overflowing values in the order of the format, and there is none otherwise |
| DirentIO.ToCentralRecord | crates/zip-core/src/dirent.rs:265-355 | the printer appends exactly the specified record, and reports an extra block or comment that is too large |
| LocalHeaders.HeaderIsLocal | crates/zip-core/src/dirent.rs:482-505 | where the data starts depends on the 30 fixed header bytes only |
| LocalHeaders.SkipLocalHeader | crates/zip-core/src/dirent.rs:482-505 | the skip returns the data start, leaves the source there, and reports a short or foreign header |
| LocalHeaders.Entry.DataOffset | crates/zip-core/src/dirent.rs:456-475 | the cached and the computed data offset agree and leave the source at the data |
| Cdir.RecordsConcat | crates/zip-core/src/cdir.rs:44-82 | the printed directory of two lists of entries is one after the other |
| Cdir.EocdSearch | crates/zip-core/src/cdir.rs:156-176 | for every comment of up to 65535 bytes the scanned tail holds the end record and a locator before it; the end record is the first candidate if and only if no signature starts after it, and always when the comment is empty |
| Cdir.SearchOutcome | crates/zip-core/src/cdir.rs:150-240 | an end record that is not itself passed over decides the search exactly when every later signature is passed over, for its length or its disk numbers; otherwise a later one decides, with a shorter comment |
| Cdir.SearchIsExact | crates/zip-core/src/cdir.rs:150-240 | a directory whose comment reaches the end of the archive is found if and only if every later signature is passed over |
| Cdir.ParseRecords | crates/zip-core/src/cdir.rs:341-377 | parsing a printed directory gives what each record reads back as, up to the first that fails, and stops at whatever else follows |
| Cdir.ReopenExact | crates/zip-core/src/cdir.rs:44-377 | reading an archive that ends with a serialized directory returns that directory if and only if its comment and size are within the reader's bounds, every signature in the comment is passed over, no locator signature stands before the end record of a plain archive, and every entry can be reread; once found, one failing entry fails the archive and an ambiguous entry comes back changed |
| DirectoryReads.PlainRecord | crates/zip-core/src/cdir.rs:209-296 | a deciding end record without a locator gives count, size and offset of the directory that is read |
| DirectoryReads.Zip64RecordDecides | crates/zip-core/src/cdir.rs:246-285 | when a locator leads to a ZIP64 end record, that gives the size and the offset whatever the plain record says; the count is the plain one unless it is 65535 |
| DirectoryReads.LocatorWithoutRecord | crates/zip-core/src/cdir.rs:246-296 | a locator that leads nowhere only marks the archive, and the plain values hold |
| DirectoryReads.MixedEndReads | crates/zip-core/src/cdir.rs:209-296 | so for every archive that ends in ZIP64 records and a plain end record with any count, size, offset and comment; a directory above 1 GiB or past the end has its error |
| DirectoryReads.MixedEndReopens | crates/zip-core/src/cdir.rs:209-377 | printed records before such an end come back if their number, as it is or modulo 65536, is the checked count |
| DirectoryReads.NotFound | crates/zip-core/src/cdir.rs:150-207 | without a usable end record in the last 65578 bytes the file is no archive, or a truncated one if it starts like one |
| CdirIO.WriteEocd64 | crates/zip-core/src/cdir.rs:89-101 | appends the ZIP64 end record of section 4.3.14 of APPNOTE.TXT |
| CdirIO.WriteLocator | crates/zip-core/src/cdir.rs:104-110 | appends the ZIP64 locator of section 4.3.15 of APPNOTE.TXT |
| CdirIO.WriteEocdZip64Sentinel | crates/zip-core/src/cdir.rs:115-128 | appends the end record with all sentinels and the comment |
| CdirIO.WriteEocd | crates/zip-core/src/cdir.rs:131-147 | appends the plain end record, its fields truncated as the casts do |
| CdirIO.Serialize | crates/zip-core/src/cdir.rs:44-82 | the printing loop produces the serialized directory or the error of the first unprintable entry |
| CdirIO.ReadEocd64 | crates/zip-core/src/cdir.rs:307-338 | the seek and reads return the ZIP64 end record at an offset, or none |
| CdirIO.ReadEntries | crates/zip-core/src/cdir.rs:341-377 | the bounded read and parsing loop return the entries, the size limit and the count mismatch |
| CdirIO.TryParse | crates/zip-core/src/cdir.rs:209-296 | one candidate is accepted, passed over or fatal exactly as specified, ZIP64 path included |
| CdirIO.CollectCandidates | crates/zip-core/src/cdir.rs:156-168 | the backward scan collects exactly the signatures in the tail, last first |
| CdirIO.ReadCentralDir | crates/zip-core/src/cdir.rs:150-187 | reading through a source equals the specified search over its bytes, with its not-a-zip, truncated and inconsistent outcomes |
| WriterProofs.FoundExtras | crates/zip-core/src/compress.rs:666-712 | the reader finds the writer's ZIP64 field exactly when an entry needs one and its AES field exactly when it is AES, whatever fields the caller supplied |
| WriterProofs.EntryMeaning | crates/zip-core/src/compress.rs:598-661 | the entry read back carries the caller's name, comment, times, attributes, sizes and own extra fields, the real method, and the encryption applied |
| WriterProofs.PrintersAgree | crates/zip-core/src/compress.rs:598-661 | the writer's central record is byte for byte the one the other printer produces for the entry read back |
| WriterProofs.WrittenRereads | crates/zip-core/src/compress.rs:598-661 | a written entry can be printed again exactly when its name fits its length field, and is reread exactly, if and only if its name is safe and it is not both overflowing and at a sentinel; otherwise its record is rejected |
| WriterIO.BuildUserExtra | crates/zip-core/src/compress.rs:666-690 | the caller's fields are printed without the two the writer manages, or are too large |
| WriterIO.BuildExtra | crates/zip-core/src/compress.rs:666-712 | the block of a local or central record is the specified one, or is too large |
| WriterIO.WriteLocalHeader | crates/zip-core/src/compress.rs:549-596 | appends the specified local header, and refuses exactly the blocks above 65535 bytes |
| WriterIO.WriteDataDescriptor | crates/zip-core/src/compress.rs:714-726 | appends the descriptor of an AES entry, 4 or 8 bytes per size |
| WriterIO.WriteCentralEntry | crates/zip-core/src/compress.rs:598-661 | appends the specified central record, and refuses exactly the too large extra blocks and comments |
| WriterIO.AnyZip64Entry | crates/zip-core/src/compress.rs:518-525 | the test over the recorded offsets finds an entry that needs ZIP64 exactly when one did where it was written |
| WriterIO.WriteCompressed | crates/zip-core/src/compress.rs:494-543 | the two growing vectors and the end records produce the specified archive; polls happen before each entry; the first cancel or unwritable entry ends it |
| ArchiveProofs.ArchiveIsSerialized | crates/zip-core/src/compress.rs:494-543 | the writer's archive is its body followed by the serialized directory, and both need-ZIP64 tests agree |
| ArchiveProofs.WriteThenRead | crates/zip-core/src/compress.rs:494-661 | reading the written archive returns every entry in order if and only if its directory can be located, past any signatures in the comment and without a false locator, all names and sizes are legal, and no name is longer than 65535 bytes; once located and with names that fit, one illegal entry makes it inconsistent |
| ArchiveProofs.WriteSucceeds | crates/zip-core/src/compress.rs:494-661 | a batch is written unless an extra block, local or central, or a comment is longer than 65535 bytes |
| ArchiveProofs.UncommentedIsLocatable | crates/zip-core/src/cdir.rs:156-258 | without an archive comment the only look-alike that can mislead the reader is a locator signature 20 bytes before the end record of an archive without ZIP64 records |
| ArchiveProofs.DataIsReachable | crates/zip-core/src/compress.rs:494-596 | each recorded offset leads through its local header to exactly that entry's stored bytes |
| ArchiveProofs.LocalHeaderDecodes | crates/zip-core/src/compress.rs:549-596 | a full decode of a written local header gives its sizes if both or neither overflow, and is inconsistent if exactly one does |
| ArchiveProofs.OneOverflowDoesNotDecode | crates/zip-core/src/compress.rs:549-596 | whatever data of less than 4 GiB 2^32 bytes are compressed to, the local header of the entry does not decode |
| ArchiveProofs.ReadIsPrintable | crates/zip-core/src/cdir.rs:150-377 | whatever archive is read, its directory can be serialized again |
| ArchiveProofs.NamesAreSafe | crates/zip-core/src/dirent.rs:211-214 | no name of any archive that is read has two adjacent dots or starts with a slash or a backslash |
| ArchiveProofs.FalseCandidateWins | crates/zip-core/src/cdir.rs:156-176 | an archive whose comment is itself an end record reads back without the comment |
| ArchiveProofs.HarmlessSignature | crates/zip-core/src/cdir.rs:231-240 | an archive whose comment starts with an end-record signature and a non-zero disk number reads back with it |
| Modify.EditedIsCoherent | crates/zip-core/src/modify.rs:53-70 | edits keep every entry of every readable archive consistent for printing |
| Modify.ReopenModified | crates/zip-core/src/modify.rs:33-94 | everything before the directory is unchanged, and reopening gives exactly the undeleted entries in order under their last names if and only if the new directory can be found and every kept entry can be reread; once found, one that fails to reread fails the archive and an ambiguous one comes back changed |
| EditResults.EditMeans | crates/zip-core/src/modify.rs:33-94 | reopening an edit gives, at increasing indices, exactly the entries that are not deleted; each is the entry it was but for its name, which is that of the last request for its index, and for one regenerated ZIP64 field; comment, offset and the ZIP64 property are as stated |
| EditResults.EditedIs | crates/zip-core/src/modify.rs:53-70 | the same of the edited entry list, whether or not it can be reread |
| EditResults.EditSucceeds | crates/zip-core/src/modify.rs:33-94 | an edit succeeds if and only if the archive is read, its directory lies within it and no kept entry ends with a name above 65535 bytes; each failure has its error |
| Modify.ModifyIsStable | crates/zip-core/src/modify.rs:33-94 | the empty edit leaves the result of any readable edit unchanged, byte for byte |
| Modify.NoEditsReproduceTheWriter | crates/zip-core/src/modify.rs:33-94 | the empty edit of a written archive is that archive, byte for byte |
| ModifyIO.SortDedup | crates/zip-core/src/modify.rs:60-63 | the deletions become strictly increasing with the same members |
| ModifyIO.ApplyEdits | crates/zip-core/src/modify.rs:53-70 | renaming in place and removing from the end backwards is the filter over original indices, for repeated and out-of-range indices too |
| ModifyIO.ModifyArchive | crates/zip-core/src/modify.rs:33-94 | the in-memory edit computes the specified archive or error |
| ModifyIO.ModifyArchiveFile | crates/zip-core/src/modify.rs:127-212 | seek, overwrite and truncate leave the file equal to the in-memory edit, shorter or longer; errors before the first write leave it unchanged; each fault has its error and leaves exactly the stated bytes, never touching those before the directory |
| ModifyIO.FaultsLeave | crates/zip-core/src/modify.rs:198-212 | a failed seek leaves the file, a failed write leaves the old bytes with a prefix of the new tail over them; the result of each fault |
| Leftovers.FailedTruncation | crates/zip-core/src/modify.rs:118-212 | when only the truncation fails, the file is the new archive followed by the end of a longer old one; it reads as the edited archive as long as the new end record decides; when the new archive ends within the old directory the old plain end record decides, and the file is inconsistent, or, if the number of entries did not change, reads with the new entries and the old directory size |
| Leftovers.OnlyFileDeleted | crates/zip-core/src/modify.rs:118-212 | deleting the only file of a written archive leaves, when the truncation fails, a file that does not open |
| Compress.CompressSlots | crates/zip-core/src/compress.rs:270-320 | a batch succeeds exactly when every file does, and each slot holds that file's own result |
| Compress.CompressParallel | crates/zip-core/src/compress.rs:296-320 | filling one slot per file in any completion order gives the serial result |
| Compress.CompressFiles | crates/zip-core/src/compress.rs:235-290 | serial and parallel dispatch give the same batch |
| Compress.EncryptBatch | crates/zip-core/src/compress.rs:459-482 | each entry is encrypted by its own method; a missing or unknown method is the specified error |
| Compress.WriteProgress.Report | crates/zip-core/src/compress.rs:217-224 | the poll sees the current counts and its answer cancels |
| Compress.WriteProgress.Advance | crates/zip-core/src/compress.rs:227-230 | the count grows, held at the total, and is then reported |
| Compress.CheckpointsAreMonotonic | crates/zip-core/src/compress.rs:440-447 | the 2n+2 reports start at (0, total), never decrease, never pass the total and end at it |
| Compress.CheckpointsStep | crates/zip-core/src/compress.rs:440-447 | each report of the first half counts one more file, those of the second half nothing new |
| Compress.PollDecides | crates/zip-core/src/compress.rs:217-224 | a write is cancelled exactly when one of its calls was answered true, and that call was the last |
| WriterIO.WriteArchiveFullWithProgress | crates/zip-core/src/compress.rs:448-488 | the calls follow the checkpoints and are all of them on success; a cancel at any call gives Cancelled and no bytes; otherwise the outcome is that of a write without a poll |
| WriterIO.WriteArchivePlain | crates/zip-core/src/compress.rs:342-345 | a write without a poll, in any schedule, has the same outcome |
| EntryReaders.DrainedOk | crates/zip-core/src/file.rs:262-355 | an entry reads successfully exactly when it decodes cleanly to content of the recorded size and CRC; the output limit never rejects such an entry |
| EntryReaders.OutputLimit | crates/zip-core/src/file.rs:326-342 | why an entry is not read, the first that applies: output above max(size, 32 MiB) + 1 MiB, a broken stream, another size, another CRC |
| EntryReaders.EntryReader.Read | crates/zip-core/src/file.rs:287-355 | one read in every state: the stored error, new bytes and the limit, a decoder error, the one-time check |
| EntryReaders.EntryReader.Seek | crates/zip-core/src/file.rs:227-254 | an in-memory reader moves and stops checking; a streaming one refuses and is unchanged |
| EntryReaders.Run | crates/zip-core/src/file.rs:286-355 | over any chunking the delivered bytes never pass max(size, 32 MiB) + 1 MiB; into a non-empty buffer, as long as no error came, nothing comes exactly when the entry was delivered whole and is intact, and the first error is the one the whole entry deserves, if and only if this is not the end after an empty buffer that came too early; with no empty buffer so far it always is so |
| EntryReaders.Drain | crates/zip-core/src/file.rs:286-355 | reading to the end gives the outcome the entry as a whole deserves, for every buffer size and every pattern of short reads |
| EntryReaders.EmptyReadDisarms | crates/zip-core/src/file.rs:344-353 | a first read into an empty buffer reports what no content at all would deserve, and afterwards the entry drains unchecked; an entry with content that is recorded as empty is then delivered without any error |
| OpenEntry.DecodeSlice | crates/zip-core/src/codec.rs:81-121 | a slice decodes to the decoder's whole output exactly when that is clean and at most 32 MiB |
| OpenEntry.OpenDirent | crates/zip-core/src/archive.rs:253-394 | whatever strategy is chosen, the reader is a fresh one over the entry's content; only unbufferable small entries fail early |
| OpenEntry.OpenAndDrain | crates/zip-core/src/archive.rs:253-394 | shared, zero-copy and streaming agree: the same bytes, or failure under each; the stream also gives the specified error |
| OpenEntry.PlainExtraction | crates/zip-core/src/archive.rs:253-394 | an entry that is not encrypted extracts to exactly what its stored bytes are or decode to, for each known method, if that has the recorded size and CRC |
| OpenEntry.EncryptedErrors | crates/zip-core/src/archive.rs:300-380 | what stands in the way of reading an encrypted entry, and in which order |
| Extraction.SlotExtracts | crates/zip-core/src/archive.rs:253-394 | a file's stored entry, plain, ZipCrypto or AES, extracts to its data, except an AES region above the reader's bound |
| Extraction.WriteThenExtract | crates/zip-core/src/compress.rs:448-661 | write, reopen, extract: each file comes back under its name with its own data, whatever its method and encryption |
| WrittenMetadata.MetadataComesBack | crates/zip-core/src/compress.rs:165-186 | write and reopen: each entry has its file's name, comment, own extra fields, times, attributes, system, method (or the default one), encryption, size and CRC, with the flags, versions and AES field that go with them; without encryption the stored bytes are the data or its encoding at the chosen level, at most 9; the archive comment and the ZIP64 property are as stated |
| WrittenMetadata.BatchSucceeds | crates/zip-core/src/compress.rs:138-170 | a batch is refused exactly for an unsupported method, a wrong number of encryption methods or an unknown one, with the error of the first that applies |
| Formats.ExampleArchive | crates/zip-core/src/compress.rs:494-661 | the archive of one small file, byte for byte |
| Formats.HeadersAgree | crates/zip-core/src/compress.rs:549-661 | flags, method, times, CRC and name are the same bytes in the local and the central header of an entry |
| Formats.DescriptorSays | crates/zip-core/src/compress.rs:714-726 | what stands in the descriptor of an AES entry; other entries have none |
| Formats.Zip64RecordsSay | crates/zip-core/src/cdir.rs:89-110 | every field of the ZIP64 end record and its locator |
| Extraction.SingleFileComesBack | crates/zip-core/src/compress.rs:494-661 | a single stored file below 1 GiB, of any metadata and any name below 512 MiB, without comment or extra fields, is reopened with its entry if and only if its name is safe and at most 65535 bytes long and its directory record does not end like a locator, and then extracts to its data |
| Extraction.OneLetterFileComesBack | crates/zip-core/src/compress.rs:494-661 | a stored file below 16 MiB named `a`, without metadata, always comes back |
| Extraction.LongNameIsLost | crates/zip-core/src/compress.rs:650 | a stored file with a name of 65536 letters comes back with an empty name |
| EditExtraction.KeptDataResolves | crates/zip-core/src/modify.rs:33-94 | an entry keeps its bytes if and only if its local header still says the same, as it does before the directory, and they end before the directory or the new tail repeats the rest of them; it then resolves to the same slice |
| EditExtraction.EditKeepsContent | crates/zip-core/src/modify.rs:33-94 | a kept entry that keeps its bytes extracts to the same data or the same error; only the error for a ZipCrypto region too short for its header may differ |
| EditExtraction.StoredContentExactly | crates/zip-core/src/modify.rs:33-94 | a stored, unencrypted entry that extracted before extracts to the same data if and only if it keeps its bytes |
| EditExtraction.EditThenExtract | crates/zip-core/src/modify.rs:33-94 | edit, reopen, extract: each entry is one that was not deleted, under its last name, and if it keeps its bytes it extracts to what it did |
| EditExtraction.DirectoryFirstLosesData | crates/zip-core/src/modify.rs:33-94 | an archive with its directory before the data: an edit without edits leaves its entry listed and without data |
| EditExtraction.WriteEditExtract | crates/zip-core/src/modify.rs:33-94 | write, edit, reopen, extract: each entry is a file that was not deleted, under its last name, and extracts to that file's data, whatever its method and encryption |
| AsyncBridge.ProducedThenRest | crates/zip-async/src/lib.rs:122-215 | what the blocking reads produced so far and what they have yet to produce make up the stream |
| AsyncBridge.AsyncEntryReader.Complete | crates/zip-async/src/lib.rs:207-211 | a task ending at any time moves exactly one more read's bytes into flight |
| AsyncBridge.AsyncEntryReader.ServeBuffered | crates/zip-async/src/lib.rs:122-138 | buffered bytes are served in order up to the room there is |
| AsyncBridge.AsyncEntryReader.FinishRead | crates/zip-async/src/lib.rs:140-164 | a collected read becomes the staging buffer and frees the reader, or ends the stream, or reports its error |
| AsyncBridge.AsyncEntryReader.PollRead | crates/zip-async/src/lib.rs:167-215 | one poll of any size: no byte is lost or repeated, at most one blocking read is started and at most one is under way; a zero-byte answer to a non-empty buffer comes only when the whole stream was delivered or an error was reported, which happens once |
| AsyncBridge.AsyncEntryReader.DeliveredIsPrefix | crates/zip-async/src/lib.rs:100-215 | at any moment the callers have a prefix of what a blocking caller would get |
| AsyncBridge.Drive | crates/zip-async/src/lib.rs:100-215 | for every interleaving of polls, completions and drops the output is a prefix of the stream, and all of it after a clean end |
| SharedFiles.RelativeSeek | crates/zip-core/src/source.rs:302-318 | a seek relative to the position or the end lands on the sum, held at zero, exactly when the sum is a signed 64-bit position; an absolute one where it says |
| SharedFiles.PrivateReadSays | crates/zip-core/src/source.rs:285-300 | a read delivers the bytes at the position, at most as many as asked for and at least one if any can be, and moves past them |
| SharedFiles.OnlyItsOwn | crates/zip-core/src/source.rs:243-341 | a step opens at most one reader, where it is told to, and moves at most its own |
| SharedFiles.SharedFile.Read | crates/zip-core/src/source.rs:285-300 | from a coherent handle a read is the one a private handle would do, and keeps the handle coherent, unless a reader at `u64::MAX` meets an unplaced handle |
| SharedFiles.NeverConfused | crates/zip-core/src/source.rs:198-211 | a run that never positions a reader at `u64::MAX` never confuses the handle |
| SharedFiles.ConfusedRun | crates/zip-core/src/source.rs:205-209 | opening at `u64::MAX` and reading is a run that does |
| SharedFiles.Drive | crates/zip-core/src/source.rs:243-341 | in every interleaving of opens, reads, seeks and duplicates each reader sees what private handles would show, if and only if the first effective read is not one at `u64::MAX` |
| WriteSessions.OverwriteIsAppend | crates/zip-sys/src/lib.rs:630-653 | growing with zeros and overwriting in place is appending to the log of a sparse file, for empty writes and gaps too |
| WriteSessions.OnlyCommitPublishes | crates/zip-sys/src/lib.rs:595-707 | in every run only a commit changes the data |
| WriteSessions.ReadersSeeNoSession | crates/zip-sys/src/lib.rs:541-707 | every read and seek answers as if the session calls of a commit-free run had not been made |
| WriteSessions.SessionOutcome | crates/zip-sys/src/lib.rs:4140-4332 | whatever is written, read, sought or begun in a session, a commit publishes exactly the sparse file of its writes over the empty or cloned base; after a rollback everything is as if only the reading had happened |
| WriteSessions.SeekLands | crates/zip-sys/src/lib.rs:558-580 | a seek lands on the offset from the start, the position or the end, and is refused exactly when that is no signed 64-bit position from zero on |
| WriteSessions.WritesAppend | crates/zip-sys/src/lib.rs:4201-4217 | writes one after the other append to the empty or cloned base |
| WriteSessions.WriteElsewhere | crates/zip-sys/src/lib.rs:4201-4253 | a write after a seek replaces what stands there, over zeros past the end, and nothing else |
| WriteSessions.ReadsInOrder | crates/zip-sys/src/lib.rs:541-580 | reads one after the other deliver the data in order, up to the end |
| WriteSessions.MemorySource.BeginWriteCloning | crates/zip-sys/src/lib.rs:4171-4192 | a session starts from a prefix of the data; one that is open, or a prefix that is too long, is refused |
| WriteSessions.MemorySource.WriteBytes | crates/zip-sys/src/lib.rs:4201-4217 | the pending buffer stays the sparse file of the writes; without a session the call is refused |
| WriteSessions.MemorySource.SeekWriteTo | crates/zip-sys/src/lib.rs:4226-4253 | the write cursor moves to the asked position, or the call is refused for a negative one |
| WriteSessions.MemorySource.CommitWrite | crates/zip-sys/src/lib.rs:4287-4307 | the buffer becomes the data, reading restarts, the session ends |
| WriteSessions.MemorySource.RollbackWrite | crates/zip-sys/src/lib.rs:4316-4332 | the session ends and the data stays |
| WriteSessions.Drive | crates/zip-sys/src/lib.rs:4140-4332 | any sequence of calls gets the replies of the reference machine; the session flag is set exactly when a buffer is pending |
| PendingOps.UniqueFindsAgree | crates/zip-sys/src/lib.rs:971-1012 | with at most one edit per index, searching from either end finds the same |
| PendingOps.FieldsAfterRetain | crates/zip-sys/src/lib.rs:1025-1098 | the edited extra fields of an index depend on its own edits only |
| PendingOps.SingleFieldEdits | crates/zip-sys/src/lib.rs:1025-1098 | deleting one field by position, or by id and number, removes that field only; setting replaces it, or appends one |
| PendingOps.DeleteAllIdsKeepsOthers | crates/zip-sys/src/lib.rs:1046-1050 | deleting "all ids" changes nothing exactly when no field has that literal id |
| PendingProofs.DeletesNothing | crates/zip-sys/src/lib.rs:1046-1050 | so deleting all ids from an entry with one ordinary field leaves the field |
| PendingProofs.UnchangeIsDeletion | crates/zip-sys/src/lib.rs:1143-1165 | after any run of calls, undoing an entry leaves the pending edits of the same run without any edit of that entry |
| PendingProofs.OthersUnaffected | crates/zip-sys/src/lib.rs:1143-1165 | every call about anything else is answered as in that run |
| PendingProofs.RunIsSettled | crates/zip-sys/src/lib.rs:328-354 | in every reachable state the delete list and the metadata lists hold at most one edit per index |
| PendingProofs.LookupsAgree | crates/zip-sys/src/lib.rs:1716-1785 | so the forward lookups on close and the backward lookups of getters agree |
| PendingProofs.LastSettingWins | crates/zip-sys/src/lib.rs:971-1012 | for every index the lists hold exactly the last accepted setting since the entry was last undone |
| PendingProofs.FirstRenameWins | crates/zip-sys/src/lib.rs:1752-1764 | the name and the data written are those of the first accepted rename and replacement since then |
| PendingProofs.RenameTakesEffect | crates/zip-sys/src/lib.rs:1752-1757 | an accepted rename takes effect if and only if none is pending for the entry, or one to the same name |
| PendingProofs.ReplaceTakesEffect | crates/zip-sys/src/lib.rs:1758-1764 | so does an accepted replacement, or an overwriting add, of the data |
| PendingProofs.SecondRenameIsIgnored | crates/zip-sys/src/lib.rs:1752-1764 | a second rename or replacement is accepted and has no effect |
| PendingProofs.CurrentFieldsAre | crates/zip-sys/src/lib.rs:1025-1098 | the pending edits of any run yield the extra fields that its history of accepted calls yields |
| PendingProofs.CacheIsLastEdit | crates/zip-sys/src/lib.rs:1025-1098 | after any run the cached fields of an entry are those right after its last accepted extra-field call, or those on disk |
| PendingProofs.CacheIsCurrent | crates/zip-sys/src/lib.rs:1025-1165 | after any run the cached fields are those the entry would be written with if and only if it was not undone since its last extra-field call, or that call had left the fields as on disk |
| PendingProofs.OverlayIsCurrent | crates/zip-sys/src/lib.rs:1025-1098 | while the entry itself is not undone, whatever happens to others, getters show the extra fields it would be written with |
| PendingProofs.UndoneOverlay | crates/zip-sys/src/lib.rs:1143-1165 | right after an undo, in any run, the cached fields are those on disk exactly when the last extra-field call before it had left them so |
| PendingProofs.StaleCache | crates/zip-sys/src/lib.rs:1143-1165 | after adding a field and undoing the entry, once or twice, getters still show the field |
| ZipHandles.DostimeTakesEffect | crates/zip-sys/src/lib.rs:1001-1012 | a DOS time takes effect only if no Unix time is pending, or both show the same |
| ZipHandles.DostimeIsHidden | crates/zip-sys/src/lib.rs:1001-1012 | a DOS time set after a Unix time is accepted and not written |
| ZipHandles.WrittenFollowsHistory | crates/zip-sys/src/lib.rs:1716-1775 | what an entry is written as, told from the history of calls alone |
| ZipHandles.UndoneIsNotWritten | crates/zip-sys/src/lib.rs:1716-1900 | closing after an undo writes the archive that closing without the undone edits writes |
| ZipHandles.Zip.FileAdd | crates/zip-sys/src/lib.rs:4740-4780 | adds an entry, replaces an existing one when asked to, or refuses, and changes nothing else of the handle |
| ZipHandles.Zip.DeleteAt | crates/zip-sys/src/lib.rs:4832-4850 | records a deletion once; refuses pending adds and read-only archives |
| ZipHandles.Zip.EditExtraField | crates/zip-sys/src/lib.rs:5900-6061 | records an extra-field edit that the cached fields allow and refreshes that entry's cache only |
| ZipHandles.Zip.SetEncryption | crates/zip-sys/src/lib.rs:2562-2592 | the setting replaces the earlier one of the index; unknown methods are refused |
| ZipHandles.Zip.UnchangeAt | crates/zip-sys/src/lib.rs:2034-2049 | every list loses the edits of the index, a pending add is removed, and nothing else changes |
| ZipHandles.Zip.Collect | crates/zip-sys/src/lib.rs:1716-1790 | the loops over entries and adds collect exactly the specified files, methods and comment, or the error of the first unreadable entry |
| ZipHandles.Zip.Materialize | crates/zip-sys/src/lib.rs:1716-1900 | the written archive, the missing password when some entry is to be encrypted, the errors of the writer, or a cancel |
| ZipHandles.EditAndClose | crates/zip-sys/src/lib.rs:1716-1900 | any run of calls followed by a close writes what the run amounts to, unless the poll cancels it |
| ClosedHandles.CloseWrites | crates/zip-sys/src/lib.rs:1716-1900 | after any run of calls a close writes exactly the entries with no deletion since their last undo, in order, then the pending additions in order, each with its name, data, metadata, extra fields and encryption, and the last archive comment; an entry that cannot be read, or a missing password, is the outcome instead |
| ClosedHandles.ClosedReadsBack | crates/zip-sys/src/lib.rs:1716-1900 | and the written archive reads back so, entry by entry, down to the extracted data |
| ClosedHandles.AnswersAre | crates/zip-sys/src/lib.rs:4740-4850 | what every call of every run is answered, told from the calls before it |
| ClosedHandles.DeletedIs | crates/zip-sys/src/lib.rs:1749-1751 | an entry counts as deleted exactly when it was deleted and neither it nor everything was undone since |
| ClosedHandles.AddsAre | crates/zip-sys/src/lib.rs:4740-4830 | the pending additions after any run |
| ClosedHandles.UntouchedFields | crates/zip-sys/src/lib.rs:1025-1033 | an entry starts from its own extra fields, without those of the ZIP64 and the AES field |
| Crc.BuildCrcTable | crates/zip-core/src/crypto.rs:29-48 | each table entry is eight bitwise steps of its index |
| Crc.TableIsBitwise | crates/zip-core/src/crypto.rs:51-53 | one table step equals eight bitwise steps, for every state and byte |
| Crc.UpdateConcat | crates/zip-core/src/file.rs:326-328 | hashing in chunks is hashing the whole |
| Crc.HashWithTable | crates/zip-core/src/crypto.rs:51-53 | the table-driven loop computes the bitwise CRC |
| Crc.Residue | crates/zip-core/src/crypto.rs:29-53 | whatever is hashed, followed by its hash, hashes to the residue 0x2144DF1C of CRC-32 |
| Bits.XorTwice | crates/zip-core/src/crypto.rs:94-105 | an exclusive or with the same byte undoes itself |
| Bits.ByteBits | crates/zip-core/src/crypto.rs:94-105 | a bit of an exclusive or is set exactly when the two bits differ |
| ZipCryptos.FirstKeystream | crates/zip-core/src/crypto.rs:63-92 | keys and keystream byte without a password and after a one-letter one, as numbers |
| ZipCryptos.DecryptUndoesEncrypt | crates/zip-core/src/crypto.rs:94-120 | from any key state decryption gives the plaintext back and reaches the same state (section 6.1 of APPNOTE.TXT) |
| ZipCryptos.DecryptConcat | crates/zip-core/src/crypto.rs:115-120 | decrypting in pieces is decrypting the whole |
| ZipCryptos.ZipCrypto.EncryptInPlace | crates/zip-core/src/crypto.rs:108-112 | the loop over the buffer leaves the specified ciphertext and key state |
| ZipCryptos.ZipCrypto.DecryptInPlace | crates/zip-core/src/crypto.rs:115-120 | the loop over the front of the buffer leaves the specified plaintext and key state, and the rest of the buffer |
| ZipCryptos.EncryptData | crates/zip-core/src/crypto.rs:143-168 | header and data are encrypted as one stream; the header ends in the check byte |
| ZipCryptos.HeaderBytes | crates/zip-core/src/crypto.rs:128-157 | first and last bytes of a header before encryption, as numbers |
| ZipCryptos.DecryptingSource.ReadChunks | crates/zip-core/src/crypto.rs:183-189 | any sequence of buffer sizes yields the decryption of the bytes consumed |
| ZipCryptos.OpenEncrypted | crates/zip-core/src/archive.rs:341-359 | the check byte decides, then the size; each failure has its error |
| ZipCryptos.ReadBack | crates/zip-core/src/archive.rs:341-360 | reading what was encrypted, in any chunks that cover it, passes the check and yields the data |
| AesCtr.IncrementIsSuccessor | crates/zip-core/src/crypto.rs:337-345 | the carry over the low bytes is the little-endian successor |
| AesCtr.IncrementInPlace | crates/zip-core/src/crypto.rs:337-345 | the carry loop touches only the low eight bytes |
| AesCtr.CountersRepeat | crates/zip-core/src/crypto.rs:323-350 | two counter blocks are equal if and only if their numbers are equal modulo 2^64 |
| AesCtr.CountersDistinct | crates/zip-core/src/crypto.rs:323-350 | below 2^64 blocks all counter blocks differ (section 6.5 of NIST SP 800-38A) |
| AesCtr.CtrIsInvolution | crates/zip-core/src/crypto.rs:313-350 | applying the keystream twice is the identity |
| AesCtr.AesCtrApply | crates/zip-core/src/crypto.rs:323-350 | the in-place loop over blocks applies the keystream to every byte, a partial last block too |
| AesCtr.RegionRoundTrip | crates/zip-core/src/crypto.rs:375-457 | an encrypted region with a salt of the right length decrypts to its data, for every length |
| AesCtr.RegionBytes | crates/zip-core/src/crypto.rs:243-403 | every byte of a region: salt and key lengths, verifier, the keystream block and byte of each position, the tag |
| AesCtr.RegionErrors | crates/zip-core/src/crypto.rs:414-457 | why a region is refused, in order: too short, another verifier, another tag |
| AesCtr.AcceptedIsAuthentic | crates/zip-core/src/crypto.rs:414-457 | a region is accepted only if it is the encryption, under the password, of what is returned |
| AesCtr.AesEncryptData | crates/zip-core/src/crypto.rs:375-403 | computes the region: salt, verifier, ciphertext, tag |
| AesCtr.AesDecryptData | crates/zip-core/src/crypto.rs:414-457 | computes the decryption with its truncated, wrong-password and corrupt outcomes |
| Dates.NormalizeYmd | crates/zip-core/src/archive.rs:491-521 | for every year, month and day the loop ends in a calendar date with the same absolute day |
| Dates.DayNumberIsInjective | crates/zip-core/src/archive.rs:524-537 | two calendar dates with the same day number are the same |
| Dates.NormalizedIsUnique | crates/zip-core/src/archive.rs:491-521 | so the normalised date is the only one it could be |
| Dates.DosDateStaysInRange | crates/zip-core/src/archive.rs:423-458 | a packed DOS date normalises to a year from 1979 to 2108 |

## Left out

- Extraction.WriteThenExtract: names are bytes and taken as valid UTF-8; lossy conversion on read is not modelled.
- Extraction.WriteThenExtract: stated for archives whose directory can be located and whose entries are legal; `ArchiveProofs.WriteThenRead` says exactly when that is, and `Extraction.OneLetterFileComesBack` is a case where it always holds.
- Cdir.ReopenExact: the whole archive is below 2^64 bytes, as memory and files are.
- ZipHandles.Zip.FileAdd: the bytes are a value; that the caller's memory source is emptied even by a refused add is not modelled.
- Leftovers.FailedTruncation: does not say what is read when an old ZIP64 end record decides, or one inside the old directory.
- ModifyIO.ModifyArchiveFile: a failed write leaves a prefix of the new tail; other ways in which a device may tear a write are not modelled.
- OpenEntry.OpenAndDrain: the lazily decoded stream is modelled by its whole output and its ending, handed out in arbitrary pieces; `data_offset + comp_size` is an unbounded sum.
- OpenEntry.OpenDirent: error codes of a small entry that cannot be buffered differ between strategies and are not compared.
- EntryReaders.EntryReader.OverShared: the region lies inside the archive, which its only caller checks first.
- AsyncBridge.AsyncEntryReader.PollRead: wake-ups and fairness are not modelled; that a pending poll is ever resumed is up to the runtime.
- SharedFiles.Drive: steps are atomic, as the mutex makes them; poisoning is not modelled, nor is a file that changes length.
- WriteSessions.Drive: allocation failure and null pointers are not modelled; a buffer never passes 2^63 - 1 bytes.
- PendingProofs.UnchangeIsDeletion: for entries on disk; undoing a pending add shifts later adds but not their edits.
- ZipHandles.Zip.Materialize: takes lists with one setting per index, which every run of calls leaves (`PendingProofs.RunIsSettled`, `ZipHandles.EditAndClose`); the floating-point progress throttle is not modelled.
- Compress.WriteProgress.Advance: byte totals are unbounded numbers.
- Dates.NormalizeYmd: years are unbounded; time zones, daylight saving and the conversion to seconds are not modelled.
- ZipCryptos.EncryptData: the header generator is modelled with its seed; its statistical quality is not.
- AesCtr.RegionRoundTrip: the random salt is a parameter.
- The DEFLATE, Bzip2, AES, PBKDF2 and HMAC-SHA1 algorithms: foreign code, taken as functions.
- I/O errors of in-memory sources, memory maps, Win32, FILE* and descriptor sources, layered and callback sources.
- `parse_local` beyond its sizes and data start, and the position of a source after a failed read.
- Buffer pooling, error strings, handle reference counts, global archive flags and cached comment strings: no property spans them.
