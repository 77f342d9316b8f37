# Verification of zip-forensic

A Dafny model of the logic of zip-forensic, a ZIP reader, over an immutable file of bytes. Five
groups of modules follow the program's components; a sixth puts them together.

* **Container parser**: `Bytes`, `Streams`, `Archive`, `Container` model the cursor, the
  central-directory parser, the backwards search for the end record, Zip64, prefix detection, the
  signature record and the local headers. `Printer` lays an archive out by sections 4.3.7, 4.3.12,
  4.3.14, 4.3.15, 4.3.16 and 4.5.3 of the PKWARE APPNOTE; `PrintParse` proves that the parser
  inverts it, `Edits` what bytes put before or behind an archive do to the parse, and `Refusals`
  which files are refused with which error.
* **Random access**: `Search`, `StoredBlocks`, `Deflate64Seek`, `Layouts`. An index over stored
  deflate blocks (section 3.2.4 of RFC 1951), or over decoder checkpoints, makes a positioned read
  equal to decoding everything and slicing; `Layouts` puts the ways of doing so side by side.
* **Decryption readers**: `Registers`, `Crc32`, `ZipCrypto` (APPNOTE section 6.1), `Cbc`, `Strong` and
  `StrongRoundTrip` (APPNOTE section 7.2), `AesCtr` (WinZip AES), `EntryReader` (the checksum at
  the end of an entry).
* **Directory tree and content cache**: `Tree`, `TreeFacts`, `ContentCache`.
* **Audit**: `Audit` (the overlap sweep, prepended and trailing data, header copies), `AuditEdits`,
  and `Names`, what makes a name safe to extract.
* **End to end**: `Extract` opens an entry of a printed archive with any of the four protections;
  `RandomAccess` opens one by name and reads it at any offset; `Mounted` goes from a path through the
  tree to the bytes read; `Counterexamples` holds inputs on the failing side of the exact conditions.

Code that works step by step is modelled by classes and methods, each proved equal to a function;
the lemmas are about those functions. What they are measured by is written apart from them: the printer,
the encryptors and the checksum take their numbers from `Format` and from the documents, share no step with
the reader but writing an integer and the exclusive or of two numbers, and compute over natural numbers
where the program has registers (`Registers` says which number a register holds). A `Source` returns any number of bytes a short read may
return, and reading loops choose any buffer sizes, so what is proved of them holds for every
chunking. Foreign code enters as values constrained by stated laws: the block cipher (`Cbc`), the
keystream, HMAC and key derivation (`AesCtr`), the Deflate64 inflater (`Deflate64Seek.Lawful`), and
the codecs (`Extract.Crates`). `Deflate64Seek.ContractIsMet` shows that the inflater's laws are
consistent.

Lemmas by induction spell the induction out; Dafny's automatic induction is off throughout.

Sums of 64-bit offsets that the code leaves unchecked are modelled as a release build computes them,
wrapping around; a debug build panics there.

## What the model says about the code

* A Zip64 archive whose comment is longer than 65515 bytes is refused, although well formed: the
  Zip64 locator is looked for in the scanned tail only. `PrintParse.RoundTrip` has this as its exact
  condition, and `Counterexamples.LongCommentRefused` an input.
* A prefix is detected exactly for archives without Zip64 records whose directory ends at the end
  record, and only if it does not hold a central-header signature at the recorded directory offset
  (`Edits.Prepending`, `Counterexamples.PrefixUnnoticed`). So an archive whose signature record is not
  counted into the directory can have no prefix (`Edits.PrependingPrinted`).
* Bytes appended to an archive whose directory ends less than six bytes before the end of the file can
  complete a signature record and change the summary (`Edits.Appending`,
  `Counterexamples.SignatureCompleted`).
* A stored entry is read by its uncompressed size, so random access agrees with sequential reading
  exactly when its two sizes agree (`Layouts.ReadsAreSlices`, `Counterexamples.StoredPastEnd`). The
  full-decode path panics on an offset past the decoded length but before the declared one; it agrees
  with sequential reading exactly when the declared size is the decoded one or one more
  (`Counterexamples.FallbackPanics`), and it panics on every non-empty read if the declared size is more
  than the longest buffer, 2^63 - 1 bytes. Where the end of a read's range wraps at 64 bits, blocks give
  nothing. Where the place in the file wraps, which takes a stored entry declared far longer than any
  file, a read returns bytes from the start of the file instead of failing
  (`Counterexamples.PlaceWraps`).
* `AesReader::read` with an empty buffer reports a wrong password while ciphertext remains, and
  `ZipFile::read` with an empty buffer checks the checksum early and then never again. Both are in
  the contracts of the `Read` methods; the theorems about whole entries use non-empty buffers up to
  the first terminal result.
* A path that is a file and a proper prefix of another entry's path hides that entry from lookup
  (`TreeFacts.EntryResolves`, `Counterexamples.FileAboveFile`).
* The overlap sweep misses no archive with an overlap, but not every overlapping pair is reported
  (`Audit.SweepReports`, `Counterexamples.PairUnreported`).
* The offset reported for a bad central header lies four bytes behind the header's start, because it
  is computed after the signature is read (core/src/archive.rs:749-754).

## Model

| member | source | states |
|---|---|---|
| Bytes.Reader.Take | core/src/bytes.rs:27-32 | returns the next bytes and moves past them, or leaves the cursor as it was; never outside the data |
| Bytes.Reader.Skip | core/src/bytes.rs:35-37 | moves past bytes that are there, or leaves the cursor as it was |
| Bytes.Reader.U16 | core/src/bytes.rs:39-42 | the little-endian 16-bit value at the cursor, or an error that leaves it as it was |
| Bytes.Reader.U32 | core/src/bytes.rs:44-47 | the little-endian 32-bit value at the cursor, or an error that leaves it as it was |
| Bytes.Reader.U64 | core/src/bytes.rs:49-54 | the little-endian 64-bit value at the cursor, or an error that leaves it as it was |
| Bytes.LeRoundTrip | core/src/bytes.rs:49-54 | reading an integer back from its little-endian bytes gives the integer, for every width |
| Container.FindEocd | core/src/archive.rs:658-667 | the result is a match with room for a record and no later one exists; none means no match anywhere |
| Container.EocdPosIsLast | core/src/archive.rs:524-541 | the end record of a file is the last match of its signature, exactly if that lies in the scanned tail |
| Container.ParseEocd | core/src/archive.rs:670-690 | the fields of the end record, or the error of a wrong signature or a short buffer |
| Container.ResolveZip64Eocd | core/src/archive.rs:695-733 | the directory location recorded in the Zip64 record the locator points at, or the error for each way that fails |
| Container.DetectPrefix | core/src/archive.rs:569-583 | the prefix length as a function of the file: the gap before the end record, if a header stands behind it and none at the recorded offset |
| Container.IsCdHeaderAt | core/src/archive.rs:646-655 | whether a central-header signature stands at an offset, wherever the cursor was |
| Container.DetectSignature | core/src/archive.rs:614-630 | the signature record's length in either of its two places |
| Container.ShiftEntries | core/src/archive.rs:601-605 | every local-header offset moves by the prefix and nothing else changes |
| Container.ParseCentralDirectory | core/src/archive.rs:524-642 | the whole parse, whatever the cursor position, equals the function `Open` of the file that the theorems are about |
| Archive.ApplyZip64Extra | core/src/archive.rs:833-862 | the in-place loop resolves the sentinel fields as the declarative record lookup does, including each error |
| Archive.ParseAesExtra | core/src/archive.rs:866-887 | the AE-x parameters are those of the first record with their id, if the records up to it are well formed; `Printer.AesInverts` says which those are |
| Archive.ParseCdEntries | core/src/archive.rs:739-827 | the loop over variable-length headers gives the entries and the bytes consumed, or the first header's error |
| Container.ReadLfhFields | core/src/archive.rs:469-511 | the fields of a local header and the offset of the first data byte |
| Container.ReadStructuralView | core/src/archive.rs:256-278 | both header copies of every entry in directory order, or the first error |
| Printer.Zip64Inverts | core/src/archive.rs:833-862 | clipping sizes and offset to 32 bits and adding exactly the needed 64-bit fields resolves to the original triple, whatever unrelated records stand around |
| Printer.FindIs | core/src/archive.rs:833-887 | for every extra block, well formed or not: what the search finds is the first record with the id, or stands for none before the end, or for a record cut short |
| Printer.SizesRefused | core/src/archive.rs:833-862 | sizes cannot be resolved exactly when a field asks for a Zip64 record and there is none, or the block or the record is too short |
| Printer.AesInverts | core/src/archive.rs:866-887 | a printed AE-x record parses to version, strength and method printed, whatever unrelated records stand around it |
| Printer.EntryPrinted | core/src/archive.rs:745-826 | a printed central header parses to the member's entry and the parser stops right behind it |
| Printer.EntriesPrinted | core/src/archive.rs:739-827 | printed headers parse to all entries, in order, consuming exactly their bytes |
| PrintParse.EndFound | core/src/archive.rs:658-667 | the printed end record is the one found, exactly if its comment hides no later signature |
| PrintParse.LocationPrinted | core/src/archive.rs:544-559 | the directory location inverts its encoding with and without Zip64 records; with Zip64 a comment over 65515 bytes is refused |
| PrintParse.NoPrefix | core/src/archive.rs:561-583 | no prefix is inferred for a printed archive, wherever its signature record is counted |
| PrintParse.SignaturePrinted | core/src/archive.rs:607-630 | the signature record is recognised in both layouts, and nothing else is taken for one |
| PrintParse.RoundTrip | core/src/archive.rs:524-642 | opening a printed archive returns the printed entries and summary, exactly when the archive meets a condition on its comment and entry count |
| PrintParse.ViewRoundTrip | core/src/archive.rs:256-278 | the structural view of a printed archive returns both copies of each header and the offset at which the data stands; the copies are equal exactly when both sizes fit 32 bits |
| Edits.Prepending | core/src/archive.rs:561-605 | for every archive with an entry: prepending bytes moves the whole parsed archive by their number, exactly when it is not Zip64, its directory ends at its end record, and the bytes put no header signature at the recorded offset |
| Edits.PrependingPrinted | core/src/archive.rs:561-605 | for printed archives: exactly without Zip64 records, with the signature record, if any, counted into the directory, and with no header signature at the recorded offset |
| Edits.Appending | core/src/archive.rs:524-542 | appending bytes changes nothing of the parse but the file length, exactly when the end record stays last and in the scanned tail and no signature record is completed behind the headers |
| Refusals.NothingFound | core/src/archive.rs:524-541 | there is no archive exactly when no end record starts in the last 65557 bytes |
| Refusals.LocationRefused | core/src/archive.rs:695-733 | each error of the Zip64 location, exactly when the locator or the record is missing or cut |
| Refusals.DirectoryRefused | core/src/archive.rs:585-605 | a directory outside the file, more than 16000000 entries, or the first bad header |
| Refusals.HeaderRefused | core/src/archive.rs:739-827 | a central header is refused exactly for its length, its signature, its variable parts or its sizes |
| Refusals.HeadersInTurn | core/src/archive.rs:739-827 | the directory is as many consecutive headers as were asked for, each entry from its header, or else the error of the first that does not parse |
| Refusals.LocalRefused | core/src/archive.rs:469-511 | a local header is refused exactly for its length or its signature |
| Refusals.ViewRefused | core/src/archive.rs:256-278 | the structural view fails with the archive's error, or with that of the first local header that does not read |
| Search.PartitionPoint | core/src/lib.rs:234 | the position that splits a partitioned list |
| StoredBlocks.IndexStoredBlocks | core/src/lib.rs:332-391 | the loop ends and equals the recursive walk over block headers; there is no index where the end of the data wraps at 64 bits |
| StoredBlocks.IndexRefinesChain | core/src/lib.rs:332-391 | an index is returned exactly when the data is a chain of stored blocks of RFC 1951, up to its first final block, of the declared size; its blocks tile the output, lie apart inside the data and hold the decoded bytes |
| StoredBlocks.IndexDecides | core/src/lib.rs:332-391 | for data inside the file, on its bytes alone: no index exactly when stored blocks are followed by a block of another type or by fewer than five bytes; refused exactly for a wrong NLEN, an overrun or a wrong total, each with its place |
| StoredBlocks.BlockAt | core/src/lib.rs:233-237 | an index always has a block holding the output position, and the first that ends behind it is it |
| StoredBlocks.ReadAt | core/src/lib.rs:222-250 | fills the buffer with exactly the bytes due, each from its place in the file, touching nothing else; fails exactly when one of those places is past the end; places wrap at 64 bits, and nothing is read where the range's end does |
| StoredBlocks.PlaceIsStored | core/src/lib.rs:238-246 | for blocks inside the file that place is where the byte is stored |
| StoredBlocks.ReadIsSlice | core/src/lib.rs:222-250 | what such a read delivers is the slice of the entry's content |
| Deflate64Seek.RawInflate.Refill | core/src/deflate64_seek.rs:149-164 | refilling the buffer keeps the stream position and ends only with the range |
| Deflate64Seek.RawInflate.Inflate | core/src/deflate64_seek.rs:164-176 | one call on what is buffered delivers the next bytes of the stream and is booked in the ledger |
| Deflate64Seek.RawInflate.Read | core/src/deflate64_seek.rs:149-189 | the loop ends; it delivers the next bytes of the decoded stream, and none exactly at its end; what it delivers is what was inflated |
| Deflate64Seek.Capture | core/src/deflate64_seek.rs:280-310 | a due checkpoint is taken only from the inflater's current state and only if it lies behind the last; the cap error only if those taken outgrow the cap |
| Deflate64Seek.BuildIndex | core/src/deflate64_seek.rs:230-327 | an index starts at the stream start, has strictly increasing resumable checkpoints that the inflater gave at positions an interval or more apart, within the caps, and stands for a stream that decodes completely to the declared size, inflated once; each refusal has its cause, a range that runs past the end of the file included; neighbours less than interval plus one chunk apart if checkpoints can always be taken |
| Deflate64Seek.SmallDoNotOutgrow | core/src/deflate64_seek.rs:284-294 | if no checkpoint has more than B bytes and B times the number of whole intervals is within the cap, the cap error cannot occur |
| Deflate64Seek.SkipBound | core/src/deflate64_seek.rs:74-96 | with checkpoints less than a bound apart, the last one at or before any offset is less than the bound away |
| Deflate64Seek.Choose | core/src/deflate64_seek.rs:74-79 | the last checkpoint at or before an offset |
| Deflate64Seek.Restore | core/src/deflate64_seek.rs:81-93 | a reader that resumes the stream at exactly the checkpoint's output offset |
| Deflate64Seek.ReadAt | core/src/deflate64_seek.rs:68-117 | fills exactly the decoded bytes due at the offset, and fails only on data that runs past the end of the file, whichever checkpoint is restored and however the stream is chunked; it inflates exactly those bytes and the ones between the last checkpoint and the offset, less than the bound |
| Deflate64Seek.ContractIsMet | core/src/deflate64_seek.rs:123-146 | the assumptions about the inflater are met by some inflater for every output |
| Layouts.OpenEntry | core/src/lib.rs:272-327 | the layout chosen for each compression method; a refusal is that of the block index, or of the checkpoint index with its cause; deflated data with a block that is not stored opens for its codec, and Deflate64 data of at most 4 GiB with checkpoints of at most 1 MiB gets its index; the default caps and interval in numbers |
| Layouts.NotRefused | core/src/deflate64_seek.rs:24-33 | no default cap refuses an entry of at most 4 GiB that decodes to its declared size inside the file, with checkpoints of at most 1 MiB |
| Layouts.ReadAt | core/src/lib.rs:222-267 | the answer of a positioned read through each of the three layouts, both panics of the third included: a declared size no buffer can have, and an offset past the decoded length |
| Layouts.ReadDecoded | core/src/lib.rs:261-265 | the full-decode path copies the window of the decoded entry, or panics exactly when the offset is past it or the range wraps |
| Layouts.ReadsAreSlices | core/src/lib.rs:222-327 | every positioned read whose range ends within 64 bits is a slice of the sequentially decoded entry, exactly when the sizes agree as stated |
| Crc32.Crc32Byte | core/src/crypto.rs:84-94 | the loop over the low byte equals the update function |
| Crc32.UpdateIsWhole | core/src/crypto.rs:84-94 | shifting only the low byte equals eight steps of the whole register, for every register and byte |
| Crc32.UpdateIsReference | core/src/crypto.rs:84-94 | and that is the division by the polynomial, written over the numbers the registers hold |
| Crc32.ChecksumIsReference | core/src/archive.rs:1109-1130 | the checksum of any data is the complement of the remainder, starting from all ones |
| Crc32.CheckValue | core/src/crypto.rs:84-94 | the checksum of the byte 0x61 is 0xE8B7BE43 |
| Crc32.UpdateBijective | core/src/crypto.rs:84-94 | for each byte the update is a bijection on registers |
| Crc32.FeedConcat | core/src/archive.rs:1126 | a checksum may be fed in pieces of any size |
| ZipCrypto.UpdateBijective | core/src/crypto.rs:54-62 | for each byte the update is a bijection on the three keys, with multiplier inverse 0xD94FA8CD |
| ZipCrypto.DecryptInverts | core/src/crypto.rs:64-70 | decrypting what was encrypted under the same keys gives the plaintext |
| ZipCrypto.EncryptInverts | core/src/crypto.rs:64-70 | and the other way round |
| ZipCrypto.DecryptConcat | core/src/crypto.rs:73-81 | decrypting in pieces, carrying the keys along, equals decrypting at once |
| ZipCrypto.EncryptIsProduce | core/src/crypto.rs:54-70 | the three registers encrypt, byte for byte, what section 6.1 says over numbers: its first keys, its products modulo 2^32, its keystream byte |
| ZipCrypto.ZipCryptoReader.UpdateKeys | core/src/crypto.rs:54-62 | the keys after one byte |
| ZipCrypto.ZipCryptoReader.DecryptByte | core/src/crypto.rs:64-70 | one plaintext byte and the keys after it |
| ZipCrypto.ZipCryptoReader.Start | core/src/crypto.rs:28-52 | the password and header set the keys; accepted exactly if the decrypted header ends in the check byte |
| ZipCrypto.ZipCryptoReader.Read | core/src/crypto.rs:73-81 | one short read delivers the next part of the plaintext and leaves the rest to come |
| ZipCrypto.ReadToEnd | core/src/crypto.rs:73-81 | with any buffer sizes and short reads the whole plaintext is delivered |
| ZipCrypto.RoundTrip | core/src/crypto.rs:28-81 | what section 6.1 encrypts under a password, computed over numbers, reads back exactly when the header ends in the check byte |
| ZipCrypto.OnlyProduced | core/src/crypto.rs:28-81 | and nothing else is accepted: data reads as a plaintext exactly when section 6.1 makes it of that plaintext, with the right check byte |
| ZipCrypto.RefusedAs | core/src/crypto.rs:28-52 | too little data for a header is an I/O error, and all else that is not encrypted so is a wrong password |
| Cbc.CbcInverts | core/src/crypto.rs:351-365 | CBC decryption inverts CBC encryption for every key, initial block and data of whole blocks |
| Cbc.CbcReencrypts | core/src/crypto.rs:351-365 | and encryption inverts decryption |
| Cbc.CbcConcat | core/src/crypto.rs:579-585 | decrypting a concatenation is decrypting the parts, the second from the last ciphertext block of the first |
| Cbc.CbcDec.DecryptBlock | core/src/crypto.rs:340-347 | a block is decrypted in place and chained |
| Cbc.CbcDecryptBuffer | core/src/crypto.rs:351-365 | the in-place loop leaves in the buffer the CBC decryption of what was there, and touches nothing for a wrong key length |
| Strong.ParseLayout | core/src/crypto.rs:393-486 | every accepted layout lies inside the remainder; its validation data is a non-empty run of blocks ending exactly with it; only refusals otherwise |
| Strong.RecoverKey | core/src/crypto.rs:546-577 | the password passes both gates and gives the file key, or is refused |
| Strong.ReadStrongHeader | core/src/crypto.rs:492-591 | the reader equals the header function of the remaining bytes and has consumed exactly the header's length |
| StrongRoundTrip.LayoutRead | core/src/crypto.rs:393-486 | the layout parser inverts the encoder's layout |
| StrongRoundTrip.DerivesKey | core/src/crypto.rs:298-320 | the reader's keys are the first bytes of the digests of the two padded digests of section 7.2, spelled out byte by byte |
| StrongRoundTrip.HeaderRoundTrip | core/src/crypto.rs:492-591 | for every password, key size, IV mode, random and validation data the reader recovers the file key that the encoder derived on its own, and stops at the file data |
| StrongRoundTrip.OnlyEncoded | core/src/crypto.rs:492-591 | a password opens a header exactly when some choice of an encoder's makes those bytes under that password, so neither gate can be passed otherwise |
| StrongRoundTrip.WrongPasswords | core/src/crypto.rs:492-591 | a wrong password is reported exactly for a well-formed header that no encoder makes under it |
| StrongRoundTrip.RemainderRefused | core/src/crypto.rs:526-537 | the header's remainder is refused exactly for a length below 16 or above 262144, or when it is cut |
| StrongRoundTrip.HandOff | core/src/crypto.rs:579-590 | for every accepted header, starting from the remainder's last block gives what one continuous decoder gives |
| StrongRoundTrip.StrongAesReader.Stage | core/src/crypto.rs:628-639 | staging a block keeps the plaintext still to come; it fails exactly when no whole block is left |
| StrongRoundTrip.StrongAesReader.Serve | core/src/crypto.rs:640-643 | copying out of the staged block delivers the next part of the plaintext |
| StrongRoundTrip.StrongAesReader.Read | core/src/crypto.rs:626-645 | a read delivers the next part of the plaintext, and fails exactly when the ciphertext ended too early |
| StrongRoundTrip.DecryptEntry | core/src/archive.rs:363-403 | an entry read to its first terminal result equals the stated function of its bytes, truncated files included; a stored one is cut at its size |
| StrongRoundTrip.CutShort | core/src/crypto.rs:626-645 | an entry read to its end fails exactly when its whole blocks fall short of its length |
| StrongRoundTrip.RoundTrip | core/tests/strong_aes.rs:167-228 | encoded entry data decrypts to payload and padding |
| StrongRoundTrip.EntryRoundTrip | core/src/archive.rs:385-392 | an encoded entry comes back: a stored one whole, its padding cut off at the uncompressed size, any other with its padding |
| AesCtr.AesReader.Finish | core/src/crypto.rs:228-238 | the verdict over the whole ciphertext |
| AesCtr.AesReader.Read | core/src/crypto.rs:241-266 | each read delivers the next part of the counter-mode decryption; the first terminal result is success only if the code over the whole ciphertext matches |
| AesCtr.ReadToEnd | core/src/crypto.rs:241-266 | with any non-empty buffers and short reads, exactly the decryption of what is there of the expected length, and then success, or the error for truncation or a wrong code |
| AesCtr.DecryptEntry | core/src/crypto.rs:164-225 | the constructor's refusals, then the authenticated plaintext |
| AesCtr.OnlyGenuine | core/src/crypto.rs:164-266 | whoever wrote the entry, it is read without an error exactly when it is long enough, the password verifier fits and the authentication code over its whole ciphertext is right, and then as its decryption |
| AesCtr.FailsAs | core/src/crypto.rs:164-266 | how an entry that is not genuine fails: too small, cut in its header, wrong verifier, cut ciphertext, cut code, wrong code |
| AesCtr.RoundTrip | core/src/crypto.rs:163-266 | what a producer encrypts reads back, for every strength, salt, password and plaintext |
| EntryReader.ZipFile.Read | core/src/archive.rs:1109-1130 | bytes are passed on and summed, a failing decoder's error too; the first empty read compares the checksum of everything delivered, later ones never |
| EntryReader.ReadToEnd | core/src/archive.rs:1109-1130 | reading to the end succeeds exactly when the decoder ends without error and the checksum of all bytes is the recorded one |
| EntryReader.CheckedIs | core/src/archive.rs:1109-1130 | an entry is refused for its decoder's failure first, and then for its checksum, with the recorded and the computed value |
| Extract.OpenPlain | core/src/archive.rs:280-298 | opening without a password and reading to the end, as a function of the file: disk check, encryption refusal, data range, codec, checksum |
| Extract.OpenDecrypt | core/src/archive.rs:300-403 | the choice among no, traditional, AES and strong encryption, the codec beneath, and each one's result |
| Extract.ByIndex | core/src/archive.rs:202-235 | an entry by its index, or the error for an index out of bounds |
| Extract.RefusedUnread | core/src/archive.rs:280-356 | entries on another disk are refused with its number, encrypted ones without a password, masked ones with it; unencrypted ones do not need it |
| Extract.StoredOpens | core/src/archive.rs:280-298 | a stored entry opens exactly on this disk, unencrypted, with a local header and the right checksum, as what stands in the file |
| Extract.StoredDecrypts | core/src/archive.rs:300-356 | with traditional encryption a stored entry reads as a plaintext exactly when the file holds what section 6.1 makes of it, with the check byte of its flags, and the checksum is right |
| Extract.StrongOpens | core/src/archive.rs:363-403 | a strongly encrypted entry is read only on this disk, unmasked, and if an encoder made its header under the password |
| Extract.OnlyAuthentic | core/src/archive.rs:300-356 | whoever wrote the archive, a stored AES entry is extracted exactly when its authentication code is right, and for AE-1 its checksum, and then as what it holds |
| Extract.HeldIsRead | core/src/archive.rs:300-403 | a member's entry reads as its plaintext checked against its checksum, under each of the four protections and by any method its codec inverts |
| Extract.ExtractInvertsCreate | core/src/archive.rs:169-403 | printing an archive, parsing it and reading a member with its password returns the plaintext, for each protection and any method its codec inverts, exactly when the recorded checksum is the plaintext's (AE-2 has none) |
| RandomAccess.FindByName | core/src/archive.rs:212-220 | the first entry of the name, or none if there is no such entry |
| RandomAccess.NamedEntry | core/src/archive.rs:212-220 | a file that does not open, and a name that no entry has, are refused; otherwise the first entry of the name counts |
| RandomAccess.DescribedWhen | core/src/archive.rs:280-298 | an entry opens for random access exactly on this disk, unencrypted, with a local header and a codec, and is described by its method's number |
| RandomAccess.OpenNamed | core/src/lib.rs:272-327 | opening by name: the parser's and the entry's errors, then the layout that goes with the entry; deflated data with a block that is not stored always opens, for its codec |
| RandomAccess.NamedLayout | core/src/lib.rs:272-327 | the layout of a printed member by its method's number and its bytes: one block, the indexed blocks, the codec, or checkpoints |
| RandomAccess.NamedMember | core/src/archive.rs:212-220 | a printed member is described where it was laid out, and decodes to its data |
| RandomAccess.CodecDecodes | core/src/lib.rs:272-327 | what the sequential decoder makes of an entry is what the layouts are measured by |
| RandomAccess.NamedReads | core/src/lib.rs:222-327 | a member of a printed archive opened by its name gives, at every offset and through whichever layout is chosen, the window of its plaintext, exactly when its sizes agree |
| Tree.ComponentsOfJoin | core/src/vfs.rs:294-313 | splitting undoes joining, so the joined path is a faithful key for components without separators |
| Tree.ComponentsAtSeparator | core/src/vfs.rs:299-303 | at a slash or a backslash a name's components are those before it and those behind it |
| Tree.ComponentsOfPart | core/src/vfs.rs:299-303 | a part without either is one component, unless it is empty or a dot |
| Tree.DirectoryNames | core/src/vfs.rs:298 | the test for a trailing separator accepts exactly the names whose last part is empty |
| Tree.Builder.Visit | core/src/vfs.rs:307-369 | one component, new or known, keeps node table and path map equal to their description by mentions |
| Tree.Builder.Insert | core/src/vfs.rs:294-371 | one entry keeps it |
| Tree.BuildTree | core/src/vfs.rs:276-374 | the finished table is the described one |
| TreeFacts.Shape | core/src/vfs.rs:276-381 | in every reachable state children come after their parents, every node but the root is a child exactly once, siblings differ in name, files have entries |
| TreeFacts.NodeMeaning | core/src/vfs.rs:315-358 | a node's entry is the lowest-index entry of its path; it is a file of that entry's size exactly when the first entry under the path is that one and no directory |
| TreeFacts.FirstNamedIsLowest | core/src/vfs.rs:318-330 | the entry a node is given has the lowest index among those of its path |
| TreeFacts.PathsAre | core/src/vfs.rs:307-369 | the tree's paths are exactly the non-empty prefixes of the entries' paths, and the root |
| TreeFacts.Lookup | core/src/vfs.rs:450-468 | the loop equals the function of the node table, errors included |
| TreeFacts.LookupRefuses | core/src/vfs.rs:450-468 | a lookup fails exactly outside the table and in files |
| TreeFacts.LookupFinds | core/src/vfs.rs:450-468 | looking up a name in a directory gives the node of the extended path, or none exactly when the tree has no such path |
| TreeFacts.ResolveFrom | core/src/vfs.rs:450-468 | looking up names one after another reaches the node of the path, exactly when it exists and no node above it is a file |
| TreeFacts.EntryResolves | core/src/vfs.rs:294-371 | an entry's components lead from the root to its node, exactly when no proper prefix of its path was first listed as a file |
| TreeFacts.AllResolve | core/src/vfs.rs:294-371 | if only entries named as directories stand above others, every entry with a path can be reached |
| TreeFacts.NothingShared | core/src/vfs.rs:294-371 | resolving parts of two names that differ in their first component reaches the same node only if that is the root |
| ContentCache.ZipVfs.Content | core/src/vfs.rs:159-177 | the locked half of a call, as the interleavings use it: the result is that of a direct decode; successes are cached, failures never |
| ContentCache.ZipVfs.ReadAt | core/src/vfs.rs:496-523 | the buffer receives what a direct decode would give at the offset, and nothing else changes |
| ContentCache.ReplyIs | core/src/vfs.rs:496-523 | a reply is refused exactly for a node that does not exist or does not decode, empty for a directory, and else the bytes of the content that were asked for |
| ContentCache.EveryInterleaving | core/src/vfs.rs:159-177 | however calls of several threads interleave, every reply is a direct decode's, every cached value too, and no entry is decoded successfully twice |
| ContentCache.PiecesJoin | core/src/vfs.rs:496-523 | consecutive reads with any buffer sizes join to the content |
| ContentCache.Reassembles | core/src/vfs.rs:496-523 | with non-empty buffers a read comes back empty exactly when everything has been read |
| Audit.OrderIsStable | forensic/src/lib.rs:420 | the order used is a stable sort by start |
| Audit.OrderIsUnique | forensic/src/lib.rs:420 | it is the only one, so the sort's own algorithm does not matter |
| Audit.AuditOverlaps | forensic/src/lib.rs:412-435 | the loop over neighbours equals the sweep function |
| Audit.SweepReports | forensic/src/lib.rs:423-433 | the findings are exactly those of overlapping neighbours in start order, stated without the sort |
| Audit.SweepIsAllPairs | forensic/src/lib.rs:412-435 | there is no finding exactly when every earlier member ends at or before every later start |
| Audit.OverlapsReported | forensic/src/lib.rs:410-435 | the findings on the members themselves: member j is the next to start after member i, before i's compressed data ends |
| Audit.OverlapsMeanSharedBytes | forensic/src/lib.rs:410-435 | two members sharing a byte always yield a finding; its offset lies in the earlier member, and in the later one if that is not empty; among non-empty members there is a finding exactly when two share a byte |
| Names.EnclosedName | core/src/archive.rs:1084-1107 | the loop gives a name's components, exactly when it holds no NUL and no parent step, is not absolute and names anything |
| Names.TraversalClimbs | forensic/src/lib.rs:538-541 | a name is a traversal exactly when two dots stand alone between separators, slash or backslash, or the name's ends |
| Names.AbsoluteIsRooted | forensic/src/lib.rs:543-550 | a name is absolute exactly when it starts with a separator or with an ASCII letter and a colon |
| Names.SafeNamesStayBelow | core/src/archive.rs:1084-1107 | a name with a safe path leads, step by step from any directory, strictly below it, by exactly that path |
| Audit.AuditName | forensic/src/lib.rs:441-464 | the findings in a name, in order: traversal, absolute, and the two Unicode checks |
| Audit.SafeIsUnflagged | forensic/src/lib.rs:538-550 | a name has a safe path exactly when it is flagged neither as traversal nor as absolute, holds no NUL and has a component |
| Audit.AuditEntry | forensic/src/lib.rs:437-486 | the findings inside one entry, in order |
| Audit.AgreeingCopies | forensic/src/lib.rs:466-486 | an entry has no finding but those of its name exactly when its two header copies agree where the local one counts |
| Audit.EntryReports | forensic/src/lib.rs:437-511 | a finding is reported inside an entry exactly when it holds of the entry: each fault of its name, each field in which the copies differ where the local one counts |
| Audit.ContainerReports | forensic/src/lib.rs:368-384 | trailing data and spanning are reported exactly when bytes stand behind the end record, or a disk number is neither 0 nor left to Zip64 |
| Audit.LayoutReports | forensic/src/lib.rs:391-435 | the audit of a layout in full: each finding is reported exactly when it holds |
| Audit.AuditLayout | forensic/src/lib.rs:393-408 | prepended data by the smallest local offset, then the findings inside the entries, then the overlaps |
| Audit.MinLfh | forensic/src/lib.rs:397-401 | the smallest local-header offset, attained |
| AuditEdits.PrintedIsClean | forensic/src/lib.rs:368-486 | an archive laid out by the format has no finding but faults of its names and a spanning marker |
| AuditEdits.ViewBehind | core/src/archive.rs:256-278 | prepended bytes move every offset of the structural view |
| AuditEdits.PrependingIsReported | forensic/src/lib.rs:393-408 | N detected bytes before an archive are reported as N more prepended bytes, every overlap moves by N even where ends saturate, and the findings inside the entries stay |
| AuditEdits.AppendingIsReported | forensic/src/lib.rs:368-384 | T bytes behind an archive are reported as T more trailing bytes, and no other finding changes |
| Mounted.ResolvesToItself | core/src/vfs.rs:276-374 | the path of an entry that is first under its path leads to a file node backed by that entry |
| Mounted.MemberDecodes | core/src/vfs.rs:164-174 | an unprotected member of a printed archive decodes to its data |
| Mounted.PathToBytes | core/src/vfs.rs:122-137 | in the mount of a printed archive a member's path resolves to a node whose every read is a slice of the member's data |
| Counterexamples.LongCommentRefused | core/src/archive.rs:695-702 | a well-formed Zip64 archive with a comment of 65516 bytes is refused |
| Counterexamples.PrefixUnnoticed | core/src/archive.rs:573-581 | every archive has a prefix that goes unnoticed |
| Counterexamples.SignatureCompleted | core/src/archive.rs:614-630 | an archive of 68 bytes that opens, and six appended bytes that keep its end record where it was and make it report a signature |
| Counterexamples.StoredPastEnd | core/src/lib.rs:287-293 | an archive of one stored byte declared as two: a read returns the first byte of the central directory |
| Counterexamples.PlaceWraps | core/src/lib.rs:238-246 | an archive of one stored byte declared as 2^64 - 1: a read of ten bytes at offset 2^64 - 21 returns the file's bytes 10 to 20 |
| Counterexamples.FallbackPanics | core/src/lib.rs:261-265 | an archive of any data that its codec, of a method only decoded whole, unpacks to one byte, declared as ten: a read at offset 2 panics |
| Counterexamples.PairUnreported | forensic/src/lib.rs:423-433 | a layout in which two members share a byte and are not reported as a pair |
| Counterexamples.FileAboveFile | core/src/vfs.rs:332-358 | an entry below a file is in the tree and cannot be reached |

## Left out

- The codec crates and the insides of AES, SHA-1, HMAC, PBKDF2 and the Deflate64 inflater: foreign code, present only through the laws stated for it.
- Output caps and method dispatch of core/src/codec.rs, core/src/cp437.rs, severities, codes and notes of findings: tables and one-branch facts.
- Name decoding: names are byte sequences, so the model does not capture UTF-8 replacement and CP437.
- Timestamps and Unicode overrides in extra records: they are skipped as unrelated records.
- Files of 2^63 bytes and more: cursor offsets are taken to be representable.
- I/O failures other than reading past the end, `pread` variants, lock poisoning, the command line and the rest of the file-system trait.
- The checksum findings of `audit_reader`.
- Audit.AuditEntry: the checks of a name for bidirectional overrides and control characters are a parameter, because they are about Unicode characters.
- Container.ShiftEntries: the sum with the prefix wraps at 64 bits as in a release build; a debug build panics there.
- StoredBlocks.ReadAt: sums wrap as in a release build; a debug build panics there.
- StoredBlocks.IndexDecides: for data inside the file; where a header is missing because the file ends, the walk fails with an I/O error.
- Extract.StrongOpens: which data behind the header reads without an error is in `StrongRoundTrip.CutShort` and `StrongRoundTrip.EntryRoundTrip`.
- Layouts.ReadAt: memory never runs out for a buffer of at most 2^63 - 1 bytes; a read that inflates data past the end of the file may fail where another would not.
- StoredBlocks.IndexStoredBlocks: the data starts at least five bytes below 2^64, as behind every local header that can be read.
- Layouts.OpenEntry: starts from the fields of the entry found by name, its data at least five bytes below 2^64, as behind every local header that can be read.
- Layouts.ReadsAreSlices: for compressed ranges inside the file; what is due of others is in the contracts of the reads.
- Deflate64Seek.BuildIndex: for a compressed range that runs past the end of the file it is not determined whether the index is built, since that depends on how far the inflater reads; the end of the data is an unbounded sum, whose difference to a file position is what the wrapped one gives.
- Extract.OpenDecrypt: a codec is a function of all that the reader beneath it would deliver, so how far it reads ahead is not captured, only what comes of it.
- Audit.AuditOverlaps: the library sort is a function here (`Audit.Order`), so sorting in place is not captured.
- Tree.BuildTree: timestamps of nodes are not captured.
- ContentCache.EveryInterleaving: a call is two atomic moves, since the lock is held for all of the decoding half.
