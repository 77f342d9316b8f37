/**
 What the documents of the formats fix and every producer writes: the PKWARE APPNOTE and the AE-x
 specification of WinZip. The program has its own copy of these numbers in other modules.
 */
module Format {
  import opened Bytes

  // Signatures (sections 4.3.7, 4.3.12, 4.3.16, 4.3.14, 4.3.15 and 4.3.13 of the APPNOTE).
  const LOCAL_HEADER: uint32 := 0x0403_4b50
  const CENTRAL_HEADER: uint32 := 0x0201_4b50
  const END_RECORD: uint32 := 0x0605_4b50
  const ZIP64_END_RECORD: uint32 := 0x0606_4b50
  const ZIP64_END_LOCATOR: uint32 := 0x0706_4b50
  const DIRECTORY_SIGNATURE: uint32 := 0x0505_4b50

  // Extra records (section 4.5.2, and the AE-x specification).
  const ZIP64_EXTRA: uint16 := 0x0001
  const AES_EXTRA: uint16 := 0x9901

  // Fields that refer to a Zip64 record (section 4.4.1.4).
  const FULL_32: uint32 := 0xFFFF_FFFF
  const FULL_16: uint16 := 0xFFFF

  // General-purpose flags (section 4.4.4).

  /** Bit 0. */
  predicate IsEncrypted(flags: uint16) {
    flags % 2 == 1
  }

  /** Bit 3: checksum and sizes follow the data. */
  predicate DescriptorFollows(flags: uint16) {
    flags / 8 % 2 == 1
  }

  /** Bit 6. */
  predicate IsStrong(flags: uint16) {
    flags / 64 % 2 == 1
  }

  /** Bit 13: fields of the local header are masked. */
  predicate IsMasked(flags: uint16) {
    flags / 8192 % 2 == 1
  }
}
