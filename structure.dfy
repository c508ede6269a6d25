/**
 * The record types of an EXP archive (src/exp_file/structure/exp.py), with
 * the field widths their declarations document as range predicates.
 */
module Structure {
  import opened Bytes

  /** The archive signature, the five ASCII bytes `C S P U D`. */
  const SIGNATURE: seq<byte> := [0x43, 0x53, 0x50, 0x55, 0x44]

  /** The 9-byte archive header: signature and entry count. */
  datatype Header = Header(signature: seq<byte>, files: nat)
  {
    /** `signature` is the literal `CSPUD` and `files` fits a u32. */
    predicate Valid() { signature == SIGNATURE && IsU32(files) }
  }

  /** One 6-byte entry-table row: a file id and the absolute offset of its payload record. */
  datatype Entry = Entry(fileId: nat, offset: nat)
  {
    /** `fileId` fits a u16 and `offset` a u32. */
    predicate Valid() { IsU16(fileId) && IsU32(offset) }
  }

  /**
   * A payload record: three u32 fields followed by the payload bytes. The
   * declaration documents `data` as `compressedSize` bytes long; the reader
   * builds a record with fewer bytes when the archive ends early, so that
   * length is a separate predicate, `Complete`.
   */
  datatype Data = Data(compressedSize: nat, rawSize: nat, isCompressed: nat, data: seq<byte>)
  {
    /** Each integer field fits a u32. */
    predicate Valid() { IsU32(compressedSize) && IsU32(rawSize) && IsU32(isCompressed) }

    /** `data` holds the documented `compressedSize` bytes. */
    predicate Complete() { |data| == compressedSize }
  }
}
