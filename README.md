# EXP archive reader, modelled in Dafny

This project models the reader of the "EXP" asset archive (`src/exp_file/decode.py`),
its byte-copy helpers (`src/exp_file/decode/shared.py`) and its record types
(`src/exp_file/structure/exp.py`), and proves what they promise.

An EXP archive is big-endian and fixed-layout:

- a 9-byte header: the signature `CSPUD` and a u32 entry count;
- the entry table right after it: one 6-byte row per entry, a u16 file id and a u32 absolute offset;
- at each entry's offset, a 12-byte payload record (u32 compressed size, u32 raw size, u32 is-compressed flag),
  then `compressed size` payload bytes.

The reader decodes the header and the table through one file cursor, then, entry by entry in
table order, seeks to the record, reads it, and writes the payload to `file<id><ext>` in an
output directory named after the archive. Only stored payloads (flag 0, both sizes equal) are
supported; any other payload raises `NotImplementedError`, which the entry loop logs before
going on with the next entry. A record that cannot be read aborts the whole run.

Layout:

- `wrappers.dfy` (`Wrappers`): `Option` and `Result`; `Err` stands for a raised exception.
- `bytes.dfy` (`Bytes`): bytes, big-endian unsigned integers (`struct` codes `>H`, `>I`) with their
  reference encoder, and decimal numerals (`f"{n}"`) with their reference decoder.
- `structure.dfy` (`Structure`): `Header`, `Entry`, `Data` with range predicates for the documented widths.
- `io.dfy` (`Io`): the Python file objects as classes: `Reader` (a seekable `'rb'` file: fixed contents,
  a position), `Writer` (a byte sink), `OutputDir` (the files of the output directory, by name).
- `shared.dfy` (`Shared`): `_write`, `_calc_filesize` and `write` as methods over `Reader`/`Writer`.
- `decode.dfy` (`Decode`): each reader as a method on the shared `Reader`, proved equal to a function
  of the archive's bytes; the payload decision, the properties-byte split, output naming, and the entry
  loop, proved equal to the function `Extraction`.

The readers' functions are paired with reference encoders (`EncodeHeader`, `EncodeEntry`,
`EncodeRecord`) and proved to be their inverses in both directions. For records, re-encoding
gives back the bytes only when the payload is complete, but the three fields are always the
big-endian u32s at the record's offset.

## Model

| member | source | states |
|---|---|---|
| Bytes.BeUint | src/exp_file/decode.py:34 | a big-endian field of n bytes decodes to a number below 256^n (its recursive calls' bounds carry the proof) |
| Bytes.BeUintOfBeBytes | src/exp_file/decode.py:54 | decoding the n-byte big-endian encoding of x gives back x |
| Bytes.BeBytesOfBeUint | src/exp_file/decode.py:87 | re-encoding a decoded field gives back exactly its bytes, so the decoding is a bijection |
| Bytes.U16Width | src/exp_file/structure/exp.py:8 | a 2-byte field decodes to a u16, high byte first |
| Bytes.U32Width | src/exp_file/structure/exp.py:5 | a 4-byte field decodes to a u32, most significant byte first |
| Bytes.Decimal | src/exp_file/decode.py:172 | the id in a file name is a non-empty run of digits with no zero padding (a leading 0 only for the id 0) |
| Bytes.DecimalRoundTrip | src/exp_file/decode.py:172 | reading the decimal numeral of n back gives n |
| Bytes.DecimalInjective | src/exp_file/decode.py:172 | different ids have different numerals |
| Bytes.LeadingDigitsOfNumeral | src/exp_file/decode.py:172 | in a numeral followed by a non-digit, the leading digits are exactly the numeral |
| Io.Window | src/exp_file/decode.py:92 | `read(n)` returns the next n bytes, fewer only when the file ends, none past the end |
| Io.Reader.constructor | src/exp_file/decode.py:179 | an archive opened `'rb'` is positioned at 0 |
| Io.Reader.Read | src/exp_file/decode.py:34 | a read returns the window at the position (a size of -1 reads to the end of the file), moves the position past exactly the bytes returned, and is recorded with its position and size in the reader's log |
| Io.Reader.Seek | src/exp_file/decode.py:84 | an absolute seek sets the position, independently of where it was |
| Io.Reader.SeekEnd | src/exp_file/decode/shared.py:28 | seeking to the end returns the file's total length |
| Io.Reader.Tell | src/exp_file/decode/shared.py:18 | `tell()` reports the position and changes nothing |
| Io.Writer.constructor | src/exp_file/decode.py:118 | a fresh `BytesIO` holds no bytes |
| Io.Writer.Write | src/exp_file/decode/shared.py:23 | a write appends its bytes after everything written before |
| Io.OutputDir.constructor | src/exp_file/decode.py:188 | the output directory starts with the files it already holds |
| Io.OutputDir.Emit | src/exp_file/decode.py:173-174 | opening `'wb'` and writing replaces (or creates) exactly that one file with the content; a failed open changes nothing |
| Shared.CopyChunks | src/exp_file/decode/shared.py:11-23 | `_write` appends exactly `infile[start, start+filesize)` to `outfile` and leaves the position at `start+filesize`; the reads it adds to the reader's log start at `start`, each begins where the previous one ended and asks for no more than it, and with a positive `chunk_size` each asks for 1 to `chunk_size` bytes and the last ends at `start+filesize`; with `chunk_size == -1` it makes one read to the end of the file; with `filesize` 0 it reads nothing, whatever the chunk size and position |
| Shared.CalcFilesize | src/exp_file/decode/shared.py:25-30 | returns the whole file's length, not what remains, restores the position and reads nothing |
| Shared.Write | src/exp_file/decode/shared.py:50-58 | returns the size it used (the whole length when none is given) and copies that many bytes from the position on, in reads of 1 to `chunk_size` bytes for a positive chunk size and one read to the end of the file for a chunk size of -1 |
| Decode.ParseHeader | src/exp_file/decode.py:32-42 | a header is accepted exactly when 9 bytes were read and bytes 0..5 are `CSPUD`; a short read is a struct error, a wrong signature an invalid-signature error; accepted headers are valid |
| Decode.HeaderRoundTrip | src/exp_file/decode.py:32-42 | every valid header is read back from its 9-byte encoding |
| Decode.HeaderDecodedExactly | src/exp_file/decode.py:32-36 | an accepted header is the signature at bytes 0..5 and the big-endian count at bytes 5..9, nothing else |
| Decode.DecodeHeader | src/exp_file/decode.py:18-46 | `_decode_header` decodes the 9 bytes at the cursor and, on success, advances it by exactly 9 |
| Decode.ParseEntry | src/exp_file/decode.py:52-58 | a row is accepted exactly when 6 bytes were read, and gives a u16 id and a u32 offset |
| Decode.EntryRoundTrip | src/exp_file/decode.py:52-58 | every valid entry is read back from its 6-byte encoding |
| Decode.EntryDecodedExactly | src/exp_file/decode.py:52-54 | an entry is the BE u16 at +0 and the BE u32 at +2 of its 6 bytes |
| Decode.DecodeEntry | src/exp_file/decode.py:48-64 | `_decode_entry` decodes the 6 bytes at the cursor and advances past what it read |
| Decode.EntryTable | src/exp_file/decode.py:71-77 | the table of `count` rows is read exactly when the file holds `6*count` bytes from the start, and then holds `count` entries |
| Decode.EntryTableRow | src/exp_file/decode.py:72-76 | entry i is decoded from bytes [start+6i, start+6i+6), in file order |
| Decode.EntryTableRoundTrip | src/exp_file/decode.py:71-77 | valid entries laid out row after row are read back in order |
| Decode.EntryTableErrorPersists | src/exp_file/decode.py:72-75 | once a row is short the table read fails with that same error, however many rows follow |
| Decode.GetEntries | src/exp_file/decode.py:66-77 | `_get_entries` returns the table's `header.files` entries and advances the cursor by `6*files` |
| Decode.EntryMetadata | src/exp_file/decode.py:84-93 | a record is read exactly when 12 bytes exist at `entry.offset`; its fields are u32s and its data is the next `compressed_size` bytes or as many as the file still has, complete exactly when the file is long enough |
| Decode.RecordDecodedExactly | src/exp_file/decode.py:84-92 | a record that was read holds the big-endian u32s at `offset`, `offset+4` and `offset+8`, whether or not its payload is complete, and a complete record re-encodes to exactly the bytes it was read from |
| Decode.RecordRoundTrip | src/exp_file/decode.py:84-93 | a complete record stored at any offset is read back by an entry pointing there, whatever the entry's place in the table |
| Decode.GetEntryMetadata | src/exp_file/decode.py:79-106 | `_get_entry_metadata` returns the record at `entry.offset`, independent of the previous cursor position, and leaves the cursor after the data it read |
| Decode.Payload | src/exp_file/decode.py:120-121 | the payload passes through unchanged exactly when the flag is 0 and both sizes agree; otherwise NotImplementedError |
| Decode.StoredPassThrough | src/exp_file/decode.py:161-162 | a stored record holding bytes b, at any offset, yields exactly b |
| Decode.SplitProps | src/exp_file/decode.py:124-128 | the split gives lc < 9, lp < 5, pb < 6 with (pb*5+lp)*9+lc equal to the byte |
| Decode.SplitPropsUnique | src/exp_file/decode.py:124-128 | any lc < 9, lp < 5, pb that encode to the byte are the split's |
| Decode.Extension | src/exp_file/decode.py:166-171 | `image/png` gives `.png`, `image/jpeg` or `image/jpg` gives `.jpg`, every other type `.dat` |
| Decode.FileNameInjective | src/exp_file/decode.py:172 | `file<id><ext>` determines both the id and the extension |
| Decode.OutputNamesDistinct | src/exp_file/decode.py:172 | entries with different file ids never write to the same file |
| Decode.OutDirName | src/exp_file/decode.py:178 | a trailing `.exp` is removed from the archive's name, and only a trailing one |
| Decode.OutDirNameOfArchive | src/exp_file/decode.py:178 | `stem.exp` is extracted into `stem` |
| Decode.EntryWrite | src/exp_file/decode.py:120-174 | an entry's file is written exactly when its payload is stored and its name can be opened, under the name from its id and content type |
| Decode.WriteFileContents | src/exp_file/decode.py:109-174 | `_write_file_contents` seeks to the entry's offset and either writes the stored payload unchanged to its named file or raises, changing no file |
| Decode.ProcessEntries | src/exp_file/decode.py:192-206 | the entry loop aborts exactly when some entry's record cannot be read, and skips at most one id per entry |
| Decode.Extraction | src/exp_file/decode.py:177-186 | a header error, or an entry-table error after a good header, ends the run before any entry, with that error, nothing skipped and the directory unchanged |
| Decode.UntouchedName | src/exp_file/decode.py:197-206 | a file that no entry the loop reaches successfully writes (entries of that name whose write fails, or that follow an aborting record read, included) keeps its presence and contents |
| Decode.StoredEntryWritten | src/exp_file/decode.py:197-206 | when the records up to entry i can be read, a stored, writable entry i ends with its exact payload on disk, whatever failed around it, including a later record read that aborts the run, unless a later entry that the loop reaches successfully writes the same name |
| Decode.MetadataFailureAborts | src/exp_file/decode.py:192-206 | a record read failure ends the run with that error; the directory is what the entries before it wrote and the skipped ids are exactly those of the entries before it whose write failed |
| Decode.FailedIdsMembers | src/exp_file/decode.py:197-206 | an id is among the failed ids exactly when some entry with that id has a readable record and a write that raises |
| Decode.SkippedAreFailedWrites | src/exp_file/decode.py:192-206 | when every record can be read the run does not abort and the ids it skips are, in table order, exactly those whose write raises |
| Decode.RecordReencodes | src/exp_file/decode.py:84-92 | a record whose three fields are the big-endian u32s at `o` and whose payload is the bytes after them re-encodes to exactly those bytes |
| Decode.RecordFields | src/exp_file/decode.py:84-88 | the three fields of a record that was read are the big-endian u32s at `offset`, `offset+4` and `offset+8`, all within the file |
| Shared.CopyStep | src/exp_file/decode/shared.py:19-23 | one turn of the copy loop keeps the bytes copied equal to the file's bytes from the start and the reads logged contiguous and within the chunk size |
| Decode.DecodeExpFile | src/exp_file/decode.py:177-206 | `decode_exp_file` produces exactly the directory, skipped ids and aborting error that `Extraction` defines, in an output directory named by `OutDirName` |

## Left out

- LZMA decompression (src/exp_file/decode.py:122-123, 130-160): it calls the `lzma` library and is unreachable after the unconditional raise at line 121; only the properties-byte arithmetic (`SplitProps`) is kept.
- `magic.from_buffer` (decode.py:164) is a call into libmagic: it is the parameter `mime`, a function from bytes to a content type; only the mapping from content type to extension is proved.
- Filesystem and process plumbing: `os.makedirs` (decode.py:188-191) and its fatal failure are not modelled, and the output directory is given as an `OutputDir`; whether opening a file for writing succeeds is the parameter `writable`.
- Io.OutputDir.Emit: a write that fails after `open` has truncated the file is not modelled; a failed write leaves the directory unchanged.
- `print` and `logging` calls are left out; the ids whose failure the loop logs are returned as `skipped`.
- The `Path` branches of `write` (shared.py:42-48, 59-62) open and close files by path; only the path where both ends are open file objects is modelled.
- `_calc_filesize` on a writer (shared.py:25) is left out; only readers are sized.
- Shared.CopyChunks: when `filesize > 0`, requires at least `filesize` bytes left and either `chunk_size > 0`, or `chunk_size == -1` with exactly `filesize` bytes left. The calls excluded either raise or never return in Python, and neither is modelled: a `chunk_size` below -1 makes the first `read` raise `ValueError`; with `chunk_size == 0` nothing is read and the loop never exits; with `chunk_size == -1` and more than `filesize` bytes left the one read passes the target, after which the next request is negative: -1 (exactly `filesize + 1` bytes were left) reads nothing forever, anything below -1 raises `ValueError`; with fewer than `filesize` bytes left the position stops short and the loop never exits. With `filesize == 0` every call is modelled: the loop exits at once.
- Io.Reader.Read: a size below -1, for which `BufferedReader.read` raises `ValueError`, is excluded by its precondition; no modelled caller passes one.
- Shared.Write: `filesize` is a natural number or None; a negative `filesize` is not modelled. The chunk size is admitted as for `Shared.CopyChunks`. With None, `write` copies the whole file's length from the current position, so from any position past 0 in a non-empty file it never returns (shared.py:50-51 and 19-22); the precondition excludes that call.
- Shared.Write: the default `chunk_size` of 1024 is not modelled as a default; every caller passes a chunk size.
- Exception messages and types beyond the four kinds in `Decode.Error` are not modelled.
- The unused `aiofiles` import and `src/exp_file/structure/__init__.py`, which only re-exports names, have no logic to model.

## What the reader does not do

- A payload record whose data runs past the end of the file is not an error: `buffer.read` returns the bytes that exist, and the record is built with them (`Data.Complete` is false then). `Data.data`'s documented length, `compressed_size`, holds only for complete records.
- Either of the flag and the size mismatch marks a payload as compressed, and compressed payloads are refused with `NotImplementedError`; no LZMA-alone header is synthesised and no redundant size bytes are skipped.
- The extension comes from libmagic's content type (`.png`, `.jpg`, `.dat`), not from fixed byte prefixes; there is no `.kiw` case.
- File names are `file<id><ext>` with the id in plain decimal, not zero-padded to four digits.
- The signature is checked after `struct.unpack`, so a header shorter than 9 bytes is a struct error rather than an invalid signature.
