/**
 * The EXP archive reader of src/exp_file/decode.py: the header, entry-table
 * and payload-record readers that advance one shared file cursor, the
 * stored/unsupported decision and output naming of `_write_file_contents`,
 * the LZMA properties-byte split, and the per-entry loop of
 * `decode_exp_file`. Each reader is a method on an `Io.Reader`, proved
 * against a function of the archive's bytes.
 */
module Decode {
  import opened Bytes
  import opened Wrappers
  import opened Structure
  import opened Io

  /** `struct.calcsize('>5cI')`, `('>HI')` and `('>III')`. */
  const HEADER_SIZE: nat := 9
  const ENTRY_SIZE: nat := 6
  const RECORD_SIZE: nat := 12

  /** The exceptions the reader raises. */
  datatype Error =
    | StructError(wanted: nat, got: nat)      // struct.unpack given a short read
    | InvalidSignature(signature: seq<byte>)  // RuntimeError from the header check
    | NotImplemented                          // NotImplementedError: compressed payload
    | WriteFailed(name: string)               // OSError opening or writing the output file

  // ---------------------------------------------------------------------
  // Header: 5 signature bytes, then a big-endian u32 entry count

  /** `struct.unpack('>5cI', ...)` of the bytes read, then the signature check. */
  function ParseHeader(s: seq<byte>): (r: Result<Header, Error>)
    ensures r.Ok? <==> |s| == HEADER_SIZE && s[..5] == SIGNATURE
    ensures r.Ok? ==> r.value.Valid()
    ensures |s| != HEADER_SIZE ==> r == Err(StructError(HEADER_SIZE, |s|))
    ensures |s| == HEADER_SIZE && s[..5] != SIGNATURE ==> r == Err(InvalidSignature(s[..5]))
  {
    if |s| != HEADER_SIZE then Err(StructError(HEADER_SIZE, |s|))
    else
      var signature := s[..5];
      if signature != SIGNATURE then Err(InvalidSignature(signature))
      else
        U32Width(s[5..9]);
        Ok(Header(signature, BeUint(s[5..9])))
  }

  /** The 9 bytes a header is stored as; the reference encoder for `ParseHeader`. */
  function EncodeHeader(h: Header): (s: seq<byte>)
    requires h.Valid()
    ensures |s| == HEADER_SIZE
  {
    assert Pow256(4) == U32_LIMIT;
    h.signature + BeBytes(h.files, 4)
  }

  /** Every valid header is read back from its encoding. */
  lemma HeaderRoundTrip(h: Header)
    requires h.Valid()
    ensures ParseHeader(EncodeHeader(h)) == Ok(h)
  {
    var s := EncodeHeader(h);
    assert Pow256(4) == U32_LIMIT;
    assert s[..5] == h.signature && s[5..9] == BeBytes(h.files, 4);
    BeUintOfBeBytes(h.files, 4);
  }

  /** A header is read from exactly its 9 bytes: the signature is bytes 0..5, the count bytes 5..9. */
  lemma HeaderDecodedExactly(s: seq<byte>)
    requires ParseHeader(s).Ok?
    ensures EncodeHeader(ParseHeader(s).value) == s
  {
    BeBytesOfBeUint(s[5..9]);
    assert s == s[..5] + s[5..9];
  }

  /** `_decode_header`: reads 9 bytes at the cursor and decodes them. */
  method DecodeHeader(buffer: Reader) returns (r: Result<Header, Error>)
    modifies buffer
    ensures r == ParseHeader(Window(buffer.data, old(buffer.pos), HEADER_SIZE))
    ensures buffer.pos == old(buffer.pos) + |Window(buffer.data, old(buffer.pos), HEADER_SIZE)|
    ensures r.Ok? ==> buffer.pos == old(buffer.pos) + HEADER_SIZE
  {
    var read := buffer.Read(HEADER_SIZE);
    r := ParseHeader(read);
  }

  // ---------------------------------------------------------------------
  // Entry table: `files` rows of a big-endian u16 id and u32 offset

  /** `struct.unpack('>HI', ...)` of the bytes read. */
  function ParseEntry(s: seq<byte>): (r: Result<Entry, Error>)
    ensures r.Ok? <==> |s| == ENTRY_SIZE
    ensures r.Ok? ==> r.value.Valid()
  {
    if |s| != ENTRY_SIZE then Err(StructError(ENTRY_SIZE, |s|))
    else
      U16Width(s[..2]);
      U32Width(s[2..6]);
      Ok(Entry(BeUint(s[..2]), BeUint(s[2..6])))
  }

  /** The 6 bytes an entry is stored as; the reference encoder for `ParseEntry`. */
  function EncodeEntry(e: Entry): (s: seq<byte>)
    requires e.Valid()
    ensures |s| == ENTRY_SIZE
  {
    assert Pow256(2) == U16_LIMIT && Pow256(4) == U32_LIMIT;
    BeBytes(e.fileId, 2) + BeBytes(e.offset, 4)
  }

  /** Every valid entry is read back from its encoding. */
  lemma EntryRoundTrip(e: Entry)
    requires e.Valid()
    ensures ParseEntry(EncodeEntry(e)) == Ok(e)
  {
    var s := EncodeEntry(e);
    assert Pow256(2) == U16_LIMIT && Pow256(4) == U32_LIMIT;
    assert s[..2] == BeBytes(e.fileId, 2) && s[2..6] == BeBytes(e.offset, 4);
    BeUintOfBeBytes(e.fileId, 2);
    BeUintOfBeBytes(e.offset, 4);
  }

  /** An entry is read from exactly its 6 bytes: the id is bytes 0..2, the offset bytes 2..6. */
  lemma EntryDecodedExactly(s: seq<byte>)
    requires ParseEntry(s).Ok?
    ensures EncodeEntry(ParseEntry(s).value) == s
  {
    BeBytesOfBeUint(s[..2]);
    BeBytesOfBeUint(s[2..6]);
    assert s == s[..2] + s[2..6];
  }

  /** `_decode_entry`: reads 6 bytes at the cursor and decodes them. */
  method DecodeEntry(buffer: Reader) returns (r: Result<Entry, Error>)
    modifies buffer
    ensures r == ParseEntry(Window(buffer.data, old(buffer.pos), ENTRY_SIZE))
    ensures buffer.pos == old(buffer.pos) + |Window(buffer.data, old(buffer.pos), ENTRY_SIZE)|
  {
    var read := buffer.Read(ENTRY_SIZE);
    r := ParseEntry(read);
  }

  /**
   * The first `count` rows of an entry table starting at byte `start`, read
   * in file order; the first short row is the error.
   */
  function EntryTable(data: seq<byte>, start: nat, count: nat): (r: Result<seq<Entry>, Error>)
    ensures r.Ok? <==> count == 0 || start + ENTRY_SIZE * count <= |data|
    ensures r.Ok? ==> |r.value| == count
    decreases count
  {
    if count == 0 then Ok([])
    else
      match EntryTable(data, start, count - 1)
      case Err(e) => Err(e)
      case Ok(es) =>
        match ParseEntry(Window(data, start + ENTRY_SIZE * (count - 1), ENTRY_SIZE))
        case Err(e) => Err(e)
        case Ok(e) => Ok(es + [e])
  }

  /** Row `i` of a table that was read in full is the entry encoded at bytes [start+6i, start+6i+6). */
  lemma {:induction false} EntryTableRow(data: seq<byte>, start: nat, count: nat, i: nat)
    requires EntryTable(data, start, count).Ok? && i < count
    ensures start + ENTRY_SIZE * i + ENTRY_SIZE <= |data|
    ensures Ok(EntryTable(data, start, count).value[i])
            == ParseEntry(data[start + ENTRY_SIZE * i..start + ENTRY_SIZE * i + ENTRY_SIZE])
    decreases count
  {
    if i < count - 1 {
      EntryTableRow(data, start, count - 1, i);
    }
  }

  /** A table of valid entries laid out row after row from `start` is read back entry for entry. */
  lemma {:induction false} EntryTableRoundTrip(data: seq<byte>, start: nat, es: seq<Entry>)
    requires forall i :: 0 <= i < |es| ==> es[i].Valid()
    requires start + ENTRY_SIZE * |es| <= |data|
    requires forall i :: 0 <= i < |es| ==>
               data[start + ENTRY_SIZE * i..start + ENTRY_SIZE * i + ENTRY_SIZE] == EncodeEntry(es[i])
    ensures EntryTable(data, start, |es|) == Ok(es)
    decreases |es|
  {
    if |es| > 0 {
      var n := |es| - 1;
      EntryTableRoundTrip(data, start, es[..n]);
      EntryRoundTrip(es[n]);
      assert es[..n] + [es[n]] == es;
    }
  }

  /** Once a row is short, every longer table fails with that same error. */
  lemma {:induction false} EntryTableErrorPersists(data: seq<byte>, start: nat, n: nat, m: nat)
    requires n <= m && EntryTable(data, start, n).Err?
    ensures EntryTable(data, start, m) == EntryTable(data, start, n)
    decreases m
  {
    if n < m {
      EntryTableErrorPersists(data, start, n, m - 1);
    }
  }

  /** `_get_entries`: reads `header.files` rows in file order, one `_decode_entry` at a time. */
  method GetEntries(header: Header, buffer: Reader) returns (r: Result<seq<Entry>, Error>)
    modifies buffer
    ensures r == EntryTable(buffer.data, old(buffer.pos), header.files)
    ensures r.Ok? ==> buffer.pos == old(buffer.pos) + ENTRY_SIZE * header.files
  {
    var start := buffer.pos;
    var entries: seq<Entry> := [];
    for i := 0 to header.files
      invariant buffer.pos == start + ENTRY_SIZE * i
      invariant EntryTable(buffer.data, start, i) == Ok(entries)
    {
      var entry := DecodeEntry(buffer);
      if entry.Err? {
        EntryTableErrorPersists(buffer.data, start, i + 1, header.files);
        return Err(entry.error);
      }
      entries := entries + [entry.value];
    }
    r := Ok(entries);
  }

  // ---------------------------------------------------------------------
  // Payload record: at the entry's offset, three big-endian u32 fields and the payload bytes

  /**
   * What `_get_entry_metadata` reads for `entry`: the record at the absolute
   * offset `entry.offset`, whatever the cursor position was before. A short
   * payload is not an error: `data` is then only the bytes the file still has.
   */
  function EntryMetadata(data: seq<byte>, entry: Entry): (r: Result<Data, Error>)
    ensures r.Ok? <==> entry.offset + RECORD_SIZE <= |data|
    ensures r.Ok? ==> r.value.Valid()
    ensures r.Ok? ==> r.value.data == Window(data, entry.offset + RECORD_SIZE, r.value.compressedSize)
    ensures r.Ok? ==> (r.value.Complete() <==> entry.offset + RECORD_SIZE + r.value.compressedSize <= |data|)
  {
    var head := Window(data, entry.offset, RECORD_SIZE);
    if |head| != RECORD_SIZE then Err(StructError(RECORD_SIZE, |head|))
    else
      U32Width(head[..4]);
      U32Width(head[4..8]);
      U32Width(head[8..12]);
      var compressedSize := BeUint(head[..4]);
      Ok(Data(compressedSize, BeUint(head[4..8]), BeUint(head[8..12]),
              Window(data, entry.offset + RECORD_SIZE, compressedSize)))
  }

  /** The bytes a complete record is stored as; the reference encoder for `EntryMetadata`. */
  function EncodeRecord(d: Data): (s: seq<byte>)
    requires d.Valid()
    ensures |s| == RECORD_SIZE + |d.data|
  {
    assert Pow256(4) == U32_LIMIT;
    BeBytes(d.compressedSize, 4) + BeBytes(d.rawSize, 4) + BeBytes(d.isCompressed, 4) + d.data
  }

  /**
   * Wherever a complete record is stored, an entry pointing there reads it
   * back: entries are located by their own offsets, in any order.
   */
  lemma RecordRoundTrip(data: seq<byte>, entry: Entry, d: Data)
    requires d.Valid() && d.Complete()
    requires entry.offset + RECORD_SIZE + |d.data| <= |data|
    requires data[entry.offset..entry.offset + RECORD_SIZE + |d.data|] == EncodeRecord(d)
    ensures EntryMetadata(data, entry) == Ok(d)
  {
    var s := EncodeRecord(d);
    var o := entry.offset;
    var head := Window(data, o, RECORD_SIZE);
    assert Pow256(4) == U32_LIMIT;
    assert head == s[..RECORD_SIZE];
    assert head[..4] == BeBytes(d.compressedSize, 4);
    assert head[4..8] == BeBytes(d.rawSize, 4);
    assert head[8..12] == BeBytes(d.isCompressed, 4);
    BeUintOfBeBytes(d.compressedSize, 4);
    BeUintOfBeBytes(d.rawSize, 4);
    BeUintOfBeBytes(d.isCompressed, 4);
    assert Window(data, o + RECORD_SIZE, d.compressedSize) == s[RECORD_SIZE..] == d.data;
  }

  /** The three fields of a record that was read are the big-endian u32s at `offset`, `offset+4` and `offset+8`. */
  lemma RecordFields(data: seq<byte>, entry: Entry)
    requires EntryMetadata(data, entry).Ok?
    ensures var d, o := EntryMetadata(data, entry).value, entry.offset;
            && o + RECORD_SIZE <= |data|
            && d.compressedSize == BeUint(data[o..o + 4])
            && d.rawSize == BeUint(data[o + 4..o + 8])
            && d.isCompressed == BeUint(data[o + 8..o + 12])
  {
    var o := entry.offset;
    var head := Window(data, o, RECORD_SIZE);
    assert head == data[o..o + RECORD_SIZE];
    assert head[..4] == data[o..o + 4];
    assert head[4..8] == data[o + 4..o + 8] by {
      assert forall k :: 0 <= k < 4 ==> head[4..8][k] == head[4 + k] == data[o + 4 + k];
    }
    assert head[8..12] == data[o + 8..o + 12] by {
      assert forall k :: 0 <= k < 4 ==> head[8..12][k] == head[8 + k] == data[o + 8 + k];
    }
  }

  /**
   * A record that was read is exactly the three big-endian u32s at
   * `offset`, `offset+4` and `offset+8`, and, when complete, re-encodes to
   * the bytes it was read from.
   */
  lemma RecordDecodedExactly(data: seq<byte>, entry: Entry)
    requires EntryMetadata(data, entry).Ok?
    ensures var d, o := EntryMetadata(data, entry).value, entry.offset;
            && d.compressedSize == BeUint(data[o..o + 4])
            && d.rawSize == BeUint(data[o + 4..o + 8])
            && d.isCompressed == BeUint(data[o + 8..o + 12])
            && (d.Complete() ==> EncodeRecord(d) == data[o..o + RECORD_SIZE + |d.data|])
  {
    var d, o := EntryMetadata(data, entry).value, entry.offset;
    RecordFields(data, entry);
    if d.Complete() {
      assert d.data == data[o + RECORD_SIZE..o + RECORD_SIZE + |d.data|];
      RecordReencodes(data, o, d);
    }
  }

  /** A record whose fields and payload are the bytes at `o` re-encodes to exactly those bytes. */
  lemma RecordReencodes(data: seq<byte>, o: nat, d: Data)
    requires d.Valid() && o + RECORD_SIZE + |d.data| <= |data|
    requires d.compressedSize == BeUint(data[o..o + 4])
    requires d.rawSize == BeUint(data[o + 4..o + 8])
    requires d.isCompressed == BeUint(data[o + 8..o + 12])
    requires d.data == data[o + RECORD_SIZE..o + RECORD_SIZE + |d.data|]
    ensures EncodeRecord(d) == data[o..o + RECORD_SIZE + |d.data|]
  {
    var a, b, c := data[o..o + 4], data[o + 4..o + 8], data[o + 8..o + 12];
    BeBytesOfBeUint(a);
    BeBytesOfBeUint(b);
    BeBytesOfBeUint(c);
    assert EncodeRecord(d) == a + b + c + d.data;
    RecordSlices(data, o, |d.data|);
  }

  /** The bytes of a record are its three 4-byte fields followed by its payload. */
  lemma RecordSlices(data: seq<byte>, o: nat, n: nat)
    requires o + RECORD_SIZE + n <= |data|
    ensures data[o..o + RECORD_SIZE + n]
            == data[o..o + 4] + data[o + 4..o + 8] + data[o + 8..o + 12] + data[o + RECORD_SIZE..o + RECORD_SIZE + n]
  {
    var whole := data[o..o + RECORD_SIZE + n];
    assert whole[..4] == data[o..o + 4];
    assert whole[4..8] == data[o + 4..o + 8] by {
      assert forall k :: 0 <= k < 4 ==> whole[4..8][k] == whole[4 + k] == data[o + 4 + k];
    }
    assert whole[8..12] == data[o + 8..o + 12] by {
      assert forall k :: 0 <= k < 4 ==> whole[8..12][k] == whole[8 + k] == data[o + 8 + k];
    }
    assert whole[12..] == data[o + RECORD_SIZE..o + RECORD_SIZE + n] by {
      assert forall k :: 0 <= k < n ==> whole[12..][k] == whole[12 + k] == data[o + 12 + k];
    }
    assert whole == whole[..4] + whole[4..8] + whole[8..12] + whole[12..];
  }

  /** `_get_entry_metadata`: seeks to `entry.offset`, reads the 12-byte record, then up to `compressedSize` bytes. */
  method GetEntryMetadata(entry: Entry, buffer: Reader) returns (r: Result<Data, Error>)
    modifies buffer
    ensures r == EntryMetadata(buffer.data, entry)
    ensures r.Ok? ==> buffer.pos == entry.offset + RECORD_SIZE + |r.value.data|
  {
    var _ := buffer.Seek(entry.offset);
    var head := buffer.Read(RECORD_SIZE);
    if |head| != RECORD_SIZE {
      return Err(StructError(RECORD_SIZE, |head|));
    }
    U32Width(head[..4]);
    U32Width(head[4..8]);
    U32Width(head[8..12]);
    var compressedSize := BeUint(head[..4]);
    var rawSize := BeUint(head[4..8]);
    var isCompressed := BeUint(head[8..12]);
    var payload := buffer.Read(compressedSize);
    r := Ok(Data(compressedSize, rawSize, isCompressed, payload));
  }

  // ---------------------------------------------------------------------
  // Payload handling: only the stored case is supported

  /** A payload is stored (not compressed) when its flag is 0 and both sizes agree. */
  predicate IsStored(d: Data) { d.isCompressed == 0 && d.compressedSize == d.rawSize }

  /** The bytes `_write_file_contents` writes for a record, or the NotImplementedError it raises. */
  function Payload(d: Data): (r: Result<seq<byte>, Error>)
    ensures r.Ok? <==> IsStored(d)
    ensures r.Ok? ==> r.value == d.data
    ensures r.Err? ==> r.error == NotImplemented
  {
    if d.isCompressed != 0 || d.compressedSize != d.rawSize then Err(NotImplemented) else Ok(d.data)
  }

  /**
   * Stored payloads pass through unchanged: a record with flag 0 and both
   * sizes equal to |b|, stored at any offset, yields exactly `b`.
   */
  lemma StoredPassThrough(data: seq<byte>, entry: Entry, b: seq<byte>)
    requires IsU32(|b|)
    requires entry.offset + RECORD_SIZE + |b| <= |data|
    requires data[entry.offset..entry.offset + RECORD_SIZE + |b|] == EncodeRecord(Data(|b|, |b|, 0, b))
    ensures EntryMetadata(data, entry).Ok?
    ensures Payload(EntryMetadata(data, entry).value) == Ok(b)
  {
    RecordRoundTrip(data, entry, Data(|b|, |b|, 0, b));
  }

  // ---------------------------------------------------------------------
  // LZMA properties byte (decode.py:124-128, after the unconditional raise)

  datatype LzmaProps = LzmaProps(lc: nat, lp: nat, pb: nat)

  /** The properties byte as the LZMA SDK encodes it: (pb * 5 + lp) * 9 + lc. */
  function PropsByte(q: LzmaProps): nat { (q.pb * 5 + q.lp) * 9 + q.lc }

  /** Splits a properties byte into literal-context bits, literal-position bits and position bits. */
  function SplitProps(p: byte): (r: LzmaProps)
    ensures r.lc < 9 && r.lp < 5 && r.pb < 6
    ensures PropsByte(r) == p
  {
    var remainder := p / 9;
    LzmaProps(p % 9, remainder % 5, remainder / 5)
  }

  /** The split is the only one: any lc < 9, lp < 5 that encode to `p` are what `SplitProps` returns. */
  lemma SplitPropsUnique(p: byte, q: LzmaProps)
    requires q.lc < 9 && q.lp < 5 && PropsByte(q) == p
    ensures SplitProps(p) == q
  {
  }

  // ---------------------------------------------------------------------
  // Output naming

  /** The extension chosen from the content type libmagic reports. */
  function Extension(mime: string): (ext: string)
    ensures ext == ".png" <==> mime == "image/png"
    ensures ext == ".jpg" <==> mime == "image/jpeg" || mime == "image/jpg"
    ensures ext == ".png" || ext == ".jpg" || ext == ".dat"
    ensures |ext| == 4 && ext[0] == '.'
  {
    if mime == "image/png" then ".png"
    else if mime == "image/jpeg" || mime == "image/jpg" then ".jpg"
    else ".dat"
  }

  /** `f"file{file_id}{ext}"`: the id in decimal, not zero-padded. */
  function FileName(fileId: nat, ext: string): string
  {
    "file" + Decimal(fileId) + ext
  }

  /**
   * Names do not collide unless ids and extensions are equal: for extensions
   * that do not start with a digit, the name determines both.
   */
  lemma FileNameInjective(a: nat, x: string, b: nat, y: string)
    requires |x| > 0 && !IsDigit(x[0]) && |y| > 0 && !IsDigit(y[0])
    requires FileName(a, x) == FileName(b, y)
    ensures a == b && x == y
  {
    var s, da, db := FileName(a, x), Decimal(a), Decimal(b);
    assert s == "file" + da + x == "file" + db + y;
    assert s[4..] == da + x && s[4..] == db + y;
    LeadingDigitsOfNumeral(da, x);
    LeadingDigitsOfNumeral(db, y);
    assert da == s[4..4 + |da|] == db;
    DecimalInjective(a, b);
    assert x == s[4 + |da|..] == y;
  }

  /** The name an entry's payload is written under; `mime` stands for `magic.from_buffer(..., mime=True)`. */
  function OutputName(entry: Entry, content: seq<byte>, mime: seq<byte> -> string): string
  {
    FileName(entry.fileId, Extension(mime(content)))
  }

  /** Distinct file ids always give distinct output names, whatever the content types. */
  lemma OutputNamesDistinct(e1: Entry, c1: seq<byte>, e2: Entry, c2: seq<byte>, mime: seq<byte> -> string)
    requires e1.fileId != e2.fileId
    ensures OutputName(e1, c1, mime) != OutputName(e2, c2, mime)
  {
    if OutputName(e1, c1, mime) == OutputName(e2, c2, mime) {
      FileNameInjective(e1.fileId, Extension(mime(c1)), e2.fileId, Extension(mime(c2)));
    }
  }

  /** `name.removesuffix(".exp")`: the output directory's name. */
  function OutDirName(name: string): (r: string)
    ensures |name| >= 4 && name[|name| - 4..] == ".exp" ==> r + ".exp" == name
    ensures !(|name| >= 4 && name[|name| - 4..] == ".exp") ==> r == name
  {
    if |name| >= 4 && name[|name| - 4..] == ".exp" then name[..|name| - 4] else name
  }

  /** An archive `stem.exp` is extracted into a directory named `stem`. */
  lemma OutDirNameOfArchive(stem: string)
    ensures OutDirName(stem + ".exp") == stem
  {
  }

  // ---------------------------------------------------------------------
  // Writing one entry

  /**
   * What `_write_file_contents` does with a record: the name of the file it
   * wrote, or the exception it raised (an unsupported payload, or a failed
   * open or write of the output file).
   */
  function EntryWrite(meta: Data, entry: Entry, mime: seq<byte> -> string, writable: string -> bool)
    : (r: Result<string, Error>)
    ensures r.Ok? <==> IsStored(meta) && writable(OutputName(entry, meta.data, mime))
    ensures r.Ok? ==> r.value == OutputName(entry, meta.data, mime)
  {
    match Payload(meta)
    case Err(e) => Err(e)
    case Ok(content) =>
      var name := OutputName(entry, content, mime);
      if writable(name) then Ok(name) else Err(WriteFailed(name))
  }

  /**
   * `_write_file_contents`: seeks the cursor back to `entry.offset`; raises
   * for a compressed payload; otherwise writes the payload unchanged to the
   * file named from the entry's id and the payload's content type.
   */
  method WriteFileContents(meta: Data, entry: Entry, buffer: Reader, mime: seq<byte> -> string, out: OutputDir)
      returns (r: Result<string, Error>)
    modifies buffer, out
    ensures buffer.pos == entry.offset
    ensures r == EntryWrite(meta, entry, mime, out.writable)
    ensures out.files == if r.Ok? then old(out.files)[r.value := meta.data] else old(out.files)
  {
    var _ := buffer.Seek(entry.offset);
    if meta.isCompressed != 0 || meta.compressedSize != meta.rawSize {
      return Err(NotImplemented);
    }
    var content := meta.data;
    var ext := Extension(mime(content));
    var name := FileName(entry.fileId, ext);
    var ok := out.Emit(name, content);
    if !ok {
      return Err(WriteFailed(name));
    }
    r := Ok(name);
  }

  // ---------------------------------------------------------------------
  // The driver

  /**
   * The outcome of extracting an archive: the output directory's files, the
   * ids of the entries whose write failed and was logged and skipped, and
   * the exception that aborted the run, if any.
   */
  datatype Run = Run(files: map<string, seq<byte>>, skipped: seq<nat>, abort: Option<Error>)

  /** The run `suffix` continued after the entries whose ids `skipped` lists were skipped. */
  function AfterSkips(skipped: seq<nat>, suffix: Run): Run
  {
    suffix.(skipped := skipped + suffix.skipped)
  }

  lemma AfterSkipsConcat(s1: seq<nat>, s2: seq<nat>, r: Run)
    ensures AfterSkips(s1, AfterSkips(s2, r)) == AfterSkips(s1 + s2, r)
  {
  }

  /** The directory after `_write_file_contents` for one entry: its file written, or nothing changed. */
  function NextFiles(meta: Data, entry: Entry, mime: seq<byte> -> string, writable: string -> bool,
                     files: map<string, seq<byte>>): map<string, seq<byte>>
  {
    var w := EntryWrite(meta, entry, mime, writable);
    if w.Ok? then files[w.value := meta.data] else files
  }

  /** The id the loop logs and skips for one entry, if its write raised. */
  function SkippedBy(meta: Data, entry: Entry, mime: seq<byte> -> string, writable: string -> bool): seq<nat>
  {
    if EntryWrite(meta, entry, mime, writable).Ok? then [] else [entry.fileId]
  }

  /**
   * The loop of `decode_exp_file` over `entries`, in table order, starting
   * from the directory contents `files`: a failed metadata read aborts, a
   * failed write is skipped.
   */
  function ProcessEntries(data: seq<byte>, entries: seq<Entry>, mime: seq<byte> -> string,
                          writable: string -> bool, files: map<string, seq<byte>>): (r: Run)
    ensures r.abort.None? <==> forall i :: 0 <= i < |entries| ==> EntryMetadata(data, entries[i]).Ok?
    ensures |r.skipped| <= |entries|
    decreases |entries|
  {
    if entries == [] then Run(files, [], None)
    else
      var m := EntryMetadata(data, entries[0]);
      if m.Err? then Run(files, [], Some(m.error))
      else
        var rest := ProcessEntries(data, entries[1..], mime, writable, NextFiles(m.value, entries[0], mime, writable, files));
        ReadableCons(data, entries);
        AfterSkips(SkippedBy(m.value, entries[0], mime, writable), rest)
  }

  /** Every record of `entries` can be read exactly when the first one and every one of the rest can. */
  lemma ReadableCons(data: seq<byte>, entries: seq<Entry>)
    requires entries != []
    ensures (forall i :: 0 <= i < |entries| ==> EntryMetadata(data, entries[i]).Ok?)
            <==> EntryMetadata(data, entries[0]).Ok?
                 && forall i :: 0 <= i < |entries[1..]| ==> EntryMetadata(data, entries[1..][i]).Ok?
  {
    assert forall i :: 1 <= i < |entries| ==> entries[i] == entries[1..][i - 1];
  }

  /** Extracting a whole archive: header, entry table, then the entries. */
  function Extraction(data: seq<byte>, mime: seq<byte> -> string, writable: string -> bool,
                      files: map<string, seq<byte>>): (r: Run)
    ensures ParseHeader(Window(data, 0, HEADER_SIZE)).Err? ==>
              r == Run(files, [], Some(ParseHeader(Window(data, 0, HEADER_SIZE)).error))
    ensures var h := ParseHeader(Window(data, 0, HEADER_SIZE));
            h.Ok? && EntryTable(data, HEADER_SIZE, h.value.files).Err? ==>
              r == Run(files, [], Some(EntryTable(data, HEADER_SIZE, h.value.files).error))
  {
    match ParseHeader(Window(data, 0, HEADER_SIZE))
    case Err(e) => Run(files, [], Some(e))
    case Ok(header) =>
      match EntryTable(data, HEADER_SIZE, header.files)
      case Err(e) => Run(files, [], Some(e))
      case Ok(entries) => ProcessEntries(data, entries, mime, writable, files)
  }

  /**
   * The ids of the entries, in table order, whose record can be read but
   * whose write raises: the ids the loop logs and skips.
   */
  function FailedIds(data: seq<byte>, entries: seq<Entry>, mime: seq<byte> -> string,
                     writable: string -> bool): (r: seq<nat>)
    ensures |r| <= |entries|
  {
    if entries == [] then []
    else
      var m := EntryMetadata(data, entries[0]);
      var here := if m.Ok? && EntryWrite(m.value, entries[0], mime, writable).Err? then [entries[0].fileId] else [];
      here + FailedIds(data, entries[1..], mime, writable)
  }

  /** An id is listed by `FailedIds` exactly when some entry with that id has a readable record whose write fails. */
  lemma {:induction false} FailedIdsMembers(data: seq<byte>, entries: seq<Entry>, mime: seq<byte> -> string,
                                            writable: string -> bool, id: nat)
    ensures id in FailedIds(data, entries, mime, writable) <==>
            exists j :: 0 <= j < |entries| && entries[j].fileId == id && EntryMetadata(data, entries[j]).Ok?
                        && EntryWrite(EntryMetadata(data, entries[j]).value, entries[j], mime, writable).Err?
    decreases |entries|
  {
    if entries != [] {
      FailedIdsMembers(data, entries[1..], mime, writable, id);
      assert forall j :: 1 <= j < |entries| ==> entries[1..][j - 1] == entries[j];
      assert forall j :: 0 <= j < |entries| - 1 ==> entries[1..][j] == entries[j + 1];
    }
  }

  /**
   * When every record can be read the run does not abort, and the ids it
   * skips are, in table order, exactly those whose write fails.
   */
  lemma {:induction false} SkippedAreFailedWrites(data: seq<byte>, entries: seq<Entry>, mime: seq<byte> -> string,
                                                  writable: string -> bool, files: map<string, seq<byte>>)
    requires forall j :: 0 <= j < |entries| ==> EntryMetadata(data, entries[j]).Ok?
    ensures var r := ProcessEntries(data, entries, mime, writable, files);
            r.abort.None? && r.skipped == FailedIds(data, entries, mime, writable)
    decreases |entries|
  {
    if entries != [] {
      var meta := EntryMetadata(data, entries[0]).value;
      assert forall j :: 1 <= j < |entries| ==> entries[1..][j - 1] == entries[j];
      SkippedAreFailedWrites(data, entries[1..], mime, writable, NextFiles(meta, entries[0], mime, writable, files));
    }
  }

  /**
   * No entry of `entries` that the loop reaches writes the file `name`:
   * every entry reached (no record up to it failed to read) whose write
   * succeeds writes some other name.
   */
  ghost predicate NoWriteTo(data: seq<byte>, entries: seq<Entry>, mime: seq<byte> -> string,
                            writable: string -> bool, name: string)
  {
    forall j :: 0 <= j < |entries| && (forall k :: 0 <= k <= j ==> EntryMetadata(data, entries[k]).Ok?)
                && EntryWrite(EntryMetadata(data, entries[j]).value, entries[j], mime, writable).Ok? ==>
      OutputName(entries[j], EntryMetadata(data, entries[j]).value.data, mime) != name
  }

  /**
   * A name no entry writes keeps its old contents, or stays absent: writing
   * one entry never disturbs another entry's file unless their names clash.
   */
  lemma {:induction false} UntouchedName(data: seq<byte>, entries: seq<Entry>, mime: seq<byte> -> string,
                                          writable: string -> bool, files: map<string, seq<byte>>, name: string)
    requires NoWriteTo(data, entries, mime, writable, name)
    ensures var r := ProcessEntries(data, entries, mime, writable, files);
            (name in r.files <==> name in files) && (name in files ==> r.files[name] == files[name])
    decreases |entries|
  {
    if entries != [] && EntryMetadata(data, entries[0]).Ok? {
      var meta := EntryMetadata(data, entries[0]).value;
      NoWriteToTail(data, entries, mime, writable, name);
      UntouchedName(data, entries[1..], mime, writable, NextFiles(meta, entries[0], mime, writable, files), name);
      ProcessEntriesCons(data, entries, mime, writable, files);
    }
  }

  /** When the first record can be read, `NoWriteTo` covers the first entry and passes to the rest. */
  lemma NoWriteToTail(data: seq<byte>, entries: seq<Entry>, mime: seq<byte> -> string,
                      writable: string -> bool, name: string)
    requires entries != [] && EntryMetadata(data, entries[0]).Ok?
    requires NoWriteTo(data, entries, mime, writable, name)
    ensures var meta := EntryMetadata(data, entries[0]).value;
            EntryWrite(meta, entries[0], mime, writable).Ok? ==> OutputName(entries[0], meta.data, mime) != name
    ensures NoWriteTo(data, entries[1..], mime, writable, name)
  {
    var rest := entries[1..];
    forall j | 0 <= j < |rest| && (forall k :: 0 <= k <= j ==> EntryMetadata(data, rest[k]).Ok?)
               && EntryWrite(EntryMetadata(data, rest[j]).value, rest[j], mime, writable).Ok?
      ensures OutputName(rest[j], EntryMetadata(data, rest[j]).value.data, mime) != name
    {
      assert rest[j] == entries[j + 1];
      forall k | 0 <= k <= j + 1
        ensures EntryMetadata(data, entries[k]).Ok?
      {
        if k > 0 {
          assert entries[k] == rest[k - 1];
        }
      }
    }
  }

  /**
   * Partial-failure isolation: when the records up to entry `i` can be
   * read, a stored entry `i` whose file can be written ends up on disk with
   * exactly its payload, whatever happened to the entries around it (a
   * later record that cannot be read aborts the run only after this file
   * is written), unless a later entry the loop reaches writes the same name
   * (last write wins).
   */
  lemma {:induction false} StoredEntryWritten(data: seq<byte>, entries: seq<Entry>, mime: seq<byte> -> string,
                                               writable: string -> bool, files: map<string, seq<byte>>, i: nat)
    requires i < |entries|
    requires forall j :: 0 <= j <= i ==> EntryMetadata(data, entries[j]).Ok?
    requires IsStored(EntryMetadata(data, entries[i]).value)
    requires writable(OutputName(entries[i], EntryMetadata(data, entries[i]).value.data, mime))
    requires NoWriteTo(data, entries[i + 1..], mime, writable, OutputName(entries[i], EntryMetadata(data, entries[i]).value.data, mime))
    ensures var name := OutputName(entries[i], EntryMetadata(data, entries[i]).value.data, mime);
            var r := ProcessEntries(data, entries, mime, writable, files);
            name in r.files && r.files[name] == EntryMetadata(data, entries[i]).value.data
    decreases |entries|
  {
    var meta := EntryMetadata(data, entries[0]).value;
    var next := NextFiles(meta, entries[0], mime, writable, files);
    var rest := entries[1..];
    ProcessEntriesCons(data, entries, mime, writable, files);
    if i == 0 {
      UntouchedName(data, rest, mime, writable, next, OutputName(entries[0], meta.data, mime));
    } else {
      assert forall j :: 0 <= j < |rest| ==> rest[j] == entries[j + 1];
      TailDrop(entries, i);
      StoredEntryWritten(data, rest, mime, writable, next, i - 1);
    }
  }

  /** Dropping `i` elements of a sequence's tail drops `i + 1` of the sequence. */
  lemma TailDrop<T>(s: seq<T>, i: nat)
    requires i < |s|
    ensures s[1..][i..] == s[i + 1..]
  {
  }

  /** The first turn of the entry loop when the first record can be read. */
  lemma ProcessEntriesCons(data: seq<byte>, entries: seq<Entry>, mime: seq<byte> -> string,
                           writable: string -> bool, files: map<string, seq<byte>>)
    requires entries != [] && EntryMetadata(data, entries[0]).Ok?
    ensures var meta := EntryMetadata(data, entries[0]).value;
            var r := ProcessEntries(data, entries, mime, writable, files);
            var rest := ProcessEntries(data, entries[1..], mime, writable, NextFiles(meta, entries[0], mime, writable, files));
            r.files == rest.files && r.abort == rest.abort
            && r.skipped == SkippedBy(meta, entries[0], mime, writable) + rest.skipped
  {
  }

  /** The first entry's contribution to `FailedIds` when its record can be read. */
  lemma FailedIdsCons(data: seq<byte>, entries: seq<Entry>, mime: seq<byte> -> string, writable: string -> bool)
    requires entries != [] && EntryMetadata(data, entries[0]).Ok?
    ensures FailedIds(data, entries, mime, writable)
            == SkippedBy(EntryMetadata(data, entries[0]).value, entries[0], mime, writable)
               + FailedIds(data, entries[1..], mime, writable)
  {
  }

  /** The first `i` elements of a sequence are its head followed by the first `i - 1` of its tail. */
  lemma PrefixTail<T>(s: seq<T>, i: nat)
    requires 0 < i <= |s|
    ensures s[..i][0] == s[0] && s[..i][1..] == s[1..][..i - 1]
  {
  }

  /** The abort and the directory after a failed metadata read at entry `i`. */
  lemma {:induction false} AbortKeepsFiles(data: seq<byte>, entries: seq<Entry>, mime: seq<byte> -> string,
                                           writable: string -> bool, files: map<string, seq<byte>>, i: nat)
    requires i < |entries| && EntryMetadata(data, entries[i]).Err?
    requires forall j :: 0 <= j < i ==> EntryMetadata(data, entries[j]).Ok?
    ensures var r := ProcessEntries(data, entries, mime, writable, files);
            r.abort == Some(EntryMetadata(data, entries[i]).error)
            && r.files == ProcessEntries(data, entries[..i], mime, writable, files).files
    decreases |entries|
  {
    if i > 0 {
      var meta := EntryMetadata(data, entries[0]).value;
      var rest, prefix := entries[1..], entries[..i];
      var next := NextFiles(meta, entries[0], mime, writable, files);
      assert forall j :: 0 <= j < |rest| ==> rest[j] == entries[j + 1];
      AbortKeepsFiles(data, rest, mime, writable, next, i - 1);
      PrefixTail(entries, i);
      ProcessEntriesCons(data, entries, mime, writable, files);
      ProcessEntriesCons(data, prefix, mime, writable, files);
    }
  }

  /** The ids skipped before a failed metadata read at entry `i`. */
  lemma {:induction false} AbortSkipped(data: seq<byte>, entries: seq<Entry>, mime: seq<byte> -> string,
                                        writable: string -> bool, files: map<string, seq<byte>>, i: nat)
    requires i < |entries| && EntryMetadata(data, entries[i]).Err?
    requires forall j :: 0 <= j < i ==> EntryMetadata(data, entries[j]).Ok?
    ensures ProcessEntries(data, entries, mime, writable, files).skipped == FailedIds(data, entries[..i], mime, writable)
    decreases |entries|
  {
    if i == 0 {
      assert entries[..i] == [];
    } else {
      var meta := EntryMetadata(data, entries[0]).value;
      var rest, prefix := entries[1..], entries[..i];
      var next := NextFiles(meta, entries[0], mime, writable, files);
      assert forall j :: 0 <= j < |rest| ==> rest[j] == entries[j + 1];
      AbortSkipped(data, rest, mime, writable, next, i - 1);
      PrefixTail(entries, i);
      ProcessEntriesCons(data, entries, mime, writable, files);
      FailedIdsCons(data, prefix, mime, writable);
    }
  }

  /**
   * A failed metadata read aborts the loop: the run stops with that error,
   * the directory holds what the entries before it wrote, and the skipped
   * ids are those of the entries before it whose write failed.
   */
  lemma MetadataFailureAborts(data: seq<byte>, entries: seq<Entry>, mime: seq<byte> -> string,
                              writable: string -> bool, files: map<string, seq<byte>>, i: nat)
    requires i < |entries| && EntryMetadata(data, entries[i]).Err?
    requires forall j :: 0 <= j < i ==> EntryMetadata(data, entries[j]).Ok?
    ensures var r := ProcessEntries(data, entries, mime, writable, files);
            r.abort == Some(EntryMetadata(data, entries[i]).error)
            && r.files == ProcessEntries(data, entries[..i], mime, writable, files).files
            && r.skipped == FailedIds(data, entries[..i], mime, writable)
  {
    AbortKeepsFiles(data, entries, mime, writable, files, i);
    AbortSkipped(data, entries, mime, writable, files, i);
  }

  /** Once the header and the table are read, extraction is the entry loop over the whole table. */
  lemma ExtractionOfTable(data: seq<byte>, mime: seq<byte> -> string, writable: string -> bool,
                          files: map<string, seq<byte>>, header: Header, entries: seq<Entry>)
    requires ParseHeader(Window(data, 0, HEADER_SIZE)) == Ok(header)
    requires EntryTable(data, HEADER_SIZE, header.files) == Ok(entries)
    ensures Extraction(data, mime, writable, files) == AfterSkips([], ProcessEntries(data, entries[0..], mime, writable, files))
  {
  }

  /** One turn of the entry loop: how the run over `entries[i..]` continues after entry `i`. */
  lemma ProcessEntriesStep(data: seq<byte>, entries: seq<Entry>, i: nat, mime: seq<byte> -> string,
                           writable: string -> bool, files: map<string, seq<byte>>)
    requires i < |entries|
    ensures var r := ProcessEntries(data, entries[i..], mime, writable, files);
            var m := EntryMetadata(data, entries[i]);
            (m.Err? ==> r == Run(files, [], Some(m.error)))
            && (m.Ok? ==> r == AfterSkips(SkippedBy(m.value, entries[i], mime, writable),
                                          ProcessEntries(data, entries[i + 1..], mime, writable,
                                                         NextFiles(m.value, entries[i], mime, writable, files))))
  {
  }

  /**
   * `decode_exp_file` on an archive holding `contents`, extracting into
   * `out`: reads the header and the entry table (their errors abort before
   * any entry), then, in table order, each entry's record (its error aborts)
   * and its file (its error is logged and the entry skipped). Returns the
   * output directory's name, the skipped ids and the aborting error.
   */
  method DecodeExpFile(fileName: string, contents: seq<byte>, mime: seq<byte> -> string, out: OutputDir)
      returns (dirName: string, skipped: seq<nat>, error: Option<Error>)
    modifies out
    ensures dirName == OutDirName(fileName)
    ensures var run := Extraction(contents, mime, out.writable, old(out.files));
            out.files == run.files && skipped == run.skipped && error == run.abort
  {
    dirName := OutDirName(fileName);
    skipped := [];
    var f := new Reader(contents);
    var header := DecodeHeader(f);
    if header.Err? {
      return dirName, skipped, Some(header.error);
    }
    var entries := GetEntries(header.value, f);
    if entries.Err? {
      return dirName, skipped, Some(entries.error);
    }
    var es := entries.value;
    ghost var writable := out.writable;
    ghost var files0 := out.files;
    ExtractionOfTable(contents, mime, writable, files0, header.value, es);
    for i := 0 to |es|
      invariant Extraction(contents, mime, writable, files0)
                == AfterSkips(skipped, ProcessEntries(contents, es[i..], mime, writable, out.files))
    {
      ghost var before, skippedBefore := out.files, skipped;
      ProcessEntriesStep(contents, es, i, mime, writable, before);
      var meta := GetEntryMetadata(es[i], f);
      if meta.Err? {
        return dirName, skipped, Some(meta.error);
      }
      var written := WriteFileContents(meta.value, es[i], f, mime, out);
      if written.Err? {
        skipped := skipped + [es[i].fileId];
      }
      ghost var sb := SkippedBy(meta.value, es[i], mime, writable);
      assert out.files == NextFiles(meta.value, es[i], mime, writable, before);
      assert skipped == skippedBefore + sb;
      ghost var restRun := ProcessEntries(contents, es[i + 1..], mime, writable, out.files);
      assert ProcessEntries(contents, es[i..], mime, writable, before) == AfterSkips(sb, restRun);
      AfterSkipsConcat(skippedBefore, sb, restRun);
    }
    error := None;
  }
}
