/**
 * The byte-copy helpers of src/exp_file/decode/shared.py: a chunked copy
 * loop, a size probe that restores the position, and `write` on the path
 * where both ends are already-open file objects.
 */
module Shared {
  import opened Bytes
  import opened Wrappers
  import opened Io

  /**
   * A log of reads that walk forward without gaps or overlaps, each asking
   * for no more than the one before it.
   */
  ghost predicate Contiguous(requests: seq<(nat, int)>)
  {
    forall i, j :: 0 <= i < j < |requests| && j == i + 1 ==>
      requests[j].0 == requests[i].0 + requests[i].1 && requests[j].1 <= requests[i].1
  }

  /** Every read of the log asks for 1 to `chunkSize` bytes and stops at or before `end`. */
  ghost predicate WithinChunks(requests: seq<(nat, int)>, chunkSize: int, end: nat)
  {
    forall k :: 0 <= k < |requests| ==> 0 < requests[k].1 <= chunkSize && requests[k].0 + requests[k].1 <= end
  }

  /**
   * The reads `_write`'s loop has made from `start` on, with the position
   * now at `at` before the target `end` and `chunk` the size of the last
   * read: with a positive chunk size they tile `[start, at)`, each asking
   * for no more than the one before; with a chunk size of -1 there has been
   * at most one read, and it reached `end`.
   */
  ghost predicate ReadsSoFar(requests: seq<(nat, int)>, start: nat, at: nat, end: nat, chunk: int, chunkSize: int)
  {
    (requests == [] <==> at == start)
    && (requests != [] ==> requests[0].0 == start && requests[|requests| - 1].1 == chunk)
    && (requests != [] && chunkSize > 0 ==> requests[|requests| - 1].0 + requests[|requests| - 1].1 == at)
    && (chunkSize > 0 ==> WithinChunks(requests, chunkSize, end))
    && Contiguous(requests)
    && (chunkSize == -1 ==> requests == [] || (requests == [(start, chunkSize)] && at == end))
  }

  /** One more read, of `min(end - at, chunk)` bytes, keeps the log in that shape. */
  lemma ReadsStep(requests: seq<(nat, int)>, start: nat, at: nat, end: nat, chunk: int, chunkSize: int,
                  at': nat, chunk': int)
    requires ReadsSoFar(requests, start, at, end, chunk, chunkSize)
    requires start <= at < end && (chunkSize > 0 || chunkSize == -1) && chunk' == Min(end - at, chunk)
    requires chunkSize > 0 ==> 0 < chunk <= chunkSize && at' == at + chunk'
    requires chunkSize == -1 ==> chunk == chunkSize && at' == end
    ensures ReadsSoFar(requests + [(at, chunk')], start, at', end, chunk', chunkSize)
  {
    var r := requests + [(at, chunk')];
    assert forall k :: 0 <= k < |requests| ==> r[k] == requests[k];
  }

  /**
   * What `_write`'s loop has done when it is at `at`, copying `[start, end)`
   * of `data` with `chunk` the size of its last read. With nothing to copy it
   * has done nothing. Otherwise the bytes copied so far are `[start, at)`,
   * and the reads made so far are as `ReadsSoFar` describes.
   */
  ghost predicate CopyProgress(data: seq<byte>, start: nat, at: nat, end: nat, chunk: int, chunkSize: int,
                               requests: seq<(nat, int)>, copied: seq<byte>)
  {
    start <= at <= end
    && (start == end ==> requests == [] && copied == [])
    && (start < end ==>
          end <= |data| && (chunkSize > 0 || chunkSize == -1)
          && (chunkSize > 0 ==> 0 < chunk <= chunkSize)
          && (chunkSize == -1 ==> chunk == chunkSize && end == |data|)
          && copied == data[start..at]
          && ReadsSoFar(requests, start, at, end, chunk, chunkSize))
  }

  /**
   * One turn of the loop: the read of `min(end - at, chunk)` bytes returns
   * at least one byte, does not overshoot `end`, and extends both the bytes
   * copied and the reads made.
   */
  lemma CopyStep(data: seq<byte>, start: nat, at: nat, end: nat, chunk: int, chunkSize: int,
                 requests: seq<(nat, int)>, copied: seq<byte>, buf: seq<byte>,
                 at': nat, chunk': int, requests': seq<(nat, int)>, copied': seq<byte>)
    requires CopyProgress(data, start, at, end, chunk, chunkSize, requests, copied)
    requires at != end
    requires chunk' == Min(end - at, chunk)
    requires buf == Window(data, at, if chunk' == -1 then |data| else chunk')
    requires at' == at + |buf| && requests' == requests + [(at, chunk')] && copied' == copied + buf
    ensures at < at' <= end
    ensures CopyProgress(data, start, at', end, chunk', chunkSize, requests', copied')
  {
    assert chunkSize > 0 ==> |buf| == chunk';
    assert chunkSize == -1 ==> at' == end;
    ReadsStep(requests, start, at, end, chunk, chunkSize, at', chunk');
    assert data[start..at'] == data[start..at] + buf;
  }

  /** Appending to what extends a sequence extends it by the appended whole. */
  lemma AppendAssoc<T>(a: seq<T>, b: seq<T>, c: seq<T>)
    ensures (a + b) + c == a + (b + c)
  {
  }

  /** Before the first read nothing is copied and nothing is read. */
  lemma CopyStart(data: seq<byte>, start: nat, end: nat, chunkSize: int)
    requires start <= end
    requires start < end ==> end <= |data| && (chunkSize > 0 || (chunkSize == -1 && end == |data|))
    ensures CopyProgress(data, start, start, end, chunkSize, chunkSize, [], [])
  {
  }

  /** The loop at its target: it copied exactly `[start, end)`, and its reads cover that range. */
  lemma CopyDone(data: seq<byte>, start: nat, end: nat, chunk: int, chunkSize: int,
                 requests: seq<(nat, int)>, copied: seq<byte>)
    requires CopyProgress(data, start, end, end, chunk, chunkSize, requests, copied)
    ensures start == end ==> copied == []
    ensures start < end ==> copied == data[start..end]
    ensures start == end ==> requests == []
    ensures start < end ==> |requests| > 0 && requests[0].0 == start
    ensures chunkSize > 0 && start < end ==> requests[|requests| - 1].0 + requests[|requests| - 1].1 == end
    ensures chunkSize == -1 && start < end ==> requests == [(start, chunkSize)]
    ensures chunkSize > 0 ==> WithinChunks(requests, chunkSize, end)
    ensures Contiguous(requests)
  {
  }

  /**
   * `_write`: copies the next `filesize` bytes of `infile` to `outfile`,
   * reading at most `chunkSize` bytes at a time. The Python loop exits only
   * when the position reaches `start + filesize`. With `filesize == 0` it
   * exits at once, whatever the chunk size and position. Otherwise each
   * read asks for `min(remaining, chunk_size)` bytes. With `chunk_size == -1`
   * the one read takes everything up to the end of the file, so the loop
   * exits when exactly `filesize` bytes remained. The precondition admits
   * exactly the calls that return; the others never return or raise
   * `ValueError` (a read size below -1). The reads made are the ghost
   * `requests`, the calls appended to `infile.log`.
   */
  method CopyChunks(outfile: Writer, infile: Reader, filesize: nat, chunkSize: int)
      returns (ghost requests: seq<(nat, int)>)
    requires filesize > 0 ==> infile.pos + filesize <= |infile.data|
                              && (chunkSize > 0 || (chunkSize == -1 && infile.pos + filesize == |infile.data|))
    modifies outfile, infile
    ensures infile.pos == old(infile.pos) + filesize
    ensures filesize == 0 ==> outfile.written == old(outfile.written)
    ensures filesize > 0 ==> outfile.written == old(outfile.written) + infile.data[old(infile.pos)..old(infile.pos) + filesize]
    ensures infile.log == old(infile.log) + requests
    ensures filesize == 0 ==> requests == []
    ensures filesize > 0 ==> |requests| > 0 && requests[0].0 == old(infile.pos)
    ensures chunkSize > 0 && filesize > 0 ==>
              requests[|requests| - 1].0 + requests[|requests| - 1].1 == old(infile.pos) + filesize
    ensures chunkSize == -1 && filesize > 0 ==> requests == [(old(infile.pos), chunkSize)]
    ensures chunkSize > 0 ==> WithinChunks(requests, chunkSize, old(infile.pos) + filesize)
    ensures Contiguous(requests)
  {
    var curOffset := infile.Tell();
    var expectedOffset := curOffset + filesize;
    var chunk := chunkSize;
    requests := [];
    var at := infile.Tell();
    ghost var copied: seq<byte> := [];
    ghost var data := infile.data;
    CopyStart(data, curOffset, expectedOffset, chunkSize);
    while at != expectedOffset
      invariant infile.pos == at && infile.data == data
      invariant outfile.written == old(outfile.written) + copied
      invariant infile.log == old(infile.log) + requests
      invariant CopyProgress(data, curOffset, at, expectedOffset, chunk, chunkSize, requests, copied)
      decreases expectedOffset - at
    {
      ghost var before, soFar, last := requests, copied, chunk;
      chunk := Min(expectedOffset - at, chunk);
      requests := requests + [(at, chunk)];
      AppendAssoc(old(infile.log), before, [(at, chunk)]);
      var buf := infile.Read(chunk);
      outfile.Write(buf);
      copied := copied + buf;
      AppendAssoc(old(outfile.written), soFar, buf);
      ghost var at' := infile.pos;
      CopyStep(data, curOffset, at, expectedOffset, last, chunkSize, before, soFar, buf, at', chunk, requests, copied);
      at := infile.Tell();
    }
    CopyDone(data, curOffset, expectedOffset, chunk, chunkSize, requests, copied);
  }

  /** `_calc_filesize`: the total length of the file (not what remains); the position is restored. */
  method CalcFilesize(file: Reader) returns (size: nat)
    modifies file
    ensures size == |file.data|
    ensures file.pos == old(file.pos) && file.log == old(file.log)
  {
    var cur := file.Tell();
    size := file.SeekEnd();
    var _ := file.Seek(cur);
  }

  /**
   * `write` with both ends open already: copies `filesize` bytes, or, when
   * `filesize` is None, as many bytes as the whole file holds, from the
   * current position on; returns the size it used. With None and the
   * position past 0 in a non-empty file, fewer bytes remain than the total
   * length and the Python copy loop never returns; the precondition of
   * `CopyChunks` excludes that call, and the calls it excludes for the
   * chunk size (0, below -1, or -1 unless exactly the size is left).
   */
  method Write(readFrom: Reader, writeTo: Writer, filesize: Option<nat>, chunkSize: int)
      returns (used: nat, ghost requests: seq<(nat, int)>)
    requires var n := if filesize.Some? then filesize.value else |readFrom.data|;
             n > 0 ==> readFrom.pos + n <= |readFrom.data|
                       && (chunkSize > 0 || (chunkSize == -1 && readFrom.pos + n == |readFrom.data|))
    modifies readFrom, writeTo
    ensures used == if filesize.Some? then filesize.value else |readFrom.data|
    ensures readFrom.pos == old(readFrom.pos) + used
    ensures used == 0 ==> writeTo.written == old(writeTo.written)
    ensures used > 0 ==> writeTo.written == old(writeTo.written) + readFrom.data[old(readFrom.pos)..old(readFrom.pos) + used]
    ensures readFrom.log == old(readFrom.log) + requests
    ensures used == 0 ==> requests == []
    ensures chunkSize > 0 ==> WithinChunks(requests, chunkSize, old(readFrom.pos) + used) && Contiguous(requests)
    ensures chunkSize == -1 && used > 0 ==> requests == [(old(readFrom.pos), chunkSize)]
  {
    if filesize.None? {
      used := CalcFilesize(readFrom);
    } else {
      used := filesize.value;
    }
    requests := CopyChunks(writeTo, readFrom, used, chunkSize);
  }
}
