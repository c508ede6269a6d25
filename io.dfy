/**
 * The Python file objects the decoder works through, as classes: a seekable
 * reader over the archive's bytes (an `io.BufferedReader` opened `'rb'`), a
 * byte sink (a `BufferedWriter` or `io.BytesIO`), and the output directory
 * that `open(path, 'wb')` writes whole files into.
 */
module Io {
  import opened Bytes

  function Min(a: int, b: int): int { if a <= b then a else b }

  /**
   * What `read(n)` returns at position `pos` of a file holding `data`: the
   * next `n` bytes, or as many as remain. Seeking past the end is allowed
   * in Python, and a read there returns no bytes.
   */
  function Window(data: seq<byte>, pos: nat, n: nat): (r: seq<byte>)
    ensures |r| <= n
    ensures |r| == n <==> pos + n <= |data| || n == 0
    ensures pos < |data| ==> |r| == Min(n, |data| - pos)
    ensures pos + |r| <= |data| || r == []
    ensures pos + |r| <= |data| ==> r == data[pos..pos + |r|]
  {
    if pos >= |data| then [] else data[pos..Min(pos + n, |data|)]
  }

  /**
   * A file opened for reading: fixed contents and a position that reads and
   * seeks move. The ghost `log` lists every `read` call made on it, as
   * (position, size asked for).
   */
  class Reader {
    const data: seq<byte>
    var pos: nat
    ghost var log: seq<(nat, int)>

    constructor (contents: seq<byte>)
      ensures data == contents && pos == 0 && log == []
    {
      data := contents;
      pos := 0;
      log := [];
    }

    /**
     * `read(n)`: up to `n` bytes from the position on, or, for `n == -1`,
     * everything up to the end of the file; the position moves past them.
     * A size below -1 raises `ValueError` and is not admitted.
     */
    method Read(n: int) returns (chunk: seq<byte>)
      requires n >= -1
      modifies this
      ensures chunk == Window(data, old(pos), if n == -1 then |data| else n)
      ensures pos == old(pos) + |chunk|
      ensures log == old(log) + [(old(pos), n)]
    {
      chunk := Window(data, pos, if n == -1 then |data| else n);
      log := log + [(pos, n)];
      pos := pos + |chunk|;
    }

    /** `seek(offset)`: absolute positioning; returns the new position. */
    method Seek(offset: nat) returns (p: nat)
      modifies this
      ensures pos == offset && p == offset
      ensures log == old(log)
    {
      pos := offset;
      p := offset;
    }

    /** `seek(0, os.SEEK_END)`: moves to the end and returns the file's length. */
    method SeekEnd() returns (size: nat)
      modifies this
      ensures pos == |data| && size == |data|
      ensures log == old(log)
    {
      pos := |data|;
      size := |data|;
    }

    /** `tell()`: the current position. */
    method Tell() returns (p: nat)
      ensures p == pos
    {
      p := pos;
    }
  }

  /** A file or in-memory buffer opened for writing: everything written so far, in order. */
  class Writer {
    var written: seq<byte>

    constructor ()
      ensures written == []
    {
      written := [];
    }

    /** `write(buf)`: appends `buf`. */
    method Write(buf: seq<byte>)
      modifies this
      ensures written == old(written) + buf
    {
      written := written + buf;
    }
  }

  /**
   * The output directory: the files in it by name. Whether opening a name
   * for writing succeeds is decided by the environment, given as `writable`.
   */
  class OutputDir {
    const writable: string -> bool
    var files: map<string, seq<byte>>

    constructor (writable: string -> bool, files: map<string, seq<byte>>)
      ensures this.writable == writable && this.files == files
    {
      this.writable := writable;
      this.files := files;
    }

    /**
     * `with open(dir / name, 'wb') as f: f.write(content)`: creates or
     * overwrites the file `name`, or fails and changes nothing.
     */
    method Emit(name: string, content: seq<byte>) returns (ok: bool)
      modifies this
      ensures ok == writable(name)
      ensures files == if ok then old(files)[name := content] else old(files)
    {
      ok := writable(name);
      if ok {
        files := files[name := content];
      }
    }
  }
}
