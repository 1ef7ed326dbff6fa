/**
 * fs.File and fs.FileData: an in-memory file (its information and its
 * bytes) and an open handle on it that reads and writes at a position.
 * The handle keeps `current`, the part of the file's bytes from the
 * position on; writing into it writes into the file.
 */
module FsFile {
  import opened Wrappers
  import opened FileModes

  /** fs.FileInfo as fs/file.go declares it. */
  datatype FileInfo = FileInfo(name: string, size: int, mode: FileMode, modTime: Time, isDir: bool)

  class File {
    var info: FileInfo
    var data: seq<byte>

    constructor (info: FileInfo, data: seq<byte>)
      ensures this.info == info && this.data == data
    {
      this.info := info;
      this.data := data;
    }

    function Name(): string reads this { info.name }
    function Size(): int reads this { info.size }
    function Mode(): FileMode reads this { info.mode }
    function ModTime(): Time reads this { info.modTime }
    function IsDir(): bool reads this { info.isDir }
  }

  /** The errors of a handle. */
  datatype FileError =
    | Closed(filename: string)  // "file %s: already closed"
    | EOF                       // io.EOF

  /**
   * The bytes of `before` after `data` is written at `pos`: the bytes
   * before `pos` kept, `data`, then whatever of `before` lies beyond it.
   */
  function Overwrite(before: seq<byte>, pos: nat, data: seq<byte>): seq<byte>
    requires pos <= |before|
  {
    before[..pos] + data + if pos + |data| < |before| then before[pos + |data|..] else []
  }

  /** A write keeps the bytes before the position, places the data at it, keeps what follows, and never shrinks the file. */
  lemma OverwriteEffect(before: seq<byte>, pos: nat, data: seq<byte>)
    requires pos <= |before|
    ensures var r := Overwrite(before, pos, data);
            && |r| == (if pos + |data| < |before| then |before| else pos + |data|)
            && |before| <= |r|
            && r[..pos] == before[..pos]
            && r[pos..pos + |data|] == data
            && r[pos + |data|..] == (if pos + |data| < |before| then before[pos + |data|..] else [])
  {
    var r := Overwrite(before, pos, data);
    assert r == (before[..pos] + data) + if pos + |data| < |before| then before[pos + |data|..] else [];
    assert (r[..pos + |data|] == before[..pos] + data);
  }

  class FileData {
    const file: File
    var pos: nat
    var current: seq<byte>
    var closed: bool

    /** The handle's invariant: `current` is the file's bytes from the position on. */
    ghost predicate Valid()
      reads this, file
    {
      pos <= |file.data| && current == file.data[pos..]
    }

    /** newFileData: an open handle at the start of the file. */
    constructor (file: File)
      ensures this.file == file && pos == 0 && !closed
      ensures Valid()
    {
      this.file := file;
      pos := 0;
      current := file.data;
      closed := false;
    }

    /**
     * Read: copies as many bytes as both `buf` and the rest of the file
     * allow and moves the position past them; fewer bytes than `buf`
     * holds means the end of the file. An empty `buf` reads nothing and
     * succeeds.
     */
    method Read(buf: array<byte>) returns (n: nat, err: Option<FileError>)
      requires Valid()
      modifies this, buf
      ensures Valid() && file.data == old(file.data) && file.info == old(file.info) && closed == old(closed)
      ensures old(closed) ==> n == 0 && err == Some(Closed(file.info.name)) && pos == old(pos) && buf[..] == old(buf[..])
      ensures !old(closed) ==>
                && n == (if buf.Length < |old(current)| then buf.Length else |old(current)|)
                && pos == old(pos) + n
                && buf[..n] == old(current)[..n] && buf[n..] == old(buf[n..])
                && err == (if buf.Length > 0 && n < buf.Length then Some(EOF) else None)
    {
      if closed {
        return 0, Some(Closed(file.Name()));
      }
      var size := buf.Length;
      if size == 0 {
        return 0, None;
      }
      n := if size < |current| then size else |current|;
      for i := 0 to n
        invariant current == old(current) && pos == old(pos) && closed == old(closed)
        invariant forall k :: 0 <= k < i ==> buf[k] == current[k]
        invariant forall k :: i <= k < buf.Length ==> buf[k] == old(buf[k])
      {
        buf[i] := current[i];
      }
      assert buf[..n] == current[..n];
      assert buf[n..] == old(buf[n..]);
      pos := pos + n;
      current := current[n..];
      if n < size {
        return n, Some(EOF);
      }
      return n, None;
    }

    /**
     * Write: writes all of `data` at the position, over the bytes there
     * and past the end as needed, moves the position past it and updates
     * the recorded size.
     */
    method Write(data: seq<byte>) returns (n: nat, err: Option<FileError>)
      requires Valid()
      modifies this, file
      ensures Valid() && closed == old(closed)
      ensures old(closed) ==>
                n == 0 && err == Some(Closed(file.info.name)) && pos == old(pos)
                && file.data == old(file.data) && file.info == old(file.info)
      ensures !old(closed) ==>
                && n == |data| && err.None? && pos == old(pos) + |data|
                && file.data == Overwrite(old(file.data), old(pos), data)
                && file.info == old(file.info).(size := |file.data|)
    {
      if closed {
        return 0, Some(Closed(file.Name()));
      }
      n := |data|;
      var size := |current|;
      if size == 0 {
        file.data := file.data + data;
      } else if size < n {
        file.data := file.data[..pos] + data;
        current := [];
      } else {
        // copy(fd.current, data) writes through to the file's bytes.
        file.data := file.data[..pos] + data + current[n..];
        current := current[n..];
      }
      pos := pos + n;
      file.info := file.info.(size := |file.data|);
      return n, None;
    }

    /** Close: closes the handle once; closing it again is an error. */
    method Close() returns (err: Option<FileError>)
      modifies this
      ensures closed && pos == old(pos) && current == old(current)
      ensures err.Some? <==> old(closed)
      ensures err.Some? ==> err.value == Closed(file.info.name)
    {
      if closed {
        return Some(Closed(file.Name()));
      }
      closed := true;
      return None;
    }
  }
}
