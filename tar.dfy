/**
 * The tar helper: archiving a list of paths into a tar stream while
 * hashing it (TarFiles), looking an entry up by name (FindFile) and
 * extracting a stream into a directory (UntarFiles).
 */
module Tar {
  import opened Wrappers
  import opened FileModes
  import opened Os
  import opened TarFormat
  import Strings

  /** The failing side of an io.Copy from a file into the tar writer. */
  datatype CopyError = ReadSide(readErr: OsError) | WriteSide(writeErr: WriterError)

  /** The errors of the archiving side, one constructor per message the source builds. */
  datatype TarError =
    | OpenFailed(cause: OsError)                          // os.Open / os.Lstat, returned unwrapped
    | DerefFailed(cause: OsError)                         // "cannnot dereference symlink: %v"
    | HeaderWriteFailed(path: string, werr: WriterError)  // "cannot write header for %q: %v"
    | CopyFailed(path: string, copyErr: CopyError)        // "failed to write %q: %v"
    | ReadDirFailed(path: string, cause: OsError)         // "error reading directory %q: %v"
    | WriteFailed(inner: TarError)                        // "write to tar file failed: %v"
    | CloseFailed(closeErr: WriterError)                  // "error closing tar writer: %v"

  /**
   * tar.FileInfoHeader's mode field: the nine permission bits (the low
   * bits of the FileMode), plus the c_ISUID, c_ISGID and c_ISVTX bits
   * (0o4000, 0o2000, 0o1000) for setuid, setgid and sticky.
   */
  function HeaderMode(m: FileMode): (r: int)
    ensures 0 <= r < 0x1000 && r % 0x200 == m as int % 0x200
  {
    m as int % 0x200
    + 0x200 * ((if m & ModeSetuid != 0 then 4 else 0)
               + (if m & ModeSetgid != 0 then 2 else 0)
               + (if m & ModeSticky != 0 then 1 else 0))
  }

  /**
   * A mode FileInfoHeader stored, given back to the system through
   * os.FileMode as UntarFiles does, keeps only its permission bits: the
   * header's setuid, setgid and sticky bits (0o4000, 0o2000, 0o1000)
   * are not where os.FileMode keeps those flags.
   */
  lemma SpecialBitsDropped(m: FileMode)
    ensures SysMode(HeaderMode(m)) == m as int % 0x200
  {
    var h := HeaderMode(m);
    assert h % 0x1_0000_0000 == h;
    assert h / 0x80_0000 == 0 && h / 0x40_0000 == 0 && h / 0x10_0000 == 0;
  }

  /** The name stored for `path`: `strip` removed once if it is a prefix (ToSlash is the identity on Unix). */
  function EntryName(path: string, strip: string): (r: string)
    ensures Strings.HasPrefix(path, strip) ==> strip + r == path
    ensures !Strings.HasPrefix(path, strip) ==> r == path
  {
    Strings.TrimPrefix(path, strip)
  }

  /**
   * A tree whose walk meets no error: every file can be read to the
   * end, every directory listed to the end, every link resolved, and
   * every node opened.
   */
  predicate Healthy(n: Node)
    decreases n
  {
    match n
    case Regular(_, _, readErr) => readErr.None?
    case Symlink(_, resolved) => resolved.Ok?
    case Unopenable(_) => false
    case Dir(_, children, listErr) =>
      listErr.None? && forall i :: 0 <= i < |children| ==> Healthy(children[i].node)
  }

  /**
   * `m` is found at `q` in the tree `n` found at `path`: `n` itself, or,
   * for a directory, something found under one of its children, at the
   * child's name joined to `path`. Symbolic links are leaves.
   */
  predicate Reaches(n: Node, path: string, q: string, m: Node)
    decreases n
  {
    || (q == path && m == n)
    || (n.Dir? && exists i :: 0 <= i < |n.children| && Reaches(n.children[i].node, Join(path, n.children[i].name), q, m))
  }

  /** A node that gets an entry of its own: it can be opened and, for a link, resolved. */
  predicate HasEntry(n: Node) {
    !n.Unopenable? && !(n.Symlink? && n.resolved.Err?)
  }

  /**
   * The entry writeContents emits for the node itself: a header built
   * from os.Lstat's information, followed by the file's content for a
   * regular file. A symbolic link records the path EvalSymlinks resolves
   * it to.
   */
  function SelfEntry(n: Node, path: string, strip: string): (e: Entry)
    requires HasEntry(n)
    ensures WellFormed(e) && e.header.name == EntryName(path, strip)
    ensures n.Regular? <==> e.header.typeflag == TypeReg
    ensures n.Regular? ==> e.content == n.content
    ensures !n.Regular? ==> e.content == []
    ensures n.Symlink? <==> e.header.typeflag == TypeSymlink
    ensures n.Symlink? ==> e.header.linkname == n.resolved.value
  {
    var name := EntryName(path, strip);
    match n
    case Regular(m, content, _) => Entry(Header(name, TypeReg, HeaderMode(m), "", |content|), content)
    case Dir(m, _, _) => Entry(Header(name, TypeDir, HeaderMode(m), "", 0), [])
    case Symlink(m, resolved) => Entry(Header(name, TypeSymlink, HeaderMode(m), resolved.value, 0), [])
  }

  /** The entries in the archive so far, and the error that stopped the writing, if any. */
  datatype WalkResult = WalkResult(entries: seq<Entry>, err: Option<TarError>)

  /**
   * What writeContents adds to an archive already holding `log` for
   * `node` found at `path`, when every write succeeds: a pre-order walk
   * that emits the node's own entry, then the entries of a directory's
   * children in listing order, and never descends into a symbolic link.
   * WalkExtends shows the result is `log` followed by the walk's own
   * entries.
   */
  function Walk(log: seq<Entry>, node: Node, path: string, strip: string): (w: WalkResult)
    decreases node, 1
  {
    match node
    case Unopenable(e) => WalkResult(log, Some(OpenFailed(e)))
    case Symlink(_, resolved) =>
      if resolved.Err? then WalkResult(log, Some(DerefFailed(resolved.error)))
      else WalkResult(log + [SelfEntry(node, path, strip)], None)
    case Regular(_, _, readErr) =>
      WalkResult(log + [SelfEntry(node, path, strip)],
                 if readErr.Some? then Some(CopyFailed(path, ReadSide(readErr.value))) else None)
    case Dir(_, _, _) =>
      WalkChildren(log + [SelfEntry(node, path, strip)], node, path, strip, 0)
  }

  /** The walk of the children of `dir` from the `i`-th on, then the listing's own error. */
  function WalkChildren(log: seq<Entry>, dir: Node, path: string, strip: string, i: nat): (w: WalkResult)
    requires dir.Dir? && i <= |dir.children|
    decreases dir, 0, |dir.children| - i
  {
    if i == |dir.children| then
      WalkResult(log, if dir.listErr.Some? then Some(ReadDirFailed(path, dir.listErr.value)) else None)
    else
      var c := dir.children[i];
      var first := Walk(log, c.node, Join(path, c.name), strip);
      if first.err.Some? then first
      else WalkChildren(first.entries, dir, path, strip, i + 1)
  }

  /**
   * writeContents: archives `node`, found at `path`, into `tarw`.
   * When every write goes through (always, for an unbounded target),
   * the entries and the error are Walk's. A writer
   * that has already failed makes it fail too.
   */
  method WriteContents(node: Node, path: string, strip: string, tarw: TarWriter) returns (err: Option<TarError>)
    requires tarw.Valid()
    modifies tarw, tarw.target, tarw.hash
    ensures tarw.Valid()
    ensures old(tarw.err).Some? ==> err.Some?
    ensures old(tarw.err).None? && old(tarw.nb) == 0 && (err.None? || tarw.target.capacity.None?) ==>
              var w := Walk(old(tarw.log), node, path, strip);
              err == w.err && tarw.err.None? && tarw.nb == 0 && tarw.log == w.entries
    decreases node, 3
  {
    if node.Unopenable? {
      return Some(OpenFailed(node.err));
    }
    if node.Symlink? && node.resolved.Err? {
      return Some(DerefFailed(node.resolved.error));
    }
    var self := SelfEntry(node, path, strip);
    var we := tarw.WriteHeader(self.header);
    if we.Some? {
      return Some(HeaderWriteFailed(path, we.value));
    }
    if node.Symlink? {
      return None;
    }
    if node.Regular? {
      err := CopyContent(node, path, self.header, old(tarw.log), tarw);
      return;
    }
    err := WriteChildren(node, path, strip, tarw);
  }

  /** The io.Copy of a regular file's content into the entry whose header was just written. */
  method CopyContent(node: Node, path: string, ghost h: Header, ghost init: seq<Entry>, tarw: TarWriter)
    returns (err: Option<TarError>)
    requires node.Regular? && tarw.Valid() && tarw.err.None?
    requires tarw.log == init + [Entry(h, [])] && tarw.nb == |node.content|
    modifies tarw, tarw.target, tarw.hash
    ensures tarw.Valid()
    ensures err.None? || tarw.target.capacity.None? ==>
              && err == (if node.readErr.Some? then Some(CopyFailed(path, ReadSide(node.readErr.value))) else None)
              && tarw.err.None? && tarw.nb == 0
              && tarw.log == init + [Entry(h, node.content)]
  {
    ghost var log0 := tarw.log;
    assert log0[..|log0| - 1] == init && [] + node.content == node.content;
    assert AppendContent(log0, node.content) == init + [Entry(h, node.content)];
    if |node.content| > 0 {
      var _, ce := tarw.Write(node.content);
      if ce.Some? {
        return Some(CopyFailed(path, WriteSide(ce.value)));
      }
      assert node.content[..|node.content|] == node.content;
    } else {
      assert node.content == [];
    }
    if node.readErr.Some? {
      return Some(CopyFailed(path, ReadSide(node.readErr.value)));
    }
    return None;
  }

  /**
   * The Readdirnames(100) loop of writeContents: the directory's names
   * batch by batch, each child archived at Join(path, name); the first
   * failure stops it, and a listing error ends it.
   */
  method WriteChildren(dir: Node, path: string, strip: string, tarw: TarWriter) returns (err: Option<TarError>)
    requires dir.Dir? && tarw.Valid() && tarw.err.None? && tarw.nb == 0
    modifies tarw, tarw.target, tarw.hash
    ensures tarw.Valid()
    ensures err.None? || tarw.target.capacity.None? ==>
              var w := WalkChildren(old(tarw.log), dir, path, strip, 0);
              err == w.err && tarw.err.None? && tarw.nb == 0 && tarw.log == w.entries
    decreases dir, 2
  {
    var pos := 0;
    while true
      invariant tarw.Valid()
      invariant pos <= |dir.children|
      invariant tarw.err.None? && tarw.nb == 0
      invariant WalkChildren(old(tarw.log), dir, path, strip, 0) == WalkChildren(tarw.log, dir, path, strip, pos)
      decreases |dir.children| - pos
    {
      var listing := Readdirnames(dir, pos);
      if listing.EndOfListing? {
        return None;
      }
      if listing.ListFailed? {
        return Some(ReadDirFailed(path, listing.err));
      }
      var e := WriteBatch(dir, path, strip, pos, listing.names, tarw);
      if e.Some? {
        return e;
      }
      pos := pos + |listing.names|;
    }
  }

  /**
   * One batch of names of the loop above: the children at positions
   * `pos` .. `pos + |names|` archived in order, stopping at the first
   * failure.
   */
  method WriteBatch(dir: Node, path: string, strip: string, pos: nat, names: seq<string>, tarw: TarWriter)
    returns (err: Option<TarError>)
    requires dir.Dir? && pos + |names| <= |dir.children|
    requires forall k :: 0 <= k < |names| ==> names[k] == dir.children[pos + k].name
    requires tarw.Valid() && tarw.err.None? && tarw.nb == 0
    modifies tarw, tarw.target, tarw.hash
    ensures tarw.Valid()
    ensures err.None? || tarw.target.capacity.None? ==>
              && tarw.err.None? && tarw.nb == 0
              && (err.None? ==>
                    WalkChildren(old(tarw.log), dir, path, strip, pos)
                    == WalkChildren(tarw.log, dir, path, strip, pos + |names|))
              && (err.Some? ==> WalkChildren(old(tarw.log), dir, path, strip, pos) == WalkResult(tarw.log, err))
    decreases dir, 1
  {
    ghost var start := tarw.log;
    ghost var whole := WalkChildren(start, dir, path, strip, pos);
    for j := 0 to |names|
      invariant tarw.Valid()
      invariant tarw.err.None? && tarw.nb == 0
      invariant whole == WalkChildren(tarw.log, dir, path, strip, pos + j)
    {
      var e := WriteChild(dir, path, strip, pos + j, names[j], tarw);
      if e.Some? {
        return e;
      }
    }
    return None;
  }

  /** The child at position `k` of `dir`, listed as `name`, archived at Join(path, name). */
  method WriteChild(dir: Node, path: string, strip: string, k: nat, name: string, tarw: TarWriter)
    returns (err: Option<TarError>)
    requires dir.Dir? && k < |dir.children| && name == dir.children[k].name
    requires tarw.Valid() && tarw.err.None? && tarw.nb == 0
    modifies tarw, tarw.target, tarw.hash
    ensures tarw.Valid()
    ensures err.None? || tarw.target.capacity.None? ==>
              && tarw.err.None? && tarw.nb == 0
              && (err.None? ==>
                    WalkChildren(old(tarw.log), dir, path, strip, k) == WalkChildren(tarw.log, dir, path, strip, k + 1))
              && (err.Some? ==> WalkChildren(old(tarw.log), dir, path, strip, k) == WalkResult(tarw.log, err))
    decreases dir, 0
  {
    WalkChildrenStep(tarw.log, dir, path, strip, k);
    err := WriteContents(dir.children[k].node, Join(path, name), strip, tarw);
  }

  /** One step of WalkChildren, unfolded. */
  lemma WalkChildrenStep(log: seq<Entry>, dir: Node, path: string, strip: string, i: nat)
    requires dir.Dir? && i < |dir.children|
    ensures var c := dir.children[i];
            var first := Walk(log, c.node, Join(path, c.name), strip);
            WalkChildren(log, dir, path, strip, i)
            == if first.err.Some? then first else WalkChildren(first.entries, dir, path, strip, i + 1)
  {
  }

  /** Walk extends the archive it is given: `log`, then the walk's own entries. */
  lemma {:induction false} WalkExtends(log: seq<Entry>, node: Node, path: string, strip: string)
    ensures Walk(log, node, path, strip)
            == WalkResult(log + Walk([], node, path, strip).entries, Walk([], node, path, strip).err)
    decreases node, 1
  {
    match node
    case Unopenable(_) =>
      assert log + [] == log;
    case Symlink(_, resolved) =>
      if resolved.Err? {
        assert log + [] == log;
      }
    case Regular(_, _, _) =>
    case Dir(_, _, _) =>
      var self := [SelfEntry(node, path, strip)];
      WalkChildrenExtends(log + self, node, path, strip, 0);
      WalkChildrenExtends(self, node, path, strip, 0);
      assert [] + self == self;
  }

  /** WalkChildren extends the archive it is given, in the same way. */
  lemma {:induction false} WalkChildrenExtends(log: seq<Entry>, dir: Node, path: string, strip: string, i: nat)
    requires dir.Dir? && i <= |dir.children|
    ensures WalkChildren(log, dir, path, strip, i)
            == WalkResult(log + WalkChildren([], dir, path, strip, i).entries, WalkChildren([], dir, path, strip, i).err)
    decreases dir, 0, |dir.children| - i
  {
    if i == |dir.children| {
      assert log + [] == log;
    } else {
      var c := dir.children[i];
      var cpath := Join(path, c.name);
      WalkChildrenStep(log, dir, path, strip, i);
      WalkChildrenStep([], dir, path, strip, i);
      WalkExtends(log, c.node, cpath, strip);
      var first := Walk([], c.node, cpath, strip);
      if first.err.None? {
        var rest := WalkChildren([], dir, path, strip, i + 1);
        WalkChildrenExtends(log + first.entries, dir, path, strip, i + 1);
        WalkChildrenExtends(first.entries, dir, path, strip, i + 1);
        assert (log + first.entries) + rest.entries == log + (first.entries + rest.entries);
      }
    }
  }

  /**
   * The archive of the roots `roots`, in order, added to `log`: each
   * root's walk, the first failing root ending the archive with its
   * error wrapped.
   */
  function Archive(log: seq<Entry>, fs: map<string, Node>, roots: seq<string>, strip: string): (w: WalkResult)
    decreases |roots|
  {
    if roots == [] then WalkResult(log, None)
    else
      var first := Walk(log, Lookup(fs, roots[0]), roots[0], strip);
      if first.err.Some? then WalkResult(first.entries, Some(WriteFailed(first.err.value)))
      else Archive(first.entries, fs, roots[1..], strip)
  }

  /** One step of Archive, unfolded at position `i` of the root list. */
  lemma ArchiveStep(log: seq<Entry>, fs: map<string, Node>, roots: seq<string>, strip: string, i: nat)
    requires i < |roots|
    ensures var first := Walk(log, Lookup(fs, roots[i]), roots[i], strip);
            Archive(log, fs, roots[i..], strip) ==
              if first.err.Some? then WalkResult(first.entries, Some(WriteFailed(first.err.value)))
              else Archive(first.entries, fs, roots[i + 1..], strip)
  {
    assert roots[i..][0] == roots[i] && roots[i..][1..] == roots[i + 1..];
  }

  /** The root loop of tarAndHashFiles, before the deferred Close. */
  method WriteRoots(fs: map<string, Node>, fileList: seq<string>, strip: string, tarw: TarWriter)
    returns (err: Option<TarError>)
    requires tarw.Valid() && tarw.err.None? && tarw.nb == 0
    modifies tarw, tarw.target, tarw.hash
    ensures tarw.Valid()
    ensures err.Some? ==> err.value.WriteFailed?
    ensures err.None? || tarw.target.capacity.None? ==>
              var a := Archive(old(tarw.log), fs, fileList, strip);
              err == a.err && tarw.err.None? && tarw.nb == 0 && tarw.log == a.entries
  {
    var i := 0;
    while i < |fileList|
      invariant tarw.Valid()
      invariant i <= |fileList|
      invariant tarw.err.None? && tarw.nb == 0
      invariant Archive(old(tarw.log), fs, fileList, strip) == Archive(tarw.log, fs, fileList[i..], strip)
    {
      ArchiveStep(tarw.log, fs, fileList, strip, i);
      var e := WriteContents(Lookup(fs, fileList[i]), fileList[i], strip, tarw);
      if e.Some? {
        return Some(WriteFailed(e.value));
      }
      i := i + 1;
    }
    assert fileList[i..] == [];
    return None;
  }

  /**
   * tarAndHashFiles: archives the roots through a tar writer over
   * io.MultiWriter(target, hash), closing the writer in any case. The
   * hash is fed exactly the bytes the target accepts. A close error is
   * reported only when no root failed.
   */
  method TarAndHashFiles(fs: map<string, Node>, fileList: seq<string>, target: Sink, strip: string, hash: Sink, codec: Codec)
    returns (err: Option<TarError>)
    requires target != hash && target.Valid() && hash.capacity.None?
    modifies target, hash
    ensures target.Valid()
    ensures |old(target.bytes)| <= |target.bytes| && target.bytes[..|old(target.bytes)|] == old(target.bytes)
    ensures hash.bytes == old(hash.bytes) + target.bytes[|old(target.bytes)|..]
    ensures err.None? || target.capacity.None? ==>
              var a := Archive([], fs, fileList, strip);
              err == a.err && target.bytes == old(target.bytes) + ArchiveBytes(codec, a.entries)
    ensures err.Some? ==> err.value.WriteFailed? || err.value.CloseFailed?
    ensures err.Some? && err.value.CloseFailed? ==> Archive([], fs, fileList, strip).err.None?
  {
    var tarw := new TarWriter(target, hash, codec);
    err := WriteRoots(fs, fileList, strip, tarw);
    var closeErr := tarw.Close();
    if closeErr.Some? && err.None? {
      err := Some(CloseFailed(closeErr.value));
    }
    assert target.bytes[|old(target.bytes)|..] == tarw.sent;
  }

  /**
   * TarFiles: the archive goes to `target`; the result is the base64
   * text of the SHA-1 sum of exactly the bytes sent to `target`, or ""
   * with the error. `sha1` and `base64` stand for those encodings.
   */
  method TarFiles(fs: map<string, Node>, fileList: seq<string>, target: Sink, strip: string, codec: Codec,
                  sha1: seq<byte> -> seq<byte>, base64: seq<byte> -> string)
    returns (shaSum: string, err: Option<TarError>)
    requires target.Valid()
    modifies target
    ensures target.Valid() && |old(target.bytes)| <= |target.bytes|
    ensures err.None? || target.capacity.None? ==>
              var a := Archive([], fs, fileList, strip);
              err == a.err && target.bytes == old(target.bytes) + ArchiveBytes(codec, a.entries)
    ensures err.Some? ==> shaSum == "" && (err.value.WriteFailed? || err.value.CloseFailed?)
    ensures err.None? ==> shaSum == base64(sha1(target.bytes[|old(target.bytes)|..]))
  {
    var hash := new Sink([], None);
    err := TarAndHashFiles(fs, fileList, target, strip, hash, codec);
    if err.Some? {
      return "", err;
    }
    assert hash.bytes == target.bytes[|old(target.bytes)|..];
    shaSum := base64(sha1(hash.bytes));
  }

  /** The position of the first entry named `name`, if any. */
  function FirstNamed(entries: seq<Entry>, name: string): (r: Option<nat>)
    ensures r.None? <==> forall i :: 0 <= i < |entries| ==> entries[i].header.name != name
    ensures r.Some? ==> r.value < |entries| && entries[r.value].header.name == name
                        && forall i :: 0 <= i < r.value ==> entries[i].header.name != name
    decreases |entries|
  {
    if entries == [] then None
    else if entries[0].header.name == name then Some(0)
    else
      var t := FirstNamed(entries[1..], name);
      if t.None? then None
      else
        assert forall i :: 1 <= i <= t.value ==> entries[i] == entries[1..][i - 1];
        Some(t.value + 1)
  }

  /**
   * FindFile's failures: a header-read error, or errors.NotFoundf with
   * the format string it is given (the file name); the message it
   * renders from that format is not modelled.
   */
  datatype FindError = HeaderReadFailed(cause: ReadError) | NotFound(format: string)

  /**
   * FindFile: reads headers in stream order and returns the first whose
   * name equals `filename`, with the reader positioned at its content.
   * A header-read error met before a match is returned as it is; at the
   * end of the stream the result is errors.NotFoundf(filename).
   */
  method FindFile(codec: Codec, input: seq<byte>, filename: string) returns (r: Result<(Header, TarReader), FindError>)
    ensures var s := codec.decode(input); var k := FirstNamed(s.entries, filename);
      && (k.Some? ==> r.Ok? && r.value.0 == s.entries[k.value].header
                      && r.value.1.stream == s && r.value.1.Valid()
                      && r.value.1.pos == k.value + 1 && r.value.1.rest == s.entries[k.value].content
                      && r.value.1.restErr == ContentErr(s, k.value))
      && (k.None? && s.end.Some? ==> r == Err(HeaderReadFailed(s.end.value)))
      && (k.None? && s.end.None? ==> r == Err(NotFound(filename)))
  {
    ghost var s := codec.decode(input);
    var reader := new TarReader(codec, input);
    while true
      invariant reader.Valid() && reader.stream == s
      invariant forall i :: 0 <= i < reader.pos ==> s.entries[i].header.name != filename
      decreases |s.entries| - reader.pos
    {
      var n := reader.Next();
      match n
      case EOF =>
        return Err(NotFound(filename));
      case Failed(e) =>
        return Err(HeaderReadFailed(e));
      case Got(h) =>
        if h.name == filename {
          return Ok((h, reader));
        }
    }
  }

  /** What stops io.Copy: writing to the file, or reading the entry's content. */
  datatype FillCopyError = CopyWrite(writeErr: OsError) | CopyRead(readErr: ReadError)

  /** createAndFill's failures. */
  datatype FillError =
    | CreateFailed(cause: OsError)             // "some of the tar contents cannot be written to disk: %v"
    | ContentFailed(copyErr: FillCopyError)    // "failed while reading tar contents: %v"
    | ChmodFailed(path: string, cause: OsError) // "cannot set proper mode on file %q: %v"

  /** UntarFiles' failures. */
  datatype ExtractError =
    | ExtractHeaderFailed(readErr: ReadError)                            // "failed while reading tar header: %v"
    | ExtractDirFailed(path: string, cause: OsError)                    // "cannot extract directory %q: %v"
    | ExtractSymlinkFailed(linkname: string, path: string, cause: OsError) // "cannot extract symlink %q to %q: %v"
    | ExtractFileFailed(path: string, fillErr: FillError)               // "cannot extract file %q: %v"

  datatype Outcome<E> = Outcome(nodes: map<string, DNode>, err: Option<E>)

  /**
   * createAndFill on the destination: create, copy the content, then
   * chmod; the first failure stops it. `content` is what the entry
   * holds and `readErr` the error reading reports after it: the bytes
   * that are there are written first, and the read error then ends the
   * copy before the chmod.
   */
  function Fill(nodes: map<string, DNode>, fault: FsOp -> Option<OsError>, p: string, mode: int,
                content: seq<byte>, readErr: Option<ReadError>): (o: Outcome<FillError>)
    ensures fault(CreateOp(p)).Some? ==> o == Outcome(nodes, Some(CreateFailed(fault(CreateOp(p)).value)))
    ensures o.err.None? ==> readErr.None? && p in o.nodes && o.nodes[p] == DFile(SysMode(mode), content)
    ensures o.err.None? ==> forall q :: q in nodes && q != p ==> q in o.nodes && o.nodes[q] == nodes[q]
    ensures o.nodes.Keys <= nodes.Keys + {p}
  {
    var c := Create(nodes, fault(CreateOp(p)), p);
    if c.err.Some? then Outcome(c.nodes, Some(CreateFailed(c.err.value)))
    else
      assert c.nodes[p].content == [] && [] + content == content;
      // io.Copy calls Write only when there is something to copy.
      var w := if content == [] then FsStep(c.nodes, None) else WriteData(c.nodes, fault(WriteOp(p)), p, content);
      if w.err.Some? then Outcome(w.nodes, Some(ContentFailed(CopyWrite(w.err.value))))
      else if readErr.Some? then Outcome(w.nodes, Some(ContentFailed(CopyRead(readErr.value))))
      else
        var m := Chmod(w.nodes, fault(ChmodOp(p)), p, mode);
        if m.err.Some? then Outcome(m.nodes, Some(ChmodFailed(p, m.err.value)))
        else Outcome(m.nodes, None)
  }

  /**
   * One extraction step at Join(out, name): a directory entry is made
   * with MkdirAll, a symbolic link entry with Symlink to its link name
   * verbatim, and every other type is written as a file, whose content
   * read may end with `readErr`.
   */
  function ApplyEntry(nodes: map<string, DNode>, fault: FsOp -> Option<OsError>, out: string, e: Entry,
                      readErr: Option<ReadError>): (o: Outcome<ExtractError>)
  {
    var p := Join(out, e.header.name);
    match e.header.typeflag
    case TypeDir =>
      var r := MkdirAll(nodes, fault(MkdirAllOp(p)), p, e.header.mode);
      Outcome(r.nodes, if r.err.Some? then Some(ExtractDirFailed(p, r.err.value)) else None)
    case TypeSymlink =>
      var r := MakeSymlink(nodes, fault(SymlinkOp(p)), e.header.linkname, p);
      Outcome(r.nodes, if r.err.Some? then Some(ExtractSymlinkFailed(e.header.linkname, p, r.err.value)) else None)
    case _ =>
      var r := Fill(nodes, fault, p, e.header.mode, e.content, readErr);
      Outcome(r.nodes, if r.err.Some? then Some(ExtractFileFailed(p, r.err.value)) else None)
  }

  /**
   * The entries applied in stream order; the first failure stops, and
   * the stream's own end error comes last. When `truncated`, the last
   * entry's content read ends with that error.
   */
  function Extract(nodes: map<string, DNode>, fault: FsOp -> Option<OsError>, out: string,
                   entries: seq<Entry>, end: Option<ReadError>, truncated: bool): (o: Outcome<ExtractError>)
    decreases |entries|
  {
    if entries == [] then Outcome(nodes, if end.Some? then Some(ExtractHeaderFailed(end.value)) else None)
    else
      var first := ApplyEntry(nodes, fault, out, entries[0], if truncated && |entries| == 1 then end else None);
      if first.err.Some? then first else Extract(first.nodes, fault, out, entries[1..], end, truncated)
  }

  /** createAndFill: the content is the rest of the reader's current entry, with its read error. */
  method CreateAndFill(p: string, mode: int, content: TarReader, disk: Disk) returns (err: Option<FillError>)
    requires content.Valid()
    modifies content, disk
    ensures content.Valid() && content.pos == old(content.pos)
    ensures Outcome(disk.nodes, err) == Fill(old(disk.nodes), disk.fault, p, mode, old(content.rest), old(content.restErr))
  {
    var e := disk.CreateAt(p);
    if e.Some? {
      return Some(CreateFailed(e.value));
    }
    var data, readErr := content.ReadAll();
    if data != [] {
      e := disk.WriteAt(p, data);
      if e.Some? {
        return Some(ContentFailed(CopyWrite(e.value)));
      }
    }
    if readErr.Some? {
      return Some(ContentFailed(CopyRead(readErr.value)));
    }
    e := disk.ChmodAt(p, mode);
    if e.Some? {
      return Some(ChmodFailed(p, e.value));
    }
    return None;
  }

  /** UntarFiles: the whole stream decoded from `input`, extracted under `out`. */
  method UntarFiles(codec: Codec, input: seq<byte>, out: string, disk: Disk) returns (err: Option<ExtractError>)
    modifies disk
    ensures var s := codec.decode(input);
            Outcome(disk.nodes, err) == Extract(old(disk.nodes), disk.fault, out, s.entries, s.end, s.truncated)
  {
    ghost var s := codec.decode(input);
    var tr := new TarReader(codec, input);
    while true
      invariant tr.Valid() && tr.stream == s
      invariant Extract(old(disk.nodes), disk.fault, out, s.entries, s.end, s.truncated)
             == Extract(disk.nodes, disk.fault, out, s.entries[tr.pos..], s.end, s.truncated)
      decreases |s.entries| - tr.pos
    {
      ghost var rest := s.entries[tr.pos..];
      var next := tr.Next();
      match next
      case EOF =>
        return None;
      case Failed(e) =>
        return Some(ExtractHeaderFailed(e));
      case Got(hdr) =>
        assert rest[0] == s.entries[tr.pos - 1] && rest[1..] == s.entries[tr.pos..];
        assert tr.restErr == (if s.truncated && |rest| == 1 then s.end else None);
        var fullPath := Join(out, hdr.name);
        if hdr.typeflag == TypeDir {
          var e := disk.MkdirAllAt(fullPath, hdr.mode);
          if e.Some? {
            return Some(ExtractDirFailed(fullPath, e.value));
          }
          continue;
        }
        if hdr.typeflag == TypeSymlink {
          var e := disk.SymlinkAt(hdr.linkname, fullPath);
          if e.Some? {
            return Some(ExtractSymlinkFailed(hdr.linkname, fullPath, e.value));
          }
          continue;
        }
        var e := CreateAndFill(fullPath, hdr.mode, tr, disk);
        if e.Some? {
          return Some(ExtractFileFailed(fullPath, e.value));
        }
    }
  }

  /** The error archivedFile.Close reports for the two close results (gzip reader first, then archive). */
  datatype CloseError<E> = Single(err: E) | Multiple(first: E, second: E)

  /**
   * archivedFile.Close: both closers are always closed; both failures
   * are reported together, otherwise the one that failed.
   */
  function ArchivedFileClose<E>(gzrErr: Option<E>, archiveErr: Option<E>): (r: Option<CloseError<E>>)
    ensures r.None? <==> gzrErr.None? && archiveErr.None?
    ensures gzrErr.Some? && archiveErr.Some? ==> r == Some(Multiple(gzrErr.value, archiveErr.value))
    ensures gzrErr.Some? != archiveErr.Some? ==>
              r == Some(Single(if gzrErr.Some? then gzrErr.value else archiveErr.value))
  {
    if gzrErr.Some? then
      if archiveErr.Some? then Some(Multiple(gzrErr.value, archiveErr.value)) else Some(Single(gzrErr.value))
    else if archiveErr.Some? then Some(Single(archiveErr.value))
    else None
  }
}
