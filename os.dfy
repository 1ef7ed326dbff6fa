/**
 * The operating-system side of the tar helper: the file tree that is
 * archived, as os.Open / os.Lstat / filepath.EvalSymlinks /
 * File.Readdirnames report it, and the destination directory that
 * extraction writes into, as os.MkdirAll / os.Symlink / os.Create /
 * File.Write / File.Chmod change it.
 */
module Os {
  import opened Wrappers
  import opened FileModes

  /** An *os.PathError: the operation, the path and the reason. */
  datatype OsError = OsError(op: string, path: string, reason: string)

  /**
   * A file as the archiving side sees it. `mode` holds the permission
   * and setuid/setgid/sticky bits of os.Lstat; the kind is the
   * constructor.
   *  - Regular: its content; `readErr` is an error the read reports
   *    after the content.
   *  - Dir: its entries in Readdirnames order; `listErr` is an error the
   *    listing reports after the last entry.
   *  - Symlink: what EvalSymlinks resolves it to, or why it cannot.
   *  - Unopenable: os.Open (or os.Lstat) fails on it.
   */
  datatype Node =
    | Regular(mode: FileMode, content: seq<byte>, readErr: Option<OsError>)
    | Dir(mode: FileMode, children: seq<Child>, listErr: Option<OsError>)
    | Symlink(mode: FileMode, resolved: Result<string, OsError>)
    | Unopenable(err: OsError)

  datatype Child = Child(name: string, node: Node)

  /** The node named by a root path of the file list; a missing path cannot be opened. */
  function Lookup(fs: map<string, Node>, path: string): (n: Node)
    ensures path !in fs ==> n == Unopenable(OsError("open", path, "no such file or directory"))
    ensures path in fs ==> n == fs[path]
  {
    if path in fs then fs[path] else Unopenable(OsError("open", path, "no such file or directory"))
  }

  /**
   * filepath.Join of two path pieces on a Unix system, for pieces that
   * are already clean (no "." or ".." element, no doubled or trailing
   * separator): the pieces separated by one "/", an empty piece dropped.
   */
  function Join(a: string, b: string): (r: string)
    ensures a == "" ==> r == b
    ensures b == "" ==> r == a
    ensures a != "" && b != "" ==> r == a + "/" + b && |r| == |a| + 1 + |b|
  {
    if a == "" then b else if b == "" then a else a + "/" + b
  }

  /** The number of entries Readdirnames returns at most per call. */
  const BatchSize: nat := 100

  /** What one Readdirnames(n) call yields: a batch of names, the listing error, or io.EOF. */
  datatype Listing = Names(names: seq<string>) | ListFailed(err: OsError) | EndOfListing

  /** The names of `children`, in order. */
  function NamesOf(children: seq<Child>): (r: seq<string>)
    ensures |r| == |children|
    ensures forall i :: 0 <= i < |r| ==> r[i] == children[i].name
    decreases |children|
  {
    if children == [] then [] else [children[0].name] + NamesOf(children[1..])
  }

  /**
   * Readdirnames(BatchSize) on a directory whose first `pos` entries
   * were already returned: up to BatchSize further names while there
   * are any, then the listing error if there is one, and io.EOF.
   */
  function Readdirnames(dir: Node, pos: nat): (r: Listing)
    requires dir.Dir? && pos <= |dir.children|
    ensures r.Names? ==>
              && 0 < |r.names| <= BatchSize && pos + |r.names| <= |dir.children|
              && forall k :: 0 <= k < |r.names| ==> r.names[k] == dir.children[pos + k].name
    ensures r.Names? <==> pos < |dir.children|
    ensures r.ListFailed? <==> pos == |dir.children| && dir.listErr.Some?
  {
    if pos < |dir.children| then
      var n := if |dir.children| - pos < BatchSize then |dir.children| - pos else BatchSize;
      Names(NamesOf(dir.children[pos..pos + n]))
    else if dir.listErr.Some? then ListFailed(dir.listErr.value)
    else EndOfListing
  }

  /**
   * The mode word the system is given for os.FileMode(mode), `mode`
   * being an int64 header mode: os.FileMode keeps the low 32 bits, and
   * syscallMode keeps the nine permission bits and turns ModeSetuid
   * (bit 23), ModeSetgid (bit 22) and ModeSticky (bit 20) into 0o4000,
   * 0o2000 and 0o1000. Every other bit is dropped.
   */
  function SysMode(mode: int): (r: int)
    ensures 0 <= r < 0x1000
    ensures r % 0x200 == mode % 0x200
  {
    var u := mode % 0x1_0000_0000;
    mode % 0x200
    + 0x200 * ((if u / 0x80_0000 % 2 == 1 then 4 else 0)
               + (if u / 0x40_0000 % 2 == 1 then 2 else 0)
               + (if u / 0x10_0000 % 2 == 1 then 1 else 0))
  }

  /** A node of the destination directory, with the mode word the system stores. */
  datatype DNode = DDir(mode: int) | DLink(target: string) | DFile(mode: int, content: seq<byte>)

  /** The destination operations, for the fault oracle. */
  datatype FsOp =
    | MkdirAllOp(path: string)
    | SymlinkOp(path: string)
    | CreateOp(path: string)
    | WriteOp(path: string)
    | ChmodOp(path: string)

  /** The outcome of one destination operation: the new map and the error, if any. */
  datatype FsStep = FsStep(nodes: map<string, DNode>, err: Option<OsError>)

  /** The path itself and each of its proper prefixes that ends before a "/", except the empty one. */
  function Ancestors(p: string): set<string> {
    set i | 0 < i <= |p| && (i == |p| || p[i] == '/') :: p[..i]
  }

  /**
   * The first proper ancestor of p, from the root down and looking only
   * at the prefixes ending before a "/" at index `from` or later, that
   * is a regular file of the destination. A path below a regular file
   * does not resolve: the system reports ENOTDIR for it.
   */
  function FileAncestor(nodes: map<string, DNode>, p: string, from: nat): (r: Option<string>)
    ensures r.Some? ==> r.value in nodes && nodes[r.value].DFile?
    ensures r.Some? ==> exists j :: from <= j < |p| && 0 < j && p[j] == '/' && r.value == p[..j]
                          && forall k :: from <= k < j && 0 < k && p[k] == '/' ==> !(p[..k] in nodes && nodes[p[..k]].DFile?)
    ensures r.None? <==> forall j :: from <= j < |p| && 0 < j && p[j] == '/' ==> !(p[..j] in nodes && nodes[p[..j]].DFile?)
    decreases |p| - from
  {
    if from >= |p| then None
    else if 0 < from && p[from] == '/' && p[..from] in nodes && nodes[p[..from]].DFile? then Some(p[..from])
    else FileAncestor(nodes, p, from + 1)
  }

  /** Some proper ancestor of p is a regular file. */
  predicate UnderFile(nodes: map<string, DNode>, p: string) {
    FileAncestor(nodes, p, 0).Some?
  }

  /**
   * Some proper ancestor of p is not in the destination: os.Create and
   * os.Symlink report ENOENT for p. (Below a regular file, which the
   * system meets first, they report ENOTDIR instead.)
   */
  predicate AncestorMissing(nodes: map<string, DNode>, p: string) {
    exists k :: 0 < k < |p| && p[k] == '/' && p[..k] !in nodes
  }

  /**
   * os.MkdirAll(p, os.FileMode(mode)): an error for the empty path; ENOTDIR, naming
   * the file, when p lies below a regular file; nothing to do when p is
   * already a directory, and an error when it is something else;
   * otherwise every missing ancestor and p itself are created with
   * SysMode(mode). An ancestor that exists is left as it is.
   */
  function MkdirAll(nodes: map<string, DNode>, fault: Option<OsError>, p: string, mode: int): (r: FsStep)
    ensures fault.Some? ==> r == FsStep(nodes, fault)
    ensures fault.None? && p != "" && UnderFile(nodes, p) ==>
              r == FsStep(nodes, Some(OsError("mkdir", FileAncestor(nodes, p, 0).value, "not a directory")))
    ensures fault.None? && p in nodes && !nodes[p].DDir? ==> r.err.Some? && r.nodes == nodes
    ensures r.err.None? ==> !UnderFile(nodes, p)
    ensures r.err.None? ==> p in r.nodes && r.nodes[p].DDir?
    ensures r.err.None? ==> forall q :: q in nodes ==> q in r.nodes && r.nodes[q] == nodes[q]
    ensures r.err.None? ==> forall q :: q in r.nodes && q !in nodes ==> q in Ancestors(p) && r.nodes[q] == DDir(SysMode(mode))
    ensures r.err.None? ==> forall q :: q in Ancestors(p) ==> q in r.nodes
  {
    if fault.Some? then FsStep(nodes, fault)
    else if p == "" then FsStep(nodes, Some(OsError("mkdir", p, "no such file or directory")))
    else if UnderFile(nodes, p) then FsStep(nodes, Some(OsError("mkdir", FileAncestor(nodes, p, 0).value, "not a directory")))
    else if p in nodes && !nodes[p].DDir? then FsStep(nodes, Some(OsError("mkdir", p, "not a directory")))
    else
      assert p == p[..|p|] && p in Ancestors(p);
      FsStep(map q | q in nodes.Keys + Ancestors(p) :: if q in nodes then nodes[q] else DDir(SysMode(mode)), None)
  }

  /**
   * os.Symlink(target, p): fails when p lies below a regular file, when
   * p is empty or a directory on the way to it is missing, and when p
   * already exists.
   */
  function MakeSymlink(nodes: map<string, DNode>, fault: Option<OsError>, target: string, p: string): (r: FsStep)
    ensures r.err.None? <==> fault.None? && !UnderFile(nodes, p) && p != "" && !AncestorMissing(nodes, p) && p !in nodes
    ensures fault.None? && UnderFile(nodes, p) ==> r.err == Some(OsError("symlink", p, "not a directory"))
    ensures fault.None? && !UnderFile(nodes, p) && (p == "" || AncestorMissing(nodes, p)) ==>
              r.err == Some(OsError("symlink", p, "no such file or directory"))
    ensures r.err.None? ==> r.nodes == nodes[p := DLink(target)]
    ensures r.err.Some? ==> r.nodes == nodes
  {
    if fault.Some? then FsStep(nodes, fault)
    else if UnderFile(nodes, p) then FsStep(nodes, Some(OsError("symlink", p, "not a directory")))
    else if p == "" || AncestorMissing(nodes, p) then FsStep(nodes, Some(OsError("symlink", p, "no such file or directory")))
    else if p in nodes then FsStep(nodes, Some(OsError("symlink", p, "file exists")))
    else FsStep(nodes[p := DLink(target)], None)
  }

  /** The mode os.Create gives a new file. */
  const CreateMode: int := 0x1B6

  /**
   * os.Create(p): ENOTDIR when p lies below a regular file; ENOENT when
   * p is empty or a directory on the way to it is missing; otherwise a
   * new empty file, or an existing one truncated with its mode kept; a
   * directory cannot be opened for writing. The model does not follow a
   * symbolic link at p: it reports an error there.
   */
  function Create(nodes: map<string, DNode>, fault: Option<OsError>, p: string): (r: FsStep)
    ensures fault.None? && UnderFile(nodes, p) ==> r == FsStep(nodes, Some(OsError("open", p, "not a directory")))
    ensures fault.None? && !UnderFile(nodes, p) && (p == "" || AncestorMissing(nodes, p)) ==>
              r == FsStep(nodes, Some(OsError("open", p, "no such file or directory")))
    ensures fault.None? && !UnderFile(nodes, p) && p != "" && !AncestorMissing(nodes, p) && p !in nodes ==>
              r == FsStep(nodes[p := DFile(CreateMode, [])], None)
    ensures fault.None? && !UnderFile(nodes, p) && p != "" && !AncestorMissing(nodes, p) && p in nodes && nodes[p].DFile? ==>
              r == FsStep(nodes[p := DFile(nodes[p].mode, [])], None)
    ensures fault.Some? || (p in nodes && !nodes[p].DFile?) ==> r.err.Some? && r.nodes == nodes
    ensures r.err.None? ==> r.nodes == nodes[p := DFile(r.nodes[p].mode, [])]
  {
    if fault.Some? then FsStep(nodes, fault)
    else if UnderFile(nodes, p) then FsStep(nodes, Some(OsError("open", p, "not a directory")))
    else if p == "" || AncestorMissing(nodes, p) then FsStep(nodes, Some(OsError("open", p, "no such file or directory")))
    else if p !in nodes then FsStep(nodes[p := DFile(CreateMode, [])], None)
    else match nodes[p]
      case DFile(m, _) => FsStep(nodes[p := DFile(m, [])], None)
      case DDir(_) => FsStep(nodes, Some(OsError("open", p, "is a directory")))
      case DLink(_) => FsStep(nodes, Some(OsError("open", p, "symbolic link not followed")))
  }

  /** Writing `data` at the end of the file just created at p. */
  function WriteData(nodes: map<string, DNode>, fault: Option<OsError>, p: string, data: seq<byte>): (r: FsStep)
    requires p in nodes && nodes[p].DFile?
    ensures r.err == fault
    ensures fault.None? ==> r.nodes == nodes[p := DFile(nodes[p].mode, nodes[p].content + data)]
    ensures fault.Some? ==> r.nodes == nodes
  {
    if fault.Some? then FsStep(nodes, fault)
    else FsStep(nodes[p := DFile(nodes[p].mode, nodes[p].content + data)], None)
  }

  /** File.Chmod(os.FileMode(mode)) on the file just created at p: the file takes SysMode(mode). */
  function Chmod(nodes: map<string, DNode>, fault: Option<OsError>, p: string, mode: int): (r: FsStep)
    requires p in nodes && nodes[p].DFile?
    ensures r.err == fault
    ensures fault.None? ==> r.nodes == nodes[p := DFile(SysMode(mode), nodes[p].content)]
    ensures fault.Some? ==> r.nodes == nodes
  {
    if fault.Some? then FsStep(nodes, fault)
    else FsStep(nodes[p := DFile(SysMode(mode), nodes[p].content)], None)
  }

  /**
   * The destination file system. `fault` says which operations the
   * system refuses for reasons the map does not show (permissions, a
   * full disk); every other operation behaves
   * as the functions above say.
   */
  class Disk {
    var nodes: map<string, DNode>
    const fault: FsOp -> Option<OsError>

    constructor (nodes: map<string, DNode>, fault: FsOp -> Option<OsError>)
      ensures this.nodes == nodes && this.fault == fault
    {
      this.nodes := nodes;
      this.fault := fault;
    }

    method MkdirAllAt(p: string, mode: int) returns (err: Option<OsError>)
      modifies this
      ensures FsStep(nodes, err) == MkdirAll(old(nodes), fault(MkdirAllOp(p)), p, mode)
    {
      var r := MkdirAll(nodes, fault(MkdirAllOp(p)), p, mode);
      nodes, err := r.nodes, r.err;
    }

    method SymlinkAt(target: string, p: string) returns (err: Option<OsError>)
      modifies this
      ensures FsStep(nodes, err) == MakeSymlink(old(nodes), fault(SymlinkOp(p)), target, p)
    {
      var r := MakeSymlink(nodes, fault(SymlinkOp(p)), target, p);
      nodes, err := r.nodes, r.err;
    }

    method CreateAt(p: string) returns (err: Option<OsError>)
      modifies this
      ensures FsStep(nodes, err) == Create(old(nodes), fault(CreateOp(p)), p)
      ensures err.None? ==> p in nodes && nodes[p].DFile? && nodes[p].content == []
    {
      var r := Create(nodes, fault(CreateOp(p)), p);
      nodes, err := r.nodes, r.err;
    }

    method WriteAt(p: string, data: seq<byte>) returns (err: Option<OsError>)
      requires p in nodes && nodes[p].DFile?
      modifies this
      ensures FsStep(nodes, err) == WriteData(old(nodes), fault(WriteOp(p)), p, data)
    {
      var r := WriteData(nodes, fault(WriteOp(p)), p, data);
      nodes, err := r.nodes, r.err;
    }

    method ChmodAt(p: string, mode: int) returns (err: Option<OsError>)
      requires p in nodes && nodes[p].DFile?
      modifies this
      ensures FsStep(nodes, err) == Chmod(old(nodes), fault(ChmodOp(p)), p, mode)
    {
      var r := Chmod(nodes, fault(ChmodOp(p)), p, mode);
      nodes, err := r.nodes, r.err;
    }
  }
}
