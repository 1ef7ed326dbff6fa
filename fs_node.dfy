/**
 * fs.NodeInfo: what every kind of file-system node has in common
 * (size, mode, times, owner), the mode each node kind starts with, and
 * the os.FileInfo view of a node under a name.
 */
module FsNode {
  import opened Wrappers
  import opened FileModes

  /** The node kinds and the mode bits each one starts with (nodeKindModes). */
  const KindModes: map<string, FileMode> := map[
    "" := 0,
    "dir" := ModeDir,
    "symlink" := ModeSymlink,
    "device" := ModeDevice,
    "socket" := ModeSocket,
    "namedpipe" := ModeNamedPipe
  ]

  const ModeUnknown: FileMode := 0

  /** The starting mode of a kind: its table entry, or ModeUnknown for a kind the table does not know. */
  function KindMode(kind: string): (m: FileMode)
    ensures kind in KindModes ==> m == KindModes[kind]
    ensures kind !in KindModes ==> m == ModeUnknown
  {
    if kind in KindModes then KindModes[kind] else ModeUnknown
  }

  /** Each known kind starts with exactly its own type bit, a plain file with none, and no kind with permission bits. */
  lemma KindModeTypes(kind: string)
    ensures KindMode(kind) & ModePerm == 0
    ensures KindMode(kind) & ModeType == KindMode(kind)
    ensures kind == "dir" <==> IsDirMode(KindMode(kind))
  {
  }

  /** The mode with its permission bits replaced by those of `perm` and every other bit kept. */
  function WithPermissions(mode: FileMode, perm: FileMode): (r: FileMode)
    ensures r & ModePerm == perm & ModePerm
    ensures r & !ModePerm == mode & !ModePerm
  {
    (!ModePerm & mode) | (ModePerm & perm)
  }

  /** Setting the same permissions twice is setting them once. */
  lemma WithPermissionsIdempotent(mode: FileMode, perm: FileMode)
    ensures WithPermissions(WithPermissions(mode, perm), perm) == WithPermissions(mode, perm)
  {
  }

  /** Only the permission bits of `perm` matter. */
  lemma WithPermissionsIgnoresOtherBits(mode: FileMode, perm: FileMode)
    ensures WithPermissions(mode, perm) == WithPermissions(mode, perm & ModePerm)
  {
  }

  /** A later SetPermissions overrides an earlier one. */
  lemma WithPermissionsOverrides(mode: FileMode, first: FileMode, perm: FileMode)
    ensures WithPermissions(WithPermissions(mode, first), perm) == WithPermissions(mode, perm)
  {
  }

  /** The values of a NodeInfo, as FileInfo copies them. */
  datatype NodeValues = NodeValues(size: int, mode: FileMode, modTime: Time, creationTime: Time,
                                   accessTime: Time, owner: int, group: int)

  class NodeInfo {
    var size: int
    var mode: FileMode
    var modTime: Time
    var creationTime: Time
    var accessTime: Time
    var owner: int
    var group: int

    function Values(): NodeValues
      reads this
    {
      NodeValues(size, mode, modTime, creationTime, accessTime, owner, group)
    }

    /**
     * newNode: a node of the given kind with the kind's mode, zero size,
     * owner and group, and every time set to `now` (time.Now at creation).
     */
    constructor (kind: string, now: Time)
      ensures Values() == NodeValues(0, KindMode(kind), now, now, now, 0, 0)
    {
      size := 0;
      mode := KindMode(kind);
      owner := 0;
      group := 0;
      modTime := now;
      accessTime := now;
      creationTime := now;
    }

    /** Touch: the modification and access times become `now`. */
    method Touch(now: Time) returns (t: Time)
      modifies this`modTime, this`accessTime
      ensures modTime == now && accessTime == now && t == now
    {
      modTime := now;
      accessTime := now;
      return now;
    }

    /** SetPermissions: replaces exactly the permission bits of the mode. */
    method SetPermissions(perm: FileMode)
      modifies this`mode
      ensures mode == WithPermissions(old(mode), perm)
    {
      mode := (!ModePerm & mode) | (ModePerm & perm);
    }

    /** Info: the node as an os.FileInfo under `name`, holding a copy of its values. */
    function Info(name: string): (fi: FileInfo)
      reads this
      ensures fi.name == name && fi.node == Values()
    {
      FileInfo(name, Values())
    }
  }

  /** fs.FileInfo as fs/node.go declares it: a name and a copy of a node's values. */
  datatype FileInfo = FileInfo(name: string, node: NodeValues) {
    function Name(): string { name }
    function Size(): int { node.size }
    function Mode(): FileMode { node.mode }
    function ModTime(): Time { node.modTime }

    /** IsDir: the directory bit of the mode is set. */
    function IsDir(): (r: bool)
      ensures r <==> node.mode & ModeDir != 0
    {
      IsDirMode(node.mode)
    }
  }
}
