/**
 * Go's `os.FileMode` (a uint32) and the `os.FileInfo` values handed
 * to the handlers. The bit positions are those of Go's io/fs package.
 */
module FileModes {

  type FileMode = bv32

  const ModeDir: FileMode := 1 << 31
  const ModeAppend: FileMode := 1 << 30
  const ModeExclusive: FileMode := 1 << 29
  const ModeTemporary: FileMode := 1 << 28
  const ModeSymlink: FileMode := 1 << 27
  const ModeDevice: FileMode := 1 << 26
  const ModeNamedPipe: FileMode := 1 << 25
  const ModeSocket: FileMode := 1 << 24
  const ModeSetuid: FileMode := 1 << 23
  const ModeSetgid: FileMode := 1 << 22
  const ModeCharDevice: FileMode := 1 << 21
  const ModeSticky: FileMode := 1 << 20
  const ModeIrregular: FileMode := 1 << 19

  /** The type bits; none of them is set for a regular file. */
  const ModeType: FileMode :=
    ModeDir | ModeSymlink | ModeNamedPipe | ModeSocket | ModeDevice | ModeCharDevice | ModeIrregular

  /** The Unix permission bits. */
  const ModePerm: FileMode := 0x1FF

  /** FileMode.IsDir */
  predicate IsDirMode(m: FileMode) {
    m & ModeDir != 0
  }

  /** What an `os.FileInfo` reports, as far as the handlers look at it. */
  datatype OsFileInfo = OsFileInfo(name: string, size: int, mode: FileMode)
}
