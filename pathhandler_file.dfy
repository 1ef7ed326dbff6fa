/**
 * pathhandler.HandleFile: a file is passed to exactly one method of a
 * FileHandler, chosen by the type bits of its mode.
 */
module PathHandlerFile {
  import opened Wrappers
  import opened FileModes

  /** The six methods of a FileHandler. */
  datatype HandlerMethod = HandleDir | HandleSymlink | HandleRegular | HandleNamedPipe | HandleSocket | HandleDevice

  /** One call of a handler method: which method, with which path and file information. */
  datatype Call = Call(handler: HandlerMethod, path: string, finfo: OsFileInfo)

  /**
   * A FileHandler, as the answer each of its methods gives; `E` is the
   * error type. The handlers here keep no state of their own beyond
   * what a caller records from the calls.
   */
  type FileHandler<E> = Call -> Option<E>

  /** The method a mode is routed to: by its type bits alone, with anything but a single known type going to HandleRegular. */
  function Route(mode: FileMode): (m: HandlerMethod)
    ensures mode & ModeType == ModeDir <==> m == HandleDir
    ensures mode & ModeType == ModeSymlink <==> m == HandleSymlink
    ensures mode & ModeType == ModeNamedPipe <==> m == HandleNamedPipe
    ensures mode & ModeType == ModeSocket <==> m == HandleSocket
    ensures mode & ModeType == ModeDevice <==> m == HandleDevice
  {
    var t := mode & ModeType;
    if t == ModeDir then HandleDir
    else if t == ModeSymlink then HandleSymlink
    else if t == ModeNamedPipe then HandleNamedPipe
    else if t == ModeSocket then HandleSocket
    else if t == ModeDevice then HandleDevice
    else HandleRegular
  }

  /** A mode with no type bit (a regular file), or with several (a character device has two), goes to HandleRegular. */
  lemma RouteRegular(mode: FileMode)
    ensures mode & ModeType == 0 ==> Route(mode) == HandleRegular
    ensures mode & ModeType == ModeDevice | ModeCharDevice ==> Route(mode) == HandleRegular
    ensures Route(mode) == Route(mode & ModeType)
  {
  }

  /** The permission bits never influence the routing. */
  lemma RouteIgnoresPermissions(mode: FileMode, perm: FileMode)
    ensures Route((mode & !ModePerm) | (perm & ModePerm)) == Route(mode)
  {
  }

  /** HandleFile: the one call made, and the handler's answer to it returned unchanged. */
  function HandleFile<E>(fh: FileHandler<E>, path: string, finfo: OsFileInfo): (r: (Call, Option<E>))
    ensures r.0 == Call(Route(finfo.mode), path, finfo)
    ensures r.1 == fh(r.0)
  {
    var call := Call(Route(finfo.mode), path, finfo);
    (call, fh(call))
  }

  /** NopFileHandler: every method succeeds and does nothing. */
  function NopFileHandler<E>(c: Call): (r: Option<E>)
    ensures r.None?
  {
    None
  }

  lemma HandleFileNop<E>(path: string, finfo: OsFileInfo)
    ensures HandleFile<E>(NopFileHandler, path, finfo).1.None?
  {
  }
}
