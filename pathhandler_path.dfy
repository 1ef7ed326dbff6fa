/**
 * pathhandler.handlePath and HandlePath: a PathHandler is notified of a
 * path, then asked to process the walk error for it and, when that
 * succeeds, the path itself. The calls are recorded as a trace.
 */
module PathHandlerPath {
  import opened Wrappers

  /** The calls a PathHandler receives. */
  datatype PathCall<E> = NotifyPath(path: string) | ProcessError(err: Option<E>, path: string) | ProcessPath(path: string)

  /** A PathHandler, as the answers of its two methods that can fail; NotifyPath has no answer. */
  datatype PathHandler<!E> = PathHandler(processError: (Option<E>, string) -> Option<E>, processPath: string -> Option<E>)

  /** A RawPathHandler: a PathHandler that also maps the raw path to the one it handles. */
  datatype RawPathHandler<!E> = RawPathHandler(handler: PathHandler<E>, extractPath: string -> string)

  /** What handling one path does: the calls in order, and the error returned. */
  datatype Handled<E> = Handled(trace: seq<PathCall<E>>, err: Option<E>)

  /**
   * handlePath: NotifyPath first, since it cannot fail; then
   * ProcessError, whose error stops the handling; then ProcessPath,
   * whose error is returned.
   */
  function HandlePathWith<E>(ph: PathHandler<E>, path: string, err: Option<E>): (r: Handled<E>)
    ensures |r.trace| >= 2 && r.trace[0] == NotifyPath(path) && r.trace[1] == ProcessError(err, path)
    ensures ph.processError(err, path).Some? ==> r == Handled(r.trace[..2], ph.processError(err, path))
    ensures ProcessPath(path) in r.trace <==> ph.processError(err, path).None?
    ensures ph.processError(err, path).None? ==> |r.trace| == 3 && r.err == ph.processPath(path)
    ensures r.err.None? <==> ph.processError(err, path).None? && ph.processPath(path).None?
  {
    var notified := [NotifyPath(path), ProcessError(err, path)];
    var e := ph.processError(err, path);
    if e.Some? then Handled(notified, e)
    else Handled(notified + [ProcessPath(path)], ph.processPath(path))
  }

  /** HandlePath: the handler is given the path its ExtractPath makes of the raw one. */
  function HandlePath<E>(ph: RawPathHandler<E>, path: string, err: Option<E>): (r: Handled<E>)
    ensures r == HandlePathWith(ph.handler, ph.extractPath(path), err)
    ensures r.trace[0] == NotifyPath(ph.extractPath(path))
  {
    HandlePathWith(ph.handler, ph.extractPath(path), err)
  }

  /** NopPathHandler: both answers succeed. */
  function NopPathHandler<E(!new)>(): (ph: PathHandler<E>)
    ensures forall e, p :: ph.processError(e, p).None?
    ensures forall p :: ph.processPath(p).None?
  {
    PathHandler((e: Option<E>, p: string) => None, (p: string) => None)
  }

  /** NopRawPathHandler: the Nop handler, with ExtractPath the identity. */
  function NopRawPathHandler<E(!new)>(): (ph: RawPathHandler<E>)
    ensures forall p :: ph.extractPath(p) == p
  {
    RawPathHandler(NopPathHandler(), (p: string) => p)
  }

  /** The Nop raw handler makes all three calls on the path as given, even for a walk error, and succeeds. */
  lemma HandlePathNop<E(!new)>(path: string, err: Option<E>)
    ensures HandlePath(NopRawPathHandler(), path, err)
            == Handled([NotifyPath(path), ProcessError(err, path), ProcessPath(path)], None)
  {
  }
}
