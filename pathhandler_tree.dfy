/**
 * pathhandler.TreeHandler: a PathHandler for the paths under a root,
 * which it hands on relative to that root.
 */
module PathHandlerTree {
  import Strings
  import opened Wrappers
  import opened PathHandlerPath

  /** A TreeHandler: the wrapped handler, the root, and the normaliser giving a path and its separator. */
  datatype TreeHandler<!E> = TreeHandler(handler: PathHandler<E>, rootPath: string, normalizePath: string -> (string, string))

  /**
   * NewTreeHandler: the default normaliser is path.Clean of
   * filepath.ToSlash, with "/" as the separator; `clean` and `toSlash`
   * stand for those two functions.
   */
  function NewTreeHandler<E>(rootPath: string, handler: PathHandler<E>, clean: string -> string, toSlash: string -> string)
    : (th: TreeHandler<E>)
    ensures th.handler == handler && th.rootPath == rootPath
    ensures forall p :: th.normalizePath(p) == (clean(toSlash(p)), "/")
  {
    TreeHandler(handler, rootPath, (p: string) => (clean(toSlash(p)), "/"))
  }

  /**
   * ExtractPath: the normalised path with the root removed if it starts
   * with it, and then the separator removed if what is left starts with it.
   */
  function ExtractPath<E>(th: TreeHandler<E>, path: string): (r: string)
    ensures var (n, sep) := th.normalizePath(path);
            var rest := Strings.TrimPrefix(n, th.rootPath);
            && (Strings.HasPrefix(n, th.rootPath) ==> th.rootPath + rest == n)
            && (!Strings.HasPrefix(n, th.rootPath) ==> rest == n)
            && (Strings.HasPrefix(rest, sep) ==> sep + r == rest)
            && (!Strings.HasPrefix(rest, sep) ==> r == rest)
  {
    var (n, sep) := th.normalizePath(path);
    Strings.TrimPrefix(Strings.TrimPrefix(n, th.rootPath), sep)
  }

  /** A path that normalises to the root, a separator and a relative path is handed on as the relative path. */
  lemma ExtractUnderRoot<E>(th: TreeHandler<E>, path: string, rel: string)
    requires th.normalizePath(path) == (th.rootPath + th.normalizePath(path).1 + rel, th.normalizePath(path).1)
    ensures ExtractPath(th, path) == rel
  {
    var (n, sep) := th.normalizePath(path);
    assert n[..|th.rootPath|] == th.rootPath;
    var rest := n[|th.rootPath|..];
    assert rest == sep + rel;
    assert rest[..|sep|] == sep;
  }

  /** A path that normalises to something outside the root is handed on whole, less a leading separator. */
  lemma ExtractOutsideRoot<E>(th: TreeHandler<E>, path: string)
    requires !Strings.HasPrefix(th.normalizePath(path).0, th.rootPath)
    ensures ExtractPath(th, path) == Strings.TrimPrefix(th.normalizePath(path).0, th.normalizePath(path).1)
  {
  }

  /** The root itself is handed on as the empty path. */
  lemma ExtractAtRoot<E>(th: TreeHandler<E>, path: string)
    requires th.normalizePath(path).0 == th.rootPath
    ensures ExtractPath(th, path) == ""
  {
    var (n, sep) := th.normalizePath(path);
    assert n[..|th.rootPath|] == th.rootPath;
    assert Strings.TrimPrefix(n, th.rootPath) == "";
  }

  /** The root is matched by characters, not by path segments: under root "/a", "/ab" becomes "b". */
  lemma ExtractMatchesCharacters<E>(th: TreeHandler<E>, path: string)
    requires th.rootPath == "/a" && th.normalizePath(path) == ("/ab", "/")
    ensures ExtractPath(th, path) == "b"
  {
    assert Strings.HasPrefix("/ab", "/a");
    assert Strings.TrimPrefix("/ab", "/a") == "b";
    assert "b"[..1][0] != "/"[0];
    assert !Strings.HasPrefix("b", "/");
  }

  /** The TreeHandler as a RawPathHandler: its own ExtractPath in front of the wrapped handler. */
  function AsRaw<E>(th: TreeHandler<E>): (ph: RawPathHandler<E>)
    ensures ph.handler == th.handler
    ensures forall p :: ph.extractPath(p) == ExtractPath(th, p)
  {
    RawPathHandler(th.handler, (p: string) => ExtractPath(th, p))
  }

  /** Handling a raw path through a TreeHandler handles its extracted path. */
  lemma HandleThroughTree<E>(th: TreeHandler<E>, path: string, err: Option<E>)
    ensures HandlePath(AsRaw(th), path, err) == HandlePathWith(th.handler, ExtractPath(th, path), err)
  {
  }
}
