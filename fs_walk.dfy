/**
 * fs.FileTracker: a file handler that records every file it is handed,
 * regular files in one map and everything else in another.
 */
module FsWalk {
  import opened Wrappers
  import opened FileModes
  import opened PathHandlerFile

  /** The two maps of a FileTracker. */
  datatype Tracked = Tracked(regular: map<string, OsFileInfo>, irregular: map<string, OsFileInfo>)

  /** What one handler call records: regular files in `regular`, every other kind in `irregular`. */
  function Record(t: Tracked, c: Call): (r: Tracked)
    ensures c.handler == HandleRegular ==> c.path in r.regular && r.regular[c.path] == c.finfo && r.irregular == t.irregular
    ensures c.handler != HandleRegular ==> c.path in r.irregular && r.irregular[c.path] == c.finfo && r.regular == t.regular
    ensures r.regular.Keys <= t.regular.Keys + {c.path} && r.irregular.Keys <= t.irregular.Keys + {c.path}
    ensures forall p :: p != c.path && p in r.regular ==> r.regular[p] == t.regular[p]
    ensures forall p :: p != c.path && p in r.irregular ==> r.irregular[p] == t.irregular[p]
  {
    if c.handler == HandleRegular then t.(regular := t.regular[c.path := c.finfo])
    else t.(irregular := t.irregular[c.path := c.finfo])
  }

  /** The tracker after a sequence of calls, in order. */
  function RecordAll(t: Tracked, calls: seq<Call>): Tracked
    decreases |calls|
  {
    if calls == [] then t else RecordAll(Record(t, calls[0]), calls[1..])
  }

  /** The handler side of the tracker: it never fails. */
  function Answer<E>(c: Call): (r: Option<E>)
    ensures r.None?
  {
    None
  }

  /** A file handed over through HandleFile lands in `regular` exactly when its mode is routed to HandleRegular. */
  lemma HandleFileTracks(t: Tracked, path: string, finfo: OsFileInfo)
    ensures var r := Record(t, HandleFile<string>(Answer, path, finfo).0);
      && (Route(finfo.mode) == HandleRegular ==> path in r.regular && r.regular[path] == finfo && r.irregular == t.irregular)
      && (Route(finfo.mode) != HandleRegular ==> path in r.irregular && r.irregular[path] == finfo && r.regular == t.regular)
    ensures HandleFile<string>(Answer, path, finfo).1.None?
  {
  }

  /** The paths of the calls made to HandleRegular (`regular`) or to any other method (`!regular`). */
  function Paths(calls: seq<Call>, regular: bool): set<string>
    decreases |calls|
  {
    if calls == [] then {}
    else (if (calls[0].handler == HandleRegular) == regular then {calls[0].path} else {}) + Paths(calls[1..], regular)
  }

  /** A path is among Paths exactly when some call of that kind names it. */
  lemma {:induction false} PathsExact(calls: seq<Call>, regular: bool, p: string)
    ensures p in Paths(calls, regular) <==>
            exists i :: 0 <= i < |calls| && (calls[i].handler == HandleRegular) == regular && calls[i].path == p
    decreases |calls|
  {
    if calls != [] {
      PathsExact(calls[1..], regular, p);
      if p in Paths(calls[1..], regular) {
        var i :| 0 <= i < |calls[1..]| && (calls[1..][i].handler == HandleRegular) == regular && calls[1..][i].path == p;
        assert calls[i + 1] == calls[1..][i];
      } else if exists i :: 0 <= i < |calls| && (calls[i].handler == HandleRegular) == regular && calls[i].path == p {
        var i :| 0 <= i < |calls| && (calls[i].handler == HandleRegular) == regular && calls[i].path == p;
        if i > 0 {
          assert calls[1..][i - 1] == calls[i];
        }
      }
    }
  }

  /**
   * After a sequence of calls, the regular map's keys are its old keys
   * and the paths of the HandleRegular calls; the irregular map's keys
   * its old keys and the paths of every other call.
   */
  lemma {:induction false} RecordAllKeys(t: Tracked, calls: seq<Call>)
    ensures RecordAll(t, calls).regular.Keys == t.regular.Keys + Paths(calls, true)
    ensures RecordAll(t, calls).irregular.Keys == t.irregular.Keys + Paths(calls, false)
    decreases |calls|
  {
    if calls != [] {
      RecordAllKeys(Record(t, calls[0]), calls[1..]);
    }
  }

  /** The final call's path holds the final call's info. */
  lemma {:induction false} RecordAllLastWins(t: Tracked, calls: seq<Call>)
    requires calls != []
    ensures var c := calls[|calls| - 1]; var r := RecordAll(t, calls);
      if c.handler == HandleRegular then c.path in r.regular && r.regular[c.path] == c.finfo
      else c.path in r.irregular && r.irregular[c.path] == c.finfo
    decreases |calls|
  {
    if |calls| > 1 {
      RecordAllLastWins(Record(t, calls[0]), calls[1..]);
    }
  }

  /** Calls that do not name p leave both maps at p as they were. */
  lemma {:induction false} RecordAllUntouched(t: Tracked, calls: seq<Call>, p: string)
    requires forall j :: 0 <= j < |calls| ==> calls[j].path != p
    ensures p in t.regular ==> p in RecordAll(t, calls).regular && RecordAll(t, calls).regular[p] == t.regular[p]
    ensures p in t.irregular ==> p in RecordAll(t, calls).irregular && RecordAll(t, calls).irregular[p] == t.irregular[p]
    decreases |calls|
  {
    if calls != [] {
      assert forall j :: 0 <= j < |calls[1..]| ==> calls[1..][j] == calls[j + 1];
      RecordAllUntouched(Record(t, calls[0]), calls[1..], p);
    }
  }

  /**
   * The last call that names a path decides what the tracker holds for
   * it, in the map of that call's kind.
   */
  lemma {:induction false} RecordAllLastNamed(t: Tracked, calls: seq<Call>, i: nat)
    requires i < |calls|
    requires forall j :: i < j < |calls| ==> calls[j].path != calls[i].path
    ensures var c := calls[i]; var r := RecordAll(t, calls);
      if c.handler == HandleRegular then c.path in r.regular && r.regular[c.path] == c.finfo
      else c.path in r.irregular && r.irregular[c.path] == c.finfo
    decreases |calls|
  {
    assert forall j :: 0 <= j < |calls[1..]| ==> calls[1..][j] == calls[j + 1];
    if i == 0 {
      RecordAllUntouched(Record(t, calls[0]), calls[1..], calls[0].path);
    } else {
      RecordAllLastNamed(Record(t, calls[0]), calls[1..], i - 1);
    }
  }

  /** The FileTracker; the maps are its fields, which each handler method updates in place. */
  class FileTracker {
    var regular: map<string, OsFileInfo>
    var irregular: map<string, OsFileInfo>

    function State(): Tracked
      reads this
    {
      Tracked(regular, irregular)
    }

    /** NewFileTracker: both maps empty. */
    constructor ()
      ensures regular == map[] && irregular == map[]
    {
      regular, irregular := map[], map[];
    }

    method HandleRegular(filename: string, finfo: OsFileInfo) returns (err: Option<string>)
      modifies this
      ensures State() == Record(old(State()), Call(PathHandlerFile.HandleRegular, filename, finfo))
      ensures err.None?
    {
      regular := regular[filename := finfo];
      err := None;
    }

    method HandleDir(dirname: string, finfo: OsFileInfo) returns (err: Option<string>)
      modifies this
      ensures State() == Record(old(State()), Call(PathHandlerFile.HandleDir, dirname, finfo))
      ensures err.None?
    {
      irregular := irregular[dirname := finfo];
      err := None;
    }

    method HandleSymlink(path: string, finfo: OsFileInfo) returns (err: Option<string>)
      modifies this
      ensures State() == Record(old(State()), Call(PathHandlerFile.HandleSymlink, path, finfo))
      ensures err.None?
    {
      irregular := irregular[path := finfo];
      err := None;
    }

    method HandleNamedPipe(path: string, finfo: OsFileInfo) returns (err: Option<string>)
      modifies this
      ensures State() == Record(old(State()), Call(PathHandlerFile.HandleNamedPipe, path, finfo))
      ensures err.None?
    {
      irregular := irregular[path := finfo];
      err := None;
    }

    method HandleSocket(path: string, finfo: OsFileInfo) returns (err: Option<string>)
      modifies this
      ensures State() == Record(old(State()), Call(PathHandlerFile.HandleSocket, path, finfo))
      ensures err.None?
    {
      irregular := irregular[path := finfo];
      err := None;
    }

    method HandleDevice(path: string, finfo: OsFileInfo) returns (err: Option<string>)
      modifies this
      ensures State() == Record(old(State()), Call(PathHandlerFile.HandleDevice, path, finfo))
      ensures err.None?
    {
      irregular := irregular[path := finfo];
      err := None;
    }
  }
}
