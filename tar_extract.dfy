/**
 * What UntarFiles leaves in the destination directory, and the round
 * trip from a tree archived by TarFiles back to the destination.
 */
module TarExtract {
  import opened Wrappers
  import opened Os
  import opened TarFormat
  import opened Tar
  import opened TarWalk

  /** A destination that refuses no operation. */
  ghost predicate NoFault(fault: FsOp -> Option<OsError>) {
    forall op :: fault(op).None?
  }

  /** Where an entry is extracted under `out`. */
  function Target(out: string, e: Entry): string {
    Join(out, e.header.name)
  }

  /**
   * The destination node an entry becomes: a directory, a link to its
   * link name, or a file with its content, with the mode the system
   * makes of os.FileMode(hdr.Mode).
   */
  function Restored(e: Entry): DNode {
    match e.header.typeflag
    case TypeDir => DDir(SysMode(e.header.mode))
    case TypeSymlink => DLink(e.header.linkname)
    case _ => DFile(SysMode(e.header.mode), e.content)
  }

  /** A non-directory entry: UntarFiles makes it with os.Symlink or os.Create, which make no parent directory. */
  predicate NeedsParents(e: Entry) {
    !e.header.typeflag.TypeDir?
  }

  /**
   * Every proper ancestor of the target of entry i is in the destination
   * by the time the entry is extracted: it was there to begin with, or
   * MkdirAll made it for an earlier directory entry.
   */
  predicate AncestorsReady(nodes: map<string, DNode>, out: string, es: seq<Entry>, i: nat)
    requires i < |es|
  {
    var p := Target(out, es[i]);
    forall k :: 0 < k < |p| && p[k] == '/' ==>
      || p[..k] in nodes
      || exists j :: 0 <= j < i && es[j].header.typeflag.TypeDir? && p[..k] in Ancestors(Target(out, es[j]))
  }

  /**
   * Entries whose targets are non-empty, not yet in the destination and
   * not below one of its regular files; none of which lies on the way to
   * the target of an earlier entry (which MkdirAll may already have
   * created); no file entry lies on the way to a later target; and the
   * directories on the way to a file or link target are ready.
   */
  predicate Fresh(nodes: map<string, DNode>, out: string, es: seq<Entry>) {
    && (forall i :: 0 <= i < |es| ==>
          Target(out, es[i]) != "" && Target(out, es[i]) !in nodes && !UnderFile(nodes, Target(out, es[i])))
    && (forall i, j :: 0 <= i < j < |es| ==> Target(out, es[j]) !in Ancestors(Target(out, es[i])))
    && (forall i, j :: 0 <= i < j < |es| && Restored(es[i]).DFile? ==>
          Target(out, es[i]) !in Ancestors(Target(out, es[j])))
    && (forall i :: 0 <= i < |es| && NeedsParents(es[i]) ==> AncestorsReady(nodes, out, es, i))
  }

  /**
   * One entry, applied to a destination that refuses nothing at a fresh
   * target, whose directories exist unless MkdirAll makes them, succeeds
   * and puts the restored node there; nothing that existed changes, a
   * new path lies on the way to the target and is a directory unless it
   * is the target, and after a directory entry every directory on its
   * way exists.
   */
  lemma ApplyEntryRestores(nodes: map<string, DNode>, fault: FsOp -> Option<OsError>, out: string, e: Entry)
    requires NoFault(fault)
    requires Target(out, e) != "" && Target(out, e) !in nodes && !UnderFile(nodes, Target(out, e))
    requires NeedsParents(e) ==> !AncestorMissing(nodes, Target(out, e))
    ensures var o := ApplyEntry(nodes, fault, out, e, None);
            && o.err.None?
            && Target(out, e) in o.nodes && o.nodes[Target(out, e)] == Restored(e)
            && (forall q :: q in nodes ==> q in o.nodes && o.nodes[q] == nodes[q])
            && (forall q :: q in o.nodes && q !in nodes ==> q in Ancestors(Target(out, e)))
            && (forall q :: q in o.nodes && q !in nodes && q != Target(out, e) ==> o.nodes[q].DDir?)
            && (e.header.typeflag.TypeDir? ==> forall q :: q in Ancestors(Target(out, e)) ==> q in o.nodes)
  {
    var p := Target(out, e);
    assert p == p[..|p|] && p in Ancestors(p);
    match e.header.typeflag
    case TypeDir =>
      assert fault(MkdirAllOp(p)).None?;
    case TypeSymlink =>
      assert fault(SymlinkOp(p)).None?;
    case _ =>
      assert fault(CreateOp(p)).None? && fault(WriteOp(p)).None? && fault(ChmodOp(p)).None?;
  }

  /**
   * Extracting fresh entries into a destination that refuses nothing
   * restores every entry at its target, keeps what was there, and ends
   * with the stream's own end error, if any; every other new path lies
   * on the way to some target and is a directory.
   */
  lemma {:induction false} ExtractRestores(nodes: map<string, DNode>, fault: FsOp -> Option<OsError>, out: string,
                                           es: seq<Entry>, end: Option<ReadError>)
    requires NoFault(fault) && Fresh(nodes, out, es)
    ensures var o := Extract(nodes, fault, out, es, end, false);
            && o.err == (if end.Some? then Some(ExtractHeaderFailed(end.value)) else None)
            && (forall i :: 0 <= i < |es| ==> Target(out, es[i]) in o.nodes && o.nodes[Target(out, es[i])] == Restored(es[i]))
            && (forall q :: q in nodes ==> q in o.nodes && o.nodes[q] == nodes[q])
            && (forall q :: q in o.nodes && q !in nodes ==> exists i :: 0 <= i < |es| && q in Ancestors(Target(out, es[i])))
            && (forall q :: q in o.nodes && q !in nodes && !IsTarget(out, es, q) ==> o.nodes[q].DDir?)
    decreases |es|
  {
    if es != [] {
      FreshAfter(nodes, fault, out, es);
      var first := ApplyEntry(nodes, fault, out, es[0], None);
      ExtractRestores(first.nodes, fault, out, es[1..], end);
      FrameStep(nodes, first.nodes, Extract(first.nodes, fault, out, es[1..], end, false).nodes, out, es);
    }
  }

  /**
   * What one entry and then the rest do to the destination adds up: every
   * entry is restored, what was there is kept, and the new paths lie on
   * the way to some target, those that are no target being directories.
   */
  lemma FrameStep(nodes: map<string, DNode>, first: map<string, DNode>, after: map<string, DNode>,
                  out: string, es: seq<Entry>)
    requires es != []
    requires Target(out, es[0]) in first && first[Target(out, es[0])] == Restored(es[0])
    requires forall q :: q in nodes ==> q in first && first[q] == nodes[q]
    requires forall i :: 0 <= i < |es[1..]| ==> Target(out, es[1..][i]) in after && after[Target(out, es[1..][i])] == Restored(es[1..][i])
    requires forall q :: q in first && q !in nodes ==> q in Ancestors(Target(out, es[0]))
    requires forall q :: q in first && q !in nodes && q != Target(out, es[0]) ==> first[q].DDir?
    requires forall q :: q in first ==> q in after && after[q] == first[q]
    requires forall q :: q in after && q !in first ==> exists i :: 0 <= i < |es[1..]| && q in Ancestors(Target(out, es[1..][i]))
    requires forall q :: q in after && q !in first && !IsTarget(out, es[1..], q) ==> after[q].DDir?
    ensures forall i :: 0 <= i < |es| ==> Target(out, es[i]) in after && after[Target(out, es[i])] == Restored(es[i])
    ensures forall q :: q in nodes ==> q in after && after[q] == nodes[q]
    ensures forall q :: q in after && q !in nodes ==> exists i :: 0 <= i < |es| && q in Ancestors(Target(out, es[i]))
    ensures forall q :: q in after && q !in nodes && !IsTarget(out, es, q) ==> after[q].DDir?
  {
    var rest := es[1..];
    forall i | 0 < i < |es|
      ensures Target(out, es[i]) in after && after[Target(out, es[i])] == Restored(es[i])
    {
      assert es[i] == rest[i - 1];
    }
    forall q | q in after && q !in nodes
      ensures exists i :: 0 <= i < |es| && q in Ancestors(Target(out, es[i]))
      ensures !IsTarget(out, es, q) ==> after[q].DDir?
    {
      if q in first {
        assert q in Ancestors(Target(out, es[0]));
      } else {
        var j :| 0 <= j < |rest| && q in Ancestors(Target(out, rest[j]));
        assert rest[j] == es[j + 1];
        if !IsTarget(out, es, q) {
          forall k | 0 <= k < |rest|
            ensures Target(out, rest[k]) != q
          {
            assert rest[k] == es[k + 1];
          }
        }
      }
    }
  }

  /** Some entry is extracted at q. */
  predicate IsTarget(out: string, es: seq<Entry>, q: string) {
    exists i :: 0 <= i < |es| && Target(out, es[i]) == q
  }

  /**
   * Once the first of some fresh entries is applied to a destination that
   * refuses nothing, it is restored, nothing that existed changes, and the
   * rest of the entries are fresh in the new destination.
   */
  lemma FreshAfter(nodes: map<string, DNode>, fault: FsOp -> Option<OsError>, out: string, es: seq<Entry>)
    requires NoFault(fault) && Fresh(nodes, out, es) && es != []
    ensures var first := ApplyEntry(nodes, fault, out, es[0], None);
            && first.err.None?
            && Target(out, es[0]) in first.nodes && first.nodes[Target(out, es[0])] == Restored(es[0])
            && (forall q :: q in nodes ==> q in first.nodes && first.nodes[q] == nodes[q])
            && (forall q :: q in first.nodes && q !in nodes ==> q in Ancestors(Target(out, es[0])))
            && (forall q :: q in first.nodes && q !in nodes && q != Target(out, es[0]) ==> first.nodes[q].DDir?)
            && Fresh(first.nodes, out, es[1..])
  {
    assert NeedsParents(es[0]) ==> AncestorsReady(nodes, out, es, 0);
    ApplyEntryRestores(nodes, fault, out, es[0]);
    var first := ApplyEntry(nodes, fault, out, es[0], None);
    var rest := es[1..];
    assert forall j :: 0 <= j < |rest| ==> rest[j] == es[j + 1];
    NoFileAfter(nodes, first.nodes, out, es);
    ReadyAllAfter(nodes, fault, out, es, first.nodes);
  }

  /** No later target is below a regular file once the first entry is applied. */
  lemma NoFileAfter(nodes: map<string, DNode>, after: map<string, DNode>, out: string, es: seq<Entry>)
    requires Fresh(nodes, out, es) && es != []
    requires forall q :: q in nodes ==> q in after && after[q] == nodes[q]
    requires forall q :: q in after && q !in nodes && q != Target(out, es[0]) ==> after[q].DDir?
    requires Target(out, es[0]) in after && after[Target(out, es[0])] == Restored(es[0])
    ensures forall j :: 1 <= j < |es| ==> !UnderFile(after, Target(out, es[j]))
  {
    forall j | 1 <= j < |es|
      ensures !UnderFile(after, Target(out, es[j]))
    {
      assert Restored(es[0]).DFile? ==> Target(out, es[0]) !in Ancestors(Target(out, es[j]));
      NotUnderFileAfter(nodes, after, out, es[0], Target(out, es[j]));
    }
  }

  /** Every later file or link entry still has its directories ready once the first entry is applied. */
  lemma ReadyAllAfter(nodes: map<string, DNode>, fault: FsOp -> Option<OsError>, out: string, es: seq<Entry>,
                      after: map<string, DNode>)
    requires Fresh(nodes, out, es) && es != []
    requires forall q :: q in nodes ==> q in after
    requires es[0].header.typeflag.TypeDir? ==> forall q :: q in Ancestors(Target(out, es[0])) ==> q in after
    ensures forall j :: 0 <= j < |es| - 1 && NeedsParents(es[1..][j]) ==> AncestorsReady(after, out, es[1..], j)
  {
    forall j | 0 <= j < |es| - 1 && NeedsParents(es[1..][j])
      ensures AncestorsReady(after, out, es[1..], j)
    {
      assert es[1..][j] == es[j + 1];
      ReadyAfter(nodes, fault, out, es, after, j + 1);
    }
  }

  /**
   * The directories ready for entry i are still ready, for the rest of
   * the entries, once the first entry has been applied.
   */
  lemma ReadyAfter(nodes: map<string, DNode>, fault: FsOp -> Option<OsError>, out: string, es: seq<Entry>,
                   after: map<string, DNode>, i: nat)
    requires 0 < i < |es| && AncestorsReady(nodes, out, es, i)
    requires forall q :: q in nodes ==> q in after
    requires es[0].header.typeflag.TypeDir? ==> forall q :: q in Ancestors(Target(out, es[0])) ==> q in after
    ensures AncestorsReady(after, out, es[1..], i - 1)
  {
    var rest := es[1..];
    var p := Target(out, es[i]);
    assert rest[i - 1] == es[i];
    forall k | 0 < k < |p| && p[k] == '/'
      ensures || p[..k] in after
              || exists j :: 0 <= j < i - 1 && rest[j].header.typeflag.TypeDir? && p[..k] in Ancestors(Target(out, rest[j]))
    {
      if p[..k] !in nodes {
        var j :| 0 <= j < i && es[j].header.typeflag.TypeDir? && p[..k] in Ancestors(Target(out, es[j]));
        if j > 0 {
          assert rest[j - 1] == es[j];
        }
      }
    }
  }

  /**
   * A path that was not below a regular file is still not below one
   * after an entry is applied, when the only new non-directory is the
   * entry's target and, if that is a file, it is not on the way to the path.
   */
  lemma NotUnderFileAfter(nodes: map<string, DNode>, after: map<string, DNode>, out: string, e: Entry, p: string)
    requires !UnderFile(nodes, p)
    requires forall q :: q in nodes ==> q in after && after[q] == nodes[q]
    requires forall q :: q in after && q !in nodes && q != Target(out, e) ==> after[q].DDir?
    requires Target(out, e) in after && after[Target(out, e)] == Restored(e)
    requires Restored(e).DFile? ==> Target(out, e) !in Ancestors(p)
    ensures !UnderFile(after, p)
  {
    forall k | 0 < k < |p| && p[k] == '/'
      ensures !(p[..k] in after && after[p[..k]].DFile?)
    {
      if p[..k] in after && p[..k] !in nodes && p[..k] == Target(out, e) {
        assert p[..k] in Ancestors(p);
      }
    }
  }

  /** Nothing can be extracted below a regular file: the first entry fails with ENOTDIR and nothing changes. */
  lemma ExtractBelowFile(nodes: map<string, DNode>, fault: FsOp -> Option<OsError>, out: string, e: Entry,
                         readErr: Option<ReadError>)
    requires NoFault(fault)
    requires out != "" && out in nodes && nodes[out].DFile? && e.header.name != ""
    ensures UnderFile(nodes, Target(out, e))
    ensures ApplyEntry(nodes, fault, out, e, readErr).err.Some?
    ensures ApplyEntry(nodes, fault, out, e, readErr).nodes == nodes
  {
    var p := Target(out, e);
    assert p[|out|] == '/' && p[..|out|] == out;
    assert fault(MkdirAllOp(p)).None? && fault(SymlinkOp(p)).None? && fault(CreateOp(p)).None?;
  }

  /**
   * A file or link entry whose directory is not there fails with
   * ENOENT and changes nothing: only directory entries make the
   * directories on their way.
   */
  lemma ExtractIntoMissingDir(nodes: map<string, DNode>, fault: FsOp -> Option<OsError>, out: string, e: Entry,
                              readErr: Option<ReadError>)
    requires NoFault(fault) && NeedsParents(e)
    requires !UnderFile(nodes, Target(out, e)) && AncestorMissing(nodes, Target(out, e))
    ensures var p := Target(out, e);
            var o := ApplyEntry(nodes, fault, out, e, readErr);
            && o.nodes == nodes
            && o.err == Some(if e.header.typeflag.TypeSymlink?
                             then ExtractSymlinkFailed(e.header.linkname, p, OsError("symlink", p, "no such file or directory"))
                             else ExtractFileFailed(p, CreateFailed(OsError("open", p, "no such file or directory"))))
  {
    var p := Target(out, e);
    assert fault(SymlinkOp(p)).None? && fault(CreateOp(p)).None?;
  }

  /** A file stored as "work/readme.txt" cannot be extracted into an empty "dst": neither directory exists. */
  lemma ExtractNoParents(fault: FsOp -> Option<OsError>, e: Entry)
    requires NoFault(fault) && NeedsParents(e) && !e.header.typeflag.TypeSymlink?
    requires e.header.name == "work/readme.txt"
    ensures Extract(map[], fault, "dst", [e], None, false)
            == Outcome(map[], Some(ExtractFileFailed("dst/work/readme.txt",
                                                     CreateFailed(OsError("open", "dst/work/readme.txt", "no such file or directory")))))
  {
    var none: map<string, DNode> := map[];
    var p := Target("dst", e);
    assert p == "dst/work/readme.txt";
    assert p[3] == '/' && p[..3] !in none;
    ExtractIntoMissingDir(none, fault, "dst", e, None);
  }

  /**
   * A file entry whose content breaks off: the file is created and holds
   * the bytes that were there, keeps the mode os.Create gave it (no
   * chmod), and UntarFiles stops with the read error.
   */
  lemma ExtractTruncatedFile(nodes: map<string, DNode>, fault: FsOp -> Option<OsError>, out: string, e: Entry,
                             err: ReadError)
    requires NoFault(fault)
    requires !e.header.typeflag.TypeDir? && !e.header.typeflag.TypeSymlink?
    requires Target(out, e) != "" && Target(out, e) !in nodes && !UnderFile(nodes, Target(out, e))
    requires !AncestorMissing(nodes, Target(out, e))
    ensures Extract(nodes, fault, out, [e], Some(err), true)
            == Outcome(nodes[Target(out, e) := DFile(CreateMode, e.content)],
                       Some(ExtractFileFailed(Target(out, e), ContentFailed(CopyRead(err)))))
  {
    var p := Target(out, e);
    assert fault(CreateOp(p)).None? && fault(WriteOp(p)).None?;
    assert [] + e.content == e.content;
  }

  /**
   * The destination node a node of the archived tree becomes once
   * extracted. Directories and files keep only their permission bits:
   * setuid, setgid and sticky do not survive the round trip.
   */
  function Extracted(n: Node): DNode
    requires HasEntry(n)
  {
    match n
    case Regular(m, content, _) => DFile(m as int % 0x200, content)
    case Dir(m, _, _) => DDir(m as int % 0x200)
    case Symlink(_, resolved) => DLink(resolved.value)
  }

  /**
   * The round trip: when every root is healthy and the container
   * encoding decodes what the Writer produces, extracting the archive
   * of the roots into a destination that refuses nothing, where every
   * target is fresh and the directories on the way to each file or link
   * are ready, succeeds, and a node `m` found at `q` under root `i` ends
   * up at its stored name under `out`: a directory with its permission
   * bits, a file with its permission bits and content, a link to the
   * path it resolved to.
   */
  lemma ArchiveThenExtract(fs: map<string, Node>, roots: seq<string>, strip: string, codec: Codec,
                           nodes: map<string, DNode>, fault: FsOp -> Option<OsError>, out: string,
                           i: nat, q: string, m: Node)
    requires forall k :: 0 <= k < |roots| ==> Healthy(Lookup(fs, roots[k]))
    requires var es := Archive([], fs, roots, strip).entries;
             codec.decode(ArchiveBytes(codec, es)) == Stream(es, None, false)
    requires NoFault(fault) && Fresh(nodes, out, Archive([], fs, roots, strip).entries)
    requires i < |roots| && Reaches(Lookup(fs, roots[i]), roots[i], q, m)
    ensures var s := codec.decode(ArchiveBytes(codec, Archive([], fs, roots, strip).entries));
            var o := Extract(nodes, fault, out, s.entries, s.end, s.truncated);
            && Archive([], fs, roots, strip).err.None?
            && o.err.None?
            && HasEntry(m)
            && Join(out, EntryName(q, strip)) in o.nodes
            && o.nodes[Join(out, EntryName(q, strip))] == Extracted(m)
  {
    var es := Archive([], fs, roots, strip).entries;
    ArchiveSucceedsIff(fs, roots, strip);
    ExtractRestores(nodes, fault, out, es, None);
    ArchiveCovers(fs, roots, strip, i, q, m);
    RestoredSelf(m, q, strip, out);
    var k :| 0 <= k < |es| && es[k] == SelfEntry(m, q, strip);
  }

  /** A node's own entry is extracted at its stored name as the node it came from. */
  lemma RestoredSelf(m: Node, q: string, strip: string, out: string)
    requires HasEntry(m)
    ensures Target(out, SelfEntry(m, q, strip)) == Join(out, EntryName(q, strip))
    ensures Restored(SelfEntry(m, q, strip)) == Extracted(m)
  {
    match m
    case Regular(mode, _, _) => SpecialBitsDropped(mode);
    case Dir(mode, _, _) => SpecialBitsDropped(mode);
    case Symlink(_, _) =>
  }
}
