/**
 * What the archiving side of the tar helper puts into an archive,
 * stated against the tree: which entries, in which order, and when the
 * walk fails.
 */
module TarWalk {
  import opened Wrappers
  import opened Os
  import opened TarFormat
  import opened Tar

  /** The walk of a tree fails exactly when the tree is not healthy. */
  lemma {:induction false} WalkSucceedsIffHealthy(log: seq<Entry>, node: Node, path: string, strip: string)
    ensures Walk(log, node, path, strip).err.None? <==> Healthy(node)
    decreases node, 1
  {
    if node.Dir? {
      WalkChildrenSucceedsIff(log + [SelfEntry(node, path, strip)], node, path, strip, 0);
    }
  }

  /** The walk of the children from the `i`-th on fails exactly when one of them is not healthy or the listing fails. */
  lemma {:induction false} WalkChildrenSucceedsIff(log: seq<Entry>, dir: Node, path: string, strip: string, i: nat)
    requires dir.Dir? && i <= |dir.children|
    ensures WalkChildren(log, dir, path, strip, i).err.None?
            <==> dir.listErr.None? && forall k :: i <= k < |dir.children| ==> Healthy(dir.children[k].node)
    decreases dir, 0, |dir.children| - i
  {
    if i < |dir.children| {
      var c := dir.children[i];
      WalkChildrenStep(log, dir, path, strip, i);
      WalkSucceedsIffHealthy(log, c.node, Join(path, c.name), strip);
      var first := Walk(log, c.node, Join(path, c.name), strip);
      if first.err.None? {
        WalkChildrenSucceedsIff(first.entries, dir, path, strip, i + 1);
      }
    }
  }

  /**
   * A file or a link is archived as its own entry alone; in particular
   * a symbolic link is never descended into, whatever it points to.
   */
  lemma WalkLeaf(node: Node, path: string, strip: string)
    requires !node.Dir? && HasEntry(node)
    ensures Walk([], node, path, strip).entries == [SelfEntry(node, path, strip)]
    ensures node.Symlink? ==> Walk([], node, path, strip).err.None?
  {
  }

  /**
   * The pre-order: a directory's own entry first, then the walks of its
   * children in listing order, the first failing child ending the walk.
   */
  lemma WalkDirOrder(dir: Node, path: string, strip: string)
    requires dir.Dir?
    ensures Walk([], dir, path, strip).entries == [SelfEntry(dir, path, strip)] + WalkChildren([], dir, path, strip, 0).entries
    ensures Walk([], dir, path, strip).err == WalkChildren([], dir, path, strip, 0).err
  {
    var self := [SelfEntry(dir, path, strip)];
    assert [] + self == self;
    WalkChildrenExtends(self, dir, path, strip, 0);
  }

  /** The children's walk: the `i`-th child's walk, then, if it succeeded, the walk of the later children. */
  lemma WalkChildrenOrder(dir: Node, path: string, strip: string, i: nat)
    requires dir.Dir? && i < |dir.children|
    ensures var c := dir.children[i];
            var first := Walk([], c.node, Join(path, c.name), strip);
            var rest := WalkChildren([], dir, path, strip, i + 1);
            WalkChildren([], dir, path, strip, i)
            == if first.err.Some? then first else WalkResult(first.entries + rest.entries, rest.err)
  {
    var c := dir.children[i];
    WalkChildrenStep([], dir, path, strip, i);
    var first := Walk([], c.node, Join(path, c.name), strip);
    WalkChildrenExtends(first.entries, dir, path, strip, i + 1);
  }

  /** Every entry of the walk is the own entry of a node found in the tree, at the path it is found at. */
  lemma {:induction false} WalkSound(node: Node, path: string, strip: string)
    ensures forall e :: e in Walk([], node, path, strip).entries ==>
              exists q, m :: Reaches(node, path, q, m) && HasEntry(m) && e == SelfEntry(m, q, strip)
    decreases node, 1
  {
    var w := Walk([], node, path, strip);
    if node.Dir? {
      WalkDirOrder(node, path, strip);
      WalkChildrenSound(node, path, strip, 0);
      forall e | e in w.entries
        ensures exists q, m :: Reaches(node, path, q, m) && HasEntry(m) && e == SelfEntry(m, q, strip)
      {
        if e != SelfEntry(node, path, strip) {
          var k, q, m :| 0 <= k < |node.children|
                         && Reaches(node.children[k].node, Join(path, node.children[k].name), q, m)
                         && HasEntry(m) && e == SelfEntry(m, q, strip);
          assert Reaches(node, path, q, m);
        } else {
          assert Reaches(node, path, path, node);
        }
      }
    } else if HasEntry(node) {
      assert Reaches(node, path, path, node);
    }
  }

  /** Every entry of the walk of the children comes from under one of them. */
  lemma {:induction false} WalkChildrenSound(dir: Node, path: string, strip: string, i: nat)
    requires dir.Dir? && i <= |dir.children|
    ensures forall e :: e in WalkChildren([], dir, path, strip, i).entries ==>
              exists k, q, m :: i <= k < |dir.children|
                                && Reaches(dir.children[k].node, Join(path, dir.children[k].name), q, m)
                                && HasEntry(m) && e == SelfEntry(m, q, strip)
    decreases dir, 0, |dir.children| - i
  {
    if i < |dir.children| {
      var c := dir.children[i];
      WalkChildrenOrder(dir, path, strip, i);
      WalkSound(c.node, Join(path, c.name), strip);
      WalkChildrenSound(dir, path, strip, i + 1);
    }
  }

  /** Every node of a healthy tree is archived, with its own entry at the path it is found at. */
  lemma {:induction false} WalkCovers(node: Node, path: string, strip: string, q: string, m: Node)
    requires Healthy(node) && Reaches(node, path, q, m)
    ensures HasEntry(m) && SelfEntry(m, q, strip) in Walk([], node, path, strip).entries
    decreases node
  {
    if q == path && m == node {
      if node.Dir? {
        WalkDirOrder(node, path, strip);
      }
    } else {
      var k :| 0 <= k < |node.children| && Reaches(node.children[k].node, Join(path, node.children[k].name), q, m);
      var c := node.children[k];
      WalkCovers(c.node, Join(path, c.name), strip, q, m);
      WalkDirOrder(node, path, strip);
      ChildInWalk(node, path, strip, 0, k, SelfEntry(m, q, strip));
    }
  }

  /** In the walk of healthy children, the `j`-th child's entries appear among those from the `i`-th on. */
  lemma {:induction false} ChildInWalk(dir: Node, path: string, strip: string, i: nat, j: nat, e: Entry)
    requires dir.Dir? && i <= j < |dir.children|
    requires forall k :: 0 <= k < |dir.children| ==> Healthy(dir.children[k].node)
    requires e in Walk([], dir.children[j].node, Join(path, dir.children[j].name), strip).entries
    ensures e in WalkChildren([], dir, path, strip, i).entries
    decreases j - i
  {
    var c := dir.children[i];
    WalkChildrenOrder(dir, path, strip, i);
    WalkSucceedsIffHealthy([], c.node, Join(path, c.name), strip);
    if i < j {
      ChildInWalk(dir, path, strip, i + 1, j, e);
    }
  }

  /** Each entry of the walk is well formed: its content is as long as its header says. */
  lemma WalkWellFormed(node: Node, path: string, strip: string)
    ensures forall e :: e in Walk([], node, path, strip).entries ==> WellFormed(e)
  {
    WalkSound(node, path, strip);
  }

  /** Archive extends the archive it is given: `log`, then the entries of the roots. */
  lemma {:induction false} ArchiveExtends(log: seq<Entry>, fs: map<string, Node>, roots: seq<string>, strip: string)
    ensures Archive(log, fs, roots, strip)
            == WalkResult(log + Archive([], fs, roots, strip).entries, Archive([], fs, roots, strip).err)
    decreases |roots|
  {
    if roots == [] {
      assert log + [] == log;
    } else {
      var root := Lookup(fs, roots[0]);
      WalkExtends(log, root, roots[0], strip);
      var first := Walk([], root, roots[0], strip);
      assert [] + first.entries == first.entries;
      WalkExtends([], root, roots[0], strip);
      if first.err.None? {
        var rest := Archive([], fs, roots[1..], strip);
        ArchiveExtends(log + first.entries, fs, roots[1..], strip);
        ArchiveExtends(first.entries, fs, roots[1..], strip);
        assert (log + first.entries) + rest.entries == log + (first.entries + rest.entries);
      }
    }
  }

  /**
   * The roots are archived in order: the first root's walk, then the
   * other roots, unless the first root fails, which ends the archive
   * with its error wrapped.
   */
  lemma ArchiveOrder(fs: map<string, Node>, roots: seq<string>, strip: string)
    requires roots != []
    ensures var first := Walk([], Lookup(fs, roots[0]), roots[0], strip);
            var rest := Archive([], fs, roots[1..], strip);
            Archive([], fs, roots, strip)
            == if first.err.Some? then WalkResult(first.entries, Some(WriteFailed(first.err.value)))
               else WalkResult(first.entries + rest.entries, rest.err)
  {
    var first := Walk([], Lookup(fs, roots[0]), roots[0], strip);
    ArchiveExtends(first.entries, fs, roots[1..], strip);
  }

  /** The archive succeeds exactly when every root is healthy. */
  lemma {:induction false} ArchiveSucceedsIff(fs: map<string, Node>, roots: seq<string>, strip: string)
    ensures Archive([], fs, roots, strip).err.None? <==> forall i :: 0 <= i < |roots| ==> Healthy(Lookup(fs, roots[i]))
    decreases |roots|
  {
    if roots != [] {
      ArchiveOrder(fs, roots, strip);
      WalkSucceedsIffHealthy([], Lookup(fs, roots[0]), roots[0], strip);
      ArchiveSucceedsIff(fs, roots[1..], strip);
      assert forall i :: 1 <= i < |roots| ==> roots[i] == roots[1..][i - 1];
    }
  }

  /** A failing archive carries the wrapped walk error of its first unhealthy root. */
  lemma {:induction false} ArchiveFirstFailure(fs: map<string, Node>, roots: seq<string>, strip: string)
    requires Archive([], fs, roots, strip).err.Some?
    ensures exists i :: && 0 <= i < |roots|
                        && (forall k :: 0 <= k < i ==> Healthy(Lookup(fs, roots[k])))
                        && Walk([], Lookup(fs, roots[i]), roots[i], strip).err.Some?
                        && Archive([], fs, roots, strip).err
                           == Some(WriteFailed(Walk([], Lookup(fs, roots[i]), roots[i], strip).err.value))
    decreases |roots|
  {
    ArchiveOrder(fs, roots, strip);
    var first := Walk([], Lookup(fs, roots[0]), roots[0], strip);
    if first.err.None? {
      WalkSucceedsIffHealthy([], Lookup(fs, roots[0]), roots[0], strip);
      ArchiveFirstFailure(fs, roots[1..], strip);
      var rest := roots[1..];
      var i :| && 0 <= i < |rest|
               && (forall k :: 0 <= k < i ==> Healthy(Lookup(fs, rest[k])))
               && Walk([], Lookup(fs, rest[i]), rest[i], strip).err.Some?
               && Archive([], fs, rest, strip).err == Some(WriteFailed(Walk([], Lookup(fs, rest[i]), rest[i], strip).err.value));
      assert forall k :: 1 <= k < i + 1 ==> roots[k] == rest[k - 1];
      assert roots[i + 1] == rest[i];
    }
  }

  /** Every node found under a root of a healthy root list is archived, at the path it is found at. */
  lemma {:induction false} ArchiveCovers(fs: map<string, Node>, roots: seq<string>, strip: string, i: nat, q: string, m: Node)
    requires forall k :: 0 <= k < |roots| ==> Healthy(Lookup(fs, roots[k]))
    requires i < |roots| && Reaches(Lookup(fs, roots[i]), roots[i], q, m)
    ensures HasEntry(m) && SelfEntry(m, q, strip) in Archive([], fs, roots, strip).entries
    decreases i
  {
    ArchiveOrder(fs, roots, strip);
    WalkSucceedsIffHealthy([], Lookup(fs, roots[0]), roots[0], strip);
    if i == 0 {
      WalkCovers(Lookup(fs, roots[0]), roots[0], strip, q, m);
    } else {
      assert roots[1..][i - 1] == roots[i];
      assert forall k :: 0 <= k < |roots[1..]| ==> roots[1..][k] == roots[k + 1];
      ArchiveCovers(fs, roots[1..], strip, i - 1, q, m);
    }
  }

  /** Every entry of the archive is the own entry of a node found under one of the roots. */
  lemma {:induction false} ArchiveSound(fs: map<string, Node>, roots: seq<string>, strip: string)
    ensures forall e :: e in Archive([], fs, roots, strip).entries ==>
              exists i, q, m :: 0 <= i < |roots| && Reaches(Lookup(fs, roots[i]), roots[i], q, m)
                                && HasEntry(m) && e == SelfEntry(m, q, strip)
    decreases |roots|
  {
    if roots != [] {
      ArchiveOrder(fs, roots, strip);
      WalkSound(Lookup(fs, roots[0]), roots[0], strip);
      ArchiveSound(fs, roots[1..], strip);
      forall e | e in Archive([], fs, roots, strip).entries
        ensures exists i, q, m :: 0 <= i < |roots| && Reaches(Lookup(fs, roots[i]), roots[i], q, m)
                                  && HasEntry(m) && e == SelfEntry(m, q, strip)
      {
        if e !in Walk([], Lookup(fs, roots[0]), roots[0], strip).entries {
          var i, q, m :| 0 <= i < |roots[1..]| && Reaches(Lookup(fs, roots[1..][i]), roots[1..][i], q, m)
                         && HasEntry(m) && e == SelfEntry(m, q, strip);
          assert roots[1..][i] == roots[i + 1];
        } else {
          var q, m :| Reaches(Lookup(fs, roots[0]), roots[0], q, m) && HasEntry(m) && e == SelfEntry(m, q, strip);
          assert 0 < |roots|;
        }
      }
    }
  }
}
