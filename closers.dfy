/**
 * io.Closer helpers: a Closer made from a function, and CloseAll, which
 * closes every closer it is given and gathers the failures into one
 * bulk error keyed by "closer k/n".
 */
module Closers {
  import opened Wrappers
  import opened Strings

  /**
   * An io.Closer as CloseAll uses it: what its Close returns (None for a
   * nil error). NewCloser's wrappingCloser is this with its closeFunc.
   */
  datatype Closer<E> = WrappingCloser(closeFunc: () -> Option<E>)

  /** NewCloser: the function is kept, not called; closing the result answers what the function answers. */
  function NewCloser<E>(closeFunc: () -> Option<E>): (c: Closer<E>)
    ensures c.closeFunc == closeFunc
    ensures Close(c) == closeFunc()
  {
    WrappingCloser(closeFunc)
  }

  /** wrappingCloser.Close */
  function Close<E>(c: Closer<E>): Option<E> {
    c.closeFunc()
  }

  /** The id of the k-th of n closers (k counted from 1), as fmt.Sprintf("closer %d/%d", k, n) prints it. */
  function Id(k: nat, n: nat): string {
    "closer " + Itoa(k) + "/" + Itoa(n)
  }

  /** Ids of different closers of one call differ. */
  lemma IdInjective(j: nat, k: nat, n: nat)
    requires Id(j, n) == Id(k, n)
    ensures j == k
  {
    var a, b := Itoa(j), Itoa(k);
    assert |a| == |b| by {
      assert |Id(j, n)| == 7 + |a| + 1 + |Itoa(n)|;
      assert |Id(k, n)| == 7 + |b| + 1 + |Itoa(n)|;
    }
    assert a == Id(j, n)[7..7 + |a|];
    assert b == Id(k, n)[7..7 + |b|];
    ItoaInjective(j, k);
  }

  /** The ids of n closers, in order. */
  function Ids(n: nat): (ids: seq<string>)
    ensures |ids| == n
    ensures forall i :: 0 <= i < n ==> ids[i] == Id(i + 1, n)
  {
    seq(n, i requires 0 <= i => Id(i + 1, n))
  }

  /** errors.BulkError: the ids it was made with and the errors set against them. */
  datatype BulkError<E> = BulkError(ids: seq<string>, errs: map<string, E>)

  predicate NoErrors<E>(b: BulkError<E>) {
    b.errs == map[]
  }

  /** The indices, in increasing order, of the first n closers whose Close fails. */
  function Failing<E>(closers: seq<Closer<E>>, n: nat): seq<nat>
    requires n <= |closers|
  {
    if n == 0 then []
    else Failing(closers, n - 1) + (if Close(closers[n - 1]).Some? then [n - 1] else [])
  }

  /** The errors set on the bulk error by the first n closers. */
  function Errs<E>(ids: seq<string>, closers: seq<Closer<E>>, n: nat): map<string, E>
    requires n <= |closers| == |ids|
  {
    if n == 0 then map[]
    else
      var m := Errs(ids, closers, n - 1);
      var e := Close(closers[n - 1]);
      if e.Some? then m[ids[n - 1] := e.value] else m
  }

  /** The calls handleErr receives from the first n closers: each failure's id and raw error. */
  function Handled<E>(ids: seq<string>, closers: seq<Closer<E>>, n: nat): seq<(string, E)>
    requires n <= |closers| == |ids|
  {
    if n == 0 then []
    else
      var e := Close(closers[n - 1]);
      Handled(ids, closers, n - 1) + (if e.Some? then [(ids[n - 1], e.value)] else [])
  }

  /**
   * CloseAll. `hasHandler` says whether handleErr is non-nil; `closed`
   * lists the closers whose Close was called, in call order; `handled`
   * lists the calls of handleErr.
   */
  method CloseAll<E>(hasHandler: bool, closers: seq<Closer<E>>)
    returns (err: Option<BulkError<E>>, closed: seq<nat>, handled: seq<(string, E)>)
    ensures |closed| == |closers| && forall i :: 0 <= i < |closed| ==> closed[i] == i
    ensures err.None? <==> forall i :: 0 <= i < |closers| ==> Close(closers[i]).None?
    ensures err.Some? ==> err.value == BulkError(Ids(|closers|), Errs(Ids(|closers|), closers, |closers|))
    ensures handled == if hasHandler then Handled(Ids(|closers|), closers, |closers|) else []
  {
    var n := |closers|;
    var ids: seq<string> := [];
    for i := 0 to n
      invariant |ids| == i
      invariant forall k :: 0 <= k < i ==> ids[k] == Id(k + 1, n)
    {
      ids := ids + [Id(i + 1, n)];
    }
    assert ids == Ids(n);
    var bulk := BulkError(ids, map[]);
    closed, handled := [], [];
    for i := 0 to n
      invariant |closed| == i && forall k :: 0 <= k < i ==> closed[k] == k
      invariant bulk == BulkError(ids, Errs(ids, closers, i))
      invariant handled == if hasHandler then Handled(ids, closers, i) else []
      invariant NoErrors(bulk) <==> forall k :: 0 <= k < i ==> Close(closers[k]).None?
    {
      var e := Close(closers[i]);
      closed := closed + [i];
      if e.Some? {
        var id := ids[i];
        bulk := bulk.(errs := bulk.errs[id := e.value]);
        assert id in bulk.errs;
        if hasHandler {
          handled := handled + [(id, e.value)];
        }
      }
    }
    if !NoErrors(bulk) {
      return Some(bulk), closed, handled;
    }
    return None, closed, handled;
  }

  /** Failing lists exactly the failing closers, in increasing order. */
  lemma {:induction false} FailingExact<E>(closers: seq<Closer<E>>, n: nat)
    requires n <= |closers|
    ensures forall i: nat :: i in Failing(closers, n) <==> i < n && Close(closers[i]).Some?
    ensures forall a, b :: 0 <= a < b < |Failing(closers, n)| ==> Failing(closers, n)[a] < Failing(closers, n)[b]
  {
    if n > 0 {
      FailingExact(closers, n - 1);
      var f := Failing(closers, n - 1);
      forall a | 0 <= a < |f|
        ensures f[a] < n - 1
      {
        assert f[a] in Failing(closers, n - 1);
      }
    }
  }

  /** handleErr is called once per failing closer, in order, with that closer's id and error. */
  lemma {:induction false} HandledAreFailures<E>(ids: seq<string>, closers: seq<Closer<E>>, n: nat)
    requires n <= |closers| == |ids|
    ensures |Handled(ids, closers, n)| == |Failing(closers, n)|
    ensures forall j :: 0 <= j < |Handled(ids, closers, n)| ==>
              var i := Failing(closers, n)[j];
              i < n && Close(closers[i]).Some? && Handled(ids, closers, n)[j] == (ids[i], Close(closers[i]).value)
  {
    if n > 0 {
      HandledAreFailures(ids, closers, n - 1);
      FailingExact(closers, n - 1);
    }
  }

  /** The bulk error holds one entry per failed closer, under that closer's id, and nothing else. */
  lemma {:induction false} ErrsAt<E>(closers: seq<Closer<E>>, n: nat, i: nat)
    requires n <= |closers| && i < n
    ensures Close(closers[i]).Some? ==>
              Id(i + 1, |closers|) in Errs(Ids(|closers|), closers, n)
              && Errs(Ids(|closers|), closers, n)[Id(i + 1, |closers|)] == Close(closers[i]).value
    ensures Close(closers[i]).None? ==> Id(i + 1, |closers|) !in Errs(Ids(|closers|), closers, n)
  {
    var ids := Ids(|closers|);
    if i < n - 1 {
      ErrsAt(closers, n - 1, i);
      if ids[n - 1] == ids[i] {
        IdInjective(n, i + 1, |closers|);
      }
    } else if Id(n, |closers|) in Errs(ids, closers, n - 1) {
      ErrsKeys(closers, n - 1, Id(n, |closers|));
      var k :| 0 <= k < n - 1 && Id(n, |closers|) == Id(k + 1, |closers|) && Close(closers[k]).Some?;
      IdInjective(n, k + 1, |closers|);
    }
  }

  /** Every key of the bulk error is the id of a failed closer. */
  lemma {:induction false} ErrsKeys<E>(closers: seq<Closer<E>>, n: nat, key: string)
    requires n <= |closers|
    requires key in Errs(Ids(|closers|), closers, n)
    ensures exists i :: 0 <= i < n && key == Id(i + 1, |closers|) && Close(closers[i]).Some?
  {
    var ids := Ids(|closers|);
    if key in Errs(ids, closers, n - 1) {
      ErrsKeys(closers, n - 1, key);
    } else {
      assert key == Id(n, |closers|);
    }
  }
}
