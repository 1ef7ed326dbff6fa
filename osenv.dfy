/**
 * OSEnv: a snapshot of an operating-system environment, kept as a map
 * from names to values plus the list of names in the order they were
 * first set.
 */
module OsEnv {
  import opened Wrappers
  import Strings

  /** The contents of a snapshot: the values, and the names in the order they were first set. */
  datatype Env = Env(vars: map<string, string>, names: seq<string>)

  predicate NoDup(ns: seq<string>) {
    forall i, j :: 0 <= i < j < |ns| ==> ns[i] != ns[j]
  }

  /** The snapshot's invariant: `names` lists every key of `vars` exactly once, and nothing else. */
  ghost predicate Consistent(e: Env) {
    && NoDup(e.names)
    && (forall x :: x in e.vars <==> x in e.names)
  }

  /** The value of `name`, or "" when it is not set. */
  function Lookup(e: Env, name: string): string {
    if name in e.vars then e.vars[name] else ""
  }

  /** Set's effect: the value is replaced; a new name goes to the end, an existing one keeps its place. */
  function Put(e: Env, name: string, value: string): Env {
    Env(e.vars[name := value], if name in e.vars then e.names else e.names + [name])
  }

  /** Set keeps the snapshot consistent, sets the one value and leaves every other value as it was. */
  lemma PutEffect(e: Env, name: string, value: string)
    requires Consistent(e)
    ensures Consistent(Put(e, name, value))
    ensures Lookup(Put(e, name, value), name) == value
    ensures forall n :: n != name ==> Lookup(Put(e, name, value), n) == Lookup(e, n)
    ensures name in e.vars ==> Put(e, name, value).names == e.names
    ensures name !in e.vars ==> Put(e, name, value).names == e.names + [name]
  {
    var r := Put(e, name, value);
    if name !in e.vars {
      forall i, j | 0 <= i < j < |r.names| ensures r.names[i] != r.names[j] {
        if j == |e.names| {
          assert e.names[i] in e.vars;
        }
      }
    }
  }

  /**
   * SplitEnvVar: strings.SplitN(s, "=", 2) — the name before the first
   * "=" and the value after it; the whole string and "" when there is no "=".
   */
  function SplitEnvVar(s: string): (r: (string, string))
    ensures '=' !in s ==> r == (s, "")
    ensures '=' in s ==> '=' !in r.0 && r.0 + "=" + r.1 == s
  {
    var i := Strings.IndexOf(s, '=');
    if i.None? then (s, "")
    else
      assert s == s[..i.value] + "=" + s[i.value + 1..];
      (s[..i.value], s[i.value + 1..])
  }

  /** JoinEnvVar: fmt.Sprintf("%s=%s", name, value). */
  function JoinEnvVar(name: string, value: string): string {
    name + "=" + value
  }

  /** Splitting a joined pair gives the pair back when the name holds no "=" (the value may). */
  lemma SplitJoin(name: string, value: string)
    requires '=' !in name
    ensures SplitEnvVar(JoinEnvVar(name, value)) == (name, value)
  {
    var s := JoinEnvVar(name, value);
    assert s[|name|] == '=';
    assert s[..|name|] == name;
  }

  /** Joining a split string gives it back whenever it holds an "=". */
  lemma JoinSplit(s: string)
    requires '=' in s
    ensures JoinEnvVar(SplitEnvVar(s).0, SplitEnvVar(s).1) == s
  {
  }

  /** Update's effect: each raw "name=value" string set in turn. */
  function UpdateAll(e: Env, raw: seq<string>): Env
    decreases |raw|
  {
    if raw == [] then e
    else
      var nv := SplitEnvVar(raw[0]);
      UpdateAll(Put(e, nv.0, nv.1), raw[1..])
  }

  /** UpdateAll over one more string: the last string is applied by Put. */
  lemma {:induction false} UpdateAllSnoc(e: Env, raw: seq<string>, i: nat)
    requires i < |raw|
    ensures UpdateAll(e, raw[..i + 1]) == Put(UpdateAll(e, raw[..i]), SplitEnvVar(raw[i]).0, SplitEnvVar(raw[i]).1)
    decreases i
  {
    var head := SplitEnvVar(raw[0]);
    var e1 := Put(e, head.0, head.1);
    var last := SplitEnvVar(raw[i]);
    if i == 0 {
      calc {
        UpdateAll(e, raw[..1]);
        UpdateAll(e1, raw[..1][1..]);
        { assert raw[..1][1..] == []; }
        e1;
      }
    } else {
      var tail := raw[1..];
      assert tail[i - 1] == raw[i];
      calc {
        UpdateAll(e, raw[..i + 1]);
        UpdateAll(e1, raw[..i + 1][1..]);
        { assert raw[..i + 1][1..] == tail[..i]; }
        UpdateAll(e1, tail[..i]);
        { UpdateAllSnoc(e1, tail, i - 1); }
        Put(UpdateAll(e1, tail[..i - 1]), last.0, last.1);
        { assert raw[..i][1..] == tail[..i - 1]; }
        Put(UpdateAll(e, raw[..i]), last.0, last.1);
      }
    }
  }

  /** The names in `raw` not in `known`, each once, in the order of their first occurrence. */
  function NewNames(known: set<string>, raw: seq<string>): seq<string>
    decreases |raw|
  {
    if raw == [] then []
    else
      var n := SplitEnvVar(raw[0]).0;
      if n in known then NewNames(known, raw[1..]) else [n] + NewNames(known + {n}, raw[1..])
  }

  /** Update keeps the snapshot consistent. */
  lemma {:induction false} UpdateConsistent(e: Env, raw: seq<string>)
    requires Consistent(e)
    ensures Consistent(UpdateAll(e, raw))
    decreases |raw|
  {
    if raw != [] {
      var nv := SplitEnvVar(raw[0]);
      PutEffect(e, nv.0, nv.1);
      UpdateConsistent(Put(e, nv.0, nv.1), raw[1..]);
    }
  }

  /**
   * Update keeps the existing names in place and appends the new ones
   * in the order of their first occurrence: a later duplicate does not
   * move a name.
   */
  lemma {:induction false} UpdateOrder(e: Env, raw: seq<string>)
    ensures UpdateAll(e, raw).names == e.names + NewNames(e.vars.Keys, raw)
    decreases |raw|
  {
    if raw == [] {
      assert e.names + [] == e.names;
    } else {
      var nv := SplitEnvVar(raw[0]);
      var e' := Put(e, nv.0, nv.1);
      var tail := NewNames(e'.vars.Keys, raw[1..]);
      calc {
        UpdateAll(e, raw).names;
        UpdateAll(e', raw[1..]).names;
        { UpdateOrder(e', raw[1..]); }
        e'.names + tail;
      }
      if nv.0 in e.vars {
        assert e'.vars.Keys == e.vars.Keys;
        assert NewNames(e.vars.Keys, raw) == tail;
      } else {
        assert e'.vars.Keys == e.vars.Keys + {nv.0};
        assert NewNames(e.vars.Keys, raw) == [nv.0] + tail;
        assert (e.names + [nv.0]) + tail == e.names + ([nv.0] + tail);
      }
    }
  }

  /** After Update a name holds the value of its last occurrence in `raw`. */
  lemma {:induction false} UpdateLastWins(e: Env, raw: seq<string>, name: string, k: nat)
    requires k < |raw| && SplitEnvVar(raw[k]).0 == name
    requires forall j :: k < j < |raw| ==> SplitEnvVar(raw[j]).0 != name
    ensures name in UpdateAll(e, raw).vars && Lookup(UpdateAll(e, raw), name) == SplitEnvVar(raw[k]).1
    decreases |raw|
  {
    var nv := SplitEnvVar(raw[0]);
    if k == 0 {
      UpdateUntouched(Put(e, nv.0, nv.1), raw[1..], name);
    } else {
      UpdateLastWins(Put(e, nv.0, nv.1), raw[1..], name, k - 1);
    }
  }

  /** A name that does not occur in `raw` keeps its value, or stays unset. */
  lemma {:induction false} UpdateUntouched(e: Env, raw: seq<string>, name: string)
    requires forall j :: 0 <= j < |raw| ==> SplitEnvVar(raw[j]).0 != name
    ensures (name in UpdateAll(e, raw).vars <==> name in e.vars) && Lookup(UpdateAll(e, raw), name) == Lookup(e, name)
    decreases |raw|
  {
    if raw != [] {
      var nv := SplitEnvVar(raw[0]);
      UpdateUntouched(Put(e, nv.0, nv.1), raw[1..], name);
    }
  }

  /** `ns` without its first occurrence of `x`. */
  function RemoveFirst(ns: seq<string>, x: string): seq<string>
    decreases |ns|
  {
    if ns == [] then [] else if ns[0] == x then ns[1..] else [ns[0]] + RemoveFirst(ns[1..], x)
  }

  /** Removing the first occurrence of `x` found at `i`, or nothing when `x` does not occur. */
  lemma {:induction false} RemoveFirstAt(ns: seq<string>, x: string, i: nat)
    requires i <= |ns| && (forall k :: 0 <= k < i ==> ns[k] != x) && (i < |ns| ==> ns[i] == x)
    ensures RemoveFirst(ns, x) == if i < |ns| then ns[..i] + ns[i + 1..] else ns
    decreases |ns|
  {
    if ns != [] && i > 0 {
      RemoveFirstAt(ns[1..], x, i - 1);
      assert ns[..i] == [ns[0]] + ns[1..][..i - 1];
      if i < |ns| {
        assert ns[i + 1..] == ns[1..][i..];
      }
    }
  }

  /** The names of `ns` not in `drop`, in their order. */
  function Keep(ns: seq<string>, drop: set<string>): (r: seq<string>)
    ensures forall x :: x in r <==> x in ns && x !in drop
    ensures NoDup(ns) ==> NoDup(r)
    decreases |ns|
  {
    if ns == [] then []
    else
      var rest := Keep(ns[1..], drop);
      if ns[0] in drop then rest
      else
        assert NoDup(ns) ==> ns[0] !in ns[1..];
        [ns[0]] + rest
  }

  /** Dropping two sets in turn is dropping their union. */
  lemma {:induction false} KeepTwice(ns: seq<string>, a: set<string>, b: set<string>)
    ensures Keep(Keep(ns, a), b) == Keep(ns, a + b)
    decreases |ns|
  {
    if ns != [] {
      KeepTwice(ns[1..], a, b);
      if ns[0] !in a {
        assert Keep(ns, a)[1..] == Keep(ns[1..], a);
      }
    }
  }

  /** In a list without duplicates, removing the first occurrence removes every occurrence. */
  lemma {:induction false} RemoveFirstKeeps(ns: seq<string>, x: string)
    requires NoDup(ns)
    ensures RemoveFirst(ns, x) == Keep(ns, {x})
    decreases |ns|
  {
    if ns != [] {
      assert NoDup(ns[1..]);
      if ns[0] == x {
        assert x !in ns[1..];
        KeepNone(ns[1..], {x});
      } else {
        RemoveFirstKeeps(ns[1..], x);
      }
    }
  }

  /** Dropping names that do not occur leaves the list as it is. */
  lemma {:induction false} KeepNone(ns: seq<string>, drop: set<string>)
    requires forall i :: 0 <= i < |ns| ==> ns[i] !in drop
    ensures Keep(ns, drop) == ns
    decreases |ns|
  {
    if ns != [] {
      KeepNone(ns[1..], drop);
    }
  }

  /** unset's effect: nothing when the name is not set, otherwise its value and its name are removed. */
  function Remove(e: Env, name: string): Env {
    if name !in e.vars then e else Env(e.vars - {name}, RemoveFirst(e.names, name))
  }

  /** unset keeps the snapshot consistent, and removes the name from both the values and the order. */
  lemma RemoveEffect(e: Env, name: string)
    requires Consistent(e)
    ensures Consistent(Remove(e, name))
    ensures Remove(e, name).vars == e.vars - {name}
    ensures Remove(e, name).names == Keep(e.names, {name})
  {
    RemoveFirstKeeps(e.names, name);
    if name !in e.vars {
      KeepNone(e.names, {name});
      assert e.vars - {name} == e.vars;
    }
  }

  /** Unset's effect: the names removed one after another. */
  function UnsetAll(e: Env, req: seq<string>): Env
    decreases |req|
  {
    if req == [] then e else UnsetAll(Remove(e, req[0]), req[1..])
  }

  /** The values Unset returns: each name's value at the moment it is removed. */
  function UnsetValues(e: Env, req: seq<string>): seq<string>
    decreases |req|
  {
    if req == [] then [] else [Lookup(e, req[0])] + UnsetValues(Remove(e, req[0]), req[1..])
  }

  function Elems(req: seq<string>): set<string> {
    set x | x in req
  }

  /** Unset removes every requested name from the values and leaves the others as they were. */
  lemma {:induction false} UnsetVars(e: Env, req: seq<string>)
    ensures UnsetAll(e, req).vars == e.vars - Elems(req)
    decreases |req|
  {
    if req == [] {
      assert Elems(req) == {} && e.vars - {} == e.vars;
    } else {
      var rest := Elems(req[1..]);
      UnsetVars(Remove(e, req[0]), req[1..]);
      assert Elems(req) == {req[0]} + rest;
      assert Remove(e, req[0]).vars == e.vars - {req[0]};
      assert (e.vars - {req[0]}) - rest == e.vars - Elems(req);
    }
  }

  /**
   * Unset keeps the snapshot consistent, removes every requested name
   * from the order and keeps the other names in their relative order.
   */
  lemma {:induction false} UnsetNames(e: Env, req: seq<string>)
    requires Consistent(e)
    ensures Consistent(UnsetAll(e, req))
    ensures UnsetAll(e, req).names == Keep(e.names, Elems(req))
    decreases |req|
  {
    if req == [] {
      assert Elems(req) == {};
      KeepNone(e.names, {});
    } else {
      var rest := Elems(req[1..]);
      RemoveEffect(e, req[0]);
      UnsetNames(Remove(e, req[0]), req[1..]);
      assert Elems(req) == {req[0]} + rest;
      KeepTwice(e.names, {req[0]}, rest);
    }
  }

  /**
   * Unset returns one value per request: the old value the first time a
   * name is asked for, "" for a name that is not set or already removed.
   */
  lemma {:induction false} UnsetValuesAt(e: Env, req: seq<string>)
    ensures |UnsetValues(e, req)| == |req|
    ensures forall k :: 0 <= k < |req| ==>
              UnsetValues(e, req)[k] == if req[k] in req[..k] then "" else Lookup(e, req[k])
    decreases |req|
  {
    if req != [] {
      var e' := Remove(e, req[0]);
      UnsetValuesAt(e', req[1..]);
      var vs := UnsetValues(e, req);
      forall k | 0 <= k < |req|
        ensures vs[k] == if req[k] in req[..k] then "" else Lookup(e, req[k])
      {
        if k > 0 {
          assert req[..k] == [req[0]] + req[1..][..k - 1];
          assert vs[k] == UnsetValues(e', req[1..])[k - 1];
          assert Lookup(e', req[k]) == if req[k] == req[0] then "" else Lookup(e, req[k]);
        }
      }
    }
  }

  /** The names of `ns` whose value is "", in their order. */
  function EmptyOf(e: Env, ns: seq<string>): seq<string>
    decreases |ns|
  {
    if ns == [] then []
    else EmptyOf(e, ns[..|ns| - 1]) + if Lookup(e, ns[|ns| - 1]) == "" then [ns[|ns| - 1]] else []
  }

  /** EmptyNames lists exactly the names whose value is "". */
  lemma {:induction false} EmptyOfExact(e: Env, ns: seq<string>)
    ensures forall x :: x in EmptyOf(e, ns) <==> x in ns && Lookup(e, x) == ""
    decreases |ns|
  {
    if ns != [] {
      EmptyOfExact(e, ns[..|ns| - 1]);
      assert ns == ns[..|ns| - 1] + [ns[|ns| - 1]];
    }
  }

  /** filtersAnd's answer: there is at least one filter, and every filter accepts the name. */
  predicate AllPass(name: string, filters: seq<string -> bool>) {
    |filters| > 0 && forall i :: 0 <= i < |filters| ==> filters[i](name)
  }

  /** filtersAnd: false with no filters, false at the first filter that rejects, true otherwise. */
  method FiltersAnd(name: string, filters: seq<string -> bool>) returns (r: bool)
    ensures r == AllPass(name, filters)
  {
    var matched := false;
    for i := 0 to |filters|
      invariant matched <==> i > 0
      invariant forall k :: 0 <= k < i ==> filters[k](name)
    {
      if !filters[i](name) {
        return false;
      }
      matched := true;
    }
    return matched;
  }

  /** The names of `ns` that pass every filter, in their order. */
  function Passing(ns: seq<string>, filters: seq<string -> bool>): (r: seq<string>)
    decreases |ns|
  {
    if ns == [] then []
    else Passing(ns[..|ns| - 1], filters) + if AllPass(ns[|ns| - 1], filters) then [ns[|ns| - 1]] else []
  }

  /** Reduce keeps exactly the names that pass every filter; with no filter, none. */
  lemma {:induction false} PassingExact(ns: seq<string>, filters: seq<string -> bool>)
    ensures forall x :: x in Passing(ns, filters) <==> x in ns && AllPass(x, filters)
    ensures NoDup(ns) ==> NoDup(Passing(ns, filters))
    ensures filters == [] ==> Passing(ns, filters) == []
    decreases |ns|
  {
    if ns != [] {
      var init := ns[..|ns| - 1];
      PassingExact(init, filters);
      assert ns == init + [ns[|ns| - 1]];
      assert NoDup(ns) ==> NoDup(init) && ns[|ns| - 1] !in init;
    }
  }

  /**
   * The snapshot holding `ns` with the values they have in `e`; Reduce
   * and Copy produce such snapshots. A consistent `e` is this for its
   * own names.
   */
  function Restrict(e: Env, ns: seq<string>): Env {
    Env(map n | n in ns :: Lookup(e, n), ns)
  }

  lemma RestrictAll(e: Env)
    requires Consistent(e)
    ensures Restrict(e, e.names) == e
  {
    assert (map n | n in e.names :: Lookup(e, n)).Keys == e.vars.Keys;
  }

  /**
   * Setting the name that follows a prefix of a duplicate-free list,
   * with its value from `e`, extends the restriction to the longer prefix.
   */
  lemma RestrictStep(e: Env, ns: seq<string>, i: nat)
    requires NoDup(ns) && i < |ns|
    ensures Put(Restrict(e, ns[..i]), ns[i], Lookup(e, ns[i])) == Restrict(e, ns[..i + 1])
  {
    assert ns[..i + 1] == ns[..i] + [ns[i]];
    assert ns[i] !in ns[..i];
  }

  /** One more name of a duplicate-free list considered by Reduce: it is set in the result exactly when it passes. */
  lemma ReduceStep(e: Env, ns: seq<string>, i: nat, filters: seq<string -> bool>)
    requires NoDup(ns) && i < |ns|
    ensures Passing(ns[..i + 1], filters)
            == Passing(ns[..i], filters) + if AllPass(ns[i], filters) then [ns[i]] else []
    ensures AllPass(ns[i], filters) ==>
              Put(Restrict(e, Passing(ns[..i], filters)), ns[i], Lookup(e, ns[i])) == Restrict(e, Passing(ns[..i + 1], filters))
  {
    assert ns[..i + 1][..i] == ns[..i];
    if AllPass(ns[i], filters) {
      var ps := Passing(ns[..i + 1], filters);
      assert NoDup(ns[..i + 1]);
      PassingExact(ns[..i + 1], filters);
      RestrictStep(e, ps, |ps| - 1);
      assert ps[..|ps| - 1] == Passing(ns[..i], filters);
    }
  }

  /**
   * Update over the "name=value" strings of a consistent snapshot's
   * names, from the snapshot of its first `i` names, rebuilds it when no
   * name holds an "=".
   */
  lemma {:induction false} Rebuild(e: Env, list: seq<string>, i: nat)
    requires Consistent(e) && i <= |e.names|
    requires forall k :: 0 <= k < |e.names| ==> '=' !in e.names[k]
    requires |list| == |e.names| && forall k :: 0 <= k < |list| ==> list[k] == JoinEnvVar(e.names[k], Lookup(e, e.names[k]))
    ensures UpdateAll(Restrict(e, e.names[..i]), list[i..]) == e
    decreases |e.names| - i
  {
    if i == |e.names| {
      assert e.names[..i] == e.names;
      RestrictAll(e);
    } else {
      SplitJoin(e.names[i], Lookup(e, e.names[i]));
      RestrictStep(e, e.names, i);
      assert list[i..][1..] == list[i + 1..];
      Rebuild(e, list, i + 1);
    }
  }

  /** Copy reproduces a snapshot whose names hold no "=": the same names, in order, with the same values. */
  lemma CopyRestores(e: Env, list: seq<string>)
    requires Consistent(e)
    requires forall k :: 0 <= k < |e.names| ==> '=' !in e.names[k]
    requires |list| == |e.names| && forall k :: 0 <= k < |list| ==> list[k] == JoinEnvVar(e.names[k], Lookup(e, e.names[k]))
    ensures UpdateAll(Env(map[], []), list) == e
  {
    Rebuild(e, list, 0);
    assert Restrict(e, e.names[..0]) == Env(map[], []);
  }

  /** The OSEnv object: the map and the ordered name list that Set, Update and Unset change in place. */
  class OSEnv {
    var vars: map<string, string>
    var names: seq<string>

    function State(): Env
      reads this
    {
      Env(vars, names)
    }

    ghost predicate Valid()
      reads this
    {
      Consistent(State())
    }

    /** NewOSEnv: an empty snapshot updated with the initial "name=value" strings. */
    constructor (initial: seq<string>)
      ensures Valid() && State() == UpdateAll(Env(map[], []), initial)
    {
      vars := map[];
      names := [];
      new;
      Update(initial);
    }

    /** Names: the names, in order. */
    function Names(): (r: seq<string>)
      reads this
      requires Valid()
      ensures NoDup(r) && forall x :: x in r <==> x in vars
    {
      names
    }

    /** Get: the value of `name`, or "" when it is not set. */
    function Get(name: string): (r: string)
      reads this
      ensures name !in vars ==> r == ""
      ensures name in vars ==> r == vars[name]
    {
      Lookup(State(), name)
    }

    /** Set: stores the value and returns the previous one, or "" when the name was not set. */
    method Set(name: string, value: string) returns (existing: string)
      requires Valid()
      modifies this
      ensures Valid()
      ensures State() == Put(old(State()), name, value)
      ensures existing == Lookup(old(State()), name)
    {
      PutEffect(State(), name, value);
      existing := "";
      if name in vars {
        existing := vars[name];
      } else {
        names := names + [name];
      }
      vars := vars[name := value];
    }

    /** unset: removes one name from the order and from the values, returning its value or "". */
    method Unset1(name: string) returns (value: string)
      requires Valid()
      modifies this
      ensures Valid()
      ensures State() == Remove(old(State()), name)
      ensures value == Lookup(old(State()), name)
    {
      RemoveEffect(State(), name);
      if name !in vars {
        return "";
      }
      value := vars[name];
      var i := 0;
      while i < |names| && names[i] != name
        invariant 0 <= i <= |names|
        invariant forall k :: 0 <= k < i ==> names[k] != name
      {
        i := i + 1;
      }
      RemoveFirstAt(names, name, i);
      if i < |names| {
        names := names[..i] + names[i + 1..];
      }
      vars := vars - {name};
    }

    /** Unset: removes each requested name in turn and returns the values, one per request. */
    method Unset(req: seq<string>) returns (values: seq<string>)
      requires Valid()
      modifies this
      ensures Valid()
      ensures State() == UnsetAll(old(State()), req)
      ensures values == UnsetValues(old(State()), req)
    {
      values := [];
      for i := 0 to |req|
        invariant Valid()
        invariant UnsetAll(old(State()), req) == UnsetAll(State(), req[i..])
        invariant UnsetValues(old(State()), req) == values + UnsetValues(State(), req[i..])
      {
        assert req[i..][1..] == req[i + 1..];
        var value := Unset1(req[i]);
        values := values + [value];
      }
    }

    /** Update: sets each "name=value" string in turn. */
    method Update(raw: seq<string>)
      requires Valid()
      modifies this
      ensures Valid()
      ensures State() == UpdateAll(old(State()), raw)
    {
      ghost var start := Env(vars, names);
      for i := 0 to |raw|
        invariant Env(vars, names) == UpdateAll(start, raw[..i])
      {
        var nv := SplitEnvVar(raw[i]);
        UpdateAllSnoc(start, raw, i);
        var order := names;
        if nv.0 !in vars {
          order := names + [nv.0];
        }
        vars, names := vars[nv.0 := nv.1], order;
      }
      assert raw[..|raw|] == raw;
      UpdateConsistent(start, raw);
    }

    /** EmptyNames: the names whose value is "", in order. */
    method EmptyNames() returns (empty: seq<string>)
      requires Valid()
      ensures empty == EmptyOf(State(), names)
    {
      empty := [];
      for i := 0 to |names|
        invariant empty == EmptyOf(State(), names[..i])
      {
        assert names[..i + 1][..i] == names[..i];
        if Get(names[i]) == "" {
          empty := empty + [names[i]];
        }
      }
      assert names[..|names|] == names;
    }

    /** Reduce: a new snapshot holding, in order and with their values, the names that pass every filter. */
    method Reduce(filters: seq<string -> bool>) returns (r: OSEnv)
      requires Valid()
      ensures fresh(r) && r.Valid()
      ensures r.State() == Restrict(State(), Passing(names, filters))
    {
      r := new OSEnv([]);
      for i := 0 to |names|
        invariant fresh(r) && r.Valid()
        invariant r.State() == Restrict(State(), Passing(names[..i], filters))
      {
        var ok := FiltersAnd(names[i], filters);
        ReduceStep(State(), names, i, filters);
        if ok {
          var _ := r.Set(names[i], Get(names[i]));
        }
      }
      assert names[..|names|] == names;
    }

    /** AsList: the "name=value" strings, in name order. */
    method AsList() returns (list: seq<string>)
      requires Valid()
      ensures |list| == |names|
      ensures forall k :: 0 <= k < |list| ==> list[k] == JoinEnvVar(names[k], Get(names[k]))
    {
      list := [];
      for i := 0 to |names|
        invariant |list| == i
        invariant forall k :: 0 <= k < i ==> list[k] == JoinEnvVar(names[k], Get(names[k]))
      {
        list := list + [JoinEnvVar(names[i], vars[names[i]])];
      }
    }

    /** AsMap: a copy of the values, one entry per name. */
    function AsMap(): (m: map<string, string>)
      reads this
      requires Valid()
      ensures forall x :: x in m <==> x in names
      ensures forall x :: x in m ==> m[x] == Get(x)
    {
      vars
    }

    /** Copy: a new snapshot built from AsList; the same snapshot when no name holds an "=". */
    method Copy() returns (c: OSEnv)
      requires Valid()
      ensures fresh(c) && c.Valid()
      ensures (forall k :: 0 <= k < |names| ==> '=' !in names[k]) ==> c.State() == State()
    {
      var list := AsList();
      c := new OSEnv(list);
      if forall k :: 0 <= k < |names| ==> '=' !in names[k] {
        CopyRestores(State(), list);
      }
    }
  }
}
