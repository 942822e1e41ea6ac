/** The component registry of the build generator: dependencies are closed transitively when a
    component is defined, and link order is reverse definition order. */
module Components {
  import opened Basics

  datatype Component = Component(id: nat, deps: seq<string>)

  /** The registered components, and (for the specification) what each one declared. */
  datatype Registry = Registry(components: map<string, Component>, declared: map<string, seq<string>>)

  // ---------------------------------------------------------------- transitive closure

  ghost predicate Path(declared: map<string, seq<string>>, p: seq<string>) {
    |p| >= 2 && forall i :: 0 <= i < |p| - 1 ==> p[i] in declared && p[i + 1] in declared[p[i]]
  }

  /** `a` depends on `b`, directly or transitively. */
  ghost predicate DependsOn(declared: map<string, seq<string>>, a: string, b: string) {
    exists p :: Path(declared, p) && p[0] == a && p[|p| - 1] == b
  }

  lemma DependsSplit(declared: map<string, seq<string>>, a: string, b: string)
    requires DependsOn(declared, a, b)
    ensures a in declared && (b in declared[a] || exists d :: d in declared[a] && DependsOn(declared, d, b))
  {
    var p :| Path(declared, p) && p[0] == a && p[|p| - 1] == b;
    assert p[0] in declared && p[1] in declared[p[0]];
    if |p| > 2 {
      var q := p[1..];
      assert forall i :: 0 <= i < |q| ==> q[i] == p[i + 1];
      assert Path(declared, q) && q[0] == p[1] && q[|q| - 1] == b;
    }
  }

  lemma DependsDirect(declared: map<string, seq<string>>, a: string, b: string)
    requires a in declared && b in declared[a]
    ensures DependsOn(declared, a, b)
  {
    assert Path(declared, [a, b]);
  }

  lemma DependsExtend(declared: map<string, seq<string>>, a: string, d: string, b: string)
    requires a in declared && d in declared[a] && DependsOn(declared, d, b)
    ensures DependsOn(declared, a, b)
  {
    var p :| Path(declared, p) && p[0] == d && p[|p| - 1] == b;
    var q := [a] + p;
    assert forall i :: 0 < i < |q| ==> q[i] == p[i - 1];
    assert Path(declared, q) && q[0] == a && q[|q| - 1] == b;
  }

  // ---------------------------------------------------------------- the registry invariant

  /** Ids are distinct and below the number of components. */
  ghost predicate Numbered(r: Registry) {
    && (forall a :: a in r.components ==> r.components[a].id < |r.components|)
    && (forall a, b :: a in r.components && b in r.components && a != b ==> r.components[a].id != r.components[b].id)
  }

  /** `deps` lists exactly what the component depends on, once each. */
  ghost predicate Transitive(r: Registry) {
    && (forall a :: a in r.components ==> Distinct(r.components[a].deps))
    && (forall a, b :: a in r.components ==> (b in r.components[a].deps <==> DependsOn(r.declared, a, b)))
  }

  /** Everything a component depends on was registered before it. */
  ghost predicate Earlier(r: Registry) {
    forall a, b :: a in r.components && b in r.components[a].deps ==>
      b in r.components && r.components[b].id < r.components[a].id
  }

  ghost predicate Closed(r: Registry) {
    r.components.Keys == r.declared.Keys && Numbered(r) && Transitive(r) && Earlier(r)
  }

  /** The closure of a declared dependency list, or an error for an unknown component. */
  method FindAllDeps(r: Registry, name: string, deps: seq<string>) returns (res: Result<seq<string>>)
    ensures res.Ok? <==> forall d :: d in deps ==> d in r.components
    ensures res.Ok? ==> Distinct(res.value)
    ensures res.Ok? ==> forall x :: x in res.value <==> x in deps || exists d :: d in deps && x in r.components[d].deps
  {
    var newDeps := [];
    for i := 0 to |deps|
      invariant forall d :: d in deps[..i] ==> d in r.components
      invariant Distinct(newDeps)
      invariant forall x :: x in newDeps <==> x in deps[..i] || exists d :: d in deps[..i] && x in r.components[d].deps
    {
      var dep := deps[i];
      assert deps[..i + 1] == deps[..i] + [dep];
      if dep !in r.components {
        return Err("Unknown component '" + dep + "' at '" + name + "'.");
      }
      if dep !in newDeps {
        newDeps := newDeps + [dep];
      }
      ghost var before := newDeps;
      var depDeps := r.components[dep].deps;
      for k := 0 to |depDeps|
        invariant Distinct(newDeps)
        invariant forall x :: x in newDeps <==> x in before || x in depDeps[..k]
      {
        if depDeps[k] !in newDeps {
          newDeps := newDeps + [depDeps[k]];
        }
      }
      assert depDeps[..|depDeps|] == depDeps;
    }
    assert deps[..|deps|] == deps;
    res := Ok(newDeps);
  }

  // ---------------------------------------------------------------- registration

  ghost predicate ClosedUnder(declared: map<string, seq<string>>) {
    forall a, b :: a in declared && b in declared[a] ==> b in declared
  }

  /** A new declaration does not change what existing components depend on. */
  lemma {:induction false} PathUnchanged(declared: map<string, seq<string>>, name: string, deps: seq<string>, p: seq<string>)
    requires ClosedUnder(declared) && name !in declared && |p| >= 2 && p[0] in declared
    ensures Path(declared[name := deps], p) <==> Path(declared, p)
    decreases |p|
  {
    if |p| > 2 && p[1] in declared {
      var q := p[1..];
      PathUnchanged(declared, name, deps, q);
      forall d: map<string, seq<string>> | p[0] in d
        ensures Path(d, p) <==> p[1] in d[p[0]] && Path(d, q)
      {
        PathSplit(d, p);
      }
    }
  }

  lemma PathSplit(d: map<string, seq<string>>, p: seq<string>)
    requires |p| > 2 && p[0] in d
    ensures Path(d, p) <==> p[1] in d[p[0]] && Path(d, p[1..])
  {
    var q := p[1..];
    assert forall i :: 0 <= i < |q| ==> q[i] == p[i + 1];
    if Path(d, p) {
      forall i | 0 <= i < |q| - 1 ensures q[i] in d && q[i + 1] in d[q[i]] {
        assert p[i + 1] in d && p[i + 2] in d[p[i + 1]];
      }
    }
    if p[1] in d[p[0]] && Path(d, q) {
      forall i | 0 <= i < |p| - 1 ensures p[i] in d && p[i + 1] in d[p[i]] {
        assert i > 0 ==> q[i - 1] in d && q[i] in d[q[i - 1]];
      }
    }
  }

  lemma DependsUnchanged(declared: map<string, seq<string>>, name: string, deps: seq<string>, a: string, b: string)
    requires ClosedUnder(declared) && name !in declared && a in declared
    ensures DependsOn(declared[name := deps], a, b) <==> DependsOn(declared, a, b)
  {
    forall p: seq<string> | |p| >= 2 && p[0] == a ensures Path(declared[name := deps], p) <==> Path(declared, p) {
      PathUnchanged(declared, name, deps, p);
    }
  }

  /** The registry after a successful definition. */
  function Defined(r: Registry, name: string, deps: seq<string>, closure: seq<string>): Registry {
    Registry(r.components[name := Component(|r.components|, closure)], r.declared[name := deps])
  }

  lemma NewDepends(r: Registry, name: string, deps: seq<string>, b: string)
    requires Closed(r) && name !in r.components && forall d :: d in deps ==> d in r.components
    ensures DependsOn(r.declared[name := deps], name, b) <==>
            b in deps || exists d :: d in deps && b in r.components[d].deps
  {
    hide DependsOn;
    ClosedDeclared(r);
    var after := r.declared[name := deps];
    if DependsOn(after, name, b) && b !in deps {
      DependsSplit(after, name, b);
      var d :| d in deps && DependsOn(after, d, b);
      DependsUnchanged(r.declared, name, deps, d, b);
    }
    if b in deps {
      DependsDirect(after, name, b);
    }
    if d :| d in deps && b in r.components[d].deps {
      DependsUnchanged(r.declared, name, deps, d, b);
      DependsExtend(after, name, d, b);
    }
  }

  lemma ClosedDeclared(r: Registry)
    requires Closed(r)
    ensures ClosedUnder(r.declared)
  {
    hide DependsOn, Numbered;
    forall a, b | a in r.declared && b in r.declared[a] ensures b in r.declared {
      DependsDirect(r.declared, a, b);
    }
  }

  lemma DefinedKeepsClosed(r: Registry, name: string, deps: seq<string>, closure: seq<string>)
    requires Closed(r) && name !in r.components && forall d :: d in deps ==> d in r.components
    requires Distinct(closure) && forall x :: x in closure <==> x in deps || exists d :: d in deps && x in r.components[d].deps
    ensures Closed(Defined(r, name, deps, closure))
  {
    hide DependsOn, Numbered, Transitive, Earlier;
    DefinedTransitive(r, name, deps, closure);
    DefinedNumbered(r, name, deps, closure);
  }

  lemma DefinedTransitive(r: Registry, name: string, deps: seq<string>, closure: seq<string>)
    requires Closed(r) && name !in r.components && forall d :: d in deps ==> d in r.components
    requires Distinct(closure) && forall x :: x in closure <==> x in deps || exists d :: d in deps && x in r.components[d].deps
    ensures Transitive(Defined(r, name, deps, closure))
  {
    hide DependsOn, Numbered, Earlier, Distinct;
    var s := Defined(r, name, deps, closure);
    ClosedDeclared(r);
    forall a, b | a in s.components ensures b in s.components[a].deps <==> DependsOn(s.declared, a, b) {
      if a == name {
        NewDepends(r, name, deps, b);
      } else {
        DependsUnchanged(r.declared, name, deps, a, b);
      }
    }
  }

  lemma DefinedNumbered(r: Registry, name: string, deps: seq<string>, closure: seq<string>)
    requires Numbered(r) && Earlier(r) && name !in r.components && forall d :: d in deps ==> d in r.components
    requires forall x :: x in closure <==> x in deps || exists d :: d in deps && x in r.components[d].deps
    ensures Numbered(Defined(r, name, deps, closure)) && Earlier(Defined(r, name, deps, closure))
  {
    hide Numbered, Earlier;
    NewNumbered(r, name, deps, closure);
    forall b | b in closure ensures b in r.components { NewMember(r, deps, b); }
    NewEarlier(r, name, deps, closure);
  }

  lemma NewNumbered(r: Registry, name: string, deps: seq<string>, closure: seq<string>)
    requires Numbered(r) && name !in r.components
    ensures Numbered(Defined(r, name, deps, closure))
  {
    assert |Defined(r, name, deps, closure).components| == |r.components| + 1;
  }

  lemma NewMember(r: Registry, deps: seq<string>, b: string)
    requires Earlier(r) && forall d :: d in deps ==> d in r.components
    requires b in deps || exists d :: d in deps && b in r.components[d].deps
    ensures b in r.components
  {}

  lemma NewEarlier(r: Registry, name: string, deps: seq<string>, closure: seq<string>)
    requires Numbered(r) && Earlier(r) && name !in r.components && forall b :: b in closure ==> b in r.components
    ensures Earlier(Defined(r, name, deps, closure))
  {
    var s := Defined(r, name, deps, closure);
    forall a, b | a in s.components && b in s.components[a].deps
      ensures b in s.components && s.components[b].id < s.components[a].id
    {
      if a != name { assert b in r.components[a].deps; }
    }
  }

  class Build {
    var r: Registry

    constructor ()
      ensures r == Registry(map[], map[]) && Closed(r)
    {
      r := Registry(map[], map[]);
    }

    /** Defines a component. It fails for a name in use or an unknown dependency and then changes
        nothing; in every run the registry stays closed. */
    method AddComponent(name: string, deps: seq<string>) returns (res: Result<nat>)
      requires Closed(r)
      modifies this
      ensures Closed(r)
      ensures res.Err? <==> name in old(r).components || exists d :: d in deps && d !in old(r).components
      ensures res.Err? ==> r == old(r)
      ensures res.Ok? ==> res.value == |old(r).components| && r.declared == old(r).declared[name := deps]
                          && (forall a :: a in old(r).components ==> a in r.components && r.components[a] == old(r).components[a])
                          && name in r.components && r.components[name].id == res.value
    {
      hide Closed;
      if name in r.components {
        return Err("Component '" + name + "' was already defined.");
      }
      var closure := FindAllDeps(r, name, deps);
      if closure.Err? { return Err(closure.error); }
      DefinedKeepsClosed(r, name, deps, closure.value);
      var id := |r.components|;
      r := Defined(r, name, deps, closure.value);
      res := Ok(id);
    }
  }

  /** The dependency relation of a closed registry has no cycles. */
  lemma NoCycles(r: Registry, a: string)
    requires Closed(r) && a in r.components
    ensures !DependsOn(r.declared, a, a)
  {
    hide DependsOn;
  }

  // ---------------------------------------------------------------- link order

  function InsertById(r: Registry, name: string, sorted: seq<string>): seq<string>
    requires name in r.components && forall x :: x in sorted ==> x in r.components
  {
    if sorted == [] || r.components[name].id >= r.components[sorted[0]].id then [name] + sorted
    else [sorted[0]] + InsertById(r, name, sorted[1..])
  }

  /** The names in order of decreasing id. */
  function SortById(r: Registry, names: seq<string>): (s: seq<string>)
    requires forall x :: x in names ==> x in r.components
    ensures multiset(s) == multiset(names)
    ensures forall x :: x in s ==> x in r.components
  {
    if names == [] then []
    else
      var rest := SortById(r, names[1..]);
      assert names == [names[0]] + names[1..];
      assert forall x :: x in names[1..] ==> x in names;
      InsertPermutes(r, names[0], rest);
      InsertById(r, names[0], rest)
  }

  lemma {:induction false} InsertPermutes(r: Registry, name: string, sorted: seq<string>)
    requires name in r.components && forall x :: x in sorted ==> x in r.components
    ensures multiset(InsertById(r, name, sorted)) == multiset([name] + sorted)
    ensures forall x :: x in InsertById(r, name, sorted) ==> x in r.components
    decreases |sorted|
  {
    if !(sorted == [] || r.components[name].id >= r.components[sorted[0]].id) {
      InsertPermutes(r, name, sorted[1..]);
      assert sorted == [sorted[0]] + sorted[1..];
    }
  }

  ghost predicate Descending(r: Registry, s: seq<string>)
    requires forall x :: x in s ==> x in r.components
  {
    forall i, j :: 0 <= i < j < |s| ==> r.components[s[i]].id >= r.components[s[j]].id
  }

  lemma InsertMembers(r: Registry, name: string, sorted: seq<string>)
    requires name in r.components && forall x :: x in sorted ==> x in r.components
    ensures forall x :: x in InsertById(r, name, sorted) <==> x == name || x in sorted
  {
    hide InsertById;
    InsertPermutes(r, name, sorted);
    forall x ensures x in InsertById(r, name, sorted) <==> x == name || x in sorted {
      assert x in InsertById(r, name, sorted) <==> x in multiset([name] + sorted);
    }
  }

  lemma {:induction false} InsertDescends(r: Registry, name: string, sorted: seq<string>)
    requires name in r.components && (forall x :: x in sorted ==> x in r.components) && Descending(r, sorted)
    ensures (forall x :: x in InsertById(r, name, sorted) ==> x in r.components) && Descending(r, InsertById(r, name, sorted))
    decreases |sorted|
  {
    InsertPermutes(r, name, sorted);
    if !(sorted == [] || r.components[name].id >= r.components[sorted[0]].id) {
      InsertDescends(r, name, sorted[1..]);
      var tl := InsertById(r, name, sorted[1..]);
      InsertMembers(r, name, sorted[1..]);
      forall j | 0 <= j < |tl| ensures r.components[sorted[0]].id >= r.components[tl[j]].id {
        assert tl[j] in tl;
      }
      assert InsertById(r, name, sorted) == [sorted[0]] + tl;
    }
  }

  lemma {:induction false} SortDescends(r: Registry, names: seq<string>)
    requires forall x :: x in names ==> x in r.components
    ensures Descending(r, SortById(r, names))
    decreases |names|
  {
    if names != [] {
      assert forall x :: x in names[1..] ==> x in names;
      SortDescends(r, names[1..]);
      InsertDescends(r, names[0], SortById(r, names[1..]));
    }
  }

  /** Link order lists every component before everything it depends on. */
  lemma DependentsFirst(r: Registry, names: seq<string>, i: nat, j: nat)
    requires Closed(r) && forall x :: x in names ==> x in r.components
    requires i < |SortById(r, names)| && j < |SortById(r, names)|
    requires DependsOn(r.declared, SortById(r, names)[i], SortById(r, names)[j])
    ensures i < j
  {
    hide DependsOn, SortById;
    var s := SortById(r, names);
    SortDescends(r, names);
    assert s[i] in r.components && s[j] in r.components[s[i]].deps;
  }
}
