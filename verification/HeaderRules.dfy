/** Makefile rules for header files: a depth-first walk over the include graph that marks a header
    before it visits what the header includes, and writes the header's rule afterwards. */
module HeaderRules {
  import opened Basics

  /** Path of a source or header file. */
  type File = string

  /** For each file, the headers its `#include` lines resolve to, in order; None for an include that
      no component provides. */
  datatype Graph = Graph(includes: map<File, seq<Option<File>>>) {
    ghost predicate Valid() {
      forall f :: f in includes ==> forall i :: 0 <= i < |includes[f]| ==>
        includes[f][i].Some? ==> includes[f][i].value in includes
    }

    predicate Edge(a: File, b: File) {
      a in includes && Some(b) in includes[a]
    }

    /** Some include of the file cannot be found. */
    predicate Missing(f: File) {
      f in includes && None in includes[f]
    }
  }

  ghost predicate Path(g: Graph, p: seq<File>) {
    |p| > 0 && forall i :: 0 <= i < |p| - 1 ==> g.Edge(p[i], p[i + 1])
  }

  /** `b` is `a` or included by it, directly or transitively. */
  ghost predicate Reach(g: Graph, a: File, b: File) {
    exists p :: Path(g, p) && p[0] == a && p[|p| - 1] == b
  }

  lemma ReachSelf(g: Graph, a: File)
    ensures Reach(g, a, a)
  {
    assert Path(g, [a]);
  }

  lemma ReachEdge(g: Graph, a: File, b: File, c: File)
    requires Reach(g, a, b) && g.Edge(b, c)
    ensures Reach(g, a, c)
  {
    var p :| Path(g, p) && p[0] == a && p[|p| - 1] == b;
    var q := p + [c];
    assert Path(g, q) && q[0] == a && q[|q| - 1] == c;
  }

  lemma EdgeReach(g: Graph, a: File, b: File, c: File)
    requires g.Edge(a, b) && Reach(g, b, c)
    ensures Reach(g, a, c)
  {
    var p :| Path(g, p) && p[0] == b && p[|p| - 1] == c;
    var q := [a] + p;
    assert forall i :: 0 < i < |q| ==> q[i] == p[i - 1];
    assert Path(g, q) && q[0] == a && q[|q| - 1] == c;
  }

  /** `a` includes `b`, directly or transitively. */
  ghost predicate Includes(g: Graph, a: File, b: File) {
    exists d :: g.Edge(a, d) && Reach(g, d, b)
  }

  lemma ReachSplit(g: Graph, a: File, b: File)
    ensures Reach(g, a, b) <==> a == b || Includes(g, a, b)
  {
    if Reach(g, a, b) && a != b {
      var p :| Path(g, p) && p[0] == a && p[|p| - 1] == b;
      var q := p[1..];
      assert forall i :: 0 <= i < |q| ==> q[i] == p[i + 1];
      assert Path(g, q) && q[0] == p[1] && q[|q| - 1] == b;
      assert g.Edge(a, p[1]);
    }
    if Includes(g, a, b) {
      var d :| g.Edge(a, d) && Reach(g, d, b);
      EdgeReach(g, a, d, b);
    }
    ReachSelf(g, a);
  }

  /** A set closed under includes contains everything reachable from its members. */
  lemma {:induction false} ClosedPath(g: Graph, s: set<File>, p: seq<File>)
    requires Path(g, p) && p[0] in s && forall a, b :: a in s && g.Edge(a, b) ==> b in s
    ensures p[|p| - 1] in s
    decreases |p|
  {
    if |p| > 1 {
      assert g.Edge(p[0], p[1]);
      var q := p[1..];
      assert forall i :: 0 <= i < |q| ==> q[i] == p[i + 1];
      ClosedPath(g, s, q);
    }
  }

  // ---------------------------------------------------------------- emitted rules

  /** `file`'s node or object depends on the nodes of `deps`. */
  datatype Rule = HeaderRule(file: File, deps: seq<File>) | ObjectRule(file: File, deps: seq<File>)

  /** The headers with a rule. */
  ghost function Emitted(out: seq<Rule>): set<File> {
    set i | 0 <= i < |out| && out[i].HeaderRule? :: out[i].file
  }

  lemma EmittedAppend(out: seq<Rule>, r: Rule)
    ensures Emitted(out + [r]) == Emitted(out) + (if r.HeaderRule? then {r.file} else {})
  {
    var next := out + [r];
    forall f | f in Emitted(out) ensures f in Emitted(next) {
      var i :| 0 <= i < |out| && out[i].HeaderRule? && out[i].file == f;
      assert next[i] == out[i];
    }
    if r.HeaderRule? { assert next[|out|] == r; }
  }

  ghost predicate OneRuleEach(out: seq<Rule>) {
    forall i, j :: 0 <= i < j < |out| && out[i].HeaderRule? && out[j].HeaderRule? ==> out[i].file != out[j].file
  }

  /** The rule lists exactly the includes of its file, all of which are found and marked. */
  ghost predicate Complete(g: Graph, processed: set<File>, r: Rule) {
    && !g.Missing(r.file) && r.file in g.includes
    && (forall d :: d in r.deps <==> g.Edge(r.file, d))
    && (forall d :: d in r.deps ==> d in processed)
  }

  /** Each prerequisite was emitted before the rule, or the rule is for a header and the prerequisite
      leads back to it. */
  ghost predicate InOrder(g: Graph, out: seq<Rule>) {
    forall i, d :: 0 <= i < |out| && d in out[i].deps ==>
      d in Emitted(out[..i]) || (out[i].HeaderRule? && Reach(g, d, out[i].file))
  }

  ghost predicate Consistent(g: Graph, processed: set<File>, out: seq<Rule>) {
    && Emitted(out) <= processed <= g.includes.Keys
    && OneRuleEach(out)
    && (forall i :: 0 <= i < |out| ==> Complete(g, processed, out[i]))
    && InOrder(g, out)
  }

  /** Headers whose includes are still being visited. */
  ghost function Open(processed: set<File>, out: seq<Rule>): set<File> {
    processed - Emitted(out)
  }

  lemma ConsistentMono(g: Graph, processed: set<File>, more: set<File>, out: seq<Rule>)
    requires Consistent(g, processed, out) && processed <= more <= g.includes.Keys
    ensures Consistent(g, more, out)
  {}

  lemma ConsistentAppend(g: Graph, processed: set<File>, out: seq<Rule>, r: Rule)
    requires Consistent(g, processed, out) && Complete(g, processed, r)
    requires r.HeaderRule? ==> r.file in Open(processed, out)
    requires forall d :: d in r.deps ==> d in Emitted(out) || (r.HeaderRule? && Reach(g, d, r.file))
    ensures Consistent(g, processed, out + [r])
  {
    hide Reach, Complete;
    var next := out + [r];
    EmittedAppend(out, r);
    forall i | 0 <= i < |out| ensures next[..i] == out[..i] && next[i] == out[i] {}
    assert next[..|out|] == out;
    forall i | 0 <= i < |out| && out[i].HeaderRule? && r.HeaderRule? ensures out[i].file != r.file {
      assert out[i].file in Emitted(out);
    }
  }

  // ---------------------------------------------------------------- the walk

  class Generator {
    const g: Graph
    var processed: set<File>
    var out: seq<Rule>

    ghost predicate Valid()
      reads this
    {
      g.Valid() && Consistent(g, processed, out)
    }

    constructor (graph: Graph)
      requires graph.Valid()
      ensures g == graph && processed == {} && out == [] && Valid()
    {
      g := graph;
      processed := {};
      out := [];
    }

    /** Visits every include of `f`. It fails exactly at an include that cannot be found. */
    method AddRuleForEachInclude(f: File) returns (ok: bool)
      requires Valid() && f in g.includes
      requires forall x :: x in Open(processed, out) ==> Reach(g, x, f)
      modifies this
      ensures ok ==>
                && Valid() && old(processed) <= processed && old(out) <= out
                && Open(processed, out) == old(Open(processed, out))
                && !g.Missing(f) && (forall d :: g.Edge(f, d) ==> d in processed)
                && (forall x :: x in processed - old(processed) ==> Includes(g, f, x))
      ensures !ok ==> exists x :: Reach(g, f, x) && g.Missing(x)
      decreases |g.includes.Keys - processed|, 2
    {
      hide Consistent, Reach, Emitted;
      var includes := g.includes[f];
      for i := 0 to |includes|
        invariant Valid() && old(processed) <= processed && old(out) <= out
        invariant Open(processed, out) == old(Open(processed, out))
        invariant None !in includes[..i] && forall d :: Some(d) in includes[..i] ==> d in processed
        invariant forall x :: x in processed - old(processed) ==> Includes(g, f, x)
      {
        if includes[i].None? {
          ReachSelf(g, f);
          return false;
        }
        var d := includes[i].value;
        assert g.Edge(f, d);
        ghost var before := processed;
        forall x | x in Open(processed, out) ensures Reach(g, x, d) { ReachEdge(g, x, f, d); }
        SubsetSize(g.includes.Keys - processed, g.includes.Keys - old(processed));
        ok := AddHRule(d);
        if !ok {
          ghost var x :| Reach(g, d, x) && g.Missing(x);
          EdgeReach(g, f, d, x);
          return;
        }
        forall x | x in processed - old(processed) ensures Includes(g, f, x) {
          assert x !in before ==> g.Edge(f, d) && Reach(g, d, x);
        }
      }
      assert includes[..|includes|] == includes;
      ok := true;
    }

    /** Writes the rules of header `h` and of everything it includes, unless `h` is marked already. */
    method AddHRule(h: File) returns (ok: bool)
      requires Valid() && h in g.includes
      requires forall x :: x in Open(processed, out) ==> Reach(g, x, h)
      modifies this
      ensures ok ==>
                && Valid() && old(processed) + {h} <= processed && old(out) <= out
                && Open(processed, out) == old(Open(processed, out))
                && (forall x :: x in processed - old(processed) ==> Reach(g, h, x))
      ensures !ok ==> exists x :: Reach(g, h, x) && g.Missing(x)
      decreases |g.includes.Keys - processed|, 1
    {
      hide Consistent, Reach, Emitted;
      if h in processed {
        return true;
      }
      ghost var gray := Open(processed, out);
      ReachSelf(g, h);
      OpenMark(g, processed, out, h);
      processed := processed + {h};
      ok := AddRuleForEachInclude(h);
      if !ok { return; }
      var rule := HeaderRule(h, Found(g.includes[h]));
      assert forall d :: d in rule.deps <==> g.Edge(h, d);
      assert Open(processed, out) == gray + {h};
      forall x | x in processed - old(processed) ensures Reach(g, h, x) { ReachSplit(g, h, x); }
      forall d | d in rule.deps ensures d in Emitted(out) || Reach(g, d, h) {
        assert d in processed;
      }
      ConsistentAppend(g, processed, out, rule);
      EmittedAppend(out, rule);
      out := out + [rule];
    }

    /** Writes the rules needed by one source file, then the rule of its object file. */
    method AddCppRules(f: File) returns (ok: bool)
      requires Valid() && f in g.includes && Open(processed, out) == {}
      modifies this
      ensures ok ==>
                && Valid() && Open(processed, out) == {} && old(processed) <= processed
                && |old(out)| < |out| && old(out) <= out && out[|out| - 1] == ObjectRule(f, Found(g.includes[f]))
                && !g.Missing(f) && (forall d :: g.Edge(f, d) ==> d in processed)
                && (forall x :: x in processed - old(processed) ==> Includes(g, f, x))
      ensures !ok ==> exists x :: Reach(g, f, x) && g.Missing(x)
    {
      hide Consistent, Reach, Emitted;
      ok := AddRuleForEachInclude(f);
      if !ok { return; }
      var rule := ObjectRule(f, Found(g.includes[f]));
      assert forall d :: d in rule.deps ==> d in processed && d !in Open(processed, out);
      ConsistentAppend(g, processed, out, rule);
      EmittedAppend(out, rule);
      out := out + [rule];
    }

    /** Processes the source files of a build. It fails exactly when some needed include is missing;
        otherwise the headers with a rule are exactly those the sources include, directly or
        transitively, each has one rule, and every header named as a prerequisite has a rule. */
    method AddSources(sources: seq<File>) returns (ok: bool)
      requires g.Valid() && processed == {} && out == []
      requires forall f :: f in sources ==> f in g.includes
      modifies this
      ensures ok <==> !exists f, x :: f in sources && Reach(g, f, x) && g.Missing(x)
      ensures ok ==>
                && OneRuleEach(out) && InOrder(g, out)
                && (forall h :: h in Emitted(out) <==> Needed(g, sources, h))
                && (forall f :: f in sources ==> ObjectRule(f, Found(g.includes[f])) in out)
                && (forall i :: 0 <= i < |out| ==> Complete(g, Emitted(out), out[i]))
    {
      hide Consistent, Reach, Emitted, Includes;
      NothingYet(g);
      for k := 0 to |sources|
        invariant Valid() && Open(processed, out) == {}
        invariant forall f, d :: f in sources[..k] && g.Edge(f, d) ==> d in processed
        invariant forall f :: f in sources[..k] ==> !g.Missing(f) && ObjectRule(f, Found(g.includes[f])) in out
        invariant forall x :: x in processed ==> Needed(g, sources, x)
      {
        ghost var before, rules := processed, out;
        ok := AddCppRules(sources[k]);
        if !ok {
          ghost var x :| Reach(g, sources[k], x) && g.Missing(x);
          assert sources[k] in sources;
          return;
        }
        assert forall r :: r in rules ==> r in out;
        assert out[|out| - 1] in out;
        forall x | x in processed ensures Needed(g, sources, x) {
          assert x !in before ==> sources[k] in sources && Includes(g, sources[k], x);
        }
      }
      assert sources[..|sources|] == sources;
      Finished(g, sources, processed, out);
      ok := true;
    }
  }

  /** `h` is included, directly or transitively, by one of the sources. */
  ghost predicate Needed(g: Graph, sources: seq<File>, h: File) {
    exists f :: f in sources && Includes(g, f, h)
  }

  /** Once all sources are processed, the marked headers are the needed ones and nothing is missing. */
  lemma Finished(g: Graph, sources: seq<File>, processed: set<File>, out: seq<Rule>)
    requires Consistent(g, processed, out) && Open(processed, out) == {}
    requires forall f, d :: f in sources && g.Edge(f, d) ==> d in processed
    requires forall f :: f in sources ==> !g.Missing(f)
    requires forall x :: x in processed ==> Needed(g, sources, x)
    ensures Emitted(out) == processed && forall h :: h in processed <==> Needed(g, sources, h)
    ensures !exists f, x :: f in sources && Reach(g, f, x) && g.Missing(x)
    ensures OneRuleEach(out) && InOrder(g, out) && forall i :: 0 <= i < |out| ==> Complete(g, processed, out[i])
  {
    hide Reach, Emitted, InOrder, OneRuleEach, Needed, Includes;
    assert Emitted(out) == processed by {
      assert processed == (processed - Emitted(out)) + Emitted(out);
    }
    forall h | h in processed ensures !g.Missing(h) && forall d :: g.Edge(h, d) ==> d in processed {
      RuleOf(out, h);
    }
    forall f, h | f in sources && Includes(g, f, h) ensures h in processed {
      ClosedIncludes(g, processed, f, h);
    }
    forall h ensures Needed(g, sources, h) <==> exists f :: f in sources && Includes(g, f, h) {
      NeededMeans(g, sources, h);
    }
    forall f, x | f in sources && Reach(g, f, x) ensures !g.Missing(x) {
      ReachSplit(g, f, x);
    }
  }

  lemma RuleOf(out: seq<Rule>, h: File)
    requires h in Emitted(out)
    ensures exists i :: 0 <= i < |out| && out[i].HeaderRule? && out[i].file == h
  {}

  lemma NeededMeans(g: Graph, sources: seq<File>, h: File)
    ensures Needed(g, sources, h) <==> exists f :: f in sources && Includes(g, f, h)
  {}

  lemma ClosedIncludes(g: Graph, s: set<File>, a: File, b: File)
    requires Includes(g, a, b) && (forall d :: g.Edge(a, d) ==> d in s)
    requires forall a, b :: a in s && g.Edge(a, b) ==> b in s
    ensures b in s
  {
    var d :| g.Edge(a, d) && Reach(g, d, b);
    var p :| Path(g, p) && p[0] == d && p[|p| - 1] == b;
    ClosedPath(g, s, p);
  }

  lemma NothingYet(g: Graph)
    ensures Consistent(g, {}, []) && Open({}, []) == {}
  {}

  /** The includes that were found, in order. */
  function Found(includes: seq<Option<File>>): (r: seq<File>)
    ensures forall d :: d in r <==> Some(d) in includes
  {
    if includes == [] then []
    else
      assert includes == [includes[0]] + includes[1..];
      (if includes[0].Some? then [includes[0].value] else []) + Found(includes[1..])
  }

  lemma OpenMark(g: Graph, processed: set<File>, out: seq<Rule>, h: File)
    requires Consistent(g, processed, out) && h !in processed && h in g.includes
    ensures Consistent(g, processed + {h}, out) && Open(processed + {h}, out) == Open(processed, out) + {h}
    ensures |g.includes.Keys - (processed + {h})| < |g.includes.Keys - processed|
  {
    ConsistentMono(g, processed, processed + {h}, out);
    assert h !in Emitted(out);
    assert g.includes.Keys - processed == (g.includes.Keys - (processed + {h})) + {h};
  }

  // ---------------------------------------------------------------- order of the rules

  /** Every rule comes after the rules of all its prerequisites. */
  ghost predicate PrerequisitesFirst(out: seq<Rule>) {
    forall i, d :: 0 <= i < |out| && d in out[i].deps ==> d in Emitted(out[..i])
  }

  /** No header with a rule includes itself, directly or transitively. */
  ghost predicate Acyclic(g: Graph, out: seq<Rule>) {
    forall h :: h in Emitted(out) ==> !Includes(g, h, h)
  }

  lemma EmittedPrefix(out: seq<Rule>, j: nat, i: nat)
    requires j <= i <= |out|
    ensures Emitted(out[..j]) <= Emitted(out[..i]) <= Emitted(out)
  {
    forall f | f in Emitted(out[..j]) ensures f in Emitted(out[..i]) {
      var k :| 0 <= k < j && out[..j][k].HeaderRule? && out[..j][k].file == f;
      assert out[..i][k] == out[k];
    }
    forall f | f in Emitted(out[..i]) ensures f in Emitted(out) {
      var k :| 0 <= k < i && out[..i][k].HeaderRule? && out[..i][k].file == f;
      assert out[..i][k] == out[k];
    }
  }

  /** If prerequisites come first, so does everything a rule's file includes transitively. */
  lemma TransitivelyFirst(g: Graph, out: seq<Rule>, i: nat, x: File)
    requires i < |out| && (forall k :: 0 <= k < |out| ==> Complete(g, Emitted(out), out[k]))
    requires PrerequisitesFirst(out) && Includes(g, out[i].file, x)
    ensures x in Emitted(out[..i])
  {
    hide Reach, Includes;
    var s := Emitted(out[..i]);
    forall a, b | a in s && g.Edge(a, b) ensures b in s {
      var k :| 0 <= k < i && out[..i][k].HeaderRule? && out[..i][k].file == a;
      assert b in out[k].deps;
      EmittedPrefix(out, k, i);
    }
    ClosedIncludes(g, s, out[i].file, x);
  }

  /** The rules come in dependency order exactly when the include graph below the sources is acyclic. */
  lemma OrderedIffAcyclic(g: Graph, out: seq<Rule>)
    requires OneRuleEach(out) && InOrder(g, out) && forall k :: 0 <= k < |out| ==> Complete(g, Emitted(out), out[k])
    ensures PrerequisitesFirst(out) <==> Acyclic(g, out)
  {
    hide Reach;
    if PrerequisitesFirst(out) {
      forall h | h in Emitted(out) ensures !Includes(g, h, h) {
        var i :| 0 <= i < |out| && out[i].HeaderRule? && out[i].file == h;
        if Includes(g, h, h) {
          TransitivelyFirst(g, out, i, h);
        }
      }
    }
    if Acyclic(g, out) {
      forall i, d | 0 <= i < |out| && d in out[i].deps ensures d in Emitted(out[..i]) {
        assert g.Edge(out[i].file, d);
        assert out[i].HeaderRule? ==> out[i].file in Emitted(out);
      }
    }
  }
}
