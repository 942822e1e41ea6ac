/** Ids over the lifetimes of several variable tables that share one counter: new symbols take the
    counter's value, and destroying a table lowers the counter by its size. */
module SymbolLifetime {
  import opened Basics

  /** The counter, and the ids of the symbols of every live table, in order of creation. */
  datatype State = State(count: nat, live: seq<seq<nat>>)

  datatype Step = Create | Grow(table: nat) | Destroy(table: nat)

  predicate Enabled(s: State, step: Step) {
    match step
    case Create => true
    case Grow(k) => k < |s.live|
    case Destroy(k) => k < |s.live| && |s.live[k]| <= s.count
  }

  function Apply(s: State, step: Step): State
    requires Enabled(s, step)
  {
    match step
    case Create => s.(live := s.live + [[]])
    case Grow(k) => State(s.count + 1, s.live[k := s.live[k] + [s.count]])
    case Destroy(k) => State(s.count - |s.live[k]|, s.live[..k] + s.live[k + 1..])
  }

  ghost predicate Runs(s: State, steps: seq<Step>)
    decreases |steps|
  {
    steps == [] || (Enabled(s, steps[0]) && Runs(Apply(s, steps[0]), steps[1..]))
  }

  ghost function Run(s: State, steps: seq<Step>): State
    requires Runs(s, steps)
    decreases |steps|
  {
    if steps == [] then s else Run(Apply(s, steps[0]), steps[1..])
  }

  /** How often each id is in use. */
  ghost function Ids(live: seq<seq<nat>>): multiset<nat> {
    if live == [] then multiset{} else multiset(live[0]) + Ids(live[1..])
  }

  /** No two live symbols, of the same table or of different ones, have the same id. */
  ghost predicate DistinctIds(s: State) {
    forall id: nat :: Ids(s.live)[id] <= 1
  }

  /** Every id below the counter belongs to exactly one live symbol, and no other id to any. */
  ghost predicate Dense(s: State) {
    forall id: nat :: Ids(s.live)[id] == if id < s.count then 1 else 0
  }

  // ---------------------------------------------------------------- one step

  lemma {:induction false} IdsConcat(a: seq<seq<nat>>, b: seq<seq<nat>>)
    ensures Ids(a + b) == Ids(a) + Ids(b)
  {
    hide Ids;
    IdsStep(a);
    if a == [] {
      assert a + b == b;
    } else {
      IdsStep(a + b);
      IdsConcat(a[1..], b);
      assert (a + b)[0] == a[0] && (a + b)[1..] == a[1..] + b;
      SumAssociates(multiset(a[0]), Ids(a[1..]), Ids(b));
    }
  }

  lemma IdsStep(live: seq<seq<nat>>)
    ensures live == [] ==> Ids(live) == multiset{}
    ensures live != [] ==> Ids(live) == multiset(live[0]) + Ids(live[1..])
  {}

  lemma SumAssociates(a: multiset<nat>, b: multiset<nat>, c: multiset<nat>)
    ensures a + (b + c) == (a + b) + c
  {}

  lemma IdsSplit(live: seq<seq<nat>>, k: nat)
    requires k < |live|
    ensures Ids(live) == Ids(live[..k] + live[k + 1..]) + multiset(live[k])
  {
    assert live == live[..k] + live[k..];
    IdsConcat(live[..k], live[k..]);
    IdsConcat(live[..k], live[k + 1..]);
    assert live[k..][1..] == live[k + 1..];
  }

  lemma IdsAfter(s: State, step: Step)
    requires Enabled(s, step)
    ensures step.Create? ==> Ids(Apply(s, step).live) == Ids(s.live)
    ensures step.Grow? ==> Ids(Apply(s, step).live) == Ids(s.live) + multiset{s.count}
    ensures step.Destroy? ==> Ids(Apply(s, step).live) == Ids(s.live) - multiset(s.live[step.table])
                              && multiset(s.live[step.table]) <= Ids(s.live)
  {
    var t := Apply(s, step);
    match step
    case Create =>
      IdsConcat(s.live, [[]]);
      assert Ids([[]]) == multiset([]) + Ids([[]][1..]);
    case Grow(k) =>
      IdsSplit(s.live, k);
      IdsSplit(t.live, k);
      assert t.live[..k] == s.live[..k] && t.live[k + 1..] == s.live[k + 1..];
    case Destroy(k) =>
      IdsSplit(s.live, k);
  }

  /** In every run the counter is the number of live symbols, so a table can always be destroyed. */
  lemma {:induction false} CounterIsTotal(s: State, steps: seq<Step>, k: nat)
    requires |Ids(s.live)| == s.count && Runs(s, steps)
    ensures |Ids(Run(s, steps).live)| == Run(s, steps).count
    ensures k < |Run(s, steps).live| ==> Enabled(Run(s, steps), Destroy(k))
    decreases |steps|
  {
    if steps != [] {
      IdsAfter(s, steps[0]);
      CounterIsTotal(Apply(s, steps[0]), steps[1..], k);
    } else if k < |s.live| {
      IdsSplit(s.live, k);
    }
  }

  /** A new table, or a new symbol in any table, keeps the ids dense. */
  lemma GrowthKeepsDense(s: State, step: Step)
    requires Dense(s) && Enabled(s, step) && !step.Destroy?
    ensures Dense(Apply(s, step))
  {
    IdsAfter(s, step);
  }

  /** The ids of table `k` are the topmost ones. */
  ghost predicate Topmost(s: State, k: nat)
    requires Enabled(s, Destroy(k))
  {
    forall id :: id in s.live[k] ==> s.count - |s.live[k]| <= id
  }

  lemma OnceIsDistinct(v: seq<nat>)
    requires forall id: nat :: multiset(v)[id] <= 1
    ensures Distinct(v)
  {
    forall i, j | 0 <= i < j < |v| ensures v[i] != v[j] {
      if v[i] == v[j] { TwiceCounts(v, i, j); }
    }
  }

  lemma TwiceCounts(v: seq<nat>, i: nat, j: nat)
    requires i < j < |v| && v[i] == v[j]
    ensures multiset(v)[v[i]] >= 2
  {
    assert v == v[..j] + v[j..] && v[i] in v[..j] && v[j] in v[j..];
  }

  /** The ids of a table of a dense state are distinct ids below the counter. */
  lemma TableIds(s: State, k: nat)
    requires Dense(s) && Enabled(s, Destroy(k))
    ensures var gone := Elements(s.live[k]);
            && |gone| == |s.live[k]| && gone <= Range(0, s.count)
            && forall id: nat :: Ids(Apply(s, Destroy(k)).live)[id] == if id < s.count && id !in gone then 1 else 0
  {
    IdsAfter(s, Destroy(k));
    forall id: nat ensures multiset(s.live[k])[id] <= Ids(s.live)[id] {}
    OnceIsDistinct(s.live[k]);
    ElementsSize(s.live[k]);
    forall id: nat ensures id in Elements(s.live[k]) <==> id in multiset(s.live[k]) {}
  }

  /** Destroying a table keeps the ids dense exactly when its ids are the topmost ones. */
  lemma DestroyKeepsDenseIff(s: State, k: nat)
    requires Dense(s) && Enabled(s, Destroy(k))
    ensures Dense(Apply(s, Destroy(k))) <==> Topmost(s, k)
  {
    hide Range, Ids;
    var t, gone := Apply(s, Destroy(k)), Elements(s.live[k]);
    TableIds(s, k);
    forall id ensures id in gone <==> id in s.live[k] {}
    if Topmost(s, k) {
      SubsetSize(gone, Range(t.count, s.count));
    }
    if Dense(t) {
      forall id | id in gone ensures t.count <= id { assert Ids(t.live)[id] == 0; }
    }
  }

  // ---------------------------------------------------------------- exactly when ids stay distinct

  /** Destroying a table whose ids are not topmost leaves a live id at or above the counter. */
  lemma DestroyLeavesStray(s: State, k: nat) returns (id: nat)
    requires Dense(s) && Enabled(s, Destroy(k)) && !Topmost(s, k)
    ensures Ids(Apply(s, Destroy(k)).live)[id] == 1 && Apply(s, Destroy(k)).count <= id
  {
    hide Range, Ids;
    var t, gone := Apply(s, Destroy(k)), Elements(s.live[k]);
    TableIds(s, k);
    var low :| low in s.live[k] && low < t.count;
    assert low in gone;
    var rest := Range(0, s.count) - gone;
    assert |rest| == t.count;
    if rest <= Range(0, t.count) - {low} {
      SubsetSize(rest, Range(0, t.count) - {low});
      assert false;
    }
    id :| id in rest && id !in Range(0, t.count) - {low};
  }

  ghost function Grows(k: nat, n: nat): seq<Step> {
    seq(n, i => Grow(k))
  }

  lemma {:induction false} GrowTimes(s: State, k: nat, n: nat)
    requires k < |s.live|
    ensures Runs(s, Grows(k, n))
    ensures forall id: nat :: Ids(Run(s, Grows(k, n)).live)[id] == Ids(s.live)[id] + if s.count <= id < s.count + n then 1 else 0
    decreases n
  {
    hide Ids;
    if n > 0 {
      IdsAfter(s, Grow(k));
      GrowTimes(Apply(s, Grow(k)), k, n - 1);
      assert Grows(k, n)[0] == Grow(k) && Grows(k, n)[1..] == Grows(k, n - 1);
    }
  }

  /** A live id at or above the counter is handed out a second time by growing any table, its own or
      another. */
  lemma StrayIdCollides(s: State, id: nat, k: nat)
    requires id in Ids(s.live) && s.count <= id && k < |s.live|
    ensures Runs(s, Grows(k, id - s.count + 1)) && Ids(Run(s, Grows(k, id - s.count + 1)).live)[id] >= 2
  {
    GrowTimes(s, k, id - s.count + 1);
  }

  ghost predicate OnlyGrowth(steps: seq<Step>) {
    forall i :: 0 <= i < |steps| ==> !steps[i].Destroy?
  }

  lemma {:induction false} GrowthRunsStayDense(s: State, steps: seq<Step>)
    requires Dense(s) && Runs(s, steps) && OnlyGrowth(steps)
    ensures Dense(Run(s, steps))
    decreases |steps|
  {
    hide Dense;
    if steps != [] {
      GrowthKeepsDense(s, steps[0]);
      GrowthRunsStayDense(Apply(s, steps[0]), steps[1..]);
    }
  }

  /** After destroying a table of a dense state, live ids stay distinct whatever tables and symbols are
      created next if and only if the ids of the table were the topmost ones. */
  lemma DistinctForeverIff(s: State, k: nat)
    requires Dense(s) && Enabled(s, Destroy(k))
    ensures var t := Apply(s, Destroy(k));
            (forall steps :: Runs(t, steps) && OnlyGrowth(steps) ==> DistinctIds(Run(t, steps))) <==> Topmost(s, k)
  {
    hide Ids;
    var t := Apply(s, Destroy(k));
    if Topmost(s, k) {
      DestroyKeepsDenseIff(s, k);
      forall steps | Runs(t, steps) && OnlyGrowth(steps) ensures DistinctIds(Run(t, steps)) {
        GrowthRunsStayDense(t, steps);
      }
    } else {
      var id := DestroyLeavesStray(s, k);
      NoTableNoIds(t.live);
      StrayIdCollides(t, id, 0);
      assert OnlyGrowth(Grows(0, id - t.count + 1));
    }
  }

  lemma NoTableNoIds(live: seq<seq<nat>>)
    ensures Ids(live) != multiset{} ==> live != []
  {}

  /** A run from the start that creates two tables, destroys the older one and then grows the other: it
      ends with one id used twice in one table. */
  lemma ReachableCollision()
    ensures var steps := [Create, Grow(0), Create, Grow(1), Destroy(0), Grow(0)];
            && Runs(State(0, []), steps) && Run(State(0, []), steps) == State(2, [[1, 1]])
            && !DistinctIds(Run(State(0, []), steps))
  {
    hide Ids, Run, Runs, Apply;
    var s0, s1, s2, s3 := State(0, []), State(0, [[]]), State(1, [[0]]), State(1, [[0], []]);
    var s4, s5, s6 := State(2, [[0], [1]]), State(1, [[1]]), State(2, [[1, 1]]);
    var r5 := [Grow(0)] + [];
    var r4 := [Destroy(0)] + r5;
    var r3 := [Grow(1)] + r4;
    var r2 := [Create] + r3;
    var r1 := [Grow(0)] + r2;
    Nothing(s6);
    GrowOne(s5, 0, [1, 1]);
    assert s5.live[0 := [1, 1]] == s6.live;
    First(s5, Grow(0), [], s6);
    DestroyOld(s4);
    First(s4, Destroy(0), r5, s6);
    GrowOne(s3, 1, [1]);
    assert s3.live[1 := [1]] == s4.live;
    First(s3, Grow(1), r4, s6);
    CreateOne(s2);
    assert s2.live + [[]] == s3.live;
    First(s2, Create, r3, s6);
    GrowOne(s1, 0, [0]);
    assert s1.live[0 := [0]] == s2.live;
    First(s1, Grow(0), r2, s6);
    CreateOne(s0);
    assert s0.live + [[]] == s1.live;
    First(s0, Create, r1, s6);
    assert [Create] + r1 == [Create, Grow(0), Create, Grow(1), Destroy(0), Grow(0)];
    TwiceCounts([1, 1], 0, 1);
    SingleTable([1, 1]);
  }

  lemma Nothing(s: State)
    ensures Runs(s, []) && Run(s, []) == s
  {}

  lemma First(s: State, step: Step, rest: seq<Step>, end: State)
    requires Enabled(s, step) && Runs(Apply(s, step), rest) && Run(Apply(s, step), rest) == end
    ensures Runs(s, [step] + rest) && Run(s, [step] + rest) == end
  {
    assert ([step] + rest)[1..] == rest;
  }

  lemma CreateOne(s: State)
    ensures Enabled(s, Create) && Apply(s, Create) == State(s.count, s.live + [[]])
  {}

  lemma GrowOne(s: State, k: nat, ids: seq<nat>)
    requires k < |s.live| && ids == s.live[k] + [s.count]
    ensures Enabled(s, Grow(k)) && Apply(s, Grow(k)) == State(s.count + 1, s.live[k := ids])
  {}

  lemma DestroyOld(s: State)
    requires |s.live| == 2 && |s.live[0]| <= s.count
    ensures Enabled(s, Destroy(0)) && Apply(s, Destroy(0)) == State(s.count - |s.live[0]|, [s.live[1]])
  {}

  lemma SingleTable(ids: seq<nat>)
    ensures Ids([ids]) == multiset(ids)
  {
    assert [ids][1..] == [];
  }

  // ---------------------------------------------------------------- runs

  /** Only tables with the topmost ids are destroyed. */
  ghost predicate OrderlyRun(s: State, steps: seq<Step>)
    requires Runs(s, steps)
    decreases |steps|
  {
    steps == [] || ((steps[0].Destroy? ==> Topmost(s, steps[0].table)) && OrderlyRun(Apply(s, steps[0]), steps[1..]))
  }

  /** In every run that destroys only topmost tables, ids are always dense. */
  lemma {:induction false} OrderlyRunsStayDense(s: State, steps: seq<Step>)
    requires Dense(s) && Runs(s, steps) && OrderlyRun(s, steps)
    ensures Dense(Run(s, steps))
    decreases |steps|
  {
    hide Dense, Topmost;
    if steps != [] {
      if steps[0].Destroy? {
        DestroyKeepsDenseIff(s, steps[0].table);
      } else {
        GrowthKeepsDense(s, steps[0]);
      }
      OrderlyRunsStayDense(Apply(s, steps[0]), steps[1..]);
    }
  }

  /** Tables are used like a stack: only the newest one grows or is destroyed. */
  ghost predicate Nested(s: State, step: Step) {
    step.Create? || step.table == |s.live| - 1
  }

  ghost predicate NestedRun(s: State, steps: seq<Step>)
    requires Runs(s, steps)
    decreases |steps|
  {
    steps == [] || (Nested(s, steps[0]) && NestedRun(Apply(s, steps[0]), steps[1..]))
  }

  /** Each table owns a block of ids, later tables above earlier ones. */
  ghost predicate Layered(count: nat, live: seq<seq<nat>>) {
    live != [] ==>
      var top := live[|live| - 1];
      && |top| <= count && (forall id :: id in top ==> count - |top| <= id)
      && Layered(count - |top|, live[..|live| - 1])
  }

  lemma NestedStepKeepsLayers(s: State, step: Step)
    requires Layered(s.count, s.live) && Enabled(s, step) && Nested(s, step)
    ensures Layered(Apply(s, step).count, Apply(s, step).live)
    ensures step.Destroy? ==> Topmost(s, step.table)
  {
    var t, n := Apply(s, step), |s.live|;
    match step
    case Create =>
      assert t.live[..n] == s.live;
    case Grow(k) =>
      assert t.live[..k] == s.live[..k];
    case Destroy(k) =>
      assert t.live == s.live[..k];
  }

  lemma {:induction false} NestedRunsAreOrderly(s: State, steps: seq<Step>)
    requires Layered(s.count, s.live) && Runs(s, steps) && NestedRun(s, steps)
    ensures OrderlyRun(s, steps)
    decreases |steps|
  {
    hide Layered, Topmost;
    if steps != [] {
      NestedStepKeepsLayers(s, steps[0]);
      NestedRunsAreOrderly(Apply(s, steps[0]), steps[1..]);
    }
  }

  /** In every run that nests the tables' lifetimes, ids are always dense. */
  lemma NestedRunsStayDense(steps: seq<Step>)
    requires Runs(State(0, []), steps) && NestedRun(State(0, []), steps)
    ensures Dense(Run(State(0, []), steps))
  {
    NestedRunsAreOrderly(State(0, []), steps);
    OrderlyRunsStayDense(State(0, []), steps);
  }
}
