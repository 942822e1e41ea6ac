/** What goes wrong when the mutex is released directly and once more by the lock object: with two or more
    threads a run deadlocks from every queue, and from every queue on which a second box is taken a run
    takes one box twice and then follows a null pointer. */
module ReleaseTwice {
  import opened Fragmentation
  import opened ThreadProtocol

  ghost predicate Reaches(su: Setup, s: System, s': System) {
    exists run :: Runs(su, s, run) && Run(su, s, run) == s'
  }

  lemma Here(su: Setup, s: System)
    ensures Reaches(su, s, s)
  {
    assert Runs(su, s, []) && Run(su, s, []) == s;
  }

  lemma {:induction false} RunThen(su: Setup, s: System, run: seq<nat>, t: nat)
    requires Runs(su, s, run) && Moves(su, Run(su, s, run), t)
    ensures Runs(su, s, run + [t]) && Run(su, s, run + [t]) == Move(su, Run(su, s, run), t)
    decreases |run|
  {
    hide Moves, Move;
    if run == [] {
      assert run + [t] == [t] && [t][1..] == [];
    } else {
      RunThen(su, Move(su, s, run[0]), run[1..], t);
      assert (run + [t])[1..] == run[1..] + [t];
    }
  }

  lemma Then(su: Setup, s: System, s': System, t: nat, s'': System)
    requires Reaches(su, s, s') && Moves(su, s', t) && Move(su, s', t) == s''
    ensures Reaches(su, s, s'')
  {
    hide Moves, Move;
    var run :| Runs(su, s, run) && Run(su, s, run) == s';
    RunThen(su, s, run, t);
  }

  /** The first two threads are at the given places, the others outside. */
  ghost function Two(n: nat, a: Place, b: Place): seq<Place>
    requires n >= 2
  {
    seq(n, i => if i == 0 then a else if i == 1 then b else Outside)
  }

  lemma TwoMoves(n: nat, a: Place, b: Place, p: Place)
    requires n >= 2
    ensures Two(n, a, b)[0] == a && Two(n, a, b)[1] == b && |Two(n, a, b)| == n
    ensures Two(n, a, b)[0 := p] == Two(n, p, b) && Two(n, a, b)[1 := p] == Two(n, a, p)
  {}

  ghost function Sys(locked: bool, pending: seq<Work>, active: int, kept: seq<Kept>, n: nat, a: Place, b: Place): System
    requires n >= 2
  {
    System(locked, pending, active, kept, false, Two(n, a, b))
  }

  lemma BeginTwo(n: nat)
    requires n >= 2
    ensures seq(n, i => Outside) == Two(n, Outside, Outside)
  {}

  // ---------------------------------------------------------------- the first thread alone

  /** The queue after the first box has been processed. */
  ghost function AfterFirst(su: Setup, q: seq<Work>): seq<Work>
    requires q != [] && Fits(su, q[0])
  {
    match Process(su, q[0])
    case Halve(l, u) => q[1..] + [u, l]
    case _ => q[1..]
  }

  ghost predicate AllFitting(su: Setup, q: seq<Work>) {
    forall w :: w in q ==> Fits(su, w)
  }

  lemma AfterFirstCosts(su: Setup, q: seq<Work>)
    requires q != [] && AllFitting(su, q)
    ensures AllFitting(su, AfterFirst(su, q)) && QueueCost(su, AfterFirst(su, q)) < QueueCost(su, q)
  {
    hide Process, Fits, Cost, QueueCost;
    HeadCost(su, q);
    CostPositive(su, q[0]);
    FitsMeans(su, q[0]);
    if Process(su, q[0]).Halve? {
      var o := Process(su, q[0]);
      HalvingCosts(su, q[0]);
      PairCost(su, o.upper, o.lower);
      QueueCostAppend(su, q[1..], [o.upper, o.lower]);
    }
  }

  /** The first thread takes a box and begins to work on it. */
  lemma FirstTakes(su: Setup, n: nat, start: System, q: seq<Work>, kept: seq<Kept>)
    requires n >= 2 && q != [] && Reaches(su, start, Sys(false, q, n, kept, n, Outside, Outside))
    ensures Reaches(su, start, Sys(false, q[1..], n, kept, n, Working(q[0]), Outside))
  {
    hide Process, Reaches, Two;
    var d, o := q[0], Outside;
    TwoMoves(n, o, o, Test(New));
    Then(su, start, Sys(false, q, n, kept, n, o, o), 0, Sys(true, q, n, kept, n, Test(New), o));
    TwoMoves(n, Test(New), o, Choose(New, false));
    Then(su, start, Sys(true, q, n, kept, n, Test(New), o), 0, Sys(true, q, n, kept, n, Choose(New, false), o));
    TwoMoves(n, Choose(New, false), o, Taking(New, d));
    Then(su, start, Sys(true, q, n, kept, n, Choose(New, false), o), 0, Sys(true, q, n, kept, n, Taking(New, d), o));
    TwoMoves(n, Taking(New, d), o, Taken(d));
    Then(su, start, Sys(true, q, n, kept, n, Taking(New, d), o), 0, Sys(true, q[1..], n, kept, n, Taken(d), o));
    TwoMoves(n, Taken(d), o, Working(d));
    Then(su, start, Sys(true, q[1..], n, kept, n, Taken(d), o), 0, Sys(false, q[1..], n, kept, n, Working(d), o));
  }

  /** It finishes the box; its lock object still owns the mutex. */
  lemma FirstFinishes(su: Setup, n: nat, start: System, q: seq<Work>, kept: seq<Kept>) returns (kept': seq<Kept>)
    requires n >= 2 && q != [] && AllFitting(su, q) && Reaches(su, start, Sys(false, q, n, kept, n, Outside, Outside))
    ensures Reaches(su, start, Sys(false, AfterFirst(su, q), n, kept', n, Ending, Outside))
  {
    hide Process, Reaches, Two, NotifyAll;
    FirstTakes(su, n, start, q, kept);
    var d, r, o := q[0], q[1..], Outside;
    FitsMeans(su, d);
    var before := Sys(false, r, n, kept, n, Working(d), o);
    match Process(su, d)
    case Drop =>
      kept' := kept;
      TwoMoves(n, Working(d), o, Ending);
      Then(su, start, before, 0, Sys(false, r, n, kept, n, Ending, o));
    case Keep(v, c) =>
      kept' := kept + [Kept(v, c)];
      TwoMoves(n, Working(d), o, Ending);
      Then(su, start, before, 0, Sys(false, r, n, kept', n, Ending, o));
    case Halve(l, u) =>
      kept' := kept;
      var q' := r + [u, l];
      TwoMoves(n, Working(d), o, Joining(d));
      Then(su, start, before, 0, Sys(false, r, n, kept, n, Joining(d), o));
      TwoMoves(n, Joining(d), o, Adding(d));
      Then(su, start, Sys(false, r, n, kept, n, Joining(d), o), 0, Sys(true, r, n, kept, n, Adding(d), o));
      TwoMoves(n, Adding(d), o, Added);
      NobodySleeps(n);
      Then(su, start, Sys(true, r, n, kept, n, Adding(d), o), 0, Sys(true, q', n, kept, n, Added, o));
      TwoMoves(n, Added, o, Ending);
      Then(su, start, Sys(true, q', n, kept, n, Added, o), 0, Sys(false, q', n, kept, n, Ending, o));
  }

  lemma NobodySleeps(n: nat)
    requires n >= 2
    ensures NotifyAll(Two(n, Added, Outside)) == Two(n, Added, Outside)
  {}

  lemma FirstRestarts(su: Setup, n: nat, start: System, q: seq<Work>, kept: seq<Kept>)
    requires n >= 2 && Reaches(su, start, Sys(false, q, n, kept, n, Ending, Outside))
    ensures Reaches(su, start, Sys(false, q, n, kept, n, Outside, Outside))
  {
    hide Process, Reaches, Two;
    TwoMoves(n, Ending, Outside, Outside);
    Then(su, start, Sys(false, q, n, kept, n, Ending, Outside), 0, Sys(false, q, n, kept, n, Outside, Outside));
  }

  /** Working alone, the first thread gets to the end of an iteration with nothing left in the queue. */
  lemma {:induction false} AloneToEmpty(su: Setup, n: nat, start: System, q: seq<Work>, kept: seq<Kept>) returns (kept': seq<Kept>)
    requires n >= 2 && q != [] && AllFitting(su, q) && Reaches(su, start, Sys(false, q, n, kept, n, Outside, Outside))
    ensures Reaches(su, start, Sys(false, [], n, kept', n, Ending, Outside))
    decreases QueueCost(su, q)
  {
    hide AfterFirst, Reaches, QueueCost, Sys, Fits;
    AfterFirstCosts(su, q);
    kept' := FirstFinishes(su, n, start, q, kept);
    var q' := AfterFirst(su, q);
    if q' != [] {
      FirstRestarts(su, n, start, q', kept');
      kept' := AloneToEmpty(su, n, start, q', kept');
    }
  }

  /** A second box is taken from the queue: there are two, or the only one is halved. */
  ghost predicate SecondBox(su: Setup, q: seq<Work>) {
    |q| >= 2 || (|q| == 1 && Fits(su, q[0]) && Process(su, q[0]).Halve?)
  }

  /** Then it also gets there with one box left. */
  lemma {:induction false} AloneToOne(su: Setup, n: nat, start: System, q: seq<Work>, kept: seq<Kept>) returns (w: Work, kept': seq<Kept>)
    requires n >= 2 && SecondBox(su, q) && AllFitting(su, q) && Reaches(su, start, Sys(false, q, n, kept, n, Outside, Outside))
    ensures Reaches(su, start, Sys(false, [w], n, kept', n, Ending, Outside))
    decreases QueueCost(su, q)
  {
    hide Reaches, QueueCost, Sys, Process, Fits;
    AfterFirstCosts(su, q);
    kept' := FirstFinishes(su, n, start, q, kept);
    var q' := AfterFirst(su, q);
    FitsMeans(su, q[0]);
    if |q'| == 1 {
      w := q'[0];
      assert q' == [w];
    } else {
      FirstRestarts(su, n, start, q', kept');
      w, kept' := AloneToOne(su, n, start, q', kept');
    }
  }

  lemma BeginSys(boxes: seq<Work>, n: nat)
    requires n >= 2
    ensures Begin(boxes, n) == Sys(false, boxes, n, [], n, Outside, Outside)
  {
    BeginTwo(n);
  }

  // ---------------------------------------------------------------- deadlock

  /** The second thread reads the counter, and the first one releases the mutex again. */
  lemma SecondReads(su: Setup, n: nat, start: System, kept: seq<Kept>)
    requires n >= 2 && !su.integer && Reaches(su, start, Sys(false, [], n, kept, n, Ending, Outside))
    ensures Reaches(su, start, Sys(false, [], n, kept, n, Outside, Store(New, n)))
  {
    hide Process, Reaches, Two;
    var e := Ending;
    TwoMoves(n, e, Outside, Test(New));
    Then(su, start, Sys(false, [], n, kept, n, e, Outside), 1, Sys(true, [], n, kept, n, e, Test(New)));
    TwoMoves(n, e, Test(New), Load(New));
    Then(su, start, Sys(true, [], n, kept, n, e, Test(New)), 1, Sys(true, [], n, kept, n, e, Load(New)));
    TwoMoves(n, e, Load(New), Store(New, n));
    Then(su, start, Sys(true, [], n, kept, n, e, Load(New)), 1, Sys(true, [], n, kept, n, e, Store(New, n)));
    TwoMoves(n, e, Store(New, n), Outside);
    Then(su, start, Sys(true, [], n, kept, n, e, Store(New, n)), 0, Sys(false, [], n, kept, n, Outside, Store(New, n)));
  }

  /** The first thread lowers the counter and sleeps. */
  lemma FirstSleeps(su: Setup, n: nat, start: System, kept: seq<Kept>)
    requires n >= 2 && Reaches(su, start, Sys(false, [], n, kept, n, Outside, Store(New, n)))
    ensures Reaches(su, start, Sys(false, [], n - 1, kept, n, Asleep(false), Store(New, n)))
  {
    hide Process, Reaches, Two;
    var b := Store(New, n);
    TwoMoves(n, Outside, b, Test(New));
    Then(su, start, Sys(false, [], n, kept, n, Outside, b), 0, Sys(true, [], n, kept, n, Test(New), b));
    TwoMoves(n, Test(New), b, Load(New));
    Then(su, start, Sys(true, [], n, kept, n, Test(New), b), 0, Sys(true, [], n, kept, n, Load(New), b));
    TwoMoves(n, Load(New), b, Store(New, n));
    Then(su, start, Sys(true, [], n, kept, n, Load(New), b), 0, Sys(true, [], n, kept, n, Store(New, n), b));
    TwoMoves(n, Store(New, n), b, Check(New));
    Then(su, start, Sys(true, [], n, kept, n, Store(New, n), b), 0, Sys(true, [], n - 1, kept, n, Check(New), b));
    TwoMoves(n, Check(New), b, Asleep(false));
    Then(su, start, Sys(true, [], n - 1, kept, n, Check(New), b), 0, Sys(false, [], n - 1, kept, n, Asleep(false), b));
  }

  /** The second thread stores what it has read: one update is lost, and it sleeps too. */
  lemma SecondSleeps(su: Setup, n: nat, start: System, kept: seq<Kept>)
    requires n >= 2 && Reaches(su, start, Sys(false, [], n - 1, kept, n, Asleep(false), Store(New, n)))
    ensures Reaches(su, start, Sys(false, [], n - 1, kept, n, Asleep(false), Asleep(false)))
  {
    hide Process, Reaches, Two;
    var z := Asleep(false);
    TwoMoves(n, z, Store(New, n), Check(New));
    Then(su, start, Sys(false, [], n - 1, kept, n, z, Store(New, n)), 1, Sys(false, [], n - 1, kept, n, z, Check(New)));
    TwoMoves(n, z, Check(New), z);
    Then(su, start, Sys(false, [], n - 1, kept, n, z, Check(New)), 1, Sys(false, [], n - 1, kept, n, z, z));
  }

  /** The first `m` threads sleep, thread `m` is at place `p`, the others are outside. */
  ghost function Line(n: nat, m: nat, p: Place): seq<Place> {
    seq(n, i => if i < m then Asleep(false) else if i == m then p else Outside)
  }

  lemma LineMoves(n: nat, m: nat, p: Place, q: Place)
    requires m < n
    ensures Line(n, m, p)[m] == p && |Line(n, m, p)| == n && Line(n, m, p)[m := q] == Line(n, m, q)
    ensures Line(n, m, Asleep(false)) == Line(n, m + 1, Outside)
  {}

  /** The others go to sleep one after the other; the lost update keeps the counter above zero. */
  lemma {:induction false} OthersSleep(su: Setup, n: nat, m: nat, start: System, kept: seq<Kept>)
    requires 2 <= m <= n && Reaches(su, start, System(false, [], n - m + 1, kept, false, Line(n, m, Outside)))
    ensures Reaches(su, start, System(false, [], 1, kept, false, Line(n, n, Outside)))
    decreases n - m
  {
    hide Process, Reaches, Line;
    if m < n {
      var c := n - m + 1;
      LineMoves(n, m, Outside, Test(New));
      Then(su, start, System(false, [], c, kept, false, Line(n, m, Outside)), m, System(true, [], c, kept, false, Line(n, m, Test(New))));
      LineMoves(n, m, Test(New), Load(New));
      Then(su, start, System(true, [], c, kept, false, Line(n, m, Test(New))), m, System(true, [], c, kept, false, Line(n, m, Load(New))));
      LineMoves(n, m, Load(New), Store(New, c));
      Then(su, start, System(true, [], c, kept, false, Line(n, m, Load(New))), m, System(true, [], c, kept, false, Line(n, m, Store(New, c))));
      LineMoves(n, m, Store(New, c), Check(New));
      Then(su, start, System(true, [], c, kept, false, Line(n, m, Store(New, c))), m, System(true, [], c - 1, kept, false, Line(n, m, Check(New))));
      LineMoves(n, m, Check(New), Asleep(false));
      Then(su, start, System(true, [], c - 1, kept, false, Line(n, m, Check(New))), m,
           System(false, [], c - 1, kept, false, Line(n, m, Asleep(false))));
      OthersSleep(su, n, m + 1, start, kept);
    }
  }

  /** From every queue that is not empty, with two or more threads, some run ends with every thread asleep and
      nobody to wake them. */
  lemma SomeRunDeadlocks(su: Setup, boxes: seq<Work>, n: nat) returns (s: System)
    requires n >= 2 && !su.integer && boxes != [] && AllFitting(su, boxes)
    ensures Reaches(su, Begin(boxes, n), s)
    ensures !GoesOn(su, s) && s.pending == [] && !s.fault && forall t :: 0 <= t < n == |s.places| ==> s.places[t] == Asleep(false)
  {
    hide Process, Reaches, Begin, Runs, Run, Fits;
    var start := Begin(boxes, n);
    BeginSys(boxes, n);
    Here(su, start);
    var kept := AloneToEmpty(su, n, start, boxes, []);
    SecondReads(su, n, start, kept);
    FirstSleeps(su, n, start, kept);
    SecondSleeps(su, n, start, kept);
    assert Two(n, Asleep(false), Asleep(false)) == Line(n, 2, Outside);
    OthersSleep(su, n, 2, start, kept);
    s := System(false, [], 1, kept, false, Line(n, n, Outside));
    assert s.places[0] == Asleep(false);
  }

  // ---------------------------------------------------------------- one box in two threads

  /** From every queue on which a second box is taken, with two or more threads, some run hands one box to two
      threads, and the slower one then follows the null pointer at the end of the queue. */
  lemma SomeRunFaults(su: Setup, boxes: seq<Work>, n: nat) returns (w: Work, shared: System, s: System)
    requires n >= 2 && !su.integer && SecondBox(su, boxes) && AllFitting(su, boxes)
    ensures Reaches(su, Begin(boxes, n), shared) && |shared.places| == n && shared.pending == [w]
    ensures shared.places[0] == shared.places[1] == Taking(New, w)
    ensures Reaches(su, shared, s) && Reaches(su, Begin(boxes, n), s) && s.fault
  {
    hide Process, Reaches, Two, Begin, Fits;
    var start, kept := Begin(boxes, n), [];
    BeginSys(boxes, n);
    Here(su, start);
    w, kept := AloneToOne(su, n, start, boxes, []);
    BothTake(su, n, start, w, kept);
    var k := Taking(New, w);
    shared := Sys(true, [w], n, kept, n, k, k);
    TwoMoves(n, k, k, Taken(w));
    var last := Sys(true, [], n, kept, n, Taken(w), k);
    assert [w][1..] == [];
    Then(su, start, shared, 0, last);
    Here(su, shared);
    Then(su, shared, shared, 0, last);
    TwoMoves(n, Taken(w), k, Taken(w));
    s := last.(fault := true);
    Then(su, start, last, 1, s);
    Then(su, shared, last, 1, s);
  }

  lemma BothTake(su: Setup, n: nat, start: System, w: Work, kept: seq<Kept>)
    requires n >= 2 && !su.integer && Reaches(su, start, Sys(false, [w], n, kept, n, Ending, Outside))
    ensures Reaches(su, start, Sys(true, [w], n, kept, n, Taking(New, w), Taking(New, w)))
  {
    hide Process, Reaches, Two;
    var q, e, k, c := [w], Ending, Taking(New, w), Choose(New, false);
    TwoMoves(n, e, Outside, Test(New));
    Then(su, start, Sys(false, q, n, kept, n, e, Outside), 1, Sys(true, q, n, kept, n, e, Test(New)));
    TwoMoves(n, e, Test(New), c);
    Then(su, start, Sys(true, q, n, kept, n, e, Test(New)), 1, Sys(true, q, n, kept, n, e, c));
    TwoMoves(n, e, c, k);
    Then(su, start, Sys(true, q, n, kept, n, e, c), 1, Sys(true, q, n, kept, n, e, k));
    TwoMoves(n, e, k, Outside);
    Then(su, start, Sys(true, q, n, kept, n, e, k), 0, Sys(false, q, n, kept, n, Outside, k));
    TwoMoves(n, Outside, k, Test(New));
    Then(su, start, Sys(false, q, n, kept, n, Outside, k), 0, Sys(true, q, n, kept, n, Test(New), k));
    TwoMoves(n, Test(New), k, c);
    Then(su, start, Sys(true, q, n, kept, n, Test(New), k), 0, Sys(true, q, n, kept, n, c, k));
    TwoMoves(n, c, k, k);
    Then(su, start, Sys(true, q, n, kept, n, c, k), 0, Sys(true, q, n, kept, n, k, k));
  }

  // ---------------------------------------------------------------- a single box that is not halved

  /** The only box has not been taken; no iteration has ended yet, so the mutex still excludes. */
  ghost predicate Before(s: System, w: Work) {
    && !s.fault && s.pending == [w] && s.active == |s.places|
    && (forall i :: 0 <= i < |s.places| ==> s.places[i] in {Outside, Test(New), Choose(New, false), Taking(New, w)})
    && (forall i, j :: 0 <= i < j < |s.places| ==> s.places[i] == Outside || s.places[j] == Outside)
    && (!s.locked ==> forall i :: 0 <= i < |s.places| ==> s.places[i] == Outside)
  }

  /** It has been taken, and no box will be queued again. */
  ghost predicate After(su: Setup, s: System) {
    !s.fault && s.pending == [] && forall i :: 0 <= i < |s.places| ==> Spent(su, s.places[i])
  }

  ghost predicate Spent(su: Setup, p: Place) {
    && !p.Taking? && !p.Joining? && !p.Adding?
    && (p.Taken? || p.Working? ==> Fits(su, p.work) && !Process(su, p.work).Halve?)
  }

  lemma BeforeMoves(su: Setup, s: System, w: Work, t: nat)
    requires Before(s, w) && Moves(su, s, t) && Fits(su, w) && !Process(su, w).Halve?
    ensures Before(Move(su, s, t), w) || After(su, Move(su, s, t))
  {
    hide Process, Fits;
    var s' := Move(su, s, t);
    assert s.places[t] in {Outside, Test(New), Choose(New, false), Taking(New, w)};
    if s.places[t] == Taking(New, w) {
      forall i | 0 <= i < |s.places| ensures Spent(su, s'.places[i]) {}
    } else {
      assert s'.places == s.places[t := s'.places[t]];
    }
  }

  lemma AfterMoves(su: Setup, s: System, t: nat)
    requires After(su, s) && Moves(su, s, t)
    ensures After(su, Move(su, s, t))
  {
    hide Process, Fits;
    var s' := Move(su, s, t);
    assert Spent(su, s.places[t]);
    assert s'.pending == [] && !s'.fault;
    MoveFrame(su, s, t);
    forall i | 0 <= i < |s.places| ensures Spent(su, s'.places[i]) {
      assert Spent(su, s.places[i]);
      if i == t { MoveFollows(su, s, t); }
    }
  }

  lemma {:induction false} RunStaysSpent(su: Setup, s: System, w: Work, run: seq<nat>)
    requires Before(s, w) || After(su, s)
    requires Runs(su, s, run) && Fits(su, w) && !Process(su, w).Halve?
    ensures !Run(su, s, run).fault
    decreases |run|
  {
    hide Process, Fits, Move, Moves, Before, After;
    if run == [] {
      NotFaulted(su, s, w);
    } else {
      if Before(s, w) { BeforeMoves(su, s, w, run[0]); } else { AfterMoves(su, s, run[0]); }
      RunStaysSpent(su, Move(su, s, run[0]), w, run[1..]);
    }
  }

  lemma NotFaulted(su: Setup, s: System, w: Work)
    requires Before(s, w) || After(su, s)
    ensures !s.fault
  {}

  /** From such a queue, or an empty one, no run of any variant follows a null pointer. */
  lemma OneBoxIsSafe(su: Setup, boxes: seq<Work>, n: nat, run: seq<nat>)
    requires AllFitting(su, boxes) && !SecondBox(su, boxes) && Runs(su, Begin(boxes, n), run) && 0.0 < su.limit
    ensures !Run(su, Begin(boxes, n), run).fault
  {
    hide Runs, Run, Process;
    var s := Begin(boxes, n);
    if boxes == [] {
      var dot := Work([(0.0, 0.0)], seq(su.n, i => 0));
      DotIsSmall(su, dot);
      assert After(su, s);
      RunStaysSpent(su, s, dot, run);
    } else {
      assert boxes == [boxes[0]];
      assert Before(s, boxes[0]);
      RunStaysSpent(su, s, boxes[0], run);
    }
  }

  lemma DotIsSmall(su: Setup, w: Work)
    requires 0.0 < su.limit && w.box == [(0.0, 0.0)] && |w.marks| == su.n
    ensures Fits(su, w) && !Process(su, w).Halve?
  {
    assert Widest(w.box, 0) == (-1, -1.0) && Widest(w.box, 1) == (0, 0.0);
  }

  // ---------------------------------------------------------------- exactly when the protocol works

  ghost predicate AllMarked(su: Setup, boxes: seq<Work>) {
    forall w :: w in boxes ==> Truthful(su, w)
  }

  lemma MarkedFits(su: Setup, boxes: seq<Work>)
    requires AllMarked(su, boxes) && 0.0 < su.limit
    ensures AllFitting(su, boxes)
  {}

  /** From a queue that is not empty, no run of `n` threads deadlocks if and only if the mutex is released
      through the lock object or there is at most one thread. */
  lemma NoDeadlockIff(su: Setup, boxes: seq<Work>, n: nat)
    requires su.Sound() && AllMarked(su, boxes) && boxes != []
    ensures (forall s :: Reaches(su, Begin(boxes, n), s) ==> GoesOn(su, s)) <==> Orderly(su, n)
  {
    hide Truthful, Begin, Runs, Run, GoesOn, Fits;
    if Orderly(su, n) {
      forall s | Reaches(su, Begin(boxes, n), s) ensures GoesOn(su, s) {
        var run :| Runs(su, Begin(boxes, n), run) && Run(su, Begin(boxes, n), run) == s;
        NoDeadlock(su, boxes, n, run);
      }
    } else {
      MarkedFits(su, boxes);
      var s := SomeRunDeadlocks(su, boxes, n);
    }
  }

  /** No run follows a null pointer if and only if that condition holds or no second box is taken. */
  lemma NoFaultIff(su: Setup, boxes: seq<Work>, n: nat)
    requires su.Sound() && AllMarked(su, boxes)
    ensures (forall s :: Reaches(su, Begin(boxes, n), s) ==> !s.fault) <==> Orderly(su, n) || !SecondBox(su, boxes)
  {
    hide Truthful, Begin, Runs, Run, In, Inside, View, Fits, SecondBox;
    MarkedFits(su, boxes);
    if Orderly(su, n) || !SecondBox(su, boxes) {
      forall s | Reaches(su, Begin(boxes, n), s) ensures !s.fault {
        var run :| Runs(su, Begin(boxes, n), run) && Run(su, Begin(boxes, n), run) == s;
        if Orderly(su, n) {
          ExitIsSafe(su, boxes, n, run, []);
        } else {
          OneBoxIsSafe(su, boxes, n, run);
        }
      }
    } else {
      var w, shared, s := SomeRunFaults(su, boxes, n);
    }
  }
}
