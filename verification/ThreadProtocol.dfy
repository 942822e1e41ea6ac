/** The threads statement by statement: the mutex, the condition variable, the shared counter and the
    shared queue. The integer variant releases the mutex through its lock object; the other variant
    releases the mutex directly, so that the lock object releases it once more at the end of every
    iteration. */
module ThreadProtocol {
  import opened Fragmentation

  /** How a thread entered the locked region: by locking, or by waking up. */
  datatype Entry = New | Woken(notified: bool)

  /** Where a thread is. `Load` and `Store` are the two halves of lowering the counter, `LoadUp` and `StoreUp`
      those of raising it. */
  datatype Place =
    | Outside
    | Test(entry: Entry)
    | Load(entry: Entry)
    | Store(entry: Entry, reg: int)
    | Check(entry: Entry)
    | Asleep(notified: bool)
    | LoadUp(notified: bool)
    | StoreUp(notified: bool, reg: int)
    | Choose(entry: Entry, lowered: bool)
    | Taking(entry: Entry, work: Work)
    | Taken(work: Work)
    | Working(work: Work)
    | Joining(work: Work)
    | Adding(work: Work)
    | Added
    | Ending
    | Giving
    | Leaving
    | Gone

  /** `fault` records that a thread followed the null pointer at the end of the queue. */
  datatype System = System(locked: bool, pending: seq<Work>, active: int, kept: seq<Kept>, fault: bool, places: seq<Place>)

  predicate InRegion(p: Place) {
    p.Test? || p.Load? || p.Store? || p.Check? || p.LoadUp? || p.StoreUp? || p.Choose? || p.Taking? || p.Taken?
    || p.Adding? || p.Added? || p.Giving?
  }

  ghost function Rouse(p: Place): Place {
    if p.Asleep? then Asleep(true) else p
  }

  ghost function NotifyAll(places: seq<Place>): seq<Place> {
    seq(|places|, i requires 0 <= i < |places| => Rouse(places[i]))
  }

  /** Thread `t` can execute its next statement. */
  ghost predicate Moves(su: Setup, s: System, t: nat): (b: bool)
    ensures b ==> t < |s.places|
  {
    && t < |s.places| && !s.fault
    && match s.places[t]
       case Outside => !s.locked
       case Asleep(_) => !s.locked
       case Joining(w) => !s.locked
       case Working(w) => Fits(su, w)
       case Adding(w) => Fits(su, w)
       case Gone => false
       case _ => true
  }

  /** The next statement of thread `t`. */
  ghost function Move(su: Setup, s: System, t: nat): System
    requires Moves(su, s, t)
  {
    match s.places[t]
    case Outside => s.(locked := true, places := s.places[t := Test(New)])
    case Test(e) => s.(places := s.places[t := if s.pending == [] && s.active > 0 then Load(e) else Choose(e, false)])
    case Load(e) => s.(places := s.places[t := Store(e, s.active)])
    case Store(e, reg) => s.(active := reg - 1, places := s.places[t := Check(e)])
    case Check(e) =>
      if s.active == 0 then s.(places := s.places[t := Choose(e, true)])
      else s.(locked := false, places := s.places[t := Asleep(false)])
    case Asleep(b) => s.(locked := true, places := s.places[t := LoadUp(b)])
    case LoadUp(b) => s.(places := s.places[t := StoreUp(b, s.active)])
    case StoreUp(b, reg) => s.(active := reg + 1, places := s.places[t := Test(Woken(b))])
    case Choose(e, _) =>
      if s.pending == [] || s.active == 0 then s.(places := NotifyAll(s.places[t := Giving]))
      else s.(places := s.places[t := Taking(e, s.pending[0])])
    case Taking(_, w) =>
      if s.pending == [] then s.(fault := true)
      else s.(pending := s.pending[1..], places := s.places[t := Taken(w)])
    case Taken(w) => s.(locked := false, places := s.places[t := Working(w)])
    case Working(w) =>
      (match Process(su, w)
       case Drop => s.(places := s.places[t := Ending])
       case Keep(v, c) => s.(kept := s.kept + [Kept(v, c)], places := s.places[t := Ending])
       case Halve(_, _) => s.(places := s.places[t := Joining(w)]))
    case Joining(w) => s.(locked := true, places := s.places[t := Adding(w)])
    case Adding(w) =>
      var after := s.places[t := Added];
      (match Process(su, w)
       case Halve(l, u) => s.(pending := s.pending + [u, l], places := if s.pending == [] then NotifyAll(after) else after)
       case _ => s.(places := after))
    case Added => s.(locked := false, places := s.places[t := Ending])
    case Ending => s.(locked := s.locked && su.integer, places := s.places[t := Outside])
    case Giving => s.(locked := false, places := s.places[t := Leaving])
    case Leaving => s.(locked := s.locked && su.integer, places := s.places[t := Gone])
  }

  /** All threads are about to lock, and the given boxes are queued. */
  ghost function Begin(boxes: seq<Work>, n: nat): System {
    System(false, boxes, n, [], false, seq(n, i => Outside))
  }

  /** A run is the order in which threads execute their statements. */
  ghost predicate Runs(su: Setup, s: System, run: seq<nat>)
    decreases |run|
  {
    run == [] || (Moves(su, s, run[0]) && Runs(su, Move(su, s, run[0]), run[1..]))
  }

  ghost function Run(su: Setup, s: System, run: seq<nat>): System
    requires Runs(su, s, run)
    decreases |run|
  {
    if run == [] then s else Run(su, Move(su, s, run[0]), run[1..])
  }

  // ---------------------------------------------------------------- one region as one step

  /** The thread as it is before its current region, or after it once the region has taken effect. */
  ghost function View(p: Place): Thread {
    match p
    case Outside => Looking
    case Test(e) => EntryView(e)
    case Load(e) => EntryView(e)
    case Store(e, _) => EntryView(e)
    case Check(e) => EntryView(e)
    case Asleep(b) => Waiting(b)
    case LoadUp(b) => Waiting(b)
    case StoreUp(b, _) => Waiting(b)
    case Choose(e, _) => EntryView(e)
    case Taking(e, _) => EntryView(e)
    case Taken(w) => Busy(w)
    case Working(w) => Busy(w)
    case Joining(w) => Busy(w)
    case Adding(w) => Busy(w)
    case Added => Looking
    case Ending => Looking
    case Giving => Exited
    case Leaving => Exited
    case Gone => Exited
  }

  ghost function EntryView(e: Entry): Thread {
    if e.New? then Looking else Waiting(e.notified)
  }

  ghost function Views(places: seq<Place>): seq<Thread> {
    seq(|places|, i requires 0 <= i < |places| => View(places[i]))
  }

  /** What the counter had before the thread's current region, less what it has. */
  ghost function Shift(p: Place): int {
    match p
    case Test(e) => -Raised(e)
    case Load(e) => -Raised(e)
    case Store(e, _) => -Raised(e)
    case Taking(e, _) => -Raised(e)
    case Check(e) => 1 - Raised(e)
    case Choose(e, lowered) => (if lowered then 1 else 0) - Raised(e)
    case _ => 0
  }

  ghost function Raised(e: Entry): int {
    if e.New? then 0 else 1
  }

  ghost function Shifts(places: seq<Place>): int {
    if places == [] then 0 else Shift(places[0]) + Shifts(places[1..])
  }

  /** The state in which each locked region is one step. */
  ghost function Pool(s: System): State {
    State(s.pending, Views(s.places), s.kept, s.active + Shifts(s.places))
  }

  lemma {:induction false} ShiftsUpdate(places: seq<Place>, t: nat, p: Place)
    requires t < |places|
    ensures Shifts(places[t := p]) == Shifts(places) - Shift(places[t]) + Shift(p)
  {
    if t == 0 {
      assert places[t := p][1..] == places[1..];
    } else {
      ShiftsUpdate(places[1..], t - 1, p);
      assert places[t := p][1..] == places[1..][t - 1 := p];
    }
  }

  lemma {:induction false} ShiftsNotify(places: seq<Place>)
    ensures Shifts(NotifyAll(places)) == Shifts(places)
  {
    if places != [] {
      ShiftsNotify(places[1..]);
      assert NotifyAll(places)[1..] == NotifyAll(places[1..]);
    }
  }

  lemma {:induction false} ShiftsNone(places: seq<Place>)
    requires forall i :: 0 <= i < |places| ==> !InRegion(places[i])
    ensures Shifts(places) == 0
  {
    if places != [] { ShiftsNone(places[1..]); }
  }

  /** When only one thread is in a region, it alone accounts for the counter. */
  lemma ShiftsAlone(places: seq<Place>, t: nat)
    requires t < |places| && forall i :: 0 <= i < |places| && i != t ==> !InRegion(places[i])
    ensures Shifts(places) == Shift(places[t])
  {
    ShiftsUpdate(places, t, Outside);
    ShiftsNone(places[t := Outside]);
  }

  lemma ViewsUpdate(places: seq<Place>, t: nat, p: Place)
    requires t < |places|
    ensures Views(places[t := p]) == Views(places)[t := View(p)]
  {}

  /** Notifying the sleepers notifies all waiting threads, when no other thread has just woken up. */
  lemma ViewsNotify(places: seq<Place>, t: nat, p: Place)
    requires t < |places| && (p.Giving? || p.Added?)
    requires forall i :: 0 <= i < |places| && i != t ==> !InRegion(places[i])
    ensures Views(NotifyAll(places[t := p])) == Notify(Views(places)[t := View(p)])
  {
    var views := Views(places)[t := View(p)];
    forall i | 0 <= i < |places| ensures Views(NotifyAll(places[t := p]))[i] == Notify(views)[i] {
      assert views[i] == View(places[t := p][i]);
    }
  }

  // ---------------------------------------------------------------- mutual exclusion

  /** At most one thread is in a region, the mutex is locked exactly then, and the thread's registers are
      up to date. */
  ghost predicate Exclusive(su: Setup, s: System) {
    && !s.fault
    && (forall i, j :: 0 <= i < j < |s.places| ==> !(InRegion(s.places[i]) && InRegion(s.places[j])))
    && (s.locked <==> exists i :: 0 <= i < |s.places| && InRegion(s.places[i]))
    && (forall i :: 0 <= i < |s.places| ==> Current(su, s, s.places[i]))
  }

  ghost predicate Current(su: Setup, s: System, p: Place) {
    match p
    case Load(_) => s.pending == []
    case Store(_, reg) => s.pending == [] && reg == s.active
    case Check(_) => s.pending == []
    case StoreUp(_, reg) => reg == s.active
    case Choose(_, lowered) => if lowered then s.pending == [] && s.active == 0 else s.pending != []
    case Taking(_, w) => s.pending != [] && w == s.pending[0]
    case Joining(w) => Fits(su, w) && Process(su, w).Halve?
    case Adding(w) => Fits(su, w) && Process(su, w).Halve?
    case _ => true
  }

  lemma Alone(su: Setup, s: System, t: nat)
    requires Exclusive(su, s) && t < |s.places| && (InRegion(s.places[t]) || !s.locked)
    ensures forall i :: 0 <= i < |s.places| && i != t ==> !InRegion(s.places[i])
    ensures InRegion(s.places[t]) ==> s.locked
    ensures Shifts(s.places) == Shift(s.places[t])
  {
    ShiftsAlone(s.places, t);
  }

  /** The counter of the pool, when the thread is in a region: it is positive before the thread lowers it. */
  lemma CounterPositive(su: Setup, s: System, t: nat)
    requires Exclusive(su, s) && Disciplined(Pool(s)) && t < |s.places|
    requires s.places[t].Test? || (s.places[t].Choose? && !s.places[t].lowered)
    ensures s.active > 0
  {
    hide ActiveCount, Shifts;
    Alone(su, s, t);
    ActiveCountUpdate(Views(s.places), t, Exited);
  }

  /** A statement moves its thread and perhaps notifies the sleepers. */
  lemma MoveFrame(su: Setup, s: System, t: nat)
    requires Moves(su, s, t)
    ensures var s' := Move(su, s, t);
            && |s'.places| == |s.places|
            && (s'.places == s.places[t := s'.places[t]] || s'.places == NotifyAll(s.places[t := s'.places[t]]))
            && (forall i :: 0 <= i < |s.places| && i != t ==> s'.places[i] == s.places[i] || s'.places[i] == Rouse(s.places[i]))
            && (s'.places[t].Asleep? ==> s'.places == s.places[t := Asleep(false)])
  {
    hide Process;
    var s' := Move(su, s, t);
    assert s'.fault ==> s'.places == s.places == s.places[t := s.places[t]];
  }

  /** How the mutex and the shared variables change. */
  lemma LockMoves(su: Setup, s: System, t: nat)
    requires Moves(su, s, t)
    ensures var s', after, before := Move(su, s, t), InRegion(Move(su, s, t).places[t]), InRegion(s.places[t]);
            && (after && !before ==> !s.locked && s'.locked)
            && (after && before ==> s'.locked == s.locked)
            && (before && !after ==> !s'.locked)
            && (!before && !after ==> s'.locked == s.locked || (!su.integer && !s'.locked))
            && (!before ==> s'.pending == s.pending && s'.active == s.active)
  {
    hide Process;
  }

  lemma MovedIsCurrent(su: Setup, s: System, t: nat)
    requires Exclusive(su, s) && Disciplined(Pool(s)) && Moves(su, s, t)
    ensures var s' := Move(su, s, t); !s'.fault && Current(su, s', s'.places[t])
  {
    hide Process, Shifts, Disciplined, Pool, InRegion;
    var p := s.places[t];
    assert Current(su, s, p);
    if p.Test? || (p.Choose? && !p.lowered) { CounterPositive(su, s, t); }
  }

  /** Every statement keeps exclusion, if the mutex is released once per iteration or there is one thread. */
  lemma ExclusiveKept(su: Setup, s: System, t: nat)
    requires Exclusive(su, s) && Disciplined(Pool(s)) && Moves(su, s, t) && (su.integer || |s.places| <= 1)
    ensures Exclusive(su, Move(su, s, t))
  {
    hide Process, Shifts, Disciplined, Pool, Move, Moves;
    var s', p := Move(su, s, t), s.places[t];
    MoveFrame(su, s, t);
    LockMoves(su, s, t);
    MovedIsCurrent(su, s, t);
    if InRegion(p) || !s.locked { Alone(su, s, t); }
    forall i | 0 <= i < |s.places| && i != t
      ensures InRegion(s'.places[i]) <==> InRegion(s.places[i])
      ensures Current(su, s', s'.places[i])
    {
      assert Current(su, s, s.places[i]);
    }
    if s.locked && !InRegion(p) {
      var h :| 0 <= h < |s.places| && InRegion(s.places[h]);
      assert h != t && InRegion(s'.places[h]);
    }
  }

  // ---------------------------------------------------------------- simulation

  /** The step of the pool that the statement completes, if any. */
  ghost predicate Completes(su: Setup, s: System, t: nat)
    requires Moves(su, s, t)
  {
    match s.places[t]
    case Check(_) => s.active != 0
    case Choose(_, lowered) => lowered
    case Taking(_, _) => true
    case Working(w) => !Process(su, w).Halve?
    case Adding(_) => true
    case _ => false
  }

  ghost function Completed(s: System, t: nat): Step
    requires t < |s.places|
  {
    match s.places[t]
    case Check(e) => EntryStep(e, t)
    case Choose(e, _) => EntryStep(e, t)
    case Taking(e, _) => EntryStep(e, t)
    case _ => Finish(t)
  }

  ghost function EntryStep(e: Entry, t: nat): Step {
    if e.New? then Acquire(t) else Wake(t)
  }

  /** A statement that does not complete a region changes nothing in the pool. */
  lemma Stutters(su: Setup, s: System, t: nat)
    requires Exclusive(su, s) && Disciplined(Pool(s)) && Moves(su, s, t) && !Completes(su, s, t)
    ensures Pool(Move(su, s, t)) == Pool(s)
  {
    hide Process, Shifts, Disciplined;
    var s', p := Move(su, s, t), s.places[t];
    assert Current(su, s, p);
    if p.Test? || p.Choose? { CounterPositive(su, s, t); }
    ShiftsUpdate(s.places, t, s'.places[t]);
    ViewsUpdate(s.places, t, s'.places[t]);
    assert s'.places == s.places[t := s'.places[t]];
    assert Views(s.places)[t := View(p)] == Views(s.places);
  }

  /** Going to sleep completes the look for work or the wake-up. */
  lemma SleepSteps(su: Setup, s: System, t: nat)
    requires Exclusive(su, s) && Moves(su, s, t) && s.places[t].Check? && s.active > 0
    ensures Enabled(su, Pool(s), Completed(s, t)) && Pool(Move(su, s, t)) == Apply(su, Pool(s), Completed(s, t))
  {
    hide Process, Shifts;
    Alone(su, s, t);
    assert Current(su, s, s.places[t]);
    ShiftsUpdate(s.places, t, Asleep(false));
    ViewsUpdate(s.places, t, Asleep(false));
  }

  /** So does leaving for good. */
  lemma LeaveSteps(su: Setup, s: System, t: nat)
    requires Exclusive(su, s) && Moves(su, s, t) && s.places[t].Choose? && s.places[t].lowered
    ensures Enabled(su, Pool(s), Completed(s, t)) && Pool(Move(su, s, t)) == Apply(su, Pool(s), Completed(s, t))
  {
    hide Process, Shifts;
    Alone(su, s, t);
    assert Current(su, s, s.places[t]);
    ShiftsUpdate(s.places, t, Giving);
    ShiftsNotify(s.places[t := Giving]);
    ViewsNotify(s.places, t, Giving);
  }

  /** So does taking a box. */
  lemma TakeSteps(su: Setup, s: System, t: nat)
    requires Exclusive(su, s) && Moves(su, s, t) && s.places[t].Taking?
    ensures Enabled(su, Pool(s), Completed(s, t)) && Pool(Move(su, s, t)) == Apply(su, Pool(s), Completed(s, t))
  {
    hide Process, Shifts;
    Alone(su, s, t);
    assert Current(su, s, s.places[t]);
    ShiftsUpdate(s.places, t, Taken(s.places[t].work));
    ViewsUpdate(s.places, t, Taken(s.places[t].work));
  }

  /** Dropping or keeping a box, and adding its halves, hand it in. */
  lemma FinishSteps(su: Setup, s: System, t: nat)
    requires Exclusive(su, s) && Moves(su, s, t) && Completes(su, s, t) && (s.places[t].Working? || s.places[t].Adding?)
    ensures Enabled(su, Pool(s), Completed(s, t)) && Pool(Move(su, s, t)) == Apply(su, Pool(s), Completed(s, t))
  {
    hide Process, Shifts;
    assert Current(su, s, s.places[t]);
    if s.places[t].Working? {
      ShiftsUpdate(s.places, t, Ending);
      ViewsUpdate(s.places, t, Ending);
    } else {
      Alone(su, s, t);
      ShiftsUpdate(s.places, t, Added);
      ShiftsNotify(s.places[t := Added]);
      ViewsUpdate(s.places, t, Added);
      ViewsNotify(s.places, t, Added);
    }
  }

  /** Every statement is a step of the pool or nothing. */
  lemma Simulates(su: Setup, s: System, t: nat)
    requires Exclusive(su, s) && Disciplined(Pool(s)) && Moves(su, s, t)
    ensures !Completes(su, s, t) ==> Pool(Move(su, s, t)) == Pool(s)
    ensures Completes(su, s, t) ==>
              Enabled(su, Pool(s), Completed(s, t)) && Pool(Move(su, s, t)) == Apply(su, Pool(s), Completed(s, t))
  {
    hide Process, Exclusive, Disciplined, Pool, Move, Enabled, Apply, Completed;
    if !Completes(su, s, t) {
      Stutters(su, s, t);
    } else if s.places[t].Check? {
      AwakeCounter(su, s, t);
      SleepSteps(su, s, t);
    } else if s.places[t].Choose? {
      LeaveSteps(su, s, t);
    } else if s.places[t].Taking? {
      TakeSteps(su, s, t);
    } else {
      FinishSteps(su, s, t);
    }
  }

  lemma AwakeCounter(su: Setup, s: System, t: nat)
    requires Exclusive(su, s) && Disciplined(Pool(s)) && t < |s.places| && s.places[t].Check?
    ensures s.active >= 0
  {
    hide ActiveCount, Shifts;
    Alone(su, s, t);
    ActiveCountUpdate(Views(s.places), t, Exited);
  }

  // ---------------------------------------------------------------- every run

  /** What every run keeps. */
  ghost predicate Good(su: Setup, s: System) {
    Exclusive(su, s) && Disciplined(Pool(s)) && AllTruthful(su, Pool(s))
  }

  lemma GoodKept(su: Setup, s: System, t: nat)
    requires su.Sound() && Good(su, s) && Moves(su, s, t) && (su.integer || |s.places| <= 1)
    ensures Good(su, Move(su, s, t)) && |Move(su, s, t).places| == |s.places|
  {
    hide Process, Exclusive, Disciplined, Pool, Move, AllTruthful, Enabled, Apply, Completes, Moves;
    ExclusiveKept(su, s, t);
    MoveFrame(su, s, t);
    Simulates(su, s, t);
    if Completes(su, s, t) {
      DisciplineKept(su, Pool(s), Completed(s, t));
      TruthKept(su, Pool(s), Completed(s, t));
    }
  }

  lemma PointStays(su: Setup, s: System, t: nat, x: Point)
    requires su.Sound() && Good(su, s) && Moves(su, s, t) && Inside(su, x) && Held(Pool(s), x)
    ensures Held(Pool(Move(su, s, t)), x)
  {
    hide Process, Exclusive, Disciplined, Pool, Move, AllTruthful, Enabled, Apply, Completes, Moves, Inside, Held;
    Simulates(su, s, t);
    if Completes(su, s, t) { PointKept(su, Pool(s), Completed(s, t), x); }
  }

  lemma {:induction false} RunKeeps(su: Setup, s: System, run: seq<nat>, x: Point)
    requires su.Sound() && Good(su, s) && Runs(su, s, run) && (su.integer || |s.places| <= 1)
    ensures Good(su, Run(su, s, run)) && |Run(su, s, run).places| == |s.places|
    ensures Inside(su, x) && Held(Pool(s), x) ==> Held(Pool(Run(su, s, run)), x)
    decreases |run|
  {
    hide Good, Move, Moves, Inside, Held, Pool;
    if run != [] {
      GoodKept(su, s, run[0]);
      if Inside(su, x) && Held(Pool(s), x) { PointStays(su, s, run[0], x); }
      RunKeeps(su, Move(su, s, run[0]), run[1..], x);
    }
  }

  lemma BeginPool(boxes: seq<Work>, n: nat)
    ensures Pool(Begin(boxes, n)) == Start(boxes, n)
  {
    var places: seq<Place> := seq(n, i => Outside);
    ShiftsNone(places);
    assert Views(places) == seq(n, i => Looking);
  }

  lemma BeginIsGood(su: Setup, boxes: seq<Work>, n: nat)
    requires forall w :: w in boxes ==> Truthful(su, w)
    ensures Good(su, Begin(boxes, n))
  {
    hide Truthful, Pool;
    BeginPool(boxes, n);
    StartIsGood(su, boxes, n);
  }

  /** The variant and the number of threads are as the protocol needs them. */
  ghost predicate Orderly(su: Setup, n: nat) {
    su.integer || n <= 1
  }

  /** Safety of every interleaving: no thread follows a null pointer, at most one is in a locked region, and
      as soon as one thread has gone no box is queued or in progress, the kept boxes contain every sought
      point of the initial boxes that satisfies all constraints strictly, and every mark of a kept box is
      right. */
  lemma ExitIsSafe(su: Setup, boxes: seq<Work>, n: nat, run: seq<nat>, x: Point)
    requires su.Sound() && Orderly(su, n) && (forall w :: w in boxes ==> Truthful(su, w)) && Runs(su, Begin(boxes, n), run)
    ensures var s := Run(su, Begin(boxes, n), run);
            && !s.fault
            && (forall i, j :: 0 <= i < j < |s.places| ==> !(InRegion(s.places[i]) && InRegion(s.places[j])))
            && (Gone in s.places ==>
                  && s.pending == [] && (forall t :: 0 <= t < |s.places| ==> !View(s.places[t]).Busy? && !View(s.places[t]).Looking?)
                  && (Inside(su, x) && (exists w :: w in boxes && In(x, w.box)) ==> exists k :: k in s.kept && In(x, k.work.box))
                  && (forall k :: k in s.kept ==> Truthful(su, k.work)))
  {
    hide In, Inside, Truthful, Runs, Run, Shifts, View, ActiveCount, Current;
    BeginPool(boxes, n);
    BeginIsGood(su, boxes, n);
    RunKeeps(su, Begin(boxes, n), run, x);
    var s := Run(su, Begin(boxes, n), run);
    if Gone in s.places { ExitedPool(s, x); }
  }

  lemma ExitedPool(s: System, x: Point)
    requires Disciplined(Pool(s)) && Gone in s.places
    ensures s.pending == [] && forall t :: 0 <= t < |s.places| ==> !View(s.places[t]).Busy? && !View(s.places[t]).Looking?
    ensures Held(Pool(s), x) ==> exists k :: k in s.kept && In(x, k.work.box)
  {
    hide In, Shifts, ActiveCount;
    var g :| 0 <= g < |s.places| && s.places[g] == Gone;
    var views := Views(s.places);
    assert views[g] == Exited;
    forall t | 0 <= t < |s.places| ensures !View(s.places[t]).Busy? && !View(s.places[t]).Looking? {
      ActiveCountUpdate(views, t, Exited);
      assert views[t] == View(s.places[t]);
    }
  }

  /** Every statement keeps what the run yields. */
  lemma MoveYields(su: Setup, s: System, t: nat)
    requires Exclusive(su, s) && Disciplined(Pool(s)) && AllFit(su, Pool(s)) && Moves(su, s, t)
    ensures AllFit(su, Pool(Move(su, s, t))) && Yield(su, Pool(Move(su, s, t))) == Yield(su, Pool(s))
  {
    hide Exclusive, Disciplined, Pool, Move, Moves, AllFit, Yield, Enabled, Apply, Completes;
    Simulates(su, s, t);
    if Completes(su, s, t) { StepYields(su, Pool(s), Completed(s, t)); }
  }

  lemma {:induction false} RunYields(su: Setup, s: System, run: seq<nat>)
    requires Exclusive(su, s) && Disciplined(Pool(s)) && AllFit(su, Pool(s)) && Orderly(su, |s.places|) && Runs(su, s, run)
    ensures Disciplined(Pool(Run(su, s, run))) && AllFit(su, Pool(Run(su, s, run)))
    ensures Yield(su, Pool(Run(su, s, run))) == Yield(su, Pool(s))
    decreases |run|
  {
    hide Exclusive, Disciplined, Pool, Move, AllFit, Yield, Moves;
    if run != [] {
      MoveYields(su, s, run[0]);
      ExclusiveKept(su, s, run[0]);
      PoolDisciplined(su, s, run[0]);
      MoveFrame(su, s, run[0]);
      RunYields(su, Move(su, s, run[0]), run[1..]);
    }
  }

  /** Whatever the interleaving and the number of threads, the kept boxes, with their reports and with
      multiplicity, are always among those that one thread would keep, and they are all of them once a thread
      has gone. */
  lemma ResultIsSequential(su: Setup, boxes: seq<Work>, n: nat, run: seq<nat>)
    requires Orderly(su, n) && (forall w :: w in boxes ==> Fits(su, w)) && Runs(su, Begin(boxes, n), run)
    ensures multiset(Run(su, Begin(boxes, n), run).kept) <= QueueLeaves(su, boxes)
    ensures Gone in Run(su, Begin(boxes, n), run).places ==> multiset(Run(su, Begin(boxes, n), run).kept) == QueueLeaves(su, boxes)
  {
    hide Fits, Runs, Run, QueueLeaves, Disciplined, AllFit, Yield, Pool, StepsLeft;
    BeginPool(boxes, n);
    StartDisciplined(boxes, n);
    StartSteps(su, boxes, n);
    StartYields(su, boxes, n);
    RunYields(su, Begin(boxes, n), run);
    var s := Run(su, Begin(boxes, n), run);
    KeptYields(su, s);
    if Gone in s.places { ExitYields(su, s); }
  }

  lemma KeptYields(su: Setup, s: System)
    requires AllFit(su, Pool(s))
    ensures multiset(s.kept) <= Yield(su, Pool(s))
  {
    hide AllFit, QueueLeaves, ThreadLeaves, Views, Shifts;
  }

  lemma StartYields(su: Setup, boxes: seq<Work>, n: nat)
    requires AllFit(su, Start(boxes, n))
    ensures Yield(su, Start(boxes, n)) == QueueLeaves(su, boxes)
  {
    hide Fits, QueueLeaves, ThreadLeaves;
    IdleLeaves(su, Start(boxes, n).threads);
    var all: multiset<Kept> := multiset([]);
    assert all + QueueLeaves(su, boxes) + multiset{} == QueueLeaves(su, boxes);
  }

  lemma ExitYields(su: Setup, s: System)
    requires Disciplined(Pool(s)) && AllFit(su, Pool(s)) && Gone in s.places
    ensures Yield(su, Pool(s)) == multiset(s.kept)
  {
    hide Fits, QueueLeaves, ThreadLeaves, Shifts, Disciplined;
    ExitedPool(s, []);
    IdleLeaves(su, Views(s.places));
    NoLeaves(su);
    assert multiset(s.kept) + multiset{} + multiset{} == multiset(s.kept);
  }

  lemma {:induction false} IdleLeaves(su: Setup, ts: seq<Thread>)
    requires forall t :: 0 <= t < |ts| ==> !ts[t].Busy?
    ensures ThreadsFit(su, ts) && ThreadLeaves(su, ts) == multiset{}
  {
    if ts != [] { IdleLeaves(su, ts[1..]); }
  }

  lemma NoLeaves(su: Setup)
    ensures QueueLeaves(su, []) == multiset{}
  {}

  /** So in every run each kept box is settled and lies inside one of the starting boxes. */
  lemma KeptAreSettled(su: Setup, boxes: seq<Work>, n: nat, run: seq<nat>, k: Kept)
    requires Orderly(su, n) && (forall w :: w in boxes ==> Fits(su, w)) && Runs(su, Begin(boxes, n), run)
    requires k in Run(su, Begin(boxes, n), run).kept
    ensures Settled(su, k) && exists w :: w in boxes && Within(k, w)
  {
    hide Fits, Runs, Run, QueueLeaves, Settled, In;
    ResultIsSequential(su, boxes, n, run);
    assert k in multiset(Run(su, Begin(boxes, n), run).kept);
    QueueLeavesSettled(su, boxes, k);
  }

  lemma {:induction false} QueueLeavesSettled(su: Setup, ws: seq<Work>, k: Kept)
    requires (forall w :: w in ws ==> Fits(su, w)) && k in QueueLeaves(su, ws)
    ensures Settled(su, k) && exists w :: w in ws && Within(k, w)
    decreases |ws|
  {
    hide Fits, Settled, In, Leaves;
    if k in Leaves(su, ws[0]) {
      LeavesSettled(su, ws[0], k);
      assert ws[0] in ws && Within(k, ws[0]);
    } else {
      QueueLeavesSettled(su, ws[1..], k);
      var w :| w in ws[1..] && Within(k, w);
      assert w in ws;
    }
  }

  /** All points of the kept box are points of `w`. */
  ghost predicate Within(k: Kept, w: Work) {
    forall x :: In(x, k.work.box) ==> In(x, w.box)
  }

  /** Thread `t` can go on, and not because its wait ends without a notification. */
  ghost predicate Prompted(su: Setup, s: System, t: nat) {
    Moves(su, s, t) && (s.places[t].Asleep? ==> s.places[t].notified)
  }

  ghost predicate GoesOn(su: Setup, s: System) {
    (forall t :: 0 <= t < |s.places| ==> s.places[t].Gone?) || exists t :: Prompted(su, s, t)
  }

  /** No interleaving gets stuck: unless all threads have gone, one of them can go on. */
  lemma NoDeadlock(su: Setup, boxes: seq<Work>, n: nat, run: seq<nat>)
    requires su.Sound() && Orderly(su, n) && (forall w :: w in boxes ==> Truthful(su, w)) && Runs(su, Begin(boxes, n), run)
    ensures GoesOn(su, Run(su, Begin(boxes, n), run))
  {
    hide Good, Runs, Run, GoesOn;
    BeginIsGood(su, boxes, n);
    RunKeeps(su, Begin(boxes, n), run, []);
    GoodGoesOn(su, Run(su, Begin(boxes, n), run));
  }

  lemma GoodGoesOn(su: Setup, s: System)
    requires Good(su, s) && 0.0 < su.limit
    ensures GoesOn(su, s)
  {
    hide Process, Shifts, ActiveCount, Disciplined;
    if s.locked {
      var h :| 0 <= h < |s.places| && InRegion(s.places[h]);
      assert Current(su, s, s.places[h]);
      assert Prompted(su, s, h);
    } else if t :| 0 <= t < |s.places| && !s.places[t].Asleep? && !s.places[t].Gone? {
      WorkFits(su, s, t);
      assert Prompted(su, s, t);
    } else if t :| 0 <= t < |s.places| && s.places[t].Asleep? {
      SleeperNotified(s, t);
      assert Prompted(su, s, t);
    }
  }

  lemma WorkFits(su: Setup, s: System, t: nat)
    requires Good(su, s) && 0.0 < su.limit && t < |s.places|
    ensures s.places[t].Working? ==> Fits(su, s.places[t].work)
  {
    hide Process, Shifts, Disciplined;
    if s.places[t].Working? { assert Views(s.places)[t] == Busy(s.places[t].work); }
  }

  /** When everybody sleeps or has gone, the sleepers have been notified. */
  lemma SleeperNotified(s: System, t: nat)
    requires Disciplined(Pool(s)) && t < |s.places| && s.places[t].Asleep?
    requires forall i :: 0 <= i < |s.places| ==> s.places[i].Asleep? || s.places[i].Gone?
    ensures s.places[t].notified
  {
    hide Shifts, ActiveCount;
    NoneActive(Views(s.places));
    assert Views(s.places)[t] == Waiting(s.places[t].notified);
  }

  // ---------------------------------------------------------------- length of runs

  /** Statements until the thread completes its region, sleeps or goes. */
  ghost function Rank(p: Place): nat {
    match p
    case Outside => 8
    case Test(e) => 7 + Spurious(e)
    case Load(e) => 6 + Spurious(e)
    case Store(e, _) => 5 + Spurious(e)
    case Check(e) => 4 + Spurious(e)
    case Asleep(_) => 11
    case LoadUp(b) => 10 + Spurious(Woken(b))
    case StoreUp(b, _) => 9 + Spurious(Woken(b))
    case Choose(e, _) => 3 + Spurious(e)
    case Taking(e, _) => 2 + Spurious(e)
    case Taken(_) => 14
    case Working(_) => 13
    case Joining(_) => 12
    case Adding(_) => 11
    case Added => 10
    case Ending => 9
    case Giving => 2
    case Leaving => 1
    case Gone => 0
  }

  ghost function Spurious(e: Entry): nat {
    if e == Woken(false) then 16 else 0
  }

  ghost function Ranks(places: seq<Place>): nat {
    if places == [] then 0 else Rank(places[0]) + Ranks(places[1..])
  }

  lemma {:induction false} RanksUpdate(places: seq<Place>, t: nat, p: Place)
    requires t < |places|
    ensures Ranks(places[t := p]) == Ranks(places) - Rank(places[t]) + Rank(p)
  {
    if t == 0 {
      assert places[t := p][1..] == places[1..];
    } else {
      RanksUpdate(places[1..], t - 1, p);
      assert places[t := p][1..] == places[1..][t - 1 := p];
    }
  }

  lemma {:induction false} RanksNotify(places: seq<Place>)
    ensures Ranks(NotifyAll(places)) == Ranks(places)
  {
    if places != [] {
      RanksNotify(places[1..]);
      assert NotifyAll(places)[1..] == NotifyAll(places[1..]);
    }
  }

  lemma {:induction false} RanksOutside(n: nat)
    ensures Ranks(seq(n, i => Outside)) == 8 * n
  {
    if n > 0 {
      RanksOutside(n - 1);
      var places: seq<Place> := seq(n, i => Outside);
      assert places[1..] == seq(n - 1, i => Outside);
    }
  }

  /** The thread's wait ends without a notification. */
  ghost predicate ForNothing(s: System, t: nat)
    requires t < |s.places|
  {
    s.places[t] == Asleep(false)
  }

  /** What the next place of a thread can be. */
  ghost predicate Follows(p: Place, p': Place) {
    match p
    case Outside => p' == Test(New)
    case Test(e) => p' == Load(e) || p' == Choose(e, false)
    case Load(e) => p'.Store? && p'.entry == e
    case Store(e, _) => p' == Check(e)
    case Check(e) => p' == Choose(e, true) || p' == Asleep(false)
    case Asleep(b) => p' == LoadUp(b)
    case LoadUp(b) => p'.StoreUp? && p'.notified == b
    case StoreUp(b, _) => p' == Test(Woken(b))
    case Choose(e, _) => p' == Giving || (p'.Taking? && p'.entry == e)
    case Taking(_, w) => p' == Taken(w)
    case Taken(w) => p' == Working(w)
    case Working(w) => p' == Ending || p' == Joining(w)
    case Joining(w) => p' == Adding(w)
    case Adding(_) => p' == Added
    case Added => p' == Ending
    case Ending => p' == Outside
    case Giving => p' == Leaving
    case Leaving => p' == Gone
    case Gone => false
  }

  lemma MoveFollows(su: Setup, s: System, t: nat)
    requires Moves(su, s, t)
    ensures Move(su, s, t).fault || Follows(s.places[t], Move(su, s, t).places[t])
  {
    hide Process;
  }

  /** A thread's rank falls except where its region is completed or a wait ends for nothing; then it rises
      by at most 15. */
  lemma RankFollows(p: Place, p': Place)
    requires Follows(p, p')
    ensures Rank(p') <= Rank(p) + 15
    ensures p == Asleep(false) || p.Taking? || (p.Check? && p'.Asleep? && p.entry != Woken(false)) || Rank(p') < Rank(p)
  {}

  /** A completed step changes the pool, except when a wait for nothing is resumed. */
  lemma CompletionChanges(su: Setup, s: System, t: nat)
    requires Exclusive(su, s) && Moves(su, s, t) && Completes(su, s, t) && Pool(Move(su, s, t)) == Pool(s)
    ensures s.places[t] == Check(Woken(false)) && Move(su, s, t).places[t].Asleep?
  {
    hide Process, Shifts;
    assert Current(su, s, s.places[t]);
    var s' := Move(su, s, t);
    assert Views(s.places)[t] == View(s.places[t]);
    assert Views(s'.places)[t] == View(s'.places[t]);
  }

  ghost function MovesLeft(su: Setup, s: System): nat
    requires AllFit(su, Pool(s))
  {
    16 * StepsLeft(su, Pool(s)) + Ranks(s.places)
  }

  lemma MoveLowers(su: Setup, s: System, t: nat)
    requires Exclusive(su, s) && Disciplined(Pool(s)) && AllFit(su, Pool(s)) && Moves(su, s, t) && Orderly(su, |s.places|)
    ensures AllFit(su, Pool(Move(su, s, t)))
    ensures MovesLeft(su, Move(su, s, t)) + 1 <= MovesLeft(su, s) + if ForNothing(s, t) then 16 else 0
  {
    hide Process, Exclusive, Disciplined, Pool, Move, AllFit, StepsLeft, Enabled, Apply, Ranks, Completes, Moves, Rank, Completed;
    var s' := Move(su, s, t);
    Simulates(su, s, t);
    ExclusiveKept(su, s, t);
    NoFault(su, s');
    MoveFrame(su, s, t);
    RanksUpdate(s.places, t, s'.places[t]);
    RanksNotify(s.places[t := s'.places[t]]);
    MoveFollows(su, s, t);
    RankFollows(s.places[t], s'.places[t]);
    if Completes(su, s, t) {
      StepAdvances(su, Pool(s), Completed(s, t));
      if Pool(s') == Pool(s) { CompletionChanges(su, s, t); }
    } else {
      NotCompleted(su, s, t);
    }
  }

  lemma NotCompleted(su: Setup, s: System, t: nat)
    requires Moves(su, s, t) && !Completes(su, s, t)
    ensures !s.places[t].Taking? && (s.places[t].Check? ==> !Move(su, s, t).places[t].Asleep?)
  {}

  lemma NoFault(su: Setup, s: System)
    requires Exclusive(su, s)
    ensures !s.fault
  {}

  /** The waits of a run that end without a notification. */
  ghost function WaitsForNothing(su: Setup, s: System, run: seq<nat>): nat
    requires Runs(su, s, run)
    decreases |run|
  {
    if run == [] then 0
    else (if ForNothing(s, run[0]) then 1 else 0) + WaitsForNothing(su, Move(su, s, run[0]), run[1..])
  }

  lemma {:induction false} RunLowers(su: Setup, s: System, run: seq<nat>)
    requires Exclusive(su, s) && Disciplined(Pool(s)) && AllFit(su, Pool(s)) && Orderly(su, |s.places|) && Runs(su, s, run)
    ensures |run| <= MovesLeft(su, s) + 16 * WaitsForNothing(su, s, run)
    decreases |run|
  {
    hide Exclusive, Disciplined, Pool, Move, AllFit, MovesLeft, Moves;
    if run != [] {
      var s' := Move(su, s, run[0]);
      MoveLowers(su, s, run[0]);
      ExclusiveKept(su, s, run[0]);
      PoolDisciplined(su, s, run[0]);
      MoveFrame(su, s, run[0]);
      RunLowers(su, s', run[1..]);
    }
  }

  lemma PoolDisciplined(su: Setup, s: System, t: nat)
    requires Exclusive(su, s) && Disciplined(Pool(s)) && Moves(su, s, t)
    ensures Disciplined(Pool(Move(su, s, t)))
  {
    hide Exclusive, Disciplined, Pool, Move, Moves, Completes, Enabled, Apply;
    Simulates(su, s, t);
    if Completes(su, s, t) { DisciplineKept(su, Pool(s), Completed(s, t)); }
  }

  /** Every interleaving is finite: its length is bounded by the boxes in the trees of halvings, the number of
      threads and the waits that end for nothing. With `NoDeadlock`, the threads all go in the end. */
  lemma BoundedRuns(su: Setup, boxes: seq<Work>, n: nat, run: seq<nat>)
    requires Orderly(su, n) && (forall w :: w in boxes ==> Fits(su, w)) && Runs(su, Begin(boxes, n), run)
    ensures |run| <= 16 * ((2 * n + 4) * QueueCost(su, boxes) + n * (n + 3)) + 8 * n
                     + 16 * WaitsForNothing(su, Begin(boxes, n), run)
  {
    hide Fits, QueueCost, Runs, WaitsForNothing, Disciplined, AllFit, StepsLeft, Pool;
    var s := Begin(boxes, n);
    BeginPool(boxes, n);
    StartDisciplined(boxes, n);
    StartSteps(su, boxes, n);
    RanksOutside(n);
    RunLowers(su, s, run);
  }

  lemma StartDisciplined(boxes: seq<Work>, n: nat)
    ensures Disciplined(Start(boxes, n))
  {
    AllLooking(n);
  }
}
