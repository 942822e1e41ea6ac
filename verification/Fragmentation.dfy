/** Branch and bound over boxes: a box is accepted when every constraint is certified non-negative on it,
    dropped when one is certified non-positive, kept when it is small, and halved otherwise. Several
    threads share a queue and stop when the last one finds nothing to do; here each locked region is one
    step. */
module Fragmentation {

  type Point = seq<real>

  /** An interval per dimension. */
  type Box = seq<(real, real)>

  ghost predicate In(x: Point, b: Box) {
    |x| == |b| && forall d :: 0 <= d < |b| ==> b[d].0 <= x[d] <= b[d].1
  }

  predicate Proper(b: Box) {
    forall d :: 0 <= d < |b| ==> b[d].0 <= b[d].1
  }

  /** The constraints, the two certificate oracles, the size below which a box is not halved, whether only
      integer points matter, and the filter for boxes with the points it is meant to keep. */
  datatype Setup = Setup(n: nat, g: (nat, Point) -> real, pos: (nat, Box) -> bool, neg: (nat, Box) -> bool, limit: real,
                         integer: bool, wanted: Box -> bool, target: Point -> bool) {
    /** A certificate is right about every point of its box, and so is the filter. */
    ghost predicate Sound() {
      && (forall i: nat, b, x :: i < n && pos(i, b) && In(x, b) ==> 0.0 <= g(i, x))
      && (forall i: nat, b, x :: i < n && neg(i, b) && In(x, b) ==> g(i, x) <= 0.0)
      && (forall b, x :: !wanted(b) && In(x, b) ==> !target(x))
      && 0.0 < limit
    }
  }

  /** A box and, per constraint, 1 once it is certified non-negative there and 0 before. */
  datatype Work = Work(box: Box, marks: seq<int>)

  ghost predicate Fits(su: Setup, w: Work) {
    |w.marks| == su.n && 0.0 < su.limit
  }

  // ---------------------------------------------------------------- processing one box

  function Len(b: Box, d: nat): real
    requires d < |b|
  {
    b[d].1 - b[d].0
  }

  /** The greatest length among the first `k` dimensions and the first dimension that has it; -1 before
      any. */
  function Widest(b: Box, k: nat): (int, real)
    requires k <= |b|
  {
    if k == 0 then (-1, -1.0)
    else
      var (i, m) := Widest(b, k - 1);
      if m < Len(b, k - 1) then (k - 1, Len(b, k - 1)) else (i, m)
  }

  function Norm(b: Box): real {
    Widest(b, |b|).1
  }

  lemma {:induction false} WidestIs(b: Box, k: nat)
    requires k <= |b|
    ensures var (i, m) := Widest(b, k);
            && -1.0 <= m && i < k && (m > -1.0 ==> 0 <= i && m == Len(b, i))
            && (forall d :: 0 <= d < k ==> Len(b, d) <= m)
            && forall d :: 0 <= d < i ==> Len(b, d) < m
  {
    if k > 0 { WidestIs(b, k - 1); }
  }

  /** The lower and the upper half along one dimension. */
  function Lower(b: Box, d: nat): Box
    requires d < |b|
  {
    b[d := (b[d].0, (b[d].1 + b[d].0) * 0.5)]
  }

  function Upper(b: Box, d: nat): Box
    requires d < |b|
  {
    b[d := ((b[d].1 + b[d].0) * 0.5, b[d].1)]
  }

  lemma HalvesCover(b: Box, d: nat, x: Point)
    requires d < |b| && b[d].0 <= b[d].1
    ensures In(x, b) <==> In(x, Lower(b, d)) || In(x, Upper(b, d))
  {}

  function Ceil(r: real): real {
    -((-r).Floor as real)
  }

  /** Shrinks every interval to integer ends; it may become empty. */
  function Round(b: Box): Box {
    seq(|b|, d requires 0 <= d < |b| => (Ceil(b[d].0), b[d].1.Floor as real))
  }

  ghost predicate Integral(x: Point) {
    forall d :: 0 <= d < |x| ==> x[d] == x[d].Floor as real
  }

  /** Rounding loses no integer point and gains no point. */
  lemma RoundKeeps(b: Box, x: Point)
    ensures In(x, Round(b)) ==> In(x, b)
    ensures Integral(x) ==> (In(x, Round(b)) <==> In(x, b))
  {
    if In(x, Round(b)) {
      forall d | 0 <= d < |b| ensures b[d].0 <= x[d] <= b[d].1 { assert Round(b)[d] == (Ceil(b[d].0), b[d].1.Floor as real); }
    }
    if Integral(x) && In(x, b) {
      forall d | 0 <= d < |b| ensures Round(b)[d].0 <= x[d] <= Round(b)[d].1 {
        FloorAtLeast(b[d].1, x[d].Floor);
        FloorAtLeast(-b[d].0, -x[d].Floor);
      }
    }
  }

  lemma FloorAtLeast(r: real, k: int)
    requires k as real <= r
    ensures k <= r.Floor
  {
    assert r < r.Floor as real + 1.0 == (r.Floor + 1) as real;
  }

  /** A half as it is queued. */
  function Queued(su: Setup, b: Box): Box {
    if su.integer then Round(b) else b
  }

  datatype Verdict = Negative | Marked(marks: seq<int>)

  /** Asks the oracles about the constraints from `i` on. */
  function Classify(su: Setup, b: Box, marks: seq<int>, i: nat): Verdict
    requires |marks| == su.n && i <= su.n
    decreases su.n - i
  {
    if i == su.n then Marked(marks)
    else if marks[i] > 0 then Classify(su, b, marks, i + 1)
    else if su.pos(i, b) then Classify(su, b, marks[i := 1], i + 1)
    else if su.neg(i, b) then Negative
    else Classify(su, b, marks, i + 1)
  }

  function Sum(s: seq<int>): int {
    if s == [] then 0 else s[0] + Sum(s[1..])
  }

  datatype Outcome = Drop | Keep(work: Work, confident: bool) | Halve(lower: Work, upper: Work)

  predicate AllPositive(marks: seq<int>) {
    forall i | 0 <= i < |marks| :: marks[i] > 0
  }

  lemma AllPositiveStep(marks: seq<int>, i: nat)
    requires i < |marks|
    ensures AllPositive(marks[..i + 1]) <==> AllPositive(marks[..i]) && marks[i] > 0
  {
    assert marks[..i + 1] == marks[..i] + [marks[i]];
    if AllPositive(marks[..i + 1]) {
      assert marks[..i + 1][i] > 0;
      forall k | 0 <= k < i ensures marks[..i][k] > 0 { assert marks[..i + 1][k] > 0; }
    }
  }

  /** The box is dropped before any constraint is looked at. */
  predicate Excluded(su: Setup, b: Box) {
    !su.wanted(b) || (su.integer && !Proper(b))
  }

  /** What happens to a box. A small box that is not fully certified counts as confident when all
      constraints but one are. */
  function Process(su: Setup, w: Work): Outcome
    requires |w.marks| == su.n && 0.0 < su.limit
  {
    if Excluded(su, w.box) then Drop
    else match Classify(su, w.box, w.marks, 0)
      case Negative => Drop
      case Marked(marks) =>
        if AllPositive(marks) then Keep(Work(w.box, marks), true)
        else if Norm(w.box) < su.limit then Keep(Work(w.box, marks), Sum(marks) >= su.n - 1)
        else
          WidestIs(w.box, |w.box|);
          var d := Widest(w.box, |w.box|).0;
          Halve(Work(Queued(su, Lower(w.box, d)), marks), Work(Queued(su, Upper(w.box, d)), marks))
  }

  /** One thread's work on a box it has taken from the queue. */
  method ProcessBox(su: Setup, w: Work) returns (o: Outcome)
    requires |w.marks| == su.n && 0.0 < su.limit
    ensures o == Process(su, w)
    ensures o.Keep? <==>
            && su.wanted(w.box) && (su.integer ==> Proper(w.box)) && (forall i: nat :: i < su.n ==> !Refuted(su, w, i))
            && ((forall i: nat :: i < su.n ==> !Uncertified(su, w, i)) || Small(su, w.box))
    ensures o.Halve? ==> exists d: nat :: Longest(su, w.box, d) && Split(su, w.box, d, o.lower.box, o.upper.box)
  {
    hide Refuted, Uncertified, Small, Longest, Split;
    DropIff(su, w);
    KeepOrHalve(su, w);
    if !su.wanted(w.box) {
      return Drop;
    }
    if su.integer && !Proper(w.box) {
      return Drop;
    }
    var marks := w.marks;
    var found := 2;
    for i := 0 to su.n
      invariant |marks| == su.n && Classify(su, w.box, marks, i) == Classify(su, w.box, w.marks, 0)
      invariant found == 2 <==> AllPositive(marks[..i])
    {
      AllPositiveStep(marks, i);
      AllPositiveStep(marks[i := 1], i);
      assert marks[i := 1][..i] == marks[..i];
      if marks[i] > 0 {
        continue;
      }
      if su.pos(i, w.box) {
        marks := marks[i := 1];
      } else if su.neg(i, w.box) {
        return Drop;
      } else if found == 2 {
        found := 1;
      }
    }
    assert marks[..su.n] == marks;
    if found == 2 {
      return Keep(Work(w.box, marks), true);
    }
    if Norm(w.box) < su.limit {
      return Keep(Work(w.box, marks), Sum(marks) >= su.n - 1);
    }
    var maxLen, idx := -1.0, -1;
    for d := 0 to |w.box|
      invariant (idx, maxLen) == Widest(w.box, d)
    {
      if maxLen < Len(w.box, d) {
        idx, maxLen := d, Len(w.box, d);
      }
    }
    WidestIs(w.box, |w.box|);
    o := Halve(Work(Queued(su, Lower(w.box, idx)), marks), Work(Queued(su, Upper(w.box, idx)), marks));
  }

  // ---------------------------------------------------------------- what one box keeps

  /** The marks are truthful. */
  ghost predicate Truthful(su: Setup, w: Work) {
    && |w.marks| == su.n
    && (forall i :: 0 <= i < su.n ==> w.marks[i] == 0 || w.marks[i] == 1)
    && forall i, x :: 0 <= i < su.n && w.marks[i] == 1 && In(x, w.box) ==> 0.0 <= su.g(i, x)
  }

  /** A point of the kind that is looked for. */
  ghost predicate Sought(su: Setup, x: Point) {
    su.target(x) && (su.integer ==> Integral(x))
  }

  /** `x` is sought and satisfies every constraint strictly. */
  ghost predicate Inside(su: Setup, x: Point) {
    Sought(su, x) && forall i :: 0 <= i < su.n ==> su.g(i, x) > 0.0
  }

  lemma {:induction false} ClassifyTruthful(su: Setup, b: Box, marks: seq<int>, i: nat)
    requires su.Sound() && Truthful(su, Work(b, marks)) && i <= su.n
    ensures var v := Classify(su, b, marks, i);
            && (v.Marked? ==> Truthful(su, Work(b, v.marks)))
            && (v.Negative? ==> forall x :: In(x, b) ==> !Inside(su, x))
    decreases su.n - i
  {
    if i < su.n {
      if marks[i] > 0 {
        ClassifyTruthful(su, b, marks, i + 1);
      } else if su.pos(i, b) {
        ClassifyTruthful(su, b, marks[i := 1], i + 1);
      } else if su.neg(i, b) {
        forall x | In(x, b) ensures !Inside(su, x) { assert su.g(i, x) <= 0.0; }
      } else {
        ClassifyTruthful(su, b, marks, i + 1);
      }
    }
  }

  lemma SubBoxTruthful(su: Setup, b: Box, c: Box, marks: seq<int>)
    requires Truthful(su, Work(b, marks)) && forall x :: In(x, c) ==> In(x, b)
    ensures Truthful(su, Work(c, marks))
  {}

  ghost predicate OutcomeTruthful(su: Setup, o: Outcome) {
    match o
    case Drop => true
    case Keep(w, _) => Truthful(su, w)
    case Halve(l, u) => Truthful(su, l) && Truthful(su, u)
  }

  /** `x` is still in a box after the outcome. */
  ghost predicate InOutcome(x: Point, o: Outcome) {
    match o
    case Drop => false
    case Keep(w, _) => In(x, w.box)
    case Halve(l, u) => In(x, l.box) || In(x, u.box)
  }

  /** A sought point stays in one of the halves as they are queued, and no half has a point more. */
  lemma QueuedHalves(su: Setup, b: Box, d: nat, x: Point)
    requires d < |b| && b[d].0 <= b[d].1
    ensures In(x, Queued(su, Lower(b, d))) || In(x, Queued(su, Upper(b, d))) ==> In(x, b)
    ensures Sought(su, x) && In(x, b) ==> In(x, Queued(su, Lower(b, d))) || In(x, Queued(su, Upper(b, d)))
  {
    hide In, Round, Lower, Upper, Integral;
    HalvesCover(b, d, x);
    RoundKeeps(Lower(b, d), x);
    RoundKeeps(Upper(b, d), x);
  }

  /** Processing keeps marks truthful, and a sought point leaves the boxes only when its box is dropped. */
  lemma ProcessKeepsSought(su: Setup, w: Work)
    requires su.Sound() && Truthful(su, w)
    ensures OutcomeTruthful(su, Process(su, w))
    ensures forall x :: In(x, w.box) && Sought(su, x) ==> (InOutcome(x, Process(su, w)) <==> !Process(su, w).Drop?)
  {
    hide Classify, In, Sought, Proper, Truthful, Queued, Lower, Upper;
    TruthfulShape(su, w);
    if !Excluded(su, w.box) {
      ClassifyTruthful(su, w.box, w.marks, 0);
      match Classify(su, w.box, w.marks, 0)
      case Negative =>
      case Marked(marks) =>
        if !AllPositive(marks) && !(Norm(w.box) < su.limit) {
          WidestIs(w.box, |w.box|);
          var d := Widest(w.box, |w.box|).0;
          var l, u := Queued(su, Lower(w.box, d)), Queued(su, Upper(w.box, d));
          forall x
            ensures In(x, l) || In(x, u) ==> In(x, w.box)
            ensures Sought(su, x) && In(x, w.box) ==> In(x, l) || In(x, u)
          {
            QueuedHalves(su, w.box, d, x);
          }
          SubBoxTruthful(su, w.box, l, marks);
          SubBoxTruthful(su, w.box, u, marks);
        }
    }
  }

  lemma TruthfulShape(su: Setup, w: Work)
    requires Truthful(su, w)
    ensures |w.marks| == su.n
  {}

  /** Processing never loses a point that satisfies every constraint strictly. */
  lemma ProcessKeeps(su: Setup, w: Work)
    requires su.Sound() && Truthful(su, w)
    ensures OutcomeTruthful(su, Process(su, w))
    ensures forall x :: In(x, w.box) && Inside(su, x) ==> InOutcome(x, Process(su, w))
  {
    hide Classify, InOutcome, Truthful, OutcomeTruthful, In, Integral;
    TruthfulShape(su, w);
    ProcessKeepsSought(su, w);
    ClassifyTruthful(su, w.box, w.marks, 0);
    forall x | In(x, w.box) && Inside(su, x) ensures InOutcome(x, Process(su, w)) {
      if Excluded(su, w.box) { NotExcluded(su, w.box, x); }
    }
  }

  /** A box with a sought point is not excluded. */
  lemma NotExcluded(su: Setup, b: Box, x: Point)
    requires su.Sound() && In(x, b) && Sought(su, x)
    ensures !Excluded(su, b)
  {
    if su.integer {
      forall d | 0 <= d < |b| ensures b[d].0 <= b[d].1 {}
    }
  }

  // ---------------------------------------------------------------- exactly what is lost

  /** Constraint `i` is not certified non-negative on the box, but certified non-positive. */
  ghost predicate Refuted(su: Setup, w: Work, i: nat)
    requires |w.marks| == su.n && i < su.n
  {
    w.marks[i] <= 0 && !su.pos(i, w.box) && su.neg(i, w.box)
  }

  lemma {:induction false} NegativeIff(su: Setup, b: Box, marks: seq<int>, i: nat)
    requires |marks| == su.n && i <= su.n
    ensures Classify(su, b, marks, i).Negative? <==> exists k: nat :: i <= k < su.n && Refuted(su, Work(b, marks), k)
    decreases su.n - i
  {
    if i < su.n {
      var after := if marks[i] <= 0 && su.pos(i, b) then marks[i := 1] else marks;
      if marks[i] <= 0 && !su.pos(i, b) && su.neg(i, b) {
        assert Refuted(su, Work(b, marks), i);
      } else {
        NegativeIff(su, b, after, i + 1);
        forall k: nat | i < k < su.n ensures Refuted(su, Work(b, after), k) <==> Refuted(su, Work(b, marks), k) {}
        assert !Refuted(su, Work(b, marks), i);
      }
    }
  }

  /** A box is dropped exactly when it is filtered out, has an empty interval in the integer variant, or has a
      constraint refuted on it. */
  lemma DropIff(su: Setup, w: Work)
    requires |w.marks| == su.n && 0.0 < su.limit
    ensures Process(su, w).Drop? <==>
            || !su.wanted(w.box)
            || (su.integer && exists d :: 0 <= d < |w.box| && w.box[d].1 < w.box[d].0)
            || exists i: nat :: i < su.n && Refuted(su, w, i)
  {
    hide Classify, Refuted;
    NegativeIff(su, w.box, w.marks, 0);
  }

  /** Exactly when a sought point that satisfies all constraints, not all strictly, is lost: a constraint is
      refuted on its box; and every constraint that is refuted there is zero at the point. */
  lemma LostIff(su: Setup, w: Work, x: Point)
    requires su.Sound() && Truthful(su, w) && In(x, w.box) && Sought(su, x)
    requires forall i :: 0 <= i < su.n ==> 0.0 <= su.g(i, x)
    ensures !InOutcome(x, Process(su, w)) <==> exists i: nat :: i < su.n && Refuted(su, w, i)
    ensures forall i: nat :: i < su.n && Refuted(su, w, i) ==> su.g(i, x) == 0.0
  {
    hide Classify, InOutcome, Process, Sought;
    ProcessKeepsSought(su, w);
    NotExcluded(su, w.box, x);
    DropIff(su, w);
  }

  /** One constraint `g` in one variable, with oracles that look at the ends of the interval. */
  ghost function OneConstraint(g: real -> real, pos: (real, real) -> bool, neg: (real, real) -> bool): Setup {
    Setup(1, (i: nat, x: Point) => if |x| == 1 then g(x[0]) else 0.0,
          (i: nat, b: Box) => |b| == 1 && pos(b[0].0, b[0].1), (i: nat, b: Box) => |b| == 1 && neg(b[0].0, b[0].1),
          0.7, false, (b: Box) => true, (x: Point) => true)
  }

  /** The constraint `-x >= 0`. */
  ghost function NonPositive(): Setup {
    OneConstraint((x: real) => -x, (lo: real, hi: real) => hi <= 0.0, (lo: real, hi: real) => 0.0 <= lo)
  }

  /** The constraint `x - 1/4 >= 0`. */
  ghost function AtLeastQuarter(): Setup {
    OneConstraint((x: real) => x - 0.25, (lo: real, hi: real) => 0.25 <= lo, (lo: real, hi: real) => hi <= 0.25)
  }

  /** The oracles answer yes exactly when the sign holds on the whole interval. */
  ghost predicate ExactOracles(su: Setup) {
    forall lo, hi :: lo <= hi ==>
      && (su.pos(0, [(lo, hi)]) <==> forall x :: lo <= x <= hi ==> 0.0 <= su.g(0, [x]))
      && (su.neg(0, [(lo, hi)]) <==> forall x :: lo <= x <= hi ==> su.g(0, [x]) <= 0.0)
  }

  lemma ExactIsSound(su: Setup)
    requires ExactOracles(su) && su.n == 1 && 0.0 < su.limit && (forall b :: su.wanted(b))
    requires forall b :: su.pos(0, b) || su.neg(0, b) ==> |b| == 1
    ensures su.Sound()
  {
    forall i: nat, b: Box, x: Point | i < 1 && (su.pos(i, b) || su.neg(i, b)) && In(x, b)
      ensures (su.pos(i, b) ==> 0.0 <= su.g(i, x)) && (su.neg(i, b) ==> su.g(i, x) <= 0.0)
    {
      assert b == [(b[0].0, b[0].1)] && x == [x[0]];
      assert su.g(0, [x[0]]) == su.g(i, x);
    }
  }

  /** It happens: for the constraint `-x >= 0` the interval from 0 to 1 is dropped, and with it the point 0. */
  lemma BoundaryIsLost()
    ensures var su, w := NonPositive(), Work([(0.0, 1.0)], [0]);
            && ExactOracles(su) && su.Sound() && Truthful(su, w) && Process(su, w) == Drop
            && In([0.0], w.box) && Sought(su, [0.0]) && su.g(0, [0.0]) == 0.0
  {
    var su, w := NonPositive(), Work([(0.0, 1.0)], [0]);
    assert ExactOracles(su) by {
      forall lo, hi | lo <= hi
        ensures su.pos(0, [(lo, hi)]) <==> forall x :: lo <= x <= hi ==> 0.0 <= su.g(0, [x])
        ensures su.neg(0, [(lo, hi)]) <==> forall x :: lo <= x <= hi ==> su.g(0, [x]) <= 0.0
      {
        assert su.g(0, [hi]) == -hi && su.g(0, [lo]) == -lo;
      }
    }
    ExactIsSound(su);
    assert Classify(su, w.box, w.marks, 0) == Negative;
  }

  // ---------------------------------------------------------------- exactly what is kept and what is halved

  /** Constraint `i` is certified on the box neither before nor by the oracle. */
  ghost predicate Uncertified(su: Setup, w: Work, i: nat)
    requires |w.marks| == su.n && i < su.n
  {
    w.marks[i] <= 0 && !su.pos(i, w.box)
  }

  lemma {:induction false} MarksAfter(su: Setup, b: Box, marks: seq<int>, i: nat)
    requires |marks| == su.n && i <= su.n
    ensures var v := Classify(su, b, marks, i);
            v.Marked? ==> |v.marks| == su.n && forall k :: 0 <= k < su.n ==>
              v.marks[k] == if i <= k && marks[k] <= 0 && su.pos(k, b) then 1 else marks[k]
    decreases su.n - i
  {
    if i < su.n {
      MarksAfter(su, b, if marks[i] <= 0 && su.pos(i, b) then marks[i := 1] else marks, i + 1);
    }
  }

  /** The marks once the oracles have been asked. */
  ghost function MarksOn(su: Setup, w: Work): seq<int>
    requires |w.marks| == su.n
  {
    seq(su.n, i requires 0 <= i < su.n => if Uncertified(su, w, i) || w.marks[i] > 0 then w.marks[i] else 1)
  }

  /** Every dimension is shorter than the limit. */
  ghost predicate Small(su: Setup, b: Box) {
    forall d :: 0 <= d < |b| ==> Len(b, d) < su.limit
  }

  /** Dimension `d` is long enough and the first one that no other exceeds. */
  ghost predicate Longest(su: Setup, b: Box, d: nat) {
    && d < |b| && su.limit <= Len(b, d) && (forall k :: 0 <= k < |b| ==> Len(b, k) <= Len(b, d))
    && forall k :: 0 <= k < d ==> Len(b, k) < Len(b, d)
  }

  /** The two boxes meet at the midpoint of dimension `d` and have the other dimensions of `b`, with ends
      rounded inwards in the integer variant. */
  ghost predicate Split(su: Setup, b: Box, d: nat, l: Box, u: Box)
    requires d < |b|
  {
    exists mid: real ::
      && mid - b[d].0 == b[d].1 - mid
      && l == Queued(su, b[d := (b[d].0, mid)]) && u == Queued(su, b[d := (mid, b[d].1)])
  }

  lemma SmallIff(su: Setup, b: Box)
    requires 0.0 < su.limit
    ensures Norm(b) < su.limit <==> Small(su, b)
    ensures !Small(su, b) ==> 0 <= Widest(b, |b|).0 && Longest(su, b, Widest(b, |b|).0)
  {
    WidestIs(b, |b|);
  }

  /** A box is kept exactly when it is neither excluded nor refuted and is certified for all constraints or
      small; then it is kept as it is, with the new marks. It is halved in the remaining case: at the
      midpoint of the first longest dimension, both halves with the new marks. */
  lemma KeepOrHalve(su: Setup, w: Work)
    requires |w.marks| == su.n && 0.0 < su.limit
    ensures var o := Process(su, w); var certified := forall i: nat :: i < su.n ==> !Uncertified(su, w, i);
            && (o.Keep? <==> !o.Drop? && (certified || Small(su, w.box)))
            && (o.Keep? ==> o.work == Work(w.box, MarksOn(su, w)))
            && (o.Halve? ==>
                  && o.lower.marks == o.upper.marks == MarksOn(su, w)
                  && exists d: nat :: Longest(su, w.box, d) && Split(su, w.box, d, o.lower.box, o.upper.box))
  {
    hide Classify, Norm, Queued, Small, Longest, Excluded;
    MarksAfter(su, w.box, w.marks, 0);
    SmallIff(su, w.box);
    match Classify(su, w.box, w.marks, 0)
    case Negative =>
    case Marked(marks) =>
      assert marks == MarksOn(su, w);
      forall i | 0 <= i < su.n ensures marks[i] > 0 <==> !Uncertified(su, w, i) {}
      assert AllPositive(marks) <==> forall i: nat :: i < su.n ==> !Uncertified(su, w, i);
      if Process(su, w).Halve? { HalvesSplit(su, w.box); }
  }

  lemma HalvesSplit(su: Setup, b: Box)
    requires 0.0 < su.limit && !Small(su, b)
    ensures var d := Widest(b, |b|).0; 0 <= d < |b| && Longest(su, b, d) && Split(su, b, d, Queued(su, Lower(b, d)), Queued(su, Upper(b, d)))
  {
    hide Queued;
    SmallIff(su, b);
    var d := Widest(b, |b|).0;
    var mid := (b[d].1 + b[d].0) * 0.5;
    assert mid - b[d].0 == b[d].1 - mid;
  }

  /** Rounding gives integer ends, each less than one away. */
  lemma RoundIs(b: Box, d: nat)
    requires d < |b|
    ensures |Round(b)| == |b| && var r := Round(b)[d];
            && r.0 == r.0.Floor as real && b[d].0 <= r.0 < b[d].0 + 1.0
            && r.1 == r.1.Floor as real && b[d].1 - 1.0 < r.1 <= b[d].1
  {
    CeilIs(b[d].0);
    FloorOfInt(b[d].1.Floor);
  }

  lemma CeilIs(r: real)
    ensures Ceil(r) == Ceil(r).Floor as real && r <= Ceil(r) < r + 1.0
  {
    var k := -((-r).Floor);
    assert Ceil(r) == k as real;
    FloorOfInt(k);
  }

  lemma FloorOfInt(k: int)
    ensures (k as real).Floor == k
  {}

  // ---------------------------------------------------------------- confidence

  lemma {:induction false} SumOfMarks(marks: seq<int>)
    requires forall i :: 0 <= i < |marks| ==> marks[i] == 0 || marks[i] == 1
    ensures 0 <= Sum(marks) <= |marks|
    ensures Sum(marks) == |marks| <==> AllPositive(marks)
  {
    if marks != [] {
      SumOfMarks(marks[1..]);
      assert AllPositive(marks) <==> marks[0] > 0 && AllPositive(marks[1..]) by {
        assert marks == [marks[0]] + marks[1..];
      }
    }
  }

  /** Marks add up to one less than their number exactly when a single one is zero. */
  lemma {:induction false} OneMissing(marks: seq<int>)
    requires forall i :: 0 <= i < |marks| ==> marks[i] == 0 || marks[i] == 1
    ensures Sum(marks) == |marks| - 1 <==> exists k :: 0 <= k < |marks| && OnlyZero(marks, k)
  {
    if marks != [] {
      var tl := marks[1..];
      SumOfMarks(tl);
      OneMissing(tl);
      if marks[0] == 0 {
        assert OnlyZero(marks, 0) <==> AllPositive(tl) by { assert forall i :: 0 <= i < |tl| ==> tl[i] == marks[i + 1]; }
      } else {
        forall k | 0 <= k < |tl| ensures OnlyZero(tl, k) <==> OnlyZero(marks, k + 1) { OnlyZeroShift(marks, k); }
        assert forall k :: 0 <= k < |marks| && OnlyZero(marks, k) ==> k > 0 && OnlyZero(tl, k - 1);
      }
    }
  }

  ghost predicate OnlyZero(marks: seq<int>, k: nat)
    requires k < |marks|
  {
    forall i :: 0 <= i < |marks| ==> (marks[i] == 0 <==> i == k)
  }

  lemma OnlyZeroShift(marks: seq<int>, k: nat)
    requires marks != [] && marks[0] != 0 && k < |marks| - 1
    ensures OnlyZero(marks[1..], k) <==> OnlyZero(marks, k + 1)
  {
    if OnlyZero(marks, k + 1) {
      forall i | 0 <= i < |marks| - 1 ensures marks[1..][i] == 0 <==> i == k { assert marks[1..][i] == marks[i + 1]; }
    }
    if OnlyZero(marks[1..], k) {
      forall i | 0 <= i < |marks| ensures marks[i] == 0 <==> i == k + 1 { assert i > 0 ==> marks[i] == marks[1..][i - 1]; }
    }
  }

  /** Constraint `k` is the only one that is not certified. */
  ghost predicate OnlyUncertified(su: Setup, w: Work, k: nat)
    requires |w.marks| == su.n && k < su.n
  {
    forall i: nat :: i < su.n ==> (Uncertified(su, w, i) <==> i == k)
  }

  /** A kept box is reported as lying in the intersection when at most one constraint is not certified on it,
      and the report is right about certification exactly unless there is one. */
  lemma ConfidenceMeans(su: Setup, w: Work)
    requires su.Sound() && Truthful(su, w) && Process(su, w).Keep?
    ensures var o, one := Process(su, w), exists k: nat :: k < su.n && OnlyUncertified(su, w, k);
            && (o.confident <==> one || forall i: nat :: i < su.n ==> !Uncertified(su, w, i))
            && ((o.confident ==> AllPositive(o.work.marks)) <==> !one)
            && (AllPositive(o.work.marks) ==> forall i, x :: 0 <= i < su.n && In(x, o.work.box) ==> 0.0 <= su.g(i, x))
  {
    hide Norm, Widest, Classify, Sum, In;
    ClassifyTruthful(su, w.box, w.marks, 0);
    MarksAfter(su, w.box, w.marks, 0);
    var o := Process(su, w);
    var marks := o.work.marks;
    SumOfMarks(marks);
    OneMissing(marks);
    forall i: nat | i < su.n ensures marks[i] == 0 <==> Uncertified(su, w, i) {}
    forall k: nat | k < su.n ensures OnlyZero(marks, k) <==> OnlyUncertified(su, w, k) {}
  }

  /** For the constraint `x - 1/4 >= 0`, the interval from 0 to 1/2 is reported although the point 0
      violates the constraint. */
  lemma ConfidentButOutside()
    ensures var su, w := AtLeastQuarter(), Work([(0.0, 0.5)], [0]);
            && ExactOracles(su) && su.Sound() && Truthful(su, w) && Process(su, w) == Keep(w, true)
            && In([0.0], w.box) && Sought(su, [0.0]) && su.g(0, [0.0]) < 0.0
  {
    var su, w := AtLeastQuarter(), Work([(0.0, 0.5)], [0]);
    assert ExactOracles(su) by {
      forall lo, hi | lo <= hi
        ensures su.pos(0, [(lo, hi)]) <==> forall x :: lo <= x <= hi ==> 0.0 <= su.g(0, [x])
        ensures su.neg(0, [(lo, hi)]) <==> forall x :: lo <= x <= hi ==> su.g(0, [x]) <= 0.0
      {
        assert su.g(0, [hi]) == hi - 0.25 && su.g(0, [lo]) == lo - 0.25;
      }
    }
    ExactIsSound(su);
    assert Classify(su, w.box, [0], 0) == Classify(su, w.box, [0], 1) == Marked([0]);
    assert !AllPositive([0]) by { assert [0][0] == 0; }
    assert Sum([0]) == 0 + Sum([0][1..]);
    assert Widest(w.box, 0) == (-1, -1.0) && Widest(w.box, 1) == (0, 0.5);
  }

  // ---------------------------------------------------------------- the threads

  /** A thread at the condition variable has been notified or not. */
  datatype Thread = Looking | Busy(work: Work) | Waiting(notified: bool) | Exited

  /** The queue from the current box on, the threads, the boxes kept, and the count of threads that are
      neither waiting nor gone. */
  datatype State = State(pending: seq<Work>, threads: seq<Thread>, kept: seq<Kept>, active: int)

  /** A box of the result, and whether it is reported as lying in the intersection. */
  datatype Kept = Kept(work: Work, confident: bool)

  datatype Step = Acquire(t: nat) | Wake(t: nat) | Finish(t: nat)

  /** Notifies every thread that waits. */
  ghost function Notify(threads: seq<Thread>): seq<Thread> {
    seq(|threads|, i requires 0 <= i < |threads| => if threads[i].Waiting? then Waiting(true) else threads[i])
  }

  ghost predicate Enabled(su: Setup, s: State, step: Step) {
    && step.t < |s.threads|
    && match step
       case Acquire(t) => s.threads[t].Looking? && (s.pending == [] ==> s.active > 0)
       case Wake(t) => s.threads[t].Waiting?
       case Finish(t) => s.threads[t].Busy? && Fits(su, s.threads[t].work)
  }

  /** One critical section: look for work, leave the wait, or hand in a processed box. A wait may also end
      without a notification. */
  ghost function Apply(su: Setup, s: State, step: Step): State
    requires Enabled(su, s, step)
  {
    match step
    case Acquire(t) =>
      if s.pending != [] then State(s.pending[1..], s.threads[t := Busy(s.pending[0])], s.kept, s.active)
      else if s.active == 1 then s.(threads := Notify(s.threads[t := Exited]), active := 0)
      else s.(threads := s.threads[t := Waiting(false)], active := s.active - 1)
    case Wake(t) =>
      if s.pending != [] then State(s.pending[1..], s.threads[t := Busy(s.pending[0])], s.kept, s.active + 1)
      else if s.active == 0 then s.(threads := Notify(s.threads[t := Exited]))
      else s.(threads := s.threads[t := Waiting(false)])
    case Finish(t) =>
      var after := s.(threads := s.threads[t := Looking]);
      match Process(su, s.threads[t].work)
      case Drop => after
      case Keep(w, c) => after.(kept := s.kept + [Kept(w, c)])
      case Halve(l, u) =>
        after.(pending := s.pending + [u, l], threads := if s.pending == [] then Notify(after.threads) else after.threads)
  }

  /** All threads look for work, and the given boxes are queued. */
  ghost function Start(boxes: seq<Work>, threads: nat): State {
    State(boxes, seq(threads, i => Looking), [], threads)
  }

  // ---------------------------------------------------------------- invariants of every run

  ghost function ActiveCount(threads: seq<Thread>): nat {
    if threads == [] then 0 else (if threads[0].Looking? || threads[0].Busy? then 1 else 0) + ActiveCount(threads[1..])
  }

  lemma {:induction false} ActiveCountUpdate(threads: seq<Thread>, t: nat, x: Thread)
    requires t < |threads|
    ensures ActiveCount(threads[t := x]) ==
            ActiveCount(threads) - (if threads[t].Looking? || threads[t].Busy? then 1 else 0) + (if x.Looking? || x.Busy? then 1 else 0)
    ensures threads[t].Looking? || threads[t].Busy? ==> ActiveCount(threads) > 0
  {
    if t == 0 {
      assert threads[t := x][1..] == threads[1..];
    } else {
      ActiveCountUpdate(threads[1..], t - 1, x);
      assert threads[t := x][1..] == threads[1..][t - 1 := x];
    }
  }

  lemma {:induction false} ActiveCountNotify(threads: seq<Thread>)
    ensures ActiveCount(Notify(threads)) == ActiveCount(threads)
  {
    if threads != [] {
      ActiveCountNotify(threads[1..]);
      assert Notify(threads)[1..] == Notify(threads[1..]);
    }
  }

  /** Some box in the system contains `x`. */
  ghost predicate Held(s: State, x: Point) {
    || (exists w :: w in s.pending && In(x, w.box))
    || (exists t :: 0 <= t < |s.threads| && s.threads[t].Busy? && In(x, s.threads[t].work.box))
    || (exists k :: k in s.kept && In(x, k.work.box))
  }

  ghost predicate AllTruthful(su: Setup, s: State) {
    && (forall w :: w in s.pending ==> Truthful(su, w))
    && (forall k :: k in s.kept ==> Truthful(su, k.work))
    && (forall t :: 0 <= t < |s.threads| && s.threads[t].Busy? ==> Truthful(su, s.threads[t].work))
  }

  /** The count is right; if a thread has gone, no work is left and no thread is active; the threads cannot
      all be waiting; and no wake-up is lost: whenever there is work or a thread has gone, every waiting
      thread has been notified. */
  ghost predicate Disciplined(s: State) {
    && s.active == ActiveCount(s.threads)
    && (Exited in s.threads ==> s.pending == [] && s.active == 0)
    && (s.active == 0 ==> s.threads == [] || Exited in s.threads)
    && (s.pending != [] || Exited in s.threads ==> AllNotified(s.threads))
  }

  ghost predicate AllNotified(threads: seq<Thread>) {
    forall t :: 0 <= t < |threads| && threads[t].Waiting? ==> threads[t].notified
  }

  lemma DisciplineKept(su: Setup, s: State, step: Step)
    requires Disciplined(s) && Enabled(su, s, step)
    ensures Disciplined(Apply(su, s, step))
  {
    hide Process, ActiveCount;
    var s', t := Apply(su, s, step), step.t;
    var moved := s.threads[t := s'.threads[t]];
    ActiveCountUpdate(s.threads, t, s'.threads[t]);
    ActiveCountNotify(moved);
    assert s.threads[t := s.threads[t]] == s.threads;
    assert s'.threads == moved || s'.threads == Notify(moved);
    forall k | 0 <= k < |s.threads| && s.threads[k] == Exited ensures s'.threads[k] == Exited {}
    assert s'.threads[t] == Exited ==> Exited in s'.threads;
    assert Exited in s'.threads ==> Exited in s.threads || s'.threads[t] == Exited;
  }

  lemma TruthKept(su: Setup, s: State, step: Step)
    requires su.Sound() && AllTruthful(su, s) && Enabled(su, s, step)
    ensures AllTruthful(su, Apply(su, s, step))
  {
    hide Process, Truthful;
    if step.Finish? {
      ProcessKeeps(su, s.threads[step.t].work);
    }
  }

  lemma PointKept(su: Setup, s: State, step: Step, x: Point)
    requires su.Sound() && AllTruthful(su, s) && Enabled(su, s, step) && Inside(su, x) && Held(s, x)
    ensures Held(Apply(su, s, step), x)
  {
    hide Process, Truthful, In, Inside;
    var s', t := Apply(su, s, step), step.t;
    forall k | 0 <= k < |s.threads| && k != t && s.threads[k].Busy? ensures s'.threads[k] == s.threads[k] {}
    forall k | k in s.kept ensures k in s'.kept {}
    if step.Finish? {
      forall w | w in s.pending ensures w in s'.pending {}
      ProcessKeeps(su, s.threads[t].work);
      if In(x, s.threads[t].work.box) { FinishHolds(su, s, t, x); }
    } else if s.pending != [] && s' != s {
      assert s'.threads[t] == Busy(s.pending[0]);
      forall w | w in s.pending ensures w == s.pending[0] || w in s'.pending {
        assert s.pending == [s.pending[0]] + s.pending[1..];
      }
    }
  }

  lemma FinishHolds(su: Setup, s: State, t: nat, x: Point)
    requires Enabled(su, s, Finish(t)) && InOutcome(x, Process(su, s.threads[t].work))
    ensures Held(Apply(su, s, Finish(t)), x)
  {
    hide Process, In;
    var s' := Apply(su, s, Finish(t));
    match Process(su, s.threads[t].work)
    case Keep(w, c) => assert Kept(w, c) in s'.kept;
    case Halve(l, u) => assert l in s'.pending && u in s'.pending;
  }

  lemma {:induction false} AllLooking(n: nat)
    ensures ActiveCount(seq(n, i => Looking)) == n
  {
    if n > 0 {
      AllLooking(n - 1);
      var ts: seq<Thread> := seq(n, i => Looking);
      assert ts[1..] == seq(n - 1, i => Looking);
    }
  }

  lemma StartIsGood(su: Setup, boxes: seq<Work>, threads: nat)
    requires forall w :: w in boxes ==> Truthful(su, w)
    ensures Disciplined(Start(boxes, threads)) && AllTruthful(su, Start(boxes, threads))
  {
    AllLooking(threads);
  }

  lemma {:induction false} NoneActive(threads: seq<Thread>)
    requires forall t :: 0 <= t < |threads| ==> !threads[t].Looking? && !threads[t].Busy?
    ensures ActiveCount(threads) == 0
  {
    if threads != [] { NoneActive(threads[1..]); }
  }

  // ---------------------------------------------------------------- every run is finite

  /** Halvings until a length is below the limit. */
  ghost function Level(len: real, limit: real): nat
    requires 0.0 < limit
    decreases (len / limit).Floor
  {
    if len < limit then 0
    else
      HalfFloor(len, limit);
      1 + Level(len * 0.5, limit)
  }

  lemma HalfFloor(len: real, limit: real)
    requires 0.0 < limit <= len
    ensures 0 <= (len * 0.5 / limit).Floor < (len / limit).Floor
  {
    var q := len / limit;
    assert q * limit == len;
    assert q >= 1.0;
    assert (q * 0.5) * limit == len * 0.5;
    assert len * 0.5 / limit == q * 0.5;
  }

  lemma {:induction false} LevelMono(a: real, b: real, limit: real)
    requires 0.0 < limit && a <= b
    ensures Level(a, limit) <= Level(b, limit)
    decreases (b / limit).Floor
  {
    if limit <= a {
      HalfFloor(b, limit);
      LevelMono(a * 0.5, b * 0.5, limit);
    }
  }

  ghost function Levels(b: Box, limit: real): nat
    requires 0.0 < limit
  {
    if b == [] then 0 else Level(b[0].1 - b[0].0, limit) + Levels(b[1..], limit)
  }

  lemma {:induction false} LevelsUpdate(b: Box, d: nat, x: (real, real), limit: real)
    requires 0.0 < limit && d < |b|
    ensures Levels(b[d := x], limit) == Levels(b, limit) - Level(b[d].1 - b[d].0, limit) + Level(x.1 - x.0, limit)
  {
    if d == 0 {
      assert b[0 := x][1..] == b[1..];
    } else {
      LevelsUpdate(b[1..], d - 1, x, limit);
      assert b[d := x][1..] == b[1..][d - 1 := x];
    }
  }

  lemma {:induction false} LevelsRound(b: Box, limit: real)
    requires 0.0 < limit
    ensures Levels(Round(b), limit) <= Levels(b, limit)
    decreases |b|
  {
    hide Level;
    if b != [] {
      LevelsRound(b[1..], limit);
      assert Round(b)[1..] == Round(b[1..]);
      LevelMono(b[0].1.Floor as real - Ceil(b[0].0), b[0].1 - b[0].0, limit);
    }
  }

  lemma {:induction false} NodesMono(j: nat, k: nat)
    requires j <= k
    ensures Nodes(j) <= Nodes(k)
  {
    if 0 < j { NodesMono(j - 1, k - 1); }
  }

  /** Boxes that a box with `k` halvings to go can still produce, itself included. */
  ghost function Nodes(k: nat): nat {
    if k == 0 then 1 else 1 + 2 * Nodes(k - 1)
  }

  ghost function Cost(su: Setup, w: Work): nat
    requires Fits(su, w)
  {
    Nodes(Levels(w.box, su.limit))
  }

  /** Halving a dimension that is long enough takes one level off. */
  lemma HalfLevels(b: Box, d: nat, limit: real)
    requires d < |b| && 0.0 < limit <= Len(b, d)
    ensures Levels(Lower(b, d), limit) + 1 == Levels(b, limit) == Levels(Upper(b, d), limit) + 1
  {
    hide Levels;
    var mid := (b[d].1 + b[d].0) * 0.5;
    assert mid - b[d].0 == Len(b, d) * 0.5 == b[d].1 - mid;
    LevelsUpdate(b, d, (b[d].0, mid), limit);
    LevelsUpdate(b, d, (mid, b[d].1), limit);
  }

  /** The two halves together cost less than the box. */
  lemma HalvingCosts(su: Setup, w: Work)
    requires Fits(su, w) && Process(su, w).Halve?
    ensures var o := Process(su, w); Fits(su, o.lower) && Fits(su, o.upper) && Cost(su, o.lower) + Cost(su, o.upper) + 1 <= Cost(su, w)
  {
    hide Classify, Levels, Proper, Lower, Upper, Round;
    ClassifyLength(su, w.box, w.marks, 0);
    WidestIs(w.box, |w.box|);
    var d := Widest(w.box, |w.box|).0;
    HalfLevels(w.box, d, su.limit);
    LevelsRound(Lower(w.box, d), su.limit);
    LevelsRound(Upper(w.box, d), su.limit);
    var k := Levels(Lower(w.box, d), su.limit);
    NodesMono(Levels(Queued(su, Lower(w.box, d)), su.limit), k);
    NodesMono(Levels(Queued(su, Upper(w.box, d)), su.limit), k);
  }

  lemma {:induction false} ClassifyLength(su: Setup, b: Box, marks: seq<int>, i: nat)
    requires |marks| == su.n && i <= su.n
    ensures var v := Classify(su, b, marks, i); v.Marked? ==> |v.marks| == su.n
    decreases su.n - i
  {
    if i < su.n {
      ClassifyLength(su, b, marks, i + 1);
      ClassifyLength(su, b, marks[i := 1], i + 1);
    }
  }

  ghost predicate AllFit(su: Setup, s: State) {
    && (forall w :: w in s.pending ==> Fits(su, w))
    && ThreadsFit(su, s.threads)
  }

  ghost predicate ThreadsFit(su: Setup, ts: seq<Thread>) {
    forall t :: 0 <= t < |ts| && ts[t].Busy? ==> Fits(su, ts[t].work)
  }

  ghost function QueueCost(su: Setup, ws: seq<Work>): nat
    requires forall w :: w in ws ==> Fits(su, w)
  {
    if ws == [] then 0 else Cost(su, ws[0]) + QueueCost(su, ws[1..])
  }

  ghost function ThreadCost(su: Setup, ts: seq<Thread>): nat
    requires ThreadsFit(su, ts)
  {
    if ts == [] then 0 else (if ts[0].Busy? then Cost(su, ts[0].work) else 0) + ThreadCost(su, ts[1..])
  }

  lemma {:induction false} QueueCostAppend(su: Setup, ws: seq<Work>, vs: seq<Work>)
    requires (forall w :: w in ws ==> Fits(su, w)) && (forall w :: w in vs ==> Fits(su, w))
    ensures (forall w :: w in ws + vs ==> Fits(su, w)) && QueueCost(su, ws + vs) == QueueCost(su, ws) + QueueCost(su, vs)
    decreases |ws|
  {
    hide Fits, Cost;
    if ws == [] {
      assert ws + vs == vs;
    } else {
      QueueCostAppend(su, ws[1..], vs);
      assert (ws + vs)[1..] == ws[1..] + vs;
    }
  }

  lemma {:induction false} ThreadCostUpdate(su: Setup, ts: seq<Thread>, t: nat, x: Thread)
    requires ThreadsFit(su, ts) && t < |ts| && (x.Busy? ==> Fits(su, x.work))
    ensures ThreadsFit(su, ts[t := x])
    ensures ThreadCost(su, ts[t := x]) == ThreadCost(su, ts) - (if ts[t].Busy? then Cost(su, ts[t].work) else 0)
                                          + (if x.Busy? then Cost(su, x.work) else 0)
    decreases |ts|
  {
    hide Fits, Cost;
    if t == 0 {
      assert ts[t := x][1..] == ts[1..];
    } else {
      ThreadCostUpdate(su, ts[1..], t - 1, x);
      assert ts[t := x][1..] == ts[1..][t - 1 := x];
    }
  }

  lemma {:induction false} ThreadCostNotify(su: Setup, ts: seq<Thread>)
    requires ThreadsFit(su, ts)
    ensures ThreadsFit(su, Notify(ts)) && ThreadCost(su, Notify(ts)) == ThreadCost(su, ts)
  {
    hide Fits, Cost;
    if ts != [] {
      ThreadCostNotify(su, ts[1..]);
      assert Notify(ts)[1..] == Notify(ts[1..]);
    }
  }

  ghost function TotalCost(su: Setup, s: State): nat
    requires AllFit(su, s)
  {
    QueueCost(su, s.pending) + ThreadCost(su, s.threads)
  }

  /** Only handing in a box changes the cost, and it lowers it. */
  lemma StepCosts(su: Setup, s: State, step: Step)
    requires AllFit(su, s) && Enabled(su, s, step)
    ensures AllFit(su, Apply(su, s, step))
    ensures TotalCost(su, Apply(su, s, step)) <= TotalCost(su, s) - (if step.Finish? then 1 else 0)
  {
    hide Process, Fits, Cost, QueueCost, ThreadCost, Notify;
    var s', t := Apply(su, s, step), step.t;
    if step.Finish? {
      var w := s.threads[t].work;
      ThreadCostUpdate(su, s.threads, t, Looking);
      ThreadCostNotify(su, s.threads[t := Looking]);
      CostPositive(su, w);
      FitsMeans(su, w);
      if Process(su, w).Halve? {
        var o := Process(su, w);
        HalvingCosts(su, w);
        PairCost(su, o.upper, o.lower);
        QueueCostAppend(su, s.pending, [o.upper, o.lower]);
      }
    } else if s.pending != [] {
      HeadCost(su, s.pending);
      ThreadCostUpdate(su, s.threads, t, Busy(s.pending[0]));
    } else {
      ThreadCostUpdate(su, s.threads, t, Exited);
      ThreadCostNotify(su, s.threads[t := Exited]);
      ThreadCostUpdate(su, s.threads, t, Waiting(false));
    }
  }

  lemma FitsMeans(su: Setup, w: Work)
    requires Fits(su, w)
    ensures |w.marks| == su.n && 0.0 < su.limit
  {}

  lemma CostPositive(su: Setup, w: Work)
    requires Fits(su, w)
    ensures Cost(su, w) >= 1
  {}

  lemma PairCost(su: Setup, a: Work, b: Work)
    requires Fits(su, a) && Fits(su, b)
    ensures QueueCost(su, [a, b]) == Cost(su, a) + Cost(su, b)
  {
    assert [a, b][1..] == [b] && [b][1..] == [];
    assert QueueCost(su, [b]) == Cost(su, b) + QueueCost(su, []);
  }

  lemma HeadCost(su: Setup, ws: seq<Work>)
    requires ws != [] && forall w :: w in ws ==> Fits(su, w)
    ensures QueueCost(su, ws) == Cost(su, ws[0]) + QueueCost(su, ws[1..])
  {}

  // ---------------------------------------------------------------- the result

  /** The boxes that one thread, working on `w` and all its halves, would keep. */
  ghost function Leaves(su: Setup, w: Work): multiset<Kept>
    requires Fits(su, w)
    decreases Cost(su, w)
  {
    match Process(su, w)
    case Drop => multiset{}
    case Keep(v, c) => multiset{Kept(v, c)}
    case Halve(l, u) =>
      HalvingCosts(su, w);
      CostPositive(su, l);
      CostPositive(su, u);
      Leaves(su, l) + Leaves(su, u)
  }

  /** A box of the result: not filtered out, not empty in the integer variant, no constraint refuted on it,
      certified for all constraints or small, and reported as confident exactly when the marks say so. */
  ghost predicate Settled(su: Setup, k: Kept) {
    && |k.work.marks| == su.n && su.wanted(k.work.box) && (su.integer ==> Proper(k.work.box))
    && (forall i :: 0 <= i < su.n ==> k.work.marks[i] > 0 || (!su.pos(i, k.work.box) && !su.neg(i, k.work.box)))
    && (AllPositive(k.work.marks) || Small(su, k.work.box))
    && (k.confident <==> AllPositive(k.work.marks) || Sum(k.work.marks) >= su.n - 1)
  }

  /** Every box of the result is settled and lies inside the box it comes from. */
  lemma {:induction false} LeavesSettled(su: Setup, w: Work, k: Kept)
    requires Fits(su, w) && k in Leaves(su, w)
    ensures Settled(su, k) && forall x :: In(x, k.work.box) ==> In(x, w.box)
    decreases Cost(su, w)
  {
    hide Process, Settled, In, Cost;
    match Process(su, w)
    case Keep(v, c) =>
      KeptIsSettled(su, w);
    case Halve(l, u) =>
      HalvingCosts(su, w);
      CostPositive(su, l);
      CostPositive(su, u);
      if k in Leaves(su, l) { LeavesSettled(su, l, k); } else { LeavesSettled(su, u, k); }
      forall x ensures In(x, l.box) || In(x, u.box) ==> In(x, w.box) { HalfInside(su, w, x); }
  }

  lemma KeptIsSettled(su: Setup, w: Work)
    requires Fits(su, w) && Process(su, w).Keep?
    ensures var o := Process(su, w); Settled(su, Kept(o.work, o.confident)) && o.work.box == w.box
  {
    hide Classify, Small, Excluded, Widest, Sum;
    KeepOrHalve(su, w);
    DropIff(su, w);
    SmallIff(su, w.box);
    var o := Process(su, w);
    forall i: nat | i < su.n ensures o.work.marks[i] > 0 || (!su.pos(i, w.box) && !su.neg(i, w.box)) {
      assert !Refuted(su, w, i);
    }
  }

  lemma HalfInside(su: Setup, w: Work, x: Point)
    requires Fits(su, w) && Process(su, w).Halve?
    ensures In(x, Process(su, w).lower.box) || In(x, Process(su, w).upper.box) ==> In(x, w.box)
  {
    hide Classify, In, Queued, Lower, Upper;
    WidestIs(w.box, |w.box|);
    QueuedHalves(su, w.box, Widest(w.box, |w.box|).0, x);
  }

  ghost function QueueLeaves(su: Setup, ws: seq<Work>): multiset<Kept>
    requires forall w :: w in ws ==> Fits(su, w)
  {
    if ws == [] then multiset{} else Leaves(su, ws[0]) + QueueLeaves(su, ws[1..])
  }

  ghost function ThreadLeaves(su: Setup, ts: seq<Thread>): multiset<Kept>
    requires ThreadsFit(su, ts)
  {
    if ts == [] then multiset{} else (if ts[0].Busy? then Leaves(su, ts[0].work) else multiset{}) + ThreadLeaves(su, ts[1..])
  }

  /** What has been kept and what is still to be kept. */
  ghost function Yield(su: Setup, s: State): multiset<Kept>
    requires AllFit(su, s)
  {
    multiset(s.kept) + QueueLeaves(su, s.pending) + ThreadLeaves(su, s.threads)
  }

  lemma {:induction false} QueueLeavesAppend(su: Setup, ws: seq<Work>, vs: seq<Work>)
    requires (forall w :: w in ws ==> Fits(su, w)) && (forall w :: w in vs ==> Fits(su, w))
    ensures (forall w :: w in ws + vs ==> Fits(su, w)) && QueueLeaves(su, ws + vs) == QueueLeaves(su, ws) + QueueLeaves(su, vs)
    decreases |ws|
  {
    hide Fits, Leaves;
    if ws == [] {
      assert ws + vs == vs;
    } else {
      QueueLeavesAppend(su, ws[1..], vs);
      assert (ws + vs)[1..] == ws[1..] + vs;
    }
  }

  ghost function Own(su: Setup, t: Thread): multiset<Kept>
    requires t.Busy? ==> Fits(su, t.work)
  {
    if t.Busy? then Leaves(su, t.work) else multiset{}
  }

  lemma Exchange<T>(h: multiset<T>, a: multiset<T>, b: multiset<T>, c: multiset<T>, d: multiset<T>)
    requires a + b == c + d
    ensures (h + a) + b == (h + c) + d
  {
    assert (h + a) + b == h + (a + b) && (h + c) + d == h + (c + d);
  }

  /** What a thread takes from the queue, and what a finished box becomes, balances. */
  lemma Balance<T>(k: multiset<T>, q: multiset<T>, tl: multiset<T>, tl': multiset<T>, own: multiset<T>, dk: multiset<T>, dq: multiset<T>)
    requires tl' + own == tl && own == dk + dq
    ensures (k + dk) + (q + dq) + tl' == k + q + tl
  {}

  lemma {:induction false} ThreadLeavesUpdate(su: Setup, ts: seq<Thread>, t: nat, x: Thread)
    requires ThreadsFit(su, ts) && t < |ts| && (x.Busy? ==> Fits(su, x.work))
    ensures ThreadsFit(su, ts[t := x])
    ensures ThreadLeaves(su, ts[t := x]) + Own(su, ts[t]) == ThreadLeaves(su, ts) + Own(su, x)
    decreases |ts|
  {
    hide Fits, Leaves;
    if t == 0 {
      assert ts[t := x][1..] == ts[1..];
    } else {
      ThreadLeavesUpdate(su, ts[1..], t - 1, x);
      assert ts[t := x][1..] == ts[1..][t - 1 := x];
      Exchange(Own(su, ts[0]), ThreadLeaves(su, ts[1..][t - 1 := x]), Own(su, ts[t]), ThreadLeaves(su, ts[1..]), Own(su, x));
    }
  }

  lemma {:induction false} ThreadLeavesNotify(su: Setup, ts: seq<Thread>)
    requires ThreadsFit(su, ts)
    ensures ThreadsFit(su, Notify(ts)) && ThreadLeaves(su, Notify(ts)) == ThreadLeaves(su, ts)
  {
    hide Fits, Leaves;
    if ts != [] {
      ThreadLeavesNotify(su, ts[1..]);
      assert Notify(ts)[1..] == Notify(ts[1..]);
    }
  }

  /** No step of any thread changes what the run yields. */
  lemma StepYields(su: Setup, s: State, step: Step)
    requires AllFit(su, s) && Enabled(su, s, step)
    ensures AllFit(su, Apply(su, s, step)) && Yield(su, Apply(su, s, step)) == Yield(su, s)
  {
    hide Process, Fits, QueueLeaves, ThreadLeaves, Leaves, Notify, AllFit, TotalCost;
    StepCosts(su, s, step);
    if step.Finish? {
      FinishYields(su, s, step.t);
    } else {
      TakeYields(su, s, step);
    }
  }

  lemma TakeYields(su: Setup, s: State, step: Step)
    requires AllFit(su, s) && Enabled(su, s, step) && !step.Finish?
    ensures AllFit(su, Apply(su, s, step)) && Yield(su, Apply(su, s, step)) == Yield(su, s)
  {
    hide Process, Fits, ThreadLeaves, Leaves, Notify;
    var s', t := Apply(su, s, step), step.t;
    var none: multiset<Kept> := multiset{};
    if s.pending != [] {
      var own := Leaves(su, s.pending[0]);
      ThreadLeavesUpdate(su, s.threads, t, Busy(s.pending[0]));
      var tl, tl' := ThreadLeaves(su, s.threads), ThreadLeaves(su, s'.threads);
      assert tl + own == tl';
      Balance(multiset(s.kept), QueueLeaves(su, s'.pending), tl', tl, own, none, own);
      assert QueueLeaves(su, s.pending) == QueueLeaves(su, s'.pending) + own;
      assert multiset(s.kept) + none == multiset(s.kept);
    } else {
      var tl := ThreadLeaves(su, s.threads);
      ThreadLeavesUpdate(su, s.threads, t, Exited);
      ThreadLeavesNotify(su, s.threads[t := Exited]);
      ThreadLeavesUpdate(su, s.threads, t, Waiting(false));
      assert tl + none == tl;
      assert ThreadLeaves(su, s.threads[t := Exited]) + none == ThreadLeaves(su, s.threads[t := Exited]);
      assert ThreadLeaves(su, s.threads[t := Waiting(false)]) + none == ThreadLeaves(su, s.threads[t := Waiting(false)]);
    }
  }

  lemma FinishYields(su: Setup, s: State, t: nat)
    requires AllFit(su, s) && Enabled(su, s, Finish(t)) && AllFit(su, Apply(su, s, Finish(t)))
    ensures Yield(su, Apply(su, s, Finish(t))) == Yield(su, s)
  {
    hide Process, Fits, ThreadLeaves, QueueLeaves, Notify;
    var w := s.threads[t].work;
    FitsMeans(su, w);
    ThreadLeavesUpdate(su, s.threads, t, Looking);
    ThreadLeavesNotify(su, s.threads[t := Looking]);
    var k, q, none: multiset<Kept> := multiset(s.kept), QueueLeaves(su, s.pending), multiset{};
    var tl, tl' := ThreadLeaves(su, s.threads), ThreadLeaves(su, s.threads[t := Looking]);
    assert tl' + Leaves(su, w) == tl;
    match Process(su, w)
    case Drop =>
      Balance(k, q, tl, tl', Leaves(su, w), none, none);
      assert k + none == k && q + none == q;
    case Keep(v, c) =>
      Balance(k, q, tl, tl', Leaves(su, w), multiset{Kept(v, c)}, none);
      assert q + none == q && multiset(s.kept + [Kept(v, c)]) == k + multiset{Kept(v, c)};
    case Halve(l, u) =>
      HalvingCosts(su, w);
      PairLeaves(su, u, l);
      QueueLeavesAppend(su, s.pending, [u, l]);
      Balance(k, q, tl, tl', Leaves(su, w), none, QueueLeaves(su, [u, l]));
      assert k + none == k;
  }

  lemma PairLeaves(su: Setup, a: Work, b: Work)
    requires Fits(su, a) && Fits(su, b)
    ensures QueueLeaves(su, [a, b]) == Leaves(su, b) + Leaves(su, a) == multiset{} + (Leaves(su, b) + Leaves(su, a))
  {
    assert [a, b][1..] == [b] && [b][1..] == [];
    assert QueueLeaves(su, [b]) == Leaves(su, b) + QueueLeaves(su, []);
  }

  /** What a thread can still do without a box being handed in. */
  ghost function Weight(t: Thread, n: nat): nat {
    match t
    case Exited => 0
    case Busy(_) => 0
    case Waiting(notified) => if notified then 2 else 1
    case Looking => n + 3
  }

  ghost function Weights(ts: seq<Thread>, n: nat): nat {
    if ts == [] then 0 else Weight(ts[0], n) + Weights(ts[1..], n)
  }

  lemma {:induction false} WeightsUpdate(ts: seq<Thread>, n: nat, t: nat, x: Thread)
    requires t < |ts|
    ensures Weights(ts[t := x], n) == Weights(ts, n) - Weight(ts[t], n) + Weight(x, n)
  {
    if t == 0 {
      assert ts[t := x][1..] == ts[1..];
    } else {
      WeightsUpdate(ts[1..], n, t - 1, x);
      assert ts[t := x][1..] == ts[1..][t - 1 := x];
    }
  }

  lemma {:induction false} WeightsNotify(ts: seq<Thread>, n: nat)
    ensures Weights(Notify(ts), n) <= Weights(ts, n) + |ts|
  {
    if ts != [] {
      WeightsNotify(ts[1..], n);
      assert Notify(ts)[1..] == Notify(ts[1..]);
    }
  }

  lemma {:induction false} WeightsLooking(n: nat, k: nat)
    ensures Weights(seq(k, i => Looking), n) == k * (n + 3)
  {
    if k > 0 {
      WeightsLooking(n, k - 1);
      var ts: seq<Thread> := seq(k, i => Looking);
      assert ts[1..] == seq(k - 1, i => Looking);
    }
  }

  lemma NotifyAgain(ts: seq<Thread>)
    requires AllNotified(ts)
    ensures Notify(ts) == ts
  {}

  /** Steps that the threads can still take: a bound per box to be processed, and one per thread. */
  ghost function StepsLeft(su: Setup, s: State): nat
    requires AllFit(su, s)
  {
    (2 * |s.threads| + 4) * TotalCost(su, s) + Weights(s.threads, |s.threads|)
  }

  lemma {:induction false} LowerProduct(c: nat, a: nat, b: nat)
    requires a <= b
    ensures c * a <= c * b && (a < b ==> c * a + c <= c * b)
    decreases b
  {
    if a < b {
      LowerProduct(c, a, b - 1);
      assert c * b == c * (b - 1) + c;
    }
  }

  /** A step leaves the state as it is or there are fewer steps left. */
  lemma StepAdvances(su: Setup, s: State, step: Step)
    requires Disciplined(s) && AllFit(su, s) && Enabled(su, s, step)
    ensures AllFit(su, Apply(su, s, step))
    ensures Apply(su, s, step) == s || StepsLeft(su, Apply(su, s, step)) < StepsLeft(su, s)
  {
    hide Process, AllFit, TotalCost, Weights, ActiveCount, Notify;
    var s', t, n := Apply(su, s, step), step.t, |s.threads|;
    StepCosts(su, s, step);
    LowerProduct(2 * n + 4, TotalCost(su, s'), TotalCost(su, s));
    ThreadsAdvance(su, s, step);
  }

  /** How the threads' weights move in one step. */
  lemma ThreadsAdvance(su: Setup, s: State, step: Step)
    requires Disciplined(s) && Enabled(su, s, step)
    ensures var s', n := Apply(su, s, step), |s.threads|;
            && |s'.threads| == n
            && (step.Finish? ==> Weights(s'.threads, n) <= Weights(s.threads, n) + 2 * n + 3)
            && (!step.Finish? ==> s' == s || Weights(s'.threads, n) < Weights(s.threads, n))
  {
    hide Process, ActiveCount, Weights;
    var s', t, n := Apply(su, s, step), step.t, |s.threads|;
    var moved := s.threads[t := s'.threads[t]];
    WeightsUpdate(s.threads, n, t, s'.threads[t]);
    WeightsNotify(moved, n);
    assert s'.threads == moved || s'.threads == Notify(moved);
    if step.Wake? {
      assert s.threads[t := s.threads[t]] == s.threads;
      if s.pending == [] && s.active == 0 { NotifyAgain(moved); }
    }
  }

  /** The bound at the start. */
  lemma StartSteps(su: Setup, boxes: seq<Work>, threads: nat)
    requires forall w :: w in boxes ==> Fits(su, w)
    ensures AllFit(su, Start(boxes, threads))
    ensures StepsLeft(su, Start(boxes, threads)) == (2 * threads + 4) * QueueCost(su, boxes) + threads * (threads + 3)
  {
    hide QueueCost, Fits;
    IdleCost(su, Start(boxes, threads).threads);
    WeightsLooking(threads, threads);
  }

  lemma {:induction false} IdleCost(su: Setup, ts: seq<Thread>)
    requires forall t :: 0 <= t < |ts| ==> ts[t].Looking?
    ensures ThreadsFit(su, ts) && ThreadCost(su, ts) == 0
  {
    if ts != [] { IdleCost(su, ts[1..]); }
  }
}
