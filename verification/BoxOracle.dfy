/** The certificates that the branch and bound asks for: the Handelman system for a box whose bounds are
    templates, with the values of the bounds filled in. */
module BoxOracle {
  import opened Basics
  import opened Multinomial
  import opened PolynomialShape
  import opened Reduction
  import opened Generator
  import opened Certificate
  import F = Fragmentation

  /** The template ids of the lower and the upper bounds; the program variables have the first ids. */
  datatype Bounds = Bounds(los: seq<nat>, his: seq<nat>) {
    ghost predicate Valid(base: nat) {
      |los| == |his| && forall d :: 0 <= d < |los| ==> |los| <= los[d] < base && |los| <= his[d] < base
    }
  }

  /** Variable `d` less its lower bound, and its upper bound less the variable. */
  function AboveLow(bs: Bounds, d: nat): Poly
    requires d < |bs.los|
  {
    Add(Var(d), Scale(Var(bs.los[d]), -1.0))
  }

  function BelowHigh(bs: Bounds, d: nat): Poly
    requires d < |bs.his|
  {
    Add(Var(bs.his[d]), Scale(Var(d), -1.0))
  }

  /** The assumptions that keep the first `n` variables inside the box. */
  function Assumptions(bs: Bounds, n: nat): seq<Poly>
    requires n <= |bs.los| && n <= |bs.his|
  {
    if n == 0 then [] else Assumptions(bs, n - 1) + [AboveLow(bs, n - 1), BelowHigh(bs, n - 1)]
  }

  lemma AssumptionEval(bs: Bounds, d: nat, base: nat, f: Env)
    requires bs.Valid(base) && d < |bs.los|
    ensures Proper(AboveLow(bs, d), 0) && Eval(AboveLow(bs, d), f) == f(d) - f(bs.los[d])
    ensures Proper(BelowHigh(bs, d), 0) && Eval(BelowHigh(bs, d), f) == f(bs.his[d]) - f(d)
  {
    hide Add, Scale, Var, Eval, Proper;
    DifferenceEval(d, bs.los[d], f);
    DifferenceEval(bs.his[d], d, f);
  }

  lemma DifferenceEval(i: nat, j: nat, f: Env)
    ensures var p := Add(Var(i), Scale(Var(j), -1.0)); Proper(p, 0) && Eval(p, f) == f(i) - f(j)
  {
    hide Add, Scale, Var, Eval, Proper;
    VarProper(i);
    VarProper(j);
    ScaleProper(Var(j), -1.0, 0);
    AddProper(Var(i), Scale(Var(j), -1.0), 0);
    VarEval(i, f);
    VarEval(j, f);
    ScaleEval(Var(j), -1.0, f);
    AddEval(Var(i), Scale(Var(j), -1.0), 0, f);
  }

  lemma {:induction false} AssumptionsEval(bs: Bounds, n: nat, base: nat, f: Env)
    requires bs.Valid(base) && n <= |bs.los|
    ensures forall p :: p in Assumptions(bs, n) ==> Proper(p, 0)
    ensures (forall p :: p in Assumptions(bs, n) ==> 0.0 <= Eval(p, f))
       <==> (forall d :: 0 <= d < n ==> f(bs.los[d]) <= f(d) <= f(bs.his[d]))
  {
    hide AboveLow, BelowHigh, Eval, Proper;
    if n > 0 {
      AssumptionsEval(bs, n - 1, base, f);
      AssumptionEval(bs, n - 1, base, f);
      var all, low, high := Assumptions(bs, n), AboveLow(bs, n - 1), BelowHigh(bs, n - 1);
      forall p ensures p in all <==> p in Assumptions(bs, n - 1) || p == low || p == high {}
    }
  }

  /** Every assumption is recorded with a positive degree, since a program variable is outermost. */
  lemma {:induction false} AssumptionsDegree(bs: Bounds, n: nat, base: nat)
    requires bs.Valid(base) && n <= |bs.los|
    ensures forall p :: p in Assumptions(bs, n) ==> 0 < Degree(p, false, Range(0, |bs.los|))
  {
    hide AboveLow, BelowHigh, Degree, Range;
    if n > 0 {
      AssumptionsDegree(bs, n - 1, base);
      AboveLowDegree(bs, n - 1, base);
      BelowHighDegree(bs, n - 1, base);
    }
  }

  lemma AboveLowDegree(bs: Bounds, d: nat, base: nat)
    requires bs.Valid(base) && d < |bs.los|
    ensures 0 < Degree(AboveLow(bs, d), false, Range(0, |bs.los|))
  {
    hide Range;
    var q := Scale(Var(bs.los[d]), -1.0);
    Negative(bs.los[d]);
    assert AddAtZero(Var(d).terms, q).tail == AddAtZero(Cons(1, Const(1.0), Nil), q) == Cons(1, Const(1.0), AddAtZero(Nil, q));
    LinearDegree(d, AddAtZero(Var(d).terms, q), Const(1.0), Range(0, |bs.los|));
  }

  lemma BelowHighDegree(bs: Bounds, d: nat, base: nat)
    requires bs.Valid(base) && d < |bs.los|
    ensures 0 < Degree(BelowHigh(bs, d), false, Range(0, |bs.los|))
  {
    hide Range;
    var p, q := Var(bs.his[d]), Scale(Var(d), -1.0);
    Negative(d);
    assert AddAtZero(q.terms, p).tail == AddAtZero(Cons(1, Const(-1.0), Nil), p) == Cons(1, Const(-1.0), AddAtZero(Nil, p));
    LinearDegree(d, AddAtZero(q.terms, p), Const(-1.0), Range(0, |bs.los|));
  }

  lemma Negative(j: nat)
    ensures Scale(Var(j), -1.0) == Node(j, Cons(0, Const(0.0), Cons(1, Const(-1.0), Nil)))
  {
    var ts := Cons(1, Const(-1.0), Nil);
    assert ScaleTerms(Cons(1, Const(1.0), Nil), -1.0) == ts;
    assert ScaleTerms(Var(j).terms, -1.0) == Cons(0, Const(0.0), ts);
    assert DropZeros(ts) == ts;
  }

  lemma LinearDegree(id: nat, ts: Terms, c: Poly, prog: set<nat>)
    requires id in prog && ts.Cons? && ts.tail == Cons(1, c, Nil)
    ensures 0 < Degree(Node(id, ts), false, prog)
  {
    assert DegreeTerms(ts.tail, prog) >= 1;
  }

  /** The problem for the box: its assumptions with their recorded degrees, over as many program variables as
      the box has dimensions. */
  ghost function BoxCore(bs: Bounds, maxDeg: int): Core
    requires |bs.los| == |bs.his|
  {
    var lhs, prog := Assumptions(bs, |bs.los|), Range(0, |bs.los|);
    Core(lhs, Degrees(lhs, prog), maxDeg, prog)
  }

  /** The generator ends for every goal. */
  lemma BoxCoreHalts(bs: Bounds, maxDeg: int, base: nat, rhs: Poly)
    requires bs.Valid(base) && Proper(rhs, 0)
    ensures BoxCore(bs, maxDeg).Valid() && BoxCore(bs, maxDeg).Halts([rhs])
  {
    hide Degree, Range, Proper, CmpPoly, IdArr, Assumptions;
    var co, k := BoxCore(bs, maxDeg), |bs.los|;
    AssumptionsEval(bs, k, base, (i: nat) => 0.0);
    AssumptionsDegree(bs, k, base);
    forall j | 0 <= j < |co.lhs| ensures Proper(co.lhs[j], 0) && 0 < co.deg[j] { assert co.lhs[j] in Assumptions(bs, k); }
  }

  /** The system for goal `rhs` has a solution once the bounds of box `b` are filled in. */
  ghost predicate Certified(bs: Bounds, maxDeg: int, rhs: Poly, base: nat, b: F.Box)
    requires bs.Valid(base) && Proper(rhs, 0)
  {
    BoxCoreHalts(bs, maxDeg, base, rhs);
    |b| == |bs.los| && exists e: Env :: FilledIn(bs, b, e) && Solves(BoxCore(bs, maxDeg), [rhs], base, e)
  }

  ghost predicate FilledIn(bs: Bounds, b: F.Box, e: Env)
    requires |b| == |bs.los| == |bs.his|
  {
    forall d :: 0 <= d < |b| ==> e(bs.los[d]) == b[d].0 && e(bs.his[d]) == b[d].1
  }

  /** The program variables at `x`. */
  function At(x: F.Point, e: Env): Env {
    (i: nat) => if i < |x| then x[i] else e(i)
  }

  lemma InsideBox(bs: Bounds, b: F.Box, e: Env, x: F.Point)
    requires |b| == |bs.los| == |bs.his| && FilledIn(bs, b, e) && F.In(x, b)
    requires forall d :: 0 <= d < |b| ==> |b| <= bs.los[d] && |b| <= bs.his[d]
    ensures |x| == |b| && var f := At(x, e); forall d :: 0 <= d < |b| ==> f(bs.los[d]) <= f(d) <= f(bs.his[d])
  {}

  /** A certificate for a box is right about every point of the box. */
  lemma CertifiedIsRight(bs: Bounds, maxDeg: int, rhs: Poly, base: nat, b: F.Box, x: F.Point)
    requires bs.Valid(base) && |bs.los| <= base && Proper(rhs, 0) && Below(rhs, |bs.los|)
    requires Certified(bs, maxDeg, rhs, base, b) && F.In(x, b)
    ensures 0.0 <= Eval(rhs, At(x, (i: nat) => 0.0))
  {
    hide Eval, Solves, Below, Assumptions, Proper, Degree, F.In;
    BoxCoreHalts(bs, maxDeg, base, rhs);
    var co, k := BoxCore(bs, maxDeg), |bs.los|;
    var e: Env :| FilledIn(bs, b, e) && Solves(co, [rhs], base, e);
    var f := At(x, e);
    InsideBox(bs, b, e, x);
    assert SameTemplates(co.prog, e, f);
    assert co.InOrder([rhs], base);
    Soundness(co, [rhs], base, e, f, 0);
    AssumptionsEval(bs, k, base, f);
    forall j | 0 <= j < |co.lhs| ensures 0.0 <= Eval(co.lhs[j], f) { assert co.lhs[j] in Assumptions(bs, k); }
    EvalBelow(rhs, k, f, At(x, (i: nat) => 0.0));
  }

  // ---------------------------------------------------------------- the oracles of the branch and bound

  lemma {:induction false} ScaleBelow(p: Poly, c: real, hi: nat)
    requires Below(p, hi)
    ensures Below(Scale(p, c), hi)
    decreases p
  {
    if p.Node? {
      ScaleTermsBelow(p.terms, c, hi);
      DropZerosBelow(ScaleTerms(p.terms, c), hi);
    }
  }

  lemma {:induction false} ScaleTermsBelow(ts: Terms, c: real, hi: nat)
    requires BelowTerms(ts, hi)
    ensures BelowTerms(ScaleTerms(ts, c), hi)
    decreases ts
  {
    if ts.Cons? {
      ScaleBelow(ts.coeff, c, hi);
      ScaleTermsBelow(ts.tail, c, hi);
    }
  }

  lemma {:induction false} DropZerosBelow(ts: Terms, hi: nat)
    requires BelowTerms(ts, hi)
    ensures BelowTerms(DropZeros(ts), hi)
    decreases ts
  {
    if ts.Cons? { DropZerosBelow(ts.tail, hi); }
  }

  /** The two systems of every constraint: for the constraint and for its negation. */
  datatype Systems = Systems(bs: Bounds, maxDeg: int, gs: seq<Poly>, posBase: seq<nat>, negBase: seq<nat>) {
    /** Constraints are over the program variables, and new templates come after the bounds. */
    ghost predicate Valid() {
      && |posBase| == |gs| == |negBase|
      && forall i :: 0 <= i < |gs| ==>
           && Below(gs[i], |bs.los|) && Proper(gs[i], 0)
           && bs.Valid(posBase[i]) && bs.Valid(negBase[i]) && |bs.los| <= posBase[i] && |bs.los| <= negBase[i]
    }

    /** The value of constraint `i`. */
    ghost function Value(i: nat, x: F.Point): real {
      if i < |gs| then Eval(gs[i], At(x, (i: nat) => 0.0)) else 0.0
    }

    ghost predicate Pos(i: nat, b: F.Box)
      requires Valid()
    {
      i < |gs| && Certified(bs, maxDeg, gs[i], posBase[i], b)
    }

    ghost predicate Neg(i: nat, b: F.Box)
      requires Valid()
    {
      i < |gs| && (ScaleProper(gs[i], -1.0, 0); Certified(bs, maxDeg, Scale(gs[i], -1.0), negBase[i], b))
    }
  }

  /** Oracles that answer yes only when the system with the bounds filled in has a solution are sound. */
  lemma OraclesAreSound(sys: Systems, su: F.Setup)
    requires sys.Valid() && su.n == |sys.gs| && 0.0 < su.limit
    requires forall i: nat, x :: su.g(i, x) == sys.Value(i, x)
    requires forall i: nat, b :: (su.pos(i, b) ==> sys.Pos(i, b)) && (su.neg(i, b) ==> sys.Neg(i, b))
    requires forall b, x :: !su.wanted(b) && F.In(x, b) ==> !su.target(x)
    ensures su.Sound()
  {
    hide Certified, F.In, Below, Eval, Scale, Proper, BoxCore;
    forall i: nat, b, x | i < su.n && su.pos(i, b) && F.In(x, b) ensures 0.0 <= su.g(i, x) {
      assert sys.Pos(i, b) && su.g(i, x) == sys.Value(i, x);
      CertifiedIsRight(sys.bs, sys.maxDeg, sys.gs[i], sys.posBase[i], b, x);
    }
    forall i: nat, b, x | i < su.n && su.neg(i, b) && F.In(x, b) ensures su.g(i, x) <= 0.0 {
      assert sys.Neg(i, b) && su.g(i, x) == sys.Value(i, x);
      ScaleProper(sys.gs[i], -1.0, 0);
      ScaleBelow(sys.gs[i], -1.0, |sys.bs.los|);
      CertifiedIsRight(sys.bs, sys.maxDeg, Scale(sys.gs[i], -1.0), sys.negBase[i], b, x);
      ScaleEval(sys.gs[i], -1.0, At(x, (i: nat) => 0.0));
    }
  }
}
