/** How the method is incomplete: a goal that is zero at a point where all assumptions are positive is
    certified only if it is zero everywhere, whatever the degree bound. */
module Incompleteness {
  import opened Multinomial
  import opened PolynomialShape
  import opened Reduction
  import opened Generator
  import opened Certificate

  // ---------------------------------------------------------------- weights at a positive point

  /** Every assumption is strictly positive at `p`. */
  ghost predicate PositiveAt(lhs: seq<Poly>, p: Env) {
    forall j :: 0 <= j < |lhs| ==> 0.0 < Eval(lhs[j], p)
  }

  ghost predicate ZeroWeights(e: Env, lo: nat, hi: nat) {
    forall i: nat :: lo <= i < hi ==> e(i) == 0.0
  }

  lemma {:induction false} ProdPositive(lhs: seq<Poly>, c: seq<nat>, p: Env)
    requires PositiveAt(lhs, p)
    ensures 0.0 < Prod(lhs, c, p)
    decreases |c|
  {
    if c != [] {
      ProdPositive(lhs, c[1..], p);
      TimesPositive(Factor(lhs, c[0], p), Prod(lhs, c[1..], p));
    }
  }

  lemma TimesPositive(a: real, b: real)
    requires 0.0 < a && 0.0 < b
    ensures 0.0 < a * b
  {}

  /** A sum with non-negative weights that is zero at such a point has only zero weights. */
  lemma {:induction false} ZeroSumZeroWeights(lhs: seq<Poly>, cs: seq<seq<nat>>, base: nat, p: Env)
    requires PositiveAt(lhs, p) && NonNegative(p, base, base + |cs|) && Flat(lhs, cs, base, p) == 0.0
    ensures ZeroWeights(p, base, base + |cs|)
    decreases |cs|
  {
    hide Prod, Eval, PositiveAt;
    if cs != [] {
      forall j | 0 <= j < |lhs| ensures 0.0 <= Eval(lhs[j], p) { PositiveOne(lhs, p, j); }
      FlatNonNegative(lhs, cs[1..], base + 1, p);
      ProdPositive(lhs, cs[0], p);
      FirstWeightZero(p(base), Prod(lhs, cs[0], p), Flat(lhs, cs[1..], base + 1, p));
      ZeroSumZeroWeights(lhs, cs[1..], base + 1, p);
    }
  }

  lemma PositiveOne(lhs: seq<Poly>, p: Env, j: nat)
    requires PositiveAt(lhs, p) && j < |lhs|
    ensures 0.0 < Eval(lhs[j], p)
  {}

  lemma FirstWeightZero(w: real, v: real, rest: real)
    requires 0.0 <= w && 0.0 < v && 0.0 <= rest && w * v + rest == 0.0
    ensures w == 0.0 && rest == 0.0
  {
    if 0.0 < w { TimesPositive(w, v); }
  }

  lemma {:induction false} ZeroWeightsZeroSum(lhs: seq<Poly>, cs: seq<seq<nat>>, base: nat, f: Env)
    requires ZeroWeights(f, base, base + |cs|)
    ensures Flat(lhs, cs, base, f) == 0.0
    decreases |cs|
  {
    if cs != [] {
      assert f(base) == 0.0;
      ZeroWeightsZeroSum(lhs, cs[1..], base + 1, f);
    }
  }

  // ---------------------------------------------------------------- exactly what is certified

  /** For a goal that is zero where all assumptions are positive, the representations are exactly the zero
      weights, and only if the goal is zero whatever the program variables are. */
  lemma RepresentsIffZero(co: Core, rhs: Poly, base: nat, e: Env, p: Env)
    requires co.Valid() && co.For(rhs).Halts() && forall i :: i in co.prog ==> i < base
    requires SameTemplates(co.prog, e, p) && PositiveAt(co.lhs, p) && Eval(rhs, p) == 0.0
    ensures Represents(co, rhs, base, e) <==> VanishesFor(rhs, co.prog, e) && ZeroWeights(e, base, base + |Products(co, rhs)|)
  {
    hide Eval, Flat, Products, PositiveAt;
    var cs := Products(co, rhs);
    if Represents(co, rhs, base, e) {
      ZeroSumZeroWeights(co.lhs, cs, base, p);
      forall i: nat | base <= i < base + |cs| ensures e(i) == 0.0 { assert p(i) == 0.0; }
    }
    if ZeroWeights(e, base, base + |cs|) {
      forall f: Env | SameTemplates(co.prog, e, f) ensures Flat(co.lhs, cs, base, f) == 0.0 {
        ZeroWeightsZeroSum(co.lhs, cs, base, f);
      }
    }
  }

  /** Every goal has a zero at a point of its own where all assumptions are positive. */
  ghost predicate Touching(co: Core, rhss: seq<Poly>, e: Env) {
    forall i :: 0 <= i < |rhss| ==> Touches(co, rhss[i], e)
  }

  ghost predicate Touches(co: Core, rhs: Poly, e: Env) {
    exists p: Env :: SameTemplates(co.prog, e, p) && PositiveAt(co.lhs, p) && Eval(rhs, p) == 0.0
  }

  ghost predicate AllVanish(co: Core, rhss: seq<Poly>, e: Env) {
    forall i :: 0 <= i < |rhss| ==> VanishesFor(rhss[i], co.prog, e)
  }

  /** The id after the last template for the goals. */
  ghost function Last(co: Core, rhss: seq<Poly>, base: nat): nat
    requires co.Valid() && co.Halts(rhss)
  {
    if rhss == [] then base else Last(co, rhss[1..], base + |Products(co, rhss[0])|)
  }

  lemma {:induction false} LastGrows(co: Core, rhss: seq<Poly>, base: nat)
    requires co.Valid() && co.Halts(rhss)
    ensures base <= Last(co, rhss, base)
    decreases |rhss|
  {
    if rhss != [] { LastGrows(co, rhss[1..], base + |Products(co, rhss[0])|); }
  }

  lemma {:induction false} RepresentsAllIffZero(co: Core, rhss: seq<Poly>, base: nat, e: Env)
    requires co.Valid() && co.Halts(rhss) && Touching(co, rhss, e) && forall i :: i in co.prog ==> i < base
    ensures RepresentsAll(co, rhss, base, e) <==> AllVanish(co, rhss, e) && ZeroWeights(e, base, Last(co, rhss, base))
    decreases |rhss|
  {
    hide Eval, Flat, Products, PositiveAt, Represents, VanishesFor, Proper;
    if rhss != [] {
      var next := base + |Products(co, rhss[0])|;
      assert Touches(co, rhss[0], e);
      var p: Env :| SameTemplates(co.prog, e, p) && PositiveAt(co.lhs, p) && Eval(rhss[0], p) == 0.0;
      RepresentsIffZero(co, rhss[0], base, e, p);
      forall i | 0 <= i < |rhss[1..]| ensures Touches(co, rhss[1..][i], e) { assert rhss[1..][i] == rhss[i + 1]; }
      RepresentsAllIffZero(co, rhss[1..], next, e);
      LastGrows(co, rhss[1..], next);
      assert AllVanish(co, rhss, e) <==> VanishesFor(rhss[0], co.prog, e) && AllVanish(co, rhss[1..], e) by {
        assert rhss == [rhss[0]] + rhss[1..];
      }
    }
  }

  /** For every problem and every degree bound: when every goal is zero at a point where all assumptions are
      positive, the solutions of the emitted system are exactly the zero weights, and there is none unless
      every goal is zero whatever the program variables are. */
  lemma SolvesIffZero(co: Core, rhss: seq<Poly>, base: nat, e: Env)
    requires co.Valid() && co.Halts(rhss) && co.InOrder(rhss, base) && Touching(co, rhss, e)
    ensures Solves(co, rhss, base, e) <==> AllVanish(co, rhss, e) && ZeroWeights(e, base, Last(co, rhss, base))
  {
    hide Solves, RepresentsAll, Touching, AllVanish, Last;
    SolvesExact(co, rhss, base, e);
    RepresentsAllIffZero(co, rhss, base, e);
  }

  /** One goal that is zero at such a point, among any others, leaves no solution unless it is zero whatever
      the program variables are. */
  lemma OneTouchingGoal(co: Core, rhss: seq<Poly>, base: nat, e: Env, i: nat)
    requires co.Valid() && co.Halts(rhss) && co.InOrder(rhss, base) && i < |rhss| && Touches(co, rhss[i], e)
    requires Solves(co, rhss, base, e)
    ensures VanishesFor(rhss[i], co.prog, e)
  {
    hide Solves, RepresentsAll, Touches, VanishesFor;
    SolvesExact(co, rhss, base, e);
    OneTouchingRepresented(co, rhss, base, e, i);
  }

  lemma {:induction false} OneTouchingRepresented(co: Core, rhss: seq<Poly>, base: nat, e: Env, i: nat)
    requires co.Valid() && co.Halts(rhss) && RepresentsAll(co, rhss, base, e) && forall k :: k in co.prog ==> k < base
    requires i < |rhss| && Touches(co, rhss[i], e)
    ensures VanishesFor(rhss[i], co.prog, e)
    decreases |rhss|
  {
    hide Eval, Flat, Products, PositiveAt, Represents, VanishesFor, Proper;
    if i == 0 {
      var p: Env :| SameTemplates(co.prog, e, p) && PositiveAt(co.lhs, p) && Eval(rhss[0], p) == 0.0;
      RepresentsIffZero(co, rhss[0], base, e, p);
    } else {
      OneTouchingRepresented(co, rhss[1..], base + |Products(co, rhss[0])|, e, i - 1);
    }
  }

  /** So, for given values of the symbols that exist, the system has a solution if and only if the goals are
      zero whatever the program variables are; the degree bound and the products do not matter. */
  lemma SolvableIffVanishing(co: Core, rhss: seq<Poly>, base: nat, e: Env)
    requires co.Valid() && co.Halts(rhss) && co.InOrder(rhss, base) && Touching(co, rhss, e)
    requires (forall i :: 0 <= i < |rhss| ==> Below(rhss[i], base)) && forall j :: 0 <= j < |co.lhs| ==> Below(co.lhs[j], base)
    ensures (exists e': Env :: (forall i: nat :: i < base ==> e'(i) == e(i)) && Solves(co, rhss, base, e')) <==> AllVanish(co, rhss, e)
  {
    hide Eval, Below, Proper, Last, Products, Solves;
    if e': Env :| (forall i: nat :: i < base ==> e'(i) == e(i)) && Solves(co, rhss, base, e') {
      CarryTouching(co, rhss, base, e, e');
      SolvesIffZero(co, rhss, base, e');
      CarryVanishing(co, rhss, base, e', e);
    }
    if AllVanish(co, rhss, e) {
      var zero: Env := (i: nat) => if i < base then e(i) else 0.0;
      CarryTouching(co, rhss, base, e, zero);
      CarryVanishing(co, rhss, base, e, zero);
      SolvesIffZero(co, rhss, base, zero);
    }
  }

  /** `f` below `base` and `e` from there on. */
  function Splice(base: nat, f: Env, e: Env): Env {
    (i: nat) => if i < base then f(i) else e(i)
  }

  lemma CarryTouching(co: Core, rhss: seq<Poly>, base: nat, e: Env, e': Env)
    requires Touching(co, rhss, e) && (forall i: nat :: i < base ==> e'(i) == e(i)) && forall i :: i in co.prog ==> i < base
    requires (forall i :: 0 <= i < |rhss| ==> Below(rhss[i], base)) && forall j :: 0 <= j < |co.lhs| ==> Below(co.lhs[j], base)
    ensures Touching(co, rhss, e')
  {
    hide Eval, Below;
    forall i | 0 <= i < |rhss| ensures Touches(co, rhss[i], e') {
      assert Touches(co, rhss[i], e);
      var p: Env :| SameTemplates(co.prog, e, p) && PositiveAt(co.lhs, p) && Eval(rhss[i], p) == 0.0;
      var q := Splice(base, p, e');
      EvalBelow(rhss[i], base, p, q);
      forall j | 0 <= j < |co.lhs| ensures Eval(co.lhs[j], p) == Eval(co.lhs[j], q) { EvalBelow(co.lhs[j], base, p, q); }
      assert SameTemplates(co.prog, e', q) && PositiveAt(co.lhs, q);
    }
  }

  lemma CarryVanishing(co: Core, rhss: seq<Poly>, base: nat, e: Env, e': Env)
    requires AllVanish(co, rhss, e) && (forall i: nat :: i < base ==> e'(i) == e(i)) && forall i :: i in co.prog ==> i < base
    requires forall i :: 0 <= i < |rhss| ==> Below(rhss[i], base)
    ensures AllVanish(co, rhss, e')
  {
    hide Eval, Below;
    forall i, f: Env | 0 <= i < |rhss| && SameTemplates(co.prog, e', f) ensures Eval(rhss[i], f) == 0.0 {
      var g := Splice(base, f, e);
      EvalBelow(rhss[i], base, f, g);
      assert VanishesFor(rhss[i], co.prog, e) && SameTemplates(co.prog, e, g);
    }
  }

  // ---------------------------------------------------------------- an instance

  /** `x^2 - 2x + 1` for the program variable with id 0. */
  function Square(): Poly {
    Node(0, Cons(0, Const(1.0), Cons(1, Const(-2.0), Cons(2, Const(1.0), Nil))))
  }

  lemma SquareEval(e: Env)
    ensures Proper(Square(), 0)
    ensures Eval(Square(), e) == (e(0) - 1.0) * (e(0) - 1.0)
  {
    var x := e(0);
    var t2 := Cons(2, Const(1.0), Nil);
    var t1 := Cons(1, Const(-2.0), t2);
    assert ProperTerms(Nil, 1, 3);
    assert ProperTerms(t2, 1, 2);
    assert ProperTerms(t1, 1, 1);
    assert Mono(x, 2, 1.0) == x * Mono(x, 1, 1.0) && Mono(x, 1, 1.0) == x * Mono(x, 0, 1.0);
    assert Mono(x, 1, -2.0) == x * Mono(x, 0, -2.0);
    assert EvalTerms(t2, x, e) == Mono(x, 2, 1.0) + EvalTerms(Nil, x, e);
    assert EvalTerms(t1, x, e) == Mono(x, 1, -2.0) + EvalTerms(t2, x, e);
  }

  /** Assume `x >= 0` and ask for `(x - 1)^2 >= 0`. */
  ghost function Task(maxDeg: int): Core {
    Core([Var(0)], [1], maxDeg, {0})
  }

  /** The implication holds everywhere, yet no degree bound gives a solvable constraint system. */
  lemma TrueButNeverCertified(maxDeg: int, base: nat)
    requires 1 <= base
    ensures Task(maxDeg).Valid() && Task(maxDeg).Halts([Square()])
    ensures forall f: Env :: Implied([Var(0)], Square(), f)
    ensures forall e: Env :: !Solves(Task(maxDeg), [Square()], base, e)
  {
    hide Eval, Var, Square, Solves, Last;
    var co := Task(maxDeg);
    VarProper(0);
    forall f: Env ensures Implied([Var(0)], Square(), f) { SquareEval(f); }
    SquareEval((i: nat) => 0.0);
    assert co.Valid() && co.For(Square()).Halts();
    assert co.Halts([Square()]);
    forall e: Env ensures !Solves(co, [Square()], base, e) {
      var one, two := Set(e, 0, 1.0), Set(e, 0, 2.0);
      SquareEval(one);
      SquareEval(two);
      VarEval(0, one);
      assert SameTemplates(co.prog, e, one) && SameTemplates(co.prog, e, two) && PositiveAt(co.lhs, one);
      assert Touches(co, [Square()][0], e);
      assert !VanishesFor([Square()][0], co.prog, e);
      SolvesIffZero(co, [Square()], base, e);
    }
  }
}
