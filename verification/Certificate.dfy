/** The constraint system of the Handelman method: what a solution certifies, how it compares with
    the quantified implication it replaces, and how it grows with the degree bound. */
module Certificate {
  import opened Multinomial
  import opened PolynomialShape
  import opened Reduction
  import opened Generator

  /** Everything the constraint generator knows besides the goals. */
  datatype Core = Core(lhs: seq<Poly>, deg: seq<nat>, maxDeg: int, prog: set<nat>) {
    ghost predicate Valid() {
      |deg| == |lhs| && forall j :: 0 <= j < |lhs| ==> Proper(lhs[j], 0)
    }

    /** The generation task for one goal: an assumption is usable if it shares a symbol with it. */
    ghost function For(rhs: Poly): Problem
      requires Valid()
    {
      Problem(lhs, deg, seq(|lhs|, j requires 0 <= j < |lhs| => CmpPoly(lhs[j], IdArr(rhs))), maxDeg)
    }

    /** The symbols that occur in the assumptions and the goals. */
    ghost function Symbols(rhss: seq<Poly>): iset<nat> {
      iset i: nat | Occurs(lhs, i) || Occurs(rhss, i)
    }

    /** Among the symbols that occur, program variables come before templates, and new templates after
        all program variables. */
    ghost predicate InOrder(rhss: seq<Poly>, base: nat) {
      Ordered(Symbols(rhss), prog) && forall i :: i in prog ==> i < base
    }

    ghost predicate Halts(rhss: seq<Poly>)
      requires Valid()
    {
      forall i :: 0 <= i < |rhss| ==> Proper(rhss[i], 0) && For(rhss[i]).Halts()
    }
  }

  /** One of the polynomials has symbol `i`. */
  ghost predicate Occurs(ps: seq<Poly>, i: nat) {
    exists j :: 0 <= j < |ps| && i in IdArr(ps[j])
  }

  ghost function Products(co: Core, rhs: Poly): seq<seq<nat>>
    requires co.Valid() && co.For(rhs).Halts()
  {
    Chains(co.For(rhs), 0, 0)
  }

  /** The polynomial that must vanish for one goal. */
  ghost function Target(co: Core, rhs: Poly, base: nat): Poly
    requires co.Valid() && co.For(rhs).Halts()
  {
    Add(Gen(co.For(rhs), 0, 0, base).0, Scale(rhs, -1.0))
  }

  function TemplateVars(base: nat, n: nat): (vs: seq<Poly>) {
    seq(n, (i: nat) => Var(base + i))
  }

  /** The equations and inequalities emitted for a list of goals, the next template having id `base`. */
  ghost function Equations(co: Core, rhss: seq<Poly>, base: nat): seq<Poly>
    requires co.Valid() && co.Halts(rhss)
  {
    if rhss == [] then []
    else Reduce(Target(co, rhss[0], base), co.prog) + Equations(co, rhss[1..], base + |Products(co, rhss[0])|)
  }

  ghost function Inequalities(co: Core, rhss: seq<Poly>, base: nat): seq<Poly>
    requires co.Valid() && co.Halts(rhss)
  {
    if rhss == [] then []
    else TemplateVars(base, |Products(co, rhss[0])|) + Inequalities(co, rhss[1..], base + |Products(co, rhss[0])|)
  }

  /** The inequalities `c >= 0` hold at `e`. */
  ghost predicate NonNegativeAt(cs: seq<Poly>, e: Env) {
    forall c :: c in cs ==> 0.0 <= Eval(c, e)
  }

  ghost predicate Solves(co: Core, rhss: seq<Poly>, base: nat, e: Env)
    requires co.Valid() && co.Halts(rhss)
  {
    ZeroAt(Equations(co, rhss, base), e) && NonNegativeAt(Inequalities(co, rhss, base), e)
  }

  // ---------------------------------------------------------------- what a solution is

  /** The templates with ids from `lo` up to `hi` are non-negative. */
  ghost predicate NonNegative(e: Env, lo: nat, hi: nat) {
    forall i: nat :: lo <= i < hi ==> 0.0 <= e(i)
  }

  /** `e` is a Handelman representation of `rhs`: non-negative weights with which the products of
      assumptions sum to `rhs`, identically in the program variables. */
  ghost predicate Represents(co: Core, rhs: Poly, base: nat, e: Env)
    requires co.Valid() && co.For(rhs).Halts()
  {
    && NonNegative(e, base, base + |Products(co, rhs)|)
    && forall f: Env :: SameTemplates(co.prog, e, f) ==> Flat(co.lhs, Products(co, rhs), base, f) == Eval(rhs, f)
  }

  ghost predicate RepresentsAll(co: Core, rhss: seq<Poly>, base: nat, e: Env)
    requires co.Valid() && co.Halts(rhss)
  {
    rhss != [] ==> Represents(co, rhss[0], base, e) && RepresentsAll(co, rhss[1..], base + |Products(co, rhss[0])|, e)
  }

  lemma TargetEval(co: Core, rhs: Poly, base: nat, e: Env)
    requires co.Valid() && Proper(rhs, 0) && co.For(rhs).Halts()
    ensures Proper(Target(co, rhs, base), 0)
    ensures Eval(Target(co, rhs, base), e) == Flat(co.lhs, Products(co, rhs), base, e) - Eval(rhs, e)
  {
    hide Add, Scale, Eval, Proper, Gen, Chains, Flat;
    var g := Gen(co.For(rhs), 0, 0, base).0;
    GenShape(co.For(rhs), 0, 0, base);
    GenIsFlat(co.For(rhs), 0, 0, base, e);
    ScaleProper(rhs, -1.0, 0);
    ScaleEval(rhs, -1.0, e);
    AddProper(g, Scale(rhs, -1.0), 0);
    AddEval(g, Scale(rhs, -1.0), 0, e);
  }

  /** The symbols of the polynomial are those that occur and new templates. */
  lemma TargetSymbols(co: Core, rhs: Poly, base: nat)
    requires co.Valid() && co.For(rhs).Halts()
    ensures forall i :: i in IdsOf(Target(co, rhs, base)) && i < base ==> i in co.Symbols([rhs])
  {
    hide Add, Scale, Gen, Over, IdArr, MaxExp;
    var s := iset i: nat | base <= i || i in co.Symbols([rhs]);
    var m := Greatest(co.lhs, rhs);
    forall j | 0 <= j < |co.lhs| ensures Over(co.lhs[j], s, m) {
      forall i | i in IdsOf(co.lhs[j]) ensures i in s { assert i in IdArr(co.lhs[j]); }
      GreatestBounds(co.lhs, rhs, j);
      OverSelf(co.lhs[j], s, m);
    }
    forall i | i in IdsOf(rhs) ensures i in s { assert i in IdArr([rhs][0]); }
    var g, bound := Gen(co.For(rhs), 0, 0, base).0, m * co.For(rhs).Room(0) + 1;
    GenOver(co.For(rhs), 0, 0, base, s, m);
    var all := Max(bound, m);
    OverMono(g, s, bound, s, all);
    GreatestBounds(co.lhs, rhs, 0);
    OverSelf(rhs, s, all);
    ScaleOver(rhs, -1.0, s, all);
    AddOver(g, Scale(rhs, -1.0), s, all);
    OverIds(Target(co, rhs, base), s, all);
  }

  /** The greatest exponent of all the polynomials. */
  ghost function Greatest(lhs: seq<Poly>, rhs: Poly): nat {
    if lhs == [] then MaxExp(rhs) else Max(MaxExp(lhs[0]), Greatest(lhs[1..], rhs))
  }

  lemma {:induction false} GreatestBounds(lhs: seq<Poly>, rhs: Poly, j: nat)
    ensures MaxExp(rhs) <= Greatest(lhs, rhs) && (j < |lhs| ==> MaxExp(lhs[j]) <= Greatest(lhs, rhs))
  {
    if lhs != [] { GreatestBounds(lhs[1..], rhs, if j > 0 then j - 1 else 0); }
  }

  lemma TargetOrdered(co: Core, rhs: Poly, base: nat)
    requires co.Valid() && co.For(rhs).Halts() && co.InOrder([rhs], base)
    ensures Ordered(IdsOf(Target(co, rhs, base)), co.prog)
  {
    hide Target, IdsOf, IdArr;
    TargetSymbols(co, rhs, base);
    forall i: nat, j: nat | i in IdsOf(Target(co, rhs, base)) && j in IdsOf(Target(co, rhs, base)) && i in co.prog && j < i
      ensures j in co.prog
    {
      assert i in co.Symbols([rhs]) && j in co.Symbols([rhs]);
    }
  }

  /** For every numbering: a representation satisfies the emitted constraints. */
  lemma TargetComplete(co: Core, rhs: Poly, base: nat, e: Env)
    requires co.Valid() && Proper(rhs, 0) && co.For(rhs).Halts() && Represents(co, rhs, base, e)
    ensures CoefficientsZero(Target(co, rhs, base), co.prog, e) && NonNegativeAt(TemplateVars(base, |Products(co, rhs)|), e)
  {
    hide Target, Products, Flat, Proper, Eval, Reduce;
    TargetEval(co, rhs, base, e);
    forall f: Env ensures Eval(Target(co, rhs, base), f) == Flat(co.lhs, Products(co, rhs), base, f) - Eval(rhs, f) {
      TargetEval(co, rhs, base, f);
    }
    ReduceComplete(Target(co, rhs, base), co.prog, 0, e);
    VarsNonNegative(base, |Products(co, rhs)|, e);
  }

  lemma TargetExact(co: Core, rhs: Poly, base: nat, e: Env)
    requires co.Valid() && Proper(rhs, 0) && co.For(rhs).Halts() && co.InOrder([rhs], base)
    ensures CoefficientsZero(Target(co, rhs, base), co.prog, e) && NonNegativeAt(TemplateVars(base, |Products(co, rhs)|), e)
       <==> Represents(co, rhs, base, e)
  {
    hide Target, Products, Flat, Proper, Eval, Reduce;
    TargetEval(co, rhs, base, e);
    TargetOrdered(co, rhs, base);
    ReduceExact(Target(co, rhs, base), co.prog, e);
    forall f: Env ensures Eval(Target(co, rhs, base), f) == Flat(co.lhs, Products(co, rhs), base, f) - Eval(rhs, f) {
      TargetEval(co, rhs, base, f);
    }
    VarsNonNegative(base, |Products(co, rhs)|, e);
  }

  lemma VarsNonNegative(base: nat, n: nat, e: Env)
    ensures NonNegativeAt(TemplateVars(base, n), e) <==> NonNegative(e, base, base + n)
  {
    forall i: nat ensures Eval(Var(i), e) == e(i) {
      VarEval(i, e);
    }
    forall i: nat | base <= i < base + n ensures Var(i) in TemplateVars(base, n) {
      assert TemplateVars(base, n)[i - base] == Var(i);
    }
  }

  /** A template assignment solves the emitted system exactly when it is a Handelman representation
      of every goal. */
  lemma {:induction false} SolvesExact(co: Core, rhss: seq<Poly>, base: nat, e: Env)
    requires co.Valid() && co.Halts(rhss) && co.InOrder(rhss, base)
    ensures Solves(co, rhss, base, e) <==> RepresentsAll(co, rhss, base, e)
    decreases |rhss|
  {
    hide Target, Products, Represents, ZeroAt, NonNegativeAt, Reduce, TemplateVars, Proper;
    if rhss != [] {
      var next := base + |Products(co, rhss[0])|;
      FewerSymbols(co, rhss);
      TargetExact(co, rhss[0], base, e);
      SolvesExact(co, rhss[1..], next, e);
      AppendAt(Reduce(Target(co, rhss[0], base), co.prog), Equations(co, rhss[1..], next), e);
      AppendAt(TemplateVars(base, |Products(co, rhss[0])|), Inequalities(co, rhss[1..], next), e);
    } else {
      NoneAt(e);
    }
  }

  /** For every numbering: representations of all goals solve the emitted system. */
  lemma {:induction false} RepresentationsSolve(co: Core, rhss: seq<Poly>, base: nat, e: Env)
    requires co.Valid() && co.Halts(rhss) && RepresentsAll(co, rhss, base, e)
    ensures Solves(co, rhss, base, e)
    decreases |rhss|
  {
    hide Target, Products, Represents, ZeroAt, NonNegativeAt, Reduce, TemplateVars, Proper;
    if rhss != [] {
      var next := base + |Products(co, rhss[0])|;
      TargetComplete(co, rhss[0], base, e);
      RepresentationsSolve(co, rhss[1..], next, e);
      AppendAt(Reduce(Target(co, rhss[0], base), co.prog), Equations(co, rhss[1..], next), e);
      AppendAt(TemplateVars(base, |Products(co, rhss[0])|), Inequalities(co, rhss[1..], next), e);
    } else {
      NoneAt(e);
    }
  }

  lemma FewerSymbols(co: Core, rhss: seq<Poly>)
    requires rhss != []
    ensures co.Symbols([rhss[0]]) <= co.Symbols(rhss) && co.Symbols(rhss[1..]) <= co.Symbols(rhss)
  {
    forall i | i in co.Symbols([rhss[0]]) ensures i in co.Symbols(rhss) {
      if Occurs([rhss[0]], i) { assert i in IdArr(rhss[0]); }
    }
    forall i | i in co.Symbols(rhss[1..]) ensures i in co.Symbols(rhss) {
      if k :| 0 <= k < |rhss[1..]| && i in IdArr(rhss[1..][k]) { assert i in IdArr(rhss[k + 1]); }
    }
  }

  lemma NoneAt(e: Env)
    ensures ZeroAt([], e) && NonNegativeAt([], e)
  {}

  lemma AppendAt(s: seq<Poly>, t: seq<Poly>, e: Env)
    ensures ZeroAt(s + t, e) <==> ZeroAt(s, e) && ZeroAt(t, e)
    ensures NonNegativeAt(s + t, e) <==> NonNegativeAt(s, e) && NonNegativeAt(t, e)
  {
    assert forall x :: x in s + t <==> x in s || x in t;
  }

  // ---------------------------------------------------------------- soundness

  /** The implication the method is asked to certify, at assignment `f`. */
  ghost predicate Implied(lhs: seq<Poly>, rhs: Poly, f: Env) {
    (forall j :: 0 <= j < |lhs| ==> 0.0 <= Eval(lhs[j], f)) ==> 0.0 <= Eval(rhs, f)
  }

  lemma {:induction false} ProdNonNegative(lhs: seq<Poly>, c: seq<nat>, f: Env)
    requires forall j :: 0 <= j < |lhs| ==> 0.0 <= Eval(lhs[j], f)
    ensures 0.0 <= Prod(lhs, c, f)
    decreases |c|
  {
    if c != [] {
      ProdNonNegative(lhs, c[1..], f);
      TimesNonNegative(Factor(lhs, c[0], f), Prod(lhs, c[1..], f));
    }
  }

  lemma TimesNonNegative(a: real, b: real)
    requires 0.0 <= a && 0.0 <= b
    ensures 0.0 <= a * b
  {}

  lemma {:induction false} FlatNonNegative(lhs: seq<Poly>, cs: seq<seq<nat>>, base: nat, f: Env)
    requires forall j :: 0 <= j < |lhs| ==> 0.0 <= Eval(lhs[j], f)
    requires NonNegative(f, base, base + |cs|)
    ensures 0.0 <= Flat(lhs, cs, base, f)
    decreases |cs|
  {
    hide Eval, Prod;
    if cs != [] {
      ProdNonNegative(lhs, cs[0], f);
      TimesNonNegative(f(base), Prod(lhs, cs[0], f));
      FlatNonNegative(lhs, cs[1..], base + 1, f);
    }
  }

  lemma RepresentationImplies(co: Core, rhs: Poly, base: nat, e: Env, f: Env)
    requires co.Valid() && co.For(rhs).Halts() && Represents(co, rhs, base, e)
    requires SameTemplates(co.prog, e, f) && forall i :: i in co.prog ==> i < base
    ensures Implied(co.lhs, rhs, f)
  {
    hide Products, Eval, Flat;
    if forall j :: 0 <= j < |co.lhs| ==> 0.0 <= Eval(co.lhs[j], f) {
      FlatNonNegative(co.lhs, Products(co, rhs), base, f);
    }
  }

  /** Certificate soundness: any solution of the emitted system makes every goal non-negative at every
      point where the assumptions are non-negative. */
  lemma {:induction false} Soundness(co: Core, rhss: seq<Poly>, base: nat, e: Env, f: Env, i: nat)
    requires co.Valid() && co.Halts(rhss) && co.InOrder(rhss, base)
    requires Solves(co, rhss, base, e) && SameTemplates(co.prog, e, f) && i < |rhss|
    ensures Implied(co.lhs, rhss[i], f)
  {
    SolvesExact(co, rhss, base, e);
    RepresentsAllImplies(co, rhss, base, e, f, i);
  }

  lemma {:induction false} RepresentsAllImplies(co: Core, rhss: seq<Poly>, base: nat, e: Env, f: Env, i: nat)
    requires co.Valid() && co.Halts(rhss) && RepresentsAll(co, rhss, base, e)
    requires SameTemplates(co.prog, e, f) && (forall i :: i in co.prog ==> i < base) && i < |rhss|
    ensures Implied(co.lhs, rhss[i], f)
    decreases |rhss|
  {
    hide Represents, Implied, Products;
    if i == 0 {
      RepresentationImplies(co, rhss[0], base, e, f);
    } else {
      RepresentsAllImplies(co, rhss[1..], base + |Products(co, rhss[0])|, e, f, i - 1);
    }
  }

  /** The method is sound for every problem over the given symbols if and only if among them the program
      variables come first: a template `t` created before a program variable `x` breaks it already for
      the single goal `t + x` without assumptions. */
  lemma SoundIffOrdered(syms: iset<nat>, prog: set<nat>, base: nat)
    requires forall i :: i in prog ==> i < base
    ensures Ordered(syms, prog) <==>
            (forall co: Core, rhss: seq<Poly>, e: Env, f: Env, i: nat ::
               (co.prog == prog && co.Valid() && co.Halts(rhss) && co.Symbols(rhss) <= syms && Solves(co, rhss, base, e)
                && SameTemplates(prog, e, f) && i < |rhss|) ==> Implied(co.lhs, rhss[i], f))
  {
    if Ordered(syms, prog) {
      forall co: Core, rhss: seq<Poly>, e: Env, f: Env, i: nat
        | co.prog == prog && co.Valid() && co.Halts(rhss) && co.Symbols(rhss) <= syms && Solves(co, rhss, base, e)
          && SameTemplates(prog, e, f) && i < |rhss|
        ensures Implied(co.lhs, rhss[i], f)
      {
        Soundness(co, rhss, base, e, f, i);
      }
    } else {
      var x: nat, t: nat :| x in syms && t in syms && x in prog && t < x && t !in prog;
      EarlyTemplateUnsound(prog, base, t, x, 2);
      MixedSymbols(prog, t, x);
    }
  }

  lemma MixedSymbols(prog: set<nat>, t: nat, x: nat)
    ensures Core([], [], 2, prog).Symbols([Mixed(t, x)]) <= iset{t, x}
  {
    hide Mixed, IdArr;
    MixedIds(t, x);
    var co := Core([], [], 2, prog);
    forall i | i in co.Symbols([Mixed(t, x)]) ensures i in iset{t, x} {
      var k :| 0 <= k < 1 && i in IdArr([Mixed(t, x)][k]);
      assert i in IdsOf(Mixed(t, x));
    }
  }

  /** Whatever the degree bound, the system is solved at zero, but the goal is negative at another point. */
  lemma EarlyTemplateUnsound(prog: set<nat>, base: nat, t: nat, x: nat, maxDeg: int)
    requires t !in prog && x in prog && t < x < base && forall i :: i in prog ==> i < base
    ensures var co, rhss, zero := Core([], [], maxDeg, prog), [Mixed(t, x)], (i: nat) => 0.0;
            && co.Valid() && co.Halts(rhss) && Solves(co, rhss, base, zero)
            && SameTemplates(prog, zero, Set(zero, x, -1.0)) && !Implied([], rhss[0], Set(zero, x, -1.0))
  {
    hide Mixed, Reduce, Target, Eval, Add;
    var co, rhs, zero := Core([], [], maxDeg, prog), Mixed(t, x), (i: nat) => 0.0;
    MixedEval(t, x, zero);
    MixedEval(t, x, Set(zero, x, -1.0));
    assert co.Halts([rhs]);
    EarlyTemplateTarget(prog, base, t, x, maxDeg);
    assert Equations(co, [rhs], base) == [Target(co, rhs, base)] + Equations(co, [], base + 1);
    assert Inequalities(co, [rhs], base) == TemplateVars(base, 1) + Inequalities(co, [], base + 1);
    VarsNonNegative(base, 1, zero);
  }

  lemma EarlyTemplateTarget(prog: set<nat>, base: nat, t: nat, x: nat, maxDeg: int)
    requires t !in prog && x in prog && t < x < base
    ensures var co, rhs := Core([], [], maxDeg, prog), Mixed(t, x);
            && co.Valid() && co.For(rhs).Halts() && Products(co, rhs) == [[]]
            && Reduce(Target(co, rhs, base), prog) == [Target(co, rhs, base)]
            && Eval(Target(co, rhs, base), (i: nat) => 0.0) == 0.0
  {
    hide Mixed, Scale, Add, Eval, Var, Proper, Target, Products;
    var co, rhs, zero := Core([], [], maxDeg, prog), Mixed(t, x), (i: nat) => 0.0;
    var one := Set(zero, t, 1.0);
    MixedEval(t, x, zero);
    MixedEval(t, x, one);
    NoAssumptions(prog, rhs, base, zero, t, maxDeg);
    NoAssumptions(prog, rhs, base, one, t, maxDeg);
    LeadingSymbol(Target(co, rhs, base), t, zero, one);
  }

  /** Without assumptions the only product is the empty one. */
  lemma NoAssumptions(prog: set<nat>, rhs: Poly, base: nat, e: Env, lo: nat, maxDeg: int)
    requires Proper(rhs, 0) && Proper(rhs, lo) && lo <= base
    ensures var co := Core([], [], maxDeg, prog);
            && co.Valid() && co.For(rhs).Halts() && Products(co, rhs) == [[]]
            && Proper(Target(co, rhs, base), lo)
            && Eval(Target(co, rhs, base), e) == e(base) - Eval(rhs, e)
  {
    hide Scale, Add, Eval, Var, Proper;
    var co := Core([], [], maxDeg, prog);
    assert ChainsFrom(co.For(rhs), 0, 0) == [];
    assert GenFrom(co.For(rhs), 0, 0, base, Const(0.0)) == (Const(0.0), base);
    TargetEval(co, rhs, base, e);
    assert Flat([], [[]], base, e) == e(base) * Prod([], [], e) + Flat([], [[]][1..], base + 1, e);
    VarProper(base);
    ProperMono(Var(base), base, lo);
    assert Proper(Const(0.0), lo) by { ConstProper(0.0, lo); }
    AddProper(Const(0.0), Var(base), lo);
    ScaleProper(rhs, -1.0, lo);
    AddProper(Gen(co.For(rhs), 0, 0, base).0, Scale(rhs, -1.0), lo);
  }
}
