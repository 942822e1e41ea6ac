/** The constraint generator as the program runs it: it grows the variable table and the solver's
    constraint lists in place. */
module HandelmanCore {
  import opened Basics
  import opened Multinomial
  import opened PolynomialShape
  import opened Reduction
  import opened Generator
  import opened Certificate
  import opened VariableTable

  /** `forall bound. (every lhs >= 0) ==> rhs >= 0`. */
  datatype Formula = Forall(bound: set<nat>, lhs: seq<Poly>, rhs: Poly)

  ghost predicate Holds(fm: Formula, e: Env) {
    forall f: Env :: SameTemplates(fm.bound, e, f) ==> Implied(fm.lhs, fm.rhs, f)
  }

  class Solver {
    var eq: seq<Poly>
    var ineq: seq<Poly>
    var formulas: seq<Formula>
    /** Number of solver constants created so far; a polynomial's symbol with id `i` stands for the
        constant with index `i`. */
    var constants: nat
    const table: Table

    constructor (t: Table)
      ensures table == t && eq == [] && ineq == [] && formulas == [] && constants == |t.symbols|
    {
      table := t;
      eq, ineq, formulas := [], [], [];
      constants := |t.symbols|;
    }

    method AddInequality(p: Poly)
      modifies this`ineq
      ensures ineq == old(ineq) + [p]
    {
      ineq := ineq + [p];
    }

    method AddEquations(ps: seq<Poly>)
      modifies this`eq
      ensures eq == old(eq) + ps
    {
      for k := 0 to |ps|
        invariant eq == old(eq) + ps[..k]
      {
        eq := eq + [ps[k]];
      }
    }
  }

  class Handelman {
    var lhs: seq<Poly>
    var lhsDegree: seq<nat>
    var rhsArr: seq<Poly>
    const s: Solver
    var maxDeg: int

    constructor (t: Table)
      ensures lhs == [] && lhsDegree == [] && rhsArr == [] && maxDeg == 2
      ensures fresh(s) && s.table == t && s.eq == [] && s.ineq == [] && s.formulas == []
      ensures s.constants == |t.symbols|
    {
      lhs, lhsDegree, rhsArr := [], [], [];
      s := new Solver(t);
      maxDeg := 2;
    }

    /** The table is in order, and all polynomials are proper. */
    ghost predicate Valid()
      reads this, s, s.table, s.table.counter
    {
      && s.table.Valid()
      && (forall j :: 0 <= j < |lhs| ==> Proper(lhs[j], 0))
      && (forall i :: 0 <= i < |rhsArr| ==> Proper(rhsArr[i], 0))
    }

    ghost function Prog(): set<nat>
      reads s.table
    {
      ProgramIds(s.table.symbols)
    }

    /** The id of the next symbol. */
    ghost function Next(): nat
      reads s.table.counter
    {
      s.table.counter.count
    }

    method MakeDegArr()
      modifies this`lhsDegree
      ensures lhsDegree == Degrees(lhs, Prog()) && |lhsDegree| == |lhs|
      ensures forall j :: 0 <= j < |lhs| && Proper(lhs[j], 0) ==> Recorded(lhs[j], Prog(), lhsDegree[j])
    {
      lhsDegree := [];
      var prog := ProgramIds(s.table.symbols);
      for j := 0 to |lhs|
        invariant lhsDegree == Degrees(lhs, prog)[..j]
      {
        lhsDegree := lhsDegree + [Degree(lhs[j], false, prog)];
      }
      DegreesMean(lhs, prog);
    }

    /** Sets the degree bound; 0 asks for the largest degree of a goal, but never lowers the bound. */
    method SetMaxDegree(adeg: int)
      modifies this`maxDeg
      ensures adeg != 0 ==> maxDeg == adeg
      ensures adeg == 0 ==> maxDeg >= old(maxDeg) && (forall p :: p in rhsArr ==> Degree(p, false, Prog()) <= maxDeg)
      ensures adeg == 0 ==> maxDeg == old(maxDeg) || exists p :: p in rhsArr && maxDeg == Degree(p, false, Prog())
    {
      if adeg == 0 {
        var prog := ProgramIds(s.table.symbols);
        for i := 0 to |rhsArr|
          invariant maxDeg >= old(maxDeg) && forall p :: p in rhsArr[..i] ==> Degree(p, false, prog) <= maxDeg
          invariant maxDeg == old(maxDeg) || exists p :: p in rhsArr && maxDeg == Degree(p, false, prog)
        {
          var d := Degree(rhsArr[i], false, prog);
          assert rhsArr[i] in rhsArr;
          maxDeg := if d > maxDeg then d else maxDeg;
        }
      } else {
        maxDeg := adeg;
      }
    }

    /** Creates a template, asserts that it is non-negative, and adds it to `ans`. */
    method AddTemplate(ans: Poly) returns (r: Result<Poly>)
      requires Valid()
      modifies s`ineq, s.table, s.table.counter
      ensures r.Ok? <==> old(Next()) < SYM_LIMIT
      ensures r.Ok? ==>
                && Valid() && r.value == Add(ans, Var(old(Next()))) && Next() == old(Next()) + 1
                && Emitted(old(Next()), old(s.table.symbols), old(s.ineq), s.table.symbols, s.ineq, 1)
    {
      hide Proper, Add, Var;
      var name := s.table.AddVar(true, "additive_template");
      if name.Err? { return Err(name.error); }
      var template := Var(s.table.symbols[s.table.names[name.value]].id);
      s.AddInequality(template);
      r := Ok(Add(ans, template));
    }

    /** Builds the template polynomial for a partial product of degree `currDeg`. It is the nested
        polynomial of the specification, with one new non-negative template per product, and it fails
        exactly when the symbols run out. */
    method GenPol(currDeg: nat, firstIndex: nat, idArr: seq<nat>, ghost pb: Problem) returns (r: Result<Poly>)
      requires Valid() && firstIndex <= |lhs| && Next() <= SYM_LIMIT
      requires pb.lhs == lhs && pb.deg == lhsDegree && pb.maxDeg == maxDeg && pb.Valid() && pb.Halts()
      requires forall j :: 0 <= j < |lhs| ==> pb.ok[j] == CmpPoly(lhs[j], idArr)
      modifies s`ineq, s.table, s.table.counter
      ensures r.Ok? <==> old(Next()) + |Chains(pb, currDeg, firstIndex)| <= SYM_LIMIT
      ensures r.Ok? ==>
                && Valid() && r.value == Gen(pb, currDeg, firstIndex, old(Next())).0
                && Next() == old(Next()) + |Chains(pb, currDeg, firstIndex)|
                && Emitted(old(Next()), old(s.table.symbols), old(s.ineq), s.table.symbols, s.ineq, |Chains(pb, currDeg, firstIndex)|)
      decreases pb.Room(currDeg), |lhs| - firstIndex
    {
      hide Gen, Chains, Proper, Add, Mul, CmpPoly, Var, LoopState, Emitted;
      ghost var base, syms, ineqs := Next(), s.table.symbols, s.ineq;
      var ans := Const(0.0);
      LoopStarts(pb, currDeg, firstIndex, base, syms, ineqs);
      for j := firstIndex to |lhs|
        invariant Valid() && base <= Next() <= SYM_LIMIT
        invariant LoopState(pb, currDeg, firstIndex, base, j, Next(), ans)
        invariant Emitted(base, syms, ineqs, s.table.symbols, s.ineq, Next() - base)
      {
        LoopAdvances(pb, currDeg, firstIndex, base, j, Next(), ans);
        if currDeg + lhsDegree[j] <= maxDeg && CmpPoly(lhs[j], idArr) {
          ghost var mid, syms', ineqs' := Next(), s.table.symbols, s.ineq;
          var inner := GenPol(currDeg + lhsDegree[j], j, idArr, pb);
          if inner.Err? { return inner; }
          EmittedTwice(base, syms, ineqs, syms', ineqs', s.table.symbols, s.ineq, mid - base, |Chains(pb, currDeg + lhsDegree[j], j)|);
          ans := Add(ans, Mul(lhs[j], inner.value));
        }
      }
      LoopEnds(pb, currDeg, firstIndex, base, Next(), ans);
      ghost var mid, syms', ineqs' := Next(), s.table.symbols, s.ineq;
      r := AddTemplate(ans);
      if r.Ok? {
        EmittedTwice(base, syms, ineqs, syms', ineqs', s.table.symbols, s.ineq, mid - base, 1);
      }
    }

    /** Generates the constraints of the Handelman method for every goal. Equations and inequalities
        are appended to the solver; it fails exactly when the symbols run out. */
    method Solve() returns (r: Result<()>)
      requires Valid() && Next() <= SYM_LIMIT
      requires Task().Halts(rhsArr)
      modifies this`lhsDegree, s`eq, s`ineq, s.table, s.table.counter
      ensures lhsDegree == Degrees(lhs, old(Prog()))
      ensures r.Ok? <==> old(Next()) + |Inequalities(old(Task()), rhsArr, old(Next()))| <= SYM_LIMIT
      ensures r.Ok? ==>
                && Valid() && Prog() == old(Prog()) && Next() >= old(Next())
                && s.eq == old(s.eq) + Equations(old(Task()), rhsArr, old(Next()))
                && s.ineq == old(s.ineq) + Inequalities(old(Task()), rhsArr, old(Next()))
    {
      hide Equations, Inequalities, Products, Target, Proper, Reduce, Scale, Add, Gen, Chains, IdArr, CmpPoly, Emitted;
      ghost var co, prog, base := Task(), Prog(), Next();
      MakeDegArr();
      for i := 0 to |rhsArr|
        invariant Valid() && Next() <= SYM_LIMIT && Prog() == prog && lhsDegree == co.deg
        invariant |s.ineq| - |old(s.ineq)| == Next() - base >= 0 && co.Valid() && co.Halts(rhsArr[i..])
        invariant s.eq + Equations(co, rhsArr[i..], Next()) == old(s.eq) + Equations(co, rhsArr, base)
        invariant s.ineq + Inequalities(co, rhsArr[i..], Next()) == old(s.ineq) + Inequalities(co, rhsArr, base)
      {
        var rhs := rhsArr[i];
        var idArr := IdArr(rhs);
        ghost var next, syms, ineqs := Next(), s.table.symbols, s.ineq;
        assert rhsArr[i..][0] == rhs && rhsArr[i..][1..] == rhsArr[i + 1..];
        EquationsStep(co, rhsArr[i..], next);
        var gen := GenPol(0, 0, idArr, co.For(rhs));
        if gen.Err? {
          assert |Inequalities(co, rhsArr[i..], next)| >= |Chains(co.For(rhs), 0, 0)|;
          return Err(gen.error);
        }
        EmittedKeepsPrograms(next, syms, ineqs, s.table.symbols, s.ineq, |Chains(co.For(rhs), 0, 0)|);
        var toSolve := Add(gen.value, Scale(rhs, -1.0));
        s.AddEquations(Reduce(toSolve, ProgramIds(s.table.symbols)));
      }
      assert rhsArr[|rhsArr|..] == [];
      NoEquations(co, Next());
      r := Ok(());
    }

    /** Builds, instead, the quantified implication for every goal. It quantifies the constants at the
        positions of the program variables. Without assumptions the left-hand side is the real constant
        0, which the solver library refuses as a premise. */
    method PlainSolve() returns (r: Result<()>)
      requires forall p :: p in lhs || p in rhsArr ==> Below(p, s.constants)
      requires s.constants <= |s.table.symbols|
      modifies s`formulas
      ensures r.Err? <==> lhs == [] && rhsArr != []
      ensures r.Err? ==> s.formulas == []
      ensures r.Ok? ==> s.formulas == PlainFormulas(ProgramPositions(s.table.symbols[..s.constants]), lhs, rhsArr)
    {
      s.formulas := [];
      var bound := ProgramPositions(s.table.symbols[..s.constants]);
      for i := 0 to |rhsArr|
        invariant i > 0 ==> lhs != []
        invariant s.formulas == PlainFormulas(bound, lhs, rhsArr)[..i]
      {
        if lhs == [] { return Err("sort mismatch"); }
        s.formulas := s.formulas + [Forall(bound, lhs, rhsArr[i])];
      }
      r := Ok(());
    }

    /** The problem that `Solve` works on. */
    ghost function Task(): Core
      reads this, s.table
    {
      Core(lhs, Degrees(lhs, Prog()), maxDeg, Prog())
    }
  }

  /** Positions of the program variables in the table. */
  function ProgramPositions(symbols: seq<Symbol>): set<nat> {
    set i: nat | i < |symbols| && !symbols[i].template
  }

  /** In the only live table, created first, the plain encoding quantifies exactly the program variables. */
  lemma SolePositions(t: Table)
    requires t.Sole()
    ensures ProgramPositions(t.symbols) == ProgramIds(t.symbols)
  {
    forall i | i in ProgramPositions(t.symbols) ensures i in ProgramIds(t.symbols) { assert t.symbols[i].id == i; }
  }

  ghost predicate IncreasingIds(symbols: seq<Symbol>) {
    forall i, j :: 0 <= i < j < |symbols| ==> symbols[i].id < symbols[j].id
  }

  ghost predicate ProgramIdsArePositions(symbols: seq<Symbol>) {
    forall i :: 0 <= i < |symbols| && !symbols[i].template ==> symbols[i].id == i
  }

  lemma {:induction false} IdAtLeastPosition(symbols: seq<Symbol>, i: nat)
    requires IncreasingIds(symbols) && i < |symbols|
    ensures i <= symbols[i].id
  {
    if i > 0 { IdAtLeastPosition(symbols, i - 1); }
  }

  /** A program variable whose id is above its position forces another one further up, if ids and positions
      agree as sets; so there is none. */
  lemma {:induction false} NoIdAbove(symbols: seq<Symbol>, i: nat)
    requires IncreasingIds(symbols) && ProgramPositions(symbols) == ProgramIds(symbols)
    requires i < |symbols| && !symbols[i].template
    ensures symbols[i].id == i
    decreases |symbols| - i
  {
    IdAtLeastPosition(symbols, i);
    var k := symbols[i].id;
    if i < k {
      assert k in ProgramIds(symbols);
      assert k in ProgramPositions(symbols);
      NoIdAbove(symbols, k);
    }
  }

  /** In a table with increasing ids, the plain encoding quantifies exactly the program variables if and only
      if the id of each program variable is its position. */
  lemma PositionsIff(symbols: seq<Symbol>)
    requires IncreasingIds(symbols)
    ensures ProgramPositions(symbols) == ProgramIds(symbols) <==> ProgramIdsArePositions(symbols)
  {
    if ProgramPositions(symbols) == ProgramIds(symbols) {
      forall i | 0 <= i < |symbols| && !symbols[i].template ensures symbols[i].id == i { NoIdAbove(symbols, i); }
    }
    if ProgramIdsArePositions(symbols) {
      forall i | i in ProgramPositions(symbols) ensures i in ProgramIds(symbols) { assert symbols[i].id == i; }
    }
  }

  function PlainFormulas(bound: set<nat>, lhs: seq<Poly>, rhss: seq<Poly>): seq<Formula> {
    seq(|rhss|, i requires 0 <= i < |rhss| => Forall(bound, lhs, rhss[i]))
  }

  /** The formulas hold exactly when, however the constants in `bound` are chosen, every goal follows from
      the assumptions. */
  lemma PlainFormulasMean(bound: set<nat>, lhs: seq<Poly>, rhss: seq<Poly>, e: Env)
    ensures (forall fm :: fm in PlainFormulas(bound, lhs, rhss) ==> Holds(fm, e)) <==>
            forall i, f: Env :: 0 <= i < |rhss| && SameTemplates(bound, e, f) ==> Implied(lhs, rhss[i], f)
  {
    hide Implied, SameTemplates;
    var fms := PlainFormulas(bound, lhs, rhss);
    if forall fm :: fm in fms ==> Holds(fm, e) {
      forall i, f: Env | 0 <= i < |rhss| && SameTemplates(bound, e, f) ensures Implied(lhs, rhss[i], f) {
        assert fms[i] in fms;
      }
    }
  }

  /** Every assignment that solves the Handelman constraints satisfies every quantified implication,
      so the certificate route only strengthens the direct one. */
  lemma HandelmanStrengthensPlain(co: Core, rhss: seq<Poly>, base: nat, bound: set<nat>, e: Env)
    requires co.Valid() && co.Halts(rhss) && co.InOrder(rhss, base)
    requires bound <= co.prog && Solves(co, rhss, base, e)
    ensures forall fm :: fm in PlainFormulas(bound, co.lhs, rhss) ==> Holds(fm, e)
  {
    forall fm, f: Env | fm in PlainFormulas(bound, co.lhs, rhss) && SameTemplates(fm.bound, e, f)
      ensures Implied(fm.lhs, fm.rhs, f)
    {
      var i :| 0 <= i < |rhss| && fm == Forall(bound, co.lhs, rhss[i]);
      Soundness(co, rhss, base, e, f, i);
    }
  }

  /** An assumption whose outermost symbol is a template is recorded with degree 0, so the generator
      never returns for a goal that shares a symbol with it. */
  lemma TemplateAssumptionDiverges(lhs: seq<Poly>, maxDeg: int, prog: set<nat>, rhs: Poly, j: nat, base: nat)
    requires forall j :: 0 <= j < |lhs| ==> Proper(lhs[j], 0)
    requires j < |lhs| && lhs[j].Node? && lhs[j].id !in prog && CmpPoly(lhs[j], IdArr(rhs)) && 0 <= maxDeg
    ensures var pb := Core(lhs, Degrees(lhs, prog), maxDeg, prog).For(rhs);
            forall fuel: nat :: GenFuel(pb, 0, 0, base, fuel) == None
  {
    var pb := Core(lhs, Degrees(lhs, prog), maxDeg, prog).For(rhs);
    assert pb.deg[j] == 0 && pb.ok[j];
    forall fuel: nat ensures GenFuel(pb, 0, 0, base, fuel) == None {
      GenDiverges(pb, 0, 0, base, fuel, j);
    }
  }

  /** `n` new templates, with ids from `base` on, were created and declared non-negative. */
  ghost predicate Emitted(base: nat, syms: seq<Symbol>, ineqs: seq<Poly>, syms': seq<Symbol>, ineqs': seq<Poly>, n: nat) {
    syms' == syms + NewSymbols(base, n, true) && ineqs' == ineqs + TemplateVars(base, n)
  }

  // ---------------------------------------------------------------- unfolding the specification

  /** Iteration `j` of the loop, with next id `size`, is on its way to the specified result. */
  ghost predicate LoopState(pb: Problem, curr: nat, first: nat, base: nat, j: nat, size: nat, ans: Poly)
    requires pb.Valid() && pb.Halts() && first <= |pb.lhs| && j <= |pb.lhs|
  {
    && size + |ChainsFrom(pb, curr, j)| == base + |ChainsFrom(pb, curr, first)|
    && GenFrom(pb, curr, j, size, ans) == GenFrom(pb, curr, first, base, Const(0.0))
  }

  lemma LoopStarts(pb: Problem, curr: nat, first: nat, base: nat, syms: seq<Symbol>, ineqs: seq<Poly>)
    requires pb.Valid() && pb.Halts() && first <= |pb.lhs|
    ensures LoopState(pb, curr, first, base, first, base, Const(0.0))
    ensures Emitted(base, syms, ineqs, syms, ineqs, 0)
  {
    assert NewSymbols(base, 0, true) == [] && TemplateVars(base, 0) == [];
  }

  lemma LoopAdvances(pb: Problem, curr: nat, first: nat, base: nat, j: nat, size: nat, ans: Poly)
    requires pb.Valid() && pb.Halts() && first <= j < |pb.lhs| && LoopState(pb, curr, first, base, j, size, ans)
    ensures !pb.Take(curr, j) ==> LoopState(pb, curr, first, base, j + 1, size, ans)
    ensures pb.Take(curr, j) ==>
              var n := |Chains(pb, curr + pb.deg[j], j)|;
              && LoopState(pb, curr, first, base, j + 1, size + n, Add(ans, Mul(pb.lhs[j], Gen(pb, curr + pb.deg[j], j, size).0)))
              && size + n <= base + |Chains(pb, curr, first)|
  {
    hide Gen, GenFrom, Add, Mul, Proper;
    LoopStep(pb, curr, j, size, ans);
    if pb.Take(curr, j) {
      GenShape(pb, curr + pb.deg[j], j, size);
    }
  }

  lemma LoopEnds(pb: Problem, curr: nat, first: nat, base: nat, size: nat, ans: Poly)
    requires pb.Valid() && pb.Halts() && first <= |pb.lhs| && LoopState(pb, curr, first, base, |pb.lhs|, size, ans)
    ensures Gen(pb, curr, first, base).0 == Add(ans, Var(size))
    ensures size + 1 == base + |Chains(pb, curr, first)|
  {
    hide Add, Mul, Proper;
    LoopStep(pb, curr, |pb.lhs|, size, ans);
  }

  lemma EmittedTwice(base: nat, syms: seq<Symbol>, ineqs: seq<Poly>, syms': seq<Symbol>, ineqs': seq<Poly>,
                     syms'': seq<Symbol>, ineqs'': seq<Poly>, m: nat, n: nat)
    requires Emitted(base, syms, ineqs, syms', ineqs', m) && Emitted(base + m, syms', ineqs', syms'', ineqs'', n)
    ensures Emitted(base, syms, ineqs, syms'', ineqs'', m + n)
  {
    assert NewSymbols(base, m + n, true) == NewSymbols(base, m, true) + NewSymbols(base + m, n, true);
    assert TemplateVars(base, m + n) == TemplateVars(base, m) + TemplateVars(base + m, n);
  }

  lemma EmittedKeepsPrograms(base: nat, syms: seq<Symbol>, ineqs: seq<Poly>, syms': seq<Symbol>, ineqs': seq<Poly>, n: nat)
    requires Emitted(base, syms, ineqs, syms', ineqs', n)
    ensures ProgramIds(syms') == ProgramIds(syms)
    ensures ineqs' == ineqs + TemplateVars(base, n) && |TemplateVars(base, n)| == n
  {
    ProgramIdsAppendTemplates(syms, NewSymbols(base, n, true));
  }

  lemma EquationsStep(co: Core, rhss: seq<Poly>, base: nat)
    requires co.Valid() && co.Halts(rhss) && rhss != []
    ensures var n := |Chains(co.For(rhss[0]), 0, 0)|;
            && Equations(co, rhss, base) == Reduce(Add(Gen(co.For(rhss[0]), 0, 0, base).0, Scale(rhss[0], -1.0)), co.prog)
                                           + Equations(co, rhss[1..], base + n)
            && Inequalities(co, rhss, base) == TemplateVars(base, n) + Inequalities(co, rhss[1..], base + n)
  {}

  lemma NoEquations(co: Core, base: nat)
    requires co.Valid()
    ensures Equations(co, [], base) == [] && Inequalities(co, [], base) == []
  {}
}
