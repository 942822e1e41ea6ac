/** Counterexample-guided solving of `exists xs. forall ys. phi` with two quantifier-free solvers. */
module Efsmt {
  import opened Basics

  datatype Term = Num(r: real) | Var(x: string) | Plus(a: Term, b: Term) | Times(a: Term, b: Term)

  datatype Formula =
    | BoolVal(b: bool)
    | Less(s: Term, t: Term)
    | Equal(s: Term, t: Term)
    | Not(f: Formula)
    | And(f: Formula, g: Formula)

  type Env = string -> real

  /** Values of finitely many variables. */
  type Values = map<string, real>

  // ---------------------------------------------------------------- meaning and substitution

  function TermEval(t: Term, e: Env): real {
    match t
    case Num(r) => r
    case Var(x) => e(x)
    case Plus(a, b) => TermEval(a, e) + TermEval(b, e)
    case Times(a, b) => TermEval(a, e) * TermEval(b, e)
  }

  predicate Eval(f: Formula, e: Env) {
    match f
    case BoolVal(b) => b
    case Less(s, t) => TermEval(s, e) < TermEval(t, e)
    case Equal(s, t) => TermEval(s, e) == TermEval(t, e)
    case Not(g) => !Eval(g, e)
    case And(g, h) => Eval(g, e) && Eval(h, e)
  }

  function TermVars(t: Term): set<string> {
    match t
    case Num(_) => {}
    case Var(x) => {x}
    case Plus(a, b) => TermVars(a) + TermVars(b)
    case Times(a, b) => TermVars(a) + TermVars(b)
  }

  function Vars(f: Formula): set<string> {
    match f
    case BoolVal(_) => {}
    case Less(s, t) => TermVars(s) + TermVars(t)
    case Equal(s, t) => TermVars(s) + TermVars(t)
    case Not(g) => Vars(g)
    case And(g, h) => Vars(g) + Vars(h)
  }

  function TermSubst(t: Term, sub: Values): Term {
    match t
    case Num(_) => t
    case Var(x) => if x in sub then Num(sub[x]) else t
    case Plus(a, b) => Plus(TermSubst(a, sub), TermSubst(b, sub))
    case Times(a, b) => Times(TermSubst(a, sub), TermSubst(b, sub))
  }

  function Subst(f: Formula, sub: Values): Formula {
    match f
    case BoolVal(_) => f
    case Less(s, t) => Less(TermSubst(s, sub), TermSubst(t, sub))
    case Equal(s, t) => Equal(TermSubst(s, sub), TermSubst(t, sub))
    case Not(g) => Not(Subst(g, sub))
    case And(g, h) => And(Subst(g, sub), Subst(h, sub))
  }

  function Override(e: Env, sub: Values): Env {
    (x: string) => if x in sub then sub[x] else e(x)
  }

  lemma TermSubstEval(t: Term, sub: Values, e: Env)
    ensures TermEval(TermSubst(t, sub), e) == TermEval(t, Override(e, sub))
  {}

  /** Substituting values is evaluating with them. */
  lemma {:induction false} SubstEval(f: Formula, sub: Values, e: Env)
    ensures Eval(Subst(f, sub), e) == Eval(f, Override(e, sub))
  {
    match f
    case BoolVal(_) =>
    case Less(s, t) => TermSubstEval(s, sub, e); TermSubstEval(t, sub, e);
    case Equal(s, t) => TermSubstEval(s, sub, e); TermSubstEval(t, sub, e);
    case Not(g) => SubstEval(g, sub, e);
    case And(g, h) => SubstEval(g, sub, e); SubstEval(h, sub, e);
  }

  lemma TermAgree(t: Term, e: Env, f: Env)
    requires forall x :: x in TermVars(t) ==> e(x) == f(x)
    ensures TermEval(t, e) == TermEval(t, f)
  {}

  lemma {:induction false} EvalAgree(p: Formula, e: Env, f: Env)
    requires forall x :: x in Vars(p) ==> e(x) == f(x)
    ensures Eval(p, e) == Eval(p, f)
  {
    match p
    case BoolVal(_) =>
    case Less(s, t) => TermAgree(s, e, f); TermAgree(t, e, f);
    case Equal(s, t) => TermAgree(s, e, f); TermAgree(t, e, f);
    case Not(g) => EvalAgree(g, e, f);
    case And(g, h) => EvalAgree(g, e, f); EvalAgree(h, e, f);
  }

  // ---------------------------------------------------------------- solvers

  datatype Answer = Sat(model: Values) | Unsat | Unknown

  /** A model's values, completed with a default for variables it leaves open. */
  function Complete(m: Values): Env {
    (x: string) => if x in m then m[x] else 0.0
  }

  /** Model values of the given variables, with completion. */
  function ValuesOf(m: Values, xs: set<string>): Values {
    map x | x in xs :: Complete(m)(x)
  }

  ghost predicate AllHold(fs: seq<Formula>, e: Env) {
    forall f :: f in fs ==> Eval(f, e)
  }

  /** Sat and unsat answers are right; an unknown answer promises nothing. */
  ghost predicate Correct(check: seq<Formula> -> Answer) {
    forall fs :: match check(fs)
                 case Sat(m) => AllHold(fs, Complete(m))
                 case Unsat => forall e: Env :: !AllHold(fs, e)
                 case Unknown => true
  }

  /** An assertion stack with scopes. */
  class Solver {
    var assertions: seq<Formula>
    var scopes: seq<nat>

    ghost predicate Valid()
      reads this
    {
      forall i :: 0 <= i < |scopes| ==> scopes[i] <= |assertions|
    }

    constructor ()
      ensures assertions == [] && scopes == [] && Valid()
    {
      assertions, scopes := [], [];
    }

    method Add(f: Formula)
      requires Valid()
      modifies this
      ensures Valid() && assertions == old(assertions) + [f] && scopes == old(scopes)
    {
      assertions := assertions + [f];
    }

    method Push()
      requires Valid()
      modifies this
      ensures Valid() && assertions == old(assertions) && scopes == old(scopes) + [|assertions|]
    {
      scopes := scopes + [|assertions|];
    }

    method Pop()
      requires Valid() && scopes != [] && forall i :: 0 <= i < |scopes| ==> scopes[i] <= scopes[|scopes| - 1]
      modifies this
      ensures Valid() && scopes == old(scopes)[..|old(scopes)| - 1]
      ensures assertions == old(assertions)[..old(scopes)[|old(scopes)| - 1]]
    {
      assertions := assertions[..scopes[|scopes| - 1]];
      scopes := scopes[..|scopes| - 1];
    }
  }

  // ---------------------------------------------------------------- one round

  /** The problem: which variables are universal, the matrix, and the solver's answers. */
  datatype Problem = Problem(ys: set<string>, phi: Formula, check: seq<Formula> -> Answer) {
    function Xs(): set<string> {
      Vars(phi) - ys
    }
  }

  /** A candidate for the xs and the counterexample found for it. */
  datatype Round = Round(xs: Values, ys: Values)

  datatype Outcome =
    | Candidate(status: Answer, xs: Values)  // the verification of this candidate was not sat
    | NoCandidate(status: Answer)            // the search for a candidate was not sat
    | OutOfLoops

  datatype Step = Continue(round: Round) | Stop(outcome: Outcome)

  /** What the candidate solver has been told after the given rounds. */
  function Told(pb: Problem, hist: seq<Round>): seq<Formula> {
    [BoolVal(true)] + seq(|hist|, i requires 0 <= i < |hist| => Subst(pb.phi, hist[i].ys))
  }

  function Next(pb: Problem, hist: seq<Round>): Step {
    match pb.check(Told(pb, hist))
    case Sat(em) =>
      var xs := ValuesOf(em, pb.Xs());
      (match pb.check([Not(Subst(pb.phi, xs))])
       case Sat(fm) => Continue(Round(xs, ValuesOf(fm, pb.ys)))
       case other => Stop(Candidate(other, xs)))
    case other => Stop(NoCandidate(other))
  }

  /** The rounds of a run so far. */
  ghost predicate History(pb: Problem, hist: seq<Round>) {
    forall i :: 0 <= i < |hist| ==> Next(pb, hist[..i]) == Continue(hist[i])
  }

  /** The loop ends with `r` after the given rounds, having begun `loops` of them. */
  ghost predicate EndsWith(pb: Problem, hist: seq<Round>, r: Outcome, loops: nat) {
    if r.OutOfLoops? then |hist| == loops else |hist| + 1 == loops && Next(pb, hist) == Stop(r)
  }

  /** The matrix at the given values of xs and ys. */
  ghost predicate Holds(pb: Problem, xs: Values, ys: Values) {
    Eval(pb.phi, Override(Complete(xs), ys))
  }

  // ---------------------------------------------------------------- soundness

  /** Assigning `xs` makes the matrix true for all values of the other variables. */
  ghost predicate Solution(pb: Problem, xs: Values) {
    forall e: Env :: (forall x :: x in pb.Xs() ==> x in xs && e(x) == xs[x]) ==> Eval(pb.phi, e)
  }

  /** There is no solution. */
  ghost predicate Unsolvable(pb: Problem) {
    forall xs: Values :: xs.Keys == pb.Xs() ==> !Solution(pb, xs)
  }

  lemma VerifiedCandidate(pb: Problem, hist: seq<Round>, xs: Values)
    requires Correct(pb.check) && Next(pb, hist) == Stop(Candidate(Unsat, xs))
    ensures Solution(pb, xs)
  {
    forall e: Env | forall x :: x in pb.Xs() ==> x in xs && e(x) == xs[x] ensures Eval(pb.phi, e) {
      var f := Not(Subst(pb.phi, xs));
      assert f in [f];
      assert !AllHold([f], e);
      assert !Eval(f, e);
      SubstEval(pb.phi, xs, e);
      EvalAgree(pb.phi, Override(e, xs), e);
    }
  }

  /** The candidate solver only knows consequences of "for all ys": a solution satisfies them all. */
  lemma ToldIsImplied(pb: Problem, hist: seq<Round>, xs: Values, e: Env)
    requires Solution(pb, xs) && xs.Keys == pb.Xs() && forall i :: 0 <= i < |hist| ==> hist[i].ys.Keys == pb.ys
    requires forall x :: x in xs ==> e(x) == xs[x]
    ensures AllHold(Told(pb, hist), e)
  {
    forall f | f in Told(pb, hist) ensures Eval(f, e) {
      if f != BoolVal(true) {
        var i :| 0 <= i < |hist| && f == Subst(pb.phi, hist[i].ys);
        SubstEval(pb.phi, hist[i].ys, e);
      }
    }
  }

  lemma HistoryKeys(pb: Problem, hist: seq<Round>, i: nat)
    requires History(pb, hist) && i < |hist|
    ensures hist[i].xs.Keys == pb.Xs() && hist[i].ys.Keys == pb.ys
  {
    assert Next(pb, hist[..i]) == Continue(hist[i]);
  }

  lemma NoCandidateMeansUnsolvable(pb: Problem, hist: seq<Round>)
    requires Correct(pb.check) && History(pb, hist) && Next(pb, hist) == Stop(NoCandidate(Unsat))
    ensures Unsolvable(pb)
  {
    forall xs: Values | xs.Keys == pb.Xs() ensures !Solution(pb, xs) {
      if Solution(pb, xs) {
        forall i | 0 <= i < |hist| ensures hist[i].ys.Keys == pb.ys { HistoryKeys(pb, hist, i); }
        ToldIsImplied(pb, hist, xs, Complete(xs));
        assert false;
      }
    }
  }

  // ---------------------------------------------------------------- progress

  /** The counterexample of a round refutes its candidate. */
  lemma RoundRefutes(pb: Problem, hist: seq<Round>, i: nat)
    requires Correct(pb.check) && History(pb, hist) && i < |hist|
    ensures !Holds(pb, hist[i].xs, hist[i].ys)
  {
    hide Subst, Eval, Vars, Told;
    assert Next(pb, hist[..i]) == Continue(hist[i]);
    var f := Not(Subst(pb.phi, hist[i].xs));
    assert f in [f];
    var fm := pb.check([f]).model;
    NotEval(Subst(pb.phi, hist[i].xs), Complete(fm));
    SubstEval(pb.phi, hist[i].xs, Complete(fm));
    EvalAgree(pb.phi, Override(Complete(fm), hist[i].xs), Override(Complete(hist[i].xs), hist[i].ys));
  }

  lemma NotEval(f: Formula, e: Env)
    ensures Eval(Not(f), e) <==> !Eval(f, e)
  {}

  /** A later candidate survives every earlier counterexample. */
  lemma LaterSurvives(pb: Problem, hist: seq<Round>, i: nat, k: nat)
    requires Correct(pb.check) && History(pb, hist) && i < k < |hist|
    ensures Holds(pb, hist[k].xs, hist[i].ys)
  {
    hide Subst, Eval, Vars;
    assert Next(pb, hist[..k]) == Continue(hist[k]);
    var told := Told(pb, hist[..k]);
    var em := pb.check(told).model;
    assert told[i + 1] == Subst(pb.phi, hist[i].ys) && told[i + 1] in told;
    SubstEval(pb.phi, hist[i].ys, Complete(em));
    HistoryKeys(pb, hist, i);
    EvalAgree(pb.phi, Override(Complete(em), hist[i].ys), Override(Complete(hist[k].xs), hist[i].ys));
  }

  /** No candidate and no counterexample ever repeats. */
  lemma NoRepetition(pb: Problem, hist: seq<Round>, i: nat, k: nat)
    requires Correct(pb.check) && History(pb, hist) && i < k < |hist|
    ensures hist[i].xs != hist[k].xs && hist[i].ys != hist[k].ys
  {
    LaterSurvives(pb, hist, i, k);
    RoundRefutes(pb, hist, i);
    RoundRefutes(pb, hist, k);
  }

  ghost function Project<T>(hist: seq<Round>, p: Round -> T): set<T> {
    set i | 0 <= i < |hist| :: p(hist[i])
  }

  lemma {:induction false} ProjectSize<T>(hist: seq<Round>, p: Round -> T)
    requires forall i, k :: 0 <= i < k < |hist| ==> p(hist[i]) != p(hist[k])
    ensures |Project(hist, p)| == |hist|
  {
    if hist != [] {
      var n := |hist| - 1;
      ProjectSize(hist[..n], p);
      assert forall i :: 0 <= i < n ==> hist[..n][i] == hist[i];
      assert Project(hist, p) == Project(hist[..n], p) + {p(hist[n])};
      assert p(hist[n]) !in Project(hist[..n], p);
    }
  }

  /** When the candidates or the counterexamples come from a finite domain, its size bounds the number
      of completed rounds. */
  lemma FiniteDomainBounds(pb: Problem, hist: seq<Round>, dom: set<Values>)
    requires Correct(pb.check) && History(pb, hist)
    requires (forall i :: 0 <= i < |hist| ==> hist[i].xs in dom) || (forall i :: 0 <= i < |hist| ==> hist[i].ys in dom)
    ensures |hist| <= |dom|
  {
    forall i, k | 0 <= i < k < |hist| ensures hist[i].xs != hist[k].xs && hist[i].ys != hist[k].ys {
      NoRepetition(pb, hist, i, k);
    }
    if forall i :: 0 <= i < |hist| ==> hist[i].xs in dom {
      ProjectSize(hist, (r: Round) => r.xs);
      SubsetSize(Project(hist, (r: Round) => r.xs), dom);
    } else {
      ProjectSize(hist, (r: Round) => r.ys);
      SubsetSize(Project(hist, (r: Round) => r.ys), dom);
    }
  }

  // ---------------------------------------------------------------- the loop

  /** Runs the loop. `limit` bounds the completed rounds of a run without `maxloops`, which otherwise
      need not end. A verified candidate solves the problem, an unsat search refutes it, and with
      `maxloops` at most `maxloops + 1` rounds are started. */
  method Solve(pb: Problem, maxloops: Option<int>, ghost limit: nat) returns (r: Outcome, loops: nat)
    requires Correct(pb.check)
    requires maxloops.None? ==> forall hist :: History(pb, hist) ==> |hist| <= limit
    ensures r.Candidate? ==> (r.status.Unsat? ==> Solution(pb, r.xs)) && !r.status.Sat?
    ensures r.NoCandidate? ==> (r.status.Unsat? ==> Unsolvable(pb)) && !r.status.Sat?
    ensures exists hist :: History(pb, hist) && EndsWith(pb, hist, r, loops)
    ensures r.OutOfLoops? ==> maxloops.Some? && loops == if maxloops.value < 0 then 0 else maxloops.value + 1
    ensures maxloops.Some? ==> loops <= if maxloops.value < 0 then 0 else maxloops.value + 1
    ensures maxloops.None? ==> 1 <= loops <= limit + 1
  {
    hide Solution, Unsolvable, Eval, Subst, Correct;
    var E := new Solver();
    var F := new Solver();
    E.Add(BoolVal(true));
    loops := 0;
    ghost var hist: seq<Round> := [];
    while maxloops.None? || loops <= maxloops.value
      invariant E.Valid() && F.Valid() && E.scopes == [] && F.scopes == []
      invariant E.assertions == Told(pb, hist) && F.assertions == []
      invariant History(pb, hist) && loops == |hist|
      invariant maxloops.Some? ==> loops <= if maxloops.value < 0 then 0 else maxloops.value + 1
      decreases if maxloops.Some? then maxloops.value + 1 - loops else limit + 1 - loops
    {
      loops := loops + 1;
      var eres := pb.check(E.assertions);
      if eres.Sat? {
        var xs := ValuesOf(eres.model, pb.Xs());
        F.Push();
        F.Add(Not(Subst(pb.phi, xs)));
        assert F.assertions == [Not(Subst(pb.phi, xs))];
        var fres := pb.check(F.assertions);
        if fres.Sat? {
          var ys := ValuesOf(fres.model, pb.ys);
          E.Add(Subst(pb.phi, ys));
          HistoryGrows(pb, hist, Round(xs, ys));
          hist := hist + [Round(xs, ys)];
        } else {
          if fres.Unsat? { VerifiedCandidate(pb, hist, xs); }
          return Candidate(fres, xs), loops;
        }
        F.Pop();
      } else {
        if eres.Unsat? { NoCandidateMeansUnsolvable(pb, hist); }
        return NoCandidate(eres), loops;
      }
    }
    r := OutOfLoops;
  }

  lemma HistoryGrows(pb: Problem, hist: seq<Round>, round: Round)
    requires History(pb, hist) && Next(pb, hist) == Continue(round)
    ensures History(pb, hist + [round])
    ensures Told(pb, hist + [round]) == Told(pb, hist) + [Subst(pb.phi, round.ys)]
  {
    forall i | 0 <= i < |hist + [round]| ensures Next(pb, (hist + [round])[..i]) == Continue((hist + [round])[i]) {
      assert (hist + [round])[..i] == hist[..i];
      assert hist[..|hist|] == hist;
    }
  }
}
