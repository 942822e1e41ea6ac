/** When does asserting that every coefficient returned by `Reduce` is zero say exactly that the
    polynomial vanishes at every value of the program variables? */
module Reduction {
  import opened Multinomial
  import opened PolynomialShape

  /** `e` and `f` give every template the same value. */
  ghost predicate SameTemplates(prog: set<nat>, e: Env, f: Env) {
    forall i: nat :: i !in prog ==> e(i) == f(i)
  }

  /** Among the given symbols, every program variable was created before every template. */
  ghost predicate Ordered(syms: iset<nat>, prog: set<nat>) {
    forall i: nat, j: nat :: i in syms && j in syms && i in prog && j < i ==> j in prog
  }

  /** The equations `c == 0` hold at `e`. */
  ghost predicate ZeroAt(cs: seq<Poly>, e: Env) {
    forall c :: c in cs ==> Eval(c, e) == 0.0
  }

  /** The equations the solver receives for `p` hold at `e`. */
  ghost predicate CoefficientsZero(p: Poly, prog: set<nat>, e: Env) {
    ZeroAt(Reduce(p, prog), e)
  }

  /** The property those constraints stand for: `p` is zero whatever the program variables are. */
  ghost predicate VanishesFor(p: Poly, prog: set<nat>, e: Env) {
    forall f: Env :: SameTemplates(prog, e, f) ==> Eval(p, f) == 0.0
  }

  // ---------------------------------------------------------------- frame

  /** A proper polynomial depends only on symbols from `lo` on. */
  lemma {:induction false} EvalAgree(p: Poly, lo: nat, e: Env, f: Env)
    requires Proper(p, lo) && forall i: nat :: lo <= i ==> e(i) == f(i)
    ensures Eval(p, e) == Eval(p, f)
    decreases p
  {
    if p.Node? {
      EvalTermsAgree(p.terms, p.id + 1, 0, e(p.id), e, f);
    }
  }

  lemma {:induction false} EvalTermsAgree(ts: Terms, lo: nat, m: nat, x: real, e: Env, f: Env)
    requires ProperTerms(ts, lo, m) && forall i: nat :: lo <= i ==> e(i) == f(i)
    ensures EvalTerms(ts, x, e) == EvalTerms(ts, x, f)
    decreases ts
  {
    if ts.Cons? {
      EvalAgree(ts.coeff, lo, e, f);
      EvalTermsAgree(ts.tail, lo, ts.exp + 1, x, e, f);
    }
  }

  /** A polynomial depends only on symbols below `hi`. */
  lemma {:induction false} EvalBelow(p: Poly, hi: nat, e: Env, f: Env)
    requires Below(p, hi) && forall i: nat :: i < hi ==> e(i) == f(i)
    ensures Eval(p, e) == Eval(p, f)
    decreases p
  {
    if p.Node? {
      EvalTermsBelow(p.terms, hi, e(p.id), e, f);
    }
  }

  lemma {:induction false} EvalTermsBelow(ts: Terms, hi: nat, x: real, e: Env, f: Env)
    requires BelowTerms(ts, hi) && forall i: nat :: i < hi ==> e(i) == f(i)
    ensures EvalTerms(ts, x, e) == EvalTerms(ts, x, f)
    decreases ts
  {
    if ts.Cons? {
      EvalBelow(ts.coeff, hi, e, f);
      EvalTermsBelow(ts.tail, hi, x, e, f);
    }
  }

  // ---------------------------------------------------------------- zero coefficients suffice

  lemma {:induction false} ReduceSound(p: Poly, prog: set<nat>, lo: nat, e: Env, f: Env)
    requires Proper(p, lo) && Ordered(IdsOf(p), prog) && SameTemplates(prog, e, f)
    requires CoefficientsZero(p, prog, e)
    ensures Eval(p, f) == 0.0
    decreases p
  {
    if p.Const? || p.id !in prog {
      assert p in Reduce(p, prog);
      if p.Node? {
        assert IdArr(p)[0] == p.id && p.id in IdsOf(p);
        IdsFrom(p, p.id);
        forall i | i in IdArr(p) ensures e(i) == f(i) { assert i in IdsOf(p); }
      }
      ListedIdsDecide(p, e, f);
    } else {
      forall i: nat | i in IdArrTerms(p.terms) ensures i in IdsOf(p) {}
      ReduceTermsSound(p.terms, prog, p.id + 1, 0, f(p.id), e, f);
    }
  }

  lemma {:induction false} ReduceTermsSound(ts: Terms, prog: set<nat>, lo: nat, m: nat, x: real, e: Env, f: Env)
    requires ProperTerms(ts, lo, m) && Ordered((iset i: nat | i in IdArrTerms(ts)), prog) && SameTemplates(prog, e, f)
    requires ZeroAt(ReduceTerms(ts, prog), e)
    ensures EvalTerms(ts, x, f) == 0.0
    decreases ts
  {
    if ts.Cons? {
      assert forall c :: c in Reduce(ts.coeff, prog) ==> c in ReduceTerms(ts, prog);
      assert forall c :: c in ReduceTerms(ts.tail, prog) ==> c in ReduceTerms(ts, prog);
      forall i: nat | i in IdArr(ts.coeff) || i in IdArrTerms(ts.tail) ensures i in IdArrTerms(ts) {}
      ReduceSound(ts.coeff, prog, lo, e, f);
      ReduceTermsSound(ts.tail, prog, lo, ts.exp + 1, x, e, f);
      MonoZero(x, ts.exp);
    }
  }

  // ---------------------------------------------------------------- identity of one-variable polynomials

  function Abs(x: real): (r: real)
    ensures 0.0 <= r && (r == x || r == -x)
  {
    if x < 0.0 then -x else x
  }

  ghost function AbsSum(ts: Terms, e: Env): (s: real)
    ensures 0.0 <= s
  {
    match ts
    case Nil => 0.0
    case Cons(_, c, tl) => Abs(Eval(c, e)) + AbsSum(tl, e)
  }

  lemma {:induction false} MonoSign(x: real, k: nat, v: real)
    requires 0.0 < x
    ensures 0.0 <= v ==> 0.0 <= Mono(x, k, v)
    ensures 0.0 < v ==> 0.0 < Mono(x, k, v)
    ensures Abs(Mono(x, k, v)) == Mono(x, k, Abs(v))
  {
    if k != 0 {
      MonoSign(x, k - 1, v);
      MonoNeg(x, k, v);
      MonoNeg(x, k - 1, v);
      MulSign(x, Mono(x, k - 1, v));
    }
  }

  lemma MulSign(x: real, y: real)
    requires 0.0 < x
    ensures 0.0 <= y ==> 0.0 <= x * y
    ensures 0.0 < y ==> 0.0 < x * y
    ensures y < 0.0 ==> x * y < 0.0
  {}

  lemma {:induction false} MonoNeg(x: real, k: nat, v: real)
    ensures Mono(x, k, -v) == -Mono(x, k, v)
  {
    if k != 0 { MonoNeg(x, k - 1, v); }
  }

  lemma {:induction false} MonoShrink(x: real, j: nat, k: nat, v: real)
    requires 0.0 < x <= 1.0 && 0.0 <= v && j <= k
    ensures Mono(x, k, v) <= Mono(x, j, v)
    decreases k
  {
    if j < k {
      MonoShrink(x, j, k - 1, v);
      MonoSign(x, k - 1, v);
      ShrinkStep(x, Mono(x, k - 1, v));
    }
  }

  lemma ShrinkStep(x: real, y: real)
    requires 0.0 < x <= 1.0 && 0.0 <= y
    ensures x * y <= y
  {}

  /** On (0, 1] a sum of terms of degree at least `m` is at most `x^m` times the sum of the absolute
      values of its coefficients. */
  lemma {:induction false} TailBound(ts: Terms, lo: nat, m: nat, x: real, e: Env)
    requires ProperTerms(ts, lo, m) && 0.0 < x <= 1.0
    ensures Abs(EvalTerms(ts, x, e)) <= Mono(x, m, AbsSum(ts, e))
    decreases ts
  {
    if ts.Nil? {
      MonoZero(x, m);
    } else {
      var v, s := Eval(ts.coeff, e), AbsSum(ts.tail, e);
      TailBound(ts.tail, lo, ts.exp + 1, x, e);
      MonoSign(x, ts.exp, v);
      MonoShrink(x, m, ts.exp, Abs(v));
      MonoShrink(x, m, ts.exp + 1, s);
      MonoAdd(x, m, Abs(v), s);
    }
  }

  /** If a polynomial in one variable is zero at every real, its lowest coefficient is zero. */
  lemma LowestZero(ts: Terms, lo: nat, m: nat, e: Env)
    requires ts.Cons? && ProperTerms(ts, lo, m)
    requires forall x: real :: EvalTerms(ts, x, e) == 0.0
    ensures Eval(ts.coeff, e) == 0.0
  {
    var v, s, k := Eval(ts.coeff, e), AbsSum(ts.tail, e), ts.exp;
    if v != 0.0 {
      var a := Abs(v);
      var x := a / (a + s);
      SmallPoint(a, s, x);
      assert EvalTerms(ts, x, e) == Mono(x, k, v) + EvalTerms(ts.tail, x, e) == 0.0;
      TailBound(ts.tail, lo, k + 1, x, e);
      MonoSign(x, k, v);
      MonoInner(x, k, s);
      MonoSub(x, k, a, x * s);
      MonoSign(x, k, a - x * s);
      assert false;
    }
  }

  lemma SmallPoint(a: real, s: real, x: real)
    requires 0.0 < a && 0.0 <= s && x == a / (a + s)
    ensures 0.0 < x <= 1.0 && x * s < a
  {
    assert x * (a + s) == a;
    Distribute(a, s, x);
    MulSign(x, a);
  }

  lemma {:induction false} MonoInner(x: real, k: nat, v: real)
    ensures Mono(x, k + 1, v) == Mono(x, k, x * v)
  {
    if k != 0 { MonoInner(x, k - 1, v); }
  }

  lemma MonoSub(x: real, k: nat, a: real, b: real)
    ensures Mono(x, k, a - b) == Mono(x, k, a) - Mono(x, k, b)
  {
    MonoAdd(x, k, a, -b);
    MonoNeg(x, k, b);
    assert a + -b == a - b;
  }

  ghost predicate AllZero(ts: Terms, e: Env) {
    ts.Cons? ==> Eval(ts.coeff, e) == 0.0 && AllZero(ts.tail, e)
  }

  /** A polynomial in one variable that is zero at every real has only zero coefficients. */
  lemma {:induction false} Identity(ts: Terms, lo: nat, m: nat, e: Env)
    requires ProperTerms(ts, lo, m)
    requires forall x: real :: EvalTerms(ts, x, e) == 0.0
    ensures AllZero(ts, e)
    decreases ts
  {
    if ts.Cons? {
      LowestZero(ts, lo, m, e);
      forall x: real ensures EvalTerms(ts.tail, x, e) == 0.0 {
        MonoZero(x, ts.exp);
        assert EvalTerms(ts, x, e) == 0.0;
      }
      Identity(ts.tail, lo, ts.exp + 1, e);
    }
  }

  // ---------------------------------------------------------------- zero coefficients are necessary

  function Set(e: Env, id: nat, x: real): Env {
    (i: nat) => if i == id then x else e(i)
  }

  /** The coefficients of a program variable vanish wherever the polynomial does. */
  lemma CoefficientsVanish(id: nat, ts: Terms, prog: set<nat>, e: Env, f: Env)
    requires id in prog && ProperTerms(ts, id + 1, 0)
    requires forall g: Env :: SameTemplates(prog, e, g) ==> EvalTerms(ts, g(id), g) == 0.0
    requires SameTemplates(prog, e, f)
    ensures AllZero(ts, f)
  {
    forall x: real ensures EvalTerms(ts, x, f) == 0.0 {
      var g := Set(f, id, x);
      assert SameTemplates(prog, e, g);
      assert EvalTerms(ts, g(id), g) == 0.0;
      EvalTermsAgree(ts, id + 1, 0, x, f, g);
    }
    Identity(ts, id + 1, 0, f);
  }

  lemma {:induction false} ReduceComplete(p: Poly, prog: set<nat>, lo: nat, e: Env)
    requires Proper(p, lo) && VanishesFor(p, prog, e)
    ensures CoefficientsZero(p, prog, e)
    decreases p
  {
    assert SameTemplates(prog, e, e);
    if p.Node? && p.id in prog {
      forall g: Env | SameTemplates(prog, e, g) ensures EvalTerms(p.terms, g(p.id), g) == 0.0 {
        assert Eval(p, g) == 0.0;
      }
      forall f: Env | SameTemplates(prog, e, f) ensures AllZero(p.terms, f) {
        CoefficientsVanish(p.id, p.terms, prog, e, f);
      }
      ReduceTermsComplete(p.terms, prog, p.id + 1, 0, e);
    }
  }

  lemma {:induction false} ReduceTermsComplete(ts: Terms, prog: set<nat>, lo: nat, m: nat, e: Env)
    requires ProperTerms(ts, lo, m)
    requires forall f: Env :: SameTemplates(prog, e, f) ==> AllZero(ts, f)
    ensures ZeroAt(ReduceTerms(ts, prog), e)
    decreases ts
  {
    if ts.Cons? {
      forall f: Env | SameTemplates(prog, e, f) ensures Eval(ts.coeff, f) == 0.0 && AllZero(ts.tail, f) {
        assert AllZero(ts, f);
      }
      ReduceComplete(ts.coeff, prog, lo, e);
      ReduceTermsComplete(ts.tail, prog, lo, ts.exp + 1, e);
    }
  }

  // ---------------------------------------------------------------- main results

  /** With program variables first, the emitted equations hold at a template assignment exactly when
      the polynomial is identically zero in the program variables. */
  lemma ReduceExact(p: Poly, prog: set<nat>, e: Env)
    requires Proper(p, 0) && Ordered(IdsOf(p), prog)
    ensures CoefficientsZero(p, prog, e) <==> VanishesFor(p, prog, e)
  {
    if CoefficientsZero(p, prog, e) {
      forall f: Env | SameTemplates(prog, e, f) ensures Eval(p, f) == 0.0 {
        ReduceSound(p, prog, 0, e, f);
      }
    }
    if VanishesFor(p, prog, e) {
      ReduceComplete(p, prog, 0, e);
    }
  }

  /** The sum of a template `t` and a later program variable `x`. */
  function Mixed(t: nat, x: nat): Poly {
    Add(Var(t), Var(x))
  }

  lemma MixedEval(t: nat, x: nat, e: Env)
    requires t < x
    ensures Proper(Mixed(t, x), t) && Proper(Mixed(t, x), 0) && Mixed(t, x).Node? && Mixed(t, x).id == t
    ensures Eval(Mixed(t, x), e) == e(t) + e(x)
  {
    VarProper(t);
    VarProper(x);
    ProperMono(Var(x), x, t);
    AddProper(Var(t), Var(x), t);
    ProperMono(Mixed(t, x), t, 0);
    AddEval(Var(t), Var(x), t, e);
    VarEval(t, e);
    VarEval(x, e);
  }

  /** A polynomial in symbols from `t` on whose value depends on `t` has `t` outermost. */
  lemma LeadingSymbol(p: Poly, t: nat, e: Env, f: Env)
    requires Proper(p, t) && Eval(p, e) != Eval(p, f) && forall i: nat :: t < i ==> e(i) == f(i)
    ensures p.Node? && p.id == t
  {
    if p.Const? || t < p.id {
      assert Proper(p, t + 1);
      EvalAgree(p, t + 1, e, f);
    }
  }

  /** For a template created before a program variable, `Reduce` hands over the whole polynomial as
      one equation, which can hold by accident of the program variable's value. */
  lemma MixedFails(prog: set<nat>, t: nat, x: nat)
    requires t !in prog && x in prog && t < x
    ensures Proper(Mixed(t, x), 0)
    ensures CoefficientsZero(Mixed(t, x), prog, (i: nat) => 0.0)
    ensures !VanishesFor(Mixed(t, x), prog, (i: nat) => 0.0)
  {
    var zero := (i: nat) => 0.0;
    var one := Set(zero, x, 1.0);
    MixedEval(t, x, zero);
    MixedEval(t, x, one);
    assert SameTemplates(prog, zero, one);
  }

  /** The reduction is sound for every proper polynomial over the given symbols if and only if among them
      the program variables come first. */
  lemma ReduceSoundIffOrdered(syms: iset<nat>, prog: set<nat>)
    ensures (forall p: Poly, e: Env :: Proper(p, 0) && IdsOf(p) <= syms && CoefficientsZero(p, prog, e) ==> VanishesFor(p, prog, e))
       <==> Ordered(syms, prog)
  {
    hide IdsOf, CoefficientsZero, VanishesFor;
    if Ordered(syms, prog) {
      forall p: Poly, e: Env | Proper(p, 0) && IdsOf(p) <= syms && CoefficientsZero(p, prog, e) ensures VanishesFor(p, prog, e) {
        ReduceExact(p, prog, e);
      }
    } else {
      var x: nat, t: nat :| x in syms && t in syms && x in prog && t < x && t !in prog;
      MixedFails(prog, t, x);
      MixedIds(t, x);
    }
  }

  lemma MixedIds(t: nat, x: nat)
    ensures IdsOf(Mixed(t, x)) <= iset{t, x}
  {
    VarOver(t, iset{t, x}, 1);
    VarOver(x, iset{t, x}, 1);
    AddOver(Var(t), Var(x), iset{t, x}, 1);
    OverIds(Mixed(t, x), iset{t, x}, 1);
  }
}
