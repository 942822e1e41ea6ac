/** Polynomials as the Handelman solver stores them: a constant, or a node for one symbol that maps
    each exponent of the symbol to a coefficient polynomial in later symbols.

    A symbol is its numeric id. Program variables are the ids in a set `prog`; every other id is a
    template. Coefficients are exact reals and exponents are unbounded naturals. */
module Multinomial {

  datatype Poly = Const(c: real) | Node(id: nat, terms: Terms)

  /** The exponent-to-coefficient map of a node, in increasing order of exponents. */
  datatype Terms = Nil | Cons(exp: nat, coeff: Poly, tail: Terms)

  /** Values of all symbols, by id. */
  type Env = nat -> real

  // ---------------------------------------------------------------- meaning

  /** The monomial `v * x^k`. */
  function Mono(x: real, k: nat, v: real): real {
    if k == 0 then v else x * Mono(x, k - 1, v)
  }

  function Eval(p: Poly, e: Env): real {
    match p
    case Const(c) => c
    case Node(id, ts) => EvalTerms(ts, e(id), e)
  }

  function EvalTerms(ts: Terms, x: real, e: Env): real {
    match ts
    case Nil => 0.0
    case Cons(k, c, tl) => Mono(x, k, Eval(c, e)) + EvalTerms(tl, x, e)
  }

  /** Symbols strictly increase inwards from `lo`, exponents strictly increase, and every node has a
      coefficient for exponent 0. */
  ghost predicate Proper(p: Poly, lo: nat) {
    match p
    case Const(_) => true
    case Node(id, ts) => lo <= id && ts.Cons? && ts.exp == 0 && ProperTerms(ts, id + 1, 0)
  }

  ghost predicate ProperTerms(ts: Terms, lo: nat, minExp: nat) {
    match ts
    case Nil => true
    case Cons(k, c, tl) => minExp <= k && Proper(c, lo) && ProperTerms(tl, lo, k + 1)
  }

  /** All symbols of `p` have ids below `hi`. */
  ghost predicate Below(p: Poly, hi: nat) {
    match p
    case Const(_) => true
    case Node(id, ts) => id < hi && BelowTerms(ts, hi)
  }

  ghost predicate BelowTerms(ts: Terms, hi: nat) {
    match ts
    case Nil => true
    case Cons(_, c, tl) => Below(c, hi) && BelowTerms(tl, hi)
  }

  // ---------------------------------------------------------------- ring operations

  ghost function Size(p: Poly): nat {
    match p
    case Const(_) => 0
    case Node(_, ts) => 1 + SizeTerms(ts)
  }

  ghost function SizeTerms(ts: Terms): nat {
    match ts
    case Nil => 0
    case Cons(_, c, tl) => 1 + Size(c) + SizeTerms(tl)
  }

  predicate IsZero(p: Poly) {
    p.Const? && p.c == 0.0
  }

  function DropZeros(ts: Terms): Terms {
    match ts
    case Nil => Nil
    case Cons(k, c, tl) => if IsZero(c) then DropZeros(tl) else Cons(k, c, DropZeros(tl))
  }

  /** Erases zero coefficients, turns an empty node into the constant zero, and otherwise restores
      a coefficient for exponent 0. */
  function Simplify(id: nat, ts: Terms): Poly {
    var kept := DropZeros(ts);
    if kept.Nil? then Const(0.0)
    else if kept.exp == 0 then Node(id, kept)
    else Node(id, Cons(0, Const(0.0), kept))
  }

  function AddConst(p: Poly, c: real): Poly {
    match p
    case Const(d) => Const(d + c)
    case Node(id, ts) => Simplify(id, AddConstTerms(ts, c))
  }

  /** The branch for an operand that may be overwritten: it changes only the coefficient for exponent 0. */
  function AddConstInPlace(p: Poly, c: real): Poly {
    match p
    case Const(d) => Const(d + c)
    case Node(id, ts) =>
      if ts.Cons? && ts.exp == 0 then WithZero(id, AddConstInPlace(ts.coeff, c), ts.tail) else WithZero(id, Const(0.0 + c), ts)
  }

  /** A node with the given coefficient for exponent 0, unless nothing is left of it. */
  function WithZero(id: nat, zero: Poly, rest: Terms): Poly {
    if rest.Nil? && IsZero(zero) then Const(0.0) else Node(id, Cons(0, zero, rest))
  }

  function AddConstTerms(ts: Terms, c: real): Terms {
    match ts
    case Nil => Nil
    case Cons(k, p, tl) =>
      if k == 0 then Cons(k, AddConst(p, c), AddConstTerms(tl, c)) else Cons(k, p, AddConstTerms(tl, c))
  }

  function Add(p: Poly, q: Poly): Poly
    decreases Size(p) + Size(q)
  {
    if p.Const? then AddConst(q, p.c)
    else if q.Const? then AddConst(p, q.c)
    else if p.id > q.id then Node(q.id, AddAtZero(q.terms, p))
    else if p.id < q.id then Node(p.id, AddAtZero(p.terms, q))
    else Simplify(p.id, MergeTerms(p.terms, q.terms))
  }

  /** Adds `q`, whose symbols all come later, to the coefficient for exponent 0. */
  function AddAtZero(ts: Terms, q: Poly): Terms
    decreases SizeTerms(ts) + Size(q)
  {
    match ts
    case Nil => Nil
    case Cons(k, c, tl) => Cons(k, if k == 0 then Add(c, q) else c, AddAtZero(tl, q))
  }

  function MergeTerms(ts: Terms, us: Terms): Terms
    decreases SizeTerms(ts) + SizeTerms(us)
  {
    if ts.Nil? then us
    else if us.Nil? then ts
    else if ts.exp < us.exp then Cons(ts.exp, ts.coeff, MergeTerms(ts.tail, us))
    else if us.exp < ts.exp then Cons(us.exp, us.coeff, MergeTerms(ts, us.tail))
    else Cons(ts.exp, Add(ts.coeff, us.coeff), MergeTerms(ts.tail, us.tail))
  }

  function Scale(p: Poly, c: real): Poly {
    match p
    case Const(d) => Const(d * c)
    case Node(id, ts) => Simplify(id, ScaleTerms(ts, c))
  }

  function ScaleTerms(ts: Terms, c: real): Terms {
    match ts
    case Nil => Nil
    case Cons(k, p, tl) => Cons(k, Scale(p, c), ScaleTerms(tl, c))
  }

  function Mul(p: Poly, q: Poly): Poly
    decreases Size(p) + Size(q), 1, 0
  {
    if p.Const? then Scale(q, p.c)
    else if q.Const? then Scale(p, q.c)
    else if p.id > q.id then Simplify(q.id, MulEach(q.terms, p))
    else if p.id < q.id then Simplify(p.id, MulEach(p.terms, q))
    else Simplify(p.id, MulTerms(p.terms, q.terms, Nil))
  }

  function MulEach(ts: Terms, q: Poly): Terms
    decreases SizeTerms(ts) + Size(q), 1, 0
  {
    match ts
    case Nil => Nil
    case Cons(k, c, tl) => Cons(k, Mul(c, q), MulEach(tl, q))
  }

  /** The double loop over both exponent maps, accumulating into `acc`. */
  function MulTerms(ts: Terms, us: Terms, acc: Terms): Terms
    decreases SizeTerms(ts) + SizeTerms(us), 1, 0
  {
    match ts
    case Nil => acc
    case Cons(k, c, tl) => MulTerms(tl, us, MulRow(k, c, us, acc))
  }

  function MulRow(k: nat, c: Poly, us: Terms, acc: Terms): Terms
    decreases Size(c) + SizeTerms(us), 1, 0
  {
    match us
    case Nil => acc
    case Cons(m, d, tl) => MulRow(k, c, tl, Accumulate(acc, k + m, Mul(c, d)))
  }

  /** Adds `c` to the coefficient for exponent `k`, creating it if it is missing. */
  function Accumulate(ts: Terms, k: nat, c: Poly): Terms {
    match ts
    case Nil => Cons(k, c, Nil)
    case Cons(m, d, tl) =>
      if k < m then Cons(k, c, ts)
      else if k == m then Cons(m, Add(d, c), tl)
      else Cons(m, d, Accumulate(tl, k, c))
  }

  /** The polynomial of a single symbol. */
  function Var(id: nat): Poly {
    Node(id, Cons(0, Const(0.0), Cons(1, Const(1.0), Nil)))
  }

  // ---------------------------------------------------------------- queries

  /** Degree of `p`. With `countTemplates` false a polynomial whose outermost symbol is a template
      has degree 0, but coefficients below the outermost symbol count their templates either way. */
  function Degree(p: Poly, countTemplates: bool, prog: set<nat>): nat {
    match p
    case Const(_) => 0
    case Node(id, ts) => if !countTemplates && id !in prog then 0 else DegreeTerms(ts, prog)
  }

  function DegreeTerms(ts: Terms, prog: set<nat>): nat {
    match ts
    case Nil => 0
    case Cons(k, c, tl) =>
      var d := k + Degree(c, true, prog);
      var rest := DegreeTerms(tl, prog);
      if d < rest then rest else d
  }

  /** The coefficients of `p` as a polynomial in the program variables: descends through program
      symbols and stops at the first constant or template. */
  function Reduce(p: Poly, prog: set<nat>): seq<Poly> {
    if p.Const? || p.id !in prog then [p] else ReduceTerms(p.terms, prog)
  }

  function ReduceTerms(ts: Terms, prog: set<nat>): seq<Poly> {
    match ts
    case Nil => []
    case Cons(_, c, tl) => Reduce(c, prog) + ReduceTerms(tl, prog)
  }

  /** Ids of all nodes, outermost first. */
  function IdArr(p: Poly): seq<nat> {
    match p
    case Const(_) => []
    case Node(id, ts) => [id] + IdArrTerms(ts)
  }

  function IdArrTerms(ts: Terms): seq<nat> {
    match ts
    case Nil => []
    case Cons(_, c, tl) => IdArr(c) + IdArrTerms(tl)
  }

  /** Does some node of `p` carry one of the given ids? */
  predicate CmpPoly(p: Poly, ids: seq<nat>) {
    match p
    case Const(_) => false
    case Node(id, ts) => id in ids || CmpTerms(ts, ids)
  }

  predicate CmpTerms(ts: Terms, ids: seq<nat>) {
    match ts
    case Nil => false
    case Cons(_, c, tl) => CmpPoly(c, ids) || CmpTerms(tl, ids)
  }

  // ---------------------------------------------------------------- ring laws

  lemma {:induction false} MonoAdd(x: real, k: nat, a: real, b: real)
    ensures Mono(x, k, a + b) == Mono(x, k, a) + Mono(x, k, b)
  {
    if k != 0 {
      MonoAdd(x, k - 1, a, b);
      Distribute(Mono(x, k - 1, a), Mono(x, k - 1, b), x);
    }
  }

  lemma MonoZero(x: real, k: nat)
    ensures Mono(x, k, 0.0) == 0.0
  {}

  lemma {:induction false} MonoScale(x: real, k: nat, v: real, c: real, prod: real)
    requires prod == v * c
    ensures Mono(x, k, prod) == Mono(x, k, v) * c
  {
    if k != 0 {
      MonoScale(x, k - 1, v, c, prod);
      Assoc(x, Mono(x, k - 1, v), c);
    }
  }

  lemma {:induction false} MonoMul(x: real, k: nat, m: nat, v: real, w: real, prod: real)
    requires prod == v * w
    ensures Mono(x, k + m, prod) == Mono(x, k, v) * Mono(x, m, w)
  {
    if k == 0 {
      MonoScale(x, m, w, v, prod);
    } else {
      MonoMul(x, k - 1, m, v, w, prod);
      Assoc(x, Mono(x, k - 1, v), Mono(x, m, w));
    }
  }

  lemma Assoc(a: real, b: real, c: real)
    ensures a * (b * c) == (a * b) * c
  {}

  lemma Distribute(a: real, b: real, c: real)
    ensures (a + b) * c == a * c + b * c
    ensures c * (a + b) == c * a + c * b
  {}

  lemma SizeCoeff(p: Poly)
    requires p.Node? && p.terms.Cons?
    ensures Size(p.terms.coeff) < Size(p)
  {
    assert SizeTerms(p.terms) == 1 + Size(p.terms.coeff) + SizeTerms(p.terms.tail);
  }

  lemma DropZerosEval(ts: Terms, x: real, e: Env)
    ensures EvalTerms(DropZeros(ts), x, e) == EvalTerms(ts, x, e)
  {
    if ts.Cons? {
      MonoZero(x, ts.exp);
    }
  }

  lemma SimplifyEval(id: nat, ts: Terms, e: Env)
    ensures Eval(Simplify(id, ts), e) == EvalTerms(ts, e(id), e)
  {
    DropZerosEval(ts, e(id), e);
    var kept := DropZeros(ts);
    assert EvalTerms(Cons(0, Const(0.0), kept), e(id), e) == EvalTerms(kept, e(id), e);
  }

  lemma {:induction false} AddConstEval(p: Poly, c: real, lo: nat, e: Env)
    requires Proper(p, lo)
    ensures Eval(AddConst(p, c), e) == Eval(p, e) + c
    decreases p
  {
    match p
    case Const(_) =>
    case Node(id, ts) =>
      SimplifyEval(id, AddConstTerms(ts, c), e);
      AddConstEval(ts.coeff, c, id + 1, e);
      AddConstTail(ts.tail, c, id + 1, 1);
  }

  /** Both branches add the constant, and the result is proper again. */
  lemma {:induction false} AddConstInPlaceEval(p: Poly, c: real, lo: nat, e: Env)
    requires Proper(p, lo)
    ensures Proper(AddConstInPlace(p, c), lo)
    ensures Eval(AddConstInPlace(p, c), e) == Eval(p, e) + c
    ensures Eval(AddConstInPlace(p, c), e) == Eval(AddConst(p, c), e)
    decreases p
  {
    hide AddConst;
    AddConstEval(p, c, lo, e);
    if p.Node? {
      AddConstInPlaceEval(p.terms.coeff, c, p.id + 1, e);
      var zero, x := AddConstInPlace(p.terms.coeff, c), e(p.id);
      assert EvalTerms(Cons(0, zero, p.terms.tail), x, e) == EvalTerms(p.terms, x, e) + c;
    }
  }

  /** Only the coefficient for exponent 0 changes. */
  lemma AddConstTail(ts: Terms, c: real, lo: nat, minExp: nat)
    requires minExp > 0 && ProperTerms(ts, lo, minExp)
    ensures AddConstTerms(ts, c) == ts
  {}

  lemma AddAtZeroTail(ts: Terms, q: Poly, lo: nat, minExp: nat)
    requires minExp > 0 && ProperTerms(ts, lo, minExp)
    ensures AddAtZero(ts, q) == ts
  {}

  /** `Add` denotes addition on every pair of proper polynomials. */
  lemma {:induction false} AddEval(p: Poly, q: Poly, lo: nat, e: Env)
    requires Proper(p, lo) && Proper(q, lo)
    ensures Eval(Add(p, q), e) == Eval(p, e) + Eval(q, e)
    decreases Size(p) + Size(q)
  {
    if p.Const? {
      AddConstEval(q, p.c, lo, e);
    } else if q.Const? {
      AddConstEval(p, q.c, lo, e);
    } else if p.id > q.id {
      SizeCoeff(q);
      AddEval(q.terms.coeff, p, q.id + 1, e);
      AddAtZeroTail(q.terms.tail, p, q.id + 1, 1);
    } else if p.id < q.id {
      SizeCoeff(p);
      AddEval(p.terms.coeff, q, p.id + 1, e);
      AddAtZeroTail(p.terms.tail, q, p.id + 1, 1);
    } else {
      MergeEval(p.terms, q.terms, p.id + 1, 0, 0, e(p.id), e);
      SimplifyEval(p.id, MergeTerms(p.terms, q.terms), e);
    }
  }

  lemma {:induction false} MergeEval(ts: Terms, us: Terms, lo: nat, m: nat, n: nat, x: real, e: Env)
    requires ProperTerms(ts, lo, m) && ProperTerms(us, lo, n)
    ensures EvalTerms(MergeTerms(ts, us), x, e) == EvalTerms(ts, x, e) + EvalTerms(us, x, e)
    decreases SizeTerms(ts) + SizeTerms(us)
  {
    if ts.Nil? || us.Nil? {
    } else if ts.exp < us.exp {
      MergeEval(ts.tail, us, lo, ts.exp + 1, n, x, e);
    } else if us.exp < ts.exp {
      MergeEval(ts, us.tail, lo, m, us.exp + 1, x, e);
    } else {
      AddEval(ts.coeff, us.coeff, lo, e);
      MergeEval(ts.tail, us.tail, lo, ts.exp + 1, us.exp + 1, x, e);
      MonoAdd(x, ts.exp, Eval(ts.coeff, e), Eval(us.coeff, e));
    }
  }

  lemma {:induction false} ScaleEval(p: Poly, c: real, e: Env)
    ensures Eval(Scale(p, c), e) == Eval(p, e) * c
    decreases p
  {
    if p.Node? {
      ScaleTermsEval(p.terms, c, e(p.id), e);
      SimplifyEval(p.id, ScaleTerms(p.terms, c), e);
    }
  }

  lemma {:induction false} ScaleTermsEval(ts: Terms, c: real, x: real, e: Env)
    ensures EvalTerms(ScaleTerms(ts, c), x, e) == EvalTerms(ts, x, e) * c
    decreases ts
  {
    if ts.Cons? {
      ScaleEval(ts.coeff, c, e);
      ScaleTermsEval(ts.tail, c, x, e);
      MonoScale(x, ts.exp, Eval(ts.coeff, e), c, Eval(Scale(ts.coeff, c), e));
      Distribute(Mono(x, ts.exp, Eval(ts.coeff, e)), EvalTerms(ts.tail, x, e), c);
    }
  }

  /** `Mul` denotes multiplication on every pair of proper polynomials. */
  lemma {:induction false} MulEval(p: Poly, q: Poly, lo: nat, e: Env)
    requires Proper(p, lo) && Proper(q, lo)
    ensures Eval(Mul(p, q), e) == Eval(p, e) * Eval(q, e)
    decreases Size(p) + Size(q), 1, 0
  {
    hide Simplify, Scale, MulEach, MulTerms, EvalTerms;
    if p.Const? {
      ScaleEval(q, p.c, e);
    } else if q.Const? {
      ScaleEval(p, q.c, e);
    } else if p.id > q.id {
      MulEachEval(q.terms, p, q.id + 1, 0, e(q.id), e);
      SimplifyEval(q.id, MulEach(q.terms, p), e);
    } else if p.id < q.id {
      MulEachEval(p.terms, q, p.id + 1, 0, e(p.id), e);
      SimplifyEval(p.id, MulEach(p.terms, q), e);
    } else {
      MulTermsEval(p.terms, q.terms, Nil, p.id + 1, 0, e(p.id), e);
      NoTermsEval(e(p.id), e);
      assert Eval(p, e) == EvalTerms(p.terms, e(p.id), e) && Eval(q, e) == EvalTerms(q.terms, e(p.id), e);
      SimplifyEval(p.id, MulTerms(p.terms, q.terms, Nil), e);
    }
  }

  lemma NoTermsEval(x: real, e: Env)
    ensures EvalTerms(Nil, x, e) == 0.0
  {}

  lemma {:induction false} MulEachEval(ts: Terms, q: Poly, lo: nat, m: nat, x: real, e: Env)
    requires ProperTerms(ts, lo, m) && Proper(q, lo)
    ensures EvalTerms(MulEach(ts, q), x, e) == EvalTerms(ts, x, e) * Eval(q, e)
    decreases SizeTerms(ts) + Size(q), 1, 0
  {
    hide Mono, Eval, Mul, Proper;
    if ts.Cons? {
      MulEval(ts.coeff, q, lo, e);
      MulEachEval(ts.tail, q, lo, ts.exp + 1, x, e);
      MonoScale(x, ts.exp, Eval(ts.coeff, e), Eval(q, e), Eval(Mul(ts.coeff, q), e));
      Distribute(Mono(x, ts.exp, Eval(ts.coeff, e)), EvalTerms(ts.tail, x, e), Eval(q, e));
    }
  }

  lemma {:induction false} MulTermsEval(ts: Terms, us: Terms, acc: Terms, lo: nat, m: nat, x: real, e: Env)
    requires ProperTerms(ts, lo, m) && ProperTerms(us, lo, 0) && ProperTerms(acc, lo, 0)
    ensures EvalTerms(MulTerms(ts, us, acc), x, e) == EvalTerms(acc, x, e) + EvalTerms(ts, x, e) * EvalTerms(us, x, e)
    decreases SizeTerms(ts) + SizeTerms(us), 1, 0
  {
    hide Mono, Eval, MulRow, Proper;
    if ts.Cons? {
      MulRowProper(ts.exp, ts.coeff, us, acc, lo, 0);
      MulRowEval(ts.exp, ts.coeff, us, acc, lo, 0, x, e);
      MulTermsEval(ts.tail, us, MulRow(ts.exp, ts.coeff, us, acc), lo, ts.exp + 1, x, e);
      Distribute(Mono(x, ts.exp, Eval(ts.coeff, e)), EvalTerms(ts.tail, x, e), EvalTerms(us, x, e));
    }
  }

  lemma {:induction false} MulRowEval(k: nat, c: Poly, us: Terms, acc: Terms, lo: nat, m: nat, x: real, e: Env)
    requires Proper(c, lo) && ProperTerms(us, lo, m) && ProperTerms(acc, lo, 0)
    ensures EvalTerms(MulRow(k, c, us, acc), x, e)
         == EvalTerms(acc, x, e) + Mono(x, k, Eval(c, e)) * EvalTerms(us, x, e)
    decreases Size(c) + SizeTerms(us), 1, 1
  {
    MulRowSum(k, c, us, acc, lo, m, x, e);
    RowSumEval(k, c, us, lo, m, x, e);
  }

  /** What one row of the double loop adds, product by product. */
  ghost function RowSum(k: nat, c: Poly, us: Terms, x: real, e: Env): real {
    match us
    case Nil => 0.0
    case Cons(m, d, tl) => Mono(x, k + m, Eval(Mul(c, d), e)) + RowSum(k, c, tl, x, e)
  }

  lemma {:induction false} MulRowSum(k: nat, c: Poly, us: Terms, acc: Terms, lo: nat, m: nat, x: real, e: Env)
    requires Proper(c, lo) && ProperTerms(us, lo, m) && ProperTerms(acc, lo, 0)
    ensures EvalTerms(MulRow(k, c, us, acc), x, e) == EvalTerms(acc, x, e) + RowSum(k, c, us, x, e)
    decreases us
  {
    if us.Cons? {
      var prod := Mul(c, us.coeff);
      MulProper(c, us.coeff, lo);
      AccumulateProper(acc, k + us.exp, prod, lo, 0);
      AccumulateEval(acc, k + us.exp, prod, lo, 0, x, e);
      MulRowSum(k, c, us.tail, Accumulate(acc, k + us.exp, prod), lo, us.exp + 1, x, e);
    }
  }

  lemma {:induction false} RowSumEval(k: nat, c: Poly, us: Terms, lo: nat, m: nat, x: real, e: Env)
    requires Proper(c, lo) && ProperTerms(us, lo, m)
    ensures RowSum(k, c, us, x, e) == Mono(x, k, Eval(c, e)) * EvalTerms(us, x, e)
    decreases Size(c) + SizeTerms(us), 1, 0
  {
    if us.Cons? {
      RowSumEval(k, c, us.tail, lo, us.exp + 1, x, e);
      RowHead(k, c, us.exp, us.coeff, lo, x, e, EvalTerms(us.tail, x, e), EvalTerms(us, x, e));
    }
  }

  lemma RowHead(k: nat, c: Poly, m: nat, d: Poly, lo: nat, x: real, e: Env, rest: real, all: real)
    requires Proper(c, lo) && Proper(d, lo)
    requires all == Mono(x, m, Eval(d, e)) + rest
    ensures Mono(x, k + m, Eval(Mul(c, d), e)) + Mono(x, k, Eval(c, e)) * rest == Mono(x, k, Eval(c, e)) * all
    decreases Size(c) + Size(d), 2, 0
  {
    MulEval(c, d, lo, e);
    RowStep(x, k, m, Eval(c, e), Eval(d, e), Eval(Mul(c, d), e), rest, all);
  }

  lemma RowStep(x: real, k: nat, m: nat, c: real, d: real, prod: real, rest: real, all: real)
    requires prod == c * d && all == Mono(x, m, d) + rest
    ensures Mono(x, k + m, prod) + Mono(x, k, c) * rest == Mono(x, k, c) * all
  {
    MonoMul(x, k, m, c, d, prod);
    Distribute(Mono(x, m, d), rest, Mono(x, k, c));
  }

  lemma {:induction false} AccumulateEval(ts: Terms, k: nat, c: Poly, lo: nat, m: nat, x: real, e: Env)
    requires ProperTerms(ts, lo, m) && Proper(c, lo)
    ensures EvalTerms(Accumulate(ts, k, c), x, e) == EvalTerms(ts, x, e) + Mono(x, k, Eval(c, e))
    decreases ts
  {
    if ts.Cons? {
      if k == ts.exp {
        AddEval(ts.coeff, c, lo, e);
        MonoAdd(x, k, Eval(ts.coeff, e), Eval(c, e));
      } else if k > ts.exp {
        AccumulateEval(ts.tail, k, c, lo, ts.exp + 1, x, e);
      }
    }
  }

  lemma VarEval(id: nat, e: Env)
    ensures Eval(Var(id), e) == e(id)
  {
    var x := e(id);
    assert Mono(x, 1, 1.0) == x * Mono(x, 0, 1.0);
    assert EvalTerms(Cons(1, Const(1.0), Nil), x, e) == Mono(x, 1, 1.0) + EvalTerms(Nil, x, e);
    assert EvalTerms(Var(id).terms, x, e) == 0.0 + EvalTerms(Cons(1, Const(1.0), Nil), x, e);
  }

  lemma VarProper(id: nat)
    ensures Proper(Var(id), 0) && Proper(Var(id), id)
  {
    assert ProperTerms(Nil, id + 1, 2);
    assert ProperTerms(Cons(1, Const(1.0), Nil), id + 1, 1);
  }

  lemma ConstProper(c: real, lo: nat)
    ensures Proper(Const(c), lo)
  {}

  // ---------------------------------------------------------------- properness is preserved

  lemma ProperMono(p: Poly, lo: nat, lo': nat)
    requires Proper(p, lo) && lo' <= lo
    ensures Proper(p, lo')
  {}

  lemma ProperTermsMono(ts: Terms, lo: nat, m: nat, m': nat)
    requires ProperTerms(ts, lo, m) && m' <= m
    ensures ProperTerms(ts, lo, m')
  {}

  lemma {:induction false} DropZerosProper(ts: Terms, lo: nat, m: nat)
    requires ProperTerms(ts, lo, m)
    ensures ProperTerms(DropZeros(ts), lo, m)
    decreases ts
  {
    if ts.Cons? {
      DropZerosProper(ts.tail, lo, ts.exp + 1);
      ProperTermsMono(DropZeros(ts.tail), lo, ts.exp + 1, m);
    }
  }

  lemma SimplifyProper(id: nat, ts: Terms, lo: nat)
    requires lo <= id && ProperTerms(ts, id + 1, 0)
    ensures Proper(Simplify(id, ts), lo)
  {
    DropZerosProper(ts, id + 1, 0);
  }

  lemma {:induction false} AddConstProper(p: Poly, c: real, lo: nat)
    requires Proper(p, lo)
    ensures Proper(AddConst(p, c), lo)
    decreases p
  {
    if p.Node? {
      AddConstProper(p.terms.coeff, c, p.id + 1);
      AddConstTail(p.terms.tail, c, p.id + 1, 1);
      SimplifyProper(p.id, AddConstTerms(p.terms, c), lo);
    }
  }

  /** Sums of proper polynomials are proper. */
  lemma {:induction false} AddProper(p: Poly, q: Poly, lo: nat)
    requires Proper(p, lo) && Proper(q, lo)
    ensures Proper(Add(p, q), lo)
    decreases Size(p) + Size(q)
  {
    if p.Const? {
      AddConstProper(q, p.c, lo);
    } else if q.Const? {
      AddConstProper(p, q.c, lo);
    } else if p.id > q.id {
      SizeCoeff(q);
      AddProper(q.terms.coeff, p, q.id + 1);
      AddAtZeroTail(q.terms.tail, p, q.id + 1, 1);
    } else if p.id < q.id {
      SizeCoeff(p);
      AddProper(p.terms.coeff, q, p.id + 1);
      AddAtZeroTail(p.terms.tail, q, p.id + 1, 1);
    } else {
      MergeProper(p.terms, q.terms, p.id + 1, 0);
      SimplifyProper(p.id, MergeTerms(p.terms, q.terms), lo);
    }
  }

  lemma {:induction false} MergeProper(ts: Terms, us: Terms, lo: nat, m: nat)
    requires ProperTerms(ts, lo, m) && ProperTerms(us, lo, m)
    ensures ProperTerms(MergeTerms(ts, us), lo, m)
    decreases SizeTerms(ts) + SizeTerms(us)
  {
    if ts.Nil? || us.Nil? {
    } else if ts.exp < us.exp {
      MergeProper(ts.tail, us, lo, ts.exp + 1);
    } else if us.exp < ts.exp {
      MergeProper(ts, us.tail, lo, us.exp + 1);
    } else {
      AddProper(ts.coeff, us.coeff, lo);
      MergeProper(ts.tail, us.tail, lo, ts.exp + 1);
    }
  }

  lemma {:induction false} ScaleProper(p: Poly, c: real, lo: nat)
    requires Proper(p, lo)
    ensures Proper(Scale(p, c), lo)
    decreases p
  {
    if p.Node? {
      ScaleTermsProper(p.terms, c, p.id + 1, 0);
      SimplifyProper(p.id, ScaleTerms(p.terms, c), lo);
    }
  }

  lemma {:induction false} ScaleTermsProper(ts: Terms, c: real, lo: nat, m: nat)
    requires ProperTerms(ts, lo, m)
    ensures ProperTerms(ScaleTerms(ts, c), lo, m)
    decreases ts
  {
    if ts.Cons? {
      ScaleProper(ts.coeff, c, lo);
      ScaleTermsProper(ts.tail, c, lo, ts.exp + 1);
    }
  }

  /** Products of proper polynomials are proper. */
  lemma {:induction false} MulProper(p: Poly, q: Poly, lo: nat)
    requires Proper(p, lo) && Proper(q, lo)
    ensures Proper(Mul(p, q), lo)
    decreases Size(p) + Size(q), 0, 0
  {
    if p.Const? {
      ScaleProper(q, p.c, lo);
    } else if q.Const? {
      ScaleProper(p, q.c, lo);
    } else if p.id > q.id {
      MulEachProper(q.terms, p, q.id + 1, 0);
      SimplifyProper(q.id, MulEach(q.terms, p), lo);
    } else if p.id < q.id {
      MulEachProper(p.terms, q, p.id + 1, 0);
      SimplifyProper(p.id, MulEach(p.terms, q), lo);
    } else {
      MulTermsProper(p.terms, q.terms, Nil, p.id + 1, 0);
      SimplifyProper(p.id, MulTerms(p.terms, q.terms, Nil), lo);
    }
  }

  lemma {:induction false} MulEachProper(ts: Terms, q: Poly, lo: nat, m: nat)
    requires ProperTerms(ts, lo, m) && Proper(q, lo)
    ensures ProperTerms(MulEach(ts, q), lo, m)
    decreases SizeTerms(ts) + Size(q), 0, 0
  {
    if ts.Cons? {
      MulProper(ts.coeff, q, lo);
      MulEachProper(ts.tail, q, lo, ts.exp + 1);
    }
  }

  lemma {:induction false} MulTermsProper(ts: Terms, us: Terms, acc: Terms, lo: nat, m: nat)
    requires ProperTerms(ts, lo, m) && ProperTerms(us, lo, 0) && ProperTerms(acc, lo, 0)
    ensures ProperTerms(MulTerms(ts, us, acc), lo, 0)
    decreases SizeTerms(ts) + SizeTerms(us), 0, 0
  {
    if ts.Cons? {
      MulRowProper(ts.exp, ts.coeff, us, acc, lo, 0);
      MulTermsProper(ts.tail, us, MulRow(ts.exp, ts.coeff, us, acc), lo, ts.exp + 1);
    }
  }

  lemma {:induction false} MulRowProper(k: nat, c: Poly, us: Terms, acc: Terms, lo: nat, m: nat)
    requires Proper(c, lo) && ProperTerms(us, lo, m) && ProperTerms(acc, lo, 0)
    ensures ProperTerms(MulRow(k, c, us, acc), lo, 0)
    decreases Size(c) + SizeTerms(us), 0, 0
  {
    if us.Cons? {
      MulProper(c, us.coeff, lo);
      AccumulateProper(acc, k + us.exp, Mul(c, us.coeff), lo, 0);
      MulRowProper(k, c, us.tail, Accumulate(acc, k + us.exp, Mul(c, us.coeff)), lo, us.exp + 1);
    }
  }

  lemma {:induction false} AccumulateProper(ts: Terms, k: nat, c: Poly, lo: nat, m: nat)
    requires ProperTerms(ts, lo, m) && Proper(c, lo) && m <= k
    ensures ProperTerms(Accumulate(ts, k, c), lo, m)
    decreases ts
  {
    if ts.Cons? {
      if k == ts.exp {
        AddProper(ts.coeff, c, lo);
      } else if k > ts.exp {
        AccumulateProper(ts.tail, k, c, lo, ts.exp + 1);
      }
    }
  }
}
