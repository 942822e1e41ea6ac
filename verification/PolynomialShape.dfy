/** What the degree, the list of ids and the comparison of a polynomial mean. */
module PolynomialShape {
  import opened Multinomial

  /** Some stored monomial of `p`, whatever its coefficient, has total exponent `d`. */
  ghost predicate HasMonomial(p: Poly, d: int) {
    match p
    case Const(_) => d == 0
    case Node(_, ts) => TermsHave(ts, d)
  }

  ghost predicate TermsHave(ts: Terms, d: int) {
    match ts
    case Nil => false
    case Cons(k, c, tl) => HasMonomial(c, d - k) || TermsHave(tl, d)
  }

  /** The degree with templates counted is the greatest total exponent of a stored monomial. Without
      them it is 0 for a polynomial whose outermost symbol is a template, and no different otherwise. */
  lemma DegreeIsGreatest(p: Poly, lo: nat, prog: set<nat>)
    requires Proper(p, lo)
    ensures HasMonomial(p, Degree(p, true, prog))
    ensures forall d :: HasMonomial(p, d) ==> 0 <= d <= Degree(p, true, prog)
    ensures Degree(p, false, prog) == if p.Node? && p.id !in prog then 0 else Degree(p, true, prog)
  {
    Attained(p, lo, prog);
    forall d | HasMonomial(p, d) ensures 0 <= d <= Degree(p, true, prog) { Bounded(p, d, prog); }
  }

  /** The degrees that the solver records for its assumptions. */
  function Degrees(lhs: seq<Poly>, prog: set<nat>): seq<nat> {
    seq(|lhs|, j requires 0 <= j < |lhs| => Degree(lhs[j], false, prog))
  }

  /** No stored monomial of `p` has a total exponent above `m`. */
  ghost predicate AtMost(p: Poly, m: int) {
    forall d :: HasMonomial(p, d) ==> d <= m
  }

  /** Number `d` is 0 if the outermost symbol of `p` is a template, and the greatest total exponent of a
      stored monomial otherwise. */
  ghost predicate Recorded(p: Poly, prog: set<nat>, d: nat) {
    if p.Node? && p.id !in prog then d == 0 else HasMonomial(p, d) && AtMost(p, d)
  }

  lemma DegreesMean(lhs: seq<Poly>, prog: set<nat>)
    ensures |Degrees(lhs, prog)| == |lhs|
    ensures forall j :: 0 <= j < |lhs| && Proper(lhs[j], 0) ==> Recorded(lhs[j], prog, Degrees(lhs, prog)[j])
  {
    hide HasMonomial, Degree, Proper;
    forall j | 0 <= j < |lhs| && Proper(lhs[j], 0) ensures Recorded(lhs[j], prog, Degrees(lhs, prog)[j]) {
      DegreeIsGreatest(lhs[j], 0, prog);
    }
  }

  lemma {:induction false} Attained(p: Poly, lo: nat, prog: set<nat>)
    requires Proper(p, lo)
    ensures HasMonomial(p, Degree(p, true, prog))
    decreases p
  {
    if p.Node? { TermsAttained(p.terms, p.id + 1, 0, prog); }
  }

  lemma {:induction false} TermsAttained(ts: Terms, lo: nat, m: nat, prog: set<nat>)
    requires ts.Cons? && ProperTerms(ts, lo, m)
    ensures TermsHave(ts, DegreeTerms(ts, prog))
    decreases ts
  {
    Attained(ts.coeff, lo, prog);
    if ts.tail.Cons? { TermsAttained(ts.tail, lo, ts.exp + 1, prog); }
  }

  lemma {:induction false} Bounded(p: Poly, d: int, prog: set<nat>)
    requires HasMonomial(p, d)
    ensures 0 <= d <= Degree(p, true, prog)
    decreases p
  {
    if p.Node? { TermsBounded(p.terms, d, prog); }
  }

  lemma {:induction false} TermsBounded(ts: Terms, d: int, prog: set<nat>)
    requires TermsHave(ts, d)
    ensures 0 <= d <= DegreeTerms(ts, prog)
    decreases ts
  {
    if HasMonomial(ts.coeff, d - ts.exp) {
      Bounded(ts.coeff, d - ts.exp, prog);
    } else {
      TermsBounded(ts.tail, d, prog);
    }
  }

  /** The listed ids are all that the value depends on. */
  lemma {:induction false} ListedIdsDecide(p: Poly, e: Env, f: Env)
    requires forall i :: i in IdArr(p) ==> e(i) == f(i)
    ensures Eval(p, e) == Eval(p, f)
    decreases p
  {
    if p.Node? {
      assert IdArr(p)[0] == p.id;
      forall i | i in IdArrTerms(p.terms) ensures i in IdArr(p) {}
      ListedTermsDecide(p.terms, e(p.id), e, f);
    }
  }

  lemma {:induction false} ListedTermsDecide(ts: Terms, x: real, e: Env, f: Env)
    requires forall i :: i in IdArrTerms(ts) ==> e(i) == f(i)
    ensures EvalTerms(ts, x, e) == EvalTerms(ts, x, f)
    decreases ts
  {
    if ts.Cons? {
      forall i | i in IdArr(ts.coeff) || i in IdArrTerms(ts.tail) ensures i in IdArrTerms(ts) {}
      ListedIdsDecide(ts.coeff, e, f);
      ListedTermsDecide(ts.tail, x, e, f);
    }
  }

  /** An assumption is used for a conclusion exactly when the two share a symbol. */
  lemma {:induction false} ComparedMeansShared(p: Poly, ids: seq<nat>)
    ensures CmpPoly(p, ids) <==> exists i :: i in IdArr(p) && i in ids
    decreases p
  {
    if p.Node? {
      ComparedTerms(p.terms, ids);
      assert IdArr(p)[0] == p.id;
      forall i ensures i in IdArr(p) <==> i == p.id || i in IdArrTerms(p.terms) {}
    }
  }

  lemma {:induction false} ComparedTerms(ts: Terms, ids: seq<nat>)
    ensures CmpTerms(ts, ids) <==> exists i :: i in IdArrTerms(ts) && i in ids
    decreases ts
  {
    if ts.Cons? {
      ComparedMeansShared(ts.coeff, ids);
      ComparedTerms(ts.tail, ids);
      forall i ensures i in IdArrTerms(ts) <==> i in IdArr(ts.coeff) || i in IdArrTerms(ts.tail) {}
    }
  }

  // ---------------------------------------------------------------- symbols and exponents

  /** The symbols of `p`. */
  ghost function IdsOf(p: Poly): iset<nat> {
    iset i: nat | i in IdArr(p)
  }

  /** Every symbol of `p` is in `s`, and no exponent exceeds `m`. */
  ghost predicate Over(p: Poly, s: iset<nat>, m: nat) {
    match p
    case Const(_) => true
    case Node(id, ts) => id in s && OverTerms(ts, s, m)
  }

  ghost predicate OverTerms(ts: Terms, s: iset<nat>, m: nat) {
    match ts
    case Nil => true
    case Cons(k, c, tl) => k <= m && Over(c, s, m) && OverTerms(tl, s, m)
  }

  lemma {:induction false} OverMono(p: Poly, s: iset<nat>, m: nat, s': iset<nat>, m': nat)
    requires Over(p, s, m) && s <= s' && m <= m'
    ensures Over(p, s', m')
    decreases p
  {
    if p.Node? { OverTermsMono(p.terms, s, m, s', m'); }
  }

  lemma {:induction false} OverTermsMono(ts: Terms, s: iset<nat>, m: nat, s': iset<nat>, m': nat)
    requires OverTerms(ts, s, m) && s <= s' && m <= m'
    ensures OverTerms(ts, s', m')
    decreases ts
  {
    if ts.Cons? {
      OverMono(ts.coeff, s, m, s', m');
      OverTermsMono(ts.tail, s, m, s', m');
    }
  }

  lemma {:induction false} OverIds(p: Poly, s: iset<nat>, m: nat)
    requires Over(p, s, m)
    ensures IdsOf(p) <= s
    decreases p
  {
    if p.Node? { OverTermsIds(p.terms, s, m); }
  }

  lemma {:induction false} OverTermsIds(ts: Terms, s: iset<nat>, m: nat)
    requires OverTerms(ts, s, m)
    ensures forall i: nat :: i in IdArrTerms(ts) ==> i in s
    decreases ts
  {
    if ts.Cons? {
      OverIds(ts.coeff, s, m);
      OverTermsIds(ts.tail, s, m);
      forall i: nat | i in IdArrTerms(ts) ensures i in s {
        assert i in IdArr(ts.coeff) ==> i in IdsOf(ts.coeff);
      }
    }
  }

  /** The greatest exponent in `p`. */
  ghost function MaxExp(p: Poly): nat {
    match p
    case Const(_) => 0
    case Node(_, ts) => MaxExpTerms(ts)
  }

  ghost function MaxExpTerms(ts: Terms): nat {
    match ts
    case Nil => 0
    case Cons(k, c, tl) => Max(k, Max(MaxExp(c), MaxExpTerms(tl)))
  }

  function Max(a: nat, b: nat): nat {
    if a < b then b else a
  }

  lemma {:induction false} OverSelf(p: Poly, s: iset<nat>, m: nat)
    requires IdsOf(p) <= s && MaxExp(p) <= m
    ensures Over(p, s, m)
    decreases p
  {
    if p.Node? {
      assert IdArr(p)[0] == p.id;
      assert p.id in IdsOf(p);
      forall i: nat | i in IdArrTerms(p.terms) ensures i in s { assert i in IdsOf(p); }
      OverTermsSelf(p.terms, s, m);
    }
  }

  lemma {:induction false} OverTermsSelf(ts: Terms, s: iset<nat>, m: nat)
    requires (forall i: nat :: i in IdArrTerms(ts) ==> i in s) && MaxExpTerms(ts) <= m
    ensures OverTerms(ts, s, m)
    decreases ts
  {
    if ts.Cons? {
      forall i: nat | i in IdArr(ts.coeff) || i in IdArrTerms(ts.tail) ensures i in s { assert i in IdArrTerms(ts); }
      OverSelf(ts.coeff, s, m);
      OverTermsSelf(ts.tail, s, m);
    }
  }

  lemma {:induction false} OverExp(p: Poly, s: iset<nat>, m: nat)
    requires Over(p, s, m)
    ensures MaxExp(p) <= m
    decreases p
  {
    if p.Node? { OverTermsExp(p.terms, s, m); }
  }

  lemma {:induction false} OverTermsExp(ts: Terms, s: iset<nat>, m: nat)
    requires OverTerms(ts, s, m)
    ensures MaxExpTerms(ts) <= m
    decreases ts
  {
    if ts.Cons? {
      OverExp(ts.coeff, s, m);
      OverTermsExp(ts.tail, s, m);
    }
  }

  lemma {:induction false} DropZerosOver(ts: Terms, s: iset<nat>, m: nat)
    requires OverTerms(ts, s, m)
    ensures OverTerms(DropZeros(ts), s, m)
    decreases ts
  {
    if ts.Cons? { DropZerosOver(ts.tail, s, m); }
  }

  lemma SimplifyOver(id: nat, ts: Terms, s: iset<nat>, m: nat)
    requires id in s && OverTerms(ts, s, m)
    ensures Over(Simplify(id, ts), s, m)
  {
    DropZerosOver(ts, s, m);
  }

  lemma {:induction false} AddConstOver(p: Poly, c: real, s: iset<nat>, m: nat)
    requires Over(p, s, m)
    ensures Over(AddConst(p, c), s, m)
    decreases p
  {
    hide Simplify;
    if p.Node? {
      AddConstTermsOver(p.terms, c, s, m);
      SimplifyOver(p.id, AddConstTerms(p.terms, c), s, m);
    }
  }

  lemma {:induction false} AddConstTermsOver(ts: Terms, c: real, s: iset<nat>, m: nat)
    requires OverTerms(ts, s, m)
    ensures OverTerms(AddConstTerms(ts, c), s, m)
    decreases ts
  {
    if ts.Cons? {
      AddConstOver(ts.coeff, c, s, m);
      AddConstTermsOver(ts.tail, c, s, m);
    }
  }

  /** Addition brings in no new symbol and no higher exponent. */
  lemma {:induction false} AddOver(p: Poly, q: Poly, s: iset<nat>, m: nat)
    requires Over(p, s, m) && Over(q, s, m)
    ensures Over(Add(p, q), s, m)
    decreases Size(p) + Size(q)
  {
    hide Simplify, AddConst;
    if p.Const? {
      AddConstOver(q, p.c, s, m);
    } else if q.Const? {
      AddConstOver(p, q.c, s, m);
    } else if p.id > q.id {
      AddAtZeroOver(q.terms, p, s, m);
    } else if p.id < q.id {
      AddAtZeroOver(p.terms, q, s, m);
    } else {
      MergeOver(p.terms, q.terms, s, m);
      SimplifyOver(p.id, MergeTerms(p.terms, q.terms), s, m);
    }
  }

  lemma {:induction false} AddAtZeroOver(ts: Terms, q: Poly, s: iset<nat>, m: nat)
    requires OverTerms(ts, s, m) && Over(q, s, m)
    ensures OverTerms(AddAtZero(ts, q), s, m)
    decreases SizeTerms(ts) + Size(q)
  {
    hide Add;
    if ts.Cons? {
      AddOver(ts.coeff, q, s, m);
      AddAtZeroOver(ts.tail, q, s, m);
    }
  }

  lemma {:induction false} MergeOver(ts: Terms, us: Terms, s: iset<nat>, m: nat)
    requires OverTerms(ts, s, m) && OverTerms(us, s, m)
    ensures OverTerms(MergeTerms(ts, us), s, m)
    decreases SizeTerms(ts) + SizeTerms(us)
  {
    hide Add;
    if ts.Cons? && us.Cons? {
      if ts.exp < us.exp {
        MergeOver(ts.tail, us, s, m);
      } else if us.exp < ts.exp {
        MergeOver(ts, us.tail, s, m);
      } else {
        AddOver(ts.coeff, us.coeff, s, m);
        MergeOver(ts.tail, us.tail, s, m);
      }
    }
  }

  lemma {:induction false} ScaleOver(p: Poly, c: real, s: iset<nat>, m: nat)
    requires Over(p, s, m)
    ensures Over(Scale(p, c), s, m)
    decreases p
  {
    hide Simplify;
    if p.Node? {
      ScaleTermsOver(p.terms, c, s, m);
      SimplifyOver(p.id, ScaleTerms(p.terms, c), s, m);
    }
  }

  lemma {:induction false} ScaleTermsOver(ts: Terms, c: real, s: iset<nat>, m: nat)
    requires OverTerms(ts, s, m)
    ensures OverTerms(ScaleTerms(ts, c), s, m)
    decreases ts
  {
    if ts.Cons? {
      ScaleOver(ts.coeff, c, s, m);
      ScaleTermsOver(ts.tail, c, s, m);
    }
  }

  /** Multiplication brings in no new symbol, and exponents at most add up. */
  lemma {:induction false} MulOver(p: Poly, q: Poly, s: iset<nat>, m: nat, n: nat)
    requires Over(p, s, m) && Over(q, s, n)
    ensures Over(Mul(p, q), s, m + n)
    decreases Size(p) + Size(q), 1, 0
  {
    hide Simplify, Scale, Add;
    if p.Const? {
      OverMono(q, s, n, s, m + n);
      ScaleOver(q, p.c, s, m + n);
    } else if q.Const? {
      OverMono(p, s, m, s, m + n);
      ScaleOver(p, q.c, s, m + n);
    } else if p.id > q.id {
      MulEachOver(q.terms, p, s, n, m);
      SimplifyOver(q.id, MulEach(q.terms, p), s, m + n);
    } else if p.id < q.id {
      MulEachOver(p.terms, q, s, m, n);
      SimplifyOver(p.id, MulEach(p.terms, q), s, m + n);
    } else {
      MulTermsOver(p.terms, q.terms, Nil, s, m, n);
      SimplifyOver(p.id, MulTerms(p.terms, q.terms, Nil), s, m + n);
    }
  }

  lemma {:induction false} MulEachOver(ts: Terms, q: Poly, s: iset<nat>, m: nat, n: nat)
    requires OverTerms(ts, s, m) && Over(q, s, n)
    ensures OverTerms(MulEach(ts, q), s, m + n)
    decreases SizeTerms(ts) + Size(q), 1, 0
  {
    hide Mul;
    if ts.Cons? {
      MulOver(ts.coeff, q, s, m, n);
      MulEachOver(ts.tail, q, s, m, n);
    }
  }

  lemma {:induction false} MulTermsOver(ts: Terms, us: Terms, acc: Terms, s: iset<nat>, m: nat, n: nat)
    requires OverTerms(ts, s, m) && OverTerms(us, s, n) && OverTerms(acc, s, m + n)
    ensures OverTerms(MulTerms(ts, us, acc), s, m + n)
    decreases SizeTerms(ts) + SizeTerms(us), 1, 0
  {
    hide MulRow;
    if ts.Cons? {
      MulRowOver(ts.exp, ts.coeff, us, acc, s, m, n);
      MulTermsOver(ts.tail, us, MulRow(ts.exp, ts.coeff, us, acc), s, m, n);
    }
  }

  lemma {:induction false} MulRowOver(k: nat, c: Poly, us: Terms, acc: Terms, s: iset<nat>, m: nat, n: nat)
    requires k <= m && Over(c, s, m) && OverTerms(us, s, n) && OverTerms(acc, s, m + n)
    ensures OverTerms(MulRow(k, c, us, acc), s, m + n)
    decreases Size(c) + SizeTerms(us), 1, 0
  {
    hide Mul, Accumulate;
    if us.Cons? {
      MulOver(c, us.coeff, s, m, n);
      AccumulateOver(acc, k + us.exp, Mul(c, us.coeff), s, m + n);
      MulRowOver(k, c, us.tail, Accumulate(acc, k + us.exp, Mul(c, us.coeff)), s, m, n);
    }
  }

  lemma {:induction false} AccumulateOver(ts: Terms, k: nat, c: Poly, s: iset<nat>, m: nat)
    requires OverTerms(ts, s, m) && k <= m && Over(c, s, m)
    ensures OverTerms(Accumulate(ts, k, c), s, m)
    decreases ts
  {
    hide Add;
    if ts.Cons? {
      if k == ts.exp {
        AddOver(ts.coeff, c, s, m);
      } else if k > ts.exp {
        AccumulateOver(ts.tail, k, c, s, m);
      }
    }
  }

  lemma VarOver(id: nat, s: iset<nat>, m: nat)
    requires id in s && 1 <= m
    ensures Over(Var(id), s, m)
  {
    assert OverTerms(Nil, s, m);
    assert OverTerms(Cons(1, Const(1.0), Nil), s, m);
  }

  /** Sums and products never have an exponent above the greatest of a summand, or the sum of the
      greatest of the factors: 16-bit exponents do not wrap while that is below 65536. */
  lemma ExponentsBounded(p: Poly, q: Poly)
    ensures MaxExp(Add(p, q)) <= Max(MaxExp(p), MaxExp(q))
    ensures MaxExp(Mul(p, q)) <= MaxExp(p) + MaxExp(q)
    ensures IdsOf(Add(p, q)) <= IdsOf(p) + IdsOf(q)
    ensures IdsOf(Mul(p, q)) <= IdsOf(p) + IdsOf(q)
  {
    hide Add, Mul, IdsOf, MaxExp, Over;
    var s, m := IdsOf(p) + IdsOf(q), Max(MaxExp(p), MaxExp(q));
    OverSelf(p, s, m);
    OverSelf(q, s, m);
    AddOver(p, q, s, m);
    OverIds(Add(p, q), s, m);
    OverExp(Add(p, q), s, m);
    OverSelf(p, s, MaxExp(p));
    OverSelf(q, s, MaxExp(q));
    MulOver(p, q, s, MaxExp(p), MaxExp(q));
    OverIds(Mul(p, q), s, MaxExp(p) + MaxExp(q));
    OverExp(Mul(p, q), s, MaxExp(p) + MaxExp(q));
  }

  /** A proper polynomial has no symbol before its first. */
  lemma {:induction false} IdsFrom(p: Poly, lo: nat)
    requires Proper(p, lo)
    ensures forall i :: i in IdArr(p) ==> lo <= i
    decreases p
  {
    if p.Node? { TermIdsFrom(p.terms, p.id + 1, 0); }
  }

  lemma {:induction false} TermIdsFrom(ts: Terms, lo: nat, m: nat)
    requires ProperTerms(ts, lo, m)
    ensures forall i :: i in IdArrTerms(ts) ==> lo <= i
    decreases ts
  {
    if ts.Cons? {
      IdsFrom(ts.coeff, lo);
      TermIdsFrom(ts.tail, lo, ts.exp + 1);
    }
  }
}
