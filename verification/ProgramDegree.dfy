/** The degree that the solver records for a polynomial, compared with its degree in the program variables. */
module ProgramDegree {
  import opened Multinomial
  import opened PolynomialShape
  import opened Reduction
  import opened Generator
  import opened Certificate

  /** Some stored monomial of `p`, whatever its coefficient, has total exponent `d`, of which `q` belongs to
      program variables. */
  ghost predicate HasSplit(p: Poly, prog: set<nat>, d: int, q: int) {
    match p
    case Const(_) => d == 0 && q == 0
    case Node(id, ts) => TermsSplit(ts, id in prog, prog, d, q)
  }

  ghost predicate TermsSplit(ts: Terms, program: bool, prog: set<nat>, d: int, q: int) {
    match ts
    case Nil => false
    case Cons(k, c, tl) => HasSplit(c, prog, d - k, if program then q - k else q) || TermsSplit(tl, program, prog, d, q)
  }

  /** The degree in the program variables: what the recorded degree is meant to be. */
  function ProgDegree(p: Poly, prog: set<nat>): nat {
    match p
    case Const(_) => 0
    case Node(id, ts) => ProgDegreeTerms(ts, id in prog, prog)
  }

  function ProgDegreeTerms(ts: Terms, program: bool, prog: set<nat>): nat {
    match ts
    case Nil => 0
    case Cons(k, c, tl) => Max((if program then k else 0) + ProgDegree(c, prog), ProgDegreeTerms(tl, program, prog))
  }

  // ---------------------------------------------------------------- both are greatest exponents

  lemma {:induction false} SplitBounds(p: Poly, prog: set<nat>, d: int, q: int)
    requires HasSplit(p, prog, d, q)
    ensures 0 <= q <= d && HasMonomial(p, d) && q <= ProgDegree(p, prog)
    decreases p
  {
    if p.Node? { TermsSplitBounds(p.terms, p.id in prog, prog, d, q); }
  }

  lemma {:induction false} TermsSplitBounds(ts: Terms, program: bool, prog: set<nat>, d: int, q: int)
    requires TermsSplit(ts, program, prog, d, q)
    ensures 0 <= q <= d && TermsHave(ts, d) && q <= ProgDegreeTerms(ts, program, prog)
    decreases ts
  {
    var q' := if program then q - ts.exp else q;
    if HasSplit(ts.coeff, prog, d - ts.exp, q') {
      SplitBounds(ts.coeff, prog, d - ts.exp, q');
    } else {
      TermsSplitBounds(ts.tail, program, prog, d, q);
    }
  }

  /** Every stored monomial splits. */
  lemma {:induction false} MonomialSplits(p: Poly, prog: set<nat>, d: int) returns (q: int)
    requires HasMonomial(p, d)
    ensures HasSplit(p, prog, d, q)
    decreases p
  {
    if p.Node? { q := TermsMonomialSplits(p.terms, p.id in prog, prog, d); } else { q := 0; }
  }

  lemma {:induction false} TermsMonomialSplits(ts: Terms, program: bool, prog: set<nat>, d: int) returns (q: int)
    requires TermsHave(ts, d)
    ensures TermsSplit(ts, program, prog, d, q)
    decreases ts
  {
    if HasMonomial(ts.coeff, d - ts.exp) {
      q := MonomialSplits(ts.coeff, prog, d - ts.exp);
      q := if program then q + ts.exp else q;
    } else {
      q := TermsMonomialSplits(ts.tail, program, prog, d);
    }
  }

  lemma {:induction false} ProgAttained(p: Poly, lo: nat, prog: set<nat>) returns (d: int)
    requires Proper(p, lo)
    ensures HasSplit(p, prog, d, ProgDegree(p, prog))
    decreases p
  {
    if p.Node? { d := TermsProgAttained(p.terms, p.id + 1, 0, p.id in prog, prog); } else { d := 0; }
  }

  lemma {:induction false} TermsProgAttained(ts: Terms, lo: nat, m: nat, program: bool, prog: set<nat>) returns (d: int)
    requires ts.Cons? && ProperTerms(ts, lo, m)
    ensures TermsSplit(ts, program, prog, d, ProgDegreeTerms(ts, program, prog))
    decreases ts
  {
    var here := (if program then ts.exp else 0) + ProgDegree(ts.coeff, prog);
    if ts.tail.Cons? && here < ProgDegreeTerms(ts.tail, program, prog) {
      d := TermsProgAttained(ts.tail, lo, ts.exp + 1, program, prog);
    } else {
      d := ProgAttained(ts.coeff, lo, prog);
      d := d + ts.exp;
    }
  }

  /** The degree in the program variables is the greatest program exponent of a stored monomial. */
  lemma ProgDegreeIsGreatest(p: Poly, lo: nat, prog: set<nat>)
    requires Proper(p, lo)
    ensures exists d :: HasSplit(p, prog, d, ProgDegree(p, prog))
    ensures forall d, q :: HasSplit(p, prog, d, q) ==> 0 <= q <= ProgDegree(p, prog) && q <= d
    ensures ProgDegree(p, prog) <= Degree(p, true, prog)
  {
    var d := ProgAttained(p, lo, prog);
    forall d, q | HasSplit(p, prog, d, q) ensures 0 <= q <= ProgDegree(p, prog) && q <= d { SplitBounds(p, prog, d, q); }
    SplitBounds(p, prog, d, ProgDegree(p, prog));
    Bounded(p, d, prog);
  }

  // ---------------------------------------------------------------- exactly when the recorded degree is right

  /** No stored monomial has a program variable. */
  ghost predicate NoProgram(p: Poly, prog: set<nat>) {
    forall d, q :: HasSplit(p, prog, d, q) ==> q == 0
  }

  /** Some stored monomial of greatest total exponent has no template. */
  ghost predicate TopWithoutTemplate(p: Poly, prog: set<nat>) {
    HasSplit(p, prog, Degree(p, true, prog), Degree(p, true, prog))
  }

  /** The recorded degree is the degree in the program variables if and only if no monomial has a program
      variable, when a template is outermost, and some greatest monomial has no template, otherwise. */
  lemma RecordedDegreeIff(p: Poly, lo: nat, prog: set<nat>)
    requires Proper(p, lo)
    ensures Degree(p, false, prog) == ProgDegree(p, prog) <==>
            if p.Node? && p.id !in prog then NoProgram(p, prog) else TopWithoutTemplate(p, prog)
  {
    hide HasSplit, ProgDegree;
    ProgDegreeIsGreatest(p, lo, prog);
    DegreeIsGreatest(p, lo, prog);
    var d :| HasSplit(p, prog, d, ProgDegree(p, prog));
    SplitBounds(p, prog, d, ProgDegree(p, prog));
  }

  /** With the program variables first among the symbols, the recorded degree is never too small, and it is
      right under an outermost template. */
  lemma OrderedDegree(p: Poly, lo: nat, prog: set<nat>)
    requires Proper(p, lo) && Ordered(IdsOf(p), prog)
    ensures ProgDegree(p, prog) <= Degree(p, false, prog)
    ensures Degree(p, false, prog) == ProgDegree(p, prog) <==> (p.Node? && p.id !in prog) || TopWithoutTemplate(p, prog)
  {
    hide HasSplit, Degree;
    ProgDegreeIsGreatest(p, lo, prog);
    DegreeIsGreatest(p, lo, prog);
    RecordedDegreeIff(p, lo, prog);
    if p.Node? && p.id !in prog {
      IdsFrom(p, p.id);
      assert IdArr(p)[0] == p.id && p.id in IdsOf(p);
      forall i | i in IdArr(p) ensures i !in prog { assert i in IdsOf(p); }
      NoProgramIds(p, prog);
    }
  }

  lemma {:induction false} NoProgramIds(p: Poly, prog: set<nat>)
    requires forall i :: i in IdArr(p) ==> i !in prog
    ensures ProgDegree(p, prog) == 0
    decreases p
  {
    if p.Node? {
      assert IdArr(p)[0] == p.id;
      forall i | i in IdArrTerms(p.terms) ensures i !in prog { assert i in IdArr(p); }
      NoProgramTermIds(p.terms, prog);
    }
  }

  lemma {:induction false} NoProgramTermIds(ts: Terms, prog: set<nat>)
    requires forall i :: i in IdArrTerms(ts) ==> i !in prog
    ensures ProgDegreeTerms(ts, false, prog) == 0
    decreases ts
  {
    if ts.Cons? {
      forall i | i in IdArr(ts.coeff) || i in IdArrTerms(ts.tail) ensures i !in prog { assert i in IdArrTerms(ts); }
      NoProgramIds(ts.coeff, prog);
      NoProgramTermIds(ts.tail, prog);
    }
  }

  // ---------------------------------------------------------------- where it is wrong

  /** The product of symbol `i` and the later symbol `j`. */
  function Pair(i: nat, j: nat): Poly {
    Mul(Var(i), Var(j))
  }

  lemma PairIs(i: nat, j: nat)
    requires i < j
    ensures Pair(i, j) == Node(i, Cons(0, Const(0.0), Cons(1, Var(j), Nil)))
  {
    var q := Var(j);
    ScaleVar(j, 0.0);
    ScaleVar(j, 1.0);
    assert MulEach(Cons(1, Const(1.0), Nil), q) == Cons(1, Scale(q, 1.0), MulEach(Nil, q));
    assert MulEach(Var(i).terms, q) == Cons(0, Scale(q, 0.0), Cons(1, q, Nil));
    var us := Cons(1, q, Nil);
    assert DropZeros(us) == us;
    assert DropZeros(Cons(0, Const(0.0), us)) == us;
  }

  lemma ScaleVar(j: nat, c: real)
    requires c == 0.0 || c == 1.0
    ensures Scale(Var(j), c) == if c == 0.0 then Const(0.0) else Var(j)
  {
    var ts := Cons(1, Const(1.0 * c), Nil);
    assert ScaleTerms(Cons(1, Const(1.0), Nil), c) == ts;
    assert ScaleTerms(Var(j).terms, c) == Cons(0, Const(0.0 * c), ts);
    assert DropZeros(ts) == if c == 0.0 then Nil else ts;
    assert DropZeros(Cons(0, Const(0.0 * c), ts)) == DropZeros(ts);
  }

  lemma VarDegrees(j: nat, prog: set<nat>)
    ensures ProgDegree(Var(j), prog) == if j in prog then 1 else 0
    ensures Degree(Var(j), true, prog) == 1
  {
    var one := Cons(1, Const(1.0), Nil);
    assert DegreeTerms(Nil, prog) == 0 == ProgDegreeTerms(Nil, j in prog, prog);
    assert DegreeTerms(one, prog) == 1 && ProgDegreeTerms(one, j in prog, prog) == if j in prog then 1 else 0;
    assert Var(j).terms == Cons(0, Const(0.0), one);
    assert DegreeTerms(Var(j).terms, prog) == 1 && ProgDegreeTerms(Var(j).terms, j in prog, prog) == if j in prog then 1 else 0;
  }

  /** A program variable times a later template has degree 1 in the program variables and is recorded with
      2; a template times a later program variable is recorded with 0. */
  lemma PairDegrees(i: nat, j: nat, prog: set<nat>)
    requires i < j
    ensures ProgDegree(Pair(i, j), prog) == (if i in prog then 1 else 0) + if j in prog then 1 else 0
    ensures Degree(Pair(i, j), false, prog) == if i in prog then 2 else 0
  {
    hide Mul;
    PairIs(i, j);
    var us := Cons(1, Var(j), Nil);
    VarDegrees(j, prog);
    assert ProgDegreeTerms(us, i in prog, prog) == (if i in prog then 1 else 0) + ProgDegree(Var(j), prog);
    assert DegreeTerms(us, prog) == 2;
  }

  /** An assumption is used in a product by itself if and only if it shares a symbol with the goal and no
      stored monomial of it, templates counted, has a greater exponent than the bound, whatever its degree in
      the program variables. One with an outermost template only needs a bound that is not negative. */
  lemma OvercountedIsUnused(lhs: seq<Poly>, maxDeg: int, prog: set<nat>, rhs: Poly, j: nat)
    requires forall k :: 0 <= k < |lhs| ==> Proper(lhs[k], 0)
    requires j < |lhs| && Core(lhs, Degrees(lhs, prog), maxDeg, prog).For(rhs).Halts()
    ensures [j] in Products(Core(lhs, Degrees(lhs, prog), maxDeg, prog), rhs) <==>
            && (exists i :: i in IdArr(lhs[j]) && i in IdArr(rhs))
            && if lhs[j].Node? && lhs[j].id !in prog then 0 <= maxDeg else AtMost(lhs[j], maxDeg)
  {
    hide Degree, CmpPoly, IdArr, HasMonomial, Proper;
    var co := Core(lhs, Degrees(lhs, prog), maxDeg, prog);
    DegreesMean(lhs, prog);
    ComparedMeansShared(lhs[j], IdArr(rhs));
    ChainsAreProducts(co.For(rhs));
    assert [j][1..] == [];
    assert DegSum(co.deg, [j]) == co.deg[j] + DegSum(co.deg, []);
    assert [j] in Products(co, rhs) <==> CmpPoly(lhs[j], IdArr(rhs)) && co.deg[j] <= maxDeg;
    RecordedAtMost(lhs[j], prog, co.deg[j], maxDeg);
  }

  lemma RecordedAtMost(p: Poly, prog: set<nat>, d: nat, m: int)
    requires Recorded(p, prog, d)
    ensures d <= m <==> if p.Node? && p.id !in prog then 0 <= m else AtMost(p, m)
  {
    if p.Const? || p.id in prog {
      if AtMost(p, m) { assert HasMonomial(p, d); }
      if d <= m { forall k | HasMonomial(p, k) ensures k <= m {} }
    }
  }
}
