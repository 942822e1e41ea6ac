/** The template polynomial of the Handelman method: a nested sum of products of the assumptions,
    each product weighted by a fresh template, and the flat sum it denotes. */
module Generator {
  import opened Basics
  import opened Multinomial
  import opened PolynomialShape

  /** One generation task: assumptions with their recorded degrees, which of them share a symbol
      with the goal, and the degree bound. */
  datatype Problem = Problem(lhs: seq<Poly>, deg: seq<nat>, ok: seq<bool>, maxDeg: int) {
    ghost predicate Valid() {
      |deg| == |lhs| && |ok| == |lhs| && forall j :: 0 <= j < |lhs| ==> Proper(lhs[j], 0)
    }

    /** The recursion is entered for assumption `j` at degree `curr`. */
    predicate Take(curr: nat, j: nat)
      requires |deg| == |lhs| && |ok| == |lhs| && j < |lhs|
    {
      curr + deg[j] <= maxDeg && ok[j]
    }

    /** No usable assumption has recorded degree 0 (nothing is usable under a negative bound). */
    ghost predicate Halts()
      requires |deg| == |lhs| && |ok| == |lhs|
    {
      forall j :: 0 <= j < |lhs| && ok[j] && 0 <= maxDeg ==> 0 < deg[j]
    }

    ghost function Room(curr: nat): nat {
      if curr <= maxDeg then maxDeg - curr else 0
    }
  }

  // ---------------------------------------------------------------- the recursion

  /** The polynomial built for a partial product of degree `curr` over assumptions from `first` on,
      when the next fresh template has id `base`; and the next fresh id afterwards. */
  ghost function Gen(pb: Problem, curr: nat, first: nat, base: nat): (Poly, nat)
    requires pb.Valid() && pb.Halts() && first <= |pb.lhs|
    decreases pb.Room(curr), |pb.lhs| - first, 1
  {
    var (sum, next) := GenFrom(pb, curr, first, base, Const(0.0));
    (Add(sum, Var(next)), next + 1)
  }

  ghost function GenFrom(pb: Problem, curr: nat, j: nat, base: nat, acc: Poly): (Poly, nat)
    requires pb.Valid() && pb.Halts() && j <= |pb.lhs|
    decreases pb.Room(curr), |pb.lhs| - j, 0
  {
    if j == |pb.lhs| then (acc, base)
    else if pb.Take(curr, j) then
      var (inner, next) := Gen(pb, curr + pb.deg[j], j, base);
      GenFrom(pb, curr, j + 1, next, Add(acc, Mul(pb.lhs[j], inner)))
    else GenFrom(pb, curr, j + 1, base, acc)
  }

  // ---------------------------------------------------------------- symbols and exponents

  /** The generated polynomial has only the symbols of the assumptions and new templates, and its
      exponents are bounded by the degrees that are left. */
  lemma {:induction false} GenOver(pb: Problem, curr: nat, first: nat, base: nat, s: iset<nat>, m: nat)
    requires pb.Valid() && pb.Halts() && first <= |pb.lhs|
    requires (forall j :: 0 <= j < |pb.lhs| ==> Over(pb.lhs[j], s, m)) && forall i: nat :: base <= i ==> i in s
    ensures Over(Gen(pb, curr, first, base).0, s, m * pb.Room(curr) + 1)
    decreases pb.Room(curr), |pb.lhs| - first, 1
  {
    hide Over, Add, Mul, Proper;
    var bound := m * pb.Room(curr) + 1;
    ConstOver(s, bound);
    GenFromOver(pb, curr, first, base, Const(0.0), s, m);
    var (sum, next) := GenFrom(pb, curr, first, base, Const(0.0));
    VarOver(next, s, bound);
    AddOver(sum, Var(next), s, bound);
  }

  lemma {:induction false} GenFromOver(pb: Problem, curr: nat, j: nat, base: nat, acc: Poly, s: iset<nat>, m: nat)
    requires pb.Valid() && pb.Halts() && j <= |pb.lhs| && Over(acc, s, m * pb.Room(curr) + 1)
    requires (forall j :: 0 <= j < |pb.lhs| ==> Over(pb.lhs[j], s, m)) && forall i: nat :: base <= i ==> i in s
    ensures Over(GenFrom(pb, curr, j, base, acc).0, s, m * pb.Room(curr) + 1)
    ensures base <= GenFrom(pb, curr, j, base, acc).1
    decreases pb.Room(curr), |pb.lhs| - j, 0
  {
    hide Over, Add, Mul, Proper;
    var bound := m * pb.Room(curr) + 1;
    if j < |pb.lhs| && pb.Take(curr, j) {
      var (inner, next) := Gen(pb, curr + pb.deg[j], j, base);
      var rest := m * pb.Room(curr + pb.deg[j]) + 1;
      GenOver(pb, curr + pb.deg[j], j, base, s, m);
      GenFromOver(pb, curr + pb.deg[j], j, base, Const(0.0), s, m) by { ConstOver(s, rest); }
      MulOver(pb.lhs[j], inner, s, m, rest);
      SmallerRoom(m, pb.Room(curr + pb.deg[j]), pb.Room(curr));
      OverMono(Mul(pb.lhs[j], inner), s, m + rest, s, bound);
      AddOver(acc, Mul(pb.lhs[j], inner), s, bound);
      GenFromOver(pb, curr, j + 1, next, Add(acc, Mul(pb.lhs[j], inner)), s, m);
    } else if j < |pb.lhs| {
      GenFromOver(pb, curr, j + 1, base, acc, s, m);
    }
  }

  lemma ConstOver(s: iset<nat>, m: nat)
    ensures Over(Const(0.0), s, m)
  {}

  lemma {:induction false} SmallerRoom(m: nat, a: nat, b: nat)
    requires a < b
    ensures m + m * a <= m * b
    decreases b
  {
    assert m * b == m * (b - 1) + m;
    if a < b - 1 { SmallerRoom(m, a, b - 1); }
  }

  // ---------------------------------------------------------------- the products it enumerates

  /** The products of assumptions, as index sequences, in the order their templates are created. */
  ghost function Chains(pb: Problem, curr: nat, first: nat): seq<seq<nat>>
    requires pb.Valid() && pb.Halts() && first <= |pb.lhs|
    decreases pb.Room(curr), |pb.lhs| - first, 1
  {
    ChainsFrom(pb, curr, first) + [[]]
  }

  ghost function ChainsFrom(pb: Problem, curr: nat, j: nat): seq<seq<nat>>
    requires pb.Valid() && pb.Halts() && j <= |pb.lhs|
    decreases pb.Room(curr), |pb.lhs| - j, 0
  {
    if j == |pb.lhs| then []
    else (if pb.Take(curr, j) then Prepend(j, Chains(pb, curr + pb.deg[j], j)) else [])
         + ChainsFrom(pb, curr, j + 1)
  }

  ghost function Prepend(j: nat, cs: seq<seq<nat>>): seq<seq<nat>> {
    seq(|cs|, i requires 0 <= i < |cs| => [j] + cs[i])
  }

  ghost predicate Indices(n: nat, c: seq<nat>) {
    forall i :: 0 <= i < |c| ==> c[i] < n
  }

  ghost function DegSum(deg: seq<nat>, c: seq<nat>): nat
    requires Indices(|deg|, c)
  {
    if c == [] then 0 else deg[c[0]] + DegSum(deg, c[1..])
  }

  ghost predicate Nondecreasing(c: seq<nat>) {
    forall i, k :: 0 <= i < k < |c| ==> c[i] <= c[k]
  }

  /** The index sequences of Handelman's theorem: compatible assumptions in nondecreasing order, with
      total degree within the bound. The empty product is always present. */
  ghost predicate Product(pb: Problem, c: seq<nat>)
    requires pb.Valid()
  {
    && Indices(|pb.lhs|, c) && Nondecreasing(c)
    && (forall i :: 0 <= i < |c| ==> pb.ok[c[i]])
    && (c != [] ==> DegSum(pb.deg, c) <= pb.maxDeg)
  }

  /** `Product` as the recursion sees it. */
  ghost predicate Admissible(pb: Problem, curr: nat, first: nat, c: seq<nat>)
    requires pb.Valid()
    decreases |c|
  {
    c != [] ==>
      first <= c[0] < |pb.lhs| && pb.Take(curr, c[0]) && Admissible(pb, curr + pb.deg[c[0]], c[0], c[1..])
  }

  lemma {:induction false} AdmissibleIsProduct(pb: Problem, curr: nat, first: nat, c: seq<nat>)
    requires pb.Valid()
    ensures Admissible(pb, curr, first, c) <==>
            && Indices(|pb.lhs|, c) && Nondecreasing(c)
            && (forall i :: 0 <= i < |c| ==> first <= c[i] && pb.ok[c[i]])
            && (c != [] ==> curr + DegSum(pb.deg, c) <= pb.maxDeg)
    decreases |c|
  {
    if c != [] {
      if c[0] < |pb.lhs| {
        AdmissibleIsProduct(pb, curr + pb.deg[c[0]], c[0], c[1..]);
      }
      assert c == [c[0]] + c[1..];
    }
  }

  lemma {:induction false} ChainsExact(pb: Problem, curr: nat, first: nat, c: seq<nat>)
    requires pb.Valid() && pb.Halts() && first <= |pb.lhs|
    ensures c in Chains(pb, curr, first) <==> Admissible(pb, curr, first, c)
    decreases pb.Room(curr), |pb.lhs| - first, 1
  {
    ChainsFromExact(pb, curr, first, c);
    assert c in Chains(pb, curr, first) <==> c in ChainsFrom(pb, curr, first) || c == [];
  }

  lemma {:induction false} ChainsFromExact(pb: Problem, curr: nat, j: nat, c: seq<nat>)
    requires pb.Valid() && pb.Halts() && j <= |pb.lhs|
    ensures c in ChainsFrom(pb, curr, j) <==> c != [] && Admissible(pb, curr, j, c)
    decreases pb.Room(curr), |pb.lhs| - j, 0
  {
    hide Prepend;
    if j < |pb.lhs| {
      ChainsFromExact(pb, curr, j + 1, c);
      if pb.Take(curr, j) {
        var inner := Chains(pb, curr + pb.deg[j], j);
        PrependMember(j, inner, c);
        if c != [] && c[0] == j {
          ChainsExact(pb, curr + pb.deg[j], j, c[1..]);
        }
      }
    }
  }

  lemma PrependMember(j: nat, cs: seq<seq<nat>>, c: seq<nat>)
    ensures c in Prepend(j, cs) <==> c != [] && c[0] == j && c[1..] in cs
  {
    if c != [] && c[0] == j && c[1..] in cs {
      var i :| 0 <= i < |cs| && cs[i] == c[1..];
      assert Prepend(j, cs)[i] == c;
    }
  }

  lemma PrependDistinct(j: nat, cs: seq<seq<nat>>)
    requires Distinct(cs)
    ensures Distinct(Prepend(j, cs))
  {
    forall i, k | 0 <= i < k < |cs| ensures Prepend(j, cs)[i] != Prepend(j, cs)[k] {
      assert Prepend(j, cs)[i][1..] == cs[i] && Prepend(j, cs)[k][1..] == cs[k];
    }
  }

  lemma {:induction false} ChainsDistinct(pb: Problem, curr: nat, first: nat)
    requires pb.Valid() && pb.Halts() && first <= |pb.lhs|
    ensures Distinct(Chains(pb, curr, first))
    decreases pb.Room(curr), |pb.lhs| - first, 1
  {
    ChainsFromDistinct(pb, curr, first);
    ChainsFromExact(pb, curr, first, []);
  }

  lemma {:induction false} ChainsFromDistinct(pb: Problem, curr: nat, j: nat)
    requires pb.Valid() && pb.Halts() && j <= |pb.lhs|
    ensures Distinct(ChainsFrom(pb, curr, j))
    decreases pb.Room(curr), |pb.lhs| - j, 0
  {
    hide Prepend, Chains, ChainsFrom;
    LoopStep(pb, curr, j, 0, Const(0.0));
    if j < |pb.lhs| {
      ChainsFromDistinct(pb, curr, j + 1);
      if pb.Take(curr, j) {
        var inner, later := Chains(pb, curr + pb.deg[j], j), ChainsFrom(pb, curr, j + 1);
        ChainsDistinct(pb, curr + pb.deg[j], j);
        PrependDistinct(j, inner);
        forall c | c in later ensures c !in Prepend(j, inner) {
          ChainsFromExact(pb, curr, j + 1, c);
          PrependMember(j, inner, c);
        }
        DistinctConcat(Prepend(j, inner), later);
      }
    }
  }

  /** The enumeration is exactly the products of Handelman's theorem, each once. */
  lemma ChainsAreProducts(pb: Problem)
    requires pb.Valid() && pb.Halts()
    ensures Distinct(Chains(pb, 0, 0))
    ensures forall c :: c in Chains(pb, 0, 0) <==> Product(pb, c)
  {
    ChainsDistinct(pb, 0, 0);
    forall c ensures c in Chains(pb, 0, 0) <==> Product(pb, c) {
      ChainsExact(pb, 0, 0, c);
      AdmissibleIsProduct(pb, 0, 0, c);
    }
  }

  // ---------------------------------------------------------------- the sum it denotes

  /** The value of assumption `j`. */
  ghost function Factor(lhs: seq<Poly>, j: nat, e: Env): real {
    if j < |lhs| then Eval(lhs[j], e) else 1.0
  }

  ghost function Prod(lhs: seq<Poly>, c: seq<nat>, e: Env): real {
    if c == [] then 1.0 else Factor(lhs, c[0], e) * Prod(lhs, c[1..], e)
  }

  /** The sum, over the given products, of the next template times the product. */
  ghost function Flat(lhs: seq<Poly>, cs: seq<seq<nat>>, base: nat, e: Env): real {
    if cs == [] then 0.0 else e(base) * Prod(lhs, cs[0], e) + Flat(lhs, cs[1..], base + 1, e)
  }

  lemma {:induction false} FlatAppend(lhs: seq<Poly>, cs: seq<seq<nat>>, ds: seq<seq<nat>>, base: nat, e: Env)
    ensures Flat(lhs, cs + ds, base, e) == Flat(lhs, cs, base, e) + Flat(lhs, ds, base + |cs|, e)
    decreases |cs|
  {
    if cs == [] {
      assert cs + ds == ds;
    } else {
      FlatAppend(lhs, cs[1..], ds, base + 1, e);
      assert (cs + ds)[1..] == cs[1..] + ds;
    }
  }

  lemma {:induction false} FlatPrepend(lhs: seq<Poly>, j: nat, cs: seq<seq<nat>>, base: nat, e: Env)
    ensures Flat(lhs, Prepend(j, cs), base, e) == Factor(lhs, j, e) * Flat(lhs, cs, base, e)
    decreases |cs|
  {
    if cs != [] {
      FlatPrepend(lhs, j, cs[1..], base + 1, e);
      assert Prepend(j, cs)[1..] == Prepend(j, cs[1..]);
      assert Prepend(j, cs)[0][1..] == cs[0];
      PrependStep(e(base), Factor(lhs, j, e), Prod(lhs, cs[0], e), Flat(lhs, cs[1..], base + 1, e));
    }
  }

  lemma PrependStep(t: real, l: real, p: real, r: real)
    ensures t * (l * p) + l * r == l * (t * p + r)
  {
    Distribute(t * p, r, l);
    Assoc(l, t, p);
    Assoc(t, l, p);
  }

  /** The nested polynomial is proper and uses one fresh template per product. */
  lemma {:induction false} GenShape(pb: Problem, curr: nat, first: nat, base: nat)
    requires pb.Valid() && pb.Halts() && first <= |pb.lhs|
    ensures Gen(pb, curr, first, base).1 == base + |Chains(pb, curr, first)|
    ensures Proper(Gen(pb, curr, first, base).0, 0)
    decreases pb.Room(curr), |pb.lhs| - first, 1
  {
    GenFromShape(pb, curr, first, base, Const(0.0));
    var (sum, next) := GenFrom(pb, curr, first, base, Const(0.0));
    VarProper(next);
    AddProper(sum, Var(next), 0);
  }

  lemma {:induction false} GenFromShape(pb: Problem, curr: nat, j: nat, base: nat, acc: Poly)
    requires pb.Valid() && pb.Halts() && j <= |pb.lhs| && Proper(acc, 0)
    ensures GenFrom(pb, curr, j, base, acc).1 == base + |ChainsFrom(pb, curr, j)|
    ensures Proper(GenFrom(pb, curr, j, base, acc).0, 0)
    decreases pb.Room(curr), |pb.lhs| - j, 0
  {
    hide Proper, Add, Mul, Prepend;
    if j < |pb.lhs| {
      if pb.Take(curr, j) {
        GenShape(pb, curr + pb.deg[j], j, base);
        var (inner, next) := Gen(pb, curr + pb.deg[j], j, base);
        MulProper(pb.lhs[j], inner, 0);
        AddProper(acc, Mul(pb.lhs[j], inner), 0);
        GenFromShape(pb, curr, j + 1, next, Add(acc, Mul(pb.lhs[j], inner)));
        PrependLength(j, Chains(pb, curr + pb.deg[j], j));
      } else {
        GenFromShape(pb, curr, j + 1, base, acc);
      }
    }
  }

  lemma PrependLength(j: nat, cs: seq<seq<nat>>)
    ensures |Prepend(j, cs)| == |cs|
  {}

  /** The nested polynomial denotes the flat sum over the enumerated products. */
  lemma {:induction false} GenIsFlat(pb: Problem, curr: nat, first: nat, base: nat, e: Env)
    requires pb.Valid() && pb.Halts() && first <= |pb.lhs|
    ensures Eval(Gen(pb, curr, first, base).0, e) == Flat(pb.lhs, Chains(pb, curr, first), base, e)
    decreases pb.Room(curr), |pb.lhs| - first, 1
  {
    GenFromShape(pb, curr, first, base, Const(0.0));
    GenFromIsFlat(pb, curr, first, base, Const(0.0), e);
    var (sum, next) := GenFrom(pb, curr, first, base, Const(0.0));
    FlatAppend(pb.lhs, ChainsFrom(pb, curr, first), [[]], base, e);
    assert Flat(pb.lhs, [[]], next, e) == e(next) * Prod(pb.lhs, [], e) + Flat(pb.lhs, [[]][1..], next + 1, e);
    VarProper(next);
    VarEval(next, e);
    AddEval(sum, Var(next), 0, e);
  }

  lemma {:induction false} GenFromIsFlat(pb: Problem, curr: nat, j: nat, base: nat, acc: Poly, e: Env)
    requires pb.Valid() && pb.Halts() && j <= |pb.lhs| && Proper(acc, 0)
    ensures Eval(GenFrom(pb, curr, j, base, acc).0, e) == Eval(acc, e) + Flat(pb.lhs, ChainsFrom(pb, curr, j), base, e)
    decreases pb.Room(curr), |pb.lhs| - j, 0
  {
    hide Add, Mul, Eval, Proper, Flat, Gen, GenFrom, Chains, ChainsFrom, Prepend;
    LoopStep(pb, curr, j, base, acc);
    if j == |pb.lhs| {
      FlatNone(pb.lhs, base, e);
    } else {
      if pb.Take(curr, j) {
        var inner, later := Chains(pb, curr + pb.deg[j], j), ChainsFrom(pb, curr, j + 1);
        var g := Gen(pb, curr + pb.deg[j], j, base);
        GenShape(pb, curr + pb.deg[j], j, base);
        GenIsFlat(pb, curr + pb.deg[j], j, base, e);
        TakenStep(pb.lhs, acc, j, g.0, inner, later, base, e);
        GenFromIsFlat(pb, curr, j + 1, g.1, Add(acc, Mul(pb.lhs[j], g.0)), e);
      } else {
        GenFromIsFlat(pb, curr, j + 1, base, acc, e);
      }
    }
  }

  lemma FlatNone(lhs: seq<Poly>, base: nat, e: Env)
    ensures Flat(lhs, [], base, e) == 0.0
  {}

  lemma LoopStep(pb: Problem, curr: nat, j: nat, base: nat, acc: Poly)
    requires pb.Valid() && pb.Halts() && j <= |pb.lhs|
    ensures j == |pb.lhs| ==> GenFrom(pb, curr, j, base, acc) == (acc, base) && ChainsFrom(pb, curr, j) == []
    ensures j < |pb.lhs| && pb.Take(curr, j) ==>
              var g := Gen(pb, curr + pb.deg[j], j, base);
              && GenFrom(pb, curr, j, base, acc) == GenFrom(pb, curr, j + 1, g.1, Add(acc, Mul(pb.lhs[j], g.0)))
              && ChainsFrom(pb, curr, j) == Prepend(j, Chains(pb, curr + pb.deg[j], j)) + ChainsFrom(pb, curr, j + 1)
    ensures j < |pb.lhs| && !pb.Take(curr, j) ==>
              && GenFrom(pb, curr, j, base, acc) == GenFrom(pb, curr, j + 1, base, acc)
              && ChainsFrom(pb, curr, j) == ChainsFrom(pb, curr, j + 1)
  {}

  /** One loop iteration adds the products that start with assumption `j`. */
  lemma TakenStep(lhs: seq<Poly>, acc: Poly, j: nat, p: Poly, cs: seq<seq<nat>>, ds: seq<seq<nat>>, base: nat, e: Env)
    requires j < |lhs|
    requires Proper(acc, 0) && Proper(lhs[j], 0) && Proper(p, 0) && Eval(p, e) == Flat(lhs, cs, base, e)
    ensures Proper(Add(acc, Mul(lhs[j], p)), 0)
    ensures Eval(Add(acc, Mul(lhs[j], p)), e) + Flat(lhs, ds, base + |cs|, e)
         == Eval(acc, e) + Flat(lhs, Prepend(j, cs) + ds, base, e)
  {
    hide Add, Mul, Eval, Proper, Flat;
    FlatPrepend(lhs, j, cs, base, e);
    FlatAppend(lhs, Prepend(j, cs), ds, base, e);
    AddProduct(acc, lhs[j], p, e, Flat(lhs, cs, base, e));
  }

  lemma AddProduct(acc: Poly, p: Poly, q: Poly, e: Env, v: real)
    requires Proper(acc, 0) && Proper(p, 0) && Proper(q, 0) && Eval(q, e) == v
    ensures Proper(Add(acc, Mul(p, q)), 0)
    ensures Eval(Add(acc, Mul(p, q)), e) == Eval(acc, e) + Eval(p, e) * v
  {
    MulProper(p, q, 0);
    MulEval(p, q, 0, e);
    AddProper(acc, Mul(p, q), 0);
    AddEval(acc, Mul(p, q), 0, e);
  }

  // ---------------------------------------------------------------- termination, exactly

  /** The recursion cut off at nesting depth `fuel`: None when it is still running there. */
  ghost function GenFuel(pb: Problem, curr: nat, first: nat, base: nat, fuel: nat): Option<(Poly, nat)>
    requires pb.Valid() && first <= |pb.lhs|
    decreases fuel, |pb.lhs| + 1
  {
    if fuel == 0 then None else
      match GenFromFuel(pb, curr, first, base, Const(0.0), fuel)
      case None => None
      case Some((sum, next)) => Some((Add(sum, Var(next)), next + 1))
  }

  ghost function GenFromFuel(pb: Problem, curr: nat, j: nat, base: nat, acc: Poly, fuel: nat): Option<(Poly, nat)>
    requires pb.Valid() && j <= |pb.lhs| && 0 < fuel
    decreases fuel, |pb.lhs| - j
  {
    if j == |pb.lhs| then Some((acc, base))
    else if pb.Take(curr, j) then
      match GenFuel(pb, curr + pb.deg[j], j, base, fuel - 1)
      case None => None
      case Some((inner, next)) => GenFromFuel(pb, curr, j + 1, next, Add(acc, Mul(pb.lhs[j], inner)), fuel)
    else GenFromFuel(pb, curr, j + 1, base, acc, fuel)
  }

  lemma {:induction false} GenConverges(pb: Problem, curr: nat, first: nat, base: nat, fuel: nat)
    requires pb.Valid() && pb.Halts() && first <= |pb.lhs| && pb.Room(curr) < fuel
    ensures GenFuel(pb, curr, first, base, fuel) == Some(Gen(pb, curr, first, base))
    decreases fuel, |pb.lhs| + 1
  {
    GenFromConverges(pb, curr, first, base, Const(0.0), fuel);
  }

  lemma {:induction false} GenFromConverges(pb: Problem, curr: nat, j: nat, base: nat, acc: Poly, fuel: nat)
    requires pb.Valid() && pb.Halts() && j <= |pb.lhs| && pb.Room(curr) < fuel
    ensures GenFromFuel(pb, curr, j, base, acc, fuel) == Some(GenFrom(pb, curr, j, base, acc))
    decreases fuel, |pb.lhs| - j
  {
    if j < |pb.lhs| {
      if pb.Take(curr, j) {
        GenConverges(pb, curr + pb.deg[j], j, base, fuel - 1);
        var (inner, next) := Gen(pb, curr + pb.deg[j], j, base);
        GenFromConverges(pb, curr, j + 1, next, Add(acc, Mul(pb.lhs[j], inner)), fuel);
      } else {
        GenFromConverges(pb, curr, j + 1, base, acc, fuel);
      }
    }
  }

  lemma {:induction false} GenDiverges(pb: Problem, curr: nat, first: nat, base: nat, fuel: nat, z: nat)
    requires pb.Valid() && first <= z < |pb.lhs| && pb.ok[z] && pb.deg[z] == 0 && curr <= pb.maxDeg
    ensures GenFuel(pb, curr, first, base, fuel) == None
    decreases fuel, |pb.lhs| + 1
  {
    if 0 < fuel {
      GenFromDiverges(pb, curr, first, base, Const(0.0), fuel, z);
    }
  }

  lemma {:induction false} GenFromDiverges(pb: Problem, curr: nat, j: nat, base: nat, acc: Poly, fuel: nat, z: nat)
    requires pb.Valid() && j <= z < |pb.lhs| && pb.ok[z] && pb.deg[z] == 0 && curr <= pb.maxDeg && 0 < fuel
    ensures GenFromFuel(pb, curr, j, base, acc, fuel) == None
    decreases fuel, |pb.lhs| - j
  {
    if j == z {
      GenDiverges(pb, curr, j, base, fuel - 1, z);
    } else if pb.Take(curr, j) {
      match GenFuel(pb, curr + pb.deg[j], j, base, fuel - 1)
      case None =>
      case Some((inner, next)) =>
        GenFromDiverges(pb, curr, j + 1, next, Add(acc, Mul(pb.lhs[j], inner)), fuel, z);
    } else {
      GenFromDiverges(pb, curr, j + 1, base, acc, fuel, z);
    }
  }

  /** The recursion ends if and only if no usable assumption has recorded degree 0, and when it ends
      the nesting is at most `maxDeg + 1` deep. */
  lemma GenTerminatesIff(pb: Problem, base: nat)
    requires pb.Valid()
    ensures (exists fuel: nat :: GenFuel(pb, 0, 0, base, fuel).Some?) <==> pb.Halts()
    ensures pb.Halts() ==> GenFuel(pb, 0, 0, base, pb.Room(0) + 1) == Some(Gen(pb, 0, 0, base))
  {
    if pb.Halts() {
      GenConverges(pb, 0, 0, base, pb.Room(0) + 1);
    } else {
      var z :| 0 <= z < |pb.lhs| && pb.ok[z] && 0 <= pb.maxDeg && pb.deg[z] == 0;
      forall fuel: nat ensures GenFuel(pb, 0, 0, base, fuel) == None {
        GenDiverges(pb, 0, 0, base, fuel, z);
      }
    }
  }
}
