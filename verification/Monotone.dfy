/** Raising the degree bound or adding assumptions never loses a certificate. */
module Monotone {
  import opened Basics
  import opened Multinomial
  import opened Reduction
  import opened Generator
  import opened Certificate

  /** `big` has the assumptions of `small`, possibly more, and at least its degree bound. */
  ghost predicate Extends(small: Core, big: Core) {
    && |small.deg| == |small.lhs| <= |big.lhs| == |big.deg|
    && small.lhs == big.lhs[..|small.lhs|] && small.deg == big.deg[..|small.lhs|]
    && small.maxDeg <= big.maxDeg && small.prog == big.prog
  }

  /** Every symbol the problem mentions has an id below `bound`. */
  ghost predicate Within(co: Core, rhss: seq<Poly>, bound: nat) {
    && (forall j :: 0 <= j < |co.lhs| ==> Below(co.lhs[j], bound))
    && (forall i :: 0 <= i < |rhss| ==> Below(rhss[i], bound))
    && (forall i :: i in co.prog ==> i < bound)
  }

  // ---------------------------------------------------------------- sums over products

  ghost function Sum(cs: seq<seq<nat>>, h: seq<nat> -> real): real {
    if cs == [] then 0.0 else h(cs[0]) + Sum(cs[1..], h)
  }

  ghost function Without<T>(s: seq<T>, k: nat): (r: seq<T>)
    requires k < |s|
    ensures |r| == |s| - 1
  {
    s[..k] + s[k + 1..]
  }

  lemma {:induction false} SumWithout(cs: seq<seq<nat>>, k: nat, h: seq<nat> -> real)
    requires k < |cs|
    ensures Sum(cs, h) == h(cs[k]) + Sum(Without(cs, k), h)
  {
    if k == 0 {
      assert Without(cs, 0) == cs[1..];
    } else {
      SumWithout(cs[1..], k - 1, h);
      assert Without(cs, k)[1..] == Without(cs[1..], k - 1);
    }
  }

  lemma WithoutMembers<T>(s: seq<T>, k: nat)
    requires Distinct(s) && k < |s|
    ensures Distinct(Without(s, k))
    ensures forall x :: x in Without(s, k) <==> x in s && x != s[k]
  {
    forall x | x in s && x != s[k] ensures x in Without(s, k) {
      var i :| 0 <= i < |s| && s[i] == x;
      assert i < k ==> Without(s, k)[i] == x;
      assert k < i ==> Without(s, k)[i - 1] == x;
    }
  }

  /** Summands outside the smaller family are zero, so both families have the same sum. */
  lemma {:induction false} SumSubset(cs: seq<seq<nat>>, ds: seq<seq<nat>>, h: seq<nat> -> real)
    requires Distinct(cs) && Distinct(ds)
    requires forall c :: c in cs ==> c in ds
    requires forall d :: d in ds && d !in cs ==> h(d) == 0.0
    ensures Sum(cs, h) == Sum(ds, h)
    decreases |ds|
  {
    if ds == [] {
    } else {
      assert ds == [ds[0]] + ds[1..];
      assert Distinct(ds[1..]) && ds[0] !in ds[1..];
      if ds[0] in cs {
        var k :| 0 <= k < |cs| && cs[k] == ds[0];
        SumWithout(cs, k, h);
        WithoutMembers(cs, k);
        SumSubset(Without(cs, k), ds[1..], h);
      } else {
        SumSubset(cs, ds[1..], h);
      }
    }
  }

  /** The weight that template values from `base` on give to a product; zero for other products. */
  ghost function Weight(cs: seq<seq<nat>>, base: nat, e: Env, c: seq<nat>): real {
    if cs == [] then 0.0 else if cs[0] == c then e(base) else Weight(cs[1..], base + 1, e, c)
  }

  lemma {:induction false} WeightAt(cs: seq<seq<nat>>, base: nat, e: Env, k: nat)
    requires Distinct(cs) && k < |cs|
    ensures Weight(cs, base, e, cs[k]) == e(base + k)
  {
    if k != 0 {
      WeightAt(cs[1..], base + 1, e, k - 1);
    }
  }

  lemma {:induction false} WeightOutside(cs: seq<seq<nat>>, base: nat, e: Env, c: seq<nat>)
    requires c !in cs
    ensures Weight(cs, base, e, c) == 0.0
  {
    if cs != [] { WeightOutside(cs[1..], base + 1, e, c); }
  }

  lemma {:induction false} WeightNonNegative(cs: seq<seq<nat>>, base: nat, e: Env, c: seq<nat>)
    requires NonNegative(e, base, base + |cs|)
    ensures 0.0 <= Weight(cs, base, e, c)
  {
    if cs != [] { WeightNonNegative(cs[1..], base + 1, e, c); }
  }

  /** A flat sum is the sum of weight times product, for any weights that match the templates. */
  lemma {:induction false} FlatIsSum(lhs: seq<Poly>, cs: seq<seq<nat>>, base: nat, f: Env, w: seq<nat> -> real)
    requires forall k: nat :: k < |cs| ==> w(cs[k]) == f(base + k)
    ensures Flat(lhs, cs, base, f) == Sum(cs, c => w(c) * Prod(lhs, c, f))
    decreases |cs|
  {
    if cs != [] {
      assert w(cs[0]) == f(base + 0);
      forall k: nat | k < |cs[1..]| ensures w(cs[1..][k]) == f(base + 1 + k) {
        assert cs[1..][k] == cs[k + 1] && base + 1 + k == base + (k + 1);
      }
      FlatIsSum(lhs, cs[1..], base + 1, f, w);
    }
  }

  lemma {:induction false} ProdAgree(lhs: seq<Poly>, more: seq<Poly>, c: seq<nat>, bound: nat, f: Env, g: Env)
    requires lhs <= more && Indices(|lhs|, c)
    requires forall j :: 0 <= j < |lhs| ==> Below(lhs[j], bound)
    requires forall i: nat :: i < bound ==> f(i) == g(i)
    ensures Prod(lhs, c, f) == Prod(more, c, g)
    decreases |c|
  {
    if c != [] {
      EvalBelow(lhs[c[0]], bound, f, g);
      ProdAgree(lhs, more, c[1..], bound, f, g);
    }
  }

  // ---------------------------------------------------------------- products of the larger problem

  lemma {:induction false} DegSumExtends(deg: seq<nat>, more: seq<nat>, c: seq<nat>)
    requires deg <= more && Indices(|deg|, c)
    ensures DegSum(deg, c) == DegSum(more, c)
  {
    if c != [] { DegSumExtends(deg, more, c[1..]); }
  }

  lemma ProductsExtend(small: Core, big: Core, rhs: Poly, c: seq<nat>)
    requires small.Valid() && big.Valid() && Extends(small, big)
    requires small.For(rhs).Halts() && big.For(rhs).Halts() && c in Products(small, rhs)
    ensures c in Products(big, rhs) && Indices(|small.lhs|, c)
  {
    ChainsAreProducts(small.For(rhs));
    ChainsAreProducts(big.For(rhs));
    assert Product(small.For(rhs), c);
    DegSumExtends(small.deg, big.deg, c);
    assert Product(big.For(rhs), c);
  }

  // ---------------------------------------------------------------- carrying a solution over

  /** The weights of the smaller problem's products, placed where the larger problem has them. */
  ghost function Carry(small: Core, big: Core, rhs: Poly, base: nat, base': nat, e: Env, e': Env): Env
    requires small.Valid() && big.Valid() && small.For(rhs).Halts() && big.For(rhs).Halts()
  {
    var cs, ds := Products(small, rhs), Products(big, rhs);
    (i: nat) => if base' <= i < base' + |ds| then Weight(cs, base, e, ds[i - base']) else e'(i)
  }

  lemma CarryRepresents(small: Core, big: Core, rhs: Poly, bound: nat, base: nat, base': nat, e: Env, e': Env)
    requires small.Valid() && big.Valid() && Extends(small, big)
    requires small.For(rhs).Halts() && big.For(rhs).Halts() && Within(small, [rhs], bound)
    requires bound <= base && bound <= base' && forall i: nat :: i < bound ==> e'(i) == e(i)
    requires Represents(small, rhs, base, e)
    ensures Represents(big, rhs, base', Carry(small, big, rhs, base, base', e, e'))
  {
    hide Products, Eval, Flat, Weight;
    var cs, ds, e2 := Products(small, rhs), Products(big, rhs), Carry(small, big, rhs, base, base', e, e');
    forall i: nat | base' <= i < base' + |ds| ensures 0.0 <= e2(i) {
      WeightNonNegative(cs, base, e, ds[i - base']);
    }
    forall f: Env | SameTemplates(big.prog, e2, f) ensures Flat(big.lhs, ds, base', f) == Eval(rhs, f) {
      CarryFlat(small, big, rhs, bound, base, base', e, e', f);
    }
  }

  lemma CarryFlat(small: Core, big: Core, rhs: Poly, bound: nat, base: nat, base': nat, e: Env, e': Env, f: Env)
    requires small.Valid() && big.Valid() && Extends(small, big)
    requires small.For(rhs).Halts() && big.For(rhs).Halts() && Within(small, [rhs], bound)
    requires bound <= base && bound <= base' && forall i: nat :: i < bound ==> e'(i) == e(i)
    requires Represents(small, rhs, base, e)
    requires SameTemplates(big.prog, Carry(small, big, rhs, base, base', e, e'), f)
    ensures Flat(big.lhs, Products(big, rhs), base', f) == Eval(rhs, f)
  {
    hide Products, Eval, Flat, Weight, Prod, Sum;
    var cs, ds := Products(small, rhs), Products(big, rhs);
    var g := Merge(small.prog, f, e);
    assert SameTemplates(small.prog, e, g);
    forall i: nat | i < bound ensures g(i) == f(i) {}
    assert [rhs][0] == rhs;
    EvalBelow(rhs, bound, g, f);
    var w: seq<nat> -> real := c => Weight(cs, base, e, c);
    ChainsAreProducts(small.For(rhs));
    ChainsAreProducts(big.For(rhs));
    assert Distinct(cs) && Distinct(ds) by { ProductsDistinct(small, rhs); ProductsDistinct(big, rhs); }
    forall k: nat | k < |cs| ensures w(cs[k]) == g(base + k) { WeightAt(cs, base, e, k); }
    forall k: nat | k < |ds| ensures w(ds[k]) == f(base' + k) {}
    FlatIsSum(small.lhs, cs, base, g, w);
    FlatIsSum(big.lhs, ds, base', f, w);
    var hs: seq<nat> -> real := c => w(c) * Prod(small.lhs, c, g);
    var hb: seq<nat> -> real := c => w(c) * Prod(big.lhs, c, f);
    forall c | c in cs ensures c in ds && hs(c) == hb(c) {
      ProductsExtend(small, big, rhs, c);
      assert small.lhs <= big.lhs;
      ProdAgree(small.lhs, big.lhs, c, bound, g, f);
    }
    forall d | d in ds && d !in cs ensures hb(d) == 0.0 { WeightOutside(cs, base, e, d); }
    SumCongruent(cs, hs, hb);
    SumSubset(cs, ds, hb);
  }

  lemma ProductsDistinct(co: Core, rhs: Poly)
    requires co.Valid() && co.For(rhs).Halts()
    ensures Distinct(Products(co, rhs))
  {
    ChainsAreProducts(co.For(rhs));
  }

  function Merge(prog: set<nat>, f: Env, e: Env): Env {
    (i: nat) => if i in prog then f(i) else e(i)
  }

  lemma {:induction false} SumCongruent(cs: seq<seq<nat>>, h: seq<nat> -> real, h': seq<nat> -> real)
    requires forall c :: c in cs ==> h(c) == h'(c)
    ensures Sum(cs, h) == Sum(cs, h')
  {
    if cs != [] {
      assert cs[0] in cs;
      assert forall c :: c in cs[1..] ==> c in cs;
      SumCongruent(cs[1..], h, h');
    }
  }

  /** Later blocks of the system only see symbols of the problem and their own templates. */
  lemma {:induction false} RepresentsAllFrame(co: Core, rhss: seq<Poly>, bound: nat, base: nat, e: Env, e': Env)
    requires co.Valid() && co.Halts(rhss) && Within(co, rhss, bound) && bound <= base
    requires RepresentsAll(co, rhss, base, e)
    requires forall i: nat :: i < bound || base <= i ==> e(i) == e'(i)
    ensures RepresentsAll(co, rhss, base, e')
    decreases |rhss|
  {
    hide Products, Eval, Flat, Below, Proper;
    if rhss != [] {
      RepresentsFrame(co, rhss[0], bound, base, e, e');
      RepresentsAllFrame(co, rhss[1..], bound, base + |Products(co, rhss[0])|, e, e');
    }
  }

  lemma RepresentsFrame(co: Core, rhs: Poly, bound: nat, base: nat, e: Env, e': Env)
    requires co.Valid() && co.For(rhs).Halts() && Within(co, [rhs], bound) && bound <= base
    requires Represents(co, rhs, base, e)
    requires forall i: nat :: i < bound || base <= i ==> e(i) == e'(i)
    ensures Represents(co, rhs, base, e')
  {
    hide Products, Eval, Flat, Below;
    forall f: Env | SameTemplates(co.prog, e', f) ensures Flat(co.lhs, Products(co, rhs), base, f) == Eval(rhs, f) {
      var g := Merge(co.prog, f, e);
      assert SameTemplates(co.prog, e, g);
      forall i: nat | i < bound || base <= i ensures f(i) == g(i) {}
      assert [rhs][0] == rhs;
      EvalBelow(rhs, bound, f, g);
      forall c | c in Products(co, rhs) ensures Indices(|co.lhs|, c) { ProductIndices(co, rhs, c); }
      FlatAgree(co.lhs, Products(co, rhs), bound, base, f, g);
    }
  }

  lemma ProductIndices(co: Core, rhs: Poly, c: seq<nat>)
    requires co.Valid() && co.For(rhs).Halts() && c in Products(co, rhs)
    ensures Indices(|co.lhs|, c)
  {
    ChainsAreProducts(co.For(rhs));
    assert Product(co.For(rhs), c);
  }

  lemma {:induction false} FlatAgree(lhs: seq<Poly>, cs: seq<seq<nat>>, bound: nat, base: nat, f: Env, g: Env)
    requires forall j :: 0 <= j < |lhs| ==> Below(lhs[j], bound)
    requires forall c :: c in cs ==> Indices(|lhs|, c)
    requires forall i: nat :: i < bound || base <= i ==> f(i) == g(i)
    ensures Flat(lhs, cs, base, f) == Flat(lhs, cs, base, g)
    decreases |cs|
  {
    hide Prod, Below;
    if cs != [] {
      assert cs[0] in cs && forall c :: c in cs[1..] ==> c in cs;
      ProdAgree(lhs, lhs, cs[0], bound, f, g);
      FlatAgree(lhs, cs[1..], bound, base + 1, f, g);
    }
  }

  lemma {:induction false} CarryAll(small: Core, big: Core, rhss: seq<Poly>, bound: nat, base: nat, base': nat, e: Env)
    returns (e': Env)
    requires small.Valid() && big.Valid() && Extends(small, big) && small.Halts(rhss) && big.Halts(rhss)
    requires Within(small, rhss, bound) && Within(big, rhss, bound) && bound <= base && bound <= base'
    requires RepresentsAll(small, rhss, base, e)
    ensures forall i: nat :: i < bound ==> e'(i) == e(i)
    ensures RepresentsAll(big, rhss, base', e')
    decreases |rhss|
  {
    hide Products, Represents, Below, Proper;
    if rhss == [] {
      e' := e;
    } else {
      var next, next' := base + |Products(small, rhss[0])|, base' + |Products(big, rhss[0])|;
      var rest := CarryAll(small, big, rhss[1..], bound, next, next', e);
      e' := Carry(small, big, rhss[0], base, base', e, rest);
      assert Within(small, [rhss[0]], bound);
      CarryRepresents(small, big, rhss[0], bound, base, base', e, rest);
      RepresentsAllFrame(big, rhss[1..], bound, next', rest, e');
    }
  }

  /** Every solution of the smaller system extends, with the same values for all existing symbols, to
      a solution of the larger one. */
  lemma LargerSystemKeepsSolutions(small: Core, big: Core, rhss: seq<Poly>, base: nat, e: Env)
    requires small.Valid() && big.Valid() && Extends(small, big) && small.Halts(rhss) && big.Halts(rhss)
    requires Within(big, rhss, base) && small.InOrder(rhss, base)
    requires Solves(small, rhss, base, e)
    ensures exists e': Env :: (forall i: nat :: i < base ==> e'(i) == e(i)) && Solves(big, rhss, base, e')
  {
    hide Products, Represents, Below, Proper, Solves;
    SolvesExact(small, rhss, base, e);
    assert Within(small, rhss, base);
    var e' := CarryAll(small, big, rhss, base, base, base, e);
    RepresentationsSolve(big, rhss, base, e');
  }
}
