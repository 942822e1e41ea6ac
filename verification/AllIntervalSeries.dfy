/** The all-interval series problem (problem 007 of CSPLib): its Boolean encoding and the enumeration
    of all its models with blocking clauses. */
module AllIntervalSeries {
  import opened Basics

  /** `Bool(i, j)` says that the value at position `i` is `j`. */
  datatype Expr =
    | Bool(i: nat, j: nat)
    | And(args: seq<Expr>)
    | Or(args: seq<Expr>)
    | Not(arg: Expr)
    | AtMost(args: seq<Expr>, k: nat)

  /** Truth values of all `Bool(i, j)`. */
  type Matrix = seq<seq<bool>>

  ghost predicate Shape(m: Matrix, n: nat) {
    |m| == n && forall i :: 0 <= i < n ==> |m[i]| == n
  }

  predicate Cell(m: Matrix, i: nat, j: nat) {
    i < |m| && j < |m[i]| && m[i][j]
  }

  predicate Eval(e: Expr, m: Matrix)
    decreases e, 0
  {
    match e
    case Bool(i, j) => Cell(m, i, j)
    case And(args) => forall k | 0 <= k < |args| :: Eval(args[k], m)
    case Or(args) => exists k | 0 <= k < |args| :: Eval(args[k], m)
    case Not(a) => !Eval(a, m)
    case AtMost(args, k) => CountTrue(args, m) <= k
  }

  function CountTrue(args: seq<Expr>, m: Matrix): nat
    decreases args, 1
  {
    if args == [] then 0 else (if Eval(args[0], m) then 1 else 0) + CountTrue(args[1..], m)
  }

  predicate Sat(s: seq<Expr>, m: Matrix) {
    forall k | 0 <= k < |s| :: Eval(s[k], m)
  }

  // ---------------------------------------------------------------- the encoding

  /** The difference between the values at positions `j` and `j + 1` is `i`. */
  function DiffAt(n: nat, j: nat, i: nat): Expr
    requires j + 1 < n && 1 <= i < n
  {
    Or(seq(n - i, (k: nat) => And([Bool(j, k + i), Bool(j + 1, k)])) +
       seq(n - i, (k: nat) => And([Bool(j, k), Bool(j + 1, k + i)])))
  }

  function Row(n: nat, i: nat): seq<Expr> {
    seq(n, (j: nat) => Bool(i, j))
  }

  function Column(n: nat, j: nat): seq<Expr> {
    seq(n, (i: nat) => Bool(i, j))
  }

  /** The possible differences at position `j`. */
  function DiffRow(n: nat, j: nat): seq<Expr>
    requires j + 1 < n
  {
    seq(n - 1, i requires 0 <= i < n - 1 => DiffAt(n, j, i + 1))
  }

  /** The positions at which the difference can be `i + 1`. */
  function DiffColumn(n: nat, i: nat): seq<Expr>
    requires i + 1 < n
  {
    seq(n - 1, j requires 0 <= j < n - 1 => DiffAt(n, j, i + 1))
  }

  /** n - 1, or 0 for the empty problem: the number of adjacent pairs. */
  function Pairs(n: nat): nat {
    if n == 0 then 0 else n - 1
  }

  function Rows(n: nat): seq<seq<Expr>> {
    seq(n, (i: nat) => Row(n, i))
  }

  function Columns(n: nat): seq<seq<Expr>> {
    seq(n, (j: nat) => Column(n, j))
  }

  function DiffRows(n: nat): seq<seq<Expr>> {
    seq(Pairs(n), j requires 0 <= j < Pairs(n) => DiffRow(n, j))
  }

  function DiffColumns(n: nat): seq<seq<Expr>> {
    seq(Pairs(n), i requires 0 <= i < Pairs(n) => DiffColumn(n, i))
  }

  /** For each list, the two constraints that exactly one of its elements is true. */
  function ExactlyOnes(lists: seq<seq<Expr>>): seq<Expr> {
    if lists == [] then []
    else
      var k := |lists| - 1;
      ExactlyOnes(lists[..k]) + [AtMost(lists[k], 1), Or(lists[k])]
  }

  function Encoding(n: nat): seq<Expr> {
    ExactlyOnes(Rows(n)) + ExactlyOnes(Columns(n)) + ExactlyOnes(DiffRows(n)) + ExactlyOnes(DiffColumns(n))
  }

  lemma ExactlyOnesStep(lists: seq<seq<Expr>>, k: nat)
    requires k < |lists|
    ensures ExactlyOnes(lists[..k + 1]) == ExactlyOnes(lists[..k]) + [AtMost(lists[k], 1)] + [Or(lists[k])]
  {
    assert lists[..k + 1][..k] == lists[..k];
  }

  /** Builds the constraints in the order the solver receives them. */
  method Ais(n: nat) returns (s: seq<Expr>)
    ensures s == Encoding(n)
  {
    hide ExactlyOnes;
    s := [];
    ghost var done := [];
    NoLists();
    for i := 0 to n
      invariant s == ExactlyOnes(Rows(n)[..i])
    {
      ExactlyOnesStep(Rows(n), i);
      s := s + [AtMost(Row(n, i), 1)];
      s := s + [Or(Row(n, i))];
    }
    assert Rows(n)[..n] == Rows(n);
    done := s;
    for j := 0 to n
      invariant s == done + ExactlyOnes(Columns(n)[..j])
    {
      ExactlyOnesStep(Columns(n), j);
      s := s + [AtMost(Column(n, j), 1)];
      s := s + [Or(Column(n, j))];
    }
    assert Columns(n)[..n] == Columns(n);
    done := s;
    for j := 0 to Pairs(n)
      invariant s == done + ExactlyOnes(DiffRows(n)[..j])
    {
      ExactlyOnesStep(DiffRows(n), j);
      s := s + [AtMost(DiffRow(n, j), 1)];
      s := s + [Or(DiffRow(n, j))];
    }
    assert DiffRows(n)[..Pairs(n)] == DiffRows(n);
    done := s;
    for i := 0 to Pairs(n)
      invariant s == done + ExactlyOnes(DiffColumns(n)[..i])
    {
      ExactlyOnesStep(DiffColumns(n), i);
      s := s + [AtMost(DiffColumn(n, i), 1)];
      s := s + [Or(DiffColumn(n, i))];
    }
    assert DiffColumns(n)[..Pairs(n)] == DiffColumns(n);
  }

  lemma NoLists()
    ensures forall ls: seq<seq<Expr>> :: ExactlyOnes(ls[..0]) == []
  {}

  // ---------------------------------------------------------------- the problem itself

  /** All elements lie in `lo..hi-1`. */
  ghost predicate Bounded(v: seq<nat>, lo: nat, hi: nat) {
    forall i :: 0 <= i < |v| ==> lo <= v[i] < hi
  }

  /** Every number in `lo..hi-1` occurs. */
  ghost predicate Covers(v: seq<nat>, lo: nat, hi: nat) {
    forall x: nat :: lo <= x < hi ==> x in v
  }

  ghost predicate Permutation(v: seq<nat>, n: nat) {
    |v| == n && Bounded(v, 0, n) && Distinct(v) && Covers(v, 0, n)
  }

  function Distance(a: nat, b: nat): nat {
    if a < b then b - a else a - b
  }

  /** The adjacent differences. */
  function Diffs(v: seq<nat>): seq<nat> {
    seq(Pairs(|v|), j requires 0 <= j < Pairs(|v|) => Distance(v[j], v[j + 1]))
  }

  /** A permutation of 0..n-1 whose adjacent differences take each value 1..n-1 exactly once. */
  ghost predicate IsSeries(v: seq<nat>, n: nat): (b: bool)
    ensures b ==> |v| == n && Bounded(v, 0, n)
  {
    Permutation(v, n) && Distinct(Diffs(v)) && Covers(Diffs(v), 1, n)
  }

  /** The matrix that puts value `v[i]` at position `i`. */
  function MatrixOf(v: seq<nat>, n: nat): Matrix
    requires |v| == n
  {
    seq(n, i requires 0 <= i < n => seq(n, (j: nat) => v[i] == j))
  }

  // ---------------------------------------------------------------- pigeonhole

  /** As many numbers as there are in `lo..hi-1`, all of them in that range, are pairwise distinct
      exactly when every number of the range occurs. */
  lemma Pigeonhole(v: seq<nat>, lo: nat, hi: nat)
    requires lo <= hi && |v| == hi - lo && Bounded(v, lo, hi)
    ensures Distinct(v) <==> Covers(v, lo, hi)
  {
    hide Range, Distinct;
    ElementsSize(v);
    assert Elements(v) <= Range(lo, hi);
    if Distinct(v) {
      SubsetSize(Elements(v), Range(lo, hi));
      forall x: nat | lo <= x < hi ensures x in v {
        assert x in Elements(v);
      }
    }
    if Covers(v, lo, hi) {
      forall x | x in Range(lo, hi) ensures x in Elements(v) {
        assert x in v;
        var i :| 0 <= i < |v| && v[i] == x;
      }
      assert Elements(v) == Range(lo, hi);
    }
  }

  /** For a permutation every difference lies in 1..n-1, so "every difference at most once" and "every
      difference at least once" are the same condition. */
  lemma AtMostOnceIffAtLeastOnce(v: seq<nat>, n: nat)
    requires Permutation(v, n)
    ensures Bounded(Diffs(v), 1, n)
    ensures Distinct(Diffs(v)) <==> Covers(Diffs(v), 1, n)
  {
    if n == 0 { return; }
    forall j | 0 <= j < |Diffs(v)| ensures 1 <= Diffs(v)[j] < n {
      assert v[j] != v[j + 1];
    }
    Pigeonhole(Diffs(v), 1, n);
  }

  ghost predicate SoleIndex(w: seq<nat>, x: nat, i: nat) {
    i < |w| && forall k :: 0 <= k < |w| ==> (w[k] == x <==> k == i)
  }

  ghost predicate OccursOnce(w: seq<nat>, x: nat) {
    exists i: nat :: SoleIndex(w, x, i)
  }

  lemma OnceMeans(w: seq<nat>, lo: nat, hi: nat)
    requires Bounded(w, lo, hi)
    ensures (forall x: nat :: lo <= x < hi ==> OccursOnce(w, x)) <==> Distinct(w) && Covers(w, lo, hi)
  {
    if forall x: nat :: lo <= x < hi ==> OccursOnce(w, x) {
      forall i, j | 0 <= i < j < |w| ensures w[i] != w[j] {
        assert OccursOnce(w, w[i]);
      }
      forall x: nat | lo <= x < hi ensures x in w {
        assert OccursOnce(w, x);
        var i: nat :| SoleIndex(w, x, i);
        assert w[i] == x;
      }
    }
    if Distinct(w) && Covers(w, lo, hi) {
      forall x: nat | lo <= x < hi ensures OccursOnce(w, x) {
        assert x in w;
        var i :| 0 <= i < |w| && w[i] == x;
        assert SoleIndex(w, x, i);
      }
    }
  }

  // ---------------------------------------------------------------- exactly one

  /** Precisely the argument at index `k` is true. */
  ghost predicate OnlyAt(args: seq<Expr>, m: Matrix, k: nat) {
    k < |args| && forall i :: 0 <= i < |args| ==> (Eval(args[i], m) <==> i == k)
  }

  lemma {:induction false} CountBounds(args: seq<Expr>, m: Matrix)
    ensures CountTrue(args, m) == 0 <==> forall i :: 0 <= i < |args| ==> !Eval(args[i], m)
    ensures CountTrue(args, m) == 1 <==> exists k: nat :: OnlyAt(args, m, k)
    decreases |args|
  {
    if args != [] {
      var tl := args[1..];
      CountBounds(tl, m);
      assert forall i :: 0 <= i < |tl| ==> tl[i] == args[i + 1];
      assert forall i :: 1 <= i < |args| ==> args[i] == tl[i - 1];
      if Eval(args[0], m) {
        if CountTrue(tl, m) == 0 {
          assert OnlyAt(args, m, 0);
        }
        if k: nat :| OnlyAt(args, m, k) {
          assert k == 0;
        }
      } else {
        if k: nat :| OnlyAt(tl, m, k) {
          assert OnlyAt(args, m, k + 1);
        }
        if k: nat :| OnlyAt(args, m, k) {
          assert OnlyAt(tl, m, k - 1);
        }
      }
    }
  }

  ghost predicate One(args: seq<Expr>, m: Matrix) {
    exists k: nat :: OnlyAt(args, m, k)
  }

  lemma OneMeans(args: seq<Expr>, m: Matrix)
    ensures Eval(AtMost(args, 1), m) && Eval(Or(args), m) <==> One(args, m)
  {
    CountBounds(args, m);
    if k: nat :| OnlyAt(args, m, k) {
      assert Eval(args[k], m);
    }
  }

  lemma SatAppend(s: seq<Expr>, t: seq<Expr>, m: Matrix)
    ensures Sat(s + t, m) <==> Sat(s, m) && Sat(t, m)
  {
    if Sat(s + t, m) {
      assert forall k :: 0 <= k < |s| ==> (s + t)[k] == s[k];
      forall k | 0 <= k < |t| ensures Eval(t[k], m) { assert (s + t)[|s| + k] == t[k]; }
    }
  }

  lemma {:induction false} ExactlyOnesMeans(lists: seq<seq<Expr>>, m: Matrix)
    ensures Sat(ExactlyOnes(lists), m) <==> forall i :: 0 <= i < |lists| ==> One(lists[i], m)
    decreases |lists|
  {
    hide One, Eval;
    if lists != [] {
      var k := |lists| - 1;
      ExactlyOnesMeans(lists[..k], m);
      var two := [AtMost(lists[k], 1), Or(lists[k])];
      SatAppend(ExactlyOnes(lists[..k]), two, m);
      OneMeans(lists[k], m);
      assert Sat(two, m) <==> Eval(two[0], m) && Eval(two[1], m);
    }
  }

  lemma EncodingMeans(n: nat, m: Matrix)
    ensures Sat(Encoding(n), m) <==>
            && (forall i :: 0 <= i < n ==> One(Row(n, i), m))
            && (forall j :: 0 <= j < n ==> One(Column(n, j), m))
            && (forall j :: 0 <= j < n - 1 ==> One(DiffRow(n, j), m))
            && (forall i :: 0 <= i < n - 1 ==> One(DiffColumn(n, i), m))
  {
    hide One, Sat, ExactlyOnes, DiffRow, DiffColumn, Row, Column;
    var a, b, c, d := ExactlyOnes(Rows(n)), ExactlyOnes(Columns(n)), ExactlyOnes(DiffRows(n)), ExactlyOnes(DiffColumns(n));
    SatAppend(a, b, m);
    SatAppend(a + b, c, m);
    SatAppend(a + b + c, d, m);
    ExactlyOnesMeans(Rows(n), m);
    ExactlyOnesMeans(Columns(n), m);
    ExactlyOnesMeans(DiffRows(n), m);
    ExactlyOnesMeans(DiffColumns(n), m);
    assert forall i :: 0 <= i < n ==> Rows(n)[i] == Row(n, i) && Columns(n)[i] == Column(n, i);
    assert forall i :: 0 <= i < n - 1 ==> DiffRows(n)[i] == DiffRow(n, i) && DiffColumns(n)[i] == DiffColumn(n, i);
  }

  // ---------------------------------------------------------------- matrices of sequences

  lemma RowOne(v: seq<nat>, n: nat, i: nat)
    requires |v| == n && i < n && Bounded(v, 0, n)
    ensures OnlyAt(Row(n, i), MatrixOf(v, n), v[i])
  {}

  lemma ColumnOne(v: seq<nat>, n: nat, j: nat)
    requires |v| == n && Bounded(v, 0, n) && j < n
    ensures One(Column(n, j), MatrixOf(v, n)) <==> OccursOnce(v, j)
  {
    forall i | 0 <= i < n ensures Eval(Column(n, j)[i], MatrixOf(v, n)) <==> v[i] == j {}
    SameIndices(Column(n, j), MatrixOf(v, n), v, j);
  }

  lemma SameIndices(args: seq<Expr>, m: Matrix, w: seq<nat>, x: nat)
    requires |args| == |w| && forall i :: 0 <= i < |w| ==> (Eval(args[i], m) <==> w[i] == x)
    ensures One(args, m) <==> OccursOnce(w, x)
  {
    forall i: nat ensures OnlyAt(args, m, i) <==> SoleIndex(w, x, i) {}
  }

  /** At the matrix of a sequence, the difference formula says what its name says. */
  lemma DiffAtMeans(v: seq<nat>, n: nat, j: nat, i: nat)
    requires |v| == n && Bounded(v, 0, n) && j + 1 < n && 1 <= i < n
    ensures Eval(DiffAt(n, j, i), MatrixOf(v, n)) <==> Distance(v[j], v[j + 1]) == i
  {
    hide MatrixOf, Eval;
    var m, args := MatrixOf(v, n), DiffAt(n, j, i).args;
    OrMeans(args, m);
    forall k | 0 <= k < |args| ensures Eval(args[k], m) <==> DiffChoice(v, n, j, i, k) { DiffArgMeans(v, n, j, i, k); }
    if Distance(v[j], v[j + 1]) == i {
      assert DiffChoice(v, n, j, i, if v[j] > v[j + 1] then v[j + 1] else n - i + v[j]);
    }
  }

  /** What choice `k` of the clause says. */
  ghost predicate DiffChoice(v: seq<nat>, n: nat, j: nat, i: nat, k: int)
    requires j + 1 < |v| && 1 <= i < n
  {
    if k < n - i then v[j] == k + i && v[j + 1] == k else v[j] == k - (n - i) && v[j + 1] == k - (n - i) + i
  }

  lemma DiffArgMeans(v: seq<nat>, n: nat, j: nat, i: nat, k: nat)
    requires |v| == n && j + 1 < n && 1 <= i < n && k < |DiffAt(n, j, i).args|
    ensures Eval(DiffAt(n, j, i).args[k], MatrixOf(v, n)) <==> DiffChoice(v, n, j, i, k)
  {
    hide MatrixOf, Eval;
    if k < n - i {
      PairMeans(v, n, j, k + i, k);
    } else {
      PairMeans(v, n, j, k - (n - i), k - (n - i) + i);
    }
  }

  lemma OrMeans(args: seq<Expr>, m: Matrix)
    ensures Eval(Or(args), m) <==> exists k :: 0 <= k < |args| && Eval(args[k], m)
  {}

  lemma PairMeans(v: seq<nat>, n: nat, j: nat, a: nat, b: nat)
    requires |v| == n && j + 1 < n && a < n && b < n
    ensures Eval(And([Bool(j, a), Bool(j + 1, b)]), MatrixOf(v, n)) <==> v[j] == a && v[j + 1] == b
  {
    var m, args := MatrixOf(v, n), [Bool(j, a), Bool(j + 1, b)];
    assert Eval(args[0], m) <==> v[j] == a;
    assert Eval(args[1], m) <==> v[j + 1] == b;
  }

  lemma {:induction false} RowsGiveSequence(n: nat, m: Matrix, k: nat) returns (v: seq<nat>)
    requires Shape(m, n) && k <= n && forall i :: 0 <= i < n ==> One(Row(n, i), m)
    ensures |v| == k && Bounded(v, 0, n) && forall i, j :: 0 <= i < k && 0 <= j < n ==> (m[i][j] <==> v[i] == j)
  {
    if k == 0 {
      v := [];
    } else {
      var w := RowsGiveSequence(n, m, k - 1);
      var c: nat :| OnlyAt(Row(n, k - 1), m, c);
      var row := m[k - 1];
      forall j | 0 <= j < n ensures row[j] <==> c == j {
        assert Row(n, k - 1)[j] == Bool(k - 1, j);
        assert Eval(Row(n, k - 1)[j], m) <==> row[j];
      }
      v := w + [c];
    }
  }

  lemma MatrixFromRows(v: seq<nat>, n: nat, m: Matrix)
    requires Shape(m, n) && |v| == n && forall i, j :: 0 <= i < n && 0 <= j < n ==> (m[i][j] <==> v[i] == j)
    ensures m == MatrixOf(v, n)
  {
    var w := MatrixOf(v, n);
    forall i | 0 <= i < n ensures m[i] == w[i] {
      forall j | 0 <= j < n ensures m[i][j] == w[i][j] {}
    }
  }

  /** At the matrix of a sequence, the column constraints say that it is a permutation. */
  lemma ColumnsMeanPermutation(v: seq<nat>, n: nat)
    requires |v| == n && Bounded(v, 0, n)
    ensures (forall j :: 0 <= j < n ==> One(Column(n, j), MatrixOf(v, n))) <==> Permutation(v, n)
  {
    hide Column, MatrixOf, One, OccursOnce;
    OnceMeans(v, 0, n);
    forall j: nat | j < n ensures One(Column(n, j), MatrixOf(v, n)) <==> OccursOnce(v, j) {
      ColumnOne(v, n, j);
    }
  }

  lemma DiffRowOne(v: seq<nat>, n: nat, j: nat)
    requires Permutation(v, n) && j + 1 < n
    ensures One(DiffRow(n, j), MatrixOf(v, n))
  {
    hide Eval, MatrixOf, DiffAt;
    var m, d := MatrixOf(v, n), Distance(v[j], v[j + 1]);
    assert v[j] != v[j + 1];
    forall i | 0 <= i < n - 1 ensures Eval(DiffRow(n, j)[i], m) <==> i == d - 1 {
      DiffAtMeans(v, n, j, i + 1);
    }
    assert OnlyAt(DiffRow(n, j), m, d - 1);
  }

  /** "Difference `i + 1` occurs somewhere" and "it occurs exactly once" at the matrix of a sequence. */
  lemma DiffColumnMeans(v: seq<nat>, n: nat, i: nat)
    requires |v| == n && Bounded(v, 0, n) && i + 1 < n
    ensures Eval(Or(DiffColumn(n, i)), MatrixOf(v, n)) <==> i + 1 in Diffs(v)
    ensures One(DiffColumn(n, i), MatrixOf(v, n)) <==> OccursOnce(Diffs(v), i + 1)
  {
    hide MatrixOf, DiffAt;
    var m, args := MatrixOf(v, n), DiffColumn(n, i);
    forall j | 0 <= j < n - 1 ensures Eval(args[j], m) <==> Diffs(v)[j] == i + 1 {
      DiffAtMeans(v, n, j, i + 1);
    }
    SameIndices(args, m, Diffs(v), i + 1);
    if i + 1 in Diffs(v) {
      var j :| 0 <= j < n - 1 && Diffs(v)[j] == i + 1;
      assert Eval(args[j], m);
    }
  }

  /** For a permutation, the constraints per difference hold exactly for all-interval series, and it is
      enough to ask that every difference occurs. */
  lemma DiffColumnsMeanSeries(v: seq<nat>, n: nat)
    requires Permutation(v, n)
    ensures (forall i :: 0 <= i < n - 1 ==> One(DiffColumn(n, i), MatrixOf(v, n))) <==> IsSeries(v, n)
    ensures (forall i :: 0 <= i < n - 1 ==> Eval(Or(DiffColumn(n, i)), MatrixOf(v, n))) <==> IsSeries(v, n)
  {
    hide One, Eval, MatrixOf, DiffColumn, Diffs, OccursOnce;
    var m, d := MatrixOf(v, n), Diffs(v);
    AtMostOnceIffAtLeastOnce(v, n);
    OnceMeans(d, 1, n);
    forall i: nat | i < n - 1
      ensures Eval(Or(DiffColumn(n, i)), m) <==> i + 1 in d
      ensures One(DiffColumn(n, i), m) <==> OccursOnce(d, i + 1)
    {
      DiffColumnMeans(v, n, i);
    }
    if forall i :: 0 <= i < n - 1 ==> One(DiffColumn(n, i), m) {
      forall x: nat | 1 <= x < n ensures OccursOnce(d, x) { assert One(DiffColumn(n, x - 1), m); }
    }
    if forall i :: 0 <= i < n - 1 ==> Eval(Or(DiffColumn(n, i)), m) {
      forall x: nat | 1 <= x < n ensures x in d { assert Eval(Or(DiffColumn(n, x - 1)), m); }
    }
  }

  // ---------------------------------------------------------------- exactness

  /** The satisfying assignments of the encoding are exactly the matrices of the all-interval series. */
  lemma EncodingExact(n: nat, m: Matrix)
    requires Shape(m, n)
    ensures Sat(Encoding(n), m) <==> exists v: seq<nat> :: IsSeries(v, n) && m == MatrixOf(v, n)
  {
    hide One, Sat, Encoding, MatrixOf, DiffColumn, DiffRow, Row, Column, Diffs;
    EncodingMeans(n, m);
    if forall i :: 0 <= i < n ==> One(Row(n, i), m) {
      var v := RowsGiveSequence(n, m, n);
      MatrixFromRows(v, n, m);
      ColumnsMeanPermutation(v, n);
      if Permutation(v, n) {
        DiffColumnsMeanSeries(v, n);
        assert Sat(Encoding(n), m) ==> IsSeries(v, n);
      }
    }
    if v: seq<nat> :| IsSeries(v, n) && m == MatrixOf(v, n) {
      SeriesSatisfies(v, n);
    }
  }

  lemma SeriesSatisfies(v: seq<nat>, n: nat)
    requires IsSeries(v, n)
    ensures Sat(Encoding(n), MatrixOf(v, n))
  {
    hide Sat, Encoding, MatrixOf, DiffColumn, DiffRow, Row, Column, Diffs, OnlyAt;
    var m := MatrixOf(v, n);
    EncodingMeans(n, m);
    forall i | 0 <= i < n ensures One(Row(n, i), m) { RowOne(v, n, i); }
    ColumnsMeanPermutation(v, n);
    forall j | 0 <= j < n - 1 ensures One(DiffRow(n, j), m) { DiffRowOne(v, n, j); }
    DiffColumnsMeanSeries(v, n);
  }

  /** Given the row and column constraints, the constraints per position are redundant, and of the
      constraints per difference only "at least once" matters. */
  lemma SmallerEncodingSuffices(n: nat, m: Matrix)
    requires Shape(m, n)
    requires forall i :: 0 <= i < n ==> One(Row(n, i), m)
    requires forall j :: 0 <= j < n ==> One(Column(n, j), m)
    ensures forall j :: 0 <= j < n - 1 ==> One(DiffRow(n, j), m)
    ensures (forall i :: 0 <= i < n - 1 ==> Eval(Or(DiffColumn(n, i)), m)) <==> Sat(Encoding(n), m)
  {
    hide One, Sat, Eval, Encoding, MatrixOf, DiffColumn, DiffRow, Row, Column, Diffs;
    var v := RowsGiveSequence(n, m, n);
    MatrixFromRows(v, n, m);
    ColumnsMeanPermutation(v, n);
    forall j | 0 <= j < n - 1 ensures One(DiffRow(n, j), m) { DiffRowOne(v, n, j); }
    DiffColumnsMeanSeries(v, n);
    EncodingMeans(n, m);
  }

  // ---------------------------------------------------------------- enumeration

  /** The `n` cells that are true in the matrix of `v`. */
  function Block(v: seq<nat>): seq<Expr> {
    seq(|v|, i requires 0 <= i < |v| => Bool(i, v[i]))
  }

  /** Reads a model row by row: the true cells, and the column of the true cell in each row. The
      assertion that a row has no second true cell never fails on a model of the encoding. */
  method ProcessModel(m: Matrix, n: nat) returns (block: seq<Expr>, values: seq<int>)
    requires Shape(m, n) && Sat(Encoding(n), m)
    ensures exists v :: IsSeries(v, n) && m == MatrixOf(v, n) && block == Block(v) && values == v
  {
    hide Sat, Encoding, IsSeries;
    EncodingExact(n, m);
    ghost var v: seq<nat> :| IsSeries(v, n) && m == MatrixOf(v, n);
    block, values := [], [];
    for i := 0 to n
      invariant block == Block(v[..i]) && values == v[..i]
    {
      var k := -1;
      for j := 0 to n
        invariant k == if v[i] < j then v[i] else -1
        invariant block == if v[i] < j then Block(v[..i]) + [Bool(i, v[i])] else Block(v[..i])
      {
        if m[i][j] {
          assert k == -1;
          block := block + [Bool(i, j)];
          k := j;
        }
      }
      values := values + [k];
      assert Block(v[..i + 1]) == Block(v[..i]) + [Bool(i, v[i])];
    }
    assert v[..n] == v;
  }

  /** A blocking clause rejects precisely the sequence it was built from. */
  lemma BlockExcludesOnly(v: seq<nat>, w: seq<nat>, n: nat)
    requires |v| == n && |w| == n && Bounded(v, 0, n) && Bounded(w, 0, n)
    ensures Eval(Not(And(Block(v))), MatrixOf(w, n)) <==> v != w
  {
    var m := MatrixOf(w, n);
    forall i | 0 <= i < n ensures Eval(Block(v)[i], m) <==> v[i] == w[i] {}
    if v != w {
      var i :| 0 <= i < n && v[i] != w[i];
      assert !Eval(Block(v)[i], m);
    }
  }

  function Clauses(reported: seq<seq<nat>>): seq<Expr> {
    seq(|reported|, i requires 0 <= i < |reported| => Not(And(Block(reported[i]))))
  }

  /** The models left after blocking are the series not reported yet. */
  lemma RemainingModels(n: nat, reported: seq<seq<nat>>, m: Matrix)
    requires Shape(m, n) && forall r :: r in reported ==> IsSeries(r, n)
    ensures Sat(Encoding(n) + Clauses(reported), m) <==>
            exists v: seq<nat> :: IsSeries(v, n) && m == MatrixOf(v, n) && v !in reported
  {
    hide Encoding, IsSeries, MatrixOf, Eval;
    SatAppend(Encoding(n), Clauses(reported), m);
    EncodingExact(n, m);
    forall v: seq<nat> | IsSeries(v, n) && m == MatrixOf(v, n)
      ensures Sat(Clauses(reported), m) <==> v !in reported
    {
      forall i | 0 <= i < |reported| ensures Eval(Clauses(reported)[i], m) <==> reported[i] != v {
        assert reported[i] in reported;
        BlockExcludesOnly(reported[i], v, n);
      }
    }
  }

  /** All sequences of the given length over 0..n-1. */
  ghost function Words(n: nat, len: nat): set<seq<nat>> {
    if len == 0 then {[]} else set w, x | w in Words(n, len - 1) && x in Range(0, n) :: w + [x]
  }

  lemma {:induction false} WordsComplete(n: nat, v: seq<nat>)
    requires Bounded(v, 0, n)
    ensures v in Words(n, |v|)
    decreases |v|
  {
    if v != [] {
      var k := |v| - 1;
      WordsComplete(n, v[..k]);
      assert v == v[..k] + [v[k]];
    }
  }

  ghost function AllSeries(n: nat): (r: set<seq<nat>>)
    ensures forall v :: v in r <==> IsSeries(v, n)
  {
    var r := set v | v in Words(n, n) && IsSeries(v, n);
    assert forall v :: v in r <==> IsSeries(v, n) by {
      forall v | IsSeries(v, n) ensures v in r { WordsComplete(n, v); }
    }
    r
  }

  /** An exact solver: models are models, and no answer means there is none. */
  ghost predicate Exact(solve: seq<Expr> -> Option<Matrix>, n: nat) {
    forall s :: match solve(s)
                case Some(m) => Shape(m, n) && Sat(s, m)
                case None => forall m :: Shape(m, n) ==> !Sat(s, m)
  }

  lemma MatrixInjective(v: seq<nat>, w: seq<nat>, n: nat)
    requires |v| == n && |w| == n && Bounded(v, 0, n) && Bounded(w, 0, n) && MatrixOf(v, n) == MatrixOf(w, n)
    ensures v == w
  {
    BlockExcludesOnly(v, w, n);
    BlockExcludesOnly(v, v, n);
  }

  /** Reporting a new series makes progress. */
  lemma NewSeries(n: nat, reported: seq<seq<nat>>, v: seq<nat>, m: Matrix)
    requires IsSeries(v, n) && m == MatrixOf(v, n) && Shape(m, n) && Sat(Encoding(n) + Clauses(reported), m)
    requires forall r :: r in reported ==> IsSeries(r, n)
    ensures v !in reported
    ensures |AllSeries(n) - Elements(reported + [v])| < |AllSeries(n) - Elements(reported)|
    ensures Clauses(reported + [v]) == Clauses(reported) + [Not(And(Block(v)))]
  {
    hide IsSeries, Encoding, Sat, MatrixOf, Eval, Block, AllSeries, Elements, Distinct;
    RemainingModels(n, reported, m);
    var w: seq<nat> :| IsSeries(w, n) && m == MatrixOf(w, n) && w !in reported;
    MatrixInjective(v, w, n);
    FewerLeft(AllSeries(n), reported, v);
  }

  lemma FewerLeft<T>(all: set<T>, reported: seq<T>, v: T)
    requires v in all && v !in reported
    ensures |all - Elements(reported + [v])| < |all - Elements(reported)|
  {
    ElementsAppend(reported, v);
    assert v in all - Elements(reported);
    assert all - Elements(reported + [v]) == (all - Elements(reported)) - {v};
  }

  lemma ShapeOf(v: seq<nat>, n: nat)
    requires |v| == n
    ensures Shape(MatrixOf(v, n), n)
  {}

  /** No model left means that everything has been reported. */
  lemma NothingLeft(n: nat, reported: seq<seq<nat>>)
    requires Distinct(reported) && forall r :: r in reported ==> IsSeries(r, n)
    requires forall m :: Shape(m, n) ==> !Sat(Encoding(n) + Clauses(reported), m)
    ensures forall v :: v in reported <==> IsSeries(v, n)
    ensures |reported| == |AllSeries(n)|
  {
    hide IsSeries, Encoding, Sat, MatrixOf, AllSeries;
    forall v: seq<nat> | IsSeries(v, n) ensures v in reported {
      ShapeOf(v, n);
      RemainingModels(n, reported, MatrixOf(v, n));
    }
    ElementsSize(reported);
    assert Elements(reported) == AllSeries(n);
  }

  /** Enumerates models, blocking each one, until none is left: every all-interval series is reported
      exactly once, and the count is their number. */
  method AllModels(n: nat, solve: seq<Expr> -> Option<Matrix>) returns (count: nat, reported: seq<seq<nat>>)
    requires Exact(solve, n)
    ensures Distinct(reported) && forall v :: v in reported <==> IsSeries(v, n)
    ensures count == |reported| == |AllSeries(n)|
  {
    hide IsSeries, Encoding, Sat, MatrixOf, Eval, Block, AllSeries, Clauses;
    count, reported := 0, [];
    var s := Ais(n);
    NoClauses();
    while solve(s).Some?
      invariant s == Encoding(n) + Clauses(reported)
      invariant count == |reported| && Distinct(reported) && forall r :: r in reported ==> IsSeries(r, n)
      decreases |AllSeries(n) - Elements(reported)|
    {
      var m := solve(s).value;
      SatAppend(Encoding(n), Clauses(reported), m);
      var block, values := ProcessModel(m, n);
      ghost var v :| IsSeries(v, n) && m == MatrixOf(v, n) && block == Block(v) && values == v;
      NewSeries(n, reported, v, m);
      s := s + [Not(And(block))];
      reported := reported + [values];
      count := count + 1;
    }
    NothingLeft(n, reported);
  }

  lemma NoClauses()
    ensures Clauses([]) == []
  {}
}
