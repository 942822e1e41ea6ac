/** Notions that several modules share. */
module Basics {

  datatype Option<T> = None | Some(value: T)

  datatype Result<T> = Ok(value: T) | Err(error: string)

  ghost predicate Distinct<T>(s: seq<T>) {
    forall i, j :: 0 <= i < j < |s| ==> s[i] != s[j]
  }

  lemma DistinctConcat<T>(s: seq<T>, t: seq<T>)
    ensures Distinct(s + t) <==> Distinct(s) && Distinct(t) && forall x :: x in t ==> x !in s
  {
    var w := s + t;
    if Distinct(s) && Distinct(t) && forall x :: x in t ==> x !in s {
      forall i, j | 0 <= i < j < |w| ensures w[i] != w[j] {
        if i < |s| <= j { assert w[j] == t[j - |s|] && w[i] in s; }
      }
    }
    if Distinct(w) {
      forall i, j | 0 <= i < j < |s| ensures s[i] != s[j] { assert w[i] != w[j]; }
      forall i, j | 0 <= i < j < |t| ensures t[i] != t[j] { assert w[|s| + i] != w[|s| + j]; }
      forall i, j | 0 <= i < |s| && 0 <= j < |t| ensures s[i] != t[j] { assert w[i] != w[|s| + j]; }
    }
  }

  ghost function Elements<T>(v: seq<T>): set<T> {
    set i | 0 <= i < |v| :: v[i]
  }

  lemma ElementsAppend<T>(v: seq<T>, x: T)
    ensures Elements(v + [x]) == Elements(v) + {x}
  {
    forall y | y in Elements(v) + {x} ensures y in Elements(v + [x]) {
      if y == x {
        assert (v + [x])[|v|] == x;
      } else {
        var i :| 0 <= i < |v| && v[i] == y;
        assert (v + [x])[i] == y;
      }
    }
  }

  lemma {:induction false} ElementsSize<T>(v: seq<T>)
    ensures |Elements(v)| <= |v|
    ensures |Elements(v)| == |v| <==> Distinct(v)
  {
    hide Distinct;
    if v == [] {
      assert Distinct(v) by { DistinctShort(v); }
    } else {
      var n := |v| - 1;
      ElementsSize(v[..n]);
      assert v == v[..n] + [v[n]];
      ElementsAppend(v[..n], v[n]);
      DistinctConcat(v[..n], [v[n]]);
      DistinctShort([v[n]]);
      assert v[n] in Elements(v[..n]) <==> v[n] in v[..n];
    }
  }

  lemma DistinctShort<T>(v: seq<T>)
    requires |v| <= 1
    ensures Distinct(v)
  {}

  /** The numbers from `lo` to `hi - 1`. */
  function Range(lo: nat, hi: nat): (r: set<nat>)
    requires lo <= hi
    ensures |r| == hi - lo && forall x: nat :: x in r <==> lo <= x < hi
    decreases hi
  {
    if lo == hi then {} else Range(lo, hi - 1) + {hi - 1}
  }

  lemma SubsetSize<T>(a: set<T>, b: set<T>)
    requires a <= b
    ensures |a| <= |b| && (|a| == |b| ==> a == b)
  {
    assert b == a + (b - a);
  }
}
