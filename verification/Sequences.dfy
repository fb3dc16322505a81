/** Sums and products of integer sequences, and sequences without one entry. */
module Sequences {
  import opened Arithmetic

  function Sum(s: seq<int>): int
  {
    if s == [] then 0 else Sum(s[..|s| - 1]) + s[|s| - 1]
  }

  function Prod(s: seq<int>): int
  {
    if s == [] then 1 else Prod(s[..|s| - 1]) * s[|s| - 1]
  }

  lemma {:induction false} SumConcat(s: seq<int>, t: seq<int>)
    ensures Sum(s + t) == Sum(s) + Sum(t)
  {
    if t == [] {
      assert s + t == s;
    } else {
      SumConcat(s, t[..|t| - 1]);
      assert (s + t)[..|s + t| - 1] == s + t[..|t| - 1];
    }
  }

  lemma {:induction false} ProdConcat(s: seq<int>, t: seq<int>)
    ensures Prod(s + t) == Prod(s) * Prod(t)
  {
    if t == [] {
      assert s + t == s;
    } else {
      ProdConcat(s, t[..|t| - 1]);
      assert (s + t)[..|s + t| - 1] == s + t[..|t| - 1];
      MulAssociative(Prod(s), Prod(t[..|t| - 1]), t[|t| - 1]);
    }
  }

  lemma {:induction false} ProdStep(s: seq<int>, k: nat)
    requires k < |s|
    ensures Prod(s[..k + 1]) == Prod(s[..k]) * s[k]
  {
    assert s[..k + 1][..k] == s[..k];
  }

  lemma ProdSingle(x: int)
    ensures Prod([x]) == x
  {
    assert [x][..0] == [];
  }

  lemma SumSingle(x: int)
    ensures Sum([x]) == x
  {
    assert [x][..0] == [];
  }

  /** A prime divides a product exactly when it divides one of the factors. */
  lemma {:induction false} PrimeDividesProd(p: int, s: seq<int>)
    requires IsPrime(p)
    ensures Divides(p, Prod(s)) <==> exists i :: 0 <= i < |s| && Divides(p, s[i])
  {
    if s == [] {
      ModUnique(1, p, 0, 1);
    } else {
      var n := |s| - 1;
      PrimeDividesProd(p, s[..n]);
      EuclidLemma(p, Prod(s[..n]), s[n]);
      if i :| 0 <= i < |s| && Divides(p, s[i]) {
        assert i < n ==> s[..n][i] == s[i];
      }
      if i :| 0 <= i < n && Divides(p, s[..n][i]) {
        assert Divides(p, s[i]);
      }
    }
  }

  lemma {:induction false} SumCongruent(s: seq<int>, t: seq<int>, m: int)
    requires m > 0 && |s| == |t|
    requires forall i :: 0 <= i < |s| ==> Congruent(s[i], t[i], m)
    ensures Congruent(Sum(s), Sum(t), m)
  {
    if s != [] {
      var n := |s| - 1;
      SumCongruent(s[..n], t[..n], m);
      CongruentAdd(Sum(s[..n]), Sum(t[..n]), s[n], t[n], m);
    }
  }

  lemma {:induction false} SumCombination(t: seq<int>, u: seq<int>, v: seq<int>, a: int, b: int)
    requires |t| == |u| == |v|
    requires forall i :: 0 <= i < |t| ==> t[i] == a * u[i] + b * v[i]
    ensures Sum(t) == a * Sum(u) + b * Sum(v)
  {
    if t != [] {
      var n := |t| - 1;
      SumCombination(t[..n], u[..n], v[..n], a, b);
      assert a * (Sum(u[..n]) + u[n]) == a * Sum(u[..n]) + a * u[n];
      assert b * (Sum(v[..n]) + v[n]) == b * Sum(v[..n]) + b * v[n];
    }
  }

  /** The list without its entry at `i`. */
  function Rest<T>(xs: seq<T>, i: nat): (r: seq<T>)
    requires i < |xs|
  {
    xs[..i] + xs[i + 1..]
  }

  lemma {:induction false} RestAt<T>(xs: seq<T>, i: nat, j: nat)
    requires i < |xs| && j < |xs| - 1
    ensures |Rest(xs, i)| == |xs| - 1
    ensures Rest(xs, i)[j] == if j < i then xs[j] else xs[j + 1]
  {
  }
}
