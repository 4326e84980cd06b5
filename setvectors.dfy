/**
 * One set per instruction: the abstract view of the `in` and `out` lists the
 * fixed-point iterations keep, with the ordering and size measure their
 * termination arguments use.
 */
module SetVectors {
  import opened Seqs
  import opened ListSet

  /** The element sets of a list of lists. */
  function Views<T>(ls: seq<seq<T>>): (v: seq<set<T>>)
    ensures |v| == |ls|
    ensures forall i :: 0 <= i < |ls| ==> v[i] == Elems(ls[i])
  {
    seq(|ls|, i requires 0 <= i < |ls| => Elems(ls[i]))
  }

  /** Pointwise inclusion. */
  predicate Below<T>(a: seq<set<T>>, b: seq<set<T>>) {
    |a| == |b| && forall i :: 0 <= i < |a| ==> a[i] <= b[i]
  }

  predicate Within<T>(v: seq<set<T>>, u: set<T>) {
    forall i :: 0 <= i < |v| ==> v[i] <= u
  }

  /** The total number of elements. */
  function Size<T>(v: seq<set<T>>): nat {
    if |v| == 0 then 0 else Size(v[..|v| - 1]) + |v[|v| - 1]|
  }

  lemma {:induction false} SizeBound<T>(v: seq<set<T>>, u: set<T>)
    requires Within(v, u)
    ensures Size(v) <= |v| * |u|
  {
    if |v| > 0 {
      SizeBound(v[..|v| - 1], u);
      assert v[|v| - 1] <= u;
      SubsetCard(v[|v| - 1], u);
    }
  }

  lemma SubsetCard<T>(a: set<T>, b: set<T>)
    requires a <= b
    ensures |a| <= |b|
  {
    assert b == a + (b - a);
  }

  /** Growing any set of the vector grows its size. */
  lemma {:induction false} SizeGrows<T>(a: seq<set<T>>, b: seq<set<T>>)
    requires Below(a, b)
    ensures Size(a) <= Size(b)
    ensures a != b ==> Size(a) < Size(b)
  {
    if |a| > 0 {
      var n := |a| - 1;
      SizeGrows(a[..n], b[..n]);
      SubsetCard(a[n], b[n]);
      if a[n] != b[n] {
        assert b[n] == a[n] + (b[n] - a[n]);
        assert |b[n] - a[n]| > 0;
      }
      if a != b && a[..n] == b[..n] {
        assert a == a[..n] + [a[n]] && b == b[..n] + [b[n]];
      }
    }
  }

  /** The numbers below `n`, the indices of a function's instructions. */
  function Range(n: nat): (r: set<nat>)
    ensures forall k: nat :: k in r <==> k < n
    ensures |r| == n
  {
    if n == 0 then {} else
      var s := Range(n - 1);
      assert n - 1 !in s;
      s + {n - 1}
  }

  /** A vector of empty sets, the starting point of an iteration. */
  function Empties<T>(n: nat): (v: seq<seq<T>>)
    ensures |v| == n
    ensures forall i :: 0 <= i < n ==> v[i] == []
  {
    seq(n, _ => [])
  }

  /** The change test: some entry or exit list differs, as a set, from its successor. */
  method Changed<T(==)>(enter: seq<seq<T>>, exit: seq<seq<T>>, enterp: seq<seq<T>>, exitp: seq<seq<T>>)
    returns (change: bool)
    requires |enter| == |exit| == |enterp| == |exitp|
    requires forall i :: 0 <= i < |enter| ==>
      NoDups(enter[i]) && NoDups(exit[i]) && NoDups(enterp[i]) && NoDups(exitp[i])
    ensures change <==> Views(enter) != Views(enterp) || Views(exit) != Views(exitp)
  {
    change := false;
    var i := 0;
    while i < |enter| && !change
      invariant 0 <= i <= |enter|
      invariant !change ==> forall m :: 0 <= m < i ==> Elems(enter[m]) == Elems(enterp[m]) && Elems(exit[m]) == Elems(exitp[m])
      invariant change ==> Views(enter) != Views(enterp) || Views(exit) != Views(exitp)
    {
      var same := Compare(enter[i], enterp[i]);
      CompareIsSetEquality(enter[i], enterp[i]);
      if !same {
        assert Views(enter)[i] != Views(enterp)[i];
        change := true;
      } else {
        same := Compare(exit[i], exitp[i]);
        CompareIsSetEquality(exit[i], exitp[i]);
        if !same {
          assert Views(exit)[i] != Views(exitp)[i];
          change := true;
        }
      }
      i := i + 1;
    }
  }
}
