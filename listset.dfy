/**
 * The list-as-set helpers of script/dataflow.js (`set.union`,
 * `set.difference`, `set.compare`), which the fixed-point iterations use on
 * the facts at every instruction.
 */
module ListSet {
  import opened Seqs

  /** The elements of `b` that do not occur in `a`, in their order in `b`. */
  function Outside<T(==)>(b: seq<T>, a: seq<T>): (r: seq<T>)
    ensures Elems(r) == Elems(b) - Elems(a)
    ensures NoDups(b) ==> NoDups(r)
  {
    if |b| == 0 then []
    else
      var init := Outside(b[..|b| - 1], a);
      var x := b[|b| - 1];
      assert Elems(b) == Elems(b[..|b| - 1]) + {x};
      if x in a then init
      else
        assert Elems(init + [x]) == Elems(init) + {x};
        assert NoDups(b) ==> x !in Elems(b[..|b| - 1]) && x !in init;
        init + [x]
  }

  /**
   * `set.union`: `a` followed by the elements of `b` not in `a`. Note that
   * membership is checked against `a` alone, so a repeated element of `b` is
   * kept twice.
   */
  method Union<T(==)>(a: seq<T>, b: seq<T>) returns (r: seq<T>)
    ensures r == a + Outside(b, a)
    ensures Elems(r) == Elems(a) + Elems(b)
    ensures NoDups(a) && NoDups(b) ==> NoDups(r)
  {
    r := [];
    var k := 0;
    while k < |a|
      invariant 0 <= k <= |a|
      invariant r == a[..k]
    {
      r := r + [a[k]];
      k := k + 1;
    }
    assert a[..k] == a;
    k := 0;
    while k < |b|
      invariant 0 <= k <= |b|
      invariant r == a + Outside(b[..k], a)
    {
      assert b[..k + 1][..k] == b[..k];
      if IndexOf(a, b[k]) == -1 {
        r := r + [b[k]];
      }
      k := k + 1;
    }
    assert b[..k] == b;
    ghost var o := Outside(b, a);
    assert Elems(a + o) == Elems(a) + Elems(o);
    if NoDups(a) && NoDups(b) {
      assert forall i, j :: 0 <= i < |a| <= j < |r| ==> r[i] != r[j] by {
        forall i, j | 0 <= i < |a| <= j < |r| ensures r[i] != r[j] {
          assert r[j] == o[j - |a|] && r[j] in Elems(o);
        }
      }
    }
  }

  /** `set.difference`: the elements of `a` not in `b`, in their order in `a`. */
  method Difference<T(==)>(a: seq<T>, b: seq<T>) returns (r: seq<T>)
    ensures r == Outside(a, b)
    ensures Elems(r) == Elems(a) - Elems(b)
    ensures NoDups(a) ==> NoDups(r)
  {
    r := [];
    var k := 0;
    while k < |a|
      invariant 0 <= k <= |a|
      invariant r == Outside(a[..k], b)
    {
      assert a[..k + 1][..k] == a[..k];
      if IndexOf(b, a[k]) == -1 {
        r := r + [a[k]];
      }
      k := k + 1;
    }
    assert a[..k] == a;
  }

  /** `set.compare`: equal lengths, and every element of each list occurs in the other. */
  method Compare<T(==)>(a: seq<T>, b: seq<T>) returns (eq: bool)
    ensures eq <==> |a| == |b| && Elems(a) == Elems(b)
  {
    if |a| != |b| {
      return false;
    }
    var p := 0;
    while p < |a|
      invariant 0 <= p <= |a|
      invariant forall q :: 0 <= q < p ==> b[q] in a && a[q] in b
    {
      if IndexOf(a, b[p]) == -1 {
        assert b[p] in Elems(b) && b[p] !in Elems(a);
        return false;
      }
      if IndexOf(b, a[p]) == -1 {
        assert a[p] in Elems(a) && a[p] !in Elems(b);
        return false;
      }
      p := p + 1;
    }
    MutualMembership(a, b);
    return true;
  }

  lemma MutualMembership<T>(a: seq<T>, b: seq<T>)
    requires |a| == |b|
    requires forall q :: 0 <= q < |a| ==> b[q] in a && a[q] in b
    ensures Elems(a) == Elems(b)
  {
    forall x | x in Elems(a) ensures x in Elems(b) {
      var q :| 0 <= q < |a| && a[q] == x;
    }
    forall x | x in Elems(b) ensures x in Elems(a) {
      var q :| 0 <= q < |b| && b[q] == x;
    }
  }

  /** On duplicate-free lists, `set.compare` is exactly set equality. */
  lemma CompareIsSetEquality<T>(a: seq<T>, b: seq<T>)
    requires NoDups(a) && NoDups(b)
    ensures (|a| == |b| && Elems(a) == Elems(b)) <==> Elems(a) == Elems(b)
  {
    if Elems(a) == Elems(b) {
      SameElemsSameLength(a, b);
    }
  }
}
