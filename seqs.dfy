/** Lists used as sets and index searches, as JavaScript arrays are used by the source. */
module Seqs {

  /** The elements of a list, as a set. */
  function Elems<T>(s: seq<T>): set<T> {
    set x | x in s
  }

  predicate NoDups<T(==)>(s: seq<T>) {
    forall i, j :: 0 <= i < j < |s| ==> s[i] != s[j]
  }

  /** `Array.prototype.indexOf`: the first position of `x`, or -1. */
  function IndexOf<T(==)>(s: seq<T>, x: T): (k: int)
    ensures -1 <= k < |s|
    ensures k == -1 <==> x !in s
    ensures k >= 0 ==> s[k] == x && x !in s[..k]
  {
    if |s| == 0 then -1
    else if s[0] == x then 0
    else
      var k := IndexOf(s[1..], x);
      assert k >= 0 ==> s[1..][..k] == s[1..k + 1];
      if k == -1 then -1 else k + 1
  }

  lemma {:induction false} NoDupsCard<T>(s: seq<T>)
    requires NoDups(s)
    ensures |Elems(s)| == |s|
  {
    if |s| > 0 {
      var t := s[..|s| - 1];
      assert NoDups(t);
      NoDupsCard(t);
      assert Elems(s) == Elems(t) + {s[|s| - 1]};
      assert s[|s| - 1] !in Elems(t);
    }
  }

  /** Duplicate-free lists with the same elements have the same length. */
  lemma SameElemsSameLength<T>(a: seq<T>, b: seq<T>)
    requires NoDups(a) && NoDups(b) && Elems(a) == Elems(b)
    ensures |a| == |b|
  {
    NoDupsCard(a);
    NoDupsCard(b);
  }

  /** The elements of `s` in the order of their first occurrence. */
  function Distinct<T(==)>(s: seq<T>): (r: seq<T>)
    ensures Elems(r) == Elems(s)
    ensures NoDups(r)
  {
    if |s| == 0 then []
    else
      var d := Distinct(s[..|s| - 1]);
      assert Elems(s) == Elems(s[..|s| - 1]) + {s[|s| - 1]} by {
        assert s == s[..|s| - 1] + [s[|s| - 1]];
      }
      if s[|s| - 1] in d then d
      else
        assert Elems(d + [s[|s| - 1]]) == Elems(d) + {s[|s| - 1]};
        d + [s[|s| - 1]]
  }

  /** Adding an element at the end keeps the order of first occurrences so far. */
  lemma DistinctSnoc<T>(s: seq<T>, x: T)
    ensures Distinct(s + [x]) == if x in Distinct(s) then Distinct(s) else Distinct(s) + [x]
  {
    assert (s + [x])[..|s|] == s;
  }

  /** One more element of `s` taken onto a prefix; the step of a left-to-right loop over `s`. */
  lemma PrefixStep<T>(init: seq<T>, s: seq<T>, j: nat)
    requires j < |s|
    ensures init + s[..j + 1] == (init + s[..j]) + [s[j]]
    ensures init + s[..|s|] == init + s
  {
    assert s[..j + 1] == s[..j] + [s[j]];
    assert s[..|s|] == s;
  }
}
