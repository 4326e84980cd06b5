/**
 * The optimiser's `prune` (script/optimizer.js, env.prune): keep the
 * instructions that lie on a path from instruction 0 to a `ret`, in their
 * original order, and renumber the successor and reaching-definition lists
 * to the new positions.
 */
module Prune {
  import opened Wrappers
  import opened Seqs
  import opened SetVectors
  import opened Ir

  predicate Increasing(s: seq<nat>) {
    forall i, j :: 0 <= i < j < |s| ==> s[i] < s[j]
  }

  /** An instruction the pass keeps: reached from 0 and leading to a `ret`. */
  ghost predicate Keep(code: seq<Instr>, j: nat) {
    j < |code| && Reaches(code, 0, j) && CanReachRet(code, j)
  }

  /** The kept indices below `m`, in increasing order. */
  ghost function KeptUpTo(code: seq<Instr>, m: nat): (r: seq<nat>)
    ensures forall x: nat :: x in r <==> x < m && Keep(code, x)
    ensures Increasing(r)
  {
    if m == 0 then []
    else
      var r := KeptUpTo(code, m - 1);
      assert forall k :: 0 <= k < |r| ==> r[k] in r;
      if Keep(code, m - 1) then r + [m - 1] else r
  }

  ghost function Kept(code: seq<Instr>): (r: seq<nat>)
    ensures forall x: nat :: x in r <==> Keep(code, x)
    ensures forall k :: 0 <= k < |r| ==> r[k] < |code|
    ensures Increasing(r)
  {
    var r := KeptUpTo(code, |code|);
    assert forall k :: 0 <= k < |r| ==> r[k] in r;
    r
  }

  /** Some index that names no instruction is reached from 0 (the source then reads a missing entry and throws). */
  ghost predicate Escapes(code: seq<Instr>) {
    exists j :: j >= |code| && Reaches(code, 0, j)
  }

  /** The positions in `visited` of the entries of `xs`, in order; entries not in `visited` are dropped. */
  function Remap(visited: seq<nat>, xs: seq<nat>): (r: seq<nat>)
    ensures forall k :: 0 <= k < |r| ==> r[k] < |visited|
    ensures NoDups(visited) ==> forall m: nat :: m in r <==> m < |visited| && visited[m] in xs
  {
    if |xs| == 0 then []
    else
      var r := Remap(visited, xs[..|xs| - 1]);
      var idx := IndexOf(visited, xs[|xs| - 1]);
      assert xs == xs[..|xs| - 1] + [xs[|xs| - 1]];
      if idx >= 0 then r + [idx] else r
  }

  /** One kept instruction, its successor and reaching-definition lists renumbered. */
  function RelabelAt(visited: seq<nat>, ins: Instr): Instr {
    ins.(next := Remap(visited, ins.next),
         rd := Facts(Remap(visited, ins.rd.entry), Remap(visited, ins.rd.exit)))
  }

  function Relabelled(code: seq<Instr>, visited: seq<nat>): seq<Instr>
    requires forall k :: 0 <= k < |visited| ==> visited[k] < |code|
  {
    seq(|visited|, k requires 0 <= k < |visited| => RelabelAt(visited, code[visited[k]]))
  }

  /** What the pass produces: nothing when it would throw, else the kept instructions renumbered. */
  ghost function PruneSpec(code: seq<Instr>): Option<seq<Instr>> {
    if Escapes(code) then None else Some(Relabelled(code, Kept(code)))
  }

  lemma IndexOfDistinct<T>(s: seq<T>, k: nat)
    requires NoDups(s) && k < |s|
    ensures IndexOf(s, s[k]) == k
  {
  }

  lemma InRangeLength(s: seq<nat>, n: nat)
    requires NoDups(s) && forall j :: j in s ==> j < n
    ensures |s| <= n
  {
    NoDupsCard(s);
    assert Elems(s) <= Range(n);
    SubsetCard(Elems(s), Range(n));
  }

  /** The successors of every listed instruction are listed, and every listed index names an instruction. */
  predicate ClosedList(code: seq<Instr>, s: seq<nat>) {
    (forall j :: j in s ==> j < |code|) &&
    forall j, t :: j in s && j < |code| && t in code[j].next ==> t in s
  }

  /**
   * The depth-first walk `visit`: appends to `reachable` every index reached
   * from `i` through instructions not listed yet. It fails exactly where the
   * source reads the successors of an index that names no instruction.
   */
  method Visit(code: seq<Instr>, i: nat, reachable: seq<nat>) returns (ok: bool, reachable': seq<nat>)
    requires NoDups(reachable) && forall j :: j in reachable ==> j < |code|
    ensures ok ==> reachable <= reachable' && NoDups(reachable') && i in reachable'
    ensures ok ==> forall j :: j in reachable' ==> j < |code|
    ensures ok ==> forall j :: j in reachable' && j !in reachable ==> Reaches(code, i, j)
    ensures ok ==> forall j, t :: j in reachable' && j !in reachable && j < |code| && t in code[j].next ==> t in reachable'
    ensures !ok ==> exists j :: j >= |code| && Reaches(code, i, j)
    decreases |code| - |reachable|
  {
    if IndexOf(reachable, i) != -1 {
      return true, reachable;
    }
    if i >= |code| {
      ReachesRefl(code, i);
      return false, reachable;
    }
    InRangeLength(reachable + [i], |code|);
    ReachesRefl(code, i);
    reachable' := reachable + [i];
    var next := code[i].next;
    for p := 0 to |next|
      invariant reachable + [i] <= reachable' && NoDups(reachable')
      invariant forall j :: j in reachable' ==> j < |code|
      invariant forall j :: j in reachable' && j !in reachable ==> Reaches(code, i, j)
      invariant forall j, t :: j in reachable' && j !in reachable && j != i && j < |code| && t in code[j].next ==> t in reachable'
      invariant forall q :: 0 <= q < p ==> next[q] in reachable'
    {
      assert Edge(code, i, next[p]);
      var ok', r := Visit(code, next[p], reachable');
      if !ok' {
        ghost var j :| j >= |code| && Reaches(code, next[p], j);
        ReachesFirstStep(code, i, next[p], j);
        return false, reachable;
      }
      forall j | j in r && j !in reachable' ensures Reaches(code, i, j) {
        ReachesFirstStep(code, i, next[p], j);
      }
      assert forall x :: x in reachable' ==> x in r;
      reachable' := r;
    }
    forall t | t in code[i].next ensures t in reachable' {
      var q :| 0 <= q < |next| && next[q] == t;
    }
    assert reachable'[|reachable|] == i;
    ok := true;
  }

  /**
   * `hasSideEffects`: whether a `ret` is reached from `i` through
   * instructions not yet in `loop`, the set of indices this search has
   * entered. `stack` holds the searches still open above this one; every
   * other entered instruction has all its successors entered.
   */
  method HasSideEffects(code: seq<Instr>, reach: seq<nat>, i: nat, loop: set<nat>, ghost stack: set<nat>)
    returns (b: bool, loop': set<nat>)
    requires ClosedList(code, reach) && i in reach
    requires loop <= Elems(reach) && stack <= loop
    requires forall j :: j in loop && j < |code| ==> code[j].op != Ret
    requires forall j, t :: j in loop && j !in stack && j < |code| && t in code[j].next ==> t in loop
    ensures b ==> CanReachRet(code, i)
    ensures !b ==> loop <= loop' <= Elems(reach) && i in loop'
    ensures !b ==> forall j :: j in loop' && j < |code| ==> code[j].op != Ret
    ensures !b ==> forall j, t :: j in loop' && j !in stack && j < |code| && t in code[j].next ==> t in loop'
    decreases Elems(reach) - loop
  {
    if i in loop {
      return false, loop;
    }
    loop' := loop + {i};
    if code[i].op == Ret {
      ReachesRefl(code, i);
      return true, loop';
    }
    var next := code[i].next;
    for p := 0 to |next|
      invariant loop + {i} <= loop' <= Elems(reach)
      invariant forall j :: j in loop' && j < |code| ==> code[j].op != Ret
      invariant forall j, t :: j in loop' && j !in stack + {i} && j < |code| && t in code[j].next ==> t in loop'
      invariant forall q :: 0 <= q < p ==> next[q] in loop'
    {
      var found;
      found, loop' := HasSideEffects(code, reach, next[p], loop', stack + {i});
      if found {
        ghost var j :| 0 <= j < |code| && code[j].op == Ret && Reaches(code, next[p], j);
        ReachesFirstStep(code, i, next[p], j);
        return true, loop';
      }
    }
    b := false;
  }

  /** One root's search, started with an empty `loop`: exactly whether the root leads to a `ret`. */
  method SideEffectsOf(code: seq<Instr>, reach: seq<nat>, r: nat) returns (b: bool)
    requires ClosedList(code, reach) && r in reach
    ensures b <==> CanReachRet(code, r)
  {
    var loop;
    b, loop := HasSideEffects(code, reach, r, {}, {});
    if !b {
      forall j | Reaches(code, r, j) ensures j in loop {
        ClosedSetHoldsAllReachable(code, loop, r, j);
      }
    }
  }

  /** Inserting into an ascending list; the comparison `a - b` of the source's sort. */
  function InsertAsc(x: nat, s: seq<nat>): (r: seq<nat>)
    ensures multiset(r) == multiset(s) + multiset{x}
  {
    if |s| == 0 then [x]
    else if x <= s[0] then [x] + s
    else
      assert s == [s[0]] + s[1..];
      [s[0]] + InsertAsc(x, s[1..])
  }

  function SortAsc(s: seq<nat>): (r: seq<nat>)
    ensures multiset(r) == multiset(s)
  {
    if |s| == 0 then []
    else
      assert s == [s[0]] + s[1..];
      InsertAsc(s[0], SortAsc(s[1..]))
  }

  lemma {:induction false} InsertIncreasing(x: nat, s: seq<nat>)
    requires Increasing(s) && x !in s
    ensures Increasing(InsertAsc(x, s))
  {
    if |s| > 0 && x > s[0] {
      InsertIncreasing(x, s[1..]);
      var t := InsertAsc(x, s[1..]);
      forall k | 0 <= k < |t| ensures s[0] < t[k] {
        assert t[k] in multiset(t);
        if t[k] != x {
          assert t[k] in multiset(s[1..]);
          assert t[k] in s[1..];
        }
      }
    }
  }

  /** Sorting a duplicate-free list gives the same elements in increasing order. */
  lemma {:induction false} SortIncreasing(s: seq<nat>)
    requires NoDups(s)
    ensures Increasing(SortAsc(s))
    ensures forall x :: x in SortAsc(s) <==> x in s
  {
    var r := SortAsc(s);
    forall x ensures x in r <==> x in s {
      assert x in r <==> x in multiset(r);
      assert x in s <==> x in multiset(s);
    }
    if |s| > 0 {
      SortIncreasing(s[1..]);
      var t := SortAsc(s[1..]);
      assert s[0] !in s[1..];
      InsertIncreasing(s[0], t);
    }
  }

  /** The entries of `s` that lead to a `ret`, in order: the filter loop's result. */
  ghost function Effective(code: seq<Instr>, s: seq<nat>): (r: seq<nat>)
    ensures forall x: nat :: x in r <==> x in s && CanReachRet(code, x)
  {
    if |s| == 0 then []
    else
      var init := s[..|s| - 1];
      var r := Effective(code, init);
      assert s == init + [s[|s| - 1]];
      if CanReachRet(code, s[|s| - 1]) then r + [s[|s| - 1]] else r
  }

  lemma {:induction false} EffectiveIncreasing(code: seq<Instr>, s: seq<nat>)
    requires Increasing(s)
    ensures Increasing(Effective(code, s))
  {
    if |s| > 0 {
      var init := s[..|s| - 1];
      EffectiveIncreasing(code, init);
      var r := Effective(code, init);
      forall k | 0 <= k < |r| ensures r[k] < s[|s| - 1] {
        assert r[k] in r;
      }
    }
  }

  /** Increasing lists are determined by their elements. */
  lemma {:induction false} IncreasingUnique(a: seq<nat>, b: seq<nat>)
    requires Increasing(a) && Increasing(b)
    requires forall x :: x in a <==> x in b
    ensures a == b
    decreases |a|
  {
    assert Elems(a) == Elems(b);
    SameElemsSameLength(a, b);
    if |a| > 0 {
      assert a[0] in b;
      assert b[0] in a;
      assert a[0] == b[0];
      forall x ensures x in a[1..] <==> x in b[1..] {
        assert x in a[1..] <==> x in a && x != a[0];
        assert x in b[1..] <==> x in b && x != b[0];
      }
      IncreasingUnique(a[1..], b[1..]);
      assert a == [a[0]] + a[1..] && b == [b[0]] + b[1..];
    }
  }

  /** Computes one renumbered list, as the three inner loops of the relabelling do. */
  method RemapList(visited: seq<nat>, xs: seq<nat>) returns (r: seq<nat>)
    ensures r == Remap(visited, xs)
  {
    r := [];
    for j := 0 to |xs|
      invariant r == Remap(visited, xs[..j])
    {
      assert xs[..j + 1][..j] == xs[..j];
      var idx := IndexOf(visited, xs[j]);
      if idx >= 0 {
        r := r + [idx];
      }
    }
    assert xs[..|xs|] == xs;
  }

  method Relabel(code: seq<Instr>, visited: seq<nat>) returns (p: seq<Instr>)
    requires forall k :: 0 <= k < |visited| ==> visited[k] < |code|
    ensures p == Relabelled(code, visited)
  {
    p := [];
    for i := 0 to |visited|
      invariant |p| == i
      invariant forall k :: 0 <= k < i ==> p[k] == RelabelAt(visited, code[visited[k]])
    {
      var ins := code[visited[i]];
      var next := RemapList(visited, ins.next);
      var rdIn := RemapList(visited, ins.rd.entry);
      var rdOut := RemapList(visited, ins.rd.exit);
      p := p + [ins.(next := next, rd := Facts(rdIn, rdOut))];
    }
  }

  /** The reachable list a successful walk from 0 builds is exactly the set of indices reached from 0. */
  lemma WalkIsReach(code: seq<Instr>, reach: seq<nat>)
    requires 0 in reach && ClosedList(code, reach)
    ensures forall j :: Reaches(code, 0, j) ==> j in reach
  {
    forall j | Reaches(code, 0, j) ensures j in reach {
      ClosedSetHoldsAllReachable(code, Elems(reach), 0, j);
    }
  }

  /** The filter loop: the sorted reachable indices from which a `ret` is reached. */
  method Select(code: seq<Instr>, reach: seq<nat>, sorted: seq<nat>) returns (visited: seq<nat>)
    requires ClosedList(code, reach) && forall x :: x in sorted ==> x in reach
    ensures visited == Effective(code, sorted)
  {
    visited := [];
    for i := 0 to |sorted|
      invariant visited == Effective(code, sorted[..i])
    {
      assert sorted[..i + 1][..i] == sorted[..i];
      var b := SideEffectsOf(code, reach, sorted[i]);
      if b {
        visited := visited + [sorted[i]];
      }
    }
    assert sorted[..|sorted|] == sorted;
  }

  lemma SelectedIsKept(code: seq<Instr>, sorted: seq<nat>, visited: seq<nat>)
    requires Increasing(sorted) && visited == Effective(code, sorted)
    requires forall x :: x in sorted <==> Reaches(code, 0, x)
    requires forall x :: x in sorted ==> x < |code|
    ensures visited == Kept(code)
  {
    EffectiveIncreasing(code, sorted);
    IncreasingUnique(visited, Kept(code));
  }

  /** env.prune. */
  method Prune(code: seq<Instr>) returns (r: Option<seq<Instr>>)
    ensures r == PruneSpec(code)
  {
    var ok, reach := Visit(code, 0, []);
    if !ok {
      return None;
    }
    WalkIsReach(code, reach);
    var sorted := SortAsc(reach);
    SortIncreasing(reach);
    var visited := Select(code, reach, sorted);
    SelectedIsKept(code, sorted, visited);
    var p := Relabel(code, visited);
    return Some(p);
  }

  lemma RelabelledEdge(code: seq<Instr>, visited: seq<nat>, a: nat, b: nat)
    requires NoDups(visited) && forall k :: 0 <= k < |visited| ==> visited[k] < |code|
    ensures Edge(Relabelled(code, visited), a, b) <==>
              a < |visited| && b < |visited| && Edge(code, visited[a], visited[b])
  {
  }

  lemma IncreasingNoDups(s: seq<nat>)
    requires Increasing(s)
    ensures NoDups(s)
  {
  }

  /**
   * The result lists the kept instructions in their original order, each
   * unchanged but for its successor and reaching-definition lists, and an
   * edge joins two of them exactly when one joined the originals.
   */
  lemma PruneShape(code: seq<Instr>, p: seq<Instr>)
    requires PruneSpec(code) == Some(p)
    ensures |p| == |Kept(code)|
    ensures forall j :: j in Kept(code) <==> Keep(code, j)
    ensures Increasing(Kept(code))
    ensures forall k :: 0 <= k < |p| ==>
              p[k] == code[Kept(code)[k]].(next := p[k].next, rd := p[k].rd)
    ensures forall a: nat, b: nat :: Edge(p, a, b) <==>
              a < |p| && b < |p| && Edge(code, Kept(code)[a], Kept(code)[b])
    ensures forall k, m: nat :: 0 <= k < |p| ==>
              (m in p[k].rd.entry <==> m < |p| && Kept(code)[m] in code[Kept(code)[k]].rd.entry)
    ensures forall k, m: nat :: 0 <= k < |p| ==>
              (m in p[k].rd.exit <==> m < |p| && Kept(code)[m] in code[Kept(code)[k]].rd.exit)
  {
    var kept := Kept(code);
    IncreasingNoDups(kept);
    forall a: nat, b: nat ensures Edge(p, a, b) <==> a < |p| && b < |p| && Edge(code, kept[a], kept[b]) {
      RelabelledEdge(code, kept, a, b);
    }
  }

  /** Every instruction on a path from a reached index to a kept one is kept. */
  lemma PathKept(code: seq<Instr>, q: seq<nat>)
    requires IsPath(code, q) && Reaches(code, 0, q[0]) && Keep(code, q[|q| - 1])
    ensures forall k :: 0 <= k < |q| ==> Keep(code, q[k])
  {
    var last := q[|q| - 1];
    var j :| 0 <= j < |code| && code[j].op == Ret && Reaches(code, last, j);
    forall k | 0 <= k < |q| ensures Keep(code, q[k]) {
      var pre := q[..k + 1];
      assert IsPath(code, pre);
      assert Reaches(code, q[0], q[k]);
      ReachesTrans(code, 0, q[0], q[k]);
      var suf := q[k..];
      assert IsPath(code, suf);
      assert Reaches(code, q[k], last);
      ReachesTrans(code, q[k], last, j);
      if k < |q| - 1 {
        assert Edge(code, q[k], q[k + 1]);
      }
    }
  }

  /** A path through kept instructions is a path between their new positions. */
  lemma {:induction false} MapPath(code: seq<Instr>, q: seq<nat>)
    requires !Escapes(code)
    requires IsPath(code, q) && forall k :: 0 <= k < |q| ==> Keep(code, q[k])
    ensures Reaches(Relabelled(code, Kept(code)), IndexOf(Kept(code), q[0]), IndexOf(Kept(code), q[|q| - 1]))
    decreases |q|
  {
    var kept := Kept(code);
    var p := Relabelled(code, kept);
    IncreasingNoDups(kept);
    if |q| == 1 {
      ReachesRefl(p, IndexOf(kept, q[0]));
    } else {
      var init := q[..|q| - 1];
      assert IsPath(code, init);
      MapPath(code, init);
      var a := IndexOf(kept, q[|q| - 2]);
      var b := IndexOf(kept, q[|q| - 1]);
      assert Edge(code, q[|q| - 2], q[|q| - 1]);
      RelabelledEdge(code, kept, a, b);
      ReachesStep(p, IndexOf(kept, q[0]), a, b);
    }
  }

  function Indices(m: nat): (r: seq<nat>)
    ensures |r| == m && forall k :: 0 <= k < m ==> r[k] == k
  {
    seq(m, k => k)
  }

  lemma {:induction false} RemapIdentity(m: nat, xs: seq<nat>)
    requires forall x :: x in xs ==> x < m
    ensures Remap(Indices(m), xs) == xs
  {
    if |xs| > 0 {
      var init := xs[..|xs| - 1];
      forall x | x in init ensures x < m {
        assert x in xs;
      }
      assert xs[|xs| - 1] in xs;
      RemapIdentity(m, init);
      IndexOfDistinct(Indices(m), xs[|xs| - 1]);
      assert xs == xs[..|xs| - 1] + [xs[|xs| - 1]];
    }
  }

  /** In a nonempty result, instruction 0 was kept and kept its place. */
  lemma KeptStartsAtZero(code: seq<Instr>)
    requires !Escapes(code) && |Kept(code)| > 0
    ensures Kept(code)[0] == 0 && Keep(code, 0)
  {
    var kept := Kept(code);
    var x := kept[0];
    assert x in kept;
    var j :| 0 <= j < |code| && code[j].op == Ret && Reaches(code, x, j);
    ReachesTrans(code, 0, x, j);
    ReachesRefl(code, 0);
    assert 0 in kept;
  }

  /** Every position of a nonempty result is kept when the result is pruned again. */
  lemma KeptAgain(code: seq<Instr>, a: nat)
    requires !Escapes(code) && 0 < |Kept(code)| && a < |Kept(code)|
    ensures Keep(Relabelled(code, Kept(code)), a)
  {
    var kept := Kept(code);
    var p := Relabelled(code, kept);
    IncreasingNoDups(kept);
    KeptStartsAtZero(code);
    IndexOfDistinct(kept, 0);
    IndexOfDistinct(kept, a);
    assert Keep(code, kept[a]);
    var q :| IsPath(code, q) && q[0] == 0 && q[|q| - 1] == kept[a];
    ReachesRefl(code, 0);
    PathKept(code, q);
    MapPath(code, q);
    var j :| 0 <= j < |code| && code[j].op == Ret && Reaches(code, kept[a], j);
    ReachesTrans(code, 0, kept[a], j);
    ReachesRefl(code, j);
    assert Keep(code, j);
    var q' :| IsPath(code, q') && q'[0] == kept[a] && q'[|q'| - 1] == j;
    PathKept(code, q');
    MapPath(code, q');
    var c := IndexOf(kept, j);
    assert p[c].op == code[kept[c]].op;
  }

  /** Every edge of the result stays inside it, so nothing outside it is reached from 0. */
  lemma StaysInside(code: seq<Instr>, j: nat)
    requires !Escapes(code) && 0 < |Kept(code)|
    requires Reaches(Relabelled(code, Kept(code)), 0, j)
    ensures j < |Kept(code)|
  {
    var kept := Kept(code);
    var p := Relabelled(code, kept);
    var m := |p|;
    IncreasingNoDups(kept);
    forall a, b | a in Range(m) && Edge(p, a, b) ensures b in Range(m) {
      RelabelledEdge(code, kept, a, b);
    }
    ClosedSetHoldsAllReachable(p, Range(m), 0, j);
  }

  /** Renumbering by the identity leaves lists that only name positions of the result unchanged. */
  lemma RelabelIdentity(p: seq<Instr>, visited: seq<nat>)
    requires visited == Indices(|p|)
    requires forall k, x :: 0 <= k < |p| && (x in p[k].next || x in p[k].rd.entry || x in p[k].rd.exit) ==> x < |p|
    ensures Relabelled(p, visited) == p
  {
    forall k | 0 <= k < |p| ensures RelabelAt(visited, p[k]) == p[k] {
      RemapIdentity(|p|, p[k].next);
      RemapIdentity(|p|, p[k].rd.entry);
      RemapIdentity(|p|, p[k].rd.exit);
    }
  }

  lemma NotEscaping(code: seq<Instr>, p: seq<Instr>)
    requires !Escapes(code) && 0 < |Kept(code)| && p == Relabelled(code, Kept(code))
    ensures !Escapes(p)
  {
    forall j: nat | Reaches(p, 0, j) ensures j < |p| {
      StaysInside(code, j);
    }
  }

  lemma AllKept(code: seq<Instr>, p: seq<Instr>)
    requires !Escapes(code) && 0 < |Kept(code)| && p == Relabelled(code, Kept(code))
    ensures Kept(p) == Indices(|p|)
  {
    forall a: nat | a < |p| ensures Keep(p, a) {
      KeptAgain(code, a);
    }
    KeptIdentity(p);
  }

  lemma KeptIdentity(p: seq<Instr>)
    requires forall a: nat :: a < |p| ==> Keep(p, a)
    ensures Kept(p) == Indices(|p|)
  {
    var ids := Indices(|p|);
    forall x: nat ensures x in Kept(p) <==> x in ids {
      if x < |p| {
        assert ids[x] == x;
      }
    }
    IncreasingUnique(Kept(p), ids);
  }

  lemma NamesInside(code: seq<Instr>, p: seq<Instr>)
    requires forall k :: 0 <= k < |Kept(code)| ==> Kept(code)[k] < |code|
    requires p == Relabelled(code, Kept(code))
    ensures forall k, x :: 0 <= k < |p| && (x in p[k].next || x in p[k].rd.entry || x in p[k].rd.exit) ==> x < |p|
  {
    forall k, x | 0 <= k < |p| && (x in p[k].next || x in p[k].rd.entry || x in p[k].rd.exit) ensures x < |p| {
      assert p[k] == RelabelAt(Kept(code), code[Kept(code)[k]]);
    }
  }

  /**
   * Pruning a nonempty result again changes nothing. (An empty result cannot
   * be pruned again: the walk reads instruction 0.)
   */
  lemma PruneIdempotent(code: seq<Instr>, p: seq<Instr>)
    requires PruneSpec(code) == Some(p) && |p| > 0
    ensures PruneSpec(p) == Some(p)
  {
    var kept := Kept(code);
    assert p == Relabelled(code, kept);
    NotEscaping(code, p);
    AllKept(code, p);
    NamesInside(code, p);
    RelabelIdentity(p, Kept(p));
  }
}
