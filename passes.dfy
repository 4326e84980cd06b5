/**
 * The optimiser passes built on `prune` (script/optimizer.js):
 * removeDeadVars, which drops stores to dead variables and links their
 * predecessors to the next surviving instruction, and the three bypass
 * passes optimiseRenamed, mergeLabels and removeJumps, which redirect every
 * edge into a redundant instruction to that instruction's only successor.
 */
module Passes {
  import opened Wrappers
  import opened Seqs
  import opened Ir
  import opened Prune

  // ---------------------------------------------------------------------
  // Redirecting edges

  /** Every entry equal to `from` replaced by `to`. */
  function Replace(xs: seq<nat>, from: nat, to: nat): (r: seq<nat>)
    ensures |r| == |xs|
  {
    seq(|xs|, k requires 0 <= k < |xs| => if xs[k] == from then to else xs[k])
  }

  /** Every edge into `from` made an edge into `to`. */
  function Redirect(code: seq<Instr>, from: nat, to: nat): (r: seq<Instr>)
    ensures |r| == |code|
  {
    seq(|code|, j requires 0 <= j < |code| => code[j].(next := Replace(code[j].next, from, to)))
  }

  /**
   * Redirecting changes only successor lists, keeps their lengths, leaves no
   * edge into `from` unless `from` is `to`, and adds only edges into `to`.
   */
  lemma RedirectMeans(code: seq<Instr>, from: nat, to: nat)
    ensures forall j :: 0 <= j < |code| ==>
              Redirect(code, from, to)[j] == code[j].(next := Redirect(code, from, to)[j].next) &&
              |Redirect(code, from, to)[j].next| == |code[j].next|
    ensures forall j, t :: 0 <= j < |code| ==>
              (t in Redirect(code, from, to)[j].next <==>
                 (t in code[j].next && t != from) || (t == to && from in code[j].next))
    ensures from != to ==> forall j :: 0 <= j < |code| ==> from !in Redirect(code, from, to)[j].next
  {
    var r := Redirect(code, from, to);
    forall j, t | 0 <= j < |code|
      ensures t in r[j].next <==> (t in code[j].next && t != from) || (t == to && from in code[j].next)
    {
      var xs := code[j].next;
      if t in r[j].next {
        var k :| 0 <= k < |xs| && r[j].next[k] == t;
      }
      if t in xs && t != from {
        var k :| 0 <= k < |xs| && xs[k] == t;
        assert r[j].next[k] == t;
      }
      if t == to && from in xs {
        var k :| 0 <= k < |xs| && xs[k] == from;
        assert r[j].next[k] == t;
      }
    }
  }

  /** The two inner loops of a bypass pass: rewrite every successor equal to `from`. */
  method RedirectAll(code: seq<Instr>, from: nat, to: nat) returns (r: seq<Instr>)
    ensures r == Redirect(code, from, to)
  {
    r := code;
    for j := 0 to |code|
      invariant |r| == |code|
      invariant forall q :: 0 <= q < j ==> r[q] == Redirect(code, from, to)[q]
      invariant forall q :: j <= q < |code| ==> r[q] == code[q]
    {
      var next := r[j].next;
      for k := 0 to |next|
        invariant |next| == |code[j].next|
        invariant forall q :: 0 <= q < k ==> next[q] == Replace(code[j].next, from, to)[q]
        invariant forall q :: k <= q < |next| ==> next[q] == code[j].next[q]
      {
        if next[k] == from {
          next := next[k := to];
        }
      }
      assert next == Replace(code[j].next, from, to);
      r := r[j := r[j].(next := next)];
    }
  }

  // ---------------------------------------------------------------------
  // The bypass passes

  /** optimiseRenamed bypasses `x := x`, mergeLabels a label followed by a label, removeJumps a jump. */
  datatype Bypass = SelfAssign | LabelChain | Jump

  /**
   * Instruction `i` is bypassed by the pass in state `code`: it has exactly
   * one successor and is of the pass's kind. A label's only successor must
   * be a label.
   */
  predicate Candidate(pass: Bypass, code: seq<Instr>, i: nat)
    requires i < |code|
  {
    var ins := code[i];
    |ins.next| == 1 &&
    match pass
    case SelfAssign => ins.op == Str && ins.expr.Some? && ins.expr.value.Var? && ins.expr.value.name == ins.dest
    case LabelChain => ins.op == Lbl && ins.next[0] < |code| && code[ins.next[0]].op == Lbl
    case Jump => ins.op == Jmp
  }

  /** Step `i` of the outer loop, which reads the state the earlier steps left. */
  function StepAt(pass: Bypass, code: seq<Instr>, i: nat): (r: seq<Instr>)
    requires i < |code|
    ensures |r| == |code|
  {
    if Candidate(pass, code, i) then Redirect(code, i, code[i].next[0]) else code
  }

  /** The state after the first `m` steps of the outer loop. */
  function Swept(pass: Bypass, code: seq<Instr>, m: nat): (r: seq<Instr>)
    requires m <= |code|
    ensures |r| == |code|
  {
    if m == 0 then code else StepAt(pass, Swept(pass, code, m - 1), m - 1)
  }

  predicate NoEdgeInto(code: seq<Instr>, i: nat) {
    forall j :: 0 <= j < |code| ==> i !in code[j].next
  }

  /** Every bypassable instruction below `m` that is not its own successor has no edge left into it. */
  predicate Bypassed(pass: Bypass, code: seq<Instr>, m: nat)
    requires m <= |code|
  {
    forall i :: 0 <= i < m && Candidate(pass, code, i) && code[i].next[0] != i ==> NoEdgeInto(code, i)
  }

  /** Redirecting the edges of a candidate makes no instruction a candidate that was not one. */
  lemma CandidateAfterRedirect(pass: Bypass, s: seq<Instr>, m: nat, i: nat)
    requires m < |s| && i < |s| && Candidate(pass, s, m)
    requires Candidate(pass, Redirect(s, m, s[m].next[0]), i)
    ensures Candidate(pass, s, i)
  {
    RedirectMeans(s, m, s[m].next[0]);
  }

  lemma StepKeepsBypassed(pass: Bypass, s: seq<Instr>, m: nat)
    requires m < |s| && Bypassed(pass, s, m)
    ensures Bypassed(pass, StepAt(pass, s, m), m + 1)
  {
    if Candidate(pass, s, m) {
      var to := s[m].next[0];
      var s' := Redirect(s, m, to);
      RedirectMeans(s, m, to);
      forall i | 0 <= i < m + 1 && Candidate(pass, s', i) && s'[i].next[0] != i
        ensures NoEdgeInto(s', i)
      {
        if i < m {
          CandidateAfterRedirect(pass, s, m, i);
          assert s'[i].next[0] == Replace(s[i].next, m, to)[0];
          assert s[i].next[0] != i;
          assert to in s[m].next;
        } else {
          assert s'[m].next[0] == Replace(s[m].next, m, to)[0];
        }
      }
    }
  }

  lemma {:induction false} SweptBypasses(pass: Bypass, code: seq<Instr>, m: nat)
    requires m <= |code|
    ensures Bypassed(pass, Swept(pass, code, m), m)
  {
    if m > 0 {
      SweptBypasses(pass, code, m - 1);
      StepKeepsBypassed(pass, Swept(pass, code, m - 1), m - 1);
    }
  }

  /** The outer loop of a bypass pass. */
  method Sweep(pass: Bypass, code: seq<Instr>) returns (r: seq<Instr>)
    ensures r == Swept(pass, code, |code|)
  {
    r := code;
    for i := 0 to |code|
      invariant r == Swept(pass, code, i)
    {
      if Candidate(pass, r, i) {
        var next := r[i].next[0];
        r := RedirectAll(r, i, next);
      }
    }
  }

  /** A candidate that is its own only successor leads to no `ret`. */
  lemma SelfLoopIsDead(pass: Bypass, s: seq<Instr>, j: nat)
    requires j < |s| && Candidate(pass, s, j) && s[j].next[0] == j
    ensures !CanReachRet(s, j)
  {
    assert s[j].next == [j];
    forall a, b | a in {j} && Edge(s, a, b) ensures b in {j} {
    }
    forall r | Reaches(s, j, r) ensures r == j {
      ClosedSetHoldsAllReachable(s, {j}, j, r);
    }
  }

  /**
   * After a bypass pass and its prune, no kept instruction other than the
   * first is one the pass bypasses.
   */
  lemma BypassedAreRemoved(pass: Bypass, code: seq<Instr>, j: nat)
    requires Keep(Swept(pass, code, |code|), j) && j != 0
    ensures !Candidate(pass, Swept(pass, code, |code|), j)
  {
    var s := Swept(pass, code, |code|);
    SweptBypasses(pass, code, |code|);
    if Candidate(pass, s, j) {
      if s[j].next[0] == j {
        SelfLoopIsDead(pass, s, j);
      } else {
        ReachesLastEdge(s, 0, j);
      }
    }
  }

  /** env.optimiseRenamed: bypass every `x := x` with one successor, then prune. */
  method OptimiseRenamed(code: seq<Instr>) returns (r: Option<seq<Instr>>)
    ensures r == PruneSpec(Swept(SelfAssign, code, |code|))
  {
    var s := Sweep(SelfAssign, code);
    r := Prune.Prune(s);
  }

  /** env.mergeLabels: bypass every label whose only successor is a label, then prune. */
  method MergeLabels(code: seq<Instr>) returns (r: Option<seq<Instr>>)
    ensures r == PruneSpec(Swept(LabelChain, code, |code|))
  {
    var s := Sweep(LabelChain, code);
    r := Prune.Prune(s);
  }

  /** env.removeJumps: bypass every jump with one successor, then prune. */
  method RemoveJumps(code: seq<Instr>) returns (r: Option<seq<Instr>>)
    ensures r == PruneSpec(Swept(Jump, code, |code|))
  {
    var s := Sweep(Jump, code);
    r := Prune.Prune(s);
  }

  // ---------------------------------------------------------------------
  // Dead stores

  /** A store whose variable is not live after it. */
  predicate Dead(ins: Instr) {
    ins.op == Str && ins.dest !in ins.lv.exit
  }

  /** The indices below `m` of the instructions that are not dead stores, in increasing order. */
  function LiveKeys(code: seq<Instr>, m: nat): (r: seq<nat>)
    requires m <= |code|
    ensures forall x: nat :: x in r <==> x < m && !Dead(code[x])
    ensures forall k :: 0 <= k < |r| ==> r[k] < m
    ensures Increasing(r)
  {
    if m == 0 then []
    else
      var r := LiveKeys(code, m - 1);
      if Dead(code[m - 1]) then r else r + [m - 1]
  }

  /** The first position whose key is at least `t`, searching from `k`. */
  function FirstAtLeast(keys: seq<nat>, t: nat, k: nat): (r: Option<nat>)
    requires k <= |keys|
    ensures r.Some? ==> k <= r.value < |keys| && keys[r.value] >= t &&
                        forall q :: k <= q < r.value ==> keys[q] < t
    ensures r.None? ==> forall q :: k <= q < |keys| ==> keys[q] < t
    decreases |keys| - k
  {
    if k == |keys| then None
    else if keys[k] >= t then Some(k)
    else FirstAtLeast(keys, t, k + 1)
  }

  /** The new position of successor `t`; a successor past every key is left as it was. */
  function Target(keys: seq<nat>, t: nat): nat {
    match FirstAtLeast(keys, t, 0)
    case Some(k) => k
    case None => t
  }

  /** The surviving instructions, in order, each successor moved to its new position. */
  function Compacted(code: seq<Instr>, keys: seq<nat>): (r: seq<Instr>)
    requires forall k :: 0 <= k < |keys| ==> keys[k] < |code|
    ensures |r| == |keys|
  {
    seq(|keys|, i requires 0 <= i < |keys| =>
      var ins := code[keys[i]];
      ins.(next := seq(|ins.next|, j requires 0 <= j < |ins.next| => Target(keys, ins.next[j]))))
  }

  function Survivors(code: seq<Instr>): seq<Instr> {
    Compacted(code, LiveKeys(code, |code|))
  }

  /**
   * The compacted code holds exactly the instructions that are not dead
   * stores, in order and unchanged but for their successors; a successor
   * moves to the first surviving instruction at or after it, so an edge to
   * a surviving instruction still reaches that instruction.
   */
  lemma SurvivorsMeans(code: seq<Instr>)
    ensures var keys := LiveKeys(code, |code|);
            var c := Survivors(code);
            (forall i :: 0 <= i < |c| ==> !Dead(c[i]) && c[i] == code[keys[i]].(next := c[i].next)) &&
            (forall x: nat :: x < |code| && !Dead(code[x]) ==> x in keys) &&
            (forall i, j ::
               (0 <= i < |c| && 0 <= j < |c[i].next| && code[keys[i]].next[j] < |code| &&
                !Dead(code[code[keys[i]].next[j]])) ==>
               keys[c[i].next[j]] == code[keys[i]].next[j])
  {
    var keys := LiveKeys(code, |code|);
    var c := Survivors(code);
    forall i, j | 0 <= i < |c| && 0 <= j < |c[i].next| && code[keys[i]].next[j] < |code| &&
                  !Dead(code[code[keys[i]].next[j]])
      ensures keys[c[i].next[j]] == code[keys[i]].next[j]
    {
      var t := code[keys[i]].next[j];
      TargetOfSurvivor(keys, t);
    }
    forall i | 0 <= i < |c| ensures !Dead(c[i]) {
      assert keys[i] in keys;
    }
  }

  /**
   * Every link of a survivor, dead target or not, moves to the first
   * surviving instruction whose old index is at least the old target; when
   * there is none, the link keeps its old value.
   */
  lemma RetargetMeans(code: seq<Instr>, i: nat, j: nat)
    requires i < |Survivors(code)| && j < |Survivors(code)[i].next|
    ensures var keys := LiveKeys(code, |code|);
            var t := code[keys[i]].next[j];
            var n := Survivors(code)[i].next[j];
            && ((exists q :: 0 <= q < |keys| && keys[q] >= t) ==>
                  n < |keys| && keys[n] >= t && forall q :: 0 <= q < n ==> keys[q] < t)
            && ((forall q :: 0 <= q < |keys| ==> keys[q] < t) ==> n == t)
  {
  }

  /** A key is its own target: the search stops at it. */
  lemma TargetOfSurvivor(keys: seq<nat>, t: nat)
    requires Increasing(keys) && t in keys
    ensures Target(keys, t) < |keys| && keys[Target(keys, t)] == t
  {
    var q :| 0 <= q < |keys| && keys[q] == t;
    var r := FirstAtLeast(keys, t, 0);
    assert r.Some?;
  }

  /** A successor that is not a key moves to the next key after it, when there is one. */
  lemma TargetOfDead(keys: seq<nat>, t: nat, u: nat)
    requires Increasing(keys) && u in keys && t <= u
    ensures Target(keys, t) < |keys|
    ensures t <= keys[Target(keys, t)] <= u
    ensures forall q :: 0 <= q < Target(keys, t) ==> keys[q] < t
  {
    var q :| 0 <= q < |keys| && keys[q] == u;
    assert FirstAtLeast(keys, t, 0).Some?;
    var r := FirstAtLeast(keys, t, 0).value;
  }

  /** The first loop of removeDeadVars: the keys of the instructions that are not dead stores. */
  method CollectKeys(code: seq<Instr>) returns (keys: seq<nat>)
    ensures keys == LiveKeys(code, |code|)
  {
    keys := [];
    for i := 0 to |code|
      invariant keys == LiveKeys(code, i)
    {
      if !(code[i].op == Str && IndexOf(code[i].lv.exit, code[i].dest) == -1) {
        keys := keys + [i];
      }
    }
  }

  /** The innermost loop: the first key at least `t`, or `t` itself when there is none. */
  method FindKey(keys: seq<nat>, t: nat) returns (target: nat)
    ensures target == Target(keys, t)
  {
    target := t;
    var k := 0;
    while k < |keys|
      invariant 0 <= k <= |keys|
      invariant FirstAtLeast(keys, t, 0) == FirstAtLeast(keys, t, k)
    {
      if keys[k] >= t {
        target := k;
        break;
      }
      k := k + 1;
    }
  }

  /** The link-fixing loops of removeDeadVars. */
  method FixLinks(code: seq<Instr>, keys: seq<nat>) returns (ret: seq<Instr>)
    requires forall k :: 0 <= k < |keys| ==> keys[k] < |code|
    ensures ret == Compacted(code, keys)
  {
    ret := [];
    for i := 0 to |keys|
      invariant |ret| == i
      invariant forall q :: 0 <= q < i ==> ret[q] == Compacted(code, keys)[q]
    {
      var ins := code[keys[i]];
      var next := ins.next;
      for j := 0 to |next|
        invariant |next| == |ins.next|
        invariant forall q :: 0 <= q < j ==> next[q] == Target(keys, ins.next[q])
        invariant forall q :: j <= q < |next| ==> next[q] == ins.next[q]
      {
        var target := FindKey(keys, next[j]);
        next := next[j := target];
      }
      ret := ret + [ins.(next := next)];
    }
  }

  /** env.removeDeadVars. */
  method RemoveDeadVars(code: seq<Instr>) returns (r: Option<seq<Instr>>)
    ensures r == PruneSpec(Survivors(code))
  {
    var keys := CollectKeys(code);
    var ret := FixLinks(code, keys);
    r := Prune.Prune(ret);
  }

  /** No dead store survives removeDeadVars. */
  lemma NoDeadStoreLeft(code: seq<Instr>, p: seq<Instr>)
    requires PruneSpec(Survivors(code)) == Some(p)
    ensures forall k :: 0 <= k < |p| ==> !Dead(p[k])
  {
    var c := Survivors(code);
    SurvivorsMeans(code);
    PruneShape(c, p);
  }
}
