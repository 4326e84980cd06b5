/**
 * The instruction graph the analyses, the optimiser and the interpreter
 * work on. A function's code is a map from the indices 0..n-1 to
 * instructions; it is modelled as a sequence. Each instruction lists the
 * indices of its successors in `next`; the analyses annotate it with
 * reaching definitions (`rd`, sets of instruction indices) and live
 * variables (`lv`, sets of names), each an `in` and an `out` list.
 */
module Ir {
  import opened Wrappers
  import opened Ast

  datatype Op = Lbl | Ret | Str | Jmp | CJmp | NJmp

  /** The `in` and `out` lists of one analysis at one instruction. */
  datatype Facts<T> = Facts(entry: seq<T>, exit: seq<T>)

  /**
   * One instruction. `dest` is the variable a `str` writes, `expr` the
   * expression a `str`, `ret`, `cjmp` or `njmp` evaluates, and `args` the
   * parameter names the first instruction of a function carries.
   */
  datatype Instr = Instr(
    op: Op,
    dest: string,
    expr: Option<Node>,
    next: seq<nat>,
    args: Option<seq<string>>,
    rd: Facts<nat>,
    lv: Facts<string>)

  /** Every successor index names an instruction. */
  predicate Closed(code: seq<Instr>) {
    forall i, k :: 0 <= i < |code| && 0 <= k < |code[i].next| ==> code[i].next[k] < |code|
  }

  predicate Edge(code: seq<Instr>, i: nat, j: nat) {
    i < |code| && j in code[i].next
  }

  /** A walk along successor edges; all but its last node are instructions. */
  predicate IsPath(code: seq<Instr>, p: seq<nat>) {
    |p| >= 1 && forall k :: 0 <= k < |p| - 1 ==> Edge(code, p[k], p[k + 1])
  }

  ghost predicate Reaches(code: seq<Instr>, a: nat, b: nat) {
    exists p :: IsPath(code, p) && p[0] == a && p[|p| - 1] == b
  }

  /** Instruction `i` leads to a `ret`. */
  ghost predicate CanReachRet(code: seq<Instr>, i: nat) {
    exists j :: 0 <= j < |code| && code[j].op == Ret && Reaches(code, i, j)
  }

  lemma ReachesRefl(code: seq<Instr>, a: nat)
    ensures Reaches(code, a, a)
  {
    assert IsPath(code, [a]);
  }

  lemma ReachesStep(code: seq<Instr>, a: nat, b: nat, c: nat)
    requires Reaches(code, a, b) && Edge(code, b, c)
    ensures Reaches(code, a, c)
  {
    var p :| IsPath(code, p) && p[0] == a && p[|p| - 1] == b;
    var q := p + [c];
    assert IsPath(code, q);
  }

  lemma ReachesFirstStep(code: seq<Instr>, a: nat, b: nat, c: nat)
    requires Edge(code, a, b) && Reaches(code, b, c)
    ensures Reaches(code, a, c)
  {
    var p :| IsPath(code, p) && p[0] == b && p[|p| - 1] == c;
    var q := [a] + p;
    assert IsPath(code, q) by {
      forall k | 0 <= k < |q| - 1 ensures Edge(code, q[k], q[k + 1]) {
        if k > 0 {
          assert q[k] == p[k - 1] && q[k + 1] == p[k];
        }
      }
    }
  }

  lemma ReachesTrans(code: seq<Instr>, a: nat, b: nat, c: nat)
    requires Reaches(code, a, b) && Reaches(code, b, c)
    ensures Reaches(code, a, c)
  {
    var p :| IsPath(code, p) && p[0] == a && p[|p| - 1] == b;
    var q :| IsPath(code, q) && q[0] == b && q[|q| - 1] == c;
    var r := p + q[1..];
    assert IsPath(code, r) by {
      forall k | 0 <= k < |r| - 1 ensures Edge(code, r[k], r[k + 1]) {
        if k < |p| - 1 {
          assert r[k] == p[k] && r[k + 1] == p[k + 1];
        } else {
          assert r[k] == q[k - |p| + 1] && r[k + 1] == q[k - |p| + 2];
        }
      }
    }
  }

  /**
   * A set that holds `a` and, with every instruction in it, that
   * instruction's successors, holds everything reachable from `a`.
   */
  lemma {:induction false} ClosedSetHoldsReachable(code: seq<Instr>, s: set<nat>, a: nat, b: nat, p: seq<nat>)
    requires a in s
    requires forall i, j :: i in s && Edge(code, i, j) ==> j in s
    requires IsPath(code, p) && p[0] == a && p[|p| - 1] == b
    ensures b in s
    decreases |p|
  {
    if |p| > 1 {
      var q := p[..|p| - 1];
      assert IsPath(code, q);
      ClosedSetHoldsReachable(code, s, a, q[|q| - 1], q);
      assert Edge(code, p[|p| - 2], b);
    }
  }

  lemma ClosedSetHoldsAllReachable(code: seq<Instr>, s: set<nat>, a: nat, b: nat)
    requires a in s
    requires forall i, j :: i in s && Edge(code, i, j) ==> j in s
    requires Reaches(code, a, b)
    ensures b in s
  {
    var p :| IsPath(code, p) && p[0] == a && p[|p| - 1] == b;
    ClosedSetHoldsReachable(code, s, a, b, p);
  }

  /** Every node reached from `a` other than `a` itself is entered along an edge. */
  lemma {:induction false} ReachesLastEdge(code: seq<Instr>, a: nat, b: nat)
    requires Reaches(code, a, b) && a != b
    ensures exists i :: Reaches(code, a, i) && Edge(code, i, b)
  {
    var p :| IsPath(code, p) && p[0] == a && p[|p| - 1] == b;
    var q := p[..|p| - 1];
    assert IsPath(code, q);
    assert Reaches(code, a, q[|q| - 1]);
    assert Edge(code, p[|p| - 2], b);
  }
}
