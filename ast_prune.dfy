/**
 * Constant folding on the syntax tree (env.pruneAST in app/script/ast.js):
 * operators over literals are evaluated, `x * 0`, `x * 1` and `x + 0` are
 * simplified, a repeated unary operator is cancelled, and a literal operand
 * of `+`, `*` or `==` is pushed into a nested operation of the same kind.
 * The source keeps each replaced subtree beside its replacement for
 * drawing; that copy plays no part in what the tree computes and is not
 * modelled.
 */
module AstPrune {
  import opened Wrappers
  import opened Ast

  /** The operators whose literal operand `lift` moves into a nested node. */
  predicate Liftable(p: BinOp) {
    p == Add || p == Eq || p == Mul
  }

  /** A node is a literal with the given value. */
  predicate IsLit(n: Node, v: int) {
    n.Num? && n.val == v
  }

  /**
   * `descend`: finds, along a chain of `p` nodes, the first literal operand
   * and combines `c` into it. None where the source returns false: the chain
   * ends without reaching a literal.
   */
  function Descend(p: BinOp, n: Node, c: int): (r: Option<Node>)
    requires Liftable(p)
    ensures r.Some? ==> r.value.Bin? && r.value.p == p && n.Bin? && n.p == p
  {
    if !n.Bin? || n.p != p then None
    else if n.lhs.Num? then Some(Bin(p, Num(BinOpValue(p, n.lhs.val, c).value), n.rhs))
    else if n.rhs.Num? then Some(Bin(p, n.lhs, Num(BinOpValue(p, n.rhs.val, c).value)))
    else match Descend(p, n.lhs, c)
      case Some(b) => Some(Bin(p, b, n.rhs))
      case None =>
        match Descend(p, n.rhs, c)
        case Some(b) => Some(Bin(p, n.lhs, b))
        case None => None
  }

  /**
   * `lift`: only a right literal is tried when there is one, otherwise a
   * left literal; the literal's node disappears into the other operand.
   */
  function Lift(p: BinOp, l: Node, r: Node): Option<Node> {
    if !Liftable(p) then None
    else if r.Num? then Descend(p, l, r.val)
    else if l.Num? then Descend(p, r, l.val)
    else None
  }

  /**
   * The shape constant folding leaves: no operator node over two literals
   * with a defined value, no unary operator over a literal, and no unary
   * operator directly over the same operator.
   */
  predicate Normal(n: Node) {
    match n
    case Prog(fs) => forall i :: 0 <= i < |fs| ==> Normal(fs[i])
    case Func(_, _, body, _) => forall i :: 0 <= i < |body| ==> Normal(body[i])
    case Return(e) => Normal(e)
    case While(c, body) => Normal(c) && forall i :: 0 <= i < |body| ==> Normal(body[i])
    case Assign(_, e) => Normal(e)
    case If(c, t, f) =>
      Normal(c) && (forall i :: 0 <= i < |t| ==> Normal(t[i])) && forall i :: 0 <= i < |f| ==> Normal(f[i])
    case Call(_, args, _) => forall i :: 0 <= i < |args| ==> Normal(args[i])
    case Bin(p, l, r) =>
      Normal(l) && Normal(r) && !(l.Num? && r.Num? && BinOpValue(p, l.val, r.val).Some?)
    case Un(u, x) => Normal(x) && !x.Num? && !(x.Un? && x.u == u)
    case Num(_) => true
    case Var(_, _) => true
  }

  lemma {:induction false} DescendNormal(p: BinOp, n: Node, c: int)
    requires Liftable(p) && Normal(n)
    ensures Descend(p, n, c).Some? ==> Normal(Descend(p, n, c).value)
  {
    if n.Bin? && n.p == p && !n.lhs.Num? && !n.rhs.Num? {
      DescendNormal(p, n.lhs, c);
      DescendNormal(p, n.rhs, c);
    }
  }

  lemma {:induction false} DescendFreeVars(p: BinOp, n: Node, c: int)
    requires Liftable(p)
    ensures Descend(p, n, c).Some? ==> FreeVars(Descend(p, n, c).value) == FreeVars(n)
  {
    if n.Bin? && n.p == p && !n.lhs.Num? && !n.rhs.Num? {
      DescendFreeVars(p, n.lhs, c);
      DescendFreeVars(p, n.rhs, c);
    }
  }

  /** The operator case of pruneAST, given the already pruned operands. */
  function PruneBin(p: BinOp, l: Node, r: Node): (b: Node)
    requires Normal(l) && Normal(r)
    ensures Normal(b)
    ensures FreeVars(b) <= FreeVars(l) + FreeVars(r)
  {
    if l.Num? && r.Num? && BinOpValue(p, l.val, r.val).Some? then Num(BinOpValue(p, l.val, r.val).value)
    else if p == Mul && (IsLit(l, 0) || IsLit(r, 0)) then Num(0)
    else if p == Mul && (IsLit(l, 1) || IsLit(r, 1)) then (if IsLit(l, 1) then r else l)
    else if p == Add && (IsLit(l, 0) || IsLit(r, 0)) then (if IsLit(l, 0) then r else l)
    else (
      match Lift(p, l, r)
      case Some(b) =>
        assert Normal(b) && FreeVars(b) <= FreeVars(l) + FreeVars(r) by {
          if r.Num? {
            DescendNormal(p, l, r.val);
            DescendFreeVars(p, l, r.val);
          } else {
            DescendNormal(p, r, l.val);
            DescendFreeVars(p, r, l.val);
          }
        }
        b
      case None => Bin(p, l, r))
  }

  /** The unary case of pruneAST, given the already pruned operand. */
  function PruneUn(u: UnOp, x: Node): (e: Node)
    requires Normal(x)
    ensures Normal(e)
    ensures FreeVars(e) <= FreeVars(x)
  {
    if x.Num? then Num(UnOpValue(u, x.val))
    else if x.Un? && x.u == u then x.expr
    else Un(u, x)
  }

  /**
   * env.pruneAST. The result is in normal form, reads no variable the input
   * does not read, and keeps the kind of every statement.
   */
  function Prune(n: Node): (r: Node)
    ensures Normal(r)
    ensures FreeVars(r) <= FreeVars(n)
    ensures n.Prog? ==> r.Prog? && |r.funcs| == |n.funcs|
    ensures n.Func? ==> r.Func? && r.name == n.name && r.params == n.params && r.loc == n.loc
  {
    match n
    case Prog(fs) => Prog(PruneAll(fs))
    case Func(g, ps, body, loc) => Func(g, ps, PruneAll(body), loc)
    case Return(e) => Return(Prune(e))
    case While(c, body) => While(Prune(c), PruneAll(body))
    case Assign(x, e) => Assign(x, Prune(e))
    case If(c, t, f) => If(Prune(c), PruneAll(t), PruneAll(f))
    case Call(g, args, loc) => Call(g, PruneAll(args), loc)
    case Bin(p, l, r) => PruneBin(p, Prune(l), Prune(r))
    case Un(u, x) => PruneUn(u, Prune(x))
    case Num(_) => n
    case Var(_, _) => n
  }

  /** `map(env.pruneAST)` over a list of nodes. */
  function PruneAll(ns: seq<Node>): (r: seq<Node>)
    ensures |r| == |ns|
    ensures forall i :: 0 <= i < |r| ==> Normal(r[i])
    ensures FreeVarsAll(r) <= FreeVarsAll(ns)
  {
    if |ns| == 0 then []
    else
      var init := PruneAll(ns[..|ns| - 1]);
      assert (init + [Prune(ns[|ns| - 1])])[..|ns| - 1] == init;
      init + [Prune(ns[|ns| - 1])]
  }

  /** Expressions without `==` and `!`, the two operators whose rewriting does not keep the value. */
  predicate NoEqNoNot(e: Node) {
    match e
    case Bin(p, l, r) => p != Eq && NoEqNoNot(l) && NoEqNoNot(r)
    case Un(u, x) => u != Not && NoEqNoNot(x)
    case Call(_, args, _) => forall i :: 0 <= i < |args| ==> NoEqNoNot(args[i])
    case _ => true
  }

  /** `+` or `*` on two integers. */
  function Op(p: BinOp, a: int, b: int): int
    requires p == Add || p == Mul
  {
    if p == Add then a + b else a * b
  }

  lemma OpIsBinOp(p: BinOp, a: int, b: int)
    requires p == Add || p == Mul
    ensures BinOpValue(p, a, b) == Some(Op(p, a, b))
  {
  }

  /** Associativity and commutativity of `+` and `*`, in the two forms the rewriting needs. */
  lemma OpLaws(p: BinOp, a: int, b: int, c: int)
    requires p == Add || p == Mul
    ensures Op(p, Op(p, a, c), b) == Op(p, Op(p, a, b), c)
    ensures Op(p, a, Op(p, b, c)) == Op(p, Op(p, a, b), c)
  {
    if p == Mul {
      assert (a * c) * b == (a * b) * c;
      assert a * (b * c) == (a * b) * c;
    }
  }

  /** Evaluation of an operator node over `+` or `*`. */
  lemma EvalOp(p: BinOp, l: Node, r: Node, s: map<string, int>)
    requires p == Add || p == Mul
    ensures Eval(Bin(p, l, r), s) ==
      if Eval(l, s).Some? && Eval(r, s).Some? then Some(Op(p, Eval(l, s).value, Eval(r, s).value)) else None
  {
    if Eval(l, s).Some? && Eval(r, s).Some? {
      OpIsBinOp(p, Eval(l, s).value, Eval(r, s).value);
    }
  }

  /** Pushing a literal into a chain of `+` or `*` nodes keeps the value of the whole. */
  lemma {:induction false} DescendValue(p: BinOp, n: Node, c: int, s: map<string, int>)
    requires p == Add || p == Mul
    requires Descend(p, n, c).Some?
    ensures Eval(Descend(p, n, c).value, s) == Eval(Bin(p, n, Num(c)), s)
  {
    var b := Descend(p, n, c).value;
    EvalOp(p, n, Num(c), s);
    EvalOp(p, n.lhs, n.rhs, s);
    EvalOp(p, b.lhs, b.rhs, s);
    if n.lhs.Num? {
      OpIsBinOp(p, n.lhs.val, c);
      if Eval(n.rhs, s).Some? {
        OpLaws(p, n.lhs.val, Eval(n.rhs, s).value, c);
      }
    } else if n.rhs.Num? {
      OpIsBinOp(p, n.rhs.val, c);
      if Eval(n.lhs, s).Some? {
        OpLaws(p, Eval(n.lhs, s).value, n.rhs.val, c);
      }
    } else if Descend(p, n.lhs, c).Some? {
      DescendValue(p, n.lhs, c, s);
      EvalOp(p, n.lhs, Num(c), s);
      if Eval(n.lhs, s).Some? && Eval(n.rhs, s).Some? {
        OpLaws(p, Eval(n.lhs, s).value, Eval(n.rhs, s).value, c);
      }
    } else {
      DescendValue(p, n.rhs, c, s);
      EvalOp(p, n.rhs, Num(c), s);
      if Eval(n.lhs, s).Some? && Eval(n.rhs, s).Some? {
        OpLaws(p, Eval(n.lhs, s).value, Eval(n.rhs, s).value, c);
      }
    }
  }

  /** `lift` on `+` and `*` keeps the value, whichever operand is the literal. */
  lemma LiftValue(p: BinOp, l: Node, r: Node, s: map<string, int>)
    requires p == Add || p == Mul
    requires Lift(p, l, r).Some?
    ensures Eval(Lift(p, l, r).value, s) == Eval(Bin(p, l, r), s)
  {
    if r.Num? {
      DescendValue(p, l, r.val, s);
    } else {
      DescendValue(p, r, l.val, s);
    }
  }

  /** Evaluation of an operator node, in terms of its operands' values. */
  lemma EvalBin(p: BinOp, l: Node, r: Node, s: map<string, int>)
    ensures Eval(Bin(p, l, r), s) ==
      if Eval(l, s).Some? && Eval(r, s).Some? then BinOpValue(p, Eval(l, s).value, Eval(r, s).value) else None
  {
  }

  /** Multiplication by a literal 0 or 1 keeps the value of the product. */
  lemma MulSimplifySound(l: Node, r: Node, s: map<string, int>)
    requires Normal(l) && Normal(r) && Eval(Bin(Mul, l, r), s).Some?
    requires !(l.Num? && r.Num? && BinOpValue(Mul, l.val, r.val).Some?)
    requires IsLit(l, 0) || IsLit(r, 0) || IsLit(l, 1) || IsLit(r, 1)
    ensures Eval(PruneBin(Mul, l, r), s) == Eval(Bin(Mul, l, r), s)
  {
    EvalBin(Mul, l, r, s);
    var a, b := Eval(l, s).value, Eval(r, s).value;
    assert BinOpValue(Mul, a, b) == Some(a * b);
    if IsLit(l, 0) || IsLit(r, 0) {
      assert PruneBin(Mul, l, r) == Num(0);
    } else {
      assert PruneBin(Mul, l, r) == if IsLit(l, 1) then r else l;
    }
  }

  /** Adding a literal 0 keeps the value of the sum. */
  lemma AddZeroSound(l: Node, r: Node, s: map<string, int>)
    requires Normal(l) && Normal(r) && Eval(Bin(Add, l, r), s).Some?
    requires !(l.Num? && r.Num? && BinOpValue(Add, l.val, r.val).Some?)
    requires IsLit(l, 0) || IsLit(r, 0)
    ensures Eval(PruneBin(Add, l, r), s) == Eval(Bin(Add, l, r), s)
  {
    EvalBin(Add, l, r, s);
    var a, b := Eval(l, s).value, Eval(r, s).value;
    assert BinOpValue(Add, a, b) == Some(a + b);
    assert PruneBin(Add, l, r) == if IsLit(l, 0) then r else l;
  }

  /** The two last cases of PruneBin: a lift, or the node kept as it is. */
  lemma LiftOrKeepSound(p: BinOp, l: Node, r: Node, s: map<string, int>)
    requires p != Eq && Normal(l) && Normal(r)
    requires !(l.Num? && r.Num? && BinOpValue(p, l.val, r.val).Some?)
    requires !(p == Mul && (IsLit(l, 0) || IsLit(r, 0) || IsLit(l, 1) || IsLit(r, 1)))
    requires !(p == Add && (IsLit(l, 0) || IsLit(r, 0)))
    ensures Eval(PruneBin(p, l, r), s) == Eval(Bin(p, l, r), s)
  {
    if Lift(p, l, r).Some? {
      assert PruneBin(p, l, r) == Lift(p, l, r).value;
      LiftValue(p, l, r, s);
    } else {
      assert PruneBin(p, l, r) == Bin(p, l, r);
    }
  }

  /** The operator case of PruneSound, once both operands are known to keep their values. */
  lemma PruneBinSound(p: BinOp, l0: Node, r0: Node, l: Node, r: Node, s: map<string, int>)
    requires p != Eq && Normal(l) && Normal(r)
    requires Eval(l, s) == Eval(l0, s) && Eval(r, s) == Eval(r0, s)
    requires Eval(Bin(p, l0, r0), s).Some?
    ensures Eval(PruneBin(p, l, r), s) == Eval(Bin(p, l0, r0), s)
  {
    EvalBin(p, l0, r0, s);
    EvalBin(p, l, r, s);
    if l.Num? && r.Num? && BinOpValue(p, l.val, r.val).Some? {
      assert PruneBin(p, l, r) == Num(BinOpValue(p, l.val, r.val).value);
    } else if p == Mul && (IsLit(l, 0) || IsLit(r, 0) || IsLit(l, 1) || IsLit(r, 1)) {
      MulSimplifySound(l, r, s);
    } else if p == Add && (IsLit(l, 0) || IsLit(r, 0)) {
      AddZeroSound(l, r, s);
    } else {
      LiftOrKeepSound(p, l, r, s);
    }
  }

  /**
   * Folding keeps the meaning of every expression without `==` and `!`
   * that has a value. (An expression whose value is undefined, such as
   * `(1 / 0) * 0`, may acquire one.)
   */
  lemma {:induction false} PruneSound(e: Node, s: map<string, int>)
    requires NoEqNoNot(e) && Eval(e, s).Some?
    ensures Eval(Prune(e), s) == Eval(e, s)
  {
    ValuedShape(e, s);
    if e.Bin? {
      EvalBin(e.p, e.lhs, e.rhs, s);
      PruneSound(e.lhs, s);
      PruneSound(e.rhs, s);
      PruneBinCase(e.p, e.lhs, e.rhs, s);
    } else if e.Un? {
      PruneSound(e.expr, s);
      PruneUnCase(e.u, e.expr, s);
    } else {
      assert Prune(e) == e;
    }
  }

  /** Only literals, variables and operator nodes have a value. */
  lemma ValuedShape(e: Node, s: map<string, int>)
    requires Eval(e, s).Some?
    ensures e.Num? || e.Var? || e.Bin? || e.Un?
    ensures e.Un? ==> Eval(e.expr, s).Some?
  {
  }

  /** The induction step of PruneSound for a unary node. */
  lemma PruneUnCase(u: UnOp, x0: Node, s: map<string, int>)
    requires u != Not && Eval(x0, s).Some?
    requires Eval(Prune(x0), s) == Eval(x0, s)
    ensures Eval(Prune(Un(u, x0)), s) == Eval(Un(u, x0), s)
  {
    var x := Prune(x0);
    assert Prune(Un(u, x0)) == PruneUn(u, x);
    if x.Un? && x.u == u {
      var a := Eval(x.expr, s).value;
      assert UnOpValue(u, UnOpValue(u, a)) == a;
    }
  }

  /** The induction step of PruneSound for an operator node. */
  lemma PruneBinCase(p: BinOp, l0: Node, r0: Node, s: map<string, int>)
    requires p != Eq && Eval(Bin(p, l0, r0), s).Some?
    requires Eval(Prune(l0), s) == Eval(l0, s) && Eval(Prune(r0), s) == Eval(r0, s)
    ensures Eval(Prune(Bin(p, l0, r0)), s) == Eval(Bin(p, l0, r0), s)
  {
    assert Prune(Bin(p, l0, r0)) == PruneBin(p, Prune(l0), Prune(r0));
    PruneBinSound(p, l0, r0, Prune(l0), Prune(r0), s);
  }

  lemma EqLiftRewrite(l: Loc)
    ensures Prune(Bin(Eq, Bin(Eq, Var("x", l), Num(3)), Num(4))) == Bin(Eq, Var("x", l), Num(0))
  {
    var x := Var("x", l);
    assert Prune(Bin(Eq, x, Num(3))) == PruneBin(Eq, x, Num(3)) == Bin(Eq, x, Num(3));
    assert Descend(Eq, Bin(Eq, x, Num(3)), 4) == Some(Bin(Eq, x, Num(0)));
    assert PruneBin(Eq, Bin(Eq, x, Num(3)), Num(4)) == Bin(Eq, x, Num(0));
  }

  /** `(x == 3) == 4` is rewritten to `x == 0`, which differs from it at x = 0. */
  lemma EqLiftChangesValue(l: Loc)
    ensures Prune(Bin(Eq, Bin(Eq, Var("x", l), Num(3)), Num(4))) == Bin(Eq, Var("x", l), Num(0))
    ensures Eval(Bin(Eq, Bin(Eq, Var("x", l), Num(3)), Num(4)), map["x" := 0]) == Some(0)
    ensures Eval(Bin(Eq, Var("x", l), Num(0)), map["x" := 0]) == Some(1)
  {
    var x := Var("x", l);
    EqLiftRewrite(l);
    assert Eval(x, map["x" := 0]) == Some(0);
    assert Eval(Bin(Eq, x, Num(3)), map["x" := 0]) == Some(0);
  }

  /** `!!x` is rewritten to `x`, which differs from it at x = 5. */
  lemma DoubleNotChangesValue(l: Loc)
    ensures Prune(Un(Not, Un(Not, Var("x", l)))) == Var("x", l)
    ensures Eval(Un(Not, Un(Not, Var("x", l))), map["x" := 5]) == Some(1)
  {
    var x := Var("x", l);
    assert Prune(Un(Not, x)) == PruneUn(Not, x) == Un(Not, x);
    assert PruneUn(Not, Un(Not, x)) == x;
    assert Eval(x, map["x" := 5]) == Some(5);
    assert Eval(Un(Not, x), map["x" := 5]) == Some(0);
  }

  /**
   * Pruning twice can simplify further: `(x + -2) + 2` becomes `x + 0`,
   * which a second pass turns into `x`.
   */
  lemma PruneNotIdempotent(l: Loc)
    ensures Prune(Bin(Add, Bin(Add, Var("x", l), Un(Neg, Num(2))), Num(2))) == Bin(Add, Var("x", l), Num(0))
    ensures Prune(Bin(Add, Var("x", l), Num(0))) == Var("x", l)
  {
    var x := Var("x", l);
    assert Prune(Un(Neg, Num(2))) == PruneUn(Neg, Num(2)) == Num(-2);
    assert Prune(Bin(Add, x, Un(Neg, Num(2)))) == PruneBin(Add, x, Num(-2)) == Bin(Add, x, Num(-2));
    assert Descend(Add, Bin(Add, x, Num(-2)), 2) == Some(Bin(Add, x, Num(0)));
    assert PruneBin(Add, Bin(Add, x, Num(-2)), Num(2)) == Bin(Add, x, Num(0));
    assert PruneBin(Add, x, Num(0)) == x;
  }

  /** Operators over literals are replaced by their value: `(2 + 3) * 4` becomes `20`. */
  lemma FoldLiterals()
    ensures Prune(Bin(Mul, Bin(Add, Num(2), Num(3)), Num(4))) == Num(20)
  {
    assert Prune(Bin(Add, Num(2), Num(3))) == PruneBin(Add, Num(2), Num(3)) == Num(5);
    assert Prune(Num(4)) == Num(4);
    assert PruneBin(Mul, Num(5), Num(4)) == Num(20);
  }

  /** An operator over literals without an integer value is kept: `1 / 0` stays. */
  lemma KeepsUndefinedFold()
    ensures Prune(Bin(Div, Num(1), Num(0))) == Bin(Div, Num(1), Num(0))
  {
    assert Prune(Num(1)) == Num(1) && Prune(Num(0)) == Num(0);
    assert PruneBin(Div, Num(1), Num(0)) == Bin(Div, Num(1), Num(0));
  }

  /**
   * `Math.pow` with a negative exponent is an integer only for bases 1 and
   * -1: `1 ^ -1` folds to 1 and `(-1) ^ -3` to -1, while `2 ^ -1` (0.5)
   * stays as it is.
   */
  lemma NegativePowerFolds()
    ensures Prune(Bin(Pow, Num(1), Num(-1))) == Num(1)
    ensures Prune(Bin(Pow, Num(-1), Num(-3))) == Num(-1)
    ensures Prune(Bin(Pow, Num(2), Num(-1))) == Bin(Pow, Num(2), Num(-1))
  {
  }

  /** A chain of additions absorbs a literal: `(x + 1) + 2` becomes `x + 3`. */
  lemma LiftAbsorbsLiteral(l: Loc)
    ensures Prune(Bin(Add, Bin(Add, Var("x", l), Num(1)), Num(2))) == Bin(Add, Var("x", l), Num(3))
  {
    var x := Var("x", l);
    assert Prune(Bin(Add, x, Num(1))) == PruneBin(Add, x, Num(1)) == Bin(Add, x, Num(1));
    assert Descend(Add, Bin(Add, x, Num(1)), 2) == Some(Bin(Add, x, Num(3)));
    assert PruneBin(Add, Bin(Add, x, Num(1)), Num(2)) == Bin(Add, x, Num(3));
  }
}
