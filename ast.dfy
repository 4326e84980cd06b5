/**
 * The abstract syntax tree of the toy language and the integer semantics of
 * its operators (app/script/ast.js, env.binop and env.unop). The node shapes
 * are those the grammar actions of the parser build.
 */
module Ast {
  import opened Wrappers

  /** Binary operators, one per grammar production that builds a `bin` node. */
  datatype BinOp = Mul | Div | Mod | Pow | Add | Sub | Eq | Ne | Le | Ge | And | Or | Gt | Lt

  /** Unary operators: `!`, `-` and `~`. */
  datatype UnOp = Not | Neg | BitNot

  /** Source position of a node, as recorded by the parser (first line, first column). */
  datatype Loc = Loc(line: int, column: int)

  /**
   * One node of the tree. The source distinguishes kinds by a string tag;
   * here every kind is a constructor. Positions are kept on the three kinds
   * whose errors the checker reports: functions, calls and variables.
   */
  datatype Node =
    | Prog(funcs: seq<Node>)
    | Func(name: string, params: seq<string>, body: seq<Node>, loc: Loc)
    | Return(expr: Node)
    | While(cond: Node, body: seq<Node>)
    | Assign(name: string, expr: Node)
    | If(cond: Node, thenBody: seq<Node>, elseBody: seq<Node>)
    | Call(name: string, actuals: seq<Node>, loc: Loc)
    | Bin(p: BinOp, lhs: Node, rhs: Node)
    | Un(u: UnOp, expr: Node)
    | Num(val: int)
    | Var(name: string, loc: Loc)

  /** The operators whose value is a truth value. */
  predicate IsBoolean(op: BinOp) {
    op in {Eq, Ne, Le, Ge, Lt, Gt, And, Or}
  }

  function Abs(x: int): nat {
    if x < 0 then -x else x
  }

  /** `Math.floor(l / r)` for a nonzero divisor. */
  function FloorDiv(l: int, r: int): (q: int)
    requires r != 0
    ensures r > 0 ==> q * r <= l < q * r + r
    ensures r < 0 ==> q * r + r < l <= q * r
  {
    if r > 0 then l / r else (-l) / (-r)
  }

  /** JavaScript's `%` on integers: the remainder takes the sign of the dividend. */
  function TruncMod(l: int, r: int): (m: int)
    requires r != 0
    ensures Abs(m) < Abs(r)
    ensures l >= 0 ==> m >= 0
    ensures l < 0 ==> m <= 0
    ensures l == (if (l >= 0) == (r > 0) then Abs(l) / Abs(r) else -(Abs(l) / Abs(r))) * r + m
  {
    var a := Abs(l) % Abs(r);
    if l >= 0 then a else -a
  }

  /** `Math.pow` on a non-negative integer exponent. */
  function Power(b: int, e: nat): int
    decreases e
  {
    if e == 0 then 1 else b * Power(b, e - 1)
  }

  /**
   * env.binop. The result is None exactly where JavaScript would produce a
   * value that is not an integer: a zero divisor for `/` and `%` (an
   * infinity or NaN), or a negative exponent for `^` on a base other than 1
   * and -1 (a fraction, or an infinity for base 0). `Math.pow` with a
   * negative exponent gives 1 for base 1, and 1 or -1 for base -1 as the
   * exponent is even or odd.
   */
  function BinOpValue(op: BinOp, l: int, r: int): (v: Option<int>)
    ensures v.None? <==> ((op == Div || op == Mod) && r == 0) || (op == Pow && r < 0 && l != 1 && l != -1)
    ensures op == Pow && r < 0 && l == 1 ==> v == Some(1)
    ensures op == Pow && r < 0 && l == -1 ==> v == Some(if r % 2 == 0 then 1 else -1)
    ensures IsBoolean(op) ==> v == Some(0) || v == Some(1)
    ensures op == And ==> (v == Some(1) <==> l != 0 && r != 0)
    ensures op == Or ==> (v == Some(1) <==> l != 0 || r != 0)
  {
    match op
    case Eq => Some(if l == r then 1 else 0)
    case Ne => Some(if l != r then 1 else 0)
    case Le => Some(if l <= r then 1 else 0)
    case Ge => Some(if l >= r then 1 else 0)
    case Lt => Some(if l < r then 1 else 0)
    case Gt => Some(if l > r then 1 else 0)
    case And => Some(if l != 0 && r != 0 then 1 else 0)
    case Or => Some(if l != 0 || r != 0 then 1 else 0)
    case Add => Some(l + r)
    case Sub => Some(l - r)
    case Mul => Some(l * r)
    case Div => if r == 0 then None else Some(FloorDiv(l, r))
    case Mod => if r == 0 then None else Some(TruncMod(l, r))
    case Pow =>
      if r >= 0 then Some(Power(l, r))
      else if l == 1 then Some(1)
      else if l == -1 then Some(if r % 2 == 0 then 1 else -1)
      else None
  }

  /** env.unop; `~v` is `-v - 1`, its value on the 32-bit range. */
  function UnOpValue(op: UnOp, v: int): (r: int)
    ensures op == Not ==> (r == 0 || r == 1) && (r == 1 <==> v == 0)
    ensures op == Neg ==> r + v == 0
    ensures op == BitNot ==> r + v == -1 && (r < 0 <==> v >= 0)
  {
    match op
    case Neg => -v
    case Not => if v == 0 then 1 else 0
    case BitNot => -v - 1
  }

  /** Applying `-` or `~` twice gives the operand back; `!` is excluded. */
  lemma UnOpInvolutive(op: UnOp, v: int)
    requires op != Not
    ensures UnOpValue(op, UnOpValue(op, v)) == v
  {
  }

  /** The node kinds that may stand where an expression is expected. */
  predicate IsExpr(n: Node) {
    n.Num? || n.Var? || n.Bin? || n.Un? || n.Call?
  }

  /** Names of the variables read by an expression, through operators and call arguments. */
  function FreeVars(e: Node): set<string>
  {
    match e
    case Var(x, _) => {x}
    case Bin(_, l, r) => FreeVars(l) + FreeVars(r)
    case Un(_, x) => FreeVars(x)
    case Call(_, args, _) => FreeVarsAll(args)
    case _ => {}
  }

  function FreeVarsAll(es: seq<Node>): set<string>
  {
    if |es| == 0 then {} else FreeVarsAll(es[..|es| - 1]) + FreeVars(es[|es| - 1])
  }

  /**
   * Reference meaning of an expression tree, used to state what constant
   * folding preserves. Variables are read from `scope`, where an unset name
   * reads as 0 as it does in the interpreter; a call, or any node that is not
   * an expression, has no value at this level.
   */
  function Eval(e: Node, scope: map<string, int>): Option<int>
  {
    match e
    case Num(v) => Some(v)
    case Var(x, _) => Some(if x in scope then scope[x] else 0)
    case Bin(p, l, r) =>
      var a :- Eval(l, scope);
      var b :- Eval(r, scope);
      BinOpValue(p, a, b)
    case Un(p, x) =>
      var a :- Eval(x, scope);
      Some(UnOpValue(p, a))
    case _ => None
  }
}
