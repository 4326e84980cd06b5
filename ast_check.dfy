/**
 * The semantic checker of app/script/ast.js: every variable is defined
 * before it is read, every called function exists with the right number of
 * arguments, and no function repeats a parameter name. The first problem
 * found is reported as a SemanticError; the check stops there.
 */
module AstCheck {
  import opened Wrappers
  import opened Seqs
  import opened Ast

  datatype ErrorKind =
    | InvalidProgram
    | InvalidFunction
    | DuplicateName(param: string, func: string)
    | UndefinedFunction(callee: string)
    | TooFewArguments(callee: string)
    | TooManyArguments
    | UndefinedVariable(variable: string)

  /**
   * A reported error. `at` is the position of the offending node; it is None
   * for "Invalid program", which the source reports at line 0 with no column,
   * and for a misplaced node kind that carries no position.
   */
  datatype SemanticError = SemanticError(at: Option<Loc>, kind: ErrorKind)

  /** The message text the user sees for each kind of error. */
  function Message(k: ErrorKind): string {
    match k
    case InvalidProgram => "Invalid program"
    case InvalidFunction => "Invalid function"
    case DuplicateName(p, f) => "Duplicate name \"" + p + "\" in \"" + f + "\""
    case UndefinedFunction(g) => "Undefined function: '" + g + "'"
    case TooFewArguments(g) => "Too few arguments to '" + g + "'"
    case TooManyArguments => "Too many arguments"
    case UndefinedVariable(x) => "Undefined variable '" + x + "'"
  }

  /**
   * The position a node reports, for the kinds that carry one. The tree keeps
   * positions only on functions, calls and variables, so a program entry of
   * any other kind reports 'Invalid function' without the position its own
   * node would give.
   */
  function LocOf(n: Node): Option<Loc> {
    match n
    case Func(_, _, _, l) => Some(l)
    case Call(_, _, l) => Some(l)
    case Var(_, l) => Some(l)
    case _ => None
  }

  /**
   * The names a node adds to the scope that follows it: parameters and the
   * body's definitions for a function, the assigned name for an assignment.
   * Loops and conditionals contribute only what their condition defines;
   * names assigned inside their bodies stay local to the body.
   */
  function Defines(n: Node): set<string> {
    match n
    case Func(_, ps, body, _) => Elems(ps) + DefinesAll(body)
    case Return(e) => Defines(e)
    case While(c, _) => Defines(c)
    case Assign(x, e) => Defines(e) + {x}
    case If(c, _, _) => Defines(c)
    case Call(_, args, _) => DefinesAll(args)
    case Bin(_, l, r) => Defines(l) + Defines(r)
    case Un(_, e) => Defines(e)
    case _ => {}
  }

  function DefinesAll(ns: seq<Node>): set<string> {
    if |ns| == 0 then {} else DefinesAll(ns[..|ns| - 1]) + Defines(ns[|ns| - 1])
  }

  /** The scope after an assignment to `x`: `x` is appended unless it is already defined. */
  function Define(vars: seq<string>, x: string): (r: seq<string>)
    ensures vars <= r && Elems(r) == Elems(vars) + {x}
  {
    assert Elems(vars + [x]) == Elems(vars) + {x};
    if x in vars then vars else vars + [x]
  }

  /**
   * The inner checkAST: checks one node against the arity table `funcs` and
   * the names defined so far, and returns the names defined after it. The
   * returned list extends the given one by exactly the names the node defines.
   */
  function Check(n: Node, funcs: map<string, nat>, vars: seq<string>): (r: Result<seq<string>, SemanticError>)
    ensures r.Success? ==> vars <= r.value && Elems(r.value) == Elems(vars) + Defines(n)
  {
    match n
    case Prog(_) => Success(vars)
    case Func(_, ps, body, _) => CheckAll(body, funcs, vars + ps)
    case Return(e) => Check(e, funcs, vars)
    case While(c, body) =>
      var v :- Check(c, funcs, vars);
      var _ :- CheckAll(body, funcs, v);
      Success(v)
    case Assign(x, e) =>
      var v :- Check(e, funcs, vars);
      Success(Define(v, x))
    case If(c, t, f) =>
      var v :- Check(c, funcs, vars);
      var _ :- CheckAll(t, funcs, v);
      var _ :- CheckAll(f, funcs, v);
      Success(v)
    case Call(g, args, loc) =>
      if g !in funcs then Failure(SemanticError(Some(loc), UndefinedFunction(g)))
      else if |args| < funcs[g] then Failure(SemanticError(Some(loc), TooFewArguments(g)))
      else if |args| > funcs[g] then Failure(SemanticError(Some(loc), TooManyArguments))
      else CheckAll(args, funcs, vars)
    case Bin(_, l, r) =>
      var v :- Check(l, funcs, vars);
      Check(r, funcs, v)
    case Un(_, e) => Check(e, funcs, vars)
    case Var(x, loc) =>
      if x in vars then Success(vars) else Failure(SemanticError(Some(loc), UndefinedVariable(x)))
    case Num(_) => Success(vars)
  }

  /** Checks a list of nodes in order, each against the scope the previous ones leave. */
  function CheckAll(ns: seq<Node>, funcs: map<string, nat>, vars: seq<string>): (r: Result<seq<string>, SemanticError>)
    ensures r.Success? ==> vars <= r.value && Elems(r.value) == Elems(vars) + DefinesAll(ns)
  {
    if |ns| == 0 then Success(vars)
    else
      var v :- CheckAll(ns[..|ns| - 1], funcs, vars);
      Check(ns[|ns| - 1], funcs, v)
  }

  /** A tree built only from expression nodes. */
  predicate IsExprTree(e: Node) {
    match e
    case Num(_) => true
    case Var(_, _) => true
    case Bin(_, l, r) => IsExprTree(l) && IsExprTree(r)
    case Un(_, x) => IsExprTree(x)
    case Call(_, args, _) => forall i :: 0 <= i < |args| ==> IsExprTree(args[i])
    case _ => false
  }

  /** Every call in an expression names a known function with its exact arity. */
  predicate CallsOk(e: Node, funcs: map<string, nat>) {
    match e
    case Bin(_, l, r) => CallsOk(l, funcs) && CallsOk(r, funcs)
    case Un(_, x) => CallsOk(x, funcs)
    case Call(g, args, _) =>
      g in funcs && |args| == funcs[g] && forall i :: 0 <= i < |args| ==> CallsOk(args[i], funcs)
    case _ => true
  }

  /**
   * An expression passes the check exactly when every variable it reads is
   * already defined and every call in it is well formed; it defines nothing.
   */
  lemma {:induction false} ExprScope(e: Node, funcs: map<string, nat>, vars: seq<string>)
    requires IsExprTree(e)
    ensures Check(e, funcs, vars).Success? <==> FreeVars(e) <= Elems(vars) && CallsOk(e, funcs)
    ensures Check(e, funcs, vars).Success? ==> Check(e, funcs, vars).value == vars
  {
    match e
    case Num(_) =>
    case Var(_, _) =>
    case Bin(_, l, r) =>
      ExprScope(l, funcs, vars);
      ExprScope(r, funcs, vars);
    case Un(_, x) =>
      ExprScope(x, funcs, vars);
    case Call(g, args, _) =>
      ExprScopeAll(args, funcs, vars);
  }

  lemma {:induction false} ExprScopeAll(es: seq<Node>, funcs: map<string, nat>, vars: seq<string>)
    requires forall i :: 0 <= i < |es| ==> IsExprTree(es[i])
    ensures CheckAll(es, funcs, vars).Success? <==>
      FreeVarsAll(es) <= Elems(vars) && forall i :: 0 <= i < |es| ==> CallsOk(es[i], funcs)
    ensures CheckAll(es, funcs, vars).Success? ==> CheckAll(es, funcs, vars).value == vars
  {
    if |es| > 0 {
      var init := es[..|es| - 1];
      var last := es[|es| - 1];
      assert forall i :: 0 <= i < |init| ==> init[i] == es[i];
      ExprScopeAll(init, funcs, vars);
      ExprScope(last, funcs, vars);
      assert (forall i :: 0 <= i < |es| ==> CallsOk(es[i], funcs)) <==>
        (forall i :: 0 <= i < |init| ==> CallsOk(init[i], funcs)) && CallsOk(last, funcs);
    }
  }

  /** `x = e` checks `e` before defining `x`, so `x = x + 1` with `x` undefined is an error. */
  lemma AssignReadsBeforeDefining(x: string, e: Node, funcs: map<string, nat>, vars: seq<string>)
    requires IsExprTree(e) && x in FreeVars(e) && x !in vars
    ensures Check(Assign(x, e), funcs, vars).Failure?
  {
    ExprScope(e, funcs, vars);
  }

  /**
   * A loop with an expression condition is accepted exactly when its
   * condition and its body are accepted in the enclosing scope, and leaves
   * that scope unchanged.
   */
  lemma WhileIsScoped(c: Node, body: seq<Node>, funcs: map<string, nat>, vars: seq<string>)
    requires IsExprTree(c)
    ensures Check(While(c, body), funcs, vars).Success? <==>
      Check(c, funcs, vars).Success? && CheckAll(body, funcs, vars).Success?
    ensures Check(While(c, body), funcs, vars).Success? ==> Check(While(c, body), funcs, vars).value == vars
  {
    ExprScope(c, funcs, vars);
  }

  /**
   * Both branches of a conditional are checked against the enclosing scope:
   * what the true branch defines is not visible in the false branch, and
   * neither branch's definitions survive the conditional.
   */
  lemma IfBranchesAreIndependent(c: Node, t: seq<Node>, f: seq<Node>, funcs: map<string, nat>, vars: seq<string>)
    requires IsExprTree(c)
    ensures Check(If(c, t, f), funcs, vars).Success? <==>
      Check(c, funcs, vars).Success? && CheckAll(t, funcs, vars).Success? && CheckAll(f, funcs, vars).Success?
    ensures Check(If(c, t, f), funcs, vars).Success? ==> Check(If(c, t, f), funcs, vars).value == vars
  {
    ExprScope(c, funcs, vars);
  }

  /** A name assigned in both branches of a conditional is still undefined after it. */
  lemma DefinedInBothBranchesIsUndefinedAfter(l: Loc)
    ensures CheckAll([If(Num(1), [Assign("x", Num(1))], [Assign("x", Num(2))]), Return(Var("x", l))], map[], [])
      == Failure(SemanticError(Some(l), UndefinedVariable("x")))
  {
    var cond := If(Num(1), [Assign("x", Num(1))], [Assign("x", Num(2))]);
    assert Check(Num(1), map[], []) == Success([]) && Check(Num(2), map[], []) == Success([]);
    assert Define([], "x") == ["x"];
    assert Check(Assign("x", Num(1)), map[], []) == Success(["x"]);
    assert Check(Assign("x", Num(2)), map[], []) == Success(["x"]);
    assert [Assign("x", Num(1))][..0] == [] && [Assign("x", Num(2))][..0] == [];
    assert CheckAll([Assign("x", Num(1))], map[], []) == Success(["x"]);
    assert CheckAll([Assign("x", Num(2))], map[], []) == Success(["x"]);
    assert Check(cond, map[], []) == Success([]);
    assert [cond][..0] == [];
    assert CheckAll([cond], map[], []) == Success([]);
    assert [cond, Return(Var("x", l))][..1] == [cond];
    assert Check(Return(Var("x", l)), map[], []) == Failure(SemanticError(Some(l), UndefinedVariable("x")));
  }

  /**
   * A call is judged on its name and argument count before its arguments
   * are looked at: these errors win over any error inside the arguments.
   */
  lemma CallCheckedBeforeArguments(g: string, args: seq<Node>, loc: Loc, funcs: map<string, nat>, vars: seq<string>)
    ensures g !in funcs ==>
      Check(Call(g, args, loc), funcs, vars) == Failure(SemanticError(Some(loc), UndefinedFunction(g)))
    ensures g in funcs && |args| < funcs[g] ==>
      Check(Call(g, args, loc), funcs, vars) == Failure(SemanticError(Some(loc), TooFewArguments(g)))
    ensures g in funcs && |args| > funcs[g] ==>
      Check(Call(g, args, loc), funcs, vars) == Failure(SemanticError(Some(loc), TooManyArguments))
    ensures g in funcs && |args| == funcs[g] ==>
      Check(Call(g, args, loc), funcs, vars) == CheckAll(args, funcs, vars)
  {
  }

  // ----- The program-level check (env.checkAST) -----

  /** What the first pass of env.checkAST reports about one entry of the function list. */
  function HeaderError(f: Node): Option<SemanticError> {
    if !f.Func? then Some(SemanticError(LocOf(f), InvalidFunction))
    else
      match FirstRepeat(f.params, 0)
      case Some(j) => Some(SemanticError(Some(f.loc), DuplicateName(f.params[j], f.name)))
      case None => None
  }

  /** The least index `j >= from` whose element already occurs earlier in `s`. */
  function FirstRepeat(s: seq<string>, from: nat): (r: Option<nat>)
    requires from <= |s|
    ensures r.Some? ==> from <= r.value < |s| && s[r.value] in s[..r.value]
    ensures r.Some? ==> forall j :: from <= j < r.value ==> s[j] !in s[..j]
    ensures r.None? ==> forall j :: from <= j < |s| ==> s[j] !in s[..j]
    decreases |s| - from
  {
    if from == |s| then None
    else if s[from] in s[..from] then Some(from)
    else FirstRepeat(s, from + 1)
  }

  /** A list has no repeated element exactly when FirstRepeat finds none. */
  lemma FirstRepeatNoDups(s: seq<string>)
    ensures FirstRepeat(s, 0).None? <==> NoDups(s)
  {
    if FirstRepeat(s, 0).None? {
      forall i, j | 0 <= i < j < |s| ensures s[i] != s[j] {
        assert s[i] == s[..j][i];
      }
    } else {
      var j := FirstRepeat(s, 0).value;
      var i := IndexOf(s[..j], s[j]);
      assert s[..j][i] == s[i];
    }
  }

  /** The arity table: for each function name, the parameter count of its last definition. */
  function Arities(fs: seq<Node>): map<string, nat> {
    if |fs| == 0 then map[]
    else
      var m := Arities(fs[..|fs| - 1]);
      var f := fs[|fs| - 1];
      if f.Func? then m[f.name := |f.params|] else m
  }

  /** A name has an arity exactly when some function of that name is defined; the last definition wins. */
  lemma {:induction false} AritiesLastWins(fs: seq<Node>, g: string)
    ensures g in Arities(fs) <==> exists k :: 0 <= k < |fs| && fs[k].Func? && fs[k].name == g
    ensures forall k :: (0 <= k < |fs| && fs[k].Func? && fs[k].name == g &&
      (forall m :: k < m < |fs| ==> !(fs[m].Func? && fs[m].name == g))) ==> Arities(fs)[g] == |fs[k].params|
  {
    if |fs| > 0 {
      var init := fs[..|fs| - 1];
      AritiesLastWins(init, g);
      assert forall k :: 0 <= k < |init| ==> init[k] == fs[k];
      if g in Arities(fs) && !(fs[|fs| - 1].Func? && fs[|fs| - 1].name == g) {
        var k :| 0 <= k < |init| && init[k].Func? && init[k].name == g;
        assert fs[k].Func? && fs[k].name == g;
      }
    }
  }

  predicate HeadersOk(fs: seq<Node>) {
    forall k :: 0 <= k < |fs| ==> HeaderError(fs[k]).None?
  }

  /** `e` is what the first pass reports: the error of the first entry that has one. */
  predicate IsFirstHeaderError(fs: seq<Node>, e: SemanticError) {
    exists k :: 0 <= k < |fs| && HeaderError(fs[k]) == Some(e) && forall m :: 0 <= m < k ==> HeaderError(fs[m]).None?
  }

  predicate BodiesOk(fs: seq<Node>) {
    forall k :: 0 <= k < |fs| ==> Check(fs[k], Arities(fs), []).Success?
  }

  /** `e` is what the second pass reports: the error of the first function whose check fails. */
  predicate IsFirstBodyError(fs: seq<Node>, e: SemanticError) {
    exists k :: 0 <= k < |fs| && Check(fs[k], Arities(fs), []) == Failure(e) &&
      forall m :: 0 <= m < k ==> Check(fs[m], Arities(fs), []).Success?
  }

  /**
   * env.checkAST. Every entry's kind and parameter list is checked before
   * any body is: a header error is reported in preference to any body
   * error. Bodies are checked against the complete arity table, each with
   * an empty scope of its own.
   */
  method CheckProgram(ast: Node) returns (r: Outcome<SemanticError>)
    ensures !ast.Prog? ==> r == Fail(SemanticError(None, InvalidProgram))
    ensures ast.Prog? && !HeadersOk(ast.funcs) ==> r.Fail? && IsFirstHeaderError(ast.funcs, r.error)
    ensures ast.Prog? && HeadersOk(ast.funcs) ==>
      (r.Pass? <==> BodiesOk(ast.funcs)) && (r.Fail? ==> IsFirstBodyError(ast.funcs, r.error))
  {
    if !ast.Prog? {
      return Fail(SemanticError(None, InvalidProgram));
    }
    var err, arities := CheckHeaders(ast.funcs);
    if err.Some? {
      return Fail(err.value);
    }
    err := CheckBodies(ast.funcs, arities);
    if err.Some? {
      return Fail(err.value);
    }
    return Pass;
  }

  /** The first pass: each entry's kind and parameter list, building the arity table. */
  method CheckHeaders(fs: seq<Node>) returns (err: Option<SemanticError>, arities: map<string, nat>)
    ensures err.None? <==> HeadersOk(fs)
    ensures err.Some? ==> IsFirstHeaderError(fs, err.value)
    ensures err.None? ==> arities == Arities(fs)
  {
    arities := map[];
    var i := 0;
    while i < |fs|
      invariant 0 <= i <= |fs|
      invariant arities == Arities(fs[..i])
      invariant forall m :: 0 <= m < i ==> HeaderError(fs[m]).None?
    {
      var f := fs[i];
      assert fs[..i + 1][..i] == fs[..i];
      if !f.Func? {
        return Some(SemanticError(LocOf(f), InvalidFunction)), arities;
      }
      arities := arities[f.name := |f.params|];
      var rep := FindRepeat(f.params);
      if rep.Some? {
        return Some(SemanticError(Some(f.loc), DuplicateName(f.params[rep.value], f.name))), arities;
      }
      i := i + 1;
    }
    assert fs[..i] == fs;
    return None, arities;
  }

  /** The parameter loop of the first pass: the first parameter whose name occurs earlier. */
  method FindRepeat(params: seq<string>) returns (r: Option<nat>)
    ensures r == FirstRepeat(params, 0)
  {
    var j := 0;
    while j < |params|
      invariant 0 <= j <= |params|
      invariant forall jj :: 0 <= jj < j ==> params[jj] !in params[..jj]
    {
      var idx := IndexOf(params, params[j]);
      if idx != j && idx != -1 {
        assert params[..j][idx] == params[idx];
        FirstRepeatIs(params, j);
        return Some(j);
      }
      assert params[j] !in params[..j];
      j := j + 1;
    }
    return None;
  }

  /** The second pass: each body against the arity table, until one fails. */
  method CheckBodies(fs: seq<Node>, arities: map<string, nat>) returns (err: Option<SemanticError>)
    requires arities == Arities(fs)
    ensures err.None? <==> BodiesOk(fs)
    ensures err.Some? ==> IsFirstBodyError(fs, err.value)
  {
    var i := 0;
    while i < |fs|
      invariant 0 <= i <= |fs|
      invariant forall m :: 0 <= m < i ==> Check(fs[m], arities, []).Success?
    {
      var res := Check(fs[i], arities, []);
      if res.Failure? {
        return Some(res.error);
      }
      i := i + 1;
    }
    return None;
  }

  /** FirstRepeat picks the least repeating index. */
  lemma FirstRepeatIs(s: seq<string>, j: nat)
    requires j < |s| && s[j] in s[..j]
    requires forall jj :: 0 <= jj < j ==> s[jj] !in s[..jj]
    ensures FirstRepeat(s, 0) == Some(j)
  {
  }

  // ----- The arity lookup as the source writes it -----

  /**
   * What `funcs[name]` evaluates to when `funcs` is a plain JavaScript
   * object: a defined function's arity, `undefined`, or, for a name that
   * Object.prototype provides, that inherited member. `__proto__` is always
   * the inherited member: storing a number through its setter, as
   * `arities[f.name] = f.args.length` does, leaves the object unchanged.
   */
  datatype JsLookup = Undefined | Arity(n: nat) | Inherited

  /** Names every plain object inherits from Object.prototype. */
  const ObjectPrototypeNames: set<string> := {
    "constructor", "hasOwnProperty", "isPrototypeOf", "propertyIsEnumerable",
    "toLocaleString", "toString", "valueOf", "__proto__",
    "__defineGetter__", "__defineSetter__", "__lookupGetter__", "__lookupSetter__"}

  function LookupAsWritten(funcs: map<string, nat>, g: string): (v: JsLookup)
    ensures v.Arity? <==> g in funcs && g != "__proto__"
    ensures v.Arity? ==> v.n == funcs[g]
    ensures v.Undefined? <==> g !in funcs && g !in ObjectPrototypeNames
  {
    if g == "__proto__" then Inherited
    else if g in funcs then Arity(funcs[g])
    else if g in ObjectPrototypeNames then Inherited
    else Undefined
  }

  /**
   * The call-site checks as written: an inherited member is not
   * `undefined`, and comparing a count with it compares with NaN, which is
   * false both ways, so such a call is let through.
   */
  function CallHeadAsWritten(g: string, nargs: nat, loc: Loc, funcs: map<string, nat>): (r: Outcome<SemanticError>)
    ensures g in funcs && g != "__proto__" ==> (r.Pass? <==> nargs == funcs[g])
    ensures g in ObjectPrototypeNames && (g !in funcs || g == "__proto__") ==> r == Pass
    ensures LookupAsWritten(funcs, g).Undefined? ==> r == Fail(SemanticError(Some(loc), UndefinedFunction(g)))
  {
    match LookupAsWritten(funcs, g)
    case Undefined => Fail(SemanticError(Some(loc), UndefinedFunction(g)))
    case Arity(n) =>
      if nargs < n then Fail(SemanticError(Some(loc), TooFewArguments(g)))
      else if nargs > n then Fail(SemanticError(Some(loc), TooManyArguments))
      else Pass
    case Inherited => Pass
  }

  /**
   * `func f() { return toString(); }` passes the call-site checks as
   * written although no function `toString` exists; Check, which looks up
   * only defined functions, reports it.
   */
  lemma InheritedNameSlipsThrough(loc: Loc)
    ensures CallHeadAsWritten("toString", 0, loc, map["f" := 0]) == Pass
    ensures Check(Call("toString", [], loc), map["f" := 0], []) == Failure(SemanticError(Some(loc), UndefinedFunction("toString")))
  {
  }

  /**
   * `func __proto__(a) { return a; } func main() { return __proto__(); }`
   * passes the call-site checks as written, whatever the argument count,
   * since the declaration never reaches the arity object; Check, which
   * keeps the declared arity, reports too few arguments.
   */
  lemma DeclaredProtoSlipsThrough(loc: Loc, nargs: nat)
    ensures CallHeadAsWritten("__proto__", nargs, loc, map["__proto__" := 1, "main" := 0]) == Pass
    ensures Check(Call("__proto__", [], loc), map["__proto__" := 1, "main" := 0], []) == Failure(SemanticError(Some(loc), TooFewArguments("__proto__")))
  {
  }
}
