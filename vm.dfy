/**
 * The interpreter (app/script/interpreter.js): a call looks the function up
 * in the program's instruction lists, binds its parameters and runs its
 * code from instruction 0; `ret` returns a value, `str` writes a variable,
 * `jmp`, `cjmp` and `njmp` move `ip`, and expressions,
 * calls included, are evaluated as the tree interpreter evaluates them.
 *
 * The source loops until a `ret`; here every call and every loop iteration
 * consumes one unit of `fuel`, and a run that exhausts it ends in
 * `OutOfFuel`. CallFuel and RunFuel show that any other outcome does not
 * depend on the bound.
 */
module Vm {
  import opened Wrappers
  import opened Seqs
  import opened Ast
  import opened Ir
  import AstCheck

  datatype VmError =
    | UndefinedFunction(name: string)
    | InvalidArguments(name: string)
    /** The source fails with a type error: no instruction at `ip`, or no expression to evaluate. */
    | Fault
    /** A value that is not an integer (division by zero, a negative exponent on a base other than 1 and -1, a node that is not an expression). */
    | NotInteger
    | OutOfFuel

  type Program = map<string, seq<Instr>>

  /** The scope a call starts with: each parameter bound to its argument, in order. */
  function Bind(params: seq<string>, args: seq<int>): map<string, int>
    requires |params| == |args|
  {
    if |params| == 0 then map[]
    else Bind(params[..|params| - 1], args[..|args| - 1])[params[|params| - 1] := args[|args| - 1]]
  }

  /** The parameter list the source accepts for a call with `n` arguments, if any. */
  function CallableParams(code: seq<Instr>, n: nat): Option<seq<string>> {
    if |code| > 0 && code[0].args.Some? && |code[0].args.value| == n then Some(code[0].args.value) else None
  }

  /**
   * VM.call. A name the program does not define is undefined, unless a
   * plain object inherits it from Object.prototype: then the lookup finds a
   * function object without instructions, which the source reports as
   * invalid arguments, as it does a missing first instruction, a missing
   * parameter list and a count mismatch.
   */
  function CallFn(prog: Program, name: string, args: seq<int>, fuel: nat): Result<int, VmError>
    decreases fuel, 0
  {
    if name !in prog then
      if name in AstCheck.ObjectPrototypeNames then Failure(InvalidArguments(name)) else Failure(UndefinedFunction(name))
    else
      match CallableParams(prog[name], |args|)
      case None => Failure(InvalidArguments(name))
      case Some(params) =>
        if fuel == 0 then Failure(OutOfFuel) else Run(prog, prog[name], 0, Bind(params, args), fuel - 1)
  }

  /** VM.execute from instruction `ip`: one iteration of its loop, then the rest. */
  function Run(prog: Program, code: seq<Instr>, ip: int, scope: map<string, int>, fuel: nat): Result<int, VmError>
    decreases fuel, 1
  {
    if fuel == 0 then Failure(OutOfFuel)
    else if !(0 <= ip < |code|) then Failure(Fault)
    else
      var imm := code[ip];
      match imm.op
      case Lbl => Run(prog, code, ip + 1, scope, fuel - 1)
      case Ret => EvalOpt(prog, imm.expr, scope, fuel - 1)
      case Str =>
        var v :- EvalOpt(prog, imm.expr, scope, fuel - 1);
        Run(prog, code, ip + 1, scope[imm.dest := v], fuel - 1)
      case Jmp =>
        if |imm.next| == 0 then Failure(Fault) else Run(prog, code, imm.next[0], scope, fuel - 1)
      case CJmp =>
        var v :- EvalOpt(prog, imm.expr, scope, fuel - 1);
        if v == 0 then Run(prog, code, ip + 1, scope, fuel - 1)
        else if |imm.next| < 2 then Failure(Fault)
        else Run(prog, code, imm.next[1], scope, fuel - 1)
      case NJmp =>
        var v :- EvalOpt(prog, imm.expr, scope, fuel - 1);
        if v != 0 then Run(prog, code, ip + 1, scope, fuel - 1)
        else if |imm.next| < 2 then Failure(Fault)
        else Run(prog, code, imm.next[1], scope, fuel - 1)
  }

  /** An instruction's expression, which the source evaluates whether or not it is present. */
  function EvalOpt(prog: Program, e: Option<Node>, scope: map<string, int>, fuel: nat): Result<int, VmError>
    decreases fuel, 3
  {
    match e
    case None => Failure(Fault)
    case Some(x) => EvalExpr(prog, x, scope, fuel)
  }

  /** An operator's result; one that is not an integer stops the run. */
  function ValueOf(v: Option<int>): Result<int, VmError> {
    if v.Some? then Success(v.value) else Failure(NotInteger)
  }

  /** evalExpr: calls evaluate their arguments left to right and call the function; an unset variable reads as 0. */
  function EvalExpr(prog: Program, e: Node, scope: map<string, int>, fuel: nat): Result<int, VmError>
    decreases fuel, 2, e
  {
    match e
    case Call(name, actuals, _) =>
      var vs :- EvalArgs(prog, actuals, scope, fuel);
      CallFn(prog, name, vs, fuel)
    case Bin(p, lhs, rhs) =>
      var a :- EvalExpr(prog, lhs, scope, fuel);
      var b :- EvalExpr(prog, rhs, scope, fuel);
      ValueOf(BinOpValue(p, a, b))
    case Un(u, x) =>
      var a :- EvalExpr(prog, x, scope, fuel);
      Success(UnOpValue(u, a))
    case Var(x, _) => Success(if x in scope then scope[x] else 0)
    case Num(v) => Success(v)
    case _ => Failure(NotInteger)
  }

  function EvalArgs(prog: Program, es: seq<Node>, scope: map<string, int>, fuel: nat): (r: Result<seq<int>, VmError>)
    ensures r.Success? ==> |r.value| == |es|
    decreases fuel, 2, es
  {
    if |es| == 0 then Success([])
    else
      var init :- EvalArgs(prog, es[..|es| - 1], scope, fuel);
      var last :- EvalExpr(prog, es[|es| - 1], scope, fuel);
      Success(init + [last])
  }

  // ----- Parameter binding -----

  /** The scope binds exactly the parameters; with distinct parameters each holds its own argument. */
  lemma {:induction false} BindMeans(params: seq<string>, args: seq<int>)
    requires |params| == |args|
    ensures forall x :: x in Bind(params, args) <==> x in params
    ensures NoDups(params) ==> forall i :: 0 <= i < |params| ==> Bind(params, args)[params[i]] == args[i]
    decreases |params|
  {
    if |params| > 0 {
      var ps := params[..|params| - 1];
      var vs := args[..|args| - 1];
      BindMeans(ps, vs);
      assert forall x :: x in params <==> x in ps || x == params[|params| - 1];
      if NoDups(params) {
        forall i | 0 <= i < |params| - 1
          ensures Bind(params, args)[params[i]] == args[i]
        {
          assert params[i] == ps[i] && args[i] == vs[i];
        }
      }
    }
  }

  // ----- Agreement with the tree semantics -----

  /** An expression without calls. */
  predicate CallFree(e: Node) {
    match e
    case Call(_, _, _) => false
    case Bin(_, l, r) => CallFree(l) && CallFree(r)
    case Un(_, x) => CallFree(x)
    case _ => true
  }

  /**
   * Without calls the interpreter computes the reference meaning of an
   * expression, and fails exactly when that meaning is not an integer; the
   * fuel plays no part.
   */
  lemma {:induction false} EvalMatchesReference(prog: Program, e: Node, scope: map<string, int>, fuel: nat)
    requires CallFree(e)
    ensures EvalExpr(prog, e, scope, fuel) == (if Eval(e, scope).Some? then Success(Eval(e, scope).value) else Failure(NotInteger))
  {
    match e
    case Bin(p, l, r) =>
      EvalMatchesReference(prog, l, scope, fuel);
      EvalMatchesReference(prog, r, scope, fuel);
    case Un(u, x) =>
      EvalMatchesReference(prog, x, scope, fuel);
    case _ =>
  }

  /** Straight-line code from `ip` on: labels, and stores and returns of call-free expressions. */
  predicate JumpFree(code: seq<Instr>, ip: nat) {
    forall k :: ip <= k < |code| ==>
      code[k].op == Lbl || ((code[k].op == Str || code[k].op == Ret) && code[k].expr.Some? && CallFree(code[k].expr.value))
  }

  /**
   * The meaning of straight-line code on the tree semantics: labels are
   * skipped, a store updates the scope, and the first return gives the
   * result; falling off the end gives none.
   */
  function Reference(code: seq<Instr>, ip: nat, scope: map<string, int>): Option<int>
    requires JumpFree(code, ip)
    decreases |code| - ip
  {
    if ip >= |code| then None
    else
      var imm := code[ip];
      if imm.op == Lbl then Reference(code, ip + 1, scope)
      else if imm.op == Ret then Eval(imm.expr.value, scope)
      else
        match Eval(imm.expr.value, scope)
        case None => None
        case Some(v) => Reference(code, ip + 1, scope[imm.dest := v])
  }

  /**
   * With one unit of fuel per remaining instruction, the interpreter
   * returns exactly the reference result of straight-line code, and a run
   * that fails does so for a reason other than the fuel bound.
   */
  lemma {:induction false} JumpFreeRuns(prog: Program, code: seq<Instr>, ip: nat, scope: map<string, int>, fuel: nat)
    requires JumpFree(code, ip) && ip <= |code| && fuel > |code| - ip
    ensures Run(prog, code, ip, scope, fuel).Success? <==> Reference(code, ip, scope).Some?
    ensures Reference(code, ip, scope).Some? ==> Run(prog, code, ip, scope, fuel).value == Reference(code, ip, scope).value
    ensures Run(prog, code, ip, scope, fuel) != Failure(OutOfFuel)
    decreases |code| - ip
  {
    if ip < |code| {
      var imm := code[ip];
      if imm.op == Lbl {
        JumpFreeRuns(prog, code, ip + 1, scope, fuel - 1);
      } else if imm.op == Ret {
        EvalMatchesReference(prog, imm.expr.value, scope, fuel - 1);
      } else {
        EvalMatchesReference(prog, imm.expr.value, scope, fuel - 1);
        if Eval(imm.expr.value, scope).Some? {
          JumpFreeRuns(prog, code, ip + 1, scope[imm.dest := Eval(imm.expr.value, scope).value], fuel - 1);
        }
      }
    } else {
      assert Run(prog, code, ip, scope, fuel) == Failure(Fault);
    }
  }

  // ----- The fuel bound -----

  /** More fuel changes nothing about a call that did not run out of it. */
  lemma {:induction false} CallFuel(prog: Program, name: string, args: seq<int>, fuel: nat, more: nat)
    requires fuel <= more && CallFn(prog, name, args, fuel) != Failure(OutOfFuel)
    ensures CallFn(prog, name, args, more) == CallFn(prog, name, args, fuel)
    decreases fuel, 0
  {
    if name in prog {
      var params := CallableParams(prog[name], |args|);
      if params.Some? && fuel > 0 {
        RunFuel(prog, prog[name], 0, Bind(params.value, args), fuel - 1, more - 1);
      }
    }
  }

  /** More fuel changes nothing about a run that did not run out of it. */
  lemma {:induction false} RunFuel(prog: Program, code: seq<Instr>, ip: int, scope: map<string, int>, fuel: nat, more: nat)
    requires fuel <= more && Run(prog, code, ip, scope, fuel) != Failure(OutOfFuel)
    ensures Run(prog, code, ip, scope, more) == Run(prog, code, ip, scope, fuel)
    decreases fuel, 1
  {
    if fuel > 0 && 0 <= ip < |code| {
      var imm := code[ip];
      var v := EvalOpt(prog, imm.expr, scope, fuel - 1);
      match imm.op
      case Lbl =>
        RunFuel(prog, code, ip + 1, scope, fuel - 1, more - 1);
      case Ret =>
        OptFuel(prog, imm.expr, scope, fuel - 1, more - 1);
      case Str =>
        OptFuel(prog, imm.expr, scope, fuel - 1, more - 1);
        if v.Success? {
          RunFuel(prog, code, ip + 1, scope[imm.dest := v.value], fuel - 1, more - 1);
        }
      case Jmp =>
        if |imm.next| > 0 {
          RunFuel(prog, code, imm.next[0], scope, fuel - 1, more - 1);
        }
      case CJmp =>
        OptFuel(prog, imm.expr, scope, fuel - 1, more - 1);
        if v.Success? {
          if v.value == 0 {
            RunFuel(prog, code, ip + 1, scope, fuel - 1, more - 1);
          } else if |imm.next| >= 2 {
            RunFuel(prog, code, imm.next[1], scope, fuel - 1, more - 1);
          }
        }
      case NJmp =>
        OptFuel(prog, imm.expr, scope, fuel - 1, more - 1);
        if v.Success? {
          if v.value != 0 {
            RunFuel(prog, code, ip + 1, scope, fuel - 1, more - 1);
          } else if |imm.next| >= 2 {
            RunFuel(prog, code, imm.next[1], scope, fuel - 1, more - 1);
          }
        }
    }
  }

  lemma {:induction false} OptFuel(prog: Program, e: Option<Node>, scope: map<string, int>, fuel: nat, more: nat)
    requires fuel <= more && EvalOpt(prog, e, scope, fuel) != Failure(OutOfFuel)
    ensures EvalOpt(prog, e, scope, more) == EvalOpt(prog, e, scope, fuel)
    decreases fuel, 3
  {
    if e.Some? {
      EvalFuel(prog, e.value, scope, fuel, more);
    }
  }

  lemma {:induction false} EvalFuel(prog: Program, e: Node, scope: map<string, int>, fuel: nat, more: nat)
    requires fuel <= more && EvalExpr(prog, e, scope, fuel) != Failure(OutOfFuel)
    ensures EvalExpr(prog, e, scope, more) == EvalExpr(prog, e, scope, fuel)
    decreases fuel, 2, e
  {
    match e
    case Call(name, actuals, _) =>
      ArgsFuel(prog, actuals, scope, fuel, more);
      var vs := EvalArgs(prog, actuals, scope, fuel);
      if vs.Success? {
        CallFuel(prog, name, vs.value, fuel, more);
      }
    case Bin(p, lhs, rhs) =>
      EvalFuel(prog, lhs, scope, fuel, more);
      if EvalExpr(prog, lhs, scope, fuel).Success? {
        EvalFuel(prog, rhs, scope, fuel, more);
      }
    case Un(u, x) =>
      EvalFuel(prog, x, scope, fuel, more);
    case _ =>
  }

  lemma {:induction false} ArgsFuel(prog: Program, es: seq<Node>, scope: map<string, int>, fuel: nat, more: nat)
    requires fuel <= more && EvalArgs(prog, es, scope, fuel) != Failure(OutOfFuel)
    ensures EvalArgs(prog, es, scope, more) == EvalArgs(prog, es, scope, fuel)
    decreases fuel, 2, es
  {
    if |es| > 0 {
      ArgsFuel(prog, es[..|es| - 1], scope, fuel, more);
      if EvalArgs(prog, es[..|es| - 1], scope, fuel).Success? {
        EvalFuel(prog, es[|es| - 1], scope, fuel, more);
      }
    }
  }

  // ----- The interpreter's loops -----

  /** VM.call: the checks, the loop that binds the parameters, then the function's code. */
  method Call(prog: Program, name: string, args: seq<int>, fuel: nat) returns (r: Result<int, VmError>)
    ensures r == CallFn(prog, name, args, fuel)
  {
    if name !in prog {
      if name in AstCheck.ObjectPrototypeNames {
        return Failure(InvalidArguments(name));
      }
      return Failure(UndefinedFunction(name));
    }
    var code := prog[name];
    if |code| == 0 || code[0].args.None? || |code[0].args.value| != |args| {
      return Failure(InvalidArguments(name));
    }
    var params := code[0].args.value;
    var scope := map[];
    for i := 0 to |args|
      invariant scope == Bind(params[..i], args[..i])
    {
      assert params[..i + 1][..i] == params[..i];
      assert args[..i + 1][..i] == args[..i];
      scope := scope[params[i] := args[i]];
    }
    assert params[..|args|] == params && args[..|args|] == args;
    if fuel == 0 {
      return Failure(OutOfFuel);
    }
    r := Execute(prog, code, scope, fuel - 1);
  }

  /** VM.execute: fetch the instruction at `ip`, advance `ip`, then act on the instruction. */
  method Execute(prog: Program, code: seq<Instr>, scope0: map<string, int>, fuel: nat) returns (r: Result<int, VmError>)
    ensures r == Run(prog, code, 0, scope0, fuel)
  {
    var ip: int := 0;
    var scope := scope0;
    var f := fuel;
    while true
      invariant Run(prog, code, ip, scope, f) == Run(prog, code, 0, scope0, fuel)
      decreases f
    {
      if f == 0 {
        return Failure(OutOfFuel);
      }
      if !(0 <= ip < |code|) {
        return Failure(Fault);
      }
      var imm := code[ip];
      ip := ip + 1;
      f := f - 1;
      match imm.op
      case Lbl =>
      case Ret =>
        return EvalOpt(prog, imm.expr, scope, f);
      case Str =>
        var v := EvalOpt(prog, imm.expr, scope, f);
        if v.Failure? {
          return Failure(v.error);
        }
        scope := scope[imm.dest := v.value];
      case Jmp =>
        if |imm.next| == 0 {
          return Failure(Fault);
        }
        ip := imm.next[0];
      case CJmp =>
        var v := EvalOpt(prog, imm.expr, scope, f);
        if v.Failure? {
          return Failure(v.error);
        }
        if v.value != 0 {
          if |imm.next| < 2 {
            return Failure(Fault);
          }
          ip := imm.next[1];
        }
      case NJmp =>
        var v := EvalOpt(prog, imm.expr, scope, f);
        if v.Failure? {
          return Failure(v.error);
        }
        if v.value == 0 {
          if |imm.next| < 2 {
            return Failure(Fault);
          }
          ip := imm.next[1];
        }
    }
  }
}
