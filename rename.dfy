/**
 * Register renaming after colouring (script/optimizer.js,
 * env.renameVariables): every variable with a colour `c` is renamed
 * `'a' + c`. The source renames one coloured name at a time, in the order
 * the colouring object lists its keys, so a name produced early can be
 * renamed again by a later key of the form `aN`; `RenameInOrder` models
 * that, and `RenameAll` the simultaneous renaming the colouring is meant
 * to induce.
 */
module Rename {
  import opened Wrappers
  import opened Ast
  import opened Ir
  import opened Decimal
  import opened Seqs
  import Interference

  /** The register a colour stands for. */
  function Tag(c: nat): string {
    "a" + NatToString(c)
  }

  /** renameExp: every variable named `from` renamed `to`, through operators and call arguments. */
  function RenameExpr(e: Node, from: string, to: string): Node {
    match e
    case Var(x, l) => if x == from then Var(to, l) else e
    case Bin(p, a, b) => Bin(p, RenameExpr(a, from, to), RenameExpr(b, from, to))
    case Un(u, a) => Un(u, RenameExpr(a, from, to))
    case Call(g, args, l) => Call(g, RenameArgs(args, from, to), l)
    case _ => e
  }

  function RenameArgs(args: seq<Node>, from: string, to: string): (r: seq<Node>)
    ensures |r| == |args|
  {
    if |args| == 0 then []
    else RenameArgs(args[..|args| - 1], from, to) + [RenameExpr(args[|args| - 1], from, to)]
  }

  /** One key of the colouring applied to one instruction: its expression, and its target if it is a store. */
  function RenameInstr(ins: Instr, from: string, to: string): Instr {
    ins.(expr := if ins.expr.Some? then Some(RenameExpr(ins.expr.value, from, to)) else None,
         dest := if ins.op == Str && ins.dest == from then to else ins.dest)
  }

  /** The keys `order` of the colouring applied one after another, as the inner loop of the source does. */
  function RenameInOrder(ins: Instr, colours: map<string, nat>, order: seq<string>): Instr
    requires forall j :: j in order ==> j in colours
  {
    if |order| == 0 then ins
    else
      var j := order[|order| - 1];
      RenameInstr(RenameInOrder(ins, colours, order[..|order| - 1]), j, Tag(colours[j]))
  }

  /**
   * The fold changes only expressions and store targets: the opcode, the
   * successors and the analysis facts stay, an instruction without an
   * expression keeps none, and only a store can change its target.
   */
  lemma {:induction false} InOrderFrames(ins: Instr, colours: map<string, nat>, order: seq<string>)
    requires forall j :: j in order ==> j in colours
    ensures var r := RenameInOrder(ins, colours, order);
            && r == ins.(expr := r.expr, dest := r.dest)
            && (r.expr.Some? <==> ins.expr.Some?)
            && (ins.op != Str ==> r.dest == ins.dest)
    decreases |order|
  {
    if |order| > 0 {
      InOrderFrames(ins, colours, order[..|order| - 1]);
    }
  }

  /**
   * env.renameVariables. `order` lists the keys of the colouring in the
   * order a `for ... in` loop visits them.
   */
  method RenameVariables(code: seq<Instr>, colours: map<string, nat>, order: seq<string>) returns (p: seq<Instr>)
    requires forall j :: j in order ==> j in colours
    ensures |p| == |code|
    ensures forall i :: 0 <= i < |code| ==> p[i] == RenameInOrder(code[i], colours, order)
  {
    p := code;
    for i := 0 to |code|
      invariant |p| == |code|
      invariant forall q :: 0 <= q < i ==> p[q] == RenameInOrder(code[q], colours, order)
      invariant forall q :: i <= q < |code| ==> p[q] == code[q]
    {
      var ins := p[i];
      for j := 0 to |order|
        invariant ins == RenameInOrder(code[i], colours, order[..j])
      {
        assert order[..j + 1][..j] == order[..j];
        ins := RenameInstr(ins, order[j], Tag(colours[order[j]]));
      }
      assert order[..|order|] == order;
      p := p[i := ins];
    }
  }

  // ---------------------------------------------------------------------
  // Simultaneous renaming

  /** The name a variable gets: its register if it is coloured, itself otherwise. */
  function NewName(colours: map<string, nat>, x: string): string {
    if x in colours then Tag(colours[x]) else x
  }

  /** Every coloured variable renamed to its register at once. */
  function RenameAll(e: Node, colours: map<string, nat>): Node {
    match e
    case Var(x, l) => Var(NewName(colours, x), l)
    case Bin(p, a, b) => Bin(p, RenameAll(a, colours), RenameAll(b, colours))
    case Un(u, a) => Un(u, RenameAll(a, colours))
    case Call(g, args, l) => Call(g, RenameAllArgs(args, colours), l)
    case _ => e
  }

  function RenameAllArgs(args: seq<Node>, colours: map<string, nat>): (r: seq<Node>)
    ensures |r| == |args|
  {
    if |args| == 0 then []
    else RenameAllArgs(args[..|args| - 1], colours) + [RenameAll(args[|args| - 1], colours)]
  }

  function RenameInstrAll(ins: Instr, colours: map<string, nat>): Instr {
    ins.(expr := if ins.expr.Some? then Some(RenameAll(ins.expr.value, colours)) else None,
         dest := if ins.op == Str then NewName(colours, ins.dest) else ins.dest)
  }

  /** The renaming the colouring is meant to induce, applied to every instruction. */
  function Renamed(code: seq<Instr>, colours: map<string, nat>): (r: seq<Instr>)
    ensures |r| == |code|
    ensures forall i :: 0 <= i < |code| ==>
              r[i] == code[i].(expr := r[i].expr, dest := r[i].dest) &&
              (code[i].op == Str ==> r[i].dest == NewName(colours, code[i].dest))
  {
    seq(|code|, i requires 0 <= i < |code| => RenameInstrAll(code[i], colours))
  }

  function Lookup(scope: map<string, int>, x: string): int {
    if x in scope then scope[x] else 0
  }

  /**
   * Renaming simultaneously preserves an expression's value, in any state
   * that holds under each new name the value the old state held under the
   * old one.
   */
  lemma {:induction false} RenameAllEval(e: Node, colours: map<string, nat>, scope: map<string, int>, scope': map<string, int>)
    requires forall x :: x in FreeVars(e) ==> Lookup(scope', NewName(colours, x)) == Lookup(scope, x)
    ensures Eval(RenameAll(e, colours), scope') == Eval(e, scope)
  {
    match e
    case Var(x, l) =>
    case Bin(p, a, b) =>
      RenameAllEval(a, colours, scope, scope');
      RenameAllEval(b, colours, scope, scope');
    case Un(u, a) =>
      RenameAllEval(a, colours, scope, scope');
    case _ =>
  }

  /** Different colours are different registers, so interfering variables never share a name. */
  lemma InterferingStayApart(graph: Interference.Graph, colour: Interference.Colouring, x: string, y: string)
    requires Interference.Proper(graph, colour)
    requires x in colour && y in colour && Interference.Adjacent(graph, x, y)
    ensures NewName(colour, x) != NewName(colour, y)
  {
    if Tag(colour[x]) == Tag(colour[y]) {
      TaggedInjective("a", colour[x], colour[y]);
    }
  }

  // ---------------------------------------------------------------------
  // When the one-at-a-time renaming is the simultaneous one

  /** The coloured names among `keys` renamed to their registers; the others unchanged. */
  function NewNameOver(colours: map<string, nat>, keys: set<string>, x: string): string
    requires keys <= colours.Keys
  {
    if x in keys then Tag(colours[x]) else x
  }

  function RenameOver(e: Node, colours: map<string, nat>, keys: set<string>): Node
    requires keys <= colours.Keys
  {
    match e
    case Var(x, l) => Var(NewNameOver(colours, keys, x), l)
    case Bin(p, a, b) => Bin(p, RenameOver(a, colours, keys), RenameOver(b, colours, keys))
    case Un(u, a) => Un(u, RenameOver(a, colours, keys))
    case Call(g, args, l) => Call(g, RenameOverArgs(args, colours, keys), l)
    case _ => e
  }

  function RenameOverArgs(args: seq<Node>, colours: map<string, nat>, keys: set<string>): (r: seq<Node>)
    requires keys <= colours.Keys
    ensures |r| == |args|
  {
    if |args| == 0 then []
    else RenameOverArgs(args[..|args| - 1], colours, keys) + [RenameOver(args[|args| - 1], colours, keys)]
  }

  /** No key of the colouring is itself the name of a register. */
  ghost predicate NoRegisterKeys(colours: map<string, nat>) {
    forall x, c: nat :: x in colours ==> x != Tag(c)
  }

  /** Renaming one more key that is no register name extends the simultaneous renaming by that key. */
  lemma {:induction false} RenameStep(e: Node, colours: map<string, nat>, keys: set<string>, j: string)
    requires keys <= colours.Keys && j in colours && j !in keys && NoRegisterKeys(colours)
    ensures RenameExpr(RenameOver(e, colours, keys), j, Tag(colours[j])) == RenameOver(e, colours, keys + {j})
    decreases e, 1
  {
    match e
    case Var(x, l) =>
      if x in keys {
        assert Tag(colours[x]) != j;
      }
    case Bin(p, a, b) =>
      RenameStep(a, colours, keys, j);
      RenameStep(b, colours, keys, j);
    case Un(u, a) =>
      RenameStep(a, colours, keys, j);
    case Call(g, args, l) =>
      RenameStepArgs(args, colours, keys, j);
    case _ =>
  }

  lemma {:induction false} RenameStepArgs(args: seq<Node>, colours: map<string, nat>, keys: set<string>, j: string)
    requires keys <= colours.Keys && j in colours && j !in keys && NoRegisterKeys(colours)
    ensures RenameArgs(RenameOverArgs(args, colours, keys), j, Tag(colours[j])) == RenameOverArgs(args, colours, keys + {j})
    decreases args, 0
  {
    if |args| > 0 {
      var init := args[..|args| - 1];
      RenameStepArgs(init, colours, keys, j);
      RenameStep(args[|args| - 1], colours, keys, j);
      assert RenameOverArgs(args, colours, keys)[..|args| - 1] == RenameOverArgs(init, colours, keys);
    }
  }

  lemma {:induction false} RenameOverAll(e: Node, colours: map<string, nat>)
    ensures RenameOver(e, colours, colours.Keys) == RenameAll(e, colours)
    decreases e, 1
  {
    match e
    case Bin(p, a, b) =>
      RenameOverAll(a, colours);
      RenameOverAll(b, colours);
    case Un(u, a) =>
      RenameOverAll(a, colours);
    case Call(g, args, l) =>
      RenameOverAllArgs(args, colours);
    case _ =>
  }

  lemma {:induction false} RenameOverAllArgs(args: seq<Node>, colours: map<string, nat>)
    ensures RenameOverArgs(args, colours, colours.Keys) == RenameAllArgs(args, colours)
    decreases args, 0
  {
    if |args| > 0 {
      RenameOverAllArgs(args[..|args| - 1], colours);
      RenameOverAll(args[|args| - 1], colours);
    }
  }

  lemma {:induction false} RenameOverNone(e: Node, colours: map<string, nat>)
    ensures RenameOver(e, colours, {}) == e
    decreases e, 1
  {
    match e
    case Bin(p, a, b) =>
      RenameOverNone(a, colours);
      RenameOverNone(b, colours);
    case Un(u, a) =>
      RenameOverNone(a, colours);
    case Call(g, args, l) =>
      RenameOverNoneArgs(args, colours);
    case _ =>
  }

  lemma {:induction false} RenameOverNoneArgs(args: seq<Node>, colours: map<string, nat>)
    ensures RenameOverArgs(args, colours, {}) == args
    decreases args, 0
  {
    if |args| > 0 {
      RenameOverNoneArgs(args[..|args| - 1], colours);
      RenameOverNone(args[|args| - 1], colours);
      assert args == args[..|args| - 1] + [args[|args| - 1]];
    }
  }

  /** The keys of `order` renamed one after another give the simultaneous renaming by those keys. */
  lemma {:induction false} InOrderIsOver(ins: Instr, colours: map<string, nat>, order: seq<string>)
    requires NoDups(order) && Elems(order) <= colours.Keys && NoRegisterKeys(colours)
    ensures RenameInOrder(ins, colours, order) ==
              ins.(expr := if ins.expr.Some? then Some(RenameOver(ins.expr.value, colours, Elems(order))) else None,
                   dest := if ins.op == Str then NewNameOver(colours, Elems(order), ins.dest) else ins.dest)
  {
    if |order| == 0 {
      assert Elems(order) == {};
      if ins.expr.Some? {
        RenameOverNone(ins.expr.value, colours);
      }
    } else {
      var init := order[..|order| - 1];
      var j := order[|order| - 1];
      assert NoDups(init);
      assert Elems(order) == Elems(init) + {j} by {
        assert order == init + [j];
      }
      assert j !in Elems(init);
      InOrderIsOver(ins, colours, init);
      if ins.expr.Some? {
        RenameStep(ins.expr.value, colours, Elems(init), j);
      }
      if ins.op == Str && ins.dest in Elems(init) {
        assert Tag(colours[ins.dest]) != j;
      }
    }
  }

  /**
   * When no coloured name has the form of a register, the source's
   * one-key-at-a-time renaming over all the keys is the simultaneous one.
   */
  lemma InOrderAgrees(ins: Instr, colours: map<string, nat>, order: seq<string>)
    requires NoDups(order) && Elems(order) == colours.Keys && NoRegisterKeys(colours)
    ensures RenameInOrder(ins, colours, order) == RenameInstrAll(ins, colours)
  {
    InOrderIsOver(ins, colours, order);
    if ins.expr.Some? {
      RenameOverAll(ins.expr.value, colours);
    }
  }

  /** Two coloured names, the second spelled like the first one's register. */
  function ClashColours(): map<string, nat> {
    map["x" := 0, "a0" := 1]
  }

  /** The store `y := x + a0`. */
  function ClashStore(l: Loc, rd: Facts<nat>, lv: Facts<string>): Instr {
    Instr(Str, "y", Some(Bin(Add, Var("x", l), Var("a0", l))), [], None, rd, lv)
  }

  lemma SmallTags()
    ensures Tag(0) == "a0" && Tag(1) == "a1"
  {
    assert NatToString(0) == "0" && NatToString(1) == "1";
  }

  /**
   * A coloured name that is itself a register's name breaks the source's
   * renaming: `x` (colour 0) and `a0` (colour 1), visited in that order,
   * both end up as `a1`.
   */
  lemma InOrderMergesRegisters(l: Loc, rd: Facts<nat>, lv: Facts<string>)
    ensures RenameInOrder(ClashStore(l, rd, lv), ClashColours(), ["x", "a0"]).expr ==
              Some(Bin(Add, Var("a1", l), Var("a1", l)))
  {
    SmallTags();
    var ins := ClashStore(l, rd, lv);
    assert ["x", "a0"][..1] == ["x"];
    assert ["x"][..0] == [];
    assert RenameInOrder(ins, ClashColours(), []) == ins;
    assert RenameInOrder(ins, ClashColours(), ["x"]) == RenameInstr(ins, "x", "a0");
    var once := RenameInstr(ins, "x", "a0");
    assert RenameExpr(Var("x", l), "x", "a0") == Var("a0", l);
    assert RenameExpr(Var("a0", l), "x", "a0") == Var("a0", l);
    assert once.expr == Some(Bin(Add, Var("a0", l), Var("a0", l)));
    assert RenameInOrder(ins, ClashColours(), ["x", "a0"]) == RenameInstr(once, "a0", "a1");
    assert RenameExpr(Var("a0", l), "a0", "a1") == Var("a1", l);
  }

  /** The simultaneous renaming keeps the two apart: `a0 + a1`. */
  lemma RenameAllKeepsApart(l: Loc, rd: Facts<nat>, lv: Facts<string>)
    ensures RenameInstrAll(ClashStore(l, rd, lv), ClashColours()).expr ==
              Some(Bin(Add, Var("a0", l), Var("a1", l)))
  {
    SmallTags();
    assert NewName(ClashColours(), "x") == "a0";
    assert NewName(ClashColours(), "a0") == "a1";
    assert RenameAll(Var("x", l), ClashColours()) == Var("a0", l);
    assert RenameAll(Var("a0", l), ClashColours()) == Var("a1", l);
  }

  /**
   * With x = 1 and a0 = 2, `x + a0` is 3; in the renamed state (a0 = 1,
   * a1 = 2) the source's `a1 + a1` is 4 and the simultaneous `a0 + a1` is 3.
   */
  lemma ClashValues(l: Loc)
    ensures Eval(Bin(Add, Var("x", l), Var("a0", l)), map["x" := 1, "a0" := 2]) == Some(3)
    ensures Eval(Bin(Add, Var("a1", l), Var("a1", l)), map["a0" := 1, "a1" := 2]) == Some(4)
    ensures Eval(Bin(Add, Var("a0", l), Var("a1", l)), map["a0" := 1, "a1" := 2]) == Some(3)
  {
  }
}
