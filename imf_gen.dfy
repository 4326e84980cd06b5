/**
 * The intermediate-form viewer's code generator (script/imf.js): expression
 * trees become register code (`const`, `var`, `bin` into registers `@r`),
 * `return` and `if` become `ret`, `cjmp`, `jmp` and `lbl`, and each function
 * starts with a label `f_<name>`. Local labels `L<n>` are drawn from one
 * counter that is reset once per program, so no two functions share a label.
 */
module ImfGen {
  import opened Wrappers
  import opened Ast
  import opened Decimal
  import opened Seqs

  /** A label operand: a local label `L<n>` or a function's entry label `f_<name>`. */
  datatype Label = Local(n: nat) | FuncLabel(name: string)

  /**
   * One instruction of the intermediate form (the `ImmInstr` constructor);
   * registers are kept as their numbers and rendered as `@<n>`.
   */
  datatype RInstr =
    | RLbl(lab: Label)
    | RRet(reg: nat)
    | RConst(dest: nat, val: int)
    | RVar(dest: nat, name: string)
    | RBin(p: BinOp, dest: nat, src: nat)
    | RJmp(lab: Label)
    | RCJmp(reg: nat, lab: Label)

  // ----- Rendering (ImmInstr.prototype.toString) -----

  /** The operator's spelling in the source language. */
  function BinOpSymbol(p: BinOp): (s: string)
    ensures |s| >= 1 && ')' !in s
  {
    match p
    case Mul => "*"
    case Div => "/"
    case Mod => "%"
    case Pow => "^"
    case Add => "+"
    case Sub => "-"
    case Eq => "=="
    case Ne => "!="
    case Le => "<="
    case Ge => ">="
    case And => "&&"
    case Or => "||"
    case Gt => ">"
    case Lt => "<"
  }

  function RegName(r: nat): string {
    "@" + NatToString(r)
  }

  function LabelName(l: Label): string {
    match l
    case Local(n) => "L" + NatToString(n)
    case FuncLabel(name) => "f_" + name
  }

  /** The line the viewer shows for one instruction. */
  function Render(i: RInstr): string {
    match i
    case RLbl(l) => "lbl " + LabelName(l)
    case RRet(r) => "ret " + RegName(r)
    case RConst(d, v) => "const " + RegName(d) + ", $" + IntToString(v)
    case RVar(d, x) => "var " + RegName(d) + ", " + x
    case RBin(p, d, s) => "(" + BinOpSymbol(p) + ") " + RegName(d) + ", " + RegName(s)
    case RJmp(l) => "jmp " + LabelName(l)
    case RCJmp(r, l) => "cjmp " + RegName(r) + ", " + LabelName(l)
  }

  /** In `x + s`, a character that `x` lacks first occurs where `s` begins. */
  lemma FirstOccurrence(c: char, x: string, s: string)
    requires c !in x && |s| > 0 && s[0] == c
    ensures (x + s)[|x|] == c
    ensures forall k :: 0 <= k < |x| ==> (x + s)[k] != c
  {
    forall k | 0 <= k < |x|
      ensures (x + s)[k] != c
    {
      assert (x + s)[k] == x[k];
      assert x[k] in x;
    }
  }

  /** A separator that neither head contains splits two equal strings at the same place. */
  lemma SplitAt(c: char, x: string, s: string, y: string, t: string)
    requires c !in x && c !in y
    requires |s| > 0 && s[0] == c && |t| > 0 && t[0] == c
    requires x + s == y + t
    ensures x == y && s == t
  {
    FirstOccurrence(c, x, s);
    FirstOccurrence(c, y, t);
    assert |x| == |y|;
    assert x == (x + s)[..|x|];
    assert y == (y + t)[..|y|];
    assert s == (x + s)[|x|..];
    assert t == (y + t)[|y|..];
  }

  lemma NoCommaInNumber(n: nat)
    ensures ',' !in NatToString(n)
  {
    var s := NatToString(n);
    forall k | 0 <= k < |s|
      ensures s[k] != ','
    {
      assert IsDigit(s[k]);
    }
  }

  lemma DropPrefix(tag: string, s: string, t: string)
    requires tag + s == tag + t
    ensures s == t
  {
    assert s == (tag + s)[|tag|..];
    assert t == (tag + t)[|tag|..];
  }

  lemma LabelNameInjective(a: Label, b: Label)
    requires LabelName(a) == LabelName(b)
    ensures a == b
  {
    assert LabelName(a)[0] == (if a.Local? then 'L' else 'f');
    assert LabelName(b)[0] == (if b.Local? then 'L' else 'f');
    match a
    case Local(m) =>
      TaggedInjective("L", m, b.n);
    case FuncLabel(x) =>
      DropPrefix("f_", x, b.name);
  }

  lemma BinOpSymbolInjective(p: BinOp, q: BinOp)
    requires BinOpSymbol(p) == BinOpSymbol(q)
    ensures p == q
  {
  }

  /** `<number>, <rest>`: the number and the rest can be read back. */
  lemma NumberThenComma(m: nat, s: string, n: nat, t: string)
    requires NatToString(m) + (", " + s) == NatToString(n) + (", " + t)
    ensures m == n && s == t
  {
    NoCommaInNumber(m);
    NoCommaInNumber(n);
    SplitAt(',', NatToString(m), ", " + s, NatToString(n), ", " + t);
    NatToStringInjective(m, n);
    DropPrefix(", ", s, t);
  }

  lemma BinLineSplits(p: BinOp, s: string, q: BinOp, t: string)
    requires BinOpSymbol(p) + (") " + s) == BinOpSymbol(q) + (") " + t)
    ensures p == q && s == t
  {
    SplitAt(')', BinOpSymbol(p), ") " + s, BinOpSymbol(q), ") " + t);
    BinOpSymbolInjective(p, q);
    DropPrefix(") ", s, t);
  }

  /** The first character of each instruction's line, and the second one where that alone does not decide. */
  lemma RenderStarts(i: RInstr)
    ensures |Render(i)| >= 2
    ensures Render(i)[0] == (match i
      case RLbl(_) => 'l' case RRet(_) => 'r' case RConst(_, _) => 'c' case RVar(_, _) => 'v'
      case RBin(_, _, _) => '(' case RJmp(_) => 'j' case RCJmp(_, _) => 'c')
    ensures i.RConst? ==> Render(i)[1] == 'o'
    ensures i.RCJmp? ==> Render(i)[1] == 'j'
  {
  }

  lemma ConstLineShape(d: nat, v: int)
    ensures Render(RConst(d, v)) == "const @" + (NatToString(d) + (", " + ("$" + IntToString(v))))
  {
  }

  lemma ConstLineInjective(d: nat, v: int, d': nat, v': int)
    requires Render(RConst(d, v)) == Render(RConst(d', v'))
    ensures d == d' && v == v'
  {
    var s, s' := "$" + IntToString(v), "$" + IntToString(v');
    ConstLineShape(d, v);
    ConstLineShape(d', v');
    DropPrefix("const @", NatToString(d) + (", " + s), NatToString(d') + (", " + s'));
    NumberThenComma(d, s, d', s');
    DropPrefix("$", IntToString(v), IntToString(v'));
    IntToStringInjective(v, v');
  }

  lemma VarLineShape(d: nat, x: string)
    ensures Render(RVar(d, x)) == "var @" + (NatToString(d) + (", " + x))
  {
  }

  lemma VarLineInjective(d: nat, x: string, d': nat, x': string)
    requires Render(RVar(d, x)) == Render(RVar(d', x'))
    ensures d == d' && x == x'
  {
    VarLineShape(d, x);
    VarLineShape(d', x');
    DropPrefix("var @", NatToString(d) + (", " + x), NatToString(d') + (", " + x'));
    NumberThenComma(d, x, d', x');
  }

  lemma RegisterPairShape(d: nat, r: nat)
    ensures RegName(d) + ", " + RegName(r) == "@" + (NatToString(d) + (", " + ("@" + NatToString(r))))
  {
  }

  /** `@<d>, @<r>`: both registers can be read back. */
  lemma RegisterPairInjective(d: nat, r: nat, d': nat, r': nat)
    requires RegName(d) + ", " + RegName(r) == RegName(d') + ", " + RegName(r')
    ensures d == d' && r == r'
  {
    var s, s' := "@" + NatToString(r), "@" + NatToString(r');
    RegisterPairShape(d, r);
    RegisterPairShape(d', r');
    DropPrefix("@", NatToString(d) + (", " + s), NatToString(d') + (", " + s'));
    NumberThenComma(d, s, d', s');
    DropPrefix("@", NatToString(r), NatToString(r'));
    NatToStringInjective(r, r');
  }

  lemma BinLineShape(p: BinOp, d: nat, r: nat)
    ensures Render(RBin(p, d, r)) == "(" + (BinOpSymbol(p) + (") " + (RegName(d) + ", " + RegName(r))))
  {
  }

  lemma BinLineInjective(p: BinOp, d: nat, r: nat, p': BinOp, d': nat, r': nat)
    requires Render(RBin(p, d, r)) == Render(RBin(p', d', r'))
    ensures p == p' && d == d' && r == r'
  {
    var tail := RegName(d) + ", " + RegName(r);
    var tail' := RegName(d') + ", " + RegName(r');
    BinLineShape(p, d, r);
    BinLineShape(p', d', r');
    DropPrefix("(", BinOpSymbol(p) + (") " + tail), BinOpSymbol(p') + (") " + tail'));
    BinLineSplits(p, tail, p', tail');
    RegisterPairInjective(d, r, d', r');
  }

  lemma CJmpLineShape(r: nat, l: Label)
    ensures Render(RCJmp(r, l)) == "cjmp @" + (NatToString(r) + (", " + LabelName(l)))
  {
  }

  lemma CJmpLineInjective(r: nat, l: Label, r': nat, l': Label)
    requires Render(RCJmp(r, l)) == Render(RCJmp(r', l'))
    ensures r == r' && l == l'
  {
    CJmpLineShape(r, l);
    CJmpLineShape(r', l');
    DropPrefix("cjmp @", NatToString(r) + (", " + LabelName(l)), NatToString(r') + (", " + LabelName(l')));
    NumberThenComma(r, LabelName(l), r', LabelName(l'));
    LabelNameInjective(l, l');
  }

  /** The viewer's listing is unambiguous: different instructions are shown differently. */
  lemma RenderInjective(a: RInstr, b: RInstr)
    requires Render(a) == Render(b)
    ensures a == b
  {
    RenderStarts(a);
    RenderStarts(b);
    match a
    case RLbl(l) =>
      DropPrefix("lbl ", LabelName(l), LabelName(b.lab));
      LabelNameInjective(l, b.lab);
    case RRet(r) =>
      assert Render(a) == "ret @" + NatToString(r);
      assert Render(b) == "ret @" + NatToString(b.reg);
      DropPrefix("ret @", NatToString(r), NatToString(b.reg));
      NatToStringInjective(r, b.reg);
    case RConst(d, v) =>
      ConstLineInjective(d, v, b.dest, b.val);
    case RVar(d, x) =>
      VarLineInjective(d, x, b.dest, b.name);
    case RBin(p, d, r) =>
      BinLineInjective(p, d, r, b.p, b.dest, b.src);
    case RJmp(l) =>
      DropPrefix("jmp ", LabelName(l), LabelName(b.lab));
      LabelNameInjective(l, b.lab);
    case RCJmp(r, l) =>
      CJmpLineInjective(r, l, b.reg, b.lab);
  }

  // ----- Generation (generateExpr, generateStatement, generateFunc) -----

  /** Register code: it loads constants and variables and combines registers. */
  predicate Straight(code: seq<RInstr>) {
    forall i :: 0 <= i < |code| ==> code[i].RConst? || code[i].RVar? || code[i].RBin?
  }

  /** The registers an instruction writes or reads. */
  function Registers(i: RInstr): set<nat> {
    match i
    case RRet(r) => {r}
    case RConst(d, _) => {d}
    case RVar(d, _) => {d}
    case RBin(_, d, s) => {d, s}
    case RCJmp(r, _) => {r}
    case _ => {}
  }

  /**
   * The code for expression `e` evaluated into register `r`: a literal or a
   * variable is loaded into `@r`; an operator evaluates its left operand into
   * `@r`, its right one into `@(r+1)` and combines them into `@r`. Unary
   * operators, calls and other nodes emit nothing.
   */
  function ExprCode(e: Node, r: nat): (code: seq<RInstr>)
    ensures Straight(code)
    ensures forall i :: 0 <= i < |code| ==> forall k :: k in Registers(code[i]) ==> k >= r
  {
    match e
    case Num(v) => [RConst(r, v)]
    case Var(x, _) => [RVar(r, x)]
    case Bin(p, lhs, rhs) => ExprCode(lhs, r) + ExprCode(rhs, r + 1) + [RBin(p, r, r + 1)]
    case _ => []
  }

  /** The register `generateExpr` reports: `r` for the three kinds it handles, 0 otherwise. */
  function ExprReg(e: Node, r: nat): nat {
    if e.Num? || e.Var? || e.Bin? then r else 0
  }

  /** Emitted code together with the next free label number. */
  datatype Emitted = Emitted(code: seq<RInstr>, next: nat)

  /**
   * The code for one statement, with labels numbered from `l`. `return e`
   * evaluates `e` into `@0` and returns the register; `if` takes `L<l>` as
   * the end label and `L<l+1>` for the true branch, emits the false branch
   * first and the true branch after its label. Other statements emit nothing.
   */
  function StmtCode(s: Node, l: nat): Emitted
    decreases s
  {
    match s
    case Return(e) => Emitted(ExprCode(e, 0) + [RRet(ExprReg(e, 0))], l)
    case If(c, t, f) =>
      var fb := BlockCode(f, l + 2);
      var tb := BlockCode(t, fb.next);
      Emitted(IfLayout(ExprCode(c, 0), fb.code, tb.code, l), tb.next)
    case _ => Emitted([], l)
  }

  /** The shape of an `if`: condition, `cjmp` to the true branch, false branch, `jmp` to the end, true branch. */
  function IfLayout(cond: seq<RInstr>, falseCode: seq<RInstr>, trueCode: seq<RInstr>, l: nat): seq<RInstr> {
    cond + [RCJmp(0, Local(l + 1))] + falseCode + [RJmp(Local(l))]
      + [RLbl(Local(l + 1))] + trueCode + [RLbl(Local(l))]
  }

  /** The statements of a block one after another, the label counter threaded through. */
  function BlockCode(ss: seq<Node>, l: nat): Emitted
    decreases ss
  {
    if |ss| == 0 then Emitted([], l)
    else
      var init := BlockCode(ss[..|ss| - 1], l);
      var last := StmtCode(ss[|ss| - 1], init.next);
      Emitted(init.code + last.code, last.next)
  }

  /** A function: its entry label, then its body. */
  function FuncCode(f: Node, l: nat): Emitted
    requires f.Func?
  {
    var b := BlockCode(f.body, l);
    Emitted([RLbl(FuncLabel(f.name))] + b.code, b.next)
  }

  // ----- Labels -----

  /** The local label an instruction defines, if any. */
  function LocalDef(i: RInstr): seq<nat> {
    if i.RLbl? && i.lab.Local? then [i.lab.n] else []
  }

  /** The local labels a piece of code defines, in order. */
  function Defined(code: seq<RInstr>): seq<nat> {
    if |code| == 0 then [] else Defined(code[..|code| - 1]) + LocalDef(code[|code| - 1])
  }

  /** The local labels an instruction jumps to. */
  function JumpTargets(i: RInstr): set<nat> {
    match i
    case RJmp(Local(n)) => {n}
    case RCJmp(_, Local(n)) => {n}
    case _ => {}
  }

  predicate JumpsWithin(code: seq<RInstr>, d: set<nat>) {
    forall i :: 0 <= i < |code| ==> JumpTargets(code[i]) <= d
  }

  /**
   * Emitted code numbered from `l` defines each of the labels `l` up to
   * `e.next - 1` exactly once, and jumps only to labels it defines.
   */
  predicate LabelsFrom(e: Emitted, l: nat) {
    var d := Defined(e.code);
    && l <= e.next
    && |d| == e.next - l
    && NoDups(d)
    && (forall k :: 0 <= k < |d| ==> l <= d[k] < e.next)
    && JumpsWithin(e.code, Elems(d))
  }

  lemma {:induction false} DefinedAppend(a: seq<RInstr>, b: seq<RInstr>)
    ensures Defined(a + b) == Defined(a) + Defined(b)
    decreases |b|
  {
    if |b| == 0 {
      assert a + b == a;
    } else {
      var b0 := b[..|b| - 1];
      assert (a + b)[..|a + b| - 1] == a + b0;
      DefinedAppend(a, b0);
    }
  }

  lemma {:induction false} StraightDefinesNothing(code: seq<RInstr>)
    requires Straight(code)
    ensures Defined(code) == []
    ensures JumpsWithin(code, {})
    decreases |code|
  {
    if |code| > 0 {
      StraightDefinesNothing(code[..|code| - 1]);
    }
  }

  lemma JumpsWithinAppend(a: seq<RInstr>, b: seq<RInstr>, d: set<nat>, da: set<nat>, db: set<nat>)
    requires JumpsWithin(a, da) && JumpsWithin(b, db) && da <= d && db <= d
    ensures JumpsWithin(a + b, d)
  {
    forall i | 0 <= i < |a + b|
      ensures JumpTargets((a + b)[i]) <= d
    {
      if i < |a| {
        assert (a + b)[i] == a[i];
      } else {
        assert (a + b)[i] == b[i - |a|];
      }
    }
  }

  lemma DisjointNoDups(a: seq<nat>, b: seq<nat>)
    requires NoDups(a) && NoDups(b)
    requires forall i, j :: 0 <= i < |a| && 0 <= j < |b| ==> a[i] != b[j]
    ensures NoDups(a + b)
  {
    forall i, j | 0 <= i < j < |a + b|
      ensures (a + b)[i] != (a + b)[j]
    {
      if j < |a| {
      } else if i < |a| {
        assert (a + b)[j] == b[j - |a|];
      } else {
        assert (a + b)[i] == b[i - |a|];
        assert (a + b)[j] == b[j - |a|];
      }
    }
  }

  /** Two pieces numbered from consecutive ranges, one after the other. */
  lemma LabelsConcat(a: Emitted, b: Emitted, l: nat)
    requires LabelsFrom(a, l) && LabelsFrom(b, a.next)
    ensures LabelsFrom(Emitted(a.code + b.code, b.next), l)
  {
    var da := Defined(a.code);
    var db := Defined(b.code);
    DefinedAppend(a.code, b.code);
    DisjointNoDups(da, db);
    JumpsWithinAppend(a.code, b.code, Elems(da + db), Elems(da), Elems(db));
    assert forall k :: 0 <= k < |da + db| ==> (da + db)[k] in da || (da + db)[k] in db;
  }

  /** A piece with no label definitions and no jumps. */
  lemma PlainPiece(code: seq<RInstr>, l: nat)
    requires Defined(code) == [] && JumpsWithin(code, {})
    ensures LabelsFrom(Emitted(code, l), l)
  {
  }

  /** A single label definition `L<l>`. */
  lemma LabelPiece(l: nat)
    ensures LabelsFrom(Emitted([RLbl(Local(l))], l + 1), l)
  {
    assert Defined([RLbl(Local(l))]) == [l];
  }

  lemma DefinedSnoc(a: seq<RInstr>, i: RInstr)
    ensures Defined(a + [i]) == Defined(a) + LocalDef(i)
  {
    assert (a + [i])[..|a|] == a;
  }

  /** The labels an `if` defines: the false branch's, `L<l+1>`, the true branch's and `L<l>`. */
  lemma IfDefined(cond: seq<RInstr>, fc: seq<RInstr>, tc: seq<RInstr>, l: nat)
    requires Straight(cond)
    ensures Defined(IfLayout(cond, fc, tc, l)) == Defined(fc) + [l + 1] + Defined(tc) + [l]
  {
    StraightDefinesNothing(cond);
    var a := cond + [RCJmp(0, Local(l + 1))];
    DefinedSnoc(cond, RCJmp(0, Local(l + 1)));
    assert Defined(a) == [];
    DefinedAppend(a, fc);
    assert Defined(a + fc) == Defined(fc);
    var b := a + fc + [RJmp(Local(l))];
    DefinedSnoc(a + fc, RJmp(Local(l)));
    assert Defined(b) == Defined(fc);
    var c := b + [RLbl(Local(l + 1))];
    DefinedSnoc(b, RLbl(Local(l + 1)));
    assert Defined(c) == Defined(fc) + [l + 1];
    DefinedAppend(c, tc);
    assert Defined(c + tc) == Defined(fc) + [l + 1] + Defined(tc);
    DefinedSnoc(c + tc, RLbl(Local(l)));
    assert IfLayout(cond, fc, tc, l) == c + tc + [RLbl(Local(l))];
  }

  /** An `if` jumps to its two labels and wherever its branches jump. */
  lemma IfJumps(cond: seq<RInstr>, fc: seq<RInstr>, tc: seq<RInstr>, l: nat, all: set<nat>)
    requires Straight(cond) && JumpsWithin(fc, all) && JumpsWithin(tc, all)
    requires l in all && l + 1 in all
    ensures JumpsWithin(IfLayout(cond, fc, tc, l), all)
  {
    StraightDefinesNothing(cond);
    var a := cond + [RCJmp(0, Local(l + 1))];
    JumpsWithinAppend(cond, [RCJmp(0, Local(l + 1))], all, {}, {l + 1});
    JumpsWithinAppend(a, fc, all, all, all);
    var b := a + fc + [RJmp(Local(l))];
    JumpsWithinAppend(a + fc, [RJmp(Local(l))], all, all, {l});
    JumpsWithinAppend(b, [RLbl(Local(l + 1))], all, all, {});
    JumpsWithinAppend(b + [RLbl(Local(l + 1))], tc, all, all, all);
    JumpsWithinAppend(b + [RLbl(Local(l + 1))] + tc, [RLbl(Local(l))], all, all, {});
  }

  /** Widening the set of allowed targets keeps every jump allowed. */
  lemma JumpsWithinMono(code: seq<RInstr>, a: set<nat>, b: set<nat>)
    requires JumpsWithin(code, a) && a <= b
    ensures JumpsWithin(code, b)
  {
  }

  /** Every number in `d` lies in `[lo, hi)`. */
  predicate InRange(d: seq<nat>, lo: nat, hi: nat) {
    forall k :: 0 <= k < |d| ==> lo <= d[k] < hi
  }

  /** Distinct numbers followed by distinct numbers above them. */
  lemma AppendAbove(a: seq<nat>, b: seq<nat>, lo: nat, mid: nat, hi: nat)
    requires lo <= mid <= hi
    requires NoDups(a) && NoDups(b) && InRange(a, lo, mid) && InRange(b, mid, hi)
    ensures NoDups(a + b) && InRange(a + b, lo, hi)
  {
    assert forall i, j :: 0 <= i < |a| && 0 <= j < |b| ==> a[i] != b[j];
    DisjointNoDups(a, b);
    forall k | 0 <= k < |a + b|
      ensures lo <= (a + b)[k] < hi
    {
      if k < |a| {
        assert (a + b)[k] == a[k];
      } else {
        assert (a + b)[k] == b[k - |a|];
      }
    }
  }

  /** Distinct numbers followed by distinct numbers below them. */
  lemma AppendBelow(a: seq<nat>, b: seq<nat>, lo: nat, mid: nat, hi: nat)
    requires lo <= mid <= hi
    requires NoDups(a) && NoDups(b) && InRange(a, mid, hi) && InRange(b, lo, mid)
    ensures NoDups(a + b) && InRange(a + b, lo, hi)
  {
    assert forall i, j :: 0 <= i < |a| && 0 <= j < |b| ==> a[i] != b[j];
    DisjointNoDups(a, b);
    forall k | 0 <= k < |a + b|
      ensures lo <= (a + b)[k] < hi
    {
      if k < |a| {
        assert (a + b)[k] == a[k];
      } else {
        assert (a + b)[k] == b[k - |a|];
      }
    }
  }

  /**
   * The numbering of an `if`: its false branch's labels from `l + 2` to `m`,
   * then `l + 1`, then its true branch's from `m` to `n`, then `l`.
   */
  lemma IfNumbering(df: seq<nat>, dt: seq<nat>, l: nat, m: nat, n: nat)
    requires l + 2 <= m <= n
    requires |df| == m - (l + 2) && NoDups(df) && forall k :: 0 <= k < |df| ==> l + 2 <= df[k] < m
    requires |dt| == n - m && NoDups(dt) && forall k :: 0 <= k < |dt| ==> m <= dt[k] < n
    ensures var d := df + [l + 1] + dt + [l];
      && |d| == n - l
      && NoDups(d)
      && (forall k :: 0 <= k < |d| ==> l <= d[k] < n)
      && Elems(df) <= Elems(d) && Elems(dt) <= Elems(d) && l in Elems(d) && l + 1 in Elems(d)
  {
    assert InRange(df, l + 2, m) && InRange(dt, m, n);
    AppendBelow(df, [l + 1], l + 1, l + 2, m);
    AppendAbove(df + [l + 1], dt, l + 1, m, n);
    AppendBelow(df + [l + 1] + dt, [l], l, l + 1, n);
    var d := df + [l + 1] + dt + [l];
    assert InRange(d, l, n);
    assert Elems(df) <= Elems(d) by {
      assert forall x :: x in df ==> x in d;
    }
    assert Elems(dt) <= Elems(d) by {
      assert forall x :: x in dt ==> x in d;
    }
    assert d[|df|] == l + 1 && d[|d| - 1] == l;
  }

  /** The labels of an `if` whose false branch is numbered from `l + 2` and whose true branch follows it. */
  lemma IfLayoutLabels(cond: seq<RInstr>, fc: seq<RInstr>, tc: seq<RInstr>, l: nat, m: nat, n: nat)
    requires Straight(cond)
    requires LabelsFrom(Emitted(fc, m), l + 2) && LabelsFrom(Emitted(tc, n), m)
    ensures LabelsFrom(Emitted(IfLayout(cond, fc, tc, l), n), l)
  {
    var df := Defined(fc);
    var dt := Defined(tc);
    IfDefined(cond, fc, tc, l);
    IfNumbering(df, dt, l, m, n);
    var all := Elems(df + [l + 1] + dt + [l]);
    JumpsWithinMono(fc, Elems(df), all);
    JumpsWithinMono(tc, Elems(dt), all);
    IfJumps(cond, fc, tc, l, all);
  }

  lemma IfLabels(c: Node, t: seq<Node>, f: seq<Node>, l: nat)
    requires LabelsFrom(BlockCode(f, l + 2), l + 2)
    requires LabelsFrom(BlockCode(t, BlockCode(f, l + 2).next), BlockCode(f, l + 2).next)
    ensures LabelsFrom(StmtCode(If(c, t, f), l), l)
  {
    var fb := BlockCode(f, l + 2);
    var tb := BlockCode(t, fb.next);
    IfLayoutLabels(ExprCode(c, 0), fb.code, tb.code, l, fb.next, tb.next);
  }

  lemma ReturnLabels(e: Node, l: nat)
    ensures LabelsFrom(StmtCode(Return(e), l), l)
  {
    var code := ExprCode(e, 0) + [RRet(ExprReg(e, 0))];
    assert StmtCode(Return(e), l) == Emitted(code, l);
    StraightDefinesNothing(ExprCode(e, 0));
    DefinedAppend(ExprCode(e, 0), [RRet(ExprReg(e, 0))]);
    assert Defined([RRet(ExprReg(e, 0))]) == [];
    JumpsWithinAppend(ExprCode(e, 0), [RRet(ExprReg(e, 0))], {}, {}, {});
    PlainPiece(code, l);
  }

  /** Each statement uses the labels from `l` on, each once, and jumps only to its own labels. */
  lemma {:induction false} StmtLabels(s: Node, l: nat)
    ensures LabelsFrom(StmtCode(s, l), l)
    decreases s
  {
    match s
    case Return(e) =>
      ReturnLabels(e, l);
    case If(c, t, f) =>
      BlockLabels(f, l + 2);
      BlockLabels(t, BlockCode(f, l + 2).next);
      IfLabels(c, t, f, l);
    case _ =>
      assert Defined([]) == [];
  }

  lemma {:induction false} BlockLabels(ss: seq<Node>, l: nat)
    ensures LabelsFrom(BlockCode(ss, l), l)
    decreases ss
  {
    if |ss| == 0 {
      assert Defined([]) == [];
    } else {
      var init := BlockCode(ss[..|ss| - 1], l);
      BlockLabels(ss[..|ss| - 1], l);
      StmtLabels(ss[|ss| - 1], init.next);
      LabelsConcat(init, StmtCode(ss[|ss| - 1], init.next), l);
    }
  }

  lemma FuncLabels(f: Node, l: nat)
    requires f.Func?
    ensures LabelsFrom(FuncCode(f, l), l)
  {
    BlockLabels(f.body, l);
    var entry := [RLbl(FuncLabel(f.name))];
    assert Defined(entry) == [];
    LabelsConcat(Emitted(entry, l), BlockCode(f.body, l), l);
  }

  // ----- What the register code computes -----

  /** The expressions `generateExpr` translates completely: literals, variables and binary operators. */
  predicate IsArith(e: Node) {
    match e
    case Num(_) => true
    case Var(_, _) => true
    case Bin(_, l, r) => IsArith(l) && IsArith(r)
    case _ => false
  }

  /** A register's value; an unwritten register reads as 0. */
  function Reg(regs: map<nat, int>, k: nat): int {
    if k in regs then regs[k] else 0
  }

  /**
   * One instruction of register code: `const` and `var` load a register,
   * `(p) @d, @s` stores `@d p @s` into `@d`. An operator without an integer
   * value stops the code; labels, jumps and returns are not register code.
   */
  function ExecInstr(i: RInstr, regs: map<nat, int>, scope: map<string, int>): Option<map<nat, int>> {
    match i
    case RConst(d, v) => Some(regs[d := v])
    case RVar(d, x) => Some(regs[d := if x in scope then scope[x] else 0])
    case RBin(p, d, s) =>
      var v :- BinOpValue(p, Reg(regs, d), Reg(regs, s));
      Some(regs[d := v])
    case _ => None
  }

  function Exec(code: seq<RInstr>, regs: map<nat, int>, scope: map<string, int>): Option<map<nat, int>>
    decreases |code|
  {
    if |code| == 0 then Some(regs)
    else
      var next :- ExecInstr(code[0], regs, scope);
      Exec(code[1..], next, scope)
  }

  lemma {:induction false} ExecAppend(a: seq<RInstr>, b: seq<RInstr>, regs: map<nat, int>, scope: map<string, int>)
    ensures Exec(a + b, regs, scope) == (match Exec(a, regs, scope) case None => None case Some(m) => Exec(b, m, scope))
    decreases |a|
  {
    if |a| == 0 {
      assert a + b == b;
    } else {
      assert (a + b)[0] == a[0];
      assert (a + b)[1..] == a[1..] + b;
      var next := ExecInstr(a[0], regs, scope);
      if next.Some? {
        ExecAppend(a[1..], b, next.value, scope);
      }
    }
  }

  /** Code `code` leaves `v`'s value in register `r`, keeps the registers below `r`, and stops exactly when `v` is None. */
  predicate Computes(code: seq<RInstr>, v: Option<int>, r: nat, regs: map<nat, int>, scope: map<string, int>) {
    var out := Exec(code, regs, scope);
    && (out.Some? <==> v.Some?)
    && (out.Some? ==> Reg(out.value, r) == v.value && forall k: nat :: k < r ==> Reg(out.value, k) == Reg(regs, k))
  }

  lemma ExecBin(p: BinOp, r: nat, regs: map<nat, int>, scope: map<string, int>)
    ensures Exec([RBin(p, r, r + 1)], regs, scope)
      == (if BinOpValue(p, Reg(regs, r), Reg(regs, r + 1)).Some?
          then Some(regs[r := BinOpValue(p, Reg(regs, r), Reg(regs, r + 1)).value]) else None)
  {
    assert [RBin(p, r, r + 1)][1..] == [];
  }

  /** The step for an operator: both operands computed in turn, then combined. */
  lemma BinComputes(p: BinOp, lhs: Node, rhs: Node, r: nat, regs: map<nat, int>, scope: map<string, int>)
    requires Computes(ExprCode(lhs, r), Eval(lhs, scope), r, regs, scope)
    requires Exec(ExprCode(lhs, r), regs, scope).Some? ==>
      Computes(ExprCode(rhs, r + 1), Eval(rhs, scope), r + 1, Exec(ExprCode(lhs, r), regs, scope).value, scope)
    ensures Computes(ExprCode(Bin(p, lhs, rhs), r), Eval(Bin(p, lhs, rhs), scope), r, regs, scope)
  {
    var c1 := ExprCode(lhs, r);
    var c2 := ExprCode(rhs, r + 1);
    var op := [RBin(p, r, r + 1)];
    assert ExprCode(Bin(p, lhs, rhs), r) == c1 + c2 + op;
    ExecAppend(c1 + c2, op, regs, scope);
    ExecAppend(c1, c2, regs, scope);
    var m1 := Exec(c1, regs, scope);
    if m1.Some? {
      var m2 := Exec(c2, m1.value, scope);
      if m2.Some? {
        ExecBin(p, r, m2.value, scope);
      }
    }
  }

  /**
   * The code for an expression made of literals, variables and binary
   * operators leaves the expression's value in register `r` and keeps every
   * register below `r`; it stops exactly when an operator has no integer value.
   */
  lemma {:induction false} ExprCodeComputes(e: Node, r: nat, regs: map<nat, int>, scope: map<string, int>)
    requires IsArith(e)
    ensures Computes(ExprCode(e, r), Eval(e, scope), r, regs, scope)
  {
    match e
    case Num(_) =>
    case Var(_, _) =>
    case Bin(p, lhs, rhs) =>
      ExprCodeComputes(lhs, r, regs, scope);
      var m1 := Exec(ExprCode(lhs, r), regs, scope);
      if m1.Some? {
        ExprCodeComputes(rhs, r + 1, m1.value, scope);
      }
      BinComputes(p, lhs, rhs, r, regs, scope);
  }

  // ----- A whole program (updateIMF) -----

  /** Every function's code, with one label counter running through the program. */
  datatype Listing = Listing(codes: seq<seq<RInstr>>, next: nat)

  /** Every entry of the function list is a function, as updateIMF expects. */
  predicate AllFuncs(funcs: seq<Node>) {
    forall k :: 0 <= k < |funcs| ==> funcs[k].Func?
  }

  function ProgramCode(funcs: seq<Node>, l: nat): (p: Listing)
    requires AllFuncs(funcs)
    ensures |p.codes| == |funcs|
    decreases |funcs|
  {
    if |funcs| == 0 then Listing([], l)
    else
      var p := ProgramCode(funcs[..|funcs| - 1], l);
      var g := FuncCode(funcs[|funcs| - 1], p.next);
      Listing(p.codes + [g.code], g.next)
  }

  /** One more function: its code is appended and the counter continues from where the others left it. */
  lemma ProgramCodeSnoc(funcs: seq<Node>, i: nat, l: nat)
    requires AllFuncs(funcs) && i < |funcs|
    ensures ProgramCode(funcs[..i + 1], l).codes
      == ProgramCode(funcs[..i], l).codes + [FuncCode(funcs[i], ProgramCode(funcs[..i], l).next).code]
    ensures ProgramCode(funcs[..i + 1], l).next == FuncCode(funcs[i], ProgramCode(funcs[..i], l).next).next
  {
    assert funcs[..i + 1][..i] == funcs[..i];
  }

  /**
   * The label discipline of a whole listing numbered from `l` up to `n`:
   * within each function every local label is defined once, lies in the
   * range, and every jump lands on one of the function's own labels; and no
   * local label is defined by two functions.
   */
  predicate ListingLabels(codes: seq<seq<RInstr>>, l: nat, n: nat) {
    && l <= n
    && (forall i :: 0 <= i < |codes| ==>
      var d := Defined(codes[i]);
      && NoDups(d)
      && JumpsWithin(codes[i], Elems(d))
      && forall k :: 0 <= k < |d| ==> l <= d[k] < n)
    && (forall i, j, k :: 0 <= i < j < |codes| && 0 <= k < |Defined(codes[i])| ==>
      Defined(codes[i])[k] !in Defined(codes[j]))
  }

  /** A function numbered after the others keeps the listing's discipline. */
  lemma ListingSnoc(codes: seq<seq<RInstr>>, c: seq<RInstr>, l: nat, m: nat, n: nat)
    requires ListingLabels(codes, l, m) && LabelsFrom(Emitted(c, n), m)
    ensures ListingLabels(codes + [c], l, n)
  {
    var all := codes + [c];
    assert forall i :: 0 <= i < |codes| ==> all[i] == codes[i];
    assert all[|codes|] == c;
    var last := Defined(c);
    assert forall x :: x in last ==> m <= x;
  }

  /**
   * Resetting the counter once per program keeps labels apart: within each
   * function every local label is defined once and every jump lands on one
   * of them, and no local label is defined by two functions.
   */
  lemma {:induction false} ProgramLabels(funcs: seq<Node>, l: nat)
    requires AllFuncs(funcs)
    ensures ListingLabels(ProgramCode(funcs, l).codes, l, ProgramCode(funcs, l).next)
    decreases |funcs|
  {
    if |funcs| == 0 {
      assert ProgramCode(funcs, l) == Listing([], l);
    } else {
      var init := funcs[..|funcs| - 1];
      var p := ProgramCode(init, l);
      ProgramLabels(init, l);
      var g := FuncCode(funcs[|funcs| - 1], p.next);
      FuncLabels(funcs[|funcs| - 1], p.next);
      assert ProgramCode(funcs, l) == Listing(p.codes + [g.code], g.next);
      ListingSnoc(p.codes, g.code, l, p.next, g.next);
    }
  }

  // ----- The generator's state -----

  /** The code of an `if` statement, in terms of its parts. */
  lemma IfCode(c: Node, t: seq<Node>, f: seq<Node>, l: nat)
    ensures StmtCode(If(c, t, f), l) == Emitted(
      IfLayout(ExprCode(c, 0), BlockCode(f, l + 2).code, BlockCode(t, BlockCode(f, l + 2).next).code, l),
      BlockCode(t, BlockCode(f, l + 2).next).next)
  {
  }

  /** Pushing the pieces of an `if` one by one appends its layout. */
  lemma IfPushes(start: seq<RInstr>, cond: seq<RInstr>, fc: seq<RInstr>, tc: seq<RInstr>, l: nat)
    ensures start + cond + [RCJmp(0, Local(l + 1))] + fc + [RJmp(Local(l))] + [RLbl(Local(l + 1))] + tc + [RLbl(Local(l))]
      == start + IfLayout(cond, fc, tc, l)
  {
  }

  /** One tab of the viewer: the function's name and the lines of its code. */
  datatype Tab = Tab(title: string, lines: seq<string>)

  function RenderAll(code: seq<RInstr>): seq<string> {
    seq(|code|, i requires 0 <= i < |code| => Render(code[i]))
  }

  /**
   * The label counter `nextLabel` and the instruction list the generator
   * pushes onto.
   */
  class Generator {
    var code: seq<RInstr>
    var nextLabel: nat

    constructor ()
      ensures code == [] && nextLabel == 0
    {
      code := [];
      nextLabel := 0;
    }

    /** generateExpr: pushes the code of `e` into register `r` and reports the register. */
    method GenerateExpr(e: Node, r: nat) returns (reg: nat)
      modifies this
      ensures code == old(code) + ExprCode(e, r)
      ensures nextLabel == old(nextLabel)
      ensures reg == ExprReg(e, r)
      decreases e
    {
      match e
      case Num(v) =>
        code := code + [RConst(r, v)];
        reg := r;
      case Var(x, _) =>
        code := code + [RVar(r, x)];
        reg := r;
      case Bin(p, lhs, rhs) =>
        var left := GenerateExpr(lhs, r);
        var right := GenerateExpr(rhs, r + 1);
        code := code + [RBin(p, r, r + 1)];
        reg := r;
      case _ =>
        reg := 0;
    }

    /** generateStatement: pushes the code of `s`, taking two labels for each `if`. */
    method GenerateStatement(s: Node)
      modifies this
      ensures code == old(code) + StmtCode(s, old(nextLabel)).code
      ensures nextLabel == StmtCode(s, old(nextLabel)).next
      decreases s, 1
    {
      match s
      case Return(e) =>
        var r := GenerateExpr(e, 0);
        code := code + [RRet(r)];
      case If(c, t, f) =>
        GenerateIf(c, t, f);
      case _ =>
    }

    /**
     * The `if` case of generateStatement: the end label, then the true label,
     * the condition and a conditional jump, the false branch, a jump to the
     * end, the true label and branch, and the end label.
     */
    method GenerateIf(c: Node, t: seq<Node>, f: seq<Node>)
      modifies this
      ensures code == old(code) + StmtCode(If(c, t, f), old(nextLabel)).code
      ensures nextLabel == StmtCode(If(c, t, f), old(nextLabel)).next
      decreases If(c, t, f), 0
    {
      ghost var start := code;
      var lend := nextLabel;
      nextLabel := nextLabel + 1;
      var ltrue := nextLabel;
      nextLabel := nextLabel + 1;
      var reg := GenerateExpr(c, 0);
      code := code + [RCJmp(0, Local(ltrue))];
      ghost var a := code;
      assert a == start + ExprCode(c, 0) + [RCJmp(0, Local(lend + 1))];
      GenerateBlock(f);
      ghost var fc := BlockCode(f, lend + 2);
      assert code == a + fc.code && nextLabel == fc.next;
      code := code + [RJmp(Local(lend))];
      code := code + [RLbl(Local(ltrue))];
      ghost var b := code;
      assert b == a + fc.code + [RJmp(Local(lend))] + [RLbl(Local(lend + 1))];
      GenerateBlock(t);
      ghost var tc := BlockCode(t, fc.next);
      assert code == b + tc.code && nextLabel == tc.next;
      code := code + [RLbl(Local(lend))];
      IfPushes(start, ExprCode(c, 0), fc.code, tc.code, lend);
      IfCode(c, t, f, lend);
    }

    /** The loop `generateStatement` and `generateFunc` run over a list of statements. */
    method GenerateBlock(ss: seq<Node>)
      modifies this
      ensures code == old(code) + BlockCode(ss, old(nextLabel)).code
      ensures nextLabel == BlockCode(ss, old(nextLabel)).next
      decreases ss
    {
      ghost var start := code;
      ghost var l := nextLabel;
      for i := 0 to |ss|
        invariant code == start + BlockCode(ss[..i], l).code
        invariant nextLabel == BlockCode(ss[..i], l).next
      {
        assert ss[..i + 1][..i] == ss[..i];
        GenerateStatement(ss[i]);
      }
      assert ss[..|ss|] == ss;
    }

    /** generateFunc: pushes the function's entry label and then its body. */
    method GenerateFunc(f: Node)
      requires f.Func?
      modifies this
      ensures code == old(code) + FuncCode(f, old(nextLabel)).code
      ensures nextLabel == FuncCode(f, old(nextLabel)).next
    {
      code := code + [RLbl(FuncLabel(f.name))];
      GenerateBlock(f.body);
    }

    /** The loop that turns a function's code into the lines of its tab. */
    method RenderLines(code: seq<RInstr>) returns (lines: seq<string>)
      ensures lines == RenderAll(code)
    {
      lines := [];
      for j := 0 to |code|
        invariant lines == RenderAll(code[..j])
      {
        lines := lines + [Render(code[j])];
      }
      assert code[..|code|] == code;
    }

    /**
     * updateIMF: resets the counter once, then generates every function
     * into a fresh list and renders it line by line into a tab.
     */
    method UpdateImf(funcs: seq<Node>) returns (tabs: seq<Tab>)
      requires AllFuncs(funcs)
      modifies this
      ensures |tabs| == |funcs|
      ensures forall i :: 0 <= i < |funcs| ==>
        tabs[i] == Tab(funcs[i].name, RenderAll(ProgramCode(funcs, 0).codes[i]))
      ensures nextLabel == ProgramCode(funcs, 0).next
    {
      nextLabel := 0;
      tabs := [];
      ghost var codes: seq<seq<RInstr>> := [];
      for i := 0 to |funcs|
        invariant |tabs| == i
        invariant codes == ProgramCode(funcs[..i], 0).codes
        invariant nextLabel == ProgramCode(funcs[..i], 0).next
        invariant forall k :: 0 <= k < i ==> tabs[k] == Tab(funcs[k].name, RenderAll(codes[k]))
      {
        ProgramCodeSnoc(funcs, i, 0);
        ghost var tabs0, codes0 := tabs, codes;
        ghost var g := FuncCode(funcs[i], nextLabel);
        code := [];
        GenerateFunc(funcs[i]);
        assert code == g.code;
        var lines := RenderLines(code);
        var tab := Tab(funcs[i].name, lines);
        assert tab == Tab(funcs[i].name, RenderAll(code));
        tabs := tabs + [tab];
        codes := codes + [code];
        assert tabs[i] == Tab(funcs[i].name, RenderAll(codes[i]));
        assert forall k :: 0 <= k < i ==> tabs[k] == tabs0[k] && codes[k] == codes0[k];
      }
      assert funcs[..|funcs|] == funcs;
    }
  }
}
