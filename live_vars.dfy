/**
 * Live variables (env.liveVariables in script/dataflow.js): for every
 * instruction, the variables whose current value may still be read on some
 * path from its entry and from its exit, found by iterating the backward
 * dataflow equations from empty sets until nothing changes.
 */
module LiveVars {
  import opened Wrappers
  import opened Seqs
  import opened ListSet
  import opened SetVectors
  import opened Ast
  import opened Ir

  // ----- The equations -----

  /** The variables an instruction reads: those of its expression. */
  function Uses(code: seq<Instr>, i: nat): set<string>
    requires i < |code|
  {
    if code[i].expr.Some? then FreeVars(code[i].expr.value) else {}
  }

  /** The variable an instruction writes: the destination of a `str`. */
  function Defs(code: seq<Instr>, i: nat): set<string>
    requires i < |code|
  {
    if code[i].op == Str then {code[i].dest} else {}
  }

  function Transfer(code: seq<Instr>, i: nat, exit: set<string>): set<string>
    requires i < |code|
  {
    (exit - Defs(code, i)) + Uses(code, i)
  }

  /**
   * The union of `e[s]` over the first `upto` successors `s` of `i`. A
   * successor that names no instruction contributes nothing here; the
   * iteration itself requires that there is none.
   */
  function GatherUpTo(code: seq<Instr>, e: seq<set<string>>, i: nat, upto: nat): set<string>
    requires |e| == |code| && i < |code| && upto <= |code[i].next|
  {
    if upto == 0 then {}
    else
      var s := code[i].next[upto - 1];
      GatherUpTo(code, e, i, upto - 1) + (if s < |e| then e[s] else {})
  }

  function Gather(code: seq<Instr>, e: seq<set<string>>, i: nat): set<string>
    requires |e| == |code| && i < |code|
  {
    GatherUpTo(code, e, i, |code[i].next|)
  }

  /** `enter` and `exit` satisfy the live-variables equations at every instruction. */
  predicate IsSolution(code: seq<Instr>, enter: seq<set<string>>, exit: seq<set<string>>) {
    |enter| == |code| && |exit| == |code| &&
    forall i :: 0 <= i < |code| ==> exit[i] == Gather(code, enter, i) && enter[i] == Transfer(code, i, exit[i])
  }

  /** One round: new exits from the old entries, new entries from the old exits. */
  function StepExit(code: seq<Instr>, enter: seq<set<string>>): (x: seq<set<string>>)
    requires |enter| == |code|
    ensures |x| == |code| && forall i :: 0 <= i < |code| ==> x[i] == Gather(code, enter, i)
  {
    seq(|code|, i requires 0 <= i < |code| => Gather(code, enter, i))
  }

  function StepEnter(code: seq<Instr>, exit: seq<set<string>>): (e: seq<set<string>>)
    requires |exit| == |code|
    ensures |e| == |code| && forall i :: 0 <= i < |code| ==> e[i] == Transfer(code, i, exit[i])
  {
    seq(|code|, i requires 0 <= i < |code| => Transfer(code, i, exit[i]))
  }

  /** Every variable any instruction reads: the values the sets can hold. */
  function AllUses(code: seq<Instr>): (u: set<string>)
    ensures forall i :: 0 <= i < |code| ==> Uses(code, i) <= u
  {
    if |code| == 0 then {}
    else
      var init := code[..|code| - 1];
      var u := AllUses(init);
      assert forall i :: 0 <= i < |init| ==> Uses(init, i) == Uses(code, i);
      u + Uses(code, |code| - 1)
  }

  // ----- Facts about the equations -----

  /** The exit set is the union of the entry sets of all successors. */
  lemma {:induction false} GatherMeans(code: seq<Instr>, e: seq<set<string>>, i: nat, upto: nat, x: string)
    requires Closed(code) && |e| == |code| && i < |code| && upto <= |code[i].next|
    ensures x in GatherUpTo(code, e, i, upto) <==> exists k :: 0 <= k < upto && x in e[code[i].next[k]]
  {
    if upto > 0 {
      GatherMeans(code, e, i, upto - 1, x);
    }
  }

  lemma {:induction false} GatherMono(code: seq<Instr>, e1: seq<set<string>>, e2: seq<set<string>>, i: nat, upto: nat)
    requires |e1| == |code| && i < |code| && upto <= |code[i].next| && Below(e1, e2)
    ensures GatherUpTo(code, e1, i, upto) <= GatherUpTo(code, e2, i, upto)
  {
    if upto > 0 {
      GatherMono(code, e1, e2, i, upto - 1);
    }
  }

  lemma {:induction false} GatherWithin(code: seq<Instr>, e: seq<set<string>>, i: nat, upto: nat, u: set<string>)
    requires |e| == |code| && i < |code| && upto <= |code[i].next| && Within(e, u)
    ensures GatherUpTo(code, e, i, upto) <= u
  {
    if upto > 0 {
      GatherWithin(code, e, i, upto - 1, u);
    }
  }

  lemma StepMono(code: seq<Instr>, e1: seq<set<string>>, x1: seq<set<string>>, e2: seq<set<string>>, x2: seq<set<string>>)
    requires |e1| == |code| && |x1| == |code| && Below(e1, e2) && Below(x1, x2)
    ensures Below(StepExit(code, e1), StepExit(code, e2))
    ensures Below(StepEnter(code, x1), StepEnter(code, x2))
  {
    forall i | 0 <= i < |code| ensures Gather(code, e1, i) <= Gather(code, e2, i) {
      GatherMono(code, e1, e2, i, |code[i].next|);
    }
  }

  lemma StepWithin(code: seq<Instr>, e: seq<set<string>>, x: seq<set<string>>)
    requires |e| == |code| && |x| == |code|
    requires Within(e, AllUses(code)) && Within(x, AllUses(code))
    ensures Within(StepExit(code, e), AllUses(code))
    ensures Within(StepEnter(code, x), AllUses(code))
  {
    forall i | 0 <= i < |code| ensures Gather(code, e, i) <= AllUses(code) {
      GatherWithin(code, e, i, |code[i].next|, AllUses(code));
    }
  }

  /** The exit set of `i` holds exactly the variables live on entry to some successor of `i`. */
  lemma ExitIsUnionOfSuccessors(code: seq<Instr>, e: seq<set<string>>, x: seq<set<string>>, i: nat, v: string)
    requires Closed(code) && IsSolution(code, e, x) && i < |code|
    ensures v in x[i] <==> exists k :: 0 <= k < |code[i].next| && v in e[code[i].next[k]]
  {
    GatherMeans(code, e, i, |code[i].next|, v);
  }

  /** A variable an instruction reads is live on its entry; one it overwrites is live there only if it reads it. */
  lemma ReadIsLive(code: seq<Instr>, e: seq<set<string>>, x: seq<set<string>>, i: nat)
    requires IsSolution(code, e, x) && i < |code|
    ensures Uses(code, i) <= e[i]
    ensures code[i].op == Str && code[i].dest in e[i] ==> code[i].dest in Uses(code, i)
  {
  }

  // ----- The iteration -----

  /**
   * `traverse`: appends to `acc` the variables of `n` not yet in it, in
   * the order they are first met, left to right.
   */
  function Traverse(n: Node, acc: seq<string>): (r: seq<string>)
    ensures Elems(r) == Elems(acc) + FreeVars(n)
    ensures NoDups(acc) ==> NoDups(r)
    ensures acc <= r
  {
    match n
    case Var(x, _) =>
      if IndexOf(acc, x) == -1 then
        assert Elems(acc + [x]) == Elems(acc) + {x};
        acc + [x]
      else acc
    case Bin(_, l, r) => Traverse(r, Traverse(l, acc))
    case Un(_, x) => Traverse(x, acc)
    case Call(_, args, _) => TraverseAll(args, acc)
    case _ => acc
  }

  function TraverseAll(ns: seq<Node>, acc: seq<string>): (r: seq<string>)
    ensures Elems(r) == Elems(acc) + FreeVarsAll(ns)
    ensures NoDups(acc) ==> NoDups(r)
    ensures acc <= r
  {
    if |ns| == 0 then acc
    else Traverse(ns[|ns| - 1], TraverseAll(ns[..|ns| - 1], acc))
  }

  function ReadsList(code: seq<Instr>, i: nat): (r: seq<string>)
    requires i < |code|
    ensures Elems(r) == Uses(code, i) && NoDups(r)
  {
    if code[i].expr.Some? then Traverse(code[i].expr.value, []) else []
  }

  function WritesList(code: seq<Instr>, i: nat): (r: seq<string>)
    requires i < |code|
    ensures Elems(r) == Defs(code, i) && NoDups(r)
  {
    if code[i].op == Str then [code[i].dest] else []
  }

  /** The reads and writes lists of every instruction, built as env.liveVariables builds them. */
  method ReadsWrites(code: seq<Instr>) returns (readLists: seq<seq<string>>, writeLists: seq<seq<string>>)
    ensures |readLists| == |code| && |writeLists| == |code|
    ensures forall m :: 0 <= m < |code| ==> readLists[m] == ReadsList(code, m) && writeLists[m] == WritesList(code, m)
  {
    readLists := [];
    writeLists := [];
    for i := 0 to |code|
      invariant |readLists| == i && |writeLists| == i
      invariant forall m :: 0 <= m < i ==> readLists[m] == ReadsList(code, m) && writeLists[m] == WritesList(code, m)
    {
      var w: seq<string> := [];
      if code[i].op == Str {
        w := [code[i].dest];
      }
      var r: seq<string> := [];
      if code[i].expr.Some? {
        r := Traverse(code[i].expr.value, r);
      }
      readLists := readLists + [r];
      writeLists := writeLists + [w];
    }
  }

  /** The first half of a round: every exit list is the union of its successors' (old) entry lists. */
  method RoundExit(code: seq<Instr>, enter: seq<seq<string>>) returns (exitp: seq<seq<string>>)
    requires Closed(code) && |enter| == |code|
    requires forall i :: 0 <= i < |code| ==> NoDups(enter[i])
    ensures |exitp| == |code|
    ensures forall i :: 0 <= i < |code| ==> NoDups(exitp[i])
    ensures Views(exitp) == StepExit(code, Views(enter))
  {
    ghost var ve := Views(enter);
    exitp := [];
    for i := 0 to |code|
      invariant |exitp| == i
      invariant forall m :: 0 <= m < i ==> NoDups(exitp[m]) && Elems(exitp[m]) == Gather(code, ve, m)
    {
      var acc: seq<string> := [];
      for j := 0 to |code[i].next|
        invariant NoDups(acc) && Elems(acc) == GatherUpTo(code, ve, i, j)
      {
        acc := Union(acc, enter[code[i].next[j]]);
      }
      exitp := exitp + [acc];
    }
  }

  /** The second half of a round: every entry list from the old exit list through writes and reads. */
  method RoundEnter(code: seq<Instr>, exit: seq<seq<string>>, readLists: seq<seq<string>>, writeLists: seq<seq<string>>)
    returns (enterp: seq<seq<string>>)
    requires |exit| == |code| && |readLists| == |code| && |writeLists| == |code|
    requires forall m :: 0 <= m < |code| ==> readLists[m] == ReadsList(code, m) && writeLists[m] == WritesList(code, m)
    requires forall i :: 0 <= i < |code| ==> NoDups(exit[i])
    ensures |enterp| == |code|
    ensures forall i :: 0 <= i < |code| ==> NoDups(enterp[i])
    ensures Views(enterp) == StepEnter(code, Views(exit))
  {
    enterp := [];
    for i := 0 to |code|
      invariant |enterp| == i
      invariant forall m :: 0 <= m < i ==> NoDups(enterp[m]) && Elems(enterp[m]) == Transfer(code, m, Elems(exit[m]))
    {
      var d := Difference(exit[i], writeLists[i]);
      var u := Union(d, readLists[i]);
      enterp := enterp + [u];
    }
  }

  /** The iterate lies below every solution of the equations. */
  ghost predicate BelowSolutions(code: seq<Instr>, ve: seq<set<string>>, vx: seq<set<string>>) {
    forall e, x :: IsSolution(code, e, x) ==> Below(ve, e) && Below(vx, x)
  }

  /**
   * What holds of the iterate before and after every round: its sets hold
   * only variables some instruction reads, it lies below the next round,
   * and it lies below every solution.
   */
  ghost predicate Iterate(code: seq<Instr>, ve: seq<set<string>>, vx: seq<set<string>>) {
    |ve| == |code| && |vx| == |code| &&
    Within(ve, AllUses(code)) && Within(vx, AllUses(code)) &&
    Below(ve, StepEnter(code, vx)) && Below(vx, StepExit(code, ve)) &&
    BelowSolutions(code, ve, vx)
  }

  /** The iteration starts from empty sets, which satisfy the invariant. */
  lemma StartIterate(code: seq<Instr>, ve: seq<set<string>>, vx: seq<set<string>>)
    requires |ve| == |code| && |vx| == |code|
    requires forall i :: 0 <= i < |code| ==> ve[i] == {} && vx[i] == {}
    ensures Iterate(code, ve, vx)
    ensures Size(ve) + Size(vx) <= 2 * (|code| * |AllUses(code)|)
  {
    SizeBound(ve, AllUses(code));
    SizeBound(vx, AllUses(code));
  }

  /** What one round keeps: the invariant holds again, the iterate grows, and it grows strictly unless it is a solution. */
  lemma RoundKeepsInvariant(code: seq<Instr>, ve: seq<set<string>>, vx: seq<set<string>>, ve': seq<set<string>>, vx': seq<set<string>>)
    requires Iterate(code, ve, vx)
    requires vx' == StepExit(code, ve) && ve' == StepEnter(code, vx)
    ensures Iterate(code, ve', vx')
    ensures Size(ve') + Size(vx') <= 2 * (|code| * |AllUses(code)|)
    ensures Size(ve) + Size(vx) <= Size(ve') + Size(vx')
    ensures (ve != ve' || vx != vx') ==> Size(ve) + Size(vx) < Size(ve') + Size(vx')
    ensures (ve == ve' && vx == vx') ==> IsSolution(code, ve', vx')
  {
    StepMono(code, ve, vx, ve', vx');
    StepWithin(code, ve, vx);
    forall e, x | IsSolution(code, e, x) ensures Below(ve', e) && Below(vx', x) {
      StepMono(code, ve, vx, e, x);
    }
    SizeGrows(ve, ve');
    SizeGrows(vx, vx');
    SizeBound(ve', AllUses(code));
    SizeBound(vx', AllUses(code));
  }

  /**
   * The chaotic iteration of env.liveVariables. Every successor index must
   * name an instruction (the source fails on one that does not). The
   * iteration ends with the least solution of the equations.
   */
  method Solve(code: seq<Instr>) returns (enter: seq<seq<string>>, exit: seq<seq<string>>)
    requires Closed(code)
    ensures |enter| == |code| && |exit| == |code|
    ensures forall i :: 0 <= i < |code| ==> NoDups(enter[i]) && NoDups(exit[i])
    ensures IsSolution(code, Views(enter), Views(exit))
    ensures forall e, x :: IsSolution(code, e, x) ==> Below(Views(enter), e) && Below(Views(exit), x)
  {
    var n := |code|;
    var readLists, writeLists := ReadsWrites(code);
    enter := Empties(n);
    exit := Empties(n);
    var change := true;
    ghost var cap := 2 * (n * |AllUses(code)|);
    StartIterate(code, Views(enter), Views(exit));
    while change
      invariant |enter| == n && |exit| == n
      invariant forall i :: 0 <= i < n ==> NoDups(enter[i]) && NoDups(exit[i])
      invariant Iterate(code, Views(enter), Views(exit))
      invariant Size(Views(enter)) + Size(Views(exit)) <= cap
      invariant !change ==> IsSolution(code, Views(enter), Views(exit))
      decreases cap - Size(Views(enter)) - Size(Views(exit)), if change then 1 else 0
    {
      ghost var ve, vx := Views(enter), Views(exit);
      var exitp := RoundExit(code, enter);
      var enterp := RoundEnter(code, exit, readLists, writeLists);
      change := Changed(enter, exit, enterp, exitp);
      RoundKeepsInvariant(code, ve, vx, Views(enterp), Views(exitp));
      enter, exit := enterp, exitp;
    }
  }

  function LvIn(code: seq<Instr>): (r: seq<seq<string>>)
    ensures |r| == |code| && forall i :: 0 <= i < |code| ==> r[i] == code[i].lv.entry
  {
    seq(|code|, i requires 0 <= i < |code| => code[i].lv.entry)
  }

  function LvOut(code: seq<Instr>): (r: seq<seq<string>>)
    ensures |r| == |code| && forall i :: 0 <= i < |code| ==> r[i] == code[i].lv.exit
  {
    seq(|code|, i requires 0 <= i < |code| => code[i].lv.exit)
  }

  /**
   * env.liveVariables: stores the least solution in the `lv` lists of the
   * instructions and changes nothing else.
   */
  method LiveVariables(imf: array<Instr>)
    requires Closed(imf[..])
    modifies imf
    ensures forall i :: 0 <= i < imf.Length ==> imf[i] == old(imf[i]).(lv := imf[i].lv)
    ensures IsSolution(old(imf[..]), Views(LvIn(imf[..])), Views(LvOut(imf[..])))
    ensures forall e, x :: IsSolution(old(imf[..]), e, x) ==>
      Below(Views(LvIn(imf[..])), e) && Below(Views(LvOut(imf[..])), x)
  {
    ghost var code := imf[..];
    var enter, exit := Solve(imf[..]);
    Store(imf, enter, exit);
    assert LvIn(imf[..]) == enter;
    assert LvOut(imf[..]) == exit;
  }

  /** Writes the `lv` lists of every instruction. */
  method Store(imf: array<Instr>, enter: seq<seq<string>>, exit: seq<seq<string>>)
    requires |enter| == imf.Length && |exit| == imf.Length
    modifies imf
    ensures forall m :: 0 <= m < imf.Length ==> imf[m] == old(imf[m]).(lv := Facts(enter[m], exit[m]))
  {
    for i := 0 to imf.Length
      invariant forall m :: 0 <= m < i ==> imf[m] == old(imf[m]).(lv := Facts(enter[m], exit[m]))
      invariant forall m :: i <= m < imf.Length ==> imf[m] == old(imf[m])
    {
      imf[i] := imf[i].(lv := Facts(enter[i], exit[i]));
    }
  }
}
