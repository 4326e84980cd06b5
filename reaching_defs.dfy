/**
 * Reaching definitions (env.reachingDefs in script/dataflow.js): for every
 * instruction, the `str` instructions whose assignment may still hold on
 * entry and on exit, found by iterating the dataflow equations from empty
 * sets until nothing changes.
 */
module ReachingDefs {
  import opened Wrappers
  import opened Seqs
  import opened ListSet
  import opened SetVectors
  import opened Ir

  // ----- The equations -----

  /** An assignment generates its own index. */
  function Gen(code: seq<Instr>, i: nat): set<nat>
    requires i < |code|
  {
    if code[i].op == Str then {i} else {}
  }

  /** The `str` instructions writing `x`. */
  function Writers(code: seq<Instr>, x: string): set<nat> {
    set k: nat | k < |code| && code[k].op == Str && code[k].dest == x
  }

  /** An assignment kills every assignment to the same variable, itself included. */
  function Kill(code: seq<Instr>, i: nat): set<nat>
    requires i < |code|
  {
    if code[i].op == Str then Writers(code, code[i].dest) else {}
  }

  function Transfer(code: seq<Instr>, i: nat, entry: set<nat>): set<nat>
    requires i < |code|
  {
    (entry - Kill(code, i)) + Gen(code, i)
  }

  /** The union of `x[j]` over the instructions j < `upto` that list `i` as a successor. */
  function GatherUpTo(code: seq<Instr>, x: seq<set<nat>>, i: nat, upto: nat): set<nat>
    requires upto <= |code| == |x|
  {
    if upto == 0 then {}
    else GatherUpTo(code, x, i, upto - 1) + (if i in code[upto - 1].next then x[upto - 1] else {})
  }

  function Gather(code: seq<Instr>, x: seq<set<nat>>, i: nat): set<nat>
    requires |code| == |x|
  {
    GatherUpTo(code, x, i, |code|)
  }

  /** `enter` and `exit` satisfy the reaching-definitions equations at every instruction. */
  predicate IsSolution(code: seq<Instr>, enter: seq<set<nat>>, exit: seq<set<nat>>) {
    |enter| == |code| && |exit| == |code| &&
    forall i :: 0 <= i < |code| ==> enter[i] == Gather(code, exit, i) && exit[i] == Transfer(code, i, enter[i])
  }

  /** One round of the iteration: new entry sets from the old exits, new exits from the new entries. */
  function StepEnter(code: seq<Instr>, exit: seq<set<nat>>): (e: seq<set<nat>>)
    requires |exit| == |code|
    ensures |e| == |code| && forall i :: 0 <= i < |code| ==> e[i] == Gather(code, exit, i)
  {
    seq(|code|, i requires 0 <= i < |code| => Gather(code, exit, i))
  }

  function StepExit(code: seq<Instr>, enter: seq<set<nat>>): (x: seq<set<nat>>)
    requires |enter| == |code|
    ensures |x| == |code| && forall i :: 0 <= i < |code| ==> x[i] == Transfer(code, i, enter[i])
  {
    seq(|code|, i requires 0 <= i < |code| => Transfer(code, i, enter[i]))
  }

  // ----- Facts about the equations -----

  /** The gathered set is the union of the exits of all predecessors. */
  lemma {:induction false} GatherMeans(code: seq<Instr>, x: seq<set<nat>>, i: nat, upto: nat, d: nat)
    requires upto <= |code| == |x|
    ensures d in GatherUpTo(code, x, i, upto) <==> exists j :: 0 <= j < upto && i in code[j].next && d in x[j]
  {
    if upto > 0 {
      GatherMeans(code, x, i, upto - 1, d);
    }
  }

  lemma {:induction false} GatherMono(code: seq<Instr>, x1: seq<set<nat>>, x2: seq<set<nat>>, i: nat, upto: nat)
    requires upto <= |code| == |x1| && Below(x1, x2)
    ensures GatherUpTo(code, x1, i, upto) <= GatherUpTo(code, x2, i, upto)
  {
    if upto > 0 {
      GatherMono(code, x1, x2, i, upto - 1);
    }
  }

  lemma {:induction false} GatherWithin(code: seq<Instr>, x: seq<set<nat>>, i: nat, upto: nat, u: set<nat>)
    requires upto <= |code| == |x| && Within(x, u)
    ensures GatherUpTo(code, x, i, upto) <= u
  {
    if upto > 0 {
      GatherWithin(code, x, i, upto - 1, u);
    }
  }

  lemma StepMono(code: seq<Instr>, x1: seq<set<nat>>, x2: seq<set<nat>>)
    requires |x1| == |code| && Below(x1, x2)
    ensures Below(StepEnter(code, x1), StepEnter(code, x2))
    ensures Below(StepExit(code, StepEnter(code, x1)), StepExit(code, StepEnter(code, x2)))
  {
    forall i | 0 <= i < |code| ensures Gather(code, x1, i) <= Gather(code, x2, i) {
      GatherMono(code, x1, x2, i, |code|);
    }
  }

  lemma StepWithin(code: seq<Instr>, x: seq<set<nat>>)
    requires |x| == |code| && Within(x, Range(|code|))
    ensures Within(StepEnter(code, x), Range(|code|))
    ensures Within(StepExit(code, StepEnter(code, x)), Range(|code|))
  {
    forall i | 0 <= i < |code| ensures Gather(code, x, i) <= Range(|code|) {
      GatherWithin(code, x, i, |code|, Range(|code|));
    }
  }

  /** A solution is a fixed point of one round. */
  lemma SolutionIsFixpoint(code: seq<Instr>, e: seq<set<nat>>, x: seq<set<nat>>)
    requires IsSolution(code, e, x)
    ensures StepEnter(code, x) == e && StepExit(code, e) == x
  {
  }

  /** The entry set of `i` holds exactly the definitions leaving some predecessor of `i`. */
  lemma EnterIsUnionOfPredecessors(code: seq<Instr>, e: seq<set<nat>>, x: seq<set<nat>>, i: nat, d: nat)
    requires IsSolution(code, e, x) && i < |code|
    ensures d in e[i] <==> exists j :: 0 <= j < |code| && i in code[j].next && d in x[j]
  {
    GatherMeans(code, x, i, |code|, d);
  }

  /** An assignment's own definition always leaves it. */
  lemma OwnDefinitionReachesExit(code: seq<Instr>, e: seq<set<nat>>, x: seq<set<nat>>, i: nat)
    requires IsSolution(code, e, x) && i < |code| && code[i].op == Str
    ensures i in x[i]
  {
  }

  /**
   * Only assignments are ever generated or killed, and an assignment kills
   * every assignment to its variable, itself included.
   */
  lemma GenKillShape(code: seq<Instr>, i: nat)
    requires i < |code|
    ensures forall k :: k in Gen(code, i) + Kill(code, i) ==> k < |code| && code[k].op == Str
    ensures code[i].op == Str ==> Gen(code, i) <= Kill(code, i)
    ensures code[i].op == Str ==> forall k :: 0 <= k < |code| && code[k].op == Str && code[k].dest == code[i].dest ==> k in Kill(code, i)
  {
  }

  // ----- The iteration -----

  /** The `str` instructions below `upto` writing `x`, in ascending order. */
  function WritersUpTo(code: seq<Instr>, x: string, upto: nat): (r: seq<nat>)
    requires upto <= |code|
    ensures forall k: nat :: k in r <==> k < upto && code[k].op == Str && code[k].dest == x
    ensures NoDups(r)
    ensures forall j :: 0 <= j < |r| ==> r[j] < upto
  {
    if upto == 0 then []
    else
      var r := WritersUpTo(code, x, upto - 1);
      var k := upto - 1;
      if code[k].op == Str && code[k].dest == x then
        assert k !in r;
        r + [k]
      else r
  }

  function GenList(code: seq<Instr>, i: nat): (r: seq<nat>)
    requires i < |code|
    ensures Elems(r) == Gen(code, i) && NoDups(r)
  {
    if code[i].op == Str then [i] else []
  }

  function KillList(code: seq<Instr>, i: nat): (r: seq<nat>)
    requires i < |code|
    ensures Elems(r) == Kill(code, i) && NoDups(r)
  {
    assert code[i].op == Str ==> Elems(WritersUpTo(code, code[i].dest, |code|)) == Kill(code, i);
    if code[i].op == Str then WritersUpTo(code, code[i].dest, |code|) else []
  }

  /** The gen and kill lists of every instruction, built as env.reachingDefs builds them. */
  method GenKill(code: seq<Instr>) returns (gen: seq<seq<nat>>, kill: seq<seq<nat>>)
    ensures |gen| == |code| && |kill| == |code|
    ensures forall m :: 0 <= m < |code| ==> gen[m] == GenList(code, m) && kill[m] == KillList(code, m)
  {
    var n := |code|;
    gen := [];
    kill := [];
    for i := 0 to n
      invariant |gen| == i && |kill| == i
      invariant forall m :: 0 <= m < i ==> gen[m] == GenList(code, m) && kill[m] == KillList(code, m)
    {
      var g: seq<nat> := [];
      var k: seq<nat> := [];
      if code[i].op == Str {
        g := [i];
        for j := 0 to n
          invariant k == WritersUpTo(code, code[i].dest, j)
        {
          if code[j].op == Str && code[j].dest == code[i].dest {
            k := k + [j];
          }
        }
      }
      gen := gen + [g];
      kill := kill + [k];
    }
  }

  /** The first half of a round: every entry list is the union of the exit lists of its predecessors. */
  method RoundEnter(code: seq<Instr>, exit: seq<seq<nat>>) returns (enterp: seq<seq<nat>>)
    requires |exit| == |code|
    requires forall i :: 0 <= i < |code| ==> NoDups(exit[i])
    ensures |enterp| == |code|
    ensures forall i :: 0 <= i < |code| ==> NoDups(enterp[i])
    ensures Views(enterp) == StepEnter(code, Views(exit))
  {
    var n := |code|;
    ghost var vx := Views(exit);
    enterp := [];
    for i := 0 to n
      invariant |enterp| == i
      invariant forall m :: 0 <= m < i ==> NoDups(enterp[m]) && Elems(enterp[m]) == Gather(code, vx, m)
    {
      var acc: seq<nat> := [];
      for j := 0 to n
        invariant NoDups(acc) && Elems(acc) == GatherUpTo(code, vx, i, j)
      {
        if IndexOf(code[j].next, i) != -1 {
          acc := Union(acc, exit[j]);
        }
      }
      enterp := enterp + [acc];
    }
  }

  /** The second half of a round: every exit list from the new entry list through kill and gen. */
  method RoundExit(code: seq<Instr>, enterp: seq<seq<nat>>, gen: seq<seq<nat>>, kill: seq<seq<nat>>)
    returns (exitp: seq<seq<nat>>)
    requires |enterp| == |code| && |gen| == |code| && |kill| == |code|
    requires forall m :: 0 <= m < |code| ==> gen[m] == GenList(code, m) && kill[m] == KillList(code, m)
    requires forall i :: 0 <= i < |code| ==> NoDups(enterp[i])
    ensures |exitp| == |code|
    ensures forall i :: 0 <= i < |code| ==> NoDups(exitp[i])
    ensures Views(exitp) == StepExit(code, Views(enterp))
  {
    exitp := [];
    for i := 0 to |code|
      invariant |exitp| == i
      invariant forall m :: 0 <= m < i ==> NoDups(exitp[m]) && Elems(exitp[m]) == Transfer(code, m, Elems(enterp[m]))
    {
      var d := Difference(enterp[i], kill[i]);
      var u := Union(d, gen[i]);
      exitp := exitp + [u];
    }
  }

  /** The iterate lies below every solution of the equations. */
  ghost predicate BelowSolutions(code: seq<Instr>, ve: seq<set<nat>>, vx: seq<set<nat>>) {
    forall e, x :: IsSolution(code, e, x) ==> Below(ve, e) && Below(vx, x)
  }

  /**
   * What holds of the iterate before and after every round: its sets hold
   * only instruction indices, it lies below the next round, and it lies
   * below every solution.
   */
  ghost predicate Iterate(code: seq<Instr>, ve: seq<set<nat>>, vx: seq<set<nat>>) {
    |ve| == |code| && |vx| == |code| &&
    Within(ve, Range(|code|)) && Within(vx, Range(|code|)) &&
    Below(ve, StepEnter(code, vx)) && Below(vx, StepExit(code, StepEnter(code, vx))) &&
    BelowSolutions(code, ve, vx)
  }

  /** The iteration starts from empty sets, which satisfy the invariant. */
  lemma StartIterate(code: seq<Instr>, ve: seq<set<nat>>, vx: seq<set<nat>>)
    requires |ve| == |code| && |vx| == |code|
    requires forall i :: 0 <= i < |code| ==> ve[i] == {} && vx[i] == {}
    ensures Iterate(code, ve, vx)
    ensures Size(ve) + Size(vx) <= 2 * (|code| * |code|)
  {
    SizeBound(ve, Range(|code|));
    SizeBound(vx, Range(|code|));
  }

  /** What one round keeps: the invariant holds again, the iterate grows, and it grows strictly unless it is a solution. */
  lemma RoundKeepsInvariant(code: seq<Instr>, ve: seq<set<nat>>, vx: seq<set<nat>>, ve': seq<set<nat>>, vx': seq<set<nat>>)
    requires Iterate(code, ve, vx)
    requires ve' == StepEnter(code, vx) && vx' == StepExit(code, ve')
    ensures Iterate(code, ve', vx')
    ensures Size(ve') + Size(vx') <= 2 * (|code| * |code|)
    ensures Size(ve) + Size(vx) <= Size(ve') + Size(vx')
    ensures (ve != ve' || vx != vx') ==> Size(ve) + Size(vx) < Size(ve') + Size(vx')
    ensures (ve == ve' && vx == vx') ==> IsSolution(code, ve', vx')
  {
    StepMono(code, vx, vx');
    StepWithin(code, vx);
    forall e, x | IsSolution(code, e, x) ensures Below(ve', e) && Below(vx', x) {
      StepMono(code, vx, x);
    }
    SizeGrows(ve, ve');
    SizeGrows(vx, vx');
    SizeBound(ve', Range(|code|));
    SizeBound(vx', Range(|code|));
  }

  /**
   * The chaotic iteration of env.reachingDefs. It ends, and what it ends
   * with is the least solution of the equations: every solution contains it.
   */
  method Solve(code: seq<Instr>) returns (enter: seq<seq<nat>>, exit: seq<seq<nat>>)
    ensures |enter| == |code| && |exit| == |code|
    ensures forall i :: 0 <= i < |code| ==> NoDups(enter[i]) && NoDups(exit[i])
    ensures IsSolution(code, Views(enter), Views(exit))
    ensures forall e, x :: IsSolution(code, e, x) ==> Below(Views(enter), e) && Below(Views(exit), x)
  {
    var n := |code|;
    var gen, kill := GenKill(code);
    enter := Empties(n);
    exit := Empties(n);
    var change := true;
    ghost var cap := 2 * (n * n);
    StartIterate(code, Views(enter), Views(exit));
    while change
      invariant |enter| == n && |exit| == n
      invariant forall i :: 0 <= i < n ==> NoDups(enter[i]) && NoDups(exit[i])
      invariant Iterate(code, Views(enter), Views(exit))
      invariant Size(Views(enter)) + Size(Views(exit)) <= cap
      invariant !change ==> IsSolution(code, Views(enter), Views(exit))
      decreases cap - Size(Views(enter)) - Size(Views(exit)), if change then 1 else 0
    {
      ghost var ve, vx := Views(enter), Views(exit);
      var enterp := RoundEnter(code, exit);
      var exitp := RoundExit(code, enterp, gen, kill);
      change := Changed(enter, exit, enterp, exitp);
      RoundKeepsInvariant(code, ve, vx, Views(enterp), Views(exitp));
      enter, exit := enterp, exitp;
    }
  }

  /** The lists of one analysis stored at each instruction. */
  function RdIn(code: seq<Instr>): (r: seq<seq<nat>>)
    ensures |r| == |code| && forall i :: 0 <= i < |code| ==> r[i] == code[i].rd.entry
  {
    seq(|code|, i requires 0 <= i < |code| => code[i].rd.entry)
  }

  function RdOut(code: seq<Instr>): (r: seq<seq<nat>>)
    ensures |r| == |code| && forall i :: 0 <= i < |code| ==> r[i] == code[i].rd.exit
  {
    seq(|code|, i requires 0 <= i < |code| => code[i].rd.exit)
  }

  /**
   * env.reachingDefs: stores the least solution in the `rd` lists of the
   * instructions and changes nothing else.
   */
  method ReachingDefinitions(imf: array<Instr>)
    modifies imf
    ensures forall i :: 0 <= i < imf.Length ==> imf[i] == old(imf[i]).(rd := imf[i].rd)
    ensures IsSolution(old(imf[..]), Views(RdIn(imf[..])), Views(RdOut(imf[..])))
    ensures forall e, x :: IsSolution(old(imf[..]), e, x) ==>
      Below(Views(RdIn(imf[..])), e) && Below(Views(RdOut(imf[..])), x)
  {
    ghost var code := imf[..];
    var enter, exit := Solve(imf[..]);
    Store(imf, enter, exit);
    assert RdIn(imf[..]) == enter;
    assert RdOut(imf[..]) == exit;
  }

  /** Writes the `rd` lists of every instruction. */
  method Store(imf: array<Instr>, enter: seq<seq<nat>>, exit: seq<seq<nat>>)
    requires |enter| == imf.Length && |exit| == imf.Length
    modifies imf
    ensures forall m :: 0 <= m < imf.Length ==> imf[m] == old(imf[m]).(rd := Facts(enter[m], exit[m]))
  {
    for i := 0 to imf.Length
      invariant forall m :: 0 <= m < i ==> imf[m] == old(imf[m]).(rd := Facts(enter[m], exit[m]))
      invariant forall m :: i <= m < imf.Length ==> imf[m] == old(imf[m])
    {
      imf[i] := imf[i].(rd := Facts(enter[i], exit[i]));
    }
  }
}
