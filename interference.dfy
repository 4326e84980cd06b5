/**
 * The interference graph and its colouring (env.interferenceGraph in
 * script/dataflow.js). Two variables interfere when both are live on exit
 * from the same instruction. The graph is an adjacency list per name;
 * the colouring is the Welsh–Powell greedy scheme: vertices by
 * non-increasing degree, one new colour per pass, given to every vertex
 * of the pass that has no neighbour of that colour yet.
 */
module Interference {
  import opened Seqs
  import opened SetVectors
  import opened Ir

  /** Adjacency lists, keyed by variable name. */
  type Graph = map<string, seq<string>>

  /** Colours, keyed by variable name. */
  type Colouring = map<string, nat>

  // ----- The graph, as a function of the live-out lists -----

  /** Every live-out list, one after the other, in instruction order. */
  function AllOut(code: seq<Instr>): seq<string> {
    if |code| == 0 then [] else AllOut(code[..|code| - 1]) + code[|code| - 1].lv.exit
  }

  /** A name occurs in the concatenated lists when it is live on exit from some instruction. */
  lemma {:induction false} AllOutMeans(code: seq<Instr>, x: string)
    ensures x in AllOut(code) <==> exists i :: 0 <= i < |code| && x in code[i].lv.exit
  {
    if |code| > 0 {
      var init := code[..|code| - 1];
      AllOutMeans(init, x);
      assert forall i :: 0 <= i < |init| ==> init[i] == code[i];
      if x in AllOut(code) && x !in code[|code| - 1].lv.exit {
        assert x in AllOut(init);
      }
    }
  }

  /** The names a single live-out list makes adjacent to `x`. */
  function AdjIn(out: seq<string>, x: string): set<string> {
    if x in out then Elems(out) - {x} else {}
  }

  function AdjUpTo(code: seq<Instr>, n: nat, x: string): set<string>
    requires n <= |code|
  {
    if n == 0 then {} else AdjUpTo(code, n - 1, x) + AdjIn(code[n - 1].lv.exit, x)
  }

  /** The names that interfere with `x`. */
  function Neighbours(code: seq<Instr>, x: string): set<string> {
    AdjUpTo(code, |code|, x)
  }

  lemma {:induction false} AdjUpToMeans(code: seq<Instr>, n: nat, x: string, y: string)
    requires n <= |code|
    ensures y in AdjUpTo(code, n, x) <==>
      x != y && exists i :: 0 <= i < n && x in code[i].lv.exit && y in code[i].lv.exit
  {
    if n > 0 {
      AdjUpToMeans(code, n - 1, x, y);
    }
  }

  /**
   * The edges of the graph: two distinct names are adjacent exactly when
   * both are live on exit from one instruction. So the graph has no
   * self-loops, is symmetric, and joins only live-out names.
   */
  lemma NeighboursMeans(code: seq<Instr>, x: string, y: string)
    ensures y in Neighbours(code, x) <==>
      x != y && exists i :: 0 <= i < |code| && x in code[i].lv.exit && y in code[i].lv.exit
    ensures x !in Neighbours(code, x)
    ensures y in Neighbours(code, x) <==> x in Neighbours(code, y)
    ensures y in Neighbours(code, x) ==> x in AllOut(code) && y in AllOut(code)
  {
    AdjUpToMeans(code, |code|, x, y);
    AdjUpToMeans(code, |code|, y, x);
    AdjUpToMeans(code, |code|, x, x);
    AllOutMeans(code, x);
    AllOutMeans(code, y);
  }

  // ----- Building the graph -----

  /** A vertex with an empty adjacency list for every name of `vs`. */
  function EmptyGraph<T>(vs: seq<T>): (g: map<T, seq<T>>)
    ensures g.Keys == Elems(vs)
    ensures forall v :: v in g ==> g[v] == []
  {
    if |vs| == 0 then map[]
    else
      assert Elems(vs) == Elems(vs[..|vs| - 1]) + {vs[|vs| - 1]} by {
        assert vs == vs[..|vs| - 1] + [vs[|vs| - 1]];
      }
      EmptyGraph(vs[..|vs| - 1])[vs[|vs| - 1] := []]
  }

  /** One step of the vertex phase: a name not yet a vertex becomes one. */
  method AddName<T(==)>(graph: map<T, seq<T>>, verts: seq<T>, vert: T) returns (g: map<T, seq<T>>, vs: seq<T>)
    requires graph == EmptyGraph(verts)
    ensures vs == if vert in verts then verts else verts + [vert]
    ensures g == EmptyGraph(vs)
  {
    g, vs := graph, verts;
    if vert !in g {
      assert (vs + [vert])[..|vs|] == vs;
      g := g[vert := []];
      vs := vs + [vert];
    }
  }

  /** The inner loop of the vertex phase, over one live-out list. */
  method AddNames<T(==)>(graph: map<T, seq<T>>, verts: seq<T>, out: seq<T>, ghost before: seq<T>)
    returns (g: map<T, seq<T>>, vs: seq<T>)
    requires verts == Distinct(before)
    requires graph == EmptyGraph(verts)
    ensures vs == Distinct(before + out)
    ensures g == EmptyGraph(vs)
  {
    g, vs := graph, verts;
    assert before + out[..0] == before;
    for j := 0 to |out|
      invariant vs == Distinct(before + out[..j])
      invariant g == EmptyGraph(vs)
    {
      PrefixStep(before, out, j);
      DistinctSnoc(before + out[..j], out[j]);
      g, vs := AddName(g, vs, out[j]);
    }
    if |out| > 0 {
      PrefixStep(before, out, 0);
    } else {
      assert before + out == before;
    }
  }

  /**
   * The first loop of env.interferenceGraph: every name of every live-out
   * list becomes a vertex with no edges, listed in the order it is first met.
   */
  method Vertices(code: seq<Instr>) returns (graph: Graph, verts: seq<string>)
    ensures verts == Distinct(AllOut(code))
    ensures graph == EmptyGraph(verts)
  {
    graph := map[];
    verts := [];
    for i := 0 to |code|
      invariant verts == Distinct(AllOut(code[..i]))
      invariant graph == EmptyGraph(verts)
    {
      assert code[..i + 1][..i] == code[..i];
      graph, verts := AddNames(graph, verts, code[i].lv.exit, AllOut(code[..i]));
    }
    assert code[..|code|] == code;
  }

  /** The inner loop of the edge phase: `x` gets an edge to every other name of `out` it lacks. */
  method AddRow(graph: Graph, x: string, out: seq<string>) returns (g: Graph)
    requires x in graph
    ensures g.Keys == graph.Keys
    ensures forall z :: z in graph && z != x ==> g[z] == graph[z]
    ensures Elems(g[x]) == Elems(graph[x]) + (Elems(out) - {x})
    ensures NoDups(graph[x]) ==> NoDups(g[x])
  {
    g := graph;
    for k := 0 to |out|
      invariant g.Keys == graph.Keys
      invariant forall z :: z in graph && z != x ==> g[z] == graph[z]
      invariant Elems(g[x]) == Elems(graph[x]) + (Elems(out[..k]) - {x})
      invariant NoDups(graph[x]) ==> NoDups(g[x])
    {
      var y := out[k];
      assert Elems(out[..k + 1]) == Elems(out[..k]) + {y} by {
        assert out[..k + 1] == out[..k] + [y];
      }
      if x != y && IndexOf(g[x], y) == -1 {
        assert Elems(g[x] + [y]) == Elems(g[x]) + {y};
        g := g[x := g[x] + [y]];
      }
    }
    assert out[..|out|] == out;
  }

  /** The edges one live-out list contributes: every ordered pair of distinct names in it. */
  method AddList(graph: Graph, out: seq<string>) returns (g: Graph)
    requires Elems(out) <= graph.Keys
    ensures g.Keys == graph.Keys
    ensures forall z :: z in graph ==> Elems(g[z]) == Elems(graph[z]) + AdjIn(out, z)
    ensures forall z :: z in graph && NoDups(graph[z]) ==> NoDups(g[z])
  {
    g := graph;
    for j := 0 to |out|
      invariant g.Keys == graph.Keys
      invariant forall z :: z in graph ==>
        Elems(g[z]) == Elems(graph[z]) + (if z in out[..j] then Elems(out) - {z} else {})
      invariant forall z :: z in graph && NoDups(graph[z]) ==> NoDups(g[z])
    {
      assert out[..j + 1] == out[..j] + [out[j]];
      g := AddRow(g, out[j], out);
    }
    assert out[..|out|] == out;
  }

  /** The second loop of env.interferenceGraph, over every instruction. */
  method Edges(code: seq<Instr>, graph: Graph) returns (g: Graph)
    requires Elems(AllOut(code)) <= graph.Keys
    requires forall v :: v in graph ==> graph[v] == []
    ensures g.Keys == graph.Keys
    ensures forall z :: z in g ==> Elems(g[z]) == Neighbours(code, z) && NoDups(g[z])
  {
    g := graph;
    for i := 0 to |code|
      invariant g.Keys == graph.Keys
      invariant forall z :: z in g ==> Elems(g[z]) == AdjUpTo(code, i, z) && NoDups(g[z])
    {
      forall x | x in code[i].lv.exit ensures x in graph {
        AllOutMeans(code, x);
      }
      g := AddList(g, code[i].lv.exit);
    }
  }

  // ----- Ordering by degree -----

  function Degree(graph: Graph, v: string): nat {
    if v in graph then |graph[v]| else 0
  }

  predicate ByDegree(graph: Graph, s: seq<string>) {
    forall i, j :: 0 <= i < j < |s| ==> Degree(graph, s[i]) >= Degree(graph, s[j])
  }

  /** Puts `x` before the first element whose degree is not larger, so equal degrees keep their order. */
  function Insert(graph: Graph, x: string, s: seq<string>): (r: seq<string>)
    ensures multiset(r) == multiset(s) + multiset{x}
  {
    if |s| == 0 then [x]
    else if Degree(graph, s[0]) <= Degree(graph, x) then [x] + s
    else
      assert s == [s[0]] + s[1..];
      [s[0]] + Insert(graph, x, s[1..])
  }

  /**
   * `verts.sort(...)` with the comparator `graph[b].length - graph[a].length`:
   * a stable sort into non-increasing degree.
   */
  function SortByDegree(graph: Graph, s: seq<string>): (r: seq<string>)
    ensures multiset(r) == multiset(s)
  {
    if |s| == 0 then []
    else
      assert s == [s[0]] + s[1..];
      Insert(graph, s[0], SortByDegree(graph, s[1..]))
  }

  lemma {:induction false} InsertSorted(graph: Graph, x: string, s: seq<string>)
    requires ByDegree(graph, s)
    ensures ByDegree(graph, Insert(graph, x, s))
  {
    if |s| > 0 && Degree(graph, s[0]) > Degree(graph, x) {
      InsertSorted(graph, x, s[1..]);
      var t := Insert(graph, x, s[1..]);
      forall k | 0 <= k < |t| ensures Degree(graph, s[0]) >= Degree(graph, t[k]) {
        assert t[k] in multiset(t);
        if t[k] != x {
          assert t[k] in multiset(s[1..]);
          var m :| 0 <= m < |s[1..]| && s[1..][m] == t[k];
          assert s[m + 1] == t[k];
        }
      }
    }
  }

  /** Sorting leaves the vertices in non-increasing order of degree. */
  lemma {:induction false} SortSorted(graph: Graph, s: seq<string>)
    ensures ByDegree(graph, SortByDegree(graph, s))
  {
    if |s| > 0 {
      SortSorted(graph, s[1..]);
      InsertSorted(graph, s[0], SortByDegree(graph, s[1..]));
    }
  }

  /** A reordering keeps the elements, and keeps a list duplicate-free. */
  lemma PermutationKeeps(a: seq<string>, b: seq<string>)
    requires multiset(a) == multiset(b)
    ensures Elems(a) == Elems(b)
    ensures NoDups(a) ==> NoDups(b)
  {
    forall x ensures x in a <==> x in b {
      assert x in a <==> x in multiset(a);
      assert x in b <==> x in multiset(b);
    }
    if NoDups(a) && !NoDups(b) {
      var i, j :| 0 <= i < j < |b| && b[i] == b[j];
      assert b == b[..j] + [b[j]] + b[j + 1..];
      assert multiset(b)[b[j]] >= 2 by {
        assert b[i] in multiset(b[..j]);
        assert multiset(b) == multiset(b[..j]) + multiset{b[j]} + multiset(b[j + 1..]);
      }
      NoDupsCount(a, b[j]);
    }
  }

  lemma {:induction false} NoDupsCount(s: seq<string>, x: string)
    requires NoDups(s)
    ensures multiset(s)[x] <= 1
  {
    if |s| > 0 {
      var t := s[..|s| - 1];
      assert s == t + [s[|s| - 1]];
      assert NoDups(t);
      NoDupsCount(t, x);
      if s[|s| - 1] == x {
        assert x !in t;
        assert multiset(t)[x] == 0;
      }
    }
  }

  // ----- Colouring -----

  /** `y` is on the adjacency list of `x`. */
  predicate Adjacent(graph: Graph, x: string, y: string) {
    x in graph && y in graph[x]
  }

  /** What the colouring needs of the graph, and what the builder establishes. */
  ghost predicate IsGraph(graph: Graph, verts: seq<string>) {
    NoDups(verts) && graph.Keys == Elems(verts) &&
    (forall x :: x in graph ==> NoDups(graph[x]) && Elems(graph[x]) <= graph.Keys && x !in graph[x]) &&
    (forall x, y :: Adjacent(graph, x, y) ==> Adjacent(graph, y, x))
  }

  /** No two adjacent coloured vertices share a colour. */
  predicate Proper(graph: Graph, colour: Colouring) {
    forall x, y :: x in colour && x in graph && y in colour && y in graph[x] ==> colour[x] != colour[y]
  }

  /** Some neighbour of `v` has colour `c`. */
  predicate Witnessed(graph: Graph, colour: Colouring, v: string, c: nat) {
    v in graph && exists k :: 0 <= k < |graph[v]| && graph[v][k] in colour && colour[graph[v][k]] == c
  }

  /**
   * The state of the colouring during the pass that hands out colour `c`:
   * only vertices are coloured, with colours up to `c`, adjacent ones
   * apart; every colour below a vertex's own is on one of its neighbours,
   * and so is every colour below `c` for a vertex still uncoloured.
   */
  ghost predicate Invariant(graph: Graph, colour: Colouring, c: nat) {
    colour.Keys <= graph.Keys &&
    (forall v :: v in colour ==> colour[v] <= c) &&
    Proper(graph, colour) &&
    (forall v, c': nat :: v in colour && c' < colour[v] ==> Witnessed(graph, colour, v, c')) &&
    (forall v, c': nat :: v in graph && v !in colour && c' < c ==> Witnessed(graph, colour, v, c'))
  }

  /** The inner test of a pass: `good` when no neighbour of `v` has colour `c`. */
  method Good(graph: Graph, colour: Colouring, v: string, c: nat) returns (good: bool)
    requires v in graph
    ensures good <==> !Witnessed(graph, colour, v, c)
  {
    good := true;
    var nb := graph[v];
    var j := 0;
    while j < |nb|
      invariant 0 <= j <= |nb|
      invariant forall k :: 0 <= k < j ==> !(nb[k] in colour && colour[nb[k]] == c)
    {
      if nb[j] in colour && colour[nb[j]] == c {
        good := false;
        break;
      }
      j := j + 1;
    }
  }

  /** Colouring one more vertex keeps every witness. */
  lemma WitnessesKept(graph: Graph, colour: Colouring, v: string, c: nat)
    requires v !in colour
    ensures forall w, c': nat :: Witnessed(graph, colour, w, c') ==> Witnessed(graph, colour[v := c], w, c')
  {
    forall w, c': nat | Witnessed(graph, colour, w, c') ensures Witnessed(graph, colour[v := c], w, c') {
      var k :| 0 <= k < |graph[w]| && graph[w][k] in colour && colour[graph[w][k]] == c';
      assert graph[w][k] != v;
    }
  }

  /** Giving `v` a colour none of its neighbours has keeps the colouring proper. */
  lemma ColourKeepsProper(graph: Graph, verts: seq<string>, colour: Colouring, v: string, c: nat)
    requires IsGraph(graph, verts) && v in graph && v !in colour
    requires Proper(graph, colour) && !Witnessed(graph, colour, v, c)
    ensures Proper(graph, colour[v := c])
  {
    var colour' := colour[v := c];
    forall x, y | x in colour' && x in graph && y in colour' && y in graph[x] ensures colour'[x] != colour'[y] {
      if x == v {
        var k :| 0 <= k < |graph[v]| && graph[v][k] == y;
      } else if y == v {
        assert Adjacent(graph, x, v);
        var k :| 0 <= k < |graph[v]| && graph[v][k] == x;
      }
    }
  }

  /** One colouring step of a pass keeps the invariant. */
  lemma ColourOne(graph: Graph, verts: seq<string>, colour: Colouring, v: string, c: nat)
    requires IsGraph(graph, verts) && Invariant(graph, colour, c)
    requires v in graph && v !in colour && !Witnessed(graph, colour, v, c)
    ensures Invariant(graph, colour[v := c], c)
    ensures forall w, c': nat :: Witnessed(graph, colour, w, c') ==> Witnessed(graph, colour[v := c], w, c')
  {
    ColourKeepsProper(graph, verts, colour, v, c);
    WitnessesKept(graph, colour, v, c);
    var colour' := colour[v := c];
    forall w, c': nat | w in colour' && c' < colour'[w] ensures Witnessed(graph, colour', w, c') {
      assert Witnessed(graph, colour, w, c');
    }
    forall w, c': nat | w in graph && w !in colour' && c' < c ensures Witnessed(graph, colour', w, c') {
      assert Witnessed(graph, colour, w, c');
    }
  }

  /** After a pass, every vertex still uncoloured has a neighbour of the pass's colour. */
  lemma NextColour(graph: Graph, colour: Colouring, c: nat)
    requires Invariant(graph, colour, c)
    requires forall v :: v in graph && v !in colour ==> Witnessed(graph, colour, v, c)
    ensures Invariant(graph, colour, c + 1)
  {
  }

  /** `colour'` keeps every colour of `colour`. */
  ghost predicate Extends(colour: Colouring, colour': Colouring) {
    colour.Keys <= colour'.Keys && forall v :: v in colour ==> colour'[v] == colour[v]
  }

  /**
   * What a pass has achieved after visiting `verts[..i]`: every vertex
   * visited and still uncoloured has a neighbour of colour `c`; nothing is
   * coloured in the pass unless a vertex uncoloured at its start has been
   * visited, and then something is.
   */
  ghost predicate Progress(graph: Graph, verts: seq<string>, colour: Colouring, colour': Colouring, c: nat, i: nat) {
    i <= |verts| &&
    (forall k :: 0 <= k < i && verts[k] !in colour' ==> Witnessed(graph, colour', verts[k], c)) &&
    ((forall k :: 0 <= k < i ==> verts[k] in colour) ==> colour' == colour) &&
    ((exists k :: 0 <= k < i && verts[k] !in colour) ==> |colour'.Keys| > |colour.Keys|)
  }

  /** A colour above all colours in use is on no neighbour. */
  lemma NoWitnessBelow(graph: Graph, colour: Colouring, v: string, c: nat)
    requires forall w :: w in colour ==> colour[w] < c
    ensures !Witnessed(graph, colour, v, c)
  {
  }

  /** Visiting a vertex that is coloured already, or that has a neighbour of colour `c`, changes nothing. */
  lemma VisitSkip(graph: Graph, verts: seq<string>, colour: Colouring, colour': Colouring, c: nat, i: nat)
    requires Progress(graph, verts, colour, colour', c, i) && i < |verts|
    requires forall v :: v in colour ==> colour[v] < c
    requires verts[i] in colour' || Witnessed(graph, colour', verts[i], c)
    ensures Progress(graph, verts, colour, colour', c, i + 1)
  {
    NoWitnessBelow(graph, colour, verts[i], c);
    if verts[i] !in colour && forall k :: 0 <= k < i ==> verts[k] in colour {
      assert false;
    }
  }

  /** Visiting an uncoloured vertex with no neighbour of colour `c` gives it `c`. */
  lemma VisitGood(graph: Graph, verts: seq<string>, colour: Colouring, colour': Colouring, c: nat, i: nat)
    requires Progress(graph, verts, colour, colour', c, i) && i < |verts|
    requires Extends(colour, colour')
    requires verts[i] !in colour'
    ensures Progress(graph, verts, colour, colour'[verts[i] := c], c, i + 1)
  {
    var v := verts[i];
    var colour'' := colour'[v := c];
    assert |colour''.Keys| == |colour'.Keys| + 1;
    WitnessesKept(graph, colour', v, c);
    forall k | 0 <= k < i + 1 && verts[k] !in colour'' ensures Witnessed(graph, colour'', verts[k], c) {
      assert Witnessed(graph, colour', verts[k], c);
    }
    if colour'' != colour' {
      assert exists k :: 0 <= k < i + 1 && verts[k] !in colour;
    }
  }

  /** The body of a pass: visits `verts[i]` and colours it `c` when it is uncoloured and `good`. */
  method Visit(graph: Graph, verts: seq<string>, colour: Colouring, c: nat, i: nat, cur: Colouring, toColor: int)
    returns (next: Colouring, toColor': int)
    requires IsGraph(graph, verts) && i < |verts|
    requires forall v :: v in colour ==> colour[v] < c
    requires Invariant(graph, cur, c) && Extends(colour, cur) && Progress(graph, verts, colour, cur, c, i)
    requires toColor == |verts| - |cur.Keys|
    ensures Invariant(graph, next, c) && Extends(colour, next) && Progress(graph, verts, colour, next, c, i + 1)
    ensures toColor' == |verts| - |next.Keys|
  {
    next, toColor' := cur, toColor;
    var v := verts[i];
    if v !in next {
      var good := Good(graph, next, v, c);
      if good {
        ColourOne(graph, verts, next, v, c);
        VisitGood(graph, verts, colour, next, c, i);
        next := next[v := c];
        toColor' := toColor' - 1;
      } else {
        VisitSkip(graph, verts, colour, next, c, i);
      }
    } else {
      VisitSkip(graph, verts, colour, next, c, i);
    }
  }

  /** At the end of a pass the next colour may start, and the pass coloured something if anything was left. */
  lemma PassEnd(graph: Graph, verts: seq<string>, colour: Colouring, colour': Colouring, c: nat)
    requires IsGraph(graph, verts) && Invariant(graph, colour', c)
    requires Progress(graph, verts, colour, colour', c, |verts|)
    ensures Invariant(graph, colour', c + 1)
    ensures colour.Keys != graph.Keys ==> |colour'.Keys| > |colour.Keys|
  {
    forall v | v in graph && v !in colour' ensures Witnessed(graph, colour', v, c) {
      var k :| 0 <= k < |verts| && verts[k] == v;
    }
    NextColour(graph, colour', c);
    if colour.Keys != graph.Keys {
      var v :| v in graph && v !in colour;
      var k :| 0 <= k < |verts| && verts[k] == v;
    }
  }

  /**
   * One pass of the `while (toColor > 0)` loop: colour `c` goes to every
   * uncoloured vertex, in the order of `verts`, that has no neighbour of
   * colour `c` at that moment.
   */
  method Pass(graph: Graph, verts: seq<string>, colour: Colouring, c: nat, toColor: int)
    returns (colour': Colouring, toColor': int)
    requires IsGraph(graph, verts) && Invariant(graph, colour, c)
    requires forall v :: v in colour ==> colour[v] < c
    requires toColor == |verts| - |colour.Keys|
    ensures Invariant(graph, colour', c + 1)
    ensures forall v :: v in colour' ==> colour'[v] <= c
    ensures Extends(colour, colour')
    ensures toColor' == |verts| - |colour'.Keys|
    ensures colour.Keys != graph.Keys ==> |colour'.Keys| > |colour.Keys|
  {
    colour' := colour;
    toColor' := toColor;
    for i := 0 to |verts|
      invariant Invariant(graph, colour', c)
      invariant Extends(colour, colour')
      invariant Progress(graph, verts, colour, colour', c, i)
      invariant toColor' == |verts| - |colour'.Keys|
    {
      colour', toColor' := Visit(graph, verts, colour, c, i, colour', toColor');
    }
    PassEnd(graph, verts, colour, colour', c);
  }

  /** The colours a set of vertices carries are no more than the vertices. */
  lemma {:induction false} ImageCard(s: set<string>, colour: Colouring)
    ensures |set y | y in s && y in colour :: colour[y]| <= |s|
    decreases |s|
  {
    if s != {} {
      var x :| x in s;
      var s' := s - {x};
      ImageCard(s', colour);
      var img := set y | y in s && y in colour :: colour[y];
      var img' := set y | y in s' && y in colour :: colour[y];
      assert img <= img' + (if x in colour then {colour[x]} else {});
      SubsetCard(img, img' + (if x in colour then {colour[x]} else {}));
    }
  }

  /** A vertex whose every smaller colour is on a neighbour has a colour no larger than its degree. */
  lemma WitnessBound(graph: Graph, colour: Colouring, v: string)
    requires v in graph && v in colour && NoDups(graph[v])
    requires forall c': nat :: c' < colour[v] ==> Witnessed(graph, colour, v, c')
    ensures colour[v] <= |graph[v]|
  {
    var img := set y | y in Elems(graph[v]) && y in colour :: colour[y];
    forall c': nat | c' < colour[v] ensures c' in img {
      assert Witnessed(graph, colour, v, c');
      var k :| 0 <= k < |graph[v]| && graph[v][k] in colour && colour[graph[v][k]] == c';
      assert graph[v][k] in Elems(graph[v]);
    }
    assert Range(colour[v]) <= img;
    SubsetCard(Range(colour[v]), img);
    ImageCard(Elems(graph[v]), colour);
    NoDupsCard(graph[v]);
  }

  /** Subsets whose sizes agree are equal. */
  lemma SubsetSameCard(a: set<string>, b: set<string>)
    requires a <= b && |a| == |b|
    ensures a == b
  {
    if a != b {
      var x :| x in b && x !in a;
      SubsetCard(a, b - {x});
    }
  }

  /**
   * The Welsh–Powell loop. It ends with every vertex coloured, adjacent
   * vertices apart, and every colour at most the degree of its vertex,
   * so no larger than the largest degree.
   */
  method Colour(graph: Graph, verts: seq<string>) returns (colour: Colouring)
    requires IsGraph(graph, verts)
    ensures colour.Keys == graph.Keys
    ensures Proper(graph, colour)
    ensures forall v :: v in colour ==> colour[v] <= |graph[v]|
  {
    var toColor := |verts|;
    var nextColor := 0;
    colour := map[];
    NoDupsCard(verts);
    while toColor > 0
      invariant Invariant(graph, colour, nextColor)
      invariant forall v :: v in colour ==> colour[v] < nextColor
      invariant toColor == |verts| - |colour.Keys|
      decreases toColor
    {
      colour, toColor := Pass(graph, verts, colour, nextColor, toColor);
      nextColor := nextColor + 1;
    }
    SubsetCard(colour.Keys, graph.Keys);
    SubsetSameCard(colour.Keys, graph.Keys);
    forall v | v in colour ensures colour[v] <= |graph[v]| {
      WitnessBound(graph, colour, v);
    }
  }

  /** What the two building loops and the sort leave is a graph the colouring accepts. */
  lemma BuiltIsGraph(code: seq<Instr>, graph: Graph, verts: seq<string>)
    requires NoDups(verts) && graph.Keys == Elems(verts) && graph.Keys == Elems(AllOut(code))
    requires forall x :: x in graph ==> Elems(graph[x]) == Neighbours(code, x) && NoDups(graph[x])
    ensures IsGraph(graph, verts)
  {
    forall x, y | Adjacent(graph, x, y) ensures Adjacent(graph, y, x) {
      NeighboursMeans(code, x, y);
    }
    forall x | x in graph ensures x !in graph[x] && Elems(graph[x]) <= graph.Keys {
      NeighboursMeans(code, x, x);
      forall y | y in Elems(graph[x]) ensures y in graph {
        NeighboursMeans(code, x, y);
      }
    }
  }

  /**
   * env.interferenceGraph: the vertices are exactly the names live on exit
   * from some instruction, each adjacency list holds the interfering names
   * once each, every vertex is coloured, adjacent vertices differ and no
   * colour exceeds the vertex's degree.
   */
  method InterferenceGraph(code: seq<Instr>) returns (graph: Graph, colour: Colouring)
    ensures graph.Keys == Elems(AllOut(code))
    ensures forall x :: x in graph ==> Elems(graph[x]) == Neighbours(code, x) && NoDups(graph[x])
    ensures colour.Keys == graph.Keys
    ensures Proper(graph, colour)
    ensures forall v :: v in colour ==> colour[v] <= |graph[v]|
  {
    var verts;
    graph, verts := Vertices(code);
    graph := Edges(code, graph);
    var sorted := SortByDegree(graph, verts);
    PermutationKeeps(verts, sorted);
    BuiltIsGraph(code, graph, sorted);
    colour := Colour(graph, sorted);
  }
}
