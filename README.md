# A verified model of a toy compiler's middle-end

The repository is a teaching site for a small imperative language. Programs
are parsed into a syntax tree, checked, constant-folded, lowered to an
intermediate form (IMF), analysed and optimised, and run on a small virtual
machine. This project models that middle-end in Dafny and proves what each
stage promises:

- **Ast** (`ast.dfy`) holds the operator semantics (`binop`, `unop`) on
  unbounded integers, the syntax-tree datatype and a reference evaluator
  `Eval`.
- **AstCheck** (`ast_check.dfy`) is the semantic checker: scopes are lists
  of defined names, copied into loop bodies and branches; arity and
  duplicate-parameter checks come first; every error is reported in the
  source's order. The call-head lookup is the corrected one (only declared
  functions are callable); the lookup as written is modelled beside it.
- **AstPrune** (`ast_prune.dfy`) is the tree constant folder `pruneAST`.
  It covers literal folding, the `*`/`+` identities, cancelling double
  unary operators, and the associative "lift" rule.
- **ListSet**, **ReachingDefs**, **LiveVars** and **Interference** model
  the dataflow engine. These are the list-as-set helpers, the two
  fixed-point analyses run as `do … while (change)` loops over an
  instruction array, and the interference graph with its Welsh–Powell
  colouring.
- **Prune**, **Passes** and **Rename** are the IMF optimiser passes.
  `prune` does reachability plus "reaches a `ret`" and dense relabelling.
  The three "bypass" passes redirect edges. The other two passes are
  dead-store removal and register renaming.
- **ImfGen** (`imf_gen.dfy`) is the register-code generator of the IMF
  viewer. It is a `Generator` class whose `code` and `nextLabel` fields
  the methods update as the source's shared array and counter are updated.
- **Vm** (`vm.dfy`) is the interpreter: `VM.call` and the `execute` loop.
  Calls and loop iterations consume a `fuel` bound.

Instruction maps keyed `0..n-1` are sequences. A copy made with
`$.extend(true, …)` is a value, so "no pass mutates its argument" holds by
construction. The two analyses write into an `array<Instr>` and change
only the `rd` or `lv` field of each element. The generator is a class with
`modifies this`. Where the source computes a result with loops, the model
has a method with loop invariants, proved equal to a specification
function, and the properties are lemmas about that function.

Behaviours of the code worth knowing:
- the IMF label counter is reset once per program (script/imf.js:239),
  so labels never repeat between the functions of one program;
- `pruneAST` is not idempotent (`AstPrune.PruneNotIdempotent`);
- the `==` lift and `!!x → x` change values
  (`AstPrune.EqLiftChangesValue`, `AstPrune.DoubleNotChangesValue`).

## Model

| member | source | states |
|---|---|---|
| Ast.BinOpValue | app/script/ast.js:19-49 | The result is undefined exactly for `/` or `%` by zero and for `^` with a negative exponent on a base other than 1 and -1. A negative exponent gives 1 on base 1, and ±1 on base -1 by the exponent's parity. Comparisons and logical operators give only 0 or 1. `&&` and `\|\|` give 1 exactly when both or either operand is nonzero. |
| Ast.UnOpValue | app/script/ast.js:55-64 | `!v` is 0 or 1, and 1 exactly when `v` is 0. `-v` is the negation of `v`, and `~v` is `-v-1`, negative exactly when `v` is not. |
| Ast.FloorDiv | app/script/ast.js:43-44 | The quotient is `Math.floor(l / r)`: `q*r <= l < q*r + r` for positive `r`, and the mirror image for negative `r`. |
| Ast.TruncMod | app/script/ast.js:45-46 | The remainder has the sign of the dividend and is smaller than the divisor in magnitude. Together with the truncated quotient it rebuilds `l`. |
| Ast.UnOpInvolutive | app/script/ast.js:57-62 | Applying `-` twice, or `~` twice, gives back the operand. |
| AstCheck.Check | app/script/ast.js:528-605 | With the corrected call-head lookup (only names in the arity table), a successful check only extends the scope list. Its names are the old ones plus exactly the names the statement defines. |
| AstCheck.CheckAll | app/script/ast.js:535-537 | Checking a statement list in order extends the scope by exactly the names the list defines. |
| AstCheck.ExprScope | app/script/ast.js:589-601 | An expression passes exactly when every variable it reads is in scope and every call passes its head checks. It defines nothing. |
| AstCheck.AssignReadsBeforeDefining | app/script/ast.js:550-555 | `x = e` fails when `e` reads `x` and `x` is not yet defined, because the right-hand side is checked before `x` is added. |
| AstCheck.WhileIsScoped | app/script/ast.js:542-549 | A `while` passes exactly when its condition and its body pass in the enclosing scope. Names its body defines are not visible afterwards. |
| AstCheck.IfBranchesAreIndependent | app/script/ast.js:556-568 | An `if` passes exactly when the condition and each branch pass in the enclosing scope. The scope afterwards is the one before. |
| AstCheck.DefinedInBothBranchesIsUndefinedAfter | app/script/ast.js:556-568 | A name assigned in both branches of an `if` is still undefined after it, and reading it fails with 'Undefined variable'. |
| AstCheck.CallCheckedBeforeArguments | app/script/ast.js:569-588 | A call to a name not in the arity table fails with 'Undefined function'. Too few or too many arguments fail with those errors before any argument is checked. Otherwise the result is that of checking the arguments. |
| AstCheck.FirstRepeatNoDups | app/script/ast.js:648-654 | The scan for a repeated parameter finds nothing exactly when the parameter list has no duplicates. |
| AstCheck.AritiesLastWins | app/script/ast.js:647 | The corrected arity table has exactly the declared function names. A name declared twice gets the arity of its last declaration. |
| AstCheck.CheckProgram | app/script/ast.js:633-660 | A non-`prog` root gives 'Invalid program'. A header error (non-`func` entry, or duplicate parameter at its first repeat) is the first one in program order. Bodies are checked only when every header is valid, and then the program passes exactly when every body does; otherwise the first body error is reported. Call heads use the corrected lookup. |
| AstCheck.CheckHeaders | app/script/ast.js:641-655 | The headers loop reports an error exactly when some header is invalid, and then the first one. Otherwise it returns the arity table. |
| AstCheck.CheckBodies | app/script/ast.js:657-659 | The bodies loop passes exactly when every function body checks in an empty scope. Otherwise it reports the first failure. |
| AstCheck.LookupAsWritten | app/script/ast.js:570 | The arity lookup `funcs[name]` as JavaScript runs it: a declared name other than `__proto__` gives its arity. `__proto__` always gives the inherited member, since the store through its setter is dropped. A name is undefined only when neither declared nor inherited from Object.prototype. |
| AstCheck.CallHeadAsWritten | app/script/ast.js:569-583 | The call-head checks as written: a declared name other than `__proto__` passes exactly with the right argument count. An undeclared Object.prototype name, and `__proto__` even when declared, passes with any count. An undefined lookup fails with 'Undefined function'. |
| AstCheck.DeclaredProtoSlipsThrough | app/script/ast.js:570-583 | A declared `__proto__(a)` passes the checks as written with any argument count, none included. The corrected checker reports too few arguments for a call with none. |
| AstCheck.InheritedNameSlipsThrough | app/script/ast.js:570-583 | `toString()` passes the checks as written. The corrected checker rejects it as an undefined function. |
| AstPrune.Prune | app/script/ast.js:668-838 | The folded tree is in normal form and reads no variable the input did not. Programs and functions keep their shape, name, parameters and location. |
| AstPrune.PruneSound | app/script/ast.js:766-834 | For an expression without `==` and `!` that has a value, the folded expression has the same value in that scope. |
| AstPrune.DescendValue | app/script/ast.js:677-727 | Pushing a literal into a same-operator `+` or `*` chain keeps the value of `chain op literal`. |
| AstPrune.LiftValue | app/script/ast.js:729-737 | When the lift rule fires for `+` or `*`, the rewritten tree has the value of the original. |
| AstPrune.EqLiftChangesValue | app/script/ast.js:804-815 | The lift also fires for `==`: `(x==3)==4` becomes `x==0`, and the two differ at `x = 0`. |
| AstPrune.DoubleNotChangesValue | app/script/ast.js:817-831 | `!!x` cancels to `x`, which differs at `x = 5`. |
| AstPrune.PruneNotIdempotent | app/script/ast.js:766-816 | `(x + -2) + 2` folds to `x + 0`, which a second pass folds to `x`. |
| AstPrune.FoldLiterals | app/script/ast.js:771-778 | `(2+3)*4` folds bottom-up to the literal 20. |
| AstPrune.KeepsUndefinedFold | app/script/ast.js:771-778 | `1/0` stays as it is: the model folds only integer results. |
| AstPrune.NegativePowerFolds | app/script/ast.js:771-778 | `1 ^ -1` folds to 1 and `(-1) ^ -3` to -1; `2 ^ -1`, a fraction in JavaScript, stays as it is. |
| AstPrune.LiftAbsorbsLiteral | app/script/ast.js:804-815 | `(x+1)+2` becomes `x+3`. |
| ListSet.Union | script/dataflow.js:18-31 | The result is `a` followed by the elements of `b` missing from `a`. It holds exactly the elements of both lists and has no duplicates when the inputs have none. |
| ListSet.Difference | script/dataflow.js:39-48 | The result is the elements of `a` not in `b`, in order, with no duplicates when `a` has none. |
| ListSet.Compare | script/dataflow.js:56-73 | The answer is true exactly when the lists have the same length and the same elements. |
| ListSet.CompareIsSetEquality | script/dataflow.js:56-73 | On duplicate-free lists, `compare` is set equality. |
| ReachingDefs.GenKillShape | script/dataflow.js:84-103 | Gen and kill sets hold only indices of `str` instructions. A `str` generates itself, and kills every `str` with the same destination. |
| ReachingDefs.GenKill | script/dataflow.js:84-103 | The gen/kill loops compute exactly the reference gen and kill lists. |
| ReachingDefs.Solve | script/dataflow.js:109-148 | The iteration ends with a solution of the equations `enter[i] = ⋃ exit[j]` over the predecessors `j` of `i`, and `exit[i] = (enter[i] − kill[i]) ∪ gen[i]`. It is the least solution. |
| ReachingDefs.RoundKeepsInvariant | script/dataflow.js:109-148 | Each round keeps the iteration below every solution and below `n×n` in total size. It strictly grows the sets when anything changes, so the `do … while (change)` loop ends. It stops only at a solution. |
| ReachingDefs.ReachingDefinitions | script/dataflow.js:80-157 | The analysis changes only each instruction's `rd` field. It stores the least solution of the reaching-definitions equations. |
| ReachingDefs.EnterIsUnionOfPredecessors | script/dataflow.js:112-121 | In a solution, a definition reaches the entry of `i` exactly when it leaves some predecessor of `i`. |
| ReachingDefs.OwnDefinitionReachesExit | script/dataflow.js:125-128 | In a solution, a `str` instruction's own index is in its exit set. |
| ReachingDefs.SolutionIsFixpoint | script/dataflow.js:109-148 | A solution is a fixed point of one round. |
| LiveVars.Traverse | script/dataflow.js:166-184 | The traversal adds exactly the variables an expression reads, through `bin`, `un` and call arguments. It adds no duplicates. |
| LiveVars.ReadsWrites | script/dataflow.js:187-202 | The loop computes each instruction's reads (the variables of its expression) and writes (`{dest}` for `str`). |
| LiveVars.Solve | script/dataflow.js:208-244 | The iteration ends with a solution of `exit[i] = ⋃ enter[s]` over the successors `s` of `i`, and `enter[i] = (exit[i] − writes[i]) ∪ reads[i]`. It is the least solution. |
| LiveVars.RoundKeepsInvariant | script/dataflow.js:208-244 | Each round keeps the iteration below every solution and bounded. It grows strictly when anything changes and stops only at a solution. |
| LiveVars.LiveVariables | script/dataflow.js:163-253 | The analysis changes only each instruction's `lv` field. It stores the least solution of the live-variables equations. |
| LiveVars.ExitIsUnionOfSuccessors | script/dataflow.js:212-218 | In a solution, a variable is live on exit from `i` exactly when it is live on entry to a successor. |
| LiveVars.ReadIsLive | script/dataflow.js:221-225 | In a solution, every variable an instruction reads is live on its entry. A `str`'s destination is live on entry only when the instruction itself reads it. |
| Interference.NeighboursMeans | script/dataflow.js:365-379 | Two names are adjacent exactly when they are distinct and appear together in some live-out set. The graph is symmetric, has no self-loops, and its vertices all appear in a live-out set. |
| Interference.Vertices | script/dataflow.js:351-361 | The vertex list is the names of all live-out sets, first occurrences in order. Each starts with an empty neighbour list. |
| Interference.Edges | script/dataflow.js:365-379 | After the edge loop each vertex's list holds exactly its neighbours, without duplicates. |
| Interference.SortSorted | script/dataflow.js:383-385 | The vertices are sorted by non-increasing degree, as a permutation of the input (`SortByDegree`). |
| Interference.Colour | script/dataflow.js:388-410 | The Welsh–Powell loop ends with every vertex coloured. Adjacent vertices get different colours, and no colour exceeds the vertex's degree. |
| Interference.ColourKeepsProper | script/dataflow.js:395-404 | Giving an uncoloured vertex a colour no neighbour has keeps the colouring proper. |
| Interference.WitnessBound | script/dataflow.js:388-410 | A vertex that received colour `c` has a neighbour of each smaller colour, so `c` is at most its degree. |
| Interference.InterferenceGraph | script/dataflow.js:347-416 | The graph has exactly the live-out names as vertices and exactly the interference edges. Its colouring is proper and bounded by the degrees. |
| Prune.Visit | script/optimizer.js:18-24 | The walk from `i` adds only nodes reachable from `i` and leaves no successor of a new node unvisited. It fails only after reaching an index that is not an instruction, where the source throws. |
| Prune.SideEffectsOf | script/optimizer.js:30-57 | For a reachable node, `hasSideEffects` with a fresh `loop` map is true exactly when some path from the node reaches a `ret`. |
| Prune.Prune | script/optimizer.js:14-91 | The method computes the specification `PruneSpec`. It fails exactly when an out-of-range index is reachable from 0. |
| Prune.PruneShape | script/optimizer.js:52-88 | The kept instructions are exactly those reachable from 0 that reach a `ret`, in ascending order, numbered densely. Each is otherwise unchanged. Edges and `rd` sets are exactly the surviving originals, renumbered. |
| Prune.PruneIdempotent | script/optimizer.js:14-91 | Pruning a nonempty result of `prune` gives it back unchanged. |
| Passes.RedirectMeans | script/optimizer.js:207-215 | Redirecting changes only `next` lists, keeps their lengths, and replaces exactly the links to `from` by links to `to`. |
| Passes.BypassedAreRemoved | script/optimizer.js:271-290 | After a pass's sweep, every instruction that the final `prune` keeps, apart from instruction 0, no longer qualifies for bypassing. |
| Passes.SelfLoopIsDead | script/optimizer.js:201-222 | A bypass candidate whose single successor is itself cannot reach a `ret`. |
| Passes.OptimiseRenamed | script/optimizer.js:197-223 | The pass equals prune after sweeping the self-assignments `x = x` with one successor in key order. |
| Passes.MergeLabels | script/optimizer.js:230-260 | The pass equals prune after sweeping the labels whose single successor is a label. |
| Passes.RemoveJumps | script/optimizer.js:267-291 | The pass equals prune after sweeping the `jmp` instructions with one successor. |
| Passes.RemoveDeadVars | script/optimizer.js:99-128 | The pass equals prune of the survivors: every `str` whose destination is not in its own live-out set is deleted, and links are fixed. |
| Passes.SurvivorsMeans | script/optimizer.js:103-125 | The survivors are exactly the non-dead instructions, in order and otherwise unchanged. A link to a surviving instruction still points to it at its new index. |
| Passes.RetargetMeans | script/optimizer.js:115-125 | Every link of a survivor moves to the first surviving instruction whose old index is at least the old target. When there is none, the link keeps its old value. |
| Passes.NoDeadStoreLeft | script/optimizer.js:103-127 | No instruction in the result of `removeDeadVars` is a dead store. |
| Rename.RenameVariables | script/optimizer.js:136-190 | Each instruction is renamed key by key in the colour map's order, as the nested loops do (`RenameInOrder`). |
| Rename.InOrderFrames | script/optimizer.js:167-187 | The sequential renaming changes only expressions and store targets: opcode, successors and analysis facts stay, and only a `str` can change its target. |
| Rename.InOrderAgrees | script/optimizer.js:167-187 | When no colour key looks like a register name `a<n>`, the sequential renaming equals renaming every name at once. |
| Rename.Renamed | script/optimizer.js:167-187 | The intended renaming: only expressions and `str` destinations change, and a `str` destination becomes its new name. |
| Rename.RenameAllEval | script/optimizer.js:145-165 | Renaming every variable at once keeps an expression's value in any scope that holds each renamed variable's value. |
| Rename.InterferingStayApart | script/optimizer.js:172 | Under a proper colouring, two interfering variables get different register names. |
| Rename.InOrderMergesRegisters | script/optimizer.js:167-187 | With colours `x ↦ 0`, `a0 ↦ 1`, the sequential renaming turns `x + a0` into `a1 + a1`. |
| Rename.RenameAllKeepsApart | script/optimizer.js:167-187 | Renaming all at once turns the same `x + a0` into `a0 + a1`. |
| ImfGen.RenderInjective | script/imf.js:116-149 | Different instructions render to different lines, so the listing determines the code. |
| ImfGen.ExprCodeComputes | script/imf.js:155-179 | For a `num`/`var`/`bin` tree, the emitted code leaves the expression's value in `@r` and keeps every register below `@r`. It stops exactly when the value is undefined. |
| ImfGen.StmtLabels | script/imf.js:193-216 | A statement's code defines each fresh label once, numbers them from the counter up to its new value, and jumps only to labels it defines. |
| ImfGen.BlockLabels | script/imf.js:202-213 | The same label discipline holds for a statement list. |
| ImfGen.FuncLabels | script/imf.js:224-231 | The same label discipline holds for a function's code. |
| ImfGen.ProgramLabels | script/imf.js:236-267 | Across a whole program, labels are fresh within each function and disjoint between functions. They lie between the counter's start and end. |
| ImfGen.Generator.GenerateExpr | script/imf.js:155-179 | Appends exactly the expression's code in post order. It returns the result register and leaves the counter alone. |
| ImfGen.Generator.GenerateStatement | script/imf.js:184-219 | Appends exactly the statement's code and advances the counter as the specification does. |
| ImfGen.Generator.GenerateIf | script/imf.js:193-216 | Appends condition, `cjmp @0, L<n+1>`, false branch, `jmp L<n>`, `lbl L<n+1>`, true branch, `lbl L<n>`. It takes two labels from the counter, then those of the branches. |
| ImfGen.Generator.GenerateBlock | script/imf.js:202-205 | Appends each statement's code in turn, threading the counter. |
| ImfGen.Generator.GenerateFunc | script/imf.js:224-231 | Appends `lbl f_<name>` and then the body's code. |
| ImfGen.Generator.RenderLines | script/imf.js:259-261 | The lines are the instructions rendered one by one. |
| ImfGen.Generator.UpdateImf | script/imf.js:236-267 | Each tab holds its function's name and that function's rendered code, and the code comes from one counter started at 0. The counter ends at the program's total. |
| Vm.BindMeans | app/script/interpreter.js:32-35 | The initial scope binds exactly the parameters. With distinct parameters, each holds its argument. |
| Vm.EvalMatchesReference | app/script/interpreter.js:53-100 | Without calls, `evalExpr` computes the reference value that `binop`/`unop` give. It fails exactly when that value is not an integer. |
| Vm.JumpFreeRuns | app/script/interpreter.js:104-130 | On code of labels, stores and returns, with enough fuel, the loop returns exactly the result of executing the stores in order on the reference semantics. It never runs out of fuel. |
| Vm.CallFuel | app/script/interpreter.js:20-38 | A call that did not run out of fuel gives the same outcome with more fuel. |
| Vm.RunFuel | app/script/interpreter.js:104-130 | A run that did not run out of fuel gives the same outcome with more fuel. |
| Vm.EvalFuel | app/script/interpreter.js:46-102 | An evaluation that did not run out of fuel gives the same outcome with more fuel. |
| Vm.Call | app/script/interpreter.js:20-38 | `VM.call` computes the specification `CallFn`. An undefined name, a name inherited from Object.prototype, a missing parameter list or a count mismatch each give their error. Otherwise it binds the parameters in order and runs the code. |
| Vm.Execute | app/script/interpreter.js:43-131 | The `while (true)` loop computes the specification `Run`. `jmp` goes to `next[0]`. `cjmp` goes to `next[1]` on nonzero and falls through otherwise, and `njmp` does the reverse. `str` updates one variable and `ret` returns. |

## Left out

- The DOM, canvas, Ace editor, tabs and worker transport are not modelled. UpdateImf returns the tabs as values.
- The parser (script/mini.js) is only the source of the tree datatype. `env.availableExp` is not modelled: it stores and returns nothing.
- The IR generator that feeds the dataflow passes and the VM (`env.genIMF`) is not part of this model; `Ir.Instr` is defined from how the passes use it.
- Numbers are unbounded integers. Where JavaScript's result is not an integer, `Ast.BinOpValue` is `None`: `x/0` is an infinity (NaN for `0/0`), `x%0` is NaN, and `x^n` with `n < 0` is a fraction for `|x| >= 2` and an infinity for `x = 0`. Bases 1 and -1 give integers and are modelled.
- Ast.UnOpValue: `~v` is `-v-1`. This agrees with JavaScript only on the 32-bit range.
- AstPrune.Prune: folds two literals only when the result is an integer. The source also folds to an infinity, NaN or a fraction (`1/0`, `2^-1`). The `oexpr` shadow trees and the in-place updates of the input node are not modelled; the result is a new value.
- AstPrune.PruneSound: stated for expressions without `==` and `!`, since the `==` lift and `!!x → x` change values; counterexamples are proved.
- Vm.Execute: a non-integer value (an infinity, NaN or a fraction) stops the run with `NotInteger`. JavaScript would go on computing with it. The order of errors after such a value is not modelled.
- Vm.Execute: every call and loop iteration consumes one unit of fuel. A program that loops forever ends in `OutOfFuel` instead of hanging. CallFuel and RunFuel show that other outcomes do not depend on the bound.
- Vm: a variable named after an Object.prototype member (`toString`) reads as 0 here; JavaScript would read a function. A store to a variable named `__proto__` (app/script/interpreter.js:34, :114) is an ordinary binding here; JavaScript's `__proto__` setter drops a number, so the variable keeps reading the prototype.
- AstCheck.Check / AstCheck.CheckProgram: a call head is looked up with the corrected rule (the name must be in the arity table). The source's `funcs[name] === undefined` also accepts names inherited from Object.prototype, so `func f() { return toString(); }` passes checkAST but fails CheckProgram. The lookup as written is modelled only at the call head (AstCheck.LookupAsWritten, AstCheck.CallHeadAsWritten); see Findings.
- AstCheck.AritiesLastWins: states the corrected arity table. In the source `arities[f.name] = f.args.length` (app/script/ast.js:647) has no effect for a function named `__proto__`, whose setter ignores a number. Only AstCheck.LookupAsWritten models that.
- AstCheck.CheckHeaders: positions are kept only on function, call and variable nodes. A program entry of another kind reports 'Invalid function' without a position, where the source reports that node's own `loc`. The parser never produces such an entry.
- Interference.Vertices / Interference.InterferenceGraph: the source keeps `graph` and `colour` in plain objects. A live-out name that is an Object.prototype member (`toString`) fails the `!graph[vert]` test (script/dataflow.js:355) and never becomes a vertex. The edge loop then throws at `graph[x].indexOf` (script/dataflow.js:371) when that name shares an out set with another. A vertex named `hasOwnProperty` breaks `colour.hasOwnProperty` (script/dataflow.js:392). The model treats every name as an ordinary vertex. The same holds for a colour-map key named `hasOwnProperty` in Rename.RenameVariables.
- ImfGen.ExprCodeComputes: the register semantics (`Exec`) is this model's own reading of the IMF. The viewer's code is only displayed, never run.
- ImfGen.Generator.GenerateExpr: emits nothing and returns register 0 for unary operators and calls, as the source does; no property is stated for such trees.
- ImfGen.Generator.UpdateImf: requires every program entry to be a function node, as the parser produces; the source would throw on another node.
- ImfGen: numbers in rendered lines use plain decimal. JavaScript's exponent form for magnitudes of 10^21 and above is not modelled.
- LiveVars.LiveVariables: requires every successor index to be in range. The source throws a type error there.
- Interference.SortSorted: the model sorts by degree with an insertion sort. The order JavaScript's `sort` gives to equal degrees is not modelled; the colouring is proved for any vertex order.
- Rename.RenameVariables: the order in which `for … in` visits the colour map's keys is a parameter. InOrderAgrees needs the keys not to look like register names.
- Prune.PruneIdempotent: stated for a nonempty result only. An empty result has no instruction 0, and the source would throw on it.

## Findings

| source | as written | input that shows it | evidently intended | confidence | as-written member | corrected member |
|---|---|---|---|---|---|---|
| app/script/ast.js:570 | `funcs[node.name] === undefined` looks the name up on a plain object, so inherited names such as `toString` count as declared | a program calling `toString()` with no such function passes the checker | only functions the program declares are callable | not executed | AstCheck.InheritedNameSlipsThrough | AstCheck.Check |
| script/optimizer.js:167-187 | names are renamed one colour key at a time, so a register name produced for one key is renamed again by a later key equal to it | colours `x ↦ 0`, `a0 ↦ 1`: `x + a0` becomes `a1 + a1` | every variable renamed once, simultaneously | not executed | Rename.InOrderMergesRegisters | Rename.Renamed |
