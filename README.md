# Regular expression to NFA (Thompson's construction), modelled in Dafny

The program reads a regular expression over single characters. `(`, `)`, `|`, `*` and `+`
are operators, juxtaposition means concatenation and the letter `e` stands for ε. It builds a
nondeterministic finite automaton with Thompson's construction (`NFAConstructor.BuildNFA`).
It then numbers the states reachable from the start state in depth-first order
(`ConvertToTransitionList` / `TraverseState`). Finally it writes a transition table: one row per
label, with one cell per state id listing the destinations as `q<id>` names joined by commas,
plus one final flag per id. A separate `RegexParser.ToPostfix` converts an infix expression to
postfix with a shunting-yard pass.

The model follows the program's own structure:

- `graph.dfy` (modules `Options`, `Graph`):
  - A state object is an index into an arena `seq<State>`.
  - A state holds an id (-1 until numbered), a final flag and an insertion-ordered list of
    (label, destination list) pairs, which is what the program's dictionary enumerates.
  - `WithTransition` and `AddEdge` are `State.AddTransition`.
- `thompson.dfy` (module `Thompson`):
  - The five primitives are pure functions on arenas: `SymbolOp`, `ConcatOp`, `UnionOp`,
    `StarOp` and `PlusOp`.
  - `Build` is Thompson's construction of a parse tree `Re`. It allocates states in the order
    the program does.
  - The lemmas prove that every built fragment is a self-contained segment of the arena.
- `evaluator.dfy` (module `Evaluator`):
  - The scan of `BuildNFA` and `OperatorsHandler` is run on parse trees instead of fragments.
    It makes the same pushes, pops and reductions.
  - `Parse(regex)` is the tree whose automaton the program returns. `None` stands for the inputs
    on which the program pops or peeks an empty stack.
- `table.dfy` (module `Table`): the transition table, the `q<id>` cell text and the way a cell is
  read back.
- `traversal.dfy` (module `Traversal`): the invariant of the depth-first numbering walk and its
  lemmas, and `DfsOrder`, the walk as a pure function: which state gets which id and which
  label gets which row.
- `constructor.dfy` (module `Construction`):
  - The class `NFAConstructor` has the fields `states`, `stateCounter`, `currentStateId` and
    `outputFinalStates`.
  - Every method of the program is a method here that updates those fields in place.
  - The construction methods (`CreateSymbolNFA` up to `BuildNFA`) are proved to have exactly
    the effect of the pure definitions in `Thompson` and `Evaluator`.
  - The numbering methods (`ConvertToTransitionList` and the methods of its walk) are proved to
    keep the walk invariant of `Traversal`. Their ids and rows are proved to follow
    `Traversal.DfsOrder`, a pure depth-first walk in registration order.
  - `Translate` is `Main` without its file input and output.
- `postfix.dfy` (module `RegexParser`):
  - `ToPostfix` is a method with the program's loops.
  - It is proved equal to the pass function `Postfix`, and the properties are proved about
    `Postfix`.

Behaviour kept as the code has it:

- The literal `e` becomes ε.
- `BuildNFA` reduces `.` and `|` in last-in-first-out order with no precedence comparison, so
  `ab|c` is `a(b|c)`. Its precedence table only decides which characters are operators; `.` is
  not among them and is read as a literal.
- `ToPostfix` pushes `.` only after a letter or digit that is followed by a letter, a digit or
  `(`.
- An unclosed `(` is copied to the output of `ToPostfix`.
- An unknown operator character fails in `ToPostfix` only when it is compared with a stacked
  operator.

## Model

| member | source | states |
|---|---|---|
| Graph.WithTransitionTargets | lab5/Program.cs:15-22 | adding an edge appends its destination at the end of that label's list; every other label's list is unchanged |
| Graph.WithTransitionLabels | lab5/Program.cs:17-20 | a label gets a new (empty, then filled) entry exactly when it was absent, placed after the existing labels; otherwise the label order is unchanged |
| Graph.WithTransitionTargetSet | lab5/Program.cs:15-22 | the set of destinations grows by exactly the new destination |
| Graph.WithTransitionDistinct | lab5/Program.cs:17-20 | no label ever has two entries |
| Graph.AddEdgeWellFormed | lab5/Program.cs:15-22 | adding an edge between existing states keeps every edge inside the arena |
| Graph.AppendWellFormed | lab5/Program.cs:42-46 | appending two fresh states keeps the arena well formed |
| Thompson.SymbolOp | lab5/Program.cs:53-64 | two states appended, only the end final, one edge from start to end labelled c, or ε for `e`; the old states are unchanged |
| Thompson.ConcatOp | lab5/Program.cs:66-71 | no state allocated; only first.end changes: it loses its final flag and gains one ε-edge to second.start; the result runs from first.start to second.end |
| Thompson.UnionOp | lab5/Program.cs:73-85 | two states appended; the new start has ε-edges to both starts in that order; both old ends lose their flag and gain an ε-edge to the new final end; nothing else changes |
| Thompson.StarOp | lab5/Program.cs:87-98 | two states appended; start has ε-edges to the old start and to the new end; the old end loses its flag and gains ε-edges back to the old start and on to the new end, in that order |
| Thompson.PlusOp | lab5/Program.cs:100-110 | as Star without the start→end ε-edge |
| Thompson.Build | lab5/Program.cs:112-197 | building a tree appends exactly `StateCount` states and changes none of the states that existed before |
| Thompson.SymbolSegment | lab5/Program.cs:53-64 | a symbol fragment is a segment: edges stay inside it and never enter its start, its end is its only final state and has no edge, and no state is numbered |
| Thompson.ConcatSegment | lab5/Program.cs:66-71 | concatenating two adjacent segments gives one segment |
| Thompson.UnionSegment | lab5/Program.cs:73-85 | the union of two adjacent segments plus the two new states is one segment |
| Thompson.StarSegment | lab5/Program.cs:87-98 | a starred segment plus the two new states is one segment |
| Thompson.PlusSegment | lab5/Program.cs:100-110 | a plus segment plus the two new states is one segment |
| Thompson.BuildSegment | lab5/Program.cs:112-197 | every automaton `BuildNFA` builds occupies exactly its new states as one segment |
| Thompson.BuildWellFormed | lab5/Program.cs:112-197 | building keeps every edge inside the arena and labels distinct per state |
| Thompson.BuildSingleFinal | lab5/Program.cs:112-197 | built from an empty arena, the returned end state is the only final state |
| Thompson.BuildCovers | lab5/Program.cs:112-197 | every state a construction allocates is reachable from its start: a set closed under edges that holds the start holds all of them |
| Evaluator.Apply | lab5/Program.cs:172-197 | one operator is always popped; concatenation and union replace the top two operands by one and `*`/`+` replace the top one; the rest of the operand stack is unchanged; failure exactly when too few operands |
| Evaluator.Drain | lab5/Program.cs:164-167 | after the final drain the operator stack is empty |
| Evaluator.BuildSeqBinary | lab5/Program.cs:175-186 | reducing a concatenation or union on built fragments is the same as building the combined tree: the earlier-pushed operand is `first` |
| Evaluator.BuildSeqUnary | lab5/Program.cs:187-196 | reducing `*` or `+` on the top fragment is the same as building the starred or plussed tree |
| Evaluator.ApplyBalance | lab5/Program.cs:172-197 | reducing a pending operator keeps the operand count minus the binary-operator count |
| Evaluator.CloseGroupBalance | lab5/Program.cs:137-144 | the `)` reduction keeps that balance and leaves only open brackets, concatenations and unions stacked |
| Evaluator.DrainBalance | lab5/Program.cs:164-167 | the final drain leaves as many operands as before minus the stacked binary operators |
| Evaluator.StepBalance | lab5/Program.cs:125-162 | each character keeps the balance invariant: only `(`, `.` and the bar stay stacked, and the operands outnumber the stacked binary operators by at most one, and by none at the start or right after `(` or the bar |
| Evaluator.RunBalance | lab5/Program.cs:125-162 | the balance invariant holds after every prefix of the input |
| Evaluator.EvaluateSingle | lab5/Program.cs:164-169 | when the program succeeds, the operand stack holds exactly one fragment after the drain |
| Evaluator.ParseOfDrain | lab5/Program.cs:164-169 | the result is the top of the drained operand stack; the program fails when the drain fails or leaves it empty |
| Evaluator.RunStuck | lab5/Program.cs:125-162 | once a prefix fails (empty stack popped or peeked) every longer prefix fails |
| Evaluator.UnionBindsTighterThanJuxtaposition | lab5/Program.cs:129-167 | `ab` bar `c` is built as `a` concatenated with the union of `b` and `c` |
| Evaluator.StarBindsToPreviousOperand | lab5/Program.cs:145-161 | `ab*` is built as `a(b*)` |
| Evaluator.GroupedUnionPlus | lab5/Program.cs:129-151 | the grouped union of `a` and `b` followed by `+` is built as Plus of that union |
| Evaluator.MalformedInputs | lab5/Program.cs:139-169 | the empty input, `)` and `*` make the program fail |
| Table.ParseNatToString | lab5/Program.cs:245 | the decimal text of an id reads back as that id |
| Table.ParseNameOf | lab5/Program.cs:245 | the name `q<id>` reads back as the id, negative ids included |
| Table.ParseCellText | lab5/Program.cs:243-249 | a cell is decodable: it determines the destination ids it was written from, in registration order |
| Table.CellTextNonEmpty | lab5/Program.cs:243-249 | a cell is empty exactly when nothing was registered in it |
| Table.CellTextSnoc | lab5/Program.cs:243-249 | registering one more destination writes `q<id>` into an empty cell and appends `,q<id>` otherwise |
| Table.RowIndex | lab5/Program.cs:235 | a lookup finds the row of exactly that label, or reports that no row has it |
| Table.RowIndexLabels | lab5/Program.cs:235 | `ContainsKey` is false exactly when the label is not among the row labels |
| Table.SetCellAt | lab5/Program.cs:243-249 | writing one cell changes that cell only and keeps every row's length |
| Table.AppendRowAt | lab5/Program.cs:235-242 | a new label's row has one empty cell per state and changes no other cell |
| Traversal.RenumberNumbered | lab5/Program.cs:230-234 | numbering an unnumbered destination gives it the next id and keeps every earlier id |
| Traversal.NumberedBound | lab5/Program.cs:230-234 | the ids handed out are never more than the states |
| Traversal.AllNumbered | lab5/Program.cs:230-234 | when every state has an id, exactly as many ids were handed out as there are states |
| Traversal.DfsVisit | lab5/Program.cs:216-260 | the reference walk (a visited state is left alone; otherwise it is marked, its destinations are registered in list order, and then each is visited in list order) only ever adds visited states |
| Traversal.RegisterStep | lab5/Program.cs:228-249 | after each registration the cell of the current state under its label names the destinations seen so far, in order |
| Traversal.ProgressDone | lab5/Program.cs:225-251 | after the recording loop each label's cell names that label's destination list in order, and every destination has an id |
| Traversal.WalkStart | lab5/Program.cs:204-211 | the start state gets id 0 and the walk invariant holds with nothing visited |
| Traversal.WalkBegin | lab5/Program.cs:218-224 | entering an unvisited id writes its final flag and touches nothing else |
| Traversal.WalkEnter | lab5/Program.cs:218-251 | after recording, the visited id is complete and the walk invariant is kept |
| Traversal.WalkReturn | lab5/Program.cs:253-259 | once all destinations are visited the call returns with the invariant kept |
| Traversal.ReachedVisited | lab5/Program.cs:199-260 | when the walk from id 0 returns, every numbered id has been visited |
| Traversal.WalkEnd | lab5/Program.cs:199-260 | when the walk returns: ids are consecutive from 0, each id after 0 is a destination of an earlier id and every destination of a numbered state is numbered; each numbered id's flag and cells are recorded, and every other flag is false and every other cell empty |
| Construction.NFAConstructor.constructor | lab5/Program.cs:37-41 | no states, counter 0, current id 0, no flags |
| Construction.NFAConstructor.CreateState | lab5/Program.cs:42-46 | appends one fresh state (id -1, not final, no edges) and adds one to the counter |
| Construction.NFAConstructor.GetStateCount | lab5/Program.cs:48-51 | returns the number of created states |
| Construction.NFAConstructor.AddTransition | lab5/Program.cs:15-22 | the arena after `from.AddTransition(symbol, to)` is `AddEdge` of the old one; nothing else changes |
| Construction.NFAConstructor.MarkFinal | lab5/Program.cs:61 | sets one final flag and changes nothing else |
| Construction.NFAConstructor.CreateSymbolNFA | lab5/Program.cs:53-64 | new arena and fragment are `SymbolOp` of the old arena |
| Construction.NFAConstructor.Concatenate | lab5/Program.cs:66-71 | new arena and fragment are `ConcatOp` of the old arena |
| Construction.NFAConstructor.Union | lab5/Program.cs:73-85 | new arena and fragment are `UnionOp` of the old arena |
| Construction.NFAConstructor.Star | lab5/Program.cs:87-98 | new arena and fragment are `StarOp` of the old arena |
| Construction.NFAConstructor.Plus | lab5/Program.cs:100-110 | new arena and fragment are `PlusOp` of the old arena |
| Construction.NFAConstructor.OperatorsHandler | lab5/Program.cs:172-197 | fails exactly when `Apply` does; otherwise the new stacks and arena are those of building the reduced trees |
| Construction.NFAConstructor.PopTwoAndPush | lab5/Program.cs:175-186 | concatenation and union branches: pops two fragments, pushes `Concatenate`/`Union` of them |
| Construction.NFAConstructor.PopOneAndPush | lab5/Program.cs:187-196 | `*` and `+` branches: pops one fragment, pushes `Star`/`Plus` of it |
| Construction.NFAConstructor.BuildNFA | lab5/Program.cs:112-170 | succeeds exactly when `Parse` does, and then the arena and returned fragment are Thompson's construction of the parsed tree on top of the old arena |
| Construction.NFAConstructor.ScanAll | lab5/Program.cs:125-162 | the scan loop ends in the stacks of `Run` on the whole input, failing exactly when `Run` does |
| Construction.NFAConstructor.ScanCharacter | lab5/Program.cs:127-161 | one iteration is one `Step` on the stacks |
| Construction.NFAConstructor.CloseParenthesis | lab5/Program.cs:137-144 | the `)` loop reduces until `(` is on top and pops it, failing on an empty operator stack |
| Construction.NFAConstructor.DrainOperators | lab5/Program.cs:164-167 | the final loop reduces until the operator stack is empty |
| Construction.NFAConstructor.ConvertToTransitionList | lab5/Program.cs:199-214 | on the first call: only ids change; the start gets id 0; ids are consecutive, each new id goes to a destination of an earlier id; every destination of a numbered state is numbered; the states get their ids in the order of `DfsOrder` and the rows are created in the order `DfsOrder` first meets their labels; `outputFinalStates[k]` is the final flag of id k, false past the last id; each cell names its label's destinations in order, empty past the last id |
| Construction.NFAConstructor.FillFlags | lab5/Program.cs:204-207 | appends one false flag per created state |
| Construction.NFAConstructor.NumberStart | lab5/Program.cs:209 | the start state gets id 0 and the walk invariant holds |
| Construction.NFAConstructor.TraverseState | lab5/Program.cs:216-260 | keeps the walk invariant, only ever extends the numbering, and leaves the visited state's id visited; the new numbering, visited states and row labels are one `DfsVisit` of the reference walk |
| Construction.NFAConstructor.EnterState | lab5/Program.cs:223-251 | marks the id visited, writes its flag and records all of its cells; the numbering and row labels grow as `NoteEntries` registers the state's transition list |
| Construction.NFAConstructor.RecordTransitions | lab5/Program.cs:225-251 | each label's cell for this id names that label's destinations in order; cells of other ids unchanged; each new id goes to a destination; numbering and row labels follow `NoteEntries` |
| Construction.NFAConstructor.RecordList | lab5/Program.cs:228-250 | one label's destination list registered in order; numbering and row labels follow `NoteTargets` |
| Construction.NFAConstructor.RegisterTarget | lab5/Program.cs:228-250 | one pass of the registration loop keeps its invariant and is one `Note` of the destination |
| Construction.NFAConstructor.RecordEdge | lab5/Program.cs:229-249 | numbers the destination if needed, then appends its name to the one cell (label, id); numbering and row labels change as `Note` says |
| Construction.NFAConstructor.NumberTarget | lab5/Program.cs:230-234 | an unnumbered destination gets the next id; every earlier id is kept |
| Construction.NFAConstructor.WriteCell | lab5/Program.cs:235-249 | creates the label's row of empty cells when absent (its label then comes last), then extends exactly the one cell |
| Construction.NFAConstructor.EmptyCells | lab5/Program.cs:237-241 | a row of `_stateCounter` empty cells |
| Construction.NFAConstructor.VisitDestinations | lab5/Program.cs:253-259 | after visiting every destination the id is closed and the invariant kept; the walk has moved as `DfsEntries` says |
| Construction.NFAConstructor.VisitEntry | lab5/Program.cs:253-259 | one pass of the second loop keeps its invariant and moves the walk one entry along `DfsEntries` |
| Construction.NFAConstructor.VisitList | lab5/Program.cs:255-258 | every destination of one label is visited; the walk has moved as `DfsTargets` says |
| Construction.NFAConstructor.VisitTarget | lab5/Program.cs:257 | one recursive visit keeps the loop invariant and is one `DfsVisit` |
| Construction.WalkCoversBuild | lab5/Program.cs:199-260 | the walk from the start of a built automaton numbers every one of its states |
| Construction.Translate | lab5/Program.cs:331-334 | fails exactly when `Parse` does; otherwise every created state has an id, the ids are 0 to N-1 with N the state count, and exactly one final flag is set: the one at the end state's id |
| Construction.AltOrder | lab5/Program.cs:216-260 | on `a` bar `b` the start's destinations get ids 1 and 2 before either is visited, a's branch is walked first (so the shared end gets id 4), and the rows are ε, a, b |
| RegexParser.Precedence | lab5/Program.cs:270-276 | exactly the union bar, `.`, `*` and `+` have a precedence |
| RegexParser.ReversedMultiset | lab5/Program.cs:297-317 | popping a stack onto the output moves exactly its characters |
| RegexParser.PopToOpenFails | lab5/Program.cs:297-301 | the `)` loop fails exactly when no `(` is stacked |
| RegexParser.PopToOpenShape | lab5/Program.cs:297-301 | the `)` loop pops exactly the operators above the topmost `(`, top first, then drops the `(` |
| RegexParser.PopWhileBindsShape | lab5/Program.cs:305-309 | the operator loop pops a top segment with no `(`, top first, and stops at `(`, an empty stack or an operator that binds less tightly than c |
| RegexParser.PopWhileBindsDefined | lab5/Program.cs:305 | with c and every stacked operator in the table, no lookup fails |
| RegexParser.ToPostfix | lab5/Program.cs:265-320 | the method's result is the pass function `Postfix` |
| RegexParser.PopGroup | lab5/Program.cs:297-301 | the `)` loop computes `PopToOpen`, failing on an empty stack |
| RegexParser.PopBinding | lab5/Program.cs:305-308 | the operator loop computes `PopWhileBinds`, failing on a missing precedence |
| RegexParser.RunFails | lab5/Program.cs:278-311 | a failure part way through fails the whole conversion |
| RegexParser.RunInv | lab5/Program.cs:278-311 | after every prefix: the output holds the prefix's letters and digits in order and no bracket, the stack holds no letter, digit or `)`, and every character fed is either out, stacked, or a `(` matched by a `)` read |
| RegexParser.PostfixKeepsOperands | lab5/Program.cs:282-290 | the result holds every letter and digit of the input, in input order, and no `)` |
| RegexParser.PostfixPermutes | lab5/Program.cs:278-317 | the result is a permutation of the characters fed (input plus implicit `.`) minus the `)` and the `(` each one cancels |
| RegexParser.PostfixBalanced | lab5/Program.cs:291-301 | with as many `(` as `)` the result holds no `(` |
| RegexParser.PostfixUnmatchedClose | lab5/Program.cs:297 | `a)` fails: the stack is peeked empty |
| RegexParser.PostfixUnclosedOpen | lab5/Program.cs:314-317 | `(a` gives `a(` |
| RegexParser.PostfixUnknownOperator | lab5/Program.cs:303-310 | `a-b` gives `ab-` (no lookup is made) |
| RegexParser.PostfixUnknownOperatorCompared | lab5/Program.cs:305 | `a-b-c` fails: the second `-` is looked up |
| RegexParser.PostfixJoins | lab5/Program.cs:282-310 | `ab` bar `c` gives `ab.c` followed by the bar |
| RegexParser.PostfixNoJoinAfterOperator | lab5/Program.cs:286 | `a*b` gives `ab*`: no `.` after an operator |

## Left out

- `Main`'s file reading, argument indexing and writing of the table are I/O and are not modelled; its other steps are `Construction.Translate`.
- Exceptions are modelled as a `None` result, not as preconditions. This covers `Stack.Pop`/`Peek` on an empty stack and `KeyNotFoundException`.
- Objects are arena indices. Object identity and aliasing are represented by equal indices.
- Dictionaries (`Transitions`, the table) are insertion-ordered lists of (key, value) pairs. The program relies on that enumeration order. .NET does not document it.
- `char.IsLetterOrDigit` is modelled for ASCII letters and digits only.
- The integer counters are unbounded; 32-bit overflow of `_stateCounter` and `_currentStateId` is not modelled.
- The language an automaton accepts is not modelled. The program states nothing about it; the model proves structural properties instead.
- Construction.NFAConstructor.ConvertToTransitionList: proved for the first call only, when every id is -1, `_currentStateId` is 0 and `outputFinalStates` is empty. A second call would reuse the ids and flags of the first.
- The loop bodies of `BuildNFA`, `TraverseState` and `ToPostfix` are written as separate methods (`ScanCharacter`, `CloseParenthesis`, `VisitTarget`, `RegisterTarget`, `PopGroup`, `PopBinding`, …). The work is the same, in the same order.
- The recursion of `TraverseState` is modelled directly. The ghost termination measure is the set of ids not yet visited, which is only implicit in the program.
- `BuildNFA`'s operand and operator stacks, and `ToPostfix`'s operator stack, are sequences with the top at the end.
