# Computation graphs from Python statements

`simulations.py` turns a short Python module into a dependency diagram. Drawing it takes two steps:

- `PythonToGraph` walks the parsed module once, in post-order and left to right. It fills an insertion-ordered `symbol_table`, which maps each canonical key (the `ast.unparse` text of an expression or an assigned name) to a `Computation(label, dependencies)`. It also keeps `final_results`: the assigned names that no later statement reads.
- `draw_computation_graph` lays that table out as an SVG group. Each key gets one row: a box coloured by the key's role, plus its label. After the rows comes one arc per distinct pair (dependency row, dependent row).

Two small string helpers of the SVG builder are also modelled:
- the attribute-name normaliser;
- the path-point formatter.

The model is split into these modules:

- `Ast` (`ast.dfy`): expressions, statements and keys.
  - A key is an expression with every name context erased (`Unparse`), so `Name("x", Store)` and `Name("x", Load)` share a key, as their printed text does.
  - Only key equality matters, never the text.
- `Sequences` (`sequences.dfy`): Python list and dict behaviour used by the rest.
  - `list.remove` is `RemoveFirst`.
  - Dict insertion order is `AppendNew`/`Dedup`.
- `Builder` (`builder.dfy`): the builder as functions over an explicit state `Graph(keys, table, finals)`.
  - `keys` is the table's iteration order. The four failing `assert`s are the four `BuildError`s.
  - The file also holds reference definitions the builder is proved against:
    - `PostOrder` gives the keys written, in order.
    - `DepsOf` gives the dependencies by node kind.
    - `LiveAt` holds for an assigned name that no later statement reads.
    - `Supported` holds for trees whose every reached call has a bare-name callee.
  - It also defines the invariant `Inv`.
- `BuilderLemmas` (`builder_lemmas.dfy`): what one visit, one statement and a whole module do to the state.
- `Visitor` (`visitor.dfy`): the class `PythonToGraph` as the source writes it.
  - Its fields are `insertionOrder`, `symbolTable` and `finalResults`, and its `visit_*` methods update them in place.
  - Each method is proved to leave exactly the state the `Builder` functions compute.
- `Layout` (`layout.dfy`): the two loops of `draw_computation_graph` as methods (`DrawRows`, `DrawArcs`), proved equal to the specification `Diagram`.
  - `Diagram` is built from `RowShapes` and `Edges`, a scan over the rows' dependency indices that keeps the first meeting of each pair.
  - The file also proves what the drawing shows.
- `Svg` (`svg.dfy`): the attribute-name normaliser and `SVGBuilder.__call__`.
  - `str` of an integer comes with its inverse parser.
- `Examples` (`examples.dfy`): small modules worked through the model in lemmas.
  - `y = x + x` gives a single arc from `x`.
  - `x = x + 1` gives a cycle and a backwards arc with a negative radius.
  - `f = 1; f(2)` keeps `f` final because a callee is not visited.
  - The examples also cover three of the four errors. `TargetNotName` needs a target kind (attribute, subscript, tuple) that the model does not have; `ExecErrors` states when it is raised.

The parser's guarantees are stated as `WellFormed`: names in value position are `Load`, and name targets are `Store`. The whole-module results assume them. The builder functions themselves accept any tree.

## Model

| member | source | states |
|---|---|---|
| Sequences.RemoveFirst | simulations.py:169-170 | `list.remove`: the first occurrence of `x` is taken out and the rest keeps its order; one element shorter, and the multiset loses exactly one copy of `x` |
| Sequences.RemoveFirstMembers | simulations.py:169-170 | on a list without repeats, removing `x` keeps it repeat-free and removes exactly `x` |
| Sequences.AppendNewMembers | simulations.py:166-167 | the keys after writing `s` into a dict are the old keys plus the keys of `s` |
| Sequences.AppendNewDistinct | simulations.py:166-167 | writing keys into a dict never creates a repeated key |
| Sequences.AppendNewConcat | simulations.py:176-179 | writing `s` and then `t` orders the keys as writing `s + t` does |
| Sequences.AppendNewKnown | simulations.py:182-183 | rewriting keys already present leaves the order unchanged |
| Sequences.DedupFacts | simulations.py:217 | the first-occurrence list has no repeats and the same members as its input |
| Sequences.IndexOfDistinct | simulations.py:230-239 | in a repeat-free list the element at `i` has index `i`, so `order` is a bijection onto the rows |
| Sequences.DistinctCardinality | simulations.py:213 | a repeat-free key list has as many entries as the table has keys |
| Ast.Unparse | simulations.py:166 | the key of an expression has every name context erased |
| Ast.UnparseCanonical | simulations.py:166 | an expression that is already context-free is its own key |
| Ast.UnparseIdempotent | simulations.py:174 | unparsing a key again gives the same key |
| Builder.Put | simulations.py:167 | `symbol_table[k] = c`: the table maps `k` to `c`, a new key goes last in the key order and an existing key keeps its place; `PutFacts` states what it keeps |
| Builder.Visit | simulations.py:164-196 | visiting an expression only adds table keys, and the only failure is a callee that is not a bare name |
| Builder.VisitArgs | simulations.py:176-178 | visiting the arguments only adds table keys, and fails only on a bad callee inside them |
| Builder.Exec | simulations.py:198-206 | one statement: an expression statement visits its value (`generic_visit`); an assignment fails on the first of its three checks, otherwise visits target and value, records the target with `[value]` and appends it to the final results; `ExecFacts`, `AssignFacts` and `ExecErrors` state its effect |
| Builder.ExecAll | simulations.py:210-211 | the statements of the module body in order, the first failure ending the pass; `ExecAllFacts` and `ExecAllAborts` state its effect |
| Builder.Build | simulations.py:210-211 | a fresh builder run over a whole module; `BuildFacts` and `BuildNames` state what it builds |
| BuilderLemmas.PutFacts | simulations.py:167 | `symbol_table[k] = c` keeps the invariant, puts a new key last, and leaves every other entry alone; a repeated compound key leaves the state unchanged |
| BuilderLemmas.PutStep | simulations.py:182-196 | writing a compound key whose dependencies are present is one step of the pass |
| BuilderLemmas.StepTrans | simulations.py:186-196 | two steps of the pass compose, and their key orders concatenate |
| BuilderLemmas.NameFacts | simulations.py:164-170 | a read name ends up in the table, with no dependencies if it was new, and leaves the final results; nothing else changes |
| BuilderLemmas.VisitFacts | simulations.py:164-196 | a successful visit keeps the invariant; it appends exactly the keys of `PostOrder` not yet present and keeps every earlier entry; it removes exactly the names read from the final results; it leaves the visited key in the table |
| BuilderLemmas.UnaryOpFacts | simulations.py:185-189 | the same for a unary operation: the operand first, then the operation |
| BuilderLemmas.BinOpFacts | simulations.py:191-196 | the same for a binary operation: left, then right, then the operation |
| BuilderLemmas.CallFacts | simulations.py:172-179 | the same for a call: the arguments in order, then the call; the callee is not visited |
| BuilderLemmas.VisitArgsFacts | simulations.py:176-178 | after visiting the first `n` arguments, each of their keys is in the table |
| BuilderLemmas.VisitFails | simulations.py:173 | a visit fails exactly when some reached call has a callee that is not a bare name |
| BuilderLemmas.VisitArgsFails | simulations.py:176-177 | visiting the arguments fails exactly when one of them is unsupported |
| BuilderLemmas.ExecErrors | simulations.py:198-201 | the first of the three assignment checks that fails decides the error, before any visit; otherwise the only error is a bad callee |
| BuilderLemmas.VisitArgsAborts | simulations.py:176-177 | once an argument fails, later arguments do not change the outcome |
| BuilderLemmas.ExecAllAborts | simulations.py:210-211 | the first failing statement ends the pass with its error |
| BuilderLemmas.ExecFacts | simulations.py:198-206 | one statement keeps the invariant and appends its post-order keys; it keeps earlier entries; the final results lose what it reads and gain what it assigns, last; without self-reference it keeps dependencies before dependents |
| BuilderLemmas.AssignFacts | simulations.py:198-206 | the same for an assignment, whose target goes last in the final results |
| BuilderLemmas.LiveAtSnoc | simulations.py:169-170 | a name is final after one more statement iff it was final and is not read there, or it is assigned there |
| BuilderLemmas.ExecAllFacts | simulations.py:159-206 | a sequence of statements keeps the invariant; its key order is `AppendNew` of the post-order; the final results are the names never read since their assignment |
| BuilderLemmas.EmptyInv | simulations.py:160-162 | a fresh builder satisfies the invariant |
| BuilderLemmas.InvClosed | simulations.py:244 | the builder's invariant gives what the layout needs: every dependency is a table key |
| BuilderLemmas.BuildFacts | simulations.py:209-211 | a built graph is closed, and its key order is the first-occurrence list of the post-order; it has one entry per distinct key; its final results are exactly the live assigned names; without self-reference, every dependency row precedes its dependent's |
| BuilderLemmas.SubtermsKnown | simulations.py:182-196 | if an expression's key is in the table, so are all the keys of its subterms |
| BuilderLemmas.Revisit | simulations.py:164-196 | revisiting an expression already recorded succeeds and leaves keys and table unchanged; the final results lose exactly the names it reads |
| BuilderLemmas.RecordedDependencies | simulations.py:175-196 | the entry each node kind writes: a constant `[]`, a unary operation `[operand]`, a binary operation `[left, right]` with repeats kept, a call its arguments in order |
| BuilderLemmas.RecordedNameDependencies | simulations.py:203-205 | an assignment's target maps to `[value]` |
| BuilderLemmas.VisitNames | simulations.py:164-196 | a visit leaves every existing name entry alone, and a name it enters has no dependencies |
| BuilderLemmas.ExecNames | simulations.py:164-206 | one statement gives its assigned name the value as sole dependency; any other name keeps its entry, or has none if new |
| BuilderLemmas.ExecAllNames | simulations.py:164-211 | after a sequence of statements, each name's entry is the value of its last assignment, or else its entry before, or else no dependencies |
| BuilderLemmas.BuildNames | simulations.py:164-211 | in a built graph a name never assigned has no dependencies, and an assigned name has the value of its last assignment as sole dependency |
| Visitor.PythonToGraph.constructor | simulations.py:160-162 | a new builder has an empty table, an empty key order and no final results |
| Visitor.PythonToGraph.SetItem | simulations.py:167 | `symbol_table[key] = c` leaves the state `Put` gives |
| Visitor.PythonToGraph.VisitName | simulations.py:164-170 | the state after `visit_Name` is the one `Builder.Visit` gives |
| Visitor.PythonToGraph.VisitCall | simulations.py:172-179 | `visit_Call` fails as `Builder.Visit` does, or leaves its state |
| Visitor.PythonToGraph.VisitArguments | simulations.py:175-178 | the loop over the arguments leaves the state `VisitArgs` gives and returns the arguments' keys |
| Visitor.PythonToGraph.VisitConstant | simulations.py:181-183 | the state after `visit_Constant` is the one `Builder.Visit` gives |
| Visitor.PythonToGraph.VisitUnaryOp | simulations.py:185-189 | `visit_UnaryOp` agrees with `Builder.Visit` |
| Visitor.PythonToGraph.VisitBinOp | simulations.py:191-196 | `visit_BinOp` agrees with `Builder.Visit` |
| Visitor.PythonToGraph.Visit | simulations.py:164-196 | dispatch on the node kind agrees with `Builder.Visit` |
| Visitor.PythonToGraph.VisitAssign | simulations.py:198-206 | `visit_Assign` runs the three checks, then agrees with `Builder.Exec` |
| Visitor.PythonToGraph.VisitStmt | simulations.py:198-206 | dispatch on the statement kind (an expression statement visits its value) agrees with `Builder.Exec` |
| Visitor.PythonToGraph.VisitModule | simulations.py:210-211 | visiting the module body agrees with `Builder.ExecAll`, stopping at the first failure |
| Layout.DrawLayout | simulations.py:213-262 | the drawing the loops produce is `Diagram(g)` |
| Layout.DrawRows | simulations.py:217-239 | the first loop appends box and label per key, in order, and leaves `order[k]` at the key's row |
| Layout.OrderedDependencies | simulations.py:244 | after the first loop, `order[dependency]` is defined and gives the dependency's row |
| Layout.DrawArcs | simulations.py:241-260 | the second loop appends the arcs of `Scan` over all rows |
| Layout.DrawRowArcs | simulations.py:243-260 | the inner loop over one row's dependencies extends `drawn` and the arcs by that row's scan |
| Layout.FillOf | simulations.py:219-224 | a row's colour: gold for a final result, else ghost-white without dependencies, else light yellow; `BuiltColours` states what it means for a built graph |
| Layout.BoxOf | simulations.py:225-229 | row `i`'s box: x 5, y `50 i + 12`, 170 by 25, filled as `FillOf` gives; `RowGeometry` states its placement |
| Layout.LabelOf | simulations.py:230-238 | row `i`'s label: the key's text at x 90, y `50 i + 24`; `RowGeometry` states its placement |
| Layout.RowShapes | simulations.py:217-238 | row `i` is box `i` at `2i` and label `i` at `2i + 1` |
| Layout.ArcShapes | simulations.py:247-258 | one path per recorded pair, in order |
| Layout.ArcFor | simulations.py:245-252 | the arc from row `f` to row `t`: from (175, `50 f + 30`) to (175, `50 t + 20`) with radius `10 (t - f)`; `ArcGeometry` and `ForwardArcs` state its shape |
| Layout.RowIndices | simulations.py:243-244 | `order[dependency]` for each listed dependency: entry `j` is a row whose key is the `j`-th dependency |
| Layout.DepRows | simulations.py:242-244 | for every row, one entry per listed dependency, in order, and entry `j` of row `t` is the row holding `t`'s `j`-th dependency |
| Layout.Scan | simulations.py:241-260 | the pairs in `drawn` after scanning up to row `t`, dependency `j`, each kept at its first meeting; `ScanFacts` states what it holds |
| Layout.Edges | simulations.py:241-260 | the arcs drawn: the whole scan over the rows; `EdgesExactlyOnce` and `EdgesInRange` state what it holds |
| Layout.Diagram | simulations.py:213-262 | the group returned: 600 wide, 50 per key high, the rows' shapes and then one arc per edge; `DrawLayout` is proved to produce it |
| Layout.ScanFacts | simulations.py:241-260 | `drawn` never records a pair twice; it records exactly the pairs met so far |
| Layout.EdgesExactlyOnce | simulations.py:241-260 | there is one arc from `f` to `t` exactly when `f`'s key is a dependency of `t`'s key, however often it is listed |
| Layout.EdgesInRange | simulations.py:242-245 | every arc joins two rows of the table |
| Layout.LayoutChildren | simulations.py:217-258 | the children are the `n` rows (box, label) followed by the arcs, in order |
| Layout.CanvasHeight | simulations.py:213 | the canvas is 50 pixels high per key |
| Layout.RowGeometry | simulations.py:225-238 | each box lies inside the canvas and clear of the next row; its label sits at the box's horizontal centre and within its height |
| Layout.ArcGeometry | simulations.py:244-258 | each arc starts on the right edge of its dependency's box and ends on the right edge of its dependent's box; its radius is 10 per row apart |
| Layout.ForwardArcs | simulations.py:245 | when every dependency precedes its dependent, every arc runs downwards with a positive radius |
| Layout.DrawComputationGraph | simulations.py:209-262 | build then lay out: a failed check propagates its error, otherwise the result is the diagram of the built graph |
| Layout.BuiltColours | simulations.py:219-224 | a box is gold exactly when its key is an assigned name no later statement reads; light yellow only for a key with dependencies |
| Svg.RStrip | simulations.py:31 | `rstrip` returns the longest prefix not ending in `c`, all of whose dropped characters are `c` |
| Svg.RStripUnique | simulations.py:31 | that prefix is the only one with these properties |
| Svg.ReplaceChar | simulations.py:31 | `replace` maps each `a` to `b` and keeps the other characters |
| Svg.AttributeName | simulations.py:31 | the normalised name has no `_`: it is the key without its trailing underscores, with inner `_` made `-` |
| Svg.AttributeNameIdempotent | simulations.py:31 | normalising twice gives the same as once |
| Svg.AttributeNameTrailing | simulations.py:31 | a trailing underscore (as in `id_`) makes no difference |
| Svg.AttributeNameExamples | simulations.py:31 | `id_`, `marker_end`, `text_anchor` and `viewBox` give `id`, `marker-end`, `text-anchor` and `viewBox` |
| Svg.Attributes | simulations.py:29-33 | the attribute dictionary: normalised name to `str(value)` |
| Svg.AttributesKeys | simulations.py:29-33 | a name is an attribute exactly when some argument normalises to it |
| Svg.AttributesLastWins | simulations.py:29-33 | among arguments that normalise to the same name, the last one's value is kept |
| Svg.NatToString | simulations.py:31 | `str` of a natural number: decimal digits, no leading zero |
| Svg.IntToString | simulations.py:31 | `str` of an integer begins with `-` exactly for a negative number |
| Svg.IntToStringRoundTrip | simulations.py:47-48 | parsing `str(n)` gives back `n` |
| Svg.AtomText | simulations.py:48 | `str` of one item: a word as written, an integer as `IntToString` gives it |
| Svg.Join | simulations.py:47-48 | `sep.join(parts)`: the parts with `sep` between neighbours; `JoinAppend` states how it splits |
| Svg.PointText | simulations.py:48 | one entry: a tuple's items joined by spaces, a single item as `str` gives it; `PointTextThree` and `FormatEmptyTuple` state cases |
| Svg.Format | simulations.py:46-49 | `SVGBuilder.__call__`: the entries' texts joined by spaces; `FormatFlattens` relates it to the flat list of atoms, and `ArrowPath` gives the arrow marker's path |
| Svg.AtomTexts | simulations.py:48 | `map(str, x)`, item by item |
| Svg.PointTexts | simulations.py:47-49 | one text per point, in order |
| Svg.FormatFlattens | simulations.py:46-49 | with no empty tuple, the formatted path is the space-join of all atoms, tuples flattened |
| Svg.JoinAppend | simulations.py:47 | joining two non-empty lists joins their joins with the separator |
| Svg.FormatExample | simulations.py:46-49 | `[("M",0,0),("L",30,15)]` formats as `M 0 0 L 30 15` |
| Svg.ArrowTexts | simulations.py:55 | the five points of the arrow marker's path print as `M 0 0`, `L 30 15`, `L 0 30`, `L 5 15` and `z` |
| Svg.ArrowPath | simulations.py:55 | the arrow marker's whole path data is `M 0 0 L 30 15 L 0 30 L 5 15 z` |
| Svg.FormatEmptyTuple | simulations.py:46-49 | an empty tuple contributes an empty item: `["z", ()]` gives `"z "` |
| Svg.PointTextThree | simulations.py:251 | a three-item tuple `(c, m, n)` formats as `c m n` |
| Examples.DoublingGraph | simulations.py:191-206 | `y = x + x` builds `x`, `x + x` with `[x, x]`, then `y`; the final results are `[y]` |
| Examples.DoublingRows | simulations.py:239-244 | its dependency rows are `[], [0, 0], [1]` |
| Examples.DoublingEdges | simulations.py:241-260 | its arcs are `(0, 1)` once and `(1, 2)` |
| Examples.DoublingRowShapes | simulations.py:217-238 | its boxes are ghost-white, light yellow and gold, at y = 12, 62 and 112 |
| Examples.DoublingDrawing | simulations.py:213-262 | the complete drawing, 600 by 150, with two arcs of radius 10 |
| Examples.AssignConstant | simulations.py:181-206 | `name = lit` first in a module records the constant, then the name depending on it |
| Examples.CalleeCall | simulations.py:173 | `(f())()` fails the callee check |
| Examples.Reassignment | simulations.py:201 | `a = 1; a = 2` fails the already-defined check |
| Examples.ChainedAssignment | simulations.py:199 | `a = b = 1` fails the one-target check |
| Examples.CalleeNotRead | simulations.py:172-179 | `f = 1; f(2)`: the callee is not visited, so `f` stays final |
| Examples.ReadNameNotFinal | simulations.py:169-170 | `a = 1; b = -a`: reading `a` removes it from the final results |
| Examples.SelfReferenceGraph | simulations.py:198-206 | `x = x + 1` passes the check, records `x` first, and overwrites it in place with the sum as dependency |
| Examples.SelfReferenceRows | simulations.py:239-244 | its dependency rows are `[2], [], [0, 1]` |
| Examples.SelfReferenceBackward | simulations.py:204-205 | its dependencies do not all precede their dependents |
| Examples.SelfReferenceEdges | simulations.py:241-260 | its arcs are `(2, 0)`, `(0, 2)`, `(1, 2)`; the first has radius -20 |

## Left out

- XML serialisation: `SVG.__str__`, `_repr_svg_` and the element construction in `SVGBuilder.__getattr__` (simulations.py:5-44) are left out. Only the attribute dictionary they build is modelled.
  - The drawing is a list of integer records plus the canvas size.
  - The constant attributes are not recorded: `stroke`, `fill="none"`, `text_anchor`, `dominant_baseline`, `marker_end` and the `defs` marker.
- Globals and other drawings: the module-level `svg` and `arrow` globals (simulations.py:52-64) are constant data. `show`, `label_axis` and the `arrow_*` functions (simulations.py:67-144) draw a separate grid diagram. Only the formatting of the arrow's path (line 55) is stated.
- `Computation.__repr__` (simulations.py:152-156): debug text only.
- Parsing and printing: `ast.parse` and `ast.unparse` are a foreign parser and printer.
  - The model starts from the tree. The key is the tree with contexts erased.
  - Two trees differing only in context share a key; otherwise distinct trees get distinct keys. A constant's key is its literal as written, which assumes the literal is written the way `ast.unparse` prints it: `0x1` and `1` print alike but are distinct keys here.
  - The parser's guarantees (`WellFormed`) are preconditions of the whole-module lemmas and of `Layout.DrawComputationGraph`. Without them a value-position name in `Store` context would leave a dependency with no table entry.
- Node kinds: only Name, Constant, UnaryOp, BinOp and Call expressions, and Assign and expression statements, are modelled.
  - `generic_visit` over other node kinds (Subscript, Attribute, Compare, …) is left out. So is the `KeyError` at line 244 that such a value leads to; it is excluded by `Closed`, which every built graph satisfies.
  - Call keywords are not modelled; `visit_Call` does not visit them.
  - `TargetNotName` is reachable only through target kinds that are not modelled (attribute, subscript, tuple). It stands for any such target.
- Errors: the source fails every check with the same `AssertionError`; the model distinguishes the four checks.
- Assertions switched off: the four checks are `assert` statements (simulations.py:173, 199-201), which `python -O` removes. The model assumes assertions are enabled; with them removed, the source would go on past a failed check.
- Layout.DrawLayout: the two loops of `draw_computation_graph` are split into `DrawRows`, `DrawArcs` and, for the inner loop, `DrawRowArcs`; the straight-line code is the same.
- Layout.DrawLayout: the group's canvas size is carried in the `Drawing` record rather than in the builder that owns the group.
- Svg.AttributeName: models Python's `str.rstrip` and `str.replace` on a string of characters only; Unicode details are out of scope.
- Svg.Format: items are integers or words; `str` of other Python values is out of scope.
