# Verified models of the BigQuery DataFrames core

This project models, in Dafny, the parts of `bigframes` that compute something
intricate without talking to a server, and proves what those parts are for.
`dafny verify dfyconfig.toml` checks all of it.

- **The expression compiler** (`Expressions`, `Plans`, `Layering`, `Fragments`,
  `PushDown`, `ColumnCompiler`, `Windowizing`, `Factoring`,
  `AggregationMeaning`, `AggregationCompiler`). Column expressions with windows nested in windows and
  aggregations nested in aggregations are taken apart into named fragments,
  their dependency graph is peeled sink by sink, scalar fragments are inlined
  and fragments that share a window are batched into one node. An expression
  denotes a whole column; a window whose specification only partitions applies
  its operator to each partition, and any other window is an unknown but
  deterministic function of its argument, key and ordering columns. Every
  theorem holds for all operators (`Semantics`). The main results are
  `ColumnCompiler.ApplyColExprsToPlan` and
  `AggregationCompiler.ApplyAggExprsToPlan`: when compilation succeeds, when the
  result computes exactly the original expressions, and when it is a valid plan,
  each as an if-and-only-if over conditions on the input.
- **Its data structures** (`OrderedSets`, `Graphs`): the doubly linked list with
  a dictionary, and the graph with cached sinks built from such sets, as mutable
  classes with a footprint.
- **Traversals** (`Traversal`): the stack and queue loops over shared nodes, for
  any node type, against plain recursion. A node's rank, which exists for any
  acyclic structure, replaces structural recursion; expressions get theirs from
  `Fragments.ExpressionsAreDag`.
- **The multi-stream reader** (`StreamReader`): workers, a bounded queue, a stop
  flag and a consuming generator as a step relation; a timeout is a step that
  may happen whenever the queue is empty or full.
- **Self-contained algorithms**: edit distance (`Levenshtein`), the text chunker
  (`TextChunks`), row-wise decoding of nested columnar data (`ColumnarDecode`,
  `ColumnarLayouts`, `ColumnarEncoding`, after the "Variable-size List Layout"
  and "Struct Layout" sections of the Apache Arrow Columnar Format),
  interpolation (`Interpolation`), ranking (`Ranking`) and schema conversion
  (`SchemaFields`). `Options` holds the optional value they share.

Fresh ids come from one counter, as `ColumnId.unique` does: `Unique(k)` is the
k-th id handed out, and a compiler pass takes the counter and returns it.

## What the proofs bring to light

- The column compiler raises "graph didn't shrink" exactly when some aggregation
  does not stand directly under a window. A window that partitions or orders by
  a bare aggregation compiles, but into a plan that fails its own validation
  (`ColumnCompiler.AggregatedKeyExample`).
- The guard against inlining into many places looks at the children of a sink,
  of which there are none, so it never holds anything back: `PushDown.Candidates`
  returns every scalar sink.
- When one final aggregation is a direct argument of another, as in
  `sum(x) + sum(sum(x))`, the aggregation compiler puts a column reference among
  the entries of the aggregate node. The node's type excludes that, but nothing
  validates it, so the plan passes validation; no engine compiles it
  (`AggregationCompiler.AggPlanAggregatesOnly`, `AggregationCompiler.NestedExample`).
  It happens in no other case.
- The aggregation compiler leaves `dropna` at the node's default, so groups with
  a null key never appear in its result; `Reduces` states that.
- A normal end of the stream reader can leave pages in the queue. It does
  exactly when something was put after the queue was last found empty
  (`StreamReader.NormalExit`, `StreamReader.LosingRun`).
- In the top-down traversal the check whether a node on the stack already has a
  result never succeeds (`Traversal.TopDown`).
- The chunker's documentation speaks of overlapping characters between chunks.
  In the code the overlap is cut off the rest and put back in front of it, so
  the chunks do not overlap (`TextChunks.CutChunks`).
- How a document is cut depends on where its pages end, unless all words are
  shorter than the chunk size; the last word may be as long if any spaces after it
  fill whole chunks (`TextChunks.PagesIrrelevant`).
- A null list that covers child rows shifts what later lists read, at every level
  of nesting; which rows of a layout are still decoded right is
  `ColumnarLayouts.AnyLayoutDecides` and, in terms of null lists,
  `ColumnarLayouts.LayoutDecides`. Null lists without rows come out empty.
- The documentation of `rank` says that missing values that are kept get no rank.
  In the code that holds for averages only; the other methods give them the number
  of values of their group, or the last dense rank (`Ranking.RankColumn`,
  `Ranking.KeptMissingExample`).

## Model

| member | source | states |
|---|---|---|
| OrderedSets.InsertionOrderedSet.Add | bigframes/core/ordered_sets.py:99-104 | the list grows by the value, at the end, exactly when it is new; links, back links and dictionary stay one duplicate-free sequence |
| OrderedSets.InsertionOrderedSet.Discard | bigframes/core/ordered_sets.py:106-110 | the value is gone, the others keep their order, in list and dictionary alike |
| OrderedSets.InsertionOrderedSet.Remove | bigframes/core/ordered_sets.py:112-116 | reports an absent value and otherwise discards |
| OrderedSets.InsertionOrderedSet.Update | bigframes/core/ordered_sets.py:118-122 | adds the elements of all lists in order |
| OrderedSets.InsertionOrderedSet.Clear | bigframes/core/ordered_sets.py:124-128 | nothing is left and the sentinels are linked to each other |
| OrderedSets.InsertionOrderedSet.ToSeq | bigframes/core/ordered_sets.py:76-81 | following the links yields the contents in insertion order |
| OrderedSets.InsertionOrderedSet.Length | bigframes/core/ordered_sets.py:68-70 | the dictionary's size is the number of elements in the list |
| OrderedSets.InsertionOrderedSet.UnlinkNode | bigframes/core/ordered_sets.py:83-89 | removes one position of the chain and clears the node's links |
| OrderedSets.InsertionOrderedSet.AppendNode | bigframes/core/ordered_sets.py:91-97 | the node comes between the last one and the tail sentinel |
| Graphs.DiGraph.constructor | bigframes/core/graphs.py:24-43 | the graph holds the given nodes and edges, parents, children and sinks agreeing |
| Graphs.BuiltConsistent | bigframes/core/graphs.py:24-43 | for any nodes and edges, parents is the converse of children, without repetitions, and sinks are exactly the childless nodes |
| Graphs.BuiltEdges | bigframes/core/graphs.py:36-40 | a child is recorded exactly for each given edge |
| Graphs.DiGraph.RemoveNode | bigframes/core/graphs.py:66-76 | the loops over children and parents leave exactly the graph without the node |
| Graphs.RemovedConsistent | bigframes/core/graphs.py:66-76 | removal keeps parents and children converse and mentions the node nowhere |
| Graphs.RemovedSinks | bigframes/core/graphs.py:69-76 | after removal the cached sinks are exactly the nodes left without children |
| Traversal.UniqueNodes | bigframes/core/bigframe_node.py:286-297 | every reachable node once |
| Traversal.IterNodesTopo | bigframes/core/bigframe_node.py:299-324 | every reachable node once and after all its children, with shared nodes and repeated edges |
| Traversal.ReachAllMinimal | bigframes/core/expression_factoring.py:49-60 | what counts as reachable is the least set with the roots that is closed under children |
| Traversal.ReduceUp | bigframes/core/expression_factoring.py:91-103 | no lookup misses and each root gets the value of plain structural recursion |
| Traversal.BottomUp | bigframes/core/bigframe_node.py:360-380 | equals the recursion that rebuilds a node from its transformed children and then transforms it |
| Traversal.TopDown | bigframes/core/bigframe_node.py:326-358 | terminates and equals the recursion that transforms a node and then descends into the transformed node's children |
| Expressions.EvalBind | bigframes/core/expression.py:433-444 | binding references commutes with evaluation through operators, aggregations and windows |
| Expressions.BindBind | bigframes/core/agg_expressions.py:226-233 | two bindings one after the other are one binding |
| Expressions.EvalAgree | bigframes/core/expression.py:291-293 | only the referenced columns matter to a value |
| Layering.LayersMeaning | bigframes/core/expression_factoring.py:411-425 | projections and window nodes stacked on a root keep its rows and compute every definition's own column |
| Layering.InlinedValue | bigframes/core/expression_factoring.py:373-382 | a definition with the earlier results inlined has the definition's value |
| Layering.BindBound | bigframes/core/expression_factoring.py:373-382 | inlining leaves a variable unbound exactly when one was unbound before, in the expression or in what is inlined |
| Layering.LayersValid | bigframes/core/nodes.py:1201-1207 | stacked nodes pass validation when nothing is left unbound, windows are over scalar expressions and keep the rule for row bounds, and references resolve |
| Fragments.ExpressionsAreDag | bigframes/core/agg_expressions.py:60-68 | children are smaller, so the traversals end on expressions |
| Fragments.GatherFragments | bigframes/core/expression_factoring.py:288-311 | a parent's fragment has only leaf inputs, or aggregations of leaves under a window, and unfolds to the parent, also with repeated children |
| Fragments.FragmentForest | bigframes/core/expression_factoring.py:168-168 | fragments every root bottom-up, each shared node once, faithfully |
| Fragments.Dedupe | bigframes/core/expression_factoring.py:458-463 | the distinct values in order of first occurrence |
| Fragments.FragmentizeExpression | bigframes/core/expression_factoring.py:161-180 | fragment ids are distinct and new, every fragment is in normal form and unfolds to what its id stands for, references go to smaller expressions; all can be pushed exactly when aggregations stand only directly under windows |
| Fragments.UnfoldRestores | bigframes/core/expression_factoring.py:161-180 | unfolding the definitions round after round gives the original expressions back |
| Fragments.NormalFormPushable | bigframes/core/expression_factoring.py:341-349 | a fragment is scalar or a window unless it is a bare aggregation |
| PushDown.Candidates | bigframes/core/expression_factoring.py:358-370 | all scalar sinks are taken, the guard excluding none |
| PushDown.InitiallyPeeled | bigframes/core/expression_factoring.py:327-337 | the dependency graph has exactly the references among definitions as edges |
| PushDown.Peel | bigframes/core/expression_factoring.py:373-374 | removing a pushable sink keeps the graph in step with what is emitted and keeps the other sinks |
| PushDown.ExtractScalars | bigframes/core/expression_factoring.py:353-382 | inlines scalar sinks until none is left, each after what it refers to |
| PushDown.ExtractWindow | bigframes/core/expression_factoring.py:384-409 | batches sinks over one window, none of them needing another, or shows that no sink is a window |
| PushDown.Round | bigframes/core/expression_factoring.py:411-427 | a round shrinks the graph unless the definitions are cyclic or one cannot be pushed |
| PushDown.PushIntoTree | bigframes/core/expression_factoring.py:321-434 | succeeds exactly when the definitions are acyclic and each is scalar or a window; then every definition is emitted once, after what it refers to |
| PushDown.SomeSink | bigframes/core/expression_factoring.py:411-427 | an acyclic graph that is not empty has a sink |
| ColumnCompiler.SolutionSolves | bigframes/core/expression_factoring.py:161-180 | evaluating what each fragment stands for satisfies all fragment definitions |
| ColumnCompiler.CompiledComputes | bigframes/core/expression_factoring.py:428-434 | the finished plan has the root's columns unchanged, then the targets in order, each with its expression's value |
| ColumnCompiler.FragmentsAcyclic | bigframes/core/expression_factoring.py:329-337 | the references among fragments form no cycle |
| ColumnCompiler.CompiledValid | bigframes/core/nodes.py:1401-1416 | the finished plan passes validation exactly when every fragment is bound, over scalar inputs and within the rule for row bounds |
| ColumnCompiler.ApplyColExprsToPlan | bigframes/core/expression_factoring.py:106-112 | succeeds exactly when every aggregation stands directly under a window; the result computes every expression, for all operators; it is valid exactly when moreover no variable is unbound, no window partitions or orders by a bare aggregation and every operator of a row-bounded window inherits the order |
| ColumnCompiler.AggregatedKeyExample | bigframes/core/expression_factoring.py:298-301 | a valid plan and a window partitioned by an aggregation: it compiles, computes the expression, and the compiled plan is not valid |
| ColumnCompiler.RowWindowExample | bigframes/core/window_spec.py:229-239 | an operator that inherits no order compiles validly over a window of rows exactly when that has neither a start nor an end |
| Windowizing.WindowizeSucceeds | bigframes/core/expression_factoring.py:201-213 | windowizing fails exactly on windows and on operators that have no window form |
| Windowizing.WindowizedColumnar | bigframes/core/expression_factoring.py:201-213 | a windowized expression always compiles, and into a valid plan exactly when it has no unbound variable |
| Windowizing.WindowizeMeaning | bigframes/core/expression_factoring.py:201-213 | on the rows of a group it has the value of the original expression over that group alone |
| Windowizing.PartitionPicked | bigframes/core/expression_factoring.py:124-124 | a partition's rows of a partitioned column are the operator over the partition |
| Factoring.FinalsFound | bigframes/core/expression_factoring.py:263-275 | finds exactly the aggregations under no other one; fails exactly on columns, variables and windows outside them |
| Factoring.AllInputsFound | bigframes/core/expression_factoring.py:278-285 | the inputs are exactly the non-leaf arguments of final aggregations |
| Factoring.IsolatedShape | bigframes/core/expression_factoring.py:237-240 | an isolated aggregation keeps leaves and refers to columns for the rest, unless it is itself an input and becomes a column |
| Factoring.NestedIsInput | bigframes/core/expression_factoring.py:231-240 | a final aggregation is taken for an input exactly when it is an argument of another one |
| Factoring.RootScalarReduces | bigframes/core/expression_factoring.py:241-247 | the scalar expression over the aggregation results has the expression's value for the group |
| AggregationMeaning.IsolatedSummary | bigframes/core/expression_factoring.py:124-129 | over the prepared columns an isolated aggregation summarises a group as the original does |
| AggregationMeaning.AggPlanReduces | bigframes/core/expression_factoring.py:130-152 | aggregate node, projection and selection give one row per group with the keys and every target's value |
| AggregationCompiler.AggPlanValid | bigframes/core/bigframe_node.py:96-108 | with resolved references these nodes pass validation exactly when the prepared plan does, nested final aggregations or not |
| AggregationCompiler.EntriesAreAggregations | bigframes/core/expression_factoring.py:237-240 | the entries of the aggregate node are all aggregations exactly when no final aggregation is an argument of another |
| AggregationCompiler.AggPlanAggregatesOnly | bigframes/core/compile/sqlglot/aggregate_compiler.py:35-58 | what the compilers to SQL demand, aggregations only in every aggregate node, holds of the finished plan exactly when it did before and no final aggregation is an argument of another |
| AggregationCompiler.ApplyAggExprsToPlan | bigframes/core/expression_factoring.py:115-152 | succeeds exactly when each expression is built from constants and aggregations whose inputs have a window form; the new aggregate node holds only aggregations exactly when no final aggregation is an argument of another, and then the result equals evaluating each expression on each group, for all operators; it is valid exactly when no variable is unbound |
| AggregationCompiler.NestedExample | bigframes/core/expression_factoring.py:237-240 | a valid plan and an expression for which the compiled plan passes validation and has an entry that is no aggregation |
| StreamReader.NextInv | bigframes/core/bq_data.py:260-314 | every step of every worker and of the consumer keeps the invariant |
| StreamReader.ConservationAndOrder | bigframes/core/bq_data.py:266-312 | in every reachable state puts are yielded plus queued pages, the queue is bounded by the number of streams and each stream's yielded pages are a prefix of it |
| StreamReader.SingleStreamOrder | bigframes/core/bq_data.py:361-366 | one stream keeps its total order |
| StreamReader.NormalExit | bigframes/core/bq_data.py:301-312 | a normal end means every worker put its whole stream; all pages were yielded exactly when nothing was put since the queue was last found empty |
| StreamReader.LosingRun | bigframes/core/bq_data.py:301-312 | a run that ends normally and never yields a page |
| StreamReader.StopStep | bigframes/core/bq_data.py:266-275 | once the flag is set every step lowers a measure over pages left and live workers, and a put takes a free place |
| StreamReader.StopProgress | bigframes/core/bq_data.py:266-275 | as long as a worker is not done some step is possible |
| StreamReader.Shutdown | bigframes/core/bq_data.py:266-275 | after the flag at most as many puts as free places, in runs of bounded length |
| StreamReader.ShutdownComplete | bigframes/core/bq_data.py:266-314 | a run after the flag that cannot go on has let every worker return |
| StreamReader.ConsumerProgress | bigframes/core/bq_data.py:295-312 | until the flag is set the consumer itself can always take a step |
| StreamReader.RunBound | bigframes/core/bq_data.py:260-314 | a run takes at most three steps a page, one a worker, two for each timeout of a worker and, for each timeout of the consumer, two more than there are streams |
| Levenshtein.LevenshteinDistance | bigframes/_tools/strings.py:24-66 | the two swapped rows compute the recursive distance |
| Levenshtein.FillRow | bigframes/_tools/strings.py:42-60 | one row is filled from the row above |
| Levenshtein.IsEditDistance | bigframes/_tools/strings.py:24-30 | some script of that many insertions, deletions and substitutions exists and no script is shorter |
| Levenshtein.Symmetric | bigframes/_tools/strings.py:24-30 | the distance is symmetric |
| Levenshtein.Triangle | bigframes/_tools/strings.py:24-30 | the triangle inequality |
| Levenshtein.ZeroOnlyWhenEqual | bigframes/_tools/strings.py:24-30 | only equal strings have distance zero |
| TextChunks.CutChunks | bigframes/blob/_functions.py:704-711 | the inner loop ends for every positive size and the overlap never changes its result |
| TextChunks.ChunkPages | bigframes/blob/_functions.py:695-713 | the page loop computes the chunks page by page |
| TextChunks.ChunksBounded | bigframes/blob/_functions.py:704-713 | no chunk is longer than the chunk size |
| TextChunks.Rejoin | bigframes/blob/_functions.py:695-713 | for any pages, joining the chunks with spaces gives their text back exactly when each cut falls on a space with text after it, or at the end of a page after which only spaces follow that fill whole chunks |
| TextChunks.LosesNothingWords | bigframes/blob/_functions.py:705-707 | for one page that does not end in a space that is exactly when no word is longer than the chunk size |
| TextChunks.PagesIrrelevant | bigframes/blob/_functions.py:698-711 | the chunks are the same however the text is divided into pages exactly when all words are shorter than the chunk size, except that the last may be as long if the spaces after it fill whole chunks |
| TextChunks.PlainPagesIrrelevant | bigframes/blob/_functions.py:698-711 | for a text that does not end in a space, exactly when all words are shorter than the chunk size but for its last character |
| TextChunks.FullWordPieces | bigframes/blob/_functions.py:705-711 | a word of the chunk size is cut off whole and the character after it is dropped if it has already arrived |
| TextChunks.PagesMatter | bigframes/blob/_functions.py:698-711 | two pages whose chunks differ from those of their joined text |
| TextChunks.LossyExamples | bigframes/blob/_functions.py:705-711 | a long word and a final space are lost |
| ColumnarDecode.IterLists | bigframes/core/local_data.py:259-275 | running offsets take each list's values from a generator that is consumed once and may run out, and where it stands in the end |
| ColumnarDecode.IterArray | bigframes/core/local_data.py:235-295 | decodes lists and structs nested to any depth, a list's items from the flattened child |
| ColumnarDecode.IterTable | bigframes/core/local_data.py:297-306 | the rows of all batches one after the other, which ColumnarEncoding.BatchesRoundTrip ties to the encoded table |
| ColumnarLayouts.OffsetBehind | bigframes/core/local_data.py:259-275 | a list's offset lies behind its items in the flattened child by what null lists before it cover |
| ColumnarLayouts.GeneratorUsed | bigframes/core/local_data.py:259-275 | a list array takes every value of its flattened child, to the last, and asks for more exactly when some null list covers child rows |
| ColumnarLayouts.NullListsShow | bigframes/core/local_data.py:259-295 | whatever row is read, at any nesting, it never equals one in which a null list can be seen |
| ColumnarLayouts.ReadsMeans | bigframes/core/local_data.py:259-295 | a row without a null list to be seen, before whose lists flattening has left out nothing, is decoded right |
| ColumnarLayouts.LaterDiffers | bigframes/core/local_data.py:259-295 | with distinct stored values a later row is never mistaken for one in which a value can be seen |
| ColumnarLayouts.LayoutDecides | bigframes/core/local_data.py:259-295 | a row whose lists all show a value is decoded right for all stored values exactly when it shows no null list and, at every level, no null list before its lists covers child rows |
| ColumnarLayouts.AnyLayoutDecides | bigframes/core/local_data.py:259-295 | for any layout a row is decoded right for all stored values exactly when, level by level, it reads as many items as it has and each in its own place |
| ColumnarLayouts.FullReadsAs | bigframes/core/local_data.py:259-295 | where every list shows a value the two conditions are the same |
| ColumnarLayouts.FlatListsDecide | bigframes/core/local_data.py:259-275 | for lists of plain values: exactly when the list is not null and no null list before it covers any |
| ColumnarLayouts.DecodedMeaning | bigframes/core/local_data.py:259-295 | where null lists cover nothing, a decoded row is the row the layout defines exactly when no null list can be seen in it |
| ColumnarLayouts.CoveredNull | bigframes/core/local_data.py:263-275 | a null list over child rows makes a later list read wrong rows |
| ColumnarLayouts.UnnoticedMisread | bigframes/core/local_data.py:263-275 | lists of null structs only, where reading the wrong rows makes no difference |
| ColumnarEncoding.RoundTrip | bigframes/core/local_data.py:235-295 | encoded rows come back exactly when they hold no null list |
| ColumnarEncoding.BatchesRoundTrip | bigframes/core/local_data.py:297-306 | however a table is cut into batches, every row up to the last cut is read, and right exactly when no column has a null list in it |
| ColumnarEncoding.BatchRoundTrip | bigframes/core/local_data.py:297-306 | a table without null lists is read back as it is across any split into batches |
| Interpolation.InterpolateColumn | bigframes/core/block_transforms.py:205-273 | for rows in any order: known cells stay, cells before the first in the order of x stay missing, those after the last take its value when extrapolating, and those between two lie on the line, take the nearer or take the previous value |
| Interpolation.LastAt | bigframes/core/block_transforms.py:214-216 | the window function over the rows so far finds the last known cell in the order of x, ties by row, and its x value |
| Interpolation.SomeNeighbours | bigframes/core/block_transforms.py:214-216 | every cell has a known neighbour on each side or is before the first or after the last known one |
| Interpolation.KnownKept | bigframes/core/block_transforms.py:273-273 | known cells never change, whatever division by zero gives |
| Interpolation.LeadingMissing | bigframes/core/block_transforms.py:224-273 | cells before the first known one stay missing |
| Interpolation.TrailingFilled | bigframes/core/block_transforms.py:268-273 | cells after the last known one take its value when extrapolating |
| Interpolation.LinearInterior | bigframes/core/block_transforms.py:276-294 | an interior cell lies on the line through its known neighbours and between their values; where these share an x value it takes what the division by zero, else the extrapolation gives |
| Interpolation.LinearByRow | bigframes/core/block_transforms.py:161-162 | with row offsets as x values every interior cell is on the line |
| Interpolation.NearestInterior | bigframes/core/block_transforms.py:297-321 | the nearest method takes the closer neighbour, the left one on a tie |
| Interpolation.FfillInterior | bigframes/core/block_transforms.py:324-336 | forward filling takes the previous known value between two known ones |
| Ranking.RankColumn | bigframes/core/block_transforms.py:413-505 | rows that are counted and have all keys get their rank by definition, missing values on top or at the bottom included, as a share of the group's counted rows if asked for; rows with a missing key get none; missing values to be kept get none for averages and the group's count otherwise; dense ranks are a share of the number of different values |
| Ranking.RunningParts | bigframes/core/block_transforms.py:446-459 | the running count is the counted rows before and the ties so far |
| Ranking.RunningUncounted | bigframes/core/block_transforms.py:446-459 | a missing value that is kept comes after all counted rows of its group |
| Ranking.TieRunning | bigframes/core/block_transforms.py:470-479 | tied rows have consecutive running counts |
| Ranking.GroupMaximum | bigframes/core/block_transforms.py:460-467 | the largest running count of a group is the number of its counted rows |
| Ranking.DenseSteps | bigframes/core/block_transforms.py:446-459 | tied rows share a dense rank and the next value has the next one |
| Ranking.DenseMaximum | bigframes/core/block_transforms.py:460-467 | the largest dense rank of a group is the number of its different values, a missing one included |
| Ranking.RankIsExpected | bigframes/core/block_transforms.py:460-479 | dividing before combining ties gives the share of the rank |
| Ranking.KeptMissingExample | bigframes/core/block_transforms.py:494-505 | a kept missing value that gets a rank |
| SchemaFields.ConvertSchemaField | bigframes/dtypes.py:770-806 | converting the members of a record one after the other, or failing with the first that cannot be converted |
| SchemaFields.ConvertToSchemaField | bigframes/dtypes.py:809-859 | converting a list by its element's column type and repeating the field, and records member by member, is the structural conversion |
| SchemaFields.SchemaRoundTrip | bigframes/dtypes.py:770-859 | a column type comes back from its schema field exactly when no list is directly inside a list, no list is of durations and every nested type has a column type of its own |
| SchemaFields.ListOfList | bigframes/dtypes.py:819-830 | a list of lists comes back as the inner list, if at all |
| SchemaFields.ObjectReferences | bigframes/dtypes.py:774-779 | object references and lists of them come back from their tagged fields |
| SchemaFields.KindRoundTrip | bigframes/dtypes.py:762-767 | each simple type's preferred name leads back to it |

## Left out

- BigQuery clients, sessions, retries and real time; a timeout is a step that may happen when the queue is empty or full.
- Column types: validity covers scalar and bound expressions, resolved references, distinct ids and the rule for row-bounded windows, not whether operators fit the types of their arguments.
- Non-deterministic operators: the compiler may inline a scalar fragment in several places, so every operator is a function of its inputs.
- Any bound on the size of inlined expressions; the guard that should give one never applies.
- Starting the reader's workers one by one and a reader without streams, which the thread pool refuses.
- StreamReader.RunBound: bounds a run by the timeouts in it, not their number, since nothing in the code bounds how long a worker may take.
- Factoring.SubExpressions: leaves windows alone, because factoring replaces any argument that contains one as a whole.
- The in-place set operators of the ordered set, which clear it and add the elements again.
- Interpolation.LinearInterior: takes what dividing by zero gives as a parameter, since the engine decides it.
- Interpolation over real arithmetic; rounding, NaN and missing x values are not part of this model.
- Levenshtein.LevenshteinDistance: counts in natural numbers where the code uses floating-point rows, which are exact for such counts.
- SchemaFields.SchemaRoundTrip: arrow field nullability, overrides of type names and parameterised decimals are not part of this model.
- Conversion of single values (JSON, time spans, geography) while decoding, and field names of structs and tables, which are kept by position.
- Duplicate indicators, value counts, quantiles and the other block transformations, which would only add easier members.
- The offsets column appended to batches, the display code, options and the fixed lookup tables of types.
