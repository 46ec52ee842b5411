# spglsl minifier core, modelled in Dafny

spglsl minifies GLSL shaders on top of ANGLE's intermediate tree. This
project models three pieces of its C++ core and proves what they promise.

- **Symbol usage and renaming** (`symbols/spglsl-symbol-usage.cpp`).
  - A dry-run printer counts how often each symbol is printed. Meanwhile a
    tree of scopes (`ScopeSymbols`, managed by `ScopeSymbolsManager`)
    records which symbols each scope declares and uses.
  - `SpglslSymbolUsage::load` ranks the symbols by frequency and numbers
    them 1..N (their mangle ids).
  - `assignMangleIdsInScope` then lets a declaration reuse a lower id whose
    symbol is not used anywhere below the declaring scope.
  - `SpglslSymbolGenerator` ranks characters and one- and two-letter words
    by how often they occur in the printed text. It hands out one fresh,
    unreserved name per mangle id, first from the word pool and then from a
    counter written in a mixed-radix alphabet.
- **Comma/ternary folding** (`tree-ops/treeops-minify.cpp`).
  - A post-order traversal rewrites every block. One-line `if`s become
    `&&` or `?:`. A ternary of two matching assignments gets the assignment
    hoisted out. Runs of expression statements are folded into
    left-associated comma chains, which can merge into a following
    `return` or `if` condition.
  - The driver repeats traversals until one changes nothing.
- **AST helper predicates** (`lib/spglsl-angle-node-utils.cpp`): block
  emptiness, the single non-empty or last statement of a block, declaration
  and statement classification, and the truth value and all-zero / all-one
  tests of constants.

## Layout

| file | module | models |
|---|---|---|
| `ast.dfy` | `AngleAst` | ANGLE node kinds, types, constants and operators as datatypes |
| `node_utils.dfy` | `NodeUtils` | the helper predicates; loops as methods proved against functions |
| `minify_rules.dfy` | `CommaFolding` | the per-statement rewrites, the fold of one block, one traversal, and the size measure that shrinks on every change |
| `minify_properties.dfy` | `CommaFoldingProperties` | round trips, evaluation-order traces, separation and idempotence of the fold, and the `return` shortcut finding |
| `minify.dfy` | `TreeOpsMinify` | the traverser class with its `hasChanges` flag, and the fixed-point driver |
| `scopes.dfy` | `Scopes` | `ScopeSymbols` and `ScopeSymbolsManager`: an arena of scopes in a class |
| `sorting.dfy` | `Sorting` | the `std::sort` calls and hash-container copies, as sorting methods with permutation contracts |
| `symbol_names.dfy` | `SymbolNames` | `charLess`, the sort comparators and the counter-name spelling |
| `symbol_generator.dfy` | `SymbolGeneration` | `SpglslSymbolGenerator` as a class |
| `symbol_usage.dfy` | `SymbolUsage` | the counter's bookkeeping, `load`, and `assignMangleIds(InScope)` as methods of a usage-table class |

Pointers become values.
- A symbol pointer is a `SymbolId`, with 0 standing for null.
- A scope pointer is an index into the manager's `allScopes` sequence.
- A node pointer is a `MaybeNode` (`NullNode` or `NodePtr(node)`).
- A block is a `MaybeBlock` whose statements are a `seq<Node>`.

Two design choices decide how the `return` shortcut and block change
detection are modelled.
- The `return` shortcut of `visitBlock` is a parameter of type `ReturnRule`
  (see Findings). `TestLeftOperand` is the code as written.
  `TestLastOperand` is the intended rule, and the trace theorem is proved
  for it.
- `visitBlock` detects a change by comparing node pointers. The model
  compares node values instead. This agrees with the code because every
  rewrite that produces a new node strictly shrinks the tree
  (`CommaFolding.PassChangesShrink`). So a new node is never equal in value
  to the old one.

## Model

| member | source | states |
|---|---|---|
| `NodeUtils.OpIsBuiltinUnaryFunction` | project/cpp/spglsl/spglsl-angle/lib/spglsl-angle-node-utils.cpp:7-20 | false exactly for the nine listed operators (negative, positive, logical and bitwise not, the four increments and decrements, array length) |
| `NodeUtils.NodeConstantBooleanValue` | project/cpp/spglsl/spglsl-angle/lib/spglsl-angle-node-utils.cpp:22-51 | -1 for untyped nodes, for basic types other than float/double/int/uint/bool, and for a node without a constant value. Otherwise 0 iff all nominal×secondary components are zero, 1 iff none is, -1 iff they are mixed |
| `NodeUtils.NodeBlockIsEmpty` | project/cpp/spglsl/spglsl-angle/lib/spglsl-angle-node-utils.cpp:53-63 | true iff the node is null or a block without statements (so false for every other node) |
| `NodeUtils.NonEmptyChildrenAppend` | project/cpp/spglsl/spglsl-angle/lib/spglsl-angle-node-utils.cpp:70-77 | the non-empty children of a concatenation are those of each part, in order |
| `NodeUtils.NonEmptyChildrenEmpty` | project/cpp/spglsl/spglsl-angle/lib/spglsl-angle-node-utils.cpp:70-77 | a block has no non-empty child iff every statement is an empty block |
| `NodeUtils.SingleNonEmptyChild` | project/cpp/spglsl/spglsl-angle/lib/spglsl-angle-node-utils.cpp:65-81 | when exactly one child is non-empty, there is a position holding it and every other child is an empty block |
| `NodeUtils.OnlyChildRemains` | project/cpp/spglsl/spglsl-angle/lib/spglsl-angle-node-utils.cpp:65-81 | conversely, a child that is the only non-empty one is the whole list of non-empty children |
| `NodeUtils.BlockSingleNode` | project/cpp/spglsl/spglsl-angle/lib/spglsl-angle-node-utils.cpp:65-81 | null for a null block; otherwise the unique non-empty child when there is exactly one, and null when there are none or two or more |
| `NodeUtils.SecondNonEmptyChild` | project/cpp/spglsl/spglsl-angle/lib/spglsl-angle-node-utils.cpp:71-74 | finding a second non-empty child makes the answer null, which justifies the early `return nullptr` |
| `NodeUtils.NodeGetBlockSingleNode` | project/cpp/spglsl/spglsl-angle/lib/spglsl-angle-node-utils.cpp:65-81 | the loop with its `result` accumulator and early exit returns `BlockSingleNode` |
| `NodeUtils.NodeGetBlockLastNode` | project/cpp/spglsl/spglsl-angle/lib/spglsl-angle-node-utils.cpp:83-94 | a node iff the block is non-null and non-empty, and then its last statement |
| `NodeUtils.NodeHasSideEffects` | project/cpp/spglsl/spglsl-angle/lib/spglsl-angle-node-utils.cpp:96-105 | false for null, true for untyped and prototype nodes, and otherwise ANGLE's `hasSideEffects` of the node |
| `NodeUtils.NodeIsSomeSortOfDeclaration` | project/cpp/spglsl/spglsl-angle/lib/spglsl-angle-node-utils.cpp:107-121 | true exactly for declaration, global qualifier declaration, function definition, prototype, preprocessor directive and binary `Initialize` nodes; false for null |
| `NodeUtils.NodeBlockContainsSomeSortOfDeclaration` | project/cpp/spglsl/spglsl-angle/lib/spglsl-angle-node-utils.cpp:123-140 | as written, the loop over the children with its early `return false`: every block gives false, and any other node gives true iff it is some sort of declaration |
| `NodeUtils.BlockConsistsOfDeclarations` | project/cpp/spglsl/spglsl-angle/lib/spglsl-angle-node-utils.cpp:123-140 | the same loop ending in `return true`: a block qualifies iff every child is some sort of declaration, and any other node iff it is one itself |
| `NodeUtils.DeclarationBlockIsMisreported` | project/cpp/spglsl/spglsl-angle/lib/spglsl-angle-node-utils.cpp:123-140 | on a block holding one declaration the loop as written answers false and the intended loop true |
| `NodeUtils.IsIntermNodeSingleStatement` | project/cpp/spglsl/spglsl-angle/lib/spglsl-angle-node-utils.cpp:328-351 | false exactly for function definition, block, if-else, loop, switch, case and preprocessor nodes |
| `NodeUtils.LeavesPassSplit` | project/cpp/spglsl/spglsl-angle/lib/spglsl-angle-node-utils.cpp:165-167 | walking two runs of components one after the other passes iff each run passes at its own offset |
| `NodeUtils.FieldLeafTypesSplit` | project/cpp/spglsl/spglsl-angle/lib/spglsl-angle-node-utils.cpp:163-168 | the flattened components of a structure are its first fields' followed by the rest's |
| `NodeUtils.WalkConstant` | project/cpp/spglsl/spglsl-angle/lib/spglsl-angle-node-utils.cpp:156-211 | `_constantUnionIsAllZero/One`. A cleared flag or null cursor gives null and leaves the flag unchanged. Otherwise it returns the cursor past the value with the flag still set iff every flattened component passes the test, and a null cursor with the flag cleared otherwise |
| `NodeUtils.WalkFieldsStep` | project/cpp/spglsl/spglsl-angle/lib/spglsl-angle-node-utils.cpp:165-167 | one more field extends the visited components by that field's, and the walk so far passes iff the previous fields and this field pass |
| `NodeUtils.WalkFields` | project/cpp/spglsl/spglsl-angle/lib/spglsl-angle-node-utils.cpp:163-168 | the structure branch's field loop, which stops at a null cursor: every field passes, or the flag is cleared |
| `NodeUtils.NodeConstantUnionIsAllZero` | project/cpp/spglsl/spglsl-angle/lib/spglsl-angle-node-utils.cpp:308-316 | true iff the node is a constant union and, when it has a value, every flattened component is zero; true for a constant without a value |
| `NodeUtils.NodeConstantUnionIsAllOne` | project/cpp/spglsl/spglsl-angle/lib/spglsl-angle-node-utils.cpp:318-326 | true iff the node is a constant union with a value and every flattened component is one of its basic type; false without a value |
| `CommaFolding.AsCommaOpArg` | project/cpp/spglsl/spglsl-angle/tree-ops/treeops-minify.cpp:7-31 | the node itself iff it is non-null, typed, of a foldable kind (aggregate, swizzle, binary, unary, ternary, symbol, constant) and not an array, void or a structure containing arrays; otherwise null |
| `CommaFolding.BranchAssignment` | project/cpp/spglsl/spglsl-angle/tree-ops/treeops-minify.cpp:84-102 | what it finds is always a binary assignment |
| `CommaFolding.FoldIfShrinks` | project/cpp/spglsl/spglsl-angle/tree-ops/treeops-minify.cpp:52-72 | turning an `if` into `&&` or `?:` either changes nothing or strictly shrinks the node |
| `CommaFolding.HoistShrinks` | project/cpp/spglsl/spglsl-angle/tree-ops/treeops-minify.cpp:74-126 | hoisting the shared assignment out of a ternary either changes nothing or strictly shrinks it |
| `CommaFolding.RewriteShrinks` | project/cpp/spglsl/spglsl-angle/tree-ops/treeops-minify.cpp:52-126 | the same for both rewrites in the loop's order |
| `CommaFolding.ChainSizeStep` | project/cpp/spglsl/spglsl-angle/tree-ops/treeops-minify.cpp:214-217 | each further operand adds its own size plus one comma node to the chain |
| `CommaFolding.PlaceFlushedSize` | project/cpp/spglsl/spglsl-angle/tree-ops/treeops-minify.cpp:134-174 | placing flushed commas before, or into, the next statement never grows the block, and strictly shrinks it when the result is not the plain pair |
| `CommaFolding.ReturnMergeSize` | project/cpp/spglsl/spglsl-angle/tree-ops/treeops-minify.cpp:146-153 | both `return` merges are smaller than the flushed statement followed by the `return` |
| `CommaFolding.IfMergeSize` | project/cpp/spglsl/spglsl-angle/tree-ops/treeops-minify.cpp:161-164 | merging the commas into an `if` condition is smaller than the two statements |
| `CommaFolding.FoldPrefixCost` | project/cpp/spglsl/spglsl-angle/tree-ops/treeops-minify.cpp:49-175 | after any prefix of the loop, emitted plus pending statements weigh at most the statements read, with equality only when nothing was folded |
| `CommaFolding.StepCost` | project/cpp/spglsl/spglsl-angle/tree-ops/treeops-minify.cpp:50-174 | one iteration adds at most the weight of the statement it reads |
| `CommaFolding.FoldBlockShrinks` | project/cpp/spglsl/spglsl-angle/tree-ops/treeops-minify.cpp:42-180 | the list `visitBlock` builds is the block itself or strictly smaller |
| `CommaFolding.PassShrinks` | project/cpp/spglsl/spglsl-angle/tree-ops/treeops-minify.cpp:33-42 | one post-order traversal never grows a node, and leaves it unchanged when its size is unchanged |
| `CommaFolding.PassChangesShrink` | project/cpp/spglsl/spglsl-angle/tree-ops/treeops-minify.cpp:223-232 | a traversal that changes the tree strictly shrinks it, so the driver's loop ends |
| `CommaFoldingProperties.ChainRoundTrip` | project/cpp/spglsl/spglsl-angle/tree-ops/treeops-minify.cpp:203-220 | unchaining a flushed comma chain gives back the pending statements in order |
| `CommaFoldingProperties.ChainFoldable` | project/cpp/spglsl/spglsl-angle/tree-ops/treeops-minify.cpp:214-217 | a chain of foldable operands is itself foldable |
| `CommaFoldingProperties.ChainRewriteFixed` | project/cpp/spglsl/spglsl-angle/tree-ops/treeops-minify.cpp:214-217 | a chain of operands the rewrites leave alone is itself left alone |
| `CommaFoldingProperties.RewriteIdempotent` | project/cpp/spglsl/spglsl-angle/tree-ops/treeops-minify.cpp:52-126 | rewriting a rewritten statement changes nothing more |
| `CommaFoldingProperties.HoistRoundTrip` | project/cpp/spglsl/spglsl-angle/tree-ops/treeops-minify.cpp:104-123 | sinking the hoisted assignment back into both branches restores the original ternary, with each branch's comma prefix kept |
| `CommaFoldingProperties.MapRewrite` | project/cpp/spglsl/spglsl-angle/tree-ops/treeops-minify.cpp:49-126 | the unfolded reference: each statement rewritten on its own, same length and positions |
| `CommaFoldingProperties.BlockTraceAppend` | project/cpp/spglsl/spglsl-angle/tree-ops/treeops-minify.cpp:174 | the evaluation trace of consecutive statements is the concatenation of their traces |
| `CommaFoldingProperties.ChainAtoms` | project/cpp/spglsl/spglsl-angle/tree-ops/treeops-minify.cpp:214-217 | a comma chain evaluates its operands' events left to right |
| `CommaFoldingProperties.PureHasNoEvents` | project/cpp/spglsl/spglsl-angle/lib/spglsl-angle-node-utils.cpp:96-105 | an expression without side effects produces no events |
| `CommaFoldingProperties.EmptyBlocksHaveNoEvents` | project/cpp/spglsl/spglsl-angle/lib/spglsl-angle-node-utils.cpp:53-63 | empty blocks do nothing |
| `CommaFoldingProperties.SingleNodeTrace` | project/cpp/spglsl/spglsl-angle/tree-ops/treeops-minify.cpp:58-61 | a block does what its single non-empty statement does |
| `CommaFoldingProperties.FoldIfKeepsTrace` | project/cpp/spglsl/spglsl-angle/tree-ops/treeops-minify.cpp:52-72 | the `&&` and `?:` forms of an `if` have the `if`'s trace |
| `CommaFoldingProperties.PlaceFlushedTrace` | project/cpp/spglsl/spglsl-angle/tree-ops/treeops-minify.cpp:134-174 | with the intended `return` rule, placing the flushed commas keeps their events, then the statement's |
| `CommaFoldingProperties.ReturnMergeTrace` | project/cpp/spglsl/spglsl-angle/tree-ops/treeops-minify.cpp:151-153 | `return (commas, e)` runs the commas, then returns `e` |
| `CommaFoldingProperties.ShortcutTrace` | project/cpp/spglsl/spglsl-angle/tree-ops/treeops-minify.cpp:139-149 | `return commas` is right when the LAST operand assigns the returned (pure) expression |
| `CommaFoldingProperties.IfMergeTrace` | project/cpp/spglsl/spglsl-angle/tree-ops/treeops-minify.cpp:159-164 | `if ((commas, c))` runs the commas, then the original `if` |
| `CommaFoldingProperties.RewriteKeepsReturns` | project/cpp/spglsl/spglsl-angle/tree-ops/treeops-minify.cpp:52-126 | the per-statement rewrites never touch or produce a `return` |
| `CommaFoldingProperties.StepTrace` | project/cpp/spglsl/spglsl-angle/tree-ops/treeops-minify.cpp:49-175 | one iteration keeps the pending statements foldable and extends emitted-plus-pending events by the rewritten statement's |
| `CommaFoldingProperties.FoldPrefixTrace` | project/cpp/spglsl/spglsl-angle/tree-ops/treeops-minify.cpp:49-175 | after any prefix, emitted statements then pending operands produce the events of the prefix rewritten statement by statement |
| `CommaFoldingProperties.FoldBlockKeepsTrace` | project/cpp/spglsl/spglsl-angle/tree-ops/treeops-minify.cpp:42-180 | with the intended rule and pure `return` values, folding a block gives the evaluation trace of the block with each statement rewritten on its own (`MapRewrite`): merging statements into comma chains, `return`s and `if` conditions changes no event |
| `CommaFoldingProperties.ExampleFold` | project/cpp/spglsl/spglsl-angle/tree-ops/treeops-minify.cpp:139-149 | `b = 2; a = 1; return b;` folds to one merged `return` under the rule as written |
| `CommaFoldingProperties.ExampleBlockTrace` | project/cpp/spglsl/spglsl-angle/tree-ops/treeops-minify.cpp:174 | that block assigns b, assigns a, returns b |
| `CommaFoldingProperties.LeftOperandShortcutChangesResult` | project/cpp/spglsl/spglsl-angle/tree-ops/treeops-minify.cpp:139-149 | as written, the fold of that block returns a instead of b |
| `CommaFoldingProperties.LastOperandShortcutKeepsResult` | project/cpp/spglsl/spglsl-angle/tree-ops/treeops-minify.cpp:139-149 | with the intended rule the same block keeps its trace |
| `CommaFoldingProperties.PlaceFlushedShape` | project/cpp/spglsl/spglsl-angle/tree-ops/treeops-minify.cpp:134-174 | what the flush emits is non-empty, ends in a non-foldable statement and has no two adjacent foldable statements |
| `CommaFoldingProperties.StepSeparates` | project/cpp/spglsl/spglsl-angle/tree-ops/treeops-minify.cpp:128-174 | one iteration keeps the loop invariant: emitted statements end non-foldable and never hold two adjacent foldable ones; pending are all foldable |
| `CommaFoldingProperties.PlaceFlushedCarries` | project/cpp/spglsl/spglsl-angle/tree-ops/treeops-minify.cpp:134-173 | under either `return` rule, placing the flushed commas leaves exactly one statement that is not a comma operand: the statement itself, or the same `return` or `if` with the commas merged into its value or condition |
| `CommaFoldingProperties.AbsorbCarries` | project/cpp/spglsl/spglsl-angle/tree-ops/treeops-minify.cpp:128-174 | one iteration extends the emitted non-foldable statements by exactly the counterpart of the statement read, if it is not foldable |
| `CommaFoldingProperties.FoldPrefixCarries` | project/cpp/spglsl/spglsl-angle/tree-ops/treeops-minify.cpp:128-174 | after any prefix, the emitted non-foldable statements correspond one to one and in order to those of the prefix rewritten statement by statement |
| `CommaFoldingProperties.FoldBlockKeepsOrder` | project/cpp/spglsl/spglsl-angle/tree-ops/treeops-minify.cpp:128-180 | under either `return` rule and for any block, the statements of the new block that are not comma operands are those of the block with each statement rewritten on its own, in the same order: each unchanged, or the same `return` or `if` with the flushed commas merged in |
| `CommaFoldingProperties.FoldBlockSeparates` | project/cpp/spglsl/spglsl-angle/tree-ops/treeops-minify.cpp:128-180 | no two adjacent statements of the new block are both foldable |
| `CommaFoldingProperties.StepStable` | project/cpp/spglsl/spglsl-angle/tree-ops/treeops-minify.cpp:49-175 | folding an already folded list replays it unchanged step by step |
| `CommaFoldingProperties.FoldBlockIdempotent` | project/cpp/spglsl/spglsl-angle/tree-ops/treeops-minify.cpp:42-180 | folding a folded block gives it back unchanged |
| `TreeOpsMinify.FlushCommas` | project/cpp/spglsl/spglsl-angle/tree-ops/treeops-minify.cpp:203-220 | the loop builds null for no operand, the operand for one, the left-associated chain for more (the partner is `ChainRoundTrip`) |
| `TreeOpsMinify.CommaOperatorTraverser.constructor` | project/cpp/spglsl/spglsl-angle/tree-ops/treeops-minify.cpp:35-40 | a traverser starts with `hasChanges` false |
| `TreeOpsMinify.CommaOperatorTraverser.RewriteIf` | project/cpp/spglsl/spglsl-angle/tree-ops/treeops-minify.cpp:52-72 | computes `FoldIf`, whose trace and size properties are proved |
| `TreeOpsMinify.CommaOperatorTraverser.RewriteTernary` | project/cpp/spglsl/spglsl-angle/tree-ops/treeops-minify.cpp:74-126 | computes `HoistAssignment`, whose round trip is proved |
| `TreeOpsMinify.CommaOperatorTraverser.PlaceCommas` | project/cpp/spglsl/spglsl-angle/tree-ops/treeops-minify.cpp:134-174 | computes `PlaceFlushed` under the traverser's `return` rule |
| `TreeOpsMinify.CommaOperatorTraverser.Differs` | project/cpp/spglsl/spglsl-angle/tree-ops/treeops-minify.cpp:182-192 | the length check and element loop report a change iff the new list differs from the block |
| `TreeOpsMinify.CommaOperatorTraverser.VisitBlock` | project/cpp/spglsl/spglsl-angle/tree-ops/treeops-minify.cpp:42-200 | the block becomes `FoldBlock` of it, and `hasChanges` is set iff it changed |
| `TreeOpsMinify.CommaOperatorTraverser.Traverse` | project/cpp/spglsl/spglsl-angle/tree-ops/treeops-minify.cpp:33-42 | one post-order traversal yields `Pass` and raises `hasChanges` iff the node changed |
| `TreeOpsMinify.CommaOperatorTraverser.TraverseSeq` | project/cpp/spglsl/spglsl-angle/tree-ops/treeops-minify.cpp:33-42 | children are visited left to right; the flag is raised iff some child changed |
| `TreeOpsMinify.MinifyTree` | project/cpp/spglsl/spglsl-angle/tree-ops/treeops-minify.cpp:223-232 | the driver ends at a tree one traversal leaves unchanged, reached by repeating traversals, and no larger than the input |
| `Scopes.IsSymbolDeclared` | project/cpp/spglsl/spglsl-angle/symbols/spglsl-symbol-usage.cpp:36-38 | declared in the scope or in its immediate parent only, not further up |
| `Scopes.SymbolUsedIff` | project/cpp/spglsl/spglsl-angle/symbols/spglsl-symbol-usage.cpp:20-30 | `isSymbolUsed` holds iff some scope of the subtree lists the symbol as used |
| `Scopes.RenamedReplaces` | project/cpp/spglsl/spglsl-angle/symbols/spglsl-symbol-usage.cpp:48-50 | renaming puts the target in iff the source was there, removes the source and keeps everything else |
| `Scopes.RenamedTwice` | project/cpp/spglsl/spglsl-angle/symbols/spglsl-symbol-usage.cpp:48-50 | renaming a second time changes nothing |
| `Scopes.ScopeSymbolsManager.constructor` | project/cpp/spglsl/spglsl-angle/symbols/spglsl-symbol-usage.cpp:63-65 | one empty root scope and no current scope |
| `Scopes.ScopeSymbolsManager.BeginScope` | project/cpp/spglsl/spglsl-angle/symbols/spglsl-symbol-usage.cpp:67-78 | without a current scope the root becomes current and nothing is created. Otherwise exactly one new scope is appended, it is a child of the current scope and becomes current, and the depth goes up by one |
| `Scopes.ScopeSymbolsManager.EndScope` | project/cpp/spglsl/spglsl-angle/symbols/spglsl-symbol-usage.cpp:80-84 | moves to the parent, or stays without a current scope; the depth goes down by one |
| `Scopes.ScopeSymbolsManager.AddSymbolUsed` | project/cpp/spglsl/spglsl-angle/symbols/spglsl-symbol-usage.cpp:32-34 | adds the symbol to that scope's used set only |
| `Scopes.ScopeSymbolsManager.AddDeclaredSymbol` | project/cpp/spglsl/spglsl-angle/symbols/spglsl-symbol-usage.cpp:40-45 | always marks the symbol used. It adds the declaration only when neither the scope nor its parent already declares it. No other scope changes |
| `Scopes.ScopeSymbolsManager.RenameInScope` | project/cpp/spglsl/spglsl-angle/symbols/spglsl-symbol-usage.cpp:48-50 | renames in the one scope |
| `Scopes.ScopeSymbolsManager.RenameUsedSymbol` | project/cpp/spglsl/spglsl-angle/symbols/spglsl-symbol-usage.cpp:47-54 | the recursive rename over the subtree, equal to `RenameFrom` (whose meaning is `RenameUsedSymbolSpec`) |
| `Scopes.RenameFromShape` | project/cpp/spglsl/spglsl-angle/symbols/spglsl-symbol-usage.cpp:47-54 | renaming leaves parents, children and declarations alone |
| `Scopes.RenameUsedSymbolSpec` | project/cpp/spglsl/spglsl-angle/symbols/spglsl-symbol-usage.cpp:47-54 | after the rename, every scope of the subtree has its used set renamed (source gone, target in iff source or target was), and scopes outside and all declarations are unchanged |
| `Scopes.RenameChildrenSpec` | project/cpp/spglsl/spglsl-angle/symbols/spglsl-symbol-usage.cpp:51-53 | after the first k children, the scope and those children's subtrees are renamed |
| `Scopes.RenameStep` | project/cpp/spglsl/spglsl-angle/symbols/spglsl-symbol-usage.cpp:51-53 | renaming one more child's subtree extends the renamed region by it |
| `Scopes.ChildrenCoverSubtree` | project/cpp/spglsl/spglsl-angle/symbols/spglsl-symbol-usage.cpp:24-28 | a scope's subtree is itself plus its children's subtrees |
| `Sorting.Insert` | project/cpp/spglsl/spglsl-angle/symbols/spglsl-symbol-usage.cpp:225-228 | inserting into a sorted list keeps it sorted and adds exactly the element |
| `Sorting.InsertionSort` | project/cpp/spglsl/spglsl-angle/symbols/spglsl-symbol-usage.cpp:225-228 | `std::sort` under a strict order: a sorted permutation of the input |
| `Sorting.SetToSeq` | project/cpp/spglsl/spglsl-angle/symbols/spglsl-symbol-usage.cpp:158-160 | listing a hash set: each element exactly once, in an unspecified order |
| `Sorting.DistinctFromSet` | project/cpp/spglsl/spglsl-angle/symbols/spglsl-symbol-usage.cpp:158-160 | such a list has the set's members, no repeats, and the set's size |
| `Sorting.SortedItems` | project/cpp/spglsl/spglsl-angle/symbols/spglsl-symbol-usage.cpp:337-340 | a hash map's entries copied into a vector and sorted: a sorted permutation of the entries |
| `Sorting.ItemsListed` | project/cpp/spglsl/spglsl-angle/symbols/spglsl-symbol-usage.cpp:337 | every listed entry is in the map with its count, every key is listed, no key twice |
| `SymbolNames.CharLessIsStrictTotal` | project/cpp/spglsl/spglsl-angle/symbols/spglsl-symbol-usage.cpp:257-271 | `charLess` is irreflexive, transitive and ranks any two distinct characters exactly one way |
| `SymbolNames.PairShape` | project/cpp/spglsl/spglsl-angle/symbols/spglsl-symbol-usage.cpp:328-332 | a counted pair is a letter followed by a letter or digit |
| `SymbolNames.CountThenCharIsStrictOrder` | project/cpp/spglsl/spglsl-angle/symbols/spglsl-symbol-usage.cpp:338-340 | the character comparator (count descending, then `charLess`) is a strict order, total on distinct characters |
| `SymbolNames.WordBeforeIsStrictOrder` | project/cpp/spglsl/spglsl-angle/symbols/spglsl-symbol-usage.cpp:358-369 | the word comparator (shorter, then more frequent, then `charLess` on each character) is a strict order |
| `SymbolNames.WordBeforeTotal` | project/cpp/spglsl/spglsl-angle/symbols/spglsl-symbol-usage.cpp:358-369 | it ranks any two distinct one- or two-character words |
| `SymbolNames.CounterName` | project/cpp/spglsl/spglsl-angle/symbols/spglsl-symbol-usage.cpp:388-397 | a counter name is non-empty, starts with a pool letter and continues with letters and digits |
| `SymbolNames.CounterTail` | project/cpp/spglsl/spglsl-angle/symbols/spglsl-symbol-usage.cpp:392-396 | the bijective digits are empty iff the remaining index is 0 |
| `SymbolNames.TailRoundTrip` | project/cpp/spglsl/spglsl-angle/symbols/spglsl-symbol-usage.cpp:392-396 | reading the bijective base-n digits back gives the index |
| `SymbolNames.CounterNameRoundTrip` | project/cpp/spglsl/spglsl-angle/symbols/spglsl-symbol-usage.cpp:388-397 | reading a counter name back gives its counter value |
| `SymbolNames.CounterNameInjective` | project/cpp/spglsl/spglsl-angle/symbols/spglsl-symbol-usage.cpp:388-397 | different counter values give different names |
| `SymbolNames.PendingShrinks` | project/cpp/spglsl/spglsl-angle/symbols/spglsl-symbol-usage.cpp:384-405 | each rejected counter name leaves fewer rejected names ahead, so the retry loop ends |
| `SymbolGeneration.InitialCounts` | project/cpp/spglsl/spglsl-angle/symbols/spglsl-symbol-usage.cpp:296-312 | every letter (and, in the second pool, every digit) and every one-letter word starts at 1, and nothing else is counted |
| `SymbolGeneration.CharCountsStep` | project/cpp/spglsl/spglsl-angle/symbols/spglsl-symbol-usage.cpp:317-326 | counting one more character keeps each pool's count equal to 1 + occurrences in the text read so far |
| `SymbolGeneration.WordCountsStep` | project/cpp/spglsl/spglsl-angle/symbols/spglsl-symbol-usage.cpp:321-332 | the same for words: a letter's count plus each letter-then-alphanumeric pair seen |
| `SymbolGeneration.CountChar` | project/cpp/spglsl/spglsl-angle/symbols/spglsl-symbol-usage.cpp:316-334 | the body of the counting loop computes the next counts |
| `SymbolGeneration.CountText` | project/cpp/spglsl/spglsl-angle/symbols/spglsl-symbol-usage.cpp:296-335 | the maps hold exactly the letters, the alphanumerics and the candidate words, each with 1 + its occurrences |
| `SymbolGeneration.RankChars` | project/cpp/spglsl/spglsl-angle/symbols/spglsl-symbol-usage.cpp:337-355 | `chars` / `charsAndNumbers` hold exactly the 52 letters / 62 alphanumerics, once each, most frequent first, ties by `charLess` |
| `SymbolGeneration.KeysInOrder` | project/cpp/spglsl/spglsl-angle/symbols/spglsl-symbol-usage.cpp:342-345 | copies the keys of the sorted pairs in order |
| `SymbolGeneration.RankWords` | project/cpp/spglsl/spglsl-angle/symbols/spglsl-symbol-usage.cpp:357-369 | every counted word once, with its count, in the word comparator's order |
| `SymbolGeneration.WordLength` | project/cpp/spglsl/spglsl-angle/symbols/spglsl-symbol-usage.cpp:296-332 | candidate words have one or two characters |
| `SymbolGeneration.UnreservedRanked` | project/cpp/spglsl/spglsl-angle/symbols/spglsl-symbol-usage.cpp:371-377 | filtering out reserved words keeps exactly the unreserved ones, still in rank order |
| `SymbolGeneration.SymbolGenerator.constructor` | project/cpp/spglsl/spglsl-angle/symbols/spglsl-symbol-usage.cpp:273-275 | the empty string is the only additional reserved word; nothing is issued yet |
| `SymbolGeneration.SymbolGenerator.AddReservedWord` | project/cpp/spglsl/spglsl-angle/symbols/spglsl-symbol-usage.cpp:277-283 | a word is reserved afterwards iff it was before or is the added word; nothing else changes |
| `SymbolGeneration.SymbolGenerator.RankUnreservedWords` | project/cpp/spglsl/spglsl-angle/symbols/spglsl-symbol-usage.cpp:357-377 | `words` holds exactly the unreserved candidate words, in rank order |
| `SymbolGeneration.SymbolGenerator.Load` | project/cpp/spglsl/spglsl-angle/symbols/spglsl-symbol-usage.cpp:285-378 | the three pools as above, with no reserved word in `words`; the issuing state is untouched |
| `SymbolGeneration.SymbolGenerator.SpellCounter` | project/cpp/spglsl/spglsl-angle/symbols/spglsl-symbol-usage.cpp:388-397 | spells `CounterName` of the index, whose round trip is proved |
| `SymbolGeneration.SymbolGenerator.NextCandidate` | project/cpp/spglsl/spglsl-angle/symbols/spglsl-symbol-usage.cpp:385-398 | the next unused word while the pool lasts, then the next counter name |
| `SymbolGeneration.SymbolGenerator.NextFreeName` | project/cpp/spglsl/spglsl-angle/symbols/spglsl-symbol-usage.cpp:384-405 | a name neither reserved nor issued, now recorded as issued. Words are taken in order before the counter, and every candidate skipped on the way was rejected |
| `SymbolGeneration.SymbolGenerator.GetOrCreateMangledName` | project/cpp/spglsl/spglsl-angle/symbols/spglsl-symbol-usage.cpp:380-409 | a known id returns its memoised name and changes nothing. A new id gets a fresh non-empty, unreserved, never-issued name: the next acceptable word of the pool while the pool lasts, every skipped word being reserved or issued, and only after the pool the first acceptable counter name. No two ids share a name |
| `SymbolGeneration.MemoisedTwice` | project/cpp/spglsl/spglsl-angle/symbols/spglsl-symbol-usage.cpp:380-383 | two calls with the same id return the same name |
| `SymbolUsage.ScopeGains` | project/cpp/spglsl/spglsl-angle/symbols/spglsl-symbol-usage.cpp:32-45 | a declaration or reference adds to the used symbols across the arena and adds at most the symbol to its declarations |
| `SymbolUsage.RenameKeepsDeclarations` | project/cpp/spglsl/spglsl-angle/symbols/spglsl-symbol-usage.cpp:47-54 | renaming never touches declarations |
| `SymbolUsage.UsageTable.Handle` | project/cpp/spglsl/spglsl-angle/symbols/spglsl-symbol-usage.cpp:104-144 | one counter event. Scope begin and end move the depth. A declaration marks the symbol used and may declare it. A reference adds one to that symbol's frequency and marks it used when its entry has a symbol. No other record changes |
| `SymbolUsage.UsageTable.OnSymbolDeclaration` | project/cpp/spglsl/spglsl-angle/symbols/spglsl-symbol-usage.cpp:114-119 | the current scope declares the symbol (per `AddDeclaredSymbol`) and marks it used |
| `SymbolUsage.UsageTable.GetSymbolName` | project/cpp/spglsl/spglsl-angle/symbols/spglsl-symbol-usage.cpp:129-139 | frequency goes up by exactly one; the symbol is marked used iff its entry has a symbol; declarations unchanged |
| `SymbolUsage.UsageTable.Count` | project/cpp/spglsl/spglsl-angle/symbols/spglsl-symbol-usage.cpp:206-209 | after the whole traversal each frequency has grown by that symbol's references, the used symbols are those marked, and the declarations are among those declared |
| `SymbolUsage.RankOrderIsStrict` | project/cpp/spglsl/spglsl-angle/symbols/spglsl-symbol-usage.cpp:225-228 | the ranking comparator is a strict order |
| `SymbolUsage.UsageTable.Rank` | project/cpp/spglsl/spglsl-angle/symbols/spglsl-symbol-usage.cpp:215-237 | only records with an entry and id ≥ 0 are ranked, sorted by frequency descending then insertion order, and numbered 1..N; no other record changes |
| `SymbolUsage.UsageTable.Number` | project/cpp/spglsl/spglsl-angle/symbols/spglsl-symbol-usage.cpp:232-237 | the symbol at position j gets mangle id j + 1 and `sorted` is the list |
| `SymbolUsage.RankedIdsArePermutation` | project/cpp/spglsl/spglsl-angle/symbols/spglsl-symbol-usage.cpp:215-237 | the ranked ids are exactly 1..N, N the number of rankable records, one per symbol |
| `SymbolUsage.RankedIdsFollowFrequency` | project/cpp/spglsl/spglsl-angle/symbols/spglsl-symbol-usage.cpp:225-237 | a more frequent symbol gets a lower id; on a tie, the one inserted first does |
| `SymbolUsage.RenameAllShape` | project/cpp/spglsl/spglsl-angle/symbols/spglsl-symbol-usage.cpp:187 | the renames of one scope's pass keep the arena's links |
| `SymbolUsage.RenameAllKeeps` | project/cpp/spglsl/spglsl-angle/symbols/spglsl-symbol-usage.cpp:187 | they touch only the subtree's used sets, keep every symbol not renamed away, and no declarations |
| `SymbolUsage.UnusedOrFreed` | project/cpp/spglsl/spglsl-angle/symbols/spglsl-symbol-usage.cpp:185-187 | a symbol unused after the pass's renames was unused before, or was renamed away |
| `SymbolUsage.ReuseStep` | project/cpp/spglsl/spglsl-angle/symbols/spglsl-symbol-usage.cpp:178-190 | accepting a candidate keeps the pass invariant: ids only lowered, set only for declarations, cursor strictly forward, taken symbols unused |
| `SymbolUsage.ForwardStep` | project/cpp/spglsl/spglsl-angle/symbols/spglsl-symbol-usage.cpp:178-188 | the candidate cursor only moves forward |
| `SymbolUsage.FreeStep` | project/cpp/spglsl/spglsl-angle/symbols/spglsl-symbol-usage.cpp:185 | each taken candidate was unused in the subtree (or freed by an earlier rename) |
| `SymbolUsage.UsageTable.ScanCandidates` | project/cpp/spglsl/spglsl-angle/symbols/spglsl-symbol-usage.cpp:178-191 | the candidate loop. Every skipped candidate has a lower id and is used in the subtree. Either it stops at one whose id is not lower, changing nothing, or it takes the first unused lower one, sets `newMangleId` to its id and renames |
| `SymbolUsage.UsageTable.ConsiderDeclaration` | project/cpp/spglsl/spglsl-angle/symbols/spglsl-symbol-usage.cpp:169-191 | one declaration: skipped when its id is ≤ 0 or it has no entry, else scanned; the pass invariant is kept |
| `SymbolUsage.UsageTable.AssignMangleIdsInScope` | project/cpp/spglsl/spglsl-angle/symbols/spglsl-symbol-usage.cpp:154-193 | the reuses are made in order of their declarations' mangle ids, lowest first (`ReusesAscending`); only `newMangleId` changes, only for declarations of the scope, only to a lower id of a candidate unused in the subtree; the cursor only moves forward |
| `SymbolUsage.ScopePassLowers` | project/cpp/spglsl/spglsl-angle/symbols/spglsl-symbol-usage.cpp:195-199 | across scopes, every changed `newMangleId` stays a lower id the record may reuse |
| `SymbolUsage.UsageTable.AssignMangleIds` | project/cpp/spglsl/spglsl-angle/symbols/spglsl-symbol-usage.cpp:195-199 | every scope in turn; only `newMangleId` changes, and only to lower ids |
| `SymbolUsage.KeptAlongIsKeptNames` | project/cpp/spglsl/spglsl-angle/symbols/spglsl-symbol-usage.cpp:242-249 | the names reserved along the hash map's order are those of all kept symbols, whatever the order |
| `SymbolUsage.UsageTable.ApplyTo` | project/cpp/spglsl/spglsl-angle/symbols/spglsl-symbol-usage.cpp:243-248 | one symbol adopts its `newMangleId` when ≥ 0; otherwise a reserved symbol has its name reserved |
| `SymbolUsage.UsageTable.Apply` | project/cpp/spglsl/spglsl-angle/symbols/spglsl-symbol-usage.cpp:242-249 | every symbol does; the generator's pools are untouched |
| `SymbolUsage.UsageTable.RunCounter` | project/cpp/spglsl/spglsl-angle/symbols/spglsl-symbol-usage.cpp:204-213 | the counting block: a fresh manager, frequencies grown by references, the generator loaded from the printed text |
| `SymbolUsage.CountedRanked` | project/cpp/spglsl/spglsl-angle/symbols/spglsl-symbol-usage.cpp:206-237 | the counted-then-ranked records number the ranked symbols 1..N and leave the others as counted |
| `SymbolUsage.AdoptedIds` | project/cpp/spglsl/spglsl-angle/symbols/spglsl-symbol-usage.cpp:239-250 | after reuse and application, the symbol ranked i has an id in 1..i+1, unranked records are unchanged, and the names reserved are those of the symbols whose id was negative |
| `SymbolUsage.LoadMangled` | project/cpp/spglsl/spglsl-angle/symbols/spglsl-symbol-usage.cpp:201-251 | the same, stated against the records before `load` |
| `SymbolUsage.UsageTable.Load` | project/cpp/spglsl/spglsl-angle/symbols/spglsl-symbol-usage.cpp:201-251 | `sorted` is the rankable symbols in rank order. Without a generator they get ids 1..N. With one, each ranked symbol's final id is at most its rank, the other records are only counted, the pools are loaded, and exactly the names of the symbols whose id was negative are added to the reserved words |

## Left out

- The printer itself: text output, `getBuiltinTypeName` and the
  `beforeVisitFunctionPrototype` hook. The traversal is an input sequence
  of `CounterEvent`s (scope begin, scope end, declaration, reference). The
  printed text is an input string.
- `UsageTable.GetSymbolName`: the string `getSymbolName` returns is not
  modelled, only its bookkeeping.
- The usage records' header is not part of this model.
  - Records are input as a map that starts with `newMangleId < 0`.
  - `usage.get` is assumed to find a record. The counter's references and
    the declarations must be tracked (`Tracked`), which `load`'s callers
    guarantee by building the map first.
- `spglslIsWordReserved`: the language's keyword table is a set of strings
  fixed when the generator is constructed.
- `AngleAstHasher::nodesAreTheSame`: plain value equality of nodes.
- Hash-container iteration order is arbitrary. Each traversal of a hash
  set or map is an unspecified listing (`Sorting.SetToSeq`, or a sequence
  given as a permutation of the keys). Every result stated is proved for
  all orders.
- `floor` on doubles in the counter spelling: the index is non-negative
  and the model divides exactly on unbounded integers. The C++ division in
  double precision gives the same value only while the counter stays below
  2^53; larger counters, where doubles lose integer precision, are not
  modelled.
- Characters are ASCII. `isalpha`, `islower` and `isalnum` use the C
  locale.
- The dead branch of `beginScope` that re-creates a missing root: the
  constructor always creates one.
- `mergedFunctions` in `assignMangleIdsInScope` is never used.
- `nodeGetAsFunction`, `nodeGetKind`, `AngleNodeKind_name` and the
  constant-filling functions (`_writeConstantUnionFromScalar`,
  `CreateConstantUnionFillFromScalar`,
  `nodeCreateConstantUnionFillFromScalar`). They are float/int casts, NaN
  handling and heap arrays, or they become trivial once nodes are a
  datatype.
- Floating-point comparisons: "is zero" and "is one" of a constant
  component are predicates on an abstract scalar.
- ANGLE's own `hasSideEffects`, `getType`, `isArray` and the like are
  datatype fields and functions in `AngleAst`.
- Pointer identity in `visitBlock`'s change test is modelled as value
  equality (see above). Node allocation and ownership are out.
- `CommaFoldingProperties.FoldBlockKeepsTrace`: proved for blocks whose
  `return` values have no side effects (`PureReturns`), and only for the
  intended `return` rule. Blocks returning an expression with side effects
  are not covered by that theorem.
- `CommaFoldingProperties.FoldBlockKeepsTrace` compares the folded block
  with the block whose statements are each rewritten on their own, not
  with the original block. The trace model counts an assignment as one
  event, so hoisting an assignment out of a ternary
  (`c ? (x = a) : (x = b)` to `x = c ? a : b`) turns a choice between two
  events into one event. The hoist is related to the original only by the
  structural round trip `CommaFoldingProperties.HoistRoundTrip`; no trace
  equality is proved for it. The `if` rewrites are covered
  (`CommaFoldingProperties.FoldIfKeepsTrace`).
- `SymbolUsage.UsageTable.Count`, `SymbolUsage.UsageTable.RunCounter` and
  `SymbolUsage.UsageTable.Load` assume that the printer opens a scope
  before any declaration or reference (`InsideScopes`), so they require a
  current scope for every declaration and every reference. In the source,
  a declaration, or a reference whose entry has a symbol, made with no
  current scope would dereference a null `currentScope`
  (`spglsl-symbol-usage.cpp` lines 117 and 133); that case is not
  modelled.
- `TreeOpsMinify.MinifyTree`: the number of traversals is a ghost output.
  The loop has no cap in the source either; it ends because every changing
  traversal shrinks the tree.
- `project/test/optimizations/operators-optimizations.test.ts` exercises
  operator simplifications that are not part of this model.
- `project/packages/spglsl/src/spglsl-resource-limits.ts` is a
  configuration table and is not part of this model.

## Findings

| source | as written | input that shows it | evidently intended | confidence | as-written member | corrected member |
|---|---|---|---|---|---|---|
| project/cpp/spglsl/spglsl-angle/tree-ops/treeops-minify.cpp:139-149 | the `return` shortcut drops the returned expression when the LEFT operand of the flushed comma assigns it | `b = 2; a = 1; return b;` folds to `return (b = 2, a = 1);`, which returns a | drop it only when the LAST operand assigns the returned expression, as the comment at line 145 says | high, not executed | `CommaFoldingProperties.LeftOperandShortcutChangesResult` | `CommaFoldingProperties.LastOperandShortcutKeepsResult` |
| project/cpp/spglsl/spglsl-angle/lib/spglsl-angle-node-utils.cpp:123-140 | for a block, the loop only ever returns false and then falls through to `return false`, so a block never qualifies | a block holding one declaration gives false | true when every child is some sort of declaration | medium, not executed | `NodeUtils.DeclarationBlockIsMisreported` | `NodeUtils.BlockConsistsOfDeclarations` |
