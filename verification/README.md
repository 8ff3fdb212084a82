# Verified models of the configuration engine and driver support code

This project models, in Dafny 4.11, four parts of the repository and proves what each of them is for:

- the **Kconfig expression optimiser** (`tools/kconfig/expr.c`): the rewriting passes over
  three-valued dependency expressions (no, mod, yes under minimum, maximum and 2 - x), and the way
  `menu_finalize` combines them;
- the **Kconfig value engine** (`symbol.c`, `menu.c`, `confdata.c`): the caching evaluator, the range
  check for new values, the search for recursive dependencies, the restructuring of the menu tree
  and the walk over it, and the writing and reading of configuration lines;
- the **logger's buffer protocol** (`tools/mtlkroot/log_drv.c`), as a state machine whose steps are the
  critical sections;
- the **driver support structures** of `wireless/shared`: hierarchical statistics, the chained hash
  with its enumerator, the sort of linked lists, the staged init and cleanup macros and the glob matcher.

`dafny verify dfyconfig.toml` checks all of it.

## How the model is laid out

| module | what it holds |
|---|---|
| Common | options, and small facts about sequences |
| KconfigSyntax, ComparisonLaws | expressions, symbols, their values and the evaluation of expressions; the order that comparisons follow |
| ExprEqual, ExprReflexive | constant folding, cancellation of common operands, and equality by cancelling |
| ExprDups, ExprResult | pairwise elimination of duplicates, and which pairs of operands its result is free of |
| ExprTransform, ExprCompare | normalisation and the boolean relaxation; the comparison rewriting |
| MenuDeps | the dependencies `menu_finalize` builds, and its test for nesting an entry |
| SymbolValues, ValueLaws, SymbolCache, OptimisedNetwork, SelectExample | the values of symbols by plain recursion, and what characterises them; the caching evaluator in the source's form; what storing rewritten conditions does to the values |
| Graphs, DependencyCheck, CheckedNetwork | cycles, topological orders and rankings; the depth-first search for cycles; what its silence is worth to the evaluator |
| MenuForest | the menu entries with their `next`, `list` and `parent` pointers, and the trees these stand for |
| MenuShape, MenuPairs | the tree `menu_finalize` produces, as functions on trees; which entries are children of which in it |
| MenuTree, MenuNesting, MenuWalk | `menu_finalize` on the pointers; the same with its own test of dependencies; the climbing walk of `conf_write` |
| ConfigStrings, ConfigLines, ConfigFile | escaping and in-place unescaping, single lines, whole files |
| LogProtocol, LogProgress, LogDriver | the buffer protocol as a state machine; what every run delivers; and the driver's functions, each of which is one step of it |
| WssTables, WssObjects, WssCounters, WssHistory | hierarchical statistics: the merged tables, objects and their memory, counting, and whole histories of creating, deleting, opening and counting |
| HashLists, HashTable, MultiHash | bucket lists and cursors; the hash and its enumerator; the hash with several entries for one key and its finder |
| SlistSort | the insertion sort on links |
| StartupSteps | the init and cleanup macros on their two bit fields |
| GlobPattern | patterns, their language, and the matcher |

Code that updates things in place is modelled in that form (objects with links and fields, arrays,
loops with invariants) and proved against functions on values; the code of `expr.c`, which builds and
inspects trees by recursion, is modelled by functions on trees, with the two pointers that
`expr_eliminate_dups1` moves over one tree as cursors into it.

Conventions that the expression proofs rely on, stated as `Proper` and proved of every evaluated
network in `SymbolValues.SnapshotIsProper`: a bool symbol is never mod, the string of a bool or
tristate symbol mirrors its value, and different constants have different strings.

## What does not hold as one might expect

Where the code does not do what its purpose suggests, the model follows the code, gives an input, and
proves the exact condition; the two conditions that are exact only for some expressions are listed
under "Left out".

- `expr_eliminate_dups` folds only after a pass that joined something, so a constant yes or no can be
  left in its result. That is so exactly if there was one in its input and nothing there can be joined
  (`ExprDups.ReducedIsFoldableExactly`); "y and A" stays as it is (`ExprDups.ConstantIsLeft`).
- `expr_transform` leaves negations above constants other than y, m and n, exactly if one of them is
  used as a value below an odd number of negations
  (`ExprTransform.TransformNegatesVariablesExactly`, `ExprTransform.NegatedConstantIsLeft`).
- `expr_trans_bool` keeps "not equal to no" because negations sit on symbols only. Under a negation of
  a comparison it is wrong exactly for the value mod (`ExprTransform.TransBoolUnderNot`).
- The stored conditions of prompts and defaults never change a value, although those of bool symbols
  are relaxed by `expr_trans_bool`. The relaxed conditions of selects and implies can: a bool symbol
  that selects a tristate one if C is not n makes it m, not y, when C is m
  (`SelectExample.SelectCanLoseYes`). All values are kept exactly if every symbol that is y and can be
  mod is made so by something else as well (`OptimisedNetwork.StoredValuesExactly`).
- `expr_trans_compare` is right in every assignment if only bool and tristate symbols and y, m, n are
  used as values, and none that can be mod below an odd number of negations. For expressions over bool
  and tristate symbols and = or != tests of them against y or n that use no symbol twice this is exact
  (`ExprCompare.PlainExactly`). Any other symbol used as a value is a failure by itself in the
  comparison with n, which is the one `menu_finalize` makes (`ExprCompare.OtherValuesAreWrong`); a
  repeated symbol can make up for it (`ExprCompare.RepetitionCanHelp`).
- So the nesting test of `menu_finalize` can nest an entry that is visible when its new parent is off:
  one that depends on "not A and not S", below S, whose prompt needs "A is n"
  (`MenuDeps.NestedButAlone`). It cannot if the entry's condition is as above
  (`MenuDeps.PlainEntryIsNestedSafely`); and where only bool and tristate symbols and y, m, n are used as
  values, an entry that is visible with y never is in that position (`MenuDeps.AdoptedNeedsParent`).
- Storing the value a symbol already has skips the range check and leaves the caches valid; the value
  survives the next recalculation exactly under the condition of `SymbolValues.SetSameValueExact`, and
  `SymbolValues.SetSameValueCanFail` gives a case in which it does not.
- The range check accepts y for a symbol that is selected with m, visible with y and implied by y, although
  such a symbol is y whatever the user sets (`ValueLaws.AcceptedWithoutEffect`). Otherwise it accepts some
  value exactly if the user's choice can change the symbol's value (`ValueLaws.AcceptsExactly`).
- The search for recursive dependencies does not look at what implies a symbol. It does look at direct
  dependencies, because every entry gives its symbol a property whose stored condition is the entry's
  dependency, so a cycle through them is always reported (`CheckedNetwork.DirectCycleIsReported`). Two
  symbols that imply each other pass it (`CheckedNetwork.ImpliedCycleIsUnseen`). After a search without
  a report the values are well defined exactly if there is no cycle through an implying symbol or its
  condition (`CheckedNetwork.SilentCheckExactly`).
- The sweep prints a report if and only if there is a cycle, but no call made by the sweep returns a
  symbol, because the search clears its result when it is back at the start of the cycle; so no error
  is counted (`DependencyCheck.Checker.Sweep`).
- A comment at `tools/kconfig/expr.c:499` says that "not mod and not no" becomes "equal to mod"; the
  code below it, rightly, makes it "equal to yes", and so does the model.
- A string value with a line end in it is not restored from the file; a number is restored exactly if
  it is valid (`ConfigLines.RestoredExactly`).
- An init list with a loop that makes no iteration trips the ordering assertion once the run gets past
  it (`StartupSteps.NeverTripsExactly`). The logger's own list has such a loop, over a configurable
  number of buffers (`tools/mtlkroot/log_drv.c:161`).
- The glob matcher misses matches exactly for satisfiable patterns in which a star stands directly
  before an escaped character other than the backslash (`GlobPattern.MatcherIsRightExactly`).
- An enumeration of the hash returns an entry that was removed after the last call exactly if that was
  the next one still to come and in the same bucket as the entry returned last
  (`HashTable.Table.ReturnsRemovedExactly`); any other entry can be removed at any time
  (`HashTable.Table.RemoveOther`).
- An object of the statistics that is deleted before its children takes entries with it that are still
  in their tables (`WssObjects.EntryIsFreedWithParent`); so a history deletes children first.

## Model

| member | source | states |
|---|---|---|
| ExprEqual.YnKeepsValue | tools/kconfig/expr.c:246-327 | folding the constants y and n keeps the value of an expression under every proper valuation |
| ExprEqual.YnShrinks | tools/kconfig/expr.c:246-327 | folding never makes an expression larger, and an expression with something to fold gets smaller: the measure that ends the elimination of duplicates |
| ExprEqual.CancelRemovesFactor | tools/kconfig/expr.c:141-173 | cancelling over two chains of one operator takes the same factor out of both: each expression is its residue combined with that one factor |
| ExprEqual.CancelIsMaximal | tools/kconfig/expr.c:141-173 | cancelling only blanks operands, and afterwards the two chains share no operand any more, the constants y and n aside |
| ExprEqual.EliminateEqFactors | tools/kconfig/expr.c:175-198 | both expressions are their residues put into one and the same context, whatever operators they have at the top |
| ExprEqual.PlugMonotone | tools/kconfig/expr.c:175-198 | such a context is monotone, so the order of the residues carries over to the expressions |
| ExprEqual.ExprEqSound | tools/kconfig/expr.c:200-244 | expressions found equal have the same value under every proper valuation |
| ExprReflexive.ExprEqReflexive | tools/kconfig/expr.c:200-244 | every expression is found equal to itself, although chains are compared by cancelling their operands pair by pair, in place |
| ExprEqual.ResidueYesImplies | tools/kconfig/menu.c:360-369 | if the second residue is y, the first expression never exceeds the second |
| ExprDups.JoinOrSound | tools/kconfig/expr.c:361-423 | every join of two alternatives has the value of their disjunction |
| ExprDups.JoinAndSound | tools/kconfig/expr.c:425-517 | every join of two conditions has the value of their conjunction, in all the cases of equal, different and constant operands |
| ExprDups.PassKeepsValue | tools/kconfig/expr.c:519-569 | one pass over all pairs of operands, with both cursors in the same tree, keeps the value of the whole tree |
| ExprDups.PassHasOutcome | tools/kconfig/expr.c:519-569 | a pass that counted a join has produced something that folds to a smaller expression; one that counted none has changed nothing at the cursors' level |
| ExprDups.EliminateDups | tools/kconfig/expr.c:571-592 | the loop ends, and returns the reduced expression |
| ExprDups.ReducedKeepsValue | tools/kconfig/expr.c:571-592 | the elimination of duplicates returns an expression with the same value under every proper valuation |
| ExprDups.ReducedKeepsNegOnSymbols | tools/kconfig/expr.c:519-592 | it keeps negations on symbols |
| ExprDups.ReducedUsesOnly | tools/kconfig/expr.c:519-592 | it brings in no symbol that was not there |
| ExprDups.QuietPassTriedAll | tools/kconfig/expr.c:519-569 | a pass without a join has tried every pair of different operands and none of them can be joined |
| ExprDups.ReducedIsSettled | tools/kconfig/expr.c:571-592 | in the result no two operands of a chain can be joined, at any depth, so running the elimination again changes nothing |
| ExprResult.JoinsExactly | tools/kconfig/expr.c:361-517 | two operands are joined exactly if they are equal, or one of the listed pairs of conditions on one symbol: for alternatives, two of a tristate's three values, or a bool symbol and its negation; for conditions, a symbol and a test that decides it, an equality and an inequality, or two inequalities |
| ExprResult.ReducedIsIrredundant | tools/kconfig/expr.c:571-592 | in the result, at every depth, no two operands of a chain are the same expression, or equal, or such a pair; an expression without such operands, and only such a one, comes out as it went in |
| ExprDups.ReducedIsFoldableExactly | tools/kconfig/expr.c:586-588 | the result still contains a foldable constant exactly if the input did and nothing in the input can be joined |
| ExprDups.ConstantIsLeft | tools/kconfig/expr.c:586-588 | the conjunction of y and a symbol is returned as it is, although it can be folded |
| ExprTransform.TransformKeepsValue | tools/kconfig/expr.c:594-749 | normalisation keeps the value under every proper valuation; its termination measure counts a negation by what De Morgan's laws make of it |
| ExprTransform.TransformIsNormal | tools/kconfig/expr.c:594-749 | its result is normal: no bool symbol is tested against y, m or n, and negations stand directly above symbols other than these three |
| ExprTransform.TransformNegatesVariablesExactly | tools/kconfig/expr.c:594-749 | negations are left above non-constant symbols only, exactly if no constant other than y, m and n is used as a value below an odd number of negations |
| ExprTransform.NegatedConstantIsLeft | tools/kconfig/expr.c:712-741 | the negation of another constant is left as it is |
| ExprTransform.NormalNegatesSymbols | tools/kconfig/expr.c:594-749 | in a normal expression negations sit on symbols, as the later passes assume |
| ExprTransform.NormalIsFixed | tools/kconfig/expr.c:594-749 | normal expressions are left as they are, so normalising twice is normalising once |
| ExprTransform.TransBoolKeepsVisible | tools/kconfig/expr.c:332-356 | where negations sit on symbols, dropping a test against no keeps "not equal to no", and keeps negations on symbols |
| ExprTransform.TransBoolUnderNot | tools/kconfig/expr.c:332-356 | under a negation the same rewriting is right exactly if the symbol is not mod |
| ExprCompare.TransCompareMeaning | tools/kconfig/expr.c:808-871 | the comparison rewriting answers, with yes or no, whether an expression has the value y (or n), in every assignment in which the expression is comparable |
| ExprCompare.TransCompareExact | tools/kconfig/expr.c:839-864 | in one assignment and at one node: at a symbol it is right exactly if the string says c when the value is c, at a negation exactly if the operand is not mod |
| ExprCompare.ExtremesAreRight | tools/kconfig/expr.c:808-871 | for values yes and no the answer is right even below negations, as long as strings mirror values |
| ExprCompare.PlainIsAlwaysRight | tools/kconfig/expr.c:808-871 | the answer is right in every assignment if only bool and tristate symbols and y, m, n are used as values, and none that can be mod below an odd number of negations |
| ExprCompare.PlainExactly | tools/kconfig/expr.c:808-871 | for expressions over bool and tristate symbols, and = or != tests of them against y or n, that use no symbol twice, it is right in every assignment if and only if that condition holds |
| ExprCompare.OtherValuesAreWrong | tools/kconfig/expr.c:863-864 | the comparison with n is not always right for any other symbol used as a value |
| ExprCompare.RepetitionCanHelp | tools/kconfig/expr.c:828-840 | for "A or not A" it is always right, although A can be mod below a negation |
| MenuDeps.BaseDepMeaning | tools/kconfig/menu.c:319-322 | the dependency stored for an entry is the minimum of its parent's and its own |
| MenuDeps.PropertyDepMeaning | tools/kconfig/menu.c:318-335 | the condition stored in a property is the conjunction of parent, entry and property condition, up to the rounding that the visibility of a non-tristate symbol undergoes anyway |
| MenuDeps.DependsImplies | tools/kconfig/expr.c:779-806 | an expression that depends on a symbol is no whenever the symbol is |
| MenuDeps.DependsContains | tools/kconfig/expr.c:751-777 | it contains the symbol, so the two tests of the nesting loop agree |
| MenuDeps.DependsExactly | tools/kconfig/expr.c:779-806 | an expression depends on a symbol exactly if one of its top-level conditions is the symbol, a test of it for y or m, or a test against n |
| MenuDeps.AskingIsNested | tools/kconfig/menu.c:358-359 | an entry with such a condition passes the nesting test whatever the prompt of the symbol needs |
| MenuDeps.AdoptedNeedsParent | tools/kconfig/menu.c:350-369 | an entry that passes the nesting test is visible only if its new parent's symbol is set or the parent's prompt is visible, in every assignment in which its condition is comparable or yes |
| MenuDeps.PlainEntryIsNestedSafely | tools/kconfig/menu.c:350-369 | the same in all assignments, under a condition on the two expressions alone |
| MenuDeps.NestedButAlone | tools/kconfig/menu.c:350-369 | an entry that depends on "not A and not S" passes the test for S with a prompt that needs "A is n", and is visible when S and its prompt are off |
| SymbolValues.SnapshotIsProper | tools/kconfig/symbol.c:793-815 | the evaluated network meets the assumptions of the expression passes |
| SymbolValues.ValueInIsEval | tools/kconfig/expr.c:917-995 | evaluating an expression inside the network is evaluating it in the snapshot of all values |
| ComparisonLaws.NumbersAreOrdered | tools/kconfig/expr.c:957-995 | if both sides are numbers and not both are strings, the six tests follow the order of the numbers; next to a hex symbol a negative number counts as 2^64 more |
| ComparisonLaws.OthersAreTexts | tools/kconfig/expr.c:957-995 | in all other cases the six tests follow the lexicographic order of the strings |
| ValueLaws.VisibleIsLargest | tools/kconfig/symbol.c:215-235 | up to the rounding of mod, the visibility is at least every prompt condition and equal to one of them, unless it is no |
| ValueLaws.SelectedIsLargest | tools/kconfig/symbol.c:252-256 | the selected value is, after rounding, the largest of the alternatives collected from selects, and no without any |
| ValueLaws.SelectIsObeyed | tools/kconfig/menu.c:336-339 | whatever the user sets, a symbol is at least as large as each symbol that selects it, limited by the condition of the select |
| ValueLaws.ModNeedsModules | tools/kconfig/symbol.c:234-265 | a bool symbol, and every symbol without modules, is never mod in visibility, selection, implication or value; a tristate symbol with modules is not rounded |
| ValueLaws.ImpliedNeedsDirect | tools/kconfig/symbol.c:242-265 | the direct dependency fails exactly if its condition is no; then nothing is implied, and otherwise what the condition says, after rounding |
| ValueLaws.DefaultIsFirst | tools/kconfig/symbol.c:403-408 | there is no default exactly if all conditions are no; otherwise the first condition that holds decides, and the default is at most this condition and at most its expression, and equal to one of them |
| ValueLaws.DefaultLimitsValue | tools/kconfig/symbol.c:381-431 | without an effective user value, selection or implication, the value never exceeds the first default condition that holds, nor its expression, after rounding |
| ValueLaws.ChosenExactly | tools/kconfig/symbol.c:386-413 | an effective user value gives the greatest value within what was asked for and the visibility; without one it is the least that reaches the default and the implying symbols |
| ValueLaws.ValueIsLeast | tools/kconfig/symbol.c:427-431 | the value is the least possible one that reaches what was chosen and what is selected, where mod is not possible for a symbol in effect bool, or implied by y |
| ValueLaws.UnwrittenExactly | tools/kconfig/symbol.c:374-413 | a symbol is left out of the configuration file exactly if nothing shows, selects or implies it and no default condition holds; it is then no, whatever the user has set |
| SymbolValues.SameValue | tools/kconfig/symbol.c:336-488 | networks that differ in how conditions are written, and in the user values of symbols of higher rank, give a symbol the same value; the conditions of prompts and defaults of a bool symbol need only agree on no |
| SymbolValues.SetThenGet | tools/kconfig/symbol.c:501-556 | a value that the range check accepts is the value of the symbol after storing and recalculating |
| SymbolValues.SetThenGetExact | tools/kconfig/symbol.c:501-556 | for a changeable symbol, storing a value is effective exactly if the check accepts it, or an implying symbol lifts the visible mod to the yes asked for |
| ValueLaws.UserMattersExactly | tools/kconfig/symbol.c:336-488 | some two user values lead to different values exactly if the symbol is more visible than selected, and not lifted to y by an implying symbol |
| ValueLaws.AcceptsExactly | tools/kconfig/symbol.c:501-520 | the range check accepts some value exactly if the user's choice can change the symbol's value, or the symbol is lifted to y in that way |
| ValueLaws.AcceptedWithoutEffect | tools/kconfig/symbol.c:501-520 | such a symbol: selected with m, visible with y and implied by y, it accepts y, and is y whatever is set |
| SymbolValues.SetSameValueExact | tools/kconfig/symbol.c:522-556 | the exact condition under which the value a symbol already has survives being stored |
| SymbolValues.SetSameValueCanFail | tools/kconfig/symbol.c:522-556 | a tristate symbol with default y and a prompt visible with m is y, and storing y makes it m |
| SymbolCache.Evaluator.CalcExpr | tools/kconfig/expr.c:917-995 | evaluating an expression through the cache gives its value by the recursive definition, and fills only caches of lower rank |
| SymbolCache.Evaluator.CalcVisibility | tools/kconfig/symbol.c:209-270 | visibility, direct dependency, selecting and implied value are written as the recursive definition has them |
| SymbolCache.Evaluator.CalcValue | tools/kconfig/symbol.c:336-488 | evaluation writes the value, the visibility and the write mark of the recursive definition, and leaves every cached symbol alone |
| SymbolCache.Evaluator.ClearAllValid | tools/kconfig/symbol.c:490-499 | clears the cache mark of every symbol and nothing else |
| SymbolCache.Evaluator.CalcInOrder | tools/kconfig/symbol.c:336-347 | any order of evaluation, on top of any caches that are right, gives every symbol the value of the recursive definition |
| SymbolCache.Evaluator.TristateWithinRange | tools/kconfig/symbol.c:501-520 | the check answers by the recursive definition of visibility, selection and implication |
| SymbolCache.Evaluator.SetTristateValue | tools/kconfig/symbol.c:522-556 | an accepted value is stored and, if it is a new one, all caches are cleared; a rejected one changes nothing |
| SymbolCache.Evaluator.SetAndRecalculate | tools/kconfig/symbol.c:490-556 | setting an accepted value and evaluating the network in any order yields that value |
| OptimisedNetwork.StoredValuesExactly | tools/kconfig/menu.c:318-345 | reducing the dependencies of parent and entry and then each condition with them keeps the network acyclic, and keeps every value if and only if every symbol that is y and can be mod is still made so by its own value, a selector or an implying symbol |
| OptimisedNetwork.OptimisedNetworkSameValues | tools/kconfig/menu.c:318-345 | in particular every value and write mark is kept if no relaxed condition selects or implies a symbol that can be mod, whatever is relaxed in prompts and defaults |
| SelectExample.SelectCanLoseYes | tools/kconfig/menu.c:333-339 | a bool symbol that is y and selects a tristate one if C is not n: with C at m the selected symbol is y as written and m as stored |
| OptimisedNetwork.TransBoolLowers | tools/kconfig/expr.c:332-356 | relaxing a condition can turn its yes into mod, and changes nothing else |
| Graphs.WalkGoesDown | tools/kconfig/symbol.c:1189-1256 | along a walk from a member of a topological order the positions go down |
| Graphs.TopologicalHasNoCycle | tools/kconfig/symbol.c:1295-1327 | a graph whose symbols are all in a topological order has no cycle |
| Graphs.RankedExactly | tools/kconfig/symbol.c:1295-1327 | a finite dependency graph can be ranked if and only if it has no cycle |
| DependencyCheck.StackIsWalk | tools/kconfig/symbol.c:1295-1303 | the symbols being checked form a walk |
| DependencyCheck.MetAgainIsCycle | tools/kconfig/symbol.c:1300-1303 | a symbol met again while it is being checked closes a cycle, so every report is right |
| DependencyCheck.Checker.CheckDeps | tools/kconfig/symbol.c:1295-1327 | a call either hands back a symbol that is still being checked, after a report, or leaves its symbol in the order behind all it depends on, unless there has been a report |
| DependencyCheck.Checker.CheckSymDeps | tools/kconfig/symbol.c:1224-1256 | the same for the successors of a symbol, with early return out of the property loop |
| DependencyCheck.Checker.Sweep | tools/kconfig/zconf.y:549-552 | the sweep over all symbols reports if and only if there is a cycle, and leaves a topological order if it does not; it counts no error in either case |
| CheckedNetwork.RankableExactly | tools/kconfig/symbol.c:336-488 | the values are well defined if and only if no bool or tristate symbol depends on itself through any of its conditions |
| CheckedNetwork.SeenIsChecked | tools/kconfig/symbol.c:1224-1256 | all that a symbol needs, except for what implies it, is among the successors the check visits; its direct dependency through the property of each entry that defines it |
| CheckedNetwork.CheckedExactly | tools/kconfig/symbol.c:1224-1256 | the other direction: the bool and tristate symbols among the successors are just these needs and those of its own imply properties; the targets and conditions of its selects are not followed |
| CheckedNetwork.ReportedCycleIsReal | tools/kconfig/symbol.c:1224-1256 | on a cycle of the check that stays among bool and tristate symbols, each symbol needs the next in one of these ways |
| CheckedNetwork.SymbolCondNeeds | tools/kconfig/menu.c:318-335 | the condition stored in that property mentions just the symbols of the stored dependency of the entry |
| CheckedNetwork.SeenCycleIsReported | tools/kconfig/symbol.c:1224-1327 | a cycle of needs none of which is to imply a symbol is always a cycle for the check |
| CheckedNetwork.DirectCycleIsReported | tools/kconfig/menu.c:61-62 | in particular a cycle through direct dependencies, with prompts or without |
| CheckedNetwork.SilentCheckExactly | tools/kconfig/symbol.c:1224-1327 | after a check without a report that is so if and only if no cycle runs through an implying symbol or its condition |
| CheckedNetwork.SilentCheckMeansAcyclic | tools/kconfig/symbol.c:1224-1327 | if implying symbols and their conditions are among what the check looks at anyway, its completion order ranks the network |
| CheckedNetwork.ImpliedCycleIsUnseen | tools/kconfig/symbol.c:1232-1250 | two symbols that imply each other pass the check, and no ranking exists for them |
| MenuForest.DistinctIsNoDup | tools/kconfig/menu.c:347-348 | the entries of a forest are pairwise different exactly if its preorder has no repetition |
| MenuShape.FlatList | tools/kconfig/menu.c:424-433 | moving children out from below entries without a prompt text keeps the preorder, and no such entry in the list has children any more |
| MenuShape.Final | tools/kconfig/menu.c:286-434 | for any outcome of the nesting tests, an entry's subtree and following siblings keep their preorder: no entry is lost or duplicated |
| MenuShape.Adopted | tools/kconfig/menu.c:354-374 | the siblings taken over and those left are together all of them, in preorder |
| MenuShape.AdoptedExactly | tools/kconfig/menu.c:354-374 | every sibling taken over passes the nesting test, and the first one left fails it |
| MenuShape.FinalIsSettled | tools/kconfig/menu.c:424-433 | afterwards no entry without a prompt text, at any depth below, has children |
| MenuPairs.FlatListPairs | tools/kconfig/menu.c:424-433 | moving grandchildren up takes their parent from the children of entries without a prompt text only, and gives no entry a new child |
| MenuPairs.NestedExactly | tools/kconfig/menu.c:347-433 | for an entry with children, the call does at every depth below, for each entry with a prompt text, exactly what a call for that entry before its siblings would do |
| MenuPairs.NextIsNestedExactly | tools/kconfig/menu.c:347-380 | at every depth, the next sibling of an entry with a symbol, a prompt text and no children becomes its child if and only if the dependency test passes; if it fails the entry gets no child |
| MenuTree.Flatten | tools/kconfig/menu.c:384-434 | the last loop leaves links and parent pointers that stand for exactly the list FlatList describes |
| MenuTree.Adopt | tools/kconfig/menu.c:349-380 | the adoption loop and the relinking after it leave two lists of siblings, the children and the rest, whose links and parent pointers stand for exactly the trees Adopted describes |
| MenuTree.FinalizeChildren | tools/kconfig/menu.c:347-348 | the loop over children, whose sibling list is rebuilt under it, finalises every child that is still there when it gets to it |
| MenuTree.Finalize | tools/kconfig/menu.c:286-434 | for any outcome of the tests, the links stand for the tree Final describes: sibling and child links agree with it and every parent pointer is the tree parent |
| MenuNesting.TakenIsChild | tools/kconfig/menu.c:354-433 | whatever an entry takes over is a child of it in the final tree, also after grandchildren have been moved up |
| MenuNesting.TakenIsNeverAlone | tools/kconfig/menu.c:354-369 | with the test of dependencies, a sibling is taken over only if it passes, and then, for plain conditions, it is in no assignment visible when the symbol of its new parent is off and its prompt hidden |
| MenuNesting.FinalizeNested | tools/kconfig/menu.c:349-434 | both on the pointers: what menu_finalize leaves below an entry without children has it as parent and is never visible without it |
| MenuNesting.FinalizeAll | tools/kconfig/menu.c:286-434 | called for an entry with children, such as the root: at every depth, the parent pointer of that next sibling is the entry if and only if the dependency test passes |
| MenuWalk.Step | tools/kconfig/confdata.c:810-822 | one round of the climbing walk goes to the next entry in preorder |
| MenuWalk.Climb | tools/kconfig/confdata.c:817-822 | the inner loop climbs to the nearest ancestor with a following sibling, or ends at the root |
| MenuWalk.Walk | tools/kconfig/confdata.c:790-823 | the walk ends, and visits exactly the preorder sequence |
| MenuWalk.FinalizeThenWalk | tools/kconfig/confdata.c:790-823 | after restructuring, the walk visits every entry exactly once, in the order of the original tree |
| ConfigStrings.EscapeStringValue | tools/kconfig/symbol.c:948-989 | the escaping loop returns the quoted form of the text |
| ConfigStrings.EscapedLength | tools/kconfig/symbol.c:955-967 | escaping costs one character for each quote and each backslash, and nothing else |
| ConfigStrings.UnquotedEscaped | tools/kconfig/confdata.c:161-176 | reading a quoted text up to its closing quote gives the text back, whatever follows |
| ConfigStrings.UnquotedNeedsQuote | tools/kconfig/confdata.c:171-175 | an escaped text without closing quote is no string value |
| ConfigStrings.UnescapeInPlace | tools/kconfig/confdata.c:161-176 | the loop that shifts the buffer over each backslash leaves exactly the unquoted text in it, and fails exactly if there is no closing quote |
| ConfigLines.StringValid | tools/kconfig/symbol.c:581-622 | the loops accept exactly the numbers described by the two grammars |
| ConfigLines.WriteSymbol | tools/kconfig/confdata.c:487-508 | writes the line of a symbol, of the unset form for the value n |
| ConfigLines.PrintedForms | tools/kconfig/confdata.c:487-508 | the literal lines for set, module and unset symbols, with and without modules, for numbers, and for a string with a quote in it |
| ConfigLines.RestoredExactly | tools/kconfig/confdata.c:314-376 | reading the first line written for a symbol restores its value if and only if the value is a possible tristate of the symbol, a valid number, or a string without line ends |
| ConfigFile.ReadBack | tools/kconfig/confdata.c:314-403 | reading the lines written for any list of storable values sets these values, one after the other, on top of what was set |
| ConfigFile.EveryValueIsRestored | tools/kconfig/confdata.c:251-407 | with distinct names, every symbol gets its value back and no other symbol is set |
| ConfigFile.WriteSettings | tools/kconfig/confdata.c:629-648 | writing in a loop gives the concatenation of the symbols' lines |
| ConfigFile.SetSymVal | tools/kconfig/confdata.c:126-194 | a value text is taken exactly as its type demands, through the buffer for strings |
| ConfigFile.Reader.ReadLine | tools/kconfig/confdata.c:314-403 | one line sets the symbol it names, of either form, and nothing else |
| ConfigFile.Reader.ReadSimple | tools/kconfig/confdata.c:251-407 | the read loop forgets old values and applies the lines of the file in order |
| LogProtocol.StepKeepsInv | tools/mtlkroot/log_drv.c:452-807 | every step keeps the invariant: each buffer has exactly one owner, its ranges tile what is filled of it, its reference count is the number of open ranges, and no assertion of the code can fail |
| LogProtocol.RunsAreSafe | tools/mtlkroot/log_drv.c:748-789 | every run of legal steps, in any interleaving, from a state with the invariant completes without a failed assertion and keeps the invariant |
| LogProtocol.InitHasInv | tools/mtlkroot/log_drv.c:149-189 | the initial state, with all buffers free and one reference on the remove lock, has the invariant |
| LogProtocol.RangesTile | tools/mtlkroot/log_drv.c:541-547 | in every reachable state the ranges handed out of a buffer are disjoint, lie within it, and cover exactly its filled part |
| LogProtocol.QueuedHasNoWriter | tools/mtlkroot/log_drv.c:569-593 | a buffer that is queued, in flight to the queue, with the consumer or free has no open range |
| LogProtocol.RemoveLockCountsBuffers | tools/mtlkroot/log_drv.c:452-501 | the remove lock is one plus the number of buffers outside the free list, and one exactly if all buffers are back |
| LogProtocol.ReleaseKeepsInv | tools/mtlkroot/log_drv.c:569-593 | releasing a range keeps the invariant, also for the last writer of an expired or replaced buffer |
| LogProgress.ReserveGrantsExactly | tools/mtlkroot/log_drv.c:525-567 | a reservation succeeds exactly if the active buffer has room or a free one is there; it hands out the next bytes of that buffer, and nothing else changes hands |
| LogProgress.OpenUntilReleased | tools/mtlkroot/log_drv.c:525-593 | a range that was handed out keeps its place and stays open in every step until its own release, which closes it |
| LogProgress.TimerStarts | tools/mtlkroot/log_drv.c:739-776 | with data in it and no writer, the timer takes the active buffer out of the slot, in flight, and puts the first free one there; with a writer the buffer expires |
| LogProgress.TimerDelivers | tools/mtlkroot/log_drv.c:569-593 | so after the timer, and any run that closes the ranges of that buffer, it has left the slot and is in flight, queued or consumed |
| LogProgress.DetachStarts | tools/mtlkroot/log_drv.c:778-807 | detaching empties the slot; the buffer goes in flight with data and back to the free list without, and expires while somebody writes to it |
| LogProgress.DetachDelivers | tools/mtlkroot/log_drv.c:778-807 | the same delivery after detaching, for a buffer with data or writers |
| LogProgress.WaitingIsDelivered | tools/mtlkroot/log_drv.c:569-593 | any buffer that is expired or was replaced while somebody wrote to it is in flight, queued or consumed after every run that closes its ranges; none is lost |
| LogProgress.ReadyIsQueue | tools/mtlkroot/log_drv.c:472-509 | over every run, the consumer gets the buffers in the order in which they were queued |
| LogDriver.Logger.Reserve | tools/mtlkroot/log_drv.c:525-567 | the critical section is one protocol step; the caller owns the range it is given, and there are at most two rounds |
| LogDriver.Logger.ReserveLoop | tools/mtlkroot/log_drv.c:541-556 | the try_again loop is the protocol's reservation in an active buffer, with at most one retry |
| LogDriver.Logger.Release | tools/mtlkroot/log_drv.c:569-593 | the critical section is one protocol step, and says which buffer is to be queued after unlocking |
| LogDriver.Logger.TimerTick | tools/mtlkroot/log_drv.c:739-776 | the timer's critical section is one protocol step whose assertion holds |
| LogDriver.Logger.DetachActive | tools/mtlkroot/log_drv.c:778-807 | detaching is one protocol step whose assertion holds |
| LogDriver.Logger.PutReadyBuf | tools/mtlkroot/log_drv.c:503-509 | queueing an in-flight buffer is one protocol step |
| LogDriver.Logger.PutFreeBuf | tools/mtlkroot/log_drv.c:488-501 | giving a buffer back resets it and is one protocol step |
| WssTables.HoldsAfterReplace | wireless/shared/mtlk_wss.c:137-164 | replacing the entry of an inherited id by one with the new context keeps the table complete for one more context |
| WssTables.HoldsAfterAppend | wireless/shared/mtlk_wss.c:125-136 | an id nobody declared before fills the first empty cell and keeps the table complete |
| WssTables.KnownIdsFit | wireless/shared/mtlk_wss.c:97-106 | with distinct ids, no more contexts are found in the parent than it has entries, so the assertion on the merged size holds |
| WssObjects.MergedNofEntries | wireless/shared/mtlk_wss.c:89-110 | the merged size is the parent's entries plus the new ids |
| WssObjects.AddContext | wireless/shared/mtlk_wss.c:112-170 | one new entry goes over the old one or into the first empty cell; without memory nothing changes |
| WssObjects.CellForNext | wireless/shared/mtlk_wss.c:125-136 | while contexts remain there is always a cell for the next one: an inherited one not taken yet, or the first empty one |
| WssObjects.Adopt | wireless/shared/mtlk_wss.c:172-217 | adoption fills the merged table with no cell left over, or, if an allocation fails at any point, frees what it allocated and restores the object |
| WssObjects.Rollback | wireless/shared/mtlk_wss.c:47-69 | frees exactly the blocks the object allocated, each once, and falls back to the parent's table |
| WssObjects.Create | wireless/shared/mtlk_wss.c:227-284 | succeeds exactly if all its allocations do, and leaves no block behind if not; the new object's table is valid and its counters are zero |
| WssObjects.Delete | wireless/shared/mtlk_wss.c:286-296 | frees the object and exactly the blocks it owns |
| WssObjects.Open | wireless/shared/mtlk_wss.c:322-337 | a handle holds exactly the contexts declared for the id by the object and its ancestors; there is none exactly if there are no such contexts |
| WssCounters.HandleHas | wireless/shared/mtlk_wss.c:322-337 | a context is in a handle exactly if it has the handle's id and belongs to the object or an ancestor |
| WssCounters.HandleNoDup | wireless/shared/mtlk_wss.c:156-162 | no context is in a handle twice |
| WssCounters.ApplyAddsDelta | wireless/shared/mtlk_wss.h:61-99 | the 32-bit updates of a counter follow its unbounded total modulo 2^32 |
| WssCounters.Count | wireless/shared/mtlk_wss.h:61-99 | the loop over a handle updates each of its contexts exactly once |
| WssCounters.Run | wireless/shared/mtlk_wss.h:61-99 | after any run of calls over a forest, every counter has moved, modulo 2^32, by the net total issued for its id at objects below its own |
| WssCounters.Grow | wireless/shared/mtlk_wss.c:259-284 | a created object extends the forest with counters at zero |
| WssObjects.EntryIsFreedWithParent | wireless/shared/mtlk_wss.c:47-69 | an entry that a child has from its parent is freed together with that parent |
| WssHistory.Statistics.CreateObject | wireless/shared/mtlk_wss.c:259-284 | creating an object at any time keeps every counter, old or new, equal to its net total, and live memory exactly the living objects with their blocks |
| WssHistory.Statistics.DeleteObject | wireless/shared/mtlk_wss.c:286-296 | deleting an object without children does the same for the remaining ones |
| WssHistory.Statistics.OpenHandle | wireless/shared/mtlk_wss.c:322-337 | handles can be opened and kept; none goes stale when other objects are created |
| WssHistory.Statistics.CountOn | wireless/shared/mtlk_wss.h:61-99 | a count through any handle opened before keeps every counter equal, modulo 2^32, to the net total issued for its id through handles at its object or below since the beginning |
| HashTable.Table.Find | wireless/shared/mtlkhash.h:280-297 | finds the entry the finite map has for the key, or nothing |
| HashTable.Table.Insert | wireless/shared/mtlkhash.h:248-258 | adds to the finite map unless the key is taken, and returns what was there |
| HashTable.Table.InsertReplace | wireless/shared/mtlkhash.h:260-271 | updates the finite map and returns the entry that was replaced |
| HashTable.Table.Remove | wireless/shared/mtlkhash.h:116-120 | takes the entry's key out of the finite map, and the entry out of its bucket |
| HashTable.Table.EnumFirst | wireless/shared/mtlkhash.h:299-305 | starts an enumeration of all entries, bucket after bucket |
| HashTable.Table.EnumNext | wireless/shared/mtlkhash.h:84-107 | returns the next entry still to come, which is then not to come any more, or ends exactly if none is left |
| HashLists.PendingWithout | wireless/shared/mtlkhash.h:84-120 | removing an entry other than the one under the cursor takes just that entry out of what is still to come |
| HashLists.SurvivesRemovalExactly | wireless/shared/mtlkhash.h:84-120 | the removed entry is returned next exactly if it was the first one to come and in the current bucket; any other removal takes just that entry out of what is to come |
| HashTable.Table.ReturnsRemovedExactly | wireless/shared/mtlkhash.h:84-120 | the same in what a caller knows: the key of the entry returned last |
| HashTable.Table.RemoveOther | wireless/shared/mtlkhash.h:116-120 | removing any other entry, returned or not, loses just that entry |
| HashTable.Table.RemoveVisited | wireless/shared/mtlkhash.h:116-120 | removing a returned entry leaves what is still to come unchanged |
| HashTable.Table.RemoveWhile | wireless/shared/mtlkhash.h:299-312 | a client loop that removes returned entries as it likes, each before it asks for the next, visits every entry exactly once and leaves the map without the removed keys |
| MultiHash.FoundExactly | wireless/shared/mtlkhash.h:77-120 | every entry is found under its own key and no other, and only once |
| MultiHash.Insert | wireless/shared/mtlkhash.h:407-413 | the key finds the new entry behind its former ones; no other key finds anything else than before |
| MultiHash.Remove | wireless/shared/mtlkhash.h:415-420 | the entry, and nothing else, disappears from what the keys find |
| MultiHash.FindFirst | wireless/shared/mtlkhash.h:422-432 | starts a search that returns everything the key has, oldest first |
| MultiHash.FindNext | wireless/shared/mtlkhash.h:434-456 | returns the next entry with the key, which is then not to come any more, or nothing exactly if none is left |
| MultiHash.RemoveFound | wireless/shared/mtlkhash.h:415-420 | removing an entry the search has returned leaves what is still to come unchanged |
| MultiHash.RemoveKey | wireless/shared/mtlkhash.h:415-456 | a client that removes each entry before asking for the next gets all entries of the key once each, in order, and leaves exactly the entries with other keys |
| SlistSort.MovedStaysSorted | wireless/shared/mtlk_algorithms.c:30-53 | moving the front element before the first larger one keeps the prefix sorted, longer by one, and the order stable |
| SlistSort.MoveFront | wireless/shared/mtlk_algorithms.c:34-51 | the relinking puts the front node before the given place and keeps the rest of the chain |
| SlistSort.SortSlist | wireless/shared/mtlk_algorithms.c:13-61 | the sort ends, and the list it leaves is a sorted, stable rearrangement of the same nodes |
| SlistSort.StableSortIsUnique | wireless/shared/mtlk_algorithms.c:13-61 | there is only one such rearrangement, so the result is fully determined |
| StartupSteps.Startup.FwdStep | wireless/shared/mtlkstartup.h:193-249 | one forward step: what runs, which bits and counters change, and when the ordering assertion trips |
| StartupSteps.Startup.BwdStep | wireless/shared/mtlkstartup.h:303-330 | one backward step, likewise |
| StartupSteps.Startup.Init | wireless/shared/mtlkstartup.h:183-291 | for any failure point, init runs exactly the visits before it, and trips the assertion exactly if it gets past an empty loop |
| StartupSteps.Startup.Cleanup | wireless/shared/mtlkstartup.h:293-337 | after any such init, cleanup undoes exactly what ran, in reverse order and as often, trips no assertion, and leaves both fields and all counters zero |
| StartupSteps.Startup.LifeCycle | wireless/shared/mtlkstartup.h:183-337 | the two together, for any list that fits the fields, any preconditions, any loop counts and any failure point |
| StartupSteps.NeverTripsExactly | wireless/shared/mtlkstartup.h:149-151 | the assertion trips for no failure point if and only if no loop of the list is empty |
| GlobPattern.AcceptsIsSound | wireless/shared/pattern.c:13-93 | what the matcher accepts is in the language of the pattern |
| GlobPattern.AcceptsIsComplete | wireless/shared/pattern.c:37-51 | the skip-ahead behind a star drops no match, if no star stands directly before an escaped character other than the backslash |
| GlobPattern.ShortestIsMissed | wireless/shared/pattern.c:38-46 | otherwise a shortest word of the pattern is not accepted |
| GlobPattern.MatcherIsRightExactly | wireless/shared/pattern.c:13-93 | acceptance, which for complete patterns is what the matcher returns, is membership in the language for all strings if and only if no such star exists or some bracket has no member |
| GlobPattern.EscapeAfterStarExample | wireless/shared/pattern.c:38-46 | the pattern of a star and an escaped x does not accept the string x |
| GlobPattern.InBrackets | wireless/shared/pattern.c:64-76 | the scan of a bracket decides membership in its ranges and ends right behind the closing bracket |
| GlobPattern.AfterStar | wireless/shared/pattern.c:37-51 | skipping ahead and trying every position accepts exactly what a star allows |
| GlobPattern.PMatch | wireless/shared/pattern.c:13-93 | the matcher ends, for every complete pattern, and returns whether the pattern accepts the string |
| GlobPattern.PatternMatch | wireless/shared/pattern.c:99-106 | with an optional leading negation, the answer is membership in the language, for patterns without such a star |

## Left out

- Identity, allocation and freeing of expression nodes in `expr.c`: expressions are values, and the two aliased pointers are cursors into one value.
- Expression kinds that no dependency uses: lists of choice values, ranges, and the printing and simplification of unmet dependencies.
- Choices and choice values, randomised configuration, and symbols of type S_OTHER.
- A changing modules symbol: its value is fixed, so its recomputation in `sym_clear_all_valid` and the flags for changed symbols are not modelled.
- Values and ranges of int, hex and string symbols in the evaluator: they are inputs to it. Their text forms are modelled in the configuration lines.
- The properties of symbols inside the menu tree: the conditions stored for its entries are functions beside it, and MenuNesting joins the two.
- ExprEqual.ExprEqSound: states soundness only; expressions found different may still be equivalent.
- ExprCompare.PlainExactly: is stated for expressions that use no symbol twice; with repetition, as in "A or not A", the rewriting can be right although the condition fails.
- MenuDeps.PlainEntryIsNestedSafely: is one-way; whether a condition that repeats symbols is harmful in some assignment is a question of satisfiability.
- Configuration files as streams: a file is a text without NUL characters; renaming, environment lookups, directories, comments and headings are not modelled, nor are files read for automatic defaults.
- The logger's functions for packets spread over several buffers, whose release queues a buffer without looking at its reference count; statistics, version and configuration commands of the logger.
- Scheduling and locks of the operating system: a critical section is one step.
- The hash's poisoning of enumerators in debug builds, and the links inside a bucket list, which is a sequence here.
- Resetting of statistics, the object pool, and tables with 2^32 entries or more. A counter id that is declared twice by one object is excluded, as its creators guarantee.
- In the init macros: inner steps, trace output, and loop steps with a precondition; a loop step that is skipped in its only iteration is never undone by a loop that counts iterations.
- In the glob matcher: patterns that end in a single backslash, for which the source reads behind the terminator, and the sign of characters above 127.
- Front ends, sockets, netlink, the IRB, TFTP, BCL, ini and argument parsing, and metrics.
