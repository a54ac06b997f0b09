# Proofs about the build tools

Models of four programs of this repository, unifdef, Kconfig, fixdep and mkimage, and proofs of
what they are for. Each model has a form on values, about which the properties are proved, and,
where the program updates things in place, methods over objects, arrays and pointers that are
proved to refine it.

* **unifdef** (`Unifdef*.dfy`): the token grammar, the three-valued evaluator, the 10 by 23
  transition table with its stack, and the whole filter. The reference is conditional inclusion
  as in section 6.10.1 of ISO/IEC 9899:1999. Lines are tokens already. What a condition means may
  depend on the plain lines selected before it, which may define names; a condition that is not an
  expression may mean anything.
* **Kconfig expressions** (`Kconfig*.dfy`): the rewriters of `expr.c` over tristate expressions.
  A `struct expr **` is a path from the root, so two cursors into one tree are two paths. The
  reference is `expr_calc_value` over all valuations in which constants stand for themselves,
  bools are never m, and bools and tristates are compared by their value.
* **Kconfig menus** (`Menu*.dfy`): `menu_finalize` on `list`, `next` and `parent` pointers, the
  walk over the result, and why a swallowed entry is a child.
* **Kconfig symbols** (`Symbol*.dfy`, `Defconfig.dfy`): evaluation on demand with the VALID flag,
  on cyclic graphs as well, against the equations it is to solve, the search for recursive
  dependencies and what it is good for, choices, setting a value, and the minimal configuration.
* **.config lines** (`ConfLine.dfy`, `ConfFile.dfy`): printing, escaping, reading, unescaping.
* **fixdep** (`Fixdep.dfy`): the scan of aligned words, the hash table, the list.
* **mkimage** (`Crc32*.dfy`, `MkImage.dfy`): CRC-32 against polynomial division, the payload of
  several files, and the header.

## Where the code does less than it says

Each of these is proved, with the exact condition where there is one.

* `expr_eliminate_dups` can turn m into n or y (`KconfigDupsMod.EliminateDupsLosesMod`); it keeps
  y and n (`KconfigDups.EliminateDupsKeeps`).
* `expr_trans_compare` against n takes m for y (`KconfigTransform.TransCompareRaises`), which is
  wrong only below an odd number of negations; so `menu_finalize` can make an entry a child of one
  it does not depend on (`MenuSwallow.NegatedModEscapes`). For that the condition must be n once
  every m is raised to y (`MenuSwallow.SwallowedIsChild`), which takes a negated m
  (`MenuSwallow.RaisedVisible`).
* A comment in `scripts/unifdef.c:404-412` says that a directive split over lines can be handled
  only if it causes no change between printing and dropping. The table refuses or avoids every
  such change but one: a split `#elif` after only false branches switches to printing
  (`UnifdefMeaning.DodgyKeepsPrinting`, `SplitElifSwitches`). The output is still right.
* A minimal configuration does not always restore m (`Defconfig.StuckSymbolChanges`, exactly when
  it does: `Defconfig.RoundTripIff`). An accepted value need not survive recomputation
  (`SymbolSet.AcceptedIsLost`, exactly when it does: `SymbolSet.SetGivesValueIff`).
* The search for recursive dependencies does not look at `dir_dep`, which `sym_calc_value` does.
  `menu_finalize` adds "depends on" to the properties an entry has (`scripts/kconfig/menu.c:299-315`),
  but an entry with neither prompt nor default has none, as in `core/kconfig/arch.kconfig:69` and
  `packages/misc/ncurses/ncurses.kconfig:43`. Then a cycle can go unreported, and values depend on
  what is asked for first (`SymbolOrder.TangledIsSilent`, `OrderMatters`), though the equations have
  exactly one solution whenever nothing is reported. Evaluation in any order finds it if ranks that
  fall along what values follow from never rise along "depends on" (`SymbolOrder.CheckAndEvaluate`).
* Outside choice groups `sym_check_deps` never returns a symbol when called with an empty stack, so
  the count of errors that `scripts/kconfig/zconf.y:517-518` keeps of it never rises
  (`SymbolCheck.DependencySearch.CheckAll`); cycles are reported all the same.
* fixdep does not find the symbol of `CONFIG_MODULE` (`Fixdep.OnlyModuleIsMissed`), nor a name at
  the very beginning of a file.
* A string with a newline does not survive a `.config` file (`ConfFile.NewlineLost`, and exactly
  the others do: `ConfFile.RestoredIff`).
* A file of 4 GiB or more may be cut without an error when it is put into an image
  (`MkImage.LongFileIsCut`, `MkImage.PayloadDecodes`).

## Model

| member | source | states |
|---|---|---|
| Unifdef.UnifdefCorrect | scripts/unifdef.c:458-502 | for every file, every command line and every world, in which conditions may change as the plain lines of the file define and undefine names but never against the command line: the run never hits an internal abort, finishes exactly on well nested files within the nesting limit, and preprocessing the output then selects the very lines that preprocessing the input selects |
| Unifdef.OutputLeftOpen | scripts/unifdef.c:663-694 | what is known is removed: on a finished run no #if, #ifdef, #ifndef or #elif of the output has a condition that the command line decides, and none has one that the input did not have |
| Unifdef.AllDecided | scripts/unifdef.c:458-502 | if every condition of the file is decided, the output is exactly the plain lines that preprocessing selects, in any world that agrees with the command line |
| Unifdef.NothingDecided | scripts/unifdef.c:458-502 | if none is decided, the output is the input and the exit status says so |
| UnifdefMeaning.RunPreservesMeaning | scripts/unifdef.c:418-502 | also with directives split over several lines: whenever a run finishes, input and output are well nested and select the same plain lines under every assignment of truth values that agrees with the conditions decided; one condition may be true at one place and false at another |
| UnifdefMeaning.StepSimulates | scripts/unifdef.c:418-502 | the invariant of every transition: the stack of states describes the groups open in the input and those open in the output; where lines are printed both readings select alike, inside a dropped block the input selects nothing |
| UnifdefMeaning.RelatedActive | scripts/unifdef.c:418-456 | printing states are those in which input and output agree on being selected; in dropping states the input selects nothing |
| UnifdefMeaning.RunFinishesIff | scripts/unifdef.c:458-550 | without split directives a run finishes if and only if the input is well nested, every prefix included, and nests fewer than MAXDEPTH groups |
| UnifdefMeaning.RunNeverAborts | scripts/unifdef.c:507-545 | no sequence of lines whose types fit reaches one of the abort() calls, split directives included, whatever the parser made of the conditions |
| UnifdefMeaning.ChangedIffDropped | scripts/unifdef.c:552-578 | the exit status of a finished run is 1 exactly if a line was dropped; an edited line does not count |
| UnifdefMeaning.DodgyKeepsPrinting | scripts/unifdef.c:404-412 | a split directive that is accepted switches between printing and dropping, which the comment says cannot be handled, exactly if it is a split #elif after nothing but false branches |
| UnifdefMeaning.SplitElifSwitches | scripts/unifdef.c:466-470 | a concrete run that gets there: a false #if, then a split #elif, from dropping to printing |
| UnifdefEval.EstimateSound | scripts/unifdef.c:746-777 | a definite answer is the value of the expression under every assignment of integers to unknown symbols |
| UnifdefEval.StrictIsWeaker | scripts/unifdef.c:768-777 | an answer given under -K is given without it, and whether a value is not a number does not depend on -K |
| UnifdefEval.OpAnswerExact | scripts/unifdef.c:746-777 | without -K an operator gives an answer exactly if every number that its unknown operands may have gives that answer; with -K exactly if both operands are known |
| UnifdefEval.KnownIsAnswered | scripts/unifdef.c:824-906 | an expression all of whose names are known has its value as the answer |
| UnifdefEval.KnownIsJudged | scripts/unifdef.c:951-962 | so has a whole condition, unless it has no names and -k was not given |
| UnifdefEval.MentionsIff | scripts/unifdef.c:824-906 | the constant expressions are those without a word among their tokens |
| UnifdefEval.JudgeSound | scripts/unifdef.c:951-962 | TRUE (FALSE) means that the left-associative precedence reading of the tokens is non-zero (zero) in every world that agrees with what is known; LT_ERROR is never returned |
| UnifdefEval.JudgeReads | scripts/unifdef.c:824-962 | a definite verdict that leaves nothing unread is a verdict on an expression of the grammar |
| UnifdefEval.JudgeStrictIsWeaker | scripts/unifdef.c:951-962 | the same for whole conditions and for all token sequences, well formed or not: -K only loses answers |
| UnifdefExpr.ParseYield | scripts/unifdef.c:802-940 | completeness: the tokens of every expression of the grammar are read as that expression, whatever follows |
| UnifdefExpr.ParseSound | scripts/unifdef.c:802-940 | soundness: what is read is an expression of the grammar whose tokens are those consumed, with the precedence of the table |
| UnifdefExpr.UniqueReading | scripts/unifdef.c:802-822 | the precedence table makes the grammar unambiguous |
| UnifdefExpr.GroupsAsC | scripts/unifdef.c:802-822 | any two operators group as in sections 6.5.8 to 6.5.14 of ISO/IEC 9899:1999: the tighter one first, else from the left |
| UnifdefEval.Evaluator.EvalUnary | scripts/unifdef.c:824-906 | the recursive evaluator with its cursor and value cell reports the reading of the tokens and its estimate; the constant-expression flag falls exactly when a symbol or "defined" was read |
| UnifdefEval.Evaluator.EvalTable | scripts/unifdef.c:912-944 | the same for the table-driven loop, at every level |
| UnifdefEval.Evaluator.OpFn | scripts/unifdef.c:746-777 | the operator functions on truth kinds and value cells compute the three-valued operators |
| UnifdefEval.Evaluator.Ifeval | scripts/unifdef.c:951-962 | the verdict on the condition |
| UnifdefProcess.Unifdef.Transition | scripts/unifdef.c:418-456 | each transition function, on the arrays and counters, does to the abstract stack what it should |
| UnifdefProcess.Unifdef.Process | scripts/unifdef.c:583-595 | the driver loop: the final state is that of the abstract run, and if it finished, the meaning is preserved under every assignment, place by place |
| UnifdefProcess.Unifdef.Nest | scripts/unifdef.c:526-535 | entering a group at the nesting limit is refused |
| UnifdefProcess.Unifdef.Unnest | scripts/unifdef.c:536-542 | leaving a group removes the innermost state and nothing else |
| UnifdefProcess.Unifdef.Keywordedit | scripts/unifdef.c:519-525 | the edited line is the one printed |
| Unifdef.ClassifySound | scripts/unifdef.c:663-694 | whatever the line parser decides about a condition is so at every place of the file, in every world that agrees with what is known |
| Unifdef.Parseline | scripts/unifdef.c:639-737 | line types from evaluated conditions, with #elif shifted along the enumeration |
| Unifdef.Filter | scripts/unifdef.c:583-595 | a whole file, evaluator and driver together: the run on the classified lines; if it finishes, nothing that is decided is left in the output |
| KconfigExpr.EliminateYnSame | scripts/kconfig/expr.c:231-312 | expr_eliminate_yn keeps the tristate value in every valuation |
| KconfigExpr.EliminateYnPrunes | scripts/kconfig/expr.c:231-312 | it leaves no y or n below "and" and "or", shrinks every tree that had one, and leaves others alone |
| KconfigEq.EliminateEqAtCancels | scripts/kconfig/expr.c:130-162 | there is one common part: each original has the value of its residue combined with it |
| KconfigEq.EliminateEqReflects | scripts/kconfig/expr.c:164-184 | if the residues are ordered in a valuation, the originals are ordered the same way |
| KconfigEq.YesResidueImplies | scripts/kconfig/menu.c:327-341 | a second residue of y means that the first condition implies the second |
| KconfigEq.ExprEqSound | scripts/kconfig/expr.c:189-229 | expressions that expr_eq calls equal have the same value in every tristate valuation; the mutual recursion ends |
| KconfigCancel.CancelsAll | scripts/kconfig/expr.c:130-162 | after the cancellation no operand of the one expression is equal to one of the other, but for constants |
| KconfigCancel.ExprEqReflexive | scripts/kconfig/expr.c:189-229 | expr_eq takes every expression for equal to itself |
| KconfigJoin.JoinSound | scripts/kconfig/expr.c:346-502 | every rewrite of expr_join_or and expr_join_and is exact in all three values |
| KconfigJoin.JoinSmaller | scripts/kconfig/expr.c:346-502 | a join is smaller than its operands and no new node of the joined kind |
| KconfigPaths.LeavesApart | scripts/kconfig/expr.c:504-554 | two different cursors at leaves of one spine never lie inside each other |
| KconfigPaths.TwoSlots | scripts/kconfig/expr.c:524-533 | rewriting two different leaf slots keeps the value of the tree if it keeps their combined value |
| KconfigDups.Dups1Same | scripts/kconfig/expr.c:504-554 | expr_eliminate_dups1 with both cursors in one tree keeps the value in every valuation, m included |
| KconfigDups.Dups2Keeps | scripts/kconfig/expr.c:556-610 | expr_eliminate_dups2 keeps every value of y or n, whatever other symbols are |
| KconfigDups.ExtractedExact | scripts/kconfig/expr.c:826-875 | expr_extract_eq takes one common part out of both trees, exactly |
| KconfigDups.Passes | scripts/kconfig/expr.c:612-634 | a round that counts a change leaves a y or n for expr_eliminate_yn to remove, and one that counts none changes nothing: why the loop ends |
| KconfigDups.EliminateDupsKeeps | scripts/kconfig/expr.c:612-634 | in every tristate valuation an expression that is y or n stays so; only m may change |
| KconfigDups.EliminateDupsTwoValued | scripts/kconfig/expr.c:612-634 | in every valuation without m the value is kept |
| KconfigDups.EliminateDupsStable | scripts/kconfig/expr.c:612-634 | the result is a fixpoint: another call changes nothing |
| KconfigReduced.EliminateDupsReduces | scripts/kconfig/expr.c:346-554 | in what expr_eliminate_dups returns any two operands of one spine, at every level, are different and not equal by expr_eq; below "or" no bool stands beside its negation and no tristate is compared for equality with two of y, m and n; below "and" no symbol stands beside its comparison with y, or for inequality with n or m, and no tristate is compared with two constants of which one is excluded, nor excludes two of y, m and n |
| KconfigReduced.EliminateDupsLeavesNoOpposite | scripts/kconfig/expr.c:556-610 | nor is there an operand of the other kind all of whose negated operands, being different, stand beside it |
| KconfigReduced.NoOppositePair | scripts/kconfig/expr.c:577-600 | with symbols: a or b never stands beside !a and !b below "and", nor a and b beside them below "or" |
| KconfigDupsMod.EliminateDupsLosesMod | scripts/kconfig/expr.c:577-600 | two concrete expressions: (A or n) && !A, which is m when A is m and is rewritten to n, and (A && y) or !A, which is m as well and is rewritten to y |
| KconfigTransform.TransformSameFor | scripts/kconfig/expr.c:636-771 | expr_transform keeps the value in every valuation |
| KconfigTransform.TransformNormal | scripts/kconfig/expr.c:636-771 | in the result negation stands only on symbols other than y, m and n, and no bool symbol is compared with one of these |
| KconfigTransform.TransformFixesNormal | scripts/kconfig/expr.c:636-771 | the normal forms are exactly the expressions left alone |
| KconfigTransform.TransformIdempotent | scripts/kconfig/expr.c:636-771 | a second call changes nothing |
| KconfigTransform.TransBoolKeepsVisibility | scripts/kconfig/expr.c:317-341 | on normal forms expr_trans_bool never raises a value and never lowers one to n |
| KconfigTransform.TransBoolDropsUnequal | scripts/kconfig/expr.c:317-341 | it leaves no comparison of a tristate with n for inequality, and leaves an expression alone exactly if there is none |
| KconfigTransform.TransCompareNo | scripts/kconfig/expr.c:877-936 | expr_trans_compare against n is exact in every valuation in which no symbol under an odd number of negations is m; where only such symbols are m it compares with y instead |
| KconfigTransform.TransCompareRaises | scripts/kconfig/expr.c:877-936 | what it answers in any valuation at all: it takes m for y, so it is right exactly if that makes no difference to being n |
| KconfigTransform.TransCompareLowers | scripts/kconfig/expr.c:877-936 | compared with y it takes m for n, in any valuation |
| KconfigTransform.TransCompareBounds | scripts/kconfig/expr.c:877-936 | in any valuation a yes to "not n" means not n, and a no means not y |
| KconfigTransform.ContainsAll | scripts/kconfig/expr.c:773-795 | the value depends on no symbol that expr_contains_symbol does not find |
| KconfigTransform.DependsForces | scripts/kconfig/expr.c:797-824 | if expr_depends_symbol answers yes, the expression is n whenever the symbol is |
| KconfigRewriter.Rewriter.PruneYn | scripts/kconfig/expr.c:231-312 | the in-place version rewrites the subtree under the cursor and nothing else |
| KconfigRewriter.Rewriter.EliminateEqAtCursors | scripts/kconfig/expr.c:130-162 | the in-place cancellation, one cursor in each tree |
| KconfigRewriter.Rewriter.EliminateEquals | scripts/kconfig/expr.c:164-184 | the in-place loop computes the residues |
| KconfigRewriter.Rewriter.ExprEqual | scripts/kconfig/expr.c:189-229 | expr_eq on copies, trans_count restored |
| KconfigRewriter.Rewriter.ExtractEqAtCursors | scripts/kconfig/expr.c:848-875 | the in-place extraction, one cursor in each tree, refines the one on values |
| KconfigRewriter.Rewriter.IsOpposed | scripts/kconfig/expr.c:577-600 | the test of expr_eliminate_dups2 on copies of the two operands |
| KconfigRewriter.Rewriter.EliminateDups1 | scripts/kconfig/expr.c:504-554 | the in-place pass through two aliased cursors refines the pass on values and counts what it counts |
| KconfigRewriter.Rewriter.EliminateDups2 | scripts/kconfig/expr.c:556-610 | the same for the second pass |
| KconfigRewriter.Rewriter.EliminateDuplicates | scripts/kconfig/expr.c:612-634 | the in-place loop ends, restores trans_count, and keeps y and n in every valuation |
| MenuForest.FinalizePreorder | scripts/kconfig/menu.c:262-405 | menu_finalize keeps the preorder of all entries and finalises each once, in that order |
| MenuForest.HoistPreorder | scripts/kconfig/menu.c:395-405 | moving children of promptless entries up to follow them keeps the preorder |
| MenuForest.FinalizeSwallows | scripts/kconfig/menu.c:321-352 | an entry without children but with a symbol takes the following siblings up to the first it does not swallow, and no others; what comes to the surface from them are its children; other entries take none |
| MenuForest.FinalizeFlat | scripts/kconfig/menu.c:355-405 | afterwards no entry without a prompt has children, at any depth |
| MenuForest.HoistSurfaces | scripts/kconfig/menu.c:395-405 | what hoisting leaves in the chain are its own entries and what surfaces from below those without a prompt, each with its children if it has a prompt and none if it has not |
| MenuFinalize.MenuTree.MenuFinalize | scripts/kconfig/menu.c:262-405 | relinking list, next and parent in place arranges the entries as the recursive description says; every parent pointer is right and nothing outside is touched |
| MenuFinalize.MenuTree.FinalizeRoot | scripts/kconfig/menu.c:262-405 | for the whole menu: the same entries in the same preorder, none lost, none doubled, each finalised once, all parent pointers right |
| MenuFinalize.MenuTree.SwallowLoop | scripts/kconfig/menu.c:326-346 | the loop over following siblings stops at the first that is not swallowed |
| MenuFinalize.MenuTree.SwallowSiblings | scripts/kconfig/menu.c:321-352 | the surgery after it: the swallowed chain becomes the list of the entry |
| MenuFinalize.MenuTree.HoistChildren | scripts/kconfig/menu.c:355-405 | the loop over the list splices children behind their promptless parents |
| MenuFinalize.Walk | scripts/kconfig/confdata.c:779-812 | the walk of conf_write over parent pointers, without a stack, passes every entry once, in menu order |
| MenuFinalize.NextMenu | scripts/kconfig/confdata.c:799-811 | one step of the walk: down, on, or up until one can go on |
| MenuSwallow.ConditionRaises | scripts/kconfig/menu.c:327-338 | the simplified test that is made of a condition answers, in any valuation, whether it would be other than n with every m raised to y |
| MenuSwallow.SwallowedIsChild | scripts/kconfig/menu.c:321-346 | in any valuation: a swallowed entry whose condition would not be n with every m raised to y is visible only where the symbol is not n, or where the prompt of its entry is visible and would be so with every m raised to y |
| MenuSwallow.RaisedVisible | scripts/kconfig/menu.c:327-341 | what would be other than n with every m raised to y is other than n, and the converse where no symbol under an odd number of negations is m: an entry can only escape by such an m |
| MenuSwallow.SwallowedWithoutNegatedMod | scripts/kconfig/menu.c:321-346 | so where no symbol under an odd number of negations in the condition is m, a swallowed entry is visible only where the symbol is not n or the prompt of its entry is visible |
| MenuSwallow.DemandIsSwallowed | scripts/kconfig/menu.c:331-332 | an entry one operand of whose conjunction is the symbol, or compares it with y or m, or with n for inequality, is swallowed whatever the condition of the prompt is |
| MenuSwallow.UnderFreePrompt | scripts/kconfig/menu.c:322-341 | under a prompt without a condition exactly the entries that mention the symbol are swallowed |
| MenuSwallow.NarrowerIsSwallowed | scripts/kconfig/menu.c:333-341 | an entry that mentions the symbol and whose simplified condition is that of the prompt and more is swallowed |
| MenuSwallow.NegatedModEscapesFor | scripts/kconfig/menu.c:327-341 | with a negated m the test errs: in every valuation in which a is m and o is n, an entry with the condition !a && !o is swallowed by that of o and visible, though the prompt of o is not |
| MenuSwallow.NegatedModEscapes | scripts/kconfig/menu.c:327-341 | one concrete case of that |
| SymbolMeaning.SolutionProper | scripts/kconfig/symbol.c:373-374 | computed values make a valuation of the kind the rewriting assumes: a bool is never m |
| SymbolMeaning.DefaultDecides | scripts/kconfig/symbol.c:115-124 | where the user has no say, the first default whose condition is not n gives the value, cut to that of its condition and not below what selects the symbol, and the symbol is written |
| SymbolMeaning.SelectionDecides | scripts/kconfig/symbol.c:351-374 | if no condition of a default is met either, the value is that of what selects the symbol |
| SymbolMeaning.UserDecides | scripts/kconfig/symbol.c:340-349 | where a prompt is visible, the user value counts as far as the most visible prompt is visible, whatever the defaults are |
| SymbolMeaning.FirstOfTwo | core/kconfig/uclibc-kconfigs/uclibc.kconfig:15-18 | a concrete symbol of that kind, y under a condition and else n: with both defaults met it is y |
| SymbolMeaning.MeaningSolves | scripts/kconfig/symbol.c:292-428 | if values follow only from symbols of smaller rank, the uncached recursive definition solves the equations |
| SymbolMeaning.SolutionUnique | scripts/kconfig/symbol.c:292-428 | and they have no other solution, if values follow only from symbols of smaller rank |
| SymbolMeaning.ComputeLocal | scripts/kconfig/symbol.c:188-376 | the value of a symbol follows from the values of the symbols its prompts, defaults and reverse dependency mention |
| SymbolCalc.SymbolTable.CalcValue | scripts/kconfig/symbol.c:292-428 | sym_calc_value with its VALID flag ends on every graph, cyclic or not; every cell it leaves follows by the equations from final values, except that for symbols being computed at the time it takes what they showed: the value from before until their visibility was known, and then n |
| SymbolCalc.SymbolTable.CalcVisibility | scripts/kconfig/symbol.c:188-226 | visible, dir_dep.tri and rev_dep.tri follow so from what is seen, and everything their conditions mention has been looked at |
| SymbolCalc.SymbolTable.CalcWanted | scripts/kconfig/symbol.c:333-376 | the user value as far as visible, or the default; SYMBOL_WRITE set exactly when the value is to be written |
| SymbolCalc.SymbolTable.CalcExpr | scripts/kconfig/expr.c:938-977 | expr_calc_value over cached values equals the value under all values that agree with what is finished and with what symbols being computed show |
| SymbolCalc.ViewSeen | scripts/kconfig/symbol.c:292-428 | there always are such values |
| SymbolCalc.FinishedRight | scripts/kconfig/symbol.c:292-428 | if ranks fall along what values follow from and never rise along "depends on", every finished symbol has the value, visibility, selection and WRITE flag of the equations, whatever was asked for first and whatever symbols showed |
| SymbolCalc.SymbolTable.Evaluate | scripts/kconfig/symbol.c:292-428 | so, with such a rank, symbols asked for in any order get the values of the solution |
| SymbolCalc.SymbolTable.ClearAllValid | scripts/kconfig/symbol.c:430-440 | values from before the user changed something are kept but count for nothing: the table is again one in which everything is to be computed |
| SymbolCheck.DependencySearch.CheckAll | scripts/kconfig/symbol.c:1192-1224 | something is reported if and only if the dependencies have a cycle; every report is a real cycle; no symbol stays marked; no call made with an empty stack returns a symbol |
| SymbolCheck.DependencySearch.CheckDeps | scripts/kconfig/symbol.c:1192-1224 | a call leaves stack and marks as they were, and without a report the symbol and all it depends on are finished |
| SymbolCheck.DependencySearch.PrintRecursive | scripts/kconfig/symbol.c:1018-1082 | what is reported is the stack from the symbol met again to the top, a cycle |
| SymbolCheck.SortedHasNoCycle | scripts/kconfig/symbol.c:1192-1224 | if the checked symbols can be listed after all they depend on, there is no cycle |
| SymbolOrder.EdgeIsUse | scripts/kconfig/symbol.c:1121-1153 | for every configuration: the search follows exactly the symbols that the value of a symbol follows from |
| SymbolOrder.SortedIsRanked | scripts/kconfig/symbol.c:1192-1224 | if all symbols are finished and none was reported, the order of finishing is a rank that falls along what values follow from |
| SymbolOrder.RankedHasNoCycle | scripts/kconfig/symbol.c:1192-1224 | such a rank rules out every cycle the search could find |
| SymbolOrder.RankedIsDetermined | scripts/kconfig/symbol.c:292-428 | and makes the equations have exactly one solution |
| SymbolOrder.CoveredIsSteady | scripts/kconfig/menu.c:299-315 | if whatever "depends on" mentions is mentioned in another property of the symbol too, that rank never rises along "depends on" |
| SymbolOrder.CheckAndEvaluate | scripts/kconfig/zconf.y:516-519 | for every typed configuration all of whose symbols are checked: something is reported if and only if what values follow from has no rank; if nothing is, the equations have exactly one solution for every user; if some such rank never rises along "depends on", nothing is reported and evaluation in any order gives the solution |
| SymbolOrder.TangledIsSilent | scripts/kconfig/symbol.c:1121-1153 | a concrete configuration, with a selected symbol that has only a "depends on", in which nothing is reported and yet no rank never rises along "depends on" |
| SymbolOrder.TangledIsYes | scripts/kconfig/symbol.c:292-428 | without user values its only solution has all three symbols y |
| SymbolOrder.OrderMatters | scripts/kconfig/symbol.c:292-428 | two runs on it: one symbol is n when asked for after another, and y when asked for first |
| SymbolChoice.Choice.DefaultMember | scripts/kconfig/symbol.c:234-258 | the first visible member that a met default names, else the first visible one |
| SymbolChoice.Choice.CalcChoice | scripts/kconfig/symbol.c:260-290 | the visible choice of the user, else the default; the choice counts as decided by the user only if all visible members do |
| SymbolChoice.OnIff | scripts/kconfig/symbol.c:340-374 | a choice is y exactly if its reverse dependency is not n, or the user said m or y and a prompt has a condition other than n |
| SymbolChoice.Choice.Recompute | scripts/kconfig/symbol.c:333-338 | everything is evaluated again under any values of other symbols, in terms of the conditions themselves: if something requires the choice or the user wants it where it is visible, and a member can be seen, exactly one member is y, that of the user if it can be seen, else the first that a met default names, else the first; otherwise none is |
| SymbolChoice.Choice.SetMember | scripts/kconfig/symbol.c:481-515 | what setting a member to y changes, and when it is refused |
| SymbolChoice.Choice.Choose | scripts/kconfig/symbol.c:481-515 | after setting a visible member and evaluating everything again, with new values for the members and for what depends on them, the choice is still y, the member is y and all others are n |
| SymbolChoice.Choice.CalcValue | scripts/kconfig/symbol.c:333-391 | the value of the choice, the visibility of its members and the selected one, from the conditions |
| SymbolChoice.OnSame | scripts/kconfig/symbol.c:333-376 | the value of the choice follows from the symbols its conditions mention |
| SymbolChoice.SettingSame | scripts/kconfig/symbol.c:234-290 | so do the visibility of the members and the defaults that are met |
| SymbolChoice.SelectsOne | scripts/kconfig/symbol.c:260-290 | the selected member is determined and visible |
| SymbolChoice.SelectsTakes | scripts/kconfig/symbol.c:234-290 | the selected member in terms of the conditions |
| SymbolChoice.SeenWhereYes | scripts/kconfig/symbol.c:268-272 | the conditions of members and defaults are taken where the choice is y |
| SymbolSet.SetGivesValueIff | scripts/kconfig/symbol.c:462-515 | after an accepted sym_set_tristate_value the recomputed value is the requested one if and only if the request is visible or forced; otherwise it was the value already, from a default beyond visibility |
| SymbolSet.SetGivesValueTwoValued | scripts/kconfig/symbol.c:462-515 | with modules off it always is |
| SymbolSet.AcceptedIsLost | scripts/kconfig/symbol.c:481-515 | a concrete symbol, y by default beyond a prompt visible as m: setting it to y is accepted, and it becomes m |
| SymbolSet.OthersKeep | scripts/kconfig/symbol.c:481-515 | symbols that cannot depend on the one set keep their values |
| SymbolSet.AcceptsIff | scripts/kconfig/symbol.c:462-479 | of a symbol more visible than selected every value is accepted that the symbol would get by being set to it, and no other but the one it has |
| Defconfig.RoundTripIff | scripts/kconfig/confdata.c:657-728 | clearing all user values and reading back the minimal configuration restores every value if and only if every symbol the user cannot change has its default value |
| Defconfig.RoundTripTwoValued | scripts/kconfig/confdata.c:657-728 | with modules off it always does |
| Defconfig.EveryLineNeeded | scripts/kconfig/confdata.c:678-687 | the configuration is minimal: without the line of a symbol the symbol gets another value, if no symbol that cannot be changed differs from its default |
| Defconfig.DefaultHasNoLine | scripts/kconfig/confdata.c:683-687 | a symbol whose value it would have without a user value has no line |
| Defconfig.StuckSymbolChanges | scripts/kconfig/confdata.c:683-687 | a concrete symbol, m by choice of the user and selected as m, that comes back as y |
| Defconfig.WriteDefconfig | scripts/kconfig/confdata.c:657-728 | the loop over menu entries prints the lines of the symbols that need one, in menu order |
| Defconfig.LinesForSaved | scripts/kconfig/confdata.c:657-728 | these lines hold exactly the values to be saved, each once |
| Defconfig.LinesInMenuOrder | scripts/kconfig/confdata.c:657-728 | the lines stand in the order of the menu |
| Defconfig.SaveAndLoad | scripts/kconfig/confdata.c:657-728 | printing a minimal configuration and reading the text back gives exactly the user values saved |
| ConfLine.UnescapeEscaped | scripts/kconfig/symbol.c:903-944 | unescaping undoes escaping, whatever follows the closing quote |
| ConfLine.UnescapeOpen | scripts/kconfig/confdata.c:153-166 | what is escaped has no closing quote |
| ConfLine.EscapedPlain | scripts/kconfig/symbol.c:903-944 | what has neither quotes nor backslashes is not changed by escaping |
| ConfLine.EscapedAppend | scripts/kconfig/symbol.c:903-944 | each character is escaped on its own |
| ConfLine.EscapedMarks | scripts/kconfig/symbol.c:903-944 | a quote and a backslash get a backslash |
| ConfLine.EscapedLength | scripts/kconfig/symbol.c:905-921 | the first pass counts the exact length of the buffer |
| ConfLine.EscapeString | scripts/kconfig/symbol.c:903-944 | the second pass fills the buffer to its last place with the escaped string |
| ConfLine.UnescapeInPlace | scripts/kconfig/confdata.c:153-166 | the memmove loop ends, stays inside the string, refuses exactly strings that never end, and leaves the unescaped string in place |
| ConfFile.SetSymVal | scripts/kconfig/confdata.c:120-183 | what conf_set_sym_val makes of the text, for every type |
| ConfFile.Spelled | scripts/kconfig/confdata.c:476-497 | how y, m, n and numbers look in a file |
| ConfFile.SpelledText | scripts/kconfig/confdata.c:476-497 | strings stand in quotes |
| ConfFile.LettersMean | scripts/kconfig/confdata.c:120-153 | what the letters y, m and n mean for a bool and for a tristate |
| ConfFile.NumbersTaken | scripts/kconfig/symbol.c:540-568 | which numbers are taken: decimal ones without a leading zero, hexadecimal ones with or without 0x |
| ConfFile.SymbolReadsBack | scripts/kconfig/confdata.c:306-367 | a printed symbol of any type reads back as its value, whatever else is in the file, if the value has no newline |
| ConfFile.FileReadsBack | scripts/kconfig/confdata.c:476-497 | so does everything that was printed |
| ConfFile.RestoredIff | scripts/kconfig/confdata.c:306-367 | a symbol printed and read back has its value again if and only if the value spans one line |
| ConfFile.FileRestoredIff | scripts/kconfig/confdata.c:306-367 | a whole configuration comes back if and only if every value in it spans one line |
| ConfFile.ReadFileOneLine | scripts/kconfig/confdata.c:306-367 | whatever is in a file, no symbol gets a value of several lines from it |
| ConfFile.NewlineLost | scripts/kconfig/confdata.c:153-170 | a concrete string that does not come back |
| ConfFile.BrokenLineRefused | scripts/kconfig/confdata.c:153-170 | of a string with a newline the line with its beginning is refused |
| ConfFile.NewlineSplits | scripts/kconfig/symbol.c:903-944 | escaping leaves newlines alone, so such a string takes several lines |
| ConfFile.Reader.ReadConf | scripts/kconfig/confdata.c:306-397 | the loop of conf_read_simple reads line by line |
| ConfFile.Reader.Restore | scripts/kconfig/confdata.c:306-397 | reading a printed configuration gives its symbols their values |
| Crc32Polynomial.CrcIsRemainder | src/mkimage/crc32.c:29-52 | the checksum is the complemented remainder of a long division of the message, times x^32 and with its first 32 coefficients complemented, by the polynomial of section 8 of RFC 1952 |
| Crc32Polynomial.PolyCoefficients | src/mkimage/crc32.c:58-66 | 0xedb88320 is that polynomial, lowest powers in the most significant bits |
| Crc32Polynomial.BurstDetected | src/mkimage/crc32.c:149-174 | bit sequences that differ only within 32 consecutive bits leave the register different |
| Crc32Polynomial.FeedInjective | src/mkimage/crc32.c:149-152 | no byte merges two registers |
| Crc32Register.CrcAppend | src/mkimage/crc32.c:149-174 | the checksum of a concatenation is that of the second part continued from that of the first |
| Crc32.TableComputed | src/mkimage/crc32.c:79-132 | each of the 256 constants is the register after eight shifts of its index |
| Crc32.MakeCrcTable | src/mkimage/crc32.c:53-74 | the computed table equals the constant one |
| Crc32.PatternIsPoly | src/mkimage/crc32.c:58-66 | the listed powers make the pattern 0xedb88320 |
| Crc32.Do1 | src/mkimage/crc32.c:149-152 | one table step takes in the eight bits of a byte |
| Crc32.Crc32 | src/mkimage/crc32.c:149-174 | the unrolled table-driven loop computes the bitwise checksum of every buffer |
| Crc32.FourBytesDetected | src/mkimage/crc32.c:149-174 | messages of the same length that agree outside four consecutive bytes have the same checksum only if they are the same |
| Crc32.UpdateInjective | src/mkimage/crc32.c:149-174 | the register after a buffer determines the register before |
| Fixdep.UsesContains | scripts/basic/fixdep.c:236-267 | what is to be found: every name after a CONFIG_ at offset 1 or later that is ended by another character, less a final _MODULE |
| Fixdep.WordTells | scripts/basic/fixdep.c:240-247 | a prefix at any of four places shows in one aligned word |
| Fixdep.Next4IsCandidate | scripts/basic/fixdep.c:240-247 | so one word accounts for exactly four places |
| Fixdep.StrippedInPlace | scripts/basic/fixdep.c:260-265 | comparing the seven bytes before the end finds the suffix; it reaches into the prefix only for the name MODULE |
| Fixdep.SuffixRemoved | scripts/basic/fixdep.c:260-265 | a final _MODULE is removed whatever it follows, and other names are left alone |
| Fixdep.OnlyModuleIsMissed | scripts/basic/fixdep.c:260-265 | of the delimited names exactly "MODULE" is passed over |
| Fixdep.ModuleIsMissed | scripts/basic/fixdep.c:260-265 | a concrete file in which CONFIG_MODULE is not found |
| Fixdep.Fixdep.FindConfig | scripts/basic/fixdep.c:249-265 | the loop body finds the symbol used at a place |
| Fixdep.Fixdep.ParseConfigFile | scripts/basic/fixdep.c:236-267 | the scan of aligned words passes on what a naive search finds, in order, once for each place |
| Fixdep.Fixdep.IsDefinedConfig | scripts/basic/fixdep.c:164-174 | the search of one chain decides whether the name was listed |
| Fixdep.Fixdep.DefineConfig | scripts/basic/fixdep.c:179-192 | the new item extends the set of listed names by its own |
| Fixdep.Fixdep.UseConfig | scripts/basic/fixdep.c:214-234 | a name is printed the first time it is used |
| Fixdep.Fixdep.ParseDependencies | scripts/basic/fixdep.c:317-368 | over all dependencies each symbol used in any is listed once, and nothing else |
| Fixdep.ListedOnce | scripts/basic/fixdep.c:214-234 | the list has no duplicates and holds what was used |
| Fixdep.ListedInOrder | scripts/basic/fixdep.c:214-234 | it is in order of first use |
| Fixdep.PathSpelled | scripts/basic/fixdep.c:222-232 | the path of a symbol: letters become small and underscores slashes |
| MkImage.PayloadDecodes | src/mkimage/image.h:103-108 | the payload of a multi-file image decodes by its documented format to exactly the files, if and only if each has a size from 1 to 4 GiB - 1 |
| MkImage.LongFileIsCut | src/mkimage/mkimage.c:518-605 | a concrete file, of 4 GiB and one byte, that is cut to one byte without an error |
| MkImage.PaddedAligned | src/mkimage/mkimage.c:587-594 | a file that is not the last is filled with zeros to the next multiple of four bytes |
| MkImage.HeaderHolds | src/mkimage/image.h:139-158 | the bytes of a header hold the magic number 27 05 19 56 and each field at its offset, numbers with the most significant byte first and the name cut or filled with zeros |
| MkImage.HeaderInjective | src/mkimage/image.h:139-158 | two different headers, each of whose fields fits its place, have different bytes |
| MkImage.Builder.CopyFile | src/mkimage/mkimage.c:518-605 | an empty file, which cannot be mapped, and one whose size is negative as an int are refused; else as much as the int says is copied, with padding to four bytes if asked for |
| MkImage.Builder.CopyFiles | src/mkimage/mkimage.c:434-447 | all files, the last one without padding, or a failure if any cannot be copied |
| MkImage.Builder.WriteSizes | src/mkimage/mkimage.c:394-432 | the list of sizes in network byte order, ended by zero |
| MkImage.Builder.Build | src/mkimage/mkimage.c:386-494 | an image is written exactly if no file that goes into it is empty or negative in size as an int; then -l accepts it, each field has the value given and stands at its offset, the two checksums are those of the header and of the data, and the data decodes to the files exactly if all are smaller than 4 GiB, or is the single file cut to the low 32 bits of its size |
| MkImage.ImageIsGood | src/mkimage/mkimage.c:308-370 | every image built passes the three checks of -l |
| MkImage.ChangeRejected | src/mkimage/mkimage.c:308-370 | no image that passes still does after a change within four consecutive bytes that does not straddle the end of the header checksum |
| MkImage.SumDetectsFour | src/mkimage/crc32.c:149-174 | the checksum has what that needs |

## Left out

- UnifdefCorrect: starts from tokenised lines; the character lexer (comments, continuation lines,
  rewinding of arguments) is not part of this model, nor is what `-i` symbols do to it. The lines of
  a file do not define or undefine names that the command line does.
- JudgeSound: integers are unbounded; literals and values of symbols outside the range of `int`
  are not modelled.
- Process: without `-c`, `-s`, `-S`, `-B`, `-b` and `-n`, which change how lines are written.
- SetGivesValueIff: for symbols outside choices; members of choices are in `SymbolChoice`.
- Evaluate: bool and tristate symbols outside choices; `modules_val` is fixed during evaluation,
  and the text of strings and numbers, `P_RANGE` applied, is a constant of the configuration. The
  condition goes one way: a symbol met while it is computed need not matter to any value.
- CheckAll: no choice groups (`sym_check_choice_deps`); the text of the report is the stack segment.
- Choose: no condition of the choice or its members mentions a member or what depends on one. In
  `SymbolChoice` members have no defaults of their own and defaults of the choice name members.
- RoundTripIff: bool and tristate symbols outside choices; every defined symbol has a menu entry.
- SaveAndLoad: as for RoundTripIff, and symbols have different names.
- EliminateDupsKeeps: no E_LIST or E_RANGE nodes, as in the conditions these functions are used on.
- TransCompareRaises: the comparison with m, which no caller asks for, is not modelled.
- Transform: on values; `expr_transform` and `expr_trans_compare` replace each node by what they
  return, and the reuse and freeing of nodes is not modelled.
- MenuFinalize: the tests it makes (is there a symbol, is the sibling swallowed, is the prompt
  empty) are arbitrary answers; the properties it adds to choices, `dir_dep` and the warnings are
  not modelled.
- SwallowedIsChild: for conditions over bool and tristate symbols; where the condition is n once
  every m is raised to y the code can be wrong (`NegatedModEscapes`).
- FileReadsBack: symbols outside choices, no NUL in the file, and only the lines of symbols;
  comments, headings and the values a warning is given for are left alone.
- Restore: reading for the user's values only, where the types of symbols are known.
- ReadConf: a line is compared as if nothing followed it in the buffer; the program compares a few
  bytes more when a line is shorter than the prefix it looks for.
- ParseDependencies: starts from the contents of the dependencies; their list is not parsed.
- Build: files are byte sequences that can be read; images executed in place, and the offsets that
  `print_header` prints, are not modelled. Checksums are of all the data, though the program cuts
  lengths of 4 GiB and more to 32 bits there too.
- Crc32: the register is 32 bits wide; a start value wider than that is not modelled.
- User interfaces, file system and process calls, memory allocation, gettext, regular expressions,
  the Kconfig parser, `conf_split_config` and the other output formats would only add easy members
  or have no state to model.
