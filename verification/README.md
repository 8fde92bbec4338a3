# Models and proofs for lp_solve, its allocator and the LoLA command line

A Dafny project about the algorithms behind LoLA's linear programs and its command line:
the parts of lp_solve 5.5 that search, price, branch on special sets, hash names and save
bases and parameters, the guarded allocator it can be built with, and the generated getopt
scanner. `dafny verify dfyconfig.toml` checks all of it.

| file | what it models |
|---|---|
| `UndoLadder.dfy` | the change logs that keep shared bound vectors correct |
| `SearchTree.dfy` | integer boxes, splits, the objective test, chains of live nodes, on values |
| `SearchState.dfy` | what the search keeps true, on values |
| `BranchAndBound.dfy` | the branch and bound driver as linked nodes over two shared arrays |
| `RelaxationLoop.dfy` | the bound relaxation loop around one simplex call |
| `LinearAlgebra.dfy`, `SteepestEdge.dfy` | basis inverses and norms after a pivot, over the reals |
| `Pricer.dfy` | the price vector: recomputed and updated |
| `SosList.dfy`, `Sos.dfy` | the member array of a special ordered set, on values and in place |
| `SosGroup.dfy` | the index from columns to sets |
| `Gub.dfy`, `GubBranching.dfy` | candidate lists and three-way branching |
| `Exchange.dfy`, `Getopt.dfy` | block exchange in argv, and the scanner |
| `MultipleArgs.dfy` | comma-separated values with escapes |
| `BasisFile.dfy` | writing and reading a basis |
| `HashTable.dfy` | buckets and insertion order over the same nodes |
| `ParamNames.dfy` | option values as sums of names |
| `Fortify.dfy` | headers, guards and the list of live blocks |

Each imperative part of the source is a method over arrays, linked objects or fields,
proved against a function or predicate on values; what the source promises is proved about
those. Where a method calls a function its specification also uses, lemmas say what that
function computes in other terms: numbers, positions, cardinalities, or the cases of the
source. Some choices that hold throughout:

- The simplex method, `bsolve`, `fsolve`, `ftran`, `prod_xA`, `searchFor` and the system's
  `malloc` enter through what they mean mathematically, as parameters or functions.
- Floating-point numbers are reals. `epsprimal`, `epspivot` and `bb_deltaOF` stay parameters;
  tolerances that only absorb rounding are zero.
- Rows and slots count from zero where the source leaves element zero unused, except in
  the price vector, the basis flags and the member arrays, whose element zero is used.

## Main results

- **Branch and bound is exact** (`SolveModel`, `RunBB`). For a pure integer model with finite
  bounds, an exact relaxation, zero gaps and an `epsprimal` of at most one half, the
  non-recursive search ends and reports OPTIMAL exactly when there is an integer solution.
  The solution it then holds is optimal up to what the tolerance test gives up: the window
  `deltaOF - epsprimal`, or `epsprimal - deltaOF` once per incumbent where that is positive,
  or `epsprimal` after a break at the dual limit, which comes exactly when one solution is
  asked for and the stored one is that close to the root relaxation. When objective values are apart
  (`TestIsExactIffApart`: the test orders no other values rightly) it is optimal. At each
  relaxation the shared bounds are the root's, overridden by the live branches only
  (`SolveBB`); after a pop they are the parent's from before its branch (`PopBB`). The number
  of relaxations is bounded by twice the number of integer points.
- **Updated steepest edge norms are the recomputed ones** (`Pivot`), dual and primal,
  exactly for the pivots that are not below the tolerance (`KeepsExactIff`); neither the
  refresh nor the floor is ever needed for those.
- **Guarded SOS runs keep a window** (`RunKeepsWindow`), marks that were taken back leave no
  trace, and `SOS_is_satisfied`, `SOS_fix_unmarked` and the membership index are
  characterised exactly.
- **Three-way branching loses no point** (`BranchOnSet`): with a candidate list all three
  branches run, for any starting direction, and every point survives in one of them wherever
  the variable is cut.
- **A full getopt scan** (`ScanAll`) hands out exactly the events of one reading of the
  untouched command line and leaves argv as options, then operands.
- **Exact round trips**: token lists (`SplitJoinIff`), basis files (`RoundTripIff`), option
  values (`CodeAndModesRoundTrip` and the tables).
- **Data structures**: the name table refines an ordered map with a copy at another size;
  the guarded allocator keeps one valid list of exactly the live blocks.

## Where the code is not what it seems

Each of these is the code's behaviour, proved as such:

- `restoreUndoLadder` ends with `mat_shiftcols(..., -1)` on the last column, under a comment
  that says the changes are got rid of. For the last column that call changes no pointer: the
  entries stay and are written back again later, which does no harm (`RestoreGivesBase`).
- In `bb_better` the tests OF_TEST_BT and OF_TEST_BE make the same comparison. With
  `epsprimal` above `bb_deltaOF` a slightly worse solution passes as better, so incumbents can
  get worse, each by less than the difference (`GapKept`).
- The loop in `solve_LP` need not end: it is bounded exactly when the configuration recovers
  from no failure (`BoundedIff`, `NeedNotEnd`). The same condition says whether it can leave
  private bound copies behind (`CopiesCanBeLeftIff`; `CopiesLeftIff` for one ending).
- A refresh inside `updatePricer` recomputes the norms of the basis that is being left: the
  exchange of variables comes after the call. So the norms survive exactly the pivots that
  ask for none (`KeepsExactIff`; `RefreshLeavesWrongNorms` is an instance).
- `SOS_is_satisfied` and `SOS_fix_unmarked` take every window to run to the right. A full
  leftward window is reported as an error, and the member it could grow by is fixed
  (`FullWindowAcceptedIff`, `NextStaysFreeIff`); permitted activations lead there
  (`LeftwardRunFails`). The check of such a window may also read past the members.
- `drophash` leaves `last` at the dropped element when that was the tail of a longer list
  (`DropHash`).
- The token splitter drops an empty last value, merges a value that ends in a backslash with
  the next one, and reads the byte in front of its argument (`SplitJoinIff`).
- `_Fortify_free` notices a damaged block behind the one to be freed only after it has
  changed the forward links, which is exactly when it breaks the list (`Free`); two exchanged
  header words go unnoticed.
- `_Fortify_realloc` hands out the new block also when the old one cannot be freed, so that
  both stay on the list, which is broken in the same case as by `Free` (`Realloc`).
- The scope counter is one byte. Leaving a scope reports the right blocks exactly as long as
  no scope reaches 256 (`LeaveScope`, `ReportIsExactIff`); every 256th scope reports nothing.
- `fillbranches_BB` gives a column that cannot be positive no branch at all when its value is
  its upper bound, because `intmargin` is subtracted there (`BranchBounds`). The driver never
  branches on such a value.

## Model

| member | source | states |
|---|---|---|
| UndoLadders.RestoreGivesBase | libs/lp_solve_5.5/lp_matrix.h:243 | Writing the logged values back gives exactly the base vector whenever every entry logs the base value and everything that differs is logged, also with items logged twice and stale entries still in the level |
| UndoLadders.RestoreGivesBaseIff | libs/lp_solve_5.5/lp_matrix.h:243 | For any log: restoring gives the base vector if and only if the last entry of every logged item has its value in the base and no item without an entry differs from it; earlier entries of an item do not matter |
| UndoLadders.UndoLadder.Increment | libs/lp_solve_5.5/lp_matrix.h:240 | A new, empty level on top of the old ones |
| UndoLadders.UndoLadder.Modify | libs/lp_solve_5.5/lp_matrix.h:241 | The old value of the item is appended to the last level, the item gets the new value, nothing else changes |
| UndoLadders.UndoLadder.Counts | libs/lp_solve_5.5/lp_matrix.h:242 | The number of entries in the last level |
| UndoLadders.UndoLadder.Restore | libs/lp_solve_5.5/lp_matrix.h:243 | The target becomes the old target with the last level written back; the level keeps its entries (the closing mat_shiftcols call removes nothing, whatever its comment says) |
| UndoLadders.UndoLadder.Decrement | libs/lp_solve_5.5/lp_matrix.h:244 | The last level is dropped, all lower levels stay |
| SearchTree.ExactMonotone | libs/lp_solve_5.5/lp_mipbb.c:788-867 | An exact relaxation of a smaller box is not better than that of the larger one |
| SearchTree.TestIsExactIffApart | libs/lp_solve_5.5/lp_lib.c:8489-8564 | The tolerance test orders a set of objective values correctly if and only if different values are further apart than the tolerance window on both sides |
| SearchTree.WholeValuesSeparate | libs/lp_solve_5.5/lp_lib.c:8489-8564 | Whole objective values are apart enough for the test whatever the model, for a tolerance of at most one half and an improvement threshold less than one above it |
| SearchTree.RelativeTestIsImplied | libs/lp_solve_5.5/lp_lib.c:8489-8564 | With zero gaps the relative test never rejects what the absolute one accepts |
| SearchTree.SidesPartition | libs/lp_solve_5.5/lp_mipbb.c:429-633 | The floor and the ceiling side of a split contain every integer point of the box, and no point is in both |
| SearchTree.SidesSize | libs/lp_solve_5.5/lp_mipbb.c:429-633 | The sizes of the two sides add up to the size of the box, and both are smaller |
| SearchTree.DirectionIs | libs/lp_solve_5.5/lp_mipbb.c:635-740 | The first branch of a node goes in the chosen direction, the second in the other |
| SearchTree.BoxIsInside | libs/lp_solve_5.5/lp_mipbb.c:635-740 | The box of a live chain is valid and lies inside the root box |
| SearchTree.PushStep | libs/lp_solve_5.5/lp_mipbb.c:80-167 | Pushing a node turns the points of the current box into pending points of the two sides, none lost, none counted twice, and uses up work |
| SearchTree.NextStep | libs/lp_solve_5.5/lp_mipbb.c:635-740 | Taking the next branch moves exactly the points of that side from pending to current |
| SearchTree.PopStep | libs/lp_solve_5.5/lp_mipbb.c:191-270 | Popping a node with no branch left changes neither the pending points nor their number |
| SearchState.BranchBounds | libs/lp_solve_5.5/lp_mipbb.c:429-633 | For a value inside the bounds of the node: a fractional one gives the floor, the floor plus one, and two branches; an integral one gives the floor branch alone, or none where it is the upper bound of a column that cannot be positive |
| SearchState.FirstBranchIs | libs/lp_solve_5.5/lp_mipbb.c:588-617 | Where one side of the split is beyond infinity the other one comes first and alone; with both sides the same the single branch is the one that changes a bound |
| SearchState.VerdictExact | libs/lp_solve_5.5/lp_mipbb.c:762-956 | Under an exact relaxation the status of a node is exact, its value bounds the box, and no node beats the root value |
| SearchState.AssessIs | libs/lp_solve_5.5/lp_mipbb.c:938-948 | An optimum better than the root value by more than the tolerance, relative to one plus its size, is infeasible; one better by less gets the root value |
| SearchState.AbandonedIff | libs/lp_solve_5.5/lp_mipbb.c:1090-1103 | In numbers: a node is abandoned when it does not get worse than the root value allows, when it is infinite with no incumbent, or when it is at least the incumbent plus tolerance less threshold |
| SearchState.FoundSound | libs/lp_solve_5.5/lp_mipbb.c:1042-1276 | Abandoning a node, accepting a solution or going deeper keeps the claim that every integer solution is dominated by the incumbent up to the slack, pending in an unexplored side, or in the current box |
| SearchState.SoundPush | libs/lp_solve_5.5/lp_mipbb.c:80-167 | Pushing a node keeps that claim |
| SearchState.SoundNext | libs/lp_solve_5.5/lp_mipbb.c:635-740 | Stepping to the next branch keeps that claim |
| SearchState.SoundPop | libs/lp_solve_5.5/lp_mipbb.c:191-270 | Popping a node without branches left keeps that claim |
| SearchState.SoundEnd | libs/lp_solve_5.5/lp_mipbb.c:1381-1438 | With no live node every integer solution is dominated: up to the tolerance after a break at the dual limit, otherwise up to the window of the test and the drift of the incumbents, and exactly when objective values are apart |
| SearchState.LeafAbandoned | libs/lp_solve_5.5/lp_mipbb.c:1090-1103 | A node the objective tests abandon has nothing in its box that is better than the incumbent by more than the slack, and there is an incumbent |
| SearchState.LeafAccepted | libs/lp_solve_5.5/lp_mipbb.c:1137-1236 | A solution that becomes the incumbent keeps every integer solution dominated up to the slack or in a box still to come; where it ends the search at the dual limit it is optimal up to the tolerance |
| SearchState.GapKept | libs/lp_solve_5.5/lp_mipbb.c:1137-1236 | A new incumbent is worse than the last one by less than the tolerance exceeds the improvement asked for, and not at all when objective values are apart |
| SearchState.GivenUpIs | libs/lp_solve_5.5/lp_mipbb.c:1381-1438 | What the search may give up, in numbers: the window of one comparison, and per incumbent what the tolerance exceeds the threshold by |
| BranchAndBound.Unwind | libs/lp_solve_5.5/lp_mipbb.c:217-230 | Restoring before each decrement takes all levels of a node off the ladder and gives the bounds the parent had before its current branch |
| BranchAndBound.Lprec.PopBB | libs/lp_solve_5.5/lp_mipbb.c:191-270 | The last node leaves the chain, and both shared bound vectors equal the bounds of its parent as they were before the branch in force at the parent was imposed |
| BranchAndBound.Lprec.NextBranch | libs/lp_solve_5.5/lp_mipbb.c:635-740 | The bounds of the last branch are undone, the direction flips, one branch fewer is left |
| BranchAndBound.Lprec.SolveLP | libs/lp_solve_5.5/lp_mipbb.c:762-956 | The status and value are the oracle's verdict on the box the bound vectors hold, and the bounds are not touched |
| BranchAndBound.Lprec.SolveBB | libs/lp_solve_5.5/lp_mipbb.c:1278-1318 | When the relaxation is solved, the bound vectors equal the root bounds overridden by exactly the branches of the nodes on the live chain |
| BranchAndBound.Lprec.FillBranches | libs/lp_solve_5.5/lp_mipbb.c:429-633 | The node holds the two sides of the split at the relaxation value, its count of branches and first direction fit them, and the ladders have an empty level for it |
| BranchAndBound.Lprec.InitBranches | libs/lp_solve_5.5/lp_mipbb.c:313-427 | As above for a node just created; a node of the root kind has one branch |
| BranchAndBound.Lprec.PushBB | libs/lp_solve_5.5/lp_mipbb.c:80-167 | The new node is linked below its parent with an unstarted frame for its variable, bounds unchanged |
| BranchAndBound.Lprec.FindIntBBVar | libs/lp_solve_5.5/lp_lib.c:7542-7667 | The count is the number of columns that are not fixed and have a fractional value; one of them is returned when there is any |
| BranchAndBound.FractionalCountIs | libs/lp_solve_5.5/lp_lib.c:7542-7667 | The count is that of the columns between different bounds whose value is no whole number |
| BranchAndBound.Lprec.FindNode | libs/lp_solve_5.5/lp_mipbb.c:1042-1276 | The incumbent is replaced, the node abandoned, the search broken off, or a fractional variable handed out, as the objective tests say; it is broken off if and only if one solution is asked for, one has been found, and the best possible value is less than the tolerance below the stored one |
| BranchAndBound.Lprec.Iterate | libs/lp_solve_5.5/lp_mipbb.c:1381-1438 | One turn of the driver keeps all invariants of the search and uses up one solve or ends it |
| BranchAndBound.Lprec.constructor | libs/lp_solve_5.5/lp_mipbb.c:1381-1396 | A problem before its search: no node, no incumbent, nothing solved, and all invariants of the search hold when the bounds have their dimensions |
| BranchAndBound.SolveModel | libs/lp_solve_5.5/lp_mipbb.c:1381-1438 | A new problem and its whole search, for every model, bounds, exact oracle and improvement threshold: the verdict is that of the integer program, the stored solution is optimal up to the bound below, and it says in the fields of the problem when the search was broken off |
| BranchAndBound.Lprec.RunBB | libs/lp_solve_5.5/lp_mipbb.c:1381-1438 | The search ends; the status is OPTIMAL if and only if the root box has an integer solution; it was broken off if and only if one solution is asked for, one was found, and its value is less than the tolerance above that of the root relaxation; the stored solution is within the tolerance of the optimum after a break, otherwise within the window of the test plus the drift of one step per relaxation, and optimal when objective values are apart; at most twice the number of points less one relaxations are solved; without a break the finished leaves tile the root box |
| RelaxationLoop.SolveLoop | libs/lp_solve_5.5/lp_mipbb.c:788-867 | The loop ends in the state the outcomes of the simplex runs lead to; with OPTIMAL the last run used the own bounds of the node, and a configuration that recovers from no failure ends with the first outcome |
| RelaxationLoop.RunKeepsInvariant | libs/lp_solve_5.5/lp_mipbb.c:788-867 | At every iteration there is one private copy of the bounds per relaxation in force, at most DEF_MAXRELAX + 1, and the next run works with the topmost one |
| RelaxationLoop.RetriedIff | libs/lp_solve_5.5/lp_mipbb.c:830-867 | After a failure the loop goes on if and only if relaxation is enabled at this level and for this kind of failure, each of the four by its own flag; otherwise it reports the failure |
| RelaxationLoop.FailuresInARow | libs/lp_solve_5.5/lp_mipbb.c:830-867 | Eight failures in a row are retried, each on a copy perturbed once more than the last; the ninth ends the loop and frees all copies |
| RelaxationLoop.CyclesInARow | libs/lp_solve_5.5/lp_mipbb.c:788-867 | After n failures with an optimum behind each one the loop is back at the own bounds with n restorations; a failure after the eighth ends it |
| RelaxationLoop.NoRelaxedOptimum | libs/lp_solve_5.5/lp_mipbb.c:788-867 | If the loop ends with OPTIMAL no relaxation is in force and the last run used the bounds of the node |
| RelaxationLoop.CopiesLeftIff | libs/lp_solve_5.5/lp_mipbb.c:788-867 | Private copies are left behind exactly when the loop ends on an outcome it cannot recover from while relaxations are in force |
| RelaxationLoop.FailuresEnd | libs/lp_solve_5.5/lp_mipbb.c:830-867 | Failures without an optimum in between end the loop within the relaxations that are left |
| RelaxationLoop.NeedNotEnd | libs/lp_solve_5.5/lp_mipbb.c:830-867 | Any failure the configuration recovers from and optima in turn keep the loop going for any number of iterations |
| RelaxationLoop.BoundedIff | libs/lp_solve_5.5/lp_mipbb.c:788-867 | The number of simplex runs has a bound that holds for all outcomes if and only if the configuration recovers from no failure; the bound is then one run |
| RelaxationLoop.CopiesCanBeLeftIff | libs/lp_solve_5.5/lp_mipbb.c:788-867 | Some sequence of outcomes leaves private copies of the bounds behind if and only if the configuration recovers from some failure |
| LinearAlgebra.DotCombine | libs/lp_solve_5.5/lp_pricePSE.c:388-404 | The product with a combination of rows is the combination of the products |
| LinearAlgebra.NormShifted | libs/lp_solve_5.5/lp_pricePSE.c:345-354 | The squared norm of x - h y from the norms of x and y and their product |
| SteepestEdge.PivotedInverse | libs/lp_solve_5.5/lp_pricePSE.c:295-316 | Replacing one column of a basis on a non-zero pivot element leaves a basis, whose inverse is the pivoted one |
| SteepestEdge.InverseUnique | libs/lp_solve_5.5/lp_pricePSE.c:178-197 | A basis has one inverse, so what bsolve returns is determined |
| SteepestEdge.DualNorm | libs/lp_solve_5.5/lp_pricePSE.c:319-354 | The dual update formula gives the squared norms of the rows of the new inverse |
| SteepestEdge.PivotedPositive | libs/lp_solve_5.5/lp_pricePSE.c:356-363 | No row of the new inverse has a norm of zero or less |
| SteepestEdge.PrimalNormKept | libs/lp_solve_5.5/lp_pricePSE.c:432-455 | The primal update formula gives one plus the squared norm of a column's new coordinates, which is never below the floor |
| SteepestEdge.PrimalNormLeaving | libs/lp_solve_5.5/lp_pricePSE.c:420-423 | The norm set for the leaving variable is that of its column in the new basis |
| SteepestEdge.CrossProduct | libs/lp_solve_5.5/lp_pricePSE.c:388-397 | The cross product obtained through one extra bsolve is that of the transformed columns |
| Pricing.DualStaysExact | libs/lp_solve_5.5/lp_pricePSE.c:295-367 | Exact dual norms are exact for the new basis after the update |
| Pricing.DualPivotExact | libs/lp_solve_5.5/lp_pricePSE.c:356-363 | With exact dual norms the refresh for an invalid norm is never asked for |
| Pricing.PrimalStaysExact | libs/lp_solve_5.5/lp_pricePSE.c:372-467 | Exact primal norms are exact for the new basis after the update |
| Pricing.PrimalEntryIs | libs/lp_solve_5.5/lp_pricePSE.c:454-455 | With an exact norm the floor hold*hold+1 changes nothing |
| Pricing.DualFormulaIs | libs/lp_solve_5.5/lp_pricePSE.c:340-354 | The dual formula: the old norm plus h squared times that of the pivot row, less twice h times the product of the rows, for the ratio h of the elements |
| Pricing.PrimalFormulaIs | libs/lp_solve_5.5/lp_pricePSE.c:432-455 | The primal formula and its floor h*h+1 |
| Pricing.DualUpdateIs | libs/lp_solve_5.5/lp_pricePSE.c:319-367 | Where every entry of an updated dual vector comes from, and exactly when a norm is invalid |
| Pricing.PrimalUpdateIs | libs/lp_solve_5.5/lp_pricePSE.c:412-467 | Where every entry of an updated primal vector comes from |
| Pricing.UpdateExact | libs/lp_solve_5.5/lp_pricePSE.c:264-486 | For both kinds of simplex: no refresh, and the result is exact for the new basis whatever way its inverse is computed |
| Pricing.KeepsExactIff | libs/lp_solve_5.5/lp_pricePSE.c:316-322 | On a basis whose pivot element is not zero the exchange keeps every exact price vector exact, dual or primal, if and only if the pivot is not below the tolerance |
| Pricing.RefreshLeavesWrongNorms | libs/lp_solve_5.5/lp_pricePSE.c:316-322 | A basis of one row and a column whose pivot is below the tolerance: built, initialised and exchanged by the methods themselves, the norms afterwards are wrong for the new basis |
| Pricing.Pricer.constructor | libs/lp_solve_5.5/lp_pricePSE.c:64-77 | A price vector that is marked as not initialised, for the basis given |
| Pricing.Pricer.RestartPricer | libs/lp_solve_5.5/lp_pricePSE.c:137-224 | The kind is the one asked for, or the stored one; with the true-norm mode basic (dual) or non-basic (primal) variables get the norms of the basis inverse, without it the number one; all other entries stay |
| Pricing.Pricer.UpdateDual | libs/lp_solve_5.5/lp_pricePSE.c:295-367 | A refresh is asked for exactly when the pivot is below the tolerance or some formula is not positive; otherwise every basic variable with a non-zero element has the formula, the entering one its norm, and nothing else changes |
| Pricing.Pricer.UpdatePrimal | libs/lp_solve_5.5/lp_pricePSE.c:372-467 | A refresh is asked for exactly when the pivot is below the tolerance; otherwise every non-basic variable with a non-zero element has the larger of formula and floor, the leaving one its norm, and nothing else changes |
| Pricing.Pricer.UpdatePricer | libs/lp_solve_5.5/lp_pricePSE.c:264-486 | Dispatch on the kind of simplex; after a refresh the norms are exact for the basis before the exchange |
| Pricing.Pricer.Pivot | libs/lp_solve_5.5/lp_lib.c:8198-8219 | Update, then exchange of the variables: a refresh is asked for exactly when the pivot is below the tolerance; otherwise exact norms are exact for the new basis, whose inverse is the pivoted one; after a refresh the entry the exchange adds is the old one and the norms are those of the basis left |
| SosList.ActivationKeepsWindow | libs/lp_solve_5.5/lp_SOS.c:966-1136 | Activating an admissible member keeps the active list a window of marked members at consecutive positions in one direction, not longer than the order |
| SosList.MarkedIs | libs/lp_solve_5.5/lp_SOS.c:1110-1136 | Marking flips one sign and, when asked to, fills the first free slot |
| SosList.NothingToMark | libs/lp_solve_5.5/lp_SOS.c:1110-1136 | A column that is no unmarked member is left alone |
| SosList.NextToLastIff | libs/lp_solve_5.5/lp_SOS.c:1050-1071 | Next to the last active member means the position before or behind it, unmarked |
| SosList.UnmarkRestoresIff | libs/lp_solve_5.5/lp_SOS.c:1078-1204 | Unmarking right after marking restores the array if and only if the column was not marked before |
| SosList.RunKeepsWindow | libs/lp_solve_5.5/lp_SOS.c:966-1204 | At every point of a run of guarded marks and of unmarks of the youngest mark, however they alternate, the array is the one the standing marks alone give, and the active list is a window |
| SosList.LeftwardRun | libs/lp_solve_5.5/lp_SOS.c:966-1136 | From an empty active list, members side by side may be activated one after the other from the highest position down, each step permitted, and the window then runs to the left |
| Sos.LeftwardRunFails | libs/lp_solve_5.5/lp_SOS.c:1208-1527 | After such a run of at least two the check calls the set inconsistent when exactly the active members are non-zero, and the member that may be activated next is one that gets fixed |
| Sos.SOSrec.constructor | libs/lp_solve_5.5/lp_SOS.c:170-232 | A new set holds its variables unmarked, its order, and an empty active list |
| Sos.SOSrec.CanActivate | libs/lp_solve_5.5/lp_SOS.c:966-1075 | Exactly when a column may be activated: it is not a member, or there is a free slot, it is no unmarked member with a raised bound, the members with a raised bound and the active ones without do not number the order, and it stands next to the last active one |
| Sos.MayActivateIff | libs/lp_solve_5.5/lp_SOS.c:966-1075 | Those conditions in terms of members, lower bounds and active slots alone |
| Sos.LiftedIs | libs/lp_solve_5.5/lp_SOS.c:1010-1017 | The first loop counts the positions whose lower bound is positive |
| Sos.IdleIs | libs/lp_solve_5.5/lp_SOS.c:1022-1029 | The second counts the active slots whose lower bound is zero |
| Sos.SOSrec.SetMarked | libs/lp_solve_5.5/lp_SOS.c:1110-1136 | The sign flips and an active member takes the first free slot; the result says whether it did not |
| Sos.SOSrec.Unmark | libs/lp_solve_5.5/lp_SOS.c:1173-1204 | The sign flips back and the active list closes up |
| Sos.SOSrec.FixUnmarked | libs/lp_solve_5.5/lp_SOS.c:1208-1284 | Exactly the unmarked members outside of the free window get the bound, the result is the number of columns whose bound is not what it was, a negative result names the first column whose original bound would be violated, and with a change log its last level gives the old bounds back |
| Sos.ViolatesIff | libs/lp_solve_5.5/lp_SOS.c:1264-1276 | No member stops the loop if and only if every bound that changes keeps to the original one |
| Sos.OutsideIff | libs/lp_solve_5.5/lp_SOS.c:1228-1258 | The members that are fixed, in positions: those in front of the first active member and those further behind the variable than slots are left |
| Sos.RightwardWindowIsOrder | libs/lp_solve_5.5/lp_SOS.c:1228-1258 | For a rightward window and the variable activated last, the free window is as many positions as the order, from the first active member |
| Sos.NextStaysFreeIff | libs/lp_solve_5.5/lp_SOS.c:1238-1258 | The member that may be activated next stays free exactly when the window runs to the right |
| Sos.SOSrec.IsSatisfied | libs/lp_solve_5.5/lp_SOS.c:1415-1527 | Without active members the status is at most zero exactly when the non-zeros form one block not longer than the order; with active members exactly when they are a suffix of the positions from the first active one, read past the last member where the scan runs over it; and which positive status it is |
| Sos.OneBlockIff | libs/lp_solve_5.5/lp_SOS.c:1495-1519 | One block means that all members between two non-zero ones are non-zero and that they are no further apart than the order |
| Sos.SuffixIff | libs/lp_solve_5.5/lp_SOS.c:1467-1519 | A suffix means that the non-zero members stand in the active positions with no zero behind one of them |
| Sos.FullWindowAcceptedIff | libs/lp_solve_5.5/lp_SOS.c:1470-1505 | A window of at least two members whose members are all non-zero passes the check if and only if it runs to the right |
| Sos.SOSrec.IsFeasible | libs/lp_solve_5.5/lp_SOS.c:1529-1571 | True exactly when no zero stands between two non-zeros of the active list |
| Sos.GapIff | libs/lp_solve_5.5/lp_SOS.c:1529-1571 | A gap, in the values of the active members |
| SosGroup.SetsOfAscending | libs/lp_solve_5.5/lp_SOS.c:381-439 | The sets listed for a column are in ascending order |
| SosGroup.TotalIsAll | libs/lp_solve_5.5/lp_SOS.c:405-415 | The slices of all columns together are all entries |
| SosGroup.SliceAnswers | libs/lp_solve_5.5/lp_SOS.c:381-439 | A set is in the slice of a column exactly when it lists the column |
| SosGroup.UsedIs | libs/lp_solve_5.5/lp_SOS.c:405-415 | The columns with a slice that is not empty are the members of the sets |
| SosGroup.SOSgroup.UpdateMap | libs/lp_solve_5.5/lp_SOS.c:381-439 | The slice of every column between consecutive positions is the list of its sets with multiplicity, the slices fill the array, and the result is the number of columns that are in at least one set |
| Gub.Condense | libs/lp_solve_5.5/lp_SOS.c:1333-1340 | The in-place condensing loop leaves the columns with a positive count, in ascending order, with their number in front |
| Gub.GetCandidates | libs/lp_solve_5.5/lp_SOS.c:1287-1352 | The list is exactly the ascending list of members of the sets visited that can be non-zero, without the excluded column; null exactly for an empty list or a member of a visited set that can be non-zero and has a positive lower bound |
| Gub.CandidateIff | libs/lp_solve_5.5/lp_SOS.c:1303-1332 | A candidate has a positive upper bound and is an unmarked member of a set looked at that has the branching column as a member |
| Gub.RaisedLowerIff | libs/lp_solve_5.5/lp_SOS.c:1314-1332 | The collection is given up if and only if a candidate has a positive lower bound |
| Gub.HalvesPartition | libs/lp_solve_5.5/lp_SOS.c:1382-1390 | The halves make up the list, differ in length by its parity, and have every candidate in exactly one of them |
| Gub.FixList | libs/lp_solve_5.5/lp_SOS.c:1358-1408 | Exactly the members in the chosen half get the bound zero and are counted; a negative result names a member there whose original lower bound is positive, and only then is it negative; with a change log its last level gives the old bounds back |
| Gub.HalfFixedIff | libs/lp_solve_5.5/lp_SOS.c:1393-1408 | The bounds afterwards: zero for the columns of the half that are members, marked or not, and the old ones for all others |
| Gub.MembersInIs | libs/lp_solve_5.5/lp_SOS.c:1393-1408 | The result is the number of columns in the half that are members of the set |
| GubBranching.MarkForBranch | libs/lp_solve_5.5/lp_mipbb.c:703-715 | The marker of a branch keeps the set well-formed, and removing it restores the set |
| GubBranching.GubNode.NextBranch | libs/lp_solve_5.5/lp_mipbb.c:698-728 | One branch: the change log and the marker of the last one undone, the new marker set, and exactly the bounds of its kind imposed; it fails exactly when a bound it would set to zero belongs to a column with a positive original lower bound |
| GubBranching.RunBranches | libs/lp_solve_5.5/lp_mipbb.c:698-728 | Whatever direction comes first, one ceiling branch and two floor branches run, one for each half, up to the first that cannot be imposed |
| GubBranching.CandidatesImposable | libs/lp_solve_5.5/lp_SOS.c:1314-1352 | A candidate list rules out everything that could stop a branch: all three can be imposed |
| GubBranching.NoPointLost | libs/lp_solve_5.5/lp_mipbb.c:698-728 | Wherever the variable is cut, a point with at most one non-zero member and an integer variable is in one of the floor branches up to the cut and in the ceiling branch above it |
| GubBranching.BranchOnSet | libs/lp_solve_5.5/lp_mipbb.c:345-351 | Lookup of the candidates and branch loop for a variable of one set: a list is found exactly when another member can be non-zero and no such member has a positive lower bound, and then all three branches run in their order and lose no point of the node |
| Exchange.BottomShort | src/cmdline.c:1327-1341 | Swapping the shorter lower block into the far end leaves a smaller exchange of the same kind |
| Exchange.TopShort | src/cmdline.c:1342-1355 | Swapping the shorter upper block to the near end leaves a smaller exchange of the same kind |
| Exchange.ExchangeBlocks | src/cmdline.c:1314-1360 | The segments X Y become Y X, order kept inside each, nothing outside touched |
| Getopt.FindLong | src/cmdline.c:1459-1494 | An exact name wins; otherwise the first option with the prefix, or ambiguous when a later one with the prefix differs from it |
| Getopt.FindsOne | src/cmdline.c:1459-1494 | That search has exactly one right answer |
| Getopt.FindsIff | src/cmdline.c:1459-1494 | The option found, in words: the first of that name, or else the first with the prefix when all others with it agree in argument, flag and value |
| Getopt.ParseMerges | src/cmdline.c:1378-1447 | Options and operands both keep their order, and together they are all arguments |
| Getopt.ClusterListed | src/cmdline.c:1593-1634 | One listed character, by the colons behind it: none takes no argument, one the rest of the element or else the next one, two the rest only; an argument that is missing is an error |
| Getopt.ClusterUnlisted | src/cmdline.c:1583-1591 | A character that is not listed, or a colon, is reported and the cluster goes on |
| Getopt.ParseShort | src/cmdline.c:1577-1634 | What one element of a single option character does to the events, the options and the operands |
| Getopt.ParseLong | src/cmdline.c:1459-1575 | The same for a long option by its exact name |
| Getopt.ParseLongValue | src/cmdline.c:1500-1540 | And for one with a value, which an option without argument does not take |
| Getopt.ParseOperands | src/cmdline.c:1413-1424 | Operands are what does not look like an option, then everything behind the first -- that is not an option argument |
| Getopt.ScanExchange | src/cmdline.c:1389-1396 | Moving the options behind skipped operands in front of them keeps the scan on course |
| Getopt.ScanDashes | src/cmdline.c:1408-1424 | The -- counts as an option and ends the scan with argv in its final order |
| Getopt.GetoptData.Exchange | src/cmdline.c:1314-1360 | The argv elements are rotated and the recorded indices are those of the moved operands |
| Getopt.GetoptData.ShuffleArgv | src/cmdline.c:1378-1447 | Either the next option element is reached with its text, or the scan is over |
| Getopt.GetoptData.CheckLongOpt | src/cmdline.c:1459-1575 | The event of a long option, one or two elements consumed |
| Getopt.GetoptData.CheckShortOpt | src/cmdline.c:1577-1634 | The event of one character of a cluster, the element left behind when it is used up, the next one taken when it is its argument |
| Getopt.GetoptData.GetoptInternal | src/cmdline.c:1706-1736 | One call hands out the next event of the one left-to-right reading, or ends with argv permuted |
| Getopt.ScanAll | src/cmdline.c:1706-1736 | For every argv and option table: the events are those of one reading of the untouched command line, argv ends as a permutation with options first and operands after them, each in order, and optind is the index of the first operand |
| Getopt.FinishedPermutes | src/cmdline.c:1378-1447 | The final argv is a permutation, and a merge of its two parts gives the original |
| MultipleArgs.FindSeparator | src/cmdline.c:966-990 | The position of the first comma not behind a backslash, and the number of commas passed over |
| MultipleArgs.GetToken | src/cmdline.c:965-1015 | The unescaped text, as long as the count of escapes says |
| MultipleArgs.TokenIsPrefix | src/cmdline.c:965-1015 | That is the unescaped text up to the separator, unless the argument starts with a comma behind a backslash |
| MultipleArgs.GetTokenNext | src/cmdline.c:1017-1043 | The start of the next token; a separator at the end starts none |
| MultipleArgs.UnescapeEscape | src/cmdline.c:1003-1013 | Unescaping undoes escaping, for every string |
| MultipleArgs.SplitJoinIff | src/cmdline.c:966-1043 | Exactly which token lists come back: no token but the last ends in a backslash, the last one of several is not empty, and the first is not empty behind a backslash byte |
| MultipleArgs.SplitCount | src/cmdline.c:966-1043 | Splitting never yields more tokens than were joined |
| MultipleArgs.CollectTokens | src/cmdline.c:1901-1940 | The list has the tokens of the argument, reversed, in front of what it had |
| MultipleArgs.FillField | src/cmdline.c:1990-2009 | The drained list fills the array from its end: earlier values first, then the tokens in order |
| MultipleArgs.CollectOption | src/cmdline.c:1901-2040 | All tokens of all occurrences end up behind the earlier values in command-line order |
| MultipleArgs.SplitsOfJoins | src/cmdline.c:1901-2040 | For joined lists of plain tokens those are the tokens themselves |
| BasisFile.EveryBasicPaired | libs/lp_solve_5.5/lp_MPS.c:1817-1848 | With as many basic variables as rows, basic structural variables never outnumber the lines written |
| BasisFile.ListedIff | libs/lp_solve_5.5/lp_MPS.c:1751-1782 | Which variables have a line: those not basic, but for structural ones at their lower bound; and which are paired with them: the basic structural ones |
| BasisFile.ReadLineIs | libs/lp_solve_5.5/lp_MPS.c:1692-1782 | What one line does to the flags, and which lines end the reading |
| BasisFile.ReadWritten | libs/lp_solve_5.5/lp_MPS.c:1751-1782 | Reading what was written changes exactly the listed variables |
| BasisFile.RoundTripIff | libs/lp_solve_5.5/lp_MPS.c:1751-1848 | Writing and reading restores all flags if and only if no basic variable is flagged upper and basic structural variables do not outnumber the lines |
| BasisFile.Basis.WriteBas | libs/lp_solve_5.5/lp_MPS.c:1817-1848 | The two cursors write the ascending lists of basic structural and of listed non-basic variables side by side |
| BasisFile.Basis.ReadBas | libs/lp_solve_5.5/lp_MPS.c:1692-1782 | The flags are the default basis changed by the lines up to the first unknown name, and var_basic is the ascending list of basic variables |
| BasisFile.SaveAndLoad | libs/lp_solve_5.5/lp_MPS.c:1751-1848 | Both programs together, with the exact condition of the round trip |
| HashTables.HashBitsRange | libs/lp_solve_5.5/lp_Hash.c:75-88 | Every intermediate hash has 28 bits, so the result is a non-negative int |
| HashTables.ComputeHash | libs/lp_solve_5.5/lp_Hash.c:75-88 | The loop computes the hash of the string, below the table size |
| HashTables.StepPlain | libs/lp_solve_5.5/lp_Hash.c:75-88 | While the sum stays below 2^28 a step is sixteen times the hash plus the character |
| HashTables.StepFolded | libs/lp_solve_5.5/lp_Hash.c:75-88 | Otherwise the top four bits are dropped and folded into bits 4 to 7 |
| HashTables.ShortNames | libs/lp_solve_5.5/lp_Hash.c:75-88 | Up to six characters the hash is the number they spell in base 16 |
| HashTables.XorBit | libs/lp_solve_5.5/lp_Hash.c:75-88 | Folding is the exclusive or, bit by bit |
| HashTables.GoodSizeIsLarger | libs/lp_solve_5.5/lp_Hash.c:27-34 | Up to the last prime of the list a table is larger than asked for |
| HashTables.BucketPlace | libs/lp_solve_5.5/lp_Hash.c:137-150 | Where an element stands in its bucket, and the bucket without it |
| HashTables.HashTable.FindHash | libs/lp_solve_5.5/lp_Hash.c:91-100 | The element with the name, or null when there is none |
| HashTables.HashTable.PutHash | libs/lp_solve_5.5/lp_Hash.c:103-134 | A known name keeps its element; a new one is added to its bucket and at the end of the order list, counted, and entered in the index list, whose slot is emptied otherwise |
| HashTables.HashTable.DropHash | libs/lp_solve_5.5/lp_Hash.c:137-176 | The element leaves bucket, order list, count and index list; the table stays valid if and only if it was not the last of a longer list |
| HashTables.CopyHashTable | libs/lp_solve_5.5/lp_Hash.c:179-200 | A table of a good size with the same names and indices in the same order; the original is unchanged, and the index list is the old one with the copies entered one after the other |
| HashTables.RefilledAt | libs/lp_solve_5.5/lp_Hash.c:103-134 | After that the list has at a used index the last copy with that index, and at all others what it had |
| ParamNames.WriteNames | libs/lp_solve_5.5/lp_params.c:355-383 | Exactly the names of the maximal listed values contained in the number, in table order |
| ParamNames.ReadNames | libs/lp_solve_5.5/lp_params.c:628-657 | The sum of the named values, or an error for an unknown name; a name of one character ends the list |
| ParamNames.SumShown | libs/lp_solve_5.5/lp_params.c:355-383 | When the shown values share no bits, reading gives the number with their bits |
| ParamNames.ShownIff | libs/lp_solve_5.5/lp_params.c:355-383 | Of a number made of one code and mode bits, exactly the code and the mode bits are shown |
| ParamNames.HiddenIff | libs/lp_solve_5.5/lp_params.c:355-383 | A value is left out for another one if and only if that one properly contains it and is contained in the number |
| ParamNames.ZeroShownIff | libs/lp_solve_5.5/lp_params.c:355-383 | When the entry with value zero is written: when the number has no bit of the mask, or, without a mask, when it is zero |
| ParamNames.CodeName | libs/lp_solve_5.5/lp_params.c:355-383 | A listed code is written as its own name and nothing else |
| ParamNames.CodeAndModesRoundTrip | libs/lp_solve_5.5/lp_params.c:355-383 | Such a number survives writing and reading |
| ParamNames.BBRuleRoundTrip | libs/lp_solve_5.5/lp_params.c:92-115 | Every branching rule: eight strategies with any of thirteen mode bits |
| ParamNames.PivotingRoundTrip | libs/lp_solve_5.5/lp_params.c:146-162 | Every pricer with any of the ten listed mode bits |
| ParamNames.PowersRoundTrip | libs/lp_solve_5.5/lp_params.c:164-188 | Every set of listed bits of the presolve, anti-degeneracy, improve and floor tables |
| ParamNames.CodesRoundTrip | libs/lp_solve_5.5/lp_params.c:77-83 | Every listed value of a table of codes only |
| ParamNames.CrashRoundTrip | libs/lp_solve_5.5/lp_params.c:77-83 | Every crash mode is written as its one name, whose value is its number, and survives |
| ParamNames.SimplexRoundTrip | libs/lp_solve_5.5/lp_params.c:246-252 | So is every simplex type |
| ParamNames.VerbosityRoundTrip | libs/lp_solve_5.5/lp_params.c:254-263 | So is every verbosity level |
| ParamNames.ScalingRoundTrip | libs/lp_solve_5.5/lp_params.c:227-244 | Every listed scaling code with any mode bits that do not make up SCALE_USERWEIGHT |
| ParamNames.ScalingUserWeight | libs/lp_solve_5.5/lp_params.c:227-244 | Every scaling value that contains SCALE_USERWEIGHT |
| Fortify.OneWordDetected | libs/lp_solve_5.5/fortify.c:1356-1383 | Changing a word of a valid header leaves it valid only if the word keeps its value |
| Fortify.ExchangeUndetected | libs/lp_solve_5.5/fortify.c:1375-1383 | Two words that change places are not noticed |
| Fortify.Block.HeaderValidIff | libs/lp_solve_5.5/fortify.c:1356-1383 | A header is valid if and only if file, line, size, both links, checksum and scope add up to zero modulo 2^32 |
| Fortify.Block.IntactIff | libs/lp_solve_5.5/fortify.c:1152-1209 | The guards are 16 bytes 0xA3 in front of the user's memory and 16 bytes 0xA5 behind it |
| Fortify.Block.MakeHeaderValid | libs/lp_solve_5.5/fortify.c:1364-1368 | Afterwards the words of the header sum to zero modulo 2^32 |
| Fortify.Block.CheckBlock | libs/lp_solve_5.5/fortify.c:1152-1209 | True exactly when the header is valid and both guards are untouched |
| Fortify.Allocator.IsOnList | libs/lp_solve_5.5/fortify.c:1388-1401 | True exactly for live blocks |
| Fortify.Allocator.Malloc | libs/lp_solve_5.5/fortify.c:451-593 | The new block is in front of the live ones, guarded, filled and with a valid header, in the current scope; nothing for size zero or without memory |
| Fortify.Allocator.Free | libs/lp_solve_5.5/fortify.c:609-699 | The block leaves the list exactly when it is on it and it and its neighbours pass; the list is broken afterwards if and only if the block and the one before it pass and the one behind it fails, and then no block has left |
| Fortify.FreedIff | libs/lp_solve_5.5/fortify.c:609-699 | In terms of the guards of a block and its neighbours: when it leaves the list, and when the list breaks |
| Fortify.Allocator.Realloc | libs/lp_solve_5.5/fortify.c:711-782 | An intact block is copied into a new one in front, with as much of its contents as fits and the fill value behind; the old one leaves exactly when both neighbours pass, and otherwise both stay; the list is broken exactly when only the neighbour behind fails; size zero frees, an unknown pointer or a failed allocation changes nothing |
| Fortify.CopiedBytes | libs/lp_solve_5.5/fortify.c:711-782 | Every byte of the new block |
| Fortify.Allocator.CheckAllMemory | libs/lp_solve_5.5/fortify.c:876-909 | The result is the number of live blocks with a damaged guard |
| Fortify.Allocator.LeaveScope | libs/lp_solve_5.5/fortify.c:924-976 | With all depths below 256 exactly the live blocks of the scope left or deeper are reported; in general those whose depth modulo 256 is above that of the scope returned to |
| Fortify.AboveInOrder | libs/lp_solve_5.5/fortify.c:924-976 | Reported blocks come in the order of the list, each once |
| Fortify.ReportIsExactIff | libs/lp_solve_5.5/fortify.c:914-950 | The report is right for all blocks allocated up to scope D if and only if D is below 256 |
| Fortify.WrappedScopeReportsNothing | libs/lp_solve_5.5/fortify.c:914-950 | Leaving scope 256, or any multiple, reports nothing, because the stored scope wraps |

## Left out

- Branch and bound: semi-continuous and SOS variables inside the driver, depth limits, pseudo-costs, reduced-cost fixing, node selection rules beyond an arbitrary choice, maximisation, improved bounds from integer objectives, timeouts and user callbacks.
- SearchTree.SidesPartition: states the split at any cut; that the bounds of `fillbranches_BB` are floor and ceiling of the value is `SearchState.BranchBounds`.
- SearchState.BranchBounds: the reflection of a lower bound that falls outside of the node's bounds uses whole numbers; scaled bounds are not modelled, and `intmargin` is at most one half.
- BranchAndBound.Lprec.SolveLP: the relaxation loop, the saved bases and the basis restore are not part of it; `RelaxationLoop` has the loop on its own.
- BranchAndBound.Lprec.RunBB: `bb_varactive`, the basis stack, pops in the middle of the chain and the restart after pseudo-cost initialisation are not modelled.
- Pricing.Pricer.UpdatePricer: the DEVEX branches and the `epsmachine` cut-off for tiny multipliers are not modelled; memory failures neither.
- Sos.SOSrec.CanActivate: one set at a time; the loop over all sets of a column (`sosindex` 0), the temporary integer flag of SOS3 variables and the variable-type bits are not modelled. The same holds for the other operations on sets.
- Sos.SOSrec.FixUnmarked: the optional difference count is not modelled.
- Sos.SOSrec.IsSatisfied: where the scan runs past the last member it reads the order as a column number; the solution must have that column.
- SosGroup.SOSgroup.UpdateMap: the members are unmarked, as they are when the index is built.
- Gub.GetCandidates: called for all sets, with or without stopping early; a single set by index is `Gub.TallyCandidates`.
- GubBranching.RunBranches: the variable belongs to one set; what the driver does after a branch that could not be imposed, which needs a missing candidate list, is not modelled.
- Getopt.GetoptData.ShuffleArgv: the test for a skipped non-option behind the skipping loop can never hold and has no counterpart; texts and error messages are not modelled.
- Getopt.GetoptData.CheckLongOpt: the value stored through an option's flag pointer is not modelled.
- MultipleArgs.CollectTokens: converting a token to its type and a failed conversion are not modelled; the list is a sequence whose head is the newest node.
- MultipleArgs.FillField: one array of strings stands for the arrays of values and of original texts.
- BasisFile.Basis.ReadBas: lines are records and names resolve through one table; comments, headers, formatting and the name-mask fallback are not modelled. The list of basic variables grows as needed, while the source's array has room for one per row.
- HashTables.HashTable.DropHash: what follows once `last` is stale is not modelled, nor is the release of memory.
- HashTables.HashTable.PutHash: allocation does not fail.
- ParamNames.WriteNames: numbers are sets of one bits; names are listed instead of joined with plus signs, and file syntax is not modelled.
- ParamNames.ReadNames: names are looked up in the table of the option; that names are unique over all tables, and that "0" and "1" are not entered, is taken for granted. PRINT_SOL, whose names are those, does not survive.
- ParamNames.ScalingRoundTrip: the reserved codes 5 and 6 are not listed values.
- Fortify.Block.CheckBlock: a header is seven words, one for each field and pointer; padding and pointer width are not modelled.
- Fortify.Allocator.Malloc: the disabled mode, the random failure rate and the size overflow test are folded into one flag for memory being available.
- Fortify.Allocator.Free: filling the released memory is not modelled.
- `SOS_member_delete`, `SOS_shift_col`, the crash and ordering routines, MPS text scanning, INI files, help texts, the generated chain of options and all output.
