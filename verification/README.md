# lp_solve verification models

OTAWA uses the lp_solve 5.5 solver for the integer program behind a worst-case execution time bound. These
Dafny files model the solver's search, bookkeeping and data structures in exact arithmetic and prove what
they are for. Columns, rows and positions are numbered from 1 as in the C code; index 0 is reserved.

| files | part of the solver |
|---|---|
| UndoLadder, BoundTests, Branching, SearchTree, SearchSteps, BranchAndBound | non-recursive branch and bound: the explicit stack of nodes over one pair of bound vectors, undo ladders, floor and ceiling branches, pruning against the incumbent, reduced-cost tightening. The relaxation solver is a function with a contract: an exact optimum with reduced costs that bound every feasible objective, or infeasible |
| SteepestEdge, PricePSE | dual and primal steepest-edge weights under pivots |
| SosSets, SosGroup, SosIndex, SosShift | special ordered sets: marking, activation, fixing, satisfaction tests, the column index, renumbering |
| Basis, BasisFile, LpBasis, Crash | the simplex basis under insertions and deletions, signed vectors, basis files, guessed bases |
| FreeVars | splitting and flipping of columns with negative range, and the way back |
| HashNames, HashTable | the name table with its two chains over the same elements |
| VarMaps, VarPass, PresolveMaps | the index maps kept by presolve, over any number of rounds |

Numbers and Reals hold helpers. Files with a class follow the C code step by step; the others hold the functions that specify it and the
lemmas about them.

## Where the code departs from its intent

- Undo ladders replay a frame forward and do not empty it. An item written twice in one frame is undone
  wrongly; the search never does that, which `TopTracks` and `OwnFrame` keep.
- `bb_better` gives the same answer for its strict and inclusive modes, although its comment tells them apart
  (otawa/lp_solve5/lp_lib.c:8254-8331). An accepted incumbent can be worse than the one it replaces exactly if
  the tolerance exceeds the improvement step (`IncumbentNeverWorsens`); the default settings are such
  (`DefaultsDrift`). `RunBB` therefore allows for that excess, once for every replacement.
- `fillbranches_BB` reflects a floor below the lower bound with the wrong sign
  (otawa/lp_solve5/lp_mipbb.c:513), and can leave a node without branches, which is then solved again without
  end. Both need bounds of integer columns that are not integral, so `RunBB` starts from integral ones.
- Reduced-cost rounding is sound exactly for integral lower bounds (`RoundingNeedsIntegralLower`).
- The outcome "equal to the incumbent" of `findnode_BB` cannot occur behind the improvement tests, and its two
  accuracy tests cannot fail in exact arithmetic.
- `verifyPricer` rejects every set of dual weights.
- `SOS_is_satisfied` reads upward from the member activated first, whichever way the run was activated. What it
  accepts is satisfied, but it accepts every satisfied point only in sets with one member, and every satisfied
  point that is zero outside the run only if the run has one column (`VerdictExact`, `VerdictExactInside`). For a
  longer run activated downward with members above it, of the points that are zero outside the run only those
  that are zero in the whole set pass (`DescendingVerdict`).
- `SOS_shift_col` does not move the active list when members are deleted: in an unmarked set it still reads as
  empty exactly if no member was dropped (`EmptyUnlessShrunk`).
- `SOS_can_activate` asks whether the number of taken members is the order, not whether it is at least the order:
  with more members kept above zero than the order allows it lets another one in (`GuardOverfull`).
- `SOS_fix_unmarked` measures its free window upward: after a run that ends downward it fixes every unmarked
  member before the run, even the one where the run could go on (`FixDownward`).
- `SOS_member_updatemap` reads as many entries of a set as its `size` says, and `SOS_shift_col` lowers the member
  count without it. The map it builds is the member relation exactly if every size is the member count
  (`MapsExact`); a set of order 2 with members 5 and 7 is listed under column 2 once column 7 is deleted
  (`MisreadOrder`). When an entry read that way is not a column of the model, the tally is indexed outside its
  range; the model asks for entries in range.
- `shift_basis` reports failure whenever it has refilled a basis with slacks, although the basis is valid; its
  callers ignore the result.
- `verify_basis` accepts a basis with a repeated index when a stray flag makes up for it, which one insertion by
  `shift_basis` without an update of the indices is enough to produce (`VerifyAcceptsRepeat`).
- `guess_basis` codes a displaced entry as at its upper bound, and can uncover a row that the displaced entry alone
  had covered (`CoverKept`, `CoverLost`).
- With a negative range of 0, which `set_negrange` accepts, `preprocess` splits columns without end as soon as
  there is a column to split, because every helper is split again (`LoopEnds`).
- `drophash` leaves `last` at the dropped element.
- `presolve_finalize` always passes the original counts to `varmap_compact`. They are right in the first round.
  Later, while several variables are left, they are right for every choice of deletions exactly if no row has
  been deleted before (or no column is left) and the entries that earlier rounds have left over are harmless
  (`OriginalCounts`); `OneLeft` has the condition for the last variable. Otherwise a deleted column can stay
  mapped, and `varmap_validate` accepts it (`MisreadColumn`).
- `mat_shiftcols` loses the end marker of the column it inserts at, unless that is behind the last one; the undo
  ladders only insert there.

## Model

| member | source | states |
|---|---|---|
| `BranchAndBound.BBTree.RunBB` | otawa/lp_solve5/lp_mipbb.c:1341-1386 | When no depth limit has cut a branch, the incumbent is an integer point with its own objective value, and no integer point of the root box is below it by more than the largest of the two gaps and the objective step, or by (accepted incumbents - 1) times the excess of the tolerance over the improvement step if that is more. If the objective values of integer points differ by multiples of the step, and gaps and that excess are below it, the incumbent is optimal. Without an incumbent no integer point beats the heuristic limit (none exists at all if that limit is infinite). A branch is cut only if just the first level is wanted, or at a relaxation whose stack is higher than the level limit or branches on some integer column at least 50 times; so never with the default limits and integer ranges of width at most 50. The bounds are the original ones again, and at most 2^(w+1)-1 relaxations are solved for total integer width w. For integral bounds of the integer columns, feasible objective values within 1e30, and nonnegative gaps and tolerance with tolerance and absolute gap not both zero. |
| `BranchAndBound.BBTree.Step` | otawa/lp_solve5/lp_mipbb.c:1360-1369 | One round (relaxation, then branch or backtrack) keeps the search invariant that every integer point is settled, in the active branch or in a branch not started, and strictly lowers the bound on the relaxations still to be solved. |
| `BranchAndBound.BBTree.Backtrack` | otawa/lp_solve5/lp_mipbb.c:1366-1369 | Moving to the next branch or popping nodes until there is one loses no open branch and ends at the creation bounds of the node it stops at, or at the root bounds with an empty stack. |
| `BranchAndBound.BBTree.PushRoot` | otawa/lp_solve5/lp_mipbb.c:80-167 | The root node starts with the original bounds, a single branch and no open sibling. |
| `BranchAndBound.BBTree.PushBB` | otawa/lp_solve5/lp_mipbb.c:80-167 | The new node is well formed, its box is the active one, tightened by reduced costs exactly if the top node counted any, which loses nothing better than the incumbent; the ladders can lead back to the parent, and the current basis is saved. |
| `BranchAndBound.BBTree.NextBranch` | otawa/lp_solve5/lp_mipbb.c:635-740 | There is another branch exactly if `nodesleft` is positive; in either case the shared bounds are those the node was created with, whatever its earlier branch or its descendants did. |
| `BranchAndBound.BBTree.PopBB` | otawa/lp_solve5/lp_mipbb.c:191-270 | After a pop the shared bounds are the creation bounds of the node below (the original bounds at level 0), node stack, column counts and saved bases included. |
| `BranchAndBound.BBTree.SolveBB` | otawa/lp_solve5/lp_mipbb.c:1238-1278 | The relaxation solved is that of the active branch of the top node; a second branch starts from the basis saved when the node was pushed. |
| `BranchAndBound.BBTree.ImposeBranch` | otawa/lp_solve5/lp_mipbb.c:642-740 | The branch bound is imposed on creation bounds and recorded, so that the top frames lead back to them. |
| `BranchAndBound.BBTree.TightenBounds` | otawa/lp_solve5/lp_mipbb.c:99-139 | The listed columns get exactly the bounds that their reduced costs give them, clamped to their ranges, and no other column changes. Every change is undoable to the bounds before the tightening, basic columns keep their bounds, and every integer point cut off is worse than the incumbent, also when the relaxation itself is. |
| `BranchAndBound.BBTree.TightenColumn` | otawa/lp_solve5/lp_mipbb.c:99-139 | The same for one column: it is recorded once and keeps the cut sound. |
| `BranchAndBound.BBTree.FindNode` | otawa/lp_solve5/lp_mipbb.c:1018-1236 | The level limits, the accuracy test and the objective tests run in the order of the code, and the accuracy test passes. A relaxation that is not branched on leaves every integer point settled or in an open branch; one that is branched on has a fractional integer column, branched on fewer than 50 times, at a level within the limit. A part of the tree is given up only in the cases named above. |
| `BranchAndBound.BBTree.FindIntBBVar` | otawa/lp_solve5/lp_lib.c:7310-7542 | The candidates are exactly the fractional integer columns. The count of tightenings is positive exactly if, with an incumbent and the mode switched on, the reduced cost of some column gives it a new bound, and the relaxation is inconsistent exactly if such a bound empties a range, which takes a relaxation worse than the incumbent. |
| `BranchAndBound.BBTree.SelectBranch` | otawa/lp_solve5/lp_mipbb.c:1079-1150 | An incumbent is accepted exactly if all integer columns are integral. Otherwise a fractional column is branched on, unless it has been branched on at least 50 times on the stack or the relaxation is worse than the incumbent. |
| `BranchAndBound.BBTree.AcceptLeaf` | otawa/lp_solve5/lp_mipbb.c:1150-1236 | After an integral relaxation that passed the tests, the incumbent is an integer point with its own objective value, and every integer point is settled by it or in an open branch. |
| `BranchAndBound.BBTree.LevelNeverCut` | otawa/lp_solve5/lp_mipbb.c:1042-1050 | With the default limit and integer ranges of width at most 50 the level test never fires on a reachable stack. |
| `BranchAndBound.Unwind` | otawa/lp_solve5/lp_mipbb.c:201-235 | Replaying the top frame and unwinding a node's frames from one ladder leads from its active branch to the creation bounds of the node below. |
| `SearchTree.BranchesCover` | otawa/lp_solve5/lp_mipbb.c:429-633 | Every integer point of a node's box is in the floor or the ceiling branch. |
| `SearchTree.BranchesDisjoint` | otawa/lp_solve5/lp_mipbb.c:429-633 | No point is in both branches. |
| `SearchTree.BranchNarrower` | otawa/lp_solve5/lp_mipbb.c:429-633 | Both branches are strictly narrower in the branching column and in total. |
| `SearchTree.DepthBudget` | otawa/lp_solve5/lp_mipbb.c:1115-1124 | Along every reachable stack the number of nodes that branch on a column plus its remaining width never exceeds its width at the root. |
| `SearchTree.ColumnDepth` | otawa/lp_solve5/lp_mipbb.c:1115-1124 | The per-column depth guard cannot fire on a fractional column if every integer range is at most that wide. |
| `SearchTree.StackHeight` | otawa/lp_solve5/lp_mipbb.c:1042-1050 | A reachable stack is at most (width times number of integer columns) + 1 high. |
| `SearchTree.TotalBudget` | otawa/lp_solve5/lp_mipbb.c:1341-1386 | Branchings on the stack plus remaining total width never exceed the total width at the root. |
| `SearchTree.UndoableRestores` | otawa/lp_solve5/lp_mipbb.c:642-647 | A node's own frame, replayed on its active branch, gives back its creation bounds. |
| `SearchSteps.PushCovers` | otawa/lp_solve5/lp_mipbb.c:80-167 | Pushing a node with both branches open keeps every integer point settled or covered. |
| `SearchSteps.PruneCovers` | otawa/lp_solve5/lp_mipbb.c:1073-1081 | Dropping a branch whose relaxation is infeasible or settled leaves every integer point settled or in an open branch. |
| `SearchSteps.LeafCovers` | otawa/lp_solve5/lp_mipbb.c:1150-1236 | Replacing the incumbent by a leaf that was not abandoned keeps everything settled that was, and settles the leaf's whole branch. |
| `SearchSteps.RootCovers` | otawa/lp_solve5/lp_mipbb.c:1025-1050 | Without integer columns the root relaxation settles every point. |
| `SearchSteps.AdvanceCovers` | otawa/lp_solve5/lp_mipbb.c:642-740 | Taking up the second branch keeps every integer point covered. |
| `SearchSteps.AdvanceWork` | otawa/lp_solve5/lp_mipbb.c:642-740 | Taking up the second branch does not raise the work still to do. |
| `SearchSteps.SubtreeShrinks` | otawa/lp_solve5/lp_mipbb.c:1360-1369 | The two subtrees of a node together allow fewer relaxations than the box it was branched from. |
| `SearchSteps.NotAbandoned` | otawa/lp_solve5/lp_mipbb.c:1073-1081 | The tests that abandon a relaxation let through only improvements on the incumbent, which are worse than it by at most the drift, and abandon only settled values. |
| `SearchSteps.SettledStays` | otawa/lp_solve5/lp_mipbb.c:1073-1081 | What is settled after n incumbents is settled after n + 1, when a value that was not abandoned becomes the incumbent, for any tolerances. |
| `SearchSteps.NoDrift` | otawa/lp_solve5/lp_mipbb.c:1073-1081 | When the tolerance is at most the improvement step, settled values are exactly those that do not improve on the incumbent. |
| `SearchSteps.SettledNear` | otawa/lp_solve5/lp_mipbb.c:1073-1081 | A settled value is not below the incumbent by more than the largest of gaps and step, or the drift. |
| `SearchSteps.SettledOnGrid` | otawa/lp_solve5/lp_mipbb.c:1073-1081 | If it is a multiple of the step away, and gaps and drift are below the step, it is not below the incumbent at all. |
| `SearchSteps.RelaxedPasses` | otawa/lp_solve5/lp_mipbb.c:1065-1071 | The loss-of-accuracy test passes exactly for values above the root relaxation less gap and tolerance, so for all that are no better than it if the two are not both zero. |
| `SearchSteps.FractionalIsBasic` | otawa/lp_solve5/lp_lib.c:7310-7542 | In an integral box a fractional integer column is basic, so reduced-cost tightening never touches a branching column's bounds. |
| `SearchSteps.TightenStep` | otawa/lp_solve5/lp_mipbb.c:99-139 | A tightened bound lies within the column's range, belongs to a nonbasic column and cuts off only points worse than the incumbent. |
| `SearchSteps.TightenPoint` | otawa/lp_solve5/lp_mipbb.c:954-1015 | An integer point beyond the tightened bound has an objective above the incumbent. |
| `SearchSteps.RcfFeasible` | otawa/lp_solve5/lp_mipbb.c:954-1015 | A tightening at nonnegative gap never declares the column infeasible. |
| `Branching.IntegralNode` | otawa/lp_solve5/lp_mipbb.c:429-633 | Between integral bounds a fractional value yields two branches bounded by the two neighbouring integers, the requested one first. |
| `Branching.BranchesPartition` | otawa/lp_solve5/lp_mipbb.c:429-633 | Those branches are disjoint, nonempty, strictly smaller, exclude the value and split the integers of the node between them. |
| `Branching.FloorBranchInside` | otawa/lp_solve5/lp_mipbb.c:505-530 | The floor bound stays within the node for all relaxation values exactly if the lower bound is nonnegative, integral, or at least its fractional part below the upper bound. |
| `Branching.FloorBranchEscapes` | otawa/lp_solve5/lp_mipbb.c:505-530 | On bounds [-2.5, -2.4] the floor branch gets upper bound -2. |
| `Branching.NoBranchLeft` | otawa/lp_solve5/lp_mipbb.c:560-633 | A node is left without branches exactly if its column is nonnegative and no integer lies between its bounds. |
| `Branching.RcfSound` | otawa/lp_solve5/lp_mipbb.c:954-1015 | For both bound states and with rounding: a value beyond the bound has an objective worse than the gap allows. |
| `Branching.RcfExact` | otawa/lp_solve5/lp_mipbb.c:954-1015 | A column gets a new bound exactly if it is nonbasic, its range exceeds the tolerance and its reduced cost uses up the gap within the range; the distance of the bound uses up the gap exactly, or is the whole number it rounds to, down for a column at its lower bound and up for one at its upper bound. |
| `Branching.ClampSound` | otawa/lp_solve5/lp_mipbb.c:99-139 | The same after the bound has been clamped to the column's range. |
| `Branching.RoundingNeedsIntegralLower` | otawa/lp_solve5/lp_mipbb.c:985-1003 | Rounding the distance to an integer keeps all integer points exactly if the lower bound is integral. |
| `Branching.RoundDown` | otawa/lp_solve5/lp_mipbb.c:985-1003 | With an integral lower bound it does. |
| `BoundTests.ImprovesThreshold` | otawa/lp_solve5/lp_lib.c:8254-8331 | The improvement test against the incumbent is the conjunction of an absolute and a relative threshold on the difference. |
| `BoundTests.ImprovesIs` | otawa/lp_solve5/lp_lib.c:8254-8331 | The same in the settings themselves: each step is the larger of the gap and the objective step less the gap. |
| `BoundTests.NotImproving` | otawa/lp_solve5/lp_lib.c:8254-8331 | What is no improvement is not below the incumbent by more than the largest of gaps and step. |
| `BoundTests.StepImproves` | otawa/lp_solve5/lp_lib.c:8254-8331 | With gaps below the step, a value that is lower by the step is an improvement. |
| `BoundTests.UnitStep` | otawa/lp_solve5/lp_lib.c:8308-8311 | With default tolerances and a step of 1, the value 9 improves on 10. |
| `BoundTests.IncumbentNeverWorsens` | otawa/lp_solve5/lp_lib.c:8254-8331 | An accepted solution is never worse than the incumbent it replaces exactly if the tolerance is at most the improvement step. |
| `BoundTests.DefaultsDrift` | otawa/lp_solve5/lp_lib.c:811-818 | With the default tolerances every incumbent improves on itself, and so does a value that is worse by 8e-11. |
| `BoundTests.ImprovesBelow` | otawa/lp_solve5/lp_lib.c:8254-8331 | An improvement is worse than the incumbent by less than the excess of the tolerance over the improvement step, and below everything that is no improvement. |
| `BoundTests.ThresholdDescends` | otawa/lp_solve5/lp_lib.c:8254-8331 | What does not improve on an incumbent does not improve on any later one. |
| `BoundTests.ModesCollapse` | otawa/lp_solve5/lp_lib.c:8254-8331 | The strict and the inclusive mode of a test give the same answer in both directions. |
| `BoundTests.Mirror` | otawa/lp_solve5/lp_lib.c:8254-8331 | A maximisation test is the minimisation test on negated values. |
| `UndoLadders.UndoExact` | otawa/lp_solve5/lp_matrix.h:239-245 | Undoing a frame gives back the vector exactly if every item had its original value before it was last written. (Body: lp_matrix.c, lines 2430-2458.) |
| `UndoLadders.UndoFails` | otawa/lp_solve5/lp_matrix.h:243-243 | Two writes to one item in a frame are undone to the middle value. (Body: lp_matrix.c, lines 2430-2458.) |
| `UndoLadders.ReplayExtend` | otawa/lp_solve5/lp_matrix.h:241-241 | Recording an item not yet in the frame does not change what the frame restores. (Body: lp_matrix.c, lines 2410-2422.) |
| `UndoLadders.UndoLadder.Increment` | otawa/lp_solve5/lp_matrix.h:240-240 | A new empty frame on top, the others as they were. (Body: lp_matrix.c, lines 2402-2409.) |
| `UndoLadders.UndoLadder.InsertColumn` | otawa/lp_solve5/lp_matrix.h:182-182 | The end markers after an insertion at any place: those above the base move, the new column is empty, the one behind it keeps its marker. (Body: lp_matrix.c, lines 668-687.) |
| `UndoLadders.UndoLadder.Modify` | otawa/lp_solve5/lp_matrix.h:241-241 | The old value joins the top frame and one element of the target changes. (Body: lp_matrix.c, lines 2410-2422.) |
| `UndoLadders.UndoLadder.Restore` | otawa/lp_solve5/lp_matrix.h:243-243 | The target gets what the top frame restores; the frame itself stays. (Body: lp_matrix.c, lines 2430-2458.) |
| `UndoLadders.UndoLadder.Decrement` | otawa/lp_solve5/lp_matrix.h:244-244 | The top frame is gone, the others are as they were. (Body: lp_matrix.c, lines 2459-2469.) |
| `UndoLadders.UndoLadder.Counts` | otawa/lp_solve5/lp_matrix.h:242-242 | The number of changes in the top frame. (Body: lp_matrix.c, lines 2423-2429.) |
| `SteepestEdge.PivotIsInverse` | otawa/lp_solve5/lp_pricePSE.c:299-366 | Row operations with a nonzero pivot turn the inverse of a basis into the inverse of the basis with the entering column. |
| `SteepestEdge.DualWeight` | otawa/lp_solve5/lp_pricePSE.c:330-366 | The scaled and corrected weights are the squared norms of the new inverse rows. |
| `SteepestEdge.DualExact` | otawa/lp_solve5/lp_pricePSE.c:316-366 | If every dual weight is the squared norm of its row of the basis inverse, the updated weights are those of the new basis, and positive. |
| `SteepestEdge.PrimalExactStays` | otawa/lp_solve5/lp_pricePSE.c:416-466 | The updated primal weight of a column that stays nonbasic is 1 plus the squared norm of its transformed column in the new basis, the floor included. |
| `SteepestEdge.PrimalExactLeaves` | otawa/lp_solve5/lp_pricePSE.c:405-466 | So is that of the column that leaves the basis. |
| `SteepestEdge.FloorInactive` | otawa/lp_solve5/lp_pricePSE.c:455-466 | The lower limit hold*hold+1 never exceeds the true weight. |
| `SteepestEdge.PivotColumnSolves` | otawa/lp_solve5/lp_pricePSE.c:370-466 | Transformed columns of the new basis come from the old ones by the pivot. |
| `PricePSE.Pricer.RestartDual` | otawa/lp_solve5/lp_pricePSE.c:174-224 | The weights set up for a known basis are the true dual norms. |
| `PricePSE.Pricer.RestartPrimal` | otawa/lp_solve5/lp_pricePSE.c:174-224 | The weights set up for a known basis are the true primal norms. |
| `PricePSE.Pricer.UpdateDual` | otawa/lp_solve5/lp_pricePSE.c:316-366 | In place, every weight gets the value that the exactness lemma speaks of; a pivot below the tolerance changes nothing and asks for a restart. |
| `PricePSE.Pricer.UpdatePrimal` | otawa/lp_solve5/lp_pricePSE.c:370-466 | The same for the primal weights. |
| `PricePSE.Pricer.PivotDual` | otawa/lp_solve5/lp_pricePSE.c:316-366 | Update and basis change together keep the dual weights true and positive. |
| `PricePSE.Pricer.PivotPrimal` | otawa/lp_solve5/lp_pricePSE.c:370-466 | Update and basis change together keep the primal weights true. |
| `PricePSE.Pricer.VerifyPricer` | otawa/lp_solve5/lp_pricePSE.c:489-535 | For primal weights the test holds exactly if all nonbasic weights are positive; for dual weights it always fails. |
| `SosSets.RunSafety` | otawa/lp_solve5/lp_SOS.c:966-1205 | Over every run of marks, guarded activations and last-in-first-out unmarks, each set's active list has no holes, holds distinct marked members at consecutive positions in one direction, at most the order many; taking everything back gives the first state. |
| `SosSets.StepBacked` | otawa/lp_solve5/lp_SOS.c:966-1205 | Every step keeps the windows, and going back gives the sets as they were before the mark. |
| `SosSets.ActivateKeepsWindow` | otawa/lp_solve5/lp_SOS.c:966-1137 | An activation allowed by the guard extends the window by the next position on the side last extended. |
| `SosSets.MarkKeepsWindow` | otawa/lp_solve5/lp_SOS.c:1078-1137 | A plain mark keeps the window. |
| `SosSets.MarkMeans` | otawa/lp_solve5/lp_SOS.c:1078-1137 | Marking turns the sign of an unmarked member and nothing else among the members; with activation the column joins the active list at its end, if it is not there and there is room. |
| `SosSets.UnmarkRestores` | otawa/lp_solve5/lp_SOS.c:1078-1205 | Marking an unmarked column and unmarking it restores the whole packed list. |
| `SosSets.UnmarkedActives` | otawa/lp_solve5/lp_SOS.c:1140-1205 | Unmarking any active column takes it out of the active list and leaves the others in their order. |
| `SosSets.FixSound` | otawa/lp_solve5/lp_SOS.c:1208-1285 | When the active run ends in the column activated last, a nonnegative point under the fixed bounds that is zero on marked inactive members has its nonzero members within order many consecutive positions. |
| `SosSets.FixExact` | otawa/lp_solve5/lp_SOS.c:1230-1265 | While a run is active the unmarked members before the position activated first are fixed, and those behind the position of the column by more than the unused slots. |
| `SosSets.FixUpward` | otawa/lp_solve5/lp_SOS.c:1230-1265 | After a run that ends upward: the unmarked members outside the positions the run has when filled up. |
| `SosSets.FixDownward` | otawa/lp_solve5/lp_SOS.c:1230-1265 | After a run that ends downward: all unmarked members before its first position, and those behind a position that the unused slots lead to. |
| `SosSets.FixUnstarted` | otawa/lp_solve5/lp_SOS.c:1230-1265 | While nothing is active: the unmarked members behind the column by more than the order. |
| `SosSets.FixLeaves` | otawa/lp_solve5/lp_SOS.c:1208-1285 | After a run that ends upward, the fixing at zero keeps exactly the points whose nonzero members lie in the positions the run has when filled up. |
| `SosSets.VerdictIsEnd` | otawa/lp_solve5/lp_SOS.c:1469-1523 | As long as the entries read are members, the verdict is that the nonzero members are a block that ends with them. |
| `SosSets.VerdictSatisfied` | otawa/lp_solve5/lp_SOS.c:1469-1523 | What is accepted is satisfied, for runs in both directions, also when the scan runs past the members. |
| `SosSets.VerdictExact` | otawa/lp_solve5/lp_SOS.c:1469-1523 | The verdict agrees with satisfaction for every point exactly if the set has one member. |
| `SosSets.VerdictExactInside` | otawa/lp_solve5/lp_SOS.c:1469-1523 | It agrees for every point that is zero outside the run exactly if the run has one column. |
| `SosSets.DescendingVerdict` | otawa/lp_solve5/lp_SOS.c:1469-1523 | Of the points that are zero outside a longer run activated downward, with the scan within the members, exactly those that are zero in the whole set are accepted. |
| `SosGroups.SOSrec.SetMarkedHere` | otawa/lp_solve5/lp_SOS.c:1078-1137 | One sign and at most one slot of the packed list change, as window safety and exact unmarking require of them; the result is false exactly if a member it has just marked was put into, or found in, the active list. |
| `SosGroups.SOSrec.UnmarkHere` | otawa/lp_solve5/lp_SOS.c:1140-1205 | The packed list becomes the unmarked one, later slots moved down. |
| `SosGroups.SOSrec.CanActivateHere` | otawa/lp_solve5/lp_SOS.c:966-1075 | The scan answers the activation guard that window safety rests on and that `GuardExact` decides. |
| `SosSets.GuardExact` | otawa/lp_solve5/lp_SOS.c:986-1073 | On a windowed set, for an unmarked member: allowed exactly if its lower bound is zero, a slot is free, the number of members that are active or kept above zero is not the order, and nothing is active or its position is next to the last of the run on the free side. |
| `SosSets.GuardRoom` | otawa/lp_solve5/lp_SOS.c:986-1073 | While no more members than the order are taken, the count condition is that there are fewer. |
| `SosSets.GuardMarked` | otawa/lp_solve5/lp_SOS.c:986-1073 | A marked member is allowed only while nothing is active. |
| `SosSets.GuardOverfull` | otawa/lp_solve5/lp_SOS.c:1027-1032 | A set of order 1 with two members kept above zero admits a third. |
| `SosSets.TakenSize` | otawa/lp_solve5/lp_SOS.c:1007-1026 | The count of the guard is the number of members that are active or kept above zero. |
| `SosGroups.SOSrec.FixUnmarkedHere` | otawa/lp_solve5/lp_SOS.c:1208-1285 | Exactly the unmarked members outside the free window get the value and no other bound changes, whatever the top frame holds; that frame then leads every changed column back to the bound it had, and the others to where it led them; a negative result names a member whose original bound forbids the value. |
| `SosGroups.UndoKept` | otawa/lp_solve5/lp_SOS.c:1254-1285 | The ladder leads back to where it led before the call exactly if it led no changed column anywhere but to the bound it had. |
| `SosGroups.UndoKeptIf` | otawa/lp_solve5/lp_SOS.c:1254-1285 | So it does when every recorded column stands at the fixed value or where the frame leads it. |
| `SosGroups.ReplayTwice` | otawa/lp_solve5/lp_matrix.h:243-243 | After an undo, which leaves the frame in place, all columns stand where the frame leads them. (Body: lp_matrix.c, lines 2430-2458.) |
| `SosGroups.SOSrec.IsSatisfied` | otawa/lp_solve5/lp_SOS.c:1415-1526 | Without active columns: incomplete exactly if the nonzero members form one block no longer than the order, infeasible otherwise. With a run in either direction: complete or incomplete exactly if the entries before the column activated first are zero, those from it on, as many as the run has columns, are zeros and then nonzeros, and the members behind are zero. A nonzero member before the first active one is always an error. |
| `SosGroups.SOSrec.IsFeasible` | otawa/lp_solve5/lp_SOS.c:1529-1575 | For order above 2 the answer is true exactly if no zero value lies between two nonzero ones in the active list; always true otherwise. |
| `SosGroups.SOSgroup.MarkColumn` | otawa/lp_solve5/lp_SOS.c:1093-1115 | Marking through the column index changes exactly the sets that hold the column, each as a single mark does, and the index stays right. |
| `SosGroups.SOSgroup.UnmarkColumn` | otawa/lp_solve5/lp_SOS.c:1155-1172 | The same for unmarking. |
| `SosGroups.SOSgroup.MarkAndUnmark` | otawa/lp_solve5/lp_SOS.c:1078-1205 | Marking a free column in all its sets and unmarking it again gives back every set of the group. |
| `SosSets.UnmarkKeepsIndex` | otawa/lp_solve5/lp_SOS.c:1140-1205 | Unmarking leaves every column at its position in the set. |
| `SosGroups.SOSgroup.CanActivateColumn` | otawa/lp_solve5/lp_SOS.c:983-990 | The answer through the column index is that of all sets of the group. |
| `SosGroups.SOSgroup.UpdateMap` | otawa/lp_solve5/lp_SOS.c:381-439 | The counting sort reads `size` entries of every set: the slice of every column is its selection from these entries, the slices tile the index, and the result is the number of columns among these entries. The slices are the member relation, with multiplicity, exactly if every size is the member count. |
| `SosGroups.SOSgroup.BuildIndex` | otawa/lp_solve5/lp_SOS.c:381-439 | For unmarked sets whose sizes are their member counts the map is the index that the operations on columns require. |
| `SosIndex.MapsExact` | otawa/lp_solve5/lp_SOS.c:390-434 | For any sizes with entries in range: every slice lists every set as often as the column is a member of it exactly if the sizes are the member counts. |
| `SosIndex.SizesExact` | otawa/lp_solve5/lp_SOS.c:390-434 | The same for the selections that the slices are. |
| `SosGroups.MisreadOrder` | otawa/lp_solve5/lp_SOS.c:511-533 | On the arrays: after one of two members has been deleted the size is stale, and the map lists the set under the column whose number is its order. |
| `SosGroups.SOSrec.SortList` | otawa/lp_solve5/lp_SOS.c:362-370 | The part that brings the size up to date: it becomes the member count. |
| `SosIndex.SliceMeansMembership` | otawa/lp_solve5/lp_SOS.c:381-439 | A set number is in a column's slice exactly if the column is among the entries of the set that are read. |
| `SosIndex.SliceAscending` | otawa/lp_solve5/lp_SOS.c:381-439 | Every slice is ascending. |
| `SosIndex.StartTotal` | otawa/lp_solve5/lp_SOS.c:405-413 | The slices end at the total number of entries read. |
| `SosIndex.UsedIsHeld` | otawa/lp_solve5/lp_SOS.c:405-413 | The number of columns with a slice is the number of columns among the entries read of some set. |
| `SosGroups.MapIndexes` | otawa/lp_solve5/lp_SOS.c:706-731 | For unmarked sets with sizes that are the member counts the finished map satisfies what the group operations require of the index. |
| `SosShift.MapIsOneByOne` | otawa/lp_solve5/lp_SOS.c:487-510 | Deleting columns by link map gives the members and weights that single deletions from the highest column down give. |
| `SosShift.DeleteInserted` | otawa/lp_solve5/lp_SOS.c:480-527 | Deleting the columns that were just inserted restores members and weights. |
| `SosShift.DeletedHas` | otawa/lp_solve5/lp_SOS.c:511-527 | Exactly the members outside the deleted range are left, those behind it moved down by its length. |
| `SosShift.RangeIsOneByOne` | otawa/lp_solve5/lp_SOS.c:511-527 | Deleting a range is deleting its columns one by one. |
| `SosShift.InsertedHas` | otawa/lp_solve5/lp_SOS.c:480-484 | Exactly the same members are there, those from the column on moved up. |
| `SosShift.ShiftMap` | otawa/lp_solve5/lp_SOS.c:487-536 | In place: members and weights become the mapped ones, the order cell moves behind them, and everything behind that is as it was. |
| `SosShift.ShiftDelete` | otawa/lp_solve5/lp_SOS.c:511-536 | The same for a range deletion. |
| `SosShift.EmptyUnlessShrunk` | otawa/lp_solve5/lp_SOS.c:529-533 | After a deletion the active list of an unmarked set still reads as empty exactly if no member was dropped. |
| `SosShift.ShiftInsert` | otawa/lp_solve5/lp_SOS.c:480-484 | Members at or above the insertion move up, nothing else changes. |
| `Bases.VerifyMeans` | otawa/lp_solve5/lp_lib.c:6809-6836 | When the flags are the image of the basic indices, the test accepts exactly the valid bases. |
| `Bases.VerifiedExact` | otawa/lp_solve5/lp_lib.c:6809-6836 | Among the states that pass the test the valid bases are exactly those whose indices are distinct; exactly then the flags are the image of the indices. |
| `Bases.VerifyAcceptsRepeat` | otawa/lp_solve5/lp_lib.c:2225-2256 | From any valid basis with one row, inserting a row before it without updating the indices gives a repeated index that the test accepts. |
| `Bases.InsertExact` | otawa/lp_solve5/lp_lib.c:2225-2256 | After an insertion the basis is valid exactly if the indices were updated or none was at or above the base. |
| `Bases.KeptIsBasis` | otawa/lp_solve5/lp_lib.c:2262-2287 | The surviving indices, renumbered in order, are distinct, in range, and at most as many fewer as were deleted. |
| `Bases.KeptIn` | otawa/lp_solve5/lp_lib.c:2262-2279 | An index survives exactly if its old number was basic. |
| `Bases.SlackLeft` | otawa/lp_solve5/lp_lib.c:2289-2300 | While a basis is short of entries some slack is nonbasic. |
| `Bases.Replaced` | otawa/lp_solve5/lp_lib.c:6838-6873 | Replacing a basic index gives a basis exactly if the new one was not basic or is the one replaced. |
| `LpBases.LpBasis.InsertBasis` | otawa/lp_solve5/lp_lib.c:2225-2256 | Flags and indices after the insertion, and the condition under which they are a basis. |
| `LpBases.LpBasis.DeleteBasis` | otawa/lp_solve5/lp_lib.c:2258-2306 | Every row or column range deletion leaves a valid basis of the smaller model: survivors in order, cut off for rows, filled up with slacks for columns (equality slacks only when all others are basic). |
| `LpBases.LpBasis.VerifyBasis` | otawa/lp_solve5/lp_lib.c:6809-6836 | The loops answer the test that the lemmas above characterise. |
| `LpBases.LpBasis.SetBasisVar` | otawa/lp_solve5/lp_lib.c:6838-6873 | One index and two flags change; the basis stays valid exactly if the entering index was nonbasic or the leaving one. |
| `LpBases.LpBasis.DefaultBasis` | otawa/lp_solve5/lp_lib.c:6659-6682 | The slack basis is valid and everything is at its lower bound. |
| `LpBases.LpBasis.SetBasis` | otawa/lp_solve5/lp_lib.c:6694-6743 | Accepted exactly if presolve has not been run or has not changed the counts, all entries are in range and the first `rows` are distinct in absolute value; then the loaded basis is valid. |
| `LpBases.LpBasis.GetBasis` | otawa/lp_solve5/lp_lib.c:6750-6777 | Done exactly if the basis is valid and the counts are the original ones: basic indices in order, then the nonbasic ones ascending, negated at their lower bound. |
| `BasisFiles.SavedIsAcceptable` | otawa/lp_solve5/lp_lib.c:6694-6777 | What `get_basis` saves from a valid basis, `set_basis` accepts. |
| `BasisFiles.SavedMeans` | otawa/lp_solve5/lp_lib.c:6758-6776 | The basic indices in their order, then exactly the nonbasic ones, each negated exactly if it is at its lower bound. |
| `BasisFiles.SetOfGet` | otawa/lp_solve5/lp_lib.c:6694-6777 | Loading it restores basic indices and flags, and the bounds exactly if all basic variables were at their lower bound. |
| `BasisFiles.NoneDropped` | otawa/lp_solve5/lp_MPS.c:1724-1755 | The nonbasic slacks suffice to pair every basic structural. |
| `BasisFiles.LinesMean` | otawa/lp_solve5/lp_MPS.c:1724-1757 | Every line names a nonbasic slack, or a structural at its upper bound, with the bound it is at, and a basic structural as long as there is one. |
| `BasisFiles.LineFor` | otawa/lp_solve5/lp_MPS.c:1724-1757 | Every such nonbasic index has its line. |
| `BasisFiles.FileRoundTrip` | otawa/lp_solve5/lp_MPS.c:1570-1761 | Reading the written file restores all flags and the bounds of all nonbasic variables, and all bounds exactly if the basic ones were at their lower bound. |
| `BasisFiles.AscendingBasis` | otawa/lp_solve5/lp_MPS.c:1679-1687 | The refilled basic vector is the ascending list and a valid basis. |
| `LpBases.LpBasis.WriteBas` | otawa/lp_solve5/lp_MPS.c:1724-1757 | The two cursors produce, in order, one line per nonbasic index to be written, paired with the basic structurals while there are any. |
| `LpBases.LpBasis.ReadBas` | otawa/lp_solve5/lp_MPS.c:1596-1687 | The flags and bounds are those after all lines before the end mark; success exactly if the end mark was reached. |
| `CrashBases.GuessBasis` | otawa/lp_solve5/lp_crash.c:668-718 | The completed vector: uncovered rows get their slack in the basis, displaced entries take the slack's place, the rest keeps its place and bound code. |
| `CrashBases.GuessIsAccepted` | otawa/lp_solve5/lp_crash.c:583-727 | That vector is a signed permutation which `set_basis` accepts with and without its nonbasic part. Every row has its slack or the sorted entry of its position as the basic one; a nonbasic entry that kept its place is negated exactly if it is at its lower bound, and where a slack has become basic the entry it displaced stands without sign. |
| `CrashBases.CoversIs` | otawa/lp_solve5/lp_crash.c:680-694 | A basic entry covers a row exactly if it is the slack of the row or a column whose first entry is in it. |
| `CrashBases.CoverKept` | otawa/lp_solve5/lp_crash.c:680-718 | A row is covered in the completed basis exactly if it was uncovered, or an entry that covered it stands at the position of a covered row. |
| `CrashBases.CoverLost` | otawa/lp_solve5/lp_crash.c:680-718 | Three rows: the only column that starts in row 2 gives way to the slack of row 1. |
| `FreeVars.BackIsPoint` | otawa/lp_solve5/lp_lib.c:9716-9781 | Every point of the preprocessed model maps to a point within the original bounds, integral where required. |
| `FreeVars.ForthIsPoint` | otawa/lp_solve5/lp_lib.c:9568-9674 | Every original point is the image of a point of the preprocessed model. |
| `FreeVars.SameRows` | otawa/lp_solve5/lp_lib.c:9568-9674 | Objective and all rows have the same value at a point and at its image. |
| `FreeVars.LoopEnds` | otawa/lp_solve5/lp_lib.c:9568-9674 | For every negative range that is not positive, the loop ends exactly if the range is below zero or no column is split; otherwise there is always another column to visit. |
| `FreeVars.ZeroRangeSplits` | otawa/lp_solve5/lp_lib.c:950-956 | With a negative range of zero exactly the columns that can be zero are split, unless only their lower bound is infinite, and their helpers again. |
| `FreeVars.LpModel.Preprocess` | otawa/lp_solve5/lp_lib.c:9568-9674 | Whenever it ends, the loop, which also visits the columns it appends, gives exactly the transformed model and leaves the helpers alone. Then every column has a finite lower bound, and below a negative range of zero it lies above that range unless the column had an upper bound only. |
| `FreeVars.TransformedColumn` | otawa/lp_solve5/lp_lib.c:9568-9674 | In terms of the original bounds: a column that stays above the negative range is as before; one that crosses zero has lower bound zero and a helper with opposite coefficients behind the others in order; any other is mirrored. There are as many helpers as crossing columns. |
| `FreeVars.TransformedBounds` | otawa/lp_solve5/lp_lib.c:9568-9674 | The bounds of every column of the transformed model, helpers included, as Preprocess promises them. |
| `FreeVars.LpModel.Postprocess` | otawa/lp_solve5/lp_lib.c:9716-9781 | Bounds, columns and column count are those before preprocessing, and every solution value is mapped back. |
| `FreeVars.LpModel.DeleteHelpers` | otawa/lp_solve5/lp_lib.c:3238-3257 | Exactly the helper columns are deleted. |
| `HashTables.HashVal` | otawa/lp_solve5/lp_Hash.c:75-88 | The value is in range for the table, and the accumulator stays below 2^28 at every step. |
| `HashNames.HashShort` | otawa/lp_solve5/lp_Hash.c:75-88 | As long as nothing reaches the top four bits the accumulator is the number with the characters as digits of base 16. |
| `HashNames.FoldIs` | otawa/lp_solve5/lp_Hash.c:75-88 | Folding the top four bits changes the bits 4 to 7 only, by exclusive or. |
| `HashNames.LatestWithout` | otawa/lp_solve5/lp_Hash.c:137-177 | What the latest entry of a bucket becomes when some entry is removed. |
| `HashNames.ListFollows` | otawa/lp_solve5/lp_Hash.c:179-200 | With different names and indices the list by index leads to every copied entry. |
| `HashNames.DedupNoRepeat` | otawa/lp_solve5/lp_Hash.c:103-135 | Putting entries one after the other keeps every name once and loses none. |
| `HashTables.HashTable.Find` | otawa/lp_solve5/lp_Hash.c:91-100 | Null exactly if the name is not in the table; otherwise the element with that name. |
| `HashTables.HashTable.Put` | otawa/lp_solve5/lp_Hash.c:103-135 | A new name is appended to bucket and list, an old one changes nothing; the list by index follows, and is cleared for a name that was there. |
| `HashTables.HashTable.Drop` | otawa/lp_solve5/lp_Hash.c:137-177 | Exactly one name leaves both chains. The table is in order afterwards exactly if the element was not the last of several, because `last` is not reset. |
| `HashTables.Copy` | otawa/lp_solve5/lp_Hash.c:179-200 | The copy holds the entries of the insertion list in order without repeated names, and the list by index follows it, even if the bucket chains of the source are stale. |
| `HashTables.CopyPreserves` | otawa/lp_solve5/lp_Hash.c:179-200 | Without repeated names copying to any size keeps all entries in order. |
| `HashTables.RenameVar` | otawa/lp_solve5/lp_lib.c:5851-5872 | Renaming to a fresh name changes exactly that key and the list by index follows; in general it is the renamed entries without repetitions. |
| `HashTables.GoodSize` | otawa/lp_solve5/lp_Hash.c:30-36 | The table is larger than asked for, up to the largest listed prime. |
| `PresolveMaps.PresolveUndo.DeleteRounds` | otawa/lp_solve5/lp_lib.c:1931-2087 | Any number of rounds, each compacted with the counts before it: the maps are inverse to each other, those left are in order the originals that no round deletes, exactly the others are mapped to 0, and `varmap_validate` accepts every original. |
| `PresolveMaps.PresolveUndo.Finalize` | otawa/lp_solve5/lp_presolve.c:3553-3577 | With the original counts: a round that deletes nothing leaves the maps alone; otherwise they are those of the pass over all entries, and from harmless maps they are the inverse maps of the survivors, ready for the next call. |
| `VarPasses.OriginalCounts` | otawa/lp_solve5/lp_presolve.c:3576-3577 | While several variables are left, the original counts are right for every choice of deletions in a round that deletes something exactly if no row has been deleted before or no column is left, and the last leftover entry for each element is negated and refers to a deleted variable. |
| `VarPasses.OneLeft` | otawa/lp_solve5/lp_presolve.c:3576-3577 | With a single variable left the one round that deletes it fits exactly if the leftover entries that decide are negated and some entry is read as referring to the variable. |
| `VarPasses.OriginalCountsInRound` | otawa/lp_solve5/lp_presolve.c:3576-3577 | In the first case, for the deletions of one round: exactly if those entries are negated and refer to variables that are deleted by the end of the round. |
| `VarPasses.MisreadColumn` | otawa/lp_solve5/lp_presolve.c:3576-3577 | One row and one column, the row deleted first: the deleted column stays mapped to position 1, and `varmap_validate` accepts both originals. |
| `VarPasses.RoundCompacts` | otawa/lp_solve5/lp_lib.c:2050-2080 | With the counts of the round the pass makes the maps of the survivors inverse to each other. |
| `PresolveMaps.PresolveUndo.LockedIsHarmless` | otawa/lp_solve5/lp_presolve.c:3576-3577 | Locked maps are ready for `presolve_finalize` and harmless. |
| `VarPasses.FirstRoundIsSafe` | otawa/lp_solve5/lp_presolve.c:3576-3577 | Before the first round nothing is left over, so the original counts are right. |
| `PresolveMaps.PresolveUndo.Compact` | otawa/lp_solve5/lp_lib.c:2035-2087 | For any counts: every entry is moved to its place among those not negated, and the last entry that refers to an element decides its number. |
| `PresolveMaps.PresolveUndo.DeleteColumns` | otawa/lp_solve5/lp_lib.c:1931-1951 | Exactly the listed columns are marked and nothing else is touched. |
| `PresolveMaps.PresolveUndo.DeleteRows` | otawa/lp_solve5/lp_lib.c:1931-1951 | Exactly the listed rows are marked. |
| `PresolveMaps.PresolveUndo.ValidIsMarked` | otawa/lp_solve5/lp_lib.c:1931-1951 | Inverse maps are maps in which nothing is marked, so a round can follow. |
| `PresolveMaps.PresolveUndo.constructor` | otawa/lp_solve5/lp_lib.c:1852-1856 | Locked maps are inverse to each other. |
| `PresolveMaps.PresolveUndo.Validate` | otawa/lp_solve5/lp_lib.c:1998-2033 | The loop answers the consistency test for one or all originals. |
| `VarMaps.MutualValidates` | otawa/lp_solve5/lp_lib.c:1998-2033 | Mutually inverse maps pass the test for every original. |
| `VarMaps.ValidatedApart` | otawa/lp_solve5/lp_lib.c:1998-2033 | The test accepts every original that is mapped to nothing; of the others no two accepted ones have the same position. |
| `VarMaps.MisplacedFails` | otawa/lp_solve5/lp_lib.c:1998-2033 | It fails for an original whose position holds the number of another one or lies behind all originals. |
| `VarMaps.RenumberedDone` | otawa/lp_solve5/lp_lib.c:2050-2080 | A compacted block is ordered and inverse to its map, with exactly the survivors left. |
| `PresolveMaps.LeftMeans` | otawa/lp_solve5/lp_lib.c:1931-2087 | Over all rounds exactly the originals are left that no round deletes, in their order. |

## Left out

- Simplex, factorisation and matrix internals: the relaxation, transformed columns and inverse rows are given by their defining equations.
- Floating-point rounding, scaling, perturbation and rounding of near-zero values, among them `my_roundzero` in `rcfbound_BB` and the square root in `getPricer`: all arithmetic is exact, with symbolic tolerances where the code compares.
- Semicontinuous columns, special ordered sets and GUB branches inside branch and bound, temporary integer members of sets of type 3: only nodes on integer columns are searched.
- Node selection rules, pseudocosts and strong branching: any fractional integer column may be chosen, by a nondeterministic choice.
- Callbacks, time and solution limits, improved-solution pools and user breaks: the search ends only by itself or by its depth limits.
- The objects that link branch-and-bound nodes and saved bases: nodes are values in a sequence that the methods reassign, so sharing of node memory is not modelled. The two bound vectors, the column counts and the ladders are shared objects as in the code.
- BranchAndBound.BBTree.RunBB: starts from integral bounds of integer columns and finite integer ranges, because the code does not terminate or loses its branch bounds otherwise (see NoBranchLeft and FloorBranchEscapes). Feasible objective values are within 1e30, the value that stands for infinity, so that no relaxation is unbounded. Gaps and tolerance are not negative, and tolerance and absolute gap not both zero, because the accuracy test would stop the search at the root otherwise; with a tolerance above the improvement step, which the default settings have, the incumbent is optimal up to the drift of its replacements.
- BranchAndBound.BBTree.FindNode: does not model the break at the estimated lower limit, which needs a solution limit of 1.
- Memory addresses of hash elements: elements are positions in a sequence that only grows, so freed memory is not modelled.
- Characters of names: codes of signed or unsigned chars; text encoding and comparison by `strcmp` beyond equality are not modelled.
- `sortByREAL` in `guess_basis`, `sortByINT` and `searchFor` in the sets, link maps: given by what they return.
- Values of violations and bounds tests in `guess_basis`: given as the sorted order and one answer per position.
- Resolution of names in basis files: lines hold indices; a name that does not resolve is a line that cannot be read. Default column names without row offset are not part of this model.
- `SOS_set_marked` and `SOS_unmark` on all sets: the count they return is not modelled, only their effect.
- Packed lists with unused cells behind the slots, which a deletion of members leaves: marking, activation and the tests of a set are stated for lists that end with the slots.
- Weighted insertion of members, `SOS_member_delete`, several sets sharing priorities.
- Semicontinuous and set columns in `preprocess`, and the basis change in `del_splitvars`.
- Variables added after the maps were locked, and deletion of a single variable in `varmap_delete`.
- DEVEX pricing and the fallback from primal to dual pricing.
- Dual values, sensitivity analysis, file parsing, number formatting and the other input and output of the solver.
