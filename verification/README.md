# A verified model of a grounded STRIPS planner

The system is a small C++ planner for PDDL problems. A *domain* declares
symbols, constants, predicates and lifted actions. An action has named
parameters, a cost, preconditions, effects and conditional effects. A
*problem* adds objects, an initial state and a goal state. The *solver*
runs a best-first (A*-style) search over grounded states. It can use one of
three heuristics: zero, the cost of a plan for the delete relaxation, or
the critical-path heuristic h^m. The last one is the largest cost of
reaching any `m` goal facts.

A state is an array of *slots*, one per predicate of positive arity. Slot 0
is a dimension-1 slot. Each slot is a k-d tree of fixed-length tuples of
symbols. The model keeps that representation:

- `Tuples`: tuples as sequences of symbols (`nat`).
- `KdTree`: a binary tree whose nodes compare one coordinate per level, with
  the insert, contains and erase walks of the source and an in-order view.
- `States`: a sentinel (the default-constructed, tree-less state) or a slotted
  state. A slotted state has a fact counter, the slot dimensions and one tree
  per slot. Its meaning is the set view `Slot(s, i)` (the elements of tree `i`)
  and `View(s)`.
- `Actions`: literals refer to parameter positions. `apply` is given as a
  state-level function, and proved equal to a reference successor on the set
  view. The delete relaxation drops negative effects.
- `Domains`, `Problems`: the builders and their well-formedness invariant.
  They keep the slot layout and check that every literal fits its slot.
- `Odometer`: the base-|objects| counter the solver uses to enumerate
  argument tuples.
- `Subsets`: the index array `critical_path` advances to enumerate the
  `m`-subsets of the goal facts.
- `Search`: the search, its predecessor table and waiting list, plan
  reconstruction, and the three heuristics.

The search and the heuristics are mutually recursive: a heuristic runs
searches of its own. Every member of that group therefore takes a fuel
bound. The results are `Result<Path, Stop>`, where `Stop` is either an
aborted erase assertion inside `apply` or running out of fuel.

The main results:

- every path the search returns is a plan, i.e. a chain of action
  applications from the initial state to a state that includes the goal;
- the search never aborts on a problem without deletes;
- the search finds a plan when the initial state already includes the goal, and otherwise returns the empty path when the waiting list runs out;
- the cost reported with a plan is at least the sum of its actions' costs;
- every argument tuple over the objects is tried; when the problem's objects are distinct, each is tried exactly once;
- every `m`-subset of the goal's positions is enumerated exactly once, and the positions, counted in the copy of the goal that `final_state()` returns, name the goal facts one-to-one;
- h^m is the maximum of the subproblem costs, and that maximum is attained;
- the delete relaxation only adds facts and dominates the real successor;
- the k-d tree operations are correct with respect to their element sets.

Three places where the source does not do what it evidently means are
listed under "## Findings". Each is modelled as written, with the input that
shows the problem, and is corrected in the model the search uses.

## Model

| member | source | states |
|---|---|---|
| Tuples.EmptyTuple | PDDL_TOOL/ECN_CORO-ERTS_20-21_APLA-Practical_GUILLEMOT-MUDALIAR-main/data_structures/tuple.hpp:15 | the default tuple has no coordinate |
| Tuples.FromValues | PDDL_TOOL/ECN_CORO-ERTS_20-21_APLA-Practical_GUILLEMOT-MUDALIAR-main/data_structures/tuple.hpp:17-27 | a tuple built from a list has that list's length and holds its values in order |
| Tuples.Assign | PDDL_TOOL/ECN_CORO-ERTS_20-21_APLA-Practical_GUILLEMOT-MUDALIAR-main/data_structures/tuple.hpp:33-43 | after assignment the tuple has the new list's length and values, whatever it held before |
| Tuples.Equals | PDDL_TOOL/ECN_CORO-ERTS_20-21_APLA-Practical_GUILLEMOT-MUDALIAR-main/data_structures/tuple.hpp:47-59 | two tuples are equal exactly when they have the same size and agree at every position; tuples of different sizes are never equal |
| Tuples.NotEquals | PDDL_TOOL/ECN_CORO-ERTS_20-21_APLA-Practical_GUILLEMOT-MUDALIAR-main/data_structures/tuple.hpp:61 | `!=` is exactly the negation of the position-wise equality |
| KdTree.InsertAt | PDDL_TOOL/ECN_CORO-ERTS_20-21_APLA-Practical_GUILLEMOT-MUDALIAR-main/data_structures/kdt.hpp:137-159 | the recursive insert adds the value to the tree's elements; it returns 0 after adding a node (count +1) or 1 leaving the tree unchanged |
| KdTree.ContainsAt | PDDL_TOOL/ECN_CORO-ERTS_20-21_APLA-Practical_GUILLEMOT-MUDALIAR-main/data_structures/kdt.hpp:161-180 | a positive answer of the recursive search means the value is stored |
| KdTree.EraseAtAsWritten | PDDL_TOOL/ECN_CORO-ERTS_20-21_APLA-Practical_GUILLEMOT-MUDALIAR-main/data_structures/kdt.hpp:182-218 | the recursive erase as written (a found node with at most one child is replaced by that child) only removes elements; it returns 0 exactly when the recursive search finds the value, and on a k-d-ordered tree it then removes exactly that value; code 1 leaves the tree unchanged |
| KdTree.EraseAt | PDDL_TOOL/ECN_CORO-ERTS_20-21_APLA-Practical_GUILLEMOT-MUDALIAR-main/data_structures/kdt.hpp:182-206 | the corrected recursive erase follows the same search and only removes elements; code 1 leaves the tree unchanged |
| KdTree.InOrderElements | PDDL_TOOL/ECN_CORO-ERTS_20-21_APLA-Practical_GUILLEMOT-MUDALIAR-main/data_structures/kdt.hpp:66-104 | the in-order walk of the iterator lists exactly the stored elements, one entry per node |
| KdTree.InsertCodeMatchesContains | PDDL_TOOL/ECN_CORO-ERTS_20-21_APLA-Practical_GUILLEMOT-MUDALIAR-main/data_structures/kdt.hpp:137-180 | insert reports "already present" exactly when contains would find the value, on any tree |
| KdTree.ContainsComplete | PDDL_TOOL/ECN_CORO-ERTS_20-21_APLA-Practical_GUILLEMOT-MUDALIAR-main/data_structures/kdt.hpp:161-180 | in a k-d-ordered tree, contains answers yes exactly for the stored values |
| KdTree.InsertOrdered | PDDL_TOOL/ECN_CORO-ERTS_20-21_APLA-Practical_GUILLEMOT-MUDALIAR-main/data_structures/kdt.hpp:150-156 | insert keeps the k-d ordering: smaller or equal-but-different values go left and larger values go right, on coordinate depth mod dimension |
| KdTree.InsertThenContains | PDDL_TOOL/ECN_CORO-ERTS_20-21_APLA-Practical_GUILLEMOT-MUDALIAR-main/data_structures/kdt.hpp:137-180 | after inserting a value, contains finds it |
| KdTree.InsertKeepsContained | PDDL_TOOL/ECN_CORO-ERTS_20-21_APLA-Practical_GUILLEMOT-MUDALIAR-main/data_structures/kdt.hpp:137-180 | inserting never makes a value that contains found unfindable |
| KdTree.CountIsCardinality | PDDL_TOOL/ECN_CORO-ERTS_20-21_APLA-Practical_GUILLEMOT-MUDALIAR-main/data_structures/kdt.hpp:13 | in an ordered tree the node count equals the number of distinct stored values |
| KdTree.EraseCorrect | PDDL_TOOL/ECN_CORO-ERTS_20-21_APLA-Practical_GUILLEMOT-MUDALIAR-main/data_structures/kdt.hpp:182-206 | the corrected erase keeps the ordering and removes exactly the value; it returns 0 exactly when the value was stored, and the count drops by one exactly then |
| KdTree.NewKdt | PDDL_TOOL/ECN_CORO-ERTS_20-21_APLA-Practical_GUILLEMOT-MUDALIAR-main/data_structures/kdt.hpp:10-11 | a new tree of dimension k has size 0 and no element |
| KdTree.Size | PDDL_TOOL/ECN_CORO-ERTS_20-21_APLA-Practical_GUILLEMOT-MUDALIAR-main/data_structures/kdt.hpp:13 | the size counter of a valid tree is the number of stored values |
| KdTree.Empty | PDDL_TOOL/ECN_CORO-ERTS_20-21_APLA-Practical_GUILLEMOT-MUDALIAR-main/data_structures/kdt.hpp:22 | a tree is empty exactly when it stores nothing, i.e. when its size is 0 |
| KdTree.Insert | PDDL_TOOL/ECN_CORO-ERTS_20-21_APLA-Practical_GUILLEMOT-MUDALIAR-main/data_structures/kdt.hpp:24-25 | the public insert adds the value; it returns 0 exactly when the value was absent, and the size grows by one exactly then; otherwise the tree is unchanged |
| KdTree.Contains | PDDL_TOOL/ECN_CORO-ERTS_20-21_APLA-Practical_GUILLEMOT-MUDALIAR-main/data_structures/kdt.hpp:27-28 | the public contains answers yes exactly for the stored values |
| KdTree.Erase | PDDL_TOOL/ECN_CORO-ERTS_20-21_APLA-Practical_GUILLEMOT-MUDALIAR-main/data_structures/kdt.hpp:32-33 | the corrected public erase removes exactly the value; it returns 0 exactly when the value was stored and the size drops by one exactly then; otherwise the tree is unchanged |
| KdTree.EraseAsWritten | PDDL_TOOL/ECN_CORO-ERTS_20-21_APLA-Practical_GUILLEMOT-MUDALIAR-main/data_structures/kdt.hpp:32-33 | the public erase as written keeps the size counter equal to the node count and only removes values; it returns 0 exactly when contains would find the value, and on an ordered tree exactly when the value is stored, removing exactly it |
| KdTree.At | PDDL_TOOL/ECN_CORO-ERTS_20-21_APLA-Practical_GUILLEMOT-MUDALIAR-main/data_structures/kdt.hpp:95-104 | indexing inside the range returns a stored value (the value at that in-order position) |
| KdTree.AtInjective | PDDL_TOOL/ECN_CORO-ERTS_20-21_APLA-Practical_GUILLEMOT-MUDALIAR-main/data_structures/kdt.hpp:95-104 | on a valid tree, two different positions below the size hold different values |
| KdTree.AtPosition | PDDL_TOOL/ECN_CORO-ERTS_20-21_APLA-Practical_GUILLEMOT-MUDALIAR-main/data_structures/kdt.hpp:95-104 | every stored value is held at some position below the size, so indexing is onto the elements |
| KdTree.SpliceLosesValue | PDDL_TOOL/ECN_CORO-ERTS_20-21_APLA-Practical_GUILLEMOT-MUDALIAR-main/data_structures/kdt.hpp:207-218 | after inserting [5,5], [3,3], [4,1] into a 2-d tree and erasing [5,5] as written, [4,1] is still stored but contains no longer finds it; the corrected erase finds it |
| States.NewState | PDDL_TOOL/ECN_CORO-ERTS_20-21_APLA-Practical_GUILLEMOT-MUDALIAR-main/planning_problem/state.cpp:5-17 | a state built from a list of dimensions has one empty slot per dimension and size 0 |
| States.SizeIsFactCount | PDDL_TOOL/ECN_CORO-ERTS_20-21_APLA-Practical_GUILLEMOT-MUDALIAR-main/planning_problem/state.cpp:38 | the fact counter of a valid state is the number of facts over all slots |
| States.Size | PDDL_TOOL/ECN_CORO-ERTS_20-21_APLA-Practical_GUILLEMOT-MUDALIAR-main/planning_problem/state.cpp:38 | `size()` is the number of facts |
| States.KdtSize | PDDL_TOOL/ECN_CORO-ERTS_20-21_APLA-Practical_GUILLEMOT-MUDALIAR-main/planning_problem/state.cpp:42-50 | the size of slot i is the number of facts in it, and 0 for an index past the slots |
| States.Reset | PDDL_TOOL/ECN_CORO-ERTS_20-21_APLA-Practical_GUILLEMOT-MUDALIAR-main/planning_problem/state.cpp:52-67 | reset keeps the layout and removes every fact |
| States.Contains | PDDL_TOOL/ECN_CORO-ERTS_20-21_APLA-Practical_GUILLEMOT-MUDALIAR-main/planning_problem/state.cpp:83-86 | a state contains a fact exactly when the fact is in its slot |
| States.Add | PDDL_TOOL/ECN_CORO-ERTS_20-21_APLA-Practical_GUILLEMOT-MUDALIAR-main/planning_problem/state.cpp:88-92 | add puts the fact in its slot and leaves the other slots alone; the size grows by one exactly when the fact is new |
| States.AddCommutes | PDDL_TOOL/ECN_CORO-ERTS_20-21_APLA-Practical_GUILLEMOT-MUDALIAR-main/planning_problem/state.cpp:88-92 | adding two facts in either order gives the same facts |
| States.Erase | PDDL_TOOL/ECN_CORO-ERTS_20-21_APLA-Practical_GUILLEMOT-MUDALIAR-main/planning_problem/state.cpp:94-98 | erasing a missing fact fails the source's assertion (an error here); otherwise the fact leaves its slot, the other slots are unchanged and the size drops by one |
| States.AddAll | PDDL_TOOL/ECN_CORO-ERTS_20-21_APLA-Practical_GUILLEMOT-MUDALIAR-main/planning_problem/state.cpp:31-34 | re-adding a tree's values to a slot adds exactly those values |
| States.CopyFrom | PDDL_TOOL/ECN_CORO-ERTS_20-21_APLA-Practical_GUILLEMOT-MUDALIAR-main/planning_problem/state.cpp:31-35 | the copy loop over slots from a given index merges exactly the copied slots' facts |
| States.Copy | PDDL_TOOL/ECN_CORO-ERTS_20-21_APLA-Practical_GUILLEMOT-MUDALIAR-main/planning_problem/state.cpp:19-36 | a copy has the layout and the facts of the original |
| States.CopySize | PDDL_TOOL/ECN_CORO-ERTS_20-21_APLA-Practical_GUILLEMOT-MUDALIAR-main/planning_problem/state.cpp:19-38 | a copy has the `size()` of the original |
| States.SameFactsSize | PDDL_TOOL/ECN_CORO-ERTS_20-21_APLA-Practical_GUILLEMOT-MUDALIAR-main/planning_problem/state.cpp:38 | two states of one layout with the same facts have the same `size()` |
| States.CopyReorders | PDDL_TOOL/ECN_CORO-ERTS_20-21_APLA-Practical_GUILLEMOT-MUDALIAR-main/planning_problem/state.cpp:19-36 | a copy re-adds each tree's facts in iteration order and so can reorder them: with (5,5), (3,3), (4,1) added in that order, position 0 is (4,1) in the state and (3,3) in its copy |
| States.CopyReordersAt | PDDL_TOOL/ECN_CORO-ERTS_20-21_APLA-Practical_GUILLEMOT-MUDALIAR-main/planning_problem/state.cpp:19-36 | the same for any valid state whose single two-dimensional slot holds that tree |
| States.EmptyAsWritten | PDDL_TOOL/ECN_CORO-ERTS_20-21_APLA-Practical_GUILLEMOT-MUDALIAR-main/planning_problem/state.cpp:69-81 | `empty()` as written answers true exactly for the tree-less state or a state whose every slot holds a fact |
| States.EmptyAsWrittenAgrees | PDDL_TOOL/ECN_CORO-ERTS_20-21_APLA-Practical_GUILLEMOT-MUDALIAR-main/planning_problem/state.cpp:69-81 | when slot 0 holds no fact, the as-written `empty()` agrees with the intended "no state" test |
| States.FullStateReportedEmpty | PDDL_TOOL/ECN_CORO-ERTS_20-21_APLA-Practical_GUILLEMOT-MUDALIAR-main/planning_problem/state.cpp:69-81 | a two-slot state with one fact per slot is reported empty although it is a real state |
| States.Included | PDDL_TOOL/ECN_CORO-ERTS_20-21_APLA-Practical_GUILLEMOT-MUDALIAR-main/planning_problem/state.cpp:100-117 | `included` answers true exactly when every fact of the state is a fact of the other state |
| States.IncludedFrom | PDDL_TOOL/ECN_CORO-ERTS_20-21_APLA-Practical_GUILLEMOT-MUDALIAR-main/planning_problem/state.cpp:106-115 | the loop over slots from an index answers true exactly when those slots are included |
| States.AllContained | PDDL_TOOL/ECN_CORO-ERTS_20-21_APLA-Practical_GUILLEMOT-MUDALIAR-main/planning_problem/state.cpp:109-112 | the loop over a slot's values answers true exactly when each value is in the other state's slot |
| States.Equal | PDDL_TOOL/ECN_CORO-ERTS_20-21_APLA-Practical_GUILLEMOT-MUDALIAR-main/planning_problem/state.cpp:166-190 | two states compare equal exactly when they hold the same facts, whatever order the facts were inserted in |
| States.At | PDDL_TOOL/ECN_CORO-ERTS_20-21_APLA-Practical_GUILLEMOT-MUDALIAR-main/planning_problem/state.cpp:119-137 | an index below the size yields a fact of the slot that index falls in; an index past the size yields the empty tuple |
| States.AtFrom | PDDL_TOOL/ECN_CORO-ERTS_20-21_APLA-Practical_GUILLEMOT-MUDALIAR-main/planning_problem/state.cpp:124-134 | the scan over slots from a given slot returns a fact of the slot the index falls in |
| States.SlotOf | PDDL_TOOL/ECN_CORO-ERTS_20-21_APLA-Practical_GUILLEMOT-MUDALIAR-main/planning_problem/state.cpp:124-134 | the slot an index falls in is a real slot exactly when the index is below the size |
| States.SlotFrom | PDDL_TOOL/ECN_CORO-ERTS_20-21_APLA-Practical_GUILLEMOT-MUDALIAR-main/planning_problem/state.cpp:124-134 | the slot found brackets the index between the fact counts before and after it |
| States.AtInSlot | PDDL_TOOL/ECN_CORO-ERTS_20-21_APLA-Practical_GUILLEMOT-MUDALIAR-main/planning_problem/state.cpp:119-137 | an index below the size falls in the slot whose fact counts before and after bracket it, and yields the fact at the index minus the earlier slots' count in that slot's in-order walk |
| States.AtInjective | PDDL_TOOL/ECN_CORO-ERTS_20-21_APLA-Practical_GUILLEMOT-MUDALIAR-main/planning_problem/state.cpp:119-137 | two different indices below the size name different (slot, fact) pairs |
| States.AtOnto | PDDL_TOOL/ECN_CORO-ERTS_20-21_APLA-Practical_GUILLEMOT-MUDALIAR-main/planning_problem/state.cpp:119-137 | every fact of every slot is named by some index below the size, with that slot |
| States.View | PDDL_TOOL/ECN_CORO-ERTS_20-21_APLA-Practical_GUILLEMOT-MUDALIAR-main/planning_problem/state.cpp:83-86 | the set view has one set per slot, holding that slot's facts |
| States.ViewOfAdd | PDDL_TOOL/ECN_CORO-ERTS_20-21_APLA-Practical_GUILLEMOT-MUDALIAR-main/planning_problem/state.cpp:88-92 | add updates the set view by adding the fact to its slot |
| States.ViewOfErase | PDDL_TOOL/ECN_CORO-ERTS_20-21_APLA-Practical_GUILLEMOT-MUDALIAR-main/planning_problem/state.cpp:94-98 | erase updates the set view by removing the fact from its slot |
| States.ViewOfCopy | PDDL_TOOL/ECN_CORO-ERTS_20-21_APLA-Practical_GUILLEMOT-MUDALIAR-main/planning_problem/state.cpp:19-36 | a copy has the same set view |
| Actions.NewAction | PDDL_TOOL/ECN_CORO-ERTS_20-21_APLA-Practical_GUILLEMOT-MUDALIAR-main/planning_problem/action.cpp:3 | a new action has no parameter, cost 1 and no literal |
| Actions.SetCost | PDDL_TOOL/ECN_CORO-ERTS_20-21_APLA-Practical_GUILLEMOT-MUDALIAR-main/planning_problem/action.cpp:11 | only the cost changes |
| Actions.AddParam | PDDL_TOOL/ECN_CORO-ERTS_20-21_APLA-Practical_GUILLEMOT-MUDALIAR-main/planning_problem/action.cpp:13-17 | a new parameter gets the next position; the literals are unchanged and the positions stay numbered 0..n-1 |
| Actions.ParamIndex | PDDL_TOOL/ECN_CORO-ERTS_20-21_APLA-Practical_GUILLEMOT-MUDALIAR-main/planning_problem/action.cpp:183-189 | a parameter's index is below the parameter count |
| Actions.Positions | PDDL_TOOL/ECN_CORO-ERTS_20-21_APLA-Practical_GUILLEMOT-MUDALIAR-main/planning_problem/action.cpp:23-24 | each parameter name of a literal is replaced by that parameter's position |
| Actions.Resolve | PDDL_TOOL/ECN_CORO-ERTS_20-21_APLA-Practical_GUILLEMOT-MUDALIAR-main/planning_problem/action.cpp:47-53 | a named literal keeps its slot and negation, and gets one position per name |
| Actions.ResolveAll | PDDL_TOOL/ECN_CORO-ERTS_20-21_APLA-Practical_GUILLEMOT-MUDALIAR-main/planning_problem/action.cpp:47-67 | every literal of a conditional block is resolved, in order |
| Actions.AddPrecond | PDDL_TOOL/ECN_CORO-ERTS_20-21_APLA-Practical_GUILLEMOT-MUDALIAR-main/planning_problem/action.cpp:19-28 | one precondition is appended, with its parameter positions |
| Actions.AddEffect | PDDL_TOOL/ECN_CORO-ERTS_20-21_APLA-Practical_GUILLEMOT-MUDALIAR-main/planning_problem/action.cpp:30-39 | one effect is appended, with its parameter positions |
| Actions.AddConditionalEffect | PDDL_TOOL/ECN_CORO-ERTS_20-21_APLA-Practical_GUILLEMOT-MUDALIAR-main/planning_problem/action.cpp:41-70 | one conditional block is appended, with both lists resolved |
| Actions.Instantiate | PDDL_TOOL/ECN_CORO-ERTS_20-21_APLA-Practical_GUILLEMOT-MUDALIAR-main/planning_problem/action.cpp:82-83 | a literal's tuple holds, at each position, the argument of the parameter named there |
| Actions.Holds | PDDL_TOOL/ECN_CORO-ERTS_20-21_APLA-Practical_GUILLEMOT-MUDALIAR-main/planning_problem/action.cpp:85-88 | a literal holds exactly when its instantiated fact is present (or absent, if negated) in the set view |
| Actions.AllHold | PDDL_TOOL/ECN_CORO-ERTS_20-21_APLA-Practical_GUILLEMOT-MUDALIAR-main/planning_problem/action.cpp:80-91 | the preconditions hold exactly when each of them holds |
| Actions.ApplyEffects | PDDL_TOOL/ECN_CORO-ERTS_20-21_APLA-Practical_GUILLEMOT-MUDALIAR-main/planning_problem/action.cpp:97-108 | applying the effects to the copy agrees with the reference effects on the set view, including the erase-assertion failure |
| Actions.ApplyCondEffects | PDDL_TOOL/ECN_CORO-ERTS_20-21_APLA-Practical_GUILLEMOT-MUDALIAR-main/planning_problem/action.cpp:110-143 | the corrected conditional effects agree with the reference blocks: a block's effects apply once, when all its preconditions hold in the state acted on |
| Actions.Apply | PDDL_TOOL/ECN_CORO-ERTS_20-21_APLA-Practical_GUILLEMOT-MUDALIAR-main/planning_problem/action.cpp:72-147 | apply returns the tree-less state exactly when a precondition fails; otherwise its set view is the reference successor (effects, then conditional blocks), or the erase assertion fails exactly when the reference one does |
| Actions.BlockAsWritten | PDDL_TOOL/ECN_CORO-ERTS_20-21_APLA-Practical_GUILLEMOT-MUDALIAR-main/planning_problem/action.cpp:113-142 | one block as written agrees with its set-view form, which applies the effects after every precondition that keeps the running conjunction true |
| Actions.CondEffectsAsWritten | PDDL_TOOL/ECN_CORO-ERTS_20-21_APLA-Practical_GUILLEMOT-MUDALIAR-main/planning_problem/action.cpp:110-143 | all blocks as written agree with their set-view form |
| Actions.ApplyAsWritten | PDDL_TOOL/ECN_CORO-ERTS_20-21_APLA-Practical_GUILLEMOT-MUDALIAR-main/planning_problem/action.cpp:72-147 | apply as written has the same precondition test as the corrected one, and agrees with the as-written successor on the set view |
| Actions.SinglePrecondBlocksAgree | PDDL_TOOL/ECN_CORO-ERTS_20-21_APLA-Practical_GUILLEMOT-MUDALIAR-main/planning_problem/action.cpp:110-143 | when every block has exactly one precondition, the as-written and corrected conditional effects agree |
| Actions.SinglePrecondActionsAgree | PDDL_TOOL/ECN_CORO-ERTS_20-21_APLA-Practical_GUILLEMOT-MUDALIAR-main/planning_problem/action.cpp:72-147 | for such actions, apply as written and corrected give the same successor |
| Actions.UnconditionalBlock | PDDL_TOOL/ECN_CORO-ERTS_20-21_APLA-Practical_GUILLEMOT-MUDALIAR-main/planning_problem/action.cpp:115-127 | a block without precondition never fires as written, but always fires under the conjunction reading |
| Actions.PartialBlockFires | PDDL_TOOL/ECN_CORO-ERTS_20-21_APLA-Practical_GUILLEMOT-MUDALIAR-main/planning_problem/action.cpp:115-141 | a block with preconditions "p(x)" and "not p(x)" fires as written after its first precondition, although their conjunction is false |
| Actions.RepeatedBlockAborts | PDDL_TOOL/ECN_CORO-ERTS_20-21_APLA-Practical_GUILLEMOT-MUDALIAR-main/planning_problem/action.cpp:115-141 | a block with a repeated precondition and a delete effect erases twice as written and fails the erase assertion; the corrected reading succeeds |
| Actions.Positive | PDDL_TOOL/ECN_CORO-ERTS_20-21_APLA-Practical_GUILLEMOT-MUDALIAR-main/planning_problem/action.cpp:160-164 | the kept effects are exactly the positive ones |
| Actions.RelaxBlock | PDDL_TOOL/ECN_CORO-ERTS_20-21_APLA-Practical_GUILLEMOT-MUDALIAR-main/planning_problem/action.cpp:167-178 | a relaxed block keeps its preconditions and exactly its positive effects |
| Actions.DeleteRelax | PDDL_TOOL/ECN_CORO-ERTS_20-21_APLA-Practical_GUILLEMOT-MUDALIAR-main/planning_problem/action.cpp:149-181 | the relaxed action has the same name, parameters, cost and preconditions; its effects are exactly the positive ones and each block is relaxed in place |
| Actions.PositiveEffectsGrow | PDDL_TOOL/ECN_CORO-ERTS_20-21_APLA-Practical_GUILLEMOT-MUDALIAR-main/planning_problem/action.cpp:160-164 | positive effects never fail and only add facts |
| Actions.RelaxedEffectsDominate | PDDL_TOOL/ECN_CORO-ERTS_20-21_APLA-Practical_GUILLEMOT-MUDALIAR-main/planning_problem/action.cpp:160-164 | from a larger state, the positive effects reach at least the facts the full effects reach |
| Actions.RelaxedBlocksDominate | PDDL_TOOL/ECN_CORO-ERTS_20-21_APLA-Practical_GUILLEMOT-MUDALIAR-main/planning_problem/action.cpp:167-178 | relaxed blocks from a larger state reach at least the facts the original blocks reach |
| Actions.PositiveBlocksGrow | PDDL_TOOL/ECN_CORO-ERTS_20-21_APLA-Practical_GUILLEMOT-MUDALIAR-main/planning_problem/action.cpp:167-178 | blocks without negative effects never fail and only add facts |
| Actions.RelaxedShape | PDDL_TOOL/ECN_CORO-ERTS_20-21_APLA-Practical_GUILLEMOT-MUDALIAR-main/planning_problem/action.cpp:149-181 | relaxing keeps an action well formed and leaves it with no negative effect |
| Actions.RelaxedSuccessorGrows | PDDL_TOOL/ECN_CORO-ERTS_20-21_APLA-Practical_GUILLEMOT-MUDALIAR-main/planning_problem/action.cpp:149-181 | a relaxed action applies under the same preconditions, never fails, and its successor includes the state acted on |
| Actions.RelaxedSuccessorDominates | PDDL_TOOL/ECN_CORO-ERTS_20-21_APLA-Practical_GUILLEMOT-MUDALIAR-main/planning_problem/action.cpp:149-181 | the relaxed successor includes every fact of the real successor |
| Actions.BelowIsSubFacts | PDDL_TOOL/ECN_CORO-ERTS_20-21_APLA-Practical_GUILLEMOT-MUDALIAR-main/planning_problem/state.cpp:100-117 | slot-wise inclusion of the set views is inclusion of facts |
| Actions.RelaxedApplyDominates | PDDL_TOOL/ECN_CORO-ERTS_20-21_APLA-Practical_GUILLEMOT-MUDALIAR-main/planning_problem/action.cpp:149-181 | at the state level, relaxed apply never fails, is the tree-less state exactly when a precondition fails, grows the state, and includes the real successor |
| Actions.RelaxedIsAdditive | PDDL_TOOL/ECN_CORO-ERTS_20-21_APLA-Practical_GUILLEMOT-MUDALIAR-main/planning_problem/action.cpp:149-181 | a relaxed action deletes nothing |
| Actions.AdditiveNeverAborts | PDDL_TOOL/ECN_CORO-ERTS_20-21_APLA-Practical_GUILLEMOT-MUDALIAR-main/planning_problem/action.cpp:97-143 | an action without deletes never fails the erase assertion |
| Actions.EffectsAreStrips | PDDL_TOOL/ECN_CORO-ERTS_20-21_APLA-Practical_GUILLEMOT-MUDALIAR-main/planning_problem/action.cpp:97-108 | when every delete targets a present fact, is not repeated and is not also added, the effects give (state minus deletes) plus adds |
| Actions.ApplyIsStrips | PDDL_TOOL/ECN_CORO-ERTS_20-21_APLA-Practical_GUILLEMOT-MUDALIAR-main/planning_problem/action.cpp:72-108 | apply of such an action without conditional blocks is the STRIPS successor, slot by slot |
| Domains.NewDomain | PDDL_TOOL/ECN_CORO-ERTS_20-21_APLA-Practical_GUILLEMOT-MUDALIAR-main/planning_problem/domain.cpp:5-9 | a new domain knows only its name and has the single dimension-1 slot |
| Domains.PredIndex | PDDL_TOOL/ECN_CORO-ERTS_20-21_APLA-Practical_GUILLEMOT-MUDALIAR-main/planning_problem/domain.cpp:19-26 | a 0-arity predicate points at slot 0; any other points at a slot of its arity |
| Domains.IsSymbol | PDDL_TOOL/ECN_CORO-ERTS_20-21_APLA-Practical_GUILLEMOT-MUDALIAR-main/planning_problem/domain.cpp:28-31 | answers true exactly for registered symbols |
| Domains.AddSymbol | PDDL_TOOL/ECN_CORO-ERTS_20-21_APLA-Practical_GUILLEMOT-MUDALIAR-main/planning_problem/domain.cpp:33-37 | registers one symbol and changes nothing else |
| Domains.AddConstant | PDDL_TOOL/ECN_CORO-ERTS_20-21_APLA-Practical_GUILLEMOT-MUDALIAR-main/planning_problem/domain.cpp:39-43 | appends the constant without registering it as a symbol |
| Domains.AddPredicate | PDDL_TOOL/ECN_CORO-ERTS_20-21_APLA-Practical_GUILLEMOT-MUDALIAR-main/planning_problem/domain.cpp:45-60 | registers the predicate; one of positive arity gets a new slot of that dimension, one of arity 0 points at slot 0; other predicates, actions and constants are kept |
| Domains.AddPredicateKeepsActions | PDDL_TOOL/ECN_CORO-ERTS_20-21_APLA-Practical_GUILLEMOT-MUDALIAR-main/planning_problem/domain.cpp:45-60 | extending the layout keeps every action's literals fitting |
| Domains.AddAction | PDDL_TOOL/ECN_CORO-ERTS_20-21_APLA-Practical_GUILLEMOT-MUDALIAR-main/planning_problem/domain.cpp:62-67 | registers the name and stores a new action under it |
| Domains.SetActionCost | PDDL_TOOL/ECN_CORO-ERTS_20-21_APLA-Practical_GUILLEMOT-MUDALIAR-main/planning_problem/domain.cpp:69-74 | only that action's cost changes |
| Domains.AddActionParam | PDDL_TOOL/ECN_CORO-ERTS_20-21_APLA-Practical_GUILLEMOT-MUDALIAR-main/planning_problem/domain.cpp:76-81 | only that action gains the parameter |
| Domains.Lower | PDDL_TOOL/ECN_CORO-ERTS_20-21_APLA-Practical_GUILLEMOT-MUDALIAR-main/planning_problem/domain.cpp:86-92 | a literal over predicate names becomes one over the predicate's slot, with the same negation and names |
| Domains.LowerAll | PDDL_TOOL/ECN_CORO-ERTS_20-21_APLA-Practical_GUILLEMOT-MUDALIAR-main/planning_problem/domain.cpp:118-136 | every literal of a list is lowered, in order, and names only the action's parameters |
| Domains.LowerKnown | PDDL_TOOL/ECN_CORO-ERTS_20-21_APLA-Practical_GUILLEMOT-MUDALIAR-main/planning_problem/domain.cpp:83-93 | a lowered and resolved literal fits its slot |
| Domains.LowerAllKnown | PDDL_TOOL/ECN_CORO-ERTS_20-21_APLA-Practical_GUILLEMOT-MUDALIAR-main/planning_problem/domain.cpp:107-139 | a lowered and resolved list fits the layout |
| Domains.AddActionPrecond | PDDL_TOOL/ECN_CORO-ERTS_20-21_APLA-Practical_GUILLEMOT-MUDALIAR-main/planning_problem/domain.cpp:83-93 | only that action gains the precondition, at the predicate's slot, keeping the domain well formed |
| Domains.AddActionEffect | PDDL_TOOL/ECN_CORO-ERTS_20-21_APLA-Practical_GUILLEMOT-MUDALIAR-main/planning_problem/domain.cpp:95-105 | only that action gains the effect, at the predicate's slot, keeping the domain well formed |
| Domains.AddActionCondEffect | PDDL_TOOL/ECN_CORO-ERTS_20-21_APLA-Practical_GUILLEMOT-MUDALIAR-main/planning_problem/domain.cpp:107-139 | only that action gains one conditional block, keeping the domain well formed |
| Domains.DeleteRelax | PDDL_TOOL/ECN_CORO-ERTS_20-21_APLA-Practical_GUILLEMOT-MUDALIAR-main/planning_problem/domain.cpp:141-151 | the relaxed domain has the same symbols, predicates and layout, no constant, and the relaxed version of each action under the same name |
| Domains.RelaxedKnown | PDDL_TOOL/ECN_CORO-ERTS_20-21_APLA-Practical_GUILLEMOT-MUDALIAR-main/planning_problem/domain.cpp:141-151 | relaxing an action keeps its literals fitting the layout |
| Domains.SortedKeys | PDDL_TOOL/ECN_CORO-ERTS_20-21_APLA-Practical_GUILLEMOT-MUDALIAR-main/solver.cpp:77 | the actions are visited in increasing name order, each once |
| Problems.NewProblem | PDDL_TOOL/ECN_CORO-ERTS_20-21_APLA-Practical_GUILLEMOT-MUDALIAR-main/planning_problem/problem.cpp:5-8 | a new problem takes the domain's constants as objects and has empty initial and goal states over its layout |
| Problems.AddObject | PDDL_TOOL/ECN_CORO-ERTS_20-21_APLA-Practical_GUILLEMOT-MUDALIAR-main/planning_problem/problem.cpp:26-30 | registers the object in the domain and appends it to the objects |
| Problems.FactSlot | PDDL_TOOL/ECN_CORO-ERTS_20-21_APLA-Practical_GUILLEMOT-MUDALIAR-main/planning_problem/problem.cpp:35 | the fact's slot fits the tuple in both states |
| Problems.GroundInit | PDDL_TOOL/ECN_CORO-ERTS_20-21_APLA-Practical_GUILLEMOT-MUDALIAR-main/planning_problem/problem.cpp:32-46 | adds one fact to the initial state only |
| Problems.GroundFinal | PDDL_TOOL/ECN_CORO-ERTS_20-21_APLA-Practical_GUILLEMOT-MUDALIAR-main/planning_problem/problem.cpp:48-62 | adds one fact to the goal state only |
| Problems.GroundInitCommutes | PDDL_TOOL/ECN_CORO-ERTS_20-21_APLA-Practical_GUILLEMOT-MUDALIAR-main/planning_problem/problem.cpp:32-46 | grounding two initial facts in either order gives the same initial state |
| Problems.FinalState | PDDL_TOOL/ECN_CORO-ERTS_20-21_APLA-Practical_GUILLEMOT-MUDALIAR-main/planning_problem/problem.cpp:20 | `final_state()` returns a copy of the goal: same layout, same facts and same size |
| Problems.SetInitial | PDDL_TOOL/ECN_CORO-ERTS_20-21_APLA-Practical_GUILLEMOT-MUDALIAR-main/planning_problem/problem.cpp:22 | the initial state takes the given facts; nothing else changes |
| Problems.SetFinal | PDDL_TOOL/ECN_CORO-ERTS_20-21_APLA-Practical_GUILLEMOT-MUDALIAR-main/planning_problem/problem.cpp:24 | the goal state takes the given facts; nothing else changes |
| Problems.DeleteRelax | PDDL_TOOL/ECN_CORO-ERTS_20-21_APLA-Practical_GUILLEMOT-MUDALIAR-main/planning_problem/problem.cpp:64-73 | the relaxed problem has the relaxed domain and the same objects and states |
| Odometer.IncrementCount | PDDL_TOOL/ECN_CORO-ERTS_20-21_APLA-Practical_GUILLEMOT-MUDALIAR-main/solver.cpp:8-15 | incrementing keeps every digit below the base; the top (guard) digit grows by at most one |
| Odometer.IncrementValue | PDDL_TOOL/ECN_CORO-ERTS_20-21_APLA-Practical_GUILLEMOT-MUDALIAR-main/solver.cpp:8-15 | incrementing at digit i adds base^i to the counter's value |
| Odometer.ValueBound | PDDL_TOOL/ECN_CORO-ERTS_20-21_APLA-Practical_GUILLEMOT-MUDALIAR-main/solver.cpp:3-6 | a counter of k digits is below base^k |
| Odometer.GuardValue | PDDL_TOOL/ECN_CORO-ERTS_20-21_APLA-Practical_GUILLEMOT-MUDALIAR-main/solver.cpp:3-6 | the guard digit is 0 exactly while the value is below base^k, and is 1 when the value reaches it |
| Odometer.ValueInjective | PDDL_TOOL/ECN_CORO-ERTS_20-21_APLA-Practical_GUILLEMOT-MUDALIAR-main/solver.cpp:8-15 | two counters of the same length with the same value are equal |
| Odometer.Visit | PDDL_TOOL/ECN_CORO-ERTS_20-21_APLA-Practical_GUILLEMOT-MUDALIAR-main/solver.cpp:79-129 | the counters visited until the guard digit is set have consecutive values up to base^k |
| Odometer.VisitAll | PDDL_TOOL/ECN_CORO-ERTS_20-21_APLA-Practical_GUILLEMOT-MUDALIAR-main/solver.cpp:79-129 | starting from zero, base^k distinct counters are visited, including every counter whose guard digit is 0 |
| Odometer.ArgsOf | PDDL_TOOL/ECN_CORO-ERTS_20-21_APLA-Practical_GUILLEMOT-MUDALIAR-main/solver.cpp:87-88 | argument j is the object named by counter digit k-1-j |
| Odometer.Combos | PDDL_TOOL/ECN_CORO-ERTS_20-21_APLA-Practical_GUILLEMOT-MUDALIAR-main/solver.cpp:79-129 | the loop tries base^k argument tuples, each of k objects |
| Odometer.EveryArgumentTupleTried | PDDL_TOOL/ECN_CORO-ERTS_20-21_APLA-Practical_GUILLEMOT-MUDALIAR-main/solver.cpp:79-129 | every tuple of k objects is among the tried ones |
| Odometer.CounterOf | PDDL_TOOL/ECN_CORO-ERTS_20-21_APLA-Practical_GUILLEMOT-MUDALIAR-main/solver.cpp:87-88 | every tuple of objects is read off some counter whose guard digit is 0 |
| Odometer.ArgsOfInjective | PDDL_TOOL/ECN_CORO-ERTS_20-21_APLA-Practical_GUILLEMOT-MUDALIAR-main/solver.cpp:87-88 | distinct counters give distinct argument tuples when the objects are distinct |
| Odometer.CombosDistinct | PDDL_TOOL/ECN_CORO-ERTS_20-21_APLA-Practical_GUILLEMOT-MUDALIAR-main/solver.cpp:79-129 | no argument tuple is tried twice when the objects are distinct |
| Subsets.First | PDDL_TOOL/ECN_CORO-ERTS_20-21_APLA-Practical_GUILLEMOT-MUDALIAR-main/solver.cpp:214-215 | the first index array is 0..m-1, a valid choice for any goal of at least m facts |
| Subsets.NextShape | PDDL_TOOL/ECN_CORO-ERTS_20-21_APLA-Practical_GUILLEMOT-MUDALIAR-main/solver.cpp:257-268 | the update keeps the prefix before the pivot, bumps the pivot and refills the tail consecutively |
| Subsets.FirstIsLeast | PDDL_TOOL/ECN_CORO-ERTS_20-21_APLA-Practical_GUILLEMOT-MUDALIAR-main/solver.cpp:214-215 | the first array is the lexicographically least choice |
| Subsets.NextIsGreater | PDDL_TOOL/ECN_CORO-ERTS_20-21_APLA-Practical_GUILLEMOT-MUDALIAR-main/solver.cpp:257-268 | the update yields a lexicographically greater array |
| Subsets.NextContinues | PDDL_TOOL/ECN_CORO-ERTS_20-21_APLA-Practical_GUILLEMOT-MUDALIAR-main/solver.cpp:220-221 | after an update the loop condition holds exactly when the new array is a valid choice |
| Subsets.IncreasingNext | PDDL_TOOL/ECN_CORO-ERTS_20-21_APLA-Practical_GUILLEMOT-MUDALIAR-main/solver.cpp:257-268 | the updated array is strictly increasing |
| Subsets.NextIsSuccessor | PDDL_TOOL/ECN_CORO-ERTS_20-21_APLA-Practical_GUILLEMOT-MUDALIAR-main/solver.cpp:257-268 | nothing valid lies strictly between a choice and its update |
| Subsets.RankLex | PDDL_TOOL/ECN_CORO-ERTS_20-21_APLA-Practical_GUILLEMOT-MUDALIAR-main/solver.cpp:220-269 | the lexicographic order of choices is the order of their ranks, which bounds the loop |
| Subsets.Enumerate | PDDL_TOOL/ECN_CORO-ERTS_20-21_APLA-Practical_GUILLEMOT-MUDALIAR-main/solver.cpp:220-269 | the loop visits valid choices of the same size in strictly increasing rank |
| Subsets.EnumerateCovers | PDDL_TOOL/ECN_CORO-ERTS_20-21_APLA-Practical_GUILLEMOT-MUDALIAR-main/solver.cpp:220-269 | every choice not below the start is visited |
| Subsets.EnumerateAll | PDDL_TOOL/ECN_CORO-ERTS_20-21_APLA-Practical_GUILLEMOT-MUDALIAR-main/solver.cpp:214-269 | from the first array, the loop visits exactly the m-subsets of the goal indices, each once |
| Search.Same | PDDL_TOOL/ECN_CORO-ERTS_20-21_APLA-Practical_GUILLEMOT-MUDALIAR-main/solver.cpp:62 | two states compare equal exactly when they hold the same facts |
| Search.Reached | PDDL_TOOL/ECN_CORO-ERTS_20-21_APLA-Practical_GUILLEMOT-MUDALIAR-main/solver.cpp:70 | the goal test holds exactly when every goal fact is present |
| Search.StepsSnoc | PDDL_TOOL/ECN_CORO-ERTS_20-21_APLA-Practical_GUILLEMOT-MUDALIAR-main/solver.cpp:144-169 | a step from the last state extends a chain of steps |
| Search.CoveredExtends | PDDL_TOOL/ECN_CORO-ERTS_20-21_APLA-Practical_GUILLEMOT-MUDALIAR-main/solver.cpp:112-124 | a state in the table stays in it as the table grows |
| Search.CoveredBySame | PDDL_TOOL/ECN_CORO-ERTS_20-21_APLA-Practical_GUILLEMOT-MUDALIAR-main/solver.cpp:60-67 | a state with the facts of a table state is in the table |
| Search.Matches | PDDL_TOOL/ECN_CORO-ERTS_20-21_APLA-Practical_GUILLEMOT-MUDALIAR-main/solver.cpp:60-67 | the lookup tests each entry's state for equality with the current state |
| Search.FindEntry | PDDL_TOOL/ECN_CORO-ERTS_20-21_APLA-Practical_GUILLEMOT-MUDALIAR-main/solver.cpp:60-67 | the lookup yields the first entry holding the state's facts, or none |
| Search.CoveredFound | PDDL_TOOL/ECN_CORO-ERTS_20-21_APLA-Practical_GUILLEMOT-MUDALIAR-main/solver.cpp:60-67 | the lookup finds every state the table holds |
| Search.FindEntryKeeps | PDDL_TOOL/ECN_CORO-ERTS_20-21_APLA-Practical_GUILLEMOT-MUDALIAR-main/solver.cpp:110-124 | growing the table does not move the first match of a state |
| Search.Relax | PDDL_TOOL/ECN_CORO-ERTS_20-21_APLA-Practical_GUILLEMOT-MUDALIAR-main/solver.cpp:108-124 | relaxing a successor keeps the table and the waiting list sound and only appends entries |
| Search.RelaxPushes | PDDL_TOOL/ECN_CORO-ERTS_20-21_APLA-Practical_GUILLEMOT-MUDALIAR-main/solver.cpp:108-124 | a successor is queued exactly when it is new or cheaper than its entry; the table grows exactly for new states |
| Search.RelaxAppends | PDDL_TOOL/ECN_CORO-ERTS_20-21_APLA-Practical_GUILLEMOT-MUDALIAR-main/solver.cpp:120-124 | a state without an entry gets one appended, holding the copy of the current state, the new cost and the label, and is pushed; the old entries stay as they were |
| Search.RelaxReplaces | PDDL_TOOL/ECN_CORO-ERTS_20-21_APLA-Practical_GUILLEMOT-MUDALIAR-main/solver.cpp:108-119 | a state whose entry is costlier gets, in that entry's place, the copy of the current state, the new cost and the label, keeping its state, and is pushed; no other entry changes |
| Search.RelaxCosted | PDDL_TOOL/ECN_CORO-ERTS_20-21_APLA-Practical_GUILLEMOT-MUDALIAR-main/solver.cpp:108-124 | relaxing at the current cost plus the action's cost keeps the cost invariant (each entry's cost covers its predecessor's plus the action's, and no walk back through the predecessors returns to an entry) and the cost recorded for the current state |
| Search.RelaxLowers | PDDL_TOOL/ECN_CORO-ERTS_20-21_APLA-Practical_GUILLEMOT-MUDALIAR-main/solver.cpp:112-116 | relaxing never raises an entry's cost |
| Search.UpdateKeeps | PDDL_TOOL/ECN_CORO-ERTS_20-21_APLA-Practical_GUILLEMOT-MUDALIAR-main/solver.cpp:112-116 | overwriting a dearer entry with the current state as predecessor keeps the table sound |
| Search.AppendKeeps | PDDL_TOOL/ECN_CORO-ERTS_20-21_APLA-Practical_GUILLEMOT-MUDALIAR-main/solver.cpp:120-124 | appending a new state keeps the table sound and the new state is found at the end |
| Search.FrontierAfter | PDDL_TOOL/ECN_CORO-ERTS_20-21_APLA-Practical_GUILLEMOT-MUDALIAR-main/solver.cpp:116-124 | pushing a state of the table keeps every waiting state in the table |
| Search.FrontierPop | PDDL_TOOL/ECN_CORO-ERTS_20-21_APLA-Practical_GUILLEMOT-MUDALIAR-main/solver.cpp:48-49 | the popped state is in the table, and so are the others |
| Search.InsertDesc | PDDL_TOOL/ECN_CORO-ERTS_20-21_APLA-Practical_GUILLEMOT-MUDALIAR-main/solver.hpp:29-35 | inserting into a list sorted by decreasing estimate keeps it sorted and adds exactly the item |
| Search.SortDesc | PDDL_TOOL/ECN_CORO-ERTS_20-21_APLA-Practical_GUILLEMOT-MUDALIAR-main/solver.cpp:132 | sorting yields a permutation ordered by decreasing estimate |
| Search.PopIsCheapest | PDDL_TOOL/ECN_CORO-ERTS_20-21_APLA-Practical_GUILLEMOT-MUDALIAR-main/solver.cpp:48-49 | after the sort, the popped item has the least estimate |
| Search.Astar | PDDL_TOOL/ECN_CORO-ERTS_20-21_APLA-Practical_GUILLEMOT-MUDALIAR-main/solver.cpp:17-173 | a non-empty result path is a plan for the problem whose cost is at least its actions' summed cost; an empty path means no plan was found; with fuel, an initial state that includes the goal gives a non-empty plan; on a problem without deletes the search never aborts |
| Search.Started | PDDL_TOOL/ECN_CORO-ERTS_20-21_APLA-Practical_GUILLEMOT-MUDALIAR-main/solver.cpp:42-43 | the initial table and waiting list are sound |
| Search.Loop | PDDL_TOOL/ECN_CORO-ERTS_20-21_APLA-Practical_GUILLEMOT-MUDALIAR-main/solver.cpp:46-49 | each iteration keeps the result a plan whose cost covers its actions'; with fuel, an empty waiting list gives exactly the empty path and a last waiting state with the goal gives a non-empty plan |
| Search.Turn | PDDL_TOOL/ECN_CORO-ERTS_20-21_APLA-Practical_GUILLEMOT-MUDALIAR-main/solver.cpp:48-74 | a popped state with the goal ends the search with a non-empty reconstructed plan; otherwise the search goes on; a plan's cost covers its actions' |
| Search.Advance | PDDL_TOOL/ECN_CORO-ERTS_20-21_APLA-Practical_GUILLEMOT-MUDALIAR-main/solver.cpp:77-132 | expanding the popped state, reached at a cost no lower than its recorded one, keeps every later result a plan whose cost covers its actions' |
| Search.Resume | PDDL_TOOL/ECN_CORO-ERTS_20-21_APLA-Practical_GUILLEMOT-MUDALIAR-main/solver.cpp:132 | after an expansion the sorted waiting list goes on with the loop, keeping every later result a plan whose cost covers its actions' |
| Search.ExpandActions | PDDL_TOOL/ECN_CORO-ERTS_20-21_APLA-Practical_GUILLEMOT-MUDALIAR-main/solver.cpp:77-130 | expanding by each action keeps the table and the waiting list sound, keeps the cost invariant and leaves the current state's recorded cost as it was |
| Search.ExpandCombos | PDDL_TOOL/ECN_CORO-ERTS_20-21_APLA-Practical_GUILLEMOT-MUDALIAR-main/solver.cpp:85-129 | expanding one action by each argument tuple keeps the table and the waiting list sound, keeps the cost invariant and leaves the current state's recorded cost as it was |
| Search.ExpandOne | PDDL_TOOL/ECN_CORO-ERTS_20-21_APLA-Practical_GUILLEMOT-MUDALIAR-main/solver.cpp:87-127 | one argument tuple: an aborted `apply` stops, the marker state changes nothing, and a valid successor is relaxed keeping the table, the waiting list and the cost invariant sound |
| Search.RelaxSuccessor | PDDL_TOOL/ECN_CORO-ERTS_20-21_APLA-Practical_GUILLEMOT-MUDALIAR-main/solver.cpp:106-124 | relaxing a valid successor at the current cost plus the action's cost keeps the table, the waiting list and the cost invariant, and the current state's recorded cost |
| Search.NeverAborts | PDDL_TOOL/ECN_CORO-ERTS_20-21_APLA-Practical_GUILLEMOT-MUDALIAR-main/solver.cpp:90 | an action of a problem without deletes applies without failing |
| Search.SuccessorStep | PDDL_TOOL/ECN_CORO-ERTS_20-21_APLA-Practical_GUILLEMOT-MUDALIAR-main/solver.cpp:87-106 | a successor `apply` returns is one step from the current state, labelled with the action name and arguments |
| Search.Estimate | PDDL_TOOL/ECN_CORO-ERTS_20-21_APLA-Practical_GUILLEMOT-MUDALIAR-main/solver.cpp:95 | the zero heuristic is 0 and the critical-path one is its cost; the delete-relaxation one never aborts |
| Search.RelaxedFrom | PDDL_TOOL/ECN_CORO-ERTS_20-21_APLA-Practical_GUILLEMOT-MUDALIAR-main/solver.cpp:180-192 | the relaxed problem starts at the given state with the same goal and objects and deletes nothing |
| Search.CriticalCost | PDDL_TOOL/ECN_CORO-ERTS_20-21_APLA-Practical_GUILLEMOT-MUDALIAR-main/solver.cpp:202-272 | h^m on a problem without deletes never aborts |
| Search.SubCosts | PDDL_TOOL/ECN_CORO-ERTS_20-21_APLA-Practical_GUILLEMOT-MUDALIAR-main/solver.cpp:220-242 | one subproblem cost per enumerated subset |
| Search.MaxLoop | PDDL_TOOL/ECN_CORO-ERTS_20-21_APLA-Practical_GUILLEMOT-MUDALIAR-main/solver.cpp:244-246 | the running maximum returns an upper bound of all costs that is one of them (or 0), or an error that occurred |
| Search.CriticalPathBounds | PDDL_TOOL/ECN_CORO-ERTS_20-21_APLA-Practical_GUILLEMOT-MUDALIAR-main/solver.cpp:202-272 | h^m is at least the cost of reaching every m-subset of the goal |
| Search.CriticalPathReached | PDDL_TOOL/ECN_CORO-ERTS_20-21_APLA-Practical_GUILLEMOT-MUDALIAR-main/solver.cpp:202-272 | h^m equals the cost of some m-subset of the goal |
| Search.SubCost | PDDL_TOOL/ECN_CORO-ERTS_20-21_APLA-Practical_GUILLEMOT-MUDALIAR-main/solver.cpp:239-242 | a subproblem search on a problem without deletes never aborts |
| Search.SubProblem | PDDL_TOOL/ECN_CORO-ERTS_20-21_APLA-Practical_GUILLEMOT-MUDALIAR-main/solver.cpp:224-239 | the subproblem starts at the given state; its goal holds exactly the facts at the chosen positions of the goal's copy, read through `Problems.FinalState`, and is a part of the goal |
| Search.Chosen | PDDL_TOOL/ECN_CORO-ERTS_20-21_APLA-Practical_GUILLEMOT-MUDALIAR-main/solver.cpp:224-234 | each chosen index names a fact of the state read, in the slot the index falls in |
| Search.Subgoal | PDDL_TOOL/ECN_CORO-ERTS_20-21_APLA-Practical_GUILLEMOT-MUDALIAR-main/solver.cpp:224-238 | the subgoal holds exactly the facts chosen from the state read, all of them facts of that state |
| Search.ChosenDistinct | PDDL_TOOL/ECN_CORO-ERTS_20-21_APLA-Practical_GUILLEMOT-MUDALIAR-main/solver.cpp:224-238 | different indices choose different facts, in any valid state and so in the goal's copy |
| Search.GoalFactChosen | PDDL_TOOL/ECN_CORO-ERTS_20-21_APLA-Practical_GUILLEMOT-MUDALIAR-main/solver.cpp:224-238 | every goal fact is chosen in `final_state()`'s copy by some index below the goal's size |
| Search.ChosenReadsCopy | PDDL_TOOL/ECN_CORO-ERTS_20-21_APLA-Practical_GUILLEMOT-MUDALIAR-main/planning_problem/problem.cpp:20 | on a goal whose single two-dimensional slot holds (5,5), (3,3), (4,1) added in that order (the state of `States.CopyReorders`), index array [0] chooses (4,1) in the goal itself but (3,3) in the copy `final_state()` returns, which is the one the subgoal receives |
| Search.AddGoalFacts | PDDL_TOOL/ECN_CORO-ERTS_20-21_APLA-Practical_GUILLEMOT-MUDALIAR-main/solver.cpp:224-238 | adding the chosen facts one by one adds exactly them |
| Search.EmptyOf | PDDL_TOOL/ECN_CORO-ERTS_20-21_APLA-Practical_GUILLEMOT-MUDALIAR-main/solver.cpp:208 | the subgoal starts from a state of the goal's layout with no fact |
| Search.Hits | PDDL_TOOL/ECN_CORO-ERTS_20-21_APLA-Practical_GUILLEMOT-MUDALIAR-main/solver.cpp:139 | tests each entry's state against the goal |
| Search.FirstGoal | PDDL_TOOL/ECN_CORO-ERTS_20-21_APLA-Practical_GUILLEMOT-MUDALIAR-main/solver.cpp:139-140 | the reconstruction starts from the first entry that includes the goal |
| Search.EntryLinked | PDDL_TOOL/ECN_CORO-ERTS_20-21_APLA-Practical_GUILLEMOT-MUDALIAR-main/solver.cpp:144-156 | every entry after the first has a real predecessor in the table from which one step reaches it |
| Search.Chain | PDDL_TOOL/ECN_CORO-ERTS_20-21_APLA-Practical_GUILLEMOT-MUDALIAR-main/solver.cpp:144-169 | following predecessors from an entry gives a chain of steps from the initial state to that entry's state; under the cost invariant its actions cost at most the entry's cost, and fuel for the entries below it suffices |
| Search.ChainTerminatesIf | PDDL_TOOL/ECN_CORO-ERTS_20-21_APLA-Practical_GUILLEMOT-MUDALIAR-main/solver.cpp:144-156 | under the cost invariant the walk back with one step per entry reaches the initial state |
| Search.Reconstruct | PDDL_TOOL/ECN_CORO-ERTS_20-21_APLA-Practical_GUILLEMOT-MUDALIAR-main/solver.cpp:136-170 | the reconstructed path is a plan whose cost is the cost of the goal entry found first; under the cost invariant it is always built and that cost covers its actions' |

## Left out

- Parsing of PDDL text (parser.cpp, parser.hpp) is not part of this model. Domains and problems are built with the builder functions.
- Printing and debug output of the solver (solver.cpp:51-56, 97-104) are left out, as they do not affect the result.
- Memory management is left out: raw arrays, parent pointers, `delete`, `kdt::set_dimension`, `problem::delete_domain` and the problem's copy constructor. All values are immutable here.
- `kdt::query` is not modelled; the core does not use it.
- KdTree.EraseAt: the two-children case of the source's erase (kdt.hpp:219-231) is not modelled node by node. The corrected erase rebuilds the removed node's subtrees, so its contract is stated on the element set.
- KdTree.EraseAsWritten, KdTree.EraseAtAsWritten: modelled only for erases whose found node has at most one child (`SplicesOnly`); the two-children case of the source (kdt.hpp:219-231) is not modelled as written.
- Assertions of the source (`assert` in `apply`, `erase` and `critical_path`) become preconditions, except the erase-of-a-missing-fact assertion, which becomes an `Aborted` error.
- Search.Astar: requires at least two objects. With one object the argument counter's carry runs past its guard digit, and with none the modulo divides by zero.
- The source leaves the argument counter's guard digit uninitialised (solver.cpp:79-82); the model starts it at 0.
- 0-arity predicates are not modelled in states: the source stores their empty tuple in the dimension-1 slot 0 and then reads its first coordinate. The model requires each fact's length to equal its slot's dimension.
- Search.CriticalCost: power 0 is excluded, since `critical_path` then indexes before its array.
- Search.SortDesc: the source sorts with `std::sort`, which is not stable; the model fixes one order of equal estimates (an insertion sort). Which equal-estimate state is popped first is therefore not modelled.
- Search.Astar: the search and the heuristics take a fuel bound; a run that needs more iterations than the fuel gives `OutOfFuel`. Termination of the unbounded search is not proved. The walk back through the predecessors is proved to finish within one step per entry (`Search.ChainTerminatesIf`), and `Search.Loop` and `Search.Turn` state when a plan or the empty path is returned once fuel is left; a search that expands states may still run out of fuel.
- Search.Astar: does not prove that the plan is a cheapest one, nor that its cost equals the sum of its actions' costs: an entry whose predecessor's entry is later lowered keeps its old cost, so the contract states that the reported cost is at least that sum.
- Costs are unbounded integers; the source's wrap-around of unsigned 32-bit sums is not modelled.
- The domain is held by pointer in the source, so `add_object` may register a symbol in a domain several problems share. Here each problem owns its domain value.
- Symbols are natural numbers. The source's `std::map` of actions iterates by name; the model visits actions in increasing symbol order (Domains.SortedKeys).
- The example programs (documentation/examples) are not proved as concrete runs: doing so would need the whole search to be evaluated on concrete inputs.
- Actions.DeleteRelax: states which effects are kept, not their order in the list.
- Domains.DeleteRelax: the source's relaxed domain copy does not copy the constants; the model does the same (`constants == []`).
- Domains.AddConstant: as in the source, a constant is appended without being registered as a symbol.
- Search.Estimate: the delete-relaxation heuristic's value is only stated not to abort; its relation to an optimal relaxed plan is not stated, since the search's optimality is not proved.

## Findings

| source | as written | input that shows it | evidently intended | confidence | as-written member | corrected member |
|---|---|---|---|---|---|---|
| PDDL_TOOL/ECN_CORO-ERTS_20-21_APLA-Practical_GUILLEMOT-MUDALIAR-main/data_structures/kdt.hpp:207-218 | erasing a node with one child moves that child's subtree up one level, so its nodes are now compared on a different coordinate | a 2-d tree built by inserting [5,5], [3,3], [4,1]; erase [5,5]; then contains([4,1]) is false although [4,1] is stored | erase removes only the value and every other stored value stays findable | not executed | KdTree.EraseAsWritten, KdTree.SpliceLosesValue | KdTree.Erase, KdTree.EraseCorrect |
| PDDL_TOOL/ECN_CORO-ERTS_20-21_APLA-Practical_GUILLEMOT-MUDALIAR-main/planning_problem/state.cpp:69-81 | `empty()` accumulates the negation of each tree's `empty()`, so it is true when every slot holds a fact | a state in which every slot holds a fact: `empty()` is true, so the search (solver.cpp:93) drops this successor. The walk back (solver.cpp:144) stops at the first entry whose predecessor reports empty; only the initial state can be such a predecessor, since full successors never enter the table, so when every slot of the initial state holds a fact the reconstructed plan starts at the initial state's successor, without the initial state and the first action. `Search.Chain` uses the intended test at that point too. Slot 0 holds only 0-arity facts, so in the source this needs a domain with a 0-arity predicate that holds, together with a fact in every other slot; the model's witness is a state with two dimension-1 slots holding [3] and [4] | true only for the tree-less state that `apply` returns when a precondition fails | not executed | States.EmptyAsWritten, States.FullStateReportedEmpty | States.IsNoState, States.EmptyAsWrittenAgrees |
| PDDL_TOOL/ECN_CORO-ERTS_20-21_APLA-Practical_GUILLEMOT-MUDALIAR-main/planning_problem/action.cpp:113-142 | a conditional block's effects are applied inside the loop over its preconditions, once after each precondition that keeps the running conjunction true | block with preconditions p(x), not p(x) and effect q(x), on a state with p(7), x = 7: q(7) is added; a block with a repeated precondition and a delete effect erases twice and fails the erase assertion | the effects apply once, after the loop, when all preconditions hold | not executed | Actions.ApplyAsWritten, Actions.PartialBlockFires, Actions.RepeatedBlockAborts | Actions.Apply, Actions.SinglePrecondActionsAgree |
