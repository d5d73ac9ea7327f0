# Automated warehouse simulator, modelled in Dafny

This project models the discrete core of the automated-warehouse simulator:

- **the grid search problem** (`Location2D`, `Action`, `CellType`, `Grid2D`);
- **the priority queue with decrease-key** and the reversal of a predecessor table into a navigation policy;
- **Dijkstra's algorithm** from one or more seeds, and `MultiPolicy`, one run per seed;
- **the `Robot` state machine** (picking up, delivering, resting);
- **the scheduler of `ConsoleSimulator`**: `_get_cells`, `_get_package`, `_get_optimal_rest`, `_get_policies`, `_new_packages` and one iteration of the `while True` loop of `run`, without the printing and the pause.

Files:
- `prelude.dfy`: `Option`, `Result`, and `FirstMin`, the "first minimal element" rule of `min(iterable, key=...)`.
- `problems.dfy`: locations, actions, the grid and its successor function, all pure.
- `util.dfy`: the `PriorityQueue` class, whose `Update` and `Pop` change the entry list in place, and `ReversePolicy`.
- `search.dfy`: the `Dijkstra` method, over a `PriorityQueue` object, proved to return a shortest-path tree rooted at the seeds (the tree property is defined below); `MultiPolicy`.
- `models.dfy`: `Package`, the `Robot` class, and `RobotState`, a value copy of a robot's fields. The robot's methods are specified by functions on `RobotState`.
- `simulators.dfy`: the `Simulator` class and the selection rules. One loop iteration is specified as a function `TickFrom` of a `World` (the package dictionary and the robot states), which the methods are proved to follow.

Python exceptions are explicit outcomes rather than preconditions:
- a missing dictionary key raises `KeyError`;
- `min` of an empty list and `list.remove` of an absent value raise `ValueError`;
- `self.package.location` on a robot without a package raises `AttributeError`.

A Python dictionary that the code iterates in order becomes a sequence of items in insertion order (the package dictionary); one used only for lookup becomes a `map`.

Dijkstra's costs are unit steps, so the queue behaves as a breadth-first frontier. The proof carries a ghost `level`, the cost last popped. A location, once recorded, is never improved. The returned table is a shortest-path tree, made of three properties:
- every seed maps to `(None, None, 0)`;
- every other key names a recorded predecessor, the action leading from it, and a cost one more than the predecessor's;
- every location reachable from a seed through free cells is recorded, at a cost no larger than any path to it.

## Model

| member | source | states |
|---|---|---|
| Prelude.FirstMin | practices/automated_warehouse/simulators.py:155 | `min(s, key=...)`: a minimal element, and no element before it has the same key. |
| Problems.Reverse | projects/automated_warehouse/problems.py:89-95 | `reverse` pairs N with S and E with W, in both directions, and never returns its argument. |
| Problems.ReverseIsInvolution | projects/automated_warehouse/problems.py:62-95 | `reverse` is an involution with no fixed point; it pairs N with S and E with W. |
| Problems.Apply | projects/automated_warehouse/problems.py:76-81 | Definition of `Action.apply`: add the action's `(dy, dx)`. Characterised by `ApplyMovesOneCell`. |
| Problems.ApplyMovesOneCell | projects/automated_warehouse/problems.py:67-81 | N is y-1, E is x+1, S is y+1, W is x-1; the result is a neighbour. |
| Problems.ApplyThenReverse | projects/automated_warehouse/problems.py:76-92 | Applying an action and then its reverse restores the location. |
| Problems.Contains | projects/automated_warehouse/problems.py:154-157 | Definition of `__contains__`: `0 <= y < rows` and `0 <= x < cols`, with the width taken from row 0. |
| Problems.IsFree | projects/automated_warehouse/problems.py:150-152 | Definition of `_is_free`: in bounds and the cell at row y, column x is FREE. |
| Problems.GridApply | projects/automated_warehouse/problems.py:128-130 | `Grid2D.apply` returns the neighbour exactly when it is in bounds and FREE, else None. |
| Problems.GetActions | projects/automated_warehouse/problems.py:147-148 | Definition of `_get_actions`: the comprehension over the actions, keeping those `apply` does not map to None. Characterised by the three `GetActions` lemmas. |
| Problems.GetSuccessors | projects/automated_warehouse/problems.py:135-141 | Definition of `get_successors`: one `(apply(state), action, 1)` per kept action. Characterised by `GetSuccessorsExact`. |
| Problems.GetInitialState | projects/automated_warehouse/problems.py:132-133 | Definition of `get_initial_state`: the seeds the problem was built with. |
| Problems.GetActionsExact | projects/automated_warehouse/problems.py:147-148 | The kept actions are exactly those leading to a free cell, in the given order. |
| Problems.GetActionsMembers | projects/automated_warehouse/problems.py:147-148 | Membership half of the filter: an action is kept iff it leads to a free cell. |
| Problems.GetActionsInOrder | projects/automated_warehouse/problems.py:147-148 | Order half of the filter: the kept actions stay in declaration order. |
| Problems.GetSuccessorsExact | projects/automated_warehouse/problems.py:135-148 | Successors are exactly the free neighbours, in N, E, S, W order, each `(apply(state), action, 1)`. The state itself need not be free. |
| Problems.SuccessorOfNeighbour | projects/automated_warehouse/problems.py:135-152 | Every free neighbour appears among the successors. |
| Util.Updated | practices/automated_warehouse/util.py:31-44 | Definition of the new list and counter after `update`, the item at the first lowerable entry (`FirstLowerable`) or else appended. Characterised by the `Update` lemmas. |
| Util.FirstLowerable | practices/automated_warehouse/util.py:36-37 | The first entry that `update` would lower, or None when there is none. |
| Util.MinIndex | practices/automated_warehouse/util.py:28 | The least entry by `(priority, padding)`. |
| Util.RemoveAt | practices/automated_warehouse/util.py:38 | `del queue[i]` shifts the later entries down by one. |
| Util.PriorityQueue.constructor | practices/automated_warehouse/util.py:14-21 | The queue starts empty with counter 0. |
| Util.PriorityQueue.IsNonEmpty | practices/automated_warehouse/util.py:46-47 | `__bool__` is true iff an entry remains. |
| Util.PriorityQueue.Update | practices/automated_warehouse/util.py:31-44 | The for-else scan: lower the first higher entry, or append a new entry under the counter and advance the counter. Valid stays. |
| Util.PriorityQueue.Pop | practices/automated_warehouse/util.py:23-29 | Removes the least entry and returns its item; popping an empty queue is ruled out by a precondition. |
| Util.UpdatedKeepsValid | practices/automated_warehouse/util.py:36-44 | Paddings stay distinct and below the counter. |
| Util.UpdateInserts | practices/automated_warehouse/util.py:42-44 | With no higher entry for the item, one entry is appended and the counter advances by 1. |
| Util.UpdateLowersFirst | practices/automated_warehouse/util.py:36-41 | Only the first higher entry is lowered; it keeps its padding, and the size and counter are unchanged. |
| Util.UpdateNoBetterDuplicates | practices/automated_warehouse/util.py:36-44 | An item already stored at a lower or equal priority gets a duplicate entry. |
| Util.PopIsLeast | practices/automated_warehouse/util.py:23-29 | The popped entry precedes every other, so equal priorities leave in insertion order. |
| Util.SuccessivePops | practices/automated_warehouse/util.py:23-29 | Two pops in a row come out in `(priority, padding)` order. |
| Util.ReversePolicy | practices/automated_warehouse/util.py:65-75 | The keys of the input; None where no action is recorded, else the reversed action. |
| Search.Dijkstra | practices/automated_warehouse/search.py:30-46 | The result is a shortest-path tree rooted at the seeds. |
| Search.Seed | practices/automated_warehouse/search.py:36-38 | Every seed is recorded as `(None, None, 0)` and queued at priority 0; the loop invariant holds. |
| Search.SeededStep | practices/automated_warehouse/search.py:36-38 | Seeding one state records it and appends its entry, with no entry lowered. |
| Search.SeedsEstablish | practices/automated_warehouse/search.py:36-39 | After seeding, the main loop's invariant holds at level 0. |
| Search.PopStarts | practices/automated_warehouse/search.py:39-40 | The popped cost is at least the level, and the inner-loop invariant starts. |
| Search.Relax | practices/automated_warehouse/search.py:41-45 | Relaxing every successor restores the main invariant, and the table grows or the queue shrinks. |
| Search.RelaxOne | practices/automated_warehouse/search.py:42-45 | When `cost + 1` beats the successor's recorded cost (infinite when absent, as the `defaultdict` supplies), the table records `(state, action, cost + 1)` and one entry is appended under the counter. Otherwise the table, the queue and the counter are unchanged. The inner invariant holds. |
| Search.RelaxNew | practices/automated_warehouse/search.py:43-45 | A new location is appended to the queue, recorded at cost + 1, and shrinks the unrecorded free cells. |
| Search.RelaxNewKeepsInv | practices/automated_warehouse/search.py:43-45 | Recording a new successor keeps the inner invariant. |
| Search.RelaxNewLinks | practices/automated_warehouse/search.py:43-44 | The new record is a consistent tree link, and the seeds stay roots. |
| Search.RelaxNewExpanded | practices/automated_warehouse/search.py:43-45 | Every key is still queued, being expanded, or expanded. |
| Search.RelaxNewEntries | practices/automated_warehouse/search.py:45 | Every queue entry still matches its record. |
| Search.NotImproved | practices/automated_warehouse/search.py:43 | A recorded successor is never beaten by `cost + 1`, so stored costs never change. |
| Search.RelaxOld | practices/automated_warehouse/search.py:43 | An unimproved successor leaves the invariant intact. |
| Search.RelaxDone | practices/automated_warehouse/search.py:41-45 | After all successors the state is expanded. |
| Search.PathCovered | practices/automated_warehouse/search.py:39-46 | With every key expanded, every path's end is recorded at a cost no larger than its length. |
| Search.Finishes | practices/automated_warehouse/search.py:39-46 | An empty frontier means the table is a shortest-path tree. |
| Search.TraceBack | practices/automated_warehouse/search.py:41-44 | Following predecessors from a key gives a path from a seed whose length is the recorded cost. |
| Search.CostIsShortest | practices/automated_warehouse/search.py:30-46 | A recorded cost is the length of a path and at most the length of any path. |
| Search.RecordedIffReachable | practices/automated_warehouse/search.py:30-46 | A location is a key iff some path from a seed reaches it. |
| Search.TreesAgree | practices/automated_warehouse/search.py:61-64 | Two shortest-path trees of one problem have the same keys and costs. |
| Search.ReversedPolicyStepsBack | practices/automated_warehouse/util.py:65-75 | The reversed action of a non-seed steps to its predecessor, one cost lower; seeds get None. |
| Search.WalkReachesSeed | practices/automated_warehouse/util.py:65-75 | Following the reversed policy from a key for its cost in moves reaches a seed. |
| Search.WalkOneMove | practices/automated_warehouse/util.py:73 | One move of the reversed policy, then the rest of the walk. |
| Search.MultiPolicy | practices/automated_warehouse/search.py:54-64 | One table per initial state, each a shortest-path tree from that state alone. |
| Search.SingleSeedTreesExtend | practices/automated_warehouse/search.py:61-64 | Adding one single-seed tree keeps all trees single-seed shortest-path trees. |
| Models.NewRobot | practices/automated_warehouse/models.py:27-38 | Definition of the fields of `Robot(location)`. |
| Models.RobotState.IsFree | practices/automated_warehouse/models.py:44-49 | Definition of `is_free`: no package. |
| Models.RobotState.IsGoingToRest | practices/automated_warehouse/models.py:51-56 | Definition of `is_going_to_rest`: a rest target is set. |
| Models.RobotState.PolicyStep | practices/automated_warehouse/models.py:71-95 | Definition of `_policy_step` on the fields: lookup, None action, stop test, mode change or move. Characterised by `NoActionNoChange`, `MovesOneCell`, `PickupCompletes` and `DeliveryCompletes`. |
| Models.RobotState.Step | practices/automated_warehouse/models.py:58-69 | Definition of `step`: the policy of the first active mode, or nothing. Characterised by `IdleStepIsNoOp`, `StepKeepsValid`, `StepIsLocal` and `StepPackage`. |
| Models.RobotState.Prepare | practices/automated_warehouse/models.py:97-109 | Definition of `prepare` on the fields. Characterised by `PrepareStartsPickup`. |
| Models.RobotState.SetRest | practices/automated_warehouse/models.py:111-119 | Definition of `set_rest` on the fields. Characterised by `SetRestKeepsPackage`. |
| Models.Robot.constructor | practices/automated_warehouse/models.py:27-38 | A new robot: no package or rest, empty policies, both flags clear. |
| Models.Robot.IsFree | practices/automated_warehouse/models.py:44-49 | `is_free` iff there is no package. |
| Models.Robot.PolicyStep | practices/automated_warehouse/models.py:71-95 | The fields and the result follow `RobotState.PolicyStep`. |
| Models.Robot.Step | practices/automated_warehouse/models.py:58-69 | The fields and the result follow `RobotState.Step`. |
| Models.Robot.Prepare | practices/automated_warehouse/models.py:97-109 | The fields follow `RobotState.Prepare`. |
| Models.Robot.SetRest | practices/automated_warehouse/models.py:111-119 | The fields follow `RobotState.SetRest`. |
| Models.PrepareStartsPickup | practices/automated_warehouse/models.py:97-109 | `prepare` stores the package and both policies, clears the rest and its policy, sets picking-up and clears delivering. |
| Models.SetRestKeepsPackage | practices/automated_warehouse/models.py:111-119 | `set_rest` stores the rest and its policy, clears both flags, and keeps the package and the location. |
| Models.IdleStepIsNoOp | practices/automated_warehouse/models.py:64-69 | A robot in no mode is unchanged and `step` returns None. |
| Models.NoActionNoChange | practices/automated_warehouse/models.py:79-95 | A location missing from the active policy raises KeyError, and a None action changes nothing. |
| Models.MovesOneCell | practices/automated_warehouse/models.py:79-95 | Without a stop, the robot moves exactly one cell along the action and nothing else changes. |
| Models.PickupCompletes | practices/automated_warehouse/models.py:82-86 | `step` returns package p iff the robot is picking up p and the next cell is p's rack; it then switches to delivering. |
| Models.DeliveryCompletes | practices/automated_warehouse/models.py:87-89 | At the end of a delivery the package is dropped and the robot is free. |
| Models.StepKeepsValid | practices/automated_warehouse/models.py:58-95 | A step never sets both flags, and a flag always comes with a package. |
| Models.StepIsLocal | practices/automated_warehouse/models.py:79-95 | A step stays put or moves to a neighbour, changing only the location. |
| Models.StepPackage | practices/automated_warehouse/models.py:83-89 | The package only ever changes by being dropped at the end of a delivery. |
| Models.RestIsNeverCleared | practices/automated_warehouse/models.py:90-92 | With a rest policy that has no action at the rest cell, the rest target is never cleared. |
| Simulators.GetCells | practices/automated_warehouse/simulators.py:129-138 | Definition of the `_get_cells` comprehension, row by row. Characterised by `GetCellsExact`. |
| Simulators.GetCellsExact | practices/automated_warehouse/simulators.py:129-138 | `_get_cells` lists exactly the cells of the type, as `Location2D(column, row)`, in row-major order, without repeats. |
| Simulators.RowCellsExact | practices/automated_warehouse/simulators.py:134-138 | One row of the comprehension: its cells of the type from column j on. |
| Simulators.CellsFromExact | practices/automated_warehouse/simulators.py:134-138 | The rows from i on, in row-major order. |
| Simulators.MarkTaken | practices/automated_warehouse/simulators.py:98 | Definition of `packages[p] = True` on the item sequence. Characterised by `MarkTakenKeeps`. |
| Simulators.Delete | practices/automated_warehouse/simulators.py:108 | Definition of `del packages[p]`, None for a missing key. Characterised by `DeleteRemoves`. |
| Simulators.Untaken | practices/automated_warehouse/simulators.py:154 | Definition of `[pkg for pkg, taken in packages.items() if not taken]`. |
| Simulators.GetPackage | practices/automated_warehouse/simulators.py:140-155 | Definition of `_get_package`. Characterised by `GetPackageSpec`. |
| Simulators.KeyIndex | practices/automated_warehouse/simulators.py:98 | The position of a dictionary key, or None exactly when it is absent. |
| Simulators.MarkTakenKeeps | practices/automated_warehouse/simulators.py:98 | `packages[p] = True` keeps the keys and their order and sets only p's value. |
| Simulators.DeleteRemoves | practices/automated_warehouse/simulators.py:108 | `del packages[p]` removes exactly p. Every other key keeps its taken flag, and the untaken packages keep their order with p filtered out. An absent key raises. |
| Simulators.GetPackageSpec | practices/automated_warehouse/simulators.py:140-155 | None iff every package is taken; otherwise an untaken package of least cost, the first in dictionary order on ties. |
| Simulators.RemoveHeld | practices/automated_warehouse/simulators.py:174-177 | Definition of the removal loop over the robots. Characterised by `RemoveHeldSpec`. |
| Simulators.OptimalRest | practices/automated_warehouse/simulators.py:168-179 | Definition of `_get_optimal_rest` as written. Characterised by `OptimalRestSpec`. |
| Simulators.RemoveFirst | practices/automated_warehouse/simulators.py:177 | `list.remove`: one copy fewer; an absent value raises. |
| Simulators.RemoveHeldSpec | practices/automated_warehouse/simulators.py:174-177 | The removal loop succeeds iff every held target has its own copy; it leaves the unheld copies and otherwise raises ValueError. |
| Simulators.OptimalRestSpec | practices/automated_warehouse/simulators.py:168-179 | None for a robot holding a rest target or already on a rest cell. Otherwise an unheld rest cell nearest to the last robot of the list; ValueError when none is left. |
| Simulators.RemoveHeldFails | practices/automated_warehouse/simulators.py:174-177 | Once the removal loop has raised on a prefix of the robots, the whole loop raises the same error. |
| Simulators.ChosenRestIsUnheld | practices/automated_warehouse/simulators.py:174-179 | With distinct rest cells, no robot already holds the chosen one. |
| Simulators.MeasuredFromLastRobot | practices/automated_warehouse/simulators.py:175-178 | Example: the distance is measured from the last robot, not from the argument. |
| Simulators.Simulator.GetOptimalRest | practices/automated_warehouse/simulators.py:168-179 | The copy-and-remove loop computes `OptimalRest` over the robots' current fields. |
| Simulators.GetPolicies | practices/automated_warehouse/simulators.py:157-166 | One policy per target: the reversal of that target's single-seed shortest-path tree. |
| Simulators.RouteLeadsToTarget | practices/automated_warehouse/simulators.py:157-166 | A stored policy has no action at its target, leads there from every location it knows, and knows exactly the locations reachable from the target. |
| Simulators.AddPackagePolicy | practices/automated_warehouse/simulators.py:187-190 | One comprehension entry: package p gets the policy of the search seeded at its rack alone. |
| Simulators.PackageRoutesExtend | practices/automated_warehouse/simulators.py:187-190 | Adding that entry keeps every package's policy a reversed single-seed tree. |
| Simulators.Simulator.NewPackages | practices/automated_warehouse/simulators.py:181-190 | The dictionary is the untaken batch, and the policies' keys are exactly the batch. |
| Simulators.Fresh | practices/automated_warehouse/simulators.py:112-120 | The new dictionary's keys are exactly the batch's packages, all untaken, in batch order. |
| Simulators.FreshIsDictionary | practices/automated_warehouse/simulators.py:112-120 | With distinct racks, the keys are distinct and are exactly the batch, all untaken. |
| Simulators.CreateRobots | practices/automated_warehouse/simulators.py:122-127 | One new, distinct robot per given location. |
| Simulators.Simulator.constructor | practices/automated_warehouse/simulators.py:58-83 | Belts are the BELT cells. Belt and rest policies are reversed single-seed trees, one per target, and the run state is empty. |
| Simulators.Simulator.StartRun | practices/automated_warehouse/simulators.py:85-87 | Fresh robots at the given cells, and no package policies yet. |
| Simulators.Simulator.StartTick | practices/automated_warehouse/simulators.py:89-92 | A new batch and its policies exactly when the dictionary is empty and every robot is free; otherwise nothing changes. |
| Simulators.Simulator.AssignRobot | practices/automated_warehouse/simulators.py:95-106 | A free robot takes `_get_package`'s package, or else `_get_optimal_rest`'s rest cell; a busy robot is untouched. |
| Simulators.Simulator.GivePackage | practices/automated_warehouse/simulators.py:97-103 | Marks the package taken, then raises KeyError on a missing policy or calls `prepare`. |
| Simulators.Simulator.PrepareRobot | practices/automated_warehouse/simulators.py:99-103 | `prepare` on robot i; the other robots keep their fields. |
| Simulators.Simulator.SendToRest | practices/automated_warehouse/simulators.py:105-106 | Passes on the rest search's exception, does nothing on None, raises KeyError on a rest cell without a policy, or calls `set_rest`. |
| Simulators.Simulator.SetRestRobot | practices/automated_warehouse/simulators.py:106 | `set_rest` on robot i; the other robots keep their fields. |
| Simulators.Simulator.StepOne | practices/automated_warehouse/simulators.py:107-108 | `robot.step()`, then the returned package is deleted from the dictionary. |
| Simulators.Simulator.StepRobotAt | practices/automated_warehouse/simulators.py:107 | `robot.step()` on robot `i` only: its new state and its result are those of `RobotState.Step`, and every other robot keeps its state. |
| Simulators.Simulator.AfterStepOne | practices/automated_warehouse/simulators.py:107-108 | The deletion after the step: the new dictionary and the raised error are those of `AfterStep`. |
| Simulators.Simulator.HandleRobot | practices/automated_warehouse/simulators.py:94-108 | One robot's turn: its assignment, then its step unless the assignment raised. |
| Simulators.Simulator.RobotTurn | practices/automated_warehouse/simulators.py:94-108 | The rest of the iteration either ends with this robot's exception or goes on at the next robot. |
| Simulators.Simulator.RunRobots | practices/automated_warehouse/simulators.py:94-108 | The robot loop computes `TickFrom` from robot 0. |
| Simulators.Simulator.Tick | practices/automated_warehouse/simulators.py:88-108 | One loop iteration: the batch test, then every robot in list order. Package policies are replaced only when a batch is due. Distinct keys and consistent robot flags carry over to the next iteration. |
| Simulators.StartOfTick | practices/automated_warehouse/simulators.py:89-92 | Definition of the batch test on the world. Characterised by `NewBatchOnlyWhenIdle`. |
| Simulators.AssignPackage | practices/automated_warehouse/simulators.py:98-103 | Definition of marking the package taken, then the two policy lookups and `prepare`. Characterised by `FreeRobotServed`. |
| Simulators.AssignRest | practices/automated_warehouse/simulators.py:105-106 | Definition of the rest branch: the rest search, the policy lookup and `set_rest`. |
| Simulators.Assign | practices/automated_warehouse/simulators.py:95-106 | Definition of the assignment of a free robot: a package first, else a rest. Characterised by `AssignKeepsOk` and `FreeRobotServed`. |
| Simulators.AfterStep | practices/automated_warehouse/simulators.py:107-108 | What follows the step: the robots are left as they are, and no error is raised exactly when the step succeeded and a returned package is a key of the dictionary (otherwise the step's exception or `KeyError`). |
| Simulators.StepRobot | practices/automated_warehouse/simulators.py:107-108 | Definition of the step and the deletion of a returned package. Characterised by `StepRobotKeepsOk` and `PackageLeavesOnPickup`. |
| Simulators.ProcessRobot | practices/automated_warehouse/simulators.py:94-108 | Definition of one robot's turn: the assignment, then the step unless it raised; the number of robots is kept. Characterised by `ProcessRobotIsLocal`. |
| Simulators.TickFrom | practices/automated_warehouse/simulators.py:94-108 | Definition of the robot loop from robot i: turns in list order up to the first exception. Characterised by `TickFromNext`, `TickKeepsOk` and `TickFromKeepsEarlier`. |
| Simulators.TickFromNext | practices/automated_warehouse/simulators.py:94-108 | Unfolds the iteration by one robot: its turn, then the robots after it. |
| Simulators.NewBatchOnlyWhenIdle | practices/automated_warehouse/simulators.py:89-92 | The batch test changes nothing unless the dictionary is empty and all robots are free. Then the dictionary is exactly the batch, untaken. |
| Simulators.AssignKeepsOk | practices/automated_warehouse/simulators.py:95-106 | The assignment keeps the dictionary's keys and the robots' flag consistency. |
| Simulators.StepRobotKeepsOk | practices/automated_warehouse/simulators.py:107-108 | The step and the deletion keep the keys distinct and the flags consistent. |
| Simulators.TickKeepsOk | practices/automated_warehouse/simulators.py:94-108 | A whole iteration keeps the keys distinct and no robot both picking up and delivering, even when it raises. |
| Simulators.ProcessRobotIsLocal | practices/automated_warehouse/simulators.py:94-108 | A robot's turn changes no other robot. |
| Simulators.TickFromKeepsEarlier | practices/automated_warehouse/simulators.py:94-108 | The robots are handled in list order: later turns leave earlier robots alone. |
| Simulators.FreeRobotServed | practices/automated_warehouse/simulators.py:95-103 | A free robot facing an untaken package takes the cheapest, first on ties. It is marked taken, and the robot then picks it up unless a policy lookup raises KeyError. |
| Simulators.PackageLeavesOnPickup | practices/automated_warehouse/simulators.py:107-108 | A package leaves the dictionary exactly when the step hands it back at pickup, and the robot then carries it. Otherwise the keys are unchanged. |
| Simulators.TwoRobotsOneRest | practices/automated_warehouse/simulators.py:88-108 | Example: with an empty batch, two free robots and one rest cell, the batch test fires and the first iteration raises ValueError at robot 1, for any package cost. |

## Left out

- The `heapq` heap layout: the queue is the entry list in the order entries were placed, with the least `(priority, padding)` entry found by a scan. Which entry `update` lowers first follows the modelled order, not the heap order. In `Dijkstra.run` the two agree, because an item's priority is its own cost, so `update` never lowers an entry there.
- The `initial` parameter of `PriorityQueue.__init__`: `Dijkstra.run` never passes one.
- Floating point. `util.distance` in `_get_optimal_rest` becomes the integer squared distance, which has the same minimum and ties. The cost in `_get_package` is a parameter `cost(location, package)`. The step cost `_cost` between cardinal neighbours is the constant 1.
- `util.read_map`, `_print`, `time.sleep`, the `Icon` and `char_map` tables and `Action.get_icon` (file I/O, rendering, timing). The map is given as a grid of `CellType`.
- `random.sample` and `random.choice` in `_create_packages` and `_create_robots`. The batch and the robot locations are inputs. That a batch's packages have distinct racks is a precondition (`DistinctLocations`) where a lemma needs it.
- The unbounded `while True` of `run`: one iteration is modelled (`Simulator.Tick`). Only `WorldOk` (distinct keys, consistent robot flags) is proved to carry from one iteration to the next; nothing is proved about the run as a whole.
- Map rows of different widths: `Rectangular` is a precondition wherever the grid is indexed. The source reads `len(grid[0])` as the width for every row.
- Robot.rest_policy: `__post_init__` sets an attribute `_rest_policy` that nothing reads; `step` reads `rest_policy`, which only `prepare` and `set_rest` create. The model starts `restPolicy` empty, because a robot enters its rest branch only after `set_rest`.
- `CellType.BELT` is not in the `CellType` shown in `problems.py`, but the simulator uses it. It is modelled as one more non-free cell type.
- Errors: each raised exception is one of `KeyError`, `ValueError` or `AttributeError`. An `AttributeError` on None and a `TypeError` are not distinguished.
- TwoRobotsOneRest: the example's batch is empty (`n_packages` is 0). With a non-empty batch the first robot would take a package instead, so the example does not cover that case.
- Search.Dijkstra: the predecessor recorded for a location is the first one found in queue order. The contract says only that it is some recorded neighbour one step cheaper, not which of several equal candidates is chosen.
- Search.MultiPolicy: each table is stated to be a shortest-path tree from its seed alone. Two such trees agree on keys and costs (`TreesAgree`) but may choose different predecessors among equals.

Behaviour of the code as written, kept in the model:
- In `_get_optimal_rest` the loop variable `robot` shadows the argument, so the distance is measured from the last robot of the list (`MeasuredFromLastRobot`).
- `min` raises ValueError when a free robot that holds no rest target and stands on no rest cell finds every rest cell held (`OptimalRestSpec`, and the example `TwoRobotsOneRest`).
- The rest stop condition `cur == rest` compares the current location after a move is chosen. With a reversed single-seed policy there is no move at the rest cell itself, so a resting robot keeps its target (`RestIsNeverCleared`).
