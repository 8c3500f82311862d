# Verified model of a scheduling optimizer and three search demonstrations

This project is a Dafny model of four small Python programs, with proofs about the model.

- **NSGA-II job sequencing** (`usecase1_ait.py`). This is a multi-objective genetic search over orders of jobs on one machine.
  - A job order is scored by total completion time and total tardiness.
  - Orders are recombined by order crossover and changed by swap mutation.
  - The population is ranked into Pareto fronts by the fast non-dominated sort.
  - Within a front, individuals are spread by crowding distance.
  - Parents are chosen by binary tournament.
  - The search returns the final population, its objective vectors and the indices of its first front.
- **A\* on a grid** (`usecase2_ait.py`). The search uses unit moves and the Manhattan heuristic.
- **Hill climbing for the travelling salesman problem** (`task2_ait.py`). It swaps positions of a tour while that lowers the tour cost. The same file has a generator of random integer lists.
- **Breadth-first and depth-first traversal** of a graph given as adjacency lists (`task1_ait.py`).

The modules are:

- `Sequences`: no repeated element, and reversal.
- `Permutations`: job orders as permutations of `0 .. n-1`.
- `Evaluation`: `evaluate`.
- `GeneticOperators`: `order_crossover` and `mutation`.
- `Dominance`: `dominates` and `fast_sort`.
- `Crowding`: `crowding`.
- `Nsga2`: `nsga2`, its `select` and its offspring loop.
- `AStar`: the grid search.
- `TourSearch`: the hill climbing and the random list generator.
- `GraphTraversal`: BFS and DFS.

Code that changes variables step by step is modelled as methods with loops and invariants. Each method is proved against functions or predicates that specify its result or the properties the code promises. `dominates`, `heuristic` and the specifications are pure functions.

Randomness becomes explicit inputs:

- the cut points of a crossover;
- the coins and swap targets of a mutation;
- the four draws of a pair of tournaments;
- the crossover coin;
- the initial permutations;
- the starting tour of the hill climbing.

The draws of `generate_random_solution` are free choices in their range. Printing becomes a returned value:

- BFS and DFS return the visit order. A missing adjacency-list key becomes a `KeyError` outcome.
- A\* returns `None` or the path.

## Model

| member | source | states |
|---|---|---|
| Permutations.Iota | task2_ait.py:31 | `range(n)` has n elements |
| Permutations.IotaIndices | task2_ait.py:31 | element i of `range(n)` is i |
| Permutations.IotaMultiplicity | usecase1_ait.py:111 | `range(n)` holds each of 0 .. n-1 exactly once and nothing else |
| Permutations.Swap | usecase1_ait.py:53 | exchanging s[i] and s[j] leaves every other position alone and keeps the multiset |
| Permutations.PermutationFacts | usecase1_ait.py:111 | a permutation of n jobs has length n, holds only 0 .. n-1 and holds every one of them |
| Permutations.PermutationMultiplicity | usecase1_ait.py:111 | no job occurs twice in a permutation |
| Permutations.PermutationDistinct | usecase1_ait.py:111 | two positions of a permutation hold different jobs |
| Permutations.SwapIsPermutation | usecase1_ait.py:48-54 | a swap of two positions of a permutation is a permutation |
| Evaluation.TotalTardiness | usecase1_ait.py:29 | total tardiness is never negative |
| Evaluation.Objectives | usecase1_ait.py:22-30 | the objective pair has non-negative tardiness and is (0, 0) for the empty order |
| Evaluation.Evaluate | usecase1_ait.py:22-30 | the single pass returns exactly (sum of completion times, sum of max(C - d, 0)); (0, 0) for the empty order |
| Evaluation.CompletionAtLeastWork | usecase1_ait.py:26-28 | with non-negative processing times the total completion time is at least the total work |
| Evaluation.WorkAppend | usecase1_ait.py:27 | the work of a concatenation is the sum of the works |
| Evaluation.WorkRemove | usecase1_ait.py:27 | removing one job removes exactly its processing time from the work |
| Evaluation.WorkDependsOnMultiset | usecase1_ait.py:27 | two orders of the same jobs have the same total work |
| Evaluation.WorkOfIota | usecase1_ait.py:27 | the work of `range(k)` is the sum of the first k processing times |
| Evaluation.CompletionOfPermutation | usecase1_ait.py:22-30 | for every permutation of all jobs the total completion time is at least the sum of all processing times |
| Evaluation.ExampleObjectives | usecase1_ait.py:22-30 | processing [5,3,8,2], due dates [10,8,20,5], order [3,1,0,2] score (35, 0) |
| GeneticOperators.Common | usecase1_ait.py:41 | elements of s kept because they are in c |
| GeneticOperators.Missing | usecase1_ait.py:41 | `[x for x in a2 if x not in c]`: only elements of s not in c |
| GeneticOperators.Holes | usecase1_ait.py:42 | `[i for i in range(n) if c[i] == -1]`: increasing positions holding -1 |
| GeneticOperators.SplitMultiset | usecase1_ait.py:41 | s splits into the kept and the skipped elements |
| GeneticOperators.CommonMultiplicity | usecase1_ait.py:41 | an element is kept as often as it occurs in s when it is in c, otherwise never |
| GeneticOperators.MissingSameMembers | usecase1_ait.py:41 | the fill depends on c only through which elements c contains |
| GeneticOperators.HolesAroundSegment | usecase1_ait.py:39-42 | once the segment a..b is copied, the holes are the positions outside it, in order |
| GeneticOperators.SegmentInOtherParent | usecase1_ait.py:40-41 | the segment of one parent permutation occurs in the other parent once per element |
| GeneticOperators.Seeded | usecase1_ait.py:39-40 | `c = [-1]*n; c[a:b+1] = a1[a:b+1]` keeps the length n |
| GeneticOperators.OxSetup | usecase1_ait.py:39-42 | the fill has as many elements as there are holes, and the holes are the positions outside a..b |
| GeneticOperators.OutsideSegment | usecase1_ait.py:43-44 | writing the fill into the holes in order makes the part outside the segment equal to the fill |
| GeneticOperators.OxFinish | usecase1_ait.py:38-45 | segment from one parent plus the other parent's remaining jobs is a permutation |
| GeneticOperators.Ox | usecase1_ait.py:38-45 | the child of two permutations is a permutation, equals a1 on a..b and holds a2's other jobs in a2's order outside the segment |
| GeneticOperators.OxResult | usecase1_ait.py:43-45 | after the `zip` loop stops at the shorter list, the child has the properties of `Ox` |
| GeneticOperators.OrderCrossover | usecase1_ait.py:35-46 | both children of two permutations are permutations, each with its own parent's segment and the other parent's remaining jobs in order |
| GeneticOperators.Mutation | usecase1_ait.py:48-54 | the result is a rearrangement of the input, positions no swap touched are unchanged, and rate <= 0 returns the input |
| Dominance.Dominates | usecase1_ait.py:59-60 | a dominating vector has a strictly smaller sum of objectives |
| Dominance.DominatesIrreflexive | usecase1_ait.py:59-60 | nothing dominates itself |
| Dominance.DominatesAsymmetric | usecase1_ait.py:59-60 | u dominates v implies v does not dominate u |
| Dominance.DominatesTransitive | usecase1_ait.py:59-60 | dominance is transitive |
| Dominance.FirstFrontIsUndominated | usecase1_ait.py:68-76 | front 0 holds exactly the individuals nobody dominates |
| Dominance.NoDominanceWithinFront | usecase1_ait.py:62-90 | no member of a front dominates another member of it |
| Dominance.DominatorInEarlierFront | usecase1_ait.py:78-88 | a dominator of a member of front k is not in front k |
| Dominance.LevelAtMost | usecase1_ait.py:78-88 | in two front sortings of the same values, an individual's front in one is not after its front in the other |
| Dominance.ChainedDominator | usecase1_ait.py:81-86 | a member of front k > 0 is dominated by a member of front k-1 |
| Dominance.EarlierFront | usecase1_ait.py:81-86 | a dominator of a member of front j is in a front before j |
| Dominance.LevelIn | usecase1_ait.py:62-90 | an individual in front k of one front sorting is in front k of any other |
| Dominance.FrontSortingUnique | usecase1_ait.py:62-90 | the front sorting of a list of values is unique, so sorting twice gives the same fronts |
| Dominance.MinSum | usecase1_ait.py:62-90 | a lower bound of the objective sums |
| Dominance.HasUndominatedMember | usecase1_ait.py:78-88 | every non-empty set of individuals has a member that no member of the set dominates |
| Dominance.AliveRelease | usecase1_ait.py:83 | releasing p lowers q's count of unreleased dominators by one exactly when p dominates q |
| Dominance.AliveZero | usecase1_ait.py:84 | the count is zero exactly when every dominator has been released |
| Dominance.DominationRow | usecase1_ait.py:69-73 | `S[p]` lists exactly the individuals p dominates, and `n[p]` counts p's dominators |
| Dominance.CountDomination | usecase1_ait.py:63-76 | after the first double loop `S`, `n`, `rank` and front 0 describe the first stage |
| Dominance.NoDupSuffix | usecase1_ait.py:82 | a duplicate-free list has its head outside its tail |
| Dominance.ReleaseMember | usecase1_ait.py:82-86 | releasing p decrements every count p contributes to and collects the members whose count reaches zero |
| Dominance.ReleaseOne | usecase1_ait.py:83-86 | one `n[q] -= 1` step keeps the counts and the next front in step |
| Dominance.StageAdvance | usecase1_ait.py:79-88 | one pass of `while fronts[f]` turns stage f into stage f+1 |
| Dominance.AdvanceFronts | usecase1_ait.py:85-88 | the appended front is non-repeating and each of its members is dominated from the previous front |
| Dominance.AdvanceDone | usecase1_ait.py:84-86 | the members whose count reaches zero are exactly those whose dominators are all released |
| Dominance.AdvanceOrder | usecase1_ait.py:85 | ranks stay ordered by dominance |
| Dominance.ReleaseFront | usecase1_ait.py:80-88 | releasing a front builds the next one |
| Dominance.AllPlaced | usecase1_ait.py:79-89 | when the loop stops every individual is in a front |
| Dominance.StageFinal | usecase1_ait.py:89-90 | the fronts without the final empty one partition the population, each front dominated from the previous one, dominators always earlier |
| Dominance.FastSort | usecase1_ait.py:62-90 | the result is a front sorting of the values (a partition into non-empty fronts in rank order), non-empty for a non-empty population |
| Crowding.Add | usecase1_ait.py:103 | inf absorbs in a sum of distances |
| Crowding.Greater | usecase1_ait.py:126 | `cd[a] > cd[b]` on distances: inf beats every finite distance, nothing beats inf, finite distances compare as reals |
| Crowding.InsertBy | usecase1_ait.py:98 | inserting into a sorted list adds exactly one element |
| Crowding.SortBy | usecase1_ait.py:98 | `sorted(front, key=...)` is a rearrangement of the front |
| Crowding.InsertBySorted | usecase1_ait.py:98 | insertion keeps a list sorted by the key |
| Crowding.SortBySorted | usecase1_ait.py:98 | the sort is ordered by objective m |
| Crowding.InsertByWithKey | usecase1_ait.py:98 | insertion puts x ahead of the members with its key and behind only smaller keys |
| Crowding.SortByStable | usecase1_ait.py:98 | the sort is stable: members with equal key keep their order from the front |
| Crowding.NoDupByMultiset | usecase1_ait.py:98 | sorting a duplicate-free front gives a duplicate-free list |
| Crowding.Normalised | usecase1_ait.py:103 | a non-negative gap over a non-negative range plus 1e-9 is non-negative; a zero gap gives 0 |
| Crowding.TermNonNegative | usecase1_ait.py:99-103 | in a sorted order every contribution is inf or non-negative |
| Crowding.IndexOf | usecase1_ait.py:98-103 | the first position of x in s |
| Crowding.Orders | usecase1_ait.py:97-98 | both orders are rearrangements of the front |
| Crowding.IndexOfDistinct | usecase1_ait.py:102-103 | in a non-repeating order the member at position j has position j |
| Crowding.AccumulatedAtEnd | usecase1_ait.py:99 | an end of the order for an objective already counted has infinite distance |
| Crowding.BoundaryIsInfinite | usecase1_ait.py:99 | the extreme members on either objective have infinite crowding distance |
| Crowding.AccumulatedNonNegative | usecase1_ait.py:97-103 | accumulated distances are non-negative |
| Crowding.CrowdingDistanceNonNegative | usecase1_ait.py:92-104 | every crowding distance is inf or a non-negative real |
| Crowding.TermsFacts | usecase1_ait.py:99-103 | one contribution per position, inf at both ends, and all inf or non-negative when the order is sorted |
| Crowding.InnerTerm | usecase1_ait.py:103 | an interior position contributes its neighbours' gap over the objective's range |
| Crowding.Pass | usecase1_ait.py:99-103 | one objective pass keeps the keys of the distance map |
| Crowding.PassNonNegative | usecase1_ait.py:99-103 | a pass with non-negative contributions keeps every distance non-negative |
| Crowding.PassValue | usecase1_ait.py:99-103 | after i steps the ends are inf, positions before i have gained their contribution, later ones are unchanged |
| Crowding.AddObjective | usecase1_ait.py:99-103 | the inner loop computes exactly the objective pass |
| Crowding.ObjectivePass | usecase1_ait.py:97-103 | after objective m every member holds its distance over objectives 0 .. m, with the same keys and non-negative values |
| Crowding.CrowdingDistances | usecase1_ait.py:92-104 | keys are the front; 0 for fronts of at most two; otherwise each member's crowding distance; all non-negative |
| Crowding.PassKeepsNonNegative | usecase1_ait.py:99-103 | a pass keeps distances non-negative |
| Crowding.PassAccumulates | usecase1_ait.py:99-103 | a pass adds objective m's contribution to every member |
| Crowding.PassValues | usecase1_ait.py:99-103 | after the pass every member of the order holds its old value plus its contribution |
| Crowding.AccumulateStep | usecase1_ait.py:102-103 | per-position sums become per-member sums over one more objective |
| Crowding.AccumulatedIsCrowdingDistance | usecase1_ait.py:97-104 | after both objectives each member holds its crowding distance |
| Nsga2.FrontIndex | usecase1_ait.py:122-123 | `next(i for i, fr in enumerate(fronts) if a in fr)`: the first front holding a |
| Nsga2.FrontIndexOfMember | usecase1_ait.py:122-123 | in a front sorting, the rank of a member of front k is k |
| Nsga2.AllCrowding | usecase1_ait.py:116-118 | every individual, and nothing else, gets the crowding distance of its own front, all non-negative |
| Nsga2.CrowdFront | usecase1_ait.py:117-118 | one `cd.update` adds the distances of front k and keeps the earlier ones |
| Nsga2.CrowdingStep | usecase1_ait.py:118 | merging disjoint fronts' distances keeps every earlier distance |
| Nsga2.OwnFrontDistance | usecase1_ait.py:118 | after `cd.update(...)` each member of the front just crowded holds its distance in that front, 0 in a front of at most two |
| Nsga2.Tournament | usecase1_ait.py:120-126 | the winner is a or b with the lower rank; on a tie the larger distance, b on equal distances |
| Nsga2.TournamentPrefersDominator | usecase1_ait.py:120-126 | a dominating individual wins the tournament whichever is drawn first |
| Nsga2.Parent | usecase1_ait.py:130 | the winner that parents child i is an index of the population |
| Nsga2.Breed | usecase1_ait.py:130-137 | the two children of permutations are permutations; without crossover or mutation they are the winners |
| Nsga2.PopulationAppend | usecase1_ait.py:135-137 | appending a permutation keeps a population of permutations |
| Nsga2.CopiedAppend | usecase1_ait.py:134-137 | appending the next winner keeps the new population a copy of the winners |
| Nsga2.Pair | usecase1_ait.py:130-134 | one pass produces two permutations, the two winners when nothing varies them |
| Nsga2.Offspring | usecase1_ait.py:128-137 | the new population has exactly popsize members, all permutations; with cx and mut at 0 each is its tournament winner |
| Nsga2.OffspringPass | usecase1_ait.py:130-137 | one pass adds two children, or one when the size is reached |
| Nsga2.AppendChild | usecase1_ait.py:135-137 | `newpop.append(c)` extends the population by c |
| Nsga2.EvaluateAll | usecase1_ait.py:112 | each objective vector is the evaluation of its individual, with non-negative tardiness |
| Nsga2.Generation | usecase1_ait.py:114-140 | one generation sorts the population into fronts, gives every individual its front's crowding distance, keeps popsize permutations with rescored objectives, and without crossover or mutation copies exactly the tournament winners |
| Nsga2.Nsga2 | usecase1_ait.py:109-143 | popsize permutations with their objective vectors, and exactly the undominated indices, without repetition |
| AStar.Heuristic | usecase2_ait.py:7-8 | the Manhattan distance is zero exactly for equal cells |
| AStar.HeuristicMetric | usecase2_ait.py:7-8 | the heuristic is symmetric and obeys the triangle inequality |
| AStar.MovesAreUnitSteps | usecase2_ait.py:28-29 | the four moves reach exactly the cells at Manhattan distance one |
| AStar.AdjacentDistance | usecase2_ait.py:28-29 | a unit move covers Manhattan distance one |
| AStar.WalkLength | usecase2_ait.py:28-37 | a walk of k moves spans Manhattan distance at most k |
| AStar.EntryLeq | usecase2_ait.py:19 | the heap's tuple order puts a smaller f-score first |
| AStar.EntryLeqTotalOrder | usecase2_ait.py:19 | the heap's tuple order is a total order |
| AStar.PopMin | usecase2_ait.py:19 | `heappop` removes one entry no greater in tuple order than every remaining one |
| AStar.PopMinStep | usecase2_ait.py:19 | the minimum of a list is its head or the minimum of its tail |
| AStar.InCells | usecase2_ait.py:31 | every in-bounds cell is in the cell list |
| AStar.RecordScore | usecase2_ait.py:33-34 | recording a new cell lowers the unscored count; lowering a score lowers the score sum |
| AStar.ImproveDecreases | usecase2_ait.py:33-34 | each accepted improvement lowers the termination measure |
| AStar.Relax | usecase2_ait.py:29-37 | a free in-bounds neighbour that is new or reached more cheaply gets score `g_score[current] + 1`, parent `current` and the open entry `(f, neighbour)`, and the measure drops; otherwise nothing changes; the parent tree is kept |
| AStar.RecordImproves | usecase2_ait.py:33-37 | recording the cheaper score and parent of a free neighbour keeps the parent tree and the scored open set, raises no score and lowers the measure |
| AStar.Expand | usecase2_ait.py:28-37 | after the four moves every free neighbour of `current` is scored at most `g_score[current] + 1`, the score of `current` is unchanged, no score rises, the parent tree is kept, and the measure drops or nothing changes |
| AStar.Reconstruct | usecase2_ait.py:22-26 | following `came_from` back and reversing yields a path from start to goal |
| Sequences.Reverse | usecase2_ait.py:26 | `path[::-1]` and `reversed(...)`: the element at i is the input's element at the mirrored position |
| AStar.ReversedChain | usecase2_ait.py:22-26 | reversing the chain of parents from goal to start gives a path |
| AStar.Search | usecase2_ait.py:10-39 | a returned path runs from start to goal through free cells by unit moves and has at least Manhattan distance + 1 cells; start == goal returns [start] |
| TourSearch.GenerateRandomSolution | task2_ait.py:6-10 | n values, each within [min_val, max_val] |
| TourSearch.CyclicCost | task2_ait.py:23-28 | the closed tour cost is the cost of the walk that returns to the first city |
| TourSearch.CalculateCost | task2_ait.py:23-28 | the loop computes the closed tour cost |
| TourSearch.ExampleCost | task2_ait.py:46-51 | tour [1,3,2,0] of the example graph costs 80 |
| TourSearch.RowMin | task2_ait.py:23-28 | the least weight in a row |
| TourSearch.MinWeight | task2_ait.py:23-28 | a lower bound of every weight |
| TourSearch.WalkCostBound | task2_ait.py:25-26 | an open walk of k edges costs at least k times the least weight |
| TourSearch.CostBound | task2_ait.py:23-28 | a tour of V cities costs at least V times the least weight, so costs cannot fall forever |
| TourSearch.HillClimbing | task2_ait.py:29-45 | the result is a permutation tour costing no more than the start, with its cost, and no single swap makes it cheaper |
| TourSearch.SwappedBelowStep | task2_ait.py:37-44 | a pass position i that accepts nothing extends the no-cheaper-swap region |
| TourSearch.SwappedAtStep | task2_ait.py:38-44 | a rejected swap (i, j) extends the checked range to j+1 |
| TourSearch.TrySwap | task2_ait.py:39-44 | the swap is taken only when strictly cheaper; otherwise nothing changes |
| TourSearch.ScanStep | task2_ait.py:38-44 | one step of the inner loop keeps the scan invariant |
| TourSearch.ImproveAt | task2_ait.py:38-44 | the inner loop keeps a permutation tour, never raises the cost, sets `improved` exactly when it lowered the cost, and without improvement every swap with i is no cheaper |
| GraphTraversal.Take | task1_ait.py:8 | `popleft()` or `pop()` takes a pending node |
| GraphTraversal.Rest | task1_ait.py:8 | one node fewer is pending |
| GraphTraversal.Unvisited | task1_ait.py:12 | the filtered neighbours are exactly the unvisited ones, no more of them than neighbours |
| GraphTraversal.Push | task1_ait.py:12 | `extend` appends to the pending nodes, which stay in front, one place per added node |
| GraphTraversal.Traverse | task1_ait.py:7-12 | the loop only appends to the printed order |
| GraphTraversal.RestMembers | task1_ait.py:8 | the pending nodes are the taken one plus the rest |
| GraphTraversal.PushMembers | task1_ait.py:12 | `extend` adds exactly the given nodes |
| GraphTraversal.FewerUnvisited | task1_ait.py:11 | visiting a key lowers the number of unvisited keys |
| GraphTraversal.Bfs | task1_ait.py:4-13 | the order printed by `bfs` starts at start, repeats no node, holds exactly the reachable nodes, or ends at the first node missing from the map |
| GraphTraversal.Dfs | task1_ait.py:14-23 | the same for `dfs` with a stack |
| GraphTraversal.Facts | task1_ait.py:4-23 | every traversal is sound and succeeds when all neighbours are keys |
| GraphTraversal.ReachableNeighbour | task1_ait.py:12 | a neighbour of a reachable node is reachable |
| GraphTraversal.WalkStaysIn | task1_ait.py:7-12 | a walk from a closed set stays in it |
| GraphTraversal.ClosedContainsReachable | task1_ait.py:7-12 | a set closed under neighbours contains every reachable node |
| GraphTraversal.AppendDistinct | task1_ait.py:10-11 | emitting an unvisited node keeps the order without repetition |
| GraphTraversal.SkipStep | task1_ait.py:9 | skipping a visited node keeps the invariant |
| GraphTraversal.VisitStep | task1_ait.py:9-12 | visiting a node keeps the invariant |
| GraphTraversal.TraverseSound | task1_ait.py:7-12 | every run from an invariant state ends soundly |
| GraphTraversal.EndSound | task1_ait.py:7 | an empty pending list means every reachable node was emitted |
| GraphTraversal.FailSound | task1_ait.py:12 | `graph[node]` fails only for a node that is not a key |
| GraphTraversal.TraverseTotal | task1_ait.py:7-12 | when every neighbour is a key the traversal never fails |
| GraphTraversal.UnvisitedNone | task1_ait.py:12 | filtering nodes none of which is visited keeps them all |
| GraphTraversal.VisitUnfold | task1_ait.py:8-12 | one visiting step of the loop |
| GraphTraversal.SkipUnfold | task1_ait.py:8-9 | one skipping step of the loop |
| GraphTraversal.BfsTrace1 | task1_ait.py:33 | `bfs(graph, 'A')` first visits A |
| GraphTraversal.BfsTrace2 | task1_ait.py:33 | then B, queueing F, D and E |
| GraphTraversal.BfsTrace3 | task1_ait.py:33 | then C, queueing F again |
| GraphTraversal.BfsTrace4 | task1_ait.py:33 | then F, queueing E again |
| GraphTraversal.BfsTrace5 | task1_ait.py:33 | then D and E, which queue nothing |
| GraphTraversal.BfsExample | task1_ait.py:38-40 | BFS from A visits A B C F D E |
| GraphTraversal.DfsTrace1 | task1_ait.py:35 | the first step of `dfs(graph, 'A')` |
| GraphTraversal.DfsTrace2 | task1_ait.py:35 | the next step of `dfs(graph, 'A')` |
| GraphTraversal.DfsTrace3 | task1_ait.py:35 | then F, stacking E and C |
| GraphTraversal.DfsTrace4 | task1_ait.py:35 | then C, which stacks nothing |
| GraphTraversal.DfsTrace5 | task1_ait.py:35 | then E and D, which stack nothing |
| GraphTraversal.DfsExample | task1_ait.py:42-44 | DFS from A visits A B F C E D |

## Left out

- `generate_jobs`, the plotting and the printing are not modelled. They only produce data and display it.
- Python's pseudo-random generator is not modelled. Every draw is an input that satisfies the range the generator guarantees.
- Floating point is not modelled. Crowding distances are exact reals or `inf`, and the 1e-9 guard is the constant `Eps`. Rounding is not captured.
- `heapq` is modelled as a list from which the smallest entry is removed. The heap layout is not modelled.
- Evaluation.Evaluate: Python's negative indices are not modelled. Job numbers must be valid indices of `p` and `d`.
- Nsga2.Nsga2: a population size of 0 is excluded. There the first front does not exist, and `fronts[0]` raises `IndexError` in Python. Python accepts a population size of 1, and so does the model.
- GeneticOperators.OrderCrossover: the cut points must satisfy a < b and lie below the length. Python's `random.sample(range(n), 2)` fails for fewer than two jobs.
- TourSearch.HillClimbing: the graph must be square with at least one city. For zero cities Python's `path[-1]` raises `IndexError`.
- AStar.Search: the grid must be rectangular and non-empty. `grid[0]` fails on an empty grid.
- AStar.Search: the model does not claim that the returned path is shortest, or that a path is found whenever one exists. The first would need a consistent-heuristic argument about re-expansions, the second a completeness argument.
- Nsga2.Breed: the model always mutates the second child, even when the population is already full. Python skips that mutation, but the child is then discarded, so the population is the same.
- Nsga2.Offspring: the state of the random generator after skipping that mutation is not modelled.
- Nsga2.Offspring: with crossover or mutation enabled, the model states only that the children are permutations, not which ones.
- TourSearch.GenerateRandomSolution: the values are only constrained to the range. Their distribution is not modelled.
- TourSearch.GenerateRandomSolution: min_val > max_val with n > 0 is excluded. There Python's `random.randint` raises `ValueError`, which the model does not represent.
- The code does not check that a sequence is a permutation or that a parameter is valid. Where an operation needs these, they become requirements.
