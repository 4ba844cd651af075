# google-foobar solutions, modelled in Dafny

This project models nine puzzle solutions of the google-foobar repository.
Each puzzle is a pure function of its input. Each becomes one module, or a
handful of modules for the largest one. For six of the nine puzzles the
model proves the solution's result equal to an independent reference
definition, or proves the reference's defining property of it. Three are
covered only in part:
- 5.2: the partitions are proved complete and distinct, but the final count
  is only proved symmetric, correct on one cell and zero with no states.
- 4.2: the flow is proved to leave no augmenting path, but not to be
  maximal.
- 3.2: the answer is proved to be the least of the shortest open route and
  every candidate wall's score, and at least h + w - 1, but not to be the
  shortest route with one wall removed.

| puzzle | modules | what is modelled |
|---|---|---|
| 5.1 expanding nebula | `NebulaRule`, `NebulaIds`, `NebulaRows`, `NebulaIndex`, `NebulaSums`, `NebulaMerge`, `NebulaReference`, `ExpandingNebula` | The two rule tables, `convertToBin` and the transpose, and the row ids (`_getId`, `getId`). Also `solBFS` with `RowSolution.add`, the `Solution` class (`__init__`, `merge`, `countSolutions`), and the memoised main fold. |
| 5.2 disorderly escape | `DisorderlyEscape` | `partitionsGen`, `partitions`, `cycle_coefficient`, and the exponent and total loops. |
| 4.1 free the bunny prisoners | `FreeBunnies` | `choose`, the bit-column loop of `lexCombs`, `bitToKeys`, and the main lock and key computation. |
| 3.2 prepare to escape | `PrepareToEscape` | The neighbour helpers, the breadth-first `solve`, and the scoring of candidate walls. |
| 4.2 escape pods | `EscapePods` | `superPath`, `getAugmentedPath`, the bottleneck walk, the augmenting loop. |
| 3.3 find the access code | `AccessCode` | The `modm`/`modl` tables and the triple-counting loop. |
| 3.1 bomb baby | `BombBaby` | The quotient-based reverse replication loop and its return cases. |
| 2.2 en route salute | `EnRouteSalute` | `countEmployeesInOderDirection` and the encounter sum. |
| 2.1 bunny prisoner locating | `BunnyLocating` | `sum1to` and the id formula. |

`Arith` holds the shared exact arithmetic: `Pow`, `Factorial`, `Gcd`
(standing in for `fractions.gcd`) and Pascal's `Binomial`.

Modelling conventions:

- Python 2 integer `/` and `//` are floor division. Every use in these
  solutions has non-negative operands, where Dafny's Euclidean division
  agrees. The one `%` that can see a negative operand, in 3.3, is modelled by
  `AccessCode.PyMod`, whose result takes the sign of the divisor as Python's
  does.
- Results rendered with `str(...)` are modelled as the integer. The string
  `"impossible"` of 3.1 is `None`.
- In 4.1 Python's `None` in a matrix cell not yet written is the constant
  `Unset`, which is -1.
- In 5.2 a count dictionary is an association list in order of first
  insertion. Python 2 dictionaries iterate in an arbitrary order, and the
  solution only ever sums and multiplies over them.
- In 5.1 the stack order of `solBFS` is modelled exactly: the last pushed
  child is popped first. The strips are then stated as a set with no
  repeats. The `set` iterations of `merge` and `countSolutions` are modelled
  as picking any remaining element, so every order is covered.
- Inputs the solutions do not handle become `requires`:
  - ragged grids (5.1);
  - a zero anywhere but the last place of the list (3.3);
  - `num_required` outside 1 .. `num_buns` + 1 (4.1);
  - a non-square corridor matrix, or rooms out of range (4.2);
  - a maze with no route and no useful wall, or with a wall in the start
    corner (3.2);
  - an empty grid dimension (5.2).

Where the comments and the code disagree, the model follows the code.

- The `convertToBin` docstring (5.1, line 103) says True becomes 0. The code
  at line 111 maps True to 1, and `NebulaRule.ConvertToBin` does the same.
- 4.2's `superPath` connects the super source by entrance position rather
  than by entrance room. See "Findings".

## Model

| member | source | states |
|---|---|---|
| BunnyLocating.SumToIsTriangle | 2.1.bunny_prisoner_locating/solution.py:8-9 | `sum1to(n)` is the n-th triangular number 1 + ... + n. n(n+1) is always even, so the division loses nothing. |
| BunnyLocating.SolutionClosedForm | 2.1.bunny_prisoner_locating/solution.py:11-23 | For every cell x, y >= 1, the id is x + T(x+y-2), where T is the triangular number. |
| BunnyLocating.SolutionMatchesWalk | 2.1.bunny_prisoner_locating/solution.py:3-23 | The formula agrees with numbering the staircase cell by cell: the bottom row holds the triangular numbers, and each step up column x adds the next diagonal's length. |
| BunnyLocating.WalkClosedForm | 2.1.bunny_prisoner_locating/solution.py:3-23 | Numbering the staircase cell by cell gives x + T(x+y-2) at every cell. |
| BunnyLocating.Neighbours | 2.1.bunny_prisoner_locating/solution.py:3-6 | One cell up adds x+y-1 to the id; one cell right adds x+y. |
| BunnyLocating.IdPositive | 2.1.bunny_prisoner_locating/solution.py:23-25 | Every cell's id is at least 1. |
| BunnyLocating.DiagramValues | 2.1.bunny_prisoner_locating/solution.py:3-6 | The drawn values: (1,1) is 1, (2,2) is 5, (1,4) is 7, (4,1) is 10, (3,2) is 9, (2,3) is 8. |
| EnRouteSalute.CountInDirection | 2.2.en_route_salute/solution.py:6-12 | The count is the number of occurrences of the direction character, so it is at most the length. |
| EnRouteSalute.CrossingsAgree | 2.2.en_route_salute/solution.py:20-25 | Counting the meeting pairs at each '>' (the '<'s ahead of it) gives the same number as counting them at each '<' (the '>'s behind it). |
| EnRouteSalute.Solution | 2.2.en_route_salute/solution.py:17-27 | The encounter total is twice the number of pairs i < j with s[i] = '>' and s[j] = '<', so it is even. |
| EnRouteSalute.NonArrowsAddNothing | 2.2.en_route_salute/solution.py:21-25 | A character other than an arrow contributes nothing. |
| EnRouteSalute.NoMeetingWhenApart | 2.2.en_route_salute/solution.py:20-25 | When every '<' comes before every '>' (an empty or arrow-free hallway included), nobody meets. |
| EnRouteSalute.MeetingCounts | 2.2.en_route_salute/solution.py:20-25 | Conversely, any '>' before a '<' makes the count positive. |
| BombBaby.MachQuotientStep | 3.1.bomb_baby/solution.py:22-24 | Reducing mach modulo facula is mach / facula single reverse steps taken at once. If facula divides mach, the pair was never reachable. |
| BombBaby.FaculaQuotientStep | 3.1.bomb_baby/solution.py:25-27 | The same for the facula side. |
| Arith.GcdMod | 3.1.bomb_baby/solution.py:20-27 | Reducing one count modulo the other keeps their gcd, so the gcd is invariant across the loop. |
| BombBaby.OneSide | 3.1.bomb_baby/solution.py:37-41 | When one count is 1, only the other rule was ever applied: the answer is the other count minus 1. |
| BombBaby.Solution | 3.1.bomb_baby/solution.py:2-43 | (1, 1) gives 0. For M, F >= 1, the result is the number of single reverse steps from (M, F) back to (1, 1), or "impossible" exactly when that walk gets stuck. |
| BombBaby.ImpossibleIffNotCoprime | 3.1.bomb_baby/solution.py:30-43 | For M, F >= 1, "impossible" is returned exactly when gcd(M, F) is not 1. |
| BombBaby.ReverseStepsIsPath | 3.1.bomb_baby/solution.py:4-41 | A returned count n is an actual history: n forward replications lead from (1, 1) to (M, F). |
| BombBaby.Samples | 3.1.bomb_baby/solution.py:2-43 | The puzzle samples: (2, 1) takes 1 generation, (4, 7) takes 4, and (2, 4) is impossible. |
| AccessCode.PyModIsRemainder | 3.3.find_the_access_code/solution.py:53-54 | Python's `%` is a remainder with the divisor's sign, and it is 0 exactly when the divisor divides the dividend. |
| AccessCode.PyMod | 3.3.find_the_access_code/solution.py:53-54 | The remainder lies between 0 and the divisor, on the divisor's side of zero. |
| AccessCode.BuildTables | 3.3.find_the_access_code/solution.py:46-55 | `modm[i][j]` is `l[j] % l[i]` above the diagonal and -1 elsewhere. `modl[i]` is the mod list of entry i. |
| AccessCode.MultiplesSound | 3.3.find_the_access_code/solution.py:50-55 | A mod list holds only pairs (j, l[j]) with j > i and l[i] dividing l[j]. |
| AccessCode.MultiplesComplete | 3.3.find_the_access_code/solution.py:50-55 | A mod list misses no later multiple. With `Multiples`' own ensures, the entries are in increasing j. |
| AccessCode.Multiples | 3.3.find_the_access_code/solution.py:50-55 | A mod list names only later positions, in increasing order. |
| AccessCode.BuildRow | 3.3.find_the_access_code/solution.py:51-55 | One pass of the building loop yields row i of `modm` and the mod list of entry i. |
| AccessCode.CountCompletions | 3.3.find_the_access_code/solution.py:60-65 | The inner counting loop adds, for each (j, _) on entry i's mod list, the number of multiples of l[j] after j. |
| AccessCode.CountTriples | 3.3.find_the_access_code/solution.py:57-67 | The counting loop's total is the number of lucky triples. |
| AccessCode.Solution | 3.3.find_the_access_code/solution.py:1-67 | The result is the number of index triples i < j < k with l[i] dividing l[j] and l[j] dividing l[k]. |
| AccessCode.ShortListHasNoTriples | 3.3.find_the_access_code/solution.py:42-67 | A list of fewer than three entries has no lucky triple. |
| AccessCode.WorkedExampleFirst | 3.3.find_the_access_code/solution.py:30-32 | On the worked example, the mod list of entry 0 is [(1,2), (5,4), (8,6)]. |
| AccessCode.WorkedExampleOne | 3.3.find_the_access_code/solution.py:35-35 | On the worked example, the entry 1 divides all five entries after it. |
| AccessCode.SampleOnes | 3.3.find_the_access_code/solution.py:3-4 | [1, 1, 1] has exactly one lucky triple. |
| AccessCode.SampleToSix | 3.3.find_the_access_code/solution.py:3-4 | [1, 2, 3, 4, 5, 6] has exactly three lucky triples. |
| PrepareToEscape.NextMoves | 3.2.prepare_to_escape/solution.py:3-10 | The four moves are exactly the cells sharing a side with the position. |
| PrepareToEscape.Neighbours | 3.2.prepare_to_escape/solution.py:24-33 | The neighbours are exactly the in-bounds cells sharing a side with the position. |
| PrepareToEscape.NonWallNeighbours | 3.2.prepare_to_escape/solution.py:18-21 | The non-wall neighbours are exactly the open in-bounds cells sharing a side. |
| PrepareToEscape.WallEdges | 3.2.prepare_to_escape/solution.py:12-15 | The wall edges are exactly the in-bounds wall cells sharing a side. |
| PrepareToEscape.Visit | 3.2.prepare_to_escape/solution.py:58-72 | Examining one neighbour keeps the search invariant: listed cells are distinct and carry a walk of their recorded length; the queue is in distance order. The neighbour is listed afterwards if it is open. |
| PrepareToEscape.ScanCell | 3.2.prepare_to_escape/solution.py:56-72 | After a dequeued cell's neighbours are examined, every open neighbour is listed at most one step further, and the cell counts as scanned. |
| PrepareToEscape.PopQueue | 3.2.prepare_to_escape/solution.py:49-53 | The head of the queue is a listed, unscanned, in-bounds cell, and taking it keeps the invariant. |
| PrepareToEscape.Search | 3.2.prepare_to_escape/solution.py:43-72 | The path lists, once each, exactly the cells reachable from the start. Each holds its shortest distance, and the distance map is unchanged elsewhere. |
| PrepareToEscape.WalkBound | 3.2.prepare_to_escape/solution.py:49-72 | When the queue runs dry, every walk from the start ends at a listed cell whose recorded distance is no longer than the walk. |
| PrepareToEscape.SearchComplete | 3.2.prepare_to_escape/solution.py:43-72 | When the queue runs dry, the path lists, once each, exactly the cells reachable from the start, each with its shortest distance. No wall other than the start is listed. |
| PrepareToEscape.Solve | 3.2.prepare_to_escape/solution.py:36-79 | As `Search`. In addition the count is present exactly when the end is reachable, and is then its shortest distance plus one. |
| PrepareToEscape.SearchFrom | 3.2.prepare_to_escape/solution.py:104-117 | A search from one corner gives the shortest distance to every reachable cell and h * w elsewhere. The count exists exactly when the other corner is reachable, and is then its distance plus one. |
| PrepareToEscape.Searches | 3.2.prepare_to_escape/solution.py:100-117 | The two searches are shortest-distance maps from each corner, and the forward count is the corner-to-corner route length when there is one. |
| PrepareToEscape.WallsNear | 3.2.prepare_to_escape/solution.py:122-130 | A wall is collected exactly when it is next to some cell of the path. |
| PrepareToEscape.WallsNearRegion | 3.2.prepare_to_escape/solution.py:122-130 | The walls next to a search's path are exactly the walls bordering its reachable region. |
| PrepareToEscape.CommonIsCandidates | 3.2.prepare_to_escape/solution.py:122-132 | The scored walls are those bordering the start's region. When the end is unreachable, they must also border the end's region. |
| PrepareToEscape.CandidatesScorable | 3.2.prepare_to_escape/solution.py:141-144 | Every candidate wall has an open neighbour, so `min` at line 144 never sees an empty list. |
| PrepareToEscape.ScoreAtLeast | 3.2.prepare_to_escape/solution.py:141-149 | No route through a wall scores below the corner-to-corner bound h + w - 1. |
| PrepareToEscape.ForwardCount | 3.2.prepare_to_escape/solution.py:134-136 | An open route between the corners has at least h + w - 1 cells, and its shortest length is unique. |
| PrepareToEscape.BoundMet | 3.2.prepare_to_escape/solution.py:134-136 | A forward count equal to h + w - 1 is a correct answer on its own: it meets every bound. |
| PrepareToEscape.MinDist | 3.2.prepare_to_escape/solution.py:143-147 | `min` over a non-empty neighbour list is one of the distances and no larger than any. |
| PrepareToEscape.Least | 3.2.prepare_to_escape/solution.py:151-153 | The result is at most the forward count and every score, and equals one of them. |
| PrepareToEscape.BestOf | 3.2.prepare_to_escape/solution.py:151-153 | The least of the forward count and the scores is at most each of them and equal to one of them. |
| PrepareToEscape.BestAnswers | 3.2.prepare_to_escape/solution.py:136-153 | That least value is an answer: at least h + w - 1, at most the shortest route and every candidate's score, and equal to one of them. |
| PrepareToEscape.Decide | 3.2.prepare_to_escape/solution.py:133-153 | The returned value is an answer in that sense, on the early-return path as well. |
| PrepareToEscape.Solution | 3.2.prepare_to_escape/solution.py:82-153 | For any maze with an open start corner, including one whose exit corner is a wall: the answer is at least h + w - 1, at most the shortest open route and every candidate wall's score, and equal to one of them. |
| EscapePods.SuperPathCells | 4.2.espace-pods/solution.py:28-56 | `superPath` as written: rooms copied one step in, INFINITE from the super source to rooms 0 .. len(entrances) - 1 by position, INFINITE from every exit to the super sink, 0 elsewhere. |
| EscapePods.CopyPath | 4.2.espace-pods/solution.py:41-46 | The super matrix is square, two rooms larger than the corridor matrix. |
| EscapePods.ConnectEntrancePositions | 4.2.espace-pods/solution.py:49-50 | As written: the super source feeds rooms 1 .. k, one per entrance position. EscapePods.EntrancePositionCells gives the cells. |
| EscapePods.EntrancePositionCells | 4.2.espace-pods/solution.py:49-50 | Row 0 gets INFINITE in columns 1 .. k; every other cell is unchanged. |
| EscapePods.ConnectEntrances | 4.2.espace-pods/solution.py:49-50 | As intended: the super source feeds each entrance room. EscapePods.EntranceCells gives the cells. |
| EscapePods.EntranceCells | 4.2.espace-pods/solution.py:49-50 | Row 0 gets INFINITE in column e + 1 exactly for the entrances e; every other cell is unchanged. |
| EscapePods.ConnectExits | 4.2.espace-pods/solution.py:53-54 | Every exit room feeds the super sink, and the matrix stays square. |
| EscapePods.ExitCells | 4.2.espace-pods/solution.py:53-54 | Column n - 1 gets INFINITE exactly in the rows e + 1 of the exits e; every other cell is unchanged. |
| EscapePods.EntrancePositionCounterexample | 4.2.espace-pods/solution.py:49-50 | With entrance room 1 and exit room 0, the super source as written feeds the exit room and not the entrance. |
| EscapePods.SuperPathFixedCells | 4.2.espace-pods/solution.py:28-56 | The corrected super path: as above, except that the super source feeds exactly the entrance rooms. |
| EscapePods.EntranceCapacity | 4.2.espace-pods/solution.py:49-50 | Connecting the entrances gives the super source a non-negative row of total at most INFINITE per entrance. |
| EscapePods.SourceRowBound | 4.2.espace-pods/solution.py:49-50 | The super source's row is non-negative and sums to at most len(entrances) * INFINITE. |
| EscapePods.GetAugmentedPath | 4.2.espace-pods/solution.py:59-87 | The search returns true exactly when the sink is reachable over positive residual corridors. Then `previous` traces such a path back to the source. |
| EscapePods.ScanRow | 4.2.espace-pods/solution.py:75-84 | Scanning one row keeps the search state. It stops exactly at the sink, with a valid trace. |
| EscapePods.TraceExtend | 4.2.espace-pods/solution.py:78-80 | Discovering a room over a positive corridor keeps the trace valid. |
| EscapePods.PopFrontier | 4.2.espace-pods/solution.py:74-74 | The dequeued room is visited, in range and not yet scanned, and the search state holds with it being scanned. |
| EscapePods.RetraceFacts | 4.2.espace-pods/solution.py:106-112 | Walking `previous` back from the sink gives a residual path from the source, in discovery order. |
| EscapePods.RetraceSimple | 4.2.espace-pods/solution.py:106-112 | The retraced path repeats no node, so the walk terminates. |
| EscapePods.Bottleneck | 4.2.espace-pods/solution.py:104-112 | `cflow` is positive, at most every residual along the path, and equal to one of them unless it stays INFINITE. |
| EscapePods.BottleneckAlong | 4.2.espace-pods/solution.py:106-112 | Walking back along `previous`, cflow ends positive, at most every residual on the path, and equal to one of them unless it stays INFINITE. |
| EscapePods.Augment | 4.2.espace-pods/solution.py:117-123 | Each forward residual on the path drops by `cflow` and each reverse one rises by it. Nothing off the path changes. |
| EscapePods.AugmentEdge | 4.2.espace-pods/solution.py:120-122 | Updating one edge moves the push one edge further: the forward residual drops by cflow and the reverse one rises by it. |
| EscapePods.AugmentKeepsSkew | 4.2.espace-pods/solution.py:117-123 | `spath[u][v] + spath[v][u]` is preserved for every pair. |
| EscapePods.AugmentKeepsNonNegative | 4.2.espace-pods/solution.py:117-123 | A push no larger than the bottleneck leaves every non-negative residual non-negative. |
| EscapePods.AugmentSourceRow | 4.2.espace-pods/solution.py:115-123 | The source's outgoing residual drops by exactly the flow added to `maxflow`. |
| EscapePods.AugmentConserves | 4.2.espace-pods/solution.py:117-123 | Flow conservation: every node other than the path's two ends keeps its row sum. |
| EscapePods.RoundKeepsResidual | 4.2.espace-pods/solution.py:115-123 | One round keeps the residual invariant, and the flow grows by the amount pushed. |
| EscapePods.MaxFlow | 4.2.espace-pods/solution.py:96-125 | `maxflow` is the source's lost residual and is between 0 and the source's capacity. It is 0 when no augmenting path exists at the start. Interior nodes conserve flow, and the final residual has no augmenting path. |
| EscapePods.Solution | 4.2.espace-pods/solution.py:1-125 | On the corrected super path, the result is the flow of a residual matrix that leaves no augmenting path from the super source to the super sink. It is between 0 and len(entrances) * INFINITE, and 0 when no exit can be reached. |
| FreeBunnies.ChooseIsBinomial | 4.1.free_the_bunny_prisoners/solution.py:39-45 | `choose(n, k)` is Pascal's binomial coefficient, so the division is exact. |
| FreeBunnies.ChooseSymmetric | 4.1.free_the_bunny_prisoners/solution.py:33-36 | choose(n, k) = choose(n, n - k). |
| Arith.BinomialTimesFactorials | 4.1.free_the_bunny_prisoners/solution.py:44-45 | Binomial(n, k) * k! * (n - k)! = n!. |
| FreeBunnies.RankBound | 4.1.free_the_bunny_prisoners/solution.py:94-101 | The colexicographic rank of a bit string with m ones of length L is below choose(L, m), so each column target is in range. |
| FreeBunnies.RankInjective | 4.1.free_the_bunny_prisoners/solution.py:94-127 | Two bit strings of one length, with as many ones and one rank, are equal, so distinct targets hold distinct combinations. |
| FreeBunnies.RankOfZerosThenOnes | 4.1.free_the_bunny_prisoners/solution.py:124-125 | The arrangement 0...01...1 has the top rank choose(n, t) - 1. So the loop ends exactly at the last combination. |
| FreeBunnies.LowStep | 4.1.free_the_bunny_prisoners/solution.py:104-107 | Moving the top 1 of the bottom block up one place gives the combination of next rank. |
| FreeBunnies.ShiftStep | 4.1.free_the_bunny_prisoners/solution.py:114-127 | Shifting a block of ones gives the combination of next rank, with as many ones. |
| FreeBunnies.ShiftLast | 4.1.free_the_bunny_prisoners/solution.py:124-125 | When the block of ones has reached the top, the combination has the last rank, choose(n, t) - 1. |
| FreeBunnies.WriteColumn | 4.1.free_the_bunny_prisoners/solution.py:96-99 | Column `target` gets the bit string top bit first; every other cell is unchanged. |
| FreeBunnies.ShiftBlock | 4.1.free_the_bunny_prisoners/solution.py:114-121 | The inner loop clears the block of ones from r0 up, refills the bottom with all but one of them, and stops at the first 0 above. |
| FreeBunnies.NextComb | 4.1.free_the_bunny_prisoners/solution.py:103-130 | One pass steps to the combination of next colexicographic rank, or breaks exactly when the current one was the last. |
| FreeBunnies.LexCombs | 4.1.free_the_bunny_prisoners/solution.py:48-132 | n = t gives every row [1]. n < t gives empty rows. t = 0 gives rows of nlocks zeros. Otherwise column c holds the t-subset of colexicographic rank nlocks - 1 - c. |
| FreeBunnies.RankedColumnsAreAllCombs | 4.1.free_the_bunny_prisoners/solution.py:80-127 | The columns are pairwise distinct, and every t-subset of the bunnies is some column. |
| FreeBunnies.KeysOfComplete | 4.1.free_the_bunny_prisoners/solution.py:142-146 | Every position holding a 1 is listed. With `KeysOf`'s own ensures, the list is exactly the 1-positions in increasing order. |
| FreeBunnies.KeysOf | 4.1.free_the_bunny_prisoners/solution.py:142-146 | Only positions holding a 1 are listed, in increasing order. |
| FreeBunnies.KeysOfLength | 4.1.free_the_bunny_prisoners/solution.py:142-146 | A bunny gets as many keys as its row has ones. |
| FreeBunnies.HoldersAreColumns | 4.1.free_the_bunny_prisoners/solution.py:135-149 | Read back from the key lists, the holders of lock c are column c of the bit matrix. |
| FreeBunnies.Solution | 4.1.free_the_bunny_prisoners/solution.py:152-168 | num_required = 1 gives every bunny key [0]. num_required = num_buns + 1 gives no keys. Otherwise the key lists use choose(num_buns, num_required - 1) locks, each held by num_buns - num_required + 1 bunnies, no two locks with the same holders, and every such group of bunnies holding some lock. For every num_required <= num_buns, any num_required bunnies hold every key, and no num_required - 1 bunnies do. |
| FreeBunnies.EnoughOpen | 4.1.free_the_bunny_prisoners/solution.py:5-7 | Under the key ring, any group of at least num_required bunnies holds the key of every lock. |
| FreeBunnies.FewerDoNotOpen | 4.1.free_the_bunny_prisoners/solution.py:5-7 | Under the key ring, every group of num_required - 1 bunnies misses the key of some lock. |
| FreeBunnies.KeyRingOpens | 4.1.free_the_bunny_prisoners/solution.py:5-7 | Both halves of the promise, for every group of bunnies. |
| FreeBunnies.OneLockOpens | 4.1.free_the_bunny_prisoners/solution.py:57-60 | With num_required = 1 there is one lock and every bunny holds its key: any one bunny opens it, and the empty group does not. |
| DisorderlyEscape.PartitionsGen | 5.2.disorderly-escape/solution.py:71-82 | Every generated list is a nondecreasing partition of n into parts of at least `lower`, and the first is [n]. |
| DisorderlyEscape.Branches | 5.2.disorderly-escape/solution.py:77-81 | The loop over i yields only partitions of n with at least two parts, the smallest at least i. |
| DisorderlyEscape.PartitionsGenComplete | 5.2.disorderly-escape/solution.py:71-82 | Every partition of n is generated. |
| DisorderlyEscape.PartitionsGenDistinct | 5.2.disorderly-escape/solution.py:71-82 | No partition is generated twice. |
| DisorderlyEscape.ThreeHasThreePartitions | 5.2.disorderly-escape/solution.py:72-78 | For n = 3 the generator yields [3], [1, 2], [1, 1, 1]. The docstring writes the second as [2, 1], but the code puts the smallest part first. |
| DisorderlyEscape.TallyWellFormed | 5.2.disorderly-escape/solution.py:108-112 | A partition's count dictionary names exactly its parts, each once, with positive counts. |
| DisorderlyEscape.Increment | 5.2.disorderly-escape/solution.py:111-112 | The count of the part goes up by one; the others are unchanged. |
| DisorderlyEscape.Tally | 5.2.disorderly-escape/solution.py:108-112 | Each part is counted by its multiplicity in the partition. |
| DisorderlyEscape.TallyWeightedSum | 5.2.disorderly-escape/solution.py:98-101 | The sum over the counts of part times count equals the partition's sum. |
| DisorderlyEscape.Partitions | 5.2.disorderly-escape/solution.py:85-114 | One count dictionary per generated partition, counting each part by its multiplicity. |
| DisorderlyEscape.PartitionsAreCycleTypes | 5.2.disorderly-escape/solution.py:98-101 | Every count dictionary satisfies 1 j1 + 2 j2 + ... + n jn = n. |
| DisorderlyEscape.CycleCoefficientExtremes | 5.2.disorderly-escape/solution.py:117-140 | The coefficient of {1: n} is 1 (the identity), and that of {n: 1} is (n - 1)! (the n-cycles). |
| DisorderlyEscape.Divisor | 5.2.disorderly-escape/solution.py:131-138 | The divisor, the product of k^jk jk!, is at least 1, so the division never divides by zero. |
| DisorderlyEscape.ExponentPositive | 5.2.disorderly-escape/solution.py:155-159 | The exponent, the sum of gcd(r, t) jr jt, is at least 1. |
| DisorderlyEscape.ExponentSymmetric | 5.2.disorderly-escape/solution.py:155-159 | Exchanging the two dictionaries keeps the exponent. |
| DisorderlyEscape.Solution | 5.2.disorderly-escape/solution.py:145-164 | With no states the count is 0. With s >= 0 states it is never negative. |
| DisorderlyEscape.SolutionSymmetric | 5.2.disorderly-escape/solution.py:145-163 | The answer is symmetric: solution(w, h, s) = solution(h, w, s). |
| DisorderlyEscape.SingleCell | 5.2.disorderly-escape/solution.py:145-163 | A 1 x 1 grid has exactly s configurations. |
| Arith.GcdDividesBoth | 5.2.disorderly-escape/solution.py:157-159 | The gcd of line 159 divides both cycle lengths. |
| Arith.CommonDivisorDividesGcd | 5.2.disorderly-escape/solution.py:157-159 | Every common divisor divides it, so it is the greatest one. |
| NebulaRule.FirstMoveOptionsExact | 5.1.expanding-nebula/solution.py:40-64 | The seed table for target t lists each 2x2 window producing t exactly once: the 4 with a single 1 under gas, the 12 others elsewhere. |
| NebulaRule.FirstMoveOptions | 5.1.expanding-nebula/solution.py:40-64 | Every listed window is four bits that produce the target. |
| NebulaRule.MoveOptionsExact | 5.1.expanding-nebula/solution.py:66-97 | For carry v, (a, b) is listed exactly when v + a + b = 1 agrees with the target being 1, each once. `moveOptions[1][2]` is empty. |
| NebulaRule.MoveOptions | 5.1.expanding-nebula/solution.py:66-97 | Every listed column is two bits that, after a column of sum v, produce the target. |
| NebulaRule.TransposeTwice | 5.1.expanding-nebula/solution.py:323-323 | `zip(*g)` on a rectangular grid swaps rows and columns, and doing it twice gives the grid back. |
| NebulaRule.Transpose | 5.1.expanding-nebula/solution.py:323-323 | The transpose is rectangular with the dimensions swapped, and cell (i, k) is cell (k, i) of the grid. |
| NebulaRule.ConvertToBin | 5.1.expanding-nebula/solution.py:100-111 | Each cell becomes 1 exactly when it is True. |
| NebulaIds.IdIsPositional | 5.1.expanding-nebula/solution.py:213-228 | The id, computed by Horner's rule, equals the loop's sum of row[i] * 2^(len-1-i). `getId` (lines 300-316) is the same loop. |
| NebulaIds.IdBound | 5.1.expanding-nebula/solution.py:213-228 | The id of a 0/1 row of length n is in [0, 2^n). |
| NebulaIds.IdInjective | 5.1.expanding-nebula/solution.py:300-316 | Two 0/1 rows of one length with one id are the same row. |
| NebulaIds.RowOfId | 5.1.expanding-nebula/solution.py:213-228 | Reading a row's id back in n bits gives the row. |
| NebulaIds.IdOfRowOf | 5.1.expanding-nebula/solution.py:213-228 | Every id in [0, 2^n) is the id of the n-bit row spelling it. |
| NebulaRows.StripsExact | 5.1.expanding-nebula/solution.py:260-297 | `solBFS` adds every 2 x (w+1) strip whose every window produces its nebula cell, each exactly once, and nothing else. |
| NebulaRows.DrainAddsOut | 5.1.expanding-nebula/solution.py:281-297 | The stack loop terminates and adds, in order, exactly the strips reachable from the stack. |
| NebulaRows.ExtExact | 5.1.expanding-nebula/solution.py:289-295 | The strips reached from a consistent partial strip are exactly its completions, each once. |
| NebulaRows.OutExact | 5.1.expanding-nebula/solution.py:281-297 | From a stack of consistent partial strips, the loop outputs exactly their completions, each once. |
| NebulaRows.SeedsCover | 5.1.expanding-nebula/solution.py:279-287 | Every valid strip completes one of the seeds pushed from the seed table. |
| NebulaRows.SingleCellStrips | 5.1.expanding-nebula/solution.py:279-287 | With one cell per row, every seed is already complete, so the row has as many strips as the seed table lists. |
| NebulaIndex.AddUpper | 5.1.expanding-nebula/solution.py:231-257 | `add` files the strip's lower id under its upper id, and the upper id in the upper set. |
| NebulaIndex.AddLower | 5.1.expanding-nebula/solution.py:231-257 | `add` files the strip's upper id under its lower id, and the lower id in the lower set. |
| NebulaIndex.AddAllFiles | 5.1.expanding-nebula/solution.py:202-257 | After adding S to an empty record, both id sets equal the key sets. Each list holds, in order, the other ids of the strips filed under its key. |
| NebulaIndex.UpperTotal | 5.1.expanding-nebula/solution.py:231-257 | After k calls to `add`, the lists in `upperIDs` have total length k. |
| NebulaIndex.LowerTotal | 5.1.expanding-nebula/solution.py:231-257 | After k calls to `add`, the lists in `bottomIDs` have total length k. |
| NebulaIndex.PairCountExact | 5.1.expanding-nebula/solution.py:241-242 | Among distinct strips of one width, an (upper id, lower id) pair names at most one strip. |
| NebulaIndex.SolBFSDescribes | 5.1.expanding-nebula/solution.py:260-297 | The record `solBFS` returns files, for each pair of ids, as many links as there are strips of the row with those boundary rows. |
| NebulaIndex.StripsPairs | 5.1.expanding-nebula/solution.py:260-297 | Counted by (upper id, lower id), the strips of a row are the link relation of the reference. |
| NebulaMerge.Init | 5.1.expanding-nebula/solution.py:129-141 | Each bottom id is counted by the length of its list, and the id set is kept. |
| NebulaMerge.InitTotal | 5.1.expanding-nebula/solution.py:129-182 | `Solution(rs).countSolutions()` is the number of strips added to rs. |
| NebulaMerge.AddCount | 5.1.expanding-nebula/solution.py:161-163 | The inner loop adds the count to every new id once per occurrence, and creates the ids it meets. |
| NebulaMerge.MergeStep | 5.1.expanding-nebula/solution.py:159-163 | Visiting one more shared id adds its contribution to every bottom id it links to. |
| NebulaMerge.Merge | 5.1.expanding-nebula/solution.py:144-167 | A new bottom id's count is the sum, over ids both counted and filed as upper ids, of count times occurrences in the filed list. Exactly the ids listed there survive, and the id set becomes the key set. |
| NebulaMerge.CountSolutions | 5.1.expanding-nebula/solution.py:170-182 | The total is the sum of the counts, whatever the iteration order. |
| NebulaReference.PreimagesExact | 5.1.expanding-nebula/solution.py:1-4 | The reference lists every previous state of the first k rows exactly once, and nothing else. |
| NebulaReference.ChildrenExact | 5.1.expanding-nebula/solution.py:1-4 | One row down, the grids extending a partial state are listed exactly and once each. |
| NebulaReference.GrowExact | 5.1.expanding-nebula/solution.py:1-4 | Growing a list of distinct partial states lists exactly their consistent extensions, each once. |
| NebulaReference.GrowLasts | 5.1.expanding-nebula/solution.py:144-167 | Counted by last row, the grown states are the sum of links from the previous last rows. This is the count `merge` maintains. |
| NebulaReference.FirstLasts | 5.1.expanding-nebula/solution.py:129-141 | Counted by last row, the first row's states are the links into it from every candidate upper row. This is the count `Solution.__init__` makes. |
| ExpandingNebula.MergeAgrees | 5.1.expanding-nebula/solution.py:144-167 | Merging row k's record into a count that agrees with the reference for k rows gives one that agrees for k + 1 rows, counted by last-row id. |
| ExpandingNebula.InitAgrees | 5.1.expanding-nebula/solution.py:333-335 | The count made from the first row's record agrees with the reference for one row. |
| ExpandingNebula.TotalAgrees | 5.1.expanding-nebula/solution.py:170-182 | A count that agrees with the reference adds up to the number of previous states. |
| ExpandingNebula.PreviousTransposed | 5.1.expanding-nebula/solution.py:322-327 | G is a previous state of g (every 2x2 window of G has exactly one 1 iff the covered cell is True) exactly when G's transpose is a previous state of the transposed bit grid. |
| ExpandingNebula.Bin | 5.1.expanding-nebula/solution.py:323-324 | The bit grid is the transpose, with 1 exactly where the nebula has gas. |
| ExpandingNebula.ColumnAgrees | 5.1.expanding-nebula/solution.py:260-297 | A column of the transposed grids passes the strip test exactly when every cell down that column of g obeys the rule. |
| ExpandingNebula.PreimagesArePrevious | 5.1.expanding-nebula/solution.py:1-4 | The reference's previous states of the transposed grid are exactly the transposes of g's previous states, each once. |
| ExpandingNebula.Lookup | 5.1.expanding-nebula/solution.py:339-347 | Memoisation is transparent: the record used for a row is `solBFS` of that row, whether it came from the memo or not. |
| ExpandingNebula.NextRow | 5.1.expanding-nebula/solution.py:337-350 | One pass of the main loop keeps the count in agreement with the reference, one row further. |
| ExpandingNebula.Solution | 5.1.expanding-nebula/solution.py:322-353 | The result is the number of previous states of the nebula. For a single cell it is 4 with gas and 12 without. |
| ExpandingNebula.SolutionTransposed | 5.1.expanding-nebula/solution.py:322-353 | A nebula and its transpose have the same number of previous states: transposing maps the previous states of one onto those of the other, one to one. |
| ExpandingNebula.SingleCell | 5.1.expanding-nebula/solution.py:40-64 | A one-cell nebula has 4 previous states with gas and 12 without. |

## Left out

- Decimal rendering with `str(...)` (5.2 line 164, 3.1 lines 17-43, 2.1 line 25): the model returns the integer.
- The `@profile` decorator (3.1 line 1) is a profiler hook with no logic.
- The `deepcopy` calls (5.1 lines 37, 292, 335) copy values. Dafny's sequences and maps are immutable, so they are not needed.
- In-place mutation: `merge` replaces the `Solution` object's fields, and the memo shares `RowSolution` objects between rows. The model returns new values. The memo's records are never changed after they are stored, so this changes nothing.
- FreeBunnies.Solution: does not state that each bunny holds exactly choose(num_buns - 1, num_required - 1) keys, the unused `kpb` of line 160. The columns are proved to be all t-subsets, each once. The count per row is a further counting argument that is not proved.
- DisorderlyEscape.Solution: the division by h! w! at line 163 is modelled as Python's floor division. The model proves only the answer's symmetry, its 1 x 1 case, its sign and its value 0 with no states. Burnside's lemma, which makes the division exact and the result the number of orbits, is not proved. Nor is the exactness of `cycle_coefficient`'s division at line 140, or that its value counts the permutations of n elements with jk cycles of length k; only its values at {1: n} and {n: 1} are proved.
- EscapePods.MaxFlow: proves the flow invariants and that no augmenting path remains at the end. The max-flow min-cut theorem, which makes that flow optimal, is not proved. Termination is shown with the source's residual capacity as the measure, on integers.
- PrepareToEscape.Solution: proves the lower bound h + w - 1, that the answer is at most the shortest route and every candidate's score, and that it equals one of them. Whether that is the shortest route with at most one wall removed is not proved. The source's candidate set is a heuristic and is modelled as written.
- PrepareToEscape.Solution: requires `Escapable` and an open start corner. The source assumes a maze with a route or a useful wall, and raises on `min([])` at line 153 otherwise. With a wall in the start corner, a candidate wall next to it can have no open neighbour, and line 144 calls `min([])`. A wall in the exit corner is allowed.
- AccessCode.Solution: requires every entry except the last to be nonzero. The source raises on `%` by zero otherwise.
- FreeBunnies.Solution: requires 1 <= num_required <= num_buns + 1. For 0 the source calls `factorial(-1)`; above num_buns + 1 it indexes past the end of a row.
- EscapePods.Solution: requires a square corridor matrix and entrances and exits that are rooms. The source indexes out of range otherwise. The list of entrances may be of any length, repeats included. Only the as-written `SuperPath` needs at most |path| + 1 of them (`AsWrittenInput`): beyond that, line 50 indexes past the last column and raises.
- EscapePods.Solution: the result is a flow with no augmenting path left. Max-flow min-cut, which makes such a flow maximal, is not proved, so the result is not stated to be the maximum number of bunnies.
- ExpandingNebula.Solution: requires a non-empty rectangular grid. On a ragged grid `zip` silently truncates, and on an empty grid line 327 raises.
- The order of the breadth-first queue in 4.2's `getAugmentedPath` and 3.2's `solve` is modelled exactly. The Edmonds-Karp bound on the number of rounds is not proved.
- DisorderlyEscape.Solution: requires w, h >= 1 (the `Part` type). For w = 0 or h = 0, `partitionsGen(0)` yields [0], so `cycle_coefficient` builds the divisor 0**1 * 1! = 0 and line 140 raises ZeroDivisionError.
- Integer widths: Python integers are unbounded, and so are Dafny's `int`. 3.1's `long` changes nothing here.

## Findings

| source | as written | input that shows it | evidently intended | confidence | as-written member | corrected member |
|---|---|---|---|---|---|---|
| 4.2.espace-pods/solution.py:49-50 | `spath[0][i+1] = INFINITE` for each position i of the entrance list, so the super source feeds rooms 0 .. len(entrances) - 1 whatever the entrances are | entrances [1], exits [0], path [[0, 0], [5, 0]]: the super source has an INFINITE corridor into room 0, the exit, and room 0 an INFINITE one into the super sink, while the entrance room 1 gets none. The super path thus offers a capacity-INFINITE route that bypasses the only real corridor, of capacity 5. The flow value itself is not derived | `spath[0][e+1] = INFINITE` for each entrance room e, as lines 53-54 do for exits | high, not executed | EscapePods.EntrancePositionCounterexample | EscapePods.SuperPathFixedCells |
