# 8-puzzle solver core, modelled in Dafny

The repository is an 8-puzzle solver. Search algorithms (breadth-first, depth-first,
uniform cost, greedy, A*, IDA*) run over a generic search problem, and a desktop
window, a command line, a web API and a web page present the results. This project
models the parts those algorithms and front ends share, and proves what they promise:

- `structures.dfy` (module `Structures`): the frontier structures of `Strucure.py`.
  - A list-backed LIFO `Stack`.
  - A circular-buffer FIFO `Queue` that doubles its capacity when full.
  - A 1-indexed binary `MinHeap` ordered by (priority, insertion counter).
  - The `PriorityQueue` wrapper around the heap.
  - The file's own quick tests.

  These are classes whose methods update their fields in place, as in the source.
- `abstractions.dfy` (module `Abstractions`): the generic `Problem` and the search
  `Node` of `Abstractions.py`.
  - `successors`, `goal_test`, `Node(...)` and `expand`.
  - The loops that rebuild the path and the action list from a goal node.

  Nodes live in an arena, a sequence in which each parent precedes its children.
- `eight_puzzle.dfy` (module `EightPuzzleProblem`): the 8-puzzle of
  `Problems/N-8-Problem.py`. It covers boards, `actions`, `result`, `step_cost`,
  `successors`, and action plans replayed from a board.
- `heuristics.dfy` (module `Heuristics`): the misplaced-tiles and Manhattan-distance
  heuristics of `Heuristics.py`.
- `parse_state.dfy` (module `ParseState`): the web page's `parseInitialState`,
  `isSolvable` (inversion parity), `matrixToString` and preset boards
  (`web-frontend/utils/parseState.js`).
- `api_backend.dfy` (module `ApiBackend`): the web API helpers of `api-backend/main.py`.
  - Matrix and tuple conversions and the check of the submitted board.
  - `get_move_description`.
  - The loop of `reconstruct_solution_steps`, which turns a solution into the list of
    steps shown to the user.
- `puzzle_gui.dfy` (module `PuzzleGui`): `validate_input` of the desktop window
  (`main_UI_new.py`).
- `base.dfy` and `text.dfy` (modules `Base` and `Text`): generic sequence facts and a
  model of whitespace tokenising (`str.split()`, `text.trim().split(/\s+/)`) and of
  integer numerals.

A board is a sequence of nine integers read row by row, with 0 for the blank. An
action names the direction in which the blank moves: "up", "down", "left" or "right".

The main results are these:

- Each frontier structure keeps its order: LIFO, FIFO (also across growth), and
  minimum-first with ties broken by insertion order.
- Path and action reconstruction return the root-to-goal replay of the plan, and `g`
  is its cost.
- Legal moves keep a board a board and can be undone.
- Each heuristic is 0 at the goal and bounded (8 and 32), misplaced ≤ Manhattan, and a
  move changes Manhattan by exactly one.
- Moves keep the inversion parity, so every board that can reach the goal passes
  `isSolvable`.
- The web parser and the desktop validator accept exactly the boards: whatever they
  accept is a board, and any text of nine numbers forming a board is accepted as that
  board, whatever whitespace separates them. The web parser accepts what the
  serialiser writes.
- The step list of the web API has one step per action, with depth and cost k at step
  k and the board reached after k moves.

## Model

| member | source | states |
|---|---|---|
| Structures.Stack.constructor | Strucure.py:2 | a new stack is empty |
| Structures.Stack.Push | Strucure.py:3 | the item is appended on top |
| Structures.Stack.Pop | Strucure.py:4-6 | an empty stack yields None and is unchanged (IndexError in the source); otherwise the last pushed item is returned and removed |
| Structures.Stack.IsEmpty | Strucure.py:7 | true exactly when the size is 0 |
| Structures.Stack.Len | Strucure.py:8 | the number of items on the stack (no contract of its own; `IsEmpty` is stated through it) |
| Structures.Queue.constructor | Strucure.py:12-13 | a queue of the given capacity (16 by default) is empty with head = tail = 0 |
| Structures.Queue.Grow | Strucure.py:14-18 | the buffer doubles, the items are copied in queue order to the front, head is 0 and tail is the size; the contents are unchanged |
| Structures.Queue.Enqueue | Strucure.py:25-29 | the item joins the back of the queue; the buffer is replaced by one twice as large exactly when it was full |
| Structures.Queue.Dequeue | Strucure.py:30-35 | an empty queue yields None and is unchanged; otherwise the front item is returned and removed, and the buffer keeps its size |
| Structures.Queue.Push | Strucure.py:20-21 | the same as Enqueue: the item joins the back, and the buffer is replaced by one twice as large exactly when it was full |
| Structures.Queue.Pop | Strucure.py:22-23 | the same as Dequeue |
| Structures.Queue.IsEmpty | Strucure.py:36 | true exactly when the queue holds no items |
| Structures.Queue.Len | Strucure.py:37 | the number of items in the queue |
| Structures.RootIsMinimum | Strucure.py:39-40 | in a heap, the root is ≤ every entry by (priority, counter) |
| Structures.RootIsMinimumOf | Strucure.py:55-63 | the root of a non-empty heap is the minimum of its contents |
| Structures.MinimumIsUnique | Strucure.py:48-51 | with distinct insertion counters, the minimum entry is unique, so ties in priority are broken by insertion order |
| Structures.SiftUpStep | Strucure.py:65-70 | one swap of sift-up moves the only heap violation one level up and keeps the entries |
| Structures.SiftDownStep | Strucure.py:72-79 | one swap with the smaller child moves the only heap violation one level down |
| Structures.SmallerChild | Strucure.py:75-76 | the child chosen is a child of i that is ≤ both children |
| Structures.SiftDownDone | Strucure.py:74-77 | stopping when no child is smaller, or when there is no child, leaves a heap |
| Structures.MoveLastToRoot | Strucure.py:58-61 | removing the last entry and putting it at the root leaves a heap except at the root |
| Structures.MinHeap.constructor | Strucure.py:41-43 | a new heap is empty with counter 0 |
| Structures.MinHeap.Len | Strucure.py:45 | the number of entries |
| Structures.MinHeap.IsEmpty | Strucure.py:46 | true exactly when there are no entries |
| Structures.MinHeap.Push | Strucure.py:48-53 | the counter grows by one and the entry (priority, counter, item) is added; the heap order is kept |
| Structures.MinHeap.Pop | Strucure.py:55-63 | an empty heap yields None; otherwise the minimum entry's (priority, item) is returned and that entry removed; the heap order is kept |
| Structures.MinHeap.DropRoot | Strucure.py:58-62 | the root is removed, and the last entry takes its place when any remain |
| Structures.MinHeap.SiftUp | Strucure.py:65-70 | restores the heap order from a single violation above i, keeping the multiset of entries |
| Structures.MinHeap.SiftDown | Strucure.py:72-79 | restores the heap order from a single violation below i, keeping the multiset of entries |
| Structures.PriorityQueue.constructor | Strucure.py:83-84 | a new priority queue wraps an empty heap |
| Structures.PriorityQueue.Push | Strucure.py:86-87 | the item goes into the heap with its priority |
| Structures.PriorityQueue.Pop | Strucure.py:89-91 | the item of the minimum entry, with the priority dropped; None when empty |
| Structures.PriorityQueue.IsEmpty | Strucure.py:93 | true exactly when the heap is empty |
| Structures.PriorityQueue.Len | Strucure.py:94 | the size of the heap |
| Structures.StackSelfTest | Strucure.py:98-100 | 0, 1, 2 pushed come back 2, 1, 0, then the stack is empty |
| Structures.QueueSelfTest | Strucure.py:101-103 | 0, 1, 2 enqueued come back 0, 1, 2, then the queue is empty |
| Structures.QueueGrowthFifo | Strucure.py:10-35 | n items enqueued into a queue of capacity 1, growing as needed, come back in insertion order |
| Structures.HeapSelfTest | Strucure.py:104-111 | the five (item, priority) pushes pop as items 1, 4, 5, 2, 3 |
| Structures.Fill | Strucure.py:105-106 | pushing the pairs in order yields a heap that holds exactly their entries |
| Structures.PopFirst | Strucure.py:108-110 | popping a heap whose entries sort as es returns the item of es[0] and leaves es[1..] |
| Structures.Drain | Strucure.py:107-111 | popping until empty returns the items in ascending (priority, counter) order |
| Structures.AscendingHeadIsMinimum | Strucure.py:55-63 | the first of an ascending sequence of entries is the minimum of its multiset |
| Abstractions.WithUnitCost | Abstractions.py:14 | a problem that keeps the default `step_cost` charges 1 for every step |
| Abstractions.GoalTest | Abstractions.py:24-25 | defers to the problem's goal test (no contract of its own) |
| Abstractions.Successors | Abstractions.py:17-22 | one triple per action, in order: the action, its result and its step cost |
| Abstractions.NewNode | Abstractions.py:29-35 | a root has g = 0 and depth 0; a child has its parent's g plus the step cost and its parent's depth plus one |
| Abstractions.Expand | Abstractions.py:37-39 | one child node per successor, with the state, the action and the cost of that successor |
| Abstractions.NewRootConsistent | Abstractions.py:29-35 | adding a root keeps every node consistent with its parent |
| Abstractions.ExpandConsistent | Abstractions.py:37-39 | adding the children of a node keeps every node consistent with its parent |
| Abstractions.Root | Abstractions.py:45-47 | following parents from a node ends at a node without a parent |
| Abstractions.PathTo | Abstractions.py:41-48 | the path from the root has depth + 1 states and ends at the node's state |
| Abstractions.PathShape | Abstractions.py:41-48 | the path starts at the root's state |
| Abstractions.ActionsTo | Abstractions.py:50-57 | no actions when the node has none; otherwise the list ends with the node's own action; never more than depth + 1 actions |
| Abstractions.ActionsLength | Abstractions.py:50-57 | exactly depth actions when every non-root node records its action |
| Abstractions.ActionsStopAtNone | Abstractions.py:54 | the walk stops at the first node without an action, even if that node has a parent |
| Abstractions.ReplaySnoc | Abstractions.py:37-39 | replaying one more action appends its result to the replay |
| Abstractions.PathIsReplay | Abstractions.py:33-48 | the path is the replay of the actions from the root, and g is the cost of that plan |
| Abstractions.ReconstructPath | Abstractions.py:41-48 | the loop returns the root-to-goal path of states |
| Abstractions.ReconstructActions | Abstractions.py:50-57 | the loop returns the root-to-goal list of actions |
| EightPuzzleProblem.Blank | Problems/N-8-Problem.py:28 | the position of a 0 on the board (the first one) |
| EightPuzzleProblem.WithDefaultGoal | Problems/N-8-Problem.py:16-18 | the puzzle's goal defaults to 1..8 followed by the blank |
| EightPuzzleProblem.IsGoal | Problems/N-8-Problem.py:23-24 | a state is the goal when it equals the puzzle's goal (no contract of its own) |
| EightPuzzleProblem.StepCost | Problems/N-8-Problem.py:64-65 | every move costs 1 (no contract of its own) |
| EightPuzzleProblem.Actions | Problems/N-8-Problem.py:26-37 | each direction is offered exactly when the blank can move that way; the order is up, down, left, right; between 2 and 4 moves |
| EightPuzzleProblem.Target | Problems/N-8-Problem.py:44-56 | the blank's new cell is one row up or down, or one column left or right |
| EightPuzzleProblem.ResultOf | Problems/N-8-Problem.py:39-62 | an unknown action fails with "Acción inválida: " and the action; otherwise the blank and the tile at the target swap and nothing else changes |
| EightPuzzleProblem.Successors | Problems/N-8-Problem.py:67-72 | one (action, result, 1) triple per offered action, in order |
| EightPuzzleProblem.PermutationIff | Problems/N-8-Problem.py:11-13 | a board holds each of 0..8 exactly when it has the goal's multiset |
| EightPuzzleProblem.BlankIsUnique | Problems/N-8-Problem.py:28 | on a board the blank is at the only 0 |
| EightPuzzleProblem.ResultIsPermutation | Problems/N-8-Problem.py:59-62 | a legal move takes a board to a board |
| EightPuzzleProblem.OppositeUndoes | Problems/N-8-Problem.py:26-62 | after a move the opposite move is offered and restores the board |
| EightPuzzleProblem.SuccessorsArePermutations | Problems/N-8-Problem.py:67-72 | every successor of a board is a board |
| EightPuzzleProblem.Play | api-backend/main.py:137-152 | replaying a plan of legal moves from a board gives a board |
| EightPuzzleProblem.PlaySnoc | api-backend/main.py:137-152 | a plan can be extended by a move exactly when that move is offered at the board it reaches, and the extended plan reaches that move's result |
| EightPuzzleProblem.PlayablePrefix | api-backend/main.py:137-152 | every prefix of a playable plan is playable |
| EightPuzzleProblem.AsProblemAgrees | Problems/N-8-Problem.py:15-72 | the puzzle seen as a generic problem has the same successors and the same goal test |
| EightPuzzleProblem.EasyExample | Problems/N-8-Problem.py:118-131 | the easy board is not the goal, offers up, left and right, and moving up gives 1 2 3 4 0 6 7 5 8 |
| EightPuzzleProblem.ResultAsWritten | Problems/N-8-Problem.py:39-62 | `result` as written, for any of the four directions: on offered moves it equals the model's result; only "down" and "right" can raise IndexError; any board it returns holds the same tiles |
| EightPuzzleProblem.LeftFromFirstColumn | Problems/N-8-Problem.py:49-60 | on every board with the blank in the first column, "left" is not offered, yet the code swaps the blank with the cell before it in reading order (cell 8 from cell 0), which is not a neighbour |
| EightPuzzleProblem.UpFromTopRow | Problems/N-8-Problem.py:45-60 | on every board with the blank in the top row, "up" is not offered, yet the code swaps the blank with the cell six on, in the bottom row |
| EightPuzzleProblem.DownFromBottomRow | Problems/N-8-Problem.py:47-60 | on every board with the blank in the bottom row, "down" is not offered and the code raises IndexError |
| EightPuzzleProblem.RightFromLastColumn | Problems/N-8-Problem.py:51-60 | on every board with the blank in the last column, "right" is not offered; the code raises IndexError exactly from cell 8, and otherwise swaps the blank with the first cell of the next row, which is not a neighbour |
| EightPuzzleProblem.LeftWrapsToRowAbove | Problems/N-8-Problem.py:49-60 | "left" from the first column is not offered, but the code moves the blank to the end of the row above |
| EightPuzzleProblem.UpWrapsToBottomRow | Problems/N-8-Problem.py:45-60 | "up" from the top row is not offered, but a negative index moves the blank to the bottom row |
| EightPuzzleProblem.OffTheLastCell | Problems/N-8-Problem.py:47-60 | "down" and "right" from the last cell raise IndexError rather than the ValueError for an invalid move |
| EightPuzzleProblem.CheckedResult | Problems/N-8-Problem.py:39-62 | the intended result: it succeeds exactly on offered moves, failing with the same message otherwise, and then equals ResultOf |
| EightPuzzleProblem.CheckedResultIsSlide | Problems/N-8-Problem.py:39-62 | every accepted move gives a board whose blank is next to its old cell, with the moved tile in that cell |
| Heuristics.GoalPosInverse | Heuristics.py:1-2 | GOAL_POS has keys 0..8 and is the inverse of GOAL |
| Heuristics.MisplacedTo | Heuristics.py:10-11 | the count over the first n positions is at most n, and 0 exactly when every non-blank tile there sits at its goal position |
| Heuristics.Misplaced | Heuristics.py:10-11 | the count is 0 exactly when every non-blank tile sits at its goal position |
| Heuristics.Manhattan | Heuristics.py:13-20 | the loop returns the sum over non-blank tiles of their row and column distances to their goal cells |
| Heuristics.MisplacedZeroAtGoal | Heuristics.py:10-11 | no tile of the goal is misplaced |
| Heuristics.ManhattanZeroAtGoal | Heuristics.py:13-20 | the goal's Manhattan distance is 0 |
| Heuristics.MisplacedBound | Heuristics.py:10-11 | at most 8 tiles are misplaced |
| Heuristics.ManhattanBound | Heuristics.py:13-20 | the Manhattan distance of a board is at most 32 |
| Heuristics.MisplacedBelowManhattan | Heuristics.py:10-20 | the misplaced count never exceeds the Manhattan distance |
| Heuristics.ManhattanTwoChanged | Heuristics.py:13-20 | changing two positions changes the sum by the change in those positions' shares |
| Heuristics.ManhattanMove | Heuristics.py:13-20 | a legal move changes the Manhattan distance by exactly +1 or -1 |
| Text.Tokens | web-frontend/utils/parseState.js:12 | splitting at whitespace yields non-empty tokens without whitespace |
| Text.AllSpaceNoTokens | web-frontend/utils/parseState.js:8 | a text has no tokens exactly when it is all whitespace |
| Text.TokensOfJoin | web-frontend/utils/parseState.js:74 | words without whitespace joined by a whitespace character split back into those words |
| ParseState.Numbers | web-frontend/utils/parseState.js:18 | each token is converted on its own, in order |
| ParseState.SortNumbers | web-frontend/utils/parseState.js:24 | the numeric sort returns an ascending permutation of its input |
| ParseState.AscendingUnique | web-frontend/utils/parseState.js:24 | two ascending permutations of the same numbers are equal, so the sorted order does not depend on the algorithm |
| ParseState.SortedDigits | web-frontend/utils/parseState.js:24-29 | the sorted numbers are 0..8 exactly when the numbers are 0..8 once each |
| ParseState.ParseSpec | web-frontend/utils/parseState.js:6-34 | the empty-input message is given exactly for blank text; an accepted board is a 3x3 matrix; every refusal carries one of the four messages |
| ParseState.ParseInitialState | web-frontend/utils/parseState.js:6-34 | the method's checks run in the source's order (empty, count, range, digits) and it returns their specification |
| ParseState.CheckDigits | web-frontend/utils/parseState.js:25-29 | the loop passes exactly when the sorted numbers are 0, 1, ..., 8 |
| ParseState.AcceptedIsBoard | web-frontend/utils/parseState.js:12-33 | an accepted input gives a 3x3 matrix whose rows, read in order, are the input numbers and form a board |
| ParseState.MatrixToString | web-frontend/utils/parseState.js:73-75 | a serialised 3x3 matrix splits into the numerals of its entries, row by row |
| ParseState.BoardIsAccepted | web-frontend/utils/parseState.js:6-34 | any text of nine whitespace-separated numbers that form a board is accepted as that board, in input order, on one line or several |
| ParseState.ParseSpecErrors | web-frontend/utils/parseState.js:8-22 | the count message exactly when non-blank text does not hold nine tokens; the range message exactly when nine tokens are there and one does not read as a number from 0 to 8 |
| ParseState.MatrixRoundTrip | web-frontend/utils/parseState.js:6-75 | parsing the serialisation of a board's matrix gives back that matrix |
| ParseState.IsSolvable | web-frontend/utils/parseState.js:41-55 | the double loop's verdict is true exactly when the number of inversions among the tiles is even |
| ParseState.CountBelow | web-frontend/utils/parseState.js:47-50 | the inner loop counts at most one inversion per later cell |
| ParseState.Inversions | web-frontend/utils/parseState.js:41-51 | the double loop counts at most one inversion per pair of cells |
| ParseState.InversionsAt | web-frontend/utils/parseState.js:45-51 | the inversions from position i are those of tile i with later tiles plus the ones from i + 1 |
| ParseState.SwapAdjacent | web-frontend/utils/parseState.js:45-51 | swapping two neighbours changes the count by the inversions between them |
| ParseState.SideMove | web-frontend/utils/parseState.js:41-55 | moving the blank right, and so also left (its inverse), does not change the inversion count |
| ParseState.VerticalMove | web-frontend/utils/parseState.js:41-55 | moving the blank down, and so also up (its inverse), changes the inversion count by -2, 0 or 2 |
| ParseState.MoveKeepsParity | web-frontend/utils/parseState.js:53-54 | every legal move keeps the inversion parity |
| ParseState.PlayKeepsParity | web-frontend/utils/parseState.js:53-54 | every plan of legal moves keeps the inversion parity |
| ParseState.SolvableBoardsPass | web-frontend/utils/parseState.js:53-54 | a board from which some plan reaches the goal passes isSolvable |
| ParseState.GoalInversions | web-frontend/utils/parseState.js:41-55 | the goal has no inversions |
| ParseState.InversionsBound | web-frontend/utils/parseState.js:41-51 | a board has at most 28 inversions |
| ParseState.SolvedPreset | web-frontend/utils/parseState.js:61 | the solved preset is a 3x3 matrix whose rows form the goal |
| ParseState.EasyPreset | web-frontend/utils/parseState.js:62 | the easy preset is a 3x3 matrix of a board |
| ParseState.MediumPreset | web-frontend/utils/parseState.js:63 | the medium preset is a 3x3 matrix of a board |
| ParseState.HardPreset | web-frontend/utils/parseState.js:64 | the hard preset is a 3x3 matrix of a board |
| ParseState.ExpertPreset | web-frontend/utils/parseState.js:65 | the expert preset is a 3x3 matrix of a board |
| ApiBackend.MatrixToTuple | api-backend/main.py:79-81 | a 3x3 matrix flattens row by row: entry (r, c) goes to position 3r + c |
| ApiBackend.TupleToMatrix | api-backend/main.py:83-89 | position 3r + c becomes entry (r, c) of a 3x3 matrix |
| ApiBackend.MatrixTupleRoundTrip | api-backend/main.py:79-89 | converting a 3x3 matrix to a tuple and back gives the matrix |
| ApiBackend.TupleMatrixRoundTrip | api-backend/main.py:79-89 | converting nine tiles to a matrix and back gives the tiles |
| ApiBackend.CheckInitialState | api-backend/main.py:189-196 | the submitted matrix is accepted exactly when its entries, read row by row, are a board; that board is used, and otherwise the request fails with the 3x3 message |
| ApiBackend.TileSetIff | api-backend/main.py:190 | nine entries whose set is {0, ..., 8} are exactly a board |
| ApiBackend.OneRowAccepted | api-backend/main.py:189-196 | a single row of the nine tiles is accepted even though it is not 3x3 |
| ApiBackend.Direction | api-backend/main.py:100-107 | the direction word is "Unknown" exactly when the blank's displacement is not -3, 3, -1 or 1 |
| ApiBackend.GetMoveDescription | api-backend/main.py:91-108 | the description is "Initial state" exactly when the two boards are equal |
| ApiBackend.MovedTile | api-backend/main.py:96-98 | the moved number is the tile that a legal move slides into the blank's old cell, never the blank |
| ApiBackend.DescribesLegalMove | api-backend/main.py:96-108 | a legal move is described as "Move", the moved number and the direction word of that move |
| ApiBackend.HeuristicOf | api-backend/main.py:119 | the heuristic value is present exactly when a heuristic is given, and is then that heuristic applied to the board |
| ApiBackend.InitialStep | api-backend/main.py:114-133 | the first step shows the initial board, is described as the initial state, has depth 0 and cost 0, and carries the heuristic there |
| ApiBackend.SolutionSteps | api-backend/main.py:110-154 | a successful search gives one step more than it has actions, any other gives one step, and the first step is always the initial one |
| ApiBackend.StepsFrom | api-backend/main.py:137-152 | one step per action |
| ApiBackend.ReconstructSolutionSteps | api-backend/main.py:110-154 | a failed or empty search gives only the initial step; otherwise the initial step followed by the replayed steps |
| ApiBackend.ReplaySteps | api-backend/main.py:125-154 | the loop builds the initial step followed by one step per action |
| ApiBackend.NextStep | api-backend/main.py:137-150 | one loop body: the next board is the action's result, the cost grows by the step cost, and the step records board, move, heuristic, depth i + 1 and cost |
| ApiBackend.StepsFromCounts | api-backend/main.py:137-150 | the k-th replayed step has depth and cost k more than at the start |
| ApiBackend.StepsFromShape | api-backend/main.py:137-150 | the k-th replayed step shows the board after k moves, its heuristic, and the move that led there |
| ApiBackend.SolutionStepCounts | api-backend/main.py:137-150 | step k of a solution has depth k and cost k |
| ApiBackend.SolutionStepBoard | api-backend/main.py:137-150 | step k of a solution shows the board after the first k actions and the heuristic there, and describes action k as moving the tile it slides |
| ApiBackend.SolutionStepsShape | api-backend/main.py:110-154 | a solution of n actions gives n + 1 steps, from the initial board to the board the plan reaches, and the last step costs n |
| ApiBackend.FailedSearchSteps | api-backend/main.py:114-123 | a failed or empty search gives exactly the initial board, described as the initial state, at depth 0 and cost 0 |
| PuzzleGui.ValidateInput | main_UI_new.py:156-166 | an accepted input is a board; a refused one carries one of the three messages |
| PuzzleGui.ValidInputIsBoard | main_UI_new.py:156-166 | the input is accepted exactly when it is nine numbers that form a board, and the result keeps the input order |
| PuzzleGui.AcceptedIffBoard | main_UI_new.py:162 | nine numbers sort to 0..8 exactly when they form a board |
| PuzzleGui.ValidateInputErrors | main_UI_new.py:158-166 | a token that is not an integer gives the format message whatever the count; otherwise a wrong count gives the count message |
| PuzzleGui.ValidateInputRoundTrip | main_UI_new.py:156-166 | a board's numerals separated by spaces are accepted as that board |

## Left out

- The search algorithms (`Search-algoritms/`) are not part of this model. They are
  outside the modelled core, and only their `success` flag and action list enter
  `ReconstructSolutionSteps`.
- The following are outside the core: FastAPI routing, pydantic models, timing,
  `importlib` loading, `api-backend/run.py` and `main.py`. So are the rest of the
  desktop windows (`main_UI.py` and `main_UI_new.py` apart from `validate_input`), the
  React page and components, and the Next.js configuration.
- The `HEURISTICS` table that `api-backend/main.py` imports is not defined in
  `Heuristics.py`. The API's heuristic is therefore an optional function parameter
  (`HeuristicOf`).
- The `PuzzleState` and `Puzzle` compatibility wrappers are not modelled. They only
  unwrap `.tiles` and forward to `EightPuzzle`.
- Floating-point priorities and costs (`step_cost` returns `1.0`, `g` is a float) are
  modelled as integers. Costs here are exact sums.
- JavaScript's `Number(...)` and Python's `int(...)` on a token are parameters. The
  model does not decide which strings they accept.
- Whitespace is the ASCII set: space, tab, line feed, vertical tab, form feed and
  carriage return. Unicode spaces that JavaScript's `\s` and Python's `str.split()`
  also accept are left out.
- PuzzleGui.ValidateInput: Python's `str.split()` also splits at the four separator
  characters `\x1c` to `\x1f`, which `IsSpace` treats as token characters. On
  `"0\x1c1 2 3 4 5 6 7 8"` the code sees nine numbers, and the model sees eight
  tokens. The same holds for `Text.Tokens` wherever it stands for `str.split()`.
- JavaScript's `sort` is modelled as an insertion sort on real numbers. `AscendingUnique`
  shows that every correct sort gives the same result.
- `api-backend/main.py:281-373` defines the helpers of lines 70-154 a second time. Only the
  first copy is cited.
- Structures.Queue.constructor: a capacity of 0 is excluded by a precondition. With
  capacity 0, `_grow` keeps a zero-length buffer and `enqueue` would fail with
  IndexError when it stores the item.
- Structures.Stack.Pop: an empty pop returns None and changes nothing, where the source
  raises IndexError. The same holds for Structures.Queue.Dequeue,
  Structures.MinHeap.Pop and Structures.PriorityQueue.Pop.
- EightPuzzleProblem.ResultOf: a known direction that is not offered for the board is
  excluded by a precondition. The code's behaviour on such moves is modelled separately
  by `ResultAsWritten` (see Findings). Every caller in the repository passes only
  offered moves.
- EightPuzzleProblem.AsProblem: this is the puzzle as a generic `Problem`. It totalises
  `actions` and `result` to make them functions of every state: no actions without a
  blank, and an unchanged board on a move not offered. Searches never reach those
  cases.
- ApiBackend.ReconstructSolutionSteps: this requires a valid initial board and, for a
  successful search, an action list that is a plan of offered moves from it. The
  search algorithms guarantee that, and they are not modelled.
- ApiBackend.SolutionStepCounts: the cost at step k is stated as k, because
  `step_cost` is 1 for every move. A general cost sum is not stated.
- Heuristics.Manhattan: a tile that is not a key of `GOAL_POS` would raise KeyError. It
  is excluded by the precondition `Known`. `Misplaced` likewise requires no tile beyond
  position 9.
- ParseState.ParseInitialState: `text` being null or undefined is not modelled. A
  string is always present.

## Findings

| source | as written | input that shows it | evidently intended | confidence | as-written member | corrected member |
|---|---|---|---|---|---|---|
| Problems/N-8-Problem.py:49-60 | `result` never checks that a known direction is legal; "left" in the first column takes index `i - 1`, the last cell of the row above | board 1 2 3 0 4 5 6 7 8 with "left" gives 1 2 0 3 4 5 6 7 8, and the blank jumps from row 1, column 0 to row 0, column 2 | a move that `actions` does not offer is refused, and an accepted move slides the blank to a neighbouring cell | medium, not executed | EightPuzzleProblem.LeftWrapsToRowAbove | EightPuzzleProblem.CheckedResultIsSlide |
| Problems/N-8-Problem.py:45-60 | "up" in the top row gives a negative index, which Python counts from the end of the tuple | board 0 1 2 3 4 5 6 7 8 with "up" gives 6 1 2 3 4 5 0 7 8, and the blank jumps to the bottom row | the move is refused | medium, not executed | EightPuzzleProblem.UpWrapsToBottomRow | EightPuzzleProblem.CheckedResult |
| Problems/N-8-Problem.py:47-60 | "down" or "right" off the last cell indexes past the tuple and raises IndexError, not the ValueError of an invalid action | the goal board 1 2 3 4 5 6 7 8 0 with "down" or "right" | the same invalid-action failure as an unknown move | medium, not executed | EightPuzzleProblem.OffTheLastCell | EightPuzzleProblem.CheckedResult |

The intent is read from the code itself. `actions` (Problems/N-8-Problem.py:26-37)
offers only the moves that keep the blank on the board, and `result` raises
`ValueError("Acción inválida: …")` (Problems/N-8-Problem.py:54) for a string it does
not recognise. A known direction that `actions` does not offer falls through both
checks, as the three rows above show. `ResultAsWritten` models that behaviour, and
`LeftFromFirstColumn`, `UpFromTopRow`, `DownFromBottomRow` and `RightFromLastColumn`
state it for every board. The rest of the model applies `ResultOf` only to offered
moves. On those, `ResultAsWritten`, `ResultOf` and `CheckedResult` agree.
