/** The pure helpers of the solver's HTTP back end (api-backend/main.py):
    converting between the 3x3 matrices the web client sends and the flat
    nine-tile states the solver works on, checking the submitted board,
    describing a move in words, and replaying a solution's actions into the
    numbered steps the client plays back. */
module ApiBackend {
  import opened Base
  import opened Text
  import opened EightPuzzleProblem

  // ---------------------------------------------------------------- conversion

  /** `matrix_to_tuple` (api-backend/main.py:79-81): the rows one after the
      other. On a 3x3 matrix, cell (r, c) lands at position 3r + c. */
  function MatrixToTuple(m: seq<seq<int>>): (t: State)
    ensures Is3x3(m) ==> |t| == 9 && forall r, c :: 0 <= r < 3 && 0 <= c < 3 ==> t[3 * r + c] == m[r][c]
  {
    if Is3x3(m) then Flatten3x3(m); Flatten(m) else Flatten(m)
  }

  /** `tuple_to_matrix` (api-backend/main.py:83-89): positions 0-2, 3-5 and
      6-8 become the three rows; anything past the ninth position is
      ignored, and fewer than nine positions would raise IndexError. */
  function TupleToMatrix(t: State): (m: seq<seq<int>>)
    requires |t| >= 9
    ensures Is3x3(m) && forall r, c :: 0 <= r < 3 && 0 <= c < 3 ==> m[r][c] == t[3 * r + c]
  {
    SplitRows(t[..9])
  }

  /** Flattening a 3x3 matrix and splitting it again gives the matrix back. */
  lemma MatrixTupleRoundTrip(m: seq<seq<int>>)
    requires Is3x3(m)
    ensures TupleToMatrix(MatrixToTuple(m)) == m
  {
    SplitRowsFlatten([], m);
    assert MatrixToTuple(m)[..9] == MatrixToTuple(m);
  }

  /** Splitting nine tiles into rows and flattening gives them back. */
  lemma TupleMatrixRoundTrip(t: State)
    requires |t| == 9
    ensures MatrixToTuple(TupleToMatrix(t)) == t
  {
    assert t[..9] == t;
    SplitRowsFlatten(t, []);
  }

  // ---------------------------------------------------------------- the request

  /** `set(range(9))`. */
  const TILE_SET: set<int> := {0, 1, 2, 3, 4, 5, 6, 7, 8}

  const INVALID_INITIAL := "Initial state must be a 3x3 matrix with numbers 0-8 exactly once"

  /** The check of the submitted board in `solve_puzzle`
      (api-backend/main.py:189-196): the flattened matrix must have nine
      entries whose set is {0, ..., 8}; otherwise the request fails with
      status 400 and the message above. */
  function CheckInitialState(m: seq<seq<int>>): (r: Result<State>)
    ensures r.Ok? <==> IsPermutation(Flatten(m))
    ensures r.Ok? ==> r.value == Flatten(m)
    ensures r.Err? ==> r.error == INVALID_INITIAL
  {
    var t := MatrixToTuple(m);
    TileSetIff(t);
    if |t| != 9 || Elements(t) != TILE_SET then Err(INVALID_INITIAL)
    else Ok(t)
  }

  /** Nine entries whose set is {0, ..., 8} are exactly a board. */
  lemma TileSetIff(t: State)
    ensures |t| == 9 && Elements(t) == TILE_SET <==> IsPermutation(t)
  {
    if IsPermutation(t) {
      PermutationDistinct(t);
      assert Elements(t) == TILE_SET by {
        forall v | v in Elements(t) ensures 0 <= v < 9 {
          var k :| 0 <= k < |t| && t[k] == v;
        }
      }
    }
    if |t| == 9 && Elements(t) == TILE_SET {
      forall v | 0 <= v < 9 ensures v in t {
        assert v in Elements(t);
      }
    }
  }

  /** Although the message asks for a 3x3 matrix, the shape itself is not
      checked: a single row holding the nine tiles is accepted. */
  lemma OneRowAccepted()
    ensures CheckInitialState([[1, 2, 3, 4, 5, 6, 7, 8, 0]]) == Ok(GOAL)
  {
    var m := [GOAL];
    assert Flatten(m) == GOAL by {
      assert m[1..] == [];
    }
    GoalTiles();
  }

  // ---------------------------------------------------------------- describing a move

  const INITIAL_STATE := "Initial state"

  /** The `directions` table of `get_move_description`
      (api-backend/main.py:100-107): how far the blank moved, as a word. */
  function Direction(delta: int): (r: string)
    ensures r == "Unknown" <==> !(delta == -3 || delta == 3 || delta == -1 || delta == 1)
  {
    if delta == -3 then "Up"
    else if delta == 3 then "Down"
    else if delta == -1 then "Left"
    else if delta == 1 then "Right"
    else "Unknown"
  }

  /** The word for each move of the blank. */
  function DirectionWord(a: Action): string
    requires IsDirection(a)
  {
    if a == "up" then "Up" else if a == "down" then "Down" else if a == "left" then "Left" else "Right"
  }

  /** `get_move_description` (api-backend/main.py:91-108): "Initial state"
      for two equal boards; otherwise the number found in the first board
      where the second board's blank is, and the word for how far the blank
      moved. The description is "Initial state" exactly when the boards are
      equal. */
  function GetMoveDescription(from: State, to: State): (r: string)
    requires from != to ==> 0 in from && 0 in to && Blank(to) < |from|
    ensures r == INITIAL_STATE <==> from == to
  {
    if from == to then INITIAL_STATE
    else
      var fromEmpty := Blank(from);
      var toEmpty := Blank(to);
      var moved := from[toEmpty];
      var r := "Move " + IntToString(moved) + " " + Direction(toEmpty - fromEmpty);
      assert r[0] != INITIAL_STATE[0];
      r
  }

  /** The tile a legal move slides into the blank: after the move it sits
      where the blank was. */
  function MovedTile(s: State, a: Action): (v: int)
    requires IsPermutation(s) && a in Actions(s)
    ensures 0 < v < 9 && v == ResultOf(s, a).value[Blank(s)]
  {
    var t := ResultOf(s, a).value;
    PermutationDistinct(s);
    s[Target(Blank(s), a)]
  }

  /** For a legal move, the description names the tile that slides into the
      blank and the direction the blank moved, capitalised. */
  lemma DescribesLegalMove(s: State, a: Action)
    requires IsPermutation(s) && a in Actions(s)
    ensures var t := ResultOf(s, a).value;
      0 in t && Blank(t) < |s| &&
      GetMoveDescription(s, t) == "Move " + IntToString(MovedTile(s, a)) + " " + DirectionWord(a)
  {
    var i, j := Blank(s), Target(Blank(s), a);
    var t := ResultOf(s, a).value;
    ResultIsPermutation(s, a);
    BlankIsUnique(t, j);
    assert t != s by {
      assert t[j] == 0 != s[j];
    }
    assert Direction(j - i) == DirectionWord(a);
  }

  // ---------------------------------------------------------------- steps

  /** `StepInfo` (api-backend/main.py:55-60): one numbered step of a
      solution. Costs are whole numbers here: every 8-puzzle move costs 1. */
  datatype StepInfo = StepInfo(board: seq<seq<int>>, move: string, heuristic: Option<int>, depth: nat, cost: int)

  /** `heuristic_func(state) if heuristic_func else None`. */
  function HeuristicOf(h: Option<State -> int>, s: State): (r: Option<int>)
    ensures r.Some? <==> h.Some?
    ensures h.Some? ==> r == Some(h.value(s))
  {
    if h.Some? then Some(h.value(s)) else None
  }

  /** The first step: the initial board, described as the initial state,
      at depth and cost 0; its matrix reads back as the initial board. */
  function InitialStep(p: EightPuzzle, h: Option<State -> int>): (step: StepInfo)
    requires IsPermutation(p.initial)
    ensures MatrixToTuple(step.board) == p.initial
    ensures step.move == INITIAL_STATE && step.depth == 0 && step.cost == 0
    ensures step.heuristic == HeuristicOf(h, p.initial)
  {
    TupleMatrixRoundTrip(p.initial);
    StepInfo(TupleToMatrix(p.initial), INITIAL_STATE, HeuristicOf(h, p.initial), 0, 0)
  }

  /** The steps recorded while the rest of a plan, `acts`, is replayed from
      board `s`: after each move, the board it gives, the description of the
      move, the heuristic there, the depth counted on from `depth` and the
      step cost added onto `cost`. */
  function StepsFrom(s: State, acts: seq<Action>, h: Option<State -> int>, depth: nat, cost: int): (steps: seq<StepInfo>)
    requires IsPermutation(s) && Playable(s, acts)
    ensures |steps| == |acts|
    decreases |acts|
  {
    if acts == [] then []
    else
      ResultIsPermutation(s, acts[0]);
      DescribesLegalMove(s, acts[0]);
      var t := ResultOf(s, acts[0]).value;
      var c := cost + StepCost(s, acts[0], t);
      [StepInfo(TupleToMatrix(t), GetMoveDescription(s, t), HeuristicOf(h, t), depth + 1, c)] + StepsFrom(t, acts[1..], h, depth + 1, c)
  }

  /** What `reconstruct_solution_steps` returns: the initial board alone
      when the search failed or found no actions, otherwise the initial
      board followed by one step per action. */
  function SolutionSteps(p: EightPuzzle, success: bool, actions: seq<Action>, h: Option<State -> int>): (steps: seq<StepInfo>)
    requires IsPermutation(p.initial)
    requires success && actions != [] ==> Playable(p.initial, actions)
    ensures |steps| == if success then |actions| + 1 else 1
    ensures steps[0] == InitialStep(p, h)
  {
    if !success || actions == [] then [InitialStep(p, h)]
    else [InitialStep(p, h)] + StepsFrom(p.initial, actions, h, 0, 0)
  }

  /** `reconstruct_solution_steps` (api-backend/main.py:110-154): the
      initial board alone when the search failed or found no actions,
      otherwise the replay of the actions. The search's answer is passed as
      its `success` flag and its action list (a missing list counts as
      empty); the actions of a successful answer are legal moves one after
      another. */
  method ReconstructSolutionSteps(p: EightPuzzle, success: bool, actions: seq<Action>, h: Option<State -> int>)
    returns (steps: seq<StepInfo>)
    requires IsPermutation(p.initial)
    requires success && actions != [] ==> Playable(p.initial, actions)
    ensures steps == SolutionSteps(p, success, actions, h)
  {
    if !success || actions == [] {
      steps := [InitialStep(p, h)];
      return;
    }
    steps := ReplaySteps(p, actions, h);
  }

  /** The loop of api-backend/main.py:125-154: replays the actions from the
      initial board, adding up step costs and recording a step after each
      move. */
  method ReplaySteps(p: EightPuzzle, actions: seq<Action>, h: Option<State -> int>) returns (steps: seq<StepInfo>)
    requires IsPermutation(p.initial) && Playable(p.initial, actions)
    ensures steps == [InitialStep(p, h)] + StepsFrom(p.initial, actions, h, 0, 0)
  {
    var current := p.initial;
    var currentCost := 0;
    steps := [StepInfo(TupleToMatrix(current), INITIAL_STATE, HeuristicOf(h, current), 0, currentCost)];
    ghost var all := [InitialStep(p, h)] + StepsFrom(p.initial, actions, h, 0, 0);
    assert actions[0..] == actions;
    for i := 0 to |actions|
      invariant IsPermutation(current) && Playable(current, actions[i..])
      invariant steps + StepsFrom(current, actions[i..], h, i, currentCost) == all
    {
      var next, nextCost, step := NextStep(current, actions, i, currentCost, h, steps, all);
      current, currentCost, steps := next, nextCost, steps + [step];
    }
    assert actions[|actions|..] == [];
  }

  /** One pass of the loop at api-backend/main.py:140-154: the board the
      `i`-th action gives, the cost so far and the step recorded for it.
      The recorded step is the first of those still to come, and the rest
      are the steps of the remaining actions from the new board. */
  method NextStep(current: State, actions: seq<Action>, i: nat, cost: int, h: Option<State -> int>,
                  ghost steps: seq<StepInfo>, ghost all: seq<StepInfo>)
    returns (next: State, nextCost: int, step: StepInfo)
    requires IsPermutation(current) && i < |actions| && Playable(current, actions[i..])
    requires steps + StepsFrom(current, actions[i..], h, i, cost) == all
    ensures actions[i] in Actions(current)
    ensures next == ResultOf(current, actions[i]).value
    ensures nextCost == cost + StepCost(current, actions[i], next)
    ensures 0 in next && Blank(next) < |current|
    ensures step == StepInfo(TupleToMatrix(next), GetMoveDescription(current, next), HeuristicOf(h, next), i + 1, nextCost)
    ensures IsPermutation(next) && Playable(next, actions[i + 1..])
    ensures (steps + [step]) + StepsFrom(next, actions[i + 1..], h, i + 1, nextCost) == all
  {
    PlayableDrop(current, actions, i);
    var action := actions[i];
    next := ResultOf(current, action).value;
    nextCost := cost + StepCost(current, action, next);
    var matrix := TupleToMatrix(next);
    DescribesLegalMove(current, action);
    var moveDesc := GetMoveDescription(current, next);
    step := StepInfo(matrix, moveDesc, HeuristicOf(h, next), i + 1, nextCost);
    LoopStep(current, actions, h, i, cost, steps, all, next, nextCost, step);
  }

  /** The steps of a non-empty rest of a plan: the step its first move
      records, then those of the rest from the board that move gives. */
  lemma StepsFromCons(s: State, acts: seq<Action>, h: Option<State -> int>, depth: nat, cost: int)
    requires IsPermutation(s) && Playable(s, acts) && acts != []
    ensures acts[0] in Actions(s)
    ensures var t := ResultOf(s, acts[0]).value;
      && IsPermutation(t) && Playable(t, acts[1..]) && 0 in t && Blank(t) < |s|
      && StepsFrom(s, acts, h, depth, cost) ==
         [StepInfo(TupleToMatrix(t), GetMoveDescription(s, t), HeuristicOf(h, t), depth + 1, cost + StepCost(s, acts[0], t))] +
         StepsFrom(t, acts[1..], h, depth + 1, cost + StepCost(s, acts[0], t))
  {
    ResultIsPermutation(s, acts[0]);
    DescribesLegalMove(s, acts[0]);
  }

  /** One pass of the loop keeps its invariant. */
  lemma LoopStep(current: State, actions: seq<Action>, h: Option<State -> int>, i: nat, cost: int,
                 steps: seq<StepInfo>, all: seq<StepInfo>, next: State, nextCost: int, step: StepInfo)
    requires IsPermutation(current) && i < |actions| && Playable(current, actions[i..])
    requires steps + StepsFrom(current, actions[i..], h, i, cost) == all
    requires next == ResultOf(current, actions[i]).value && nextCost == cost + StepCost(current, actions[i], next)
    requires 0 in next && Blank(next) < |current|
    requires step == StepInfo(TupleToMatrix(next), GetMoveDescription(current, next), HeuristicOf(h, next), i + 1, nextCost)
    ensures IsPermutation(next) && Playable(next, actions[i + 1..])
    ensures (steps + [step]) + StepsFrom(next, actions[i + 1..], h, i + 1, nextCost) == all
  {
    DropTail(actions, i);
    StepsFromCons(current, actions[i..], h, i, cost);
    AppendCons(steps, step, StepsFrom(next, actions[i + 1..], h, i + 1, nextCost));
  }

  /** Step `k` of the rest of a plan (counting from 1) has depth
      `depth + k` and cost `cost + k`: every move costs 1. */
  lemma {:induction false} StepsFromCounts(s: State, acts: seq<Action>, h: Option<State -> int>, depth: nat, cost: int, k: nat)
    requires IsPermutation(s) && Playable(s, acts) && 0 < k <= |acts|
    ensures StepsFrom(s, acts, h, depth, cost)[k - 1].depth == depth + k
    ensures StepsFrom(s, acts, h, depth, cost)[k - 1].cost == cost + k
    decreases k
  {
    if k == 1 {
      StepsFromFirst(s, acts, h, depth, cost);
    } else {
      StepsFromShift(s, acts, h, depth, cost, k);
      StepsFromCounts(ResultOf(s, acts[0]).value, acts[1..], h, depth + 1, cost + 1, k - 1);
    }
  }

  /** Step `k` of the rest of a plan (counting from 1) shows the board
      after the first `k` moves and names the tile the `k`-th move slid into the blank and the
      direction the blank moved. */
  lemma {:induction false} StepsFromShape(s: State, acts: seq<Action>, h: Option<State -> int>, depth: nat, cost: int, k: nat)
    requires IsPermutation(s) && Playable(s, acts) && 0 < k <= |acts|
    ensures var step, before := StepsFrom(s, acts, h, depth, cost)[k - 1], PlayPrefix(s, acts, k - 1);
      && acts[k - 1] in Actions(before)
      && step.board == TupleToMatrix(PlayPrefix(s, acts, k))
      && step.heuristic == HeuristicOf(h, PlayPrefix(s, acts, k))
      && step.move == "Move " + IntToString(MovedTile(before, acts[k - 1])) + " " + DirectionWord(acts[k - 1])
    decreases k
  {
    if k == 1 {
      StepsFromFirst(s, acts, h, depth, cost);
    } else {
      StepsFromShift(s, acts, h, depth, cost, k);
      StepsFromShape(ResultOf(s, acts[0]).value, acts[1..], h, depth + 1, cost + 1, k - 1);
    }
  }

  /** The first step of the rest of a plan is its first move. */
  lemma StepsFromFirst(s: State, acts: seq<Action>, h: Option<State -> int>, depth: nat, cost: int)
    requires IsPermutation(s) && Playable(s, acts) && acts != []
    ensures var step, before := StepsFrom(s, acts, h, depth, cost)[0], PlayPrefix(s, acts, 0);
      && acts[0] in Actions(before)
      && step.depth == depth + 1 && step.cost == cost + 1
      && step.board == TupleToMatrix(PlayPrefix(s, acts, 1))
      && step.heuristic == HeuristicOf(h, PlayPrefix(s, acts, 1))
      && step.move == "Move " + IntToString(MovedTile(before, acts[0])) + " " + DirectionWord(acts[0])
  {
    PlayPrefixTail(s, acts, 1);
    assert acts[..0] == [] && acts[1..][..0] == [];
    DescribesLegalMove(s, acts[0]);
  }

  /** Step `k` of the rest of a plan from `s` is step `k - 1` of the rest
      after its first move, from the board that move gives. */
  lemma StepsFromShift(s: State, acts: seq<Action>, h: Option<State -> int>, depth: nat, cost: int, k: nat)
    requires IsPermutation(s) && Playable(s, acts) && 1 < k <= |acts|
    ensures acts[0] in Actions(s)
    ensures var t := ResultOf(s, acts[0]).value;
      && IsPermutation(t) && Playable(t, acts[1..])
      && StepsFrom(s, acts, h, depth, cost)[k - 1] == StepsFrom(t, acts[1..], h, depth + 1, cost + 1)[k - 2]
      && PlayPrefix(s, acts, k) == PlayPrefix(t, acts[1..], k - 1)
      && PlayPrefix(s, acts, k - 1) == PlayPrefix(t, acts[1..], k - 2)
      && acts[k - 1] == acts[1..][k - 2]
  {
    PlayPrefixTail(s, acts, k);
    PlayPrefixTail(s, acts, k - 1);
  }

  /** Step `k` of a found plan, past the first, has depth and cost `k`. */
  lemma SolutionStepCounts(p: EightPuzzle, actions: seq<Action>, h: Option<State -> int>, k: nat)
    requires IsPermutation(p.initial) && Playable(p.initial, actions) && 0 < k <= |actions|
    ensures var step := SolutionSteps(p, true, actions, h)[k];
      step.depth == k && step.cost == k
  {
    SolutionStepsIndex(p, actions, h, k);
    StepsFromCounts(p.initial, actions, h, 0, 0, k);
  }

  /** Step `k` of a found plan, past the first, shows the board after the
      first `k` actions and names the tile the `k`-th action slid into the
      blank and the direction the blank moved. */
  lemma SolutionStepBoard(p: EightPuzzle, actions: seq<Action>, h: Option<State -> int>, k: nat)
    requires IsPermutation(p.initial) && Playable(p.initial, actions) && 0 < k <= |actions|
    ensures var step, before, after := SolutionSteps(p, true, actions, h)[k], PlayPrefix(p.initial, actions, k - 1), PlayPrefix(p.initial, actions, k);
      && actions[k - 1] in Actions(before)
      && step.board == TupleToMatrix(after) && step.heuristic == HeuristicOf(h, after)
      && step.move == "Move " + IntToString(MovedTile(before, actions[k - 1])) + " " + DirectionWord(actions[k - 1])
  {
    SolutionStepsIndex(p, actions, h, k);
    StepsFromShape(p.initial, actions, h, 0, 0, k);
  }

  /** Past the first, the steps of a found plan are those of its replay. */
  lemma SolutionStepsIndex(p: EightPuzzle, actions: seq<Action>, h: Option<State -> int>, k: nat)
    requires IsPermutation(p.initial) && Playable(p.initial, actions) && 0 < k <= |actions|
    ensures SolutionSteps(p, true, actions, h)[k] == StepsFrom(p.initial, actions, h, 0, 0)[k - 1]
  {
  }

  /** A found plan gives one step more than it has actions, the first
      showing the initial board and the last the board the plan reaches
      after as many unit-cost moves as it has actions. */
  lemma SolutionStepsShape(p: EightPuzzle, actions: seq<Action>, h: Option<State -> int>)
    requires IsPermutation(p.initial) && Playable(p.initial, actions) && actions != []
    ensures var steps := SolutionSteps(p, true, actions, h);
      && |steps| == |actions| + 1
      && steps[0] == StepInfo(TupleToMatrix(p.initial), INITIAL_STATE, HeuristicOf(h, p.initial), 0, 0)
      && steps[|actions|].board == TupleToMatrix(Play(p.initial, actions))
      && steps[|actions|].cost == |actions|
  {
    SolutionStepCounts(p, actions, h, |actions|);
    SolutionStepBoard(p, actions, h, |actions|);
    assert actions[..|actions|] == actions;
  }

  /** A failed search, or one that found no actions, gives the initial
      board alone, described as the initial state, at depth and cost 0. */
  lemma FailedSearchSteps(p: EightPuzzle, success: bool, actions: seq<Action>, h: Option<State -> int>)
    requires IsPermutation(p.initial) && (!success || actions == [])
    ensures SolutionSteps(p, success, actions, h) == [StepInfo(TupleToMatrix(p.initial), INITIAL_STATE, HeuristicOf(h, p.initial), 0, 0)]
  {
  }
}
