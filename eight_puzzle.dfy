/** The 8-puzzle of Problems/N-8-Problem.py. A state is the 3x3 board read
    row by row, a sequence of nine tiles with 0 for the blank; an action names
    the direction in which the blank moves. */
module EightPuzzleProblem {
  import opened Base
  import Abstractions

  type State = seq<int>
  type Action = string

  /** The default goal (Problems/N-8-Problem.py:13). */
  const GOAL: State := [1, 2, 3, 4, 5, 6, 7, 8, 0]

  /** The four moves of the blank. */
  predicate IsDirection(a: Action)
  {
    a == "up" || a == "down" || a == "left" || a == "right"
  }

  /** The order in which `actions` lists the directions. */
  function Rank(a: Action): nat
  {
    if a == "up" then 0 else if a == "down" then 1 else if a == "left" then 2 else 3
  }

  /** A board: nine positions holding every tile 0..8 (so each exactly
      once, see `PermutationIff`). */
  predicate IsPermutation(s: State)
  {
    |s| == 9 && forall v :: 0 <= v < 9 ==> v in s
  }

  /** `divmod(i, 3)`: the row and the column of board position `i`. */
  function Row(i: int): int
  {
    i / 3
  }

  function Col(i: int): int
  {
    i % 3
  }

  /** `state.index(0)`: the position of the blank. */
  function Blank(s: State): (i: nat)
    requires 0 in s
    ensures i < |s| && s[i] == 0
  {
    IndexOf(s, 0)
  }

  /** `EightPuzzle(initial, goal)` (Problems/N-8-Problem.py:15-18). */
  datatype EightPuzzle = EightPuzzle(initial: State, goal: State)

  /** The puzzle with the default goal. */
  function WithDefaultGoal(initial: State): (p: EightPuzzle)
    ensures p.initial == initial && p.goal == GOAL
  {
    EightPuzzle(initial, GOAL)
  }

  /** `is_goal` (Problems/N-8-Problem.py:23-24). */
  predicate IsGoal(p: EightPuzzle, s: State)
  {
    s == p.goal
  }

  /** Every element of `r` is a direction ranked after `m`. */
  ghost predicate RankedAfter(r: seq<Action>, m: int)
  {
    forall k :: 0 <= k < |r| ==> IsDirection(r[k]) && Rank(r[k]) > m
  }

  /** `r` lists directions in `actions`' order. */
  ghost predicate InRankOrder(r: seq<Action>)
  {
    forall k, l :: 0 <= k < l < |r| ==> Rank(r[k]) < Rank(r[l])
  }

  /** Putting direction `a`, when `keep` holds, in front of directions
      ranked after it keeps them in order and adds just `a`. */
  lemma PrependIf(keep: bool, a: Action, rest: seq<Action>)
    requires IsDirection(a) && RankedAfter(rest, Rank(a)) && InRankOrder(rest)
    ensures var r := (if keep then [a] else []) + rest;
      && RankedAfter(r, Rank(a) - 1) && InRankOrder(r)
      && |r| == |rest| + (if keep then 1 else 0)
      && (a in r <==> keep)
      && forall x {:trigger x in rest} :: x != a ==> (x in r <==> x in rest)
  {
    var r := (if keep then [a] else []) + rest;
    forall k | 0 <= k < |rest| ensures rest[k] != a {
      assert Rank(rest[k]) > Rank(a);
    }
    if keep {
      assert forall k :: 0 < k < |r| ==> r[k] == rest[k - 1];
    } else {
      assert r == rest;
    }
  }

  /** The four directions in `actions`' order, each kept when its flag is
      set. */
  function Offered(up: bool, down: bool, left: bool, right: bool): seq<Action>
  {
    (if up then ["up"] else []) + ((if down then ["down"] else []) + ((if left then ["left"] else []) + (if right then ["right"] else [])))
  }

  /** Exactly the flagged directions are offered, once each, in order. */
  lemma OfferedFacts(up: bool, down: bool, left: bool, right: bool)
    ensures var r := Offered(up, down, left, right);
      && ("up" in r <==> up) && ("down" in r <==> down)
      && ("left" in r <==> left) && ("right" in r <==> right)
      && |r| == (if up then 1 else 0) + (if down then 1 else 0) + (if left then 1 else 0) + (if right then 1 else 0)
      && RankedAfter(r, -1) && InRankOrder(r)
  {
    DirectionNames();
    var fromRight: seq<Action> := if right then ["right"] else [];
    assert RankedAfter(fromRight, 2) && InRankOrder(fromRight);
    assert "right" in fromRight <==> right;
    PrependIf(left, "left", fromRight);
    var fromLeft := (if left then ["left"] else []) + fromRight;
    assert "right" in fromLeft <==> right;
    PrependIf(down, "down", fromLeft);
    var fromDown := (if down then ["down"] else []) + fromLeft;
    assert ("right" in fromDown <==> right) && ("left" in fromDown <==> left);
    PrependIf(up, "up", fromDown);
    var r := (if up then ["up"] else []) + fromDown;
    assert ("right" in r <==> right) && ("left" in r <==> left) && ("down" in r <==> down);
  }

  /** The four names differ and are ranked 0 to 3. */
  lemma DirectionNames()
    ensures "up" != "down" && "up" != "left" && "up" != "right"
    ensures "down" != "left" && "down" != "right" && "left" != "right"
    ensures Rank("up") == 0 && Rank("down") == 1 && Rank("left") == 2 && Rank("right") == 3
    ensures IsDirection("up") && IsDirection("down") && IsDirection("left") && IsDirection("right")
  {
    assert "down"[0] != "left"[0];
  }

  /** `actions` (Problems/N-8-Problem.py:26-37): the moves that keep the
      blank on the board. */
  function Actions(s: State): (r: seq<Action>)
    requires 0 in s
    ensures "up" in r <==> Row(Blank(s)) > 0
    ensures "down" in r <==> Row(Blank(s)) < 2
    ensures "left" in r <==> Col(Blank(s)) > 0
    ensures "right" in r <==> Col(Blank(s)) < 2
    ensures forall k :: 0 <= k < |r| ==> IsDirection(r[k])
    ensures InRankOrder(r)
    ensures |s| == 9 ==> 2 <= |r| <= 4
  {
    var i := Blank(s);
    OfferedFacts(Row(i) > 0, Row(i) < 2, Col(i) > 0, Col(i) < 2);
    Offered(Row(i) > 0, Row(i) < 2, Col(i) > 0, Col(i) < 2)
  }

  /** `new_x * 3 + new_y`: where a move sends the blank from position `i`,
      one row up or down, or one column left or right. */
  function Target(i: int, a: Action): (j: int)
    requires IsDirection(a)
    ensures a == "up" ==> Row(j) == Row(i) - 1 && Col(j) == Col(i)
    ensures a == "down" ==> Row(j) == Row(i) + 1 && Col(j) == Col(i)
    ensures a == "left" && Col(i) > 0 ==> Row(j) == Row(i) && Col(j) == Col(i) - 1
    ensures a == "right" && Col(i) < 2 ==> Row(j) == Row(i) && Col(j) == Col(i) + 1
  {
    var x, y := Row(i), Col(i);
    if a == "up" then (x - 1) * 3 + y
    else if a == "down" then (x + 1) * 3 + y
    else if a == "left" then x * 3 + (y - 1)
    else x * 3 + (y + 1)
  }

  /** `result` (Problems/N-8-Problem.py:39-62): swaps the blank with the tile
      where the move sends it. A string that is not one of the four
      directions is rejected with the source's ValueError message. */
  function ResultOf(s: State, a: Action): (r: Result<State>)
    requires |s| == 9 && 0 in s
    requires IsDirection(a) ==> a in Actions(s)
    ensures r.Err? <==> !IsDirection(a)
    ensures r.Err? ==> r.error == "Acción inválida: " + a
    ensures r.Ok? ==>
      var i, j := Blank(s), Target(Blank(s), a);
      && 0 <= j < 9 && j != i
      && |r.value| == 9 && r.value[j] == 0 && r.value[i] == s[j]
      && forall k :: 0 <= k < 9 && k != i && k != j ==> r.value[k] == s[k]
  {
    if !IsDirection(a) then Err("Acción inválida: " + a)
    else
      var i := Blank(s);
      var j := Target(i, a);
      Ok(s[i := s[j]][j := s[i]])
  }

  /** `step_cost` (Problems/N-8-Problem.py:64-65). */
  function StepCost(s: State, a: Action, t: State): int
  {
    1
  }

  /** `successors` (Problems/N-8-Problem.py:67-72). */
  function Successors(s: State): (r: seq<(Action, State, int)>)
    requires |s| == 9 && 0 in s
    ensures |r| == |Actions(s)|
    ensures forall k :: 0 <= k < |r| ==>
      && r[k].0 == Actions(s)[k]
      && ResultOf(s, r[k].0) == Ok(r[k].1)
      && r[k].2 == 1
  {
    var acts := Actions(s);
    seq(|acts|, k requires 0 <= k < |acts| => (acts[k], ResultOf(s, acts[k]).value, StepCost(s, acts[k], ResultOf(s, acts[k]).value)))
  }

  // ---------------------------------------------------------------- permutations

  lemma GoalDistinct()
    ensures Distinct(GOAL)
  {
    forall i, j | 0 <= i < j < 9 ensures GOAL[i] != GOAL[j] {
      assert GOAL[i] == if i == 8 then 0 else i + 1;
      assert GOAL[j] == if j == 8 then 0 else j + 1;
    }
  }

  /** The goal lists the tiles 0..8, each once. */
  lemma GoalTiles()
    ensures forall v :: v in Elements(GOAL) <==> 0 <= v < 9
    ensures |Elements(GOAL)| == 9
  {
    forall v | 0 <= v < 9 ensures v in GOAL {
      if v == 0 { assert GOAL[8] == v; } else { assert GOAL[v - 1] == v; }
    }
    GoalDistinct();
    ElementsCard(GOAL);
  }

  /** A board has only the tiles 0..8, none twice. */
  lemma PermutationDistinct(s: State)
    requires IsPermutation(s)
    ensures forall k :: 0 <= k < |s| ==> 0 <= s[k] < 9
    ensures Distinct(s)
  {
    GoalTiles();
    assert Elements(GOAL) <= Elements(s);
    ElementsCard(s);
    assert Elements(s) == Elements(GOAL) + (Elements(s) - Elements(GOAL));
    assert |Elements(s) - Elements(GOAL)| == 0;
    forall k | 0 <= k < |s| ensures 0 <= s[k] < 9 {
      assert s[k] in Elements(s) - Elements(GOAL) || s[k] in Elements(GOAL);
    }
  }

  /** Conversely, nine distinct tiles from 0..8 make a board. */
  lemma DistinctPermutation(s: State)
    requires |s| == 9 && (forall k :: 0 <= k < |s| ==> 0 <= s[k] < 9) && Distinct(s)
    ensures IsPermutation(s)
  {
    GoalTiles();
    ElementsCard(s);
    assert Elements(s) <= Elements(GOAL);
    assert Elements(GOAL) == Elements(s) + (Elements(GOAL) - Elements(s));
    assert |Elements(GOAL) - Elements(s)| == 0;
    forall v | 0 <= v < 9 ensures v in s {
      assert v in Elements(GOAL);
      assert v in Elements(s);
    }
  }

  /** A board is exactly an arrangement of the goal's tiles. */
  lemma PermutationIff(s: State)
    ensures IsPermutation(s) <==> multiset(s) == multiset(GOAL)
  {
    GoalDistinct();
    GoalTiles();
    if IsPermutation(s) {
      PermutationDistinct(s);
      forall k | 0 <= k < |s| ensures s[k] in GOAL {
        assert s[k] in Elements(GOAL);
      }
      Pigeonhole(s, GOAL);
    }
    if multiset(s) == multiset(GOAL) {
      assert |s| == |multiset(s)| == 9;
      forall v | 0 <= v < 9 ensures v in s {
        assert v in Elements(GOAL);
        assert v in multiset(GOAL);
      }
    }
  }

  /** On a board the blank is the only 0, so `index(0)` finds it wherever a
      0 is known to be. */
  lemma BlankIsUnique(s: State, k: nat)
    requires IsPermutation(s) && k < 9 && s[k] == 0
    ensures Blank(s) == k
  {
    PermutationDistinct(s);
  }

  /** A move of the blank keeps a board a board. */
  lemma ResultIsPermutation(s: State, a: Action)
    requires IsPermutation(s) && a in Actions(s)
    ensures IsPermutation(ResultOf(s, a).value)
  {
    var t := ResultOf(s, a).value;
    var i, j := Blank(s), Target(Blank(s), a);
    assert t == s[i := s[j]][j := s[i]];
    assert multiset(t) == multiset(s);
    PermutationIff(s);
    PermutationIff(t);
  }

  function Opposite(a: Action): (b: Action)
    requires IsDirection(a)
    ensures IsDirection(b)
  {
    if a == "up" then "down" else if a == "down" then "up" else if a == "left" then "right" else "left"
  }

  /** Opposite moves undo each other: the move back is legal and restores
      the board. */
  lemma OppositeUndoes(s: State, a: Action)
    requires IsPermutation(s) && a in Actions(s)
    ensures var t := ResultOf(s, a).value;
      0 in t && Opposite(a) in Actions(t) && ResultOf(t, Opposite(a)) == Ok(s)
  {
    var i, j := Blank(s), Target(Blank(s), a);
    var t := ResultOf(s, a).value;
    ResultIsPermutation(s, a);
    BlankIsUnique(t, j);
    assert Target(j, Opposite(a)) == i;
    var u := ResultOf(t, Opposite(a)).value;
    assert u == s;
  }

  /** Every successor of a board is a board reached by a legal move at unit
      cost. */
  lemma SuccessorsArePermutations(s: State)
    requires IsPermutation(s)
    ensures forall k :: 0 <= k < |Successors(s)| ==> IsPermutation(Successors(s)[k].1)
  {
    forall k | 0 <= k < |Successors(s)| ensures IsPermutation(Successors(s)[k].1) {
      ResultIsPermutation(s, Actions(s)[k]);
    }
  }

  // ---------------------------------------------------------------- plans

  /** `acts` can be played from `s` one legal move after another. */
  ghost predicate Playable(s: State, acts: seq<Action>)
    requires IsPermutation(s)
    decreases |acts|
  {
    acts == [] ||
      (acts[0] in Actions(s) &&
       (ResultIsPermutation(s, acts[0]); Playable(ResultOf(s, acts[0]).value, acts[1..])))
  }

  /** The board after playing `acts` from `s`. */
  function Play(s: State, acts: seq<Action>): (t: State)
    requires IsPermutation(s) && Playable(s, acts)
    ensures IsPermutation(t)
    decreases |acts|
  {
    if acts == [] then s
    else
      ResultIsPermutation(s, acts[0]);
      Play(ResultOf(s, acts[0]).value, acts[1..])
  }

  /** A plan can be extended by one move exactly when that move is legal on
      the board the plan reaches, and the extended plan reaches the board
      that move gives. */
  lemma {:induction false} PlaySnoc(s: State, acts: seq<Action>, a: Action)
    requires IsPermutation(s) && Playable(s, acts)
    ensures Playable(s, acts + [a]) <==> a in Actions(Play(s, acts))
    ensures a in Actions(Play(s, acts)) ==> Play(s, acts + [a]) == ResultOf(Play(s, acts), a).value
    decreases |acts|
  {
    if acts == [] {
      assert [] + [a] == [a] && [a][1..] == [];
    } else {
      ResultIsPermutation(s, acts[0]);
      SnocTail(acts, a);
      PlaySnoc(ResultOf(s, acts[0]).value, acts[1..], a);
    }
  }

  /** Every prefix of a playable plan is playable. */
  lemma {:induction false} PlayablePrefix(s: State, acts: seq<Action>, n: nat)
    requires IsPermutation(s) && Playable(s, acts) && n <= |acts|
    ensures Playable(s, acts[..n])
    decreases |acts|
  {
    if n > 0 {
      ResultIsPermutation(s, acts[0]);
      TakeTail(acts, n);
      PlayablePrefix(ResultOf(s, acts[0]).value, acts[1..], n - 1);
    }
  }

  /** The board after the first `n` moves of a playable plan. */
  function PlayPrefix(s: State, acts: seq<Action>, n: nat): (t: State)
    requires IsPermutation(s) && Playable(s, acts) && n <= |acts|
    ensures IsPermutation(t)
  {
    PlayablePrefix(s, acts, n);
    Play(s, acts[..n])
  }

  /** The rest of a playable plan, from its `n`-th move on, starts with a
      legal move, and what follows that move is playable from the board it
      gives. */
  lemma PlayableDrop(s: State, acts: seq<Action>, n: nat)
    requires IsPermutation(s) && n < |acts| && Playable(s, acts[n..])
    ensures acts[n] in Actions(s)
    ensures IsPermutation(ResultOf(s, acts[n]).value) && Playable(ResultOf(s, acts[n]).value, acts[n + 1..])
  {
    DropTail(acts, n);
    ResultIsPermutation(s, acts[n]);
  }

  /** Playing the first `n` moves of a plan is playing its first move, then
      the next `n - 1` from the board that move gives. */
  lemma PlayPrefixTail(s: State, acts: seq<Action>, n: nat)
    requires IsPermutation(s) && Playable(s, acts) && 0 < n <= |acts|
    ensures acts[0] in Actions(s)
    ensures IsPermutation(ResultOf(s, acts[0]).value) && Playable(ResultOf(s, acts[0]).value, acts[1..])
    ensures PlayPrefix(s, acts, n) == PlayPrefix(ResultOf(s, acts[0]).value, acts[1..], n - 1)
  {
    ResultIsPermutation(s, acts[0]);
    PlayablePrefix(s, acts, n);
    TakeTail(acts, n);
  }

  // ---------------------------------------------------------------- as a Problem

  /** The puzzle seen through the generic `Problem` interface. The source
      raises on a board without a blank and on an unknown action, and indexes
      off the board on an illegal direction; these total versions return no
      actions and leave the board unchanged instead, which no search reaches
      since it applies only the actions `actions` lists. */
  function AsProblem(p: EightPuzzle): Abstractions.Problem<State, Action>
  {
    Abstractions.Problem(
      p.initial,
      s => IsGoal(p, s),
      s => if 0 in s then Actions(s) else [],
      (s, a) => if |s| == 9 && 0 in s && a in Actions(s) then ResultOf(s, a).value else s,
      StepCost)
  }

  /** The overridden `successors` agrees with the generic one, and
      `goal_test` with `is_goal`. */
  lemma AsProblemAgrees(p: EightPuzzle, s: State)
    requires |s| == 9 && 0 in s
    ensures Abstractions.Successors(AsProblem(p), s) == Successors(s)
    ensures Abstractions.GoalTest(AsProblem(p), s) <==> s == p.goal
  {
    var g, e := Abstractions.Successors(AsProblem(p), s), Successors(s);
    assert |g| == |e|;
    forall k | 0 <= k < |g| ensures g[k] == e[k] {
      assert Actions(s)[k] in Actions(s);
    }
  }

  /** The worked example at Problems/N-8-Problem.py:118-131: the easy board
      is not the goal, offers up, left and right, and moving up lifts tile 5
      into the blank's row. */
  lemma EasyExample(s: State)
    requires s == [1, 2, 3, 4, 5, 6, 7, 0, 8]
    ensures !IsGoal(WithDefaultGoal(s), s)
    ensures Actions(s) == ["up", "left", "right"]
    ensures ResultOf(s, "up") == Ok([1, 2, 3, 4, 0, 6, 7, 5, 8])
  {
    assert IsPermutation(s);
    BlankIsUnique(s, 7);
    assert Target(7, "up") == 4;
    assert "up" in Actions(s);
    assert ResultOf(s, "up").value == s[7 := s[4]][4 := s[7]];
    assert s[7 := s[4]][4 := s[7]] == [1, 2, 3, 4, 0, 6, 7, 5, 8];
  }

  // ---------------------------------------------------------------- moves off the board

  /** Two positions of the board side by side or one above the other. */
  predicate Adjacent(i: int, j: int)
  {
    || (Row(i) == Row(j) && (Col(j) == Col(i) + 1 || Col(i) == Col(j) + 1))
    || (Col(i) == Col(j) && (Row(j) == Row(i) + 1 || Row(i) == Row(j) + 1))
  }

  /** `result` exactly as Problems/N-8-Problem.py:41-62 computes it for any of
      the four directions, offered or not: nothing checks that the target
      cell is on the board, so a negative index counts from the end of the
      tuple, as Python indexes do, and an index of 9 or more raises
      IndexError (`None`). On the moves `actions` offers it agrees with the
      model; only "down" and "right" can raise, and whatever it returns
      holds the same tiles. */
  function ResultAsWritten(s: State, a: Action): (r: Option<State>)
    requires |s| == 9 && 0 in s && IsDirection(a)
    ensures a in Actions(s) ==> r == Some(ResultOf(s, a).value)
    ensures r.None? ==> a == "down" || a == "right"
    ensures r.Some? ==> |r.value| == 9 && multiset(r.value) == multiset(s)
  {
    var i := Blank(s);
    var j := Target(i, a);
    if j >= 9 then None
    else
      var k := if j < 0 then j + 9 else j;
      Some(s[i := s[k]][k := s[i]])
  }

  /** Moves `actions` does not offer are not refused. Moving left from the
      first column takes the blank to the end of the row above. */
  lemma LeftWrapsToRowAbove(s: State)
    requires s == [1, 2, 3, 0, 4, 5, 6, 7, 8]
    ensures "left" !in Actions(s) && !Adjacent(3, 2)
    ensures ResultAsWritten(s, "left") == Some([1, 2, 0, 3, 4, 5, 6, 7, 8])
  {
    assert s[3] == 0 && IsPermutation(s);
    BlankIsUnique(s, 3);
    assert s[3 := s[2]][2 := s[3]] == [1, 2, 0, 3, 4, 5, 6, 7, 8];
  }

  /** Moving up from the top row takes the blank to the bottom row. */
  lemma UpWrapsToBottomRow(s: State)
    requires s == [0, 1, 2, 3, 4, 5, 6, 7, 8]
    ensures "up" !in Actions(s) && !Adjacent(0, 6)
    ensures ResultAsWritten(s, "up") == Some([6, 1, 2, 3, 4, 5, 0, 7, 8])
  {
    assert s[0] == 0 && IsPermutation(s);
    BlankIsUnique(s, 0);
    assert s[0 := s[6]][6 := s[0]] == [6, 1, 2, 3, 4, 5, 0, 7, 8];
  }

  /** Moving down or right off the last cell raises IndexError rather than
      the ValueError of an unknown move. */
  lemma OffTheLastCell()
    ensures "down" !in Actions(GOAL) && "right" !in Actions(GOAL)
    ensures ResultAsWritten(GOAL, "down") == None && ResultAsWritten(GOAL, "right") == None
  {
    assert GOAL[8] == 0 && IsPermutation(GOAL);
    BlankIsUnique(GOAL, 8);
  }

  /** `t` is `s` with the blank moved from cell `i` to cell `k` and the tile
      of `k` moved into `i`. */
  ghost predicate Swapped(s: State, t: State, i: int, k: int)
    requires |s| == 9 && 0 <= i < 9 && 0 <= k < 9
  {
    && |t| == 9 && t[k] == 0 && t[i] == s[k]
    && forall m :: 0 <= m < 9 && m != i && m != k ==> t[m] == s[m]
  }

  /** On every board, "left" from the first column moves the blank to the
      cell before it in reading order, the last cell of the row above, and
      from cell 0 round to cell 8; the two cells are not neighbours. */
  lemma LeftFromFirstColumn(s: State)
    requires |s| == 9 && 0 in s && Col(Blank(s)) == 0
    ensures var i := Blank(s); var k := if i == 0 then 8 else i - 1;
      && "left" !in Actions(s) && !Adjacent(i, k)
      && ResultAsWritten(s, "left").Some?
      && Swapped(s, ResultAsWritten(s, "left").value, i, k)
  {
    var i := Blank(s);
    assert i == 0 || i == 3 || i == 6;
  }

  /** On every board, "up" from the top row moves the blank six cells on,
      to the bottom row of the same column. */
  lemma UpFromTopRow(s: State)
    requires |s| == 9 && 0 in s && Row(Blank(s)) == 0
    ensures var i := Blank(s);
      && "up" !in Actions(s) && !Adjacent(i, i + 6)
      && ResultAsWritten(s, "up").Some?
      && Swapped(s, ResultAsWritten(s, "up").value, i, i + 6)
  {
    var i := Blank(s);
    assert i == 0 || i == 1 || i == 2;
  }

  /** On every board, "down" from the bottom row raises IndexError. */
  lemma DownFromBottomRow(s: State)
    requires |s| == 9 && 0 in s && Row(Blank(s)) == 2
    ensures "down" !in Actions(s) && ResultAsWritten(s, "down").None?
  {
    var i := Blank(s);
    assert i == 6 || i == 7 || i == 8;
  }

  /** On every board, "right" from the last column moves the blank to the
      first cell of the next row, or raises IndexError from the last cell. */
  lemma RightFromLastColumn(s: State)
    requires |s| == 9 && 0 in s && Col(Blank(s)) == 2
    ensures var i := Blank(s);
      && "right" !in Actions(s)
      && (i == 8 <==> ResultAsWritten(s, "right").None?)
      && (i < 8 ==> !Adjacent(i, i + 1) && Swapped(s, ResultAsWritten(s, "right").value, i, i + 1))
  {
    var i := Blank(s);
    assert i == 2 || i == 5 || i == 8;
  }

  /** `result` as intended: a move `actions` does not offer is refused with
      the same message as an unknown one. */
  function CheckedResult(s: State, a: Action): (r: Result<State>)
    requires |s| == 9 && 0 in s
    ensures r.Ok? <==> a in Actions(s)
    ensures r.Err? ==> r.error == "Acción inválida: " + a
    ensures r.Ok? ==> r == ResultOf(s, a)
  {
    if a in Actions(s) then ResultOf(s, a) else Err("Acción inválida: " + a)
  }

  /** Every move `CheckedResult` accepts takes a board to a board whose
      blank sits next to where it was, and the tile that filled the old
      cell is the one that stood there. */
  lemma CheckedResultIsSlide(s: State, a: Action)
    requires IsPermutation(s) && CheckedResult(s, a).Ok?
    ensures var t := CheckedResult(s, a).value;
      && IsPermutation(t)
      && Adjacent(Blank(s), Blank(t))
      && t[Blank(s)] == s[Blank(t)]
  {
    var i, j := Blank(s), Target(Blank(s), a);
    ResultIsPermutation(s, a);
    BlankIsUnique(ResultOf(s, a).value, j);
  }
}
