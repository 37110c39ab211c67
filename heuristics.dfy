/** The two 8-puzzle heuristics of Heuristics.py, both measured against the
    default goal board: the number of misplaced tiles and the sum of the
    tiles' Manhattan distances to their goal cells. The blank is never
    counted. */
module Heuristics {
  import opened Base
  import opened EightPuzzleProblem

  /** `GOAL_POS` (Heuristics.py:2): the goal cell of each tile, written out;
      `GoalPosInverse` shows it is the inverse of `GOAL`. */
  const GOAL_POS: map<int, int> := map[1 := 0, 2 := 1, 3 := 2, 4 := 3, 5 := 4, 6 := 5, 7 := 6, 8 := 7, 0 := 8]

  function Abs(x: int): nat
  {
    if x < 0 then -x else x
  }

  /** Moves a tile needs from position `i` to position `g` when it may only
      step to an adjacent cell. */
  function TileDist(i: int, g: int): nat
  {
    Abs(Row(i) - Row(g)) + Abs(Col(i) - Col(g))
  }

  /** `GOAL_POS` inverts `GOAL` and has exactly the tiles 0..8 as keys. */
  lemma GoalPosInverse()
    ensures forall v :: v in GOAL_POS <==> 0 <= v < 9
    ensures forall i :: 0 <= i < 9 ==> GOAL_POS[GOAL[i]] == i
    ensures forall v :: v in GOAL_POS ==> 0 <= GOAL_POS[v] < 9 && GOAL[GOAL_POS[v]] == v
  {
  }

  // ---------------------------------------------------------------- misplaced

  /** Misplaced tiles among the first `n` positions: none exactly when
      every tile there is on its goal cell. */
  function MisplacedTo(s: State, n: nat): (r: nat)
    requires n <= |s|
    requires forall k :: 0 <= k < n && s[k] != 0 ==> k < 9
    ensures r <= n
    ensures r == 0 <==> forall k :: 0 <= k < n && s[k] != 0 ==> s[k] == GOAL[k]
  {
    if n == 0 then 0
    else MisplacedTo(s, n - 1) + (if s[n - 1] != 0 && s[n - 1] != GOAL[n - 1] then 1 else 0)
  }

  /** `misplaced` (Heuristics.py:10-11): the non-blank tiles not on their
      goal cell. A tile past the ninth position would make the source index
      past the goal, so none may be there. */
  function Misplaced(s: State): (r: nat)
    requires forall k :: 0 <= k < |s| && s[k] != 0 ==> k < 9
    ensures r == 0 <==> forall k :: 0 <= k < |s| && s[k] != 0 ==> s[k] == GOAL[k]
  {
    MisplacedTo(s, |s|)
  }

  // ---------------------------------------------------------------- manhattan

  /** The share of position `k` in the Manhattan sum: nothing for the blank,
      the tile's distance to its goal cell otherwise. */
  function Share(s: State, k: nat): nat
    requires k < |s| && (s[k] != 0 ==> s[k] in GOAL_POS)
  {
    if s[k] == 0 then 0 else TileDist(k, GOAL_POS[s[k]])
  }

  ghost predicate Known(s: State)
  {
    forall k :: 0 <= k < |s| && s[k] != 0 ==> s[k] in GOAL_POS
  }

  /** The Manhattan sum over the first `n` positions. */
  function ManhattanTo(s: State, n: nat): nat
    requires n <= |s| && Known(s)
  {
    if n == 0 then 0 else ManhattanTo(s, n - 1) + Share(s, n - 1)
  }

  /** `manhattan` (Heuristics.py:13-20): accumulates, position by position,
      the distance of every non-blank tile to its goal cell. A tile that is
      not a key of `GOAL_POS` would raise KeyError, so none may occur. */
  method Manhattan(s: State) returns (dist: int)
    requires Known(s)
    ensures dist == ManhattanTo(s, |s|)
  {
    dist := 0;
    for i := 0 to |s|
      invariant dist == ManhattanTo(s, i)
    {
      var v := s[i];
      if v == 0 {
        continue;
      }
      var gi := GOAL_POS[v];
      var x1, y1 := i / 3, i % 3;
      var x2, y2 := gi / 3, gi % 3;
      dist := dist + Abs(x1 - x2) + Abs(y1 - y2);
    }
  }

  // ---------------------------------------------------------------- properties

  /** No tile of the goal is misplaced. */
  lemma {:induction false} MisplacedZeroAtGoal(n: nat)
    requires n <= 9
    ensures MisplacedTo(GOAL, n) == 0
  {
    if n > 0 {
      MisplacedZeroAtGoal(n - 1);
    }
  }

  /** Every tile of the goal is at distance 0 from its goal cell. */
  lemma {:induction false} ManhattanZeroAtGoal(n: nat)
    requires n <= 9
    ensures Known(GOAL) && ManhattanTo(GOAL, n) == 0
  {
    GoalPosInverse();
    if n > 0 {
      ManhattanZeroAtGoal(n - 1);
      assert GOAL[n - 1] != 0 ==> GOAL_POS[GOAL[n - 1]] == n - 1;
    }
  }

  /** With the blank somewhere among the first `n` positions, one of them
      cannot count. */
  lemma {:induction false} MisplacedBlank(s: State, n: nat)
    requires n <= |s| <= 9
    ensures MisplacedTo(s, n) <= if 0 in s[..n] then n - 1 else n
  {
    if n > 0 {
      MisplacedBlank(s, n - 1);
      assert s[..n] == s[..n - 1] + [s[n - 1]];
    }
  }

  /** At most the eight tiles can be misplaced. */
  lemma MisplacedBound(s: State)
    requires |s| == 9 && 0 in s
    ensures Misplaced(s) <= 8
  {
    MisplacedBlank(s, 9);
    assert s[..9] == s;
  }

  /** With every tile on the board, each share is at most 4 (two rows and two
      columns away) and the blank's share is 0. */
  lemma {:induction false} ManhattanBlank(s: State, n: nat)
    requires n <= |s| == 9 && Known(s)
    ensures ManhattanTo(s, n) <= if 0 in s[..n] then 4 * n - 4 else 4 * n
  {
    if n > 0 {
      ManhattanBlank(s, n - 1);
      assert s[..n] == s[..n - 1] + [s[n - 1]];
      if s[n - 1] != 0 {
        GoalPosInverse();
        assert Share(s, n - 1) <= 4;
      }
    }
  }

  /** The Manhattan distance of a board is at most 32. */
  lemma ManhattanBound(s: State)
    requires |s| == 9 && 0 in s && Known(s)
    ensures ManhattanTo(s, 9) <= 32
  {
    ManhattanBlank(s, 9);
    assert s[..9] == s;
  }

  /** Every misplaced tile is at least one step from its goal cell, so the
      misplaced count never exceeds the Manhattan sum. */
  lemma {:induction false} MisplacedBelowManhattan(s: State, n: nat)
    requires n <= |s| == 9 && Known(s)
    ensures MisplacedTo(s, n) <= ManhattanTo(s, n)
  {
    if n > 0 {
      MisplacedBelowManhattan(s, n - 1);
      var k, v := n - 1, s[n - 1];
      if v != 0 && v != GOAL[k] {
        GoalPosInverse();
        var g := GOAL_POS[v];
        assert g != k;
        assert Row(g) != Row(k) || Col(g) != Col(k);
      }
    }
  }

  /** Two boards that differ only at positions `i` and `j` differ in their
      Manhattan sums by the difference of those two positions' shares. */
  lemma {:induction false} ManhattanTwoChanged(s: State, t: State, i: nat, j: nat, n: nat)
    requires |s| == |t| && n <= |s| && Known(s) && Known(t) && i < |s| && j < |s| && i != j
    requires forall k :: 0 <= k < |s| && k != i && k != j ==> s[k] == t[k]
    ensures ManhattanTo(t, n) - ManhattanTo(s, n) ==
      (if i < n then Share(t, i) - Share(s, i) else 0) + (if j < n then Share(t, j) - Share(s, j) else 0)
  {
    if n > 0 {
      ManhattanTwoChanged(s, t, i, j, n - 1);
    }
  }

  /** One step of a tile between adjacent cells changes its distance to any
      cell by exactly one. */
  lemma AdjacentStep(i: int, j: int, g: int)
    requires (Row(i) == Row(j) && Abs(Col(i) - Col(j)) == 1) || (Col(i) == Col(j) && Abs(Row(i) - Row(j)) == 1)
    ensures TileDist(i, g) - TileDist(j, g) == 1 || TileDist(i, g) - TileDist(j, g) == -1
  {
  }

  /** A legal move changes the Manhattan sum by exactly one, up or down: only
      the tile that slides into the blank moves, by one cell. */
  lemma ManhattanMove(s: State, a: Action)
    requires IsPermutation(s) && a in Actions(s)
    ensures var t := ResultOf(s, a).value;
      Known(s) && Known(t) &&
      (ManhattanTo(t, 9) == ManhattanTo(s, 9) + 1 || ManhattanTo(t, 9) == ManhattanTo(s, 9) - 1)
  {
    var t := ResultOf(s, a).value;
    var i, j := Blank(s), Target(Blank(s), a);
    ResultIsPermutation(s, a);
    PermutationDistinct(s);
    PermutationDistinct(t);
    GoalPosInverse();
    assert Known(s) && Known(t);
    ManhattanTwoChanged(s, t, i, j, 9);
    var v := s[j];
    assert v != 0;
    assert Share(t, i) == TileDist(i, GOAL_POS[v]) && Share(s, j) == TileDist(j, GOAL_POS[v]);
    AdjacentStep(i, j, GOAL_POS[v]);
  }
}
