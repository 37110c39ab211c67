/** The web front end's board handling (web-frontend/utils/parseState.js):
    reading a board typed by the user, deciding whether a board can reach
    the goal, the preset boards, and printing a board back as text. */
module ParseState {
  import opened Base
  import opened Text
  import opened EightPuzzleProblem

  // ---------------------------------------------------------------- parsing

  /** JavaScript's `Number(text)` on one token: `None` stands for `NaN`.
      The conversion itself is a parameter of the model. */
  type Reader = string -> Option<real>

  /** The `{ok, state, error}` object `parseInitialState` returns. */
  datatype Parsed = Accepted(state: seq<seq<int>>) | Rejected(error: string)

  const EMPTY_INPUT := "Empty input"
  const WRONG_COUNT := "Input must contain exactly 9 numbers (0-8)"
  const OUT_OF_RANGE := "Numbers must be integers between 0 and 8"
  const NOT_ALL_DIGITS := "Numbers must contain all digits 0..8 exactly once"

  /** 0, 1, ..., 8 as numbers: what the sorted input must be. */
  const DIGITS: seq<real> := seq(9, k => k as real)

  /** `Number.isNaN(n) || n < 0 || n > 8`. */
  predicate OutOfRange(n: Option<real>)
  {
    n.None? || n.value < 0.0 || n.value > 8.0
  }

  /** `parts.map((p) => Number(p))`. */
  function Numbers(parts: seq<string>, num: Reader): (r: seq<Option<real>>)
    ensures |r| == |parts| && forall k :: 0 <= k < |parts| ==> r[k] == num(parts[k])
  {
    seq(|parts|, k requires 0 <= k < |parts| => num(parts[k]))
  }

  /** What `parseInitialState` answers, stated declaratively: the checks in
      the source's order, the last one as "the numbers are 0..8 in some
      order". The accepted board keeps the input order, row by row. The
      empty-input message is given exactly for blank text, an accepted
      board is a 3x3 matrix, and every refusal carries one of the four
      messages. */
  function ParseSpec(text: string, num: Reader): (r: Parsed)
    ensures r == Rejected(EMPTY_INPUT) <==> AllSpace(text)
    ensures r.Accepted? ==> Is3x3(r.state)
    ensures r.Rejected? ==> r.error in [EMPTY_INPUT, WRONG_COUNT, OUT_OF_RANGE, NOT_ALL_DIGITS]
  {
    if AllSpace(text) then Rejected(EMPTY_INPUT)
    else
      var parts := Tokens(text);
      if |parts| != 9 then Rejected(WRONG_COUNT)
      else
        var nums := Numbers(parts, num);
        if exists k :: 0 <= k < 9 && OutOfRange(nums[k]) then Rejected(OUT_OF_RANGE)
        else
          var values := seq(9, k requires 0 <= k < 9 => nums[k].value);
          if multiset(values) != multiset(DIGITS) then Rejected(NOT_ALL_DIGITS)
          else Accepted(SplitRows(seq(9, k requires 0 <= k < 9 => values[k].Floor)))
  }

  predicate Ascending(s: seq<real>)
  {
    forall i, j :: 0 <= i < j < |s| ==> s[i] <= s[j]
  }

  function Insert(x: real, s: seq<real>): (r: seq<real>)
    requires Ascending(s)
    ensures Ascending(r) && multiset(r) == multiset(s) + multiset{x}
    ensures r[0] == if s == [] || x <= s[0] then x else s[0]
  {
    if s == [] || x <= s[0] then [x] + s
    else
      var rest := Insert(x, s[1..]);
      assert s == [s[0]] + s[1..];
      AscendingCons(s[0], rest);
      [s[0]] + rest
  }

  lemma AscendingCons(y: real, s: seq<real>)
    requires Ascending(s) && (s != [] ==> y <= s[0])
    ensures Ascending([y] + s)
  {
    var r := [y] + s;
    forall i, j | 0 <= i < j < |r| ensures r[i] <= r[j] {
      if i > 0 {
        assert r[i] == s[i - 1] && r[j] == s[j - 1];
      } else {
        assert s[0] <= s[j - 1];
      }
    }
  }

  /** `[...nums].sort((a, b) => a - b)`: the numbers in ascending order. */
  function SortNumbers(s: seq<real>): (r: seq<real>)
    ensures Ascending(r) && multiset(r) == multiset(s)
  {
    if s == [] then []
    else
      assert s == [s[0]] + s[1..];
      Insert(s[0], SortNumbers(s[1..]))
  }

  /** Two ascending sequences with the same elements are equal. */
  lemma {:induction false} AscendingUnique(a: seq<real>, b: seq<real>)
    requires Ascending(a) && Ascending(b) && multiset(a) == multiset(b)
    ensures a == b
  {
    assert |a| == |multiset(a)| == |b|;
    if a != [] {
      SameFirst(a, b);
      DropFirst(a);
      DropFirst(b);
      AscendingUnique(a[1..], b[1..]);
      assert a == [a[0]] + a[1..];
      assert b == [b[0]] + b[1..];
    }
  }

  lemma SameFirst(a: seq<real>, b: seq<real>)
    requires a != [] && b != [] && Ascending(a) && Ascending(b) && multiset(a) == multiset(b)
    ensures a[0] == b[0]
  {
    assert a[0] in multiset(b) && b[0] in multiset(a);
    AscendingLeast(b, a[0]);
    AscendingLeast(a, b[0]);
  }

  lemma DropFirst(a: seq<real>)
    requires a != [] && Ascending(a)
    ensures Ascending(a[1..]) && multiset(a[1..]) == multiset(a) - multiset{a[0]}
  {
    assert a == [a[0]] + a[1..];
    assert forall i :: 0 <= i < |a| - 1 ==> a[1..][i] == a[i + 1];
  }

  lemma AscendingLeast(a: seq<real>, x: real)
    requires Ascending(a) && x in a
    ensures a[0] <= x
  {
    var j :| 0 <= j < |a| && a[j] == x;
    assert j == 0 || a[0] <= a[j];
  }

  /** The sorted numbers are exactly 0..8 precisely when the numbers are
      0..8 in some order. */
  lemma SortedDigits(values: seq<real>, sorted: seq<real>)
    requires Ascending(sorted) && multiset(sorted) == multiset(values)
    ensures sorted == DIGITS <==> multiset(values) == multiset(DIGITS)
  {
    if multiset(values) == multiset(DIGITS) {
      AscendingUnique(sorted, DIGITS);
    }
  }

  /** `parseInitialState` (web-frontend/utils/parseState.js:6-34): rejects
      blank input, a token count other than nine, a token that is not a
      number in [0, 8], then sorts a copy of the numbers and rejects at the
      first position where the sorted copy differs from 0..8; otherwise the
      nine numbers become a 3x3 board in input order. */
  method ParseInitialState(text: string, num: Reader) returns (r: Parsed)
    ensures r == ParseSpec(text, num)
  {
    if AllSpace(text) {
      return Rejected(EMPTY_INPUT);
    }
    var parts := Tokens(text);
    if |parts| != 9 {
      return Rejected(WRONG_COUNT);
    }
    var nums := Numbers(parts, num);
    if exists k :: 0 <= k < 9 && OutOfRange(nums[k]) {
      return Rejected(OUT_OF_RANGE);
    }
    var values := seq(9, k requires 0 <= k < 9 => nums[k].value);
    var sorted := SortNumbers(values);
    SortedDigits(values, sorted);
    var allDigits := CheckDigits(sorted);
    if !allDigits {
      return Rejected(NOT_ALL_DIGITS);
    }
    r := Accepted(SplitRows(seq(9, k requires 0 <= k < 9 => values[k].Floor)));
  }

  /** The loop of web-frontend/utils/parseState.js:25-29: compares the sorted
      numbers with 0..8 position by position and stops at the first
      difference. */
  method CheckDigits(sorted: seq<real>) returns (ok: bool)
    requires |sorted| == 9
    ensures ok <==> sorted == DIGITS
  {
    for i := 0 to 9
      invariant forall k :: 0 <= k < i ==> sorted[k] == k as real
    {
      if sorted[i] != i as real {
        assert sorted[i] != DIGITS[i];
        return false;
      }
    }
    assert sorted == DIGITS;
    return true;
  }

  /** An accepted input is a board: a 3x3 matrix holding 0..8 once each,
      whose cells, read row by row, are the input's numbers in order. */
  lemma AcceptedIsBoard(text: string, num: Reader)
    requires ParseSpec(text, num).Accepted?
    ensures var m := ParseSpec(text, num).state;
      && |Tokens(text)| == 9
      && Is3x3(m) && IsPermutation(Flatten(m))
      && forall k :: 0 <= k < 9 ==> Some(Flatten(m)[k] as real) == num(Tokens(text)[k])
  {
    var parts := Tokens(text);
    var nums := Numbers(parts, num);
    var values := seq(9, k requires 0 <= k < 9 => nums[k].value);
    var flat := seq(9, k requires 0 <= k < 9 => values[k].Floor);
    assert Distinct(DIGITS);
    SameMultisetDistinct(values, DIGITS);
    forall k | 0 <= k < 9
      ensures 0 <= flat[k] < 9 && flat[k] as real == values[k]
    {
      assert values[k] in multiset(DIGITS);
      var d :| 0 <= d < 9 && DIGITS[d] == values[k];
      assert values[k] == d as real;
    }
    DistinctPermutation(flat);
    SplitRowsFlatten(flat, []);
  }

  // ---------------------------------------------------------------- printing

  /** `String(n)` for every cell of a row. */
  function Numerals(row: seq<int>): (r: seq<string>)
    ensures |r| == |row| && forall c :: 0 <= c < |row| ==> r[c] == IntToString(row[c])
  {
    seq(|row|, c requires 0 <= c < |row| => IntToString(row[c]))
  }

  /** `row.join(' ')`. */
  function RowToString(row: seq<int>): string
  {
    Join(Numerals(row), " ")
  }

  /** `matrixToString` (web-frontend/utils/parseState.js:73-75): one line
      per row, cells separated by a space. A printed 3x3 matrix splits back
      into its cells' numerals, row by row. */
  function MatrixToString(m: seq<seq<int>>): (text: string)
    ensures Is3x3(m) ==> |Flatten(m)| == 9 && Tokens(text) == Numerals(Flatten(m))
  {
    var rows := seq(|m|, r requires 0 <= r < |m| => RowToString(m[r]));
    if Is3x3(m) then PrintedRows(m, rows); Join(rows, "\n") else Join(rows, "\n")
  }

  lemma PrintedRows(m: seq<seq<int>>, rows: seq<string>)
    requires Is3x3(m) && |rows| == 3 && forall r :: 0 <= r < 3 ==> rows[r] == RowToString(m[r])
    ensures |Flatten(m)| == 9
    ensures Tokens(Join(rows, "\n")) == Numerals(Flatten(m))
  {
    ThreeLines(rows);
    TokensSplit(rows[0], '\n', rows[1] + ['\n'] + rows[2]);
    TokensSplit(rows[1], '\n', rows[2]);
    RowTokens(m[0]);
    RowTokens(m[1]);
    RowTokens(m[2]);
    NumeralsOfRows(m);
  }

  lemma NumeralsOfRows(m: seq<seq<int>>)
    requires Is3x3(m)
    ensures |Flatten(m)| == 9
    ensures Numerals(Flatten(m)) == Numerals(m[0]) + Numerals(m[1]) + Numerals(m[2])
  {
    Flatten3x3(m);
  }

  lemma ThreeLines(rows: seq<string>)
    requires |rows| == 3
    ensures Join(rows, "\n") == rows[0] + ['\n'] + (rows[1] + ['\n'] + rows[2])
  {
    assert rows[1..][1..] == [rows[2]];
    assert Join(rows[1..], "\n") == rows[1] + "\n" + rows[2];
  }

  /** A printed row splits back into its cells' numerals. */
  lemma RowTokens(row: seq<int>)
    ensures Tokens(RowToString(row)) == Numerals(row)
  {
    TokensOfJoin(Numerals(row), ' ');
  }

  /** Conversely, any text of nine tokens that `Number` reads as the tiles
      of a board, in order, is accepted as that board, whatever whitespace
      separates them: "8 1 2 3 4 5 6 7 0" on one line as well as on three. */
  lemma BoardIsAccepted(text: string, num: Reader, s: State)
    requires IsPermutation(s) && |Tokens(text)| == 9
    requires forall k :: 0 <= k < 9 ==> num(Tokens(text)[k]) == Some(s[k] as real)
    ensures ParseSpec(text, num) == Accepted(SplitRows(s))
  {
    AllSpaceNoTokens(text);
    PermutationDistinct(s);
    var nums := Numbers(Tokens(text), num);
    var values := seq(9, k requires 0 <= k < 9 => nums[k].value);
    assert forall k :: 0 <= k < 9 ==> values[k] == s[k] as real;
    assert multiset(values) == multiset(DIGITS) by {
      assert Distinct(DIGITS);
      forall k | 0 <= k < 9 ensures values[k] in DIGITS {
        assert DIGITS[s[k]] == values[k];
      }
      Pigeonhole(values, DIGITS);
    }
    assert seq(9, k requires 0 <= k < 9 => values[k].Floor) == s;
  }

  /** Printing a board and parsing the text gives the board back, provided
      `Number` reads the numerals 0..8 as their values. */
  lemma MatrixRoundTrip(m: seq<seq<int>>, num: Reader)
    requires Is3x3(m) && IsPermutation(Flatten(m))
    requires forall d :: 0 <= d < 9 ==> num(IntToString(d)) == Some(d as real)
    ensures ParseSpec(MatrixToString(m), num) == Accepted(m)
  {
    var flat := Flatten(m);
    PermutationDistinct(flat);
    BoardIsAccepted(MatrixToString(m), num, flat);
    SplitRowsFlatten(flat, m);
  }

  /** The two middle refusals: the count message exactly when non-blank
      text does not hold nine tokens, the range message exactly when nine
      tokens are there and one of them does not read as a number from 0 to
      8. */
  lemma ParseSpecErrors(text: string, num: Reader)
    ensures ParseSpec(text, num) == Rejected(WRONG_COUNT) <==> !AllSpace(text) && |Tokens(text)| != 9
    ensures ParseSpec(text, num) == Rejected(OUT_OF_RANGE) <==>
      |Tokens(text)| == 9 && exists k :: 0 <= k < 9 && OutOfRange(num(Tokens(text)[k]))
  {
    assert |EMPTY_INPUT| == 11 && |WRONG_COUNT| == 42 && |OUT_OF_RANGE| == 40 && |NOT_ALL_DIGITS| == 49;
    AllSpaceNoTokens(text);
    var r := ParseSpec(text, num);
    if |Tokens(text)| == 9 {
      var nums := Numbers(Tokens(text), num);
      if exists k :: 0 <= k < 9 && OutOfRange(nums[k]) {
        assert r == Rejected(OUT_OF_RANGE);
      } else {
        assert r != Rejected(OUT_OF_RANGE);
      }
    }
  }

  // ---------------------------------------------------------------- solvability

  /** How many tiles of `u` (the blank not counted) are smaller than `x`. */
  function CountBelow(u: seq<int>, x: int): (n: nat)
    ensures n <= |u|
  {
    if u == [] then 0
    else (if u[0] != 0 && x > u[0] then 1 else 0) + CountBelow(u[1..], x)
  }

  /** The inversions of a board read row by row: pairs of tiles, the blank
      not counted, where the larger one comes first. */
  function Inversions(s: seq<int>): (n: nat)
    ensures n <= PairCount(|s|)
  {
    if s == [] then 0
    else (if s[0] == 0 then 0 else CountBelow(s[1..], s[0])) + Inversions(s[1..])
  }

  lemma {:induction false} CountBelowAppend(u: seq<int>, v: seq<int>, x: int)
    ensures CountBelow(u + v, x) == CountBelow(u, x) + CountBelow(v, x)
  {
    if u != [] {
      assert (u + v)[1..] == u[1..] + v;
      CountBelowAppend(u[1..], v, x);
    } else {
      assert u + v == v;
    }
  }

  /** One more position on the right adds that tile's share. */
  lemma CountBelowSnoc(s: seq<int>, lo: nat, hi: nat, x: int)
    requires lo <= hi < |s|
    ensures CountBelow(s[lo..hi + 1], x) == CountBelow(s[lo..hi], x) + (if s[hi] != 0 && x > s[hi] then 1 else 0)
  {
    assert s[lo..hi + 1] == s[lo..hi] + [s[hi]];
    CountBelowAppend(s[lo..hi], [s[hi]], x);
  }

  /** The inversions from position `i` on: those of the tile at `i`, then
      the rest. */
  lemma InversionsAt(s: seq<int>, i: nat)
    requires i < |s|
    ensures Inversions(s[i..]) == (if s[i] == 0 then 0 else CountBelow(s[i + 1..], s[i])) + Inversions(s[i + 1..])
  {
    assert s[i..][1..] == s[i + 1..];
  }

  /** `isSolvable` (web-frontend/utils/parseState.js:41-55): counts, for
      every tile but the last position, the later tiles smaller than it,
      skipping the blank, and answers whether the count is even. */
  method IsSolvable(matrix: seq<seq<int>>) returns (solvable: bool)
    ensures solvable <==> Inversions(Flatten(matrix)) % 2 == 0
  {
    var flat := Flatten(matrix);
    var inversions := 0;
    var i := 0;
    while i < |flat| - 1
      invariant 0 <= i <= |flat|
      invariant inversions + Inversions(flat[i..]) == Inversions(flat)
    {
      InversionsAt(flat, i);
      if flat[i] == 0 {
        i := i + 1;
        continue;
      }
      ghost var before := inversions;
      var j := i + 1;
      while j < |flat|
        invariant i + 1 <= j <= |flat|
        invariant inversions == before + CountBelow(flat[i + 1..j], flat[i])
      {
        CountBelowSnoc(flat, i + 1, j, flat[i]);
        if flat[j] == 0 {
          j := j + 1;
          continue;
        }
        if flat[i] > flat[j] {
          inversions := inversions + 1;
        }
        j := j + 1;
      }
      assert flat[i + 1..j] == flat[i + 1..];
      i := i + 1;
    }
    if i < |flat| {
      InversionsAt(flat, i);
      assert flat[i + 1..] == [];
    }
    solvable := inversions % 2 == 0;
  }

  /** +1, -1 or 0: what swapping two neighbouring cells `a, b` to `b, a`
      removes from the inversion count. */
  function SwapChange(a: int, b: int): int
  {
    if a == 0 || b == 0 || a == b then 0 else if a > b then 1 else -1
  }

  lemma CountBelowSwap(p: seq<int>, a: int, b: int, q: seq<int>, x: int)
    ensures CountBelow(p + [a, b] + q, x) == CountBelow(p + [b, a] + q, x)
  {
    CountBelowAppend(p + [a, b], q, x);
    CountBelowAppend(p + [b, a], q, x);
    CountBelowAppend(p, [a, b], x);
    CountBelowAppend(p, [b, a], x);
    assert [a, b][1..] == [b] && [b, a][1..] == [a];
  }

  /** Swapping two neighbouring cells changes only their own pair. */
  lemma {:induction false} SwapAdjacent(p: seq<int>, a: int, b: int, q: seq<int>)
    ensures Inversions(p + [a, b] + q) - Inversions(p + [b, a] + q) == SwapChange(a, b)
  {
    var s, t := p + [a, b] + q, p + [b, a] + q;
    if p == [] {
      assert s[1..] == [b] + q && s[1..][1..] == q;
      assert t[1..] == [a] + q && t[1..][1..] == q;
    } else {
      assert s[1..] == p[1..] + [a, b] + q && t[1..] == p[1..] + [b, a] + q;
      SwapAdjacent(p[1..], a, b, q);
      CountBelowSwap(p[1..], a, b, q, p[0]);
    }
  }

  /** Sliding a tile sideways into the blank leaves the inversions as they
      are: the order of the tiles does not change. */
  lemma SideMove(s: State)
    requires IsPermutation(s) && "right" in Actions(s)
    ensures Inversions(ResultOf(s, "right").value) == Inversions(s)
  {
    var i := Blank(s);
    var t := ResultOf(s, "right").value;
    assert Target(i, "right") == i + 1;
    Beside(s, i);
    Beside(t, i);
    assert t[..i] == s[..i] && t[i + 2..] == s[i + 2..];
    SwapAdjacent(s[..i], 0, s[i + 1], s[i + 2..]);
  }

  /** Moving `x` from behind the tiles `b, c` to before them, with the
      blank taking its place, changes the inversions by -2, 0 or 2. */
  lemma PastTwo(p: seq<int>, b: int, c: int, x: int, q: seq<int>)
    requires b != 0 && c != 0 && x != 0 && x != b && x != c
    ensures var d := Inversions(p + [x, b] + ([c, 0] + q)) - Inversions(p + [0, b] + ([c, x] + q));
      d == -2 || d == 0 || d == 2
  {
    SwapAdjacent(p, 0, b, [c, x] + q);
    assert p + [b, 0] + ([c, x] + q) == (p + [b]) + [0, c] + ([x] + q);
    SwapAdjacent(p + [b], 0, c, [x] + q);
    assert (p + [b]) + [c, 0] + ([x] + q) == (p + [b, c]) + [0, x] + q;
    SwapAdjacent(p + [b, c], 0, x, q);
    assert (p + [b, c]) + [x, 0] + q == (p + [b]) + [c, x] + ([0] + q);
    SwapAdjacent(p + [b], c, x, [0] + q);
    assert (p + [b]) + [x, c] + ([0] + q) == p + [b, x] + ([c, 0] + q);
    SwapAdjacent(p, b, x, [c, 0] + q);
  }

  lemma Beside(s: seq<int>, i: nat)
    requires i + 2 <= |s|
    ensures s == s[..i] + [s[i], s[i + 1]] + s[i + 2..]
  {
  }

  lemma Around(s: seq<int>, i: nat)
    requires i + 4 <= |s|
    ensures s == s[..i] + [s[i], s[i + 1]] + ([s[i + 2], s[i + 3]] + s[i + 4..])
  {
  }

  /** Sliding a tile vertically into the blank moves it past the two tiles
      in between, changing the inversions by -2, 0 or 2. */
  lemma VerticalMove(s: State)
    requires IsPermutation(s) && "down" in Actions(s)
    ensures var d := Inversions(ResultOf(s, "down").value) - Inversions(s);
      d == -2 || d == 0 || d == 2
  {
    var i := Blank(s);
    var t := ResultOf(s, "down").value;
    assert Target(i, "down") == i + 3;
    PermutationDistinct(s);
    var b, c, x := s[i + 1], s[i + 2], s[i + 3];
    assert b != 0 && c != 0 && x != 0 && x != b && x != c;
    Around(s, i);
    Around(t, i);
    assert t[..i] == s[..i] && t[i + 4..] == s[i + 4..];
    PastTwo(s[..i], b, c, x, s[i + 4..]);
  }

  /** Every legal move keeps the parity of the inversions, so `isSolvable`
      gives the same answer for a board and for every board one move away.
      Sideways moves keep the count itself. */
  lemma MoveKeepsParity(s: State, a: Action)
    requires IsPermutation(s) && a in Actions(s)
    ensures var t := ResultOf(s, a).value;
      && Inversions(t) % 2 == Inversions(s) % 2
      && (a == "left" || a == "right" ==> Inversions(t) == Inversions(s))
  {
    var t := ResultOf(s, a).value;
    if a == "right" {
      SideMove(s);
    } else if a == "down" {
      VerticalMove(s);
      EvenStep(Inversions(t), Inversions(s));
    } else {
      OppositeUndoes(s, a);
      ResultIsPermutation(s, a);
      if a == "left" {
        SideMove(t);
      } else {
        VerticalMove(t);
        EvenStep(Inversions(s), Inversions(t));
      }
    }
  }

  lemma EvenStep(x: int, y: int)
    requires x - y == -2 || x - y == 0 || x - y == 2
    ensures x % 2 == y % 2
  {
  }

  /** Any sequence of legal moves keeps the parity of the inversions. */
  lemma {:induction false} PlayKeepsParity(s: State, acts: seq<Action>)
    requires IsPermutation(s) && Playable(s, acts)
    ensures Inversions(Play(s, acts)) % 2 == Inversions(s) % 2
    decreases |acts|
  {
    if acts != [] {
      ResultIsPermutation(s, acts[0]);
      MoveKeepsParity(s, acts[0]);
      PlayKeepsParity(ResultOf(s, acts[0]).value, acts[1..]);
    }
  }

  /** `isSolvable` accepts every board from which some sequence of moves
      reaches the goal: the goal has no inversions. */
  lemma SolvableBoardsPass(s: State, acts: seq<Action>)
    requires IsPermutation(s) && Playable(s, acts) && Play(s, acts) == GOAL
    ensures Inversions(s) % 2 == 0
  {
    PlayKeepsParity(s, acts);
    GoalIsEven(Play(s, acts));
  }

  lemma GoalIsEven(t: State)
    requires t == GOAL
    ensures Inversions(t) % 2 == 0
  {
    GoalInversions();
  }

  /** The goal has no inversions: its tiles come in increasing order. */
  lemma GoalInversions()
    ensures Inversions(GOAL) == 0
  {
    Increasing(GOAL);
  }

  lemma {:induction false} NoneBelow(u: seq<int>, x: int)
    requires forall k :: 0 <= k < |u| ==> u[k] == 0 || u[k] > x
    ensures CountBelow(u, x) == 0
  {
    if u != [] {
      NoneBelow(u[1..], x);
    }
  }

  /** Tiles in increasing order, wherever the blank is, make no inversion. */
  lemma {:induction false} Increasing(s: seq<int>)
    requires forall i, j :: 0 <= i < j < |s| && s[i] != 0 && s[j] != 0 ==> s[i] < s[j]
    ensures Inversions(s) == 0
  {
    if s != [] {
      var u := s[1..];
      assert forall k :: 0 <= k < |u| ==> u[k] == s[k + 1];
      if s[0] != 0 {
        NoneBelow(u, s[0]);
      }
      Increasing(u);
    }
  }

  /** How many positions hold a tile rather than the blank. */
  function Tiles(s: seq<int>): (n: nat)
    ensures n <= |s|
  {
    if s == [] then 0 else (if s[0] != 0 then 1 else 0) + Tiles(s[1..])
  }

  /** How many pairs `n` things make: 0 + 1 + ... + (n - 1). */
  function PairCount(n: nat): nat
  {
    if n == 0 then 0 else PairCount(n - 1) + n - 1
  }

  lemma {:induction false} CountBelowTiles(u: seq<int>, x: int)
    ensures CountBelow(u, x) <= Tiles(u)
  {
    if u != [] {
      CountBelowTiles(u[1..], x);
    }
  }

  /** Only pairs of tiles can be inversions. */
  lemma {:induction false} InversionsPairs(s: seq<int>)
    ensures Inversions(s) <= PairCount(Tiles(s))
  {
    if s != [] {
      InversionsPairs(s[1..]);
      CountBelowTiles(s[1..], s[0]);
    }
  }

  lemma {:induction false} TilesBlanks(s: seq<int>)
    ensures Tiles(s) + multiset(s)[0] == |s|
  {
    if s != [] {
      assert s == [s[0]] + s[1..];
      TilesBlanks(s[1..]);
    }
  }

  /** A board has at most 28 inversions, the number of pairs of its eight
      tiles. */
  lemma InversionsBound(s: State)
    requires IsPermutation(s)
    ensures Inversions(s) <= 28
  {
    InversionsPairs(s);
    TilesBlanks(s);
    PermutationDistinct(s);
    DistinctMultiplicity(s, 0);
    assert PairCount(8) == 28;
  }

  // ---------------------------------------------------------------- presets

  /** `PRESET_STATES` (web-frontend/utils/parseState.js:60-66). */
  const SOLVED: seq<seq<int>> := [[1, 2, 3], [4, 5, 6], [7, 8, 0]]
  const EASY: seq<seq<int>> := [[1, 2, 3], [4, 5, 6], [7, 0, 8]]
  const MEDIUM: seq<seq<int>> := [[1, 2, 3], [4, 0, 6], [7, 5, 8]]
  const HARD: seq<seq<int>> := [[7, 2, 4], [5, 0, 6], [8, 3, 1]]
  const EXPERT: seq<seq<int>> := [[8, 6, 7], [2, 5, 4], [3, 0, 1]]

  /** Each preset is a board: a 3x3 matrix holding 0..8 once each; read
      row by row it is the sequence given, the solved one being the goal. */
  lemma SolvedPreset()
    ensures Is3x3(SOLVED) && Flatten(SOLVED) == GOAL && IsPermutation(GOAL)
  {
    Flatten3x3(SOLVED);
  }

  lemma EasyPreset()
    ensures Is3x3(EASY) && Flatten(EASY) == [1, 2, 3, 4, 5, 6, 7, 0, 8] && IsPermutation([1, 2, 3, 4, 5, 6, 7, 0, 8])
  {
    Flatten3x3(EASY);
  }

  lemma MediumPreset()
    ensures Is3x3(MEDIUM) && Flatten(MEDIUM) == [1, 2, 3, 4, 0, 6, 7, 5, 8] && IsPermutation([1, 2, 3, 4, 0, 6, 7, 5, 8])
  {
    Flatten3x3(MEDIUM);
  }

  lemma HardPreset()
    ensures Is3x3(HARD) && Flatten(HARD) == [7, 2, 4, 5, 0, 6, 8, 3, 1] && IsPermutation([7, 2, 4, 5, 0, 6, 8, 3, 1])
  {
    Flatten3x3(HARD);
  }

  lemma ExpertPreset()
    ensures Is3x3(EXPERT) && Flatten(EXPERT) == [8, 6, 7, 2, 5, 4, 3, 0, 1] && IsPermutation([8, 6, 7, 2, 5, 4, 3, 0, 1])
  {
    Flatten3x3(EXPERT);
  }
}
