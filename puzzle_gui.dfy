/** The desktop window's input check (main_UI_new.py, `validate_input`):
    the text typed by the user must be nine whole numbers, 0 to 8 once
    each, separated by whitespace. */
module PuzzleGui {
  import opened Base
  import opened Text
  import opened EightPuzzleProblem

  /** Python's `int(text)` on one token: `None` stands for the ValueError it
      raises. The conversion itself is a parameter of the model. */
  type IntReader = string -> Option<int>

  /** The `(ok, value)` pair `validate_input` returns: the tiles in input
      order, or the message shown to the user. */
  datatype Validation = Valid(tiles: State) | Invalid(message: string)

  const BAD_FORMAT := "Formato inválido. Use números separados por espacios"
  const WRONG_COUNT := "Debe ingresar exactamente 9 números"
  const NOT_A_PERMUTATION := "Debe usar los números 0-8 sin repetir"

  /** `list(range(9))`. */
  const RANGE: seq<int> := seq(9, k => k)

  /** `validate_input` (main_UI_new.py:156-166). The list comprehension
      converts every token before anything is counted, so one token `int`
      cannot read gives the format message whatever the count; then a count
      other than nine, then numbers that do not sort to 0..8 (the sorted
      list equals `list(range(9))` exactly when the numbers are 0..8 with
      the same multiplicities). Whatever it accepts is a board; whatever it
      refuses gets one of the three messages. */
  function ValidateInput(text: string, toInt: IntReader): (r: Validation)
    ensures r.Valid? ==> IsPermutation(r.tiles)
    ensures r.Invalid? ==> r.message == BAD_FORMAT || r.message == WRONG_COUNT || r.message == NOT_A_PERMUTATION
  {
    var tokens := Tokens(text);
    if exists k :: 0 <= k < |tokens| && toInt(tokens[k]).None? then Invalid(BAD_FORMAT)
    else
      var parts := seq(|tokens|, k requires 0 <= k < |tokens| => toInt(tokens[k]).value);
      if |parts| != 9 then Invalid(WRONG_COUNT)
      else if multiset(parts) != multiset(RANGE) then Invalid(NOT_A_PERMUTATION)
      else
        RangeIsGoal();
        PermutationIff(parts);
        Valid(parts)
  }

  /** The input is accepted exactly when every token is a number, there are
      nine of them and they form a board; the board keeps the input order. */
  lemma ValidInputIsBoard(text: string, toInt: IntReader)
    ensures var tokens := Tokens(text);
      ValidateInput(text, toInt).Valid? <==>
        && |tokens| == 9
        && (forall k :: 0 <= k < 9 ==> toInt(tokens[k]).Some?)
        && IsPermutation(seq(9, k requires 0 <= k < 9 => toInt(tokens[k]).value))
    ensures ValidateInput(text, toInt).Valid? ==>
      var tiles := ValidateInput(text, toInt).tiles;
      |tiles| == 9 && forall k :: 0 <= k < 9 ==> toInt(Tokens(text)[k]) == Some(tiles[k])
  {
    var tokens := Tokens(text);
    if |tokens| == 9 && forall k :: 0 <= k < 9 ==> toInt(tokens[k]).Some? {
      var parts := seq(9, k requires 0 <= k < 9 => toInt(tokens[k]).value);
      NineNumbers(text, toInt, parts);
      AcceptedIffBoard(parts);
    } else {
      NotNineNumbers(text, toInt);
    }
  }

  /** The last check passes exactly on boards. */
  lemma AcceptedIffBoard(parts: seq<int>)
    requires |parts| == 9
    ensures multiset(parts) == multiset(RANGE) <==> IsPermutation(parts)
  {
    RangeIsGoal();
    PermutationIff(parts);
  }

  /** Without nine tokens that are all numbers, the input is refused. */
  lemma NotNineNumbers(text: string, toInt: IntReader)
    requires !(|Tokens(text)| == 9 && forall k :: 0 <= k < 9 ==> toInt(Tokens(text)[k]).Some?)
    ensures ValidateInput(text, toInt).Invalid?
  {
    var tokens := Tokens(text);
    if |tokens| == 9 {
      var k :| 0 <= k < 9 && toInt(tokens[k]).None?;
    }
  }

  /** Nine tokens that are all numbers reach the last check with those
      numbers in order. */
  lemma NineNumbers(text: string, toInt: IntReader, parts: seq<int>)
    requires |Tokens(text)| == 9 && forall k :: 0 <= k < 9 ==> toInt(Tokens(text)[k]).Some?
    requires parts == seq(9, k requires 0 <= k < 9 => toInt(Tokens(text)[k]).value)
    ensures ValidateInput(text, toInt) == if multiset(parts) != multiset(RANGE) then Invalid(NOT_A_PERMUTATION) else Valid(parts)
  {
    var tokens := Tokens(text);
    assert !exists k :: 0 <= k < |tokens| && toInt(tokens[k]).None?;
    assert parts == seq(|tokens|, k requires 0 <= k < |tokens| => toInt(tokens[k]).value);
  }

  lemma RangeIsGoal()
    ensures multiset(RANGE) == multiset(GOAL)
  {
    forall v | 0 <= v < 9 ensures v in RANGE {
      assert RANGE[v] == v;
    }
    PermutationIff(RANGE);
  }

  /** The messages come in the source's order: a token that is not a number
      is reported before a wrong count, and a wrong count before a repeated
      or missing number. */
  lemma ValidateInputErrors(text: string, toInt: IntReader)
    ensures (exists k :: 0 <= k < |Tokens(text)| && toInt(Tokens(text)[k]).None?) <==>
      ValidateInput(text, toInt) == Invalid(BAD_FORMAT)
    ensures (forall k :: 0 <= k < |Tokens(text)| ==> toInt(Tokens(text)[k]).Some?) && |Tokens(text)| != 9 <==>
      ValidateInput(text, toInt) == Invalid(WRONG_COUNT)
  {
    assert |BAD_FORMAT| == 52 && |WRONG_COUNT| == 35 && |NOT_A_PERMUTATION| == 37;
    var tokens := Tokens(text);
    var r := ValidateInput(text, toInt);
    if exists k :: 0 <= k < |tokens| && toInt(tokens[k]).None? {
      var k :| 0 <= k < |tokens| && toInt(tokens[k]).None?;
      assert 0 <= k < |Tokens(text)| && toInt(Tokens(text)[k]).None?;
      assert r == Invalid(BAD_FORMAT) != Invalid(WRONG_COUNT);
      assert !(forall k :: 0 <= k < |tokens| ==> toInt(tokens[k]).Some?);
    } else {
      assert forall k :: 0 <= k < |tokens| ==> toInt(tokens[k]).Some?;
      var parts := seq(|tokens|, k requires 0 <= k < |tokens| => toInt(tokens[k]).value);
      if |parts| != 9 {
        assert r == Invalid(WRONG_COUNT);
      } else {
        assert r.Valid? || r == Invalid(NOT_A_PERMUTATION);
      }
    }
  }

  /** Nine numerals of a board, separated by spaces, are accepted as that
      board, provided `int` reads the numerals 0..8 as their values. */
  lemma ValidateInputRoundTrip(s: State, toInt: IntReader)
    requires IsPermutation(s)
    requires forall d :: 0 <= d < 9 ==> toInt(IntToString(d)) == Some(d)
    ensures ValidateInput(Join(seq(9, k requires 0 <= k < 9 => IntToString(s[k])), " "), toInt) == Valid(s)
  {
    var words := seq(9, k requires 0 <= k < 9 => IntToString(s[k]));
    PermutationDistinct(s);
    TokensOfJoin(words, ' ');
    var parts := seq(9, k requires 0 <= k < 9 => toInt(words[k]).value);
    assert parts == s;
    ValidInputIsBoard(Join(words, " "), toInt);
  }
}
