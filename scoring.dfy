/** The reveal button: compare every answer cell with its correct-answer
    cell, mark the matches, show the answers, lock the answer cells and
    write the score. */
module Scoring {
  import opened Js
  import opened Questions
  import opened Grid

  /** `answer.textContent.trim() === correct.textContent.trim()`. */
  predicate Matches(submitted: string, expected: string)
  {
    Trim(submitted) == Trim(expected)
  }

  /** Which positions match. */
  function Marks(answers: seq<string>, expected: seq<string>): (marks: seq<bool>)
    requires |answers| == |expected|
    ensures |marks| == |answers|
    ensures forall i :: 0 <= i < |marks| ==> marks[i] == Matches(answers[i], expected[i])
  {
    seq(|answers|, i requires 0 <= i < |answers| => Matches(answers[i], expected[i]))
  }

  /** Number of `true` marks, counted from the front as the loop does. */
  function Tally(marks: seq<bool>): (count: nat)
    ensures count <= |marks|
  {
    if marks == [] then 0
    else Tally(marks[..|marks| - 1]) + (if marks[|marks| - 1] then 1 else 0)
  }

  /** The score of a sheet. */
  function CountMatches(answers: seq<string>, expected: seq<string>): nat
    requires |answers| == |expected|
  {
    Tally(Marks(answers, expected))
  }

  /** The tally is the number of marked positions. */
  lemma {:induction false} TallyIsCardinality(marks: seq<bool>)
    ensures Tally(marks) == |set i | 0 <= i < |marks| && marks[i]|
  {
    if marks != [] {
      var n := |marks| - 1;
      var init := marks[..n];
      TallyIsCardinality(init);
      var before := set i | 0 <= i < n && init[i];
      assert n !in before;
      if marks[n] {
        assert (set i | 0 <= i < |marks| && marks[i]) == before + {n};
      } else {
        assert (set i | 0 <= i < |marks| && marks[i]) == before;
      }
    }
  }

  /** The tally is the length exactly when every mark is set, and zero
      exactly when none is. */
  lemma {:induction false} TallyExtremes(marks: seq<bool>)
    ensures Tally(marks) == |marks| <==> forall i :: 0 <= i < |marks| ==> marks[i]
    ensures Tally(marks) == 0 <==> forall i :: 0 <= i < |marks| ==> !marks[i]
  {
    if marks != [] {
      var n := |marks| - 1;
      TallyExtremes(marks[..n]);
      assert forall i :: 0 <= i < n ==> marks[..n][i] == marks[i];
    }
  }

  /** The score is the number of positions whose trimmed texts agree, so it
      lies between 0 and the number of cells; it is full exactly when every
      position matches and 0 exactly when none does. */
  lemma ScoreCountsMatches(answers: seq<string>, expected: seq<string>)
    requires |answers| == |expected|
    ensures CountMatches(answers, expected) ==
      |set i | 0 <= i < |answers| && Trim(answers[i]) == Trim(expected[i])|
    ensures CountMatches(answers, expected) <= |answers|
    ensures CountMatches(answers, expected) == |answers| <==>
      forall i :: 0 <= i < |answers| ==> Trim(answers[i]) == Trim(expected[i])
    ensures CountMatches(answers, expected) == 0 <==>
      forall i :: 0 <= i < |answers| ==> Trim(answers[i]) != Trim(expected[i])
  {
    var marks := Marks(answers, expected);
    TallyIsCardinality(marks);
    TallyExtremes(marks);
    assert (set i | 0 <= i < |marks| && marks[i]) ==
      (set i | 0 <= i < |answers| && Trim(answers[i]) == Trim(expected[i]));
  }

  /** Surrounding white space never costs a mark. */
  lemma ScoreIgnoresWhiteSpace()
    ensures CountMatches(["14", " 14 ", "13"], ["14", "14", "14"]) == 2
  {
    var a, e := ["14", " 14 ", "13"], ["14", "14", "14"];
    assert TrimStart(" 14 ") == "14 " by { assert " 14 "[1..] == "14 "; }
    assert TrimEnd("14 ") == "14" by { assert "14 "[..2] == "14"; }
    assert Trim("13") != Trim("14") by { assert Trim("13")[1] == '3'; }
    var marks := Marks(a, e);
    assert marks == [true, true, false];
    assert marks[..2] == [true, true] && [true, true][..1] == [true] && [true][..0] == [];
    assert Tally([true]) == 1;
    assert Tally([true, true]) == 2;
    assert Tally(marks) == 2;
  }

  /** `${score} / ${level.questions}`, with " 🤩" appended on full marks. */
  function ScoreSummary(score: nat, total: int): string
  {
    NatToString(score) + " / " + IntToString(total) + (if score == total then " \U{1F929}" else "")
  }

  /** The summary reads back the score, and carries the emoji exactly when
      the score equals the level's question count. */
  lemma SummaryShowsScore(score: nat, total: int)
    ensures var s := ScoreSummary(score, total);
      && s[..|NatToString(score)| + 3] == NatToString(score) + " / "
      && (s[|s| - 1] == '\U{1F929}' <==> score == total)
  {
    var a, b := NatToString(score), IntToString(total);
    var e := if score == total then " \U{1F929}" else "";
    var s := ScoreSummary(score, total);
    assert s == (a + " / ") + (b + e);
    assert s[..|a| + 3] == a + " / ";
    if score == total {
      assert s[|s| - 1] == e[1];
    } else {
      assert s[|s| - 1] == b[|b| - 1];
    }
  }

  /** One row of the table: a question's answer cell and correct-answer
      cell, with the classes and the editability the script sets on them.
      `querySelectorAll(".answer")` and `querySelectorAll(".correct-answer")`
      both return cells in document order, so the `p`-th of each belong to
      the same row. */
  datatype Cell = Cell(
    answer: string,          // text of the answer cell
    expected: string,        // text of the correct-answer cell
    answerCorrect: bool,     // answer cell has class "correct"
    expectedCorrect: bool,   // correct-answer cell has class "correct"
    expectedHidden: bool,    // correct-answer cell has class "hidden"
    answerEditable: bool,    // contentEditable of the answer cell
    expectedEditable: bool)  // contentEditable of the correct-answer cell

  function Answers(cells: seq<Cell>): (r: seq<string>)
    ensures |r| == |cells| && forall p :: 0 <= p < |cells| ==> r[p] == cells[p].answer
  {
    seq(|cells|, p requires 0 <= p < |cells| => cells[p].answer)
  }

  function Expected(cells: seq<Cell>): (r: seq<string>)
    ensures |r| == |cells| && forall p :: 0 <= p < |cells| ==> r[p] == cells[p].expected
  {
    seq(|cells|, p requires 0 <= p < |cells| => cells[p].expected)
  }

  /** What the reveal handler does to one row: a matching pair gains the
      class "correct" on both cells, the correct answer is shown and the
      answer cell stops taking input. The correct-answer cell is left as
      editable as it was. */
  function Revealed(c: Cell): Cell
  {
    var matched := Matches(c.answer, c.expected);
    c.(answerCorrect := c.answerCorrect || matched,
       expectedCorrect := c.expectedCorrect || matched,
       expectedHidden := false,
       answerEditable := false)
  }

  /** Revealing a row keeps its texts, shows its answer, locks its answer
      cell (but not its correct-answer cell), marks it exactly when it
      matches (on a row not yet marked), and a second reveal changes
      nothing. */
  lemma RevealedRow(c: Cell)
    ensures Revealed(c).answer == c.answer && Revealed(c).expected == c.expected
    ensures !Revealed(c).expectedHidden && !Revealed(c).answerEditable
    ensures Revealed(c).expectedEditable == c.expectedEditable
    ensures !c.answerCorrect ==> (Revealed(c).answerCorrect <==> Trim(c.answer) == Trim(c.expected))
    ensures !c.expectedCorrect ==> (Revealed(c).expectedCorrect <==> Trim(c.answer) == Trim(c.expected))
    ensures Revealed(Revealed(c)) == Revealed(c)
  {
  }

  /** The worksheet page: its table rows, in document order, and the
      score line. */
  class Worksheet {
    var cells: seq<Cell>
    var scoreText: string
    var scoreHidden: bool
    const total: int                   // level.questions

    /** The freshly built table for `questions`: row `p` shows question
        `LayoutOrder(..)[p]`; its correct-answer cell holds that answer as
        text, hidden; every cell is editable unless the sheet is printable. */
    constructor (questions: seq<Question>, columns: nat, total: int, printable: bool)
      requires columns > 0 && |questions| % columns == 0
      ensures this.total == total && |cells| == |questions|
      ensures forall p :: 0 <= p < |questions| ==>
        cells[p] == Cell("", IntToString(questions[LayoutOrder(|questions|, columns)[p]].answer),
                         false, false, true, !printable, !printable)
      ensures scoreText == "" && scoreHidden
    {
      var n := |questions|;
      var order := Layout(n, columns);
      cells := seq(n, p requires 0 <= p < n =>
        Cell("", IntToString(questions[order[p]].answer), false, false, true, !printable, !printable));
      scoreText := "";
      scoreHidden := true;
      this.total := total;
    }

    /** The user types `text` into answer cell `p`; a cell that is not
        editable keeps its text. */
    method Type(p: nat, text: string)
      requires p < |cells|
      modifies this
      ensures cells == if old(cells[p].answerEditable) then old(cells)[p := old(cells[p]).(answer := text)] else old(cells)
      ensures scoreText == old(scoreText) && scoreHidden == old(scoreHidden)
    {
      if cells[p].answerEditable {
        cells := cells[p := cells[p].(answer := text)];
      }
    }

    /** The user edits correct-answer cell `p`, which `addCell` made
        editable as well unless the sheet is printable. */
    method TypeExpected(p: nat, text: string)
      requires p < |cells|
      modifies this
      ensures cells == if old(cells[p].expectedEditable) then old(cells)[p := old(cells[p]).(expected := text)] else old(cells)
      ensures scoreText == old(scoreText) && scoreHidden == old(scoreHidden)
    {
      if cells[p].expectedEditable {
        cells := cells[p := cells[p].(expected := text)];
      }
    }

    /** The click handler of the reveal button. */
    method Reveal() returns (score: nat)
      modifies this
      ensures |cells| == |old(cells)|
      ensures forall p :: 0 <= p < |cells| ==> cells[p] == Revealed(old(cells[p]))
      ensures score == CountMatches(Answers(old(cells)), Expected(old(cells)))
      ensures scoreText == ScoreSummary(score, total) && !scoreHidden
    {
      score := 0;
      var n := |cells|;
      ghost var start := cells;
      ghost var marks := Marks(Answers(cells), Expected(cells));
      for i := 0 to n
        invariant |cells| == n
        invariant forall p :: 0 <= p < i ==> cells[p] == Revealed(start[p])
        invariant forall p :: i <= p < n ==> cells[p] == start[p]
        invariant score == Tally(marks[..i])
      {
        assert marks[..i + 1][..i] == marks[..i];
        var c := cells[i];
        var matched := Trim(c.answer) == Trim(c.expected);
        assert matched == marks[i];
        if matched {
          score := score + 1;
          c := c.(answerCorrect := true, expectedCorrect := true);
        }
        cells := cells[i := c.(expectedHidden := false, answerEditable := false)];
      }
      assert marks[..n] == marks;
      scoreText := ScoreSummary(score, total);
      scoreHidden := false;
    }
  }

  /** The user types `typed[p]` into every answer cell in turn. */
  method Fill(sheet: Worksheet, typed: seq<string>)
    requires |typed| == |sheet.cells|
    requires forall k :: 0 <= k < |sheet.cells| ==> sheet.cells[k].answerEditable
    modifies sheet
    ensures |sheet.cells| == |old(sheet.cells)|
    ensures forall k :: 0 <= k < |typed| ==> sheet.cells[k] == old(sheet.cells[k]).(answer := typed[k])
    ensures sheet.scoreText == old(sheet.scoreText) && sheet.scoreHidden == old(sheet.scoreHidden)
    ensures Answers(sheet.cells) == typed
    ensures Expected(sheet.cells) == old(Expected(sheet.cells))
  {
    ghost var start := sheet.cells;
    for p := 0 to |typed|
      invariant |sheet.cells| == |typed|
      invariant forall k :: 0 <= k < p ==> sheet.cells[k] == start[k].(answer := typed[k])
      invariant forall k :: p <= k < |typed| ==> sheet.cells[k] == start[k]
      invariant sheet.scoreText == old(sheet.scoreText) && sheet.scoreHidden == old(sheet.scoreHidden)
    {
      sheet.Type(p, typed[p]);
    }
    assert Answers(sheet.cells) == typed;
    assert Expected(sheet.cells) == Expected(start);
  }

  /** A revealed table has the texts it had before, and no answer cell of
      it takes input any more. */
  lemma RevealKeepsTexts(before: seq<Cell>, after: seq<Cell>)
    requires |after| == |before| && forall p :: 0 <= p < |after| ==> after[p] == Revealed(before[p])
    ensures Answers(after) == Answers(before) && Expected(after) == Expected(before)
    ensures forall p :: 0 <= p < |after| ==> !after[p].answerEditable
  {
    assert Answers(after) == Answers(before);
    assert Expected(after) == Expected(before);
  }

  /** Revealing is repeatable for the answers: after a reveal the answer
      cells no longer take input, so typing into one and revealing again
      gives the same score. (The correct-answer cells stay editable; see
      `EditingKeyChangesScore`.) */
  method RevealTwice(questions: seq<Question>, columns: nat, typed: seq<string>, late: string)
    returns (first: nat, second: nat)
    requires columns > 0 && |questions| % columns == 0 && |typed| == |questions|
    ensures first == second
    ensures first == CountMatches(typed,
      seq(|questions|, p requires 0 <= p < |questions| =>
        IntToString(questions[LayoutOrder(|questions|, columns)[p]].answer)))
  {
    var sheet := new Worksheet(questions, columns, |questions|, false);
    assert Expected(sheet.cells) == seq(|questions|, p requires 0 <= p < |questions| =>
      IntToString(questions[LayoutOrder(|questions|, columns)[p]].answer));
    Fill(sheet, typed);
    ghost var filled := sheet.cells;
    first := sheet.Reveal();
    ghost var shown := sheet.cells;
    RevealKeepsTexts(filled, shown);
    if |questions| > 0 {
      sheet.Type(0, late);
    }
    second := sheet.Reveal();
  }

  /** One row answered "2": it scores 1 against the key "2" and 0 against
      the key "3". */
  lemma OneRowScores()
    ensures CountMatches(["2"], ["2"]) == 1 && CountMatches(["2"], ["3"]) == 0
  {
    assert Trim("2") == "2" && Trim("3") == "3";
    assert Marks(["2"], ["2"]) == [true];
    assert Marks(["2"], ["3"]) == [false];
    assert [true][..0] == [] && [false][..0] == [];
  }

  /** A revealed correct-answer cell still takes input outside printable
      mode, and editing it changes the next score: answer "2" to 1 x 2
      scores 1, and after the key is changed to "3" the same answer
      scores 0. */
  method EditingKeyChangesScore() returns (first: nat, second: nat)
    ensures first == 1 && second == 0
  {
    var sheet := new Worksheet([Multiple(1, 2, 2)], 1, 1, false);
    assert LayoutOrder(1, 1)[0] == 0;
    assert IntToString(2) == "2";
    sheet.Type(0, "2");
    assert Answers(sheet.cells) == ["2"] && Expected(sheet.cells) == ["2"];
    OneRowScores();
    first := sheet.Reveal();
    sheet.TypeExpected(0, "3");
    assert Answers(sheet.cells) == ["2"] && Expected(sheet.cells) == ["3"];
    second := sheet.Reveal();
  }
}
