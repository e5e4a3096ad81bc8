/**
 * The cell-writing loop of print_to_xlsx in kahoot_question_generator.py. Question k of the
 * list goes to row 9 + k: its prompt in column 2, its first four answers in columns 3 to 6,
 * the literal "60" (the time limit) in column 7 and its correct number in column 8.
 */
module Grid {
  import opened Wrappers
  import opened Questions

  /** What a worksheet cell holds: text, or an integer. */
  datatype Cell = Text(text: string) | Number(number: int)

  /** The worksheet's cells, keyed by (row, column). */
  type Cells = map<(int, int), Cell>

  const FirstRow: int := 9
  const PromptColumn: int := 2
  const FirstAnswerColumn: int := 3
  const TimeLimitColumn: int := 7
  const CorrectNumberColumn: int := 8
  const TimeLimit: string := "60"

  /** The active worksheet of the workbook; only its cells are modelled. */
  class Sheet {
    var cells: Cells

    /** `sheet.cell(row=r, column=c).value = v`. */
    method SetCell(row: int, column: int, value: Cell)
      modifies this
      ensures cells == old(cells)[(row, column) := value]
    {
      cells := cells[(row, column) := value];
    }
  }

  /** A question the loop can write without raising IndexError. */
  predicate Complete(q: Question)
  {
    |q.answers| >= 4
  }

  predicate AllComplete(qs: seq<Question>)
  {
    forall k :: 0 <= k < |qs| ==> Complete(qs[k])
  }

  /** The cells one pass of the loop leaves in `row` (lines 37-43), written in the order of
      the code: a pass over a question with fewer than four answers stops at the first
      missing answer. */
  function WriteRow(cells: Cells, row: int, q: Question): Cells
  {
    var c1 := cells[(row, PromptColumn) := Text(q.question)];
    var c2 := if |q.answers| > 0 then c1[(row, FirstAnswerColumn) := Text(q.answers[0])] else c1;
    var c3 := if |q.answers| > 1 then c2[(row, FirstAnswerColumn + 1) := Text(q.answers[1])] else c2;
    var c4 := if |q.answers| > 2 then c3[(row, FirstAnswerColumn + 2) := Text(q.answers[2])] else c3;
    if |q.answers| > 3 then
      c4[(row, FirstAnswerColumn + 3) := Text(q.answers[3])]
        [(row, TimeLimitColumn) := Text(TimeLimit)]
        [(row, CorrectNumberColumn) := Number(q.correctAnswerNumber)]
    else c4
  }

  /** The cells after the first `m` passes of the loop. */
  function Written(cells: Cells, qs: seq<Question>, m: nat): Cells
    requires m <= |qs|
  {
    if m == 0 then cells
    else WriteRow(Written(cells, qs, m - 1), FirstRow + m - 1, qs[m - 1])
  }

  /** The layout rule as a table, independent of the order of writes: what column `c` of a
      question's row holds, or None for a column the row leaves alone. */
  function LayoutCell(q: Question, c: int): Option<Cell>
  {
    if c == PromptColumn then Some(Text(q.question))
    else if FirstAnswerColumn <= c < FirstAnswerColumn + 4 then
      (if c - FirstAnswerColumn < |q.answers| then Some(Text(q.answers[c - FirstAnswerColumn])) else None)
    else if c == TimeLimitColumn && Complete(q) then Some(Text(TimeLimit))
    else if c == CorrectNumberColumn && Complete(q) then Some(Number(q.correctAnswerNumber))
    else None
  }

  /** The number of passes the loop starts: all of them, or up to and including the pass
      over the first question with fewer than four answers, where IndexError ends it. */
  function RowsReached(qs: seq<Question>): (n: nat)
    ensures n <= |qs|
    ensures AllComplete(qs) ==> n == |qs|
    ensures !AllComplete(qs) ==>
      0 < n && !Complete(qs[n - 1]) && forall k :: 0 <= k < n - 1 ==> Complete(qs[k])
  {
    if qs == [] then 0
    else if !Complete(qs[0]) then 1
    else
      assert forall k :: 0 < k < |qs| ==> qs[1..][k - 1] == qs[k];
      1 + RowsReached(qs[1..])
  }

  /** One row written over any cells agrees with the layout table in that row and leaves
      every other cell as it was. */
  lemma WriteRowCell(cells: Cells, row: int, q: Question, r: int, c: int)
    ensures r == row && LayoutCell(q, c).Some? ==>
      (r, c) in WriteRow(cells, row, q) && WriteRow(cells, row, q)[(r, c)] == LayoutCell(q, c).value
    ensures !(r == row && LayoutCell(q, c).Some?) ==>
      ((r, c) in WriteRow(cells, row, q) <==> (r, c) in cells) &&
      ((r, c) in cells ==> WriteRow(cells, row, q)[(r, c)] == cells[(r, c)])
  {
  }

  /** After `m` passes, cell (r, c) is what the layout table says for question r - 9 when
      9 <= r < 9 + m and the table has an entry there, and otherwise it is untouched:
      present exactly when it was, with the same value. */
  lemma {:induction false} WrittenCell(cells: Cells, qs: seq<Question>, m: nat, r: int, c: int)
    requires m <= |qs|
    ensures FirstRow <= r < FirstRow + m && LayoutCell(qs[r - FirstRow], c).Some? ==>
      (r, c) in Written(cells, qs, m) &&
      Written(cells, qs, m)[(r, c)] == LayoutCell(qs[r - FirstRow], c).value
    ensures !(FirstRow <= r < FirstRow + m && LayoutCell(qs[r - FirstRow], c).Some?) ==>
      ((r, c) in Written(cells, qs, m) <==> (r, c) in cells) &&
      ((r, c) in cells ==> Written(cells, qs, m)[(r, c)] == cells[(r, c)])
  {
    if m > 0 {
      WrittenCell(cells, qs, m - 1, r, c);
      WriteRowCell(Written(cells, qs, m - 1), FirstRow + m - 1, qs[m - 1], r, c);
    }
  }

  /** When every question is complete, rows 9 .. 9 + n - 1 are filled without gaps: row
      9 + k holds question k's prompt, its answers 0 to 3, "60" and its correct number. */
  lemma CompleteRows(cells: Cells, qs: seq<Question>, k: nat)
    requires AllComplete(qs) && k < |qs|
    ensures (FirstRow + k, PromptColumn) in Written(cells, qs, |qs|)
    ensures Written(cells, qs, |qs|)[(FirstRow + k, PromptColumn)] == Text(qs[k].question)
    ensures forall j :: 0 <= j < 4 ==>
      (FirstRow + k, FirstAnswerColumn + j) in Written(cells, qs, |qs|) &&
      Written(cells, qs, |qs|)[(FirstRow + k, FirstAnswerColumn + j)] == Text(qs[k].answers[j])
    ensures (FirstRow + k, TimeLimitColumn) in Written(cells, qs, |qs|)
    ensures Written(cells, qs, |qs|)[(FirstRow + k, TimeLimitColumn)] == Text(TimeLimit)
    ensures (FirstRow + k, CorrectNumberColumn) in Written(cells, qs, |qs|)
    ensures Written(cells, qs, |qs|)[(FirstRow + k, CorrectNumberColumn)] == Number(qs[k].correctAnswerNumber)
  {
    var row := FirstRow + k;
    assert row - FirstRow == k;
    WrittenCell(cells, qs, |qs|, row, PromptColumn);
    WrittenCell(cells, qs, |qs|, row, TimeLimitColumn);
    WrittenCell(cells, qs, |qs|, row, CorrectNumberColumn);
    forall j | 0 <= j < 4
      ensures (row, FirstAnswerColumn + j) in Written(cells, qs, |qs|)
      ensures Written(cells, qs, |qs|)[(row, FirstAnswerColumn + j)] == Text(qs[k].answers[j])
    {
      WrittenCell(cells, qs, |qs|, row, FirstAnswerColumn + j);
    }
  }

  /** Every cell outside rows 9 .. 9 + m - 1 and columns 2 .. 8 is left alone; with no
      questions nothing at all is written. */
  lemma WrittenFrame(cells: Cells, qs: seq<Question>, m: nat, r: int, c: int)
    requires m <= |qs|
    requires !(FirstRow <= r < FirstRow + m) || c < PromptColumn || c > CorrectNumberColumn
    ensures (r, c) in Written(cells, qs, m) <==> (r, c) in cells
    ensures (r, c) in cells ==> Written(cells, qs, m)[(r, c)] == cells[(r, c)]
  {
    WrittenCell(cells, qs, m, r, c);
  }

  /** The loop of print_to_xlsx over the active sheet. It returns false where the code
      raises IndexError (a question with fewer than four answers); the cells written up to
      that point stay written, and the workbook is never saved. */
  method PrintToSheet(ql: QuestionList, sheet: Sheet) returns (ok: bool)
    modifies sheet
    ensures ok <==> AllComplete(ql.questionList)
    ensures sheet.cells == Written(old(sheet.cells), ql.questionList, RowsReached(ql.questionList))
    ensures ql.questionList == [] ==> sheet.cells == old(sheet.cells)
  {
    var numOfQuestions := ql.NumOfQuestions();
    ghost var qs := ql.questionList;
    ghost var before := sheet.cells;
    for i := FirstRow to numOfQuestions + FirstRow
      invariant sheet.cells == Written(before, qs, i - FirstRow)
      invariant forall k :: 0 <= k < i - FirstRow ==> Complete(qs[k])
    {
      var q := ql.questionList[i - FirstRow];
      sheet.SetCell(i, PromptColumn, Text(q.question));
      if |q.answers| < 1 {
        return false;
      }
      sheet.SetCell(i, FirstAnswerColumn, Text(q.answers[0]));
      if |q.answers| < 2 {
        return false;
      }
      sheet.SetCell(i, FirstAnswerColumn + 1, Text(q.answers[1]));
      if |q.answers| < 3 {
        return false;
      }
      sheet.SetCell(i, FirstAnswerColumn + 2, Text(q.answers[2]));
      if |q.answers| < 4 {
        return false;
      }
      sheet.SetCell(i, FirstAnswerColumn + 3, Text(q.answers[3]));
      sheet.SetCell(i, TimeLimitColumn, Text(TimeLimit));
      sheet.SetCell(i, CorrectNumberColumn, Number(q.correctAnswerNumber));
    }
    return true;
  }
}
