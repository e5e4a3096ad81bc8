# Kahoot quiz generator: question pipeline, question list and sheet layout

A Dafny model of the core of a small Python program that takes multiple-choice trivia
questions from the Open Trivia Database, inserts each correct answer at a random position
among the incorrect ones, and writes the questions into a Kahoot quiz spreadsheet template.
The model covers the three pieces that carry logic, all in `kahoot_question_generator.py`:

- `questions.dfy` (module `Questions`): the `Question` record, the append-only `QuestionList`
  class (`AddQuestion`, `NumOfQuestions`, `Iter`), and the `QuestionListIter` class, a cursor
  over a snapshot of the list whose `Next` returns `None` where Python raises
  `StopIteration`. `ForEach` is Python's `for q in question_list:` protocol over them.
- `pipeline.dfy` (module `Pipeline`): `process_json_for_questions`. `ProcessJsonForQuestions`
  is the loop itself and is proved equal to the specification function `ProcessedQuestions`.
  The lemmas beside it state what a run produces. `Insert` is Python's `list.insert`.
  `UnescapeList` is `html.unescape` called on a list, and `BuildQuestion` is one pass of the loop.
- `grid.dfy` (module `Grid`): the cell-writing loop of `print_to_xlsx`. `PrintToSheet`
  writes a `Sheet` in place and is proved equal to the specification function `Written`.
  The lemmas tie `Written` to the layout table `LayoutCell` and show that every other cell is
  left alone.
- `wrappers.dfy` (module `Wrappers`): `Option` and `Result`.

External inputs become parameters:

- `html.unescape` on a string is the function parameter `unescape`. Every property holds for
  any decoder.
- `random.randint(0, 3)` is the sequence `positions`, one draw per record. A lemma that
  needs the range `[0, 3]` requires it.
- The provider's decoded `results` array is the sequence `results`. A JSON key a record
  lacks is `None`.
- The workbook's active sheet is a `Sheet` object holding a `map` from `(row, column)` to
  `Cell`.

Where the code and the design description disagree, the model follows the code:

- The design says every answer is HTML-decoded. The code applies `unescape` to the list of
  incorrect answers (line 53). On a list, Python's `html.unescape` only tests whether the
  string `"&"` is an element. If it is not, the list comes back unchanged. If it is, the
  substitution that follows raises `TypeError`. So in the model only the prompt and the
  correct answer are decoded. A list that contains `"&"` makes the run fail with
  `TypeError`.
- The design describes a `MalformedRecord` error. The code raises `KeyError` for the first
  missing key, in the order it reads them: `incorrect_answers`, `correct_answer`, then
  `question`. The whole run then fails and no list is returned. The model raises
  `KeyError(key)` in that order.
- The design describes an `InvalidQuestion` check. The code checks nothing when it builds a
  `Question`, so the record is unconstrained. `list.insert` past the end of a short list
  appends. The correct number then points past the list (`CorrectNumberNamesAnswer`).
- The design does not say what happens when a question has fewer than four answers.
  The writer loop raises `IndexError` at the first missing answer, after writing that
  row's earlier cells. `PrintToSheet` returns `false` there, with exactly those cells
  written (`RowsReached`).

## Model

| member | source | states |
|---|---|---|
| `Questions.QuestionList.constructor` | kahoot_question_generator.py:81-82 | a new list holds no questions |
| `Questions.QuestionList.AddQuestion` | kahoot_question_generator.py:87-89 | appends at the end: the count grows by exactly one, the argument is the new last element, and all earlier elements are unchanged |
| `Questions.QuestionList.Iter` | kahoot_question_generator.py:100-101 | each call returns a fresh iterator over the current list, with its cursor at 0 and nothing yielded yet |
| `Questions.QuestionListIter.constructor` | kahoot_question_generator.py:107-110 | the iterator takes the list's questions, snapshots their number and starts its cursor at 0 |
| `Questions.QuestionListIter.Next` | kahoot_question_generator.py:115-120 | below the snapshot length it returns the question under the cursor and advances by one. After that it returns None (StopIteration) and leaves the state unchanged, on every later call. The cursor stays in [0, n], and the yielded sequence is always the list's prefix up to the cursor |
| `Questions.ForEach` | kahoot_question_generator.py:100-120 | iterating a list yields exactly its questions in order and changes nothing. So two iterations over the same list agree, and an empty list yields nothing |
| `Pipeline.Insert` | kahoot_question_generator.py:55 | `list.insert(p, x)` gives a list one longer with `x` at index p (or at the end when p is past it). Removing that index gives back the original list in its original order |
| `Pipeline.BuildQuestion` | kahoot_question_generator.py:53-60 | one pass succeeds exactly when the record has all three keys and no incorrect answer is the string "&". The question then has the decoded prompt, correct number p + 1, one more answer than the incorrect ones, and the decoded correct answer at the insertion index with the incorrect answers in order around it |
| `Pipeline.ProcessJsonForQuestions` | kahoot_question_generator.py:48-63 | the loop fails exactly when the specification fails, with the same exception. Otherwise it returns a fresh QuestionList holding exactly the specified questions |
| `Pipeline.ProcessedStep` | kahoot_question_generator.py:52-61 | after a prefix that did not raise, one more record adds its question at the end or raises that record's exception |
| `Pipeline.FailureExtends` | kahoot_question_generator.py:52-61 | once a prefix of the records raises, the whole run raises the same exception, and no partial list is produced |
| `Pipeline.ProcessedLength` | kahoot_question_generator.py:50-63 | a successful run yields exactly one question per input record |
| `Pipeline.ProcessedAt` | kahoot_question_generator.py:52-61 | in a successful run, question k is the one built from record k and position k, so the input order is kept |
| `Pipeline.ProcessedSucceedsIff` | kahoot_question_generator.py:52-61 | a run succeeds if and only if every record is well formed |
| `Pipeline.FirstMalformedDecides` | kahoot_question_generator.py:52-58 | when record k is the first malformed one, the run fails with record k's exception |
| `Pipeline.CorrectAnswerPlacement` | kahoot_question_generator.py:54-59 | with p in [0, 3] and three incorrect answers, there are exactly 4 answers and the correct number is in [1, 4]. That number names the decoded correct answer. Removing it leaves the incorrect answers in their original order |
| `Pipeline.CorrectNumberNamesAnswer` | kahoot_question_generator.py:54-59 | for any number of incorrect answers, the correct number names an existing answer equal to the decoded correct one exactly when p does not exceed the list's length |
| `Pipeline.RunPlacement` | kahoot_question_generator.py:50-63 | for a whole successful run with positions in [0, 3] and three incorrect answers per record, question k has record k's decoded prompt, four answers, and correct number positions[k] + 1 in [1, 4], which names record k's decoded correct answer |
| `Grid.Sheet.SetCell` | kahoot_question_generator.py:37 | assigning one cell changes that cell and no other |
| `Grid.RowsReached` | kahoot_question_generator.py:36-43 | the loop runs every pass when all questions have four answers. Otherwise it stops in the pass over the first question with fewer, and every earlier question has four |
| `Grid.WriteRowCell` | kahoot_question_generator.py:37-43 | one pass writes exactly the layout table's entries for its row and leaves every other cell as it was |
| `Grid.WrittenCell` | kahoot_question_generator.py:36-43 | after m passes, cell (r, c) with 9 <= r < 9 + m holds the layout table's entry for question r - 9 when there is one. Every other cell is present exactly when it was before, with the same value |
| `Grid.CompleteRows` | kahoot_question_generator.py:35-43 | when every question has four answers, rows 9 to n + 8 are filled with no gaps. Row 9 + k holds question k's prompt in column 2, answers 0-3 in columns 3-6, "60" in column 7 and the correct number in column 8 |
| `Grid.WrittenFrame` | kahoot_question_generator.py:36-43 | every cell outside rows 9 to 9 + m - 1 and columns 2 to 8 is unchanged, so with no questions nothing is written |
| `Grid.PrintToSheet` | kahoot_question_generator.py:35-43 | the loop succeeds exactly when every question has four answers. The sheet's cells become the specified layout over the passes the loop reached. An empty list leaves the sheet unchanged |

`QuestionList.NumOfQuestions` (a `len`) and `UnescapeList` have no contract of their own.
What they mean is stated by `AddQuestion` and `BuildQuestion`.

## Left out

- `main` (lines 13-22): orchestration, plus a file name made from the clock.
- `create_new_xlsx_file` (lines 25-27): a file-system copy of the template.
- `get_questions_from_db` (lines 66-75): an HTTP request with a timeout. The decoded
  `results` are an input instead, and so is `request.json()`.
- `openpyxl.load_workbook`, `file.active` and `file.save` (lines 32-33, 45): the spreadsheet
  library's file I/O. Only the cell writes are modelled.
- `random.randint` (line 54): its draws are the input `positions`. Uniformity is a
  statistical property, not a verifiable one.
- The character-reference tables inside `html.unescape` on strings: a foreign library. It is
  the uninterpreted parameter `unescape`, so the decoding examples of the design cannot be
  stated.
- `__str__`, `__repr__` and `print_questions` (lines 84-85, 91-94, 130-134): console formatting.
- `QuestionListIter.__iter__` (lines 112-113): it returns the iterator itself and holds no logic.
- `QuestionListIter.constructor`: Python keeps a reference to the list object, while the model
  keeps a copy of its value. The list only ever grows at the end, and the iterator reads only
  indices below its snapshot length, so both read the same questions. Aliasing as such is not
  modelled.
- Python's negative `list.insert` indices: the positions are never negative.
