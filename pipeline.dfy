/**
 * process_json_for_questions of kahoot_question_generator.py: every provider record, in order,
 * becomes a Question whose correct answer is inserted into the incorrect answers at a chosen
 * position. html.unescape is the parameter `unescape`; the position random.randint(0, 3)
 * draws for record k is `positions[k]`.
 */
module Pipeline {
  import opened Wrappers
  import opened Questions

  /** A record of the provider's `results` array; a key the JSON object lacks is None. */
  datatype RawResult = RawResult(
    question: Option<string>,
    correctAnswer: Option<string>,
    incorrectAnswers: Option<seq<string>>)

  /** The exceptions the loop can raise: a missing key, or html.unescape handed a list
      that holds the string "&". */
  datatype PyError = KeyError(key: string) | TypeError

  /** The index at which Python's `list.insert(p, x)` puts `x` for a non-negative `p`:
      `p` itself, or the end of the list when `p` is past it. */
  function Slot<T>(s: seq<T>, p: nat): nat
  {
    if p <= |s| then p else |s|
  }

  /** `s` with the element at index `i` taken out. */
  function RemoveAt<T>(s: seq<T>, i: nat): seq<T>
    requires i < |s|
  {
    s[..i] + s[i + 1..]
  }

  /** Python's `list.insert(p, x)`: `x` lands at Slot(s, p), the elements after it move one
      place right, and taking `x` out again gives back `s` in its original order. */
  function Insert<T>(s: seq<T>, p: nat, x: T): (r: seq<T>)
    ensures |r| == |s| + 1
    ensures r[Slot(s, p)] == x
    ensures RemoveAt(r, Slot(s, p)) == s
  {
    if p >= |s| then
      assert (s + [x])[..|s|] == s;
      s + [x]
    else
      var r := s[..p] + [x] + s[p..];
      assert r[..p] == s[..p] && r[p + 1..] == s[p..];
      r
  }

  /** html.unescape applied to a list (line 53): `'&' not in xs` is a list-membership test,
      so the list is returned as it is unless one element is exactly "&", in which case the
      regular-expression substitution that follows raises TypeError. */
  function UnescapeList(xs: seq<string>): Result<seq<string>, PyError>
  {
    if "&" !in xs then Success(xs) else Failure(TypeError)
  }

  /** A record that one pass of the loop turns into a question without raising. */
  predicate WellFormed(raw: RawResult)
  {
    raw.incorrectAnswers.Some? && "&" !in raw.incorrectAnswers.value &&
    raw.correctAnswer.Some? && raw.question.Some?
  }

  /** One pass of the loop (lines 53-60), reading the keys in the order the code does.
      Only the prompt and the correct answer are decoded; the incorrect answers pass through
      as the provider sent them. */
  function BuildQuestion(raw: RawResult, p: nat, unescape: string -> string): (r: Result<Question, PyError>)
    ensures r.Success? <==> WellFormed(raw)
    ensures r.Success? ==>
      var inc := raw.incorrectAnswers.value;
      var q := r.value;
      q.question == unescape(raw.question.value) &&
      q.correctAnswerNumber == p + 1 &&
      |q.answers| == |inc| + 1 &&
      q.answers[Slot(inc, p)] == unescape(raw.correctAnswer.value) &&
      RemoveAt(q.answers, Slot(inc, p)) == inc
  {
    if raw.incorrectAnswers.None? then Failure(KeyError("incorrect_answers"))
    else match UnescapeList(raw.incorrectAnswers.value)
      case Failure(e) => Failure(e)
      case Success(questionAnswers) =>
        if raw.correctAnswer.None? then Failure(KeyError("correct_answer"))
        else
          var answers := Insert(questionAnswers, p, unescape(raw.correctAnswer.value));
          if raw.question.None? then Failure(KeyError("question"))
          else Success(Question(unescape(raw.question.value), answers, p + 1))
  }

  /** What the whole loop produces: the questions of all records in input order, or the
      exception of the first record that raises (the list built so far is then lost). */
  function ProcessedQuestions(results: seq<RawResult>, positions: seq<nat>, unescape: string -> string): Result<seq<Question>, PyError>
    requires |positions| == |results|
    decreases |results|
  {
    if |results| == 0 then Success([])
    else
      var n := |results| - 1;
      match ProcessedQuestions(results[..n], positions[..n], unescape)
      case Failure(e) => Failure(e)
      case Success(qs) =>
        match BuildQuestion(results[n], positions[n], unescape)
        case Failure(e) => Failure(e)
        case Success(q) => Success(qs + [q])
  }

  /** The loop of process_json_for_questions over a fresh QuestionList. */
  method ProcessJsonForQuestions(results: seq<RawResult>, positions: seq<nat>, unescape: string -> string)
    returns (r: Result<QuestionList, PyError>)
    requires |positions| == |results|
    ensures r.Success? <==> ProcessedQuestions(results, positions, unescape).Success?
    ensures r.Success? ==> fresh(r.value) && r.value.questionList == ProcessedQuestions(results, positions, unescape).value
    ensures r.Failure? ==> r.error == ProcessedQuestions(results, positions, unescape).error
  {
    var questionList := new QuestionList();
    var i := 0;
    while i < |results|
      invariant 0 <= i <= |results|
      invariant fresh(questionList)
      invariant ProcessedQuestions(results[..i], positions[..i], unescape) == Success(questionList.questionList)
    {
      var result := results[i];
      ghost var step := BuildQuestion(result, positions[i], unescape);
      ProcessedStep(results, positions, unescape, i);
      if result.incorrectAnswers.None? {
        FailureExtends(results, positions, unescape, i + 1);
        return Failure(KeyError("incorrect_answers"));
      }
      var unescaped := UnescapeList(result.incorrectAnswers.value);
      if unescaped.Failure? {
        FailureExtends(results, positions, unescape, i + 1);
        return Failure(unescaped.error);
      }
      var questionAnswers := unescaped.value;
      var answerPosition := positions[i];
      if result.correctAnswer.None? {
        FailureExtends(results, positions, unescape, i + 1);
        return Failure(KeyError("correct_answer"));
      }
      questionAnswers := Insert(questionAnswers, answerPosition, unescape(result.correctAnswer.value));
      if result.question.None? {
        FailureExtends(results, positions, unescape, i + 1);
        return Failure(KeyError("question"));
      }
      var fullQuestion := Question(unescape(result.question.value), questionAnswers, answerPosition + 1);
      assert step == Success(fullQuestion);
      questionList.AddQuestion(fullQuestion);
      i := i + 1;
    }
    assert results[..i] == results && positions[..i] == positions;
    r := Success(questionList);
  }

  /** One more pass of the loop after a prefix that did not raise. */
  lemma ProcessedStep(results: seq<RawResult>, positions: seq<nat>, unescape: string -> string, i: nat)
    requires |positions| == |results| && i < |results|
    requires ProcessedQuestions(results[..i], positions[..i], unescape).Success?
    ensures ProcessedQuestions(results[..i + 1], positions[..i + 1], unescape) ==
      match BuildQuestion(results[i], positions[i], unescape)
      case Failure(e) => Failure(e)
      case Success(q) => Success(ProcessedQuestions(results[..i], positions[..i], unescape).value + [q])
  {
    assert results[..i + 1][..i] == results[..i] && positions[..i + 1][..i] == positions[..i];
  }

  /** Once a prefix of the records raises, the whole run raises the same exception. */
  lemma {:induction false} FailureExtends(results: seq<RawResult>, positions: seq<nat>, unescape: string -> string, n: nat)
    requires |positions| == |results| && n <= |results|
    requires ProcessedQuestions(results[..n], positions[..n], unescape).Failure?
    ensures ProcessedQuestions(results, positions, unescape) == ProcessedQuestions(results[..n], positions[..n], unescape)
  {
    if n == |results| {
      assert results[..n] == results && positions[..n] == positions;
    } else {
      var m := |results| - 1;
      assert results[..m][..n] == results[..n] && positions[..m][..n] == positions[..n];
      FailureExtends(results[..m], positions[..m], unescape, n);
    }
  }

  /** A successful run yields exactly one question per record. */
  lemma {:induction false} ProcessedLength(results: seq<RawResult>, positions: seq<nat>, unescape: string -> string)
    requires |positions| == |results|
    requires ProcessedQuestions(results, positions, unescape).Success?
    ensures |ProcessedQuestions(results, positions, unescape).value| == |results|
  {
    if |results| > 0 {
      var n := |results| - 1;
      ProcessedLength(results[..n], positions[..n], unescape);
    }
  }

  /** In a successful run, question k is the one built from record k with position k. */
  lemma {:induction false} ProcessedAt(results: seq<RawResult>, positions: seq<nat>, unescape: string -> string, k: nat)
    requires |positions| == |results| && k < |results|
    requires ProcessedQuestions(results, positions, unescape).Success?
    ensures |ProcessedQuestions(results, positions, unescape).value| == |results|
    ensures BuildQuestion(results[k], positions[k], unescape).Success?
    ensures ProcessedQuestions(results, positions, unescape).value[k] == BuildQuestion(results[k], positions[k], unescape).value
  {
    var n := |results| - 1;
    ProcessedLength(results[..n], positions[..n], unescape);
    ProcessedLength(results, positions, unescape);
    if k < n {
      ProcessedAt(results[..n], positions[..n], unescape, k);
    }
  }

  /** The run succeeds exactly when every record is well formed. */
  lemma {:induction false} ProcessedSucceedsIff(results: seq<RawResult>, positions: seq<nat>, unescape: string -> string)
    requires |positions| == |results|
    ensures ProcessedQuestions(results, positions, unescape).Success? <==>
      forall k :: 0 <= k < |results| ==> WellFormed(results[k])
  {
    if |results| > 0 {
      var n := |results| - 1;
      ProcessedSucceedsIff(results[..n], positions[..n], unescape);
      assert forall k :: 0 <= k < n ==> results[..n][k] == results[k];
    }
  }

  /** Fail-fast: when record k is the first malformed one, the run raises what record k raises. */
  lemma FirstMalformedDecides(results: seq<RawResult>, positions: seq<nat>, unescape: string -> string, k: nat)
    requires |positions| == |results| && k < |results|
    requires forall j :: 0 <= j < k ==> WellFormed(results[j])
    requires !WellFormed(results[k])
    ensures ProcessedQuestions(results, positions, unescape) == Failure(BuildQuestion(results[k], positions[k], unescape).error)
  {
    assert results[..k + 1][..k] == results[..k] && positions[..k + 1][..k] == positions[..k];
    assert forall j :: 0 <= j < k ==> results[..k][j] == results[j];
    ProcessedSucceedsIff(results[..k], positions[..k], unescape);
    FailureExtends(results, positions, unescape, k + 1);
  }

  /** With positions drawn from [0, 3] and the three incorrect answers the provider sends,
      every question has four answers, a correct number in [1, 4] that names the decoded
      correct answer, and the incorrect answers in their original order around it. */
  lemma CorrectAnswerPlacement(raw: RawResult, p: nat, unescape: string -> string)
    requires p <= 3 && WellFormed(raw) && |raw.incorrectAnswers.value| == 3
    ensures var q := BuildQuestion(raw, p, unescape).value;
      |q.answers| == 4 &&
      1 <= q.correctAnswerNumber <= 4 &&
      q.answers[q.correctAnswerNumber - 1] == unescape(raw.correctAnswer.value) &&
      RemoveAt(q.answers, q.correctAnswerNumber - 1) == raw.incorrectAnswers.value
  {
  }

  /** For any number of incorrect answers, the correct number names an existing answer, and
      then the correct one, exactly when the position did not exceed the list's length
      (`list.insert` past the end appends, while the number still says p + 1). */
  lemma CorrectNumberNamesAnswer(raw: RawResult, p: nat, unescape: string -> string)
    requires WellFormed(raw)
    ensures var q := BuildQuestion(raw, p, unescape).value;
      (q.correctAnswerNumber - 1 < |q.answers| &&
       q.answers[q.correctAnswerNumber - 1] == unescape(raw.correctAnswer.value))
      <==> p <= |raw.incorrectAnswers.value|
  {
  }

  /** A whole successful run over provider records with three incorrect answers each, and
      positions in [0, 3]: one question per record, in order, with record k's decoded prompt,
      four answers and the correct one at number positions[k] + 1 in [1, 4]. */
  lemma {:induction false} RunPlacement(results: seq<RawResult>, positions: seq<nat>, unescape: string -> string, k: nat)
    requires |positions| == |results| && k < |results|
    requires forall j :: 0 <= j < |positions| ==> positions[j] <= 3
    requires ProcessedQuestions(results, positions, unescape).Success?
    requires forall j :: 0 <= j < |results| ==>
      results[j].incorrectAnswers.Some? ==> |results[j].incorrectAnswers.value| == 3
    ensures var qs := ProcessedQuestions(results, positions, unescape).value;
      |qs| == |results| && WellFormed(results[k]) &&
      qs[k].question == unescape(results[k].question.value) &&
      qs[k].correctAnswerNumber == positions[k] + 1 &&
      1 <= qs[k].correctAnswerNumber <= 4 &&
      |qs[k].answers| == 4 &&
      qs[k].answers[qs[k].correctAnswerNumber - 1] == unescape(results[k].correctAnswer.value)
  {
    ProcessedAt(results, positions, unescape, k);
    CorrectAnswerPlacement(results[k], positions[k], unescape);
  }
}
