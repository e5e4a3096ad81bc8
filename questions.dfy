/**
 * Question, QuestionList and QuestionListIter of kahoot_question_generator.py:
 * a plain record, an append-only list of records, and a cursor over a snapshot of it.
 */
module Questions {
  import opened Wrappers

  /** One quiz question: the prompt, the candidate answers in display order, and the
      1-based number of the correct answer. The source checks none of these. */
  datatype Question = Question(question: string, answers: seq<string>, correctAnswerNumber: int)

  /** The list of questions built by one run; it only ever grows at the end. */
  class QuestionList {
    var questionList: seq<Question>

    constructor ()
      ensures questionList == []
    {
      questionList := [];
    }

    /** The number of questions held so far (a `len`). */
    function NumOfQuestions(): nat
      reads this
    {
      |questionList|
    }

    /** Appends `q`: the count grows by one, `q` is last, and every earlier question stays put. */
    method AddQuestion(q: Question)
      modifies this
      ensures questionList == old(questionList) + [q]
      ensures NumOfQuestions() == old(NumOfQuestions()) + 1
      ensures questionList[NumOfQuestions() - 1] == q
      ensures questionList[..old(NumOfQuestions())] == old(questionList)
    {
      questionList := questionList + [q];
    }

    /** `__iter__`: every call hands out a new iterator whose cursor is at the start. */
    method Iter() returns (it: QuestionListIter)
      ensures fresh(it) && it.Valid()
      ensures it.questions == questionList && it.numOfQuestions == |questionList|
      ensures it.currentIndex == 0 && it.yielded == []
    {
      it := new QuestionListIter(this);
    }
  }

  /** A forward cursor over the questions that existed when it was created. */
  class QuestionListIter {
    const questions: seq<Question>
    const numOfQuestions: nat
    var currentIndex: nat
    /** The questions handed out so far, in order. */
    ghost var yielded: seq<Question>

    ghost predicate Valid()
      reads this
    {
      numOfQuestions == |questions| &&
      currentIndex <= numOfQuestions &&
      yielded == questions[..currentIndex]
    }

    constructor (ql: QuestionList)
      ensures Valid()
      ensures questions == ql.questionList && numOfQuestions == ql.NumOfQuestions()
      ensures currentIndex == 0 && yielded == []
    {
      questions := ql.questionList;
      numOfQuestions := ql.NumOfQuestions();
      currentIndex := 0;
      yielded := [];
    }

    /** `__next__`: the question under the cursor, advancing it, or None (StopIteration)
        once the cursor has reached the snapshot length, on that call and every later one. */
    method Next() returns (r: Option<Question>)
      requires Valid()
      modifies this
      ensures Valid()
      ensures old(currentIndex) < numOfQuestions ==>
        r == Some(questions[old(currentIndex)]) && currentIndex == old(currentIndex) + 1 &&
        yielded == old(yielded) + [questions[old(currentIndex)]]
      ensures old(currentIndex) == numOfQuestions ==>
        r == None && currentIndex == old(currentIndex) && yielded == old(yielded)
    {
      if currentIndex < numOfQuestions {
        currentIndex := currentIndex + 1;
        r := Some(questions[currentIndex - 1]);
        yielded := yielded + [questions[currentIndex - 1]];
      } else {
        r := None;
      }
    }
  }

  /** Python's `for q in ql:` over a QuestionList: one `__iter__`, then `__next__` until
      StopIteration. It sees every question in list order, changes nothing, and so two
      runs over the same list see the same questions, and an empty list yields none. */
  method ForEach(ql: QuestionList) returns (seen: seq<Question>)
    ensures seen == ql.questionList
  {
    var it := ql.Iter();
    seen := [];
    while true
      invariant it.Valid() && it.questions == ql.questionList
      invariant seen == it.yielded
      decreases it.numOfQuestions - it.currentIndex
    {
      var r := it.Next();
      if r.None? {
        break;
      }
      seen := seen + [r.value];
    }
  }
}
