/**
  The quiz screen: a linear walk through a fixed list of questions. For each
  question the user picks an option, submits it (one answer record is
  appended) and moves on; after the last question the session is finished
  and a report with the score, a grade and a review of the wrong answers is
  shown.
 */
module Quiz {
  import opened Common

  /** A quiz question, shaped like `QuizQuestion`. */
  datatype Question = Question(
    id: int,
    question: string,
    options: seq<string>,
    correctAnswer: int,
    explanation: string)

  /** One submitted answer, computed once when it is submitted. */
  datatype UserAnswer = UserAnswer(questionId: int, selectedIdx: int, isCorrect: bool)

  predicate IsCorrect(a: UserAnswer) { a.isCorrect }

  predicate IsWrong(a: UserAnswer) { !a.isCorrect }

  /**
    `answers` were recorded against `questions` in order: record `k` belongs to
    question `k`, holds an index of one of its options, and is correct exactly
    when that index is the question's correct one.
   */
  ghost predicate Recorded(questions: seq<Question>, answers: seq<UserAnswer>)
  {
    && |answers| <= |questions|
    && forall k :: 0 <= k < |answers| ==>
         && answers[k].questionId == questions[k].id
         && 0 <= answers[k].selectedIdx < |questions[k].options|
         && (answers[k].isCorrect <==> answers[k].selectedIdx == questions[k].correctAnswer)
  }

  // ---------------------------------------------------------------------------
  // Score

  /** The number of correct records. */
  function Score(answers: seq<UserAnswer>): (r: nat)
    ensures r <= |answers|
  {
    |Filter(answers, IsCorrect)|
  }

  /** Each newly recorded answer raises the score by one exactly when it is correct. */
  lemma ScoreAppend(answers: seq<UserAnswer>, a: UserAnswer)
    ensures Score(answers + [a]) == Score(answers) + (if a.isCorrect then 1 else 0)
  {
    FilterAppend(answers, [a], IsCorrect);
    assert [a][1..] == [];
  }

  /** The score counts the records that say `isCorrect`. */
  lemma {:induction false} ScoreCountsCorrect(answers: seq<UserAnswer>)
    ensures Score(answers) == |set k | 0 <= k < |answers| && answers[k].isCorrect|
  {
    if |answers| > 0 {
      var n := |answers| - 1;
      var front := answers[..n];
      ScoreCountsCorrect(front);
      ScoreAppend(front, answers[n]);
      assert front + [answers[n]] == answers;
      var before := set k | 0 <= k < n && front[k].isCorrect;
      var after := set k | 0 <= k < |answers| && answers[k].isCorrect;
      assert before == set k | 0 <= k < n && answers[k].isCorrect;
      if answers[n].isCorrect {
        assert after == before + {n};
      } else {
        assert after == before;
      }
    }
  }

  // ---------------------------------------------------------------------------
  // Grade

  const FaithfulThreshold: int := 9
  const GrowingThreshold: int := 7

  /** The three grade tiers of the final report, highest first. */
  datatype Grade = FaithfulShepherd | GrowingShepherd | EagerTrainee

  /** The tier's label on the report; each label names exactly one tier. */
  function Label(g: Grade): (r: string)
    ensures r == "신실한 목자" <==> g == FaithfulShepherd
    ensures r == "성장하는 목자" <==> g == GrowingShepherd
    ensures r == "사모하는 교육생" <==> g == EagerTrainee
  {
    match g
    case FaithfulShepherd => "신실한 목자"
    case GrowingShepherd => "성장하는 목자"
    case EagerTrainee => "사모하는 교육생"
  }

  /** 2 for the highest tier, 0 for the lowest. */
  function Rank(g: Grade): (r: nat)
  {
    match g
    case FaithfulShepherd => 2
    case GrowingShepherd => 1
    case EagerTrainee => 0
  }

  function GradeOf(score: int): (g: Grade)
    ensures g == FaithfulShepherd <==> FaithfulThreshold <= score
    ensures g == GrowingShepherd <==> GrowingThreshold <= score < FaithfulThreshold
    ensures g == EagerTrainee <==> score < GrowingThreshold
  {
    if score >= FaithfulThreshold then FaithfulShepherd
    else if score >= GrowingThreshold then GrowingShepherd
    else EagerTrainee
  }

  /** A higher score never earns a lower tier. */
  lemma GradeMonotone(s1: int, s2: int)
    requires s1 <= s2
    ensures Rank(GradeOf(s1)) <= Rank(GradeOf(s2))
  {
  }

  // ---------------------------------------------------------------------------
  // Wrong answers and their review

  /** The records that are not correct, in the order they were recorded. */
  function WrongAnswers(answers: seq<UserAnswer>): (r: seq<UserAnswer>)
    ensures forall i :: 0 <= i < |r| ==> !r[i].isCorrect && r[i] in answers
  {
    Filter(answers, IsWrong)
  }

  /** Every incorrect record is in the review list. */
  lemma WrongAnswersComplete(answers: seq<UserAnswer>, a: UserAnswer)
    requires a in answers && !a.isCorrect
    ensures a in WrongAnswers(answers)
  {
    FilterKeeps(answers, IsWrong, a);
  }

  /** Wrong answers of later records come after those of earlier ones. */
  lemma WrongAnswersAppend(a: seq<UserAnswer>, b: seq<UserAnswer>)
    ensures WrongAnswers(a + b) == WrongAnswers(a) + WrongAnswers(b)
  {
    FilterAppend(a, b, IsWrong);
  }

  /** Every record is either counted in the score or listed as wrong. */
  lemma ScorePlusWrong(answers: seq<UserAnswer>)
    ensures Score(answers) + |WrongAnswers(answers)| == |answers|
  {
    FilterComplement(answers, IsCorrect, IsWrong);
  }

  /** The first question with the given id, as `QUIZ_DATA.find(q => q.id === id)`. */
  function FindQuestion(questions: seq<Question>, id: int): (r: Option<Question>)
    ensures r.Some? ==> r.value in questions && r.value.id == id
    ensures r.None? <==> forall i :: 0 <= i < |questions| ==> questions[i].id != id
    ensures forall i :: 0 <= i < |questions| && questions[i].id == id ==>
              (forall j :: 0 <= j < i ==> questions[j].id != id) ==> r == Some(questions[i])
  {
    match FindFirst(questions, (q: Question) => q.id == id)
    case None => None
    case Some(k) => Some(questions[k])
  }

  /** A wrong answer paired with the question it was looked up in. */
  datatype ReviewItem = ReviewItem(answer: UserAnswer, question: Question)

  ghost predicate AllFound(questions: seq<Question>, answers: seq<UserAnswer>)
  {
    forall i :: 0 <= i < |answers| ==> FindQuestion(questions, answers[i].questionId).Some?
  }

  /**
    The review list of the report: each wrong answer with its question. The
    lookup is asserted non-null in the source, so every wrong answer's id must
    be found.
   */
  function Review(questions: seq<Question>, answers: seq<UserAnswer>): (r: seq<ReviewItem>)
    requires AllFound(questions, WrongAnswers(answers))
    ensures |r| == |WrongAnswers(answers)|
    ensures forall i :: 0 <= i < |r| ==>
              && r[i].answer == WrongAnswers(answers)[i]
              && r[i].question in questions
              && r[i].question.id == r[i].answer.questionId
              && r[i].question == FindQuestion(questions, r[i].answer.questionId).value
  {
    var wrong := WrongAnswers(answers);
    seq(|wrong|, i requires 0 <= i < |wrong| => ReviewItem(wrong[i], FindQuestion(questions, wrong[i].questionId).value))
  }

  /** Records made in question order always find their question. */
  lemma RecordedAllFound(questions: seq<Question>, answers: seq<UserAnswer>)
    requires Recorded(questions, answers)
    ensures AllFound(questions, WrongAnswers(answers))
  {
    var wrong := WrongAnswers(answers);
    forall i | 0 <= i < |wrong|
      ensures FindQuestion(questions, wrong[i].questionId).Some?
    {
      var k :| 0 <= k < |answers| && answers[k] == wrong[i];
      assert questions[k].id == wrong[i].questionId;
    }
  }

  ghost predicate UniqueIds(questions: seq<Question>)
  {
    forall i, j :: 0 <= i < j < |questions| ==> questions[i].id != questions[j].id
  }

  /**
    With distinct question ids, every review item shows the question the
    answer was recorded against: the chosen option exists and differs from
    the correct one.
   */
  lemma ReviewShowsWrongChoice(questions: seq<Question>, answers: seq<UserAnswer>)
    requires Recorded(questions, answers) && UniqueIds(questions)
    ensures AllFound(questions, WrongAnswers(answers))
    ensures forall item :: item in Review(questions, answers) ==>
              && 0 <= item.answer.selectedIdx < |item.question.options|
              && item.answer.selectedIdx != item.question.correctAnswer
  {
    RecordedAllFound(questions, answers);
    var r := Review(questions, answers);
    forall item | item in r
      ensures 0 <= item.answer.selectedIdx < |item.question.options|
      ensures item.answer.selectedIdx != item.question.correctAnswer
    {
      var i :| 0 <= i < |r| && r[i] == item;
      var k :| 0 <= k < |answers| && answers[k] == item.answer;
      var j :| 0 <= j < |questions| && questions[j] == item.question;
      assert questions[j].id == questions[k].id;
      assert j == k;
    }
  }

  /** What the finished screen shows. */
  datatype Report = Report(score: nat, grade: Grade, review: seq<ReviewItem>)

  // ---------------------------------------------------------------------------
  // The session

  /**
    The quiz component's state. The rendering only offers the buttons that
    are valid in the current state; those guards are the preconditions of
    the three handlers.
   */
  class QuizSession {
    const questions: seq<Question>
    var currentStep: nat
    var selectedAnswer: Option<int>
    var isAnswerChecked: bool
    var userAnswers: seq<UserAnswer>
    var isFinished: bool

    ghost predicate Valid()
      reads this
    {
      && |questions| > 0
      && currentStep < |questions|
      && |userAnswers| == currentStep + (if isAnswerChecked then 1 else 0)
      && Recorded(questions, userAnswers)
      && (selectedAnswer.Some? ==> 0 <= selectedAnswer.value < |questions[currentStep].options|)
      && (isAnswerChecked ==> selectedAnswer == Some(userAnswers[currentStep].selectedIdx))
      && (isFinished ==> isAnswerChecked && currentStep == |questions| - 1)
    }

    /** A fresh session; the first question is shown, so there must be one. */
    constructor (questions: seq<Question>)
      requires |questions| > 0
      ensures Valid() && this.questions == questions
      ensures currentStep == 0 && selectedAnswer == None && !isAnswerChecked
      ensures userAnswers == [] && !isFinished
    {
      this.questions := questions;
      currentStep := 0;
      selectedAnswer := None;
      isAnswerChecked := false;
      userAnswers := [];
      isFinished := false;
    }

    /** Clicking option `idx`; the options are disabled once the answer is checked. */
    method SelectAnswer(idx: int)
      requires Valid() && !isAnswerChecked
      requires 0 <= idx < |questions[currentStep].options|
      modifies this
      ensures Valid() && selectedAnswer == Some(idx)
      ensures currentStep == old(currentStep) && isAnswerChecked == old(isAnswerChecked)
      ensures userAnswers == old(userAnswers) && isFinished == old(isFinished)
    {
      selectedAnswer := Some(idx);
    }

    /** Submitting the selection; the button is only there while the answer is unchecked. */
    method CheckAnswer()
      requires Valid() && !isAnswerChecked
      modifies this
      ensures Valid()
      ensures old(selectedAnswer).None? ==>
                && currentStep == old(currentStep) && selectedAnswer == old(selectedAnswer)
                && isAnswerChecked == old(isAnswerChecked) && userAnswers == old(userAnswers)
                && isFinished == old(isFinished)
      ensures old(selectedAnswer).Some? ==>
                var q, sel := questions[old(currentStep)], old(selectedAnswer).value;
                && isAnswerChecked
                && userAnswers == old(userAnswers) + [UserAnswer(q.id, sel, sel == q.correctAnswer)]
                && currentStep == old(currentStep) && selectedAnswer == old(selectedAnswer)
                && isFinished == old(isFinished)
      ensures Score(userAnswers) >= Score(old(userAnswers))
    {
      if selectedAnswer == None {
        return;
      }
      var q := questions[currentStep];
      var sel := selectedAnswer.value;
      var isCorrect := sel == q.correctAnswer;
      isAnswerChecked := true;
      ScoreAppend(userAnswers, UserAnswer(q.id, sel, isCorrect));
      userAnswers := userAnswers + [UserAnswer(q.id, sel, isCorrect)];
    }

    /** Moving on; the button is only there once the answer is checked. */
    method Next()
      requires Valid() && isAnswerChecked && !isFinished
      modifies this
      ensures Valid() && userAnswers == old(userAnswers)
      ensures old(currentStep) < |questions| - 1 ==>
                && currentStep == old(currentStep) + 1
                && selectedAnswer == None && !isAnswerChecked && !isFinished
      ensures old(currentStep) == |questions| - 1 ==>
                && isFinished && currentStep == old(currentStep)
                && selectedAnswer == old(selectedAnswer) && isAnswerChecked
      ensures isFinished ==> |userAnswers| == |questions|
    {
      if currentStep < |questions| - 1 {
        currentStep := currentStep + 1;
        selectedAnswer := None;
        isAnswerChecked := false;
      } else {
        isFinished := true;
      }
    }

    /** The report of the finished screen. */
    function FinalReport(): (r: Report)
      reads this
      requires Valid() && isFinished
      ensures r.score == Score(userAnswers)
      ensures r.grade == GradeOf(r.score)
      ensures |r.review| == |WrongAnswers(userAnswers)|
      ensures forall i :: 0 <= i < |r.review| ==> r.review[i].answer == WrongAnswers(userAnswers)[i]
      ensures r.score + |r.review| == |questions|
      ensures forall i :: 0 <= i < |r.review| ==>
                !r.review[i].answer.isCorrect && r.review[i].answer in userAnswers
    {
      RecordedAllFound(questions, userAnswers);
      ScorePlusWrong(userAnswers);
      var score := Score(userAnswers);
      Report(score, GradeOf(score), Review(questions, userAnswers))
    }
  }

  /** Once finished, there is one record per question and they follow question order. */
  lemma FinishedRecordsEveryQuestion(s: QuizSession)
    requires s.Valid() && s.isFinished
    ensures |s.userAnswers| == |s.questions|
    ensures forall k :: 0 <= k < |s.questions| ==> s.userAnswers[k].questionId == s.questions[k].id
  {
  }
}
