/** The quiz scorer: a table from each question to its correct choices, a count
    of the answers that match that table exactly, and the count set against
    the number of questions. The functions give the meaning of each step; the
    class QuizResultService computes the same values with the loops of the
    scorer it models. */
module QuizServices {
  import opened QuizDto

  /** Question identifier to the identifiers of that question's correct choices. */
  type Table = map<string, set<string>>

  /** The identifiers carried by a sequence of choices. */
  function ChoiceUuids(cs: seq<Choice>): set<string> {
    set c | c in cs :: c.uuid
  }

  /** The identifiers carried by a sequence of questions. */
  function QuestionUuids(qs: seq<Question>): set<string> {
    set q | q in qs :: q.uuid
  }

  /** The correct-choice set of a question, gathered one choice at a time:
      exactly the identifiers of the choices flagged correct. */
  function CorrectAmong(cs: seq<Choice>): (r: set<string>)
    ensures r == set c | c in cs && c.isCorrect :: c.uuid
    decreases |cs|
  {
    if cs == [] then {}
    else
      var init, last := cs[..|cs| - 1], cs[|cs| - 1];
      assert cs == init + [last];
      CorrectAmong(init) + (if last.isCorrect then {last.uuid} else {})
  }

  /** The table built question by question; a later question with the same
      identifier replaces the entry of an earlier one. Its keys are exactly
      the question identifiers of the quiz. */
  function QuestionsTable(qs: seq<Question>): (t: Table)
    ensures t.Keys == QuestionUuids(qs)
    decreases |qs|
  {
    if qs == [] then map[]
    else
      var init, last := qs[..|qs| - 1], qs[|qs| - 1];
      assert qs == init + [last];
      QuestionsTable(init)[last.uuid := CorrectAmong(last.choices)]
  }

  /** The selected choices of an answer as a set: order and repeats dropped. */
  function Elements(xs: seq<string>): set<string> {
    set x | x in xs
  }

  /** An answer scores when its question is in the table, that question has at
      least one correct choice (the looked-up set must be non-empty to pass
      the truthiness test), and the selected set equals the correct set. */
  predicate Counts(a: Answer, t: Table) {
    && a.questionUuid in t
    && t[a.questionUuid] != {}
    && t[a.questionUuid] == Elements(a.choices)
  }

  /** The number of answers that score, taken over the answer list (so a
      repeated answer is counted each time it occurs). */
  function CorrectCount(answers: seq<Answer>, t: Table): (n: nat)
    ensures n <= |answers|
    ensures n == |answers| <==> forall i :: 0 <= i < |answers| ==> Counts(answers[i], t)
    decreases |answers|
  {
    if answers == [] then 0
    else
      var init, last := answers[..|answers| - 1], answers[|answers| - 1];
      CorrectCount(init, t) + (if Counts(last, t) then 1 else 0)
  }

  /** Extending a prefix of the answers by one answer adds 1 to the count
      exactly when that answer scores. */
  lemma CountStep(answers: seq<Answer>, i: nat, t: Table)
    requires i < |answers|
    ensures CorrectCount(answers[..i + 1], t)
      == CorrectCount(answers[..i], t) + if Counts(answers[i], t) then 1 else 0
  {
    assert answers[..i + 1][..i] == answers[..i];
  }

  /** The score as the exact fraction correct / total, or the division by zero
      that a quiz without questions raises. */
  datatype Outcome = DivisionByZero | Score(correct: nat, total: nat)

  /** What scoring a submission against a quiz yields. The denominator is the
      number of distinct question identifiers, not the number of answers. */
  function Result(quiz: Quiz, answers: Answers): (r: Outcome)
    ensures r.DivisionByZero? <==> quiz.questions == []
    ensures r.Score? ==> r.total == |QuestionUuids(quiz.questions)| && r.total > 0
    ensures r.Score? ==> r.correct <= |answers.answers|
  {
    var t := QuestionsTable(quiz.questions);
    assert quiz.questions != [] ==> quiz.questions[0].uuid in t;
    if |t| == 0 then DivisionByZero else Score(CorrectCount(answers.answers, t), |t|)
  }

  /** The scoring service: holds the quiz and the answers it was made with and
      never reassigns them. */
  class QuizResultService {
    const quizDto: Quiz
    const answersDto: Answers

    constructor (quizDto: Quiz, answersDto: Answers)
      ensures this.quizDto == quizDto && this.answersDto == answersDto
    {
      this.quizDto := quizDto;
      this.answersDto := answersDto;
    }

    /** Counts the matching answers in one pass over the answer list and
        divides by the size of the table. */
    method GetResult() returns (r: Outcome)
      ensures r == Result(quizDto, answersDto)
    {
      var questionsDict := GetQuestionsDict();
      var answers := answersDto.answers;
      var nCorrectAnswers: nat := 0;
      for i := 0 to |answers|
        invariant nCorrectAnswers == CorrectCount(answers[..i], questionsDict)
      {
        var answer := answers[i];
        CountStep(answers, i, questionsDict);
        if answer.questionUuid in questionsDict && questionsDict[answer.questionUuid] != {} {
          var correctAnswer := questionsDict[answer.questionUuid];
          if correctAnswer == Elements(answer.choices) {
            nCorrectAnswers := nCorrectAnswers + 1;
          }
        }
      }
      assert answers[..|answers|] == answers;
      if |questionsDict| == 0 {
        r := DivisionByZero;
      } else {
        r := Score(nCorrectAnswers, |questionsDict|);
      }
    }

    /** Fills the table question by question, each entry the question's
        correct set; a repeated identifier keeps the later question's set. */
    method GetQuestionsDict() returns (questionsDict: Table)
      ensures questionsDict == QuestionsTable(quizDto.questions)
    {
      var questions := quizDto.questions;
      questionsDict := map[];
      for i := 0 to |questions|
        invariant questionsDict == QuestionsTable(questions[..i])
      {
        var question := questions[i];
        assert questions[..i + 1][..i] == questions[..i];
        var correctAnswers := GetCorrectAnswers(question);
        questionsDict := questionsDict[question.uuid := correctAnswers];
      }
      assert questions[..|questions|] == questions;
    }

    /** Grows the set of correct choice identifiers of one question. */
    method GetCorrectAnswers(question: Question) returns (correctAnswers: set<string>)
      ensures correctAnswers == CorrectAmong(question.choices)
    {
      var choices := question.choices;
      correctAnswers := {};
      for i := 0 to |choices|
        invariant correctAnswers == CorrectAmong(choices[..i])
      {
        var choice := choices[i];
        assert choices[..i + 1][..i] == choices[..i];
        if choice.isCorrect {
          correctAnswers := correctAnswers + {choice.uuid};
        }
      }
      assert choices[..|choices|] == choices;
    }
  }
}
