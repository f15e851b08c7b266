/** Properties of the quiz scorer, stated over the functions of QuizServices
    that the methods of QuizResultService are proved to compute. */
module QuizProperties {
  import opened QuizDto
  import opened QuizServices

  /** No two questions of the sequence share an identifier. */
  predicate DistinctQuestions(qs: seq<Question>) {
    forall i, j :: 0 <= i < j < |qs| ==> qs[i].uuid != qs[j].uuid
  }

  /** No two answers of the sequence name the same question; this is what a
      submission gathered as a dictionary keyed by question identifier gives. */
  predicate DistinctAnswers(answers: seq<Answer>) {
    forall i, j :: 0 <= i < j < |answers| ==> answers[i].questionUuid != answers[j].questionUuid
  }

  /** The identifiers of the questions that some scoring answer names. */
  function ScoringUuids(answers: seq<Answer>, t: Table): set<string> {
    set a | a in answers && Counts(a, t) :: a.questionUuid
  }

  // ---------------------------------------------------------------------------
  // The correct-choice set of one question

  /** A question's correct set is empty exactly when none of its choices is
      flagged correct. */
  lemma CorrectSetEmptyIff(q: Question)
    ensures CorrectAmong(q.choices) == {} <==> forall i :: 0 <= i < |q.choices| ==> !q.choices[i].isCorrect
  {
    if i :| 0 <= i < |q.choices| && q.choices[i].isCorrect {
      assert q.choices[i].uuid in CorrectAmong(q.choices);
    }
  }

  // ---------------------------------------------------------------------------
  // The questions table

  /** The entry for an identifier is the correct set of the last question that
      carries it: a later question overwrites an earlier one. */
  lemma {:induction false} TableLastWins(qs: seq<Question>, i: nat)
    requires i < |qs|
    requires forall j :: i < j < |qs| ==> qs[j].uuid != qs[i].uuid
    ensures qs[i].uuid in QuestionsTable(qs)
    ensures QuestionsTable(qs)[qs[i].uuid] == CorrectAmong(qs[i].choices)
  {
    var init := qs[..|qs| - 1];
    if i < |qs| - 1 {
      assert init[i] == qs[i];
      TableLastWins(init, i);
    }
  }

  /** The table never has more entries than the quiz has questions, and has
      exactly one per question when the identifiers are distinct. */
  lemma {:induction false} TableSize(qs: seq<Question>)
    ensures |QuestionsTable(qs)| <= |qs|
    ensures DistinctQuestions(qs) ==> |QuestionsTable(qs)| == |qs|
  {
    if qs != [] {
      var init, last := qs[..|qs| - 1], qs[|qs| - 1];
      TableSize(init);
      if DistinctQuestions(qs) {
        assert DistinctQuestions(init) by {
          forall i, j | 0 <= i < j < |init| ensures init[i].uuid != init[j].uuid {
            assert init[i] == qs[i] && init[j] == qs[j];
          }
        }
      }
    }
  }

  // ---------------------------------------------------------------------------
  // Counting

  /** The count over a concatenation is the sum of the counts. */
  lemma {:induction false} CountAppend(a: seq<Answer>, b: seq<Answer>, t: Table)
    ensures CorrectCount(a + b, t) == CorrectCount(a, t) + CorrectCount(b, t)
    decreases |b|
  {
    if b == [] {
      assert a + b == a;
    } else {
      var ab, init, last := a + b, b[..|b| - 1], b[|b| - 1];
      assert ab[..|ab| - 1] == a + init;
      assert ab[|ab| - 1] == last;
      var one := if Counts(last, t) then 1 else 0;
      assert CorrectCount(ab, t) == CorrectCount(a + init, t) + one;
      assert CorrectCount(b, t) == CorrectCount(init, t) + one;
      CountAppend(a, init, t);
    }
  }

  /** A one-answer list counts 1 when that answer scores and 0 otherwise. */
  lemma CountSingleton(a: Answer, t: Table)
    ensures CorrectCount([a], t) == if Counts(a, t) then 1 else 0
  {
    assert [a][..0] == [];
  }

  /** An answer that does not score can be dropped without changing the count. */
  lemma DropNonScoring(p: seq<Answer>, a: Answer, s: seq<Answer>, t: Table)
    requires !Counts(a, t)
    ensures CorrectCount(p + [a] + s, t) == CorrectCount(p + s, t)
  {
    CountAppend(p + [a], s, t);
    CountAppend(p, [a], t);
    CountAppend(p, s, t);
    CountSingleton(a, t);
  }

  /** An answer naming a question that is not in the quiz changes nothing
      and causes no failure. */
  lemma UnknownQuestionIgnored(quiz: Quiz, id: string, p: seq<Answer>, a: Answer, s: seq<Answer>)
    requires a.questionUuid !in QuestionUuids(quiz.questions)
    ensures Result(quiz, Answers(id, p + [a] + s)) == Result(quiz, Answers(id, p + s))
  {
    DropNonScoring(p, a, s, QuestionsTable(quiz.questions));
  }

  /** A question with no correct choice, and no later question with the same
      identifier to overwrite its entry, is never counted correct, whatever is
      selected for it, the empty selection included. */
  lemma NoCorrectChoiceNeverScores(quiz: Quiz, id: string, p: seq<Answer>, a: Answer, s: seq<Answer>, i: nat)
    requires i < |quiz.questions| && quiz.questions[i].uuid == a.questionUuid
    requires forall j :: i < j < |quiz.questions| ==> quiz.questions[j].uuid != quiz.questions[i].uuid
    requires forall k :: 0 <= k < |quiz.questions[i].choices| ==> !quiz.questions[i].choices[k].isCorrect
    ensures Result(quiz, Answers(id, p + [a] + s)) == Result(quiz, Answers(id, p + s))
  {
    TableLastWins(quiz.questions, i);
    CorrectSetEmptyIff(quiz.questions[i]);
    DropNonScoring(p, a, s, QuestionsTable(quiz.questions));
  }

  /** A selection that is not exactly the correct set (a strict subset, a
      strict superset, or any other different set) earns nothing. */
  lemma InexactSelectionScoresNothing(quiz: Quiz, id: string, p: seq<Answer>, a: Answer, s: seq<Answer>)
    requires a.questionUuid in QuestionUuids(quiz.questions)
    requires Elements(a.choices) != QuestionsTable(quiz.questions)[a.questionUuid]
    ensures Result(quiz, Answers(id, p + [a] + s)) == Result(quiz, Answers(id, p + s))
  {
    DropNonScoring(p, a, s, QuestionsTable(quiz.questions));
  }

  /** Only the set of selected choices matters: reordering them or repeating
      some leaves the result unchanged. */
  lemma SelectionOrderIrrelevant(quiz: Quiz, id: string, p: seq<Answer>, a: Answer, b: Answer, s: seq<Answer>)
    requires a.questionUuid == b.questionUuid
    requires forall x :: x in a.choices <==> x in b.choices
    ensures Result(quiz, Answers(id, p + [a] + s)) == Result(quiz, Answers(id, p + [b] + s))
  {
    var t := QuestionsTable(quiz.questions);
    assert Counts(a, t) == Counts(b, t) by {
      assert Elements(a.choices) == Elements(b.choices);
    }
    CountSingleton(a, t);
    CountSingleton(b, t);
    CountAppend(p + [a], s, t);
    CountAppend(p, [a], t);
    CountAppend(p + [b], s, t);
    CountAppend(p, [b], t);
  }

  /** Replacing a non-scoring answer by a scoring one raises the count by one
      and leaves the denominator alone: the score grows with the number of
      exactly correct answers. */
  lemma ScoringAnswerAddsOne(quiz: Quiz, id: string, p: seq<Answer>, a: Answer, b: Answer, s: seq<Answer>)
    requires quiz.questions != []
    requires !Counts(a, QuestionsTable(quiz.questions)) && Counts(b, QuestionsTable(quiz.questions))
    ensures var before := Result(quiz, Answers(id, p + [a] + s));
      Result(quiz, Answers(id, p + [b] + s)) == Score(before.correct + 1, before.total)
  {
    var t := QuestionsTable(quiz.questions);
    CountAppend(p + [a], s, t);
    CountAppend(p, [a], t);
    CountAppend(p + [b], s, t);
    CountAppend(p, [b], t);
    CountSingleton(a, t);
    CountSingleton(b, t);
  }

  /** The count is zero exactly when no answer scores. */
  lemma {:induction false} CountZeroIff(answers: seq<Answer>, t: Table)
    ensures CorrectCount(answers, t) == 0 <==> forall i :: 0 <= i < |answers| ==> !Counts(answers[i], t)
    decreases |answers|
  {
    if answers != [] {
      var init := answers[..|answers| - 1];
      CountZeroIff(init, t);
      forall i | 0 <= i < |init| ensures init[i] == answers[i] { }
    }
  }

  /** For a quiz with questions, the score is 0 exactly when no answer scores:
      each answer names an unknown question, a question with an empty correct
      set, or selects a set other than the correct one. */
  lemma NoMatchingAnswerScoresZero(quiz: Quiz, answers: Answers)
    requires quiz.questions != []
    ensures Result(quiz, answers).correct == 0 <==>
      forall i :: 0 <= i < |answers.answers| ==> !Counts(answers.answers[i], QuestionsTable(quiz.questions))
  {
    CountZeroIff(answers.answers, QuestionsTable(quiz.questions));
  }

  /** With no answers at all every question is wrong by omission. */
  lemma NoAnswersScoreZero(quiz: Quiz, id: string)
    requires quiz.questions != []
    ensures Result(quiz, Answers(id, [])) == Score(0, |QuestionUuids(quiz.questions)|)
  {
  }

  // ---------------------------------------------------------------------------
  // Bounds of the result

  /** A subset is no larger than its superset, and one of equal size is the
      superset itself. */
  lemma {:induction false} SubsetSize(a: set<string>, b: set<string>)
    requires a <= b
    ensures |a| <= |b|
    ensures |a| == |b| ==> a == b
    decreases |b|
  {
    if b != {} {
      var x :| x in b;
      SubsetSize(a - {x}, b - {x});
      assert |b - {x}| == |b| - 1;
      if x in a {
        assert |a - {x}| == |a| - 1;
        assert a == (a - {x}) + {x};
        assert b == (b - {x}) + {x};
      } else {
        assert a <= b - {x};
      }
    }
  }

  /** With distinct question identifiers among the answers, the count is the
      number of questions that a scoring answer names. */
  lemma {:induction false} CountIsScoringUuids(answers: seq<Answer>, t: Table)
    requires DistinctAnswers(answers)
    ensures CorrectCount(answers, t) == |ScoringUuids(answers, t)|
    ensures ScoringUuids(answers, t) <= t.Keys
    decreases |answers|
  {
    if answers != [] {
      var init, last := answers[..|answers| - 1], answers[|answers| - 1];
      assert answers == init + [last];
      assert DistinctAnswers(init) by {
        forall i, j | 0 <= i < j < |init|
          ensures init[i].questionUuid != init[j].questionUuid
        {
          assert init[i] == answers[i] && init[j] == answers[j];
        }
      }
      CountIsScoringUuids(init, t);
      if Counts(last, t) {
        assert ScoringUuids(answers, t) == ScoringUuids(init, t) + {last.questionUuid};
      } else {
        assert ScoringUuids(answers, t) == ScoringUuids(init, t);
      }
    }
  }

  /** With distinct question identifiers among the answers, the count lies
      between 0 and the number of questions, so the score is in [0, 1]. */
  lemma ResultInUnitInterval(quiz: Quiz, answers: Answers)
    requires DistinctAnswers(answers.answers)
    ensures Result(quiz, answers).Score? ==> Result(quiz, answers).correct <= Result(quiz, answers).total
  {
    var t := QuestionsTable(quiz.questions);
    CountIsScoringUuids(answers.answers, t);
    SubsetSize(ScoringUuids(answers.answers, t), t.Keys);
  }

  /** Some answer names question `k` with a selection equal to the table's
      entry for `k`, and that entry is not empty. */
  predicate AnsweredExactly(k: string, answers: seq<Answer>, t: Table) {
    exists j :: 0 <= j < |answers| && answers[j].questionUuid == k &&
      k in t && t[k] != {} && Elements(answers[j].choices) == t[k]
  }

  /** Every question of the quiz is answered exactly against its table entry,
      each entry non-empty. */
  predicate AllAnsweredExactly(qs: seq<Question>, answers: seq<Answer>) {
    forall i :: 0 <= i < |qs| ==> AnsweredExactly(qs[i].uuid, answers, QuestionsTable(qs))
  }

  /** Every question answered exactly is the same as every key of the table
      being named by a scoring answer. */
  lemma AllAnsweredIffScoringCoversTable(qs: seq<Question>, answers: seq<Answer>)
    ensures AllAnsweredExactly(qs, answers) <==> ScoringUuids(answers, QuestionsTable(qs)) == QuestionsTable(qs).Keys
  {
    var t := QuestionsTable(qs);
    var scoring := ScoringUuids(answers, t);
    if scoring == t.Keys {
      forall i | 0 <= i < |qs| ensures AnsweredExactly(qs[i].uuid, answers, t) {
        assert qs[i].uuid in scoring;
        var a :| a in answers && Counts(a, t) && a.questionUuid == qs[i].uuid;
        var j :| 0 <= j < |answers| && answers[j] == a;
      }
    }
    if AllAnsweredExactly(qs, answers) {
      forall k | k in t.Keys ensures k in scoring {
        var q :| q in qs && q.uuid == k;
        var i :| 0 <= i < |qs| && qs[i] == q;
        assert AnsweredExactly(qs[i].uuid, answers, t);
        var j :| 0 <= j < |answers| && answers[j].questionUuid == k &&
          k in t && t[k] != {} && Elements(answers[j].choices) == t[k];
        assert Counts(answers[j], t);
        assert answers[j] in answers;
      }
    }
  }

  /** With distinct question identifiers among the answers, the score is 1
      exactly when every question's table entry is non-empty and some answer's
      selection equals it. (With repeated question identifiers an entry is the
      later question's correct set.) */
  lemma PerfectScoreIff(quiz: Quiz, answers: Answers)
    requires quiz.questions != []
    requires DistinctAnswers(answers.answers)
    ensures Result(quiz, answers).correct == Result(quiz, answers).total
      <==> AllAnsweredExactly(quiz.questions, answers.answers)
  {
    var t := QuestionsTable(quiz.questions);
    CountIsScoringUuids(answers.answers, t);
    SubsetSize(ScoringUuids(answers.answers, t), t.Keys);
    AllAnsweredIffScoringCoversTable(quiz.questions, answers.answers);
  }

  /** Some answer names question `q` with a selection equal to the question's
      own correct set, and that set is not empty. */
  predicate AnsweredWithCorrectSet(q: Question, answers: seq<Answer>) {
    exists j :: 0 <= j < |answers| && answers[j].questionUuid == q.uuid &&
      CorrectAmong(q.choices) != {} && Elements(answers[j].choices) == CorrectAmong(q.choices)
  }

  /** With distinct question identifiers in the quiz and among the answers,
      the score is 1 exactly when every question has a non-empty correct set
      and an answer whose selection equals that set. */
  lemma PerfectScoreIffCorrectSets(quiz: Quiz, answers: Answers)
    requires quiz.questions != []
    requires DistinctQuestions(quiz.questions)
    requires DistinctAnswers(answers.answers)
    ensures Result(quiz, answers).correct == Result(quiz, answers).total <==>
      forall i :: 0 <= i < |quiz.questions| ==> AnsweredWithCorrectSet(quiz.questions[i], answers.answers)
  {
    var qs, rs := quiz.questions, answers.answers;
    var t := QuestionsTable(qs);
    forall i | 0 <= i < |qs|
      ensures AnsweredExactly(qs[i].uuid, rs, t) <==> AnsweredWithCorrectSet(qs[i], rs)
    {
      TableLastWins(qs, i);
    }
    assert AllAnsweredExactly(qs, rs) <==>
      forall i :: 0 <= i < |qs| ==> AnsweredWithCorrectSet(qs[i], rs);
    PerfectScoreIff(quiz, answers);
  }

  // ---------------------------------------------------------------------------
  // Worked submissions

  /** Two questions, the first answered exactly and the second with a
      different selection (say a strict subset of its correct set): one half. */
  lemma PartialSelectionScenario(quiz: Quiz, id: string, a1: Answer, a2: Answer)
    requires DistinctQuestions(quiz.questions) && |quiz.questions| == 2
    requires a1.questionUuid == quiz.questions[0].uuid
    requires CorrectAmong(quiz.questions[0].choices) != {}
    requires Elements(a1.choices) == CorrectAmong(quiz.questions[0].choices)
    requires a2.questionUuid == quiz.questions[1].uuid
    requires Elements(a2.choices) != CorrectAmong(quiz.questions[1].choices)
    ensures Result(quiz, Answers(id, [a1, a2])) == Score(1, 2)
  {
    TableLastWins(quiz.questions, 1);
    assert quiz.questions[1] in quiz.questions;
    InexactSelectionScoresNothing(quiz, id, [a1], a2, []);
    assert [a1] + [a2] + [] == [a1, a2] && [a1] + [] == [a1];
    SingleExactAnswerScenario(quiz, id, a1, 0);
  }

  /** A question with no correct choice, answered with an empty selection,
      is still counted wrong: the empty correct set fails the truthiness test. */
  lemma EmptyCorrectSetScenario()
    ensures Result(
      Quiz("z", "Quiz", [Question("q1", "", [Choice("a", "", false)])]),
      Answers("z", [Answer("q1", [])]))
      == Score(0, 1)
  {
  }

  /** A single exact answer to one question of a quiz with distinct question
      identifiers scores one out of the number of questions: the questions
      left unanswered count as wrong. */
  lemma SingleExactAnswerScenario(quiz: Quiz, id: string, a: Answer, i: nat)
    requires DistinctQuestions(quiz.questions)
    requires i < |quiz.questions| && a.questionUuid == quiz.questions[i].uuid
    requires CorrectAmong(quiz.questions[i].choices) != {}
    requires Elements(a.choices) == CorrectAmong(quiz.questions[i].choices)
    ensures Result(quiz, Answers(id, [a])) == Score(1, |quiz.questions|)
  {
    var t := QuestionsTable(quiz.questions);
    TableLastWins(quiz.questions, i);
    TableSize(quiz.questions);
    assert Counts(a, t);
    assert [a][..0] == [];
  }

  /** Without distinct question identifiers among the answers the count is
      taken over the list: the same correct answer twice gives 2 out of 1. */
  lemma DuplicateAnswersEachCount()
    ensures Result(
      Quiz("z", "Quiz", [Question("q1", "", [Choice("a", "", true)])]),
      Answers("z", [Answer("q1", ["a"]), Answer("q1", ["a"])]))
      == Score(2, 1)
  {
  }
}
