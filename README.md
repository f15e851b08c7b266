# Quiz scorer

A model of the scoring core of a multiple-choice quiz application,
`QuizResultService` in `quiz/services.py`. A quiz contains questions. Each
question has choices, and each choice is flagged correct or incorrect. A
learner's submission is a list of answers. Each answer names a question
identifier and gives the list of choice identifiers the learner selected.
The service does three things:

1. it builds a table from each question identifier to the set of that
   question's correct choice identifiers (`get_correct_answers`,
   `get_questions_dict`);
2. it counts the answers whose selection, taken as a set, equals the
   looked-up set, provided that set is non-empty;
3. it divides that count by the number of entries in the table (`get_result`).

Files:

- `dto.dfy` (module `QuizDto`): the value objects `Choice`, `Question`,
  `Quiz`, `Answer` and `Answers`. Their fields follow the constructor calls in
  `quiz_app/views.py`. `quiz/dto.py` is not part of this model.
- `services.dfy` (module `QuizServices`): specification functions for each
  step (`CorrectAmong`, `QuestionsTable`, `Counts`, `CorrectCount`, `Result`).
  It also holds the class `QuizResultService`, whose three methods run the
  same loops as the source and are proved to compute those functions.
- `properties.dfy` (module `QuizProperties`): lemmas about the functions.

How the model represents the source:

- The score is `Outcome.Score(correct, total)`, an exact fraction of two
  naturals, not a float.
- A quiz with no questions makes the source's division raise
  `ZeroDivisionError`. The model returns the value `Outcome.DivisionByZero`
  for it, so every input has a defined result.
- The service's two fields are `const`: the source sets them in `__init__`
  and never assigns them again. No method has a `modifies` clause, so calling
  `GetResult` cannot change the quiz or the answers.
- Python's `set(answer.choices)` is `Elements`, the set of a sequence's
  elements.
- The test `if correct_answer := questions_dict.get(...)` is true only when the
  key is present and its set is non-empty. `Counts` states both conditions
  and then the exact set equality.

Two behaviours of the code are modelled as written:

- **An empty correct set never scores.** A question with no correct choice
  cannot be counted correct. That includes an empty selection, although
  `{} == {}` holds. One might expect such a question to score 1 when left
  blank. The code gives 0 out of 1, and the model follows the code
  (`EmptyCorrectSetScenario`, `NoCorrectChoiceNeverScores`).
- **Duplicate answers each count.** The count runs over the answer list. Two
  correct answers for the same question give 2 out of 1
  (`DuplicateAnswersEachCount`). The caller in `quiz_app/views.py:146-157`
  builds answers from dictionary keys, so its answers are always distinct.
  The bound and perfect-score lemmas therefore assume `DistinctAnswers`.

## Model

| member | source | states |
|---|---|---|
| `QuizServices.CorrectAmong` | quiz/services.py:36-40 | the correct set is exactly the identifiers of the choices flagged correct: incorrect choices never appear |
| `QuizServices.QuestionsTable` | quiz/services.py:24-28 | the table's keys are exactly the question identifiers of the quiz |
| `QuizServices.CorrectCount` | quiz/services.py:12-16 | the count never exceeds the number of answers, and it equals that number exactly when every answer scores |
| `QuizServices.Result` | quiz/services.py:10-17 | division by zero happens exactly when the quiz has no questions; otherwise the denominator is the number of distinct question identifiers (positive) and the numerator is at most the number of answers |
| `QuizServices.QuizResultService.constructor` | quiz/services.py:6-8 | the service keeps the quiz and the answers it was given |
| `QuizServices.QuizResultService.GetCorrectAnswers` | quiz/services.py:30-40 | the set grown choice by choice is the question's correct set |
| `QuizServices.QuizResultService.GetQuestionsDict` | quiz/services.py:19-28 | the dictionary filled question by question is the questions table |
| `QuizServices.QuizResultService.GetResult` | quiz/services.py:10-17 | one pass over the answers, with the truthiness test and the set equality, yields the result of scoring this quiz and these answers |
| `QuizProperties.CorrectSetEmptyIff` | quiz/services.py:36-40 | a correct set is empty exactly when no choice of the question is flagged correct |
| `QuizProperties.TableLastWins` | quiz/services.py:25-27 | an identifier's entry is the correct set of the last question carrying it, so a later question overwrites an earlier one |
| `QuizProperties.TableSize` | quiz/services.py:24-28 | the table has at most one entry per question, and exactly one per question when the identifiers are distinct |
| `QuizProperties.CountAppend` | quiz/services.py:13-16 | the count over two concatenated answer lists is the sum of their counts |
| `QuizProperties.CountSingleton` | quiz/services.py:14-16 | a single answer counts 1 exactly when it scores, and 0 otherwise |
| `QuizServices.CountStep` | quiz/services.py:13-16 | taking one more answer into the count adds 1 exactly when that answer scores |
| `QuizProperties.DropNonScoring` | quiz/services.py:13-16 | removing an answer that does not score leaves the count unchanged |
| `QuizProperties.UnknownQuestionIgnored` | quiz/services.py:14 | an answer naming a question outside the quiz leaves the result unchanged and causes no error |
| `QuizProperties.NoCorrectChoiceNeverScores` | quiz/services.py:14 | an answer to a question with no correct choice, when no later question carries the same identifier, leaves the result unchanged, whatever its selection, including the empty one |
| `QuizProperties.InexactSelectionScoresNothing` | quiz/services.py:15 | a selection that differs from the correct set, such as a strict subset or superset, leaves the result unchanged |
| `QuizProperties.SelectionOrderIrrelevant` | quiz/services.py:15 | two selections with the same elements, in any order and with any repeats, give the same result |
| `QuizProperties.ScoringAnswerAddsOne` | quiz/services.py:13-17 | replacing a non-scoring answer with a scoring one raises the numerator by one and keeps the denominator, so the score grows with the number of exact answers |
| `QuizProperties.CountZeroIff` | quiz/services.py:12-16 | the count is zero exactly when no answer scores |
| `QuizProperties.NoMatchingAnswerScoresZero` | quiz/services.py:10-17 | for a quiz with questions, the score is 0 exactly when no answer matches a non-empty correct set exactly |
| `QuizProperties.NoAnswersScoreZero` | quiz/services.py:12-17 | with no answers the score is 0 out of the number of questions |
| `QuizProperties.CountIsScoringUuids` | quiz/services.py:13-16 | with distinct answered identifiers, the count is the number of table keys that a scoring answer names |
| `QuizProperties.ResultInUnitInterval` | quiz/services.py:10-17 | with distinct answered identifiers, the numerator is at most the denominator, so the score lies in [0, 1] |
| `QuizProperties.AllAnsweredIffScoringCoversTable` | quiz/services.py:13-17 | every question answered exactly against a non-empty table entry is the same as every table key being named by a scoring answer |
| `QuizProperties.PerfectScoreIff` | quiz/services.py:10-17 | with distinct answered identifiers, the score is 1 exactly when every question's table entry is non-empty and some answer's selection equals it |
| `QuizProperties.PerfectScoreIffCorrectSets` | quiz/services.py:10-17 | with distinct question identifiers and distinct answered identifiers, the score is 1 exactly when every question has a non-empty correct set of its own and an answer whose selection equals it |
| `QuizProperties.SingleExactAnswerScenario` | quiz/services.py:10-17 | one exact answer in a quiz of n questions with distinct identifiers scores 1 out of n: unanswered questions count as wrong |
| `QuizProperties.PartialSelectionScenario` | quiz/services.py:13-17 | two questions with distinct identifiers, one answered exactly and one with a different selection, score 1 out of 2 |
| `QuizProperties.EmptyCorrectSetScenario` | quiz/services.py:14 | a single question with no correct choice, answered with an empty selection, scores 0 out of 1 |
| `QuizProperties.DuplicateAnswersEachCount` | quiz/services.py:13-16 | the same correct answer given twice for a one-question quiz scores 2 out of 1 |

## Left out

- `quiz_app/views.py`: Django request handling, the session store, loading
  records from the database, URL reversing and template rendering. None of
  these are part of this model. The wizard step at `quiz_app/views.py:104-113`
  is a two-way redirect with no state of its own.
- The percentage formatting at `quiz_app/views.py:168-169` (`* 100` and
  `'%.2f'`) is float formatting and is not modelled. Neither is the float
  division in `get_result`: the score stays an exact pair of naturals.
- `quiz_app/forms.py`: form construction only. Its `is_valid` always returns
  true, so there is no validation logic to model.
- `Result`: the `ZeroDivisionError` the source raises for a quiz without
  questions is the value `DivisionByZero`, not an exception.
- `ResultInUnitInterval`, `PerfectScoreIff` and `CountIsScoringUuids` assume
  the answers name distinct questions, as the caller guarantees. Without that
  assumption the count can exceed the number of questions
  (`DuplicateAnswersEachCount`).
- `PerfectScoreIffCorrectSets`, `SingleExactAnswerScenario` and
  `PartialSelectionScenario` assume the quiz's question identifiers are
  distinct. `create_quiz_dto` (`quiz_app/views.py:36-53`) takes them from
  database ids, so they always are. With repeated identifiers a later question
  overwrites an earlier one's entry (`TableLastWins`), and the denominator is
  the number of distinct identifiers (`Result`). `PerfectScoreIff` states the
  perfect-score condition for a quiz with repeated identifiers too, in terms of
  those table entries.
- The text fields of choices, questions and quizzes, and the quiz identifier
  of a submission, are carried but never read by the scorer.
