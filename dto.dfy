/** The plain value objects the scorer receives: a quiz with its questions and
    choices, and the learner's submitted answers. Every field is a value; the
    scorer never updates any of them. */
module QuizDto {

  /** One answerable option of a question. */
  datatype Choice = Choice(uuid: string, text: string, isCorrect: bool)

  /** One quiz item with its ordered choices. */
  datatype Question = Question(uuid: string, text: string, choices: seq<Choice>)

  /** A titled, ordered collection of questions. */
  datatype Quiz = Quiz(uuid: string, title: string, questions: seq<Question>)

  /** The learner's reply to one question: the question it names and the
      choice identifiers selected, in the order submitted (possibly empty,
      possibly with repeats). */
  datatype Answer = Answer(questionUuid: string, choices: seq<string>)

  /** The whole submission for one attempt at a quiz. */
  datatype Answers = Answers(quizUuid: string, answers: seq<Answer>)
}
