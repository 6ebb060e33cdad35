/**
 * The records the three components exchange with the quiz server, as they
 * arrive from it: a quiz with its ordered questions, and the optional values
 * (`undefined` in JavaScript) they may carry.
 */
module QuizData {

  datatype Option<+T> = None | Some(value: T)

  /** The four question types the authoring form offers. */
  datatype QuestionType = SingleSelect | MultiSelect | Integer | Text

  /** A stored correct answer: a plain string, or an array of strings. */
  datatype Correct = CorrectText(text: string) | CorrectList(items: seq<string>)

  /** A stored question; `options` is absent on questions that have none. */
  datatype Question = Question(
    text: string,
    qtype: QuestionType,
    options: Option<seq<string>>,
    correct: Correct)

  /** A stored quiz; `active` is absent on quizzes the server stored without
      the flag. */
  datatype Quiz = Quiz(
    id: string,
    title: string,
    questions: seq<Question>,
    active: Option<bool>)
}
