/** The records exchanged with the model and the state the quiz screen keeps.
    Field names follow the JSON keys the app decodes; `Question.type` is called
    `kind` here because `type` is a Dafny keyword. */
module QuizData {

  /** A Kotlin nullable value `T?`. */
  datatype Nullable<T> = Null | NonNull(value: T)

  /** One answer choice, `{text, correct}`. Options have no identity of their own:
      two options with the same text and flag are the same value. */
  datatype Option = Option(text: string, correct: bool)

  /** `{type, question, options}`; `options` is null for free-answer questions. */
  datatype Question = Question(kind: string, question: string, options: Nullable<seq<Option>>)

  /** `{quiz_title, questions}`. */
  datatype Quiz = Quiz(title: string, questions: seq<Question>)

  /** `{expectedAnswer, isCorrect, feedback}`. */
  datatype GradingResult = GradingResult(expectedAnswer: string, isCorrect: bool, feedback: string)

  /** Grading state of the current question. */
  datatype GradingResultUiState =
    | Initial
    | Loading
    | Success(gradingResult: GradingResult)
    | Error(errorMessage: string)

  /** An entry of the answer log. The random UUID identifier is not modelled. */
  datatype UserAnswer = UserAnswer(
    question: Question,
    userAnswer: seq<string>,
    isCorrect: bool,
    correctAnswer: Nullable<string>)

  /** The `type` value that selects the free-text input; any other value is multiple choice. */
  const FreeAnswerType: string := "free_answer"

  /** Feedback attached to every locally graded multiple-choice answer. */
  const ReviewFeedback: string := "Review the correct and incorrect options."

  /** Message of the grading state when the grading request throws. */
  const GradingFailedMessage: string := "Failed to grade response"

  /** Kotlin's default `joinToString` separator. */
  const JoinSeparator: string := ", "

  /** Shown on the result screen for a log entry without a correct answer. */
  const NotAvailable: string := "N/A"
}
