# Recap AI quiz session, modelled in Dafny

Recap AI turns a user's notes into a quiz produced by a generative model, and then lets the user take it.
This project models the quiz-taking screen `QuizScreen` in `QuizUI.kt`.
The screen keeps these variables across recompositions:
- the current question index;
- the selected options;
- whether the answer is shown;
- the score;
- whether the quiz is finished;
- the typed free-answer text;
- the grading state (`Initial | Loading | Success(result) | Error(message)`);
- the answer log.

Its click handlers change that state:
- selecting an option;
- typing an answer;
- Submit;
- Next.

The project has three modules:

- `QuizData` (`quiz_data.dfy`): the records `Quiz`, `Question`, `Option`, `GradingResult`, `UserAnswer` and the grading state.
  The Kotlin data classes are declared outside `QuizUI.kt`, so their fields are inferred from their use there.
  The JSON field `type` is called `kind`, because `type` is a Dafny keyword.
  `T?` is written `Nullable<T>`.
- `Grading` (`grading.dfy`): the pure computations of the screen.
  - The count of correct options, and whether a question is multi-select.
  - The selection update.
  - The local grading of a multiple-choice answer.
  - The expected-answer text, Kotlin's `joinToString` with `", "`.
  - The option highlight colour and the enabling rules of the controls.
  - The result screen's "N/A" fallback.
- `Session` (`session.dfy`): the class `QuizScreen`, one field per state variable and one method per handler.
  - `GradingArrived(result)` and `GradingFailed()` stand for the two ends of the asynchronous free-answer grading request.
  - `Valid()` is the session invariant every handler keeps.
    - The index stays within the quiz.
    - The log holds one entry per Next. Entry `i` answers question `i`.
    - While the quiz is running, the log length equals the index.
    - A finished session stands on the last question and its log has one entry per question (`FinishedLogCoversQuiz`).
    - The score stays 0.
    - The selection holds distinct options of the current question.
    - A multiple-choice question never has typed text and is never in `Loading` or `Error`.
    - A shown multiple-choice answer carries exactly the locally computed grade.

Kotlin's `setOf`, `+` and `-` build insertion-ordered sets.
So `selectedOptions` is modelled as a sequence without duplicates.
`selectedOptions.map { it.text }` then gives the logged texts in the order the options were picked.

A handler's `requires` is the rendering condition under which its control exists and is enabled.
- The option controls appear only for multiple-choice questions. They stay on screen while the answer is shown, but are enabled only while it is not.
- The text field appears only for free-answer questions. It is enabled unless the answer is shown or grading is running.
- Submit appears only in `Initial`, and is enabled by typed text or a selection.
- Next appears only in `Success`.
- While the quiz is finished, the result screen replaces all of these.
The Kotlin lambdas have no guard of their own, because a control that is absent or disabled cannot fire.

Behaviour of the code that the model keeps as written:
- Next never changes `score`, although the result screen displays it (QuizUI.kt:52, 258).
  `ScoreIgnoresCorrectAnswers` shows that the displayed score differs from the number of correct answers as soon as one answer was graded correct.
- A free-answer entry in the log has an empty `userAnswer`.
  The entry is built from `selectedOptions`, not from the typed text.
- `Error` has no exit.
- On the last question Next sets `quizFinished` and leaves the index and the other per-question state unchanged.
- For a free-answer question `showAnswer` stays false, so the text field is enabled again once the grade has arrived.
- Options are compared by value.
  `RepeatedCorrectIsUnwinnable` shows that a question listing the same correct option twice can never be answered correctly.
  The reason is that the count of correct entries exceeds what any selection can reach.

## Model

| member | source | states |
|---|---|---|
| `Grading.Without` | app/src/main/java/com/click/recapai/QuizUI.kt:83 | removing an option from the ordered selection keeps exactly the other options, keeps them distinct and shortens the selection by one when the option was present |
| `Grading.WithoutKeepsOrder` | app/src/main/java/com/click/recapai/QuizUI.kt:83 | removing a selected option cuts it out at its position; the options before and after it keep their order |
| `Grading.IsFreeAnswer` | app/src/main/java/com/click/recapai/QuizUI.kt:140 | a question is free-answer exactly when its type is `"free_answer"`; any other type is treated as multiple choice |
| `Grading.CountCorrect` | app/src/main/java/com/click/recapai/QuizUI.kt:75 | `count { it.correct }` is at most the number of options, and is 0 exactly when no option is correct; `CountIsFilterLength` and `CountIsKeySize` relate it to the filtered list and to the answer key |
| `Grading.CorrectCount` | app/src/main/java/com/click/recapai/QuizUI.kt:75 | a null option list counts 0 correct options; the count never exceeds the number of options |
| `Grading.IsMultiSelect` | app/src/main/java/com/click/recapai/QuizUI.kt:211 | a multi-select question has a listed option list with at least two options; `SelectionAfter` gives its toggle semantics |
| `Grading.Texts` | app/src/main/java/com/click/recapai/QuizUI.kt:116 | `map { it.text }` gives one text per option, in the same order |
| `Grading.CorrectTextsAppend` | app/src/main/java/com/click/recapai/QuizUI.kt:174 | appending an option appends its text to the correct texts exactly when it is correct; the correct texts are as many as the correct options |
| `Grading.IsSelectionCorrect` | app/src/main/java/com/click/recapai/QuizUI.kt:175 | a question with null options is never graded correct, a correct selection holds only correct options, and the empty selection is correct only when the list has no correct option; `SelectionCorrectIff` characterises it on every option list |
| `Grading.JoinToString` | app/src/main/java/com/click/recapai/QuizUI.kt:174 | joining no elements gives `""` and one element gives that element; `JoinEnds` and `JoinAppend` give the order of the elements |
| `Grading.JoinEnds` | app/src/main/java/com/click/recapai/QuizUI.kt:174 | a joined list of two or more elements starts with the first element and the separator, and ends with the last element |
| `Grading.ExpectedAnswer` | app/src/main/java/com/click/recapai/QuizUI.kt:174 | the expected answer is `""` for a null option list and for a list without a correct option; `ExpectedAnswerFirstCorrect`, `ExpectedAnswerInListOrder` and `ExpectedAnswerSkipsIncorrect` pin it down by induction on the list |
| `Grading.ExpectedAnswerFirstCorrect` | app/src/main/java/com/click/recapai/QuizUI.kt:174 | the first correct option of a list alone makes up the expected answer, with no separator |
| `Grading.LocalGrade` | app/src/main/java/com/click/recapai/QuizUI.kt:172-177 | the result of a multiple-choice submit carries the joined correct texts, the grade of the selection and the fixed feedback "Review the correct and incorrect options." |
| `Grading.SubmitEnabled` | app/src/main/java/com/click/recapai/QuizUI.kt:180 | Submit is enabled exactly when text was typed or something is selected; `SubmitOfferedIff` specialises it per question type |
| `Grading.InputEnabled` | app/src/main/java/com/click/recapai/QuizUI.kt:208 | the free-answer field is disabled while grading is running and while the answer is shown |
| `Grading.OptionsEnabled` | app/src/main/java/com/click/recapai/QuizUI.kt:219-225 | the checkboxes and radio buttons are enabled exactly while the answer is not shown |
| `Grading.CorrectOptions` | app/src/main/java/com/click/recapai/QuizUI.kt:174 | the filtered list holds exactly the options of the list that are correct |
| `Grading.CorrectOptionsAppend` | app/src/main/java/com/click/recapai/QuizUI.kt:174 | filtering distributes over concatenation, so the correct options keep their list order |
| `Grading.CountIsFilterLength` | app/src/main/java/com/click/recapai/QuizUI.kt:174-175 | `count { it.correct }` equals the length of `filter { it.correct }` |
| `Grading.CountIsKeySize` | app/src/main/java/com/click/recapai/QuizUI.kt:175 | when no correct option is listed twice, the count of correct entries is the size of the set of correct options; incorrect options may repeat |
| `Grading.CountAtLeastKeySize` | app/src/main/java/com/click/recapai/QuizUI.kt:175 | the count of correct entries is never below the size of the set of correct options |
| `Grading.RepeatedCorrectExceedsKeySize` | app/src/main/java/com/click/recapai/QuizUI.kt:175 | a correct option listed twice makes the count exceed the size of the set of correct options |
| `Grading.SelectionAfter` | app/src/main/java/com/click/recapai/QuizUI.kt:75-90 | with more than one correct option, picking `o` toggles `o`'s membership, leaves every other option's membership unchanged and appends a new pick at the end; otherwise the selection becomes exactly `[o]`; the selection stays free of duplicates |
| `Grading.ExclusivePickReplaces` | app/src/main/java/com/click/recapai/QuizUI.kt:87-89 | on a single-answer question a pick replaces the earlier selection by `{o}` |
| `Grading.ToggleTwiceRestores` | app/src/main/java/com/click/recapai/QuizUI.kt:81-86 | on a multi-answer question picking the same option twice restores the selected set |
| `Grading.SelectionCorrectIff` | app/src/main/java/com/click/recapai/QuizUI.kt:175 | a selection drawn from the options is graded correct if and only if the question has an option list, no correct option is listed twice, and the selected set equals the set of correct options; this rejects both under- and over-selection, and a null option list is never answered correctly |
| `Grading.RepeatedCorrectIsUnwinnable` | app/src/main/java/com/click/recapai/QuizUI.kt:175 | if a correct option is listed twice, no selection is graded correct |
| `Grading.JoinAppend` | app/src/main/java/com/click/recapai/QuizUI.kt:174 | `joinToString` puts one more element after one more `", "`-style separator, at the end |
| `Grading.ExpectedAnswerInListOrder` | app/src/main/java/com/click/recapai/QuizUI.kt:174 | the expected answer is the correct options' texts in list order: appending a correct option appends `", "` and its text |
| `Grading.ExpectedAnswerSkipsIncorrect` | app/src/main/java/com/click/recapai/QuizUI.kt:174 | incorrect options do not change the expected answer, and without a correct option it is empty |
| `Grading.Highlight` | app/src/main/java/com/click/recapai/QuizUI.kt:231-235 | an option is uncoloured until the answer is shown, then green if and only if correct and red if and only if incorrect |
| `Grading.GreenOptionsAreKey` | app/src/main/java/com/click/recapai/QuizUI.kt:231-235 | no option is green before the answer is shown; once it is shown, the green options are exactly the set of correct options |
| `Grading.ShownCorrectAnswer` | app/src/main/java/com/click/recapai/QuizUI.kt:263 | the result screen shows the logged correct answer, or "N/A" when it is null |
| `Session.QuizScreen.constructor` | app/src/main/java/com/click/recapai/QuizUI.kt:49-56 | the session starts at question 0 with no selection, answer hidden, score 0, not finished, no typed text, grading `Initial`, an empty log, and satisfies the session invariant |
| `Session.QuizScreen.SelectOption` | app/src/main/java/com/click/recapai/QuizUI.kt:80-90 | the selection becomes the toggled or exclusive selection and nothing else changes; the invariant is kept |
| `Session.QuizScreen.EditInput` | app/src/main/java/com/click/recapai/QuizUI.kt:203-209 | typing replaces the free-answer text and nothing else |
| `Session.QuizScreen.Submit` | app/src/main/java/com/click/recapai/QuizUI.kt:138-180 | a free-answer submit only moves the grading state to `Loading`; any other question is graded locally: the answer is shown and the state is `Success` with the joined correct texts, the correctness of the selection and the fixed feedback |
| `Session.QuizScreen.GradingArrived` | app/src/main/java/com/click/recapai/QuizUI.kt:157-161 | the pending grading ends in `Success` with the decoded result and nothing else changes |
| `Session.QuizScreen.GradingFailed` | app/src/main/java/com/click/recapai/QuizUI.kt:164-167 | the pending grading ends in `Error("Failed to grade response")` and nothing else changes |
| `Session.QuizScreen.Next` | app/src/main/java/com/click/recapai/QuizUI.kt:113-131 | appends exactly one entry (the question, the selected texts, the result's `isCorrect` and expected answer) to the log; before the last question it advances the index and resets answer, grading state, text and selection, otherwise it finishes with the index unchanged; a finished log has one entry per question; a free-answer entry logs no text; a multiple-choice entry logs the selection's correctness |
| `Session.FinishedLogCoversQuiz` | app/src/main/java/com/click/recapai/QuizUI.kt:122-130 | in a finished session the log has exactly one entry per question, entry `i` answering question `i` |
| `Session.SubmitOfferedIff` | app/src/main/java/com/click/recapai/QuizUI.kt:180 | Submit is enabled on a multiple-choice question exactly when something is selected, and on a free-answer question exactly when text was typed |
| `Session.ShownGradeMatchesKey` | app/src/main/java/com/click/recapai/QuizUI.kt:170-178 | a shown multiple-choice grade is correct exactly when the selected set equals the set of correct options, for a listed option list without a repeated correct option |
| `Session.ShownColoursMatchGrade` | app/src/main/java/com/click/recapai/QuizUI.kt:231-235 | once an answer is shown the grading state is `Success`, the green options are the answer key, and the shown grade is correct exactly when the selection is the set of green options (listed options, no repeated correct option) |
| `Session.LoggedAnswersHaveCorrectAnswer` | app/src/main/java/com/click/recapai/QuizUI.kt:114-119 | every log entry carries a correct answer, so the result screen never falls back to "N/A" for it |
| `Session.ScoreIgnoresCorrectAnswers` | app/src/main/java/com/click/recapai/QuizUI.kt:52 | the score stays 0 and differs from the number of correct log entries once one entry is correct |

## Left out

- Layout, the top bar, back navigation (`onBack`), the result screen's Dismiss button (`onFinish`), keyboard hiding and the Correct!/Wrong! texts are rendering only and are not modelled.
- The grading request itself, its prompt text and its coroutine dispatches are network and concurrency code. They appear only as the events `GradingArrived` and `GradingFailed`.
- GradingArrived and GradingFailed require the state to be `Loading`. A stale response that lands after the user has moved on is not modelled.
- GradingFailed models the `catch` path only. A decoding failure of `parseGradingResultJson` inside the completion happens outside that `try` and is not modelled.
- `parseQuizJson` and `parseGradingResultJson` are not part of this model. A decoded result is a parameter of `GradingArrived`.
- The random `UUID` identifier of `UserAnswer` is left out.
- The `answer` field of a free-answer question is not used by this screen and is not modelled.
- Session.QuizScreen.constructor requires a non-empty quiz. An empty quiz makes `quiz.questions[0]` throw at QuizUI.kt:74.
- GeminiAPI.kt, RecapScreen.kt, MainActivity.kt and UiState.kt are not part of this model. They hold the model client, settings persistence and the other screens.
