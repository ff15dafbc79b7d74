/** The quiz-taking session of `QuizScreen`: the state it remembers across
    recompositions and the handlers that change it. Each method is one handler;
    its `requires` is the rendering condition under which the control that
    fires it exists and is enabled. `GradingArrived` and `GradingFailed` stand
    for the completion of the asynchronous free-answer grading request. */
module Session {
  import opened QuizData
  import opened Grading

  class QuizScreen {
    const quiz: Quiz
    var currentQuestionIndex: int
    /** Kotlin's insertion-ordered set, as a sequence without duplicates. */
    var selectedOptions: seq<Option>
    var showAnswer: bool
    var score: int
    var quizFinished: bool
    var userInput: string
    var gradingResultUiState: GradingResultUiState
    var userAnswers: seq<UserAnswer>
    /** Number of Next transitions taken so far. */
    ghost var nextCount: nat

    function Current(): Question
      reads this
      requires 0 <= currentQuestionIndex < |quiz.questions|
    {
      quiz.questions[currentQuestionIndex]
    }

    ghost predicate Valid()
      reads this
    {
      && |quiz.questions| > 0
      && 0 <= currentQuestionIndex < |quiz.questions|
      // the log: one entry per Next, entry i answers question i
      && |userAnswers| == nextCount
      && |userAnswers| == currentQuestionIndex + (if quizFinished then 1 else 0)
      && (forall i :: 0 <= i < |userAnswers| ==> userAnswers[i].question == quiz.questions[i])
      && (forall i :: 0 <= i < |userAnswers| ==> userAnswers[i].correctAnswer.NonNull?)
      && score == 0
      && (quizFinished ==> gradingResultUiState.Success? && currentQuestionIndex == |quiz.questions| - 1)
      // the selection: distinct options of the current question
      && NoDuplicates(selectedOptions)
      && (forall o :: o in selectedOptions ==> o in OptionsOf(Current()))
      // free answer: no selection, the answer is never shown
      && (IsFreeAnswer(Current()) ==> selectedOptions == [] && !showAnswer)
      // multiple choice: no typed text, graded locally and then shown
      && (!IsFreeAnswer(Current()) ==>
            && userInput == ""
            && (gradingResultUiState.Initial? || gradingResultUiState.Success?)
            && (showAnswer <==> gradingResultUiState.Success?)
            && (gradingResultUiState.Success? ==>
                  gradingResultUiState.gradingResult == LocalGrade(selectedOptions, Current())))
    }

    /** The screen as first composed for `quiz`; `quiz.questions[0]` needs a question. */
    constructor (quiz: Quiz)
      requires |quiz.questions| > 0
      ensures Valid()
      ensures this.quiz == quiz
      ensures currentQuestionIndex == 0 && selectedOptions == [] && !showAnswer && score == 0
      ensures !quizFinished && userInput == "" && gradingResultUiState == Initial
      ensures userAnswers == [] && nextCount == 0
    {
      this.quiz := quiz;
      currentQuestionIndex := 0;
      selectedOptions := [];
      showAnswer := false;
      score := 0;
      quizFinished := false;
      userInput := "";
      gradingResultUiState := Initial;
      userAnswers := [];
      nextCount := 0;
    }

    /** A click on the checkbox or radio button of option `o`. */
    method SelectOption(o: Option)
      requires Valid() && !quizFinished
      requires !IsFreeAnswer(Current()) && o in OptionsOf(Current())
      requires OptionsEnabled(showAnswer)
      modifies this`selectedOptions
      ensures Valid()
      ensures selectedOptions == SelectionAfter(old(selectedOptions), Current(), o)
      ensures IsMultiSelect(Current()) ==>
        forall x :: x in selectedOptions <==> (if x == o then x !in old(selectedOptions) else x in old(selectedOptions))
      ensures !IsMultiSelect(Current()) ==> selectedOptions == [o]
    {
      selectedOptions := SelectionAfter(selectedOptions, Current(), o);
    }

    /** Typing into the free-answer text field. */
    method EditInput(text: string)
      requires Valid() && !quizFinished
      requires IsFreeAnswer(Current())
      requires InputEnabled(showAnswer, gradingResultUiState)
      modifies this`userInput
      ensures Valid()
      ensures userInput == text
    {
      userInput := text;
    }

    /** The Submit button, shown only in the Initial state and enabled by typed text or a selection. */
    method Submit()
      requires Valid() && !quizFinished
      requires gradingResultUiState.Initial?
      requires SubmitEnabled(userInput, selectedOptions)
      modifies this`showAnswer, this`gradingResultUiState
      ensures Valid()
      ensures IsFreeAnswer(Current()) ==>
        gradingResultUiState == Loading && showAnswer == old(showAnswer)
      ensures !IsFreeAnswer(Current()) ==>
        && showAnswer
        && gradingResultUiState == Success(GradingResult(
             ExpectedAnswer(Current()),
             IsSelectionCorrect(selectedOptions, Current()),
             ReviewFeedback))
    {
      if IsFreeAnswer(Current()) {
        gradingResultUiState := Loading;
      } else {
        showAnswer := true;
        gradingResultUiState := Success(LocalGrade(selectedOptions, Current()));
      }
    }

    /** The grading request completed and its response decoded to `result`. */
    method GradingArrived(result: GradingResult)
      requires Valid() && gradingResultUiState.Loading?
      modifies this`gradingResultUiState
      ensures Valid()
      ensures gradingResultUiState == Success(result)
    {
      gradingResultUiState := Success(result);
    }

    /** The grading request threw. */
    method GradingFailed()
      requires Valid() && gradingResultUiState.Loading?
      modifies this`gradingResultUiState
      ensures Valid()
      ensures gradingResultUiState == Error(GradingFailedMessage)
    {
      gradingResultUiState := Error(GradingFailedMessage);
    }

    /** The Next button, shown only in the Success state. */
    method Next()
      requires Valid() && !quizFinished
      requires gradingResultUiState.Success?
      modifies this`userAnswers, this`nextCount, this`currentQuestionIndex, this`showAnswer,
        this`gradingResultUiState, this`userInput, this`selectedOptions, this`quizFinished
      ensures Valid()
      ensures nextCount == old(nextCount) + 1
      ensures userAnswers == old(userAnswers) + [UserAnswer(
        old(Current()),
        Texts(old(selectedOptions)),
        old(gradingResultUiState).gradingResult.isCorrect,
        NonNull(old(gradingResultUiState).gradingResult.expectedAnswer))]
      ensures old(currentQuestionIndex) < |quiz.questions| - 1 ==>
        && currentQuestionIndex == old(currentQuestionIndex) + 1
        && !showAnswer && gradingResultUiState == Initial && userInput == "" && selectedOptions == []
        && !quizFinished
      ensures old(currentQuestionIndex) >= |quiz.questions| - 1 ==>
        && quizFinished
        && currentQuestionIndex == old(currentQuestionIndex)
        && showAnswer == old(showAnswer) && gradingResultUiState == old(gradingResultUiState)
        && userInput == old(userInput) && selectedOptions == old(selectedOptions)
      ensures quizFinished ==> |userAnswers| == |quiz.questions|
      ensures IsFreeAnswer(old(Current())) ==> userAnswers[|userAnswers| - 1].userAnswer == []
      ensures !IsFreeAnswer(old(Current())) ==>
        userAnswers[|userAnswers| - 1].isCorrect == IsSelectionCorrect(old(selectedOptions), old(Current()))
    {
      var result := gradingResultUiState.gradingResult;
      var answer := UserAnswer(Current(), Texts(selectedOptions), result.isCorrect, NonNull(result.expectedAnswer));
      ghost var log := userAnswers;
      userAnswers := userAnswers + [answer];
      assert forall i :: 0 <= i < |log| ==> userAnswers[i] == log[i];
      assert userAnswers[|log|] == answer;
      nextCount := nextCount + 1;
      if currentQuestionIndex < |quiz.questions| - 1 {
        currentQuestionIndex := currentQuestionIndex + 1;
        showAnswer := false;
        gradingResultUiState := Initial;
        userInput := "";
        selectedOptions := [];
      } else {
        quizFinished := true;
      }
    }
  }

  /** A finished session has logged exactly one answer per question. */
  lemma FinishedLogCoversQuiz(s: QuizScreen)
    requires s.Valid() && s.quizFinished
    ensures |s.userAnswers| == |s.quiz.questions|
    ensures forall i :: 0 <= i < |s.userAnswers| ==> s.userAnswers[i].question == s.quiz.questions[i]
  {
  }

  /** Submit is offered on a multiple-choice question exactly when something is
      selected, and on a free-answer question exactly when text was typed. */
  lemma SubmitOfferedIff(s: QuizScreen)
    requires s.Valid() && !s.quizFinished
    ensures !IsFreeAnswer(s.Current()) ==>
      (SubmitEnabled(s.userInput, s.selectedOptions) <==> s.selectedOptions != [])
    ensures IsFreeAnswer(s.Current()) ==>
      (SubmitEnabled(s.userInput, s.selectedOptions) <==> s.userInput != "")
  {
  }

  /** A multiple-choice answer is graded correct exactly when the selection is
      the answer key, provided the question's options are listed and distinct. */
  lemma ShownGradeMatchesKey(s: QuizScreen)
    requires s.Valid() && !IsFreeAnswer(s.Current()) && s.gradingResultUiState.Success?
    requires s.Current().options.NonNull? && !HasRepeatedCorrect(OptionsOf(s.Current()))
    ensures s.gradingResultUiState.gradingResult.isCorrect <==>
      Elems(s.selectedOptions) == CorrectSet(OptionsOf(s.Current()))
  {
    SelectionCorrectIff(s.selectedOptions, s.Current());
  }

  /** Once an answer is shown, the options coloured green are the answer key of the
      current question, and the shown grade says whether the selection is exactly
      the green options. */
  lemma ShownColoursMatchGrade(s: QuizScreen)
    requires s.Valid() && s.showAnswer
    requires s.Current().options.NonNull? && !HasRepeatedCorrect(OptionsOf(s.Current()))
    ensures GreenOptions(s.showAnswer, OptionsOf(s.Current())) == CorrectSet(OptionsOf(s.Current()))
    ensures s.gradingResultUiState.Success?
    ensures s.gradingResultUiState.gradingResult.isCorrect <==>
      Elems(s.selectedOptions) == GreenOptions(s.showAnswer, OptionsOf(s.Current()))
  {
    GreenOptionsAreKey(s.showAnswer, OptionsOf(s.Current()));
    ShownGradeMatchesKey(s);
  }

  /** Every logged answer carries the grading result's expected answer, so the
      result screen never falls back to "N/A". */
  lemma LoggedAnswersHaveCorrectAnswer(s: QuizScreen, i: int)
    requires s.Valid() && 0 <= i < |s.userAnswers|
    ensures s.userAnswers[i].correctAnswer.NonNull?
    ensures ShownCorrectAnswer(s.userAnswers[i]) == s.userAnswers[i].correctAnswer.value
  {
  }

  /** The score shown on the result screen stays 0: it disagrees with the number
      of correct answers as soon as one answer was graded correct. */
  lemma ScoreIgnoresCorrectAnswers(s: QuizScreen)
    requires s.Valid()
    ensures s.score == 0
    ensures (exists i :: 0 <= i < |s.userAnswers| && s.userAnswers[i].isCorrect) ==>
      s.score != TallyCorrect(s.userAnswers)
  {
    TallyPositiveIff(s.userAnswers);
  }

  /** A one-question quiz answered with its single correct option: one log entry,
      graded correct, and a score that stays 0. */
  method SingleQuestionRun()
  {
    var right := Option("A", true);
    var wrong := Option("B", false);
    var os := [right, wrong];
    assert os[1..] == [wrong] && [wrong][1..] == [];
    assert CountCorrect([]) == 0 && CorrectOptions([]) == [];
    assert CountCorrect([wrong]) == 0;
    assert CorrectOptions([wrong]) == [] + CorrectOptions([]);
    assert CountCorrect(os) == 1;
    assert CorrectOptions(os) == [right] + CorrectOptions([wrong]);
    var q := Question("multiple_choice", "Q1", NonNull(os));
    assert !IsFreeAnswer(q) && !IsMultiSelect(q);
    var screen := new QuizScreen(Quiz("T", [q]));
    assert screen.Current() == q;
    screen.SelectOption(wrong);
    screen.SelectOption(right);
    assert screen.selectedOptions == [right];
    screen.Submit();
    assert screen.gradingResultUiState.gradingResult.isCorrect;
    assert Texts([right]) == ["A"];
    assert ExpectedAnswer(q) == "A";
    screen.Next();
    assert screen.quizFinished;
    assert screen.userAnswers == [UserAnswer(q, ["A"], true, NonNull("A"))];
    assert screen.score == 0;
  }

  /** A free-answer question graded by the model: Submit only starts grading,
      the result arrives, and the log keeps no trace of the typed text. */
  method FreeAnswerRun(result: GradingResult)
  {
    var q := Question("free_answer", "Capital of France?", Null);
    var screen := new QuizScreen(Quiz("T", [q]));
    screen.EditInput("Lyon");
    screen.Submit();
    assert screen.gradingResultUiState == Loading && screen.userAnswers == [];
    screen.GradingArrived(result);
    assert screen.score == 0;
    screen.Next();
    assert screen.quizFinished;
    assert screen.userAnswers == [UserAnswer(q, [], result.isCorrect, NonNull(result.expectedAnswer))];
  }
}
