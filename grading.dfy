/** The pure computations of the quiz screen: counting correct options,
    updating the selection, grading a multiple-choice answer locally, the
    expected-answer text, and the rendering rules of the question and result
    screens. */
module Grading {
  import opened QuizData

  // ---------------------------------------------------------------------------
  // Sequences used as ordered sets

  /** The elements of `s` as a set. */
  ghost function Elems<T>(s: seq<T>): set<T>
  {
    set x | x in s
  }

  predicate NoDuplicates<T(==)>(s: seq<T>)
  {
    forall i, j :: 0 <= i < j < |s| ==> s[i] != s[j]
  }

  /** The tail of a duplicate-free sequence is duplicate-free and lacks the head. */
  lemma NoDuplicatesTail<T>(s: seq<T>)
    requires NoDuplicates(s) && s != []
    ensures NoDuplicates(s[1..]) && s[0] !in s[1..]
  {
    forall k | 0 <= k < |s| - 1
      ensures s[1..][k] != s[0]
    {
      assert s[1..][k] == s[k + 1];
    }
  }

  /** A sequence without duplicates has as many elements as its set. */
  lemma {:induction false} DistinctCardinality<T>(s: seq<T>)
    requires NoDuplicates(s)
    ensures |Elems(s)| == |s|
  {
    if s != [] {
      NoDuplicatesTail(s);
      DistinctCardinality(s[1..]);
      assert Elems(s) == Elems(s[1..]) + {s[0]};
    }
  }

  /** `s - x` on an insertion-ordered set: drops `x`, keeps the order of the rest. */
  function Without(s: seq<Option>, x: Option): (r: seq<Option>)
    ensures |r| <= |s|
    ensures forall y :: y in r <==> y in s && y != x
    ensures NoDuplicates(s) ==> NoDuplicates(r)
    ensures x !in s ==> r == s
    ensures NoDuplicates(s) && x in s ==> |r| == |s| - 1
  {
    if s == [] then []
    else
      var rest := Without(s[1..], x);
      assert NoDuplicates(s) ==> NoDuplicates(s[1..]) && s[0] !in s[1..];
      if s[0] == x then rest else [s[0]] + rest
  }

  /** Removing an option from a duplicate-free selection cuts it out at its
      position and keeps the order of the options before and after it. */
  lemma {:induction false} WithoutKeepsOrder(s: seq<Option>, x: Option, k: nat)
    requires NoDuplicates(s) && k < |s| && s[k] == x
    ensures Without(s, x) == s[..k] + s[k + 1..]
  {
    NoDuplicatesTail(s);
    var t := s[1..];
    if k == 0 {
      assert Without(s, x) == Without(t, x) == t;
      assert s[..0] + s[1..] == t;
    } else {
      assert s[0] != s[k];
      assert t[k - 1] == x;
      WithoutKeepsOrder(t, x, k - 1);
      assert Without(s, x) == [s[0]] + Without(t, x);
      assert t[..k - 1] == s[1..k] && t[k..] == s[k + 1..];
      assert [s[0]] + s[1..k] == s[..k];
    }
  }

  // ---------------------------------------------------------------------------
  // Correct options

  /** `question.type == "free_answer"`; every other type is treated as multiple choice. */
  predicate IsFreeAnswer(q: Question)
    ensures IsFreeAnswer(q) <==> q.kind == "free_answer"
  {
    q.kind == FreeAnswerType
  }

  /** The options the question renders (`options?.forEach`: none when null). */
  function OptionsOf(q: Question): seq<Option>
  {
    match q.options
    case Null => []
    case NonNull(os) => os
  }

  /** `filter { it.correct }`: the correct options, in list order. */
  function CorrectOptions(os: seq<Option>): (r: seq<Option>)
    ensures |r| <= |os|
    ensures forall o :: o in r <==> o in os && o.correct
  {
    if os == [] then []
    else (if os[0].correct then [os[0]] else []) + CorrectOptions(os[1..])
  }

  /** `count { it.correct }`. */
  function CountCorrect(os: seq<Option>): (n: nat)
    ensures n <= |os|
    ensures n == 0 <==> forall i :: 0 <= i < |os| ==> !os[i].correct
  {
    if os == [] then 0
    else (if os[0].correct then 1 else 0) + CountCorrect(os[1..])
  }

  /** The set of correct options, the answer key. */
  ghost function CorrectSet(os: seq<Option>): set<Option>
  {
    set o | o in os && o.correct
  }

  /** The answer key of a list: its head when correct, and the key of its tail. */
  lemma CorrectSetCons(os: seq<Option>)
    requires os != []
    ensures CorrectSet(os) == (if os[0].correct then {os[0]} else {}) + CorrectSet(os[1..])
  {
    assert forall o :: o in os <==> o == os[0] || o in os[1..];
  }

  /** Filtering keeps the list order: it distributes over concatenation. */
  lemma {:induction false} CorrectOptionsAppend(a: seq<Option>, b: seq<Option>)
    ensures CorrectOptions(a + b) == CorrectOptions(a) + CorrectOptions(b)
  {
    if a != [] {
      assert (a + b)[1..] == a[1..] + b;
      CorrectOptionsAppend(a[1..], b);
    } else {
      assert a + b == b;
    }
  }

  /** The count of correct entries is the length of the filtered list. */
  lemma {:induction false} CountIsFilterLength(os: seq<Option>)
    ensures CountCorrect(os) == |CorrectOptions(os)|
  {
    if os != [] {
      CountIsFilterLength(os[1..]);
    }
  }

  /** Some correct option is listed twice. */
  predicate HasRepeatedCorrect(os: seq<Option>)
  {
    exists i, j :: 0 <= i < j < |os| && os[i] == os[j] && os[i].correct
  }

  /** A repeated correct option of the tail, or a correct head listed again in the
      tail, is a repeated correct option of the whole list. */
  lemma RepeatedCorrectCons(os: seq<Option>)
    requires os != []
    ensures HasRepeatedCorrect(os[1..]) ==> HasRepeatedCorrect(os)
    ensures os[0].correct && os[0] in os[1..] ==> HasRepeatedCorrect(os)
  {
    var t := os[1..];
    if HasRepeatedCorrect(t) {
      var i, j :| 0 <= i < j < |t| && t[i] == t[j] && t[i].correct;
      assert os[i + 1] == t[i] && os[j + 1] == t[j];
    }
    if os[0].correct && os[0] in t {
      var k :| 0 <= k < |t| && t[k] == os[0];
      assert os[k + 1] == os[0];
    }
  }

  /** When no correct option is listed twice, the count of correct entries is the
      size of the answer key; incorrect options may repeat freely. */
  lemma {:induction false} CountIsKeySize(os: seq<Option>)
    requires !HasRepeatedCorrect(os)
    ensures CountCorrect(os) == |CorrectSet(os)|
  {
    if os != [] {
      RepeatedCorrectCons(os);
      CountIsKeySize(os[1..]);
      CorrectSetCons(os);
      assert os[0].correct ==> os[0] !in CorrectSet(os[1..]);
    }
  }

  /** Every listing of a correct option is counted, so the count is at least the key size. */
  lemma {:induction false} CountAtLeastKeySize(os: seq<Option>)
    ensures CountCorrect(os) >= |CorrectSet(os)|
  {
    if os != [] {
      CountAtLeastKeySize(os[1..]);
      CorrectSetCons(os);
    }
  }

  /** A correct option listed twice is counted twice: the count exceeds the key size. */
  lemma {:induction false} RepeatedCorrectExceedsKeySize(os: seq<Option>)
    requires HasRepeatedCorrect(os)
    ensures CountCorrect(os) > |CorrectSet(os)|
  {
    var t := os[1..];
    var i, j :| 0 <= i < j < |os| && os[i] == os[j] && os[i].correct;
    CorrectSetCons(os);
    assert CountCorrect(os) == (if os[0].correct then 1 else 0) + CountCorrect(t);
    if i == 0 {
      assert t[j - 1] == os[0];
      assert os[0] in CorrectSet(t);
      CountAtLeastKeySize(t);
    } else {
      assert t[i - 1] == os[i] && t[j - 1] == os[j];
      assert HasRepeatedCorrect(t);
      RepeatedCorrectExceedsKeySize(t);
    }
  }

  /** `options?.count { it.correct } ?: 0`. */
  function CorrectCount(q: Question): (n: nat)
    ensures q.options.Null? ==> n == 0
    ensures n <= |OptionsOf(q)|
  {
    match q.options
    case Null => 0
    case NonNull(os) => CountCorrect(os)
  }

  /** More than one correct option: rendered as checkboxes and selected by toggling;
      otherwise rendered as radio buttons and selected exclusively. */
  predicate IsMultiSelect(q: Question)
    ensures IsMultiSelect(q) ==> q.options.NonNull? && |q.options.value| >= 2
  {
    CorrectCount(q) > 1
  }

  // ---------------------------------------------------------------------------
  // Selection

  /** The selection after the user picks option `o` of question `q`. */
  function SelectionAfter(selected: seq<Option>, q: Question, o: Option): (r: seq<Option>)
    ensures IsMultiSelect(q) ==> (o in r <==> o !in selected)
    ensures IsMultiSelect(q) ==> forall x :: x != o ==> (x in r <==> x in selected)
    ensures IsMultiSelect(q) && o !in selected ==> r == selected + [o]
    ensures !IsMultiSelect(q) ==> r == [o]
    ensures NoDuplicates(selected) ==> NoDuplicates(r)
  {
    if IsMultiSelect(q) then
      if o in selected then Without(selected, o) else selected + [o]
    else
      [o]
  }

  /** An exclusive pick never adds to an earlier selection. */
  lemma ExclusivePickReplaces(selected: seq<Option>, q: Question, o: Option)
    requires !IsMultiSelect(q)
    ensures Elems(SelectionAfter(selected, q, o)) == {o}
  {
  }

  /** Toggling the same option twice gives back the same set of options. */
  lemma ToggleTwiceRestores(selected: seq<Option>, q: Question, o: Option)
    requires IsMultiSelect(q)
    ensures Elems(SelectionAfter(SelectionAfter(selected, q, o), q, o)) == Elems(selected)
  {
  }

  /** `map { it.text }`: one text per option, in the same order. */
  function Texts(os: seq<Option>): (r: seq<string>)
    ensures |r| == |os|
    ensures forall i :: 0 <= i < |os| ==> r[i] == os[i].text
  {
    seq(|os|, i requires 0 <= i < |os| => os[i].text)
  }

  // ---------------------------------------------------------------------------
  // Local grading of a multiple-choice answer

  /** `selectedOptions.all { it.correct } && selectedOptions.size == question.options?.count { it.correct }`.
      A size compared with a null count is false. */
  predicate IsSelectionCorrect(selected: seq<Option>, q: Question)
    ensures q.options.Null? ==> !IsSelectionCorrect(selected, q)
    ensures IsSelectionCorrect(selected, q) ==> forall o :: o in selected ==> o.correct
    ensures selected == [] ==>
      (IsSelectionCorrect(selected, q) <==> q.options.NonNull? && CorrectCount(q) == 0)
  {
    && (forall o :: o in selected ==> o.correct)
    && q.options.NonNull?
    && |selected| == CountCorrect(q.options.value)
  }

  /** A selection drawn from the options of a question is graded correct exactly
      when the question has an option list, no correct option is listed twice, and
      the selection is the answer key. */
  lemma SelectionCorrectIff(selected: seq<Option>, q: Question)
    requires NoDuplicates(selected)
    requires forall o :: o in selected ==> o in OptionsOf(q)
    ensures q.options.Null? ==> !IsSelectionCorrect(selected, q)
    ensures IsSelectionCorrect(selected, q) <==>
      q.options.NonNull? && !HasRepeatedCorrect(OptionsOf(q)) &&
      Elems(selected) == CorrectSet(OptionsOf(q))
  {
    var os := OptionsOf(q);
    if HasRepeatedCorrect(os) {
      RepeatedCorrectIsUnwinnable(selected, q);
    } else {
      DistinctCardinality(selected);
      CountIsKeySize(os);
      var key := CorrectSet(os);
      if IsSelectionCorrect(selected, q) {
        assert Elems(selected) <= key;
        SubsetOfSameSize(Elems(selected), key);
      }
      if q.options.NonNull? && Elems(selected) == key {
        assert forall o :: o in selected ==> o in Elems(selected);
      }
    }
  }

  lemma SubsetOfSameSize<T>(a: set<T>, b: set<T>)
    requires a <= b && |a| == |b|
    ensures a == b
  {
    var d := b - a;
    assert b == a + d;
    assert a * d == {};
    assert |d| == 0;
  }

  lemma SubsetSize<T>(a: set<T>, b: set<T>)
    requires a <= b
    ensures |a| <= |b|
  {
    assert b == a + (b - a);
  }

  /** A question that lists one correct option twice cannot be answered correctly:
      a selection has no duplicates, so it never reaches the count. */
  lemma RepeatedCorrectIsUnwinnable(selected: seq<Option>, q: Question)
    requires NoDuplicates(selected)
    requires forall o :: o in selected ==> o in OptionsOf(q)
    requires HasRepeatedCorrect(OptionsOf(q))
    ensures !IsSelectionCorrect(selected, q)
  {
    var os := OptionsOf(q);
    RepeatedCorrectExceedsKeySize(os);
    if IsSelectionCorrect(selected, q) {
      DistinctCardinality(selected);
      assert Elems(selected) <= CorrectSet(os);
      SubsetSize(Elems(selected), CorrectSet(os));
      assert false;
    }
  }

  /** `joinToString(sep)`: the elements in order, separated by `sep`. */
  function JoinToString(xs: seq<string>, sep: string): (r: string)
    ensures xs == [] ==> r == ""
    ensures |xs| == 1 ==> r == xs[0]
  {
    if |xs| == 0 then ""
    else if |xs| == 1 then xs[0]
    else xs[0] + sep + JoinToString(xs[1..], sep)
  }

  /** A joined list starts with its first element followed by the separator,
      and ends with its last element. */
  lemma {:induction false} JoinEnds(xs: seq<string>, sep: string)
    requires |xs| > 1
    ensures xs[0] + sep <= JoinToString(xs, sep)
    ensures var last := xs[|xs| - 1]; var r := JoinToString(xs, sep);
      |last| <= |r| && r[|r| - |last|..] == last
  {
    var last := xs[|xs| - 1];
    var rest := JoinToString(xs[1..], sep);
    assert JoinToString(xs, sep) == xs[0] + sep + rest;
    if |xs| > 2 {
      JoinEnds(xs[1..], sep);
    }
    assert |last| <= |rest| && rest[|rest| - |last|..] == last;
    var r := JoinToString(xs, sep);
    assert r[|r| - |last|..] == rest[|rest| - |last|..];
  }

  /** Joining keeps the order: one more element lands after one more separator. */
  lemma {:induction false} JoinAppend(xs: seq<string>, x: string, sep: string)
    requires xs != []
    ensures JoinToString(xs + [x], sep) == JoinToString(xs, sep) + sep + x
  {
    if |xs| > 1 {
      assert (xs + [x])[1..] == xs[1..] + [x];
      JoinAppend(xs[1..], x, sep);
    }
  }

  /** `options?.filter { it.correct }?.joinToString { it.text } ?: ""`. */
  function ExpectedAnswer(q: Question): (r: string)
    ensures q.options.Null? ==> r == ""
    ensures q.options.NonNull? && CountCorrect(q.options.value) == 0 ==> r == ""
  {
    CountIsFilterLength(OptionsOf(q));
    match q.options
    case Null => ""
    case NonNull(os) => JoinToString(Texts(CorrectOptions(os)), JoinSeparator)
  }

  /** `map` commutes with appending one element. */
  lemma TextsAppend(os: seq<Option>, o: Option)
    ensures Texts(os + [o]) == Texts(os) + [o.text]
  {
    var l, r := Texts(os + [o]), Texts(os) + [o.text];
    assert |l| == |r|;
    forall i | 0 <= i < |l|
      ensures l[i] == r[i]
    {
      if i < |os| {
        assert (os + [o])[i] == os[i];
      }
    }
  }

  /** Appending an option appends its text to the correct texts exactly when it is correct. */
  lemma CorrectTextsAppend(os: seq<Option>, o: Option)
    ensures Texts(CorrectOptions(os + [o]))
      == Texts(CorrectOptions(os)) + (if o.correct then [o.text] else [])
    ensures |Texts(CorrectOptions(os))| == CountCorrect(os)
  {
    CountIsFilterLength(os);
    CorrectOptionsAppend(os, [o]);
    assert CorrectOptions([o]) == (if o.correct then [o] else []) by { assert [o][1..] == []; }
    var c := CorrectOptions(os);
    if o.correct {
      TextsAppend(c, o);
    } else {
      assert c + [] == c;
      assert Texts(c) + [] == Texts(c);
    }
  }

  /** The expected answer lists the correct options' texts in list order: a
      further correct option is appended after a comma. */
  lemma ExpectedAnswerInListOrder(q: Question, o: Option)
    requires q.options.NonNull? && CountCorrect(q.options.value) > 0 && o.correct
    ensures ExpectedAnswer(q.(options := NonNull(q.options.value + [o])))
      == ExpectedAnswer(q) + ", " + o.text
  {
    var os := q.options.value;
    var texts := Texts(CorrectOptions(os));
    CorrectTextsAppend(os, o);
    JoinAppend(texts, o.text, JoinSeparator);
  }

  /** The first correct option alone makes up the expected answer, with no separator. */
  lemma ExpectedAnswerFirstCorrect(q: Question, o: Option)
    requires q.options.NonNull? && CountCorrect(q.options.value) == 0 && o.correct
    ensures ExpectedAnswer(q.(options := NonNull(q.options.value + [o]))) == o.text
  {
    var os := q.options.value;
    CorrectTextsAppend(os, o);
    assert Texts(CorrectOptions(os)) == [];
  }

  /** Incorrect options never appear in the expected answer; without any
      correct option the expected answer is empty. */
  lemma ExpectedAnswerSkipsIncorrect(q: Question, o: Option)
    requires q.options.NonNull?
    ensures CountCorrect(q.options.value) == 0 ==> ExpectedAnswer(q) == ""
    ensures !o.correct ==>
      ExpectedAnswer(q.(options := NonNull(q.options.value + [o]))) == ExpectedAnswer(q)
  {
    var os := q.options.value;
    CorrectTextsAppend(os, o);
    if !o.correct {
      assert Texts(CorrectOptions(os)) + [] == Texts(CorrectOptions(os));
    }
  }

  /** The result synthesised for a multiple-choice submit: the joined correct
      texts, the grade of the selection and the fixed feedback. */
  function LocalGrade(selected: seq<Option>, q: Question): (r: GradingResult)
    ensures r.expectedAnswer == ExpectedAnswer(q)
    ensures r.isCorrect <==> IsSelectionCorrect(selected, q)
    ensures r.feedback == ReviewFeedback
  {
    GradingResult(ExpectedAnswer(q), IsSelectionCorrect(selected, q), ReviewFeedback)
  }

  // ---------------------------------------------------------------------------
  // Rendering rules

  datatype Color = Green | Red | Unspecified

  /** Text colour of an option: uncoloured until the answer is shown, then
      green for correct and red for incorrect options. */
  function Highlight(showAnswer: bool, o: Option): (c: Color)
    ensures c == Unspecified <==> !showAnswer
    ensures c == Green <==> showAnswer && o.correct
    ensures c == Red <==> showAnswer && !o.correct
  {
    if showAnswer && o.correct then Green
    else if showAnswer && !o.correct then Red
    else Unspecified
  }

  /** The options of a list that are drawn in green. */
  ghost function GreenOptions(showAnswer: bool, os: seq<Option>): set<Option>
  {
    set o | o in os && Highlight(showAnswer, o) == Green
  }

  /** Before the answer is shown nothing is green; once it is shown, the green
      options are exactly the answer key. */
  lemma GreenOptionsAreKey(showAnswer: bool, os: seq<Option>)
    ensures !showAnswer ==> GreenOptions(showAnswer, os) == {}
    ensures showAnswer ==> GreenOptions(showAnswer, os) == CorrectSet(os)
  {
    assert forall o :: o in GreenOptions(showAnswer, os) <==> o in os && showAnswer && o.correct;
  }

  /** The Submit button is enabled when there is typed text or a selection. */
  predicate SubmitEnabled(userInput: string, selected: seq<Option>)
    ensures SubmitEnabled(userInput, selected) <==> userInput != "" || selected != []
  {
    |userInput| > 0 || |selected| > 0
  }

  /** The free-answer text field is enabled unless the answer is shown or grading is running. */
  predicate InputEnabled(showAnswer: bool, state: GradingResultUiState)
    ensures state.Loading? ==> !InputEnabled(showAnswer, state)
    ensures showAnswer ==> !InputEnabled(showAnswer, state)
  {
    !showAnswer && !state.Loading?
  }

  /** The checkboxes and radio buttons are enabled until the answer is shown. */
  predicate OptionsEnabled(showAnswer: bool)
    ensures OptionsEnabled(showAnswer) <==> !showAnswer
  {
    !showAnswer
  }

  /** "Correct Answer" line of the result screen, with the "N/A" fallback. */
  function ShownCorrectAnswer(a: UserAnswer): (s: string)
    ensures a.correctAnswer.Null? ==> s == NotAvailable
    ensures a.correctAnswer.NonNull? ==> s == a.correctAnswer.value
  {
    match a.correctAnswer
    case Null => NotAvailable
    case NonNull(c) => c
  }

  /** Number of log entries graded correct: the score the result screen is meant to show. */
  function TallyCorrect(log: seq<UserAnswer>): nat
  {
    if log == [] then 0
    else (if log[0].isCorrect then 1 else 0) + TallyCorrect(log[1..])
  }

  /** The tally is positive exactly when some entry is correct. */
  lemma {:induction false} TallyPositiveIff(log: seq<UserAnswer>)
    ensures TallyCorrect(log) > 0 <==> exists i :: 0 <= i < |log| && log[i].isCorrect
  {
    if log != [] {
      TallyPositiveIff(log[1..]);
      if exists i :: 0 <= i < |log[1..]| && log[1..][i].isCorrect {
        var i :| 0 <= i < |log[1..]| && log[1..][i].isCorrect;
        assert log[i + 1].isCorrect;
      }
      if exists i :: 0 <= i < |log| && log[i].isCorrect {
        var i :| 0 <= i < |log| && log[i].isCorrect;
        if i > 0 {
          assert log[1..][i - 1].isCorrect;
        }
      }
    }
  }
}
