/** The quiz state machine: a reducer from (state, action) to a new state,
    its initial state, and the predicates the quiz screen derives from the
    state. The number of questions `n` (the length of the dataset) is a
    parameter; the shipped quiz uses `|Questions|`, which is 4.
 */
module Quiz {
  import opened QuestionData

  /** The value `direction` takes after moving forward; -1 after moving back. */
  const Forward: int := 1
  const Backward: int := -1

  datatype QuizState = QuizState(
    currentQuestion: int,
    answers: seq<Answer>,
    isComplete: bool,
    direction: int)

  datatype QuizAction =
    | SelectAnswer(questionIndex: int, answerIndex: int)
    | NextQuestion
    | PrevQuestion
    | Submit
    | Reset

  /** The state invariant of a running quiz over `n >= 1` questions: the
      current question is one of them, there is one answer slot per
      question, and `direction` is one of its two values. */
  predicate Valid(n: int, s: QuizState) {
    && n >= 1
    && 0 <= s.currentQuestion < n
    && |s.answers| == n
    && (s.direction == Forward || s.direction == Backward)
  }

  /** `n` unset answers. */
  function NoAnswers(n: nat): (a: seq<Answer>)
    ensures |a| == n
    ensures forall i :: 0 <= i < n ==> a[i] == None
  {
    seq(n, _ => None)
  }

  /** The state the quiz starts in: first question, nothing answered, not
      complete, moving forward. */
  function InitialState(n: nat): (s: QuizState)
    ensures s.currentQuestion == 0 && s.answers == NoAnswers(n)
    ensures !s.isComplete && s.direction == Forward
    ensures n >= 1 ==> Valid(n, s)
  {
    QuizState(0, NoAnswers(n), false, Forward)
  }

  /** What the reducer needs of an action: a selection addresses an existing
      answer slot. (`quizReducer` does not check this; in JavaScript an index
      past the end would grow the copied array.) It is stated against the
      state's own answers because `Reduce` is defined on every state, valid
      or not, and on those the question count need not match `|answers|`. */
  predicate Applicable(s: QuizState, action: QuizAction) {
    action.SelectAnswer? ==> 0 <= action.questionIndex < |s.answers|
  }

  /** `quizReducer`. It changes no more than its action names, never acts on
      an out-of-range move (returning the state as it was), and keeps the
      state invariant. Nothing is blocked once the quiz is complete. */
  function Reduce(n: nat, state: QuizState, action: QuizAction): (r: QuizState)
    requires Applicable(state, action)
    ensures Valid(n, state) ==> Valid(n, r)
    ensures !action.Reset? ==> |r.answers| == |state.answers|
    ensures action.SelectAnswer? || action.Submit? ==> r.currentQuestion == state.currentQuestion
  {
    match action
    case SelectAnswer(q, a) =>
      state.(answers := state.answers[q := Some(a)])
    case NextQuestion =>
      if state.currentQuestion < n - 1 then
        state.(currentQuestion := state.currentQuestion + 1, direction := Forward)
      else
        state
    case PrevQuestion =>
      if state.currentQuestion > 0 then
        state.(currentQuestion := state.currentQuestion - 1, direction := Backward)
      else
        state
    case Submit =>
      state.(isComplete := true)
    case Reset =>
      QuizState(0, seq(n, _ => None), false, Forward)
  }

  /** The state after dispatching `actions` in order, starting from `state`. */
  function Run(n: nat, state: QuizState, actions: seq<QuizAction>): (r: QuizState)
    requires Valid(n, state)
    requires forall i :: 0 <= i < |actions| ==> InQuiz(n, actions[i])
    ensures Valid(n, r)
    decreases |actions|
  {
    if actions == [] then state
    else
      assert InQuiz(n, actions[0]);
      Run(n, Reduce(n, state, actions[0]), actions[1..])
  }

  /** An action whose selection, if any, names one of the `n` questions.
      Unlike `Applicable`, it does not mention a state, so `Run` can demand it
      of a whole list of actions up front; on a `Valid(n, s)` state the two
      agree, since `|s.answers| == n`. */
  predicate InQuiz(n: int, action: QuizAction) {
    action.SelectAnswer? ==> 0 <= action.questionIndex < n
  }

  /** Every state reachable from the initial one keeps the current question
      within bounds and one answer slot per question. */
  lemma ReachableStatesValid(n: nat, actions: seq<QuizAction>)
    requires n >= 1
    requires forall i :: 0 <= i < |actions| ==> InQuiz(n, actions[i])
    ensures 0 <= Run(n, InitialState(n), actions).currentQuestion < n
    ensures |Run(n, InitialState(n), actions).answers| == n
  {
  }

  /** SELECT_ANSWER records answer `a` for question `q` and touches nothing
      else: every other slot, the position, completion and direction stay. */
  lemma SelectAnswerEffect(n: nat, s: QuizState, q: int, a: int)
    requires 0 <= q < |s.answers|
    ensures var r := Reduce(n, s, SelectAnswer(q, a));
      && |r.answers| == |s.answers|
      && r.answers[q] == Some(a)
      && (forall j :: 0 <= j < |s.answers| && j != q ==> r.answers[j] == s.answers[j])
      && r.currentQuestion == s.currentQuestion
      && r.isComplete == s.isComplete
      && r.direction == s.direction
  {
  }

  /** Two selections for the same question: the last one wins, and no trace
      of the first remains. */
  lemma LastSelectionWins(n: nat, s: QuizState, q: int, a: int, b: int)
    requires 0 <= q < |s.answers|
    ensures Reduce(n, Reduce(n, s, SelectAnswer(q, a)), SelectAnswer(q, b))
         == Reduce(n, s, SelectAnswer(q, b))
    ensures Reduce(n, Reduce(n, s, SelectAnswer(q, a)), SelectAnswer(q, b)).answers[q] == Some(b)
  {
  }

  /** NEXT_QUESTION moves one question forward when there is one, and
      otherwise returns the very same state. */
  lemma NextQuestionEffect(n: nat, s: QuizState)
    ensures var r := Reduce(n, s, NextQuestion);
      if s.currentQuestion < n - 1 then
        r == s.(currentQuestion := s.currentQuestion + 1, direction := Forward)
      else
        r == s
  {
  }

  /** PREV_QUESTION moves one question back when there is one, and otherwise
      returns the very same state. */
  lemma PrevQuestionEffect(n: nat, s: QuizState)
    ensures var r := Reduce(n, s, PrevQuestion);
      if s.currentQuestion > 0 then
        r == s.(currentQuestion := s.currentQuestion - 1, direction := Backward)
      else
        r == s
  {
  }

  /** SUBMIT marks the quiz complete and freezes the answers as they are,
      unset slots included. */
  lemma SubmitEffect(n: nat, s: QuizState)
    ensures var r := Reduce(n, s, Submit);
      && r.isComplete
      && r.answers == s.answers
      && r.currentQuestion == s.currentQuestion
      && r.direction == s.direction
  {
  }

  /** RESET from any state, complete or not, yields exactly the initial
      state. */
  lemma ResetReturnsInitialState(n: nat, s: QuizState)
    ensures Reduce(n, s, Reset) == InitialState(n)
  {
  }

  /** The reducer does not stop a completed quiz: a selection after SUBMIT is
      still recorded, and the state stays complete. (Only the screen, which
      shows the result instead of the questions, keeps users out.) */
  lemma CompletedQuizStillAcceptsSelections(n: nat, s: QuizState, q: int, a: int)
    requires s.isComplete
    requires 0 <= q < |s.answers|
    ensures Reduce(n, s, SelectAnswer(q, a)).isComplete
    ensures Reduce(n, s, SelectAnswer(q, a)).answers[q] == Some(a)
  {
  }

  /** `answeredSteps`: one flag per question, set exactly when that question
      has an answer. */
  function AnsweredSteps(s: QuizState): (steps: seq<bool>)
    ensures |steps| == |s.answers|
    ensures forall i :: 0 <= i < |steps| ==> (steps[i] <==> s.answers[i].Some?)
  {
    seq(|s.answers|, i requires 0 <= i < |s.answers| => s.answers[i] != None)
  }

  /** Selecting an answer sets the progress flag of that question and leaves
      every other flag as it was. */
  lemma AnsweredStepsAfterSelect(n: nat, s: QuizState, q: int, a: int)
    requires 0 <= q < |s.answers|
    ensures var steps := AnsweredSteps(Reduce(n, s, SelectAnswer(q, a)));
      && |steps| == |s.answers|
      && steps[q]
      && (forall j :: 0 <= j < |s.answers| && j != q ==> steps[j] == AnsweredSteps(s)[j])
  {
  }

  /** The initial state shows no question as answered. */
  lemma NothingAnsweredInitially(n: nat)
    ensures forall i :: 0 <= i < n ==> !AnsweredSteps(InitialState(n))[i]
  {
  }

  /** `canGoPrevious`, which enables the Previous button: it holds exactly
      when PREV_QUESTION would move, one question back. (That arm does not
      read the question count, so any count will do in the contract.) */
  function CanGoPrevious(s: QuizState): (b: bool)
    ensures b <==> Reduce(|s.answers|, s, PrevQuestion) != s
    ensures b ==> Reduce(|s.answers|, s, PrevQuestion).currentQuestion == s.currentQuestion - 1
  {
    s.currentQuestion > 0
  }

  /** `canGoNext`, which enables the Next button: it holds exactly when
      NEXT_QUESTION would move, one question forward. */
  function CanGoNext(n: nat, s: QuizState): (b: bool)
    ensures b <==> Reduce(n, s, NextQuestion) != s
    ensures b ==> Reduce(n, s, NextQuestion).currentQuestion == s.currentQuestion + 1
  {
    s.currentQuestion < n - 1
  }

  /** `isLastQuestion`, which swaps Next for Submit: within bounds it holds
      exactly where one cannot go on. */
  function IsLastQuestion(n: nat, s: QuizState): (b: bool)
    ensures 0 <= s.currentQuestion < n ==> (b <==> !CanGoNext(n, s))
  {
    s.currentQuestion == n - 1
  }

  /** `selectedAnswer`: the answer recorded for the question on screen. */
  function SelectedAnswer(s: QuizState): (a: Answer)
    requires 0 <= s.currentQuestion < |s.answers|
    ensures a.Some? <==> AnsweredSteps(s)[s.currentQuestion]
  {
    s.answers[s.currentQuestion]
  }

  /** A click on an option selects it for the question on screen; such an
      action is always applicable to a valid state, and afterwards the screen
      shows that option as selected. */
  lemma SelectOnScreen(n: nat, s: QuizState, a: int)
    requires Valid(n, s)
    ensures InQuiz(n, SelectAnswer(s.currentQuestion, a))
    ensures SelectedAnswer(Reduce(n, s, SelectAnswer(s.currentQuestion, a))) == Some(a)
  {
  }

  /** Answers chosen among a question's options stay among them, whatever
      sequence of actions is dispatched. */
  predicate AnswersWithinOptions(qs: seq<Question>, s: QuizState)
    requires |s.answers| <= |qs|
  {
    forall i :: 0 <= i < |s.answers| && s.answers[i].Some? ==>
      0 <= s.answers[i].value < |qs[i].options|
  }

  predicate OptionOfQuestion(qs: seq<Question>, action: QuizAction) {
    action.SelectAnswer? ==>
      0 <= action.questionIndex < |qs| && 0 <= action.answerIndex < |qs[action.questionIndex].options|
  }

  lemma {:induction false} RunKeepsAnswersWithinOptions(qs: seq<Question>, s: QuizState, actions: seq<QuizAction>)
    requires Valid(|qs|, s)
    requires AnswersWithinOptions(qs, s)
    requires forall i :: 0 <= i < |actions| ==> OptionOfQuestion(qs, actions[i])
    ensures forall i :: 0 <= i < |actions| ==> InQuiz(|qs|, actions[i])
    ensures AnswersWithinOptions(qs, Run(|qs|, s, actions))
    decreases |actions|
  {
    assert forall i :: 0 <= i < |actions| ==> InQuiz(|qs|, actions[i]);
    if actions != [] {
      var next := Reduce(|qs|, s, actions[0]);
      assert AnswersWithinOptions(qs, next);
      assert forall i :: 0 <= i < |actions[1..]| ==> OptionOfQuestion(qs, actions[1..][i]) by {
        forall i | 0 <= i < |actions[1..]| ensures OptionOfQuestion(qs, actions[1..][i]) {
          assert actions[1..][i] == actions[i + 1];
        }
      }
      RunKeepsAnswersWithinOptions(qs, next, actions[1..]);
    }
  }

  /** The call `calculateScore(state.answers, questions)` made on every
      render: on any state the shipped quiz can reach it meets `Score`'s
      precondition (one answer per question). This is the call-site witness
      for that precondition; the bound on the score is `Score`'s own. */
  lemma ShippedQuizScoreDefined(actions: seq<QuizAction>)
    requires forall i :: 0 <= i < |actions| ==> InQuiz(|Questions|, actions[i])
    ensures |Run(|Questions|, InitialState(|Questions|), actions).answers| == |Questions|
    ensures Score(Run(|Questions|, InitialState(|Questions|), actions).answers, Questions) <= 100
  {
  }
}
