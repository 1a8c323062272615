# Quiz engine model

A Dafny model of the engine behind a small multiple-choice quiz widget. The
engine has two parts:

- `quizReducer`, a reducer-style state machine. Its state holds the current
  question, one answer slot per question (unset or an option index), a
  completion flag and a direction hint for the slide animation. It handles
  five actions: select an answer, next question, previous question, submit
  and reset.
- `calculateScore`, which turns the recorded answers into a whole-number
  percentage. It uses the static question dataset.

Both parts are pure, so the model is made of datatypes, functions and lemmas:

- `questions.dfy` (module `QuestionData`). The `Question` record, the
  shipped four-question dataset, the fold that counts correct answers, the
  half-up rounding of `Math.round`, and `Score`.
- `quiz.dfy` (module `Quiz`). `QuizState`, `QuizAction`, the reducer
  `Reduce`, `InitialState`, `Run` (a sequence of dispatched actions), and the
  values the quiz screen derives from the state: `answeredSteps`,
  `selectedAnswer`, `canGoPrevious`, `canGoNext` and `isLastQuestion`.

The reducer reads the global `questions.length`. Here it is a parameter `n`.
The shipped quiz uses `n == |Questions| == 4`.

Two facts about the code shape the model:

- `quizReducer` does not guard on `isComplete`: every action is still applied
  after `SUBMIT`. `CompletedQuizStillAcceptsSelections` states this. Only the
  screen (src/components/quiz/Quiz.tsx:132-134) keeps users out, because it
  shows the result screen instead of the questions once `isComplete` holds.
- The code does not validate the dataset and has no error type for it.
  Well-formedness is a predicate, `WellFormedDataset`, proved of the constant
  by `QuestionsWellFormed`.

## Model

| member | source | states |
|---|---|---|
| `QuestionData.Questions` | src/data/questions.ts:20-45 | the four shipped questions, with their ids, texts, options and correct index 1, copied as a constant |
| `QuestionData.QuestionsWellFormed` | src/data/questions.ts:20-45 | the shipped dataset is non-empty; every question has at least two options; each correct index names one of them; ids are pairwise distinct |
| `QuestionData.CorrectCount` | src/data/questions.ts:59-62 | the fold over the answers (its callback is `Tally`, lines 60-61) never counts more than the number of answers |
| `QuestionData.CorrectCountIsCorrectIndices` | src/data/questions.ts:59-62 | the fold equals the number of indices whose answer is set and equal to that question's correct answer |
| `QuestionData.RoundPercent` | src/data/questions.ts:64 | the result is the integer nearest to 100·c/n with halves rounded up, i.e. floor(x + 1/2) as `Math.round` does for x >= 0; it is at most 100 when c <= n |
| `QuestionData.Score` | src/data/questions.ts:53-65 | 0 for an empty dataset, whatever the answers; otherwise the nearest integer to 100 · (number of correct indices) / (number of questions), halves up; always in [0, 100] |
| `QuestionData.ScoreEmptyDataset` | src/data/questions.ts:57 | an empty dataset scores 0 for any list of answers, including a non-empty one |
| `QuestionData.AllCorrectCount` | src/data/questions.ts:59-62 | when every answer is correct, the count equals the number of answers |
| `QuestionData.ScoreAllCorrect` | src/data/questions.ts:57-64 | a full list of correct answers on a non-empty dataset scores 100 |
| `QuestionData.NoneCorrectCount` | src/data/questions.ts:59-62 | when every answer is null or wrong, the count is 0 |
| `QuestionData.ScoreNoneCorrect` | src/data/questions.ts:57-64 | all-null or all-wrong answers score 0 |
| `QuestionData.UnansweredCountsAsWrong` | src/data/questions.ts:59-64 | appending a null answer leaves the score unchanged |
| `QuestionData.CorrectCountAfterCorrection` | src/data/questions.ts:59-62 | correcting one answer adds one to the count if it was null or wrong, and nothing if it was already correct |
| `QuestionData.RoundPercentMonotone` | src/data/questions.ts:64 | more correct answers never give a lower rounded percentage |
| `QuestionData.ScoreMonotoneUnderCorrection` | src/data/questions.ts:59-64 | changing one null or wrong answer to the correct one never lowers the score |
| `QuestionData.RoundsHalfUp` | src/data/questions.ts:64 | 3/8 rounds to 38 and 1/8 rounds to 13, so halves go up rather than to even |
| `QuestionData.ShippedDatasetScores` | src/data/questions.ts:20-65 | on the shipped dataset `[1,null,0,1]` scores 50, `[1,1,1,0]` scores 75, `[1,1,1,1]` scores 100, a single correct answer scores 25, and `[1,1,1,null]` scores 75 (not 100), so the denominator is the number of questions rather than the number answered; an empty dataset scores 0, also against `[1,null]` |
| `Quiz.NoAnswers` | src/components/quiz/Quiz.tsx:75 | `new Array(n).fill(null)`: n slots, all unset |
| `Quiz.InitialState` | src/components/quiz/Quiz.tsx:73-78 | the initial state is at question 0, with no answers, not complete and moving forward; it satisfies the state invariant when n >= 1 |
| `Quiz.Reduce` | src/components/quiz/Quiz.tsx:30-71 | the reducer keeps the state invariant (current question in range, one slot per question, direction is 1 or -1); only RESET can change the number of slots; SELECT_ANSWER and SUBMIT never move the current question |
| `Quiz.Run` | src/components/quiz/Quiz.tsx:30-78 | any sequence of in-range actions from a valid state ends in a valid state |
| `Quiz.ReachableStatesValid` | src/components/quiz/Quiz.tsx:30-78 | from the initial state, after any actions whose selections are in range, `0 <= currentQuestion < n` and there are n answer slots |
| `Quiz.SelectAnswerEffect` | src/components/quiz/Quiz.tsx:32-35 | SELECT_ANSWER(q, a) sets slot q to a; every other slot, the current question, completion and direction are unchanged |
| `Quiz.LastSelectionWins` | src/components/quiz/Quiz.tsx:32-35 | two selections for one question equal the second one alone, so no history is kept |
| `Quiz.NextQuestionEffect` | src/components/quiz/Quiz.tsx:37-45 | NEXT_QUESTION advances by one and sets direction 1 when currentQuestion < n-1; otherwise it returns the identical state |
| `Quiz.PrevQuestionEffect` | src/components/quiz/Quiz.tsx:47-55 | PREV_QUESTION goes back one and sets direction -1 when currentQuestion > 0; otherwise it returns the identical state |
| `Quiz.SubmitEffect` | src/components/quiz/Quiz.tsx:57-58 | SUBMIT sets isComplete; the answers, unset slots included, the current question and the direction are unchanged |
| `Quiz.ResetReturnsInitialState` | src/components/quiz/Quiz.tsx:60-66 | RESET from any state yields exactly the initial state |
| `Quiz.CompletedQuizStillAcceptsSelections` | src/components/quiz/Quiz.tsx:30-35 | a completed quiz still records a selection and stays complete: the reducer does not guard on isComplete |
| `Quiz.AnsweredSteps` | src/components/quiz/Quiz.tsx:101 | one flag per answer slot, true exactly when that slot is set |
| `Quiz.AnsweredStepsAfterSelect` | src/components/quiz/Quiz.tsx:32-35 | after selecting for question q, flag q is set and every other flag is unchanged |
| `Quiz.NothingAnsweredInitially` | src/components/quiz/Quiz.tsx:73-78 | the initial state shows no question as answered |
| `Quiz.CanGoPrevious` | src/components/quiz/Quiz.tsx:168 | `canGoPrevious` holds exactly when PREV_QUESTION would change the state, and then it moves back by one |
| `Quiz.CanGoNext` | src/components/quiz/Quiz.tsx:169 | `canGoNext` holds exactly when NEXT_QUESTION would change the state, and then it moves forward by one |
| `Quiz.IsLastQuestion` | src/components/quiz/Quiz.tsx:170 | within bounds, `isLastQuestion` holds exactly when `canGoNext` does not |
| `Quiz.SelectedAnswer` | src/components/quiz/Quiz.tsx:98 | the answer shown for the current question is set exactly when that question's answered flag is set |
| `Quiz.SelectOnScreen` | src/components/quiz/Quiz.tsx:104-110 | a click selects for the current question, which is always an in-range action, and afterwards the selected answer shown is the clicked option |
| `Quiz.RunKeepsAnswersWithinOptions` | src/components/quiz/QuestionCard.tsx:87 | if every selection names an option of its question, every recorded answer stays an option index of its question after any sequence of actions |
| `Quiz.ShippedQuizScoreDefined` | src/components/quiz/Quiz.tsx:129 | the call-site witness for `Score`'s precondition: on any state the shipped quiz reaches there is one answer per question, so the call is defined (its bound of 100 is `Score`'s own) |

## Left out

- Rendering is not modelled: the `Quiz` component's markup, the result screen, question card, navigation controls, progress bar, layout, header and page. They hold no engine logic beyond the derived values above.
- React plumbing is not modelled: `useReducer`, `useCallback` and the result screen's effects. The reducer is a pure function here, and `Run` stands for the dispatch loop.
- The result screen's count-up animation is not modelled, because it is floating-point animation.
- RoundPercent: computes `Math.round(correct / total * 100)` on exact rationals. With IEEE-754 doubles the quotient can land just below or above a half-point. At such inputs `calculateScore`'s result may differ by one.
- Reduce: requires a SELECT_ANSWER index to address an existing slot. In JavaScript `quizReducer` would grow the copied array for a larger index, and add a property instead of an element for a negative one. The screen only dispatches the current question, which `SelectOnScreen` shows is in range.
- Reduce: the `default` branch of `quizReducer`'s switch, which returns the state, is not modelled. The action type has exactly five variants, so that branch cannot be reached.
- Score: on a non-empty dataset, requires no more answers than questions. `calculateScore` throws only when a set answer sits past the end of a non-empty dataset, since it then reads `questions[index].correctAnswer` of `undefined`. Trailing null answers past the end are skipped before that read and would leave the score as it is; the model does not admit them.
- Dataset validation at load time is not modelled, because the code has none.
- The question text and option strings do not take part in any property. They are kept only to match the dataset.
