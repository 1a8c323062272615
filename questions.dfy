/** The question dataset and the scoring function of the quiz.

    A recorded answer is either unset (`null` in the answer array) or the index of
    the selected option. The score is the share of questions answered
    correctly, as a whole percentage rounded half-up, and it is computed with
    exact integer arithmetic.
 */
module QuestionData {

  datatype Option<T> = None | Some(value: T)

  /** One slot of the answer list: `None` for an unanswered question. */
  type Answer = Option<int>

  datatype Question = Question(id: int, question: string, options: seq<string>, correctAnswer: int)

  /** The shipped dataset: four questions whose correct option is always index 1. */
  const Questions: seq<Question> := [
    Question(1, "What sound does a cat make?", ["Bhau-Bhau", "Meow-Meow", "Oink-Oink"], 1),
    Question(2, "What would you probably find in your fridge?", ["Shoes", "Ice Cream", "Books"], 1),
    Question(3, "What color are bananas?", ["Blue", "Yellow", "Red"], 1),
    Question(4, "How many stars are in the sky?", ["Two", "Infinite", "One Hundred"], 1)
  ]

  /** What the rest of the quiz assumes of a dataset: it is non-empty, every
      question offers at least two options, the correct option is one of
      them, and no two questions share an id. */
  predicate WellFormedDataset(qs: seq<Question>) {
    && |qs| > 0
    && (forall i :: 0 <= i < |qs| ==> |qs[i].options| >= 2)
    && (forall i :: 0 <= i < |qs| ==> 0 <= qs[i].correctAnswer < |qs[i].options|)
    && (forall i, j :: 0 <= i < j < |qs| ==> qs[i].id != qs[j].id)
  }

  lemma QuestionsWellFormed()
    ensures WellFormedDataset(Questions)
  {
  }

  /** An answer counts as correct when it is set and equals the correct option. */
  predicate IsCorrect(a: Answer, q: Question) {
    a == Some(q.correctAnswer)
  }

  /** The callback of the fold: a null answer leaves the count alone, a set
      answer adds one when it matches the correct option. Each step adds at
      most one, which bounds the fold. */
  function Tally(count: nat, answer: Answer, q: Question): (c: nat)
    ensures count <= c <= count + 1
  {
    match answer
    case None => count
    case Some(a) => count + (if a == q.correctAnswer then 1 else 0)
  }

  /** The number of correct answers, as the left fold over `answers` that
      starts from 0. Answer `i` is checked against question `i`. */
  function CorrectCount(answers: seq<Answer>, qs: seq<Question>): (c: nat)
    requires |answers| <= |qs|
    ensures c <= |answers|
    decreases |answers|
  {
    if answers == [] then 0
    else
      var k := |answers| - 1;
      Tally(CorrectCount(answers[..k], qs), answers[k], qs[k])
  }

  /** Reference definition of what is counted: the indices whose answer is
      set and correct. */
  ghost function CorrectIndices(answers: seq<Answer>, qs: seq<Question>): set<int>
    requires |answers| <= |qs|
  {
    set i | 0 <= i < |answers| && IsCorrect(answers[i], qs[i])
  }

  /** The fold counts exactly the correct indices; null answers add nothing. */
  lemma {:induction false} CorrectCountIsCorrectIndices(answers: seq<Answer>, qs: seq<Question>)
    requires |answers| <= |qs|
    ensures CorrectCount(answers, qs) == |CorrectIndices(answers, qs)|
    decreases |answers|
  {
    if answers == [] {
      assert CorrectIndices(answers, qs) == {};
    } else {
      var k := |answers| - 1;
      var prefix := answers[..k];
      CorrectCountIsCorrectIndices(prefix, qs);
      var before := CorrectIndices(prefix, qs);
      var here: set<int> := if IsCorrect(answers[k], qs[k]) then {k} else {};
      assert CorrectIndices(answers, qs) == before + here by {
        forall i | 0 <= i < k ensures answers[i] == prefix[i] { }
      }
      assert k !in before;
    }
  }

  /** `Math.round(correct / total * 100)` on exact rationals: `Math.round`
      of a non-negative value x is floor(x + 1/2). The result is the integer
      nearest to 100 * correct / total, halves rounded up. */
  function RoundPercent(correct: nat, total: nat): (r: nat)
    requires total > 0
    ensures 200 * correct - total < 2 * total * r <= 200 * correct + total
    ensures correct <= total ==> r <= 100
  {
    var x := 200 * correct + total;
    var d := 2 * total;
    var r := x / d;
    assert d * r <= x < d * r + d;
    NearestAtMostHundred(correct, total, r);
    r
  }

  lemma NearestAtMostHundred(correct: nat, total: nat, r: nat)
    requires total > 0
    requires 2 * total * r <= 200 * correct + total
    ensures correct <= total ==> r <= 100
  {
    if correct <= total && r > 100 {
      MulAtLeast(2 * total, r, 101);
    }
  }

  lemma MulAtLeast(d: nat, r: nat, m: nat)
    requires r >= m
    ensures d * r >= d * m
  {
  }

  /** `calculateScore`: 0 for an empty dataset, whatever the answers,
      otherwise the rounded percentage of correct answers out of ALL
      questions, so an unanswered question lowers the score. On a non-empty
      dataset `answers` may not be longer than the dataset (`calculateScore`
      would read `questions[index].correctAnswer` past the end and throw for
      a set answer there). */
  function Score(answers: seq<Answer>, qs: seq<Question>): (r: nat)
    requires |qs| == 0 || |answers| <= |qs|
    ensures r <= 100
    ensures |qs| == 0 ==> r == 0
    ensures |qs| > 0 ==> 200 * |CorrectIndices(answers, qs)| - |qs| < 2 * |qs| * r <= 200 * |CorrectIndices(answers, qs)| + |qs|
  {
    if |qs| == 0 then 0
    else
      CorrectCountIsCorrectIndices(answers, qs);
      RoundPercent(CorrectCount(answers, qs), |qs|)
  }

  /** An empty dataset scores 0 for any list of answers: `calculateScore`
      returns before it looks at them. */
  lemma ScoreEmptyDataset(answers: seq<Answer>)
    ensures Score(answers, []) == 0
  {
  }

  /** Every answer correct on a non-empty dataset scores 100. */
  lemma {:induction false} AllCorrectCount(answers: seq<Answer>, qs: seq<Question>)
    requires |answers| <= |qs|
    requires forall i :: 0 <= i < |answers| ==> IsCorrect(answers[i], qs[i])
    ensures CorrectCount(answers, qs) == |answers|
    decreases |answers|
  {
    if answers != [] {
      AllCorrectCount(answers[..|answers| - 1], qs);
    }
  }

  lemma ScoreAllCorrect(answers: seq<Answer>, qs: seq<Question>)
    requires |answers| == |qs| > 0
    requires forall i :: 0 <= i < |answers| ==> IsCorrect(answers[i], qs[i])
    ensures Score(answers, qs) == 100
  {
    AllCorrectCount(answers, qs);
    var n := |qs|;
    var r := RoundPercent(n, n);
    if r < 100 {
      MulAtLeast(2 * n, 99, r);
      assert false;
    }
  }

  /** No answer correct (each one null or wrong) scores 0. */
  lemma {:induction false} NoneCorrectCount(answers: seq<Answer>, qs: seq<Question>)
    requires |answers| <= |qs|
    requires forall i :: 0 <= i < |answers| ==> !IsCorrect(answers[i], qs[i])
    ensures CorrectCount(answers, qs) == 0
    decreases |answers|
  {
    if answers != [] {
      NoneCorrectCount(answers[..|answers| - 1], qs);
    }
  }

  lemma ScoreNoneCorrect(answers: seq<Answer>, qs: seq<Question>)
    requires |answers| <= |qs|
    requires forall i :: 0 <= i < |answers| ==> !IsCorrect(answers[i], qs[i])
    ensures Score(answers, qs) == 0
  {
    NoneCorrectCount(answers, qs);
    if |qs| > 0 {
      var r := RoundPercent(0, |qs|);
      if r > 0 {
        MulAtLeast(2 * |qs|, r, 1);
        assert false;
      }
    }
  }

  /** A null answer adds nothing: appending one never changes the score.
      (That the denominator is the number of questions, not the number
      answered, is the `[1,1,1,null]` case of `ShippedDatasetScores`.) */
  lemma UnansweredCountsAsWrong(answers: seq<Answer>, qs: seq<Question>)
    requires |answers| < |qs|
    ensures Score(answers + [None], qs) == Score(answers, qs)
  {
    assert (answers + [None])[..|answers|] == answers;
  }

  /** Correcting answer `i` adds exactly one to the count when it was null or
      wrong, and nothing when it was already correct. */
  lemma CorrectCountAfterCorrection(answers: seq<Answer>, qs: seq<Question>, i: int)
    requires |answers| <= |qs|
    requires 0 <= i < |answers|
    ensures CorrectCount(answers[i := Some(qs[i].correctAnswer)], qs)
         == CorrectCount(answers, qs) + (if IsCorrect(answers[i], qs[i]) then 0 else 1)
  {
    var fixed := answers[i := Some(qs[i].correctAnswer)];
    CorrectCountIsCorrectIndices(answers, qs);
    CorrectCountIsCorrectIndices(fixed, qs);
    var before := CorrectIndices(answers, qs);
    if IsCorrect(answers[i], qs[i]) {
      assert CorrectIndices(fixed, qs) == before;
    } else {
      assert CorrectIndices(fixed, qs) == before + {i};
    }
  }

  lemma RoundPercentMonotone(c1: nat, c2: nat, total: nat)
    requires total > 0
    requires c1 <= c2
    ensures RoundPercent(c1, total) <= RoundPercent(c2, total)
  {
    var r1, r2 := RoundPercent(c1, total), RoundPercent(c2, total);
    if r1 > r2 {
      MulAtLeast(2 * total, r1, r2 + 1);
      assert false;
    }
  }

  /** Changing one null or incorrect answer to the correct one never lowers
      the score. */
  lemma ScoreMonotoneUnderCorrection(answers: seq<Answer>, qs: seq<Question>, i: int)
    requires |answers| <= |qs|
    requires 0 <= i < |answers|
    ensures Score(answers[i := Some(qs[i].correctAnswer)], qs) >= Score(answers, qs)
  {
    CorrectCountAfterCorrection(answers, qs, i);
    RoundPercentMonotone(CorrectCount(answers, qs), CorrectCount(answers[i := Some(qs[i].correctAnswer)], qs), |qs|);
  }

  /** Rounding is half-up: 3/8 is 37.5% and becomes 38, 1/8 is 12.5% and
      becomes 13 (half-to-even would give 12). */
  lemma RoundsHalfUp()
    ensures RoundPercent(3, 8) == 38
    ensures RoundPercent(1, 8) == 13
  {
  }

  /** Concrete scores against the shipped dataset. */
  lemma ShippedDatasetScores()
    ensures Score([Some(1), None, Some(0), Some(1)], Questions) == 50
    ensures Score([Some(1), Some(1), Some(1), Some(0)], Questions) == 75
    ensures Score([Some(1), Some(1), Some(1), Some(1)], Questions) == 100
    ensures Score([Some(1)], Questions) == 25
    ensures Score([Some(1), Some(1), Some(1), None], Questions) == 75
    ensures Score([], []) == 0
    ensures Score([Some(1), None], []) == 0
  {
    var half := [Some(1), None, Some(0), Some(1)];
    assert half[..3] == [Some(1), None, Some(0)];
    assert half[..3][..2] == [Some(1), None];
    assert half[..3][..2][..1] == [Some(1)];
    assert CorrectCount(half[..3][..2], Questions) == 1;
    assert CorrectCount(half, Questions) == 2;
    var threeOfFour := [Some(1), Some(1), Some(1), Some(0)];
    assert threeOfFour[..3][..2][..1] == [Some(1)];
    assert CorrectCount(threeOfFour, Questions) == 3;
    AllCorrectCount([Some(1), Some(1), Some(1), Some(1)], Questions);
    var oneUnanswered := [Some(1), Some(1), Some(1), None];
    assert oneUnanswered[..3] == [Some(1), Some(1), Some(1)];
    assert oneUnanswered[..3][..2] == [Some(1), Some(1)];
    assert oneUnanswered[..3][..2][..1] == [Some(1)];
    assert CorrectCount(oneUnanswered[..3], Questions) == 3;
    assert CorrectCount(oneUnanswered, Questions) == 3;
  }
}
