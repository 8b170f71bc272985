/** The scoring rules applied at submission: a fold over the question
    sequence and the final responses. */
module Scoring {
  import opened ExamTypes
  import opened ResponseStore

  datatype Outcome = Correct | Incorrect | Unanswered

  /** The four counters the submission computes. */
  datatype ScoreSummary = ScoreSummary(correct: nat, incorrect: nat, unanswered: nat, total: int)

  /** How one question is graded: unanswered when it has no response or no
      selected answer, otherwise correct or incorrect by comparison with the
      correct answer. */
  function Grade(q: Question, m: Responses): Outcome
  {
    if q.id !in m || m[q.id].selectedAnswer.None? then Unanswered
    else if m[q.id].selectedAnswer.value == q.correctAnswer then Correct
    else Incorrect
  }

  /** One step of the submission loop. */
  function Tally(s: ScoreSummary, q: Question, m: Responses): ScoreSummary
  {
    match Grade(q, m)
    case Unanswered => s.(unanswered := s.unanswered + 1)
    case Correct => s.(correct := s.correct + 1, total := s.total + q.marks)
    case Incorrect => s.(incorrect := s.incorrect + 1, total := s.total + q.negativeMarks)
  }

  /** The counters after the loop has visited every question of `qs` in order. */
  function Score(qs: seq<Question>, m: Responses): ScoreSummary
    decreases |qs|
  {
    if qs == [] then ScoreSummary(0, 0, 0, 0)
    else Tally(Score(qs[..|qs| - 1], m), qs[|qs| - 1], m)
  }

  // An independent reading of the rules: which questions are correct,
  // incorrect and unanswered, and what they are worth.

  predicate AnsweredCorrectly(m: Responses, q: Question)
  {
    q.id in m && m[q.id].selectedAnswer == Some(q.correctAnswer)
  }

  predicate AnsweredWrongly(m: Responses, q: Question)
  {
    q.id in m && m[q.id].selectedAnswer.Some? && m[q.id].selectedAnswer != Some(q.correctAnswer)
  }

  predicate LeftBlank(m: Responses, q: Question)
  {
    q.id !in m || m[q.id].selectedAnswer == None
  }

  function SumMarks(qs: seq<Question>): int
  {
    if qs == [] then 0 else qs[0].marks + SumMarks(qs[1..])
  }

  function SumNegativeMarks(qs: seq<Question>): int
  {
    if qs == [] then 0 else qs[0].negativeMarks + SumNegativeMarks(qs[1..])
  }

  lemma {:induction false} SumsAppend(a: seq<Question>, b: seq<Question>)
    ensures SumMarks(a + b) == SumMarks(a) + SumMarks(b)
    ensures SumNegativeMarks(a + b) == SumNegativeMarks(a) + SumNegativeMarks(b)
  {
    if a == [] {
      assert a + b == b;
    } else {
      assert (a + b)[1..] == a[1..] + b;
      SumsAppend(a[1..], b);
    }
  }

  /** The questions answered correctly, wrongly, and left blank, in order. */
  function CorrectOnes(qs: seq<Question>, m: Responses): seq<Question>
  {
    Filter(qs, q => AnsweredCorrectly(m, q))
  }

  function WrongOnes(qs: seq<Question>, m: Responses): seq<Question>
  {
    Filter(qs, q => AnsweredWrongly(m, q))
  }

  function BlankOnes(qs: seq<Question>, m: Responses): seq<Question>
  {
    Filter(qs, q => LeftBlank(m, q))
  }

  /** Appending one question extends each class by that question when it
      belongs to it. */
  lemma ClassesAppendOne(init: seq<Question>, last: Question, m: Responses)
    ensures CorrectOnes(init + [last], m) == CorrectOnes(init, m) + (if AnsweredCorrectly(m, last) then [last] else [])
    ensures WrongOnes(init + [last], m) == WrongOnes(init, m) + (if AnsweredWrongly(m, last) then [last] else [])
    ensures BlankOnes(init + [last], m) == BlankOnes(init, m) + (if LeftBlank(m, last) then [last] else [])
  {
    FilterAppend(init, [last], q => AnsweredCorrectly(m, q));
    FilterAppend(init, [last], q => AnsweredWrongly(m, q));
    FilterAppend(init, [last], q => LeftBlank(m, q));
  }

  /** The fold agrees with the filter-and-sum reading: each counter is the
      number of questions in its class, and the total is the marks of the
      correct ones plus the negative marks of the wrong ones. */
  lemma {:induction false} ScoreMatchesReference(qs: seq<Question>, m: Responses)
    ensures Score(qs, m).correct == |CorrectOnes(qs, m)|
    ensures Score(qs, m).incorrect == |WrongOnes(qs, m)|
    ensures Score(qs, m).unanswered == |BlankOnes(qs, m)|
    ensures Score(qs, m).total == SumMarks(CorrectOnes(qs, m)) + SumNegativeMarks(WrongOnes(qs, m))
  {
    if qs != [] {
      var init, last := qs[..|qs| - 1], qs[|qs| - 1];
      ScoreMatchesReference(init, m);
      assert qs == init + [last];
      ClassesAppendOne(init, last, m);
      SumsAppend(CorrectOnes(init, m), if AnsweredCorrectly(m, last) then [last] else []);
      SumsAppend(WrongOnes(init, m), if AnsweredWrongly(m, last) then [last] else []);
    }
  }

  /** Every question is counted exactly once. */
  lemma {:induction false} ScoreCountsEveryQuestion(qs: seq<Question>, m: Responses)
    ensures Score(qs, m).correct + Score(qs, m).incorrect + Score(qs, m).unanswered == |qs|
  {
    if qs != [] {
      ScoreCountsEveryQuestion(qs[..|qs| - 1], m);
    }
  }

  /** The score reads only the responses of the questions being scored. */
  lemma {:induction false} ScoreIgnoresOtherEntries(qs: seq<Question>, m: Responses, m': Responses)
    requires forall q :: q in qs ==> (q.id in m <==> q.id in m') && (q.id in m ==> m[q.id].selectedAnswer == m'[q.id].selectedAnswer)
    ensures Score(qs, m) == Score(qs, m')
  {
    if qs != [] {
      assert qs[|qs| - 1] in qs;
      assert forall q :: q in qs[..|qs| - 1] ==> q in qs;
      ScoreIgnoresOtherEntries(qs[..|qs| - 1], m, m');
    }
  }

  /** With each question worth at most `cap` marks and no wrong answer adding
      marks, the total never exceeds `cap` times the number of questions. */
  lemma {:induction false} ScoreBounded(qs: seq<Question>, m: Responses, cap: int)
    requires forall q :: q in qs ==> q.marks <= cap && q.negativeMarks <= 0
    requires cap >= 0
    ensures Score(qs, m).total <= cap * |qs|
  {
    if qs != [] {
      assert qs[|qs| - 1] in qs;
      assert forall q :: q in qs[..|qs| - 1] ==> q in qs;
      ScoreBounded(qs[..|qs| - 1], m, cap);
      assert cap * |qs| == cap * (|qs| - 1) + cap;
    }
  }

  /** One correct answer worth 4, one wrong answer costing 1 and one blank
      give a total of 3. */
  lemma OneOfEachScore(physics: Question, chemistry: Question, mathematics: Question, m: Responses)
    requires physics.marks == 4 && chemistry.negativeMarks == -1
    requires AnsweredCorrectly(m, physics) && AnsweredWrongly(m, chemistry) && LeftBlank(m, mathematics)
    ensures Score([physics, chemistry, mathematics], m) == ScoreSummary(1, 1, 1, 3)
  {
    var qs := [physics, chemistry, mathematics];
    assert qs[..2] == [physics, chemistry];
    assert [physics, chemistry][..1] == [physics];
    assert [physics][..0] == [];
    assert Grade(physics, m) == Correct;
    assert Grade(chemistry, m) == Incorrect;
    assert Grade(mathematics, m) == Unanswered;
    assert Score([physics], m) == ScoreSummary(1, 0, 0, 4);
    assert Score([physics, chemistry], m) == ScoreSummary(1, 1, 0, 3);
  }

  /** The attempt record after the submission's update: the score and the
      three counters are overwritten, the identity of the attempt is kept. */
  function RecordSubmission(attempt: TestAttempt, s: ScoreSummary): TestAttempt
  {
    attempt.(score := Some(s.total), correctAnswers := s.correct,
             incorrectAnswers := s.incorrect, unanswered := s.unanswered)
  }

  /** The attempt record once the submission's update has been awaited.
      `updateOk` is whether the store applied it; its error is not looked
      at, so on failure the record stays as it was and the results page is
      shown regardless. */
  function SubmittedAttempt(attempt: TestAttempt, s: ScoreSummary, updateOk: bool): (r: TestAttempt)
    ensures r.id == attempt.id && r.testId == attempt.testId
    ensures updateOk ==> r.score == Some(s.total) && r.correctAnswers == s.correct
                         && r.incorrectAnswers == s.incorrect && r.unanswered == s.unanswered
    ensures !updateOk ==> r == attempt
  {
    if updateOk then RecordSubmission(attempt, s) else attempt
  }
}
