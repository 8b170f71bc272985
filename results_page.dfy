/** The results page: the figures it derives from the submitted attempt
    record and the subject-wise analysis it derives from the stored
    responses joined with their questions. */
module ResultsPage {
  import opened ExamTypes
  import opened ResponseStore
  import opened Scoring

  /** Number of questions of the attempt, from its three counters. */
  function TotalQuestions(a: TestAttempt): nat
  {
    a.correctAnswers + a.incorrectAnswers + a.unanswered
  }

  /** The "out of" figure: four marks per question, whatever each
      question's own marks are. */
  function MaxMarks(a: TestAttempt): nat
  {
    TotalQuestions(a) * 4
  }

  /** The score shown: the recorded score, or 0 when none is recorded. */
  function DisplayedScore(a: TestAttempt): int
  {
    if a.score.Some? then a.score.value else 0
  }

  /** After a submission whose update landed, the page counts exactly the
      exam's questions and shows the submitted total; after one whose update
      failed, it shows the attempt's figures as they were before, whatever
      the responses. */
  lemma SubmissionFigures(a: TestAttempt, qs: seq<Question>, m: Responses, updateOk: bool)
    ensures updateOk ==> TotalQuestions(SubmittedAttempt(a, Score(qs, m), updateOk)) == |qs|
    ensures updateOk ==> DisplayedScore(SubmittedAttempt(a, Score(qs, m), updateOk)) == Score(qs, m).total
    ensures !updateOk ==> TotalQuestions(SubmittedAttempt(a, Score(qs, m), updateOk)) == TotalQuestions(a)
    ensures !updateOk ==> DisplayedScore(SubmittedAttempt(a, Score(qs, m), updateOk)) == DisplayedScore(a)
  {
    ScoreCountsEveryQuestion(qs, m);
  }

  /** A failed update on an attempt whose counters are still zero and which
      has no score: the page shows a score of 0 out of 0 marks and an
      accuracy of 0, however the exam went. */
  lemma FailedUpdateShowsEmptyResult(a: TestAttempt, qs: seq<Question>, m: Responses)
    requires a.score.None? && a.correctAnswers == 0 && a.incorrectAnswers == 0 && a.unanswered == 0
    ensures var shown := SubmittedAttempt(a, Score(qs, m), false);
            DisplayedScore(shown) == 0 && MaxMarks(shown) == 0 && AccuracyAsWritten(shown) == LiteralZero
  {
  }

  /** Once the submission's update has landed, and when no question is
      worth more than four marks and no wrong answer adds marks, the score
      shown never exceeds the "out of" figure. */
  lemma ScoreWithinMaxMarks(a: TestAttempt, qs: seq<Question>, m: Responses)
    requires forall q :: q in qs ==> q.marks <= 4 && q.negativeMarks <= 0
    ensures DisplayedScore(SubmittedAttempt(a, Score(qs, m), true)) <= MaxMarks(SubmittedAttempt(a, Score(qs, m), true))
  {
    SubmissionFigures(a, qs, m, true);
    ScoreBounded(qs, m, 4);
  }

  // Accuracy.

  /** What the accuracy card shows: the literal 0, a percentage, or the
      text of a division of zero by zero. */
  datatype AccuracyText = LiteralZero | Percent(value: real) | NotANumber

  /** Accuracy as the page computes it: guarded on the number of questions
      but dividing by the number of answered questions. */
  function AccuracyAsWritten(a: TestAttempt): (r: AccuracyText)
    ensures r == NotANumber <==> TotalQuestions(a) > 0 && a.correctAnswers + a.incorrectAnswers == 0
    ensures r == LiteralZero <==> TotalQuestions(a) == 0
  {
    if TotalQuestions(a) > 0 then
      if a.correctAnswers + a.incorrectAnswers == 0 then NotANumber
      else Percent(a.correctAnswers as real / (a.correctAnswers + a.incorrectAnswers) as real * 100.0)
    else LiteralZero
  }

  /** An attempt whose only question was left blank shows NaN as its
      accuracy. */
  lemma AllUnansweredShowsNaN(a: TestAttempt)
    requires a.correctAnswers == 0 && a.incorrectAnswers == 0 && a.unanswered == 1
    ensures AccuracyAsWritten(a) == NotANumber
  {
  }

  /** Accuracy guarded on the quantity it divides by: 0 when nothing was
      answered, otherwise the share of answered questions that are correct. */
  function Accuracy(a: TestAttempt): (r: AccuracyText)
    ensures r != NotANumber
    ensures r == LiteralZero <==> a.correctAnswers + a.incorrectAnswers == 0
    ensures r.Percent? ==> 0.0 <= r.value <= 100.0
    ensures r.Percent? ==> r.value * (a.correctAnswers + a.incorrectAnswers) as real == a.correctAnswers as real * 100.0
  {
    var answered := a.correctAnswers + a.incorrectAnswers;
    if answered == 0 then LiteralZero
    else
      var share := a.correctAnswers as real / answered as real;
      assert share <= 1.0 by {
        assert a.correctAnswers as real <= answered as real;
      }
      Percent(share * 100.0)
  }

  /** The corrected accuracy differs from the page's only where the page
      shows NaN. */
  lemma AccuracyAgreesWhereDefined(a: TestAttempt)
    ensures AccuracyAsWritten(a) != NotANumber ==> Accuracy(a) == AccuracyAsWritten(a)
    ensures AccuracyAsWritten(a) == NotANumber ==> Accuracy(a) == LiteralZero
  {
  }

  // Subject-wise analysis.

  /** A stored response together with the question it answers. */
  datatype ResultRow = ResultRow(response: TestResponse, question: Question)

  /** The rows of one subject, in their stored order. */
  function SubjectRows(rows: seq<ResultRow>, s: Subject): seq<ResultRow>
  {
    Filter(rows, (r: ResultRow) => r.question.subject == s)
  }

  /** The three subject analyses lose and duplicate no row. */
  lemma {:induction false} SubjectRowsPartition(rows: seq<ResultRow>)
    ensures multiset(SubjectRows(rows, Physics)) + multiset(SubjectRows(rows, Chemistry))
            + multiset(SubjectRows(rows, Mathematics)) == multiset(rows)
    ensures |SubjectRows(rows, Physics)| + |SubjectRows(rows, Chemistry)| + |SubjectRows(rows, Mathematics)| == |rows|
  {
    if rows != [] {
      SubjectRowsPartition(rows[1..]);
      assert rows == [rows[0]] + rows[1..];
    }
  }

  predicate IsCorrectRow(r: ResultRow)
  {
    r.response.selectedAnswer == Some(r.question.correctAnswer)
  }

  predicate IsIncorrectRow(r: ResultRow)
  {
    r.response.selectedAnswer.Some? && r.response.selectedAnswer != Some(r.question.correctAnswer)
  }

  predicate IsUnansweredRow(r: ResultRow)
  {
    r.response.selectedAnswer.None?
  }

  /** Each row is in exactly one of the three classes, and a correct row
      always has an answer. */
  lemma RowClassesPartition(r: ResultRow)
    ensures (if IsCorrectRow(r) then 1 else 0) + (if IsIncorrectRow(r) then 1 else 0)
            + (if IsUnansweredRow(r) then 1 else 0) == 1
    ensures IsCorrectRow(r) ==> r.response.selectedAnswer.Some?
  {
  }

  datatype SubjectStats = SubjectStats(correct: nat, incorrect: nat, unanswered: nat)

  /** The three counts of one subject card. */
  function GetSubjectStats(rows: seq<ResultRow>): (st: SubjectStats)
    ensures st.correct + st.incorrect + st.unanswered == |rows|
  {
    StatsCoverRows(rows);
    SubjectStats(|Filter(rows, IsCorrectRow)|, |Filter(rows, IsIncorrectRow)|,
                 |Filter(rows, IsUnansweredRow)|)
  }

  lemma {:induction false} StatsCoverRows(rows: seq<ResultRow>)
    ensures |Filter(rows, IsCorrectRow)| + |Filter(rows, IsIncorrectRow)| + |Filter(rows, IsUnansweredRow)| == |rows|
  {
    if rows != [] {
      StatsCoverRows(rows[1..]);
      RowClassesPartition(rows[0]);
    }
  }

  /** The rows the page reads back when every question of `qs` has its
      response stored as the exam held it. */
  function Join(qs: seq<Question>, m: Responses): (rows: seq<ResultRow>)
    requires forall i :: 0 <= i < |qs| ==> qs[i].id in m
    ensures |rows| == |qs|
    ensures forall i :: 0 <= i < |qs| ==> rows[i] == ResultRow(m[qs[i].id], qs[i])
  {
    if qs == [] then [] else [ResultRow(m[qs[0].id], qs[0])] + Join(qs[1..], m)
  }

  /** The classes of the joined rows are the classes the submission used. */
  lemma {:induction false} JoinClasses(qs: seq<Question>, m: Responses)
    requires forall i :: 0 <= i < |qs| ==> qs[i].id in m
    ensures |Filter(Join(qs, m), IsCorrectRow)| == |CorrectOnes(qs, m)|
    ensures |Filter(Join(qs, m), IsIncorrectRow)| == |WrongOnes(qs, m)|
    ensures |Filter(Join(qs, m), IsUnansweredRow)| == |BlankOnes(qs, m)|
  {
    if qs != [] {
      JoinClasses(qs[1..], m);
    }
  }

  /** The subject filter on joined rows is the join of the subject's
      questions. */
  lemma {:induction false} SubjectRowsOfJoin(qs: seq<Question>, m: Responses, s: Subject)
    requires forall i :: 0 <= i < |qs| ==> qs[i].id in m
    ensures forall i :: 0 <= i < |OfSubject(qs, s)| ==> OfSubject(qs, s)[i].id in m
    ensures SubjectRows(Join(qs, m), s) == Join(OfSubject(qs, s), m)
  {
    if qs != [] {
      SubjectRowsOfJoin(qs[1..], m, s);
    }
  }

  /** The analysis of a subject shows the counts the submission would give
      for that subject's questions alone. */
  lemma SubjectStatsMatchScore(qs: seq<Question>, m: Responses, s: Subject)
    requires forall i :: 0 <= i < |qs| ==> qs[i].id in m
    ensures var st := GetSubjectStats(SubjectRows(Join(qs, m), s));
            var sc := Score(OfSubject(qs, s), m);
            st.correct == sc.correct && st.incorrect == sc.incorrect && st.unanswered == sc.unanswered
  {
    SubjectRowsOfJoin(qs, m, s);
    JoinClasses(OfSubject(qs, s), m);
    ScoreMatchesReference(OfSubject(qs, s), m);
  }

  /** The per-subject scores add up to the score of the whole sequence:
      every counter and the total. */
  lemma {:induction false} ScoreSplitsBySubject(qs: seq<Question>, m: Responses)
    ensures var p := Score(OfSubject(qs, Physics), m);
            var c := Score(OfSubject(qs, Chemistry), m);
            var x := Score(OfSubject(qs, Mathematics), m);
            var sc := Score(qs, m);
            p.correct + c.correct + x.correct == sc.correct
            && p.incorrect + c.incorrect + x.incorrect == sc.incorrect
            && p.unanswered + c.unanswered + x.unanswered == sc.unanswered
            && p.total + c.total + x.total == sc.total
  {
    if qs != [] {
      var init, last := qs[..|qs| - 1], qs[|qs| - 1];
      assert qs == init + [last];
      ScoreSplitsBySubject(init, m);
      SubjectsAppendOne(init, last, m, Physics);
      SubjectsAppendOne(init, last, m, Chemistry);
      SubjectsAppendOne(init, last, m, Mathematics);
      TallyCounts(Score(init, m), last, m);
      TallyCounts(Score(OfSubject(init, last.subject), m), last, m);
    }
  }

  /** One tally step adds one to exactly the counter of the question's
      grade, and adds to the total what that grade is worth. */
  lemma TallyCounts(s: ScoreSummary, q: Question, m: Responses)
    ensures Tally(s, q, m).correct == s.correct + (if Grade(q, m) == Correct then 1 else 0)
    ensures Tally(s, q, m).incorrect == s.incorrect + (if Grade(q, m) == Incorrect then 1 else 0)
    ensures Tally(s, q, m).unanswered == s.unanswered + (if Grade(q, m) == Unanswered then 1 else 0)
    ensures Tally(s, q, m).total == s.total + match Grade(q, m)
                                              case Correct => q.marks
                                              case Incorrect => q.negativeMarks
                                              case Unanswered => 0
  {
  }

  /** The three subject cards add up to the counters of the whole
      submission. */
  lemma SubjectCardsAddUp(qs: seq<Question>, m: Responses)
    requires forall i :: 0 <= i < |qs| ==> qs[i].id in m
    ensures var p := GetSubjectStats(SubjectRows(Join(qs, m), Physics));
            var c := GetSubjectStats(SubjectRows(Join(qs, m), Chemistry));
            var x := GetSubjectStats(SubjectRows(Join(qs, m), Mathematics));
            var sc := Score(qs, m);
            p.correct + c.correct + x.correct == sc.correct
            && p.incorrect + c.incorrect + x.incorrect == sc.incorrect
            && p.unanswered + c.unanswered + x.unanswered == sc.unanswered
  {
    ScoreSplitsBySubject(qs, m);
    SubjectStatsMatchScore(qs, m, Physics);
    SubjectStatsMatchScore(qs, m, Chemistry);
    SubjectStatsMatchScore(qs, m, Mathematics);
  }

  /** Appending one question extends the score of its own subject by that
      question's grade and leaves the other subjects' scores alone. */
  lemma SubjectsAppendOne(init: seq<Question>, last: Question, m: Responses, s: Subject)
    ensures Score(OfSubject(init + [last], s), m)
            == if last.subject == s then Tally(Score(OfSubject(init, s), m), last, m)
               else Score(OfSubject(init, s), m)
  {
    FilterAppend(init, [last], (q: Question) => q.subject == s);
    var f := OfSubject(init + [last], s);
    if last.subject == s {
      assert f == OfSubject(init, s) + [last];
      assert f[..|f| - 1] == OfSubject(init, s);
    } else {
      assert f == OfSubject(init, s);
    }
  }
}
