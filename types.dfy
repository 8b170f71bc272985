/** The entities of the exam engine: the records held by the catalog and the
    attempt store, and the enumerations the components branch on. */
module ExamTypes {

  datatype Option<T> = None | Some(value: T)

  /** The three subjects of a test, in the order the exam presents them. */
  datatype Subject = Physics | Chemistry | Mathematics

  /** The four answer keys of a multiple-choice question. */
  datatype AnswerKey = A | B | C | D

  datatype Difficulty = Easy | Medium | Hard

  /** The display status of one question in the navigator. */
  datatype QuestionStatus = NotVisited | NotAnswered | Answered | Marked | AnsweredMarked

  type QuestionId = string

  /** A catalog question. `negativeMarks` is added to the score as stored
      when the answer is wrong. */
  datatype Question = Question(
    id: QuestionId,
    subject: Subject,
    correctAnswer: AnswerKey,
    marks: int,
    negativeMarks: int,
    difficulty: Difficulty)

  /** A test definition: duration and the per-subject quotas. */
  datatype Test = Test(
    id: string,
    title: string,
    durationMinutes: nat,
    totalQuestions: nat,
    physicsQuestions: nat,
    chemistryQuestions: nat,
    mathQuestions: nat)

  /** The response record of one question within one attempt. */
  datatype TestResponse = TestResponse(
    questionId: QuestionId,
    selectedAnswer: Option<AnswerKey>,
    isMarkedForReview: bool,
    timeSpentSeconds: nat)

  /** The attempt record as the results page reads it back. */
  datatype TestAttempt = TestAttempt(
    id: string,
    testId: string,
    score: Option<int>,
    correctAnswers: nat,
    incorrectAnswers: nat,
    unanswered: nat)

  /** The elements of `s` that satisfy `p`, in their original order
      (the source's `Array.prototype.filter`). */
  function Filter<T>(s: seq<T>, p: T -> bool): (r: seq<T>)
    ensures |r| <= |s|
    ensures forall x :: x in r ==> x in s && p(x)
  {
    if s == [] then []
    else if p(s[0]) then [s[0]] + Filter(s[1..], p)
    else Filter(s[1..], p)
  }

  /** Filtering distributes over concatenation, so it keeps relative order. */
  lemma {:induction false} FilterAppend<T>(a: seq<T>, b: seq<T>, p: T -> bool)
    ensures Filter(a + b, p) == Filter(a, p) + Filter(b, p)
  {
    if a == [] {
      assert a + b == b;
    } else {
      assert (a + b)[1..] == a[1..] + b;
      FilterAppend(a[1..], b, p);
    }
  }

  /** Every element of `s` that satisfies `p` is kept. */
  lemma {:induction false} FilterKeeps<T>(s: seq<T>, p: T -> bool, x: T)
    requires x in s && p(x)
    ensures x in Filter(s, p)
  {
    if s[0] != x {
      FilterKeeps(s[1..], p, x);
    }
  }

  /** The questions of one subject, in their order in `qs`. */
  function OfSubject(qs: seq<Question>, s: Subject): seq<Question>
  {
    Filter(qs, (q: Question) => q.subject == s)
  }

  /** Taking one subject's questions distributes over concatenation. */
  lemma OfSubjectAppend(a: seq<Question>, b: seq<Question>, s: Subject)
    ensures OfSubject(a + b, s) == OfSubject(a, s) + OfSubject(b, s)
  {
    FilterAppend(a, b, (q: Question) => q.subject == s);
  }

  /** Splitting a sequence by subject loses and duplicates nothing. */
  lemma {:induction false} SubjectsPartition(qs: seq<Question>)
    ensures multiset(OfSubject(qs, Physics)) + multiset(OfSubject(qs, Chemistry))
            + multiset(OfSubject(qs, Mathematics)) == multiset(qs)
    ensures |OfSubject(qs, Physics)| + |OfSubject(qs, Chemistry)| + |OfSubject(qs, Mathematics)| == |qs|
  {
    if qs != [] {
      SubjectsPartition(qs[1..]);
      assert qs == [qs[0]] + qs[1..];
    }
  }
}
