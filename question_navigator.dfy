/** The question navigator: the status of each question, its colour, the
    per-subject grids and the legend's per-status counts. */
module QuestionNavigator {
  import opened ExamTypes
  import opened ResponseStore
  import opened Scoring

  function Lookup(m: Responses, id: QuestionId): Option<TestResponse>
  {
    if id in m then Some(m[id]) else None
  }

  /** The display status of a question from its response, if any. */
  function Status(r: Option<TestResponse>): QuestionStatus
  {
    if r.None? then NotVisited
    else if r.value.selectedAnswer.Some? && r.value.isMarkedForReview then AnsweredMarked
    else if r.value.selectedAnswer.Some? then Answered
    else if r.value.isMarkedForReview then Marked
    else NotAnswered
  }

  function QuestionStatusOf(m: Responses, q: Question): QuestionStatus
  {
    Status(Lookup(m, q.id))
  }

  // What a status tells the candidate, read back from the status alone.

  predicate Visited(st: QuestionStatus) { st != NotVisited }

  predicate ShowsAnswer(st: QuestionStatus) { st == Answered || st == AnsweredMarked }

  predicate ShowsMark(st: QuestionStatus) { st == Marked || st == AnsweredMarked }

  /** The status shows exactly whether there is a response, whether it has
      an answer and whether it is marked: nothing more, nothing less. */
  lemma StatusReflectsResponse(r: Option<TestResponse>)
    ensures Visited(Status(r)) <==> r.Some?
    ensures ShowsAnswer(Status(r)) <==> r.Some? && r.value.selectedAnswer.Some?
    ensures ShowsMark(Status(r)) <==> r.Some? && r.value.isMarkedForReview
  {
  }

  /** Two responses get the same status exactly when they agree on presence,
      on having an answer and on the review flag; the option chosen is
      irrelevant. */
  lemma StatusDeterminedByFlags(r: Option<TestResponse>, r': Option<TestResponse>)
    ensures Status(r) == Status(r') <==>
              r.Some? == r'.Some? &&
              (r.Some? ==> r.value.selectedAnswer.Some? == r'.value.selectedAnswer.Some?
                            && r.value.isMarkedForReview == r'.value.isMarkedForReview)
  {
    StatusReflectsResponse(r);
    StatusReflectsResponse(r');
  }

  /** Every status is the status of some response. */
  lemma EveryStatusReachable(st: QuestionStatus, id: QuestionId)
    ensures exists r: Option<TestResponse> :: Status(r) == st
  {
    var blank := DefaultResponse(id);
    match st
    case NotVisited => assert Status(None) == st;
    case NotAnswered => assert Status(Some(blank)) == st;
    case Answered => assert Status(Some(blank.(selectedAnswer := Some(A)))) == st;
    case Marked => assert Status(Some(blank.(isMarkedForReview := true))) == st;
    case AnsweredMarked => assert Status(Some(blank.(selectedAnswer := Some(A), isMarkedForReview := true))) == st;
  }

  /** A confirmed selection shows the question answered, keeping its mark;
      a toggle flips the mark, keeping its answer; a clear shows it
      unanswered, keeping its mark. */
  lemma UpdatesMoveStatus(m: Responses, q: Question, answer: AnswerKey)
    requires q.id in m
    ensures QuestionStatusOf(SetAnswer(m, q.id, answer), q)
              == if m[q.id].isMarkedForReview then AnsweredMarked else Answered
    ensures QuestionStatusOf(ToggleReview(m, q.id), q)
              == match QuestionStatusOf(m, q)
                 case NotAnswered => Marked
                 case Marked => NotAnswered
                 case Answered => AnsweredMarked
                 case AnsweredMarked => Answered
                 case NotVisited => NotVisited
    ensures QuestionStatusOf(ClearAnswer(m, q.id), q)
              == if m[q.id].isMarkedForReview then Marked else NotAnswered
  {
  }

  /** Select, toggle and clear on question `id` leave the status of every
      other question alone. */
  lemma UpdatesKeepOtherStatus(m: Responses, id: QuestionId, answer: AnswerKey, other: Question)
    requires other.id != id
    ensures QuestionStatusOf(SetAnswer(m, id, answer), other) == QuestionStatusOf(m, other)
    ensures QuestionStatusOf(ToggleReview(m, id), other) == QuestionStatusOf(m, other)
    ensures QuestionStatusOf(ClearAnswer(m, id), other) == QuestionStatusOf(m, other)
  {
  }

  /** Marking an unanswered question shows it marked; selecting an answer
      afterwards shows it answered and marked. */
  lemma MarkThenAnswer(m: Responses, q: Question, answer: AnswerKey)
    requires q.id in m && QuestionStatusOf(m, q) == NotAnswered
    ensures QuestionStatusOf(ToggleReview(m, q.id), q) == Marked
    ensures QuestionStatusOf(SetAnswer(ToggleReview(m, q.id), q.id, answer), q) == AnsweredMarked
  {
    UpdatesMoveStatus(m, q, answer);
    UpdatesMoveStatus(ToggleReview(m, q.id), q, answer);
  }

  /** The legend and grid colour of each status. */
  function StatusColor(st: QuestionStatus): string
  {
    match st
    case NotVisited => "#cbd5e0"
    case NotAnswered => "#fc8181"
    case Answered => "#68d391"
    case Marked => "#f6ad55"
    case AnsweredMarked => "#a78bfa"
  }

  /** The five statuses have five distinct colours. */
  lemma ColorsDistinct(st: QuestionStatus, st': QuestionStatus)
    ensures StatusColor(st) == StatusColor(st') <==> st == st'
  {
  }

  /** The position of the first occurrence of `q` in `qs`, or -1
      (the source's `indexOf`). */
  function IndexOf(qs: seq<Question>, q: Question): (r: int)
    ensures r == -1 <==> q !in qs
    ensures r != -1 ==> 0 <= r < |qs| && qs[r] == q && forall j :: 0 <= j < r ==> qs[j] != q
  {
    if qs == [] then -1
    else if qs[0] == q then 0
    else
      var k := IndexOf(qs[1..], q);
      if k == -1 then -1 else k + 1
  }

  /** Every question listed in a subject grid has a global index in range,
      and that index designates the question itself. */
  lemma GlobalIndexValid(qs: seq<Question>, s: Subject, q: Question)
    requires q in OfSubject(qs, s)
    ensures 0 <= IndexOf(qs, q) < |qs| && qs[IndexOf(qs, q)] == q
  {
  }

  /** Whether a grid cell is highlighted as the current question. */
  predicate IsActive(qs: seq<Question>, q: Question, currentIndex: int)
  {
    IndexOf(qs, q) == currentIndex
  }

  /** Question ids are unique within the sequence. */
  ghost predicate UniqueIds(qs: seq<Question>)
  {
    forall i, j :: 0 <= i < j < |qs| ==> qs[i].id != qs[j].id
  }

  /** With unique ids, exactly the question at the current index is active. */
  lemma ActiveIsCurrent(qs: seq<Question>, currentIndex: int, i: int)
    requires UniqueIds(qs) && 0 <= i < |qs|
    ensures IsActive(qs, qs[i], currentIndex) <==> i == currentIndex
  {
    var k := IndexOf(qs, qs[i]);
    assert qs[k] == qs[i];
    assert k == i;
  }

  /** The number of questions of `qs` showing status `st`. */
  function CountByStatus(qs: seq<Question>, m: Responses, st: QuestionStatus): nat
  {
    |Filter(qs, q => QuestionStatusOf(m, q) == st)|
  }

  /** The five legend counts add up to the number of questions. */
  lemma {:induction false} CountsCoverAll(qs: seq<Question>, m: Responses)
    ensures CountByStatus(qs, m, NotVisited) + CountByStatus(qs, m, NotAnswered) + CountByStatus(qs, m, Answered)
            + CountByStatus(qs, m, Marked) + CountByStatus(qs, m, AnsweredMarked) == |qs|
  {
    if qs != [] {
      CountsCoverAll(qs[1..], m);
    }
  }

  /** Blank questions are exactly those not visited, not answered or
      marked; graded ones are exactly those answered or answered-marked. */
  lemma {:induction false} StatusClassesMatchGrades(qs: seq<Question>, m: Responses)
    ensures |BlankOnes(qs, m)| == CountByStatus(qs, m, NotVisited) + CountByStatus(qs, m, NotAnswered)
                                 + CountByStatus(qs, m, Marked)
    ensures |CorrectOnes(qs, m)| + |WrongOnes(qs, m)| == CountByStatus(qs, m, Answered)
                                                       + CountByStatus(qs, m, AnsweredMarked)
  {
    if qs != [] {
      StatusClassesMatchGrades(qs[1..], m);
    }
  }

  /** The legend agrees with the submission: the unanswered count is the
      number of questions not visited, not answered or marked, and the
      graded ones are those shown answered. */
  lemma LegendMatchesScore(qs: seq<Question>, m: Responses)
    ensures Score(qs, m).unanswered == CountByStatus(qs, m, NotVisited) + CountByStatus(qs, m, NotAnswered)
                                       + CountByStatus(qs, m, Marked)
    ensures Score(qs, m).correct + Score(qs, m).incorrect == CountByStatus(qs, m, Answered)
                                                            + CountByStatus(qs, m, AnsweredMarked)
  {
    ScoreMatchesReference(qs, m);
    StatusClassesMatchGrades(qs, m);
  }

  /** No question counts as not visited once every question has a response. */
  lemma {:induction false} NoneUnvisitedWhenCovered(qs: seq<Question>, m: Responses)
    requires Ids(qs) <= m.Keys
    ensures CountByStatus(qs, m, NotVisited) == 0
  {
    if qs != [] {
      assert Ids(qs[1..]) <= Ids(qs) by {
        forall id | id in Ids(qs[1..]) ensures id in Ids(qs) {
          var q :| q in qs[1..] && q.id == id;
          assert q in qs;
        }
      }
      assert qs[0] in qs;
      NoneUnvisitedWhenCovered(qs[1..], m);
    }
  }

  /** Right after seeding an empty store every question shows not answered. */
  lemma {:induction false} FreshSessionAllNotAnswered(qs: seq<Question>)
    ensures CountByStatus(qs, Seeded(map[], qs), NotAnswered) == |qs|
  {
    var m := Seeded(map[], qs);
    SeededContents(map[], qs);
    NotAnsweredWhenAllDefault(qs, m);
  }

  lemma {:induction false} NotAnsweredWhenAllDefault(qs: seq<Question>, m: Responses)
    requires forall q :: q in qs ==> q.id in m && m[q.id] == DefaultResponse(q.id)
    ensures CountByStatus(qs, m, NotAnswered) == |qs|
  {
    if qs != [] {
      assert qs[0] in qs;
      NotAnsweredWhenAllDefault(qs[1..], m);
    }
  }
}
