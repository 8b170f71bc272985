/** The exam screen's state: the question sequence, the responses keyed by
    question id, the current position and the subject badge, and the
    handlers that change them. Calls to the remote store are outcomes passed
    in as parameters. */
module ExamInterface {
  import opened ExamTypes
  import opened QuestionSet
  import opened ResponseStore
  import opened Scoring

  /** The seeding loop: for each question in order, insert a default
      response into the attempt's stored responses when it has none. Every
      insert is taken to succeed. */
  method SeedResponses(store: Responses, qs: seq<Question>) returns (seeded: Responses)
    ensures seeded == Seeded(store, qs)
    ensures seeded.Keys == store.Keys + Ids(qs)
    ensures forall id :: id in store ==> seeded[id] == store[id]
  {
    seeded := store;
    for i := 0 to |qs|
      invariant seeded == Seeded(store, qs[..i])
    {
      var q := qs[i];
      if q.id !in seeded {
        seeded := seeded[q.id := DefaultResponse(q.id)];
      }
      assert qs[..i + 1][..i] == qs[..i];
    }
    assert qs[..|qs|] == qs;
    SeededContents(store, qs);
  }

  /** The subject of the question at `index`, or `fallback` when there is
      no question there. */
  function SubjectAt(qs: seq<Question>, index: int, fallback: Subject): (s: Subject)
    ensures 0 <= index < |qs| ==> s == qs[index].subject
    ensures !(0 <= index < |qs|) ==> s == fallback
  {
    if 0 <= index < |qs| then qs[index].subject else fallback
  }

  class ExamSession {
    const test: Test
    var questions: seq<Question>
    var responses: Responses
    var currentIndex: int
    var currentSubject: Subject
    var loading: bool

    /** The current index designates a question whenever there is one. */
    ghost predicate IndexInRange()
      reads this
    {
      |questions| > 0 ==> 0 <= currentIndex < |questions|
    }

    /** The subject badge names the subject of the current question. */
    ghost predicate SubjectInSync()
      reads this
    {
      0 <= currentIndex < |questions| ==> currentSubject == questions[currentIndex].subject
    }

    constructor(test: Test)
      ensures this.test == test
      ensures questions == [] && responses == map[] && loading
      ensures currentIndex == 0 && currentSubject == Physics
    {
      this.test := test;
      questions := [];
      responses := map[];
      currentIndex := 0;
      currentSubject := Physics;
      loading := true;
    }

    /** Loading as the screen does it: assemble the sequence from the three
        block queries, seed the stored responses, read them back into the
        map. The badge is left as it was. `readBackOk` is whether reading
        the attempt's responses back returned data. */
    method LoadAsWritten(physicsRows: Option<seq<Question>>, chemistryRows: Option<seq<Question>>,
                         mathRows: Option<seq<Question>>, store: Responses, readBackOk: bool)
      returns (stored: Responses)
      modifies this`questions, this`responses, this`loading
      ensures questions == AllQuestions(physicsRows, chemistryRows, mathRows)
      ensures stored == Seeded(store, questions)
      ensures responses == if readBackOk then stored else map[]
      ensures !loading
    {
      var all := AllQuestions(physicsRows, chemistryRows, mathRows);
      questions := all;
      stored := SeedResponses(store, all);
      var responsesMap: Responses := map[];
      if readBackOk {
        responsesMap := stored;
      }
      responses := responsesMap;
      loading := false;
    }

    /** Loading with the badge brought in line with the current question. */
    method Load(physicsRows: Option<seq<Question>>, chemistryRows: Option<seq<Question>>,
                mathRows: Option<seq<Question>>, store: Responses, readBackOk: bool)
      returns (stored: Responses)
      modifies this`questions, this`responses, this`loading, this`currentSubject
      ensures questions == AllQuestions(physicsRows, chemistryRows, mathRows)
      ensures stored == Seeded(store, questions)
      ensures responses == if readBackOk then stored else map[]
      ensures !loading
      ensures currentSubject == SubjectAt(questions, currentIndex, old(currentSubject))
      ensures SubjectInSync()
      ensures old(currentIndex) == 0 ==> IndexInRange()
    {
      stored := LoadAsWritten(physicsRows, chemistryRows, mathRows, store, readBackOk);
      UpdateCurrentSubject(currentIndex);
    }

    /** Loading against a question catalog: each block query asks for its
        subject's rows up to the exam's quota for that subject. `physicsOk`,
        `chemistryOk` and `mathOk` are whether each query returned data. */
    method LoadFromCatalog(catalog: seq<Question>, physicsOk: bool, chemistryOk: bool, mathOk: bool,
                           store: Responses, readBackOk: bool)
      returns (stored: Responses)
      modifies this`questions, this`responses, this`loading, this`currentSubject
      ensures |questions| <= test.physicsQuestions + test.chemistryQuestions + test.mathQuestions
      ensures OfSubject(questions, Physics)
              == if physicsOk then SubjectQuery(catalog, Physics, test.physicsQuestions) else []
      ensures OfSubject(questions, Chemistry)
              == if chemistryOk then SubjectQuery(catalog, Chemistry, test.chemistryQuestions) else []
      ensures OfSubject(questions, Mathematics)
              == if mathOk then SubjectQuery(catalog, Mathematics, test.mathQuestions) else []
      ensures forall i, j :: 0 <= i < j < |questions| ==> Rank(questions[i].subject) <= Rank(questions[j].subject)
      ensures stored == Seeded(store, questions)
      ensures responses == if readBackOk then stored else map[]
      ensures !loading
      ensures currentSubject == SubjectAt(questions, currentIndex, old(currentSubject))
      ensures SubjectInSync()
      ensures old(currentIndex) == 0 ==> IndexInRange()
    {
      var p := SubjectQuery(catalog, Physics, test.physicsQuestions);
      var c := SubjectQuery(catalog, Chemistry, test.chemistryQuestions);
      var m := SubjectQuery(catalog, Mathematics, test.mathQuestions);
      stored := Load(if physicsOk then Some(p) else None, if chemistryOk then Some(c) else None,
                     if mathOk then Some(m) else None, store, readBackOk);
      AssembledFromQueries(catalog, test.physicsQuestions, test.chemistryQuestions, test.mathQuestions,
                           physicsOk, chemistryOk, mathOk);
    }

    /** Select `answer` for the current question. `updateOk` is whether the
        store accepted the update; the map changes only then, and only when
        the question has a response. */
    method HandleAnswerSelect(answer: AnswerKey, updateOk: bool)
      requires 0 <= currentIndex < |questions|
      modifies this`responses
      ensures responses == if updateOk then SetAnswer(old(responses), questions[currentIndex].id, answer)
                           else old(responses)
    {
      var q := questions[currentIndex];
      if q.id in responses {
        var response := responses[q.id];
        if updateOk {
          var updated := response.(selectedAnswer := Some(answer));
          responses := responses[q.id := updated];
        }
      }
    }

    /** Flip the review flag of the current question, under the same rule. */
    method HandleMarkForReview(updateOk: bool)
      requires 0 <= currentIndex < |questions|
      modifies this`responses
      ensures responses == if updateOk then ToggleReview(old(responses), questions[currentIndex].id)
                           else old(responses)
    {
      var q := questions[currentIndex];
      if q.id in responses {
        var response := responses[q.id];
        var newMarkedStatus := !response.isMarkedForReview;
        if updateOk {
          var updated := response.(isMarkedForReview := newMarkedStatus);
          responses := responses[q.id := updated];
        }
      }
    }

    /** Remove the answer of the current question, under the same rule. */
    method HandleClearResponse(updateOk: bool)
      requires 0 <= currentIndex < |questions|
      modifies this`responses
      ensures responses == if updateOk then ClearAnswer(old(responses), questions[currentIndex].id)
                           else old(responses)
    {
      var q := questions[currentIndex];
      if q.id in responses {
        var response := responses[q.id];
        if updateOk {
          var updated := response.(selectedAnswer := None);
          responses := responses[q.id := updated];
        }
      }
    }

    /** Set the badge from the question at `index`, if there is one. */
    method UpdateCurrentSubject(index: int)
      modifies this`currentSubject
      ensures currentSubject == SubjectAt(questions, index, old(currentSubject))
    {
      if 0 <= index < |questions| {
        currentSubject := questions[index].subject;
      }
    }

    /** Move forward unless at the last question. */
    method HandleNext()
      modifies this`currentIndex, this`currentSubject
      ensures currentIndex == if old(currentIndex) < |questions| - 1 then old(currentIndex) + 1 else old(currentIndex)
      ensures currentSubject == if old(currentIndex) < |questions| - 1
                                then SubjectAt(questions, currentIndex, old(currentSubject))
                                else old(currentSubject)
      ensures old(IndexInRange()) ==> IndexInRange()
      ensures old(SubjectInSync()) ==> SubjectInSync()
    {
      if currentIndex < |questions| - 1 {
        var target := currentIndex + 1;
        currentIndex := target;
        UpdateCurrentSubject(target);
      }
    }

    /** Move back unless at the first question. */
    method HandlePrevious()
      modifies this`currentIndex, this`currentSubject
      ensures currentIndex == if old(currentIndex) > 0 then old(currentIndex) - 1 else old(currentIndex)
      ensures currentSubject == if old(currentIndex) > 0
                                then SubjectAt(questions, currentIndex, old(currentSubject))
                                else old(currentSubject)
      ensures old(IndexInRange()) ==> IndexInRange()
      ensures old(SubjectInSync()) ==> SubjectInSync()
    {
      if currentIndex > 0 {
        var target := currentIndex - 1;
        currentIndex := target;
        UpdateCurrentSubject(target);
      }
    }

    /** Jump to `index`, as a navigator cell does; the jump itself is not
        guarded, the badge follows only when `index` designates a question. */
    method HandleQuestionClick(index: int)
      modifies this`currentIndex, this`currentSubject
      ensures currentIndex == index
      ensures currentSubject == SubjectAt(questions, index, old(currentSubject))
      ensures 0 <= index < |questions| ==> IndexInRange() && SubjectInSync()
      ensures old(SubjectInSync()) ==> SubjectInSync()
    {
      currentIndex := index;
      UpdateCurrentSubject(index);
    }

    /** The submission loop: one pass over the questions in order, counting
        unanswered, correct and incorrect ones and accumulating the score,
        then the update of the attempt record with the result. `updateOk` is
        whether the store applied that update; the submission goes ahead
        either way. */
    method HandleSubmitTest(attempt: TestAttempt, updateOk: bool) returns (summary: ScoreSummary, recorded: TestAttempt)
      ensures summary == Score(questions, responses)
      ensures summary.correct + summary.incorrect + summary.unanswered == |questions|
      ensures recorded == SubmittedAttempt(attempt, summary, updateOk)
    {
      var correctCount: nat := 0;
      var incorrectCount: nat := 0;
      var unansweredCount: nat := 0;
      var totalScore := 0;
      var i := 0;
      while i < |questions|
        invariant 0 <= i <= |questions|
        invariant ScoreSummary(correctCount, incorrectCount, unansweredCount, totalScore)
                  == Score(questions[..i], responses)
      {
        var question := questions[i];
        if question.id !in responses || responses[question.id].selectedAnswer.None? {
          unansweredCount := unansweredCount + 1;
        } else if responses[question.id].selectedAnswer.value == question.correctAnswer {
          correctCount := correctCount + 1;
          totalScore := totalScore + question.marks;
        } else {
          incorrectCount := incorrectCount + 1;
          totalScore := totalScore + question.negativeMarks;
        }
        assert questions[..i + 1][..i] == questions[..i];
        i := i + 1;
      }
      assert questions[..i] == questions;
      summary := ScoreSummary(correctCount, incorrectCount, unansweredCount, totalScore);
      ScoreCountsEveryQuestion(questions, responses);
      recorded := attempt;
      if updateOk {
        recorded := attempt.(score := Some(totalScore), correctAnswers := correctCount,
                             incorrectAnswers := incorrectCount, unanswered := unansweredCount);
      }
    }

    /** Expiry of the countdown takes the same path as a manual submit. */
    method HandleTimeUp(attempt: TestAttempt, updateOk: bool) returns (summary: ScoreSummary, recorded: TestAttempt)
      ensures summary == Score(questions, responses)
      ensures recorded == SubmittedAttempt(attempt, summary, updateOk)
    {
      summary, recorded := HandleSubmitTest(attempt, updateOk);
    }
  }

  /** A test with an empty Physics block, loaded as the screen does it: the
      badge still reads Physics while the first question is a Chemistry one. */
  method BadgeAfterLoadAsWritten() returns (badge: Subject, shown: Subject)
    ensures badge == Physics && shown == Chemistry
  {
    var t := Test("t1", "Mock", 180, 1, 0, 1, 0);
    var q := Question("c1", Chemistry, B, 4, -1, Easy);
    var session := new ExamSession(t);
    var _ := session.LoadAsWritten(Some([]), Some([q]), Some([]), map[], true);
    assert session.questions == [q];
    badge := session.currentSubject;
    shown := session.questions[session.currentIndex].subject;
  }

  /** Seeding an empty store for three questions with distinct ids gives
      each its default response. */
  lemma SeededThree(q1: Question, q2: Question, q3: Question)
    requires q1.id != q2.id && q1.id != q3.id && q2.id != q3.id
    ensures var m := Seeded(map[], [q1, q2, q3]);
            && q1.id in m && m[q1.id] == DefaultResponse(q1.id)
            && q2.id in m && m[q2.id] == DefaultResponse(q2.id)
            && q3.id in m && m[q3.id] == DefaultResponse(q3.id)
  {
    var qs := [q1, q2, q3];
    SeededContents(map[], qs);
    assert q1 in qs && q2 in qs && q3 in qs;
    assert q1.id in Ids(qs) && q2.id in Ids(qs) && q3.id in Ids(qs);
  }

  /** The candidate's actions of the scenario below, from the first of
      three freshly seeded questions: select the right answer, move on,
      select a wrong one, move on, mark for review. Every update is
      accepted by the store. */
  method AnswerOneOfEach(session: ExamSession, physics: Question, chemistry: Question, mathematics: Question)
    requires session.questions == [physics, chemistry, mathematics] && session.currentIndex == 0
    requires physics.id != chemistry.id && physics.id != mathematics.id && chemistry.id != mathematics.id
    requires forall q :: q in session.questions ==> q.id in session.responses
    modifies session
    ensures session.questions == old(session.questions)
    ensures forall q :: q in session.questions ==> q.id in session.responses
    ensures session.responses[physics.id].selectedAnswer == Some(physics.correctAnswer)
    ensures session.responses[chemistry.id].selectedAnswer == Some(D)
    ensures session.responses[mathematics.id].selectedAnswer == old(session.responses[mathematics.id].selectedAnswer)
  {
    assert physics in session.questions && chemistry in session.questions && mathematics in session.questions;
    session.HandleAnswerSelect(physics.correctAnswer, true);
    session.HandleNext();
    session.HandleAnswerSelect(D, true);
    session.HandleNext();
    session.HandleMarkForReview(true);
  }

  /** A whole session over three questions with distinct ids: answer the
      Physics one correctly, the Chemistry one wrongly, mark the Mathematics
      one without answering, and submit. */
  method OneOfEachSession(p1: QuestionId, c1: QuestionId, m1: QuestionId) returns (summary: ScoreSummary)
    requires p1 != c1 && p1 != m1 && c1 != m1
    ensures summary == ScoreSummary(1, 1, 1, 3)
  {
    var t := Test("t1", "Mock", 180, 3, 1, 1, 1);
    var physics := Question(p1, Physics, A, 4, -1, Easy);
    var chemistry := Question(c1, Chemistry, B, 4, -1, Medium);
    var mathematics := Question(m1, Mathematics, C, 4, -1, Hard);
    var session := new ExamSession(t);
    var _ := session.Load(Some([physics]), Some([chemistry]), Some([mathematics]), map[], true);
    assert session.questions == [physics, chemistry, mathematics];
    SeededThree(physics, chemistry, mathematics);
    AnswerOneOfEach(session, physics, chemistry, mathematics);
    var attempt := TestAttempt("a1", "t1", None, 0, 0, 0);
    var recorded;
    summary, recorded := session.HandleSubmitTest(attempt, true);
    OneOfEachScore(physics, chemistry, mathematics, session.responses);
  }
}
