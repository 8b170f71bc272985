/** The session-local response map, keyed by question id, and the
    transformations the exam applies to it: seeding default responses and
    the select, toggle-review and clear updates. */
module ResponseStore {
  import opened ExamTypes

  type Responses = map<QuestionId, TestResponse>

  /** The response inserted for a question that has none: no answer, not
      marked, no time spent. */
  function DefaultResponse(id: QuestionId): (r: TestResponse)
    ensures r.questionId == id && r.selectedAnswer.None? && !r.isMarkedForReview && r.timeSpentSeconds == 0
  {
    TestResponse(id, None, false, 0)
  }

  /** Every entry is stored under its own question id. */
  ghost predicate KeyedById(m: Responses)
  {
    forall id :: id in m ==> m[id].questionId == id
  }

  /** The ids of a question sequence. */
  ghost function Ids(qs: seq<Question>): set<QuestionId>
  {
    set q | q in qs :: q.id
  }

  /** The store after the seeding loop has visited `qs` in order, inserting
      a default response for each question that has none. */
  function Seeded(store: Responses, qs: seq<Question>): Responses
    decreases |qs|
  {
    if qs == [] then store
    else
      var before := Seeded(store, qs[..|qs| - 1]);
      var id := qs[|qs| - 1].id;
      if id in before then before else before[id := DefaultResponse(id)]
  }

  /** Seeding covers every question, never overwrites an existing response,
      and adds only default responses. */
  lemma {:induction false} SeededContents(store: Responses, qs: seq<Question>)
    ensures Seeded(store, qs).Keys == store.Keys + Ids(qs)
    ensures forall id :: id in store ==> Seeded(store, qs)[id] == store[id]
    ensures forall id :: id in Seeded(store, qs) && id !in store ==> Seeded(store, qs)[id] == DefaultResponse(id)
  {
    if qs != [] {
      var init := qs[..|qs| - 1];
      SeededContents(store, init);
      assert qs == init + [qs[|qs| - 1]];
      assert Ids(qs) == Ids(init) + {qs[|qs| - 1].id};
    }
  }

  /** Seeding a store already holding a response for every question changes
      nothing. */
  lemma {:induction false} SeededComplete(store: Responses, qs: seq<Question>)
    requires Ids(qs) <= store.Keys
    ensures Seeded(store, qs) == store
  {
    SeededContents(store, qs);
  }

  /** Re-running the seeding step changes nothing. */
  lemma SeededIdempotent(store: Responses, qs: seq<Question>)
    ensures Seeded(Seeded(store, qs), qs) == Seeded(store, qs)
  {
    SeededContents(store, qs);
    SeededComplete(Seeded(store, qs), qs);
  }

  /** Seeding keeps every entry under its own question id. */
  lemma SeededKeyedById(store: Responses, qs: seq<Question>)
    requires KeyedById(store)
    ensures KeyedById(Seeded(store, qs))
  {
    SeededContents(store, qs);
  }

  /** The map after a confirmed answer selection for question `id`. */
  function SetAnswer(m: Responses, id: QuestionId, answer: AnswerKey): (r: Responses)
    ensures r.Keys == m.Keys
    ensures forall k :: k in m && k != id ==> r[k] == m[k]
    ensures id in m ==> r[id] == m[id].(selectedAnswer := Some(answer))
  {
    if id in m then m[id := m[id].(selectedAnswer := Some(answer))] else m
  }

  /** The map after a confirmed review toggle for question `id`. */
  function ToggleReview(m: Responses, id: QuestionId): (r: Responses)
    ensures r.Keys == m.Keys
    ensures forall k :: k in m && k != id ==> r[k] == m[k]
    ensures id in m ==> r[id] == m[id].(isMarkedForReview := !m[id].isMarkedForReview)
  {
    if id in m then m[id := m[id].(isMarkedForReview := !m[id].isMarkedForReview)] else m
  }

  /** The map after a confirmed clear for question `id`: the entry stays,
      only its answer is removed. */
  function ClearAnswer(m: Responses, id: QuestionId): (r: Responses)
    ensures r.Keys == m.Keys
    ensures forall k :: k in m && k != id ==> r[k] == m[k]
    ensures id in m ==> r[id] == m[id].(selectedAnswer := None)
  {
    if id in m then m[id := m[id].(selectedAnswer := None)] else m
  }

  /** Two toggles restore the original map. */
  lemma ToggleTwice(m: Responses, id: QuestionId)
    ensures ToggleReview(ToggleReview(m, id), id) == m
  {
    var r := ToggleReview(ToggleReview(m, id), id);
    assert forall k :: k in m ==> r[k] == m[k];
  }

  /** Clearing after a selection is the same as clearing: no trace of the
      selected option remains. */
  lemma ClearAfterSelect(m: Responses, id: QuestionId, answer: AnswerKey)
    ensures ClearAnswer(SetAnswer(m, id, answer), id) == ClearAnswer(m, id)
  {
    var l := ClearAnswer(SetAnswer(m, id, answer), id);
    var r := ClearAnswer(m, id);
    assert forall k :: k in m ==> l[k] == r[k];
  }

  /** The last selection wins. */
  lemma SelectTwice(m: Responses, id: QuestionId, first: AnswerKey, second: AnswerKey)
    ensures SetAnswer(SetAnswer(m, id, first), id, second) == SetAnswer(m, id, second)
  {
    var l := SetAnswer(SetAnswer(m, id, first), id, second);
    var r := SetAnswer(m, id, second);
    assert forall k :: k in m ==> l[k] == r[k];
  }

  /** Select, toggle and clear keep every entry under its own question id. */
  lemma UpdatesKeepKeyedById(m: Responses, id: QuestionId, answer: AnswerKey)
    requires KeyedById(m)
    ensures KeyedById(SetAnswer(m, id, answer))
    ensures KeyedById(ToggleReview(m, id))
    ensures KeyedById(ClearAnswer(m, id))
  {
  }
}
