/** The top-level screen state: test selection, the exam, then the results,
    and back to selection. */
module App {
  import opened ExamTypes

  datatype AppState = Selection | Exam | Results

  /** The screens the root can render, with the values handed to them. */
  datatype View = TestSelectionView | ExamView(test: Test, attemptId: string) | ResultsView(attemptId: string)

  /** An attempt id counts as present when it is set and non-empty, as a
      condition on a string value does. */
  predicate HasAttemptId(attemptId: Option<string>)
  {
    attemptId.Some? && attemptId.value != ""
  }

  /** The three independent rendering conditions of the root, in order. */
  function RenderedViews(state: AppState, selectedTest: Option<Test>, attemptId: Option<string>): seq<View>
  {
    (if state == Selection then [TestSelectionView] else [])
    + (if state == Exam && selectedTest.Some? && HasAttemptId(attemptId)
       then [ExamView(selectedTest.value, attemptId.value)] else [])
    + (if state == Results && HasAttemptId(attemptId) then [ResultsView(attemptId.value)] else [])
  }

  /** At most one screen renders; selection renders in the selection state,
      the exam only with a test and an attempt id, the results only with an
      attempt id. */
  lemma AtMostOneView(state: AppState, selectedTest: Option<Test>, attemptId: Option<string>)
    ensures |RenderedViews(state, selectedTest, attemptId)| <= 1
    ensures TestSelectionView in RenderedViews(state, selectedTest, attemptId) <==> state == Selection
    ensures forall t, id :: ExamView(t, id) in RenderedViews(state, selectedTest, attemptId)
              <==> state == Exam && selectedTest == Some(t) && attemptId == Some(id) && id != ""
    ensures forall id :: ResultsView(id) in RenderedViews(state, selectedTest, attemptId)
              <==> state == Results && attemptId == Some(id) && id != ""
  {
  }

  class AppRoot {
    var appState: AppState
    var selectedTest: Option<Test>
    var attemptId: Option<string>

    /** The states the handlers keep: nothing is selected on the selection
        screen, and the exam and results screens hold a test and a
        non-empty attempt id. */
    ghost predicate Valid()
      reads this
    {
      (appState == Selection ==> selectedTest.None? && attemptId.None?)
      && (appState != Selection ==> selectedTest.Some? && HasAttemptId(attemptId))
    }

    /** The screens rendered in the current state. */
    function Views(): seq<View>
      reads this
    {
      RenderedViews(appState, selectedTest, attemptId)
    }

    constructor()
      ensures appState == Selection && selectedTest == None && attemptId == None
      ensures Valid()
    {
      appState := Selection;
      selectedTest := None;
      attemptId := None;
    }

    /** The selection screen started an attempt. */
    method HandleStartTest(test: Test, newAttemptId: string)
      modifies this
      ensures appState == Exam && selectedTest == Some(test) && attemptId == Some(newAttemptId)
      ensures newAttemptId != "" ==> Valid()
    {
      selectedTest := Some(test);
      attemptId := Some(newAttemptId);
      appState := Exam;
    }

    /** The exam was submitted: the test and attempt id stay. */
    method HandleSubmitTest()
      modifies this`appState
      ensures appState == Results
      ensures old(Valid()) && old(appState) != Selection ==> Valid()
    {
      appState := Results;
    }

    /** Back to selection: the test and attempt id are cleared. */
    method HandleBackToSelection()
      modifies this
      ensures appState == Selection && selectedTest == None && attemptId == None
      ensures Valid()
    {
      appState := Selection;
      selectedTest := None;
      attemptId := None;
    }

    /** In every state the handlers keep, exactly one screen renders, and
        it is the one the state names. */
    lemma ValidRendersOne()
      requires Valid()
      ensures |Views()| == 1
      ensures appState == Selection ==> Views() == [TestSelectionView]
      ensures appState == Exam ==> Views() == [ExamView(selectedTest.value, attemptId.value)]
      ensures appState == Results ==> Views() == [ResultsView(attemptId.value)]
    {
    }
  }

  /** A whole session: selection, start, submit, back. The screens rendered
      after each step are selection, the exam of the chosen test, its
      results, and selection again. */
  method Walkthrough(test: Test, newAttemptId: string) returns (screens: seq<seq<View>>)
    requires newAttemptId != ""
    ensures screens == [[TestSelectionView], [ExamView(test, newAttemptId)],
                        [ResultsView(newAttemptId)], [TestSelectionView]]
  {
    var root := new AppRoot();
    root.ValidRendersOne();
    screens := [root.Views()];
    root.HandleStartTest(test, newAttemptId);
    root.ValidRendersOne();
    screens := screens + [root.Views()];
    root.HandleSubmitTest();
    root.ValidRendersOne();
    screens := screens + [root.Views()];
    root.HandleBackToSelection();
    root.ValidRendersOne();
    screens := screens + [root.Views()];
  }

  /** A start with an empty attempt id leaves the exam state with no screen
      at all. */
  lemma EmptyAttemptIdRendersNothing(test: Test)
    ensures RenderedViews(Exam, Some(test), Some("")) == []
  {
  }
}
