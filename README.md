# Exam session engine of a computer-based JEE Main mock test

This project models, in Dafny, the session engine of a browser-based exam
simulator and proves properties of it. The model covers:

- the exam screen: loading the question sequence, seeding default responses,
  select, review toggle and clear, navigation, the subject badge, and scoring
  at submission;
- the question navigator: the five statuses, their colours, the subject grids
  and the legend counts;
- the countdown and its hh:mm:ss display;
- the figures of the results page;
- the top-level selection, exam and results state machine.

Modules follow the source's components:

| module (file) | models | form |
|---|---|---|
| `ExamTypes` (types.dfy) | the records of `src/types/index.ts`, and `filter` | datatypes, functions |
| `QuestionSet` (question_set.dfy) | the three subject queries and the sequence they form | functions, lemmas |
| `ResponseStore` (response_store.dfy) | the response map: seeding, select, toggle, clear | functions, lemmas |
| `Scoring` (scoring.dfy) | the submission fold, and a reference reading of the rules | functions, lemmas |
| `ExamInterface` (exam_interface.dfy) | the exam screen's state and handlers | class `ExamSession`; methods with loops |
| `QuestionNavigator` (question_navigator.dfy) | statuses, colours, grids, legend | functions, lemmas |
| `Timer` (timer.dfy) | the interval countdown, and the display | class `Countdown`; pure formatting |
| `ResultsPage` (results_page.dfy) | totals, accuracy, subject-wise analysis | functions, lemmas |
| `App` (app.dfy) | the screen state machine | class `AppRoot` |

Calls to the remote database are outcome parameters, not effects:

- Each subject query is an `Option` of its rows, or a catalog filtered by
  subject and truncated to its quota.
- The attempt's stored responses are a map handed to the loader.
- The success of each response update is a `bool`.

The stored responses are joined with their questions when the results page
reads them back. Two behaviours of the code are kept as written:

- A navigator jump is not guarded (`src/components/ExamInterface.tsx:166-169`).
  `ExamSession.HandleQuestionClick` accepts any index. Only the badge update
  is skipped when the index designates no question.
- Negative marks are added to the total exactly as stored
  (`src/components/ExamInterface.tsx:192`). The model does not assume they are
  non-positive; `Scoring.ScoreBounded` states the assumption where it needs it.

## Model

| member | source | states |
|---|---|---|
| ExamTypes.Filter | src/components/QuestionNavigator.tsx:45-47 | The filtered sequence is no longer than its input, and holds only input elements that satisfy the predicate. |
| ExamTypes.FilterAppend | src/components/ResultsPage.tsx:60-62 | Filtering distributes over concatenation, so it keeps relative order. |
| ExamTypes.FilterKeeps | src/components/ResultsPage.tsx:60-62 | Every element that satisfies the predicate survives the filter. |
| ExamTypes.OfSubject | src/components/QuestionNavigator.tsx:45-47 | Definition of one subject's questions, `questions.filter((q) => q.subject === s)`. Properties in ExamTypes.SubjectsPartition and ExamTypes.OfSubjectAppend. |
| ExamTypes.OfSubjectAppend | src/components/QuestionNavigator.tsx:45-47 | Taking one subject's questions distributes over concatenation. |
| ExamTypes.SubjectsPartition | src/components/QuestionNavigator.tsx:45-47 | The three subject grids together hold every question exactly once, as multisets and by count. |
| QuestionSet.Take | src/components/ExamInterface.tsx:27-43 | A query limit returns a prefix of the matching rows: exactly `limit` of them when there are that many, and all of them when there are fewer. |
| QuestionSet.SubjectQuery | src/components/ExamInterface.tsx:27-43 | Definition of one subject query. Properties in QuestionSet.QueryRowsHaveSubject and QuestionSet.AssembledFromQueries. |
| QuestionSet.RowsOrEmpty | src/components/ExamInterface.tsx:46-48 | Definition of `rows \|\| []`. Properties in QuestionSet.AllQuestions. |
| QuestionSet.AllQuestions | src/components/ExamInterface.tsx:45-49 | The sequence is as long as the three blocks together; a query without data contributes nothing. |
| QuestionSet.QueryRowsHaveSubject | src/components/ExamInterface.tsx:27-43 | Every row of a subject query has that subject and comes from the catalog. |
| QuestionSet.OfSubjectOfBlock | src/components/ExamInterface.tsx:45-49 | A one-subject block filtered by its own subject is unchanged; filtered by another subject it is empty. |
| QuestionSet.BlocksOrdered | src/components/ExamInterface.tsx:45-49 | In the concatenated blocks, every Physics question precedes every Chemistry question, which precedes every Mathematics question. |
| QuestionSet.BlocksFiltered | src/components/ExamInterface.tsx:45-49 | Filtering the concatenated blocks by a subject gives back exactly that subject's block. |
| QuestionSet.AssembledFromQueries | src/components/ExamInterface.tsx:27-49 | The assembled sequence has at most the quota total. It is ordered Physics, Chemistry, Mathematics. Each subject's questions are exactly its query's rows in retrieval order, or none when the query failed. |
| QuestionSet.FullBlocks | src/components/ExamInterface.tsx:27-49 | When the catalog meets every quota and every query succeeds, the sequence has exactly the sum of the quotas. |
| ResponseStore.DefaultResponse | src/components/ExamInterface.tsx:62-68 | A seeded response has the question's id, no answer, no review mark and no time spent. |
| ResponseStore.Seeded | src/components/ExamInterface.tsx:53-70 | Definition of the seeding loop over the questions in order. Properties in ResponseStore.SeededContents. |
| ResponseStore.SeededContents | src/components/ExamInterface.tsx:53-70 | After seeding, the keys are the old keys plus every question id. Existing responses are untouched. Every added response is the default one. |
| ResponseStore.SeededComplete | src/components/ExamInterface.tsx:53-70 | Seeding a store that already covers every question changes nothing. |
| ResponseStore.SeededIdempotent | src/components/ExamInterface.tsx:53-70 | Seeding twice gives the same store as seeding once, so a reload of the screen adds nothing. |
| ResponseStore.SeededKeyedById | src/components/ExamInterface.tsx:53-80 | Seeding keeps every response stored under its own question id. |
| ResponseStore.SetAnswer | src/components/ExamInterface.tsx:98-102 | A selection sets the answer of that question only; the set of keys and every other response stay as they were. |
| ResponseStore.ToggleReview | src/components/ExamInterface.tsx:112-125 | A toggle flips the review mark of that question only; the set of keys and every other response stay as they were. |
| ResponseStore.ClearAnswer | src/components/ExamInterface.tsx:143-147 | A clear removes the answer of that question but keeps its response; the set of keys and every other response stay as they were. |
| ResponseStore.ToggleTwice | src/components/ExamInterface.tsx:112-125 | Two toggles restore the original map. |
| ResponseStore.ClearAfterSelect | src/components/ExamInterface.tsx:98-147 | Clearing after a selection leaves no trace of the selection. |
| ResponseStore.SelectTwice | src/components/ExamInterface.tsx:98-102 | The last selection wins. |
| ResponseStore.UpdatesKeepKeyedById | src/components/ExamInterface.tsx:98-147 | Select, toggle and clear keep every response under its own question id. |
| Scoring.SumsAppend | src/components/ExamInterface.tsx:183-192 | The sums of marks and of negative marks distribute over concatenation. |
| Scoring.ClassesAppendOne | src/components/ExamInterface.tsx:183-192 | One more question extends exactly the class (correct, wrong or blank) it belongs to. |
| Scoring.ScoreMatchesReference | src/components/ExamInterface.tsx:177-194 | The fold's counters are the sizes of the correct, wrong and blank classes. Its total is the marks of the correct questions plus the negative marks of the wrong ones. |
| Scoring.ScoreCountsEveryQuestion | src/components/ExamInterface.tsx:177-194 | Correct, incorrect and unanswered add up to the number of questions. |
| Scoring.ScoreIgnoresOtherEntries | src/components/ExamInterface.tsx:183-185 | The score depends only on the selected answers of the scored questions. |
| Scoring.ScoreBounded | src/components/ExamInterface.tsx:177-194 | With marks at most cap and non-positive negative marks, the total is at most cap times the number of questions. |
| Scoring.OneOfEachScore | src/components/ExamInterface.tsx:177-194 | One correct answer worth 4, one wrong answer at -1 and one blank score (1, 1, 1, 3). |
| Scoring.Grade | src/components/ExamInterface.tsx:183-192 | Definition, in the handler's branch order: unanswered without a response or an answer, then correct or incorrect. Properties in Scoring.ScoreMatchesReference. |
| Scoring.Tally | src/components/ExamInterface.tsx:183-192 | Definition of one loop step. Properties in Scoring.ScoreMatchesReference, through Score, and in ResultsPage.TallyCounts. |
| Scoring.Score | src/components/ExamInterface.tsx:177-194 | Definition of the whole fold. Properties in Scoring.ScoreMatchesReference, Scoring.ScoreCountsEveryQuestion and Scoring.ScoreBounded. |
| Scoring.RecordSubmission | src/components/ExamInterface.tsx:196-205 | Definition of the applied update. Properties in Scoring.SubmittedAttempt and ResultsPage.SubmissionFigures. |
| Scoring.SubmittedAttempt | src/components/ExamInterface.tsx:196-207 | The record keeps its identity. It carries the score and the three counters when the update is applied. It is unchanged when the update fails, and the submission goes ahead either way. |
| QuestionNavigator.StatusReflectsResponse | src/components/QuestionNavigator.tsx:18-26 | The status shows exactly whether the question has a response, whether it is answered, and whether it is marked. |
| QuestionNavigator.StatusDeterminedByFlags | src/components/QuestionNavigator.tsx:18-26 | Two responses share a status if and only if they agree on presence, on having an answer, and on the mark. |
| QuestionNavigator.EveryStatusReachable | src/components/QuestionNavigator.tsx:18-26 | Each of the five statuses is the status of some response. |
| QuestionNavigator.UpdatesMoveStatus | src/components/QuestionNavigator.tsx:18-26 | On the updated question: a selection shows it answered, keeping its mark; a toggle flips the mark; a clear shows it unanswered, keeping its mark. |
| QuestionNavigator.UpdatesKeepOtherStatus | src/components/QuestionNavigator.tsx:18-26 | Select, toggle and clear on one question leave the status of every other question as it was. |
| QuestionNavigator.MarkThenAnswer | src/components/QuestionNavigator.tsx:22-24 | Marking an unanswered question shows it marked. Answering it afterwards shows it answered-and-marked. |
| QuestionNavigator.ColorsDistinct | src/components/QuestionNavigator.tsx:28-43 | Two statuses have the same colour exactly when they are the same status. |
| QuestionNavigator.IndexOf | src/components/QuestionNavigator.tsx:53 | The result is -1 exactly when the question is absent; otherwise it is the position of its first occurrence. |
| QuestionNavigator.GlobalIndexValid | src/components/QuestionNavigator.tsx:45-67 | Every question in a subject grid has a global index in range that designates that question. |
| QuestionNavigator.ActiveIsCurrent | src/components/QuestionNavigator.tsx:53-55 | With unique ids, a grid cell is highlighted exactly when it is the question at the current index. |
| QuestionNavigator.CountsCoverAll | src/components/QuestionNavigator.tsx:75-77 | The five legend counts add up to the number of questions. |
| QuestionNavigator.StatusClassesMatchGrades | src/components/QuestionNavigator.tsx:75-77 | Blank questions are exactly the not-visited, not-answered and marked ones. Graded questions are exactly the answered and answered-marked ones. |
| QuestionNavigator.LegendMatchesScore | src/components/QuestionNavigator.tsx:75-77 | The submission's unanswered count is the sum of the not-visited, not-answered and marked legend counts. Correct plus incorrect is the sum of the answered and answered-marked counts. |
| QuestionNavigator.NoneUnvisitedWhenCovered | src/components/QuestionNavigator.tsx:18-20 | When every question has a response, no question shows as not visited. |
| QuestionNavigator.FreshSessionAllNotAnswered | src/components/QuestionNavigator.tsx:75-77 | Right after seeding an empty store, every question counts as not answered. |
| QuestionNavigator.NotAnsweredWhenAllDefault | src/components/QuestionNavigator.tsx:18-26 | When every question holds the default response, every one counts as not answered. |
| QuestionNavigator.Status | src/components/QuestionNavigator.tsx:18-26 | Definition of the status chain. Properties in QuestionNavigator.StatusReflectsResponse and QuestionNavigator.StatusDeterminedByFlags. |
| QuestionNavigator.QuestionStatusOf | src/components/QuestionNavigator.tsx:18-19 | Definition: the status of the response the map holds under the question's id (`responses.get(question.id)`). Properties in QuestionNavigator.StatusReflectsResponse and QuestionNavigator.UpdatesMoveStatus. |
| QuestionNavigator.StatusColor | src/components/QuestionNavigator.tsx:28-43 | Definition of the colour switch. Properties in QuestionNavigator.ColorsDistinct. |
| QuestionNavigator.IsActive | src/components/QuestionNavigator.tsx:55 | Definition of the highlight test. Properties in QuestionNavigator.ActiveIsCurrent. |
| QuestionNavigator.CountByStatus | src/components/QuestionNavigator.tsx:75-77 | Definition of a legend count. Properties in QuestionNavigator.CountsCoverAll and QuestionNavigator.LegendMatchesScore. |
| ExamInterface.SeedResponses | src/components/ExamInterface.tsx:53-70 | The seeding loop produces the seeded store: old keys plus every question id, existing responses untouched. |
| ExamInterface.SubjectAt | src/components/ExamInterface.tsx:171-175 | The subject of the question at the index, or the old badge when there is no question there. |
| ExamInterface.ExamSession.constructor | src/components/ExamInterface.tsx:15-20 | No questions, no responses, index 0, badge Physics, loading. |
| ExamInterface.ExamSession.LoadAsWritten | src/components/ExamInterface.tsx:26-83 | The sequence is the three blocks; the store is seeded; the map is the read-back store, or empty without data; loading ends; the badge is not touched. |
| ExamInterface.ExamSession.Load | src/components/ExamInterface.tsx:26-83 | As LoadAsWritten, and afterwards the badge names the subject of the current question. |
| ExamInterface.ExamSession.LoadFromCatalog | src/components/ExamInterface.tsx:26-49 | Each block is that subject's catalog rows up to the exam's quota, or empty when its query failed. The sequence is in subject order and holds at most the sum of the three quotas. The seeding and the read-back are as in Load. The badge names the subject of the current question, or is kept when there is none, and a session loaded at index 0 has its index in range. |
| ExamInterface.ExamSession.HandleAnswerSelect | src/components/ExamInterface.tsx:85-105 | The map becomes SetAnswer of the current question when the store accepts the update, and stays as it was otherwise. |
| ExamInterface.ExamSession.HandleMarkForReview | src/components/ExamInterface.tsx:107-128 | The map becomes ToggleReview of the current question when the store accepts the update, and stays as it was otherwise. |
| ExamInterface.ExamSession.HandleClearResponse | src/components/ExamInterface.tsx:130-150 | The map becomes ClearAnswer of the current question when the store accepts the update, and stays as it was otherwise. |
| ExamInterface.ExamSession.UpdateCurrentSubject | src/components/ExamInterface.tsx:171-175 | The badge becomes the subject at the index, or stays when there is no question there. |
| ExamInterface.ExamSession.HandleNext | src/components/ExamInterface.tsx:152-157 | The index advances by one unless at the last question. The index staying in range is preserved, and so is the badge matching the current question. |
| ExamInterface.ExamSession.HandlePrevious | src/components/ExamInterface.tsx:159-164 | The index retreats by one unless at the first question. The index staying in range is preserved, and so is the badge matching the current question. |
| ExamInterface.ExamSession.HandleQuestionClick | src/components/ExamInterface.tsx:166-169 | The index becomes the clicked one without a guard; the badge follows only when the index designates a question. |
| ExamInterface.ExamSession.HandleSubmitTest | src/components/ExamInterface.tsx:177-208 | The loop's four counters are the score of the questions against the responses, and the three counts add up to the number of questions. The attempt record returned carries that score when the update is applied, and is unchanged when it fails. |
| ExamInterface.ExamSession.HandleTimeUp | src/components/ExamInterface.tsx:210-212 | Expiry submits the same score, and records the same attempt, as a manual submission. |
| ExamInterface.BadgeAfterLoadAsWritten | src/components/ExamInterface.tsx:20-51 | With an empty Physics block, the badge still reads Physics while the first question is a Chemistry one. |
| ExamInterface.SeededThree | src/components/ExamInterface.tsx:53-70 | Seeding an empty store for three distinct questions gives each one the default response. |
| ExamInterface.AnswerOneOfEach | src/components/ExamInterface.tsx:85-164 | A correct selection, next, a selection of D, next, and a mark leave the first question answered correctly, the second answered D, and the third's answer unchanged. |
| ExamInterface.OneOfEachSession | src/components/ExamInterface.tsx:26-194 | A session that answers the Physics question correctly, the Chemistry question wrongly, and marks the Mathematics question, submits (1, 1, 1, 3). |
| Timer.NextSecond | src/components/Timer.tsx:13-20 | A tick never goes negative or up. It reaches 0 exactly from at most one second. Otherwise it takes one second off. |
| Timer.Countdown.constructor | src/components/Timer.tsx:9-12 | The countdown starts at the duration in minutes times 60, with the interval running. |
| Timer.Countdown.Tick | src/components/Timer.tsx:12-21 | Expiry fires exactly on a running tick that finds at most one second. That tick clears the interval and leaves 0. A tick after clearing changes nothing. |
| Timer.Countdown.Stop | src/components/Timer.tsx:23 | Unmounting clears the interval. |
| Timer.SimulateCountdown | src/components/Timer.tsx:9-21 | With one mounted interval and no re-render, over any number of ticks, expiry fires once if that reaches the tick of expiry and never otherwise. The value counts down one second per tick and stays at 0. |
| Timer.Countdown.Rerender | src/components/Timer.tsx:11-24 | A re-render clears the interval and schedules a new one, even after expiry; the value stays. |
| Timer.Countdown.RerenderGuarded | src/components/Timer.tsx:11-24 | The intended re-run schedules a new interval only while time remains; an interval cleared on expiry stays cleared. |
| Timer.Elapsed | src/components/Timer.tsx:12-21 | The measure Timer.SimulateSession is stated in: the number of one-second interval ticks among the events. Its bound, at most the number of events, is a helper fact. |
| Timer.ExpiryTwiceAsWritten | src/components/Timer.tsx:11-24 | For every duration, ticking to expiry, then a re-render, then one more tick signals expiry twice. |
| Timer.SimulateSession | src/components/Timer.tsx:9-24 | With guarded re-runs, any mix of elapsed seconds and re-renders signals expiry once when enough seconds elapsed and never otherwise; the value counts down one second per elapsed second and stays at 0. |
| Timer.Decompose | src/components/Timer.tsx:26-28 | hours*3600 + minutes*60 + seconds is the remaining time, with minutes and seconds below 60. |
| Timer.DecomposeUnique | src/components/Timer.tsx:26-28 | Any triple with those properties is the decomposition. |
| Timer.NatToString | src/components/Timer.tsx:31 | The decimal text is non-empty and all digits, one digit below 10 and more from 10. |
| Timer.PadStart | src/components/Timer.tsx:31 | The padded text has length max(length, width), ends with the original text, and starts with fill characters. |
| Timer.FormatTime | src/components/Timer.tsx:30-32 | A field is at least two digits; for 0 to 99 it is exactly the tens digit and the units digit. |
| Timer.ParseNatToString | src/components/Timer.tsx:31 | The decimal text denotes its number. |
| Timer.ParseLeadingZeros | src/components/Timer.tsx:31 | Leading zeros do not change the number denoted. |
| Timer.FormatTimeRoundTrip | src/components/Timer.tsx:30-32 | A display field denotes the value it was made from. |
| Timer.LowTimeDisplay | src/components/Timer.tsx:26-34 | The low-time style applies exactly when the display reads 0 hours and under 5 minutes. |
| Timer.LowTimeStays | src/components/Timer.tsx:13-34 | Once the low-time style applies, ticking never removes it. |
| Timer.IsLowTime | src/components/Timer.tsx:34 | Definition: under 300 seconds. Properties in Timer.LowTimeDisplay and Timer.LowTimeStays. |
| ResultsPage.SubmissionFigures | src/components/ResultsPage.tsx:55-86 | When the submission's update landed, the page counts exactly the exam's questions and shows the submitted total. When it failed, the page shows the attempt's earlier figures, whatever the responses. |
| ResultsPage.FailedUpdateShowsEmptyResult | src/components/ResultsPage.tsx:55-88 | When the update fails on an attempt with zero counters and no score, the page shows 0 out of 0 marks with an accuracy of 0, however the exam went. |
| ResultsPage.ScoreWithinMaxMarks | src/components/ResultsPage.tsx:86-88 | Once the update landed, with marks at most 4 and non-positive negative marks, the shown score is at most the "out of" figure. |
| ResultsPage.AccuracyAsWritten | src/components/ResultsPage.tsx:56-58 | The page shows NaN exactly when there are questions but none was answered, and shows the literal 0 exactly when there are no questions. |
| ResultsPage.AllUnansweredShowsNaN | src/components/ResultsPage.tsx:56-58 | An attempt with a single, blank question shows NaN. |
| ResultsPage.Accuracy | src/components/ResultsPage.tsx:56-58 | The corrected accuracy is never NaN. It is 0 exactly when nothing was answered. Otherwise it is a percentage in [0, 100] with value × answered = correct × 100. |
| ResultsPage.AccuracyAgreesWhereDefined | src/components/ResultsPage.tsx:56-58 | The corrected accuracy equals the page's wherever the page does not show NaN, and is 0 where it does. |
| ResultsPage.TotalQuestions | src/components/ResultsPage.tsx:55 | Definition: the sum of the three counters. Properties in ResultsPage.SubmissionFigures. |
| ResultsPage.DisplayedScore | src/components/ResultsPage.tsx:86 | Definition of `score \|\| 0`. Properties in ResultsPage.SubmissionFigures and ResultsPage.ScoreWithinMaxMarks. |
| ResultsPage.MaxMarks | src/components/ResultsPage.tsx:88 | Definition: four marks per question. Properties in ResultsPage.ScoreWithinMaxMarks. |
| ResultsPage.SubjectRows | src/components/ResultsPage.tsx:60-62 | Definition of a subject filter. Properties in ResultsPage.SubjectRowsPartition and ResultsPage.SubjectRowsOfJoin. |
| ResultsPage.IsCorrectRow | src/components/ResultsPage.tsx:65-67 | Definition of a correct row. Properties in ResultsPage.RowClassesPartition. |
| ResultsPage.IsIncorrectRow | src/components/ResultsPage.tsx:68-70 | Definition of an incorrect row. Properties in ResultsPage.RowClassesPartition. |
| ResultsPage.IsUnansweredRow | src/components/ResultsPage.tsx:71 | Definition of an unanswered row. Properties in ResultsPage.RowClassesPartition. |
| ResultsPage.SubjectRowsPartition | src/components/ResultsPage.tsx:60-62 | The three subject filters together hold every row exactly once. |
| ResultsPage.RowClassesPartition | src/components/ResultsPage.tsx:64-73 | A row is exactly one of correct, incorrect and unanswered, and a correct row has an answer. |
| ResultsPage.GetSubjectStats | src/components/ResultsPage.tsx:64-73 | A subject's three counts add up to its number of rows. |
| ResultsPage.StatsCoverRows | src/components/ResultsPage.tsx:64-73 | The three filters' lengths add up to the number of rows. |
| ResultsPage.Join | src/components/ResultsPage.tsx:26-32 | The joined rows are one per question of the exam, in order: row i pairs question i with its stored response. |
| ResultsPage.JoinClasses | src/components/ResultsPage.tsx:64-73 | On rows read back from the exam's responses, the page's three classes have the sizes of the submission's classes. |
| ResultsPage.SubjectRowsOfJoin | src/components/ResultsPage.tsx:60-62 | The subject filter on the joined rows joins the subject's questions. |
| ResultsPage.SubjectStatsMatchScore | src/components/ResultsPage.tsx:60-73 | A subject card shows the counts the submission gives for that subject's questions alone. |
| ResultsPage.ScoreSplitsBySubject | src/components/ExamInterface.tsx:177-194 | The per-subject scores add up to the score of the whole sequence: all three counters and the total. |
| ResultsPage.SubjectCardsAddUp | src/components/ResultsPage.tsx:60-73 | The three subject cards add up to the attempt's correct, incorrect and unanswered counters. |
| ResultsPage.SubjectsAppendOne | src/components/ResultsPage.tsx:60-62 | One more question extends only its own subject's score, by its own grade. |
| App.AtMostOneView | src/App.tsx:30-49 | At most one screen renders. Selection renders exactly in the selection state; the exam only with a test and a non-empty attempt id; the results only with a non-empty attempt id. |
| App.AppRoot.constructor | src/App.tsx:10-12 | The root starts in selection with no test and no attempt id. |
| App.AppRoot.HandleStartTest | src/App.tsx:14-18 | Starting moves to the exam and stores the test and attempt id. |
| App.AppRoot.HandleSubmitTest | src/App.tsx:20-22 | Submitting moves to the results; the test and attempt id stay. |
| App.AppRoot.HandleBackToSelection | src/App.tsx:24-28 | Going back moves to selection and clears the test and attempt id. |
| App.AppRoot.ValidRendersOne | src/App.tsx:30-49 | In every state the handlers keep, exactly the screen that the state names renders. |
| App.Walkthrough | src/App.tsx:10-49 | A session renders selection, then the exam of the chosen test, then its results, then selection again. |
| App.EmptyAttemptIdRendersNothing | src/App.tsx:35 | An exam state with an empty attempt id renders no screen at all. |
| App.RenderedViews | src/App.tsx:30-49 | Definition of the three render conditions. Properties in App.AtMostOneView and App.AppRoot.ValidRendersOne. |

## Left out

- Remote database calls are outcome parameters: query rows as `Option`s, the
  attempt's stored responses as a map, and update success as a `bool`.
  The calls themselves are not modelled: query building, ids, timestamps and
  `updated_at`.
- ExamInterface.SeedResponses: every insert of a default response is taken to
  succeed. The source does not look at the insert's result. After a failed
  insert the question has no response in the map, so select, mark and clear
  silently do nothing on it (`src/components/ExamInterface.tsx:89`, 111 and
  134). It is then scored unanswered and shown as not visited. The model's
  seeded store always covers every question, so it does not reach this case.
- ExamInterface.SeedResponses: the per-question lookup before each insert is
  taken to see the stored response. At `src/components/ExamInterface.tsx:54-59`
  the lookup returns no data when the call fails or when it finds more than
  one row. The code then inserts another default row for a question that
  already has one. The read-back at lines 78-80 keeps the last row for each
  question id, and that can be the new default row. The screen would then
  show an answered question as not answered, while the database holds both
  rows. The store is a map with one response per question, so it cannot hold
  two rows. ResponseStore.SeededIdempotent therefore holds only under this
  assumption.
- Response rows are keyed by question id only. Their row ids, attempt ids and
  timestamps are dropped, and so are the questions' texts, options and topics.
- `time_spent_seconds` is always the seeded 0, because nothing updates it.
- Asynchrony is not modelled: each handler runs to completion before the
  next. Four cases follow from this.
  - Overlapping updates. The select, mark and clear handlers read the
    `responses` map and the question's response when clicked
    (`src/components/ExamInterface.tsx:87`, 109 and 132). Once the store
    answers, they write a copy of that old map back (lines 99-100, 122-123
    and 144-145). When two updates overlap, the map keeps only the copy
    written last, while the database has both. A mark followed by a
    selection on the same question before the mark returns loses the mark.
    A selection, Next and a second selection lose the first answer. The
    submission scores the map (lines 183-192). The results page reads the
    database rows (`src/components/ResultsPage.tsx:26-32`). The two can then
    disagree.
  - ResultsPage.Join, ResultsPage.JoinClasses, ResultsPage.SubjectStatsMatchScore,
    ResultsPage.SubjectCardsAddUp: these take the read-back rows to be the
    exam's map at submission, one row per exam question, in exam order.
    They hold only under that assumption. Overlapping updates break it, and
    so do the duplicate default rows described above. The source's query
    also gives the rows in no particular order, but the subject counts do
    not depend on order.
  - The race between expiry and a manual submission is not modelled. Either
    can submit, and nothing guards against both.
  - Double submission from the dialog. Its submit button
    (`src/components/ExamInterface.tsx:284`) stays active while the attempt
    update is awaited. Only Cancel closes the dialog (line 278). A second
    click submits a second time. The dialog itself is rendering.
- Timer.Countdown.Tick, Timer.SimulateCountdown: both describe one mounted
  interval. The source re-runs the timer's effect whenever `onTimeUp`
  changes (`src/components/Timer.tsx:24`). The exam screen passes a new
  `handleTimeUp` closure on every render (`src/components/ExamInterface.tsx:234`),
  so every re-render clears the interval and schedules a new one. Two
  consequences follow, and the model keeps only the second.
  - (a) Each re-render restarts the one-second wait: a selection, a Next
    click or opening the submit dialog. The countdown then runs slow while
    the candidate interacts. Time below one second is not modelled, so
    this is left out.
  - (b) A re-render after expiry, while the screen has not yet changed,
    schedules a new interval. For example, a Next click while the attempt
    update is awaited (`src/components/ExamInterface.tsx:196-205`). The
    new interval's first tick comes a full second after the re-render. If
    the update returns first, `onSubmit` unmounts the exam screen, and the
    cleanup at `src/components/Timer.tsx:23` clears the interval. If the
    attempt update is still pending one second after the re-render, that
    tick finds 0 seconds and signals expiry again, and the test is
    submitted a second time. Timer.Countdown.Rerender and
    Timer.ExpiryTwiceAsWritten model this. "Expiry fires once" holds only
    for a single interval, and for re-renders handled by
    Timer.Countdown.RerenderGuarded (Timer.SimulateSession).
- The accuracy is a real number. The floating-point division is not
  modelled, nor is the rounding to one decimal.
- Integers are unbounded. JavaScript numbers are exact for every count and
  score the screens can reach.
- Scoring.RecordSubmission keeps the attempt's other fields. It does not
  model the submission timestamp written with the counters. A failed update
  is modelled by Scoring.SubmittedAttempt, which leaves the record as it was.
- The loading and "No results found" states of the results page are
  rendering, and are not modelled.
- QuestionNavigator.IndexOf compares questions by value, where the source
  compares object identity. The two agree when question ids are unique.
- Test selection, the question panel and all styling are presentation, and
  are not modelled.

## Findings

| source | as written | input that shows it | evidently intended | confidence | as-written member | corrected member |
|---|---|---|---|---|---|---|
| src/components/ResultsPage.tsx:56-58 | The zero guard tests the number of questions but divides by correct + incorrect. | An attempt with 0 correct, 0 incorrect and 1 unanswered shows "NaN%". | Guard on the divisor, and show 0 when nothing was answered. | not executed | ResultsPage.AllUnansweredShowsNaN | ResultsPage.Accuracy |
| src/components/ExamInterface.tsx:20-51 | The badge starts at Physics and is recomputed only on navigation, never after loading. | A test with an empty Physics block and one Chemistry question: the badge reads Physics over a Chemistry question. | Set the badge from the first question once the sequence is loaded. | not executed | ExamInterface.BadgeAfterLoadAsWritten | ExamInterface.ExamSession.Load |
| src/components/Timer.tsx:11-24 | The effect is re-run on every new `onTimeUp`, and each re-run schedules an interval even after expiry. | Any duration: tick to expiry, re-render the exam screen (a Next click while the submission is awaited), and tick once more while the attempt update is still pending one second after the re-render: expiry is signalled a second time and the test is submitted twice. | Signal expiry once per timer, so do not schedule a new interval once time has run out. | not executed | Timer.ExpiryTwiceAsWritten | Timer.SimulateSession |
