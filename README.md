# Timed quiz session, modelled in Dafny

The quiz page shows a fixed bank of three multiple-choice questions one at a time,
records the option the user clicks for each question under that question's id, runs
a thirty-second countdown, and once the last question is answered or the clock
reaches zero shows a results view: one row per question with the recorded answer
(or "Not Answered") and whether it was right, the score, and a pass/fail verdict.

The model has three modules:

- `QuestionBank` (`questions.dfy`): the question datatype, the compiled-in bank,
  the ids of a bank and the `find` lookup by id, and the bank's well-formedness
  (distinct positive ids, at least two non-empty options, the answer among them).
- `Scoring` (`scoring.dfy`): the score as the set of recorded ids whose option equals
  the question's answer, the pass verdict `2 * score >= n` (proved equal to the
  real-number comparison `score >= n / 2` of the page), the results rows, and the
  proof that the score equals the number of rows marked correct.
- `Session` (`session.dfy`): the page state as a `SessionState` value, the two events
  as step functions (`TickStep`, `AnswerStep`, and `PressStep` for a click on an
  option button), runs of events from the start, the session invariant and its
  preservation, and the class `QuizSession` whose fields are updated in place by
  `Tick`, `Answer` and `PressOption`, each proved to produce the state its step
  function gives.

One countdown tick is one firing of the interval plus the re-run of the effect that
the new `timeLeft` triggers: a finished session does not change; a running session
whose clock already shows zero is finished without a decrement; otherwise the clock
goes down by one and, if it now shows zero, the session is finished in the same
step. Thirty ticks from the start therefore leave the clock at zero and the session
finished.

`handleAnswer` itself does not look at `finished` and accepts any text; the page only
calls it from the option buttons, which exist only while the session is unfinished
and offer exactly the current question's options. The model keeps both layers:
`AnswerStep` is the handler as written, `PressStep` is the button, and the invariant
that every recorded answer is one of its question's options holds for runs of
button clicks and ticks.

## Model

| member | source | states |
|---|---|---|
| `QuestionBank.QuestionsWellFormed` | src/Quiz.jsx:6-29 | the bank has three questions with distinct positive ids, each with at least two distinct non-empty options of which the answer is exactly one |
| `QuestionBank.IdsOf` | src/Quiz.jsx:6-29 | the id set of a bank has no more elements than the bank has questions |
| `QuestionBank.IdsOfMember` | src/Quiz.jsx:6-29 | an id is in the id set exactly when some question of the bank carries it |
| `QuestionBank.Find` | src/Quiz.jsx:58 | the lookup finds nothing exactly when no question carries the id, and otherwise returns the first question carrying it |
| `QuestionBank.FindById` | src/Quiz.jsx:58 | with distinct ids, looking up a question's id returns that question |
| `QuestionBank.IdsOfExtend` | src/Quiz.jsx:49-50 | advancing past one more question adds exactly that question's id to the ids of the questions before the index |
| `QuestionBank.IdsOfPrefix` | src/Quiz.jsx:48 | ids of the questions up to any index are ids of the bank |
| `Scoring.CorrectIds` | src/Quiz.jsx:56-59 | the filtered ids are recorded ids; with distinct ids, each question's id is kept exactly when an option is recorded under it and equals that same question's answer |
| `Scoring.Score` | src/Quiz.jsx:56-59 | defined when every recorded id is a question id (otherwise the lookup fails); the score is at most the number of recorded answers, which is at most the number of questions |
| `Scoring.Passed` | src/Quiz.jsx:141 | the verdict is true exactly when the score is at least half the question count in real-number division, ties passing |
| `Scoring.PassThresholdForThree` | src/Quiz.jsx:141 | with three questions a score of two passes and a score of one fails |
| `Scoring.RowOf` | src/Quiz.jsx:121-126 | a row is marked correct exactly when an option is recorded and equals the answer; an unanswered question shows "Not Answered" and is wrong; a non-empty recorded option is shown as it is, and an empty one shows "Not Answered" as the `||` does |
| `Scoring.Results` | src/Quiz.jsx:111-133 | one row per question, in bank order |
| `Scoring.CountCorrect` | src/Quiz.jsx:121-124 | the number of rows marked correct is at most the number of rows |
| `Scoring.CorrectIdsCons` | src/Quiz.jsx:56-59 | with distinct ids, the correct ids of a bank are those of its tail plus the first question's id if that question is answered right |
| `Scoring.CorrectIdsMatchRows` | src/Quiz.jsx:56-59 | with distinct ids, the ids kept by the score's filter are as many as the result rows marked correct, for any recorded answers |
| `Scoring.ScoreMatchesResults` | src/Quiz.jsx:56-59 | the score equals the number of result rows marked correct |
| `Scoring.AnswerKey` | src/Quiz.jsx:6-29 | the answer key records an answer under every question id and under nothing else |
| `Scoring.AnswerKeyAt` | src/Quiz.jsx:6-29 | with distinct ids, the answer key holds each question's answer under its id |
| `Scoring.PerfectScore` | src/Quiz.jsx:56-59 | answering every question with its answer scores the number of questions, and passes |
| `Scoring.UnansweredRow` | src/Quiz.jsx:121-126 | an unanswered question's row shows "Not Answered" and is not correct |
| `Session.TickStep` | src/Quiz.jsx:37-45 | a finished session is unchanged; a running clock at zero finishes without a decrement; otherwise the clock drops by exactly one and the session finishes exactly when it was at one; the clock never goes below zero; index and answers are untouched |
| `Session.AnswerStep` | src/Quiz.jsx:47-54 | the option is stored under the current question's id and every other entry is kept; the index advances by exactly one before the last question, and on the last one the index stays and the session finishes; the clock is untouched |
| `Session.PressStep` | src/Quiz.jsx:92-97 | a click changes nothing once finished or when there is no button at that index; otherwise it is exactly the answer handler applied to the clicked option of the current question |
| `Session.Step` | src/Quiz.jsx:37-54 | every event leaves the index on a question |
| `Session.Run` | src/Quiz.jsx:37-54 | a run of events leaves the index on a question |
| `Session.Ticks` | src/Quiz.jsx:43 | `k` seconds are `k` tick events |
| `Session.TickPreservesInv` | src/Quiz.jsx:37-45 | a tick keeps the session invariant and only moves the session forward |
| `Session.AnswerPreservesInv` | src/Quiz.jsx:47-54 | the answer handler keeps the session invariant (index on a question, answered ids are those before the index, plus the current one once finished) and only moves forward |
| `Session.AnswerKeepsOffered` | src/Quiz.jsx:92-97 | recording one of the current question's options keeps every recorded answer among its question's options |
| `Session.StepPreservesInv` | src/Quiz.jsx:37-54 | every event keeps the invariant and the offered-options property; finished stays finished, the index and recorded ids only grow, the clock only drops, and no recorded answer is removed or changed |
| `Session.RunPreservesInv` | src/Quiz.jsx:32-54 | the same for every run of events, including that every answer recorded before the run keeps its text |
| `Session.CurrentIdUnanswered` | src/Quiz.jsx:48 | while unfinished, the current question's id has no recorded answer yet, so a click adds an entry rather than replacing one |
| `Session.HandlerOverwritesWhenFinished` | src/Quiz.jsx:47-54 | on the session reached by clicking the right option of every question (finished, at the last question), the handler as written replaces the recorded answer with another option |
| `Session.Reachable` | src/Quiz.jsx:32-59 | every state reached from the start satisfies the invariant, all its recorded ids are question ids, and its score is at most the number of answers, which is at most the number of questions |
| `Session.FinishedIsTerminal` | src/Quiz.jsx:38 | once finished, no run of ticks and clicks changes the session |
| `Session.TicksCountDown` | src/Quiz.jsx:37-45 | on a running clock, `k` ticks lower it by `k`; from the tick that reaches zero on, the clock stays at zero and the session is finished |
| `Session.ClockRunsOut` | src/Quiz.jsx:34-45 | thirty ticks from the start leave the clock at zero and the session finished, nothing else changed |
| `Session.AllCorrectSession` | src/Quiz.jsx:47-59 | clicking the right option of each question finishes the session with every answer right, full marks and a pass |
| `Session.TwoOfThreeSession` | src/Quiz.jsx:47-59 | right, wrong, right finishes the session with a score of two, and that score passes |
| `Session.TimeoutAfterOneSession` | src/Quiz.jsx:37-59 | one right answer followed by thirty ticks finishes the session with only that answer recorded and a score of one, and that score fails |
| `Session.QuizSession.constructor` | src/Quiz.jsx:32-35 | a new session is on the first question, with nothing recorded, thirty seconds and unfinished, and satisfies the invariant |
| `Session.QuizSession.Tick` | src/Quiz.jsx:37-45 | the fields change as `TickStep` says, and a valid session stays valid, only moves forward and keeps every recorded answer |
| `Session.QuizSession.Answer` | src/Quiz.jsx:47-54 | the fields change as `AnswerStep` says, and the invariant is kept |
| `Session.QuizSession.PressOption` | src/Quiz.jsx:92-97 | the fields change as `PressStep` says, and a valid session stays valid, only moves forward and keeps every recorded answer |

## Left out

- Rendering: the JSX tree, the Tailwind class strings, the framer-motion animation props and the icons (src/Quiz.jsx:3-4, 61-155). The model keeps only what the results view computes: the rows, the score and the verdict.
- Timer plumbing: `setInterval`/`clearInterval` and the effect's mount and cleanup lifecycle (src/Quiz.jsx:43-44). A tick is an explicit event with the same effect on the state.
- React's asynchronous state batching and the stale `selected` captured by `handleAnswer` (src/Quiz.jsx:48): every event is one atomic transition on the latest state. In particular the render in which the clock already shows zero but the effect has not yet set `finished` is merged into the tick that reached zero.
- Object keys are strings in the source and compared with `q.id.toString() === id` (src/Quiz.jsx:58); the model keys the answers by the integer id itself.
- The pass check divides by two in floating point (src/Quiz.jsx:141); the model computes `2 * score >= n` on integers and proves it equal to the real-number comparison.
- Scoring.Score: requires every recorded id to be a question id. When one is not, `find` returns `undefined` and reading `.answer` throws; the model does not represent that exception, and `Session.Reachable` proves that it cannot happen in a session.

A stricter handler would reject text that is not an option of the current question, and would refuse to replace an answer already recorded; `handleAnswer` does neither, and `HandlerOverwritesWhenFinished` shows the replacement on a finished session. The model follows the code (`AnswerStep` accepts any text) and states the restriction where the code enforces it, in the option buttons (`PressStep`, `AnswerKeepsOffered`, `StepPreservesInv`).
