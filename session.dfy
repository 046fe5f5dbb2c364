/** The quiz session: its state, the countdown tick and the answer event that change it,
    runs of events from the start, and the object the page keeps that state in. */
module Session {

  import opened QuestionBank
  import opened Scoring

  /** Seconds on the clock when a session starts. */
  const Duration: int := 30

  /** The four pieces of page state: the question shown, the answers recorded by question
      id, the seconds left and whether the results are shown. */
  datatype SessionState = SessionState(current: nat, selected: map<int, string>, timeLeft: int, finished: bool)

  /** A fresh session: first question, nothing recorded, a full clock. */
  const Initial: SessionState := SessionState(0, map[], Duration, false)

  /** What holds of every state a session reaches: the index points at a question, the
      clock is within its range and is running exactly while unfinished, every question
      before the current one is answered and only those (plus the current one once finished). */
  predicate Inv(s: SessionState) {
    && s.current < |Questions|
    && 0 <= s.timeLeft <= Duration
    && (!s.finished ==> s.timeLeft > 0)
    && IdsOf(Questions[..s.current]) <= s.selected.Keys <= IdsOf(Questions[..s.current + 1])
    && (!s.finished ==> s.selected.Keys == IdsOf(Questions[..s.current]))
  }

  /** Every recorded answer is one of the options of its question. */
  predicate Offered(s: SessionState) {
    forall i :: 0 <= i < |Questions| && Questions[i].id in s.selected ==>
      s.selected[Questions[i].id] in Questions[i].options
  }

  /** One second of the countdown: the interval lowers the clock by one and the effect,
      run again on the new value, ends the session when the clock shows zero. No interval
      runs once the session is finished. */
  function TickStep(s: SessionState): (t: SessionState)
    ensures t.current == s.current && t.selected == s.selected
    ensures s.finished ==> t == s
    ensures !s.finished && s.timeLeft > 0 ==> t.timeLeft == s.timeLeft - 1
    ensures !s.finished && s.timeLeft == 0 ==> t.timeLeft == 0 && t.finished
    ensures !s.finished && s.timeLeft >= 0 ==> (t.finished <==> s.timeLeft <= 1)
    ensures s.timeLeft >= 0 ==> t.timeLeft >= 0
  {
    if s.finished then s
    else if s.timeLeft == 0 then s.(finished := true)
    else
      var left := s.timeLeft - 1;
      s.(timeLeft := left, finished := left == 0)
  }

  /** The answer handler: records `option` under the current question's id, then moves to
      the next question or, on the last one, finishes. The handler itself does not look at
      `finished`. */
  function AnswerStep(s: SessionState, option: string): (t: SessionState)
    requires s.current < |Questions|
    ensures Questions[s.current].id in t.selected && t.selected[Questions[s.current].id] == option
    ensures t.selected.Keys == s.selected.Keys + {Questions[s.current].id}
    ensures forall k :: k in s.selected && k != Questions[s.current].id ==> t.selected[k] == s.selected[k]
    ensures s.current < |Questions| - 1 ==> t.current == s.current + 1 && t.finished == s.finished
    ensures s.current == |Questions| - 1 ==> t.current == s.current && t.finished
    ensures t.current < |Questions| && t.timeLeft == s.timeLeft
  {
    var selected := s.selected[Questions[s.current].id := option];
    if s.current < |Questions| - 1 then s.(selected := selected, current := s.current + 1)
    else s.(selected := selected, finished := true)
  }

  /** A click on the option button at `index`: buttons are only on the page while the
      session is unfinished, and they offer exactly the current question's options. */
  function PressStep(s: SessionState, index: nat): (t: SessionState)
    requires s.current < |Questions|
    ensures s.finished || index >= |Questions[s.current].options| ==> t == s
    ensures !s.finished && index < |Questions[s.current].options| ==>
              t == AnswerStep(s, Questions[s.current].options[index])
    ensures t.current < |Questions|
  {
    if s.finished || index >= |Questions[s.current].options| then s
    else AnswerStep(s, Questions[s.current].options[index])
  }

  /** The events that reach a session: a second elapsing, or a click on an option button. */
  datatype Event = Tick | Press(index: nat)

  function Step(s: SessionState, e: Event): (t: SessionState)
    requires s.current < |Questions|
    ensures t.current < |Questions|
  {
    match e
    case Tick => TickStep(s)
    case Press(index) => PressStep(s, index)
  }

  /** The state after the events of `events`, handled one at a time in order. */
  function Run(s: SessionState, events: seq<Event>): (t: SessionState)
    requires s.current < |Questions|
    ensures t.current < |Questions|
    decreases |events|
  {
    if events == [] then s else Run(Step(s, events[0]), events[1..])
  }

  /** `k` seconds elapsing with no click. */
  function Ticks(k: nat): (events: seq<Event>)
    ensures |events| == k && forall i :: 0 <= i < k ==> events[i] == Tick
  {
    if k == 0 then [] else [Tick] + Ticks(k - 1)
  }

  /** The session does not move backwards: a finished session stays finished, the index
      and the recorded ids only grow, the clock only goes down. */
  predicate Progressed(s: SessionState, t: SessionState) {
    && (s.finished ==> t.finished)
    && s.current <= t.current
    && s.selected.Keys <= t.selected.Keys
    && t.timeLeft <= s.timeLeft
  }

  /** Every answer recorded in `s` is still recorded, with the same text, in `t`. */
  predicate KeepsAnswers(s: SessionState, t: SessionState) {
    forall k :: k in s.selected ==> k in t.selected && t.selected[k] == s.selected[k]
  }

  lemma TickPreservesInv(s: SessionState)
    requires Inv(s)
    ensures Inv(TickStep(s)) && Progressed(s, TickStep(s))
  {
  }

  lemma AnswerPreservesInv(s: SessionState, option: string)
    requires Inv(s)
    ensures Inv(AnswerStep(s, option)) && Progressed(s, AnswerStep(s, option))
  {
    var c, t := s.current, AnswerStep(s, option);
    var id := Questions[c].id;
    IdsOfExtend(Questions, c);
    assert t.selected.Keys == IdsOf(Questions[..c + 1]) by {
      assert s.selected.Keys + {id} <= IdsOf(Questions[..c + 1]);
    }
    if c < |Questions| - 1 {
      IdsOfExtend(Questions, c + 1);
      assert t.current == c + 1;
    } else {
      assert t.current == c && t.finished;
    }
  }

  /** Recording one of the current question's options keeps every recorded answer among
      the options of its question. */
  lemma AnswerKeepsOffered(s: SessionState, option: string)
    requires s.current < |Questions| && Offered(s)
    requires option in Questions[s.current].options
    ensures Offered(AnswerStep(s, option))
  {
    QuestionsWellFormed();
    var t := AnswerStep(s, option);
    forall i | 0 <= i < |Questions| && Questions[i].id in t.selected
      ensures t.selected[Questions[i].id] in Questions[i].options
    {
      if i != s.current {
        assert Questions[i].id != Questions[s.current].id;
      }
    }
  }

  /** A click on an unfinished session records an id that has no answer yet: the answered
      ids are those before the current question, and the current id is none of them. */
  lemma CurrentIdUnanswered(s: SessionState)
    requires Inv(s) && !s.finished
    ensures Questions[s.current].id !in s.selected
  {
    QuestionsWellFormed();
    var c := s.current;
    forall i | 0 <= i < c ensures Questions[..c][i].id != Questions[c].id {
      assert Questions[..c][i] == Questions[i];
    }
    IdsOfMember(Questions[..c], Questions[c].id);
  }

  /** Every event keeps the invariant, keeps recorded answers among the offered options,
      never removes or changes a recorded answer, and moves the session forward only. */
  lemma StepPreservesInv(s: SessionState, e: Event)
    requires Inv(s) && Offered(s)
    ensures Inv(Step(s, e)) && Offered(Step(s, e)) && Progressed(s, Step(s, e))
    ensures KeepsAnswers(s, Step(s, e))
  {
    match e
    case Tick => TickPreservesInv(s);
    case Press(index) =>
      if !s.finished && index < |Questions[s.current].options| {
        var option := Questions[s.current].options[index];
        AnswerPreservesInv(s, option);
        AnswerKeepsOffered(s, option);
        CurrentIdUnanswered(s);
      }
  }

  /** The handler as written, called on a finished session at the last question, replaces
      the answer already recorded there: only the option buttons keep it from happening.
      The session is the one reached by answering every question right. */
  lemma HandlerOverwritesWhenFinished()
    ensures var s := Run(Initial, [Press(0), Press(1), Press(1)]);
            && Inv(s) && Offered(s) && s.finished && s.current == |Questions| - 1
            && Questions[2].id in s.selected && s.selected[Questions[2].id] == Questions[2].answer
            && AnswerStep(s, Questions[2].options[0]).selected[Questions[2].id] == Questions[2].options[0]
            && Questions[2].options[0] != Questions[2].answer
            && !KeepsAnswers(s, AnswerStep(s, Questions[2].options[0]))
  {
    var events := [Press(0), Press(1), Press(1)];
    var s := Run(Initial, events);
    Reachable(events);
    var key := map[1 := Questions[0].answer, 2 := Questions[1].answer, 3 := Questions[2].answer];
    assert s == SessionState(2, key, Duration, true) by {
      var s1 := Step(Initial, Press(0));
      var s2 := Step(s1, Press(1));
      assert events[1..] == [Press(1), Press(1)] && events[1..][1..] == [Press(1)];
      assert s == Step(s2, Press(1));
    }
    var t := AnswerStep(s, Questions[2].options[0]);
    assert t.selected[3] != s.selected[3];
  }

  lemma {:induction false} RunPreservesInv(s: SessionState, events: seq<Event>)
    requires Inv(s) && Offered(s)
    ensures Inv(Run(s, events)) && Offered(Run(s, events)) && Progressed(s, Run(s, events))
    ensures KeepsAnswers(s, Run(s, events))
    decreases |events|
  {
    if events != [] {
      StepPreservesInv(s, events[0]);
      RunPreservesInv(Step(s, events[0]), events[1..]);
    }
  }

  /** Every state reached from the start keeps the invariant, and its score is defined
      and bounded by the number of recorded answers and of questions. */
  lemma Reachable(events: seq<Event>)
    ensures Inv(Run(Initial, events)) && Offered(Run(Initial, events))
    ensures Run(Initial, events).selected.Keys <= IdsOf(Questions)
    ensures Score(Questions, Run(Initial, events).selected) <= |Run(Initial, events).selected| <= |Questions|
  {
    RunPreservesInv(Initial, events);
    var s := Run(Initial, events);
    IdsOfPrefix(Questions, s.current + 1);
  }

  /** Once finished, no event changes the session any more. */
  lemma {:induction false} FinishedIsTerminal(s: SessionState, events: seq<Event>)
    requires s.current < |Questions| && s.finished
    ensures Run(s, events) == s
    decreases |events|
  {
    if events != [] {
      FinishedIsTerminal(Step(s, events[0]), events[1..]);
    }
  }

  /** With the clock running, `k` seconds lower it by `k`; once it shows zero the session
      is finished and the clock stays at zero. */
  lemma {:induction false} TicksCountDown(s: SessionState, k: nat)
    requires s.current < |Questions| && !s.finished && s.timeLeft > 0
    decreases k
    ensures Run(s, Ticks(k)) ==
              if k < s.timeLeft then s.(timeLeft := s.timeLeft - k)
              else s.(timeLeft := 0, finished := true)
  {
    if k > 0 {
      assert Ticks(k)[1..] == Ticks(k - 1);
      var t := TickStep(s);
      if s.timeLeft == 1 {
        FinishedIsTerminal(t, Ticks(k - 1));
      } else {
        TicksCountDown(t, k - 1);
      }
    }
  }

  /** Thirty seconds after the start with no click, the clock shows zero and the session is finished. */
  lemma ClockRunsOut()
    ensures Run(Initial, Ticks(Duration)) == Initial.(timeLeft := 0, finished := true)
  {
    TicksCountDown(Initial, Duration);
  }

  /** Clicking the right option of every question finishes the session with full marks. */
  lemma AllCorrectSession()
    ensures Run(Initial, [Press(0), Press(1), Press(1)]).finished
    ensures Run(Initial, [Press(0), Press(1), Press(1)]).selected == AnswerKey(Questions)
    ensures Score(Questions, Run(Initial, [Press(0), Press(1), Press(1)]).selected) == |Questions|
    ensures Passed(Score(Questions, Run(Initial, [Press(0), Press(1), Press(1)]).selected), |Questions|)
  {
    QuestionsWellFormed();
    PerfectScore(Questions);
  }

  /** Right, wrong, right: a score of two out of three, which passes. */
  lemma TwoOfThreeSession()
    ensures Run(Initial, [Press(0), Press(0), Press(1)]).finished
    ensures Score(Questions, Run(Initial, [Press(0), Press(0), Press(1)]).selected) == 2
    ensures Passed(Score(Questions, Run(Initial, [Press(0), Press(0), Press(1)]).selected), |Questions|)
  {
    var events := [Press(0), Press(0), Press(1)];
    var s1 := Step(Initial, Press(0));
    var s2 := Step(s1, Press(0));
    var s3 := Step(s2, Press(1));
    assert events[1..] == [Press(0), Press(1)] && events[1..][1..] == [Press(1)];
    assert Run(Initial, events) == s3;
    var selected := map[1 := "Hyper Text Markup Language", 2 := "GSAP", 3 := "Utility-first CSS framework"];
    assert s3.selected == selected;
    QuestionsWellFormed();
    ScoreMatchesResults(Questions, selected);
    var rows := Results(Questions, selected);
    assert rows[0].correct && !rows[1].correct && rows[2].correct;
    CountCorrectOfThree(rows);
  }

  lemma CountCorrectOfThree(rows: seq<ResultRow>)
    requires |rows| == 3
    ensures CountCorrect(rows) ==
              (if rows[0].correct then 1 else 0) + (if rows[1].correct then 1 else 0) + (if rows[2].correct then 1 else 0)
  {
    assert rows[1..][1..] == rows[2..];
    assert rows[2..][1..] == [];
    assert CountCorrect(rows[2..]) == if rows[2].correct then 1 else 0;
  }

  /** One right answer, then the clock runs out: finished with only that answer, which fails. */
  lemma TimeoutAfterOneSession()
    ensures Run(Initial, [Press(0)] + Ticks(Duration)).finished
    ensures Run(Initial, [Press(0)] + Ticks(Duration)).selected == map[1 := "Hyper Text Markup Language"]
    ensures Score(Questions, Run(Initial, [Press(0)] + Ticks(Duration)).selected) == 1
    ensures !Passed(Score(Questions, Run(Initial, [Press(0)] + Ticks(Duration)).selected), |Questions|)
  {
    var events := [Press(0)] + Ticks(Duration);
    var s1 := Step(Initial, Press(0));
    assert events[1..] == Ticks(Duration);
    TicksCountDown(s1, Duration);
    QuestionsWellFormed();
    Reachable(events);
    ScoreMatchesResults(Questions, Run(Initial, events).selected);
  }

  /** The session state of the page, updated in place by the timer and the option buttons. */
  class QuizSession {
    var current: nat
    var selected: map<int, string>
    var timeLeft: int
    var finished: bool

    /** The fields as one session value. */
    function State(): SessionState
      reads this
    {
      SessionState(current, selected, timeLeft, finished)
    }

    predicate Valid()
      reads this
    {
      Inv(State()) && Offered(State())
    }

    constructor ()
      ensures Valid() && State() == Initial
    {
      current, selected, timeLeft, finished := 0, map[], Duration, false;
    }

    /** One second of the countdown. */
    method Tick()
      modifies this
      ensures State() == TickStep(old(State()))
      ensures old(Valid()) ==> Valid() && Progressed(old(State()), State()) && KeepsAnswers(old(State()), State())
    {
      ghost var before, wasValid := State(), Valid();
      if finished {
        // no interval is scheduled once the results are shown
      } else if timeLeft == 0 {
        finished := true;
      } else {
        timeLeft := timeLeft - 1;
        // the effect runs again on the new time and ends the session at zero
        if timeLeft == 0 {
          finished := true;
        }
      }
      assert State() == TickStep(before);
      if wasValid {
        StepPreservesInv(before, Event.Tick);
      }
    }

    /** The answer handler, as the option buttons call it. It needs a current question to
        read the id of. */
    method Answer(option: string)
      requires current < |Questions|
      modifies this
      ensures State() == AnswerStep(old(State()), option)
      ensures old(Inv(State())) ==> Inv(State()) && Progressed(old(State()), State())
    {
      ghost var before := State();
      selected := selected[Questions[current].id := option];
      if current < |Questions| - 1 {
        current := current + 1;
      } else {
        finished := true;
      }
      assert State() == AnswerStep(before, option);
      if Inv(before) {
        AnswerPreservesInv(before, option);
      }
    }

    /** A click on the option button at `index`, if such a button is on the page. The page
        shows the current question, so there must be one. */
    method PressOption(index: nat)
      requires current < |Questions|
      modifies this
      ensures State() == PressStep(old(State()), index)
      ensures old(Valid()) ==> Valid() && Progressed(old(State()), State()) && KeepsAnswers(old(State()), State())
    {
      ghost var before, wasValid := State(), Valid();
      if !finished && index < |Questions[current].options| {
        Answer(Questions[current].options[index]);
      }
      if wasValid {
        StepPreservesInv(before, Press(index));
      }
    }
  }
}
