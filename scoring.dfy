/** Scoring of a set of recorded answers, the pass verdict and the per-question result rows. */
module Scoring {

  import opened QuestionBank

  /** True when an option is recorded under `id` and it is exactly the answer of the
      question that `find` returns for `id`. */
  predicate IsCorrect(bank: seq<Question>, selected: map<int, string>, id: int) {
    id in selected &&
    match Find(bank, id)
    case Some(q) => selected[id] == q.answer
    case None => false
  }

  /** The recorded ids whose option is correct: the keys kept by the filter of the score.
      With distinct ids, each question's id is kept exactly when the option recorded under
      it is that very question's answer. */
  function CorrectIds(bank: seq<Question>, selected: map<int, string>): (ids: set<int>)
    ensures ids <= selected.Keys
    ensures DistinctIds(bank) ==> forall i :: 0 <= i < |bank| ==>
              (bank[i].id in ids <==> bank[i].id in selected && selected[bank[i].id] == bank[i].answer)
  {
    var ids := set k | k in selected && IsCorrect(bank, selected, k);
    assert DistinctIds(bank) ==> forall i :: 0 <= i < |bank| ==> Find(bank, bank[i].id) == Some(bank[i]) by {
      if DistinctIds(bank) {
        forall i | 0 <= i < |bank| ensures Find(bank, bank[i].id) == Some(bank[i]) {
          FindById(bank, i);
        }
      }
    }
    ids
  }

  /** The number of recorded answers that equal their question's answer. Every recorded
      id must be the id of some question, or the lookup of the score fails. */
  function Score(bank: seq<Question>, selected: map<int, string>): (n: nat)
    requires selected.Keys <= IdsOf(bank)
    ensures n <= |selected| <= |bank|
  {
    CardinalityOfSubset(CorrectIds(bank, selected), selected.Keys);
    CardinalityOfSubset(selected.Keys, IdsOf(bank));
    |CorrectIds(bank, selected)|
  }

  lemma CardinalityOfSubset(a: set<int>, b: set<int>)
    requires a <= b
    ensures |a| <= |b|
  {
    assert b == a + (b - a);
  }

  /** The pass verdict for `score` out of `n` questions: at least half, ties passing. */
  function Passed(score: nat, n: nat): (p: bool)
    ensures p <==> score as real >= n as real / 2.0
  {
    2 * score >= n
  }

  /** The text shown for a question nobody answered. */
  const NotAnswered: string := "Not Answered"

  /** One line of the results view. */
  datatype ResultRow = ResultRow(prompt: string, shown: string, correct: bool, answer: string)

  /** The results line of question `q`: the recorded option, or the placeholder when there
      is none (or it is the empty string), marked correct when it equals the answer. */
  function RowOf(q: Question, selected: map<int, string>): (row: ResultRow)
    ensures row.prompt == q.prompt && row.answer == q.answer
    ensures row.correct <==> q.id in selected && selected[q.id] == q.answer
    ensures q.id !in selected ==> row.shown == NotAnswered && !row.correct
    ensures q.id in selected && selected[q.id] != "" ==> row.shown == selected[q.id]
    ensures q.id in selected && selected[q.id] == "" ==> row.shown == NotAnswered
  {
    var chosen := if q.id in selected then selected[q.id] else "";
    ResultRow(q.prompt,
              if chosen != "" then chosen else NotAnswered,
              q.id in selected && selected[q.id] == q.answer,
              q.answer)
  }

  /** The results view: one row per question, in bank order. */
  function Results(bank: seq<Question>, selected: map<int, string>): (rows: seq<ResultRow>)
    ensures |rows| == |bank|
    ensures forall i :: 0 <= i < |bank| ==> rows[i] == RowOf(bank[i], selected)
  {
    if bank == [] then [] else [RowOf(bank[0], selected)] + Results(bank[1..], selected)
  }

  /** The number of rows marked correct. */
  function CountCorrect(rows: seq<ResultRow>): (n: nat)
    ensures n <= |rows|
  {
    if rows == [] then 0 else (if rows[0].correct then 1 else 0) + CountCorrect(rows[1..])
  }

  /** The map that records the right answer under every question's id. */
  function AnswerKey(bank: seq<Question>): (key: map<int, string>)
    ensures key.Keys == IdsOf(bank)
  {
    if bank == [] then map[]
    else
      var init, last := bank[..|bank| - 1], bank[|bank| - 1];
      AnswerKey(init)[last.id := last.answer]
  }

  /** With distinct ids, the answer key holds each question's answer under its id. */
  lemma {:induction false} AnswerKeyAt(bank: seq<Question>, i: nat)
    requires DistinctIds(bank) && i < |bank|
    ensures bank[i].id in AnswerKey(bank) && AnswerKey(bank)[bank[i].id] == bank[i].answer
  {
    var init := bank[..|bank| - 1];
    if i < |init| {
      assert init[i] == bank[i];
      AnswerKeyAt(init, i);
    }
  }

  /** Splitting off the first question of a bank with distinct ids splits off its id
      from the correct ids. */
  lemma CorrectIdsCons(bank: seq<Question>, selected: map<int, string>)
    requires DistinctIds(bank) && bank != []
    ensures bank[0].id !in CorrectIds(bank[1..], selected)
    ensures CorrectIds(bank, selected) ==
              (if IsCorrect(bank, selected, bank[0].id) then {bank[0].id} else {}) + CorrectIds(bank[1..], selected)
  {
    var q, rest := bank[0], bank[1..];
    assert Find(rest, q.id).None?;
    forall k | k != q.id ensures IsCorrect(bank, selected, k) == IsCorrect(rest, selected, k) {
      assert Find(bank, k) == Find(rest, k);
    }
  }

  /** With distinct ids, the correct ids are as many as the result rows marked correct. */
  lemma {:induction false} CorrectIdsMatchRows(bank: seq<Question>, selected: map<int, string>)
    requires DistinctIds(bank)
    ensures |CorrectIds(bank, selected)| == CountCorrect(Results(bank, selected))
  {
    if bank != [] {
      var rows := Results(bank, selected);
      CorrectIdsMatchRows(bank[1..], selected);
      CorrectIdsCons(bank, selected);
      assert rows[1..] == Results(bank[1..], selected);
    }
  }

  /** The score is the number of correct rows of the results view. */
  lemma ScoreMatchesResults(bank: seq<Question>, selected: map<int, string>)
    requires DistinctIds(bank) && selected.Keys <= IdsOf(bank)
    ensures Score(bank, selected) == CountCorrect(Results(bank, selected))
  {
    CorrectIdsMatchRows(bank, selected);
  }

  /** Answering every question with its answer scores every question, and passes. */
  lemma PerfectScore(bank: seq<Question>)
    requires DistinctIds(bank)
    ensures Score(bank, AnswerKey(bank)) == |bank|
    ensures Passed(Score(bank, AnswerKey(bank)), |bank|)
  {
    var key := AnswerKey(bank);
    forall i | 0 <= i < |bank| ensures Results(bank, key)[i].correct {
      AnswerKeyAt(bank, i);
    }
    AllRowsCorrect(Results(bank, key));
    ScoreMatchesResults(bank, key);
  }

  lemma {:induction false} AllRowsCorrect(rows: seq<ResultRow>)
    requires forall i :: 0 <= i < |rows| ==> rows[i].correct
    ensures CountCorrect(rows) == |rows|
  {
    if rows != [] {
      AllRowsCorrect(rows[1..]);
    }
  }

  /** An unanswered question is shown as not answered and counted as wrong. */
  lemma UnansweredRow(bank: seq<Question>, selected: map<int, string>, i: nat)
    requires i < |bank| && bank[i].id !in selected
    ensures Results(bank, selected)[i].shown == NotAnswered
    ensures !Results(bank, selected)[i].correct
  {
  }

  /** With three questions, two right answers pass and one fails. */
  lemma PassThresholdForThree()
    ensures Passed(2, 3) && !Passed(1, 3)
  {
  }
}
