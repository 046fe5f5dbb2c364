/** The static question bank of the quiz and the lookups made on it. */
module QuestionBank {

  datatype Option<T> = None | Some(value: T)

  /** One multiple-choice question: its id, its prompt, the options offered and the right one. */
  datatype Question = Question(id: int, prompt: string, options: seq<string>, answer: string)

  /** The bank the quiz is compiled with, in the order the questions are shown. */
  const Questions: seq<Question> := [
    Question(1, "What does HTML stand for?",
             ["Hyper Text Markup Language", "Home Tool Markup Language", "Hyperlinks and Text Markup Language"],
             "Hyper Text Markup Language"),
    Question(2, "Which library is used for animations in React?",
             ["GSAP", "Framer Motion", "Anime.js"],
             "Framer Motion"),
    Question(3, "Tailwind CSS is a?",
             ["CSS Framework", "Utility-first CSS framework", "CSS Library"],
             "Utility-first CSS framework")
  ]

  /** No two questions of `bank` share an id. */
  predicate DistinctIds(bank: seq<Question>) {
    forall i, j :: 0 <= i < j < |bank| ==> bank[i].id != bank[j].id
  }

  /** A bank the quiz can run on: not empty, positive distinct ids, at least two
      distinct non-empty options per question, and the answer among them (so it is
      exactly one of them). */
  predicate WellFormed(bank: seq<Question>) {
    && |bank| > 0
    && DistinctIds(bank)
    && forall i :: 0 <= i < |bank| ==>
         && bank[i].id > 0
         && |bank[i].options| >= 2
         && bank[i].answer in bank[i].options
         && "" !in bank[i].options
         && DistinctOptions(bank[i])
  }

  /** No option of `q` is offered twice. */
  predicate DistinctOptions(q: Question) {
    forall j, l :: 0 <= j < l < |q.options| ==> q.options[j] != q.options[l]
  }

  /** The set of ids of the questions in `bank`. */
  function IdsOf(bank: seq<Question>): (ids: set<int>)
    ensures |ids| <= |bank|
  {
    if bank == [] then {}
    else
      var init := bank[..|bank| - 1];
      IdsOf(init) + {bank[|bank| - 1].id}
  }

  /** An id is in the id set exactly when some question of the bank carries it. */
  lemma {:induction false} IdsOfMember(bank: seq<Question>, k: int)
    ensures k in IdsOf(bank) <==> exists i :: 0 <= i < |bank| && bank[i].id == k
  {
    if bank != [] {
      var init := bank[..|bank| - 1];
      IdsOfMember(init, k);
      if exists i :: 0 <= i < |init| && init[i].id == k {
        var i :| 0 <= i < |init| && init[i].id == k;
        assert bank[i].id == k;
      }
      if exists i :: 0 <= i < |bank| && bank[i].id == k {
        var i :| 0 <= i < |bank| && bank[i].id == k;
        if i < |init| {
          assert init[i].id == k;
        }
      }
    }
  }

  /** The first question of `bank` whose id is `id`, as `Array.prototype.find` gives it. */
  function Find(bank: seq<Question>, id: int): (r: Option<Question>)
    ensures r.None? <==> forall i :: 0 <= i < |bank| ==> bank[i].id != id
    ensures r.Some? ==> exists i :: 0 <= i < |bank| && bank[i] == r.value &&
                                     r.value.id == id && forall j :: 0 <= j < i ==> bank[j].id != id
  {
    if bank == [] then None
    else if bank[0].id == id then Some(bank[0])
    else
      var r := Find(bank[1..], id);
      assert r.Some? ==> exists i :: 0 < i < |bank| && bank[i] == r.value &&
                                     r.value.id == id && forall j :: 0 <= j < i ==> bank[j].id != id;
      r
  }

  /** Asking for the id of a question of a bank with distinct ids finds that very question. */
  lemma FindById(bank: seq<Question>, i: nat)
    requires DistinctIds(bank) && i < |bank|
    ensures Find(bank, bank[i].id) == Some(bank[i])
  {
  }

  /** The ids of a prefix grow by one id when the prefix grows by one question. */
  lemma IdsOfExtend(bank: seq<Question>, c: nat)
    requires c < |bank|
    ensures IdsOf(bank[..c + 1]) == IdsOf(bank[..c]) + {bank[c].id}
  {
    assert bank[..c + 1][..c] == bank[..c];
  }

  /** The ids of a prefix are ids of the whole bank. */
  lemma IdsOfPrefix(bank: seq<Question>, c: nat)
    requires c <= |bank|
    ensures IdsOf(bank[..c]) <= IdsOf(bank)
  {
    forall k | k in IdsOf(bank[..c]) ensures k in IdsOf(bank) {
      IdsOfMember(bank[..c], k);
      var i :| 0 <= i < c && bank[..c][i].id == k;
      assert bank[i].id == k;
      IdsOfMember(bank, k);
    }
  }

  /** The compiled-in bank is well formed. */
  lemma QuestionsWellFormed()
    ensures WellFormed(Questions) && |Questions| == 3
  {
  }
}
