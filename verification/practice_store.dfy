/** The server's practice sessions as transitions on an explicit store: the
    registered practices, the wrong-problem ledger, the history list and the
    generator's recent-text window. Every transition returns the new store and an
    outcome code (200, 404 or 500) with the data the handler answers with. */
module PracticeStore {
  import opened Wrappers
  import opened Arith
  import opened Seqs
  import opened ProblemGenerator

  const Ok := 200
  const NotFound := 404
  const ServerError := 500

  /** A recorded answer; a `None` value is the `NaN` of an unparsable submission. */
  datatype Answer = Answer(value: Option<real>, isCorrect: bool)

  /** What finishing adds to a practice; `accuracy` is `None` when nothing was answered. */
  datatype Summary = Summary(endTime: int, totalTime: real, score: int, accuracy: Option<real>)

  datatype Practice = Practice(
    id: int,
    grade: int,
    problems: seq<Problem>,
    startTime: int,
    answers: seq<Option<Answer>>,
    isCompleted: bool,
    summary: Option<Summary>)

  datatype WrongEntry = WrongEntry(
    id: int,
    problem: Problem,
    wrongAnswer: Option<real>,
    wrongCount: nat,
    lastWrongDate: int,
    mastered: bool)

  /** A problem of a history record, paired with the answer given to it. */
  datatype Annotated = Annotated(problem: Problem, answer: Option<Answer>)

  datatype HistoryRecord = HistoryRecord(
    id: int,
    date: int,
    grade: int,
    problemCount: nat,
    correctCount: nat,
    totalAnswered: nat,
    score: int,
    accuracy: Option<real>,
    totalTime: real,
    problems: seq<Annotated>)

  datatype Store = Store(
    practices: seq<Practice>,
    wrongProblems: seq<WrongEntry>,
    history: seq<HistoryRecord>,
    window: Window)

  /** The new store, the outcome code and the reply's data (present exactly on 200). */
  datatype Step<T> = Step(store: Store, code: int, data: Option<T>)

  const EmptyStore := Store([], [], [], [])

  function EntryText(e: WrongEntry): string {
    e.problem.text
  }

  /** The ledger holds at most one entry per problem text. */
  predicate LedgerOk(ledger: seq<WrongEntry>) {
    KeysUnique(ledger, EntryText)
  }

  /** What every transition keeps: answers index-aligned with problems, a unique
      ledger and a bounded window. */
  predicate StoreOk(s: Store) {
    && (forall i :: 0 <= i < |s.practices| ==>
          |s.practices[i].answers| == |s.practices[i].problems|)
    && LedgerOk(s.wrongProblems)
    && WindowOk(s.window)
  }

  lemma EmptyStoreOk()
    ensures StoreOk(EmptyStore)
  {
  }

  // ---------------------------------------------------------------------------
  // startPractice

  const Retries := 3

  /** How the loop of `startPractice` obtains problem `k` from the current window. */
  type Generator = (nat, Window) -> GenResult

  /** `generateProblem(grade)` as `startPractice` calls it: problem `k` uses its own
      draws, and every call reads the clock as `now`. */
  function GeneratorAt(grade: int, draws: seq<seq<Draw>>, now: int): (gen: Generator)
    requires forall k :: 0 <= k < |draws| ==> |draws[k]| >= MaxAttempts
    ensures forall k: nat, v: Window :: k < |draws| ==>
      gen(k, v) == GenerateProblem(grade, "medium", draws[k], now, v)
  {
    (k: nat, v: Window) =>
      if k < |draws| then GenerateProblem(grade, "medium", draws[k], now, v) else GenResult(None, v)
  }

  /** No call for problems `i` to `n - 1` returns `null`, whatever the window. */
  ghost predicate NeverNull(gen: Generator, i: nat, n: int) {
    forall k: nat, v: Window :: i <= k < n ==> gen(k, v).problem.Some?
  }

  /** Problems `i` to `n - 1` generated one after another, each from the window the
      previous one left: the reference the retry loop is measured against. Returns the
      problems and the final window. */
  function Generated(gen: Generator, i: nat, n: nat, w: Window): (r: (seq<Problem>, Window))
    requires i <= n && NeverNull(gen, i, n)
    ensures |r.0| == n - i
    ensures (forall k: nat, v: Window :: i <= k < n && WindowOk(v) ==> WindowOk(gen(k, v).window))
      ==> WindowOk(w) ==> WindowOk(r.1)
    decreases n - i
  {
    if i == n then ([], w)
    else
      var g := gen(i, w);
      var rest := Generated(gen, i + 1, n, g.window);
      ([g.problem.value] + rest.0, rest.1)
  }

  /** When every call for problems `i` to `n - 1` answers a problem of `grade`, so do
      all the problems generated. */
  lemma {:induction false} GeneratedGrades(gen: Generator, i: nat, n: nat, w: Window, grade: int)
    requires i <= n && NeverNull(gen, i, n)
    requires forall k: nat, v: Window :: i <= k < n ==> gen(k, v).problem.value.grade == grade
    ensures forall j :: 0 <= j < n - i ==> Generated(gen, i, n, w).0[j].grade == grade
    decreases n - i
  {
    if i < n {
      var g := gen(i, w);
      GeneratedGrades(gen, i + 1, n, g.window, grade);
      var r := Generated(gen, i, n, w).0;
      assert forall j :: 1 <= j < n - i ==> r[j] == Generated(gen, i + 1, n, g.window).0[j - 1];
    }
  }

  /** The generation loop of `startPractice` from index `i` with `failed` null results
      so far: a null result retries the same index, and the third one in all aborts. */
  function GenerateAll(gen: Generator, n: int, i: nat, failed: nat, acc: seq<Problem>, w: Window)
    : (r: (Option<seq<Problem>>, Window))
    requires failed < Retries
    ensures r.0.Some? ==> |r.0.value| == |acc| + (if i < n then n - i else 0)
    ensures r.0.Some? ==> r.0.value[..|acc|] == acc
    ensures i >= n ==> r == (Some(acc), w)
    ensures i < n && (forall v :: gen(i, v).problem.None? && gen(i, v).window == v) ==> r == (None, w)
    decreases n - i, Retries - failed
  {
    if i >= n then (Some(acc), w)
    else
      var g := gen(i, w);
      if g.problem.None? then
        if failed + 1 >= Retries then (None, g.window)
        else GenerateAll(gen, n, i, failed + 1, acc, g.window)
      else
        var r := GenerateAll(gen, n, i + 1, failed, acc + [g.problem.value], g.window);
        assert r.0.Some? ==> r.0.value[..|acc|] == (acc + [g.problem.value])[..|acc|];
        r
  }

  /** When no call returns `null` the loop never retries: it appends exactly the
      problems generated one after another, and leaves the window they leave. */
  lemma {:induction false} GenerateAllIsGenerated(gen: Generator, n: nat, i: nat, failed: nat,
                                                  acc: seq<Problem>, w: Window)
    requires failed < Retries && i <= n && NeverNull(gen, i, n)
    ensures GenerateAll(gen, n, i, failed, acc, w)
      == (Some(acc + Generated(gen, i, n, w).0), Generated(gen, i, n, w).1)
    decreases n - i
  {
    if i == n {
      assert acc + [] == acc;
    } else {
      var g := gen(i, w);
      var rest := Generated(gen, i + 1, n, g.window);
      GenerateAllIsGenerated(gen, n, i + 1, failed, acc + [g.problem.value], g.window);
      assert acc + [g.problem.value] + rest.0 == acc + ([g.problem.value] + rest.0);
    }
  }

  /** What the generator offers the loop of `startPractice`: calls never return `null`
      for a configured grade and always do, leaving the window, for any other; windows
      stay bounded and distinct; every problem carries the grade. */
  lemma GeneratorAtFacts(grade: int, draws: seq<seq<Draw>>, now: int, n: int)
    requires forall k :: 0 <= k < |draws| ==> |draws[k]| >= MaxAttempts
    requires n <= |draws|
    ensures var gen := GeneratorAt(grade, draws, now);
      && (GradeConfigs(grade).Some? ==> NeverNull(gen, 0, n))
      && (GradeConfigs(grade).None? ==>
            forall k: nat, v: Window :: k < n ==> gen(k, v).problem.None? && gen(k, v).window == v)
      && (forall k: nat, v: Window :: k < n && WindowOk(v) ==> WindowOk(gen(k, v).window))
      && (GradeConfigs(grade).Some? ==>
            forall k: nat, v: Window :: k < n ==> gen(k, v).problem.value.grade == grade)
  {
  }

  /** `startPractice(grade, count)`: clears the window, generates `count` problems
      (10 when absent) and registers a practice with an all-empty answer list.
      Generation fails only for a grade the table lacks; `count` 0 then still
      registers an empty practice, and a negative count always fails. */
  function StartPractice(s: Store, grade: int, count: Option<int>, draws: seq<seq<Draw>>,
                         now: int): (r: Step<Practice>)
    requires count.GetOr(10) <= |draws|
    requires forall k :: 0 <= k < |draws| ==> |draws[k]| >= MaxAttempts
    ensures var n := count.GetOr(10);
      r.code == Ok <==> n == 0 || (n > 0 && GradeConfigs(grade).Some?)
    ensures r.code != Ok ==> r.code == ServerError && r.data.None? && r.store == s.(window := [])
    ensures r.code == Ok ==> r.data.Some?
    ensures r.code == Ok ==>
      var p := r.data.value;
      && r.store.practices == s.practices + [p]
      && r.store.wrongProblems == s.wrongProblems && r.store.history == s.history
      && p.id == now && p.grade == grade && !p.isCompleted && p.summary.None?
      && |p.problems| == count.GetOr(10) && |p.answers| == |p.problems|
      && (forall k :: 0 <= k < |p.answers| ==> p.answers[k].None?)
      && (forall k :: 0 <= k < |p.problems| ==> p.problems[k].grade == grade)
    ensures StoreOk(s) ==> StoreOk(r.store)
  {
    var n := count.GetOr(10);
    var w := ClearRecentProblems(s.window);
    var gen := GeneratorAt(grade, draws, now);
    GeneratorAtFacts(grade, draws, now, n);
    if n > 0 && GradeConfigs(grade).Some? then
      GenerateAllIsGenerated(gen, n, 0, 0, [], w);
      GeneratedGrades(gen, 0, n, w, grade);
      StartWith(s, grade, n, gen, w, now)
    else
      StartWith(s, grade, n, gen, w, now)
  }

  /** A successful start holds exactly the problems `generateProblem` returns on each
      problem's draws in turn, each call seeing the window the previous one left, and
      keeps the window the last call left. */
  lemma StartPracticeGenerates(s: Store, grade: int, count: Option<int>, draws: seq<seq<Draw>>,
                               now: int)
    requires count.GetOr(10) <= |draws|
    requires forall k :: 0 <= k < |draws| ==> |draws[k]| >= MaxAttempts
    ensures var r := StartPractice(s, grade, count, draws, now);
      r.code == Ok && count.GetOr(10) > 0 ==>
      var gen := GeneratorAt(grade, draws, now);
      && NeverNull(gen, 0, count.GetOr(10))
      && r.data.value.problems == Generated(gen, 0, count.GetOr(10), []).0
      && r.store.window == Generated(gen, 0, count.GetOr(10), []).1
  {
    var n := count.GetOr(10);
    var gen := GeneratorAt(grade, draws, now);
    GeneratorAtFacts(grade, draws, now, n);
    if n > 0 && GradeConfigs(grade).Some? {
      GenerateAllIsGenerated(gen, n, 0, 0, [], []);
      assert [] + Generated(gen, 0, n, []).0 == Generated(gen, 0, n, []).0;
    }
  }

  /** The rest of `startPractice` once the window is cleared: run the loop, then
      register the practice when it produced `n` problems. */
  function StartWith(s: Store, grade: int, n: int, gen: Generator, w: Window, now: int)
    : (r: Step<Practice>)
    ensures var (problems, w') := GenerateAll(gen, n, 0, 0, [], w);
      && (r.code == Ok <==> problems.Some? && |problems.value| == n)
      && (r.code != Ok ==> r == Step(s.(window := w'), ServerError, None))
      && (r.code == Ok ==>
            && r.data.Some? && r.data.value.problems == problems.value
            && r.store == s.(practices := s.practices + [r.data.value], window := w')
            && r.data.value.id == now && r.data.value.grade == grade
            && !r.data.value.isCompleted && r.data.value.summary.None?
            && |r.data.value.answers| == n
            && forall k :: 0 <= k < n ==> r.data.value.answers[k].None?)
  {
    var (problems, w') := GenerateAll(gen, n, 0, 0, [], w);
    if problems.None? || |problems.value| != n then Step(s.(window := w'), ServerError, None)
    else
      var ps := problems.value;
      var p := Practice(now, grade, ps, now, seq(|ps|, _ => None), false, None);
      Step(s.(practices := s.practices + [p], window := w'), Ok, Some(p))
  }

  // ---------------------------------------------------------------------------
  // submitAnswer

  /** `practices.find(p => p.id === id)`: the first practice with that id. */
  function FindPractice(ps: seq<Practice>, id: int): (r: Option<nat>)
    ensures r.Some? ==> r.value < |ps| && ps[r.value].id == id
    ensures r.Some? ==> forall j :: 0 <= j < r.value ==> ps[j].id != id
    ensures r.None? ==> forall j :: 0 <= j < |ps| ==> ps[j].id != id
  {
    if |ps| == 0 then None
    else if ps[0].id == id then Some(0)
    else match FindPractice(ps[1..], id)
      case None => None
      case Some(j) => Some(j + 1)
  }

  function Abs(x: real): real {
    if x < 0.0 then -x else x
  }

  /** An answer is correct when it is a number within 0.0001 of the stored answer. */
  predicate IsCorrect(answer: real, value: Option<real>) {
    value.Some? && Abs(answer - value.value) < 0.0001
  }

  /** `wrongProblems.find(wp => wp.problem.text === text)`. */
  function FindText(ledger: seq<WrongEntry>, text: string): (r: Option<nat>)
    ensures r.Some? ==> r.value < |ledger| && ledger[r.value].problem.text == text
    ensures r.Some? ==> forall j :: 0 <= j < r.value ==> ledger[j].problem.text != text
    ensures r.None? ==> forall j :: 0 <= j < |ledger| ==> ledger[j].problem.text != text
  {
    if |ledger| == 0 then None
    else if ledger[0].problem.text == text then Some(0)
    else match FindText(ledger[1..], text)
      case None => None
      case Some(j) => Some(j + 1)
  }

  /** The ledger upsert of a wrong answer: an entry with the same text counts one
      more miss and takes the new date; otherwise a new entry with count 1 is appended. */
  function RecordWrong(ledger: seq<WrongEntry>, p: Problem, value: Option<real>, now: int)
    : (r: seq<WrongEntry>)
    ensures LedgerOk(ledger) ==> LedgerOk(r)
    ensures (exists j :: 0 <= j < |ledger| && ledger[j].problem.text == p.text) ==>
      && |r| == |ledger|
      && exists j :: 0 <= j < |ledger| && ledger[j].problem.text == p.text
           && r == ledger[j := ledger[j].(wrongCount := ledger[j].wrongCount + 1,
                                          lastWrongDate := now)]
    ensures (forall j :: 0 <= j < |ledger| ==> ledger[j].problem.text != p.text) ==>
      r == ledger + [WrongEntry(now, p, value, 1, now, false)]
  {
    match FindText(ledger, p.text)
    case Some(j) =>
      var e := ledger[j];
      ledger[j := e.(wrongCount := e.wrongCount + 1, lastWrongDate := now)]
    case None =>
      ledger + [WrongEntry(now, p, value, 1, now, false)]
  }

  /** The misses recorded against a text, summed over the ledger. */
  function Misses(ledger: seq<WrongEntry>, text: string): nat {
    if |ledger| == 0 then 0
    else
      (if ledger[0].problem.text == text then ledger[0].wrongCount else 0)
      + Misses(ledger[1..], text)
  }

  lemma {:induction false} MissesUpdate(ledger: seq<WrongEntry>, j: nat, e: WrongEntry, text: string)
    requires j < |ledger| && e.problem.text == ledger[j].problem.text
    ensures Misses(ledger[j := e], text) + (if e.problem.text == text then ledger[j].wrongCount else 0)
      == Misses(ledger, text) + (if e.problem.text == text then e.wrongCount else 0)
  {
    if j > 0 {
      assert ledger[j := e][1..] == ledger[1..][j - 1 := e];
      MissesUpdate(ledger[1..], j - 1, e, text);
    } else {
      assert ledger[j := e][1..] == ledger[1..];
    }
  }

  lemma {:induction false} MissesAppend(ledger: seq<WrongEntry>, e: WrongEntry, text: string)
    ensures Misses(ledger + [e], text)
      == Misses(ledger, text) + (if e.problem.text == text then e.wrongCount else 0)
  {
    if |ledger| > 0 {
      assert (ledger + [e])[1..] == ledger[1..] + [e];
      MissesAppend(ledger[1..], e, text);
    } else {
      assert (ledger + [e])[1..] == [];
    }
  }

  /** A wrong answer adds exactly one miss to its text and none to any other. */
  lemma RecordWrongCountsOneMiss(ledger: seq<WrongEntry>, p: Problem, value: Option<real>,
                                 now: int, text: string)
    ensures Misses(RecordWrong(ledger, p, value, now), text)
      == Misses(ledger, text) + (if text == p.text then 1 else 0)
  {
    match FindText(ledger, p.text)
    case Some(j) =>
      var e := ledger[j];
      MissesUpdate(ledger, j, e.(wrongCount := e.wrongCount + 1, lastWrongDate := now), text);
    case None =>
      MissesAppend(ledger, WrongEntry(now, p, value, 1, now, false), text);
  }

  /** `submitAnswer(practiceId, problemIndex, answer)`: 404 for an unknown practice
      or an index holding no problem; otherwise the graded answer replaces
      `answers[problemIndex]` and a wrong one is recorded in the ledger. */
  function SubmitAnswer(s: Store, practiceId: int, problemIndex: int, value: Option<real>,
                        now: int): (r: Step<bool>)
    ensures r.code == Ok || r.code == NotFound
    ensures r.code == NotFound <==>
      FindPractice(s.practices, practiceId).None?
      || !(0 <= problemIndex < |s.practices[FindPractice(s.practices, practiceId).value].problems|)
    ensures r.code == NotFound ==> r.store == s && r.data.None?
    ensures r.code == Ok ==>
      var k := FindPractice(s.practices, practiceId).value;
      var p := s.practices[k];
      var problem := p.problems[problemIndex];
      var correct := IsCorrect(problem.answer, value);
      && r.data == Some(correct)
      && r.store.history == s.history && r.store.window == s.window
      && |r.store.practices| == |s.practices|
      && (forall j :: 0 <= j < |s.practices| && j != k ==> r.store.practices[j] == s.practices[j])
      && r.store.practices[k] == p.(answers := ArraySet(p.answers, problemIndex, Answer(value, correct)))
      && (correct ==> r.store.wrongProblems == s.wrongProblems)
      && (!correct ==> r.store.wrongProblems == RecordWrong(s.wrongProblems, problem, value, now))
    ensures StoreOk(s) ==> StoreOk(r.store)
  {
    match FindPractice(s.practices, practiceId)
    case None => Step(s, NotFound, None)
    case Some(k) =>
      var p := s.practices[k];
      if !(0 <= problemIndex < |p.problems|) then Step(s, NotFound, None)
      else
        var problem := p.problems[problemIndex];
        var correct := IsCorrect(problem.answer, value);
        var p' := p.(answers := ArraySet(p.answers, problemIndex, Answer(value, correct)));
        var ledger := if correct then s.wrongProblems
                      else RecordWrong(s.wrongProblems, problem, value, now);
        Step(s.(practices := s.practices[k := p'], wrongProblems := ledger), Ok, Some(correct))
  }

  // ---------------------------------------------------------------------------
  // finishPractice

  function CountAnswered(answers: seq<Option<Answer>>): nat {
    if |answers| == 0 then 0
    else (if answers[0].Some? then 1 else 0) + CountAnswered(answers[1..])
  }

  function CountCorrect(answers: seq<Option<Answer>>): nat {
    if |answers| == 0 then 0
    else
      (if answers[0].Some? && answers[0].value.isCorrect then 1 else 0)
      + CountCorrect(answers[1..])
  }

  /** Correct answers are among the answered ones, which are among all slots. */
  lemma {:induction false} CountsBounded(answers: seq<Option<Answer>>)
    ensures CountCorrect(answers) <= CountAnswered(answers) <= |answers|
  {
    if |answers| > 0 {
      CountsBounded(answers[1..]);
    }
  }

  /** Answering a slot counts it as answered once, however often it is answered. */
  lemma {:induction false} CountAnsweredAfterAnswer(answers: seq<Option<Answer>>, i: nat, a: Answer)
    requires i < |answers|
    ensures CountAnswered(answers[i := Some(a)])
      == CountAnswered(answers) + (if answers[i].None? then 1 else 0)
  {
    if i == 0 {
      assert answers[i := Some(a)][1..] == answers[1..];
    } else {
      assert answers[i := Some(a)][1..] == answers[1..][i - 1 := Some(a)];
      CountAnsweredAfterAnswer(answers[1..], i - 1, a);
    }
  }

  /** The score: `Math.round(100 * correct / answered)`, or 0 for no answers. */
  function Score(correct: nat, answered: nat): (score: int)
    requires correct <= answered
    ensures answered == 0 ==> score == 0
    ensures 0 <= score <= 100
    ensures answered > 0 ==>
      (score as real) - 0.5 <= 100.0 * (correct as real) / (answered as real) < (score as real) + 0.5
  {
    if answered == 0 then 0
    else
      var x := 100.0 * (correct as real) / (answered as real);
      assert x <= 100.0 by {
        assert (correct as real) / (answered as real) <= 1.0;
      }
      RoundHalfUp(x)
  }

  /** The accuracy percentage to one decimal place; `None` stands for the `"NaN"` of
      zero answers. */
  function Accuracy(correct: nat, answered: nat): (a: Option<real>)
    requires correct <= answered
    ensures a.None? <==> answered == 0
    ensures a.Some? ==> 0.0 <= a.value <= 100.0
    ensures a.Some? ==> -0.05 <= a.value - 100.0 * (correct as real) / (answered as real) <= 0.05
    ensures correct == answered && answered > 0 ==> a == Some(100.0)
  {
    if answered == 0 then None
    else
      assert (correct as real) / (answered as real) <= 1.0;
      var x := 100.0 * (correct as real) / (answered as real);
      assert correct == answered ==> x == 100.0 && (x * 10.0 + 0.5).Floor == 1000;
      Some(Round1(x))
  }

  /** Problem `i` paired with `answers[i]`, empty where the answer list is shorter. */
  function Annotate(problems: seq<Problem>, answers: seq<Option<Answer>>): (r: seq<Annotated>)
    ensures |r| == |problems|
    ensures forall i :: 0 <= i < |r| ==>
      r[i].problem == problems[i] && r[i].answer == (if i < |answers| then answers[i] else None)
  {
    seq(|problems|, i requires 0 <= i < |problems| =>
      Annotated(problems[i], if i < |answers| then answers[i] else None))
  }

  datatype FinishData = FinishData(
    score: int, totalTime: real, correctCount: nat, totalCount: nat, accuracy: Option<real>)

  /** The history record finishing `p` at `now` appends. */
  function HistoryOf(p: Practice, now: int): (h: HistoryRecord)
    ensures h.id == p.id && h.date == now && h.grade == p.grade
    ensures h.problemCount == |p.problems|
    ensures h.totalAnswered == CountAnswered(p.answers)
    ensures h.correctCount == CountCorrect(p.answers)
    ensures h.correctCount <= h.totalAnswered <= |p.answers|
    ensures h.score == Score(h.correctCount, h.totalAnswered)
    ensures h.accuracy == Accuracy(h.correctCount, h.totalAnswered)
    ensures 0 <= h.score <= 100 && (h.totalAnswered == 0 ==> h.score == 0 && h.accuracy.None?)
    ensures h.totalTime == (now - p.startTime) as real / 1000.0
    ensures h.problems == Annotate(p.problems, p.answers)
  {
    CountsBounded(p.answers);
    var answered := CountAnswered(p.answers);
    var correct := CountCorrect(p.answers);
    HistoryRecord(p.id, now, p.grade, |p.problems|, correct, answered,
      Score(correct, answered), Accuracy(correct, answered),
      (now - p.startTime) as real / 1000.0, Annotate(p.problems, p.answers))
  }

  /** `finishPractice(practiceId)`: 404 for an unknown practice; otherwise the practice
      is marked completed with its summary and one history record is appended, on
      every call. */
  function FinishPractice(s: Store, practiceId: int, now: int): (r: Step<FinishData>)
    ensures r.code == Ok || r.code == NotFound
    ensures r.code == NotFound <==> FindPractice(s.practices, practiceId).None?
    ensures r.code == NotFound ==> r.store == s && r.data.None?
    ensures r.code == Ok ==>
      var k := FindPractice(s.practices, practiceId).value;
      var p := s.practices[k];
      var h := HistoryOf(p, now);
      && r.store.history == s.history + [h]
      && r.store.wrongProblems == s.wrongProblems && r.store.window == s.window
      && r.store.practices == s.practices[k := p.(isCompleted := true,
           summary := Some(Summary(now, h.totalTime, h.score, h.accuracy)))]
      && r.data == Some(FinishData(h.score, h.totalTime, h.correctCount, h.totalAnswered, h.accuracy))
    ensures StoreOk(s) ==> StoreOk(r.store)
  {
    match FindPractice(s.practices, practiceId)
    case None => Step(s, NotFound, None)
    case Some(k) =>
      var p := s.practices[k];
      var h := HistoryOf(p, now);
      var p' := p.(isCompleted := true,
                   summary := Some(Summary(now, h.totalTime, h.score, h.accuracy)));
      Step(s.(practices := s.practices[k := p'], history := s.history + [h]), Ok,
        Some(FinishData(h.score, h.totalTime, h.correctCount, h.totalAnswered, h.accuracy)))
  }

  // ---------------------------------------------------------------------------
  // Queries and removal.

  function GradeIs(grade: int): HistoryRecord -> bool {
    (h: HistoryRecord) => h.grade == grade
  }

  function DateWithin(start: int, end: int): HistoryRecord -> bool {
    (h: HistoryRecord) => start <= h.date <= end
  }

  /** The history filter: the grade when given, the date range when both ends are given. */
  predicate HistoryMatches(h: HistoryRecord, grade: Option<int>, start: Option<int>, end: Option<int>) {
    && (grade.None? || h.grade == grade.value)
    && (start.None? || end.None? || start.value <= h.date <= end.value)
  }

  /** `getPracticeHistory(grade, startDate, endDate)`. */
  function QueryHistory(s: Store, grade: Option<int>, start: Option<int>, end: Option<int>)
    : (r: seq<HistoryRecord>)
    ensures |r| <= |s.history|
    ensures forall h :: h in r <==> h in s.history && HistoryMatches(h, grade, start, end)
  {
    var byGrade := if grade.Some? then Filter(s.history, GradeIs(grade.value)) else s.history;
    if start.Some? && end.Some? then Filter(byGrade, DateWithin(start.value, end.value))
    else byGrade
  }

  /** Queries are unaffected by a record appended later, except that a matching record
      joins the end of the answer: results keep the order of appending. */
  lemma QueryHistoryAppend(s: Store, h: HistoryRecord, grade: Option<int>, start: Option<int>,
                           end: Option<int>)
    ensures QueryHistory(s.(history := s.history + [h]), grade, start, end)
      == QueryHistory(s, grade, start, end) + (if HistoryMatches(h, grade, start, end) then [h] else [])
  {
    var s' := s.(history := s.history + [h]);
    var byGrade := if grade.Some? then Filter(s.history, GradeIs(grade.value)) else s.history;
    var tail := if grade.Some? then Filter([h], GradeIs(grade.value)) else [h];
    if grade.Some? {
      FilterAppend(s.history, [h], GradeIs(grade.value));
    }
    assert (if grade.Some? then Filter(s'.history, GradeIs(grade.value)) else s'.history)
      == byGrade + tail;
    if start.Some? && end.Some? {
      FilterAppend(byGrade, tail, DateWithin(start.value, end.value));
    }
  }

  /** A wrong-problem entry matches the grade when given, and the operation text when
      given and non-empty; the text is compared with the problem's operator glyph, so
      any other text, `×` or `/` among them, matches nothing. */
  predicate WrongMatches(e: WrongEntry, grade: Option<int>, op: Option<string>) {
    && (grade.None? || e.problem.grade == grade.value)
    && (op.None? || op.value == "" || [Glyph(e.problem.op)] == op.value)
  }

  function WrongGradeIs(grade: int): WrongEntry -> bool {
    (e: WrongEntry) => e.problem.grade == grade
  }

  function WrongOpIs(op: string): WrongEntry -> bool {
    (e: WrongEntry) => [Glyph(e.problem.op)] == op
  }

  /** `getWrongProblems(grade, operation)`; `None` is an absent query field. */
  function QueryWrongProblems(s: Store, grade: Option<int>, op: Option<string>): (r: seq<WrongEntry>)
    ensures |r| <= |s.wrongProblems|
    ensures forall e :: e in r <==> e in s.wrongProblems && WrongMatches(e, grade, op)
    ensures LedgerOk(s.wrongProblems) ==> LedgerOk(r)
  {
    var byGrade := if grade.Some? then Filter(s.wrongProblems, WrongGradeIs(grade.value))
                   else s.wrongProblems;
    FilterKeepsKeysUnique(s.wrongProblems, WrongGradeIs(grade.GetOr(0)), EntryText);
    if op.Some? && op.value != "" then
      FilterKeepsKeysUnique(byGrade, WrongOpIs(op.value), EntryText);
      Filter(byGrade, WrongOpIs(op.value))
    else byGrade
  }

  /** An entry appended to the ledger later joins the end of the answer exactly when it
      matches: the query is an order-preserving subsequence of the ledger. */
  lemma QueryWrongProblemsAppend(s: Store, e: WrongEntry, grade: Option<int>, op: Option<string>)
    ensures QueryWrongProblems(s.(wrongProblems := s.wrongProblems + [e]), grade, op)
      == QueryWrongProblems(s, grade, op) + (if WrongMatches(e, grade, op) then [e] else [])
  {
    var byGrade := if grade.Some? then Filter(s.wrongProblems, WrongGradeIs(grade.value))
                   else s.wrongProblems;
    var tail := if grade.Some? then Filter([e], WrongGradeIs(grade.value)) else [e];
    if grade.Some? {
      FilterAppend(s.wrongProblems, [e], WrongGradeIs(grade.value));
    }
    if op.Some? && op.value != "" {
      FilterAppend(byGrade, tail, WrongOpIs(op.value));
    }
  }

  /** An operation text that is no operator's glyph, such as `×`, selects nothing. */
  lemma QueryWrongProblemsUnknownOperation(s: Store, grade: Option<int>, op: string)
    requires op != "" && ParseOp(op).None?
    ensures QueryWrongProblems(s, grade, Some(op)) == []
  {
    var r := QueryWrongProblems(s, grade, Some(op));
    if |r| > 0 {
      assert r[0] in r;
      ParseOpOfGlyph(r[0].problem.op);
      assert false;
    }
  }

  function IdIsNot(id: int): WrongEntry -> bool {
    (e: WrongEntry) => e.id != id
  }

  /** `removeWrongProblem(problemId)`: drops every entry with that id, a no-op when none
      has it; always 200. */
  function RemoveWrongProblem(s: Store, id: int): (r: Step<()>)
    ensures r.code == Ok && r.data == Some(())
    ensures r.store.practices == s.practices && r.store.history == s.history
    ensures r.store.window == s.window
    ensures forall e :: e in r.store.wrongProblems <==> e in s.wrongProblems && e.id != id
    ensures (forall j :: 0 <= j < |s.wrongProblems| ==> s.wrongProblems[j].id != id) ==>
      r.store == s
    ensures StoreOk(s) ==> StoreOk(r.store)
  {
    var kept := Filter(s.wrongProblems, IdIsNot(id));
    FilterKeepsAll(s.wrongProblems, IdIsNot(id));
    FilterKeepsKeysUnique(s.wrongProblems, IdIsNot(id), EntryText);
    Step(s.(wrongProblems := kept), Ok, Some(()))
  }

  /** An entry appended to the ledger survives removal, at the end, exactly when its id
      differs: removal keeps the remaining entries in ledger order. */
  lemma RemoveWrongProblemAppend(s: Store, e: WrongEntry, id: int)
    ensures RemoveWrongProblem(s.(wrongProblems := s.wrongProblems + [e]), id).store.wrongProblems
      == RemoveWrongProblem(s, id).store.wrongProblems + (if e.id != id then [e] else [])
  {
    FilterAppend(s.wrongProblems, [e], IdIsNot(id));
  }
}
