/** The browser's practice state: the problems on screen, the answers given so far,
    the index of the current problem, the results of a finished practice and the
    practice id; its four mutations, and the three actions that commit them on the
    server's replies. Server replies are the `Step` values the server's transitions
    produce; the fallback ids the client invents come from a supplied function. */
module ClientPractice {
  import opened Wrappers
  import opened Arith
  import opened Seqs
  import PracticeStore
  import ProblemGenerator

  /** A problem as the client holds it: its `id`, absent when the object has none, and
      the server's problem object, whose other properties the spread copies unchanged. */
  datatype Item = Item(id: Option<real>, body: Problem)

  datatype State = State(
    problems: seq<Item>,
    currentIndex: nat,
    answers: seq<Option<PracticeStore.Answer>>,
    score: int,
    accuracy: Option<real>,
    totalTime: real,
    practiceId: Option<int>)

  const Initial := State([], 0, [], 0, Some(0.0), 0.0, None)

  /** An id the client keeps: present and not zero. */
  predicate TruthyId(id: Option<real>) {
    id.Some? && id.value != 0.0
  }

  /** What the client keeps true between mutations: one answer slot per problem and a
      current index that names a problem, or 0 when there is none. */
  predicate StateOk(st: State) {
    && |st.answers| == |st.problems|
    && (if |st.problems| == 0 then st.currentIndex == 0 else st.currentIndex < |st.problems|)
  }

  lemma InitialOk()
    ensures StateOk(Initial) && Initial.practiceId.None? && Initial.accuracy == Some(0.0)
  {
  }

  // ---------------------------------------------------------------------------
  // Mutations.

  /** The argument of `SET_PROBLEMS`: a bare array of problems, or an object that may
      carry a `problems` array and an `id`. */
  datatype Payload = ListPayload(items: seq<Item>) | ObjectPayload(problems: Option<seq<Item>>, id: Option<int>)

  /** `payload.problems || payload`, kept only when it is an array. */
  function PayloadItems(payload: Payload): seq<Item> {
    match payload
    case ListPayload(items) => items
    case ObjectPayload(ps, _) => ps.GetOr([])
  }

  /** `SET_PROBLEMS`: the problems are replaced, an item without a truthy id gets
      `newId(i)`, every answer slot is emptied, the index returns to 0, and the
      practice id changes only when the payload carries a truthy one. */
  function SetProblems(st: State, payload: Payload, newId: nat -> real): (r: State)
    ensures StateOk(r) && r.currentIndex == 0
    ensures forall i :: 0 <= i < |r.answers| ==> r.answers[i].None?
    ensures var items := PayloadItems(payload);
      && |r.problems| == |items|
      && forall i :: 0 <= i < |items| ==>
           && r.problems[i].body == items[i].body
           && (TruthyId(items[i].id) ==> r.problems[i].id == items[i].id)
           && (!TruthyId(items[i].id) ==> r.problems[i].id == Some(newId(i)))
    ensures match payload
      case ObjectPayload(_, Some(id)) => id != 0 ==> r.practiceId == Some(id)
      case _ => true
    ensures (payload.ListPayload? || payload.id.None? || payload.id == Some(0)) ==>
      r.practiceId == st.practiceId
    ensures r.score == st.score && r.accuracy == st.accuracy && r.totalTime == st.totalTime
  {
    var items := PayloadItems(payload);
    var problems := seq(|items|, i requires 0 <= i < |items| =>
      Item(if TruthyId(items[i].id) then items[i].id else Some(newId(i)), items[i].body));
    var practiceId := match payload
      case ObjectPayload(_, Some(id)) => if id != 0 then Some(id) else st.practiceId
      case _ => st.practiceId;
    st.(problems := problems, answers := seq(|problems|, _ => None), currentIndex := 0,
        practiceId := practiceId)
  }

  /** `SET_ANSWER`: the slot at `index` takes the answer, the array growing when the
      index lies past its end, and the current index advances unless `index` is at or
      past the last problem. */
  function SetAnswer(st: State, index: nat, value: Option<real>, isCorrect: bool): (r: State)
    ensures r.answers == ArraySet(st.answers, index, PracticeStore.Answer(value, isCorrect))
    ensures r.currentIndex == if index + 1 < |st.problems| then st.currentIndex + 1 else st.currentIndex
    ensures r == st.(answers := r.answers, currentIndex := r.currentIndex)
  {
    var answers := ArraySet(st.answers, index, PracticeStore.Answer(value, isCorrect));
    if index < |st.problems| - 1 then st.(answers := answers, currentIndex := st.currentIndex + 1)
    else st.(answers := answers)
  }

  /** Answering the current problem keeps the state well formed: the index moves to the
      next problem, and on the last problem it stays there. */
  lemma SetAnswerAtCurrentOk(st: State, value: Option<real>, isCorrect: bool)
    requires StateOk(st) && |st.problems| > 0
    ensures var r := SetAnswer(st, st.currentIndex, value, isCorrect);
      && StateOk(r)
      && r.answers[st.currentIndex] == Some(PracticeStore.Answer(value, isCorrect))
      && (st.currentIndex == |st.problems| - 1 <==> r.currentIndex == st.currentIndex)
  {
  }

  /** `SET_PRACTICE_RESULTS`: exactly the three result fields change. */
  function SetPracticeResults(st: State, score: int, accuracy: Option<real>, totalTime: real)
    : (r: State)
    ensures r.score == score && r.accuracy == accuracy && r.totalTime == totalTime
    ensures r.(score := st.score, accuracy := st.accuracy, totalTime := st.totalTime) == st
  {
    st.(score := score, accuracy := accuracy, totalTime := totalTime)
  }

  /** `RESET_PRACTICE`: every field back to its initial value, from any state. */
  function ResetPractice(st: State): (r: State)
    ensures r == Initial && StateOk(r)
  {
    State([], 0, [], 0, Some(0.0), 0.0, None)
  }

  // ---------------------------------------------------------------------------
  // Actions.

  datatype ActionError = InvalidResponse | MalformedReply

  /** The client item for a problem the server sent. */
  function ItemOf(p: Problem): Item {
    Item(Some(p.id as real), p)
  }

  /** `generateProblems`: a 200 reply carrying a practice sets its problems and then its
      id; any other reply throws and leaves the state alone. */
  function GenerateProblems(st: State, reply: PracticeStore.Step<PracticeStore.Practice>,
                            newId: nat -> real): (r: Result<State, ActionError>)
    ensures r.Success? <==> reply.code == PracticeStore.Ok && reply.data.Some?
    ensures r.Failure? ==> r.error == InvalidResponse
    ensures r.Success? ==>
      var p := reply.data.value;
      && StateOk(r.value) && r.value.currentIndex == 0
      && r.value.practiceId == Some(p.id)
      && |r.value.problems| == |p.problems|
      && forall i :: 0 <= i < |p.problems| ==> r.value.problems[i].body == p.problems[i]
  {
    if reply.code == PracticeStore.Ok && reply.data.Some? then
      var p := reply.data.value;
      var items := seq(|p.problems|, i requires 0 <= i < |p.problems| => ItemOf(p.problems[i]));
      Success(SetProblems(st, ListPayload(items), newId).(practiceId := Some(p.id)))
    else Failure(InvalidResponse)
  }

  /** `submitAnswer`: the answer is sent for the current problem, and only a 200 reply
      records it locally. The server sends its 404 and 500 outcomes as the HTTP status
      too, which the HTTP client turns into a rejection that the action rethrows. */
  function SubmitAnswer(st: State, value: Option<real>, reply: PracticeStore.Step<bool>)
    : (r: Result<State, ActionError>)
    ensures r.Success? <==> reply.code == PracticeStore.Ok && reply.data.Some?
    ensures reply.code != PracticeStore.Ok ==> r == Failure(InvalidResponse)
    ensures reply.code == PracticeStore.Ok && reply.data.None? ==> r == Failure(MalformedReply)
    ensures reply.code == PracticeStore.Ok && reply.data.Some? ==>
      r == Success(SetAnswer(st, st.currentIndex, value, reply.data.value))
  {
    if reply.code != PracticeStore.Ok then Failure(InvalidResponse)
    else if reply.data.None? then Failure(MalformedReply)
    else Success(SetAnswer(st, st.currentIndex, value, reply.data.value))
  }

  /** `finishPractice`: only a 200 reply stores the results; a 404 reply rejects, and
      the action rethrows. */
  function FinishPractice(st: State, reply: PracticeStore.Step<PracticeStore.FinishData>)
    : (r: Result<State, ActionError>)
    ensures r.Success? <==> reply.code == PracticeStore.Ok && reply.data.Some?
    ensures reply.code != PracticeStore.Ok ==> r == Failure(InvalidResponse)
    ensures reply.code == PracticeStore.Ok && reply.data.None? ==> r == Failure(MalformedReply)
    ensures reply.code == PracticeStore.Ok && reply.data.Some? ==>
      var d := reply.data.value;
      r == Success(SetPracticeResults(st, d.score, d.accuracy, d.totalTime))
  {
    if reply.code != PracticeStore.Ok then Failure(InvalidResponse)
    else if reply.data.None? then Failure(MalformedReply)
    else
      var d := reply.data.value;
      Success(SetPracticeResults(st, d.score, d.accuracy, d.totalTime))
  }

  // ---------------------------------------------------------------------------
  // The client against the server.

  /** The client shows the server's practice: same id, same number of problems, and
      the same answers slot by slot. */
  predicate Mirrors(st: State, s: PracticeStore.Store) {
    && st.practiceId.Some?
    && PracticeStore.FindPractice(s.practices, st.practiceId.value).Some?
    && var p := s.practices[PracticeStore.FindPractice(s.practices, st.practiceId.value).value];
       |st.problems| == |p.problems| && st.answers == p.answers
  }

  /** Starting a practice on the server and committing the reply leaves a client that
      mirrors the server, provided no earlier practice shares the new id. */
  lemma StartThenGenerateMirrors(st: State, s: PracticeStore.Store, grade: int,
                                 count: Option<int>, draws: seq<seq<ProblemGenerator.Draw>>,
                                 now: int, newId: nat -> real)
    requires count.GetOr(10) <= |draws|
    requires forall k :: 0 <= k < |draws| ==> |draws[k]| >= ProblemGenerator.MaxAttempts
    requires forall j :: 0 <= j < |s.practices| ==> s.practices[j].id != now
    ensures var step := PracticeStore.StartPractice(s, grade, count, draws, now);
      step.code == PracticeStore.Ok ==>
        var r := GenerateProblems(st, step, newId);
        r.Success? && Mirrors(r.value, step.store)
  {
    var step := PracticeStore.StartPractice(s, grade, count, draws, now);
    if step.code == PracticeStore.Ok {
      var p := step.data.value;
      FindPracticeLast(s.practices, p);
      GeneratedMirrors(st, step, newId);
    }
  }

  /** A practice appended with a new id is found at the end. */
  lemma FindPracticeLast(ps: seq<PracticeStore.Practice>, p: PracticeStore.Practice)
    requires forall j :: 0 <= j < |ps| ==> ps[j].id != p.id
    ensures PracticeStore.FindPractice(ps + [p], p.id) == Some(|ps|)
  {
    assert (ps + [p])[|ps|] == p;
  }

  /** Committing a practice reply leaves the client with that practice's id, its
      problem count and its all-empty answers. */
  lemma GeneratedMirrors(st: State, step: PracticeStore.Step<PracticeStore.Practice>,
                         newId: nat -> real)
    requires step.code == PracticeStore.Ok && step.data.Some?
    requires var p := step.data.value;
      |p.answers| == |p.problems| && forall k :: 0 <= k < |p.answers| ==> p.answers[k].None?
    requires var p := step.data.value;
      PracticeStore.FindPractice(step.store.practices, p.id).Some?
      && step.store.practices[PracticeStore.FindPractice(step.store.practices, p.id).value] == p
    ensures var r := GenerateProblems(st, step, newId);
      r.Success? && Mirrors(r.value, step.store)
  {
    var p := step.data.value;
    var r := GenerateProblems(st, step, newId).value;
    assert r.answers == p.answers;
  }

  /** A practice's position depends only on the ids of the practices. */
  lemma FindPracticeByIds(ps: seq<PracticeStore.Practice>, qs: seq<PracticeStore.Practice>, id: int)
    requires |ps| == |qs| && forall j :: 0 <= j < |ps| ==> ps[j].id == qs[j].id
    ensures PracticeStore.FindPractice(ps, id) == PracticeStore.FindPractice(qs, id)
  {
  }

  /** Submitting the current problem's answer to the server and committing the reply
      keeps a mirroring client mirroring, and the answer lands in the same slot on
      both sides. */
  lemma SubmitKeepsMirror(st: State, s: PracticeStore.Store, value: Option<real>, now: int)
    requires StateOk(st) && |st.problems| > 0 && Mirrors(st, s)
    ensures var step := PracticeStore.SubmitAnswer(s, st.practiceId.value, st.currentIndex, value, now);
      && step.code == PracticeStore.Ok
      && var r := SubmitAnswer(st, value, step);
         r.Success? && StateOk(r.value) && Mirrors(r.value, step.store)
  {
    var id := st.practiceId.value;
    var step := PracticeStore.SubmitAnswer(s, id, st.currentIndex, value, now);
    var k := PracticeStore.FindPractice(s.practices, id).value;
    FindPracticeByIds(s.practices, step.store.practices, id);
    SetAnswerAtCurrentOk(st, value, step.data.value);
  }
}
