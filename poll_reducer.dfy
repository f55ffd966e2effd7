/*
 * The session reducer of src/context/PollContext.tsx:64-196 and the
 * completion of a stored snapshot (PollContext.tsx:164-191, 204-226).
 *
 * Every case builds a fresh state from the old one. The reducer's writes to
 * localStorage are a side effect of the provider (module PollProvider);
 * REFRESH_STATE's read of localStorage is the payload of its action here.
 * The reducer guards nothing: duplicate answers, answers from kicked
 * students, answers to an expired poll and out-of-range option indices are
 * all accepted.
 */
module PollReducer {
  import opened PollTypes
  import opened Tally

  // ---- stored snapshots ----

  /** A student record as read back from storage: `isKicked` may be missing. */
  datatype RawStudent = RawStudent(id: string, name: string, joinedAt: int, isKicked: Option<bool>)

  /**
   * A parsed snapshot before completion. `None` in a collection field means
   * the key was missing (or, for `students`, `chatMessages` and
   * `kickedStudents`, that its value was not an array); `None` in a nullable
   * field means missing or `null`, which complete to the same thing.
   */
  datatype RawState = RawState(
    currentPoll: Option<Poll>,
    polls: Option<seq<Poll>>,
    answers: Option<seq<Answer>>,
    students: Option<seq<RawStudent>>,
    results: Option<PollResult>,
    chatMessages: Option<seq<ChatMessage>>,
    kickedStudents: Option<seq<string>>)

  /** The value under the `pollState` key: text that does not parse, or a parsed snapshot. */
  datatype Stored = Unparsable | Snapshot(raw: RawState)

  /** `{ ...student, isKicked: student.isKicked || false }` */
  function CompleteStudent(r: RawStudent): Student {
    Student(r.id, r.name, r.joinedAt, r.isKicked.GetOr(false))
  }

  function CompleteStudents(rs: seq<RawStudent>): seq<Student> {
    seq(|rs|, i requires 0 <= i < |rs| => CompleteStudent(rs[i]))
  }

  /** `{ ...initialState, ...parsedState, chatMessages, kickedStudents, students }` */
  function Normalize(raw: RawState): PollState {
    PollState(
      raw.currentPoll,
      raw.polls.GetOr(InitialState.polls),
      raw.answers.GetOr(InitialState.answers),
      match raw.students
      case Some(rs) => CompleteStudents(rs)
      case None => [],
      raw.results,
      raw.chatMessages.GetOr([]),
      raw.kickedStudents.GetOr([]))
  }

  /** A stored snapshot with none of the keys completes to the initial state. */
  lemma EmptySnapshotIsInitial()
    ensures Normalize(RawState(None, None, None, None, None, None, None)) == InitialState
  {
  }

  /** `JSON.stringify(state)` followed by `JSON.parse`: every key present, every flag written out. */
  function Encode(s: PollState): RawState {
    RawState(
      s.currentPoll,
      Some(s.polls),
      Some(s.answers),
      Some(seq(|s.students|, i requires 0 <= i < |s.students| =>
        var st := s.students[i];
        RawStudent(st.id, st.name, st.joinedAt, Some(st.isKicked)))),
      s.results,
      Some(s.chatMessages),
      Some(s.kickedStudents))
  }

  /** A snapshot the session wrote reads back as the same session state. */
  lemma NormalizeEncode(s: PollState)
    ensures Normalize(Encode(s)) == s
  {
    var students := Normalize(Encode(s)).students;
    assert |students| == |s.students|;
    assert forall i :: 0 <= i < |students| ==> students[i] == s.students[i];
  }

  /**
   * Completion defaults: a missing or non-array `chatMessages`,
   * `kickedStudents` or `students` becomes empty, every student keeps its
   * place and its fields, and a missing `isKicked` becomes false.
   */
  lemma NormalizeDefaults(raw: RawState)
    ensures raw.chatMessages.None? ==> Normalize(raw).chatMessages == []
    ensures raw.kickedStudents.None? ==> Normalize(raw).kickedStudents == []
    ensures raw.students.None? ==> Normalize(raw).students == []
    ensures raw.polls.None? ==> Normalize(raw).polls == []
    ensures raw.answers.None? ==> Normalize(raw).answers == []
    ensures raw.students.Some? ==> |Normalize(raw).students| == |raw.students.value|
    ensures raw.students.Some? ==> forall i :: 0 <= i < |raw.students.value| ==>
      var r, st := raw.students.value[i], Normalize(raw).students[i];
      st.id == r.id && st.name == r.name && st.joinedAt == r.joinedAt
      && (st.isKicked <==> r.isKicked == Some(true))
    ensures Normalize(raw).currentPoll == raw.currentPoll && Normalize(raw).results == raw.results
  {
  }

  // ---- the reducer ----

  datatype Action =
    | CreatePoll(poll: Poll)
    | SubmitAnswer(answer: Answer)
    | RegisterStudent(student: Student)
    | UpdateResults(result: PollResult)
    | LoadState(snapshot: PollState)
    | ExpirePoll
    | KickStudent(studentId: string)
    | SendChatMessage(chat: ChatMessage)
    | RefreshState(saved: Option<Stored>)

  /** The results SUBMIT_ANSWER computes for the current poll from the answers including the new one. */
  function SubmitResults(p: Poll, answers: seq<Answer>): PollResult {
    var mine := AnswersFor(answers, p.id);
    PollResult(p.id, p.question, p.options, UnguardedVotes(|p.options|, mine), |mine|, mine)
  }

  /** `students.map((s) => s.id === id ? { ...s, isKicked: true } : s)` */
  function KickMatching(students: seq<Student>, id: string): seq<Student> {
    seq(|students|, i requires 0 <= i < |students| =>
      if students[i].id == id then students[i].(isKicked := true) else students[i])
  }

  function Reduce(s: PollState, a: Action): PollState {
    match a
    case CreatePoll(p) =>
      s.(currentPoll := Some(p), polls := s.polls + [p], results := None)
    case SubmitAnswer(ans) =>
      var answers := s.answers + [ans];
      if s.currentPoll.Some? then
        s.(answers := answers, results := Some(SubmitResults(s.currentPoll.value, answers)))
      else
        s.(answers := answers)
    case RegisterStudent(st) =>
      s.(students := s.students + [st])
    case UpdateResults(r) =>
      s.(results := Some(r))
    case LoadState(x) =>
      x
    case ExpirePoll =>
      s.(currentPoll := match s.currentPoll
                        case Some(p) => Some(p.(isActive := false))
                        case None => None)
    case KickStudent(id) =>
      s.(students := KickMatching(s.students, id), kickedStudents := s.kickedStudents + [id])
    case SendChatMessage(m) =>
      s.(chatMessages := s.chatMessages + [m])
    case RefreshState(saved) =>
      match saved
      case Some(Snapshot(raw)) => Normalize(raw)
      case _ => s
  }

  /** The cases that write the new state to localStorage. */
  predicate Persists(a: Action) {
    !a.LoadState? && !a.RefreshState?
  }

  /** The cases that, besides, announce the write with a `poll-state-updated` event. */
  predicate Announces(a: Action) {
    Persists(a) && !a.UpdateResults?
  }

  // ---- what each case does ----

  /** CREATE_POLL appends the poll to the history, makes it current and clears the results; nothing else changes. */
  lemma CreatePollEffect(s: PollState, p: Poll)
    ensures var r := Reduce(s, CreatePoll(p));
      && r.currentPoll == Some(p) && r.polls == s.polls + [p] && r.results == None
      && r.answers == s.answers && r.students == s.students
      && r.chatMessages == s.chatMessages && r.kickedStudents == s.kickedStudents
  {
  }

  /** SUBMIT_ANSWER appends exactly one answer and touches no other field but `results`, which it keeps when there is no current poll. */
  lemma SubmitAnswerEffect(s: PollState, ans: Answer)
    ensures var r := Reduce(s, SubmitAnswer(ans));
      && r.answers == s.answers + [ans]
      && r.currentPoll == s.currentPoll && r.polls == s.polls && r.students == s.students
      && r.chatMessages == s.chatMessages && r.kickedStudents == s.kickedStudents
      && (s.currentPoll.None? ==> r.results == s.results)
      && (s.currentPoll.Some? ==> r.results.Some? && r.results.value.pollId == s.currentPoll.value.id)
  {
  }

  /**
   * The results SUBMIT_ANSWER recomputes: `studentAnswers` are the current
   * poll's answers in submission order, the new one last when it belongs to
   * that poll; `totalVotes` counts them; cell `k` holds the number that chose
   * option `k`; and when no index falls outside the options, there is one
   * cell per option and the cells sum to `totalVotes`.
   */
  lemma SubmitAnswerTally(s: PollState, ans: Answer)
    requires s.currentPoll.Some?
    ensures var p, r := s.currentPoll.value, Reduce(s, SubmitAnswer(ans)).results.value;
      && r.question == p.question && r.options == p.options
      && r.studentAnswers == AnswersFor(s.answers, p.id) + (if ans.pollId == p.id then [ans] else [])
      && r.totalVotes == |r.studentAnswers|
      && |r.votes| >= |p.options|
      && (forall k :: 0 <= k < |p.options| ==> r.votes[k] == Count(CountIndex(r.studentAnswers, k)))
      && (AllInRange(r.studentAnswers, |p.options|) ==>
            |r.votes| == |p.options| && SumCells(r.votes) == r.totalVotes)
  {
    var p := s.currentPoll.value;
    var mine := AnswersFor(s.answers + [ans], p.id);
    AnswersForAppend(s.answers, [ans], p.id);
    assert AnswersFor([ans], p.id) == (if ans.pollId == p.id then [ans] else []) by {
      assert [ans][..0] == [];
    }
    UnguardedShape(|p.options|, mine);
    if AllInRange(mine, |p.options|) {
      UnguardedAgrees(|p.options|, mine);
      GuardedVotesSum(|p.options|, mine);
      SumCellsLift(GuardedVotes(|p.options|, mine));
    }
  }

  /** EXPIRE_POLL clears only the current poll's `isActive`; the copy in `polls` keeps its flag. */
  lemma ExpirePollEffect(s: PollState)
    ensures var r := Reduce(s, ExpirePoll);
      && (s.currentPoll.None? ==> r == s)
      && (s.currentPoll.Some? ==> r == s.(currentPoll := Some(s.currentPoll.value.(isActive := false))))
      && r.polls == s.polls
  {
  }

  /** EXPIRE_POLL twice is EXPIRE_POLL once. */
  lemma ExpirePollIdempotent(s: PollState)
    ensures Reduce(Reduce(s, ExpirePoll), ExpirePoll) == Reduce(s, ExpirePoll)
  {
  }

  /**
   * KICK_STUDENT keeps the roster's length, marks exactly the entries with
   * the given id, leaves the others as they were, and appends the id to
   * `kickedStudents`.
   */
  lemma KickStudentEffect(s: PollState, id: string)
    ensures var r := Reduce(s, KickStudent(id));
      && |r.students| == |s.students|
      && (forall i :: 0 <= i < |s.students| ==>
            if s.students[i].id == id then r.students[i] == s.students[i].(isKicked := true)
            else r.students[i] == s.students[i])
      && r.kickedStudents == s.kickedStudents + [id]
      && r == s.(students := r.students, kickedStudents := r.kickedStudents)
  {
  }

  /** A repeat kick changes no student but records the id once more. */
  lemma KickStudentRepeat(s: PollState, id: string)
    ensures var once := Reduce(s, KickStudent(id));
      var twice := Reduce(once, KickStudent(id));
      && twice.students == once.students
      && twice.kickedStudents == s.kickedStudents + [id, id]
  {
    var once := Reduce(s, KickStudent(id));
    var twice := Reduce(once, KickStudent(id));
    assert |twice.students| == |once.students|;
    assert forall i :: 0 <= i < |once.students| ==> twice.students[i] == once.students[i];
    assert s.kickedStudents + [id] + [id] == s.kickedStudents + [id, id];
  }

  /** REGISTER_STUDENT appends one student and nothing else changes. */
  lemma RegisterStudentEffect(s: PollState, st: Student)
    ensures Reduce(s, RegisterStudent(st)) == s.(students := s.students + [st])
  {
  }

  /** SEND_CHAT_MESSAGE appends one message and nothing else changes. */
  lemma SendChatMessageEffect(s: PollState, m: ChatMessage)
    ensures Reduce(s, SendChatMessage(m)) == s.(chatMessages := s.chatMessages + [m])
  {
  }

  /** UPDATE_RESULTS replaces the results and nothing else. */
  lemma UpdateResultsEffect(s: PollState, res: PollResult)
    ensures Reduce(s, UpdateResults(res)) == s.(results := Some(res))
  {
  }

  /**
   * REFRESH_STATE installs the completed snapshot when one parses, and
   * otherwise (nothing stored, or text that does not parse) returns the
   * state it was given.
   */
  lemma RefreshStateEffect(s: PollState, saved: Option<Stored>)
    ensures saved.Some? && saved.value.Snapshot? ==> Reduce(s, RefreshState(saved)) == Normalize(saved.value.raw)
    ensures saved.None? || saved == Some(Unparsable) ==> Reduce(s, RefreshState(saved)) == s
  {
  }

  /** A refresh that reads back what some state wrote yields that state, whatever the refreshed state was. */
  lemma RefreshAfterWrite(s: PollState, written: PollState)
    ensures Reduce(s, RefreshState(Some(Snapshot(Encode(written))))) == written
  {
    NormalizeEncode(written);
  }

  // ---- properties of every local action ----

  /** Every id marked kicked in the roster is also listed in `kickedStudents`. */
  ghost predicate KickedListed(s: PollState) {
    forall i :: 0 <= i < |s.students| && s.students[i].isKicked ==> s.students[i].id in s.kickedStudents
  }

  /**
   * The actions a session issues itself (all but LOAD_STATE and
   * REFRESH_STATE, which install a snapshot wholesale) only append to
   * `polls`, `answers`, `students`, `chatMessages` and `kickedStudents`,
   * never clear a student's `isKicked`, keep `KickedListed` when a
   * newly registered student is not marked kicked, and leave the poll
   * history untouched except for CREATE_POLL.
   */
  lemma LocalActionsGrow(s: PollState, a: Action)
    requires !a.LoadState? && !a.RefreshState?
    ensures var r := Reduce(s, a);
      && s.polls <= r.polls && s.answers <= r.answers && s.chatMessages <= r.chatMessages
      && s.kickedStudents <= r.kickedStudents
      && |s.students| <= |r.students|
      && (forall i :: 0 <= i < |s.students| ==>
            r.students[i].id == s.students[i].id
            && (s.students[i].isKicked ==> r.students[i].isKicked))
      && (!a.CreatePoll? ==> r.polls == s.polls)
      && (KickedListed(s) && !(a.RegisterStudent? && a.student.isKicked) ==> KickedListed(r))
  {
    var r := Reduce(s, a);
    if a.KickStudent? {
      assert forall i :: 0 <= i < |r.students| && r.students[i].isKicked ==>
        r.students[i].id == a.studentId || s.students[i].isKicked;
    }
  }
}
