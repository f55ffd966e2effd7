/*
 * The helpers the poll provider offers next to its reducer
 * (src/context/PollContext.tsx:265-379): the records `createPoll`,
 * `submitAnswer`, `registerStudent` and `sendChatMessage` build, the
 * admission rule, the time left on the current poll, the student lookup,
 * and the guarded results recompute the provider runs as an effect.
 * `Date.now()` is the parameter `now` (milliseconds, read once per call) and
 * the random part of an id is the parameter `suffix`.
 */
module SessionRules {
  import opened PollTypes
  import opened Text
  import opened Tally
  import opened PollReducer

  /** The duration `createPoll` uses when its caller passes none. */
  const DefaultDuration: int := 60

  /** The poll `createPoll` dispatches: id from the clock, active, deadline `duration` seconds ahead. */
  function NewPoll(question: string, options: seq<string>, duration: Option<int>,
                   correctOptionIndex: Option<int>, now: nat): Poll
  {
    var d := duration.GetOr(DefaultDuration);
    Poll(Decimal(now), question, options, now, now + d * 1000, true, d, correctOptionIndex)
  }

  /** The answer `submitAnswer` dispatches, stamped with the current poll's id. */
  function NewAnswer(studentId: string, studentName: string, current: Poll, optionIndex: int, now: nat): Answer {
    Answer(studentId, studentName, current.id, optionIndex, now)
  }

  /** `Date.now().toString() + Math.random().toString(36).substr(2, 9)` */
  function SessionId(now: nat, suffix: string): string {
    Decimal(now) + suffix
  }

  /** The student `registerStudent` dispatches: never kicked on arrival. */
  function NewStudent(name: string, now: nat, suffix: string): Student {
    Student(SessionId(now, suffix), name, now, false)
  }

  function NewChatMessage(message: string, senderType: SenderType, senderName: string,
                          now: nat, suffix: string): ChatMessage
  {
    ChatMessage(SessionId(now, suffix), message, senderType, senderName, now)
  }

  /** `students.filter((s) => !s.isKicked)`, in roster order. */
  function ActiveStudents(students: seq<Student>): (r: seq<Student>)
    ensures |r| <= |students|
  {
    if students == [] then []
    else
      var last := students[|students| - 1];
      assert students == students[..|students| - 1] + [last];
      ActiveStudents(students[..|students| - 1]) + (if last.isKicked then [] else [last])
  }

  /** One more student on the roster is one more active student exactly when not kicked. */
  lemma ActiveStudentsSnoc(students: seq<Student>, st: Student)
    ensures ActiveStudents(students + [st]) == ActiveStudents(students) + (if st.isKicked then [] else [st])
  {
    assert (students + [st])[..|students|] == students;
  }

  /** The filter keeps exactly the students not kicked. */
  lemma {:induction false} ActiveStudentsMembers(students: seq<Student>)
    ensures forall st :: st in ActiveStudents(students) <==> st in students && !st.isKicked
  {
    if students != [] {
      var front, last := students[..|students| - 1], students[|students| - 1];
      ActiveStudentsMembers(front);
      assert students == front + [last];
      ActiveStudentsSnoc(front, last);
    }
  }

  /**
   * The admission rule: a new poll may start when there is no current poll,
   * when it has expired, or when it has as many answers as there are
   * students not kicked, and there is at least one such student. It counts
   * answers, not students: an answer from a kicked student, or a second
   * answer from the same student, counts too.
   */
  function CanCreateNewPoll(s: PollState): (ok: bool)
    ensures s.currentPoll.None? ==> ok
    ensures s.currentPoll.Some? && !s.currentPoll.value.isActive ==> ok
    ensures s.currentPoll.Some? && s.currentPoll.value.isActive ==>
      (ok <==> |AnswersFor(s.answers, s.currentPoll.value.id)| == |ActiveStudents(s.students)| > 0)
  {
    match s.currentPoll
    case None => true
    case Some(p) =>
      if !p.isActive then true
      else
        var active := ActiveStudents(s.students);
        var answered := AnswersFor(s.answers, p.id);
        |answered| == |active| && |active| > 0
  }

  /**
   * `getTimeRemaining`: zero without an active poll; otherwise the whole
   * seconds left before the deadline, rounded up, and zero once it has passed.
   */
  function TimeRemaining(s: PollState, now: int): (t: nat)
    ensures s.currentPoll.None? || !s.currentPoll.value.isActive ==> t == 0
    ensures s.currentPoll.Some? && now >= s.currentPoll.value.expiresAt ==> t == 0
    ensures s.currentPoll.Some? && s.currentPoll.value.isActive && now < s.currentPoll.value.expiresAt ==>
      var left := s.currentPoll.value.expiresAt - now;
      (t - 1) * 1000 < left <= t * 1000
  {
    match s.currentPoll
    case None => 0
    case Some(p) =>
      if !p.isActive then 0
      else
        var left := if p.expiresAt - now > 0 then p.expiresAt - now else 0;
        (left + 999) / 1000
  }

  /** `state.students.find((s) => s.id === id)`: the first student with that id, if any. */
  function FindStudent(students: seq<Student>, id: string): (r: Option<Student>)
    ensures r.None? <==> forall j :: 0 <= j < |students| ==> students[j].id != id
    ensures r.Some? ==> exists i :: 0 <= i < |students| && students[i] == r.value && r.value.id == id
                                    && forall j :: 0 <= j < i ==> students[j].id != id
  {
    if students == [] then None
    else if students[0].id == id then Some(students[0])
    else
      var r := FindStudent(students[1..], id);
      assert forall j :: 1 <= j < |students| ==> students[j] == students[1..][j - 1];
      r
  }

  // ---- the results effect ----

  /** The results the effect builds with the guarded tally. */
  function GuardedResults(p: Poll, answers: seq<Answer>): PollResult {
    var mine := AnswersFor(answers, p.id);
    PollResult(p.id, p.question, p.options, Lift(GuardedVotes(|p.options|, mine)), |mine|, mine)
  }

  /** What the effect computes: nothing without a current poll or without any answer at all. */
  function EffectResults(s: PollState): Option<PollResult> {
    if s.currentPoll.Some? && |s.answers| > 0 then Some(GuardedResults(s.currentPoll.value, s.answers))
    else None
  }

  /** The state after the effect: UPDATE_RESULTS is dispatched only when the new results differ from the stored ones. */
  function AfterEffect(s: PollState): PollState {
    match EffectResults(s)
    case Some(r) => if Some(r) != s.results then Reduce(s, UpdateResults(r)) else s
    case None => s
  }

  /**
   * The recomputed results have one cell per option, count every answer for
   * the poll in `totalVotes` and skip out-of-range indices in the cells: Σ
   * votes ≤ totalVotes, with equality exactly when every index is valid.
   */
  lemma EffectResultsBounds(s: PollState)
    requires EffectResults(s).Some?
    ensures var p, r := s.currentPoll.value, EffectResults(s).value;
      && r.pollId == p.id && r.options == p.options
      && r.studentAnswers == AnswersFor(s.answers, p.id)
      && r.totalVotes == |r.studentAnswers|
      && |r.votes| == |p.options|
      && SumCells(r.votes) <= r.totalVotes
      && (SumCells(r.votes) == r.totalVotes <==> AllInRange(r.studentAnswers, |p.options|))
  {
    var p := s.currentPoll.value;
    var mine := AnswersFor(s.answers, p.id);
    GuardedVotesSum(|p.options|, mine);
    SumCellsLift(GuardedVotes(|p.options|, mine));
  }

  /** Running the effect a second time on the state it produced changes nothing. */
  lemma AfterEffectIdempotent(s: PollState)
    ensures AfterEffect(AfterEffect(s)) == AfterEffect(s)
  {
    var t := AfterEffect(s);
    assert t.currentPoll == s.currentPoll && t.answers == s.answers;
    assert EffectResults(t) == EffectResults(s);
  }

  /** After the effect, the stored results are the recomputed ones whenever there is something to recompute. */
  lemma AfterEffectStores(s: PollState)
    ensures EffectResults(s).Some? ==> AfterEffect(s).results == EffectResults(s)
    ensures EffectResults(s).None? ==> AfterEffect(s) == s
    ensures AfterEffect(s) == s.(results := AfterEffect(s).results)
  {
  }

  // ---- the poll lifecycle ----

  /**
   * A poll built by `createPoll` is active, defaults to 60 seconds, ends
   * `duration * 1000` milliseconds after it starts, and right after
   * CREATE_POLL the time left is the whole duration when it is positive.
   */
  lemma NewPollLifecycle(s: PollState, question: string, options: seq<string>, duration: Option<int>,
                         correctOptionIndex: Option<int>, now: nat)
    ensures var p := NewPoll(question, options, duration, correctOptionIndex, now);
      && p.isActive && p.createdAt == now && p.id == Decimal(now)
      && p.duration == (if duration.Some? then duration.value else 60)
      && p.expiresAt - p.createdAt == p.duration * 1000
      && (p.duration > 0 ==> TimeRemaining(Reduce(s, CreatePoll(p)), now) == p.duration)
      && (p.duration <= 0 ==> TimeRemaining(Reduce(s, CreatePoll(p)), now) == 0)
  {
  }

  /** Without a duration from its caller, `createPoll` runs the poll for 60 seconds: 60 000 ms from its creation. */
  lemma NewPollDefaultDuration(question: string, options: seq<string>, correctOptionIndex: Option<int>, now: nat)
    ensures var p := NewPoll(question, options, None, correctOptionIndex, now);
      p.duration == DefaultDuration == 60 && p.expiresAt == now + 60000
  {
  }

  /** Polls created at different instants get different ids. */
  lemma NewPollIdsDiffer(q1: string, o1: seq<string>, d1: Option<int>, c1: Option<int>, now1: nat,
                         q2: string, o2: seq<string>, d2: Option<int>, c2: Option<int>, now2: nat)
    requires now1 != now2
    ensures NewPoll(q1, o1, d1, c1, now1).id != NewPoll(q2, o2, d2, c2, now2).id
  {
    if Decimal(now1) == Decimal(now2) {
      DecimalInjective(now1, now2);
    }
  }

  /** The time left never grows as the clock advances. */
  lemma TimeRemainingMonotone(s: PollState, earlier: int, later: int)
    requires earlier <= later
    ensures TimeRemaining(s, later) <= TimeRemaining(s, earlier)
  {
  }

  /** Once EXPIRE_POLL has run, the time left is zero and a new poll may be created. */
  lemma ExpireOpensAdmission(s: PollState, now: int)
    ensures CanCreateNewPoll(Reduce(s, ExpirePoll))
    ensures TimeRemaining(Reduce(s, ExpirePoll), now) == 0
  {
  }

  /**
   * Right after an active poll is created, with no answer yet carrying its id
   * and at least one student not kicked, no further poll may be created.
   */
  lemma CreateClosesAdmission(s: PollState, p: Poll)
    requires p.isActive
    requires forall j :: 0 <= j < |s.answers| ==> s.answers[j].pollId != p.id
    requires |ActiveStudents(s.students)| > 0
    ensures !CanCreateNewPoll(Reduce(s, CreatePoll(p)))
  {
    AnswersForNone(s.answers, p.id);
  }

  /** Each SUBMIT_ANSWER carrying the current poll's id adds one to that poll's answer count; any other adds none. */
  lemma SubmitCountsOnce(s: PollState, ans: Answer)
    requires s.currentPoll.Some?
    ensures var p := s.currentPoll.value;
      |AnswersFor(Reduce(s, SubmitAnswer(ans)).answers, p.id)|
        == |AnswersFor(s.answers, p.id)| + (if ans.pollId == p.id then 1 else 0)
  {
    var p := s.currentPoll.value;
    AnswersForAppend(s.answers, [ans], p.id);
    assert AnswersFor([ans], p.id) == AnswersFor([], p.id) + (if ans.pollId == p.id then [ans] else []) by {
      assert [ans][..0] == [];
    }
  }

  /** A kick keeps every answer, the kicked student's included, and can only lower the count of students still in. */
  lemma KickKeepsAnswers(s: PollState, id: string)
    ensures Reduce(s, KickStudent(id)).answers == s.answers
    ensures |ActiveStudents(Reduce(s, KickStudent(id)).students)| <= |ActiveStudents(s.students)|
  {
    assert Reduce(s, KickStudent(id)).students == KickMatching(s.students, id);
    KickedActiveCount(s.students, id);
  }

  lemma {:induction false} KickedActiveCount(students: seq<Student>, id: string)
    ensures |ActiveStudents(KickMatching(students, id))| <= |ActiveStudents(students)|
  {
    if students != [] {
      var front, last := students[..|students| - 1], students[|students| - 1];
      var kicked := KickMatching(students, id);
      KickedActiveCount(front, id);
      assert kicked[..|students| - 1] == KickMatching(front, id);
      assert kicked[|students| - 1].isKicked == (last.isKicked || last.id == id);
      assert |ActiveStudents(kicked)| == |ActiveStudents(KickMatching(front, id))|
        + (if kicked[|students| - 1].isKicked then 0 else 1);
      assert |ActiveStudents(students)| == |ActiveStudents(front)| + (if last.isKicked then 0 else 1);
    }
  }

  /**
   * The rule counts answers, not who gave them: with two students in and one
   * of them having answered twice, a new poll may already be created,
   * although the other student never answered.
   */
  lemma AdmissionCountsAnswersNotStudents(s: PollState, a: Student, b: Student, x: Answer)
    requires s.currentPoll.Some? && s.currentPoll.value.isActive
    requires s.students == [a, b] && !a.isKicked && !b.isKicked
    requires x.studentId == a.id && x.pollId == s.currentPoll.value.id
    requires s.answers == [x, x]
    ensures CanCreateNewPoll(s)
    ensures forall j :: 0 <= j < |s.answers| ==> s.answers[j].studentId != b.id || a.id == b.id
  {
    var p := s.currentPoll.value;
    TwoActive(a, b);
    assert [x, x] == [x] + [x] && [x] == [] + [x];
    AnswersForSnoc([], x, p.id);
    AnswersForSnoc([x], x, p.id);
  }

  /**
   * The classroom run: a 30-second poll with options Paris and Lyon, two
   * students register and answer 0 and 1. The tally is one vote each out of
   * two, and a new poll may be created.
   */
  lemma ClassroomRun(now: nat, a: Student, b: Student)
    requires !a.isKicked && !b.isKicked
    ensures
      var p := NewPoll("Capital of France?", ["Paris", "Lyon"], Some(30), None, now);
      var s1 := Reduce(Reduce(Reduce(InitialState, CreatePoll(p)), RegisterStudent(a)), RegisterStudent(b));
      var s2 := Reduce(s1, SubmitAnswer(NewAnswer(a.id, a.name, p, 0, now + 1)));
      var s3 := Reduce(s2, SubmitAnswer(NewAnswer(b.id, b.name, p, 1, now + 2)));
      && s3.results.Some?
      && s3.results.value.votes == [Count(1), Count(1)]
      && s3.results.value.totalVotes == 2
      && CanCreateNewPoll(s3)
      && TimeRemaining(s1, now) == 30
  {
    var p := NewPoll("Capital of France?", ["Paris", "Lyon"], Some(30), None, now);
    var x := NewAnswer(a.id, a.name, p, 0, now + 1);
    var y := NewAnswer(b.id, b.name, p, 1, now + 2);
    var s1 := Reduce(Reduce(Reduce(InitialState, CreatePoll(p)), RegisterStudent(a)), RegisterStudent(b));
    OpenClassroom(p, a, b);
    TwoSubmits(s1, p, x, y);
    TwoAnswersTally(p, x, y);
    TwoActive(a, b);
    assert p.isActive && p.expiresAt == now + 30000;
  }

  /** A poll created on a fresh session, then two students registering. */
  lemma OpenClassroom(p: Poll, a: Student, b: Student)
    ensures Reduce(Reduce(Reduce(InitialState, CreatePoll(p)), RegisterStudent(a)), RegisterStudent(b))
         == InitialState.(currentPoll := Some(p), polls := [p], students := [a, b])
  {
  }

  /** Two answers submitted to the current poll, before any other: both recorded, results tallied over both. */
  lemma TwoSubmits(s: PollState, p: Poll, x: Answer, y: Answer)
    requires s.currentPoll == Some(p) && s.answers == []
    ensures var r := Reduce(Reduce(s, SubmitAnswer(x)), SubmitAnswer(y));
      && r.answers == [x, y] && r.currentPoll == Some(p) && r.students == s.students
      && r.results == Some(SubmitResults(p, [x, y]))
  {
    assert [] + [x] + [y] == [x, y];
  }

  /** Two answers to a two-option poll, one per option: one vote each, two in all. */
  lemma TwoAnswersTally(p: Poll, x: Answer, y: Answer)
    requires |p.options| == 2 && x.pollId == p.id && y.pollId == p.id
    requires x.optionIndex == 0 && y.optionIndex == 1
    ensures AnswersFor([x, y], p.id) == [x, y]
    ensures SubmitResults(p, [x, y]).votes == [Count(1), Count(1)]
    ensures SubmitResults(p, [x, y]).totalVotes == 2
  {
    assert [x, y] == [x] + [y] && [x] == [] + [x];
    AnswersForSnoc([], x, p.id);
    AnswersForSnoc([x], y, p.id);
    assert [x, y][..1] == [x] && [x][..0] == [];
    assert Zeros(2) == [Count(0), Count(0)];
    assert UnguardedVotes(2, [x]) == [Count(1), Count(0)];
    assert UnguardedVotes(2, [x, y]) == [Count(1), Count(1)];
  }

  /** Two students, neither kicked, are both active. */
  lemma TwoActive(a: Student, b: Student)
    requires !a.isKicked && !b.isKicked
    ensures ActiveStudents([a, b]) == [a, b]
  {
    assert [a, b] == [a] + [b] && [a] == [] + [a];
    ActiveStudentsSnoc([], a);
    ActiveStudentsSnoc([a], b);
  }

  /**
   * The deadline has passed but EXPIRE_POLL has not yet run: the time left is
   * already zero; once it runs the poll is inactive and admission is open.
   */
  lemma PastDeadline(s: PollState, now: int)
    requires s.currentPoll.Some? && now >= s.currentPoll.value.expiresAt
    ensures TimeRemaining(s, now) == 0
    ensures !Reduce(s, ExpirePoll).currentPoll.value.isActive
    ensures CanCreateNewPoll(Reduce(s, ExpirePoll))
  {
  }
}
