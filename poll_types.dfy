/*
 * The records of a polling session (src/types/poll.ts).
 *
 * Every record is a value: the engine never updates one in place, it builds
 * a new one with the changed fields (the `{ ...x, f: v }` spread of the
 * source becomes Dafny's `x.(f := v)`).
 */
module PollTypes {

  /** A nullable or optional field: `T | null`, or `f?: T`. */
  datatype Option<T> = None | Some(value: T) {
    function GetOr(default: T): T {
      match this
      case Some(v) => v
      case None => default
    }
  }

  /** One question. `correctOptionIndex` is optional and nothing in the engine reads it. */
  datatype Poll = Poll(
    id: string,
    question: string,
    options: seq<string>,
    createdAt: int,
    expiresAt: int,
    isActive: bool,
    duration: int,
    correctOptionIndex: Option<int>)

  /** One submitted answer; it names its student and its poll by id. */
  datatype Answer = Answer(
    studentId: string,
    studentName: string,
    pollId: string,
    optionIndex: int,
    answeredAt: int)

  /**
   * One cell of a `votes` array as JavaScript holds it. A cell is a count, or
   * it is not a number: NaN after `undefined++`, a hole left when an
   * assignment past the end grows the array, or the `null` that either of
   * those becomes after a trip through JSON.
   */
  datatype VoteCell = Count(n: nat) | NotANumber

  datatype PollResult = PollResult(
    pollId: string,
    question: string,
    options: seq<string>,
    votes: seq<VoteCell>,
    totalVotes: nat,
    studentAnswers: seq<Answer>)

  datatype Student = Student(id: string, name: string, joinedAt: int, isKicked: bool)

  /** `"teacher" | "student"`. */
  datatype SenderType = FromTeacher | FromStudent

  datatype ChatMessage = ChatMessage(
    id: string,
    message: string,
    senderType: SenderType,
    senderName: string,
    timestamp: int)

  /** The whole session: seven fields, two of them nullable. */
  datatype PollState = PollState(
    currentPoll: Option<Poll>,
    polls: seq<Poll>,
    answers: seq<Answer>,
    students: seq<Student>,
    results: Option<PollResult>,
    chatMessages: seq<ChatMessage>,
    kickedStudents: seq<string>)

  /** The state a session starts from, and the defaults a loaded snapshot is completed with. */
  const InitialState: PollState := PollState(None, [], [], [], None, [], [])

  /** A fresh session has no current poll and no results, and every list is empty. */
  lemma InitialStateEmpty()
    ensures InitialState.currentPoll.None? && InitialState.results.None?
    ensures InitialState.polls == [] && InitialState.answers == [] && InitialState.students == []
    ensures InitialState.chatMessages == [] && InitialState.kickedStudents == []
  {
  }
}
