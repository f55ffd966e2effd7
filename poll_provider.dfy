/*
 * The poll provider of src/context/PollContext.tsx:200-402: it owns the
 * session state, dispatches reducer actions, mirrors every written state
 * into localStorage and exposes the session's operations.
 *
 * localStorage's `pollState` entry and sessionStorage's `studentId` and
 * `studentName` entries are fields of the object. The clock and the random
 * part of ids are parameters. Timers (`setInterval`) become methods a caller
 * invokes per tick.
 */
module PollProvider {
  import opened PollTypes
  import opened Tally
  import opened PollReducer
  import opened SessionRules

  class PollSession {
    var state: PollState
    /** localStorage `pollState`. */
    var storage: Option<Stored>
    /** sessionStorage `studentId` and `studentName`, private to one tab. */
    var tabStudentId: Option<string>
    var tabStudentName: Option<string>
    /**
     * How many `poll-state-updated` events this session has dispatched. Each
     * one makes this session's own listener run `RefreshState` right after
     * the write, which `RefreshState` shows changes nothing.
     */
    var announced: nat

    /** The stored entry holds exactly what this session last wrote. */
    ghost predicate Synced()
      reads this
    {
      storage == Some(Snapshot(Encode(state)))
    }

    /** `useReducer(pollReducer, initialState)` in a browser whose storage already holds `saved`. */
    constructor (saved: Option<Stored>)
      ensures state == InitialState && storage == saved
      ensures tabStudentId == None && tabStudentName == None
      ensures announced == 0
    {
      state := InitialState;
      storage := saved;
      tabStudentId, tabStudentName := None, None;
      announced := 0;
    }

    /**
     * The mount effect: a snapshot that parses is completed and loaded; text
     * that does not parse is removed and the session keeps its initial state.
     */
    method Mount()
      modifies this
      ensures old(storage).None? ==> state == old(state) && storage == None
      ensures old(storage) == Some(Unparsable) ==> state == old(state) && storage == None
      ensures old(storage).Some? && old(storage).value.Snapshot? ==>
        state == Normalize(old(storage).value.raw) && storage == old(storage)
      ensures tabStudentId == old(tabStudentId) && tabStudentName == old(tabStudentName)
      ensures announced == old(announced)
    {
      match storage {
        case None =>
        case Some(Unparsable) =>
          storage := None;
        case Some(Snapshot(raw)) =>
          Dispatch(LoadState(Normalize(raw)));
      }
    }

    /**
     * `dispatch(action)`: the reducer's new state, written to storage by
     * every case but LOAD_STATE and REFRESH_STATE, and announced by every
     * written case but UPDATE_RESULTS. The SUBMIT_ANSWER case runs its tally
     * loop.
     */
    method Dispatch(a: Action)
      modifies this
      ensures state == Reduce(old(state), a)
      ensures storage == if Persists(a) then Some(Snapshot(Encode(state))) else old(storage)
      ensures Persists(a) ==> Synced()
      ensures tabStudentId == old(tabStudentId) && tabStudentName == old(tabStudentName)
      ensures announced == old(announced) + if Announces(a) then 1 else 0
    {
      match a {
        case SubmitAnswer(ans) =>
          var answers := state.answers + [ans];
          if state.currentPoll.Some? {
            var p := state.currentPoll.value;
            var mine := AnswersFor(answers, p.id);
            var votes := TallyUnguarded(|p.options|, mine);
            state := state.(answers := answers,
                            results := Some(PollResult(p.id, p.question, p.options, votes, |mine|, mine)));
          } else {
            state := state.(answers := answers);
          }
        case _ =>
          state := Reduce(state, a);
      }
      if Persists(a) {
        storage := Some(Snapshot(Encode(state)));
      }
      if Announces(a) {
        announced := announced + 1;
      }
    }

    /** `createPoll`: builds the poll from the clock and dispatches CREATE_POLL, without consulting the admission rule. */
    method CreatePoll(question: string, options: seq<string>, duration: Option<int>,
                      correctOptionIndex: Option<int>, now: nat)
      modifies this
      ensures var p := NewPoll(question, options, duration, correctOptionIndex, now);
        state == old(state).(currentPoll := Some(p), polls := old(state).polls + [p], results := None)
      ensures Synced()
      ensures tabStudentId == old(tabStudentId) && tabStudentName == old(tabStudentName)
      ensures announced == old(announced) + 1
    {
      Dispatch(PollReducer.CreatePoll(NewPoll(question, options, duration, correctOptionIndex, now)));
    }

    /** `submitAnswer`: nothing at all without a current poll; otherwise SUBMIT_ANSWER with the current poll's id. */
    method SubmitAnswer(studentId: string, studentName: string, optionIndex: int, now: nat)
      modifies this
      ensures old(state).currentPoll.None? ==> state == old(state) && storage == old(storage)
      ensures old(state).currentPoll.Some? ==>
        && state == Reduce(old(state), PollReducer.SubmitAnswer(
                      NewAnswer(studentId, studentName, old(state).currentPoll.value, optionIndex, now)))
        && state.answers[|state.answers| - 1].pollId == old(state).currentPoll.value.id
        && Synced()
      ensures tabStudentId == old(tabStudentId) && tabStudentName == old(tabStudentName)
      ensures announced == old(announced) + if old(state).currentPoll.Some? then 1 else 0
    {
      if state.currentPoll.None? {
        return;
      }
      var ans := NewAnswer(studentId, studentName, state.currentPoll.value, optionIndex, now);
      Dispatch(PollReducer.SubmitAnswer(ans));
    }

    /** `registerStudent`: appends a student who is not kicked, remembers it in this tab and returns its id. */
    method RegisterStudent(name: string, now: nat, suffix: string) returns (id: string)
      modifies this
      ensures id == SessionId(now, suffix)
      ensures state == old(state).(students := old(state).students + [Student(id, name, now, false)])
      ensures Synced()
      ensures tabStudentId == Some(id) && tabStudentName == Some(name)
      ensures announced == old(announced) + 1
    {
      var st := NewStudent(name, now, suffix);
      Dispatch(PollReducer.RegisterStudent(st));
      tabStudentId, tabStudentName := Some(st.id), Some(name);
      id := st.id;
    }

    /** `getStudentById` */
    method GetStudentById(id: string) returns (r: Option<Student>)
      ensures r == FindStudent(state.students, id)
    {
      r := FindStudent(state.students, id);
    }

    /** `canCreateNewPoll` */
    method CanCreateNewPoll() returns (ok: bool)
      ensures ok == SessionRules.CanCreateNewPoll(state)
    {
      ok := SessionRules.CanCreateNewPoll(state);
    }

    /** `getTimeRemaining` */
    method GetTimeRemaining(now: int) returns (t: nat)
      ensures t == TimeRemaining(state, now)
    {
      t := TimeRemaining(state, now);
    }

    /** `kickStudent` */
    method KickStudent(studentId: string)
      modifies this
      ensures state == Reduce(old(state), PollReducer.KickStudent(studentId))
      ensures Synced()
      ensures tabStudentId == old(tabStudentId) && tabStudentName == old(tabStudentName)
      ensures announced == old(announced) + 1
    {
      Dispatch(PollReducer.KickStudent(studentId));
    }

    /** `sendChatMessage`: appends the message as given; neither its length nor its sender is checked. */
    method SendChatMessage(message: string, senderType: SenderType, senderName: string, now: nat, suffix: string)
      modifies this
      ensures state == old(state).(chatMessages := old(state).chatMessages
                                     + [NewChatMessage(message, senderType, senderName, now, suffix)])
      ensures Synced()
      ensures tabStudentId == old(tabStudentId) && tabStudentName == old(tabStudentName)
      ensures announced == old(announced) + 1
    {
      Dispatch(PollReducer.SendChatMessage(NewChatMessage(message, senderType, senderName, now, suffix)));
    }

    /**
     * `refreshState`, also run on every `poll-state-updated` and `storage`
     * event: reloads the stored snapshot. When the entry is what this session
     * last wrote, the state does not change.
     */
    method RefreshState()
      modifies this
      ensures state == Reduce(old(state), PollReducer.RefreshState(old(storage)))
      ensures storage == old(storage)
      ensures old(Synced()) ==> state == old(state)
      ensures tabStudentId == old(tabStudentId) && tabStudentName == old(tabStudentName)
      ensures announced == old(announced)
    {
      if Synced() {
        RefreshAfterWrite(state, state);
      }
      Dispatch(PollReducer.RefreshState(storage));
    }

    /** One tick of the one-second expiry interval, which runs while the current poll is active. */
    method ExpiryTick(now: int)
      modifies this
      ensures var due := old(state).currentPoll.Some? && old(state).currentPoll.value.isActive
                         && now >= old(state).currentPoll.value.expiresAt;
        && (due ==> state == Reduce(old(state), ExpirePoll) && Synced() && announced == old(announced) + 1)
        && (!due ==> state == old(state) && storage == old(storage) && announced == old(announced))
      ensures tabStudentId == old(tabStudentId) && tabStudentName == old(tabStudentName)
    {
      if state.currentPoll.Some? && state.currentPoll.value.isActive && now >= state.currentPoll.value.expiresAt {
        Dispatch(ExpirePoll);
      }
    }

    /**
     * The results effect, run whenever the current poll or the answers
     * change: recompute with the guarded tally and dispatch UPDATE_RESULTS
     * only when the outcome differs from the stored results.
     */
    method RecomputeResults()
      modifies this
      ensures state == AfterEffect(old(state))
      ensures state == old(state) ==> storage == old(storage)
      ensures state != old(state) ==> Synced()
      ensures tabStudentId == old(tabStudentId) && tabStudentName == old(tabStudentName)
      ensures announced == old(announced)
    {
      if state.currentPoll.Some? && |state.answers| > 0 {
        var p := state.currentPoll.value;
        var mine := AnswersFor(state.answers, p.id);
        var votes := TallyGuarded(|p.options|, mine);
        var r := PollResult(p.id, p.question, p.options, Lift(votes), |mine|, mine);
        if Some(r) != state.results {
          Dispatch(UpdateResults(r));
        }
      }
    }
  }
}
