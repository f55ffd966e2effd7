# IntervuePollingSystem poll-session engine in Dafny

This project models the state engine of a live classroom poll. A teacher
creates timed multiple-choice questions, students answer them, and every tab
of the browser resynchronises through one shared `localStorage` snapshot.

The model covers:

- the reducer and the provider of `src/context/PollContext.tsx`;
- the records of `src/types/poll.ts`;
- the small stateful rules in four views: the poll form, the countdown
  timer, the chat popup's send path and unread badge, and the poll history
  list.

Each source file becomes one module:

| module | file | form |
|---|---|---|
| `PollTypes` | `poll_types.dfy` | datatypes for `Poll`, `Answer`, `PollResult`, `Student`, `ChatMessage`, `PollState`; `initialState` |
| `Text` | `text.dfy` | `String.prototype.trim`, `Number.prototype.toString` on naturals, `padStart(2, "0")` |
| `Tally` | `tally.dfy` | the two vote tallies: functions, and the two loops as methods proved against them |
| `PollReducer` | `poll_reducer.dfy` | `pollReducer` as a function over actions; snapshot completion (`Normalize`) and encoding |
| `SessionRules` | `session_rules.dfy` | the provider's record builders, `canCreateNewPoll`, `getTimeRemaining`, `getStudentById`, the results effect |
| `PollProvider` | `poll_provider.dfy` | class `PollSession`: the `useReducer` state, the `localStorage` entry and the tab's `sessionStorage` entries as fields, one method per provider operation and effect |
| `PollCreatorForm` | `poll_creator.dfy` | class `PollCreator` (question and option fields) and the submit validation |
| `TimerDisplay` | `timer.dfy` | the `m:ss` text, colour thresholds, the "Time's Up!" branch, class `Timer` with its tick |
| `ChatPopupWidget` | `chat_popup.dfy` | class `ChatPopup` (open flag, input, unread count, last-seen count) and the badge label |
| `PollHistory` | `poll_history.dfy` | newest-first listing, numbering, the guarded per-poll tally, rounded percentages |

The model fixes the following choices:

- **Clock and ids.** `Date.now()` becomes a parameter `now` in milliseconds.
  Poll ids are `Decimal(now)`. Student and chat message ids are
  `Decimal(now)` followed by a `suffix` parameter that stands for the
  `Math.random` part.
- **Cells that hold no number.** `votes[answer.optionIndex]++` in
  SUBMIT_ANSWER has no bound check. An array index past the end grows the
  JavaScript array: the holes and the incremented `undefined` are not
  numbers, and JSON writes them as `null`. A negative index, or one at or
  past 2^32 - 1 (`Tally.ArrayIndexLimit`), is no array index: it names an
  ordinary property and changes no cell. The model writes such a cell as
  `VoteCell.NotANumber`. `Tally.UnguardedShape` proves what such a tally
  holds.
- **Storage as a field.** `Stored` is a parsed snapshot (`RawState`, every
  key optional), or `Unparsable` for text whose parse or completion throws.
  REFRESH_STATE carries the stored value as its payload, so the reducer
  stays a function.
- **Effects and intervals as methods.** `PollSession.Mount`,
  `PollSession.RecomputeResults`, `PollSession.ExpiryTick`, `Timer.Tick` and
  `ChatPopup.Sync` are the effect or interval bodies. A caller runs them
  when React would.

The code has fewer guards than a reader might expect, and the model keeps
each gap:

- SUBMIT_ANSWER accepts duplicate answers, answers from kicked students,
  answers to an expired poll and out-of-range indices. Every one of them is
  kept, and each counts toward the admission rule
  (`SessionRules.AdmissionCountsAnswersNotStudents`).
- `createPoll` does not consult `canCreateNewPoll`. Only the form's screen
  does (`PollCreatorForm.Screen`), and `handleSubmit` does not check it
  again.
- EXPIRE_POLL changes only `currentPoll`. The poll's copy in `polls` stays
  active.
- KICK_STUDENT records the id again on a repeat kick.
- Chat messages are accepted from anybody, of any length: the 500-character
  limit is only the input's `maxLength`.
- A stored snapshot that does not parse is removed on mount, and the session
  keeps its initial state. REFRESH_STATE ignores such text and keeps the
  current state.

## Model

| member | source | states |
|---|---|---|
| PollTypes.InitialStateEmpty | src/context/PollContext.tsx:54-62 | `initialState` has no current poll, no results and empty lists |
| Text.Trim | src/components/poll/ChatPopup.tsx:47 | the result is a slice of the input whose outside is all whitespace and whose first and last characters are not whitespace |
| Text.TrimCut | src/components/poll/ChatPopup.tsx:47 | the cut `trim` makes lies within the string, leaves only whitespace outside, and keeps no whitespace at either end |
| Text.TrimNoop | src/components/poll/PollCreator.tsx:44 | a string with no whitespace at either end comes out of `trim` unchanged |
| Text.TrimIdempotent | src/components/poll/PollCreator.tsx:44 | trimming twice equals trimming once |
| Text.TrimEmptyIff | src/components/poll/PollCreator.tsx:33 | `s.trim()` is empty exactly when every character of `s` is whitespace |
| Text.Decimal | src/context/PollContext.tsx:306 | `n.toString()` is a nonempty string of decimal digits, one digit exactly below 10, with no leading zero |
| Text.DecimalRoundTrip | src/context/PollContext.tsx:306 | reading the digits of `n.toString()` back gives `n` |
| Text.DecimalInjective | src/context/PollContext.tsx:306 | distinct numbers print as distinct strings |
| Text.PadStart2 | src/components/poll/Timer.tsx:46 | strings of length 2 or more are kept; shorter ones get zeros in front up to length 2, with the original as the suffix |
| Text.TwoDigits | src/components/poll/Timer.tsx:46 | a number below 100, printed and padded, is exactly its tens digit then its units digit |
| Tally.AnswersFor | src/context/PollContext.tsx:88-90 | the filter is no longer than its input |
| Tally.AnswersForMembers | src/context/PollContext.tsx:88-90 | an answer is kept exactly when it is in the input and names the poll |
| Tally.AnswersForSnoc | src/context/PollContext.tsx:88-90 | the filter's own recursive case, unfolded for a list with one answer appended; a step lemma for AnswersForMembers and AnswersForAppend |
| Tally.AnswersForAppend | src/context/PollContext.tsx:88-90 | filtering distributes over concatenation, so submission order is kept |
| Tally.AnswersForNone | src/context/PollContext.tsx:366-368 | a poll no answer names has no answers |
| Tally.InRangeCountBound | src/context/PollContext.tsx:279 | the in-range answers are at most all answers, and all of them exactly when every index is in range |
| Tally.GuardedVotes | src/context/PollContext.tsx:273 | the guarded tally has one cell per option |
| Tally.ElementAtMostSum | src/components/poll/PollHistoryList.tsx:56 | a single count is at most the sum of all counts |
| Tally.GuardedVotesSum | src/context/PollContext.tsx:273-282 | the guarded cells sum to the number of in-range answers, which is at most the answer count; equality holds exactly when every index is valid |
| Tally.TallyGuarded | src/context/PollContext.tsx:273-282 | the array loop that skips out-of-range indices yields cell `k` = the number of answers choosing `k` |
| Tally.Inc | src/context/PollContext.tsx:93 | `++` on one cell: a count rises by one and NaN stays NaN; used by Bump, specified through UnguardedShape |
| Tally.Bump | src/context/PollContext.tsx:93 | `votes[i]++` on a JavaScript array; specified through UnguardedShape and SpanIsLength |
| Tally.UnguardedVotes | src/context/PollContext.tsx:87-94 | the unguarded tally; specified by UnguardedShape, SpanIsLength and UnguardedAgrees, and computed by TallyUnguarded |
| Tally.UnguardedShape | src/context/PollContext.tsx:87-94 | the unguarded tally grows to one past the largest index that reached past it; the first `n` cells hold the true counts, every grown cell holds no number |
| Tally.SpanIsLength | src/context/PollContext.tsx:87-94 | the unguarded tally keeps length `n` exactly when every index is below `n` or is no array index at all |
| Tally.UnguardedAgrees | src/context/PollContext.tsx:87-94 | with every index below `n`, the unguarded tally equals the guarded one cell for cell |
| Tally.TallyUnguarded | src/context/PollContext.tsx:87-94 | the `votes[i]++` loop, including growth past the end and ignored negative indices, yields the unguarded tally |
| PollReducer.EmptySnapshotIsInitial | src/context/PollContext.tsx:210-226 | a snapshot with none of the keys completes to `initialState` |
| PollReducer.Persists | src/context/PollContext.tsx:64-159 | the cases that call `localStorage.setItem`: all but LOAD_STATE and REFRESH_STATE; stated on storage by PollSession.Dispatch |
| PollReducer.Announces | src/context/PollContext.tsx:64-159 | the cases that, besides, call `dispatchEvent` for `poll-state-updated`: all written ones but UPDATE_RESULTS; stated on `announced` by PollSession.Dispatch |
| PollReducer.Reduce | src/context/PollContext.tsx:64-196 | `pollReducer` itself; its cases are specified by the `*Effect` lemmas, SubmitAnswerTally, RefreshStateEffect and LocalActionsGrow |
| PollReducer.CompleteStudent | src/context/PollContext.tsx:221-224 | the completion of one student, whose `isKicked` becomes false unless stored true; specified by NormalizeDefaults |
| PollReducer.CompleteStudents | src/context/PollContext.tsx:220-225 | the `students.map` of that completion; specified by NormalizeDefaults |
| PollReducer.Normalize | src/context/PollContext.tsx:210-226 | the snapshot completion, shared with REFRESH_STATE at lines 171-186; specified by NormalizeEncode and NormalizeDefaults |
| PollReducer.Encode | src/context/PollContext.tsx:73 | `JSON.stringify` of a state read back by `JSON.parse`; NormalizeEncode shows that completing it gives the state back |
| PollReducer.SubmitResults | src/context/PollContext.tsx:85-104 | the results SUBMIT_ANSWER builds; specified by SubmitAnswerTally |
| PollReducer.KickMatching | src/context/PollContext.tsx:141-145 | the `students.map` of KICK_STUDENT; specified by KickStudentEffect and KickedActiveCount |
| PollReducer.NormalizeEncode | src/context/PollContext.tsx:164-186 | completing a snapshot the session wrote gives back that session state |
| PollReducer.NormalizeDefaults | src/context/PollContext.tsx:210-226 | missing collections become empty, each student keeps its place and fields, `isKicked` becomes true only when stored true, and `currentPoll` and `results` carry over |
| PollReducer.CreatePollEffect | src/context/PollContext.tsx:66-76 | CREATE_POLL appends the poll, makes it current and clears results; answers, students, chat and kicked list are unchanged |
| PollReducer.SubmitAnswerEffect | src/context/PollContext.tsx:78-108 | SUBMIT_ANSWER appends exactly one answer and changes nothing but `results`, which it keeps when there is no current poll |
| PollReducer.SubmitAnswerTally | src/context/PollContext.tsx:85-104 | the recomputed results hold that poll's answers in submission order, count them in `totalVotes` and hold the true count in each option cell; with every index in range there is one cell per option and the cells sum to `totalVotes` |
| PollReducer.ExpirePollEffect | src/context/PollContext.tsx:127-136 | EXPIRE_POLL only clears the current poll's `isActive`, leaves a missing current poll missing, and never touches `polls` |
| PollReducer.ExpirePollIdempotent | src/context/PollContext.tsx:127-136 | EXPIRE_POLL twice equals EXPIRE_POLL once |
| PollReducer.KickStudentEffect | src/context/PollContext.tsx:138-150 | KICK_STUDENT keeps the roster length, marks exactly the matching entries, leaves the others identical and appends the id |
| PollReducer.KickStudentRepeat | src/context/PollContext.tsx:138-150 | a repeat kick changes no student but appends the id a second time |
| PollReducer.RegisterStudentEffect | src/context/PollContext.tsx:110-117 | REGISTER_STUDENT appends one student and changes nothing else |
| PollReducer.SendChatMessageEffect | src/context/PollContext.tsx:152-159 | SEND_CHAT_MESSAGE appends one message and changes nothing else |
| PollReducer.UpdateResultsEffect | src/context/PollContext.tsx:119-125 | UPDATE_RESULTS replaces the results and nothing else |
| PollReducer.RefreshStateEffect | src/context/PollContext.tsx:164-191 | REFRESH_STATE installs the completed snapshot when one parses, and otherwise returns the state unchanged |
| PollReducer.RefreshAfterWrite | src/context/PollContext.tsx:164-191 | refreshing from what a state wrote yields that state |
| PollReducer.LocalActionsGrow | src/context/PollContext.tsx:64-159 | every non-load action only appends to the lists, never clears `isKicked`, keeps "kicked implies listed", and changes `polls` only on CREATE_POLL |
| SessionRules.NewPoll | src/context/PollContext.tsx:305-314 | the poll `createPoll` builds; specified by NewPollLifecycle and NewPollIdsDiffer |
| SessionRules.NewAnswer | src/context/PollContext.tsx:325-331 | the answer `submitAnswer` builds, stamped with the current poll's id; used by PollSession.SubmitAnswer, whose contract states the stamp |
| SessionRules.SessionId | src/context/PollContext.tsx:337 | the clock digits followed by the random part `suffix`; used by NewStudent and NewChatMessage |
| SessionRules.NewStudent | src/context/PollContext.tsx:336-343 | the student `registerStudent` builds, not kicked; used by PollSession.RegisterStudent, whose contract states it |
| SessionRules.NewChatMessage | src/context/PollContext.tsx:390-396 | the chat message `sendChatMessage` builds; used by PollSession.SendChatMessage |
| SessionRules.ActiveStudents | src/context/PollContext.tsx:365 | the filter is no longer than the roster |
| SessionRules.ActiveStudentsMembers | src/context/PollContext.tsx:365 | a student is kept exactly when on the roster and not kicked |
| SessionRules.ActiveStudentsSnoc | src/context/PollContext.tsx:365 | the filter's own recursive case, unfolded for a roster with one student appended; a step lemma for ActiveStudentsMembers |
| SessionRules.CanCreateNewPoll | src/context/PollContext.tsx:357-373 | true with no or an inactive current poll; otherwise true iff that poll's answer count equals the count of students not kicked, and that count is positive |
| SessionRules.TimeRemaining | src/context/PollContext.tsx:375-379 | 0 without an active poll or once the deadline has passed; otherwise the ceiling `t` of the seconds left, `(t-1)*1000 < left <= t*1000` |
| SessionRules.FindStudent | src/context/PollContext.tsx:353-355 | none exactly when no student has the id; otherwise the first student with that id |
| SessionRules.GuardedResults | src/context/PollContext.tsx:273-289 | the results the effect builds with the guarded tally; specified by EffectResultsBounds |
| SessionRules.EffectResults | src/context/PollContext.tsx:266-291 | what the effect computes, nothing without a current poll or any answer; specified by EffectResultsBounds |
| SessionRules.AfterEffect | src/context/PollContext.tsx:291-295 | the state once the effect has run; specified by AfterEffectIdempotent and AfterEffectStores |
| SessionRules.EffectResultsBounds | src/context/PollContext.tsx:266-291 | the effect's results have one cell per option, count every answer of the poll, and their cells sum to at most `totalVotes`, with equality exactly when every index is valid |
| SessionRules.AfterEffectIdempotent | src/context/PollContext.tsx:293-295 | running the results effect twice equals running it once |
| SessionRules.AfterEffectStores | src/context/PollContext.tsx:293-295 | after the effect the stored results are the recomputed ones, and no other field changed; when the effect computes nothing the state is unchanged |
| SessionRules.NewPollDefaultDuration | src/context/PollContext.tsx:302 | `DefaultDuration` is 60: without a duration the poll lasts 60 s and ends 60 000 ms after its creation |
| SessionRules.NewPollLifecycle | src/context/PollContext.tsx:299-316 | a created poll is active, defaults to 60 s, ends `duration*1000` ms after its creation, and right after CREATE_POLL the time left is its whole positive duration |
| SessionRules.NewPollIdsDiffer | src/context/PollContext.tsx:306 | polls created at different instants get different ids |
| SessionRules.TimeRemainingMonotone | src/context/PollContext.tsx:375-379 | the time left never grows as the clock advances |
| SessionRules.ExpireOpensAdmission | src/context/PollContext.tsx:357-359 | after EXPIRE_POLL the time left is 0 and a new poll may be created |
| SessionRules.CreateClosesAdmission | src/context/PollContext.tsx:357-373 | right after an active poll is created with no answers and at least one student in, no new poll may be created |
| SessionRules.SubmitCountsOnce | src/context/PollContext.tsx:366-368 | a submitted answer adds one to its poll's answer count and none to any other's |
| SessionRules.KickKeepsAnswers | src/context/PollContext.tsx:138-150 | a kick keeps every answer and never raises the count of students still in |
| SessionRules.KickedActiveCount | src/context/PollContext.tsx:141-145 | marking students kicked never raises the number not kicked |
| SessionRules.AdmissionCountsAnswersNotStudents | src/context/PollContext.tsx:366-372 | with two students in, two answers from one of them already open admission though the other never answered |
| SessionRules.ClassroomRun | src/context/PollContext.tsx:78-104 | a 30 s poll with two options and two answers 0 and 1 tallies one vote each out of two, admission reopens, and the time left right after creation is 30 |
| SessionRules.TwoAnswersTally | src/context/PollContext.tsx:85-104 | two answers to a two-option poll, one per option, tally one vote each and two in all |
| SessionRules.TwoActive | src/context/PollContext.tsx:365 | two students not kicked are both counted as in |
| SessionRules.OpenClassroom | src/context/PollContext.tsx:66-117 | creating a poll on a fresh session, then registering two students, leaves exactly that poll current and in the history and those two students on the roster |
| SessionRules.TwoSubmits | src/context/PollContext.tsx:78-108 | two answers submitted to the current poll are both recorded in order and the results are tallied over both |
| SessionRules.PastDeadline | src/context/PollContext.tsx:375-379 | past the deadline the time left is 0 even before EXPIRE_POLL; after it the poll is inactive and admission open |
| PollProvider.PollSession.constructor | src/context/PollContext.tsx:201 | the session starts from `initialState` with whatever storage already holds |
| PollProvider.PollSession.Mount | src/context/PollContext.tsx:204-234 | a parsable snapshot is completed and loaded without being written back; unparsable text is removed and the state kept; nothing stored changes nothing |
| PollProvider.PollSession.Dispatch | src/context/PollContext.tsx:64-196 | the new state is the reducer's, computed with the tally loop for SUBMIT_ANSWER; every case but LOAD_STATE and REFRESH_STATE writes it to storage, and every written case but UPDATE_RESULTS adds one `poll-state-updated` event |
| PollProvider.PollSession.CreatePoll | src/context/PollContext.tsx:299-316 | the built poll is appended and made current, results cleared, storage synced, with no admission check |
| PollProvider.PollSession.SubmitAnswer | src/context/PollContext.tsx:318-333 | without a current poll nothing changes; otherwise one answer stamped with the current poll's id is submitted and stored |
| PollProvider.PollSession.RegisterStudent | src/context/PollContext.tsx:335-351 | appends a student who is not kicked, records id and name in the tab's session storage, and returns the id |
| PollProvider.PollSession.GetStudentById | src/context/PollContext.tsx:353-355 | returns the first student with the id |
| PollProvider.PollSession.CanCreateNewPoll | src/context/PollContext.tsx:357-373 | returns the admission rule on the current state |
| PollProvider.PollSession.GetTimeRemaining | src/context/PollContext.tsx:375-379 | returns the time left on the current state |
| PollProvider.PollSession.KickStudent | src/context/PollContext.tsx:381-383 | applies KICK_STUDENT and syncs storage |
| PollProvider.PollSession.SendChatMessage | src/context/PollContext.tsx:385-398 | appends the message unchecked and syncs storage |
| PollProvider.PollSession.RefreshState | src/context/PollContext.tsx:400-402 | reloads from storage; when storage holds what this session last wrote, the state is unchanged |
| PollProvider.PollSession.ExpiryTick | src/context/PollContext.tsx:252-263 | an active poll at or past its deadline is expired and storage synced; otherwise nothing changes |
| PollProvider.PollSession.RecomputeResults | src/context/PollContext.tsx:266-297 | the state becomes the effect's outcome; storage changes only when UPDATE_RESULTS was dispatched |
| PollCreatorForm.Filled | src/components/poll/PollCreator.tsx:38 | an option counts exactly when it is not all whitespace |
| PollCreatorForm.ValidOptions | src/components/poll/PollCreator.tsx:38 | the filter is no longer than its input |
| PollCreatorForm.ValidOptionsMembers | src/components/poll/PollCreator.tsx:38 | an option is kept exactly when it was typed and its trim is nonempty |
| PollCreatorForm.ValidOptionsSnoc | src/components/poll/PollCreator.tsx:38 | the filter's own recursive case, unfolded for a list with one option appended; a step lemma for ValidOptionsAppend and ValidOptionsKeepsAll |
| PollCreatorForm.ValidOptionsAppend | src/components/poll/PollCreator.tsx:38 | the filter distributes over concatenation, so kept options keep their order |
| PollCreatorForm.ValidOptionsKeepsAll | src/components/poll/PollCreator.tsx:38 | when no option is blank, all are passed on untrimmed |
| PollCreatorForm.SubmitCheck | src/components/poll/PollCreator.tsx:33-44 | refused for a blank question exactly when the question is all whitespace; refused for options exactly when the question is fine and fewer than two options are non-blank; otherwise `createPoll` gets the trimmed nonempty question and at least two non-blank options |
| PollCreatorForm.FreshFormRefused | src/components/poll/PollCreator.tsx:30-42 | the fresh form is refused for its question, and a question with the two blank options for its options |
| PollCreatorForm.RemoveAt | src/components/poll/PollCreator.tsx:20 | the option at an existing index is removed with the rest in order; any other index removes nothing |
| PollCreatorForm.Screen | src/components/poll/PollCreator.tsx:49-65 | the form exists exactly when the admission rule holds |
| PollCreatorForm.PollCreator.constructor | src/components/poll/PollCreator.tsx:11-12 | the form starts with an empty question and two empty options |
| PollCreatorForm.PollCreator.EditQuestion | src/components/poll/PollCreator.tsx:82 | sets the question, options unchanged |
| PollCreatorForm.PollCreator.AddOption | src/components/poll/PollCreator.tsx:14-16 | appends exactly one empty option |
| PollCreatorForm.PollCreator.RemoveOption | src/components/poll/PollCreator.tsx:18-22 | removes the option only while more than two remain, so the form never drops below two |
| PollCreatorForm.PollCreator.UpdateOption | src/components/poll/PollCreator.tsx:24-28 | changes only the given option and keeps the length |
| PollCreatorForm.PollCreator.HandleSubmit | src/components/poll/PollCreator.tsx:30-47 | a refused submit changes nothing; an accepted one creates the poll from the trimmed question and non-blank options with the default duration, announces it once, then resets the form |
| TimerDisplay.Split | src/components/poll/Timer.tsx:25-26 | `minutes*60 + seconds == timeLeft` and `seconds < 60` |
| TimerDisplay.SplitUnique | src/components/poll/Timer.tsx:25-26 | that split is the only one with seconds below 60 |
| TimerDisplay.CountdownText | src/components/poll/Timer.tsx:46 | the `m:ss` text; specified by CountdownShape and CountdownInjective |
| TimerDisplay.CountdownShape | src/components/poll/Timer.tsx:46 | the text is the minutes, a colon and exactly two second digits |
| TimerDisplay.CountdownInjective | src/components/poll/Timer.tsx:46 | different remaining times show different texts |
| TimerDisplay.ColorFor | src/components/poll/Timer.tsx:28-32 | red iff at most 10 s, yellow iff 11 to 30 s, green iff above 30 s |
| TimerDisplay.ColorMonotone | src/components/poll/Timer.tsx:28-32 | as time runs down the colour never gets calmer |
| TimerDisplay.Screen | src/components/poll/Timer.tsx:34-46 | "Time's Up!" exactly at 0; otherwise the countdown text in its colour |
| TimerDisplay.LastSecond | src/components/poll/Timer.tsx:46 | one second left shows `0:01` in red |
| TimerDisplay.Timer.constructor | src/components/poll/Timer.tsx:10 | the timer starts from the time remaining |
| TimerDisplay.Timer.View | src/components/poll/Timer.tsx:34-46 | what the timer renders for its stored `timeLeft`; specified by Screen, and Tick ensures it is "Time's Up!" whenever the handler fires |
| TimerDisplay.Timer.Tick | src/components/poll/Timer.tsx:13-19 | stores the time remaining and fires the handler on every tick that reads 0, when one is given |
| ChatPopupWidget.BadgeLabel | src/components/poll/ChatPopup.tsx:67-73 | no badge exactly at 0, "99+" exactly above 99, else the printed count |
| ChatPopupWidget.BadgeReadsBack | src/components/poll/ChatPopup.tsx:72 | a numeric badge has at most two digits and reads back as the count |
| ChatPopupWidget.ChatPopup.constructor | src/components/poll/ChatPopup.tsx:16-20 | closed, empty input, nothing unread, nothing seen |
| ChatPopupWidget.ChatPopup.Edit | src/components/poll/ChatPopup.tsx:150 | sets the input, nothing else |
| ChatPopupWidget.ChatPopup.Toggle | src/components/poll/ChatPopup.tsx:53-55 | flips `isOpen`, nothing else |
| ChatPopupWidget.ChatPopup.Close | src/components/poll/ChatPopup.tsx:90 | closes the window, nothing else |
| ChatPopupWidget.ChatPopup.Sync | src/components/poll/ChatPopup.tsx:30-43 | while closed, messages beyond the last-seen count become the unread count and otherwise it is kept; while open every message is seen and nothing is unread |
| ChatPopupWidget.ChatPopup.HandleSend | src/components/poll/ChatPopup.tsx:45-51 | sends exactly when the input is not all whitespace; then the trimmed text goes out under this user's role and name and the input is cleared, with one announcement; otherwise nothing changes and nothing is announced |
| PollHistory.Reverse | src/components/poll/PollHistoryList.tsx:8 | same length, position `i` holds the `i`-th newest poll |
| PollHistory.Percent | src/components/poll/PollHistoryList.tsx:56 | 0 when nobody answered; otherwise the integer nearest 100·votes/total, halves up; at most 100 when votes do not exceed the total |
| PollHistory.RoundHalfUp | src/components/poll/PollHistoryList.tsx:56 | the quotient used for the percentage is the nearest whole number to 100·votes/total, halves up, and at most 100 for a share of at most one |
| PollHistory.DurationShown | src/components/poll/PollHistoryList.tsx:46 | the duration line is shown exactly when the duration is non-zero |
| PollHistory.Entry | src/components/poll/PollHistoryList.tsx:29-56 | one listed poll; specified by EntryBounds and computed by BuildEntry |
| PollHistory.EntryBounds | src/components/poll/PollHistoryList.tsx:29-56 | one count and one percentage per option; total = all answers of the poll; counts sum to at most the total, exactly the total iff every index is valid; each count and percentage is bounded; all percentages 0 when nobody answered |
| PollHistory.View | src/components/poll/PollHistoryList.tsx:8-41 | the placeholder exactly for an empty history; otherwise entry `i` is the `i`-th newest poll numbered `polls.length - i` |
| PollHistory.NumberedFromOldest | src/components/poll/PollHistoryList.tsx:41 | "Question k" shows the `k`-th poll created; the newest is listed first with the highest number, the oldest is number 1 |
| PollHistory.BuildEntry | src/components/poll/PollHistoryList.tsx:29-36 | the `forEach` tally with its `!== undefined` test yields the specified entry |

## Left out

- Browser storage and events: `localStorage`, `sessionStorage`, `window.dispatchEvent` and the listeners are fields and methods. A write is an assignment, and a `poll-state-updated` or `storage` event is a call to `PollSession.RefreshState`. The session counts the `poll-state-updated` events it dispatches in the field `announced`; the listener's refresh after each one is left to the caller.
- Logging: the two `console.error("Error loading saved state:", …)` calls, on a failed parse in REFRESH_STATE and on mount, are not modelled: they change no state.
- JSON: `JSON.stringify`/`JSON.parse` are `Encode` and a parse into `RawState`. Unknown extra keys are dropped. A `polls` or `answers` value that is present but not an array is not represented. An empty stored string, which the session never writes, is not distinguished from an absent entry.
- Cross-tab synchronisation and its last-writer-wins races: several sessions sharing one storage entry at the same time are not modelled, because the model is about one session's sequence of steps.
- Clock: `createPoll` reads `Date.now()` three times, and `registerStudent` and `sendChatMessage` twice each. The model reads it once per call, as `now`.
- Random ids: `Math.random().toString(36).substr(2, 9)` is the parameter `suffix`. Ids are therefore not shown to be unique across sessions.
- Text.Decimal: exact only below 10^21, where `toString` switches to exponent notation. Clock readings in milliseconds are far below that.
- PollHistory.Percent: rounds the exact share. The source rounds the floating-point product `(v / t) * 100`, which can land just below a half and round down where the exact share rounds up.
- Tally.Bump: option indices, like every other TypeScript `number` field (`createdAt`, `expiresAt`, `duration`, the timestamps), are mathematical integers. Fractional values, NaN, and double rounding above 2^53 are not modelled. The array-index limit of 2^32 - 1 is modelled. An options list longer than that limit, which JavaScript cannot allocate, increments cells as if it could.
- Floating point elsewhere: the timer's progress-bar width and the percentages in the results view are not modelled.
- PollCreatorForm.PollCreator.UpdateOption: requires an index of an existing option, the only kind its inputs pass. JavaScript would grow the list with holes for any other index.
- `alert` dialogs are the `Submission` values `MissingQuestion` and `TooFewOptions`.
- Rendering: scrolling, message bubbles, time formatting with `toLocaleTimeString`, and every other piece of markup.
- PollProvider.PollSession.RecomputeResults: compares results as values, where the source compares their JSON text. The two differ only for values JSON cannot tell apart, and the effect's tally never holds such values.
- The pages and views that only render or re-derive engine values (`TeacherDashboard.tsx`, `StudentInterface.tsx`, `PollQuestion.tsx`, `PollResults.tsx`, `StudentNameModal.tsx`, `Home.tsx`, `App.tsx`) are not part of this model. Neither are the styling configuration and `src/server/index.js`, a socket server the client never calls.
- Guards the code does not have (duplicate answers, kicked or late submitters, option-index validation, chat message length) are not stated as properties. Lemmas show instead that such inputs are accepted.
