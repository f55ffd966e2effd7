/*
 * The poll history of src/components/poll/PollHistoryList.tsx: every poll
 * of the session, newest first, numbered from the oldest, each with the
 * guarded tally of its answers and a rounded percentage per option.
 */
module PollHistory {
  import opened PollTypes
  import opened Tally

  /** `polls.slice().reverse()`: a reversed copy; the state's own list keeps its order. */
  function Reverse(polls: seq<Poll>): (r: seq<Poll>)
    ensures |r| == |polls|
    ensures forall i :: 0 <= i < |polls| ==> r[i] == polls[|polls| - 1 - i]
  {
    if polls == [] then [] else [polls[|polls| - 1]] + Reverse(polls[..|polls| - 1])
  }

  /**
   * `Math.round((voteCount / totalVotes) * 100)`, taken over exact fractions:
   * the whole number nearest to the share, halves rounded up, and 0 for a
   * poll nobody answered.
   */
  function Percent(votes: nat, total: nat): (p: nat)
    ensures total == 0 ==> p == 0
    ensures total > 0 ==> (2 * p - 1) * total <= 200 * votes < (2 * p + 1) * total
    ensures votes <= total ==> p <= 100
  {
    if total == 0 then 0
    else
      var p := (200 * votes + total) / (2 * total);
      RoundHalfUp(votes, total, p);
      p
  }

  /** The quotient Percent takes is the nearest whole percentage, and at most 100 for a share of at most one. */
  lemma RoundHalfUp(votes: nat, total: nat, p: nat)
    requires total > 0 && p == (200 * votes + total) / (2 * total)
    ensures (2 * p - 1) * total <= 200 * votes < (2 * p + 1) * total
    ensures votes <= total ==> p <= 100
  {
    var x, d := 200 * votes + total, 2 * total;
    assert p * d <= x < p * d + d;
    assert (2 * p - 1) * total == p * d - total;
    assert (2 * p + 1) * total == p * d + total;
    if votes <= total {
      assert p * d < 101 * d;
      ProductCancel(p, 101, d);
    }
  }

  lemma ProductCancel(a: nat, b: nat, d: nat)
    requires d > 0 && a * d < b * d
    ensures a < b
  {
  }

  /** `{poll.duration && (...)}`: any non-zero duration shows its line; a zero renders as a bare "0". */
  datatype DurationSlot = StrayZero | DurationLine(seconds: int)

  function DurationShown(duration: int): (slot: DurationSlot)
    ensures slot.DurationLine? <==> duration != 0
    ensures slot.DurationLine? ==> slot.seconds == duration
  {
    if duration == 0 then StrayZero else DurationLine(duration)
  }

  /** One listed poll. */
  datatype HistoryEntry = HistoryEntry(
    number: nat,
    poll: Poll,
    duration: DurationSlot,
    totalVotes: nat,
    votes: seq<nat>,
    percents: seq<nat>)

  /**
   * The entry for `poll`: all its answers count toward the total; only
   * those whose option index names a cell (`votes[i] !== undefined`, that
   * is `0 <= i < options.length`) count toward a cell.
   */
  function Entry(answers: seq<Answer>, poll: Poll, number: nat): HistoryEntry {
    var mine := AnswersFor(answers, poll.id);
    var votes := GuardedVotes(|poll.options|, mine);
    HistoryEntry(number, poll, DurationShown(poll.duration), |mine|, votes,
                 seq(|votes|, k requires 0 <= k < |votes| => Percent(votes[k], |mine|)))
  }

  /**
   * What an entry shows: one count and one percentage per option, the
   * counts summing to at most the total, to exactly the total when every
   * answer names an option, and percentages within 0..100.
   */
  lemma EntryBounds(answers: seq<Answer>, poll: Poll, number: nat)
    ensures var e := Entry(answers, poll, number);
      && |e.votes| == |poll.options| && |e.percents| == |poll.options|
      && e.totalVotes == |AnswersFor(answers, poll.id)|
      && Sum(e.votes) <= e.totalVotes
      && (Sum(e.votes) == e.totalVotes <==> AllInRange(AnswersFor(answers, poll.id), |poll.options|))
      && (forall k :: 0 <= k < |e.votes| ==> e.votes[k] <= e.totalVotes && e.percents[k] <= 100)
      && (e.totalVotes == 0 ==> forall k :: 0 <= k < |e.percents| ==> e.percents[k] == 0)
  {
    var e := Entry(answers, poll, number);
    GuardedVotesSum(|poll.options|, AnswersFor(answers, poll.id));
    forall k | 0 <= k < |e.votes|
      ensures e.votes[k] <= e.totalVotes
    {
      ElementAtMostSum(e.votes, k);
    }
  }

  datatype HistoryView = NoHistory | Entries(entries: seq<HistoryEntry>)

  /** The whole list: the placeholder for an empty history, otherwise entry `i` is the `i`-th newest poll, numbered `polls.length - i`. */
  function View(s: PollState): (v: HistoryView)
    ensures v.NoHistory? <==> s.polls == []
    ensures v.Entries? ==>
      && |v.entries| == |s.polls|
      && forall i :: 0 <= i < |s.polls| ==> v.entries[i] == Entry(s.answers, s.polls[|s.polls| - 1 - i], |s.polls| - i)
  {
    if s.polls == [] then NoHistory
    else
      var polls := Reverse(s.polls);
      Entries(seq(|polls|, i requires 0 <= i < |polls| => Entry(s.answers, polls[i], |polls| - i)))
  }

  /**
   * Numbers count from the oldest poll: "Question k" shows the `k`-th poll
   * created, the newest is listed first under the highest number, and the
   * oldest is number 1.
   */
  lemma NumberedFromOldest(s: PollState)
    requires s.polls != []
    ensures var es := View(s).entries;
      && (forall i :: 0 <= i < |es| ==> 1 <= es[i].number <= |s.polls| && es[i].poll == s.polls[es[i].number - 1])
      && es[0].poll == s.polls[|s.polls| - 1] && es[0].number == |s.polls|
      && es[|es| - 1].poll == s.polls[0] && es[|es| - 1].number == 1
  {
  }

  /** The `forEach` tally of one entry: the guarded loop, whose bound check is the `!== undefined` test. */
  method BuildEntry(answers: seq<Answer>, poll: Poll, number: nat) returns (e: HistoryEntry)
    ensures e == Entry(answers, poll, number)
  {
    var mine := AnswersFor(answers, poll.id);
    var votes := TallyGuarded(|poll.options|, mine);
    e := HistoryEntry(number, poll, DurationShown(poll.duration), |mine|, votes,
                      seq(|votes|, k requires 0 <= k < |votes| => Percent(votes[k], |mine|)));
  }
}
