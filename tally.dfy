/*
 * Vote tallies over the answers of one poll.
 *
 * The source counts votes in three places, in two ways:
 *  - guarded (the results effect of src/context/PollContext.tsx:273-282 and
 *    the history view of src/components/poll/PollHistoryList.tsx:29-36): an
 *    answer whose option index is outside the options is skipped;
 *  - unguarded (the SUBMIT_ANSWER case, src/context/PollContext.tsx:87-94):
 *    `votes[answer.optionIndex]++` runs for every answer, so an index past
 *    the end grows the array with cells that hold no number, and a negative
 *    index touches no cell at all.
 * Both loops are methods proved against the functions below, which the
 * reducer and the views use.
 */
module Tally {
  import opened PollTypes

  /** `answers.filter((a) => a.pollId === pollId)`, in submission order. */
  function AnswersFor(answers: seq<Answer>, pollId: string): (r: seq<Answer>)
    ensures |r| <= |answers|
  {
    if answers == [] then []
    else
      var last := answers[|answers| - 1];
      assert answers == answers[..|answers| - 1] + [last];
      AnswersFor(answers[..|answers| - 1], pollId) + (if last.pollId == pollId then [last] else [])
  }

  /** An answer is in its poll's list exactly when it was submitted and names that poll. */
  lemma {:induction false} AnswersForMembers(answers: seq<Answer>, pollId: string)
    ensures forall a :: a in AnswersFor(answers, pollId) <==> a in answers && a.pollId == pollId
  {
    if answers != [] {
      var front, last := answers[..|answers| - 1], answers[|answers| - 1];
      AnswersForMembers(front, pollId);
      assert answers == front + [last];
      AnswersForSnoc(front, last, pollId);
    }
  }

  /** Appending one answer appends it to the filtered list exactly when it names the poll. */
  lemma AnswersForSnoc(xs: seq<Answer>, x: Answer, pollId: string)
    ensures AnswersFor(xs + [x], pollId) == AnswersFor(xs, pollId) + (if x.pollId == pollId then [x] else [])
  {
    assert (xs + [x])[..|xs|] == xs;
  }

  /** Filtering distributes over concatenation: appending an answer appends it to its poll's list and to no other. */
  lemma {:induction false} AnswersForAppend(xs: seq<Answer>, ys: seq<Answer>, pollId: string)
    ensures AnswersFor(xs + ys, pollId) == AnswersFor(xs, pollId) + AnswersFor(ys, pollId)
    decreases |ys|
  {
    if ys == [] {
      assert xs + ys == xs;
    } else {
      var front, last := ys[..|ys| - 1], ys[|ys| - 1];
      assert ys == front + [last];
      assert xs + ys == (xs + front) + [last];
      AnswersForSnoc(xs + front, last, pollId);
      AnswersForSnoc(front, last, pollId);
      AnswersForAppend(xs, front, pollId);
    }
  }

  /** A poll no answer names has no answers. */
  lemma {:induction false} AnswersForNone(answers: seq<Answer>, pollId: string)
    requires forall j :: 0 <= j < |answers| ==> answers[j].pollId != pollId
    ensures AnswersFor(answers, pollId) == []
  {
    if answers != [] {
      AnswersForNone(answers[..|answers| - 1], pollId);
    }
  }

  /** How many of `answers` chose option `k`. */
  function CountIndex(answers: seq<Answer>, k: int): nat {
    if answers == [] then 0
    else CountIndex(answers[..|answers| - 1], k) + (if answers[|answers| - 1].optionIndex == k then 1 else 0)
  }

  /** How many of `answers` chose an option among the first `n`. */
  function InRangeCount(answers: seq<Answer>, n: nat): nat {
    if answers == [] then 0
    else
      var i := answers[|answers| - 1].optionIndex;
      InRangeCount(answers[..|answers| - 1], n) + (if 0 <= i < n then 1 else 0)
  }

  predicate AllInRange(answers: seq<Answer>, n: nat) {
    forall j :: 0 <= j < |answers| ==> 0 <= answers[j].optionIndex < n
  }

  /** At most every answer is in range, and all of them are exactly when each one is. */
  lemma {:induction false} InRangeCountBound(answers: seq<Answer>, n: nat)
    ensures InRangeCount(answers, n) <= |answers|
    ensures InRangeCount(answers, n) == |answers| <==> AllInRange(answers, n)
  {
    if answers != [] {
      var front := answers[..|answers| - 1];
      InRangeCountBound(front, n);
      assert forall j :: 0 <= j < |front| ==> front[j] == answers[j];
    }
  }

  /** The guarded tally, defined per option: cell `k` counts the answers that chose `k`. */
  function GuardedVotes(n: nat, answers: seq<Answer>): (votes: seq<nat>)
    ensures |votes| == n
  {
    seq(n, k => CountIndex(answers, k))
  }

  function Sum(xs: seq<nat>): nat {
    if xs == [] then 0 else xs[0] + Sum(xs[1..])
  }

  lemma {:induction false} SumIncrement(xs: seq<nat>, k: nat)
    requires k < |xs|
    ensures Sum(xs[k := xs[k] + 1]) == Sum(xs) + 1
  {
    if k > 0 {
      SumIncrement(xs[1..], k - 1);
      assert xs[k := xs[k] + 1][1..] == xs[1..][k - 1 := xs[k] + 1];
    }
  }

  lemma {:induction false} ElementAtMostSum(xs: seq<nat>, k: nat)
    requires k < |xs|
    ensures xs[k] <= Sum(xs)
  {
    if k > 0 {
      ElementAtMostSum(xs[1..], k - 1);
    }
  }

  /** The guarded tally counts exactly the in-range answers: Σ votes ≤ totalVotes, with equality when every index is valid. */
  lemma {:induction false} GuardedVotesSum(n: nat, answers: seq<Answer>)
    ensures Sum(GuardedVotes(n, answers)) == InRangeCount(answers, n) <= |answers|
    ensures Sum(GuardedVotes(n, answers)) == |answers| <==> AllInRange(answers, n)
  {
    InRangeCountBound(answers, n);
    if answers == [] {
      GuardedZeroSum(n);
    } else {
      var front := answers[..|answers| - 1];
      var i := answers[|answers| - 1].optionIndex;
      GuardedVotesSum(n, front);
      var before := GuardedVotes(n, front);
      if 0 <= i < n {
        assert GuardedVotes(n, answers) == before[i := before[i] + 1];
        SumIncrement(before, i);
      } else {
        assert GuardedVotes(n, answers) == before;
      }
    }
  }

  lemma {:induction false} GuardedZeroSum(n: nat)
    ensures Sum(GuardedVotes(n, [])) == 0
  {
    if n > 0 {
      GuardedZeroSum(n - 1);
      assert GuardedVotes(n, [])[1..] == GuardedVotes(n - 1, []);
    }
  }

  /**
   * The guarded loop: `new Array(n).fill(0)`, then one increment per answer
   * whose option index lies inside the array.
   */
  method TallyGuarded(n: nat, answers: seq<Answer>) returns (votes: seq<nat>)
    ensures votes == GuardedVotes(n, answers)
  {
    var cells := new nat[n](_ => 0);
    var j := 0;
    while j < |answers|
      invariant 0 <= j <= |answers|
      invariant forall k :: 0 <= k < n ==> cells[k] == CountIndex(answers[..j], k)
    {
      assert answers[..j + 1][..j] == answers[..j];
      var i := answers[j].optionIndex;
      if 0 <= i < cells.Length {
        cells[i] := cells[i] + 1;
      }
      j := j + 1;
    }
    assert answers[..j] == answers;
    votes := cells[..];
  }

  // ---- the unguarded tally of SUBMIT_ANSWER ----

  /** `++` on one cell: a count goes up by one, NaN stays NaN. */
  function Inc(c: VoteCell): VoteCell {
    match c
    case Count(k) => Count(k + 1)
    case NotANumber => NotANumber
  }

  /** The first key that is not an array index in ECMAScript: indices run from 0 to 2^32 - 2. */
  const ArrayIndexLimit: int := 0xFFFF_FFFF

  /** Whether `votes[i]++` grows the array: `i` is an array index at or past its end. */
  predicate Grows(votes: seq<VoteCell>, i: int) {
    |votes| <= i < ArrayIndexLimit
  }

  /**
   * `votes[i]++` on a JavaScript array: a negative index, or one past the
   * last array index, names a property, not a cell; an array index past the
   * end makes the array `i + 1` long, holes in between, and stores
   * `undefined + 1`, which is NaN.
   */
  function Bump(votes: seq<VoteCell>, i: int): seq<VoteCell> {
    if 0 <= i < |votes| then votes[i := Inc(votes[i])]
    else if Grows(votes, i) then votes + seq(i - |votes|, _ => NotANumber) + [NotANumber]
    else votes
  }

  function Zeros(n: nat): seq<VoteCell> {
    seq(n, _ => Count(0))
  }

  /** The unguarded tally: fill with zeros, then bump once per answer in submission order. */
  function UnguardedVotes(n: nat, answers: seq<Answer>): seq<VoteCell> {
    if answers == [] then Zeros(n)
    else Bump(UnguardedVotes(n, answers[..|answers| - 1]), answers[|answers| - 1].optionIndex)
  }

  /** The length the unguarded tally ends with: `n`, or one more than the largest array index that reached past it. */
  function Span(n: nat, answers: seq<Answer>): (m: nat)
    ensures m >= n
  {
    if answers == [] then n
    else
      var m := Span(n, answers[..|answers| - 1]);
      var i := answers[|answers| - 1].optionIndex;
      if m <= i < ArrayIndexLimit then i + 1 else m
  }

  /**
   * What the unguarded tally holds: the true count in each of the first `n`
   * cells, and NaN in every cell the array grew by.
   */
  lemma {:induction false} UnguardedShape(n: nat, answers: seq<Answer>)
    ensures |UnguardedVotes(n, answers)| == Span(n, answers)
    ensures forall k :: 0 <= k < n ==> UnguardedVotes(n, answers)[k] == Count(CountIndex(answers, k))
    ensures forall k :: n <= k < Span(n, answers) ==> UnguardedVotes(n, answers)[k] == NotANumber
  {
    if answers != [] {
      UnguardedShape(n, answers[..|answers| - 1]);
    }
  }

  /**
   * The unguarded tally keeps its length `n` exactly when no option index
   * reaches past the options, except indices that are no array index at all.
   */
  lemma {:induction false} SpanIsLength(n: nat, answers: seq<Answer>)
    ensures Span(n, answers) == n <==>
      forall j :: 0 <= j < |answers| ==> answers[j].optionIndex < n || answers[j].optionIndex >= ArrayIndexLimit
  {
    if answers != [] {
      var front := answers[..|answers| - 1];
      SpanIsLength(n, front);
      assert forall j :: 0 <= j < |front| ==> front[j] == answers[j];
      if Span(n, answers) == n {
        assert Span(n, front) == n;
      }
    }
  }

  /** Counts as cells. */
  function Lift(xs: seq<nat>): (cells: seq<VoteCell>)
    ensures |cells| == |xs|
    ensures forall k :: 0 <= k < |xs| ==> cells[k] == Count(xs[k])
  {
    seq(|xs|, k requires 0 <= k < |xs| => Count(xs[k]))
  }

  /** The sum of the cells that hold a number. */
  function SumCells(cells: seq<VoteCell>): nat {
    if cells == [] then 0
    else (match cells[0] case Count(k) => k case NotANumber => 0) + SumCells(cells[1..])
  }

  lemma {:induction false} SumCellsLift(xs: seq<nat>)
    ensures SumCells(Lift(xs)) == Sum(xs)
  {
    if xs != [] {
      SumCellsLift(xs[1..]);
      assert Lift(xs)[1..] == Lift(xs[1..]);
    }
  }

  /** When no index reaches past the options, the unguarded tally agrees with the guarded one cell for cell. */
  lemma UnguardedAgrees(n: nat, answers: seq<Answer>)
    requires forall j :: 0 <= j < |answers| ==> answers[j].optionIndex < n
    ensures UnguardedVotes(n, answers) == Lift(GuardedVotes(n, answers))
  {
    UnguardedShape(n, answers);
    SpanIsLength(n, answers);
  }

  /**
   * The unguarded loop as the reducer runs it: the array starts with `n`
   * zeros and grows whenever an array index reaches past its end.
   */
  method TallyUnguarded(n: nat, answers: seq<Answer>) returns (votes: seq<VoteCell>)
    ensures votes == UnguardedVotes(n, answers)
  {
    votes := Zeros(n);
    var j := 0;
    while j < |answers|
      invariant 0 <= j <= |answers|
      invariant votes == UnguardedVotes(n, answers[..j])
    {
      assert answers[..j + 1][..j] == answers[..j];
      var i := answers[j].optionIndex;
      if 0 <= i < |votes| {
        votes := votes[i := Inc(votes[i])];
      } else if i >= |votes| && i < ArrayIndexLimit {
        votes := votes + seq(i - |votes|, _ => NotANumber) + [NotANumber];
      }
      j := j + 1;
    }
    assert answers[..j] == answers;
  }
}
