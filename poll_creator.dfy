/*
 * The teacher's poll form of src/components/poll/PollCreator.tsx: a question
 * and a list of option texts edited in place, validated on submit, and a
 * screen that offers the form only while the admission rule allows a poll.
 */
module PollCreatorForm {
  import opened PollTypes
  import opened Text
  import opened Tally
  import opened PollReducer
  import opened SessionRules
  import opened PollProvider

  /** `opt.trim() !== ""`: the option holds a character that is not whitespace. */
  predicate Filled(o: string)
    ensures Filled(o) <==> !AllWhitespace(o)
  {
    TrimEmptyIff(o);
    Trim(o) != []
  }

  /** `options.filter((opt) => opt.trim() !== "")`: the non-blank options, untrimmed, in their order. */
  function ValidOptions(options: seq<string>): (r: seq<string>)
    ensures |r| <= |options|
  {
    if options == [] then []
    else
      var last := options[|options| - 1];
      assert options == options[..|options| - 1] + [last];
      ValidOptions(options[..|options| - 1]) + (if Filled(last) then [last] else [])
  }

  /** An option is passed on exactly when it was typed and is not blank. */
  lemma {:induction false} ValidOptionsMembers(options: seq<string>)
    ensures forall o :: o in ValidOptions(options) <==> o in options && Filled(o)
  {
    if options != [] {
      var front, last := options[..|options| - 1], options[|options| - 1];
      ValidOptionsMembers(front);
      assert options == front + [last];
      assert ValidOptions(options) == ValidOptions(front) + (if Filled(last) then [last] else []);
    }
  }

  /** Appending one option appends it to the filtered list exactly when it is filled. */
  lemma ValidOptionsSnoc(xs: seq<string>, o: string)
    ensures ValidOptions(xs + [o]) == ValidOptions(xs) + (if Filled(o) then [o] else [])
  {
    assert (xs + [o])[..|xs|] == xs;
  }

  /** The filter keeps order: it distributes over concatenation. */
  lemma {:induction false} ValidOptionsAppend(xs: seq<string>, ys: seq<string>)
    ensures ValidOptions(xs + ys) == ValidOptions(xs) + ValidOptions(ys)
    decreases |ys|
  {
    if ys == [] {
      assert xs + ys == xs;
    } else {
      var front, last := ys[..|ys| - 1], ys[|ys| - 1];
      assert ys == front + [last];
      assert xs + ys == (xs + front) + [last];
      ValidOptionsSnoc(xs + front, last);
      ValidOptionsSnoc(front, last);
      ValidOptionsAppend(xs, front);
    }
  }

  /** When no option is blank, every option is passed on exactly as typed. */
  lemma {:induction false} ValidOptionsKeepsAll(options: seq<string>)
    requires forall i :: 0 <= i < |options| ==> Filled(options[i])
    ensures ValidOptions(options) == options
  {
    if options != [] {
      var front, last := options[..|options| - 1], options[|options| - 1];
      assert options == front + [last];
      assert Filled(last);
      ValidOptionsKeepsAll(front);
      ValidOptionsSnoc(front, last);
    }
  }

  /** What a submit does: one of the two alerts, or the poll `createPoll` receives. */
  datatype Submission =
    | MissingQuestion
    | TooFewOptions
    | Accepted(question: string, options: seq<string>)

  /**
   * The checks of `handleSubmit`, in their order: a question that is blank
   * after trimming is refused first, then fewer than two non-blank options.
   */
  function SubmitCheck(question: string, options: seq<string>): (r: Submission)
    ensures r == MissingQuestion <==> AllWhitespace(question)
    ensures r == TooFewOptions <==> !AllWhitespace(question) && |ValidOptions(options)| < 2
    ensures r.Accepted? ==>
      && r.question == Trim(question) && r.question != []
      && r.options == ValidOptions(options) && |r.options| >= 2
  {
    TrimEmptyIff(question);
    if Trim(question) == [] then MissingQuestion
    else if |ValidOptions(options)| < 2 then TooFewOptions
    else Accepted(Trim(question), ValidOptions(options))
  }

  /** The fresh form is refused for its blank question, and a question alone is refused for its blank options. */
  lemma FreshFormRefused(question: string)
    requires !AllWhitespace(question)
    ensures SubmitCheck("", ["", ""]) == MissingQuestion
    ensures SubmitCheck(question, ["", ""]) == TooFewOptions
  {
    assert Trim("") == [];
    assert ValidOptions(["", ""]) == [] by {
      assert ["", ""][..1] == [""];
      assert ValidOptions([""]) == [] by { assert [""][..0] == []; }
    }
  }

  /** `options.filter((_, i) => i !== index)`: the option at `index` removed, or nothing when no option sits there. */
  function RemoveAt(options: seq<string>, index: int): (r: seq<string>)
    ensures 0 <= index < |options| ==>
      && |r| == |options| - 1
      && (forall k :: 0 <= k < index ==> r[k] == options[k])
      && (forall k :: index <= k < |r| ==> r[k] == options[k + 1])
    ensures !(0 <= index < |options|) ==> r == options
  {
    if 0 <= index < |options| then options[..index] + options[index + 1..] else options
  }

  /** Which card the creator shows. */
  datatype CreatorScreen = CannotCreate | Form

  /** The gate of the view: the form exists only while the admission rule allows a new poll. */
  function Screen(s: PollState): (v: CreatorScreen)
    ensures v == Form <==> CanCreateNewPoll(s)
    ensures v == CannotCreate <==> s.currentPoll.Some? && s.currentPoll.value.isActive
                                   && !(|AnswersFor(s.answers, s.currentPoll.value.id)| == |ActiveStudents(s.students)| > 0)
  {
    if CanCreateNewPoll(s) then Form else CannotCreate
  }

  class PollCreator {
    var question: string
    var options: seq<string>

    /** The form always shows at least two option inputs. */
    ghost predicate Valid()
      reads this
    {
      |options| >= 2
    }

    constructor ()
      ensures question == "" && options == ["", ""]
      ensures Valid()
    {
      question := "";
      options := ["", ""];
    }

    /** The question input's `onChange`. */
    method EditQuestion(text: string)
      requires Valid()
      modifies this
      ensures question == text && options == old(options)
      ensures Valid()
    {
      question := text;
    }

    /** `addOption`: one more empty option at the end. */
    method AddOption()
      requires Valid()
      modifies this
      ensures options == old(options) + [""] && question == old(question)
      ensures Valid()
    {
      options := options + [""];
    }

    /** `removeOption`: refused while only two options remain. */
    method RemoveOption(index: int)
      requires Valid()
      modifies this
      ensures |old(options)| > 2 ==> options == RemoveAt(old(options), index)
      ensures |old(options)| <= 2 ==> options == old(options)
      ensures question == old(question)
      ensures Valid()
    {
      if |options| > 2 {
        options := RemoveAt(options, index);
      }
    }

    /** `updateOption`, called from an option input, whose index is always one of the options. */
    method UpdateOption(index: int, value: string)
      requires Valid()
      requires 0 <= index < |options|
      modifies this
      ensures |options| == |old(options)| && options[index] == value
      ensures forall k :: 0 <= k < |options| && k != index ==> options[k] == old(options)[k]
      ensures question == old(question)
      ensures Valid()
    {
      options := options[index := value];
    }

    /**
     * `handleSubmit`: a refused submit changes nothing; an accepted one
     * creates the poll with the default duration and resets the form.
     */
    method HandleSubmit(session: PollSession, now: nat) returns (outcome: Submission)
      requires Valid()
      modifies this, session
      ensures outcome == SubmitCheck(old(question), old(options))
      ensures outcome.Accepted? ==>
        && session.state == Reduce(old(session.state),
                                   PollReducer.CreatePoll(NewPoll(outcome.question, outcome.options, None, None, now)))
        && session.Synced()
        && question == "" && options == ["", ""]
      ensures !outcome.Accepted? ==>
        && session.state == old(session.state) && session.storage == old(session.storage)
        && question == old(question) && options == old(options)
      ensures session.tabStudentId == old(session.tabStudentId)
      ensures session.tabStudentName == old(session.tabStudentName)
      ensures session.announced == old(session.announced) + if outcome.Accepted? then 1 else 0
      ensures Valid()
    {
      outcome := SubmitCheck(question, options);
      if outcome.Accepted? {
        session.CreatePoll(outcome.question, outcome.options, None, None, now);
        question := "";
        options := ["", ""];
      }
    }
  }
}
