/*
 * The countdown of src/components/poll/Timer.tsx: the remaining whole
 * seconds shown as `m:ss` in a colour that warns as the deadline nears,
 * replaced by "Time's Up!" at zero, and a one-second tick that calls the
 * optional timeout handler on every tick that reads zero.
 */
module TimerDisplay {
  import opened Text
  import opened SessionRules
  import opened PollProvider

  datatype Face = Face(minutes: nat, seconds: nat)

  /** `Math.floor(timeLeft / 60)` and `timeLeft % 60`: the unique split into whole minutes and leftover seconds. */
  function Split(t: nat): (f: Face)
    ensures f.minutes * 60 + f.seconds == t
    ensures f.seconds < 60
  {
    Face(t / 60, t % 60)
  }

  /** Any split of `t` into minutes and seconds below sixty is the one `Split` gives. */
  lemma SplitUnique(t: nat, m: nat, s: nat)
    requires m * 60 + s == t && s < 60
    ensures Split(t) == Face(m, s)
  {
  }

  /** `{minutes}:{seconds.toString().padStart(2, "0")}` */
  function CountdownText(t: nat): string {
    var f := Split(t);
    Decimal(f.minutes) + ":" + PadStart2(Decimal(f.seconds))
  }

  /** The text is the minutes, a colon, and the seconds as exactly two digits. */
  lemma CountdownShape(t: nat)
    ensures CountdownText(t) == Decimal(t / 60) + [':', DigitChar(t % 60 / 10), DigitChar(t % 60 % 10)]
  {
    TwoDigits(t % 60);
  }

  /** Different remaining times never show the same text. */
  lemma CountdownInjective(a: nat, b: nat)
    requires CountdownText(a) == CountdownText(b)
    ensures a == b
  {
    CountdownShape(a);
    CountdownShape(b);
    var ta, tb := CountdownText(a), CountdownText(b);
    var n := |ta|;
    assert ta[..n - 3] == Decimal(a / 60);
    assert tb[..n - 3] == Decimal(b / 60);
    DecimalInjective(a / 60, b / 60);
    assert ta[n - 2] == DigitChar(a % 60 / 10) && tb[n - 2] == DigitChar(b % 60 / 10);
    assert ta[n - 1] == DigitChar(a % 60 % 10) && tb[n - 1] == DigitChar(b % 60 % 10);
    assert a % 60 == (a % 60 / 10) * 10 + a % 60 % 10;
    assert b % 60 == (b % 60 / 10) * 10 + b % 60 % 10;
  }

  datatype TimerColor = Red | Yellow | Green

  /** `getTimerColor`; the bar under the text uses the same thresholds. */
  function ColorFor(t: nat): (c: TimerColor)
    ensures c == Red <==> t <= 10
    ensures c == Yellow <==> 10 < t <= 30
    ensures c == Green <==> 30 < t
  {
    if t <= 10 then Red else if t <= 30 then Yellow else Green
  }

  function Urgency(c: TimerColor): nat {
    match c
    case Green => 0
    case Yellow => 1
    case Red => 2
  }

  /** As time runs down the colour only grows more urgent. */
  lemma ColorMonotone(earlier: nat, later: nat)
    requires later <= earlier
    ensures Urgency(ColorFor(earlier)) <= Urgency(ColorFor(later))
  {
  }

  datatype TimerScreen = TimesUp | Countdown(text: string, color: TimerColor)

  /** What the component renders for `timeLeft`. */
  function Screen(t: nat): (v: TimerScreen)
    ensures v == TimesUp <==> t == 0
    ensures t > 0 ==> v == Countdown(CountdownText(t), ColorFor(t))
  {
    if t == 0 then TimesUp else Countdown(CountdownText(t), ColorFor(t))
  }

  /** The last ten seconds show in red, down to `0:01`. */
  lemma LastSecond()
    ensures Screen(1) == Countdown("0:01", Red)
  {
    CountdownShape(1);
  }

  class Timer {
    /** The `timeLeft` state. */
    var timeLeft: nat

    /** `useState(getTimeRemaining())` when the timer mounts. */
    constructor (session: PollSession, now: int)
      ensures timeLeft == TimeRemaining(session.state, now)
    {
      timeLeft := TimeRemaining(session.state, now);
    }

    function View(): TimerScreen
      reads this
    {
      Screen(timeLeft)
    }

    /**
     * One tick of the interval: read the remaining time, store it, and report
     * whether `onTimeout` is called. Nothing remembers an earlier call, so a
     * handler is called again on every tick that still reads zero.
     */
    method Tick(session: PollSession, now: int, hasOnTimeout: bool) returns (fired: bool)
      modifies this
      ensures timeLeft == TimeRemaining(session.state, now)
      ensures fired <==> timeLeft == 0 && hasOnTimeout
      ensures fired ==> View() == TimesUp
    {
      var remaining := session.GetTimeRemaining(now);
      timeLeft := remaining;
      fired := remaining == 0 && hasOnTimeout;
    }
  }
}
