/**
 * The focus timer: seconds remaining, whether it runs, and whether time is
 * up, driven by one-second ticks and the start, pause, reset and preset
 * controls; and the `MM:SS` rendering of the remaining time.
 */
module FocusTimer {
  import opened Strings

  datatype TimerState = TimerState(timeRemaining: int, isRunning: bool, timesUp: bool)

  /** A focus session lasts 25 minutes. */
  const SessionLength: nat := 25 * 60

  const Initial: TimerState := TimerState(SessionLength, false, false)

  /** The interval is installed only while running with time left. */
  predicate TickDue(s: TimerState)
  {
    s.isRunning && s.timeRemaining > 0
  }

  /** The state updater run once a second: the last second stops the timer
      and marks time up; any other second counts down by one. */
  function Tick(s: TimerState): (r: TimerState)
    ensures r.timeRemaining >= 0
    ensures s.timeRemaining > 1 ==> r == s.(timeRemaining := s.timeRemaining - 1)
    ensures s.timeRemaining <= 1 ==> r.timeRemaining == 0 && !r.isRunning && r.timesUp
  {
    if s.timeRemaining <= 1 then TimerState(0, false, true)
    else s.(timeRemaining := s.timeRemaining - 1)
  }

  /** The controls, and the passing of one second. */
  datatype Event = Second | Start | Pause | Reset | SelectPreset(seconds: nat)

  /** What an event does: a second passes without effect unless a tick is
      due; `start` clears time-up and runs; `pause` only stops; `reset`
      restores the initial state; a preset is ignored while running and
      otherwise sets the time and clears time-up. */
  function Step(s: TimerState, e: Event): (r: TimerState)
    ensures e == Second && !TickDue(s) ==> r == s
    ensures e == Start ==> r.isRunning && !r.timesUp && r.timeRemaining == s.timeRemaining
    ensures e == Pause ==> !r.isRunning && r.timesUp == s.timesUp && r.timeRemaining == s.timeRemaining
    ensures e == Reset ==> r == Initial
    ensures e.SelectPreset? && s.isRunning ==> r == s
    ensures e.SelectPreset? && !s.isRunning ==> r == TimerState(e.seconds, false, false)
  {
    match e
    case Second => if TickDue(s) then Tick(s) else s
    case Start => s.(timesUp := false, isRunning := true)
    case Pause => s.(isRunning := false)
    case Reset => TimerState(SessionLength, false, false)
    case SelectPreset(seconds) => if !s.isRunning then s.(timeRemaining := seconds, timesUp := false) else s
  }

  /** The events applied in order. */
  function Replay(s: TimerState, es: seq<Event>): TimerState
    decreases |es|
  {
    if |es| == 0 then s else Replay(Step(s, es[0]), es[1..])
  }

  /** The time left is never negative, and when time is up the timer has
      stopped at zero. */
  predicate Consistent(s: TimerState)
  {
    s.timeRemaining >= 0 && (s.timesUp ==> !s.isRunning && s.timeRemaining == 0)
  }

  lemma InitialConsistent()
    ensures Consistent(Initial)
    ensures Initial.timeRemaining == 1500 && !Initial.isRunning && !Initial.timesUp
  {
  }

  lemma StepConsistent(s: TimerState, e: Event)
    requires Consistent(s)
    ensures Consistent(Step(s, e))
  {
  }

  /** From the initial state, any sequence of events keeps the timer
      consistent. */
  lemma {:induction false} ReplayConsistent(s: TimerState, es: seq<Event>)
    requires Consistent(s)
    ensures Consistent(Replay(s, es))
    decreases |es|
  {
    if |es| > 0 {
      StepConsistent(s, es[0]);
      ReplayConsistent(Step(s, es[0]), es[1..]);
    }
  }

  /** `n` seconds passing in a row. */
  function Seconds(n: nat): (es: seq<Event>)
    ensures |es| == n && forall i :: 0 <= i < n ==> es[i] == Second
  {
    if n == 0 then [] else [Second] + Seconds(n - 1)
  }

  /** A running timer with `t` seconds left counts down one second per tick
      and, once `t` seconds have passed, has stopped at zero with time up,
      and stays so. */
  lemma {:induction false} CountDown(s: TimerState, n: nat)
    requires s.isRunning && s.timeRemaining > 0
    ensures n < s.timeRemaining ==> Replay(s, Seconds(n)) == s.(timeRemaining := s.timeRemaining - n)
    ensures n >= s.timeRemaining ==> Replay(s, Seconds(n)) == TimerState(0, false, true)
    decreases n
  {
    if n > 0 {
      var es := Seconds(n);
      assert es[1..] == Seconds(n - 1);
      var s' := Step(s, Second);
      if s.timeRemaining > 1 {
        CountDown(s', n - 1);
      } else {
        StoppedStays(s', n - 1);
      }
    }
  }

  /** Seconds passing leave a stopped timer alone. */
  lemma {:induction false} StoppedStays(s: TimerState, n: nat)
    requires !s.isRunning
    ensures Replay(s, Seconds(n)) == s
    decreases n
  {
    if n > 0 {
      assert Seconds(n)[1..] == Seconds(n - 1);
      StoppedStays(s, n - 1);
    }
  }

  /** `formatTime`: whole minutes and the remaining seconds, each padded to
      two digits, joined by a colon. */
  function FormatTime(t: nat): (r: string)
    ensures |r| >= 5 && r[|r| - 3] == ':'
    ensures t < 6000 ==> |r| == 5
  {
    FieldWidths(t);
    PadStart(Decimal(t / 60), 2, '0') + ":" + PadStart(Decimal(t % 60), 2, '0')
  }

  /** The seconds field is the two digits of `t % 60`. */
  lemma SecondsField(t: nat)
    ensures FormatTime(t)[|FormatTime(t)| - 2..] == Digits(t % 60, 2)
  {
    var m := PadStart(Decimal(t / 60), 2, '0');
    PadTwoIsDigits(t % 60);
    assert FormatTime(t) == m + ":" + Digits(t % 60, 2);
  }

  /** The minutes field reads back as `t / 60`. */
  lemma MinutesField(t: nat)
    ensures var r := FormatTime(t);
            AllDigits(r[..|r| - 3]) && ParseDecimal(r[..|r| - 3]) == t / 60
  {
    var dm := Decimal(t / 60);
    var m := PadStart(dm, 2, '0');
    var k := |m| - |dm|;
    assert m == Repeat('0', k) + dm;
    PadTwoIsDigits(t % 60);
    assert FormatTime(t)[..|FormatTime(t)| - 3] == m;
    ParseDecimalLeadingZeros(k, dm);
    ParseDecimalOfDecimal(t / 60);
  }

  /** Reading the rendering back as minutes and seconds gives the time
      again, with fewer than 60 seconds. */
  lemma FormatTimeRoundTrip(t: nat)
    ensures var r := FormatTime(t);
            var mm, ss := r[..|r| - 3], r[|r| - 2..];
            AllDigits(mm) && AllDigits(ss)
            && ParseDecimal(ss) < 60
            && ParseDecimal(mm) * 60 + ParseDecimal(ss) == t
  {
    MinutesField(t);
    SecondsField(t);
    TwoDigitsValue(t % 60);
  }

  /** Two digits read back as the number they render. */
  lemma TwoDigitsValue(n: nat)
    requires n < 100
    ensures ParseDecimal(Digits(n, 2)) == n
  {
    var s := Digits(n, 2);
    assert Digits(n / 10, 1) == Digits(n / 100, 0) + [DigitChar((n / 10) % 10)];
    assert s[..1] == Digits(n / 10, 1);
    assert ParseDecimal(s[..1][..0]) == 0;
  }

  /** The seconds, and below 100 minutes the minutes, render in at most
      two digits. */
  lemma FieldWidths(t: nat)
    ensures |Decimal(t % 60)| <= 2
    ensures t < 6000 ==> |Decimal(t / 60)| <= 2
  {
  }
}
