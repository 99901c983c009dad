/**
  The idle and scene logic of the device's main loop, one tick at a time.
  A tick either arms the wake button and deep-sleeps (the program ends and
  the board cold-boots), or dims when idle, light-sleeps until an alarm
  fires, and reacts to the alarm that woke it.
 */
module MainLoop {

  /** Seconds of idleness after which the board deep-sleeps instead of light-sleeping. */
  const SleepAfter: real := 420.0
  /** Seconds of idleness after which the backlight is switched off. */
  const DimAfter: real := 10.0
  /** The backlight level at boot and after every button wake. */
  const Bright: real := 0.5
  const Dark: real := 0.0

  datatype Scene = CurrentConditions | HourlyForecast

  /** The alarm that ended a light sleep: the 1-second timer or one of the three buttons. */
  datatype WakeCause = TimeAlarm | PrevPin | WakePin | NextPin

  datatype LoopState = LoopState(lastInteraction: real, brightness: real, scene: Scene)

  /** The result of one tick: the loop carries on, or the program ends in deep sleep. */
  datatype Outcome = Awake(state: LoopState) | DeepSleep

  /** One tick's inputs: the monotonic clock while deciding, the alarm that fired, and the clock on waking. */
  datatype Tick = Tick(now: real, cause: WakeCause, wokeAt: real)

  /** The state when the loop is first entered at monotonic time `t`. */
  function Boot(t: real): (s: LoopState)
    ensures s.lastInteraction == t && s.brightness == Bright && s.scene == CurrentConditions
  {
    LoopState(t, Bright, CurrentConditions)
  }

  function Idle(s: LoopState, now: real): real {
    now - s.lastInteraction
  }

  /** The backlight check made before each light sleep. */
  function Dim(s: LoopState, now: real): (d: LoopState)
    ensures d.lastInteraction == s.lastInteraction && d.scene == s.scene
    ensures d.brightness == Dark <==> s.brightness == Dark || (s.brightness > 0.0 && Idle(s, now) > DimAfter)
    ensures d.brightness != s.brightness ==> d.brightness == Dark
  {
    if s.brightness > 0.0 && Idle(s, now) > DimAfter then s.(brightness := Dark) else s
  }

  /** The reaction to the alarm that ended the light sleep. */
  function Wake(s: LoopState, cause: WakeCause, wokeAt: real): (w: LoopState)
    ensures cause == TimeAlarm ==> w == s
    ensures cause != TimeAlarm ==> w.lastInteraction == wokeAt && w.brightness == Bright
    ensures w.scene == match cause
                       case PrevPin => CurrentConditions
                       case NextPin => HourlyForecast
                       case _ => s.scene
  {
    var touched := if cause != TimeAlarm then s.(lastInteraction := wokeAt, brightness := Bright) else s;
    match cause
    case PrevPin => touched.(scene := CurrentConditions)
    case NextPin => touched.(scene := HourlyForecast)
    case _ => touched
  }

  /** One pass of the main loop after the status bar is redrawn. */
  function Step(s: LoopState, t: Tick): (o: Outcome)
    ensures o.DeepSleep? <==> Idle(s, t.now) > SleepAfter
    ensures o.Awake? ==>
              o.state.lastInteraction == if t.cause == TimeAlarm then s.lastInteraction else t.wokeAt
    ensures o.Awake? ==>
              o.state.brightness == if t.cause != TimeAlarm then Bright
                                    else if s.brightness > 0.0 && Idle(s, t.now) > DimAfter then Dark
                                    else s.brightness
    ensures o.Awake? ==>
              o.state.scene == match t.cause
                               case PrevPin => CurrentConditions
                               case NextPin => HourlyForecast
                               case _ => s.scene
  {
    if Idle(s, t.now) <= SleepAfter then Awake(Wake(Dim(s, t.now), t.cause, t.wokeAt))
    else DeepSleep
  }

  /** Runs the loop over a sequence of ticks, stopping at the first deep sleep. */
  function Run(s: LoopState, ticks: seq<Tick>): Outcome
    decreases |ticks|
  {
    if |ticks| == 0 then Awake(s)
    else match Step(s, ticks[0])
         case DeepSleep => DeepSleep
         case Awake(next) => Run(next, ticks[1..])
  }

  /** The backlight only ever takes the two levels the script writes. */
  predicate ValidBrightness(s: LoopState) {
    s.brightness == Bright || s.brightness == Dark
  }

  /** Every awake state keeps the backlight at one of its two levels. */
  lemma StepKeepsBrightness(s: LoopState, t: Tick)
    requires ValidBrightness(s)
    ensures Step(s, t).Awake? ==> ValidBrightness(Step(s, t).state)
  {
  }

  /** With a monotonic clock the last interaction never lies in the future. */
  lemma StepKeepsPast(s: LoopState, t: Tick)
    requires s.lastInteraction <= t.now <= t.wokeAt
    ensures Step(s, t).Awake? ==> Step(s, t).state.lastInteraction <= t.wokeAt
  {
  }

  /** A button wake is a fresh interaction: full brightness and a reset idle timer. */
  lemma ButtonWakeRestores(s: LoopState, t: Tick)
    requires Idle(s, t.now) <= SleepAfter && t.cause != TimeAlarm
    ensures Step(s, t) == Awake(LoopState(t.wokeAt, Bright, Wake(s, t.cause, t.wokeAt).scene))
  {
  }

  /** Only timer wakes in a row: ticks that never touch the buttons. */
  predicate TimerOnly(ticks: seq<Tick>) {
    forall i :: 0 <= i < |ticks| ==> ticks[i].cause == TimeAlarm
  }

  /** Without button presses the idle timer and the scene never change. */
  lemma {:induction false} TimerRunKeepsInteraction(s: LoopState, ticks: seq<Tick>)
    requires TimerOnly(ticks)
    ensures Run(s, ticks).Awake? ==>
              && Run(s, ticks).state.lastInteraction == s.lastInteraction
              && Run(s, ticks).state.scene == s.scene
    decreases |ticks|
  {
    if |ticks| > 0 && Step(s, ticks[0]).Awake? {
      assert TimerOnly(ticks[1..]) by {
        forall i | 0 <= i < |ticks[1..]| ensures ticks[1..][i].cause == TimeAlarm {
          assert ticks[1..][i] == ticks[i + 1];
        }
      }
      TimerRunKeepsInteraction(Step(s, ticks[0]).state, ticks[1..]);
    }
  }

  /** A dark backlight stays dark while only the timer fires. */
  lemma {:induction false} TimerRunStaysDark(s: LoopState, ticks: seq<Tick>)
    requires TimerOnly(ticks) && s.brightness == Dark
    ensures Run(s, ticks).Awake? ==> Run(s, ticks).state.brightness == Dark
    decreases |ticks|
  {
    if |ticks| > 0 && Step(s, ticks[0]).Awake? {
      assert TimerOnly(ticks[1..]) by {
        forall i | 0 <= i < |ticks[1..]| ensures ticks[1..][i].cause == TimeAlarm {
          assert ticks[1..][i] == ticks[i + 1];
        }
      }
      TimerRunStaysDark(Step(s, ticks[0]).state, ticks[1..]);
    }
  }

  /**
    Without button presses, once some tick sees more than the dim threshold
    of idleness the backlight is dark from then on.
   */
  lemma {:induction false} TimerRunDims(s: LoopState, ticks: seq<Tick>, k: nat)
    requires TimerOnly(ticks) && s.brightness >= 0.0
    requires k < |ticks| && Idle(s, ticks[k].now) > DimAfter
    ensures Run(s, ticks).Awake? ==> Run(s, ticks).state.brightness == Dark
    decreases |ticks|
  {
    var rest := ticks[1..];
    assert TimerOnly(rest) by {
      forall i | 0 <= i < |rest| ensures rest[i].cause == TimeAlarm {
        assert rest[i] == ticks[i + 1];
      }
    }
    match Step(s, ticks[0])
    case DeepSleep =>
    case Awake(next) =>
      assert next.lastInteraction == s.lastInteraction;
      if k == 0 {
        assert next.brightness == Dark;
        TimerRunStaysDark(next, rest);
      } else {
        assert rest[k - 1] == ticks[k];
        TimerRunDims(next, rest, k - 1);
      }
  }

  /**
    Without button presses, once some tick sees more than the sleep
    threshold of idleness the run ends in deep sleep.
   */
  lemma {:induction false} TimerRunDeepSleeps(s: LoopState, ticks: seq<Tick>, k: nat)
    requires TimerOnly(ticks)
    requires k < |ticks| && Idle(s, ticks[k].now) > SleepAfter
    ensures Run(s, ticks) == DeepSleep
    decreases |ticks|
  {
    match Step(s, ticks[0])
    case DeepSleep =>
    case Awake(next) =>
      var rest := ticks[1..];
      assert TimerOnly(rest) by {
        forall i | 0 <= i < |rest| ensures rest[i].cause == TimeAlarm {
          assert rest[i] == ticks[i + 1];
        }
      }
      assert k > 0 && rest[k - 1] == ticks[k];
      assert next.lastInteraction == s.lastInteraction;
      TimerRunDeepSleeps(next, rest, k - 1);
  }

  /**
    From boot at time T with only timer wakes: a tick at T + 11 leaves the
    backlight dark, and a tick at T + 421 ends in deep sleep.
   */
  lemma IdleScenario(t: real)
    ensures Step(Boot(t), Tick(t + 11.0, TimeAlarm, t + 12.0)) == Awake(LoopState(t, Dark, CurrentConditions))
    ensures Run(Boot(t), [Tick(t + 11.0, TimeAlarm, t + 12.0), Tick(t + 421.0, TimeAlarm, t + 422.0)]) == DeepSleep
  {
    var ticks := [Tick(t + 11.0, TimeAlarm, t + 12.0), Tick(t + 421.0, TimeAlarm, t + 422.0)];
    assert ticks[1..] == [Tick(t + 421.0, TimeAlarm, t + 422.0)];
  }

  /** A press of the previous button while the hourly scene is up brings back current conditions. */
  lemma PrevFromHourly(s: LoopState, t: Tick)
    requires s.scene == HourlyForecast && t.cause == PrevPin && Idle(s, t.now) <= SleepAfter
    ensures Step(s, t).Awake? && Step(s, t).state.scene == CurrentConditions
  {
  }
}
