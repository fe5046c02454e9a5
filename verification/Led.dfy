/** The status LED (src/platform/LEDWidget.cpp): a class that blinks by polling the clock, the value
    it denotes, and how fast a blinking LED can toggle. */
module Led {

  datatype LedState = LedState(on: bool, lastChange: nat, onTime: nat, offTime: nat) {

    predicate Blinking() {
      onTime != 0 && offTime != 0
    }

    /** How long the LED stays as it is while it blinks. */
    function Dwell(): nat {
      DwellIn(on)
    }

    function DwellIn(lit: bool): nat {
      if lit then onTime else offTime
    }
  }

  function Steady(on: bool): LedState {
    LedState(on, 0, 0, 0)
  }

  function Animated(led: LedState, now: nat): LedState {
    if led.Blinking() && led.lastChange + led.Dwell() < now then
      led.(on := !led.on, lastChange := now)
    else
      led
  }

  function Blinked(led: LedState, onTime: nat, offTime: nat, now: nat): LedState {
    Animated(led.(onTime := onTime, offTime := offTime), now)
  }

  class LEDWidget {
    var mState: bool
    var mLastChangeTimeMS: nat
    var mBlinkOnTimeMS: nat
    var mBlinkOffTimeMS: nat

    ghost function View(): LedState
      reads this
    {
      LedState(mState, mLastChangeTimeMS, mBlinkOnTimeMS, mBlinkOffTimeMS)
    }

    constructor Init()
      ensures View() == Steady(false)
    {
      mState := false;
      mLastChangeTimeMS, mBlinkOnTimeMS, mBlinkOffTimeMS := 0, 0, 0;
    }

    method Set(state: bool)
      modifies this
      ensures View() == Steady(state)
    {
      mLastChangeTimeMS, mBlinkOnTimeMS, mBlinkOffTimeMS := 0, 0, 0;
      DoSet(state);
    }

    method Blink(onTimeMS: nat, offTimeMS: nat, now: nat)
      modifies this
      ensures View() == Blinked(old(View()), onTimeMS, offTimeMS, now)
      ensures mBlinkOnTimeMS == onTimeMS && mBlinkOffTimeMS == offTimeMS
      ensures mState != old(mState) <==>
              onTimeMS != 0 && offTimeMS != 0 && old(mLastChangeTimeMS) + (if old(mState) then onTimeMS else offTimeMS) < now
    {
      mBlinkOnTimeMS := onTimeMS;
      mBlinkOffTimeMS := offTimeMS;
      Animate(now);
    }

    method Animate(now: nat)
      modifies this
      ensures View() == Animated(old(View()), now)
    {
      if mBlinkOnTimeMS != 0 && mBlinkOffTimeMS != 0 {
        var stateDurMS := if mState then mBlinkOnTimeMS else mBlinkOffTimeMS;
        var nextChangeTimeMS := mLastChangeTimeMS + stateDurMS;
        if nextChangeTimeMS < now {
          DoSet(!mState);
          mLastChangeTimeMS := now;
        }
      }
    }

    method DoSet(state: bool)
      modifies this`mState
      ensures mState == state
    {
      mState := state;
    }
  }

  /** A change of the LED seen from outside: when it happened and what the LED became. */
  datatype Toggle = Toggle(at: nat, on: bool)

  /** Polls a LED at the given times and collects the toggles it makes. */
  function Poll(led: LedState, times: seq<nat>): (LedState, seq<Toggle>)
    decreases |times|
  {
    if times == [] then
      (led, [])
    else
      var next := Animated(led, times[0]);
      var (last, rest) := Poll(next, times[1..]);
      (last, if next.on != led.on then [Toggle(times[0], next.on)] + rest else rest)
  }

  /** The on and off times that separate toggle i from toggle j. */
  function DwellBetween(led: LedState, toggles: seq<Toggle>, i: nat, j: nat): nat
    requires i <= j <= |toggles|
    decreases j - i
  {
    if i == j then 0 else led.DwellIn(toggles[i].on) + DwellBetween(led, toggles, i + 1, j)
  }

  /** Each toggle waits out the dwell of the state before it, and consecutive toggles alternate. */
  lemma {:induction false} TogglesWait(led: LedState, times: seq<nat>)
    ensures var (last, toggles) := Poll(led, times);
      && last.onTime == led.onTime && last.offTime == led.offTime
      && (|toggles| > 0 ==> led.Blinking() && toggles[0].on != led.on && led.lastChange + led.Dwell() < toggles[0].at)
      && (forall i :: 0 <= i < |toggles| - 1 ==>
            && toggles[i + 1].on != toggles[i].on
            && toggles[i].at + led.DwellIn(toggles[i].on) < toggles[i + 1].at)
    decreases |times|
  {
    if times == [] {
    } else {
      TogglesWait(Animated(led, times[0]), times[1..]);
    }
  }

  /** However often and whenever a blinking LED is polled, two of its toggles are further apart than
      all the on and off times between them, by at least a millisecond for each. */
  lemma {:induction false} BlinkRate(led: LedState, times: seq<nat>, i: nat, j: nat)
    requires i <= j < |Poll(led, times).1|
    ensures var toggles := Poll(led, times).1;
      toggles[i].at + DwellBetween(led, toggles, i, j) + (j - i) <= toggles[j].at
    decreases j - i
  {
    TogglesWait(led, times);
    if i < j {
      BlinkRate(led, times, i + 1, j);
    }
  }

  lemma OneCycle(led: LedState, times: seq<nat>, i: nat)
    requires i + 2 < |Poll(led, times).1|
    ensures var toggles := Poll(led, times).1;
      toggles[i].at + led.onTime + led.offTime + 2 <= toggles[i + 2].at
  {
    TogglesWait(led, times);
    var toggles := Poll(led, times).1;
    assert toggles[i + 1].on != toggles[i].on;
    assert toggles[i + 1].at + led.DwellIn(toggles[i + 1].on) < toggles[i + 2].at;
  }

  /** In particular k full cycles take more than k times the blink period. */
  lemma {:induction false} BlinkPeriod(led: LedState, times: seq<nat>, i: nat, k: nat, period: nat)
    requires i + 2 * k < |Poll(led, times).1|
    requires period == led.onTime + led.offTime + 2
    ensures var toggles := Poll(led, times).1;
      toggles[i].at + k * period <= toggles[i + 2 * k].at
    decreases k
  {
    if k == 0 {
    } else {
      OneCycle(led, times, i);
      BlinkPeriod(led, times, i + 2, k - 1, period);
      assert k * period == (k - 1) * period + period;
    }
  }

  /** Polls at least every `gap` milliseconds. */
  ghost predicate PolledEvery(times: seq<nat>, gap: nat) {
    forall i :: 0 <= i < |times| - 1 ==> times[i] <= times[i + 1] <= times[i] + gap
  }

  /** A blinking LED that is polled every `gap` milliseconds makes each toggle at most that much late,
      and after the last poll no toggle is overdue. */
  lemma {:induction false} TogglesInTime(led: LedState, times: seq<nat>, gap: nat)
    requires led.Blinking() && PolledEvery(times, gap)
    ensures var (last, toggles) := Poll(led, times);
      && (|toggles| > 0 ==> toggles[0].at <= times[0] || toggles[0].at <= led.lastChange + led.Dwell() + gap)
      && (forall i :: 0 <= i < |toggles| - 1 ==> toggles[i + 1].at <= toggles[i].at + led.DwellIn(toggles[i].on) + gap)
      && (times != [] ==> times[|times| - 1] <= last.lastChange + last.Dwell())
    decreases |times|
  {
    if times == [] {
    } else {
      assert PolledEvery(times[1..], gap);
      TogglesInTime(Animated(led, times[0]), times[1..], gap);
    }
  }

  /** A LED that was set does not toggle until the next Blink, whenever it is polled. */
  lemma {:induction false} SetIsSteady(on: bool, times: seq<nat>)
    ensures Poll(Steady(on), times) == (Steady(on), [])
  {
    if times == [] {
    } else {
      SetIsSteady(on, times[1..]);
    }
  }
}
