/** What the LED does in every run, in numbers: 50/50 ms while the actuator moves, 500/500 while a reset is armed,
    steady otherwise, and never behind after an event. */
module DeviceLed {
  import opened DoorLockTypes
  import opened Led
  import opened Device
  import opened DeviceSafety

  predicate Initiates(d: Device, d': Device) {
    |d'.lock.callbacks| == |d.lock.callbacks| + 1 && d'.lock.callbacks[|d.lock.callbacks|].Initiated?
  }

  predicate Completes(d: Device, d': Device) {
    |d'.lock.callbacks| == |d.lock.callbacks| + 1 && d'.lock.callbacks[|d.lock.callbacks|].Completed?
  }

  predicate Arms(d: Device, d': Device) {
    |d'.reset.marks| == |d.reset.marks| + 1 && d'.reset.marks[|d.reset.marks|].Armed?
  }

  predicate Cancels(d: Device, d': Device) {
    |d'.reset.marks| == |d.reset.marks| + 1 && d'.reset.marks[|d.reset.marks|].Cancelled?
  }

  /** The LED after a step blinks with the given times, having toggled exactly if it was overdue before. */
  predicate BlinksFrom(lit: bool, since: nat, time: nat, now: nat, led: LedState) {
    && led.onTime == time && led.offTime == time
    && (if time != 0 && since + time < now then led.on == !lit && led.lastChange == now
        else led.on == lit && led.lastChange == since)
  }

  /** What a step does to the LED. */
  predicate LedRule(d: Device, step: Step, d': Device) {
    if Initiates(d, d') then BlinksFrom(d.led.on, d.led.lastChange, 50, d.now, d'.led)
    else if Completes(d, d') then BlinksFrom(d'.lock.motor == LockCompleted, 0, 0, d.now, d'.led)
    else if Arms(d, d') then BlinksFrom(false, 0, 500, d.now, d'.led)
    else if Cancels(d, d') then BlinksFrom(d.lock.motor != UnlockCompleted, 0, 0, d.now, d'.led)
    else if step.Dispatch? then BlinksFrom(d.led.on, d.led.lastChange, d.led.onTime, d.now, d'.led)
    else d'.led == d.led
  }

  /** No toggle of a blinking LED is overdue. */
  predicate UpToDate(led: LedState, now: nat) {
    led.onTime != 0 && led.offTime != 0 ==> now <= led.lastChange + if led.on then led.onTime else led.offTime
  }

  /** The LED is steady or has one of the two rates, the same on and off. */
  predicate HasRate(led: LedState) {
    led.onTime == led.offTime && (led.onTime == 0 || led.onTime == 50 || led.onTime == 500)
  }

  lemma AnimatedRule(led: LedState, now: nat)
    requires HasRate(led)
    ensures BlinksFrom(led.on, led.lastChange, led.onTime, now, Animated(led, now)) && UpToDate(Animated(led, now), now)
  {
  }

  lemma BlinkedRule(led: LedState, time: nat, now: nat)
    requires time == 50 || time == 500
    ensures var blinked := Blinked(led, time, time, now);
      BlinksFrom(led.on, led.lastChange, time, now, blinked) && UpToDate(blinked, now) && Animated(blinked, now) == blinked
  {
  }

  lemma LedOfCommand(d: Device, action: Action, accepted: bool)
    requires HasRate(d.led)
    ensures LedRule(d, RemoteCommand(action, accepted), Next(d, RemoteCommand(action, accepted)))
  {
    BlinkedRule(d.led, 50, d.now);
  }

  lemma LedOfPress(d: Device)
    requires HasRate(d.led) && d.queue.events != [] && d.queue.events[0].event == ButtonEvent(Pressed)
    ensures LedRule(d, Dispatch, Dispatched(d)) && UpToDate(Dispatched(d).led, d.now)
  {
    BlinkedRule(d.led, 50, d.now);
    AnimatedRule(d.led, d.now);
  }

  lemma LedOfLongPress(d: Device)
    requires HasRate(d.led) && d.queue.events != [] && d.queue.events[0].event == ButtonEvent(LongPress)
    ensures LedRule(d, Dispatch, Dispatched(d)) && UpToDate(Dispatched(d).led, d.now)
  {
    BlinkedRule(Steady(false), 500, d.now);
    AnimatedRule(d.led, d.now);
  }

  lemma LedOfExpiry(d: Device)
    requires HasRate(d.led) && d.queue.events != [] && !d.queue.events[0].event.ButtonEvent?
    ensures LedRule(d, Dispatch, Dispatched(d)) && UpToDate(Dispatched(d).led, d.now)
  {
    AnimatedRule(d.led, d.now);
  }

  lemma LedOfDispatch(d: Device)
    requires HasRate(d.led) && d.queue.events != []
    ensures LedRule(d, Dispatch, Dispatched(d)) && UpToDate(Dispatched(d).led, d.now)
  {
    match d.queue.events[0].event
    case ButtonEvent(LongPress) => LedOfLongPress(d);
    case ButtonEvent(Pressed) => LedOfPress(d);
    case _ => LedOfExpiry(d);
  }

  lemma LedOfStep(d: Device, step: Step)
    requires HasRate(d.led) && Enabled(d, step)
    ensures LedRule(d, step, Next(d, step)) && HasRate(Next(d, step).led)
    ensures step.Dispatch? ==> UpToDate(Next(d, step).led, d.now)
  {
    match step
    case Dispatch => LedOfDispatch(d);
    case RemoteCommand(action, accepted) => LedOfCommand(d, action, accepted);
    case _ =>
  }

  lemma {:induction false} HasRateRun(d: Device, steps: seq<Step>)
    requires HasRate(d.led) && IsRun(d, steps)
    ensures HasRate(After(d, steps).led)
    decreases |steps|
  {
    if steps == [] {
    } else {
      LedOfStep(d, steps[0]);
      HasRateRun(Next(d, steps[0]), steps[1..]);
    }
  }

  /** At every step of every run: starting an action leaves the LED blinking at 50 ms on and off, arming the reset at
      500 ms from dark; completing an action leaves it steadily showing the new state, cancelling the reset steadily
      lit unless the lock rests unlocked; any other event only toggles it, exactly if a toggle is overdue; nothing
      else touches it. After every event no toggle is overdue. */
  lemma LedLaw(attribute: DlLockState, now: nat, steps: seq<Step>, step: Step)
    requires IsRun(Boot(attribute, now), steps) && Enabled(After(Boot(attribute, now), steps), step)
    ensures var d := After(Boot(attribute, now), steps);
      && LedRule(d, step, Next(d, step))
      && (step.Dispatch? ==> UpToDate(Next(d, step).led, d.now))
  {
    HasRateRun(Boot(attribute, now), steps);
    LedOfStep(After(Boot(attribute, now), steps), step);
  }

  /** So the rate tells what goes on: the LED blinks at 50 ms only while an action is in progress, and at 500 ms
      only while a reset is armed or has fired. */
  lemma RateTells(attribute: DlLockState, now: nat, steps: seq<Step>)
    requires IsRun(Boot(attribute, now), steps)
    ensures var d := After(Boot(attribute, now), steps);
      && HasRate(d.led)
      && (d.led.onTime == 500 ==> d.reset.selected.FactoryReset? || HasFired(d.reset))
      && (d.led.onTime == 50 ==> d.lock.motor.InProgress())
  {
    SafeFromBoot(attribute, now, steps);
    RatesRun(attribute != Unlocked, Boot(attribute, now), steps);
  }

  ghost predicate RateExplained(d: Device) {
    && HasRate(d.led)
    && (d.led.onTime == 500 ==> d.reset.timerActive)
    && (d.led.onTime == 50 ==> d.lock.motor.InProgress())
  }

  lemma RateExplainedStep(d: Device, step: Step)
    requires RateExplained(d) && ResetsOrdered(d.reset) && Enabled(d, step)
    ensures RateExplained(Next(d, step))
  {
  }

  lemma {:induction false} RatesRun(bootedLocked: bool, d: Device, steps: seq<Step>)
    requires Safe(bootedLocked, d) && RateExplained(d) && IsRun(d, steps)
    ensures RateExplained(After(d, steps))
    decreases |steps|
  {
    if steps == [] {
    } else {
      RateExplainedStep(d, steps[0]);
      SafeStep(bootedLocked, d, steps[0]);
      RatesRun(bootedLocked, Next(d, steps[0]), steps[1..]);
    }
  }
}
