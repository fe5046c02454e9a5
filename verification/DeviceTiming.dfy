/** Runs in which every queued event is served in time: the queue cannot overflow, every action
    completes, an armed reset ends, and exactly which resets come early. */
module DeviceTiming {
  import opened DoorLockTypes
  import opened Led
  import opened Device
  import opened DeviceSafety

  /** Every queued event is younger than `limit` milliseconds. */
  ghost predicate Prompt(limit: nat, d: Device) {
    forall i :: 0 <= i < |d.queue.events| ==> d.now < d.queue.events[i].posted + limit
  }

  /** A run in which no event waits for `limit` milliseconds. */
  ghost predicate PromptRun(limit: nat, d: Device, steps: seq<Step>)
    decreases |steps|
  {
    Prompt(limit, d) && (steps == [] || (Enabled(d, steps[0]) && PromptRun(limit, Next(d, steps[0]), steps[1..])))
  }

  lemma {:induction false} PromptRunIsRun(limit: nat, d: Device, steps: seq<Step>)
    requires PromptRun(limit, d, steps)
    ensures IsRun(d, steps) && Prompt(limit, After(d, steps))
    decreases |steps|
  {
    if steps == [] {
    } else {
      PromptRunIsRun(limit, Next(d, steps[0]), steps[1..]);
    }
  }

  lemma {:induction false} PromptRunsCompose(limit: nat, d: Device, first: seq<Step>, second: seq<Step>)
    requires PromptRun(limit, d, first) && IsRun(d, first) && PromptRun(limit, After(d, first), second)
    ensures PromptRun(limit, d, first + second) && IsRun(d, first + second)
    ensures IsRun(After(d, first), second) && After(d, first + second) == After(After(d, first), second)
    decreases |first|
  {
    PromptRunIsRun(limit, After(d, first), second);
    if first == [] {
      assert first + second == second;
    } else {
      assert (first + second)[0] == first[0] && (first + second)[1..] == first[1..] + second;
      PromptRunsCompose(limit, Next(d, first[0]), first[1..], second);
    }
  }

  // ---- Button events are half a second apart

  /** When the button events of the queue were posted. */
  function ButtonTimes(events: seq<Queued>): seq<nat> {
    if events == [] then []
    else (if events[0].event.ButtonEvent? then [events[0].posted] else []) + ButtonTimes(events[1..])
  }

  lemma {:induction false} ButtonTimesAppend(events: seq<Queued>, q: Queued)
    ensures ButtonTimes(events + [q]) == ButtonTimes(events) + if q.event.ButtonEvent? then [q.posted] else []
  {
    if events == [] {
      assert events + [q] == [q] && [q][1..] == [];
    } else {
      assert (events + [q])[0] == events[0] && (events + [q])[1..] == events[1..] + [q];
      ButtonTimesAppend(events[1..], q);
      var head := if events[0].event.ButtonEvent? then [events[0].posted] else [];
      var tail := if q.event.ButtonEvent? then [q.posted] else [];
      assert head + (ButtonTimes(events[1..]) + tail) == (head + ButtonTimes(events[1..])) + tail;
    }
  }

  lemma {:induction false} ButtonTimesAreTimes(events: seq<Queued>, i: nat)
    requires i < |ButtonTimes(events)|
    ensures exists j :: 0 <= j < |events| && events[j].posted == ButtonTimes(events)[i]
  {
    var head := if events[0].event.ButtonEvent? then 1 else 0;
    if i < head {
      assert events[0].posted == ButtonTimes(events)[i];
    } else {
      ButtonTimesAreTimes(events[1..], i - head);
      var j :| 0 <= j < |events[1..]| && events[1..][j].posted == ButtonTimes(events[1..])[i - head];
      assert events[j + 1].posted == ButtonTimes(events)[i];
    }
  }

  lemma {:induction false} QueueLength(events: seq<Queued>)
    ensures |events| == |ButtonTimes(events)| + Pending(events, FunctionTimerEvent) + Pending(events, ActuatorTimerEvent)
  {
    if events == [] {
    } else {
      QueueLength(events[1..]);
    }
  }

  ghost predicate Spaced(times: seq<nat>) {
    forall i :: 0 <= i < |times| - 1 ==> times[i] + BUTTON_MIN_ASSERT_TIME_MS <= times[i + 1]
  }

  lemma {:induction false} SpacedSpan(times: seq<nat>)
    requires Spaced(times) && times != []
    ensures times[0] + BUTTON_MIN_ASSERT_TIME_MS * (|times| - 1) <= times[|times| - 1]
  {
    if |times| == 1 {
    } else {
      var init := times[..|times| - 1];
      assert Spaced(init);
      SpacedSpan(init);
      assert init[|init| - 1] + BUTTON_MIN_ASSERT_TIME_MS <= times[|times| - 1];
    }
  }

  /** Queued button events are spaced by the debounce time, and so will the next one be. */
  ghost predicate Debounced(events: seq<Queued>, debounce: Timer) {
    var times := ButtonTimes(events);
    && Spaced(times)
    && (debounce.Running? ==> forall i :: 0 <= i < |times| ==> times[i] + BUTTON_MIN_ASSERT_TIME_MS <= debounce.deadline)
  }

  lemma DebouncedEdge(events: seq<Queued>, now: nat)
    requires InOrder(events, now) && Spaced(ButtonTimes(events))
    ensures Debounced(events, Running(now + BUTTON_MIN_ASSERT_TIME_MS))
  {
    var times := ButtonTimes(events);
    forall i | 0 <= i < |times|
      ensures times[i] <= now
    {
      ButtonTimesAreTimes(events, i);
    }
  }

  lemma DebouncedPut(queue: QueuePart, debounce: Timer, event: AppEvent, now: nat)
    requires Debounced(queue.events, debounce)
    requires event.ButtonEvent? ==> debounce == Running(now)
    ensures Debounced(Put(queue, event, now).events, if event.ButtonEvent? then Idle else debounce)
  {
    ButtonTimesAppend(queue.events, Queued(event, now));
  }

  lemma DebouncedTaken(events: seq<Queued>, debounce: Timer)
    requires Debounced(events, debounce) && events != []
    ensures Debounced(events[1..], debounce)
  {
    var times, rest := ButtonTimes(events), ButtonTimes(events[1..]);
    assert times == (if events[0].event.ButtonEvent? then [events[0].posted] else []) + rest;
    assert rest == if events[0].event.ButtonEvent? then times[1..] else times;
  }

  lemma DebouncedStep(d: Device, step: Step)
    requires Clocked(d) && Debounced(d.queue.events, d.debounce) && Enabled(d, step)
    ensures var next := Next(d, step); Debounced(next.queue.events, next.debounce)
  {
    match step
    case ButtonEdge => DebouncedEdge(d.queue.events, d.now);
    case DebounceExpiry(held) =>
      DebouncedPut(d.queue, d.debounce, ButtonEvent(if held then LongPress else Pressed), d.now);
    case FunctionExpiry => DebouncedPut(d.queue, d.debounce, FunctionTimerEvent, d.now);
    case ActuatorExpiry => DebouncedPut(d.queue, d.debounce, ActuatorTimerEvent, d.now);
    case Dispatch =>
      DebouncedTaken(d.queue.events, d.debounce);
      var next := Dispatched(d);
      assert next.queue.events == d.queue.events[1..] && next.debounce == d.debounce;
    case _ =>
  }

  // ---- At most one expiry event of the reset timer

  /** Expiry events in the queue are older than the running reset timer; while a reset is armed they
      belong to this arming or were left over when it was made. */
  ghost predicate OneExpiry(d: Device)
    requires ResetsOrdered(d.reset)
  {
    && Pending(d.queue.events, FunctionTimerEvent) <= 1
    && (d.reset.timer.Running? ==> PostedBy(d.queue.events, d.reset.timer.deadline - FACTORY_RESET_CANCEL_WINDOW_MS))
    && (d.reset.selected.FactoryReset? ==>
          var arming := LastArming(d.reset);
          && PostedBy(d.queue.events, arming.at + FACTORY_RESET_CANCEL_WINDOW_MS)
          && (arming.stale ==> LeftOver(d.queue.events, arming.at)))
  }

  ghost predicate PostedBy(events: seq<Queued>, time: int) {
    forall i :: 0 <= i < |events| && events[i].event.FunctionTimerEvent? ==> events[i].posted <= time
  }

  ghost predicate LeftOver(events: seq<Queued>, time: nat) {
    exists i :: 0 <= i < |events| && events[i].event.FunctionTimerEvent? && events[i].posted <= time
  }

  lemma LeftOverPut(queue: QueuePart, event: AppEvent, now: nat, time: nat)
    requires LeftOver(queue.events, time)
    ensures LeftOver(Put(queue, event, now).events, time)
  {
    var i :| 0 <= i < |queue.events| && queue.events[i].event.FunctionTimerEvent? && queue.events[i].posted <= time;
    assert Put(queue, event, now).events[i] == queue.events[i];
  }

  lemma OneExpiryPut(limit: nat, d: Device, event: AppEvent)
    requires limit <= FACTORY_RESET_CANCEL_WINDOW_MS && Prompt(limit, d)
    requires Clocked(d) && ResetClock(d) && OneExpiry(d)
    requires event.FunctionTimerEvent? ==> d.reset.timer.DueAt(d.now)
    ensures var timer := if event.FunctionTimerEvent? then Idle else d.reset.timer;
      var next := d.(reset := d.reset.(timer := timer), queue := Put(d.queue, event, d.now));
      ResetsOrdered(next.reset) && OneExpiry(next)
  {
    var next := d.(reset := d.reset.(timer := if event.FunctionTimerEvent? then Idle else d.reset.timer),
                   queue := Put(d.queue, event, d.now));
    assert ResetsOrdered(next.reset);
    PendingAppend(d.queue.events, Queued(event, d.now), FunctionTimerEvent);
    if event.FunctionTimerEvent? {
      PendingHolds(d.queue.events, FunctionTimerEvent);
    }
    if d.reset.selected.FactoryReset? {
      assert LastArming(next.reset) == LastArming(d.reset);
      if LastArming(d.reset).stale {
        LeftOverPut(d.queue, event, d.now, LastArming(d.reset).at);
      }
    }
  }

  lemma OneExpiryTaken(d: Device)
    requires ResetClock(d) && OneExpiry(d) && d.queue.events != []
    requires !d.queue.events[0].event.FunctionTimerEvent?
    ensures OneExpiry(Taken(d))
  {
    if d.reset.selected.FactoryReset? && LastArming(d.reset).stale {
      var time := LastArming(d.reset).at;
      var i :| 0 <= i < |d.queue.events| && d.queue.events[i].event.FunctionTimerEvent? && d.queue.events[i].posted <= time;
      assert d.queue.events[1..][i - 1] == d.queue.events[i];
    }
  }

  lemma OneExpiryArm(d: Device)
    requires Clocked(d) && ResetClock(d) && OneExpiry(d)
    requires d.reset.selected.NoneSelected? && !d.reset.timerActive
    ensures ResetsOrdered(ArmReset(d).reset) && OneExpiry(ArmReset(d))
  {
    ResetClockArm(d);
    if Holds(d.queue.events, FunctionTimerEvent) {
      var i :| 0 <= i < |d.queue.events| && d.queue.events[i].event == FunctionTimerEvent;
      assert d.queue.events[i].posted <= d.now;
    }
  }

  lemma OneExpiryHandle(d: Device, event: AppEvent)
    requires Clocked(d) && ResetClock(d) && OneExpiry(d) && !event.FunctionTimerEvent?
    ensures ResetsOrdered(Handle(d, event).reset) && OneExpiry(Handle(d, event))
  {
    ResetClockHandle(d, event);
    match event
    case ButtonEvent(LongPress) =>
      if d.reset.selected.NoneSelected? && !d.reset.timerActive {
        OneExpiryArm(d);
      }
    case ButtonEvent(Pressed) =>
    case ActuatorTimerEvent =>
  }

  lemma OneExpiryExpired(d: Device)
    requires ResetClock(d) && OneExpiry(d) && d.queue.events != [] && d.queue.events[0].event.FunctionTimerEvent?
    ensures var next := Dispatched(d); ResetsOrdered(next.reset) && OneExpiry(next)
  {
    ResetsOrderedStep(d, Dispatch);
    var next := Dispatched(d);
    assert next.queue.events == d.queue.events[1..];
    assert !next.reset.selected.FactoryReset?;
  }

  lemma OneExpiryIgnoresLed(d: Device, led: LedState)
    requires ResetsOrdered(d.reset) && OneExpiry(d)
    ensures OneExpiry(d.(led := led))
  {
  }

  lemma OneExpiryDispatched(d: Device)
    requires Clocked(d) && ResetClock(d) && OneExpiry(d) && d.queue.events != []
    ensures var next := Dispatched(d); ResetsOrdered(next.reset) && OneExpiry(next)
  {
    var head := d.queue.events[0].event;
    if head.FunctionTimerEvent? {
      OneExpiryExpired(d);
    } else {
      OneExpiryTaken(d);
      if d.reset.selected.FactoryReset? {
        AwaitedTake(LastArming(d.reset), d.reset.timer, d.queue);
      }
      OneExpiryHandle(Taken(d), head);
      OneExpiryIgnoresLed(Handle(Taken(d), head), Dispatched(d).led);
    }
  }

  lemma OneExpiryStep(limit: nat, d: Device, step: Step)
    requires limit <= FACTORY_RESET_CANCEL_WINDOW_MS && Prompt(limit, d)
    requires Clocked(d) && ResetClock(d) && OneExpiry(d) && Enabled(d, step)
    ensures var next := Next(d, step); ResetsOrdered(next.reset) && OneExpiry(next)
  {
    ResetsOrderedStep(d, step);
    match step
    case DebounceExpiry(held) => OneExpiryPut(limit, d, ButtonEvent(if held then LongPress else Pressed));
    case FunctionExpiry => OneExpiryPut(limit, d, FunctionTimerEvent);
    case ActuatorExpiry => OneExpiryPut(limit, d, ActuatorTimerEvent);
    case Dispatch =>
      OneExpiryDispatched(d);
    case _ =>
  }
}
