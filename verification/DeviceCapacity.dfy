/** The capacity of the event queue, and what follows when it is respected: events are never lost if
    each is served within 4000 ms, and that bound is exact. Then every action completes in time and
    the factory resets that come early are known. */
module DeviceCapacity {
  import opened DoorLockTypes
  import opened Device
  import opened DeviceSafety
  import opened DeviceTiming

  const SERVICE_LIMIT_MS := 4000

  // ---- Room in the queue

  /** Button events younger than 4000 ms and 500 ms apart: at most eight, and at most seven if another
      one is about to be posted. */
  lemma FewButtonEvents(events: seq<Queued>, debounce: Timer, now: nat)
    requires InOrder(events, now) && Debounced(events, debounce) && debounce.MayReach(now)
    requires forall i :: 0 <= i < |events| ==> now < events[i].posted + SERVICE_LIMIT_MS
    ensures |ButtonTimes(events)| <= if debounce.DueAt(now) then 7 else 8
  {
    var times := ButtonTimes(events);
    if times != [] {
      SpacedSpan(times);
      ButtonTimesAreTimes(events, 0);
      ButtonTimesAreTimes(events, |times| - 1);
    }
  }

  lemma RoomForExpiry(d: Device, step: Step)
    requires Prompt(SERVICE_LIMIT_MS, d) && Clocked(d) && Conserved(d.lock, d.queue)
    requires ResetsOrdered(d.reset) && OneExpiry(d) && Debounced(d.queue.events, d.debounce)
    requires Enabled(d, step) && (step.DebounceExpiry? || step.FunctionExpiry? || step.ActuatorExpiry?)
    ensures |d.queue.events| < APP_EVENT_QUEUE_SIZE
  {
    FewButtonEvents(d.queue.events, d.debounce, d.now);
    QueueLength(d.queue.events);
    PendingHolds(d.queue.events, FunctionTimerEvent);
  }

  // ---- Invariant of served runs

  ghost predicate CompletionsInTime(limit: nat, callbacks: seq<Callback>) {
    forall i :: 0 < i < |callbacks| && callbacks[i].Completed? ==>
      callbacks[i].at < callbacks[i - 1].at + ACTUATOR_MOVEMENT_PERIOD_MS + limit
  }

  /** A reset is early exactly if it was armed over a left-over expiry. */
  ghost predicate ResetsExplained(limit: nat, marks: seq<ResetMark>) {
    forall i :: 0 < i < |marks| && marks[i].Fired? && marks[i - 1].Armed? ==>
      && (marks[i].at < marks[i - 1].at + FACTORY_RESET_CANCEL_WINDOW_MS <==> marks[i - 1].stale)
      && marks[i].at < marks[i - 1].at + FACTORY_RESET_CANCEL_WINDOW_MS + limit
  }

  ghost predicate Served(limit: nat, bootedLocked: bool, d: Device) {
    && Safe(bootedLocked, d) && Prompt(limit, d)
    && Debounced(d.queue.events, d.debounce) && OneExpiry(d)
    && d.queue.dropped == []
    && CompletionsInTime(limit, d.lock.callbacks) && ResetsExplained(limit, d.reset.marks)
  }

  lemma PromptMonotone(limit: nat, more: nat, d: Device)
    requires Prompt(limit, d) && limit <= more
    ensures Prompt(more, d)
  {
  }

  lemma NothingDropped(limit: nat, bootedLocked: bool, d: Device, step: Step)
    requires limit <= SERVICE_LIMIT_MS && Served(limit, bootedLocked, d) && Enabled(d, step)
    ensures Next(d, step).queue.dropped == []
  {
    PromptMonotone(limit, SERVICE_LIMIT_MS, d);
    match step
    case DebounceExpiry(_) => RoomForExpiry(d, step);
    case FunctionExpiry => RoomForExpiry(d, step);
    case ActuatorExpiry => RoomForExpiry(d, step);
    case Dispatch => assert Dispatched(d).queue.dropped == d.queue.dropped;
    case _ =>
  }

  lemma CompletesInTime(limit: nat, bootedLocked: bool, d: Device)
    requires 0 < limit && Served(limit, bootedLocked, d) && d.lock.motor.InProgress()
    ensures d.now < d.lock.callbacks[|d.lock.callbacks| - 1].at + ACTUATOR_MOVEMENT_PERIOD_MS + limit
  {
    PendingHolds(d.queue.events, ActuatorTimerEvent);
    if Holds(d.queue.events, ActuatorTimerEvent) {
      var i :| 0 <= i < |d.queue.events| && d.queue.events[i].event == ActuatorTimerEvent;
      assert d.queue.events[i].event.ActuatorTimerEvent?;
    }
  }

  lemma ArmedEndsInTime(limit: nat, bootedLocked: bool, d: Device)
    requires 0 < limit && Served(limit, bootedLocked, d) && d.reset.selected.FactoryReset?
    ensures d.now < LastArming(d.reset).at + FACTORY_RESET_CANCEL_WINDOW_MS + limit
  {
    var arming := LastArming(d.reset);
    assert d.queue.dropped[arming.drops..] == [];
    if Holds(d.queue.events, FunctionTimerEvent) {
      var i :| 0 <= i < |d.queue.events| && d.queue.events[i].event == FunctionTimerEvent;
      assert d.queue.events[i].event.FunctionTimerEvent?;
    }
  }

  /** A left-over expiry is handled less than 4000 ms after the arming, a fresh one not before its end. */
  lemma FiredIsExplained(limit: nat, bootedLocked: bool, d: Device)
    requires 0 < limit <= SERVICE_LIMIT_MS && Served(limit, bootedLocked, d)
    requires d.queue.events != [] && d.queue.events[0].event.FunctionTimerEvent? && d.reset.selected.FactoryReset?
    ensures d.now < LastArming(d.reset).at + FACTORY_RESET_CANCEL_WINDOW_MS <==> LastArming(d.reset).stale
  {
    var arming, head := LastArming(d.reset), d.queue.events[0];
    assert d.now < head.posted + limit;
    if !arming.stale {
      assert arming.at + FACTORY_RESET_CANCEL_WINDOW_MS <= head.posted;
    } else {
      var i :| 0 <= i < |d.queue.events| && d.queue.events[i].event.FunctionTimerEvent? && d.queue.events[i].posted <= arming.at;
      assert head.posted <= arming.at;
    }
  }

  lemma CompletionsInTimeStep(limit: nat, bootedLocked: bool, d: Device, step: Step)
    requires 0 < limit && Served(limit, bootedLocked, d) && Enabled(d, step)
    ensures CompletionsInTime(limit, Next(d, step).lock.callbacks)
  {
    if d.lock.motor.InProgress() {
      CompletesInTime(limit, bootedLocked, d);
    }
  }

  lemma ResetsExplainedAppend(limit: nat, marks: seq<ResetMark>, mark: ResetMark)
    requires ResetsExplained(limit, marks)
    requires mark.Fired? ==> marks != [] && var arming := marks[|marks| - 1];
               && arming.Armed?
               && (mark.at < arming.at + FACTORY_RESET_CANCEL_WINDOW_MS <==> arming.stale)
               && mark.at < arming.at + FACTORY_RESET_CANCEL_WINDOW_MS + limit
    ensures ResetsExplained(limit, marks + [mark])
  {
  }

  lemma {:induction false} ResetsExplainedStep(limit: nat, bootedLocked: bool, d: Device, step: Step)
    requires 0 < limit <= SERVICE_LIMIT_MS && Served(limit, bootedLocked, d) && Enabled(d, step)
    ensures ResetsExplained(limit, Next(d, step).reset.marks)
  {
    var marks := d.reset.marks;
    if step.Dispatch? && d.queue.events[0].event.FunctionTimerEvent? && d.reset.selected.FactoryReset? {
      ArmedEndsInTime(limit, bootedLocked, d);
      FiredIsExplained(limit, bootedLocked, d);
      ResetsExplainedAppend(limit, marks, Fired(d.now));
    } else {
      ResetsExplainedAppend(limit, marks, Armed(d.now, Holds(Next(d, step).queue.events, FunctionTimerEvent), |d.queue.dropped|));
      ResetsExplainedAppend(limit, marks, Cancelled(d.now));
    }
  }

  lemma ServedStep(limit: nat, bootedLocked: bool, d: Device, step: Step)
    requires 0 < limit <= SERVICE_LIMIT_MS && Served(limit, bootedLocked, d)
    requires Enabled(d, step) && Prompt(limit, Next(d, step))
    ensures Served(limit, bootedLocked, Next(d, step))
  {
    SafeStep(bootedLocked, d, step);
    DebouncedStep(d, step);
    OneExpiryStep(limit, d, step);
    NothingDropped(limit, bootedLocked, d, step);
    CompletionsInTimeStep(limit, bootedLocked, d, step);
    ResetsExplainedStep(limit, bootedLocked, d, step);
  }

  lemma {:induction false} ServedRun(limit: nat, bootedLocked: bool, d: Device, steps: seq<Step>)
    requires 0 < limit <= SERVICE_LIMIT_MS && Served(limit, bootedLocked, d) && PromptRun(limit, d, steps)
    ensures IsRun(d, steps) && Served(limit, bootedLocked, After(d, steps))
    decreases |steps|
  {
    if steps == [] {
    } else {
      ServedStep(limit, bootedLocked, d, steps[0]);
      ServedRun(limit, bootedLocked, Next(d, steps[0]), steps[1..]);
    }
  }

  lemma ServedFromBoot(limit: nat, attribute: DlLockState, now: nat, steps: seq<Step>)
    requires 0 < limit <= SERVICE_LIMIT_MS && PromptRun(limit, Boot(attribute, now), steps)
    ensures IsRun(Boot(attribute, now), steps)
    ensures Served(limit, attribute != Unlocked, After(Boot(attribute, now), steps))
  {
    SafeBoot(attribute, now);
    ServedRun(limit, attribute != Unlocked, Boot(attribute, now), steps);
  }

  // ---- What that means

  lemma ResponseTime(bootedLocked: bool, callbacks: seq<Callback>, i: nat)
    requires i < |callbacks| && i % 2 == 1 && IsNthCallback(bootedLocked, i, callbacks[i])
    requires CompletionsInTime(SERVICE_LIMIT_MS, callbacks)
    requires callbacks[i].Completed? ==> callbacks[i - 1].at + ACTUATOR_MOVEMENT_PERIOD_MS <= callbacks[i].at
    ensures callbacks[i - 1].at + 2000 <= callbacks[i].at < callbacks[i - 1].at + 6000
  {
    assert callbacks[i].Completed?;
  }

  lemma ServedResponse(bootedLocked: bool, d: Device)
    requires Served(SERVICE_LIMIT_MS, bootedLocked, d)
    ensures var callbacks := d.lock.callbacks;
      forall i :: 0 <= i < |callbacks| && i % 2 == 1 ==>
        callbacks[i - 1].at + 2000 <= callbacks[i].at < callbacks[i - 1].at + 6000
  {
    forall i | 0 <= i < |d.lock.callbacks| && i % 2 == 1
      ensures d.lock.callbacks[i - 1].at + 2000 <= d.lock.callbacks[i].at < d.lock.callbacks[i - 1].at + 6000
    {
      ResponseTime(bootedLocked, d.lock.callbacks, i);
    }
  }

  lemma ServedProgress(bootedLocked: bool, d: Device)
    requires Served(SERVICE_LIMIT_MS, bootedLocked, d)
    ensures var callbacks := d.lock.callbacks;
      d.lock.motor.InProgress() ==> callbacks != [] && d.now < callbacks[|callbacks| - 1].at + 6000
  {
    if d.lock.motor.InProgress() {
      CompletesInTime(SERVICE_LIMIT_MS, bootedLocked, d);
    }
  }

  /** Every accepted action completes no earlier than 2000 ms and earlier than 6000 ms after it was
      accepted, and no served run goes past that time with the action still in progress. */
  lemma BoundedResponse(attribute: DlLockState, now: nat, steps: seq<Step>)
    requires PromptRun(SERVICE_LIMIT_MS, Boot(attribute, now), steps)
    ensures IsRun(Boot(attribute, now), steps)
    ensures var d := After(Boot(attribute, now), steps);
      var callbacks := d.lock.callbacks;
      && (forall i :: 0 <= i < |callbacks| && i % 2 == 1 ==>
            callbacks[i - 1].at + 2000 <= callbacks[i].at < callbacks[i - 1].at + 6000)
      && (d.lock.motor.InProgress() ==> callbacks != [] && d.now < callbacks[|callbacks| - 1].at + 6000)
  {
    ServedFromBoot(SERVICE_LIMIT_MS, attribute, now, steps);
    ServedResponse(attribute != Unlocked, After(Boot(attribute, now), steps));
    ServedProgress(attribute != Unlocked, After(Boot(attribute, now), steps));
  }

  /** In a served run a factory reset is early exactly if an expiry event was still queued when it was
      armed; and every arming has ended within 9000 ms. */
  lemma ResetTiming(attribute: DlLockState, now: nat, steps: seq<Step>)
    requires PromptRun(SERVICE_LIMIT_MS, Boot(attribute, now), steps)
    ensures IsRun(Boot(attribute, now), steps)
    ensures var d := After(Boot(attribute, now), steps);
      var marks := d.reset.marks;
      && (forall i :: 0 <= i < |marks| && marks[i].Fired? ==>
            && i > 0 && marks[i - 1].Armed?
            && (marks[i].at < marks[i - 1].at + 5000 <==> marks[i - 1].stale)
            && marks[i].at < marks[i - 1].at + 9000)
      && (d.reset.selected.FactoryReset? ==> marks != [] && d.now < marks[|marks| - 1].at + 9000)
  {
    ServedFromBoot(SERVICE_LIMIT_MS, attribute, now, steps);
    ResetSafety(attribute, now, steps);
    var d := After(Boot(attribute, now), steps);
    if d.reset.selected.FactoryReset? {
      ArmedEndsInTime(SERVICE_LIMIT_MS, attribute != Unlocked, d);
    }
  }
}
