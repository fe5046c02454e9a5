/** Runs that show the bounds are exact: a completion that is lost as soon as events may wait longer than
    4000 ms, a reset that comes early over a left-over expiry, and time that can always pass. */
module DeviceWitnesses {
  import opened DoorLockTypes
  import opened Device
  import opened DeviceSafety
  import opened DeviceTiming
  import opened DeviceCapacity

  lemma Extend(limit: nat, start: Device, steps: seq<Step>, step: Step)
    requires PromptRun(limit, start, steps) && IsRun(start, steps) && Enabled(After(start, steps), step)
    requires Prompt(limit, Next(After(start, steps), step))
    ensures PromptRun(limit, start, steps + [step]) && IsRun(start, steps + [step])
    ensures After(start, steps + [step]) == Next(After(start, steps), step)
  {
    PromptRunIsRun(limit, start, steps);
    PromptRunsCompose(limit, start, steps, [step]);
  }

  /** A press of the button that ends up in the queue. */
  lemma PressCycle(limit: nat, start: Device, steps: seq<Step>, held: bool) returns (longer: seq<Step>)
    requires PromptRun(limit, start, steps) && IsRun(start, steps)
    requires var d := After(start, steps);
      && d.debounce.Idle? && d.lock.timer.MayReach(d.now + 500) && d.reset.timer.MayReach(d.now + 500)
      && forall i :: 0 <= i < |d.queue.events| ==> d.now + 500 < d.queue.events[i].posted + limit
    requires limit > 0
    ensures PromptRun(limit, start, longer) && IsRun(start, longer)
    ensures var d := After(start, steps);
      After(start, longer) == d.(now := d.now + 500,
                                 queue := Put(d.queue, ButtonEvent(if held then LongPress else Pressed), d.now + 500))
  {
    Extend(limit, start, steps, ButtonEdge);
    Extend(limit, start, steps + [ButtonEdge], Tick(500));
    longer := steps + [ButtonEdge] + [Tick(500)] + [DebounceExpiry(held)];
    Extend(limit, start, steps + [ButtonEdge] + [Tick(500)], DebounceExpiry(held));
  }

  /** Arms the reset half a second after boot. */
  lemma ArmAfterBoot(limit: nat) returns (steps: seq<Step>)
    requires limit > 0
    ensures PromptRun(limit, Boot(Locked, 0), steps) && IsRun(Boot(Locked, 0), steps)
    ensures var d := After(Boot(Locked, 0), steps);
      && d.now == 500 && d.debounce.Idle? && d.queue == QueuePart([], [])
      && d.lock == LockPart(LockCompleted, Idle, [])
      && d.reset == ResetPart(FactoryReset, true, Running(5500), [Armed(500, false, 0)])
  {
    steps := PressCycle(limit, Boot(Locked, 0), [], true);
    Extend(limit, Boot(Locked, 0), steps, Dispatch);
    steps := steps + [Dispatch];
  }

  // ---- A reset that comes early

  /** With every event served within 4000 ms, an expiry event left in the queue by a cancelled arming
      resets the device in the very millisecond in which it is armed again. */
  lemma EarlyReset() returns (steps: seq<Step>)
    ensures PromptRun(SERVICE_LIMIT_MS, Boot(Locked, 0), steps) && IsRun(Boot(Locked, 0), steps)
    ensures After(Boot(Locked, 0), steps).reset.marks
            == [Armed(500, false, 0), Cancelled(5500), Armed(5500, true, 0), Fired(5500)]
  {
    var boot := Boot(Locked, 0);
    steps := ArmAfterBoot(SERVICE_LIMIT_MS);
    Extend(SERVICE_LIMIT_MS, boot, steps, Tick(3500));
    steps := steps + [Tick(3500)];
    steps := PressCycle(SERVICE_LIMIT_MS, boot, steps, true);
    steps := PressCycle(SERVICE_LIMIT_MS, boot, steps, true);
    assert After(boot, steps).queue.events == [Queued(ButtonEvent(LongPress), 4500), Queued(ButtonEvent(LongPress), 5000)];
    Extend(SERVICE_LIMIT_MS, boot, steps, Tick(500));
    steps := steps + [Tick(500)];
    Extend(SERVICE_LIMIT_MS, boot, steps, FunctionExpiry);
    steps := steps + [FunctionExpiry];
    steps := DispatchAll(steps);
  }

  lemma DispatchAll(steps: seq<Step>) returns (longer: seq<Step>)
    requires PromptRun(SERVICE_LIMIT_MS, Boot(Locked, 0), steps) && IsRun(Boot(Locked, 0), steps)
    requires var d := After(Boot(Locked, 0), steps);
      && d.now == 5500
      && d.queue == QueuePart([Queued(ButtonEvent(LongPress), 4500), Queued(ButtonEvent(LongPress), 5000), Queued(FunctionTimerEvent, 5500)], [])
      && d.reset == ResetPart(FactoryReset, true, Idle, [Armed(500, false, 0)])
    ensures PromptRun(SERVICE_LIMIT_MS, Boot(Locked, 0), longer) && IsRun(Boot(Locked, 0), longer)
    ensures After(Boot(Locked, 0), longer).reset.marks
            == [Armed(500, false, 0), Cancelled(5500), Armed(5500, true, 0), Fired(5500)]
  {
    var boot := Boot(Locked, 0);
    Extend(SERVICE_LIMIT_MS, boot, steps, Dispatch);
    var d1 := After(boot, steps + [Dispatch]);
    assert d1.queue.events == [Queued(ButtonEvent(LongPress), 5000), Queued(FunctionTimerEvent, 5500)];
    assert d1.reset == ResetPart(NoneSelected, false, Idle, [Armed(500, false, 0), Cancelled(5500)]);
    Extend(SERVICE_LIMIT_MS, boot, steps + [Dispatch], Dispatch);
    var d2 := After(boot, steps + [Dispatch] + [Dispatch]);
    assert d2.queue.events == [Queued(FunctionTimerEvent, 5500)];
    assert d2.queue.events[0].event == FunctionTimerEvent;
    assert d2.reset == ResetPart(FactoryReset, true, Running(10500), [Armed(500, false, 0), Cancelled(5500), Armed(5500, true, 0)]);
    longer := steps + [Dispatch] + [Dispatch] + [Dispatch];
    Extend(SERVICE_LIMIT_MS, boot, steps + [Dispatch] + [Dispatch], Dispatch);
  }

  // ---- A queue that overflows

  /** `n` presses from `since` on, half a second apart. */
  function Presses(since: nat, n: nat): seq<Queued>
    decreases n
  {
    if n == 0 then [] else [Queued(ButtonEvent(Pressed), since)] + Presses(since + 500, n - 1)
  }

  lemma {:induction false} PressesSince(since: nat, n: nat)
    ensures |Presses(since, n)| == n && forall i :: 0 <= i < n ==> since <= Presses(since, n)[i].posted
    decreases n
  {
    if n == 0 {
    } else {
      PressesSince(since + 500, n - 1);
    }
  }

  /** The queue can take `n` more presses, half a second apart, before an event gets too old. */
  ghost predicate CanPress(limit: nat, d: Device, n: nat) {
    && limit > 0 && 500 * n < limit + 500
    && d.debounce.Idle? && d.lock.timer.MayReach(d.now + 500 * n) && d.reset.timer.MayReach(d.now + 500 * n)
    && |d.queue.events| + n <= APP_EVENT_QUEUE_SIZE
    && forall i :: 0 <= i < |d.queue.events| ==> d.now + 500 * n < d.queue.events[i].posted + limit
  }

  function PressedFor(d: Device, n: nat): Device {
    d.(now := d.now + 500 * n, queue := d.queue.(events := d.queue.events + Presses(d.now + 500, n)))
  }

  lemma PressedOnce(limit: nat, d: Device, n: nat)
    requires n > 0 && CanPress(limit, d, n)
    ensures var next := d.(now := d.now + 500, queue := Put(d.queue, ButtonEvent(Pressed), d.now + 500));
      CanPress(limit, next, n - 1) && PressedFor(next, n - 1) == PressedFor(d, n)
  {
    var next := d.(now := d.now + 500, queue := Put(d.queue, ButtonEvent(Pressed), d.now + 500));
    assert next.queue.events + Presses(d.now + 1000, n - 1) == d.queue.events + Presses(d.now + 500, n);
  }

  /** Repeats the press cycle `n` times without serving the queue. */
  lemma {:induction false} PressRepeatedly(limit: nat, start: Device, steps: seq<Step>, n: nat) returns (longer: seq<Step>)
    requires PromptRun(limit, start, steps) && IsRun(start, steps) && CanPress(limit, After(start, steps), n)
    ensures PromptRun(limit, start, longer) && IsRun(start, longer)
    ensures After(start, longer) == PressedFor(After(start, steps), n)
    decreases n
  {
    var d := After(start, steps);
    if n == 0 {
      longer := steps;
      assert d.queue.events + Presses(d.now + 500, 0) == d.queue.events;
    } else {
      longer := PressCycle(limit, start, steps, false);
      PressedOnce(limit, d, n);
      var next := d.(now := d.now + 500, queue := Put(d.queue, ButtonEvent(Pressed), d.now + 500));
      assert After(start, longer) == next;
      longer := PressRepeatedly(limit, start, longer, n - 1);
    }
  }

  /** Nine presses 500 ms apart and a reset expiry, the first of them a moment older than 4000 ms when the
      actuator has moved: the queue of ten has no place for the completion. */
  lemma Overflow(limit: nat) returns (steps: seq<Step>)
    requires limit > SERVICE_LIMIT_MS
    ensures PromptRun(limit, Boot(Locked, 0), steps) && IsRun(Boot(Locked, 0), steps)
    ensures After(Boot(Locked, 0), steps).queue.dropped == [ActuatorTimerEvent]
  {
    var boot := Boot(Locked, 0);
    steps := ArmAfterBoot(limit);
    Extend(limit, boot, steps, Tick(1000));
    steps := steps + [Tick(1000)];
    PressesSince(2000, 5);
    steps := PressRepeatedly(limit, boot, steps, 5);
    Extend(limit, boot, steps, RemoteCommand(UnlockAction, true));
    steps := steps + [RemoteCommand(UnlockAction, true)];
    steps := FillQueue(limit, steps);
  }

  lemma FillQueue(limit: nat, steps: seq<Step>) returns (longer: seq<Step>)
    requires limit > SERVICE_LIMIT_MS
    requires PromptRun(limit, Boot(Locked, 0), steps) && IsRun(Boot(Locked, 0), steps)
    requires var d := After(Boot(Locked, 0), steps);
      && d.now == 4000 && d.debounce.Idle? && d.lock.timer == Running(6000) && d.reset.timer == Running(5500)
      && |d.queue.events| == 5 && d.queue.dropped == []
      && (forall i :: 0 <= i < 5 ==> 2000 <= d.queue.events[i].posted)
    ensures PromptRun(limit, Boot(Locked, 0), longer) && IsRun(Boot(Locked, 0), longer)
    ensures After(Boot(Locked, 0), longer).queue.dropped == [ActuatorTimerEvent]
  {
    var boot := Boot(Locked, 0);
    PressesSince(4500, 3);
    longer := PressRepeatedly(limit, boot, steps, 3);
    Extend(limit, boot, longer, FunctionExpiry);
    longer := longer + [FunctionExpiry];
    longer := PressCycle(limit, boot, longer, false);
    Extend(limit, boot, longer, ActuatorExpiry);
    longer := longer + [ActuatorExpiry];
  }

  lemma {:induction false} PromptRunMonotone(limit: nat, more: nat, d: Device, steps: seq<Step>)
    requires PromptRun(limit, d, steps) && limit <= more
    ensures PromptRun(more, d, steps)
    decreases |steps|
  {
    if steps == [] {
    } else {
      PromptRunMonotone(limit, more, Next(d, steps[0]), steps[1..]);
    }
  }

  /** No event is lost in any such run. */
  ghost predicate NeverOverflows(limit: nat) {
    forall attribute, now, steps :: PromptRun(limit, Boot(attribute, now), steps) && IsRun(Boot(attribute, now), steps) ==>
      After(Boot(attribute, now), steps).queue.dropped == []
  }

  /** No completion is lost in any such run. */
  ghost predicate NeverLosesCompletion(limit: nat) {
    forall attribute, now, steps :: PromptRun(limit, Boot(attribute, now), steps) && IsRun(Boot(attribute, now), steps) ==>
      ActuatorTimerEvent !in After(Boot(attribute, now), steps).queue.dropped
  }

  /** The capacity of the queue: if every event is served within `limit` milliseconds, no event is ever
      lost, in any run, exactly when the limit is at most 4000. Beyond that it can be a completion, which
      leaves the lock in the middle of its action for good (LostCompletionFreezes). */
  lemma QueueCapacity(limit: nat)
    ensures NeverOverflows(limit) <==> limit <= SERVICE_LIMIT_MS
    ensures NeverLosesCompletion(limit) <==> limit <= SERVICE_LIMIT_MS
  {
    if limit <= SERVICE_LIMIT_MS {
      forall attribute, now, steps | PromptRun(limit, Boot(attribute, now), steps) && IsRun(Boot(attribute, now), steps)
        ensures After(Boot(attribute, now), steps).queue.dropped == []
      {
        PromptRunMonotone(limit, SERVICE_LIMIT_MS, Boot(attribute, now), steps);
        ServedFromBoot(SERVICE_LIMIT_MS, attribute, now, steps);
      }
    } else {
      var steps := Overflow(limit);
    }
  }

  // ---- Time can pass

  /** The timers whose expiry is due now. */
  function DueTimers(d: Device): nat {
    (if d.lock.timer.DueAt(d.now) then 1 else 0) + (if d.reset.timer.DueAt(d.now) then 1 else 0)
    + if d.debounce.DueAt(d.now) then 1 else 0
  }

  lemma DispatchKeepsTime(d: Device)
    requires Clocked(d) && d.queue.events != []
    ensures var next := Dispatched(d);
      next.now == d.now && next.queue.events == d.queue.events[1..] && DueTimers(next) <= DueTimers(d)
  {
  }

  /** The service assumption never stops the clock: from every reachable state the due timers can
      expire and the waiting events be served at once, and a millisecond later no event has waited. */
  lemma {:induction false} TimePasses(limit: nat, d: Device) returns (steps: seq<Step>)
    requires Clocked(d) && limit > 0 && Prompt(limit, d)
    ensures PromptRun(limit, d, steps) && IsRun(d, steps) && After(d, steps).now == d.now + 1
    decreases DueTimers(d), |d.queue.events|
  {
    if d.queue.events == [] && DueTimers(d) == 0 {
      steps := [Tick(1)];
      var next := Next(d, Tick(1));
      assert steps[1..] == [] && PromptRun(limit, next, []);
    } else {
      var step := if d.queue.events != [] then Dispatch
                  else if d.lock.timer.DueAt(d.now) then ActuatorExpiry
                  else if d.reset.timer.DueAt(d.now) then FunctionExpiry else DebounceExpiry(false);
      if step.Dispatch? {
        DispatchKeepsTime(d);
      }
      ClockedStep(d, step);
      var rest := TimePasses(limit, Next(d, step));
      steps := [step] + rest;
      assert steps[1..] == rest;
    }
  }
}
