/** What every run keeps, however late events are served and even when the queue drops some. */
module DeviceSafety {
  import opened DoorLockTypes
  import opened Led
  import opened Device

  /** How often `event` waits in the queue. */
  function Pending(queue: seq<Queued>, event: AppEvent): nat {
    if queue == [] then 0 else (if queue[0].event == event then 1 else 0) + Pending(queue[1..], event)
  }

  lemma {:induction false} PendingAppend(queue: seq<Queued>, q: Queued, event: AppEvent)
    ensures Pending(queue + [q], event) == Pending(queue, event) + (if q.event == event then 1 else 0)
  {
    if queue == [] {
    } else {
      assert (queue + [q])[1..] == queue[1..] + [q];
      PendingAppend(queue[1..], q, event);
    }
  }

  lemma {:induction false} PendingHolds(queue: seq<Queued>, event: AppEvent)
    ensures Pending(queue, event) > 0 <==> Holds(queue, event)
  {
    if queue == [] {
    } else {
      PendingHolds(queue[1..], event);
      if Holds(queue[1..], event) {
        var i :| 0 <= i < |queue[1..]| && queue[1..][i].event == event;
        assert queue[i + 1].event == event;
      }
      if Holds(queue, event) && queue[0].event != event {
        var i :| 0 <= i < |queue| && queue[i].event == event;
        assert queue[1..][i - 1].event == event;
      }
    }
  }

  // ---- The clock and the queue

  ghost predicate Clocked(d: Device) {
    && d.lock.timer.MayReach(d.now) && d.reset.timer.MayReach(d.now) && d.debounce.MayReach(d.now)
    && InOrder(d.queue.events, d.now)
  }

  /** At most ten events, in the order in which they were posted. */
  ghost predicate InOrder(events: seq<Queued>, now: nat) {
    && |events| <= APP_EVENT_QUEUE_SIZE
    && (forall i :: 0 <= i < |events| ==> events[i].posted <= now)
    && (forall i, j :: 0 <= i < j < |events| ==> events[i].posted <= events[j].posted)
  }

  lemma ClockedStep(d: Device, step: Step)
    requires Clocked(d) && Enabled(d, step)
    ensures Clocked(Next(d, step))
  {
    assert InOrder(Next(d, step).queue.events, Next(d, step).now);
  }

  // ---- Completion conservation

  function Dropped(queue: QueuePart, event: AppEvent): nat {
    multiset(queue.dropped)[event]
  }

  /** A running action has exactly one completion: in the timer, in the queue, or lost to a full
      queue. An idle lock has none. */
  ghost predicate Conserved(lock: LockPart, queue: QueuePart) {
    (if lock.timer.Running? then 1 else 0) + Pending(queue.events, ActuatorTimerEvent) + Dropped(queue, ActuatorTimerEvent)
    == if lock.motor.InProgress() then 1 else 0
  }

  lemma PutCounts(queue: QueuePart, event: AppEvent, now: nat, counted: AppEvent)
    ensures var q := Put(queue, event, now);
      Pending(q.events, counted) + Dropped(q, counted)
      == Pending(queue.events, counted) + Dropped(queue, counted) + if event == counted then 1 else 0
  {
    PendingAppend(queue.events, Queued(event, now), counted);
  }

  lemma ConservedStep(d: Device, step: Step)
    requires Conserved(d.lock, d.queue) && Enabled(d, step)
    ensures var next := Next(d, step); Conserved(next.lock, next.queue)
  {
    match step
    case ActuatorExpiry => PutCounts(d.queue, ActuatorTimerEvent, d.now, ActuatorTimerEvent);
    case FunctionExpiry => PutCounts(d.queue, FunctionTimerEvent, d.now, ActuatorTimerEvent);
    case DebounceExpiry(held) =>
      PutCounts(d.queue, ButtonEvent(if held then LongPress else Pressed), d.now, ActuatorTimerEvent);
    case _ =>
  }

  // ---- Callback trace

  /** The k-th action since boot: actions take turns, the first leaves the booted state. */
  function NthAction(bootedLocked: bool, k: nat): Action {
    if (k % 2 == 0) == bootedLocked then UnlockAction else LockAction
  }

  /** The i-th callback since boot, which no schedule can change. */
  ghost predicate IsNthCallback(bootedLocked: bool, i: nat, callback: Callback) {
    callback.action == NthAction(bootedLocked, i / 2) && (callback.Initiated? <==> i % 2 == 0)
  }

  function MotorAfter(bootedLocked: bool, n: nat): MotorState {
    if n % 2 == 1 then StartOf(NthAction(bootedLocked, n / 2))
    else if NthAction(bootedLocked, n / 2).UnlockAction? then LockCompleted else UnlockCompleted
  }

  ghost predicate Traced(bootedLocked: bool, lock: LockPart) {
    && lock.motor == MotorAfter(bootedLocked, |lock.callbacks|)
    && forall i :: 0 <= i < |lock.callbacks| ==> IsNthCallback(bootedLocked, i, lock.callbacks[i])
  }

  lemma TracedStarted(bootedLocked: bool, lock: LockPart, action: Action, actor: Actor, now: nat)
    requires Traced(bootedLocked, lock) && CanInitiate(lock.motor, action)
    ensures Traced(bootedLocked, Started(lock, action, actor, now))
  {
    assert |lock.callbacks| % 2 == 0 && action == NthAction(bootedLocked, |lock.callbacks| / 2);
  }

  lemma TracedFinished(bootedLocked: bool, lock: LockPart, action: Action, now: nat)
    requires Traced(bootedLocked, lock) && lock.motor == StartOf(action)
    ensures Traced(bootedLocked, Finished(lock, action, now))
  {
    var n := |lock.callbacks|;
    assert n % 2 == 1 && action == NthAction(bootedLocked, n / 2);
    assert (n + 1) / 2 == n / 2 + 1;
  }

  lemma TracedStep(bootedLocked: bool, d: Device, step: Step)
    requires Traced(bootedLocked, d.lock) && Enabled(d, step)
    ensures Traced(bootedLocked, Next(d, step).lock)
  {
    match step
    case Dispatch =>
      match d.queue.events[0].event {
        case ActuatorTimerEvent =>
          if d.lock.motor.InProgress() {
            TracedFinished(bootedLocked, d.lock, if d.lock.motor.LockInitiated? then LockAction else UnlockAction, d.now);
          }
        case ButtonEvent(Pressed) =>
          if !d.lock.motor.InProgress() {
            TracedStarted(bootedLocked, d.lock, if d.lock.motor.RestsUnlocked() then LockAction else UnlockAction, ButtonActor, d.now);
          }
        case ButtonEvent(LongPress) =>
        case FunctionTimerEvent =>
      }
    case RemoteCommand(action, _) =>
      if CanInitiate(d.lock.motor, action) {
        TracedStarted(bootedLocked, d.lock, action, RemoteActor, d.now);
      }
    case _ =>
  }

  // ---- Sync accounting

  /** How many of the completed actions had been started by the button. */
  function ButtonCompletions(callbacks: seq<Callback>): nat {
    if |callbacks| < 2 then 0 else
      var last := |callbacks| - 1;
      ButtonCompletions(callbacks[..last])
      + if callbacks[last].Completed? && callbacks[last - 1].Initiated? && callbacks[last - 1].actor.ButtonActor? then 1 else 0
  }

  ghost predicate SyncsCounted(lock: LockPart, sync: SyncPart) {
    && sync.scheduled == ButtonCompletions(lock.callbacks)
    && sync.pending <= sync.scheduled
    && (lock.motor.InProgress() ==> lock.callbacks != [] && lock.callbacks[|lock.callbacks| - 1].Initiated?)
    && (sync.onCompletion <==> lock.motor.InProgress() && lock.callbacks[|lock.callbacks| - 1].actor.ButtonActor?)
  }

  lemma ButtonCompletionsAppend(callbacks: seq<Callback>, c: Callback)
    ensures ButtonCompletions(callbacks + [c]) == ButtonCompletions(callbacks)
            + if c.Completed? && callbacks != [] && callbacks[|callbacks| - 1].Initiated? && callbacks[|callbacks| - 1].actor.ButtonActor?
              then 1 else 0
  {
    assert (callbacks + [c])[..|callbacks|] == callbacks;
  }

  lemma SyncsCountedInitiate(d: Device, actor: Actor, action: Action)
    requires SyncsCounted(d.lock, d.sync)
    ensures var next := Initiate(d, actor, action); SyncsCounted(next.lock, next.sync)
  {
    ButtonCompletionsAppend(d.lock.callbacks, Initiated(action, actor, d.now));
  }

  lemma SyncsCountedMoved(d: Device)
    requires SyncsCounted(d.lock, d.sync)
    ensures var next := ActuatorMoved(d); SyncsCounted(next.lock, next.sync)
  {
    var action := if d.lock.motor.LockInitiated? then LockAction else UnlockAction;
    ButtonCompletionsAppend(d.lock.callbacks, Completed(action, d.now));
  }

  lemma SyncsCountedStep(d: Device, step: Step)
    requires SyncsCounted(d.lock, d.sync) && Enabled(d, step)
    ensures var next := Next(d, step); SyncsCounted(next.lock, next.sync)
  {
    match step
    case Dispatch =>
      match d.queue.events[0].event {
        case ActuatorTimerEvent => SyncsCountedMoved(Taken(d));
        case ButtonEvent(Pressed) =>
          SyncsCountedInitiate(Taken(d), ButtonActor, if d.lock.motor.RestsUnlocked() then LockAction else UnlockAction);
        case _ =>
      }
    case RemoteCommand(action, _) =>
      SyncsCountedInitiate(d.(sync := d.sync.(attribute := TargetOf(action))), RemoteActor, action);
    case _ =>
  }

  // ---- Time of completion

  /** The completion of a running action carries the time at which the movement is over. */
  ghost predicate Moving(d: Device) {
    var callbacks := d.lock.callbacks;
    && (forall i :: 0 <= i < |callbacks| ==> callbacks[i].at <= d.now)
    && (forall i :: 0 < i < |callbacks| && callbacks[i].Completed? ==>
          callbacks[i - 1].at + ACTUATOR_MOVEMENT_PERIOD_MS <= callbacks[i].at)
    && (d.lock.motor.InProgress() ==>
          && callbacks != [] && callbacks[|callbacks| - 1].Initiated?
          && MovementEnds(d, callbacks[|callbacks| - 1].at + ACTUATOR_MOVEMENT_PERIOD_MS))
  }

  ghost predicate MovementEnds(d: Device, time: nat) {
    && (d.lock.timer.Running? ==> d.lock.timer.deadline == time)
    && (forall i :: 0 <= i < |d.queue.events| && d.queue.events[i].event.ActuatorTimerEvent? ==>
          d.queue.events[i].posted == time)
  }

  lemma MovingInitiate(d: Device, actor: Actor, action: Action)
    requires Conserved(d.lock, d.queue) && Moving(d)
    ensures Moving(Initiate(d, actor, action))
  {
    PendingHolds(d.queue.events, ActuatorTimerEvent);
  }

  lemma MovingTaken(d: Device)
    requires Moving(d) && d.queue.events != []
    ensures Moving(Taken(d))
  {
  }

  lemma MovingCompletes(d: Device, posted: nat)
    requires Moving(d) && posted <= d.now
    requires d.lock.motor.InProgress() ==>
               d.lock.callbacks[|d.lock.callbacks| - 1].at + ACTUATOR_MOVEMENT_PERIOD_MS <= posted
    ensures Moving(ActuatorMoved(d))
  {
  }

  lemma MovingHandle(d: Device, event: AppEvent, posted: nat)
    requires Conserved(d.lock, d.queue) || event.ActuatorTimerEvent?
    requires Moving(d) && posted <= d.now
    requires d.lock.motor.InProgress() && event.ActuatorTimerEvent? ==>
               d.lock.callbacks[|d.lock.callbacks| - 1].at + ACTUATOR_MOVEMENT_PERIOD_MS <= posted
    ensures Moving(Handle(d, event))
  {
    match event
    case ActuatorTimerEvent => MovingCompletes(d, posted);
    case ButtonEvent(Pressed) =>
      MovingInitiate(d, ButtonActor, if d.lock.motor.RestsUnlocked() then LockAction else UnlockAction);
    case ButtonEvent(LongPress) =>
    case FunctionTimerEvent =>
  }

  lemma MovingIgnoresLed(d: Device, led: LedState)
    requires Moving(d)
    ensures Moving(d.(led := led))
  {
  }

  lemma MovingTake(d: Device)
    requires Clocked(d) && Conserved(d.lock, d.queue) && Moving(d) && d.queue.events != []
    ensures Moving(Dispatched(d))
  {
    var head := d.queue.events[0];
    MovingTaken(d);
    MovingHandle(Taken(d), head.event, head.posted);
    MovingIgnoresLed(Handle(Taken(d), head.event), Dispatched(d).led);
  }

  lemma MovingStep(d: Device, step: Step)
    requires Clocked(d) && Conserved(d.lock, d.queue) && Moving(d) && Enabled(d, step)
    ensures Moving(Next(d, step))
  {
    match step
    case Dispatch => MovingTake(d);
    case RemoteCommand(action, _) =>
      MovingInitiate(d.(sync := d.sync.(attribute := TargetOf(action))), RemoteActor, action);
    case _ =>
  }

  // ---- Factory reset

  predicate HasFired(reset: ResetPart) {
    reset.marks != [] && reset.marks[|reset.marks| - 1].Fired?
  }

  /** Armings take turns with their ends, and after a reset nothing follows. */
  ghost predicate ResetsOrdered(reset: ResetPart) {
    var marks := reset.marks;
    && (forall i :: 0 <= i < |marks| ==> (marks[i].Armed? <==> i % 2 == 0))
    && (forall i :: 0 <= i < |marks| - 1 ==> !marks[i].Fired?)
    && (reset.selected.FactoryReset? <==> |marks| % 2 == 1)
    && (reset.timerActive <==> reset.selected.FactoryReset? || HasFired(reset))
    && (reset.timer.Running? ==> reset.timerActive)
  }

  lemma ResetsOrderedStep(d: Device, step: Step)
    requires ResetsOrdered(d.reset) && Enabled(d, step)
    ensures ResetsOrdered(Next(d, step).reset)
  {
  }

  /** The arming in force. */
  function LastArming(reset: ResetPart): ResetMark
    requires ResetsOrdered(reset) && reset.selected.FactoryReset?
  {
    reset.marks[|reset.marks| - 1]
  }

  /** No reset came early, unless an expiry event was left over at its arming. */
  ghost predicate ResetsOnTime(marks: seq<ResetMark>, now: nat) {
    && (forall i :: 0 <= i < |marks| ==> marks[i].at <= now)
    && (forall i :: 0 < i < |marks| && marks[i].Fired? && marks[i - 1].Armed? && !marks[i - 1].stale ==>
          marks[i - 1].at + FACTORY_RESET_CANCEL_WINDOW_MS <= marks[i].at)
  }

  /** The end of an arming is on its way, or was lost to a full queue after the arming. */
  ghost predicate Awaited(arming: ResetMark, timer: Timer, queue: QueuePart)
    requires arming.Armed?
  {
    && arming.drops <= |queue.dropped|
    && (timer.Running? || Holds(queue.events, FunctionTimerEvent) || FunctionTimerEvent in queue.dropped[arming.drops..])
    && (timer.Running? ==> timer.deadline == arming.at + FACTORY_RESET_CANCEL_WINDOW_MS)
    && (!arming.stale ==> forall i :: 0 <= i < |queue.events| && queue.events[i].event.FunctionTimerEvent? ==>
          arming.at + FACTORY_RESET_CANCEL_WINDOW_MS <= queue.events[i].posted)
  }

  ghost predicate ResetClock(d: Device) {
    && ResetsOrdered(d.reset)
    && ResetsOnTime(d.reset.marks, d.now)
    && (d.reset.selected.FactoryReset? ==> Awaited(LastArming(d.reset), d.reset.timer, d.queue))
  }

  lemma AwaitedPut(arming: ResetMark, timer: Timer, queue: QueuePart, event: AppEvent, now: nat)
    requires arming.Armed? && Awaited(arming, timer, queue)
    requires event.FunctionTimerEvent? ==> timer == Running(now)
    ensures Awaited(arming, if event.FunctionTimerEvent? then Idle else timer, Put(queue, event, now))
  {
    var put := Put(queue, event, now);
    if |queue.events| < APP_EVENT_QUEUE_SIZE {
      assert put.events[|queue.events|].event == event;
      if Holds(queue.events, FunctionTimerEvent) {
        var i :| 0 <= i < |queue.events| && queue.events[i].event == FunctionTimerEvent;
        assert put.events[i].event == FunctionTimerEvent;
      }
    } else {
      assert put.dropped[arming.drops..] == queue.dropped[arming.drops..] + [event];
    }
  }

  lemma AwaitedTake(arming: ResetMark, timer: Timer, queue: QueuePart)
    requires arming.Armed? && Awaited(arming, timer, queue)
    requires queue.events != [] && !queue.events[0].event.FunctionTimerEvent?
    ensures Awaited(arming, timer, queue.(events := queue.events[1..]))
  {
    if Holds(queue.events, FunctionTimerEvent) {
      var i :| 0 <= i < |queue.events| && queue.events[i].event == FunctionTimerEvent;
      assert queue.events[1..][i - 1].event == FunctionTimerEvent;
    }
  }

  lemma ResetClockArm(d: Device)
    requires ResetClock(d) && !d.reset.selected.FactoryReset? && !d.reset.timerActive
    ensures ResetClock(ArmReset(d))
  {
    var armed := ArmReset(d);
    assert armed.queue.dropped[|armed.queue.dropped|..] == [];
    assert ResetsOrdered(armed.reset);
    assert Awaited(LastArming(armed.reset), armed.reset.timer, armed.queue);
  }

  lemma ResetClockExpired(d: Device, posted: nat)
    requires ResetsOrdered(d.reset) && ResetsOnTime(d.reset.marks, d.now) && posted <= d.now
    requires d.reset.selected.FactoryReset? && !LastArming(d.reset).stale ==>
               LastArming(d.reset).at + FACTORY_RESET_CANCEL_WINDOW_MS <= posted
    ensures ResetClock(Handle(d, FunctionTimerEvent))
  {
    var fired := Handle(d, FunctionTimerEvent);
    assert ResetsOrdered(fired.reset);
  }

  lemma ResetClockHandle(d: Device, event: AppEvent)
    requires ResetClock(d) && !event.FunctionTimerEvent?
    ensures ResetClock(Handle(d, event))
  {
    match event
    case ButtonEvent(LongPress) =>
      if !d.reset.selected.FactoryReset? && !d.reset.timerActive {
        ResetClockArm(d);
      }
    case ButtonEvent(Pressed) =>
    case ActuatorTimerEvent =>
  }

  lemma ResetClockIgnoresLed(d: Device, led: LedState)
    requires ResetClock(d)
    ensures ResetClock(d.(led := led))
  {
  }

  lemma ResetClockTake(d: Device)
    requires Clocked(d) && ResetClock(d) && d.queue.events != []
    ensures ResetClock(Dispatched(d))
  {
    var head := d.queue.events[0];
    if head.event.FunctionTimerEvent? {
      ResetClockExpired(Taken(d), head.posted);
    } else {
      if d.reset.selected.FactoryReset? {
        AwaitedTake(LastArming(d.reset), d.reset.timer, d.queue);
      }
      ResetClockHandle(Taken(d), head.event);
    }
    ResetClockIgnoresLed(Handle(Taken(d), head.event), Dispatched(d).led);
  }

  lemma ResetClockStep(d: Device, step: Step)
    requires Clocked(d) && ResetClock(d) && Enabled(d, step)
    ensures ResetClock(Next(d, step))
  {
    if step.Dispatch? {
      ResetClockTake(d);
    } else if d.reset.selected.FactoryReset? {
      var arming := LastArming(d.reset);
      match step
      case DebounceExpiry(held) =>
        AwaitedPut(arming, d.reset.timer, d.queue, ButtonEvent(if held then LongPress else Pressed), d.now);
      case FunctionExpiry => AwaitedPut(arming, d.reset.timer, d.queue, FunctionTimerEvent, d.now);
      case ActuatorExpiry => AwaitedPut(arming, d.reset.timer, d.queue, ActuatorTimerEvent, d.now);
      case _ =>
    }
  }

  // ---- LED

  /** With nothing in progress and no reset armed or fired, the LED is steady and shows the lock. */
  ghost predicate LedShowsLock(d: Device) {
    !d.lock.motor.InProgress() && !d.reset.timerActive ==> d.led == Steady(d.lock.motor.LockCompleted?)
  }

  lemma LedShowsLockStep(d: Device, step: Step)
    requires ResetsOrdered(d.reset) && LedShowsLock(d) && Enabled(d, step)
    ensures LedShowsLock(Next(d, step))
  {
  }

  // ---- All of it, over every run

  ghost predicate Safe(bootedLocked: bool, d: Device) {
    && Clocked(d) && Conserved(d.lock, d.queue) && Traced(bootedLocked, d.lock) && SyncsCounted(d.lock, d.sync)
    && Moving(d) && ResetClock(d) && LedShowsLock(d)
  }

  lemma SafeBoot(attribute: DlLockState, now: nat)
    ensures Safe(attribute != Unlocked, Boot(attribute, now))
  {
  }

  lemma SafeStep(bootedLocked: bool, d: Device, step: Step)
    requires Safe(bootedLocked, d) && Enabled(d, step)
    ensures Safe(bootedLocked, Next(d, step))
  {
    ClockedStep(d, step);
    ConservedStep(d, step);
    TracedStep(bootedLocked, d, step);
    SyncsCountedStep(d, step);
    MovingStep(d, step);
    ResetClockStep(d, step);
    LedShowsLockStep(d, step);
  }

  lemma {:induction false} SafeRun(bootedLocked: bool, d: Device, steps: seq<Step>)
    requires Safe(bootedLocked, d) && IsRun(d, steps)
    ensures Safe(bootedLocked, After(d, steps))
    decreases |steps|
  {
    if steps == [] {
    } else {
      SafeStep(bootedLocked, d, steps[0]);
      SafeRun(bootedLocked, Next(d, steps[0]), steps[1..]);
    }
  }

  lemma SafeFromBoot(attribute: DlLockState, now: nat, steps: seq<Step>)
    requires IsRun(Boot(attribute, now), steps)
    ensures Safe(attribute != Unlocked, After(Boot(attribute, now), steps))
  {
    SafeBoot(attribute, now);
    SafeRun(attribute != Unlocked, Boot(attribute, now), steps);
  }

  // ---- What that means

  /** The whole callback trace and the actuator state are determined by the booted state and the
      number of callbacks: initiated and completed take turns, for the same action, and actions take
      turns starting with the one that leaves the booted state. No completion is early. */
  lemma CallbackTrace(attribute: DlLockState, now: nat, steps: seq<Step>)
    requires IsRun(Boot(attribute, now), steps)
    ensures var lock := After(Boot(attribute, now), steps).lock;
      && lock.motor == MotorAfter(attribute != Unlocked, |lock.callbacks|)
      && forall i :: 0 <= i < |lock.callbacks| ==>
           && lock.callbacks[i].action == NthAction(attribute != Unlocked, i / 2)
           && (lock.callbacks[i].Initiated? <==> i % 2 == 0)
           && (i % 2 == 1 ==> lock.callbacks[i - 1].at + ACTUATOR_MOVEMENT_PERIOD_MS <= lock.callbacks[i].at)
  {
    SafeFromBoot(attribute, now, steps);
    var lock := After(Boot(attribute, now), steps).lock;
    forall i | 0 <= i < |lock.callbacks|
      ensures IsNthCallback(attribute != Unlocked, i, lock.callbacks[i])
    {
    }
  }

  /** Completions are conserved. An action can start only when no completion is on its way, so the
      branch that stops a running actuator timer is dead and no old event completes a new action; the
      same holds for the reset timer. */
  lemma CompletionConservation(attribute: DlLockState, now: nat, steps: seq<Step>)
    requires IsRun(Boot(attribute, now), steps)
    ensures var d := After(Boot(attribute, now), steps);
      && (if d.lock.timer.Running? then 1 else 0) + Pending(d.queue.events, ActuatorTimerEvent) + Dropped(d.queue, ActuatorTimerEvent)
         == (if d.lock.motor.InProgress() then 1 else 0)
      && (forall action :: CanInitiate(d.lock.motor, action) ==>
            d.lock.timer.Idle? && !Holds(d.queue.events, ActuatorTimerEvent))
      && (!d.reset.timerActive ==> d.reset.timer.Idle?)
  {
    SafeFromBoot(attribute, now, steps);
    PendingHolds(After(Boot(attribute, now), steps).queue.events, ActuatorTimerEvent);
  }

  /** Every deferred update stems from one completed action of the button, and from no remote one. */
  lemma SyncAccounting(attribute: DlLockState, now: nat, steps: seq<Step>)
    requires IsRun(Boot(attribute, now), steps)
    ensures var d := After(Boot(attribute, now), steps);
      d.sync.scheduled == ButtonCompletions(d.lock.callbacks) && d.sync.pending <= d.sync.scheduled
  {
    SafeFromBoot(attribute, now, steps);
  }

  /** A factory reset happens at most once per boot, directly after an arming that was not cancelled,
      and nothing about the reset happens after it. It never precedes the end of the cancel window,
      unless an expiry event was left in the queue at its arming. */
  lemma ResetSafety(attribute: DlLockState, now: nat, steps: seq<Step>)
    requires IsRun(Boot(attribute, now), steps)
    ensures var marks := After(Boot(attribute, now), steps).reset.marks;
      forall i :: 0 <= i < |marks| && marks[i].Fired? ==>
        && i == |marks| - 1
        && i > 0 && marks[i - 1].Armed?
        && (!marks[i - 1].stale ==> marks[i - 1].at + FACTORY_RESET_CANCEL_WINDOW_MS <= marks[i].at)
  {
    SafeFromBoot(attribute, now, steps);
    var marks := After(Boot(attribute, now), steps).reset.marks;
    forall i | 0 <= i < |marks| && marks[i].Fired?
      ensures i == |marks| - 1 && i > 0 && marks[i - 1].Armed?
    {
      assert !marks[i].Armed?;
      assert i % 2 != 0;
    }
  }

  /** An armed reset is never forgotten: its timer runs, its expiry waits in the queue, or the expiry
      was dropped after the arming; in any case one long press still brings the device back to idle. */
  lemma ArmedResetIsKept(attribute: DlLockState, now: nat, steps: seq<Step>)
    requires IsRun(Boot(attribute, now), steps)
    requires After(Boot(attribute, now), steps).reset.selected.FactoryReset?
    ensures var d := After(Boot(attribute, now), steps);
      && d.reset.marks != [] && d.reset.marks[|d.reset.marks| - 1].Armed?
      && var drops := d.reset.marks[|d.reset.marks| - 1].drops;
      && drops <= |d.queue.dropped|
      && (d.reset.timer.Running? || Holds(d.queue.events, FunctionTimerEvent) || FunctionTimerEvent in d.queue.dropped[drops..])
      && var idle := LongPressed(d).reset;
      && idle.selected.NoneSelected? && !idle.timerActive && idle.timer.Idle?
  {
    SafeFromBoot(attribute, now, steps);
  }

  /** Whatever the interleaving of actions, arming and cancelling: at rest the LED shows the lock. */
  lemma LedAgreement(attribute: DlLockState, now: nat, steps: seq<Step>)
    requires IsRun(Boot(attribute, now), steps)
    ensures var d := After(Boot(attribute, now), steps);
      !d.lock.motor.InProgress() && d.reset.selected.NoneSelected? && !HasFired(d.reset) ==>
        !d.led.Blinking() && (d.led.on <==> d.lock.motor.LockCompleted?)
  {
    SafeFromBoot(attribute, now, steps);
  }

  // ---- A lost completion

  lemma FrozenStep(d: Device, step: Step)
    requires Conserved(d.lock, d.queue) && Dropped(d.queue, ActuatorTimerEvent) > 0 && Enabled(d, step)
    ensures d.lock.motor.InProgress()
    ensures Next(d, step).lock == d.lock && Dropped(Next(d, step).queue, ActuatorTimerEvent) > 0
  {
    PendingHolds(d.queue.events, ActuatorTimerEvent);
    if step.Dispatch? {
      assert Holds(d.queue.events, d.queue.events[0].event);
    }
  }

  lemma {:induction false} FrozenRun(d: Device, steps: seq<Step>)
    requires Conserved(d.lock, d.queue) && Dropped(d.queue, ActuatorTimerEvent) > 0 && IsRun(d, steps)
    ensures After(d, steps).lock == d.lock && d.lock.motor.InProgress()
    decreases |steps|
  {
    if steps == [] {
      assert d.lock.motor.InProgress();
    } else {
      FrozenStep(d, steps[0]);
      ConservedStep(d, steps[0]);
      FrozenRun(Next(d, steps[0]), steps[1..]);
    }
  }

  /** Once a completion has been dropped the lock never acts again: whatever follows, the actuator stays in
      the middle of its action, its timer off, and no callback is made. */
  lemma LostCompletionFreezes(attribute: DlLockState, now: nat, steps: seq<Step>, later: seq<Step>)
    requires IsRun(Boot(attribute, now), steps) && IsRun(After(Boot(attribute, now), steps), later)
    requires ActuatorTimerEvent in After(Boot(attribute, now), steps).queue.dropped
    ensures var lock := After(Boot(attribute, now), steps).lock;
      After(After(Boot(attribute, now), steps), later).lock == lock && lock.motor.InProgress() && lock.timer.Idle?
  {
    SafeFromBoot(attribute, now, steps);
    FrozenRun(After(Boot(attribute, now), steps), later);
  }
}
