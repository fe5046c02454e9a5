/** The actuator and event system as a transition system with a millisecond clock: the state of the
    application, one function per handler, and the runs that interleave them. Each handler is one
    atomic step. The class in Application.dfy is proved to take exactly these steps. */
module Device {
  import opened DoorLockTypes
  import opened Led

  datatype Queued = Queued(event: AppEvent, posted: nat)

  /** The calls of the two callbacks registered with the lock manager. */
  datatype Callback =
    | Initiated(action: Action, actor: Actor, at: nat)
    | Completed(action: Action, at: nat)

  /** What happened to the factory reset; `stale` says that an expiry event of an earlier arming was
      still in the queue when this arming was made, `drops` how many events had been dropped by then. */
  datatype ResetMark =
    | Armed(at: nat, stale: bool, drops: nat)
    | Cancelled(at: nat)
    | Fired(at: nat)

  /** The lock manager: actuator state and timer, and the callbacks made so far. */
  datatype LockPart = LockPart(motor: MotorState, timer: Timer, callbacks: seq<Callback>)

  /** The factory reset of the application task: selected function, timer and flag, and the marks so far. */
  datatype ResetPart = ResetPart(selected: SelectedFunction, timerActive: bool, timer: Timer, marks: seq<ResetMark>)

  /** The LockState attribute and the deferred updates that bring it in line with the button:
      `scheduled` counts the updates ever scheduled, `pending` those not yet done. */
  datatype SyncPart = SyncPart(onCompletion: bool, pending: nat, scheduled: nat, attribute: DlLockState)

  /** The application queue and the events it refused. */
  datatype QueuePart = QueuePart(events: seq<Queued>, dropped: seq<AppEvent>)

  /** The whole application. The sequences of callbacks, marks and dropped events and the count of
      scheduled updates record what happened; no handler reads them. */
  datatype Device = Device(
    now: nat,
    lock: LockPart,
    reset: ResetPart,
    sync: SyncPart,
    queue: QueuePart,
    debounce: Timer,
    led: LedState)
  {
    /** Neither an action nor a deferred attribute update is outstanding. */
    predicate Quiescent() {
      !lock.motor.InProgress() && sync.pending == 0
    }

    predicate Agrees() {
      sync.attribute == RestState(lock.motor)
    }
  }

  /** The device after boot: actuator and LED follow the attribute read from storage. */
  function Boot(attribute: DlLockState, now: nat): Device {
    Device(now,
           LockPart(if attribute == Unlocked then UnlockCompleted else LockCompleted, Idle, []),
           ResetPart(NoneSelected, false, Idle, []),
           SyncPart(false, 0, 0, attribute),
           QueuePart([], []),
           Idle,
           Steady(attribute != Unlocked))
  }

  // ---- The event queue

  predicate Holds(events: seq<Queued>, event: AppEvent) {
    exists i :: 0 <= i < |events| && events[i].event == event
  }

  /** A put with no timeout: a full queue drops the event. */
  function Put(queue: QueuePart, event: AppEvent, now: nat): QueuePart {
    if |queue.events| < APP_EVENT_QUEUE_SIZE then
      queue.(events := queue.events + [Queued(event, now)])
    else
      queue.(dropped := queue.dropped + [event])
  }

  // ---- Lock manager

  predicate CanInitiate(motor: MotorState, action: Action) {
    match action
    case UnlockAction => motor.LockCompleted?
    case LockAction => motor.UnlockCompleted?
  }

  function StartOf(action: Action): MotorState {
    match action
    case LockAction => LockInitiated
    case UnlockAction => UnlockInitiated
  }

  function EndOf(action: Action): MotorState {
    match action
    case LockAction => LockCompleted
    case UnlockAction => UnlockCompleted
  }

  function Started(lock: LockPart, action: Action, actor: Actor, now: nat): LockPart {
    LockPart(StartOf(action), Running(now + ACTUATOR_MOVEMENT_PERIOD_MS),
             lock.callbacks + [Initiated(action, actor, now)])
  }

  function Initiate(d: Device, actor: Actor, action: Action): Device {
    if CanInitiate(d.lock.motor, action) then
      d.(lock := Started(d.lock, action, actor, d.now),
         sync := d.sync.(onCompletion := d.sync.onCompletion || actor.ButtonActor?),
         led := Blinked(d.led, 50, 50, d.now))
    else
      d
  }

  function Finished(lock: LockPart, action: Action, now: nat): LockPart {
    LockPart(EndOf(action), lock.timer, lock.callbacks + [Completed(action, now)])
  }

  function SyncAfterCompletion(sync: SyncPart): SyncPart {
    if sync.onCompletion then
      sync.(onCompletion := false, pending := sync.pending + 1, scheduled := sync.scheduled + 1)
    else
      sync
  }

  function ActuatorMoved(d: Device): Device {
    if d.lock.motor.InProgress() then
      var action := if d.lock.motor.LockInitiated? then LockAction else UnlockAction;
      d.(lock := Finished(d.lock, action, d.now), sync := SyncAfterCompletion(d.sync), led := Steady(action.LockAction?))
    else
      d
  }

  /** An accepted remote command writes the attribute whether or not the action can start. */
  function Remote(d: Device, action: Action, accepted: bool): Device {
    if accepted then
      Initiate(d.(sync := d.sync.(attribute := TargetOf(action))), RemoteActor, action)
    else
      d
  }

  // ---- Application task

  function ResetExpired(reset: ResetPart, now: nat): ResetPart {
    if reset.timerActive && reset.selected.FactoryReset? then
      reset.(selected := NoneSelected, marks := reset.marks + [Fired(now)])
    else
      reset
  }

  function ArmReset(d: Device): Device {
    d.(reset := ResetPart(FactoryReset, true, Running(d.now + FACTORY_RESET_CANCEL_WINDOW_MS),
                          d.reset.marks + [Armed(d.now, Holds(d.queue.events, FunctionTimerEvent), |d.queue.dropped|)]),
       led := Blinked(Steady(false), 500, 500, d.now))
  }

  function CancelReset(d: Device): Device {
    d.(reset := ResetPart(NoneSelected, false, Idle, d.reset.marks + [Cancelled(d.now)]),
       led := Steady(!d.lock.motor.RestsUnlocked()))
  }

  function LongPressed(d: Device): Device {
    if !d.reset.timerActive && d.reset.selected.NoneSelected? then ArmReset(d)
    else if d.reset.timerActive && d.reset.selected.FactoryReset? then CancelReset(d)
    else d
  }

  function ShortPressed(d: Device): Device {
    Initiate(d, ButtonActor, if d.lock.motor.RestsUnlocked() then LockAction else UnlockAction)
  }

  function Handle(d: Device, event: AppEvent): Device {
    match event
    case ButtonEvent(LongPress) => LongPressed(d)
    case ButtonEvent(Pressed) => ShortPressed(d)
    case FunctionTimerEvent => d.(reset := ResetExpired(d.reset, d.now))
    case ActuatorTimerEvent => ActuatorMoved(d)
  }

  /** The device while it handles the head of its queue. */
  function Taken(d: Device): Device
    requires d.queue.events != []
  {
    d.(queue := d.queue.(events := d.queue.events[1..]))
  }

  /** One turn of the application loop: take the head of the queue, handle it, animate the LED. */
  function Dispatched(d: Device): Device
    requires d.queue.events != []
  {
    var handled := Handle(Taken(d), d.queue.events[0].event);
    handled.(led := Animated(handled.led, d.now))
  }

  function Synced(sync: SyncPart, motor: MotorState): SyncPart
    requires sync.pending > 0
  {
    sync.(pending := sync.pending - 1, attribute := if motor.RestsUnlocked() then Unlocked else Locked)
  }

  // ---- Steps and runs

  datatype Step =
    | Tick(ms: nat)
    | ButtonEdge
    | DebounceExpiry(held: bool)
    | FunctionExpiry
    | ActuatorExpiry
    | Dispatch
    | RemoteCommand(action: Action, accepted: bool)
    | SyncWork

  /** The clock never passes the deadline of a running timer. */
  predicate Enabled(d: Device, step: Step) {
    match step
    case Tick(ms) =>
      d.lock.timer.MayReach(d.now + ms) && d.reset.timer.MayReach(d.now + ms) && d.debounce.MayReach(d.now + ms)
    case ButtonEdge => true
    case DebounceExpiry(_) => d.debounce.DueAt(d.now)
    case FunctionExpiry => d.reset.timer.DueAt(d.now)
    case ActuatorExpiry => d.lock.timer.DueAt(d.now)
    case Dispatch => d.queue.events != []
    case RemoteCommand(_, _) => true
    case SyncWork => d.sync.pending > 0
  }

  function Next(d: Device, step: Step): Device
    requires Enabled(d, step)
  {
    match step
    case Tick(ms) => d.(now := d.now + ms)
    case ButtonEdge => d.(debounce := Running(d.now + BUTTON_MIN_ASSERT_TIME_MS))
    case DebounceExpiry(held) =>
      d.(debounce := Idle, queue := Put(d.queue, ButtonEvent(if held then LongPress else Pressed), d.now))
    case FunctionExpiry => d.(reset := d.reset.(timer := Idle), queue := Put(d.queue, FunctionTimerEvent, d.now))
    case ActuatorExpiry => d.(lock := d.lock.(timer := Idle), queue := Put(d.queue, ActuatorTimerEvent, d.now))
    case Dispatch => Dispatched(d)
    case RemoteCommand(action, accepted) => Remote(d, action, accepted)
    case SyncWork => d.(sync := Synced(d.sync, d.lock.motor))
  }

  predicate IsRun(d: Device, steps: seq<Step>)
    decreases |steps|
  {
    steps == [] || (Enabled(d, steps[0]) && IsRun(Next(d, steps[0]), steps[1..]))
  }

  function After(d: Device, steps: seq<Step>): Device
    requires IsRun(d, steps)
    decreases |steps|
  {
    if steps == [] then d else After(Next(d, steps[0]), steps[1..])
  }

  lemma {:induction false} RunsCompose(d: Device, first: seq<Step>, second: seq<Step>)
    requires IsRun(d, first) && IsRun(After(d, first), second)
    ensures IsRun(d, first + second)
    ensures After(d, first + second) == After(After(d, first), second)
    decreases |first|
  {
    if first == [] {
      assert first + second == second;
    } else {
      assert (first + second)[0] == first[0] && (first + second)[1..] == first[1..] + second;
      RunsCompose(Next(d, first[0]), first[1..], second);
    }
  }

  lemma RunExtends(d: Device, steps: seq<Step>, step: Step)
    requires IsRun(d, steps) && Enabled(After(d, steps), step)
    ensures IsRun(d, steps + [step]) && After(d, steps + [step]) == Next(After(d, steps), step)
  {
    var end := After(d, steps);
    var next := Next(end, step);
    assert [step][0] == step && [step][1..] == [];
    assert IsRun(next, []) && After(next, []) == next;
    assert IsRun(end, [step]) && After(end, [step]) == next;
    RunsCompose(d, steps, [step]);
  }
}
