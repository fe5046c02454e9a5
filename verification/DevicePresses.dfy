/** What the button and the remote commands bring about over a whole run: which presses arm and cancel the
    factory reset, and which requests move the lock. */
module DevicePresses {
  import opened DoorLockTypes
  import opened Device
  import opened DeviceSafety

  predicate Serves(d: Device, step: Step, event: AppEvent) {
    step.Dispatch? && d.queue.events != [] && d.queue.events[0].event == event
  }

  /** The long presses that the run serves before a reset has fired. */
  function LongPresses(d: Device, steps: seq<Step>): nat
    requires IsRun(d, steps)
    decreases |steps|
  {
    if steps == [] then 0
    else (if Serves(d, steps[0], ButtonEvent(LongPress)) && !HasFired(d.reset) then 1 else 0)
         + LongPresses(Next(d, steps[0]), steps[1..])
  }

  /** A request of this actor that finds the lock at rest in the other state: a short press that is served,
      or an accepted command. */
  predicate Requests(d: Device, step: Step, actor: Actor) {
    match actor
    case ButtonActor => Serves(d, step, ButtonEvent(Pressed)) && !d.lock.motor.InProgress()
    case RemoteActor => step.RemoteCommand? && step.accepted && CanInitiate(d.lock.motor, step.action)
  }

  function Requested(d: Device, steps: seq<Step>, actor: Actor): nat
    requires IsRun(d, steps)
    decreases |steps|
  {
    if steps == [] then 0
    else (if Requests(d, steps[0], actor) then 1 else 0) + Requested(Next(d, steps[0]), steps[1..], actor)
  }

  /** The actions that an actor has started. */
  function Starts(callbacks: seq<Callback>, actor: Actor): nat {
    if callbacks == [] then 0 else
      var last := callbacks[|callbacks| - 1];
      Starts(callbacks[..|callbacks| - 1], actor) + if last.Initiated? && last.actor == actor then 1 else 0
  }

  lemma StartsAppend(callbacks: seq<Callback>, c: Callback, actor: Actor)
    ensures Starts(callbacks + [c], actor) == Starts(callbacks, actor) + if c.Initiated? && c.actor == actor then 1 else 0
  {
    assert (callbacks + [c])[..|callbacks|] == callbacks;
  }

  lemma {:induction false} StartsOfBoth(bootedLocked: bool, callbacks: seq<Callback>)
    requires forall i :: 0 <= i < |callbacks| ==> IsNthCallback(bootedLocked, i, callbacks[i])
    ensures Starts(callbacks, ButtonActor) + Starts(callbacks, RemoteActor) == (|callbacks| + 1) / 2
    decreases |callbacks|
  {
    if callbacks == [] {
    } else {
      assert IsNthCallback(bootedLocked, |callbacks| - 1, callbacks[|callbacks| - 1]);
      StartsOfBoth(bootedLocked, callbacks[..|callbacks| - 1]);
    }
  }

  lemma StartsInitiate(d: Device, starter: Actor, action: Action, actor: Actor)
    ensures Starts(Initiate(d, starter, action).lock.callbacks, actor)
            == Starts(d.lock.callbacks, actor) + if starter == actor && CanInitiate(d.lock.motor, action) then 1 else 0
  {
    StartsAppend(d.lock.callbacks, Initiated(action, starter, d.now), actor);
  }

  lemma StartsMoved(d: Device, actor: Actor)
    ensures Starts(ActuatorMoved(d).lock.callbacks, actor) == Starts(d.lock.callbacks, actor)
  {
    StartsAppend(d.lock.callbacks, Completed(if d.lock.motor.LockInitiated? then LockAction else UnlockAction, d.now), actor);
  }

  lemma StartsStep(d: Device, step: Step, actor: Actor)
    requires Enabled(d, step)
    ensures Starts(Next(d, step).lock.callbacks, actor)
            == Starts(d.lock.callbacks, actor) + if Requests(d, step, actor) then 1 else 0
  {
    match step
    case Dispatch =>
      match d.queue.events[0].event {
        case ActuatorTimerEvent => StartsMoved(Taken(d), actor);
        case ButtonEvent(Pressed) =>
          StartsInitiate(Taken(d), ButtonActor, if d.lock.motor.RestsUnlocked() then LockAction else UnlockAction, actor);
        case _ =>
      }
    case RemoteCommand(action, _) =>
      StartsInitiate(d.(sync := d.sync.(attribute := TargetOf(action))), RemoteActor, action, actor);
    case _ =>
  }

  lemma {:induction false} StartsRun(d: Device, steps: seq<Step>, actor: Actor)
    requires IsRun(d, steps)
    ensures Starts(After(d, steps).lock.callbacks, actor) == Starts(d.lock.callbacks, actor) + Requested(d, steps, actor)
    decreases |steps|
  {
    if steps == [] {
    } else {
      StartsStep(d, steps[0], actor);
      StartsRun(Next(d, steps[0]), steps[1..], actor);
    }
  }

  /** The marks that long presses have made. */
  function PressMarks(reset: ResetPart): int {
    |reset.marks| - if HasFired(reset) then 1 else 0
  }

  lemma PressMarksStep(d: Device, step: Step)
    requires ResetsOrdered(d.reset) && Enabled(d, step)
    ensures PressMarks(Next(d, step).reset)
            == PressMarks(d.reset) + if Serves(d, step, ButtonEvent(LongPress)) && !HasFired(d.reset) then 1 else 0
  {
  }

  lemma {:induction false} PressMarksRun(d: Device, steps: seq<Step>)
    requires ResetsOrdered(d.reset) && IsRun(d, steps)
    ensures PressMarks(After(d, steps).reset) == PressMarks(d.reset) + LongPresses(d, steps)
    decreases |steps|
  {
    if steps == [] {
    } else {
      PressMarksStep(d, steps[0]);
      ResetsOrderedStep(d, steps[0]);
      PressMarksRun(Next(d, steps[0]), steps[1..]);
    }
  }

  /** Long presses take turns in arming and cancelling until a reset fires: a reset is armed exactly if an
      odd number of them has been served, and only an odd one can be followed by a reset. */
  lemma LongPressAccounting(attribute: DlLockState, now: nat, steps: seq<Step>)
    requires IsRun(Boot(attribute, now), steps)
    ensures var reset := After(Boot(attribute, now), steps).reset;
      var served := LongPresses(Boot(attribute, now), steps);
      && |reset.marks| == served + (if HasFired(reset) then 1 else 0)
      && (HasFired(reset) ==> served % 2 == 1)
      && (reset.selected.FactoryReset? <==> !HasFired(reset) && served % 2 == 1)
  {
    SafeFromBoot(attribute, now, steps);
    PressMarksRun(Boot(attribute, now), steps);
    var reset := After(Boot(attribute, now), steps).reset;
    if HasFired(reset) {
      assert !reset.marks[|reset.marks| - 1].Armed?;
    }
  }

  lemma MotorFollowsStarts(bootedLocked: bool, lock: LockPart)
    requires Traced(bootedLocked, lock)
    ensures var starts := Starts(lock.callbacks, ButtonActor) + Starts(lock.callbacks, RemoteActor);
      && |lock.callbacks| == 2 * starts - (if lock.motor.InProgress() then 1 else 0)
      && (RestState(lock.motor) == (if bootedLocked then Locked else Unlocked) <==> starts % 2 == 0)
  {
    StartsOfBoth(bootedLocked, lock.callbacks);
    MotorParity(bootedLocked, |lock.callbacks|);
  }

  lemma MotorParity(bootedLocked: bool, n: nat)
    ensures var motor := MotorAfter(bootedLocked, n);
      && (motor.InProgress() <==> n % 2 == 1)
      && (RestState(motor) == (if bootedLocked then Locked else Unlocked) <==> ((n + 1) / 2) % 2 == 0)
  {
  }

  lemma ActionsFrom(bootedLocked: bool, d: Device, steps: seq<Step>)
    requires d.lock.callbacks == [] && IsRun(d, steps) && Traced(bootedLocked, After(d, steps).lock)
    ensures var lock := After(d, steps).lock;
      var presses, commands := Requested(d, steps, ButtonActor), Requested(d, steps, RemoteActor);
      && Starts(lock.callbacks, ButtonActor) == presses && Starts(lock.callbacks, RemoteActor) == commands
      && |lock.callbacks| == 2 * (presses + commands) - (if lock.motor.InProgress() then 1 else 0)
      && (RestState(lock.motor) == (if bootedLocked then Locked else Unlocked) <==> (presses + commands) % 2 == 0)
  {
    StartsRun(d, steps, ButtonActor);
    StartsRun(d, steps, RemoteActor);
    MotorFollowsStarts(bootedLocked, After(d, steps).lock);
  }

  /** Every short press served at rest starts an action, and so does every accepted command that the lock at
      rest can follow; nothing else does. So where the lock rests is decided by their number. */
  lemma ActionAccounting(attribute: DlLockState, now: nat, steps: seq<Step>)
    requires IsRun(Boot(attribute, now), steps)
    ensures var boot := Boot(attribute, now);
      var lock := After(boot, steps).lock;
      var presses, commands := Requested(boot, steps, ButtonActor), Requested(boot, steps, RemoteActor);
      && Starts(lock.callbacks, ButtonActor) == presses && Starts(lock.callbacks, RemoteActor) == commands
      && |lock.callbacks| == 2 * (presses + commands) - (if lock.motor.InProgress() then 1 else 0)
      && (RestState(lock.motor) == RestState(boot.lock.motor) <==> (presses + commands) % 2 == 0)
  {
    TracedFromBoot(attribute, now, steps);
    ActionsFrom(attribute != Unlocked, Boot(attribute, now), steps);
  }

  lemma TracedFromBoot(attribute: DlLockState, now: nat, steps: seq<Step>)
    requires IsRun(Boot(attribute, now), steps)
    ensures Traced(attribute != Unlocked, After(Boot(attribute, now), steps).lock)
  {
    SafeFromBoot(attribute, now, steps);
  }
}
