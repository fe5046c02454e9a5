/** When the LockState attribute agrees with the actuator. A remote command writes the attribute even
    if its action cannot start, so agreement depends on when commands are accepted; this module proves
    exactly when. */
module DeviceAgreement {
  import opened DoorLockTypes
  import opened Device
  import opened DeviceSafety

  /** A remote command that may be accepted without spoiling agreement. While an action is in progress
      the command must name the same action, unless an update of the attribute is still to come; while
      only an update is to come, a resting locked lock must not be unlocked. */
  predicate Harmless(d: Device, action: Action) {
    if d.lock.motor.InProgress() then
      d.sync.onCompletion || (if d.sync.pending == 0 then d.lock.motor == StartOf(action) else d.lock.motor.LockInitiated?)
    else
      !(d.sync.pending > 0 && action.UnlockAction? && d.lock.motor.LockCompleted?)
  }

  /** The attribute agrees with the actuator, or the updates to come will make it so. */
  ghost predicate WillAgree(d: Device) {
    if d.lock.motor.InProgress() then
      d.sync.onCompletion || (if d.sync.pending == 0 then d.Agrees() else d.lock.motor.LockInitiated?)
    else
      d.sync.pending > 0 || d.Agrees()
  }

  /** Every accepted remote command of the run is harmless when it arrives. */
  ghost predicate Disciplined(d: Device, steps: seq<Step>)
    requires IsRun(d, steps)
    decreases |steps|
  {
    steps == [] || (
      && (steps[0].RemoteCommand? && steps[0].accepted ==> Harmless(d, steps[0].action))
      && Disciplined(Next(d, steps[0]), steps[1..]))
  }

  /** No remote command is accepted in the run. */
  predicate Unattended(steps: seq<Step>) {
    forall i :: 0 <= i < |steps| ==> !(steps[i].RemoteCommand? && steps[i].accepted)
  }

  lemma WillAgreeStep(d: Device, step: Step)
    requires SyncsCounted(d.lock, d.sync) && WillAgree(d) && Enabled(d, step)
    requires step.RemoteCommand? && step.accepted ==> Harmless(d, step.action)
    ensures WillAgree(Next(d, step))
  {
  }

  lemma HarmfulStep(d: Device, action: Action)
    requires SyncsCounted(d.lock, d.sync) && WillAgree(d) && !Harmless(d, action)
    ensures !WillAgree(Next(d, RemoteCommand(action, true)))
  {
  }

  lemma {:induction false} WillAgreeRun(bootedLocked: bool, d: Device, steps: seq<Step>)
    requires Safe(bootedLocked, d) && WillAgree(d) && IsRun(d, steps) && Disciplined(d, steps)
    ensures WillAgree(After(d, steps))
    decreases |steps|
  {
    if steps == [] {
    } else {
      WillAgreeStep(d, steps[0]);
      SafeStep(bootedLocked, d, steps[0]);
      WillAgreeRun(bootedLocked, Next(d, steps[0]), steps[1..]);
    }
  }

  lemma {:induction false} UnattendedIsDisciplined(d: Device, steps: seq<Step>)
    requires IsRun(d, steps) && Unattended(steps)
    ensures Disciplined(d, steps)
    decreases |steps|
  {
    if steps == [] {
    } else {
      UnattendedIsDisciplined(Next(d, steps[0]), steps[1..]);
    }
  }

  // ---- Every action can complete

  function Others(d: Device): nat {
    (if d.reset.timer.DueAt(d.now) then 1 else 0) + if d.debounce.DueAt(d.now) then 1 else 0
  }

  function Remaining(d: Device): nat
    requires Clocked(d)
  {
    if d.lock.timer.Running? then d.lock.timer.deadline - d.now + 1 else 0
  }

  lemma OtherEvent(d: Device)
    requires Clocked(d) && d.lock.motor.InProgress()
    requires d.queue.events != [] && !d.queue.events[0].event.ActuatorTimerEvent?
    ensures var next := Dispatched(d);
      && next.lock == d.lock && next.sync == d.sync && next.now == d.now && next.debounce == d.debounce
      && next.queue == d.queue.(events := d.queue.events[1..])
      && Others(next) <= Others(d)
  {
  }

  lemma LastEvent(d: Device)
    requires d.lock.motor.InProgress() && d.queue.events != [] && d.queue.events[0].event.ActuatorTimerEvent?
    ensures var next := Dispatched(d);
      && !next.lock.motor.InProgress() && RestState(next.lock.motor) == RestState(d.lock.motor)
      && next.sync == SyncAfterCompletion(d.sync)
  {
  }

  /** What brings a running action to its end, one step at a time. */
  function CompletionStep(d: Device): Step {
    if d.queue.events != [] then Dispatch
    else if d.lock.timer.DueAt(d.now) then ActuatorExpiry
    else if d.reset.timer.DueAt(d.now) then FunctionExpiry
    else if d.debounce.DueAt(d.now) then DebounceExpiry(false)
    else Tick(1)
  }

  lemma CompletionStepProgress(d: Device)
    requires Clocked(d) && Conserved(d.lock, d.queue) && d.lock.motor.InProgress() && Dropped(d.queue, ActuatorTimerEvent) == 0
    requires d.queue.events == [] || !d.queue.events[0].event.ActuatorTimerEvent?
    ensures var step := CompletionStep(d);
      && Enabled(d, step)
      && var next := Next(d, step);
      && Clocked(next) && Conserved(next.lock, next.queue) && Dropped(next.queue, ActuatorTimerEvent) == 0
      && next.lock.motor == d.lock.motor && next.sync == d.sync
      && (Remaining(next) < Remaining(d)
          || (Remaining(next) == Remaining(d) && Others(next) < Others(d))
          || (Remaining(next) == Remaining(d) && Others(next) <= Others(d) && |next.queue.events| < |d.queue.events|))
  {
    var step := CompletionStep(d);
    ClockedStep(d, step);
    ConservedStep(d, step);
    if step.Dispatch? {
      OtherEvent(d);
    }
  }

  /** A running action whose completion was not lost can complete without any remote command and with
      no other effect on the attribute than the update its completion schedules. */
  lemma {:induction false} Complete(d: Device) returns (steps: seq<Step>)
    requires Clocked(d) && Conserved(d.lock, d.queue) && d.lock.motor.InProgress() && Dropped(d.queue, ActuatorTimerEvent) == 0
    ensures IsRun(d, steps) && Unattended(steps)
    ensures var end := After(d, steps);
      && !end.lock.motor.InProgress() && RestState(end.lock.motor) == RestState(d.lock.motor)
      && end.sync == SyncAfterCompletion(d.sync)
    decreases Remaining(d), Others(d), |d.queue.events|
  {
    var step := CompletionStep(d);
    if d.queue.events != [] && d.queue.events[0].event.ActuatorTimerEvent? {
      LastEvent(d);
      steps := [Dispatch];
      assert steps[1..] == [];
    } else {
      CompletionStepProgress(d);
      var rest := Complete(Next(d, step));
      steps := [step] + rest;
      assert steps[1..] == rest;
    }
  }

  predicate LeadsToRest(d: Device, later: seq<Step>) {
    IsRun(d, later) && !After(d, later).lock.motor.InProgress()
  }

  /** From wherever a run has led, the lock can come to rest exactly if no completion was lost. */
  lemma RestIsReachable(attribute: DlLockState, now: nat, steps: seq<Step>)
    requires IsRun(Boot(attribute, now), steps)
    ensures var d := After(Boot(attribute, now), steps);
      (exists later :: LeadsToRest(d, later)) <==> ActuatorTimerEvent !in d.queue.dropped
  {
    SafeFromBoot(attribute, now, steps);
    RestIsReachableFrom(attribute != Unlocked, After(Boot(attribute, now), steps));
  }

  lemma RestIsReachableFrom(bootedLocked: bool, d: Device)
    requires Safe(bootedLocked, d)
    ensures (exists later :: LeadsToRest(d, later))
            <==> Dropped(d.queue, ActuatorTimerEvent) == 0
  {
    if Dropped(d.queue, ActuatorTimerEvent) > 0 {
      forall later | IsRun(d, later)
        ensures !LeadsToRest(d, later)
      {
        FrozenRun(d, later);
      }
    } else {
      var later := [];
      if d.lock.motor.InProgress() {
        later := Complete(d);
      }
      assert LeadsToRest(d, later);
    }
  }

  // ---- Disagreement

  /** Runs all pending updates. */
  lemma {:induction false} RunUpdates(d: Device) returns (steps: seq<Step>)
    ensures IsRun(d, steps) && Unattended(steps)
    ensures var end := After(d, steps);
      && end.sync.pending == 0 && end == d.(sync := end.sync) && end.sync.onCompletion == d.sync.onCompletion
      && (d.sync.pending == 0 ==> end == d)
      && (d.sync.pending > 0 ==> end.sync.attribute == if d.lock.motor.RestsUnlocked() then Unlocked else Locked)
    decreases d.sync.pending
  {
    steps := [];
    if d.sync.pending > 0 {
      var rest := RunUpdates(Next(d, SyncWork));
      steps := [SyncWork] + rest;
      assert steps[1..] == rest;
    }
  }

  lemma {:induction false} Disagreement(bootedLocked: bool, d: Device) returns (steps: seq<Step>)
    requires Safe(bootedLocked, d) && Dropped(d.queue, ActuatorTimerEvent) == 0 && !WillAgree(d)
    ensures IsRun(d, steps) && Unattended(steps)
    ensures After(d, steps).Quiescent() && !After(d, steps).Agrees()
  {
    if d.lock.motor.InProgress() {
      var first := RunUpdates(d);
      var second := Complete(After(d, first));
      RunsCompose(d, first, second);
      steps := first + second;
    } else {
      steps := [];
    }
  }

  lemma PressedAtRest(bootedLocked: bool, d: Device)
    requires Safe(bootedLocked, d) && !d.lock.motor.InProgress()
    requires d.queue.events != [] && d.queue.events[0].event == ButtonEvent(Pressed)
    ensures var pressed := Dispatched(d);
      && pressed.lock.motor.InProgress() && RestState(pressed.lock.motor) != RestState(d.lock.motor)
      && pressed.sync.onCompletion && pressed.queue.dropped == d.queue.dropped
  {
  }

  /** A short press served while the lock is at rest can run its course: the lock comes to rest in the
      opposite state and the attribute follows. */
  lemma {:induction false} PressCarriesThrough(bootedLocked: bool, d: Device) returns (steps: seq<Step>)
    requires Safe(bootedLocked, d) && !d.lock.motor.InProgress()
    requires d.queue.events != [] && d.queue.events[0].event == ButtonEvent(Pressed)
    ensures IsRun(d, steps) && Unattended(steps)
    ensures var end := After(d, steps);
      end.Quiescent() && end.Agrees() && RestState(end.lock.motor) != RestState(d.lock.motor)
  {
    SafeStep(bootedLocked, d, Dispatch);
    var pressed := Next(d, Dispatch);
    PressedAtRest(bootedLocked, d);
    var moving := Complete(pressed);
    var updating := RunUpdates(After(pressed, moving));
    RunsCompose(pressed, moving, updating);
    steps := [Dispatch] + (moving + updating);
    assert steps[1..] == moving + updating;
  }

  // ---- What that means

  /** At every quiescent state the attribute agrees with the actuator, in every run that boots from a
      locked or unlocked attribute and in which each accepted remote command is harmless. */
  lemma AttributeAgreement(attribute: DlLockState, now: nat, steps: seq<Step>)
    requires attribute == Locked || attribute == Unlocked
    requires IsRun(Boot(attribute, now), steps) && Disciplined(Boot(attribute, now), steps)
    requires After(Boot(attribute, now), steps).Quiescent()
    ensures After(Boot(attribute, now), steps).Agrees()
  {
    SafeBoot(attribute, now);
    WillAgreeRun(attribute != Unlocked, Boot(attribute, now), steps);
  }

  /** Commands accepted when no action is in progress and no update is pending are harmless. */
  lemma QuiescentIsHarmless(d: Device, action: Action)
    requires d.Quiescent()
    ensures Harmless(d, action)
  {
  }

  /** Remote commands are accepted only when no action is in progress and no update is pending. */
  ghost predicate OneAtATime(d: Device, steps: seq<Step>)
    requires IsRun(d, steps)
    decreases |steps|
  {
    steps == [] || (
      && (steps[0].RemoteCommand? && steps[0].accepted ==> d.Quiescent())
      && OneAtATime(Next(d, steps[0]), steps[1..]))
  }

  lemma {:induction false} OneAtATimeIsDisciplined(d: Device, steps: seq<Step>)
    requires IsRun(d, steps) && OneAtATime(d, steps)
    ensures Disciplined(d, steps)
    decreases |steps|
  {
    if steps == [] {
    } else {
      if steps[0].RemoteCommand? && steps[0].accepted {
        QuiescentIsHarmless(d, steps[0].action);
      }
      OneAtATimeIsDisciplined(Next(d, steps[0]), steps[1..]);
    }
  }

  /** A discipline that an integrator can keep: commands one at a time. */
  lemma OneAtATimeAgrees(attribute: DlLockState, now: nat, steps: seq<Step>)
    requires attribute == Locked || attribute == Unlocked
    requires IsRun(Boot(attribute, now), steps) && OneAtATime(Boot(attribute, now), steps)
    requires After(Boot(attribute, now), steps).Quiescent()
    ensures After(Boot(attribute, now), steps).Agrees()
  {
    OneAtATimeIsDisciplined(Boot(attribute, now), steps);
    AttributeAgreement(attribute, now, steps);
  }

  // ---- Other attributes at boot

  /** Nothing has happened to lock and attribute since boot. */
  predicate Untouched(attribute: DlLockState, d: Device) {
    && d.lock.callbacks == [] && !d.lock.motor.InProgress()
    && d.lock.motor.UnlockCompleted? == (attribute == Unlocked)
    && d.sync == SyncPart(false, 0, 0, attribute)
  }

  lemma UntouchedStep(attribute: DlLockState, d: Device, step: Step)
    requires Untouched(attribute, d) && Enabled(d, step)
    ensures var next := Next(d, step);
      if step.RemoteCommand? && step.accepted then WillAgree(next)
      else Untouched(attribute, next) || (next.lock.callbacks != [] && WillAgree(next))
  {
  }

  lemma {:induction false} CallbacksGrow(d: Device, steps: seq<Step>)
    requires IsRun(d, steps)
    ensures |d.lock.callbacks| <= |After(d, steps).lock.callbacks|
    decreases |steps|
  {
    if steps == [] {
    } else {
      CallbacksGrow(Next(d, steps[0]), steps[1..]);
    }
  }

  lemma {:induction false} UntouchedRun(attribute: DlLockState, d: Device, steps: seq<Step>)
    requires Safe(attribute != Unlocked, d) && Untouched(attribute, d) && IsRun(d, steps) && Disciplined(d, steps)
    ensures var end := After(d, steps);
      if Unattended(steps) && end.lock.callbacks == [] then Untouched(attribute, end) else WillAgree(end)
    decreases |steps|
  {
    if steps == [] {
    } else {
      var next := Next(d, steps[0]);
      UntouchedStep(attribute, d, steps[0]);
      SafeStep(attribute != Unlocked, d, steps[0]);
      CallbacksGrow(next, steps[1..]);
      assert Unattended(steps) <==> !(steps[0].RemoteCommand? && steps[0].accepted) && Unattended(steps[1..]) by {
        assert steps == [steps[0]] + steps[1..];
      }
      if Untouched(attribute, next) && !(steps[0].RemoteCommand? && steps[0].accepted) {
        UntouchedRun(attribute, next, steps[1..]);
      } else {
        WillAgreeRun(attribute != Unlocked, next, steps[1..]);
      }
    }
  }

  /** From any attribute at boot, in every run in which each accepted command is harmless: a quiescent state
      disagrees exactly if the device booted with neither Locked nor Unlocked and since then no command
      was accepted and no action started. */
  lemma AgreementFromAnyBoot(attribute: DlLockState, now: nat, steps: seq<Step>)
    requires IsRun(Boot(attribute, now), steps) && Disciplined(Boot(attribute, now), steps)
    requires After(Boot(attribute, now), steps).Quiescent()
    ensures After(Boot(attribute, now), steps).Agrees() <==>
            || attribute == Locked || attribute == Unlocked
            || !Unattended(steps) || After(Boot(attribute, now), steps).lock.callbacks != []
  {
    SafeBoot(attribute, now);
    UntouchedRun(attribute, Boot(attribute, now), steps);
  }

  /** From here on, short of accepted remote commands, every quiescent state agrees. */
  ghost predicate AgreesFromNowOn(d: Device) {
    forall later :: IsRun(d, later) && Unattended(later) && After(d, later).Quiescent() ==> After(d, later).Agrees()
  }

  /** A lock that lost a completion is never quiescent again. */
  lemma FrozenAgrees(bootedLocked: bool, d: Device)
    requires Safe(bootedLocked, d) && Dropped(d.queue, ActuatorTimerEvent) > 0
    ensures AgreesFromNowOn(d)
  {
    forall later | IsRun(d, later)
      ensures !After(d, later).Quiescent()
    {
      FrozenRun(d, later);
    }
  }

  /** In every reached state: all later quiescent states agree exactly if the attribute agrees or will be
      corrected, or there are none because a completion was lost. */
  lemma WillAgreeIsExact(bootedLocked: bool, d: Device)
    requires Safe(bootedLocked, d)
    ensures AgreesFromNowOn(d) <==> WillAgree(d) || Dropped(d.queue, ActuatorTimerEvent) > 0
  {
    if WillAgree(d) {
      forall later | IsRun(d, later) && Unattended(later) && After(d, later).Quiescent()
        ensures After(d, later).Agrees()
      {
        UnattendedIsDisciplined(d, later);
        WillAgreeRun(bootedLocked, d, later);
      }
    } else if Dropped(d.queue, ActuatorTimerEvent) > 0 {
      FrozenAgrees(bootedLocked, d);
    } else {
      var later := Disagreement(bootedLocked, d);
    }
  }

  /** Wherever such a run has led: accepting the command now keeps the attribute in agreement at every later
      quiescent state, whatever happens short of further accepted commands, exactly if the command is
      harmless, or a lost completion keeps the lock from ever being quiescent. */
  lemma HarmlessIsExact(attribute: DlLockState, now: nat, steps: seq<Step>, action: Action)
    requires attribute == Locked || attribute == Unlocked
    requires IsRun(Boot(attribute, now), steps) && Disciplined(Boot(attribute, now), steps)
    ensures var d := After(Boot(attribute, now), steps);
      AgreesFromNowOn(Next(d, RemoteCommand(action, true))) <==> Harmless(d, action) || ActuatorTimerEvent in d.queue.dropped
  {
    SafeFromBoot(attribute, now, steps);
    SafeBoot(attribute, now);
    WillAgreeRun(attribute != Unlocked, Boot(attribute, now), steps);
    ExactAt(attribute != Unlocked, After(Boot(attribute, now), steps), action);
  }

  lemma ExactAt(bootedLocked: bool, d: Device, action: Action)
    requires Safe(bootedLocked, d) && WillAgree(d)
    ensures AgreesFromNowOn(Next(d, RemoteCommand(action, true)))
            <==> Harmless(d, action) || Dropped(d.queue, ActuatorTimerEvent) > 0
  {
    var command := RemoteCommand(action, true);
    SafeStep(bootedLocked, d, command);
    WillAgreeIsExact(bootedLocked, Next(d, command));
    if Harmless(d, action) {
      WillAgreeStep(d, command);
    } else {
      HarmfulStep(d, action);
    }
  }

  lemma OverlappingStart(commands: seq<Step>)
    requires commands == [RemoteCommand(UnlockAction, true), RemoteCommand(LockAction, true)]
    ensures IsRun(Boot(Locked, 0), commands)
    ensures var d := After(Boot(Locked, 0), commands);
      && d.now == 0 && d.lock.motor == UnlockInitiated && d.lock.timer == Running(2000) && d.queue.events == []
      && d.reset.timer.Idle? && d.debounce.Idle? && d.sync == SyncPart(false, 0, 0, Locked)
  {
    RunExtends(Boot(Locked, 0), [], commands[0]);
    assert [] + [commands[0]] == [commands[0]];
    RunExtends(Boot(Locked, 0), [commands[0]], commands[1]);
    assert [commands[0]] + [commands[1]] == commands;
  }

  /** Two overlapping commands: the second is refused by the actuator but has written the attribute. */
  lemma OverlappingCommands(steps: seq<Step>)
    requires steps == [RemoteCommand(UnlockAction, true), RemoteCommand(LockAction, true), Tick(2000), ActuatorExpiry, Dispatch]
    ensures IsRun(Boot(Locked, 0), steps)
    ensures var d := After(Boot(Locked, 0), steps);
      d.Quiescent() && d.sync.attribute == Locked && d.lock.motor == UnlockCompleted
  {
    var boot := Boot(Locked, 0);
    OverlappingStart(steps[..2]);
    RunExtends(boot, steps[..2], Tick(2000));
    RunExtends(boot, steps[..2] + [Tick(2000)], ActuatorExpiry);
    var moved := steps[..2] + [Tick(2000)] + [ActuatorExpiry];
    assert After(boot, moved).queue.events == [Queued(ActuatorTimerEvent, 2000)];
    LastEvent(After(boot, moved));
    RunExtends(boot, moved, Dispatch);
    assert steps == moved + [Dispatch];
  }
}
