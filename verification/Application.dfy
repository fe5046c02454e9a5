/** The running application: the lock manager, the application task and the button handler are three
    singletons that call each other, here one object with the fields of all three. Every handler is
    proved to take exactly the step that Device.dfy gives it. */
module Application {
  import opened DoorLockTypes
  import opened Led
  import opened Device
  import CredentialProperties
  import CredentialStore
  import LockSystem

  datatype OperationError = InvalidCredential

  class DoorLockApp {
    // The environment: the clock, the attribute of the door lock server, and work deferred to the stack
    var clock: nat
    var lockStateAttribute: DlLockState
    var deferredUpdates: nat

    // LockManager
    var mState: MotorState
    var sLockTimer: Timer
    const store: CredentialStore.Credentials

    // AppTask
    var mFunction: SelectedFunction
    var mFunctionTimerActive: bool
    var mSyncClusterToButtonAction: bool
    var sFunctionTimer: Timer
    var sAppEventQueue: seq<Queued>
    const sLockLED: LEDWidget

    // ButtonHandler
    var buttonTimer: Timer

    // What has happened so far
    ghost var callbacks: seq<Callback>
    ghost var marks: seq<ResetMark>
    ghost var scheduled: nat
    ghost var dropped: seq<AppEvent>

    ghost function State(): Device
      reads this, sLockLED
    {
      Device(clock,
             LockPart(mState, sLockTimer, callbacks),
             ResetPart(mFunction, mFunctionTimerActive, sFunctionTimer, marks),
             SyncPart(mSyncClusterToButtonAction, deferredUpdates, scheduled, lockStateAttribute),
             QueuePart(sAppEventQueue, dropped),
             buttonTimer,
             sLockLED.View())
    }

    constructor LockMgrInit(attribute: DlLockState, now: nat, store: CredentialStore.Credentials)
      ensures State() == Boot(attribute, now) && this.store == store && fresh(sLockLED)
    {
      clock, lockStateAttribute, deferredUpdates := now, attribute, 0;
      mState := if attribute == Unlocked then UnlockCompleted else LockCompleted;
      sLockTimer, sFunctionTimer, buttonTimer := Idle, Idle, Idle;
      this.store := store;
      mFunction, mFunctionTimerActive, mSyncClusterToButtonAction := NoneSelected, false, false;
      sAppEventQueue := [];
      callbacks, marks, scheduled, dropped := [], [], 0, [];
      var led := new LEDWidget.Init();
      sLockLED := led;
      new;
      if attribute == Unlocked {
        sLockLED.Set(false);
      } else {
        sLockLED.Set(true);
      }
    }

    method PostEvent(event: AppEvent)
      modifies this`sAppEventQueue, this`dropped
      ensures QueuePart(sAppEventQueue, dropped) == Put(old(QueuePart(sAppEventQueue, dropped)), event, clock)
      ensures if old(|sAppEventQueue|) < 10 then
                sAppEventQueue == old(sAppEventQueue) + [Queued(event, clock)] && dropped == old(dropped)
              else
                sAppEventQueue == old(sAppEventQueue) && dropped == old(dropped) + [event]
    {
      if |sAppEventQueue| < APP_EVENT_QUEUE_SIZE {
        sAppEventQueue := sAppEventQueue + [Queued(event, clock)];
      } else {
        dropped := dropped + [event];
      }
    }

    // ---- LockManager

    method InitiateAction(actor: Actor, action: Action) returns (initiated: bool)
      modifies this, sLockLED
      ensures initiated <==> CanInitiate(old(mState), action)
      ensures State() == Initiate(old(State()), actor, action)
    {
      initiated := false;
      var newState := mState;
      if mState.LockCompleted? && action.UnlockAction? {
        initiated := true;
        newState := UnlockInitiated;
      } else if mState.UnlockCompleted? && action.LockAction? {
        initiated := true;
        newState := LockInitiated;
      }
      if initiated {
        StartLockTimer(ACTUATOR_MOVEMENT_PERIOD_MS);
        mState := newState;
        ActionInitiated(action, actor);
      }
    }

    method StartLockTimer(timeoutMs: nat)
      modifies this`sLockTimer
      ensures sLockTimer == Running(clock + timeoutMs)
    {
      if sLockTimer.Running? {
        CancelLockTimer();
      }
      sLockTimer := Running(clock + timeoutMs);
    }

    method CancelLockTimer()
      modifies this`sLockTimer
      ensures sLockTimer == Idle
    {
      sLockTimer := Idle;
    }

    method LockTimerExpired()
      requires Enabled(State(), ActuatorExpiry)
      modifies this
      ensures State() == Next(old(State()), ActuatorExpiry)
    {
      sLockTimer := Idle;
      PostEvent(ActuatorTimerEvent);
    }

    method ActuatorMovementTimerEventHandler()
      modifies this, sLockLED
      ensures State() == ActuatorMoved(old(State()))
    {
      if mState.LockInitiated? {
        mState := LockCompleted;
        ActionCompleted(LockAction);
      } else if mState.UnlockInitiated? {
        mState := UnlockCompleted;
        ActionCompleted(UnlockAction);
      }
    }

    method SetLockState(action: Action, pin: Option<seq<Byte>>, requirePin: bool)
      returns (accepted: bool, err: Option<OperationError>)
      requires store.Valid()
      modifies this`lockStateAttribute
      ensures accepted <==> LockSystem.Accepts(store.Ram(), pin, requirePin)
      ensures err == if pin.Some? && !accepted then Some(InvalidCredential) else None
      ensures lockStateAttribute == if accepted then TargetOf(action) else old(lockStateAttribute)
    {
      err := None;
      if pin.None? {
        if !requirePin {
          lockStateAttribute := TargetOf(action);
          return true, err;
        }
        return false, err;
      }
      accepted := store.MatchPin(pin.value);
      if accepted {
        lockStateAttribute := TargetOf(action);
      } else {
        err := Some(InvalidCredential);
      }
    }

    // ---- ZclCallbacks

    /** The lock and unlock commands of the door lock server. */
    method OnDoorLockCommand(action: Action, pin: Option<seq<Byte>>, requirePin: bool)
      returns (accepted: bool, err: Option<OperationError>)
      requires store.Valid()
      modifies this, sLockLED
      ensures accepted <==> old(LockSystem.Accepts(store.Ram(), pin, requirePin))
      ensures err == if pin.Some? && !accepted then Some(InvalidCredential) else None
      ensures State() == Next(old(State()), RemoteCommand(action, accepted))
    {
      accepted, err := SetLockState(action, pin, requirePin);
      if accepted {
        var _ := InitiateAction(RemoteActor, action);
      }
    }

    // ---- AppTask

    method ActionInitiated(action: Action, actor: Actor)
      modifies this`mSyncClusterToButtonAction, this`callbacks, sLockLED
      ensures mSyncClusterToButtonAction == (old(mSyncClusterToButtonAction) || actor.ButtonActor?)
      ensures callbacks == old(callbacks) + [Initiated(action, actor, clock)]
      ensures sLockLED.View() == Blinked(old(sLockLED.View()), 50, 50, clock)
    {
      callbacks := callbacks + [Initiated(action, actor, clock)];
      if actor.ButtonActor? {
        mSyncClusterToButtonAction := true;
      }
      sLockLED.Blink(50, 50, clock);
    }

    method ActionCompleted(action: Action)
      modifies this`mSyncClusterToButtonAction, this`deferredUpdates, this`scheduled, this`callbacks, sLockLED
      ensures SyncPart(mSyncClusterToButtonAction, deferredUpdates, scheduled, lockStateAttribute)
              == SyncAfterCompletion(old(SyncPart(mSyncClusterToButtonAction, deferredUpdates, scheduled, lockStateAttribute)))
      ensures callbacks == old(callbacks) + [Completed(action, clock)]
      ensures sLockLED.View() == Steady(action.LockAction?)
    {
      callbacks := callbacks + [Completed(action, clock)];
      sLockLED.Set(action.LockAction?);
      if mSyncClusterToButtonAction {
        UpdateClusterState();
        mSyncClusterToButtonAction := false;
      }
    }

    method UpdateClusterState()
      modifies this`deferredUpdates, this`scheduled
      ensures deferredUpdates == old(deferredUpdates) + 1 && scheduled == old(scheduled) + 1
    {
      deferredUpdates := deferredUpdates + 1;
      scheduled := scheduled + 1;
    }

    /** The deferred work item. */
    method UpdateCluster()
      requires Enabled(State(), SyncWork)
      modifies this`deferredUpdates, this`lockStateAttribute
      ensures State() == Next(old(State()), SyncWork)
    {
      deferredUpdates := deferredUpdates - 1;
      var unlocked := mState.RestsUnlocked();
      lockStateAttribute := if unlocked then Unlocked else Locked;
    }

    method StartTimer(timeoutMs: nat)
      modifies this`sFunctionTimer, this`mFunctionTimerActive
      ensures sFunctionTimer == Running(clock + timeoutMs) && mFunctionTimerActive
    {
      if sFunctionTimer.Running? {
        CancelTimer();
      }
      sFunctionTimer := Running(clock + timeoutMs);
      mFunctionTimerActive := true;
    }

    method CancelTimer()
      modifies this`sFunctionTimer, this`mFunctionTimerActive
      ensures sFunctionTimer == Idle && !mFunctionTimerActive
    {
      sFunctionTimer := Idle;
      mFunctionTimerActive := false;
    }

    method FunctionTimerExpired()
      requires Enabled(State(), FunctionExpiry)
      modifies this
      ensures State() == Next(old(State()), FunctionExpiry)
    {
      sFunctionTimer := Idle;
      PostEvent(FunctionTimerEvent);
    }

    method FunctionTimerEventHandler()
      modifies this`mFunction, this`marks
      ensures State() == Handle(old(State()), FunctionTimerEvent)
    {
      if mFunctionTimerActive && mFunction.FactoryReset? {
        mFunction := NoneSelected;
        marks := marks + [Fired(clock)];
      }
    }

    method FunctionHandler(action: ButtonAction)
      modifies this, sLockLED
      ensures State() == Handle(old(State()), ButtonEvent(action))
    {
      if action.LongPress? {
        if !mFunctionTimerActive && mFunction.NoneSelected? {
          StartTimer(FACTORY_RESET_CANCEL_WINDOW_MS);
          mFunction := FactoryReset;
          marks := marks + [Armed(clock, Holds(sAppEventQueue, FunctionTimerEvent), |dropped|)];
          sLockLED.Set(false);
          sLockLED.Blink(500, 500, clock);
        } else if mFunctionTimerActive && mFunction.FactoryReset? {
          sLockLED.Set(!mState.RestsUnlocked());
          CancelTimer();
          mFunction := NoneSelected;
          marks := marks + [Cancelled(clock)];
        }
      } else {
        var _ := InitiateAction(ButtonActor, if mState.RestsUnlocked() then LockAction else UnlockAction);
      }
    }

    method DispatchEvent(event: AppEvent)
      modifies this, sLockLED
      ensures State() == Handle(old(State()), event)
    {
      match event
      case ButtonEvent(action) => FunctionHandler(action);
      case FunctionTimerEvent => FunctionTimerEventHandler();
      case ActuatorTimerEvent => ActuatorMovementTimerEventHandler();
    }

    /** One turn of the loop in AppTaskMain, which waits for the queue to hold an event. */
    method AppTaskTurn()
      requires sAppEventQueue != []
      modifies this, sLockLED
      ensures State() == Dispatched(old(State()))
      ensures sAppEventQueue == old(sAppEventQueue)[1..]
      ensures sLockLED.View().Blinking() ==> clock <= sLockLED.View().lastChange + sLockLED.View().Dwell()
    {
      var event := sAppEventQueue[0].event;
      sAppEventQueue := sAppEventQueue[1..];
      DispatchEvent(event);
      sLockLED.Animate(clock);
    }

    // ---- ButtonHandler

    method FuncButtonCallback()
      modifies this`buttonTimer
      ensures State() == Next(old(State()), ButtonEdge)
      ensures buttonTimer == Running(clock + 500)
    {
      buttonTimer := Running(clock + BUTTON_MIN_ASSERT_TIME_MS);
    }

    method ButtonTimerCallback(held: bool)
      requires Enabled(State(), DebounceExpiry(held))
      modifies this
      ensures State() == Next(old(State()), DebounceExpiry(held))
    {
      buttonTimer := Idle;
      if held {
        PostEvent(ButtonEvent(LongPress));
      } else {
        PostEvent(ButtonEvent(Pressed));
      }
    }

    // ---- The environment

    /** Lets the application take one step. A remote command comes with the PIN decision already made; Move
        below makes it. */
    method Perform(step: Step)
      requires Enabled(State(), step)
      modifies this, sLockLED
      ensures State() == Next(old(State()), step)
    {
      match step
      case Tick(ms) => clock := clock + ms;
      case ButtonEdge => FuncButtonCallback();
      case DebounceExpiry(held) => ButtonTimerCallback(held);
      case FunctionExpiry => FunctionTimerExpired();
      case ActuatorExpiry => LockTimerExpired();
      case Dispatch => AppTaskTurn();
      case RemoteCommand(action, accepted) =>
        if accepted {
          lockStateAttribute := TargetOf(action);
          var _ := InitiateAction(RemoteActor, action);
        }
      case SyncWork => UpdateCluster();
    }

    /** Lets the application take any run of steps, so that what is proved of runs holds of this object. */
    method PerformAll(steps: seq<Step>)
      requires IsRun(State(), steps)
      modifies this, sLockLED
      ensures State() == After(old(State()), steps)
    {
      for i := 0 to |steps|
        invariant IsRun(State(), steps[i..]) && After(State(), steps[i..]) == After(old(State()), steps)
      {
        assert steps[i..][0] == steps[i] && steps[i..][1..] == steps[i + 1..];
        Perform(steps[i]);
      }
    }

    // ---- Together with the store

    ghost predicate Valid()
      reads this, store, store.mLockCredentials, store.mCredentialData
    {
      store.Valid() && CredentialProperties.Sound(CredentialProperties.System(store.Ram(), store.flash))
    }

    ghost function Joined(): (lock: LockSystem.Lock)
      reads this, sLockLED, store, store.mLockCredentials, store.mCredentialData
    {
      LockSystem.Lock(State(), CredentialProperties.System(store.Ram(), store.flash))
    }

    /** Lets the application or its store take one move, short of a restart. A command brings its PIN. */
    method Move(move: LockSystem.Move)
      requires Valid() && LockSystem.Possible(Joined(), move) && !move.Restart?
      modifies this, sLockLED, store, store.mLockCredentials, store.mCredentialData
      ensures Valid() && Joined() == LockSystem.Moved(old(Joined()), move)
    {
      if move.Turn? {
        Perform(move.step);
      } else if move.Command? {
        var _, _ := OnDoorLockCommand(move.action, move.pin, move.requirePin);
      } else {
        CredentialProperties.SoundNext(Joined().store, CredentialProperties.Set(move.e));
        var _ := CredentialProperties.SetInStore(store, move.e);
      }
    }
  }

  /** Any history of the application and its store, where a reboot boots new objects from flash, ends as
      LockSystem says. */
  method Drive(app: DoorLockApp, moves: seq<LockSystem.Move>) returns (after: DoorLockApp)
    requires app.Valid() && LockSystem.Reached(app.Joined(), moves).Some?
    requires forall i :: 0 <= i < |moves| && moves[i].Restart? ==> moves[i].op.Reboot?
    modifies app, app.sLockLED, app.store, app.store.mLockCredentials, app.store.mCredentialData
    ensures after.Valid() && Some(after.Joined()) == LockSystem.Reached(old(app.Joined()), moves)
  {
    after := app;
    ghost var begin := app.Joined();
    for i := 0 to |moves|
      invariant after == app || (fresh(after) && fresh(after.store))
      invariant after.sLockLED == app.sLockLED || fresh(after.sLockLED)
      invariant after.store == app.store
                || (fresh(after.store.mLockCredentials) && fresh(after.store.mCredentialData))
      invariant after == app ==> after.store == app.store
      invariant after.Valid() && Some(after.Joined()) == LockSystem.Reached(begin, moves[..i])
    {
      LockSystem.ReachedNext(begin, moves, i);
      if moves[i].Restart? {
        var store := new CredentialStore.Credentials.ReadConfigValues(after.store.flash);
        after := new DoorLockApp.LockMgrInit(moves[i].attribute, moves[i].now, store);
      } else {
        after.Move(moves[i]);
      }
    }
    assert moves[..|moves|] == moves;
  }
}
