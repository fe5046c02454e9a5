/** Vocabulary shared by the door lock application: the constants of include/AppConfig.h,
    include/LockManager.h and src/AppTask.cpp, the states of the lock, and the events of the application queue. */
module DoorLockTypes {

  datatype Option<+T> = None | Some(value: T)

  type Byte = b: int | 0 <= b < 256
  type UInt8 = n: int | 0 <= n < 0x100
  type UInt16 = n: int | 0 <= n < 0x1_0000

  const ACTUATOR_MOVEMENT_PERIOD_MS := 2000
  const FACTORY_RESET_CANCEL_WINDOW_MS := 5000
  const BUTTON_MIN_ASSERT_TIME_MS := 500
  const APP_EVENT_QUEUE_SIZE := 10
  const MAX_CREDENTIALS_PER_USER := 10
  const MAX_CREDENTIALS := 100

  /** The values of the LockState attribute. */
  datatype DlLockState = NotFullyLocked | Locked | Unlocked | Unlatched

  datatype Action = LockAction | UnlockAction

  /** Who asked for an action: the board's button or a remote command. */
  datatype Actor = ButtonActor | RemoteActor

  /** The four-state machine of the simulated actuator. */
  datatype MotorState = LockInitiated | LockCompleted | UnlockInitiated | UnlockCompleted {

    predicate InProgress() {
      LockInitiated? || UnlockInitiated?
    }

    /** NextState() of the lock manager: true only when the lock rests unlocked. */
    predicate RestsUnlocked() {
      UnlockCompleted?
    }
  }

  datatype ButtonAction = Pressed | LongPress

  /** Events of the application queue, one constructor per handler. */
  datatype AppEvent = ButtonEvent(action: ButtonAction) | FunctionTimerEvent | ActuatorTimerEvent

  /** A one-shot RTOS timer. */
  datatype Timer = Idle | Running(deadline: nat) {

    predicate DueAt(now: nat) {
      Running? && deadline == now
    }

    predicate MayReach(time: nat) {
      Running? ==> time <= deadline
    }
  }

  datatype SelectedFunction = NoneSelected | FactoryReset

  /** The attribute value that a completed action stands for. */
  function TargetOf(action: Action): DlLockState {
    match action
    case LockAction => Locked
    case UnlockAction => Unlocked
  }

  /** The attribute value that agrees with the actuator once it has come to rest in `motor`. */
  function RestState(motor: MotorState): DlLockState {
    match motor
    case LockInitiated | LockCompleted => Locked
    case UnlockInitiated | UnlockCompleted => Unlocked
  }

  /** A copy into the middle of a buffer. */
  function Overwrite<T>(s: seq<T>, offset: nat, data: seq<T>): seq<T>
    requires offset + |data| <= |s|
  {
    s[..offset] + data + s[offset + |data|..]
  }
}
