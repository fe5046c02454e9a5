/** Application and credential store together: remote commands come with a PIN, are decided by what the store
    holds at that moment, and only then reach the lock. Proves over whole histories, with restarts and power
    losses, that every remote action and every attribute write by a command was authorised. */
module LockSystem {
  import opened DoorLockTypes
  import opened Device
  import opened CredentialStore
  import Store = CredentialProperties

  // ---- The decision

  /** The decision of setLockState: without a PIN it is enough that none is required; with one, it has to
      be in the table. */
  ghost predicate Accepts(ram: CredentialRam, pin: Option<seq<Byte>>, requirePin: bool)
    requires WellFormed(ram)
  {
    match pin
    case None => !requirePin
    case Some(p) => PinInTable(ram, p)
  }

  /** What it is meant to be: the PIN is that of a credential with an external index, or none is required. */
  ghost predicate Authorised(ram: CredentialRam, pin: Option<seq<Byte>>, requirePin: bool)
    requires WellFormed(ram)
  {
    match pin
    case None => !requirePin
    case Some(p) => exists index: UInt16 :: 1 <= index <= 10 && Store.IsFoundWith(Get(ram, PIN, index), p)
  }

  lemma AcceptsIsAuthorised(s: Store.System, pin: Option<seq<Byte>>, requirePin: bool)
    requires Store.Sound(s)
    ensures Accepts(s.ram, pin, requirePin) <==> Authorised(s.ram, pin, requirePin)
  {
    if pin.Some? {
      Store.PinOfSound(s, pin.value);
    }
  }

  /** In every state of the store that calls, reboots and power losses lead to, the decision is about the
      ten PIN credentials that have an external index. */
  lemma PinDecision(ops: seq<Store.Operation>, pin: Option<seq<Byte>>, requirePin: bool)
    requires Store.AllInside(ops)
    ensures Store.Sound(Store.FACTORY_NEW) && Store.Sound(Store.Run(Store.FACTORY_NEW, ops))
    ensures var ram := Store.Run(Store.FACTORY_NEW, ops).ram;
      Accepts(ram, pin, requirePin) <==> Authorised(ram, pin, requirePin)
  {
    Store.FactoryNewIsConsistent();
    Store.RunIsSound(Store.FACTORY_NEW, ops);
    AcceptsIsAuthorised(Store.Run(Store.FACTORY_NEW, ops), pin, requirePin);
  }

  // ---- Histories

  datatype Lock = Lock(device: Device, store: Store.System)

  datatype Move =
    | Turn(step: Step)  // a step of the application that is no remote command
    | Command(action: Action, pin: Option<seq<Byte>>, requirePin: bool)
    | SetCredential(e: Entry)
    | Restart(attribute: DlLockState, now: nat, op: Store.Operation)  // a reboot, or a power loss during a call

  predicate Possible(lock: Lock, move: Move) {
    match move
    case Turn(step) => !step.RemoteCommand? && Enabled(lock.device, step)
    case Command(_, _, _) => true
    case SetCredential(e) => CopyStaysInside(e)
    case Restart(_, _, op) => !op.Set? && Store.Inside(op)
  }

  ghost function Moved(lock: Lock, move: Move): (after: Lock)
    requires Store.Sound(lock.store) && Possible(lock, move)
    ensures Store.Sound(after.store)
  {
    match move
    case Turn(step) => lock.(device := Next(lock.device, step))
    case Command(action, pin, requirePin) =>
      lock.(device := Next(lock.device, RemoteCommand(action, Accepts(lock.store.ram, pin, requirePin))))
    case SetCredential(e) => Store.SoundNext(lock.store, Store.Set(e)); lock.(store := Store.Next(lock.store, Store.Set(e)))
    case Restart(attribute, now, op) =>
      Store.SoundNext(lock.store, op);
      Lock(Boot(attribute, now), Store.Next(lock.store, op))
  }

  /** Where a sequence of moves leads, if each is possible in its turn. */
  ghost function Reached(start: Lock, moves: seq<Move>): (lock: Option<Lock>)
    requires Store.Sound(start.store)
    ensures lock.Some? ==> Store.Sound(lock.value.store)
    decreases |moves|
  {
    if moves == [] then Some(start)
    else
      var before := Reached(start, moves[..|moves| - 1]);
      if before.Some? && Possible(before.value, moves[|moves| - 1]) then Some(Moved(before.value, moves[|moves| - 1]))
      else None
  }

  lemma {:induction false} ReachedBefore(start: Lock, moves: seq<Move>, i: nat)
    requires Store.Sound(start.store) && i <= |moves| && Reached(start, moves).Some?
    ensures Reached(start, moves[..i]).Some?
    decreases |moves|
  {
    if i == |moves| {
      assert moves[..i] == moves;
    } else {
      ReachedBefore(start, moves[..|moves| - 1], i);
      assert moves[..|moves| - 1][..i] == moves[..i];
    }
  }

  lemma ReachedNext(start: Lock, moves: seq<Move>, i: nat)
    requires Store.Sound(start.store) && i < |moves| && Reached(start, moves).Some?
    ensures var before := Reached(start, moves[..i]);
      before.Some? && Possible(before.value, moves[i]) && Reached(start, moves[..i + 1]) == Some(Moved(before.value, moves[i]))
  {
    ReachedBefore(start, moves, i + 1);
    assert moves[..i + 1][..i] == moves[..i];
  }

  ghost function Begin(attribute: DlLockState, now: nat): (lock: Lock)
    ensures Store.Sound(lock.store)
  {
    Store.FactoryNewIsConsistent();
    Lock(Boot(attribute, now), Store.FACTORY_NEW)
  }

  // ---- Every remote action was authorised

  lemma CallbackOfStep(d: Device, step: Step)
    requires Enabled(d, step)
    ensures var callbacks, after := d.lock.callbacks, Next(d, step).lock.callbacks;
      after == callbacks
      || (|after| == |callbacks| + 1 && after[..|callbacks|] == callbacks
          && var c := after[|callbacks|];
          c.Initiated? && c.actor.RemoteActor? ==> step == RemoteCommand(c.action, true) && c.at == d.now)
  {
  }

  /** Move i is an authorised command, made when callback k was due, for this action and at this time. */
  ghost predicate Authorises(start: Lock, moves: seq<Move>, i: nat, k: nat, action: Action, at: nat)
    requires Store.Sound(start.store)
  {
    && i < |moves| && moves[i].Command? && moves[i].action == action
    && var before := Reached(start, moves[..i]);
    && before.Some? && before.value.device.now == at && |before.value.device.lock.callbacks| == k
    && Authorised(before.value.store.ram, moves[i].pin, moves[i].requirePin)
  }

  lemma {:induction false} ActionAuthorised(start: Lock, moves: seq<Move>, k: nat) returns (i: nat)
    requires Store.Sound(start.store) && start.device.lock.callbacks == [] && Reached(start, moves).Some?
    requires k < |Reached(start, moves).value.device.lock.callbacks|
    requires var c := Reached(start, moves).value.device.lock.callbacks[k]; c.Initiated? && c.actor.RemoteActor?
    ensures var c := Reached(start, moves).value.device.lock.callbacks[k];
      Authorises(start, moves, i, k, c.action, c.at)
    decreases |moves|
  {
    var last := |moves| - 1;
    var before := Reached(start, moves[..last]).value;
    if k < |before.device.lock.callbacks| && !moves[last].Restart? {
      LastMoveKeeps(before, moves[last], k);
      i := ActionAuthorised(start, moves[..last], k);
      assert moves[..last][..i] == moves[..i];
    } else {
      i := last;
      LastMoveStarts(before, moves[last], k);
    }
  }

  lemma LastMoveKeeps(before: Lock, move: Move, k: nat)
    requires Store.Sound(before.store) && Possible(before, move) && !move.Restart?
    requires k < |before.device.lock.callbacks|
    ensures var after := Moved(before, move).device.lock.callbacks;
      k < |after| && after[k] == before.device.lock.callbacks[k]
  {
    match move
    case Turn(step) => CallbackOfStep(before.device, step);
    case Command(action, pin, requirePin) =>
      CallbackOfStep(before.device, RemoteCommand(action, Accepts(before.store.ram, pin, requirePin)));
    case SetCredential(_) =>
  }

  lemma LastMoveStarts(before: Lock, move: Move, k: nat)
    requires Store.Sound(before.store) && Possible(before, move)
    requires |before.device.lock.callbacks| <= k || move.Restart?
    requires k < |Moved(before, move).device.lock.callbacks|
    requires var c := Moved(before, move).device.lock.callbacks[k]; c.Initiated? && c.actor.RemoteActor?
    ensures var c := Moved(before, move).device.lock.callbacks[k];
      && move.Command? && move.action == c.action && before.device.now == c.at && |before.device.lock.callbacks| == k
      && Authorised(before.store.ram, move.pin, move.requirePin)
  {
    match move
    case Turn(step) => CallbackOfStep(before.device, step);
    case Command(action, pin, requirePin) =>
      CallbackOfStep(before.device, RemoteCommand(action, Accepts(before.store.ram, pin, requirePin)));
      AcceptsIsAuthorised(before.store, pin, requirePin);
    case SetCredential(_) =>
    case Restart(_, _, _) =>
  }

  /** From factory-new on, over any history of commands, presses, timers, credential calls, reboots and power
      losses: behind every remote action that the lock has started since boot there is a command for it, at
      that moment, with a PIN that one of the ten nameable credentials then held, or with none while none was
      required. */
  lemma RemoteActionsAreAuthorised(attribute: DlLockState, now: nat, moves: seq<Move>)
    requires Reached(Begin(attribute, now), moves).Some?
    ensures var callbacks := Reached(Begin(attribute, now), moves).value.device.lock.callbacks;
      forall k :: 0 <= k < |callbacks| && callbacks[k].Initiated? && callbacks[k].actor.RemoteActor? ==>
        exists i :: Authorises(Begin(attribute, now), moves, i, k, callbacks[k].action, callbacks[k].at)
  {
    var callbacks := Reached(Begin(attribute, now), moves).value.device.lock.callbacks;
    forall k | 0 <= k < |callbacks| && callbacks[k].Initiated? && callbacks[k].actor.RemoteActor?
      ensures exists i :: Authorises(Begin(attribute, now), moves, i, k, callbacks[k].action, callbacks[k].at)
    {
      var i := ActionAuthorised(Begin(attribute, now), moves, k);
    }
  }

  // ---- What each move does to the attribute

  /** The attribute changes only by a restart, by the update that follows a button action, or by an authorised
      command, to the value it names; and a command takes effect, on the attribute and on a lock that can
      follow, exactly if it is authorised. */
  ghost predicate TakesEffect(before: Lock, move: Move, after: Lock)
    requires Store.Sound(before.store)
  {
    var d, d' := before.device, after.device;
    && (d'.sync.attribute != d.sync.attribute ==> move.Restart? || move.Command? || move == Turn(SyncWork))
    && (move.Command? ==>
          if Authorised(before.store.ram, move.pin, move.requirePin) then
            && d'.sync.attribute == TargetOf(move.action)
            && d'.lock.callbacks == d.lock.callbacks
               + (if CanInitiate(d.lock.motor, move.action) then [Initiated(move.action, RemoteActor, d.now)] else [])
          else d' == d)
  }

  lemma AttributeOfStep(d: Device, step: Step)
    requires Enabled(d, step) && !step.SyncWork? && !step.RemoteCommand?
    ensures Next(d, step).sync.attribute == d.sync.attribute
  {
  }

  lemma MoveTakesEffect(before: Lock, move: Move)
    requires Store.Sound(before.store) && Possible(before, move)
    ensures TakesEffect(before, move, Moved(before, move))
  {
    match move
    case Turn(step) =>
      if !step.SyncWork? {
        AttributeOfStep(before.device, step);
      }
    case Command(_, pin, requirePin) => AcceptsIsAuthorised(before.store, pin, requirePin);
    case _ =>
  }

  /** So it is at every point of every history from factory-new on. */
  lemma CommandsTakeEffect(attribute: DlLockState, now: nat, moves: seq<Move>, i: nat)
    requires i < |moves| && Reached(Begin(attribute, now), moves).Some?
    ensures var before, after := Reached(Begin(attribute, now), moves[..i]), Reached(Begin(attribute, now), moves[..i + 1]);
      before.Some? && after.Some? && TakesEffect(before.value, moves[i], after.value)
  {
    ReachedNext(Begin(attribute, now), moves, i);
    MoveTakesEffect(Reached(Begin(attribute, now), moves[..i]).value, moves[i]);
  }

  // ---- Histories are made of runs

  /** Since the last restart the device has taken a run from boot, so all that is proved of runs holds in
      every history. */
  lemma {:induction false} DeviceTakesRuns(attribute: DlLockState, now: nat, moves: seq<Move>)
    returns (booted: DlLockState, since: nat, steps: seq<Step>)
    requires Reached(Begin(attribute, now), moves).Some?
    ensures IsRun(Boot(booted, since), steps)
    ensures After(Boot(booted, since), steps) == Reached(Begin(attribute, now), moves).value.device
    decreases |moves|
  {
    if moves == [] {
      booted, since, steps := attribute, now, [];
    } else {
      var last := moves[|moves| - 1];
      booted, since, steps := DeviceTakesRuns(attribute, now, moves[..|moves| - 1]);
      var before := Reached(Begin(attribute, now), moves[..|moves| - 1]).value;
      match last {
        case Turn(step) =>
          RunExtends(Boot(booted, since), steps, step);
          steps := steps + [step];
        case Command(action, pin, requirePin) =>
          var step := RemoteCommand(action, Accepts(before.store.ram, pin, requirePin));
          RunExtends(Boot(booted, since), steps, step);
          steps := steps + [step];
        case SetCredential(_) =>
        case Restart(a, n, _) => booted, since, steps := a, n, [];
      }
    }
  }

  /** And the store has taken a run from factory-new. */
  lemma {:induction false} StoreTakesRuns(attribute: DlLockState, now: nat, moves: seq<Move>) returns (ops: seq<Store.Operation>)
    requires Reached(Begin(attribute, now), moves).Some?
    ensures Store.AllInside(ops) && Store.Sound(Store.FACTORY_NEW)
    ensures Store.Run(Store.FACTORY_NEW, ops) == Reached(Begin(attribute, now), moves).value.store
    decreases |moves|
  {
    Store.FactoryNewIsConsistent();
    if moves == [] {
      ops := [];
    } else {
      ops := StoreTakesRuns(attribute, now, moves[..|moves| - 1]);
      var last := moves[|moves| - 1];
      if last.SetCredential? || last.Restart? {
        var op := if last.Restart? then last.op else Store.Set(last.e);
        Store.RunExtends(Store.FACTORY_NEW, ops, op);
        ops := ops + [op];
      }
    }
  }
}
