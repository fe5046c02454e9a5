/** What a run does to the clock, the debounce timer, the event queue and the attribute updates, read off the
    sequence of steps alone: when time passed, when the button moved, what was posted, kept and served. */
module DeviceHistory {
  import opened DoorLockTypes
  import opened Device

  // ---- Runs by their last step

  lemma {:induction false} LastStep(d: Device, steps: seq<Step>)
    requires IsRun(d, steps) && steps != []
    ensures var last := |steps| - 1;
      && IsRun(d, steps[..last]) && Enabled(After(d, steps[..last]), steps[last])
      && After(d, steps) == Next(After(d, steps[..last]), steps[last])
    decreases |steps|
  {
    var last := |steps| - 1;
    if last == 0 {
      assert steps[..last] == [] && steps[1..] == [];
    } else {
      LastStep(Next(d, steps[0]), steps[1..]);
      assert steps[..last][0] == steps[0] && steps[..last][1..] == steps[1..][..last - 1];
    }
  }

  lemma {:induction false} Prefix(d: Device, steps: seq<Step>, i: nat)
    requires IsRun(d, steps) && i <= |steps|
    ensures IsRun(d, steps[..i])
    decreases |steps|
  {
    if i == |steps| {
      assert steps[..i] == steps;
    } else {
      LastStep(d, steps);
      Prefix(d, steps[..|steps| - 1], i);
      assert steps[..|steps| - 1][..i] == steps[..i];
    }
  }

  // ---- The clock

  /** The time after the ticks of a run. */
  function Clock(start: nat, steps: seq<Step>): nat
    decreases |steps|
  {
    if steps == [] then start
    else
      var last := steps[|steps| - 1];
      Clock(start, steps[..|steps| - 1]) + if last.Tick? then last.ms else 0
  }

  lemma {:induction false} ClockIsNow(d: Device, steps: seq<Step>)
    requires IsRun(d, steps)
    ensures After(d, steps).now == Clock(d.now, steps)
    decreases |steps|
  {
    if steps == [] {
    } else {
      LastStep(d, steps);
      ClockIsNow(d, steps[..|steps| - 1]);
      NowOfStep(After(d, steps[..|steps| - 1]), steps[|steps| - 1]);
    }
  }

  lemma NowOfStep(d: Device, step: Step)
    requires Enabled(d, step)
    ensures Next(d, step).now == d.now + if step.Tick? then step.ms else 0
  {
  }

  // ---- The button

  /** Step i is a falling edge of the button, and since then there has been neither another nor an expiry. */
  predicate IsLastEdge(steps: seq<Step>, i: nat) {
    && i < |steps| && steps[i].ButtonEdge?
    && forall j :: i < j < |steps| ==> !steps[j].ButtonEdge? && !steps[j].DebounceExpiry?
  }

  lemma DebounceOfStep(d: Device, step: Step)
    requires Enabled(d, step)
    ensures Next(d, step).debounce ==
            if step.ButtonEdge? then Running(d.now + 500) else if step.DebounceExpiry? then Idle else d.debounce
  {
  }

  /** Every edge restarts the debounce timer: it runs exactly if an edge has not been followed by an expiry, and
      then it expires 500 ms after the last edge. */
  lemma {:induction false} DebounceFollowsLastEdge(attribute: DlLockState, now: nat, steps: seq<Step>)
    requires IsRun(Boot(attribute, now), steps)
    ensures var debounce := After(Boot(attribute, now), steps).debounce;
      && (debounce.Running? <==> exists i: nat :: IsLastEdge(steps, i))
      && forall i: nat :: IsLastEdge(steps, i) ==> debounce == Running(Clock(now, steps[..i]) + 500)
    decreases |steps|
  {
    if steps == [] {
    } else {
      var boot, last := Boot(attribute, now), |steps| - 1;
      LastStep(boot, steps);
      DebounceFollowsLastEdge(attribute, now, steps[..last]);
      DebounceOfStep(After(boot, steps[..last]), steps[last]);
      ClockIsNow(boot, steps[..last]);
      LastEdgeOf(steps);
      forall i: nat | IsLastEdge(steps, i)
        ensures After(boot, steps).debounce == Running(Clock(now, steps[..i]) + 500)
      {
        if i < last {
          assert steps[..last][..i] == steps[..i];
        }
      }
    }
  }

  /** How the last step moves the last edge. */
  lemma LastEdgeOf(steps: seq<Step>)
    requires steps != []
    ensures var last := |steps| - 1;
      && (steps[last].ButtonEdge? ==> IsLastEdge(steps, last))
      && forall i: nat :: IsLastEdge(steps, i) <==>
           if i == last then steps[last].ButtonEdge?
           else !steps[last].ButtonEdge? && !steps[last].DebounceExpiry? && IsLastEdge(steps[..last], i)
  {
    var last := |steps| - 1;
    forall i: nat | i < last && IsLastEdge(steps, i)
      ensures IsLastEdge(steps[..last], i)
    {
    }
    forall i: nat | i < last && !steps[last].ButtonEdge? && !steps[last].DebounceExpiry? && IsLastEdge(steps[..last], i)
      ensures IsLastEdge(steps, i)
    {
      forall j | i < j < |steps|
        ensures !steps[j].ButtonEdge? && !steps[j].DebounceExpiry?
      {
        if j < last {
          assert steps[..last][j] == steps[j];
        }
      }
    }
  }

  /** One event for each burst of edges: an edge is possible at any time; an expiry exactly when an edge has not
      been followed by one, 500 ms after the last edge; and time cannot pass that point without it. */
  lemma OneEventPerBurst(attribute: DlLockState, now: nat, steps: seq<Step>, held: bool)
    requires IsRun(Boot(attribute, now), steps)
    ensures Enabled(After(Boot(attribute, now), steps), ButtonEdge)
    ensures Enabled(After(Boot(attribute, now), steps), DebounceExpiry(held)) <==>
            exists i: nat :: IsLastEdge(steps, i) && Clock(now, steps) == Clock(now, steps[..i]) + 500
    ensures forall i: nat, ms: nat :: IsLastEdge(steps, i) && Enabled(After(Boot(attribute, now), steps), Tick(ms)) ==>
              Clock(now, steps) + ms <= Clock(now, steps[..i]) + 500
  {
    DebounceFollowsLastEdge(attribute, now, steps);
    ClockIsNow(Boot(attribute, now), steps);
  }

  // ---- The queue

  /** What a step posts: a long press exactly if the button is still down, and the expiries of the two timers. */
  function PostOf(step: Step): Option<AppEvent> {
    match step
    case DebounceExpiry(held) => Some(ButtonEvent(if held then LongPress else Pressed))
    case FunctionExpiry => Some(FunctionTimerEvent)
    case ActuatorExpiry => Some(ActuatorTimerEvent)
    case _ => None
  }

  /** The traffic of a queue of ten, from the steps alone: what it took, how much of that was served, and what
      it refused because ten were waiting. */
  datatype Traffic = Traffic(taken: seq<Queued>, served: nat, refused: seq<AppEvent>)

  function TrafficOf(start: nat, steps: seq<Step>): (traffic: Traffic)
    decreases |steps|
  {
    if steps == [] then Traffic([], 0, []) else
    var before, last := TrafficOf(start, steps[..|steps| - 1]), steps[|steps| - 1];
    var post := PostOf(last);
    if last.Dispatch? then before.(served := before.served + 1)
    else if post.None? then before
    else if |before.taken| - before.served < 10 then
      before.(taken := before.taken + [Queued(post.value, Clock(start, steps[..|steps| - 1]))])
    else before.(refused := before.refused + [post.value])
  }

  /** The events that the application loop has taken from the queue, in order. */
  function Served(d: Device, steps: seq<Step>): seq<Queued>
    requires IsRun(d, steps)
    decreases |steps|
  {
    if steps == [] then []
    else
      (if steps[0].Dispatch? then [d.queue.events[0]] else []) + Served(Next(d, steps[0]), steps[1..])
  }

  lemma {:induction false} ServedOneMore(d: Device, steps: seq<Step>)
    requires IsRun(d, steps) && steps != []
    ensures var last := |steps| - 1;
      && IsRun(d, steps[..last]) && Enabled(After(d, steps[..last]), steps[last])
      && Served(d, steps) == Served(d, steps[..last])
         + if steps[last].Dispatch? then [After(d, steps[..last]).queue.events[0]] else []
    decreases |steps|
  {
    var last := |steps| - 1;
    LastStep(d, steps);
    if last == 0 {
      assert steps[..last] == [] && steps[1..] == [];
    } else {
      ServedOneMore(Next(d, steps[0]), steps[1..]);
      assert steps[..last][0] == steps[0] && steps[..last][1..] == steps[1..][..last - 1];
    }
  }

  lemma QueueOfStep(d: Device, step: Step)
    requires Enabled(d, step)
    ensures var queue, post := Next(d, step).queue, PostOf(step);
      if step.Dispatch? then queue.events == d.queue.events[1..] && queue.dropped == d.queue.dropped
      else if post.None? then queue == d.queue
      else if |d.queue.events| < 10 then
        queue.events == d.queue.events + [Queued(post.value, d.now)] && queue.dropped == d.queue.dropped
      else queue.events == d.queue.events && queue.dropped == d.queue.dropped + [post.value]
  {
  }

  /** The law of the queue: what was served, followed by what is waiting, is in order exactly what was posted while
      fewer than ten were waiting, each event with the time of its posting; what was dropped is in order exactly
      the rest. */
  lemma {:induction false} QueueLaw(attribute: DlLockState, now: nat, steps: seq<Step>)
    requires IsRun(Boot(attribute, now), steps)
    ensures var queue, traffic := After(Boot(attribute, now), steps).queue, TrafficOf(now, steps);
      && Served(Boot(attribute, now), steps) + queue.events == traffic.taken
      && |Served(Boot(attribute, now), steps)| == traffic.served
      && queue.dropped == traffic.refused
    decreases |steps|
  {
    if steps == [] {
    } else {
      var boot, last := Boot(attribute, now), |steps| - 1;
      LastStep(boot, steps);
      QueueLaw(attribute, now, steps[..last]);
      ServedOneMore(boot, steps);
      ClockIsNow(boot, steps[..last]);
      QueueLawStep(After(boot, steps[..last]), steps[last], Served(boot, steps[..last]), TrafficOf(now, steps[..last]));
    }
  }

  lemma QueueLawStep(d: Device, step: Step, served: seq<Queued>, before: Traffic)
    requires Enabled(d, step)
    requires served + d.queue.events == before.taken && |served| == before.served && d.queue.dropped == before.refused
    ensures var queue, post := Next(d, step).queue, PostOf(step);
      var after := if step.Dispatch? then before.(served := before.served + 1)
                   else if post.None? then before
                   else if |before.taken| - before.served < 10 then
                     before.(taken := before.taken + [Queued(post.value, d.now)])
                   else before.(refused := before.refused + [post.value]);
      var served' := served + if step.Dispatch? then [d.queue.events[0]] else [];
      served' + queue.events == after.taken && |served'| == after.served && queue.dropped == after.refused
  {
    QueueOfStep(d, step);
    var queue, post := Next(d, step).queue, PostOf(step);
    if step.Dispatch? {
      assert d.queue.events == [d.queue.events[0]] + d.queue.events[1..];
    } else if post.Some? && |d.queue.events| < 10 {
      assert served + (d.queue.events + [Queued(post.value, d.now)]) == (served + d.queue.events) + [Queued(post.value, d.now)];
    }
  }

  // ---- Deferred updates

  function Updates(steps: seq<Step>): nat {
    if steps == [] then 0
    else Updates(steps[..|steps| - 1]) + if steps[|steps| - 1].SyncWork? then 1 else 0
  }

  lemma PendingOfStep(d: Device, step: Step)
    requires Enabled(d, step)
    ensures var sync := Next(d, step).sync;
      sync.scheduled - sync.pending == d.sync.scheduled - d.sync.pending + if step.SyncWork? then 1 else 0
  {
  }

  /** Every deferred update that was scheduled is done once: those scheduled are those done and those pending. */
  lemma {:induction false} UpdatesAreDoneOnce(attribute: DlLockState, now: nat, steps: seq<Step>)
    requires IsRun(Boot(attribute, now), steps)
    ensures var sync := After(Boot(attribute, now), steps).sync;
      sync.scheduled == Updates(steps) + sync.pending
    decreases |steps|
  {
    if steps == [] {
    } else {
      var boot, last := Boot(attribute, now), |steps| - 1;
      LastStep(boot, steps);
      UpdatesAreDoneOnce(attribute, now, steps[..last]);
      PendingOfStep(After(boot, steps[..last]), steps[last]);
    }
  }

  /** The last write to the attribute: by an accepted command, or by an update, which writes what the actuator
      was at that moment. */
  function LastWrite(d: Device, steps: seq<Step>): DlLockState
    requires IsRun(d, steps)
    decreases |steps|
  {
    if steps == [] then d.sync.attribute
    else
      var front, last := steps[..|steps| - 1], steps[|steps| - 1];
      LastStep(d, steps);
      match last
      case RemoteCommand(action, accepted) =>
        if !accepted then LastWrite(d, front) else if action.LockAction? then Locked else Unlocked
      case SyncWork => if After(d, front).lock.motor == UnlockCompleted then Unlocked else Locked
      case _ => LastWrite(d, front)
  }

  lemma AttributeOfStep(d: Device, step: Step)
    requires Enabled(d, step)
    ensures Next(d, step).sync.attribute ==
            match step {
              case RemoteCommand(action, accepted) =>
                if !accepted then d.sync.attribute else if action.LockAction? then Locked else Unlocked
              case SyncWork => if d.lock.motor == UnlockCompleted then Unlocked else Locked
              case _ => d.sync.attribute
            }
  {
  }

  /** The attribute is what was last written to it, and nothing else writes it. */
  lemma {:induction false} AttributeIsLastWrite(attribute: DlLockState, now: nat, steps: seq<Step>)
    requires IsRun(Boot(attribute, now), steps)
    ensures After(Boot(attribute, now), steps).sync.attribute == LastWrite(Boot(attribute, now), steps)
    decreases |steps|
  {
    if steps == [] {
    } else {
      var boot, last := Boot(attribute, now), |steps| - 1;
      LastStep(boot, steps);
      AttributeIsLastWrite(attribute, now, steps[..last]);
      AttributeOfStep(After(boot, steps[..last]), steps[last]);
    }
  }
}
