/**
 The thread-aware dispatcher: RequestExecution raises a ready flag under a mutex and notifies, Idle waits for
 the flag and lowers it.  Its steps are those of the ring, interleaved with the steps of this protocol.
 */
module EventDispatcherThreadAware {
  import Ring = EventDispatcher

  type Activation = Ring.Activation

  /** How far the activation inside RequestExecution has come. */
  datatype Phase = Entered | ReadySet | Notified

  datatype Mutex = Free | HeldBy(pid: Activation, phase: Phase) | HeldByWorker

  /** Where the thread that executes Run stands. */
  datatype Worker =
    | Draining    // in ExecuteAllActions
    | Entering    // found the head unpublished, about to lock the mutex in Idle
    | Testing     // holds the mutex, about to test the flag
    | Sleeping    // blocked on the condition variable, mutex released
    | Woken       // woken up, must take the mutex again
    | Accepting   // flag seen, mutex held
    | Leaving     // flag lowered, about to release the mutex

  datatype Dispatcher = Dispatcher(ring: Ring.Ring, ready: bool, mutex: Mutex, worker: Worker)

  datatype Step =
    | RingStep(step: Ring.Step)
    | GoIdle
    | Lock(pid: Activation)
    | SetReady
    | Notify
    | Unlock
    | WorkerLocks
    | Test
    | LowerReady
    | Leave
    | WakeSpuriously

  function Init(size: nat): Dispatcher
    requires size > 0
  {
    Dispatcher(Ring.Init(size), false, Free, Draining)
  }

  predicate IsConsumerStep(step: Ring.Step) {
    step.Poll? || step.Start? || step.Finish? || step.Empty? || step.Lower? || step.Advance?
  }

  predicate Enabled(d: Dispatcher, step: Step)
    requires Ring.IndicesInRange(d.ring)
  {
    match step
    case RingStep(step) =>
      && Ring.Enabled(d.ring, step)
      && (IsConsumerStep(step) ==> d.worker.Draining?)
      && (step.Poll? ==> !Ring.IsIdle(d.ring))
      && !step.Return?
    case GoIdle => d.worker.Draining? && d.ring.consumer.Polling? && Ring.IsIdle(d.ring)
    case Lock(pid) => d.mutex.Free? && pid in d.ring.producers && d.ring.producers[pid].Requesting?
    case SetReady => d.mutex.HeldBy? && d.mutex.phase.Entered?
    case Notify => d.mutex.HeldBy? && d.mutex.phase.ReadySet?
    case Unlock => d.mutex.HeldBy? && d.mutex.phase.Notified? && Ring.Enabled(d.ring, Ring.Return(d.mutex.pid))
    case WorkerLocks => d.mutex.Free? && (d.worker.Entering? || d.worker.Woken?)
    case Test => d.worker.Testing?
    case LowerReady => d.worker.Accepting?
    case Leave => d.worker.Leaving?
    case WakeSpuriously => d.worker.Sleeping?
  }

  function Apply(d: Dispatcher, step: Step): Dispatcher
    requires Ring.IndicesInRange(d.ring) && Enabled(d, step)
  {
    match step
    case RingStep(step) => d.(ring := Ring.Apply(d.ring, step))
    case GoIdle => d.(worker := Entering)
    case Lock(pid) => d.(mutex := HeldBy(pid, Entered))
    case SetReady => d.(ready := true, mutex := HeldBy(d.mutex.pid, ReadySet))
    case Notify => d.(mutex := HeldBy(d.mutex.pid, Notified), worker := if d.worker.Sleeping? then Woken else d.worker)
    case Unlock => d.(mutex := Free, ring := Ring.Apply(d.ring, Ring.Return(d.mutex.pid)))
    case WorkerLocks => d.(mutex := HeldByWorker, worker := Testing)
    case Test => if d.ready then d.(worker := Accepting) else d.(worker := Sleeping, mutex := Free)
    case LowerReady => d.(ready := false, worker := Leaving)
    case Leave => d.(mutex := Free, worker := Draining)
    case WakeSpuriously => d.(worker := Woken)
  }

  predicate IsRun(d: Dispatcher, steps: seq<Step>)
    decreases |steps|
  {
    && Ring.IndicesInRange(d.ring)
    && (steps != [] ==> Enabled(d, steps[0]) && IsRun(Apply(d, steps[0]), steps[1..]))
  }

  function After(d: Dispatcher, steps: seq<Step>): Dispatcher
    requires IsRun(d, steps)
    decreases |steps|
  {
    if steps == [] then d else After(Apply(d, steps[0]), steps[1..])
  }

  predicate StaysBounded(d: Dispatcher, steps: seq<Step>)
    requires IsRun(d, steps)
    decreases |steps|
  {
    steps != [] ==>
      && (steps[0].RingStep? ==> Ring.FillsInside(d.ring, steps[0].step))
      && StaysBounded(Apply(d, steps[0]), steps[1..])
  }

  // ----- the protocol is a ring run with extra steps in between

  /** The steps of the ring that a run of the protocol contains; going idle is a poll that finds nothing. */
  function RingSteps(d: Dispatcher, steps: seq<Step>): seq<Ring.Step>
    requires IsRun(d, steps)
    decreases |steps|
  {
    if steps == [] then []
    else
      (match steps[0]
       case RingStep(step) => [step]
       case GoIdle => [Ring.Poll]
       case Unlock => [Ring.Return(d.mutex.pid)]
       case _ => [])
      + RingSteps(Apply(d, steps[0]), steps[1..])
  }

  lemma {:induction false} RefinesRing(d: Dispatcher, steps: seq<Step>)
    requires IsRun(d, steps) && StaysBounded(d, steps)
    ensures Ring.IsRun(d.ring, RingSteps(d, steps)) && Ring.StaysBounded(d.ring, RingSteps(d, steps))
    ensures After(d, steps).ring == Ring.After(d.ring, RingSteps(d, steps))
    decreases |steps|
  {
    if steps != [] {
      var rest := RingSteps(Apply(d, steps[0]), steps[1..]);
      RefinesRing(Apply(d, steps[0]), steps[1..]);
      match steps[0]
      case RingStep(step) => assert ([step] + rest)[1..] == rest;
      case GoIdle => assert ([Ring.Poll] + rest)[1..] == rest;
      case Unlock => assert ([Ring.Return(d.mutex.pid)] + rest)[1..] == rest;
      case _ => assert [] + rest == rest;
    }
  }

  // ----- the invariant

  /** The worker has found the head unpublished and has not taken the flag since. */
  predicate Retiring(worker: Worker) {
    worker.Entering? || worker.Testing? || worker.Sleeping? || worker.Woken?
  }

  /** The activation has published its slot and will still raise the flag. */
  predicate WillSetReady(d: Dispatcher, pid: Activation) {
    && pid in d.ring.producers
    && Ring.Announcing(d.ring.producers[pid])
    && (d.mutex.HeldBy? && d.mutex.pid == pid ==> d.mutex.phase.Entered?)
  }

  predicate HeadPublished(d: Dispatcher)
    requires Ring.IndicesInRange(d.ring)
  {
    d.ring.popped < |d.ring.scheduled| && d.ring.slots[d.ring.popIndex].published
  }

  predicate MutexAgrees(d: Dispatcher) {
    && (d.mutex.HeldBy? ==> d.mutex.pid in d.ring.producers && d.ring.producers[d.mutex.pid].Requesting?)
    && (d.mutex.HeldBy? && !d.mutex.phase.Entered? ==> d.ready)
    && (d.mutex.HeldByWorker? <==> d.worker.Testing? || d.worker.Accepting? || d.worker.Leaving?)
    && (!d.worker.Draining? ==> d.ring.consumer.Polling?)
  }

  /** Work the retiring worker has not seen is covered by the raised flag or by its own announcer. */
  predicate HeadIsAnnounced(d: Dispatcher)
    requires Ring.Inv(d.ring)
  {
    Retiring(d.worker) && !d.ready && HeadPublished(d) ==>
      WillSetReady(d, d.ring.owners[d.ring.popped])
  }

  /** A raised flag never leaves the worker asleep, except while the one that raised it is about to notify. */
  predicate SleeperIsNotified(d: Dispatcher) {
    d.worker.Sleeping? && d.ready ==> d.mutex.HeldBy? && d.mutex.phase.ReadySet?
  }

  predicate Inv(d: Dispatcher) {
    Ring.Inv(d.ring) && MutexAgrees(d) && HeadIsAnnounced(d) && SleeperIsNotified(d)
  }

  lemma PublishKeepsInv(d: Dispatcher, pid: Activation)
    requires Inv(d) && Enabled(d, RingStep(Ring.Publish(pid)))
    ensures Inv(Apply(d, RingStep(Ring.Publish(pid))))
  {
    Ring.PublishKeepsInv(d.ring, pid);
    PublishedHeadIsOwn(d.ring, pid);
  }

  lemma ProducerStepKeepsInv(d: Dispatcher, step: Ring.Step)
    requires Inv(d) && Enabled(d, RingStep(step)) && !IsConsumerStep(step) && !step.Publish?
    requires Ring.FillsInside(d.ring, step)
    ensures Inv(Apply(d, RingStep(step)))
  {
    Ring.StepKeepsInv(d.ring, step);
    HeadStaysUnpublished(d.ring, step);
    AnnouncersStay(d.ring, step);
  }

  /** No step of the ring but a return takes an activation out of its announcement. */
  lemma AnnouncersStay(r: Ring.Ring, step: Ring.Step)
    requires Ring.Inv(r) && Ring.Enabled(r, step) && !IsConsumerStep(step) && !step.Return?
    ensures
      var r' := Ring.Apply(r, step);
      forall pid | pid in r.producers && Ring.Announcing(r.producers[pid]) ::
        && pid in r'.producers && Ring.Announcing(r'.producers[pid])
        && (r.producers[pid].Requesting? ==> r'.producers[pid].Requesting?)
  {}

  lemma HeadStaysUnpublished(r: Ring.Ring, step: Ring.Step)
    requires Ring.Inv(r) && Ring.Enabled(r, step) && !IsConsumerStep(step) && !step.Publish?
    ensures
      var r' := Ring.Apply(r, step);
      && r'.popIndex == r.popIndex && r'.popped == r.popped && r'.consumer == r.consumer && |r'.slots| == |r.slots|
      && r'.slots[r.popIndex].published == r.slots[r.popIndex].published
      && r.scheduled <= r'.scheduled && r.owners <= r'.owners
  {}

  lemma PublishedHeadIsOwn(r: Ring.Ring, pid: Activation)
    requires Ring.Inv(r) && Ring.Enabled(r, Ring.Publish(pid))
    ensures r.producers[pid].index == r.popIndex && !r.consumer.Lowered? ==> r.producers[pid].ticket == r.popped
  {
    Ring.OnlyInWindow(r.lowered, r.producers[pid].ticket, |r.slots|);
    assert Ring.Index(r.popped, |r.slots|) == r.popIndex;
  }

  lemma ConsumerStepKeepsInv(d: Dispatcher, step: Ring.Step)
    requires Inv(d) && Enabled(d, RingStep(step)) && IsConsumerStep(step)
    ensures Inv(Apply(d, RingStep(step)))
  {
    Ring.StepKeepsInv(d.ring, step);
  }

  lemma UnlockKeepsInv(d: Dispatcher)
    requires Inv(d) && Enabled(d, Unlock)
    ensures Inv(Apply(d, Unlock))
  {
    Ring.ReturnKeepsInv(d.ring, d.mutex.pid);
  }

  lemma ProtocolStepKeepsInv(d: Dispatcher, step: Step)
    requires Inv(d) && Enabled(d, step) && !step.RingStep? && !step.Unlock?
    ensures Inv(Apply(d, step))
  {}

  lemma StepKeepsInv(d: Dispatcher, step: Step)
    requires Inv(d) && Enabled(d, step) && (step.RingStep? ==> Ring.FillsInside(d.ring, step.step))
    ensures Inv(Apply(d, step))
  {
    match step
    case RingStep(inner) =>
      if IsConsumerStep(inner) {
        ConsumerStepKeepsInv(d, inner);
      } else if inner.Publish? {
        PublishKeepsInv(d, inner.pid);
      } else {
        ProducerStepKeepsInv(d, inner);
      }
    case Unlock => UnlockKeepsInv(d);
    case _ => ProtocolStepKeepsInv(d, step);
  }

  lemma {:induction false} RunKeepsInv(d: Dispatcher, steps: seq<Step>)
    requires Inv(d) && IsRun(d, steps) && StaysBounded(d, steps)
    ensures Inv(After(d, steps))
    decreases |steps|
  {
    if steps != [] {
      StepKeepsInv(d, steps[0]);
      RunKeepsInv(Apply(d, steps[0]), steps[1..]);
    }
  }

  // ----- no wakeup is lost

  lemma InitEstablishesInv(size: nat)
    requires size > 0
    ensures Inv(Init(size))
  {
    Ring.InitEstablishesInv(size);
  }

  /**
   In every reachable state in which the worker is about to wait or waits with the flag down, the head slot is
   unpublished, or the activation that published it has not raised the flag yet; this includes the states in
   which later slots were published, and announced, before the head.
   */
  lemma NoLostWakeup(size: nat, steps: seq<Step>)
    requires size > 0 && IsRun(Init(size), steps) && StaysBounded(Init(size), steps)
    ensures Ring.IndicesInRange(After(Init(size), steps).ring)
    ensures
      var d := After(Init(size), steps);
      Retiring(d.worker) && !d.ready ==>
        || !d.ring.slots[d.ring.popIndex].published
        || (d.ring.popped < |d.ring.owners| && WillSetReady(d, d.ring.owners[d.ring.popped]))
  {
    InitEstablishesInv(size);
    RunKeepsInv(Init(size), steps);
    var r := After(Init(size), steps).ring;
    assert r.popIndex == Ring.Index(r.popped, |r.slots|);
  }

  /** A blocked worker with no Schedule in progress has executed everything that was scheduled. */
  lemma SleepsOnlyWhenAllExecuted(size: nat, steps: seq<Step>)
    requires size > 0 && IsRun(Init(size), steps) && StaysBounded(Init(size), steps)
    requires After(Init(size), steps).worker.Sleeping? && After(Init(size), steps).ring.producers == map[]
    ensures After(Init(size), steps).ring.executed == Ring.Scheduled(RingSteps(Init(size), steps), map[])
    ensures !After(Init(size), steps).ready
  {
    NoLostWakeup(size, steps);
    InitEstablishesInv(size);
    RunKeepsInv(Init(size), steps);
    RefinesRing(Init(size), steps);
    Ring.IdleMeansAllExecuted(size, RingSteps(Init(size), steps));
  }

  /** Steps that neither start new work nor rely on a spurious wakeup. */
  predicate IsCompleting(step: Step) {
    !step.WakeSpuriously? && !(step.RingStep? && step.step.Load?)
  }

  /** How many steps the announcement that wakes the worker still needs. */
  function StepsToWake(d: Dispatcher): nat
    requires Inv(d) && d.worker.Sleeping? && (HeadPublished(d) || (d.mutex.HeldBy? && !d.mutex.phase.Notified?))
  {
    match d.mutex
    case HeldBy(_, Entered) => 2
    case HeldBy(_, ReadySet) => 1
    case HeldBy(_, Notified) => 6
    case _ =>
      match d.ring.producers[d.ring.owners[d.ring.popped]]
      case Published(_, _) => 5
      case Measured(_, _, _) => 4
      case _ => 3
  }

  /** A sleeping worker with its head published is woken by the announcements under way, without deadlock. */
  lemma {:induction false} SleeperIsWoken(d: Dispatcher) returns (steps: seq<Step>)
    requires Inv(d) && d.worker.Sleeping? && (HeadPublished(d) || (d.mutex.HeldBy? && !d.mutex.phase.Notified?))
    ensures IsRun(d, steps) && After(d, steps).worker.Woken?
    ensures |steps| <= StepsToWake(d) && forall step | step in steps :: IsCompleting(step)
    decreases StepsToWake(d)
  {
    var step := NextToWake(d);
    var d' := Apply(d, step);
    if d'.worker.Woken? {
      assert After(d', []) == d';
      steps := [step];
    } else {
      var rest := SleeperIsWoken(d');
      steps := [step] + rest;
      assert steps[1..] == rest;
    }
  }

  lemma NextToWake(d: Dispatcher) returns (step: Step)
    requires Inv(d) && d.worker.Sleeping? && (HeadPublished(d) || (d.mutex.HeldBy? && !d.mutex.phase.Notified?))
    ensures Enabled(d, step) && Inv(Apply(d, step)) && IsCompleting(step)
    ensures step.RingStep? ==> step.step.Measure? || step.step.Store?
    ensures
      var d' := Apply(d, step);
      || d'.worker.Woken?
      || (d'.worker.Sleeping? && (HeadPublished(d') || (d'.mutex.HeldBy? && !d'.mutex.phase.Notified?))
          && StepsToWake(d') < StepsToWake(d))
  {
    if d.mutex.HeldBy? {
      if d.mutex.phase.Notified? {
        step := Unlock;
        UnlockKeepsInv(d);
      } else {
        step := if d.mutex.phase.Entered? then SetReady else Notify;
        ProtocolStepKeepsInv(d, step);
      }
    } else {
      step := AnnouncerStep(d);
    }
  }

  lemma AnnouncerStep(d: Dispatcher) returns (step: Step)
    requires Inv(d) && d.worker.Sleeping? && HeadPublished(d) && !d.mutex.HeldBy?
    ensures Enabled(d, step) && Inv(Apply(d, step)) && IsCompleting(step)
    ensures step.RingStep? ==> step.step.Measure? || step.step.Store?
    ensures
      var d' := Apply(d, step);
      && d'.worker.Sleeping? && (HeadPublished(d') || (d'.mutex.HeldBy? && !d'.mutex.phase.Notified?))
      && StepsToWake(d') < StepsToWake(d)
  {
    var pid := d.ring.owners[d.ring.popped];
    var p := d.ring.producers[pid];
    if p.Requesting? {
      step := Lock(pid);
      ProtocolStepKeepsInv(d, step);
    } else {
      var inner := if p.Published? then Ring.Measure(pid) else Ring.Store(pid);
      step := RingStep(inner);
      ProducerStepKeepsInv(d, inner);
    }
  }
}
