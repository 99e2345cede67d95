/**
 What the thread-aware dispatcher can always still do: from every state that a run can reach, whatever was scheduled can
 be executed by finishing what is under way, without any new Schedule and without a spurious wakeup.
 */
module EventDispatcherProgress {
  import Ring = EventDispatcher
  import opened EventDispatcherThreadAware

  /** Steps that only finish what is under way; every action that runs returns, or every one throws. */
  predicate Finishes(step: Step, threw: bool) {
    && IsCompleting(step)
    && !(step.RingStep? && step.step.SwapSucceeds?)
    && step != RingStep(Ring.Finish(!threw))
  }

  ghost predicate Leads(d: Dispatcher, steps: seq<Step>, threw: bool, there: Dispatcher) {
    && IsRun(d, steps) && StaysBounded(d, steps) && After(d, steps) == there && Inv(there)
    && forall step | step in steps :: Finishes(step, threw)
  }

  lemma OneStep(d: Dispatcher, step: Step, threw: bool)
    requires Inv(d) && Enabled(d, step) && Finishes(step, threw)
    requires step.RingStep? ==> Ring.FillsInside(d.ring, step.step)
    ensures Leads(d, [step], threw, Apply(d, step))
  {
    StepKeepsInv(d, step);
    assert [step][1..] == [];
    assert After(Apply(d, step), []) == Apply(d, step);
  }

  lemma {:induction false} Joins(d: Dispatcher, a: seq<Step>, middle: Dispatcher, b: seq<Step>, threw: bool, there: Dispatcher)
    requires Leads(d, a, threw, middle) && Leads(middle, b, threw, there)
    ensures Leads(d, a + b, threw, there)
    decreases |a|
  {
    if a == [] {
      assert a + b == b;
    } else {
      assert (a + b)[1..] == a[1..] + b;
      Joins(Apply(d, a[0]), a[1..], middle, b, threw, there);
    }
  }

  lemma Onwards(d: Dispatcher, steps: seq<Step>, here: Dispatcher, step: Step, threw: bool) returns (longer: seq<Step>, there: Dispatcher)
    requires Leads(d, steps, threw, here) && Inv(here) && Enabled(here, step) && Finishes(step, threw)
    requires step.RingStep? ==> Ring.FillsInside(here.ring, step.step)
    ensures Leads(d, longer, threw, there) && there == Apply(here, step)
  {
    OneStep(here, step, threw);
    Joins(d, steps, here, [step], threw, Apply(here, step));
    longer, there := steps + [step], Apply(here, step);
  }

  /** The two states have the same tickets scheduled, started and popped, and the same slot at the head. */
  ghost predicate SameHead(r: Ring.Ring, r': Ring.Ring) {
    && r'.scheduled == r.scheduled && r'.executed == r.executed && r'.popped == r.popped
    && r'.popIndex == r.popIndex && r'.consumer == r.consumer && |r'.slots| == |r.slots|
  }

  // ----- the worker gets back to the ring

  function MutexSteps(mutex: Mutex): nat {
    match mutex
    case HeldBy(_, Entered) => 3
    case HeldBy(_, ReadySet) => 2
    case HeldBy(_, Notified) => 1
    case _ => 0
  }

  /** How far a worker is from the ring, while the head is published. */
  function Distance(d: Dispatcher): nat
    requires Inv(d) && HeadPublished(d)
  {
    match d.worker
    case Draining => 0
    case Leaving => 1
    case Accepting => 2
    case Testing => if d.ready then 3 else 30
    case Sleeping => 20 + StepsToWake(d)
    case Entering => (if d.ready then 4 else 31) + MutexSteps(d.mutex)
    case Woken => (if d.ready then 4 else 31) + MutexSteps(d.mutex)
  }

  lemma ProtocolStep(d: Dispatcher, step: Step)
    requires Inv(d) && HeadPublished(d) && Enabled(d, step) && !step.RingStep? && !step.Unlock?
    ensures Inv(Apply(d, step)) && HeadPublished(Apply(d, step)) && SameHead(d.ring, Apply(d, step).ring)
  {
    ProtocolStepKeepsInv(d, step);
  }

  lemma UnlockStep(d: Dispatcher)
    requires Inv(d) && HeadPublished(d) && Enabled(d, Unlock)
    ensures Inv(Apply(d, Unlock)) && HeadPublished(Apply(d, Unlock)) && SameHead(d.ring, Apply(d, Unlock).ring)
  {
    UnlockKeepsInv(d);
  }

  /** The activation that holds the mutex goes on. */
  lemma HolderStep(d: Dispatcher) returns (step: Step)
    requires Inv(d) && HeadPublished(d) && d.mutex.HeldBy? && (d.worker.Entering? || d.worker.Woken?)
    ensures Enabled(d, step) && IsCompleting(step) && !step.RingStep?
    ensures Inv(Apply(d, step)) && HeadPublished(Apply(d, step)) && SameHead(d.ring, Apply(d, step).ring)
    ensures Distance(Apply(d, step)) < Distance(d)
  {
    match d.mutex.phase
    case Entered => step := SetReady; ProtocolStep(d, step);
    case ReadySet => step := Notify; ProtocolStep(d, step);
    case Notified => step := Unlock; UnlockStep(d);
  }

  /** A step of a sleeping worker's announcer. */
  lemma WakingStep(d: Dispatcher) returns (step: Step)
    requires Inv(d) && HeadPublished(d) && d.worker.Sleeping?
    ensures Enabled(d, step) && Finishes(step, true) && Finishes(step, false)
    ensures step.RingStep? ==> Ring.FillsInside(d.ring, step.step)
    ensures Inv(Apply(d, step)) && HeadPublished(Apply(d, step)) && SameHead(d.ring, Apply(d, step).ring)
    ensures Distance(Apply(d, step)) < Distance(d)
  {
    step := NextToWake(d);
    if step.RingStep? {
      HeadStaysUnpublished(d.ring, step.step);
    }
  }

  lemma WorkerStep(d: Dispatcher) returns (step: Step)
    requires Inv(d) && HeadPublished(d) && !d.worker.Draining?
    ensures Enabled(d, step) && Finishes(step, true) && Finishes(step, false)
    ensures step.RingStep? ==> Ring.FillsInside(d.ring, step.step)
    ensures Inv(Apply(d, step)) && HeadPublished(Apply(d, step)) && SameHead(d.ring, Apply(d, step).ring)
    ensures Distance(Apply(d, step)) < Distance(d)
  {
    match d.worker
    case Leaving => step := Leave; ProtocolStep(d, step);
    case Accepting => step := LowerReady; ProtocolStep(d, step);
    case Testing => step := Test; ProtocolStep(d, step);
    case Sleeping => step := WakingStep(d);
    case _ =>
      if d.mutex.HeldBy? {
        step := HolderStep(d);
      } else {
        step := WorkerLocks;
        ProtocolStep(d, step);
      }
  }

  /** Wherever the worker is, entering, asleep or woken: with its head published it gets back to the ring. */
  lemma {:induction false} WorkerReturns(d: Dispatcher, threw: bool) returns (steps: seq<Step>, there: Dispatcher)
    requires Inv(d) && HeadPublished(d)
    ensures Leads(d, steps, threw, there) && there.worker.Draining? && HeadPublished(there) && SameHead(d.ring, there.ring)
    decreases Distance(d)
  {
    if d.worker.Draining? {
      assert After(d, []) == d;
      steps, there := [], d;
    } else {
      var step := WorkerStep(d);
      OneStep(d, step, threw);
      steps, there := WorkerReturns(Apply(d, step), threw);
      Joins(d, [step], Apply(d, step), steps, threw, there);
      steps := [step] + steps;
    }
  }

  // ----- the head is executed and popped

  function StepsToPop(consumer: Ring.Consumer): nat {
    match consumer
    case Polling => 5
    case Found => 4
    case Running => 3
    case Unwinding => 2
    case Emptied => 1
    case Lowered => 0
  }

  /** The last two steps: the flag goes down, and the pop index goes on. */
  lemma PopsHead(d: Dispatcher, threw: bool) returns (steps: seq<Step>, there: Dispatcher)
    requires Inv(d) && d.worker.Draining? && d.ring.consumer.Emptied?
    ensures Leads(d, steps, threw, there) && there.worker.Draining? && there.ring.consumer.Polling?
    ensures there.ring.popped == d.ring.popped + 1 && there.ring.scheduled == d.ring.scheduled
    ensures |there.ring.slots| == |d.ring.slots| && there.ring.slots[d.ring.popIndex] == Ring.Slot(Ring.Vacant, false)
  {
    OneStep(d, RingStep(Ring.Lower), threw);
    steps, there := Onwards(d, [RingStep(Ring.Lower)], Apply(d, RingStep(Ring.Lower)), RingStep(Ring.Advance), threw);
  }

  function NextOfConsumer(consumer: Ring.Consumer, threw: bool): Ring.Step {
    match consumer
    case Polling => Ring.Poll
    case Found => Ring.Start
    case Running => Ring.Finish(threw)
    case Unwinding => Ring.Empty
    case Emptied => Ring.Lower
    case Lowered => Ring.Advance
  }

  /** What one step of the consumer does to the head, until its slot is empty. */
  lemma ConsumerMoves(r: Ring.Ring, threw: bool)
    requires Ring.Inv(r) && r.popped < |r.scheduled| && r.slots[r.popIndex].published
    requires !r.consumer.Emptied? && !r.consumer.Lowered?
    ensures Ring.Enabled(r, NextOfConsumer(r.consumer, threw))
    ensures var r' := Ring.Apply(r, NextOfConsumer(r.consumer, threw));
      && StepsToPop(r'.consumer) < StepsToPop(r.consumer) && !r'.consumer.Lowered? && r'.slots[r.popIndex].published
      && r'.popped == r.popped && r'.scheduled == r.scheduled && r'.popIndex == r.popIndex && |r'.slots| == |r.slots|
  {
    HeadHolds(r);
  }

  lemma ConsumerStep(d: Dispatcher, threw: bool) returns (step: Step)
    requires Inv(d) && d.worker.Draining? && HeadPublished(d) && !d.ring.consumer.Emptied? && !d.ring.consumer.Lowered?
    ensures Enabled(d, step) && Finishes(step, threw) && (step.RingStep? ==> Ring.FillsInside(d.ring, step.step))
    ensures var d' := Apply(d, step);
      && Inv(d') && HeadPublished(d') && d'.worker.Draining? && !d'.ring.consumer.Lowered?
      && StepsToPop(d'.ring.consumer) < StepsToPop(d.ring.consumer)
      && d'.ring.popped == d.ring.popped && d'.ring.scheduled == d.ring.scheduled && d'.ring.popIndex == d.ring.popIndex
      && |d'.ring.slots| == |d.ring.slots|
  {
    ConsumerMoves(d.ring, threw);
    step := RingStep(NextOfConsumer(d.ring.consumer, threw));
    StepKeepsInv(d, step);
  }

  /** A published head that was not started holds its action. */
  lemma HeadHolds(r: Ring.Ring)
    requires Ring.Inv(r) && r.popped < |r.scheduled| && r.slots[r.popIndex].published
    ensures !r.consumer.Emptied? && !r.consumer.Lowered? ==> r.slots[r.popIndex].contents == Ring.Holds(r.scheduled[r.popped])
    ensures !r.consumer.Lowered? ==> r.lowered == r.popped
  {
    assert r.popIndex == Ring.Index(r.popped, |r.slots|);
  }

  lemma {:induction false} ConsumesHead(d: Dispatcher, threw: bool) returns (steps: seq<Step>, there: Dispatcher)
    requires Inv(d) && d.worker.Draining? && HeadPublished(d) && !d.ring.consumer.Lowered?
    ensures Leads(d, steps, threw, there) && there.worker.Draining? && there.ring.consumer.Polling?
    ensures there.ring.popped == d.ring.popped + 1 && there.ring.scheduled == d.ring.scheduled
    ensures |there.ring.slots| == |d.ring.slots| && there.ring.slots[d.ring.popIndex] == Ring.Slot(Ring.Vacant, false)
    decreases StepsToPop(d.ring.consumer)
  {
    if d.ring.consumer.Emptied? {
      steps, there := PopsHead(d, threw);
    } else {
      var step := ConsumerStep(d, threw);
      OneStep(d, step, threw);
      steps, there := ConsumesHead(Apply(d, step), threw);
      Joins(d, [step], Apply(d, step), steps, threw, there);
      steps := [step] + steps;
    }
  }

  /**
   The central law of the wakeup: in every reachable state with a published head, wherever the worker stands, the run
   can go on by finishing what is under way, so that the head is popped and its action has been executed in its turn,
   whether it returns or throws.
   */
  lemma ExecutesHead(d: Dispatcher, threw: bool) returns (steps: seq<Step>, there: Dispatcher)
    requires Inv(d) && HeadPublished(d)
    ensures Leads(d, steps, threw, there) && there.worker.Draining? && there.ring.consumer.Polling?
    ensures there.ring.popped == d.ring.popped + 1 && there.ring.scheduled == d.ring.scheduled
    ensures there.ring.executed == d.ring.scheduled[..d.ring.popped + 1]
    ensures |there.ring.slots| == |d.ring.slots|
    ensures !d.ring.consumer.Lowered? ==> there.ring.slots[d.ring.popIndex] == Ring.Slot(Ring.Vacant, false)
  {
    if d.ring.consumer.Lowered? {
      steps, there := AdvancesHead(d, threw);
    } else {
      var middle, more;
      steps, middle := WorkerReturns(d, threw);
      more, there := ConsumesHead(middle, threw);
      Joins(d, steps, middle, more, threw, there);
      steps := steps + more;
    }
  }

  lemma AdvancesHead(d: Dispatcher, threw: bool) returns (steps: seq<Step>, there: Dispatcher)
    requires Inv(d) && d.ring.consumer.Lowered?
    ensures Leads(d, steps, threw, there) && there.worker.Draining? && there.ring.consumer.Polling?
    ensures there.ring.popped == d.ring.popped + 1 && there.ring.scheduled == d.ring.scheduled
    ensures there.ring.executed == d.ring.scheduled[..d.ring.popped + 1] && |there.ring.slots| == |d.ring.slots|
  {
    steps, there := [RingStep(Ring.Advance)], Apply(d, RingStep(Ring.Advance));
    OneStep(d, RingStep(Ring.Advance), threw);
  }

  // ----- an unpublished head is published by its owner

  function StepsToPublish(p: Ring.Producer): nat {
    match p
    case Reserved(_, _, _) => 4
    case Filling(_, _, _) => 3
    case Filled(_, _, _) => 2
    case _ => 1
  }

  /** The next ticket to execute is in the hands of its owner, which is inside the bound. */
  ghost predicate HeadHeld(d: Dispatcher)
    requires Inv(d)
  {
    && d.ring.popped < |d.ring.scheduled| && !d.ring.consumer.Lowered? && !HeadPublished(d)
  }

  lemma OwnerStep(d: Dispatcher) returns (step: Ring.Step)
    requires Inv(d) && HeadHeld(d)
    ensures d.ring.owners[d.ring.popped] in d.ring.producers
    ensures Enabled(d, RingStep(step)) && Finishes(RingStep(step), true) && Finishes(RingStep(step), false)
    ensures Ring.FillsInside(d.ring, step) && !IsConsumerStep(step)
    ensures var pid := d.ring.owners[d.ring.popped]; var r := Ring.Apply(d.ring, step);
      && pid in r.producers && StepsToPublish(d.ring.producers[pid]) > 0
      && (step.Publish? || StepsToPublish(r.producers[pid]) < StepsToPublish(d.ring.producers[pid]))
      && (step.Publish? ==> r.slots[r.popIndex].published)
      && r.scheduled == d.ring.scheduled && r.popped == d.ring.popped && r.owners == d.ring.owners
  {
    var r := d.ring;
    assert r.popIndex == Ring.Index(r.popped, |r.slots|);
    var pid := r.owners[r.popped];
    step := match r.producers[pid]
      case Reserved(_, _, _) => Ring.StartFill(pid)
      case Filling(_, _, _) => Ring.EndFill(pid)
      case Filled(_, _, _) => Ring.Check(pid)
      case _ => Ring.Publish(pid);
  }

  lemma {:induction false} OwnerPublishes(d: Dispatcher, threw: bool) returns (steps: seq<Step>, there: Dispatcher)
    requires Inv(d) && HeadHeld(d) && d.ring.owners[d.ring.popped] in d.ring.producers
    ensures Leads(d, steps, threw, there) && HeadPublished(there)
    ensures there.ring.popped == d.ring.popped && there.ring.scheduled == d.ring.scheduled
    decreases StepsToPublish(d.ring.producers[d.ring.owners[d.ring.popped]])
  {
    var step := OwnerStep(d);
    OneStep(d, RingStep(step), threw);
    there := Apply(d, RingStep(step));
    steps := [RingStep(step)];
    if !HeadPublished(there) {
      var more;
      StaysUnloweredBy(d, step);
      more, there := OwnerPublishes(there, threw);
      Joins(d, steps, Apply(d, RingStep(step)), more, threw, there);
      steps := steps + more;
    }
  }

  lemma StaysUnloweredBy(d: Dispatcher, step: Ring.Step)
    requires Inv(d) && Enabled(d, RingStep(step)) && !IsConsumerStep(step)
    ensures Apply(d, RingStep(step)).ring.consumer == d.ring.consumer
  {
  }

  // ----- everything that was scheduled is executed

  lemma NextIsExecuted(d: Dispatcher, threw: bool) returns (steps: seq<Step>, there: Dispatcher)
    requires Inv(d) && d.ring.popped < |d.ring.scheduled|
    ensures Leads(d, steps, threw, there) && there.ring.popped == d.ring.popped + 1 && there.ring.scheduled == d.ring.scheduled
  {
    if d.ring.consumer.Lowered? {
      steps, there := AdvancesHead(d, threw);
    } else if HeadPublished(d) {
      steps, there := ExecutesHead(d, threw);
    } else {
      var owner := OwnerStep(d);
      var middle, more;
      steps, middle := OwnerPublishes(d, threw);
      more, there := ExecutesHead(middle, threw);
      Joins(d, steps, middle, more, threw, there);
      steps := steps + more;
    }
  }

  /**
   From every reachable state the run can go on, by finishing what is under way, until every action that was scheduled
   has been executed, in the order of the swaps, whether actions return or throw.
   */
  lemma {:induction false} AllIsExecuted(d: Dispatcher, threw: bool) returns (steps: seq<Step>, there: Dispatcher)
    requires Inv(d)
    ensures Leads(d, steps, threw, there) && there.ring.scheduled == d.ring.scheduled
    ensures there.ring.popped == |d.ring.scheduled| && there.ring.executed == d.ring.scheduled
    decreases |d.ring.scheduled| - d.ring.popped
  {
    if d.ring.popped == |d.ring.scheduled| {
      assert After(d, []) == d;
      steps, there := [], d;
    } else {
      var middle, more;
      steps, middle := NextIsExecuted(d, threw);
      more, there := AllIsExecuted(middle, threw);
      Joins(d, steps, middle, more, threw, there);
      steps := steps + more;
    }
  }

  /** Every bounded run can be completed: then it has executed what its labels say was scheduled. */
  lemma EveryRunCompletes(size: nat, steps: seq<Step>, threw: bool) returns (rest: seq<Step>, there: Dispatcher)
    requires size > 0 && IsRun(Init(size), steps) && StaysBounded(Init(size), steps)
    ensures Leads(After(Init(size), steps), rest, threw, there)
    ensures there.ring.executed == Ring.Scheduled(RingSteps(Init(size), steps), map[])
  {
    InitEstablishesInv(size);
    RunKeepsInv(Init(size), steps);
    RefinesRing(Init(size), steps);
    Ring.RunSchedules(Init(size).ring, RingSteps(Init(size), steps), map[]);
    rest, there := AllIsExecuted(After(Init(size), steps), threw);
  }

  // ----- and then the worker comes to rest

  function StepsToRest(d: Dispatcher): nat {
    (if d.ready then 10 else 0) +
    match d.worker
    case Leaving => 5
    case Draining => 4
    case Entering => 3
    case Woken => 3
    case Testing => 2
    case Accepting => if d.ready then 1 else 6
    case Sleeping => 0
  }

  /** Nothing is in progress, and everything that was scheduled was executed. */
  ghost predicate AllDone(d: Dispatcher) {
    Inv(d) && d.ring.producers == map[] && d.ring.popped == |d.ring.scheduled|
  }

  lemma DoneIsIdle(r: Ring.Ring)
    requires Ring.Inv(r) && r.producers == map[] && r.popped == |r.scheduled|
    ensures r.consumer.Polling? && Ring.IsIdle(r)
  {
    Ring.IdleIsHeadUnpublished(r);
  }

  /** With nothing left to do, the worker lowers the flag and blocks. */
  lemma {:induction false} ComesToRest(d: Dispatcher, threw: bool) returns (steps: seq<Step>, there: Dispatcher)
    requires AllDone(d)
    ensures Leads(d, steps, threw, there) && there.worker.Sleeping? && !there.ready && there.ring == d.ring
    decreases StepsToRest(d)
  {
    if d.worker.Sleeping? {
      assert After(d, []) == d;
      steps, there := [], d;
    } else {
      DoneIsIdle(d.ring);
      var step := match d.worker
        case Draining => GoIdle
        case Testing => Test
        case Accepting => LowerReady
        case Leaving => Leave
        case _ => WorkerLocks;
      OneStep(d, step, threw);
      steps, there := ComesToRest(Apply(d, step), threw);
      Joins(d, [step], Apply(d, step), steps, threw, there);
      steps := [step] + steps;
    }
  }
}
