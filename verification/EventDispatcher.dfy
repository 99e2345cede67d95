/**
 The lock-free event dispatcher: any number of producers reserve ring slots with a compare-and-swap,
 fill them and publish a flag; one consumer executes and pops.  Every access to shared memory is one
 step, and a run is any interleaving of steps.

 A ticket is the number of successful compare-and-swaps before a reservation.  The program itself only
 knows tickets modulo the ring size; the state records the whole history so that the two can be compared.
 */
module EventDispatcher {
  import opened Arithmetic

  /** The identity of a scheduled function object. */
  type Action = nat

  /** The identity of one activation of Schedule; a nested call has its own. */
  type Activation = nat

  /** A function object is assigned in several words, so a half-assigned one is visible as Torn. */
  datatype Contents = Vacant | Torn | Holds(action: Action)

  datatype Slot = Slot(contents: Contents, published: bool)

  /** Where an activation of Schedule stands. */
  datatype Producer =
    | Loaded(action: Action, index: nat, loadedAt: nat)        // read the push index, not yet swapped
    | Reserved(action: Action, index: nat, ticket: nat)        // compare-and-swap succeeded
    | Filling(action: Action, index: nat, ticket: nat)         // assignment of the slot under way
    | Filled(action: Action, index: nat, ticket: nat)          // slot assigned
    | Checked(action: Action, index: nat, ticket: nat)         // asserted that the flag is still down
    | Published(index: nat, ticket: nat)                       // flag raised
    | Measured(index: nat, ticket: nat, capacity: nat)         // new minimum computed, not yet stored
    | Requesting(index: nat, ticket: nat)                      // about to call RequestExecution

  /** Where the consumer stands in ExecuteAllActions. */
  datatype Consumer =
    | Polling       // about to test the flag of the head slot in TryExecuteAction
    | Found         // flag seen, about to test it again in ExecuteFirstAction
    | Running       // the action executes; it may schedule more
    | Unwinding     // the action returned or threw, the slot is about to be emptied
    | Emptied       // the slot is empty, its flag still up
    | Lowered       // the flag is down, the pop index not yet advanced

  datatype Ring = Ring(
    slots: seq<Slot>,
    pushIndex: nat,
    popIndex: nat,
    minCapacity: nat,
    producers: map<Activation, Producer>,
    consumer: Consumer,
    scheduled: seq<Action>,      // the action of every ticket, in order of successful compare-and-swap
    owners: seq<Activation>,     // the activation that took each ticket
    executed: seq<Action>,       // every action started, in order
    lowered: nat,                // tickets whose flag has been lowered again
    popped: nat,                 // tickets the pop index has passed
    failed: bool                 // an assertion of the program failed
  )

  datatype Step =
    | Load(pid: Activation, action: Action)
    | SwapSucceeds(pid: Activation)
    | SwapFails(pid: Activation)
    | StartFill(pid: Activation)
    | EndFill(pid: Activation)
    | Check(pid: Activation)
    | Publish(pid: Activation)
    | Measure(pid: Activation)
    | Store(pid: Activation)
    | Return(pid: Activation)
    | Poll
    | Start
    | Finish(threw: bool)
    | Empty
    | Lower
    | Advance

  /** The slot a ticket uses. */
  function Index(ticket: nat, size: nat): nat
    requires size > 0
  {
    ticket % size
  }

  function Init(size: nat): Ring
    requires size > 0
  {
    Ring(seq(size, _ => Slot(Vacant, false)), 0, 0, size, map[], Polling, [], [], [], 0, 0, false)
  }

  /** What Schedule reports as capacity for a push at one index while the consumer is at another. */
  function Capacity(size: nat, popIndex: nat, pushIndex: nat): nat
    requires pushIndex < size
  {
    (size + popIndex - pushIndex - 1) % size + 1
  }

  predicate IsIdle(s: Ring)
    requires s.popIndex < |s.slots|
  {
    !s.slots[s.popIndex].published
  }

  predicate IndicesInRange(s: Ring) {
    && |s.slots| > 0 && s.pushIndex < |s.slots| && s.popIndex < |s.slots|
    && forall pid | pid in s.producers :: s.producers[pid].index < |s.slots|
  }

  predicate Enabled(s: Ring, step: Step)
    requires IndicesInRange(s)
  {
    match step
    case Load(pid, _) => pid !in s.producers
    case SwapSucceeds(pid) => pid in s.producers && s.producers[pid].Loaded? && s.pushIndex == s.producers[pid].index
    case SwapFails(pid) => pid in s.producers && s.producers[pid].Loaded?
    case StartFill(pid) => pid in s.producers && s.producers[pid].Reserved?
    case EndFill(pid) => pid in s.producers && s.producers[pid].Filling?
    case Check(pid) => pid in s.producers && s.producers[pid].Filled?
    case Publish(pid) => pid in s.producers && s.producers[pid].Checked?
    case Measure(pid) => pid in s.producers && s.producers[pid].Published?
    case Store(pid) => pid in s.producers && s.producers[pid].Measured?
    case Return(pid) => pid in s.producers && s.producers[pid].Requesting?
    case Poll => s.consumer.Polling?
    case Start => s.consumer.Found?
    case Finish(_) => s.consumer.Running?
    case Empty => s.consumer.Unwinding?
    case Lower => s.consumer.Emptied?
    case Advance => s.consumer.Lowered?
  }

  /** Starting a slot whose contents are not a whole action is a failure of the program. */
  function Apply(s: Ring, step: Step): Ring
    requires IndicesInRange(s) && Enabled(s, step)
  {
    match step
    case Load(pid, action) =>
      s.(producers := s.producers[pid := Loaded(action, s.pushIndex, |s.scheduled|)])
    case SwapSucceeds(pid) =>
      var p := s.producers[pid];
      s.(pushIndex := (p.index + 1) % |s.slots|,
         producers := s.producers[pid := Reserved(p.action, p.index, |s.scheduled|)],
         scheduled := s.scheduled + [p.action],
         owners := s.owners + [pid])
    case SwapFails(pid) =>
      var p := s.producers[pid];
      s.(producers := s.producers[pid := Loaded(p.action, s.pushIndex, |s.scheduled|)])
    case StartFill(pid) =>
      var p := s.producers[pid];
      s.(slots := s.slots[p.index := s.slots[p.index].(contents := Torn)],
         producers := s.producers[pid := Filling(p.action, p.index, p.ticket)])
    case EndFill(pid) =>
      var p := s.producers[pid];
      s.(slots := s.slots[p.index := s.slots[p.index].(contents := Holds(p.action))],
         producers := s.producers[pid := Filled(p.action, p.index, p.ticket)])
    case Check(pid) =>
      var p := s.producers[pid];
      s.(producers := s.producers[pid := Checked(p.action, p.index, p.ticket)],
         failed := s.failed || s.slots[p.index].published)
    case Publish(pid) =>
      var p := s.producers[pid];
      s.(slots := s.slots[p.index := s.slots[p.index].(published := true)],
         producers := s.producers[pid := Published(p.index, p.ticket)])
    case Measure(pid) =>
      var p := s.producers[pid];
      var capacity := Capacity(|s.slots|, s.popIndex, p.index);
      s.(producers := s.producers[pid := Measured(p.index, p.ticket, if capacity < s.minCapacity then capacity else s.minCapacity)])
    case Store(pid) =>
      var p := s.producers[pid];
      s.(minCapacity := p.capacity, failed := s.failed || p.capacity < 1,
         producers := s.producers[pid := Requesting(p.index, p.ticket)])
    case Return(pid) =>
      s.(producers := s.producers - {pid})
    case Poll =>
      if s.slots[s.popIndex].published then s.(consumer := Found) else s
    case Start =>
      var slot := s.slots[s.popIndex];
      if !slot.published then s.(consumer := Polling)
      else if slot.contents.Holds? then s.(consumer := Running, executed := s.executed + [slot.contents.action])
      else s.(consumer := Running, failed := true)
    case Finish(_) =>
      s.(consumer := Unwinding)
    case Empty =>
      s.(consumer := Emptied, slots := s.slots[s.popIndex := s.slots[s.popIndex].(contents := Vacant)])
    case Lower =>
      s.(consumer := Lowered, slots := s.slots[s.popIndex := s.slots[s.popIndex].(published := false)],
         lowered := s.lowered + 1)
    case Advance =>
      s.(consumer := Polling, popIndex := (s.popIndex + 1) % |s.slots|, popped := s.popped + 1)
  }

  /** Tickets taken whose slot has not been given back; an executing slot still counts. */
  function Outstanding(s: Ring): int {
    |s.scheduled| - s.lowered
  }

  predicate IsRun(s: Ring, steps: seq<Step>)
    decreases |steps|
  {
    && IndicesInRange(s)
    && (steps != [] ==> Enabled(s, steps[0]) && IsRun(Apply(s, steps[0]), steps[1..]))
  }

  function After(s: Ring, steps: seq<Step>): Ring
    requires IsRun(s, steps)
    decreases |steps|
  {
    if steps == [] then s else After(Apply(s, steps[0]), steps[1..])
  }

  /** The producer that starts to fill its slot is less than a ring ahead of the flags that were lowered. */
  predicate FillsInside(s: Ring, step: Step)
    requires IndicesInRange(s) && Enabled(s, step)
  {
    step.StartFill? ==> s.producers[step.pid].ticket < s.lowered + |s.slots|
  }

  /** Reservations may go beyond the ring, as long as nothing is written for them. */
  predicate StaysBounded(s: Ring, steps: seq<Step>)
    requires IsRun(s, steps)
    decreases |steps|
  {
    steps != [] ==> FillsInside(s, steps[0]) && StaysBounded(Apply(s, steps[0]), steps[1..])
  }

  /** The producer that starts to fill its slot does so while no ticket before its own is still using the slot. */
  ghost predicate FillsUnused(s: Ring, step: Step)
    requires IndicesInRange(s) && Enabled(s, step)
  {
    step.StartFill? ==>
      forall t: nat {:trigger Index(t, |s.slots|)} | s.lowered <= t < s.producers[step.pid].ticket ::
        Index(t, |s.slots|) != s.producers[step.pid].index
  }

  ghost predicate NeverOverwrites(s: Ring, steps: seq<Step>)
    requires IsRun(s, steps)
    decreases |steps|
  {
    steps != [] ==> FillsUnused(s, steps[0]) && NeverOverwrites(Apply(s, steps[0]), steps[1..])
  }

  /** The arguments of the activations of Schedule seen so far, told from the labels of a run alone. */
  function Given(step: Step, given: map<Activation, Action>): map<Activation, Action> {
    if step.Load? then given[step.pid := step.action] else given
  }

  /**
   What a run schedules, told from its labels alone: the action an activation of Schedule was given when it
   began, once for every successful compare-and-swap, in the order of these.
   */
  function Scheduled(steps: seq<Step>, given: map<Activation, Action>): seq<Action>
    decreases |steps|
  {
    if steps == [] then []
    else
      (if steps[0].SwapSucceeds? && steps[0].pid in given then [given[steps[0].pid]] else [])
      + Scheduled(steps[1..], Given(steps[0], given))
  }

  // ----- the invariant

  predicate HoldsTicket(p: Producer) {
    p.Reserved? || p.Filling? || p.Filled? || p.Checked?
  }

  predicate Announcing(p: Producer) {
    p.Published? || p.Measured? || p.Requesting?
  }

  /** What the slot of a reservation looks like until it is published. */
  predicate SlotFollows(slot: Slot, p: Producer)
    requires HoldsTicket(p)
  {
    && !slot.published
    && (p.Reserved? ==> slot.contents == Vacant)
    && (p.Filling? ==> slot.contents == Torn)
    && (p.Filled? || p.Checked? ==> slot.contents == Holds(p.action))
  }

  predicate CountersAgree(s: Ring) {
    && |s.slots| > 0
    && s.pushIndex == Index(|s.scheduled|, |s.slots|)
    && s.popIndex == Index(s.popped, |s.slots|)
    && |s.owners| == |s.scheduled|
    && s.lowered == (if s.consumer.Lowered? then s.popped + 1 else s.popped)
    && s.lowered <= |s.scheduled|
    && 1 <= s.minCapacity <= |s.slots|
    && !s.failed
  }

  predicate ProducersAgree(s: Ring)
    requires CountersAgree(s)
  {
    forall pid | pid in s.producers ::
      var p := s.producers[pid];
      && p.index < |s.slots|
      && (p.Loaded? ==> p.loadedAt <= |s.scheduled| && p.index == Index(p.loadedAt, |s.slots|))
      && (HoldsTicket(p) ==>
            && s.lowered <= p.ticket < |s.scheduled|
            && p.index == Index(p.ticket, |s.slots|)
            && s.owners[p.ticket] == pid
            && s.scheduled[p.ticket] == p.action
            && if p.ticket < s.lowered + |s.slots| then SlotFollows(s.slots[p.index], p) else p.Reserved?)
      && (Announcing(p) ==>
            && p.ticket < |s.scheduled|
            && p.index == Index(p.ticket, |s.slots|)
            && s.owners[p.ticket] == pid)
      && (p.Measured? ==> 1 <= p.capacity <= |s.slots|)
  }

  predicate ConsumerAt(s: Ring)
    requires CountersAgree(s)
  {
    match s.consumer
    case Polling => true
    case Found => s.popped < |s.scheduled| && s.slots[s.popIndex].published
    case Running => s.popped < |s.scheduled| && s.slots[s.popIndex].published
    case Unwinding => s.popped < |s.scheduled| && s.slots[s.popIndex].published
    case Emptied => s.popped < |s.scheduled| && s.slots[s.popIndex] == Slot(Vacant, true)
    case Lowered => true
  }

  /** An outstanding ticket is either published with its own action or still in the hands of its owner. */
  predicate OutstandingAgree(s: Ring)
    requires CountersAgree(s)
  {
    forall t: nat {:trigger Index(t, |s.slots|)} | s.lowered <= t < |s.scheduled| && t < s.lowered + |s.slots| ::
      var slot := s.slots[Index(t, |s.slots|)];
      && (slot.published && !(s.consumer.Emptied? && t == s.popped) ==> slot.contents == Holds(s.scheduled[t]))
      && (!slot.published ==>
            && s.owners[t] in s.producers
            && HoldsTicket(s.producers[s.owners[t]])
            && s.producers[s.owners[t]].ticket == t)
  }

  /** A ticket a ring or more ahead has no slot of its own yet, and is in the hands of its owner. */
  predicate BeyondAgree(s: Ring)
    requires CountersAgree(s)
  {
    forall t: nat {:trigger s.owners[t]} | s.lowered + |s.slots| <= t < |s.scheduled| ::
      && s.owners[t] in s.producers
      && s.producers[s.owners[t]].Reserved?
      && s.producers[s.owners[t]].ticket == t
  }

  /** Every slot that no outstanding ticket uses is empty. */
  predicate FreeSlotsEmpty(s: Ring)
    requires CountersAgree(s)
  {
    forall t: nat {:trigger Index(t, |s.slots|)} | |s.scheduled| <= t < s.lowered + |s.slots| ::
      s.slots[Index(t, |s.slots|)] == Slot(Vacant, false)
  }

  predicate ExecutedInOrder(s: Ring) {
    && |s.executed| == (if s.consumer.Polling? || s.consumer.Found? then s.popped else s.popped + 1)
    && s.executed <= s.scheduled
  }

  predicate Inv(s: Ring) {
    && CountersAgree(s) && ProducersAgree(s) && ConsumerAt(s)
    && OutstandingAgree(s) && BeyondAgree(s) && FreeSlotsEmpty(s) && ExecutedInOrder(s)
  }

  lemma NextIndex(ticket: nat, size: nat)
    requires size > 0
    ensures Index(ticket + 1, size) == (Index(ticket, size) + 1) % size
  {
    NextResidue(ticket, size);
  }

  /** Within a window of one ring length, only the ticket itself uses its slot. */
  lemma OnlyInWindow(low: nat, ticket: nat, size: nat)
    requires size > 0 && low <= ticket < low + size
    ensures forall t: nat {:trigger Index(t, size)} | low <= t < low + size && t != ticket :: Index(t, size) != Index(ticket, size)
  {
    forall t: nat | low <= t < low + size && t != ticket
      ensures Index(t, size) != Index(ticket, size)
    {
      if t < ticket { DistinctResidue(t, ticket, size); } else { DistinctResidue(ticket, t, size); }
    }
  }

  // ----- every step keeps the invariant

  lemma InitEstablishesInv(size: nat)
    requires size > 0
    ensures Inv(Init(size))
  {}

  /** The ring is the same but for an activation that holds no ticket. */
  ghost predicate Beside(s: Ring, s': Ring, pid: Activation) {
    && s' == s.(producers := s'.producers, minCapacity := s'.minCapacity)
    && (pid in s.producers ==> !HoldsTicket(s.producers[pid]))
    && forall q | q in s.producers && q != pid :: q in s'.producers && s'.producers[q] == s.producers[q]
  }

  lemma BesideKeepsTickets(s: Ring, s': Ring, pid: Activation)
    requires Inv(s) && Beside(s, s', pid) && CountersAgree(s')
    ensures ConsumerAt(s') && OutstandingAgree(s') && BeyondAgree(s') && FreeSlotsEmpty(s') && ExecutedInOrder(s')
  {}

  lemma LoadKeepsInv(s: Ring, pid: Activation, action: Action)
    requires Inv(s) && pid !in s.producers
    ensures Inv(Apply(s, Load(pid, action)))
  {
    BesideKeepsTickets(s, Apply(s, Load(pid, action)), pid);
  }

  lemma SwapFailsKeepsInv(s: Ring, pid: Activation)
    requires Inv(s) && pid in s.producers && s.producers[pid].Loaded?
    ensures Inv(Apply(s, SwapFails(pid)))
  {
    BesideKeepsTickets(s, Apply(s, SwapFails(pid)), pid);
  }

  lemma SwapKeepsProducers(s: Ring, pid: Activation)
    requires Inv(s) && Enabled(s, SwapSucceeds(pid))
    ensures CountersAgree(Apply(s, SwapSucceeds(pid))) && ProducersAgree(Apply(s, SwapSucceeds(pid)))
  {
    NextIndex(|s.scheduled|, |s.slots|);
  }

  lemma SwapKeepsTickets(s: Ring, pid: Activation)
    requires Inv(s) && Enabled(s, SwapSucceeds(pid)) && CountersAgree(Apply(s, SwapSucceeds(pid)))
    ensures OutstandingAgree(Apply(s, SwapSucceeds(pid))) && BeyondAgree(Apply(s, SwapSucceeds(pid)))
    ensures FreeSlotsEmpty(Apply(s, SwapSucceeds(pid)))
  {
  }

  /** The swap compares indices, not tickets; whichever ticket was loaded, the slot is the right one. */
  lemma SwapKeepsInv(s: Ring, pid: Activation)
    requires Inv(s) && Enabled(s, SwapSucceeds(pid))
    ensures Inv(Apply(s, SwapSucceeds(pid)))
  {
    SwapKeepsProducers(s, pid);
    SwapKeepsTickets(s, pid);
  }

  /** The owner of a reservation moves on: it changes its own slot and nothing else. */
  predicate OwnerMoves(s: Ring, pid: Activation, p': Producer, slot': Slot)
    requires Inv(s)
  {
    && pid in s.producers && HoldsTicket(s.producers[pid]) && s.producers[pid].ticket < s.lowered + |s.slots|
    && var p := s.producers[pid];
    && !p'.Loaded? && p'.index == p.index && p'.ticket == p.ticket
    && if HoldsTicket(p') then p'.action == p.action && SlotFollows(slot', p')
       else p'.Published? && slot' == Slot(Holds(p.action), true)
  }

  function Moved(s: Ring, pid: Activation, p': Producer, slot': Slot): Ring
    requires Inv(s) && OwnerMoves(s, pid, p', slot')
  {
    s.(producers := s.producers[pid := p'], slots := s.slots[p'.index := slot'])
  }

  lemma MoveKeepsProducers(s: Ring, pid: Activation, p': Producer, slot': Slot)
    requires Inv(s) && OwnerMoves(s, pid, p', slot')
    ensures CountersAgree(Moved(s, pid, p', slot')) && ProducersAgree(Moved(s, pid, p', slot'))
  {
    OnlyInWindow(s.lowered, p'.ticket, |s.slots|);
  }

  lemma MoveKeepsSlots(s: Ring, pid: Activation, p': Producer, slot': Slot)
    requires Inv(s) && OwnerMoves(s, pid, p', slot')
    ensures var s' := Moved(s, pid, p', slot');
            CountersAgree(s') && ConsumerAt(s') && OutstandingAgree(s') && BeyondAgree(s') && FreeSlotsEmpty(s')
  {
    OnlyInWindow(s.lowered, p'.ticket, |s.slots|);
  }

  lemma MoveKeepsInv(s: Ring, pid: Activation, p': Producer, slot': Slot)
    requires Inv(s) && OwnerMoves(s, pid, p', slot')
    ensures Inv(Moved(s, pid, p', slot'))
  {
    MoveKeepsProducers(s, pid, p', slot');
    MoveKeepsSlots(s, pid, p', slot');
  }

  lemma StartFillKeepsInv(s: Ring, pid: Activation)
    requires Inv(s) && Enabled(s, StartFill(pid)) && FillsInside(s, StartFill(pid))
    ensures Inv(Apply(s, StartFill(pid)))
  {
    var p := s.producers[pid];
    MoveKeepsInv(s, pid, Filling(p.action, p.index, p.ticket), Slot(Torn, false));
  }

  lemma EndFillKeepsInv(s: Ring, pid: Activation)
    requires Inv(s) && Enabled(s, EndFill(pid))
    ensures Inv(Apply(s, EndFill(pid)))
  {
    var p := s.producers[pid];
    MoveKeepsInv(s, pid, Filled(p.action, p.index, p.ticket), Slot(Holds(p.action), false));
  }

  /** The flag is still down whenever the program asserts so. */
  lemma CheckKeepsInv(s: Ring, pid: Activation)
    requires Inv(s) && Enabled(s, Check(pid))
    ensures Inv(Apply(s, Check(pid)))
  {
    var p := s.producers[pid];
    assert s.slots[p.index := s.slots[p.index]] == s.slots;
    MoveKeepsInv(s, pid, Checked(p.action, p.index, p.ticket), s.slots[p.index]);
  }

  lemma PublishKeepsInv(s: Ring, pid: Activation)
    requires Inv(s) && Enabled(s, Publish(pid))
    ensures Inv(Apply(s, Publish(pid)))
  {
    var p := s.producers[pid];
    MoveKeepsInv(s, pid, Published(p.index, p.ticket), Slot(Holds(p.action), true));
  }

  lemma MeasureKeepsInv(s: Ring, pid: Activation)
    requires Inv(s) && Enabled(s, Measure(pid))
    ensures Inv(Apply(s, Measure(pid)))
  {
    var capacity := Apply(s, Measure(pid)).producers[pid].capacity;
    AnnouncerKeepsInv(s, pid, Measured(s.producers[pid].index, s.producers[pid].ticket, capacity));
  }

  /** An activation that has published its slot moves on. */
  lemma AnnouncerKeepsInv(s: Ring, pid: Activation, p': Producer)
    requires Inv(s) && pid in s.producers && Announcing(s.producers[pid]) && Announcing(p')
    requires p'.index == s.producers[pid].index && p'.ticket == s.producers[pid].ticket
    requires p'.Measured? ==> 1 <= p'.capacity <= |s.slots|
    ensures Inv(s.(producers := s.producers[pid := p']))
  {
    BesideKeepsTickets(s, s.(producers := s.producers[pid := p']), pid);
  }

  lemma StoreKeepsInv(s: Ring, pid: Activation)
    requires Inv(s) && Enabled(s, Store(pid))
    ensures Inv(Apply(s, Store(pid)))
  {
    BesideKeepsTickets(s, Apply(s, Store(pid)), pid);
  }

  lemma ReturnKeepsInv(s: Ring, pid: Activation)
    requires Inv(s) && Enabled(s, Return(pid))
    ensures Inv(Apply(s, Return(pid)))
  {
    BesideKeepsTickets(s, Apply(s, Return(pid)), pid);
  }

  lemma ConsumeKeepsInv(s: Ring, step: Step)
    requires Inv(s) && (step.Poll? || step.Start? || step.Finish? || step.Empty?) && Enabled(s, step)
    ensures Inv(Apply(s, step))
  {
    if s.popped < |s.scheduled| {
      OnlyInWindow(s.lowered, s.popped, |s.slots|);
    }
  }

  /** Where the other tickets are, lowering the flag of the head changes nothing. */
  lemma LowerLeavesOthers(s: Ring, t: nat)
    requires Inv(s) && Enabled(s, Lower) && s.popped < t < s.popped + |s.slots|
    ensures Apply(s, Lower).slots[Index(t, |s.slots|)] == s.slots[Index(t, |s.slots|)]
  {
    DistinctResidue(s.popped, t, |s.slots|);
  }

  /** The slot of the head is empty for the ticket one ring ahead, which comes inside by this. */
  lemma LowerEmptiesSlot(s: Ring)
    requires Inv(s) && Enabled(s, Lower)
    ensures Apply(s, Lower).slots[Index(s.popped + |s.slots|, |s.slots|)] == Slot(Vacant, false)
  {
    FullTurn(s.popped, |s.slots|);
  }

  lemma LowerKeepsProducers(s: Ring)
    requires Inv(s) && Enabled(s, Lower)
    ensures CountersAgree(Apply(s, Lower)) && ProducersAgree(Apply(s, Lower))
  {
    var s' := Apply(s, Lower);
    LowerEmptiesSlot(s);
    forall pid | pid in s.producers && HoldsTicket(s.producers[pid])
      ensures
        var p := s.producers[pid];
        && s'.lowered <= p.ticket
        && if p.ticket < s'.lowered + |s.slots| then SlotFollows(s'.slots[p.index], p) else p.Reserved?
    {
      var t := s.producers[pid].ticket;
      assert s.popIndex == Index(s.popped, |s.slots|);
      if s.popped < t < s.popped + |s.slots| {
        LowerLeavesOthers(s, t);
      }
    }
  }

  lemma LowerKeepsTickets(s: Ring)
    requires Inv(s) && Enabled(s, Lower)
    ensures CountersAgree(Apply(s, Lower)) && OutstandingAgree(Apply(s, Lower)) && BeyondAgree(Apply(s, Lower))
  {
    var s' := Apply(s, Lower);
    LowerEmptiesSlot(s);
    forall t: nat {:trigger Index(t, |s.slots|)} | s.popped < t < s.popped + |s.slots|
      ensures s'.slots[Index(t, |s.slots|)] == s.slots[Index(t, |s.slots|)]
    {
      LowerLeavesOthers(s, t);
    }
    if s.popped + |s.slots| < |s.scheduled| {
      assert s.owners[s.popped + |s.slots|] in s.producers;
    }
  }

  lemma LowerKeepsFree(s: Ring)
    requires Inv(s) && Enabled(s, Lower)
    ensures CountersAgree(Apply(s, Lower)) && FreeSlotsEmpty(Apply(s, Lower))
  {
    var s' := Apply(s, Lower);
    LowerEmptiesSlot(s);
    forall t: nat {:trigger Index(t, |s.slots|)} | s.popped < t < s.popped + |s.slots|
      ensures s'.slots[Index(t, |s.slots|)] == s.slots[Index(t, |s.slots|)]
    {
      LowerLeavesOthers(s, t);
    }
  }

  lemma LowerKeepsInv(s: Ring)
    requires Inv(s) && Enabled(s, Lower)
    ensures Inv(Apply(s, Lower))
  {
    LowerKeepsProducers(s);
    LowerKeepsTickets(s);
    LowerKeepsFree(s);
  }

  lemma AdvanceKeepsInv(s: Ring)
    requires Inv(s) && Enabled(s, Advance)
    ensures Inv(Apply(s, Advance))
  {
    NextIndex(s.popped, |s.slots|);
  }

  lemma StepKeepsInv(s: Ring, step: Step)
    requires Inv(s) && Enabled(s, step) && FillsInside(s, step)
    ensures Inv(Apply(s, step))
  {
    match step
    case Load(pid, action) => LoadKeepsInv(s, pid, action);
    case SwapSucceeds(pid) => SwapKeepsInv(s, pid);
    case SwapFails(pid) => SwapFailsKeepsInv(s, pid);
    case StartFill(pid) => StartFillKeepsInv(s, pid);
    case EndFill(pid) => EndFillKeepsInv(s, pid);
    case Check(pid) => CheckKeepsInv(s, pid);
    case Publish(pid) => PublishKeepsInv(s, pid);
    case Measure(pid) => MeasureKeepsInv(s, pid);
    case Store(pid) => StoreKeepsInv(s, pid);
    case Return(pid) => ReturnKeepsInv(s, pid);
    case Lower => LowerKeepsInv(s);
    case Advance => AdvanceKeepsInv(s);
    case _ => ConsumeKeepsInv(s, step);
  }

  lemma {:induction false} RunKeepsInv(s: Ring, steps: seq<Step>)
    requires Inv(s) && IsRun(s, steps) && StaysBounded(s, steps)
    ensures Inv(After(s, steps)) && |After(s, steps).slots| == |s.slots|
    decreases |steps|
  {
    if steps != [] {
      StepKeepsInv(s, steps[0]);
      RunKeepsInv(Apply(s, steps[0]), steps[1..]);
    }
  }

  // ----- what a run does

  /** `given` remembers the argument of every activation that has not swapped yet. */
  predicate Remembers(s: Ring, given: map<Activation, Action>) {
    forall pid | pid in s.producers && s.producers[pid].Loaded? :: pid in given && given[pid] == s.producers[pid].action
  }

  lemma StepSchedules(s: Ring, step: Step, given: map<Activation, Action>)
    requires IndicesInRange(s) && Enabled(s, step) && Remembers(s, given)
    ensures Remembers(Apply(s, step), Given(step, given))
    ensures Apply(s, step).scheduled == s.scheduled + (if step.SwapSucceeds? && step.pid in given then [given[step.pid]] else [])
  {}

  lemma {:induction false} RunSchedules(s: Ring, steps: seq<Step>, given: map<Activation, Action>)
    requires IsRun(s, steps) && Remembers(s, given)
    ensures After(s, steps).scheduled == s.scheduled + Scheduled(steps, given)
    decreases |steps|
  {
    if steps != [] {
      var s', given' := Apply(s, steps[0]), Given(steps[0], given);
      StepSchedules(s, steps[0], given);
      RunSchedules(s', steps[1..], given');
      calc {
        After(s, steps).scheduled;
        s'.scheduled + Scheduled(steps[1..], given');
        s.scheduled + Scheduled(steps, given);
      }
    }
  }

  /**
   The main result: in every interleaving in which no producer fills a slot a ring ahead, no assertion of
   the program fails, and the actions started so far are the actions scheduled, each exactly once, in the
   order of their compare-and-swaps, whether they returned, threw or scheduled more.
   */
  lemma ExecutesInSwapOrder(size: nat, steps: seq<Step>)
    requires size > 0 && IsRun(Init(size), steps) && StaysBounded(Init(size), steps)
    ensures !After(Init(size), steps).failed
    ensures After(Init(size), steps).executed <= Scheduled(steps, map[])
  {
    InitEstablishesInv(size);
    RunKeepsInv(Init(size), steps);
    RunSchedules(Init(size), steps, map[]);
  }

  /** When every Schedule has returned, an idle consumer has executed everything; nothing is lost in the ring. */
  lemma IdleMeansAllExecuted(size: nat, steps: seq<Step>)
    requires size > 0 && IsRun(Init(size), steps) && StaysBounded(Init(size), steps)
    requires After(Init(size), steps).producers == map[] && After(Init(size), steps).consumer.Polling?
    ensures IndicesInRange(After(Init(size), steps))
    ensures IsIdle(After(Init(size), steps)) <==> After(Init(size), steps).executed == Scheduled(steps, map[])
  {
    InitEstablishesInv(size);
    RunKeepsInv(Init(size), steps);
    RunSchedules(Init(size), steps, map[]);
    IdleIsHeadUnpublished(After(Init(size), steps));
  }

  /** Exactly when the dispatcher looks idle to its consumer, later slots published or not. */
  lemma IdleIsHeadUnpublished(s: Ring)
    requires Inv(s) && s.consumer.Polling?
    ensures IsIdle(s) <==>
      || s.popped == |s.scheduled|
      || (s.owners[s.popped] in s.producers
          && HoldsTicket(s.producers[s.owners[s.popped]])
          && s.producers[s.owners[s.popped]].ticket == s.popped)
  {
    assert s.popIndex == Index(s.popped, |s.slots|);
  }

  /**
   A stale index is harmless: a swap that succeeds long after its load, the push index having gone round the
   ring in between, still reserves the slot of the ticket it takes, and that slot is empty unless the ring is full.
   */
  lemma StaleSwapIsHarmless(s: Ring, pid: Activation)
    requires Inv(s) && Enabled(s, SwapSucceeds(pid))
    ensures Apply(s, SwapSucceeds(pid)).producers[pid].ticket == |s.scheduled|
    ensures Apply(s, SwapSucceeds(pid)).producers[pid].index == Index(|s.scheduled|, |s.slots|)
    ensures Outstanding(s) < |s.slots| ==> s.slots[s.producers[pid].index] == Slot(Vacant, false)
    ensures s.producers[pid].loadedAt <= |s.scheduled| && (|s.scheduled| - s.producers[pid].loadedAt) % |s.slots| == 0
  {
    var n, t, u := |s.slots|, s.producers[pid].loadedAt, |s.scheduled|;
    assert Index(t, n) == Index(u, n);
    EqualResidues(t, u, n);
  }

  /**
   The capacity a push measures is the number of slots the consumer had not still to pass before it, exactly
   if its own ticket lies in the ring that starts at the pop index when that is read: the consumer has not
   overtaken it, and is not caught between lowering a flag and advancing past it.
   */
  lemma CapacityIsExactUnlessOvertaken(s: Ring, pid: Activation)
    requires Inv(s) && Enabled(s, Measure(pid))
    ensures Capacity(|s.slots|, s.popIndex, s.producers[pid].index) == |s.slots| - (s.producers[pid].ticket - s.popped)
       <==> s.popped <= s.producers[pid].ticket < s.popped + |s.slots|
  {
    var n, t, h := |s.slots|, s.producers[pid].ticket, s.popped;
    if h <= t < h + n {
      ResidueOfDistance(h, t, n);
    }
  }

  // ----- why the bound is needed

  lemma {:induction false} Extend(s: Ring, steps: seq<Step>, step: Step)
    requires IsRun(s, steps) && IndicesInRange(After(s, steps)) && Enabled(After(s, steps), step)
    requires IndicesInRange(Apply(After(s, steps), step))
    ensures IsRun(s, steps + [step]) && After(s, steps + [step]) == Apply(After(s, steps), step)
    decreases |steps|
  {
    if steps == [] {
      assert (steps + [step])[1..] == [];
    } else {
      Extend(Apply(s, steps[0]), steps[1..], step);
      assert (steps + [step])[1..] == steps[1..] + [step];
    }
  }

  /** A producer is a ring or more ahead exactly if a ticket before its own still uses the slot it is about to fill. */
  lemma InsideIsUnused(s: Ring, step: Step)
    requires Inv(s) && Enabled(s, step)
    ensures FillsInside(s, step) <==> FillsUnused(s, step)
  {
    if step.StartFill? {
      var n, ticket := |s.slots|, s.producers[step.pid].ticket;
      if ticket < s.lowered + n {
        OnlyInWindow(s.lowered, ticket, n);
      } else {
        FullTurn(ticket - n, n);
        assert Index(ticket - n, n) == s.producers[step.pid].index;
      }
    }
  }

  /** The bound is exact: a run keeps it if and only if no producer ever writes to a slot that is still in use. */
  lemma {:induction false} BoundedNeverOverwrites(s: Ring, steps: seq<Step>)
    requires Inv(s) && IsRun(s, steps)
    ensures StaysBounded(s, steps) <==> NeverOverwrites(s, steps)
    decreases |steps|
  {
    if steps != [] {
      InsideIsUnused(s, steps[0]);
      if FillsInside(s, steps[0]) {
        StepKeepsInv(s, steps[0]);
        BoundedNeverOverwrites(Apply(s, steps[0]), steps[1..]);
      }
    }
  }

  lemma Reach(s: Ring, steps: seq<Step>, here: Ring, step: Step) returns (longer: seq<Step>, there: Ring)
    requires IsRun(s, steps) && After(s, steps) == here && IndicesInRange(here) && Enabled(here, step)
    requires IndicesInRange(Apply(here, step))
    ensures IsRun(s, longer) && After(s, longer) == there && there == Apply(here, step)
    ensures longer == steps + [step]
  {
    Extend(s, steps, step);
    longer, there := steps + [step], Apply(here, step);
  }

  // ----- what a fill outside the bound leads to

  /** Steps that fill nothing a ring ahead, and after which an assertion of the program failed. */
  ghost predicate Fails(s: Ring, steps: seq<Step>) {
    IsRun(s, steps) && StaysBounded(s, steps) && After(s, steps).failed
  }

  /** The ticket that uses the slot of this one within the ring, before it. */
  lemma {:induction false} IntoWindow(low: nat, ticket: nat, size: nat) returns (inside: nat)
    requires size > 0 && low + size <= ticket
    ensures low <= inside < low + size && inside < ticket && Index(inside, size) == Index(ticket, size)
    decreases ticket
  {
    FullTurn(ticket - size, size);
    inside := ticket - size;
    if low + size <= inside {
      inside := IntoWindow(low, inside, size);
    }
  }

  /** Two activations with the same slot: one has filled it, and one, which is inside the bound, still holds its ticket. */
  ghost predicate Contended(s: Ring, late: Activation, early: Activation) {
    && IndicesInRange(s) && late in s.producers && early in s.producers && late != early
    && s.producers[late].Filled? && HoldsTicket(s.producers[early])
    && s.producers[late].index == s.producers[early].index
    && s.producers[early].ticket < s.lowered + |s.slots|
  }

  /** The early one fills the slot as well, and raises its flag. */
  lemma {:induction false} EarlyPublishes(s: Ring, steps: seq<Step>, here: Ring, late: Activation, early: Activation)
    returns (longer: seq<Step>, there: Ring)
    requires IsRun(s, steps) && StaysBounded(s, steps) && After(s, steps) == here && Contended(here, late, early)
    ensures IsRun(s, longer) && StaysBounded(s, longer) && After(s, longer) == there && IndicesInRange(there)
    ensures Enabled(there, Check(late)) && there.slots[there.producers[late].index].published
    decreases match here.producers[early] case Reserved(_, _, _) => 3 case Filling(_, _, _) => 2 case Filled(_, _, _) => 1 case _ => 0
  {
    var p := here.producers[early];
    if p.Checked? {
      longer, there := ReachBounded(s, steps, here, Publish(early));
    } else {
      var step := if p.Reserved? then StartFill(early) else if p.Filling? then EndFill(early) else Check(early);
      longer, there := ReachBounded(s, steps, here, step);
      longer, there := EarlyPublishes(s, longer, there, late, early);
    }
  }

  /** The check of the late one, made while the flag is up. */
  lemma CheckFails(s: Ring, steps: seq<Step>, here: Ring, late: Activation) returns (longer: seq<Step>)
    requires IsRun(s, steps) && StaysBounded(s, steps) && After(s, steps) == here && IndicesInRange(here)
    requires Enabled(here, Check(late)) && here.slots[here.producers[late].index].published
    ensures Fails(s, longer)
  {
    var there;
    longer, there := ReachBounded(s, steps, here, Check(late));
  }

  /** Whether the slot that is filled a ring ahead is published, or its earlier ticket is still in the hands of its owner. */
  lemma OutsideIsContended(s: Ring, pid: Activation) returns (early: Activation)
    requires Inv(s) && Enabled(s, StartFill(pid)) && !FillsInside(s, StartFill(pid))
    ensures s.slots[s.producers[pid].index].published || (
      && early in s.producers && early != pid && HoldsTicket(s.producers[early])
      && s.producers[early].index == s.producers[pid].index && s.producers[early].ticket < s.lowered + |s.slots|)
  {
    var ticket := IntoWindow(s.lowered, s.producers[pid].ticket, |s.slots|);
    assert Index(ticket, |s.slots|) == s.producers[pid].index;
    early := s.owners[ticket];
  }

  lemma OutsideFails(s: Ring, pid: Activation) returns (steps: seq<Step>)
    requires Inv(s) && Enabled(s, StartFill(pid)) && !FillsInside(s, StartFill(pid))
    ensures Fails(Apply(s, StartFill(pid)), steps)
  {
    var early := OutsideIsContended(s, pid);
    var filling := Apply(s, StartFill(pid));
    var here: Ring;
    steps, here := ReachBounded(filling, [], filling, EndFill(pid));
    if !here.slots[here.producers[pid].index].published {
      steps, here := EarlyPublishes(filling, steps, here, pid, early);
    }
    steps := CheckFails(filling, steps, here, pid);
  }

  /**
   The bound is exact for each fill: once a producer starts to fill its slot, the run can be continued, without any
   further fill a ring ahead, to a failed assertion if and only if this fill is a ring or more ahead.
   */
  lemma FillFailsExactly(s: Ring, pid: Activation)
    requires Inv(s) && Enabled(s, StartFill(pid))
    ensures !FillsInside(s, StartFill(pid)) <==> exists steps :: Fails(Apply(s, StartFill(pid)), steps)
  {
    if FillsInside(s, StartFill(pid)) {
      StepKeepsInv(s, StartFill(pid));
      InvNeverFails(Apply(s, StartFill(pid)));
    } else {
      var steps := OutsideFails(s, pid);
    }
  }

  lemma InvNeverFails(s: Ring)
    requires Inv(s)
    ensures forall steps :: !Fails(s, steps)
  {
    forall steps
      ensures !Fails(s, steps)
    {
      if IsRun(s, steps) && StaysBounded(s, steps) {
        RunKeepsInv(s, steps);
      }
    }
  }

  /** In no state of the run can an assertion fail later, as long as nothing else is filled a ring ahead. */
  ghost predicate NeverFails(s: Ring, steps: seq<Step>)
    requires IsRun(s, steps)
    decreases |steps|
  {
    && (forall rest :: !Fails(s, rest))
    && (steps != [] ==> NeverFails(Apply(s, steps[0]), steps[1..]))
  }

  /** The bound is exact for each run: a run keeps it if and only if it never makes a failed assertion possible. */
  lemma {:induction false} BoundedNeverFails(s: Ring, steps: seq<Step>)
    requires Inv(s) && IsRun(s, steps)
    ensures StaysBounded(s, steps) <==> NeverFails(s, steps)
    decreases |steps|
  {
    InvNeverFails(s);
    if steps != [] {
      if FillsInside(s, steps[0]) {
        StepKeepsInv(s, steps[0]);
        BoundedNeverFails(Apply(s, steps[0]), steps[1..]);
      } else {
        var rest := OutsideFails(s, steps[0].pid);
      }
    }
  }

  /**
   What the assertion is too late for: in any state in which the head waits to be executed and a producer a ring
   ahead fills its slot, the consumer may start the later action in the place of the first one, which is lost,
   before any assertion has failed.
   */
  lemma OverwrittenIsLost(s: Ring, pid: Activation) returns (steps: seq<Step>)
    requires Inv(s) && s.consumer.Polling? && s.slots[s.popIndex].published
    requires Enabled(s, StartFill(pid)) && s.producers[pid].index == s.popIndex
    ensures s.popped < |s.scheduled| && !FillsInside(s, StartFill(pid))
    ensures steps == [StartFill(pid), EndFill(pid), Poll, Start] && IsRun(s, steps) && !After(s, steps).failed
    ensures After(s, steps).scheduled == s.scheduled
    ensures After(s, steps).executed == s.scheduled[..s.popped] + [s.producers[pid].action]
  {
    HeadIsInUse(s, pid);
    var there: Ring;
    steps, there := Reach(s, [], s, StartFill(pid));
    steps, there := Reach(s, steps, there, EndFill(pid));
    steps, there := Reach(s, steps, there, Poll);
    steps, there := Reach(s, steps, there, Start);
  }

  lemma HeadIsInUse(s: Ring, pid: Activation)
    requires Inv(s) && s.consumer.Polling? && s.slots[s.popIndex].published
    requires Enabled(s, StartFill(pid)) && s.producers[pid].index == s.popIndex
    ensures s.popped < |s.scheduled| && !FillsInside(s, StartFill(pid))
    ensures s.executed == s.scheduled[..s.popped]
  {
    assert s.popIndex == Index(s.popped, |s.slots|);
  }

  function Numbered(n: nat): (r: seq<Action>)
    ensures |r| == n && forall i | 0 <= i < n :: r[i] == i
  {
    seq(n, i => i)
  }

  /** Activation 0 has published its action, the ones after it only hold a reservation. */
  ghost predicate Reserving(s: Ring, size: nat, n: nat) {
    && Inv(s) && |s.slots| == size && s.popped == 0 && s.lowered == 0
    && s.consumer.Polling? && s.slots[s.popIndex].published
    && n > 0 && s.scheduled == Numbered(n) && s.owners == Numbered(n)
    && 0 in s.producers && s.producers[0] == Published(0, 0) && s.minCapacity == size
    && (forall pid | pid in s.producers :: pid < n)
    && (n > 1 ==> n - 1 in s.producers && s.producers[n - 1].Reserved? && s.producers[n - 1].ticket == n - 1)
  }

  lemma ReserveFirst(size: nat) returns (steps: seq<Step>, there: Ring)
    requires size > 0
    ensures IsRun(Init(size), steps) && StaysBounded(Init(size), steps)
    ensures After(Init(size), steps) == there && Reserving(there, size, 1)
  {
    steps, there := ReachInside(Init(size), [], Init(size), Load(0, 0));
    steps, there := ReachInside(Init(size), steps, there, SwapSucceeds(0));
    steps, there := PublishFirst(Init(size), steps, there);
  }

  lemma PublishFirst(s: Ring, steps: seq<Step>, here: Ring) returns (longer: seq<Step>, there: Ring)
    requires IsRun(s, steps) && StaysBounded(s, steps) && After(s, steps) == here && Inv(here)
    requires here.producers.Keys == {0} && here.producers[0].Reserved? && here.producers[0].index == here.popIndex == 0
    requires here.producers[0].ticket == here.lowered == here.popped == 0 && here.consumer.Polling?
    ensures IsRun(s, longer) && StaysBounded(s, longer) && After(s, longer) == there && Inv(there)
    ensures there.producers == map[0 := Published(0, 0)] && there.popIndex == 0 && there.slots[0].published && |there.slots| == |here.slots|
    ensures there.(producers := here.producers, slots := here.slots, failed := here.failed) == here
  {
    longer, there := FillFirst(s, steps, here);
    longer, there := ReachInside(s, longer, there, Check(0));
    longer, there := RaiseFirst(s, longer, there);
  }

  lemma RaiseFirst(s: Ring, steps: seq<Step>, here: Ring) returns (longer: seq<Step>, there: Ring)
    requires IsRun(s, steps) && StaysBounded(s, steps) && After(s, steps) == here && Inv(here)
    requires here.producers.Keys == {0} && here.producers[0].Checked? && here.producers[0].index == here.producers[0].ticket == 0
    ensures IsRun(s, longer) && StaysBounded(s, longer) && After(s, longer) == there && Inv(there)
    ensures there.producers == map[0 := Published(0, 0)] && there.slots[0].published
    ensures |there.slots| == |here.slots| && there.(producers := here.producers, slots := here.slots) == here
  {
    longer, there := ReachInside(s, steps, here, Publish(0));
  }

  lemma FillFirst(s: Ring, steps: seq<Step>, here: Ring) returns (longer: seq<Step>, there: Ring)
    requires IsRun(s, steps) && StaysBounded(s, steps) && After(s, steps) == here && Inv(here)
    requires here.producers.Keys == {0} && here.producers[0].Reserved? && here.producers[0].index == here.producers[0].ticket == here.lowered == 0
    ensures IsRun(s, longer) && StaysBounded(s, longer) && After(s, longer) == there && Inv(there)
    ensures there.producers.Keys == {0} && there.producers[0].Filled? && there.producers[0].index == there.producers[0].ticket == 0
    ensures |there.slots| == |here.slots| && there.(producers := here.producers, slots := here.slots) == here
  {
    longer, there := ReachInside(s, steps, here, StartFill(0));
    longer, there := ReachInside(s, longer, there, EndFill(0));
  }

  lemma ReachBounded(s: Ring, steps: seq<Step>, here: Ring, step: Step) returns (longer: seq<Step>, there: Ring)
    requires IsRun(s, steps) && StaysBounded(s, steps) && After(s, steps) == here && IndicesInRange(here)
    requires Enabled(here, step) && FillsInside(here, step) && IndicesInRange(Apply(here, step))
    ensures IsRun(s, longer) && StaysBounded(s, longer) && After(s, longer) == there && there == Apply(here, step)
  {
    Extend(s, steps, step);
    BoundedOnwards(s, steps, step);
    longer, there := steps + [step], Apply(here, step);
  }

  lemma ReachInside(s: Ring, steps: seq<Step>, here: Ring, step: Step) returns (longer: seq<Step>, there: Ring)
    requires IsRun(s, steps) && StaysBounded(s, steps) && After(s, steps) == here
    requires Inv(here) && Enabled(here, step) && FillsInside(here, step)
    ensures IsRun(s, longer) && StaysBounded(s, longer) && After(s, longer) == there
    ensures there == Apply(here, step) && Inv(there)
  {
    StepKeepsInv(here, step);
    longer, there := ReachBounded(s, steps, here, step);
  }

  lemma {:induction false} BoundedOnwards(s: Ring, steps: seq<Step>, step: Step)
    requires IsRun(s, steps) && IndicesInRange(After(s, steps)) && Enabled(After(s, steps), step)
    requires IsRun(s, steps + [step])
    ensures StaysBounded(s, steps + [step]) <==> StaysBounded(s, steps) && FillsInside(After(s, steps), step)
    decreases |steps|
  {
    if steps == [] {
      assert (steps + [step])[1..] == [];
    } else {
      assert (steps + [step])[1..] == steps[1..] + [step];
      BoundedOnwards(Apply(s, steps[0]), steps[1..], step);
    }
  }

  lemma {:induction false} ReserveMore(size: nat, n: nat) returns (steps: seq<Step>, there: Ring)
    requires size > 0 && n > 0
    ensures IsRun(Init(size), steps) && StaysBounded(Init(size), steps)
    ensures After(Init(size), steps) == there && Reserving(there, size, n)
  {
    if n == 1 {
      steps, there := ReserveFirst(size);
    } else {
      steps, there := ReserveMore(size, n - 1);
      steps, there := ReserveNext(Init(size), steps, there, size, n - 1);
    }
  }

  lemma ReserveNext(s: Ring, steps: seq<Step>, here: Ring, size: nat, n: nat) returns (longer: seq<Step>, there: Ring)
    requires IsRun(s, steps) && StaysBounded(s, steps) && After(s, steps) == here && Reserving(here, size, n)
    ensures IsRun(s, longer) && StaysBounded(s, longer) && After(s, longer) == there && Reserving(there, size, n + 1)
  {
    ReservesNext(here, size, n);
    longer, there := ReachInside(s, steps, here, Load(n, n));
    longer, there := ReachInside(s, longer, there, SwapSucceeds(n));
  }

  lemma ReservesNext(s: Ring, size: nat, n: nat)
    requires Reserving(s, size, n)
    ensures Enabled(s, Load(n, n))
    ensures
      var s' := Apply(s, Load(n, n));
      Inv(s') ==> Enabled(s', SwapSucceeds(n)) && (Inv(Apply(s', SwapSucceeds(n))) ==> Reserving(Apply(s', SwapSucceeds(n)), size, n + 1))
  {
    assert Numbered(n + 1) == Numbered(n) + [n];
  }

  /**
   In a ring of any size, with one ticket more than slots: the last of the actions overwrites the first, and the
   consumer starts it in the first one's place before any assertion has failed.
   */
  lemma OverflowLosesAnAction(size: nat) returns (steps: seq<Step>)
    requires size > 0
    ensures IsRun(Init(size), steps) && !StaysBounded(Init(size), steps)
    ensures !After(Init(size), steps).failed
    ensures After(Init(size), steps).scheduled == Numbered(size + 1) && After(Init(size), steps).executed == [size]
  {
    var before, here := ReserveMore(size, size + 1);
    FullTurn(0, size);
    var last := OverwrittenIsLost(here, size);
    Concatenated(Init(size), before, last);
    BoundedPrefix(Init(size), before, last);
    steps := before + last;
  }

  /**
   A capacity that is wrong: the consumer executes and pops the only action before its producer measures, which
   then records that one slot was left, in a ring of any size of which all slots are free.
   */
  lemma OvertakenMeasuresOne(size: nat) returns (steps: seq<Step>)
    requires size > 1
    ensures IsRun(Init(size), steps) && StaysBounded(Init(size), steps)
    ensures Outstanding(After(Init(size), steps)) == 0 && |After(Init(size), steps).slots| == size
    ensures After(Init(size), steps).producers == map[0 := Measured(0, 0, 1)]
  {
    var here: Ring;
    steps, here := ReserveFirst(size);
    steps, here := StartFirst(Init(size), steps, here);
    steps, here := PopFirst(Init(size), steps, here);
    steps, here := MeasureFirst(Init(size), steps, here);
  }

  lemma StartFirst(s: Ring, steps: seq<Step>, here: Ring) returns (longer: seq<Step>, there: Ring)
    requires IsRun(s, steps) && StaysBounded(s, steps) && After(s, steps) == here && Inv(here)
    requires here.consumer.Polling? && here.slots[here.popIndex].published
    ensures IsRun(s, longer) && StaysBounded(s, longer) && After(s, longer) == there && Inv(there)
    ensures there.consumer.Running? && there.(consumer := here.consumer, executed := here.executed, failed := here.failed) == here
  {
    longer, there := ReachInside(s, steps, here, Poll);
    longer, there := ReachInside(s, longer, there, Start);
  }

  lemma PopFirst(s: Ring, steps: seq<Step>, here: Ring) returns (longer: seq<Step>, there: Ring)
    requires IsRun(s, steps) && StaysBounded(s, steps) && After(s, steps) == here && Inv(here) && here.consumer.Running?
    ensures IsRun(s, longer) && StaysBounded(s, longer) && After(s, longer) == there && Inv(there)
    ensures there.producers == here.producers && there.scheduled == here.scheduled && |there.slots| == |here.slots|
    ensures there.lowered == here.lowered + 1 && there.popped == here.popped + 1 && there.minCapacity == here.minCapacity
  {
    longer, there := EmptyFirst(s, steps, here);
    longer, there := ReachInside(s, longer, there, Lower);
    longer, there := ReachInside(s, longer, there, Advance);
  }

  lemma EmptyFirst(s: Ring, steps: seq<Step>, here: Ring) returns (longer: seq<Step>, there: Ring)
    requires IsRun(s, steps) && StaysBounded(s, steps) && After(s, steps) == here && Inv(here) && here.consumer.Running?
    ensures IsRun(s, longer) && StaysBounded(s, longer) && After(s, longer) == there && Inv(there)
    ensures there.consumer.Emptied? && |there.slots| == |here.slots| && there.(consumer := here.consumer, slots := here.slots) == here
  {
    longer, there := ReachInside(s, steps, here, Finish(false));
    longer, there := ReachInside(s, longer, there, Empty);
  }

  lemma MeasureFirst(s: Ring, steps: seq<Step>, here: Ring) returns (longer: seq<Step>, there: Ring)
    requires IsRun(s, steps) && StaysBounded(s, steps) && After(s, steps) == here && Inv(here)
    requires here.producers == map[0 := Published(0, 0)] && here.popped == 1 && |here.slots| > 1
    ensures IsRun(s, longer) && StaysBounded(s, longer) && After(s, longer) == there
    ensures there == here.(producers := map[0 := Measured(0, 0, 1)])
  {
    MeasuresOne(|here.slots|);
    longer, there := ReachInside(s, steps, here, Measure(0));
  }

  lemma MeasuresOne(size: nat)
    requires size > 1
    ensures Index(1, size) == 1 && Capacity(size, 1, 0) == 1
  {
    Residue(1, size, 0, 1);
    Residue(size, size, 1, 0);
  }

  lemma {:induction false} Concatenated(s: Ring, a: seq<Step>, b: seq<Step>)
    requires IsRun(s, a) && IsRun(After(s, a), b)
    ensures IsRun(s, a + b) && After(s, a + b) == After(After(s, a), b)
    decreases |a|
  {
    if a == [] {
      assert a + b == b;
    } else {
      Concatenated(Apply(s, a[0]), a[1..], b);
      assert (a + b)[1..] == a[1..] + b;
    }
  }

  lemma {:induction false} BoundedPrefix(s: Ring, a: seq<Step>, b: seq<Step>)
    requires IsRun(s, a) && IsRun(After(s, a), b) && IsRun(s, a + b)
    ensures StaysBounded(s, a + b) ==> StaysBounded(After(s, a), b)
    decreases |a|
  {
    if a == [] {
      assert a + b == b;
    } else {
      assert (a + b)[1..] == a[1..] + b;
      BoundedPrefix(Apply(s, a[0]), a[1..], b);
    }
  }
}
