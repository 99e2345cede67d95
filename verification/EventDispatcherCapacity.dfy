/** The smallest capacity the dispatcher reports: what it is, and how an interleaving makes it forget. */
module EventDispatcherCapacity {
  import opened Arithmetic
  import opened EventDispatcher

  /** The capacities measured during a run, in order. */
  function Capacities(s: Ring, steps: seq<Step>): seq<nat>
    requires IsRun(s, steps)
    decreases |steps|
  {
    if steps == [] then []
    else
      (if steps[0].Measure? then [Capacity(|s.slots|, s.popIndex, s.producers[steps[0].pid].index)] else [])
      + Capacities(Apply(s, steps[0]), steps[1..])
  }

  predicate NoneMeasured(s: Ring) {
    forall pid | pid in s.producers :: !s.producers[pid].Measured?
  }

  /** No producer computes a new minimum while another one has one that it did not store yet. */
  predicate OneAtATime(s: Ring, steps: seq<Step>)
    requires IsRun(s, steps)
    decreases |steps|
  {
    steps != [] ==> (steps[0].Measure? ==> NoneMeasured(s)) && OneAtATime(Apply(s, steps[0]), steps[1..])
  }

  /** The number is the least of the capacities and a first value. */
  predicate IsLeast(least: nat, first: nat, capacities: seq<nat>) {
    && (least == first || least in capacities)
    && least <= first
    && forall c | c in capacities :: least <= c
  }

  /** The least value that is stored, or about to be stored by the only producer that has one. */
  ghost predicate Tracks(s: Ring, least: nat) {
    && (NoneMeasured(s) ==> s.minCapacity == least)
    && (forall pid | pid in s.producers && s.producers[pid].Measured? :: s.producers[pid].capacity == least)
    && (forall p, q | p in s.producers && q in s.producers && s.producers[p].Measured? && s.producers[q].Measured? :: p == q)
  }

  lemma StepTracks(s: Ring, step: Step, least: nat) returns (least': nat)
    requires IndicesInRange(s) && Enabled(s, step) && Tracks(s, least)
    requires step.Measure? ==> NoneMeasured(s)
    ensures Tracks(Apply(s, step), least')
    ensures least' == if step.Measure? then Min(least, Capacity(|s.slots|, s.popIndex, s.producers[step.pid].index)) else least
  {
    var s' := Apply(s, step);
    least' := if step.Measure? then s'.producers[step.pid].capacity else least;
    match step
    case Measure(pid) => MeasureTracks(s, pid, least);
    case Store(pid) => StoreTracks(s, pid, least);
    case _ => OthersTrack(s, step, least);
  }

  lemma MeasureTracks(s: Ring, pid: Activation, least: nat)
    requires IndicesInRange(s) && Enabled(s, Measure(pid)) && Tracks(s, least) && NoneMeasured(s)
    ensures Tracks(Apply(s, Measure(pid)), Min(least, Capacity(|s.slots|, s.popIndex, s.producers[pid].index)))
  {
    var s' := Apply(s, Measure(pid));
    assert forall q | q in s'.producers && q != pid :: s'.producers[q] == s.producers[q];
    assert pid in s'.producers && s'.producers[pid].Measured?;
  }

  lemma StoreTracks(s: Ring, pid: Activation, least: nat)
    requires IndicesInRange(s) && Enabled(s, Store(pid)) && Tracks(s, least)
    ensures Tracks(Apply(s, Store(pid)), least)
  {
    var s' := Apply(s, Store(pid));
    assert forall q | q in s'.producers && q != pid :: s'.producers[q] == s.producers[q];
    assert s.producers[pid].Measured?;
  }

  lemma OthersTrack(s: Ring, step: Step, least: nat)
    requires IndicesInRange(s) && Enabled(s, step) && Tracks(s, least) && !step.Measure? && !step.Store?
    ensures Tracks(Apply(s, step), least)
  {
    var s' := Apply(s, step);
    assert s'.minCapacity == s.minCapacity;
    assert forall q | q in s'.producers && s'.producers[q].Measured? :: q in s.producers && s.producers[q] == s'.producers[q];
    assert forall q | q in s.producers && s.producers[q].Measured? :: q in s'.producers && s.producers[q] == s'.producers[q];
  }

  lemma LeastOnwards(least: nat, first: nat, capacity: nat, rest: seq<nat>)
    requires IsLeast(least, Min(first, capacity), rest)
    ensures IsLeast(least, first, [capacity] + rest)
  {
  }

  lemma {:induction false} RunTracks(s: Ring, steps: seq<Step>, first: nat) returns (least: nat)
    requires IsRun(s, steps) && OneAtATime(s, steps) && Tracks(s, first)
    ensures Tracks(After(s, steps), least) && IsLeast(least, first, Capacities(s, steps))
    decreases |steps|
  {
    if steps == [] {
      least := first;
    } else {
      var next := StepTracks(s, steps[0], first);
      least := RunTracks(Apply(s, steps[0]), steps[1..], next);
      if steps[0].Measure? {
        LeastOnwards(least, first, Capacity(|s.slots|, s.popIndex, s.producers[steps[0].pid].index), Capacities(Apply(s, steps[0]), steps[1..]));
      } else {
        assert [] + Capacities(Apply(s, steps[0]), steps[1..]) == Capacities(Apply(s, steps[0]), steps[1..]);
      }
    }
  }

  /** Without interleaved measurements the reported capacity is the least one that was measured, or the size of the ring. */
  lemma ReportsLeastCapacity(size: nat, steps: seq<Step>)
    requires size > 0 && IsRun(Init(size), steps) && OneAtATime(Init(size), steps)
    requires NoneMeasured(After(Init(size), steps))
    ensures IsLeast(After(Init(size), steps).minCapacity, size, Capacities(Init(size), steps))
  {
    var least := RunTracks(Init(size), steps, size);
  }

  // ----- when it is right in every state

  /** What each activation measured last. */
  function NowMeasured(s: Ring, step: Step, measured: map<Activation, nat>): map<Activation, nat>
    requires IndicesInRange(s) && Enabled(s, step)
  {
    if step.Measure? then measured[step.pid := Capacity(|s.slots|, s.popIndex, s.producers[step.pid].index)] else measured
  }

  /** The least value, with what this step stores. */
  function NowLeast(step: Step, measured: map<Activation, nat>, least: nat): nat {
    if step.Store? && step.pid in measured then Min(least, measured[step.pid]) else least
  }

  /** In every state of the run, the reported capacity is the least of those whose activations stored. */
  predicate AlwaysLeast(s: Ring, steps: seq<Step>, measured: map<Activation, nat>, least: nat)
    requires IsRun(s, steps)
    decreases |steps|
  {
    && s.minCapacity == least
    && (steps != [] ==>
          AlwaysLeast(Apply(s, steps[0]), steps[1..], NowMeasured(s, steps[0], measured), NowLeast(steps[0], measured, least)))
  }

  /** No activation stores more than is there. */
  predicate NeverRaises(s: Ring, steps: seq<Step>)
    requires IsRun(s, steps)
    decreases |steps|
  {
    steps != [] ==>
      && (steps[0].Store? ==> s.producers[steps[0].pid].capacity <= s.minCapacity)
      && NeverRaises(Apply(s, steps[0]), steps[1..])
  }

  /** A value that waits to be stored is the measured one, or one that was there and is not less than what is there now. */
  ghost predicate Waits(s: Ring, measured: map<Activation, nat>) {
    forall pid | pid in s.producers && s.producers[pid].Measured? ::
      && pid in measured
      && s.producers[pid].capacity <= measured[pid]
      && (s.producers[pid].capacity == measured[pid] || s.producers[pid].capacity >= s.minCapacity)
  }

  lemma StepWaits(s: Ring, step: Step, measured: map<Activation, nat>)
    requires IndicesInRange(s) && Enabled(s, step) && Waits(s, measured)
    requires step.Store? ==> s.producers[step.pid].capacity <= s.minCapacity
    ensures Waits(Apply(s, step), NowMeasured(s, step, measured))
    ensures Apply(s, step).minCapacity == NowLeast(step, measured, s.minCapacity)
  {
    var s' := Apply(s, step);
    match step
    case Measure(pid) =>
      assert forall q | q in s'.producers && q != pid :: s'.producers[q] == s.producers[q];
    case Store(pid) =>
      assert forall q | q in s'.producers && q != pid :: s'.producers[q] == s.producers[q];
    case _ =>
      assert s'.minCapacity == s.minCapacity;
      assert forall q | q in s'.producers && s'.producers[q].Measured? :: q in s.producers && s.producers[q] == s'.producers[q];
  }

  lemma {:induction false} AlwaysLeastExactly(s: Ring, steps: seq<Step>, measured: map<Activation, nat>)
    requires IsRun(s, steps) && Waits(s, measured)
    ensures AlwaysLeast(s, steps, measured, s.minCapacity) <==> NeverRaises(s, steps)
    decreases |steps|
  {
    if steps != [] {
      var next := Apply(s, steps[0]);
      if steps[0].Store? && s.producers[steps[0].pid].capacity > s.minCapacity {
        assert next.minCapacity > s.minCapacity >= NowLeast(steps[0], measured, s.minCapacity);
      } else {
        StepWaits(s, steps[0], measured);
        AlwaysLeastExactly(next, steps[1..], NowMeasured(s, steps[0], measured));
      }
    }
  }

  /** Over every run: what is reported is right in every state if and only if no activation stores more than is there. */
  lemma ReportsLeastExactly(size: nat, steps: seq<Step>)
    requires size > 0 && IsRun(Init(size), steps)
    ensures AlwaysLeast(Init(size), steps, map[], size) <==> NeverRaises(Init(size), steps)
  {
    AlwaysLeastExactly(Init(size), steps, map[]);
  }

  // ----- how the least capacity is lost

  /** Two activations that are about to measure, the first one for slot 0 and the second one for slot 1. */
  ghost predicate BothPublished(s: Ring, size: nat) {
    && Inv(s) && |s.slots| == size && s.popIndex == 0 && s.minCapacity == size
    && 0 in s.producers && s.producers[0] == Published(0, 0)
    && 1 in s.producers && s.producers[1] == Published(1, 1)
  }

  /** One step of the second activation, on its way to publish. */
  lemma SecondOnwards(s: Ring, steps: seq<Step>, here: Ring, step: Step) returns (longer: seq<Step>, there: Ring)
    requires IsRun(s, steps) && StaysBounded(s, steps) && After(s, steps) == here && Inv(here)
    requires step in {StartFill(1), EndFill(1), Check(1), Publish(1)} && Enabled(here, step) && FillsInside(here, step)
    ensures IsRun(s, longer) && StaysBounded(s, longer) && After(s, longer) == there && there == Apply(here, step) && Inv(there)
    ensures |there.slots| == |here.slots| && there.popIndex == here.popIndex && there.minCapacity == here.minCapacity
    ensures 0 in here.producers ==> 0 in there.producers && there.producers[0] == here.producers[0]
    ensures 1 in there.producers && there.producers[1].index == here.producers[1].index && there.producers[1].ticket == here.producers[1].ticket
  {
    longer, there := ReachInside(s, steps, here, step);
  }

  lemma PublishSecond(s: Ring, steps: seq<Step>, here: Ring, size: nat) returns (longer: seq<Step>, there: Ring)
    requires IsRun(s, steps) && StaysBounded(s, steps) && After(s, steps) == here && size > 1 && Reserving(here, size, 2)
    ensures IsRun(s, longer) && StaysBounded(s, longer) && After(s, longer) == there && BothPublished(there, size)
  {
    Residue(0, size, 0, 0);
    Residue(1, size, 0, 1);
    assert here.producers[1].index == Index(1, size) && here.popIndex == Index(0, size);
    longer, there := SecondOnwards(s, steps, here, StartFill(1));
    longer, there := SecondOnwards(s, longer, there, EndFill(1));
    longer, there := SecondOnwards(s, longer, there, Check(1));
    longer, there := SecondOnwards(s, longer, there, Publish(1));
  }

  lemma TwoCapacities(size: nat)
    requires size > 1
    ensures Capacity(size, 0, 0) == size && Capacity(size, 0, 1) == size - 1
  {
    Residue(size - 1, size, 0, size - 1);
    Residue(size - 2, size, 0, size - 2);
  }

  lemma BothMeasure(s: Ring, size: nat)
    requires size > 1 && BothPublished(s, size)
    ensures Enabled(s, Measure(0))
    ensures
      var a := Apply(s, Measure(0));
      && IndicesInRange(a) && Enabled(a, Measure(1))
      && var b := Apply(a, Measure(1));
      && IndicesInRange(b) && b == s.(producers := s.producers[0 := Measured(0, 0, size)][1 := Measured(1, 1, size - 1)])
  {
    TwoCapacities(size);
  }

  /** A run with one more step in front. */
  lemma Prepended(s: Ring, step: Step, steps: seq<Step>)
    requires IndicesInRange(s) && Enabled(s, step) && FillsInside(s, step)
    requires IsRun(Apply(s, step), steps) && StaysBounded(Apply(s, step), steps)
    ensures IsRun(s, [step] + steps) && StaysBounded(s, [step] + steps)
    ensures After(s, [step] + steps) == After(Apply(s, step), steps)
    ensures Capacities(s, [step] + steps) ==
      (if step.Measure? then [Capacity(|s.slots|, s.popIndex, s.producers[step.pid].index)] else []) + Capacities(Apply(s, step), steps)
  {
    assert ([step] + steps)[1..] == steps;
  }

  lemma StoresLast(s: Ring, size: nat)
    requires IndicesInRange(s) && |s.slots| == size > 1 && !s.failed
    requires 0 in s.producers && s.producers[0] == Measured(0, 0, size)
    requires 1 in s.producers && s.producers[1] == Measured(1, 1, size - 1)
    ensures var steps := [Store(1)] + ([Store(0)] + []);
      && IsRun(s, steps) && StaysBounded(s, steps) && Capacities(s, steps) == []
      && After(s, steps).minCapacity == size && !After(s, steps).failed
      && After(s, steps).producers == s.producers[0 := Requesting(0, 0)][1 := Requesting(1, 1)]
  {
    var c := Apply(s, Store(1));
    assert 0 in c.producers && c.producers[0] == Measured(0, 0, size);
    Prepended(c, Store(0), []);
    Prepended(s, Store(1), [Store(0)] + []);
    var d := Apply(c, Store(0));
    assert d.producers == s.producers[0 := Requesting(0, 0)][1 := Requesting(1, 1)];
  }

  /** Both measure; the second activation stores first, and the first one stores over it. */
  lemma BothStore(s: Ring, size: nat) returns (steps: seq<Step>)
    requires size > 1 && BothPublished(s, size)
    ensures IsRun(s, steps) && StaysBounded(s, steps) && Capacities(s, steps) == [size, size - 1]
    ensures After(s, steps).minCapacity == size && !After(s, steps).failed
    ensures After(s, steps).producers == s.producers[0 := Requesting(0, 0)][1 := Requesting(1, 1)]
  {
    BothMeasure(s, size);
    TwoCapacities(size);
    var a := Apply(s, Measure(0));
    var b := Apply(a, Measure(1));
    StoresLast(b, size);
    var stores := [Store(1)] + ([Store(0)] + []);
    Prepended(a, Measure(1), stores);
    Prepended(s, Measure(0), [Measure(1)] + stores);
    steps := [Measure(0)] + ([Measure(1)] + stores);
    var final := After(b, stores);
    assert final.producers == s.producers[0 := Requesting(0, 0)][1 := Requesting(1, 1)];
  }

  lemma {:induction false} RunsJoined(s: Ring, a: seq<Step>, b: seq<Step>)
    requires IsRun(s, a) && IsRun(After(s, a), b) && StaysBounded(s, a) && StaysBounded(After(s, a), b)
    ensures IsRun(s, a + b) && StaysBounded(s, a + b) && After(s, a + b) == After(After(s, a), b)
    ensures Capacities(s, a + b) == Capacities(s, a) + Capacities(After(s, a), b)
    decreases |a|
  {
    if a == [] {
      assert a + b == b;
      assert Capacities(s, []) == [];
    } else {
      RunsJoined(Apply(s, a[0]), a[1..], b);
      assert (a + b)[1..] == a[1..] + b;
    }
  }

  /**
   In a ring of two or more slots, two activations that measure before either of them stores may leave the minimum at
   the size of the ring, although one slot less was measured: the store of a larger value is the last one.
   */
  lemma LeastCapacityIsLost(size: nat) returns (steps: seq<Step>)
    requires size > 1
    ensures IsRun(Init(size), steps) && StaysBounded(Init(size), steps)
    ensures size - 1 in Capacities(Init(size), steps) && After(Init(size), steps).minCapacity == size
    ensures !IsLeast(After(Init(size), steps).minCapacity, size, Capacities(Init(size), steps))
  {
    var before, here := ReserveMore(size, 2);
    before, here := PublishSecond(Init(size), before, here, size);
    var last := BothStore(here, size);
    RunsJoined(Init(size), before, last);
    steps := before + last;
    assert Capacities(here, last)[1] == size - 1;
  }
}
