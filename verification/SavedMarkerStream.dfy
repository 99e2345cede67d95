/** Streams that insert at an earlier position of another stream, nested to any depth. */
module SavedMarkerStream {
  import opened Arithmetic
  import opened Bytes
  import opened ByteOutputStream
  import opened BoundedVectorOutputStream
  import opened Sequences

  /** What a user does with an open saved-marker stream. Nested opens another one inside it and closes it again. */
  datatype Op =
    | Insert(data: seq<Byte>)
    | Commit
    | Undo
    | Nested(marker: nat, ops: seq<Op>)

  /** What the stream has kept for good, what it can still undo, and how many bytes still fit. */
  datatype State = State(committed: seq<Byte>, pending: seq<Byte>, room: nat) {
    function Surviving(): seq<Byte> {
      committed + pending
    }
  }

  function Inserted(text: seq<Byte>, marker: nat, data: seq<Byte>): (r: seq<Byte>)
    requires marker <= |text|
    ensures |r| == |text| + |data|
  {
    text[..marker] + data + text[marker..]
  }

  function Start(room: nat): State {
    State([], [], room)
  }

  /** A stream never holds more than the room it was opened with. */
  function Apply(s: State, op: Op): (r: State)
    ensures |r.Surviving()| + r.room == |s.Surviving()| + s.room
    decreases op
  {
    match op
    case Insert(data) =>
      var kept := data[..Min(|data|, s.room)];
      State(s.committed, s.pending + kept, s.room - |kept|)
    case Commit =>
      State(s.committed + s.pending, [], s.room)
    case Undo =>
      State(s.committed, [], s.room + |s.pending|)
    case Nested(marker, ops) =>
      var inner := Run(Start(s.room), ops);
      if marker <= |s.pending| then
        State(s.committed, Inserted(s.pending, marker, inner.Surviving()), inner.room)
      else
        s
  }

  function Run(s: State, ops: seq<Op>): (r: State)
    ensures |r.Surviving()| + r.room == |s.Surviving()| + s.room
    decreases ops
  {
    if ops == [] then s
    else Apply(Run(s, ops[..|ops| - 1]), ops[|ops| - 1])
  }

  /** Markers lie within what the stream they are used on can still undo. */
  ghost predicate Legal(s: State, op: Op)
    decreases op
  {
    op.Nested? ==> op.marker <= |s.pending| && AllLegal(Start(s.room), op.ops)
  }

  ghost predicate AllLegal(s: State, ops: seq<Op>)
    decreases ops
  {
    forall i | 0 <= i < |ops| :: Legal(Run(s, ops[..i]), ops[i])
  }

  lemma RunNext(s: State, ops: seq<Op>, i: nat)
    requires i < |ops|
    ensures Run(s, ops[..i + 1]) == Apply(Run(s, ops[..i]), ops[i])
  {
    assert ops[..i + 1][..i] == ops[..i];
  }

  /** What was committed stays, at the front, whatever happens afterwards. */
  lemma {:induction false} CommittedStays(s: State, ops: seq<Op>)
    ensures s.committed <= Run(s, ops).committed
    decreases |ops|
  {
    if ops != [] {
      CommittedStays(s, ops[..|ops| - 1]);
    }
  }

  /** Undo gives up everything since the last commit, nested insertions included. */
  lemma {:induction false} UndoForgets(s: State, ops: seq<Op>)
    requires s.pending == [] && forall i | 0 <= i < |ops| :: !ops[i].Commit?
    ensures Run(s, ops + [Undo]) == s
  {
    assert (ops + [Undo])[..|ops|] == ops;
    UncommittedRun(s, ops);
  }

  lemma {:induction false} UncommittedRun(s: State, ops: seq<Op>)
    requires forall i | 0 <= i < |ops| :: !ops[i].Commit?
    ensures Run(s, ops).committed == s.committed
    decreases |ops|
  {
    if ops != [] {
      UncommittedRun(s, ops[..|ops| - 1]);
    }
  }

  function Concatenation(ops: seq<Op>): seq<Byte> {
    if ops == [] then []
    else Concatenation(ops[..|ops| - 1]) + match ops[|ops| - 1] case Insert(data) => data case _ => []
  }

  /** Without undo and nesting, the longest prefix of the inserted bytes that fits survives. */
  lemma {:induction false} InsertsSurvive(room: nat, ops: seq<Op>)
    requires forall i | 0 <= i < |ops| :: ops[i].Insert? || ops[i].Commit?
    ensures Run(Start(room), ops).Surviving() == Concatenation(ops)[..Min(|Concatenation(ops)|, room)]
    decreases |ops|
  {
    if ops != [] {
      var before := ops[..|ops| - 1];
      InsertsSurvive(room, before);
      var s := Run(Start(room), before);
      var last := ops[|ops| - 1];
      if last.Insert? {
        assert Run(Start(room), ops).Surviving() == s.Surviving() + last.data[..Min(|last.data|, s.room)];
      }
    }
  }

  lemma InsertedAtEnd(text: seq<Byte>, data: seq<Byte>)
    ensures Inserted(text, |text|, data) == text + data
  {
  }

  /**
   * A stream opened at the end of another one, and used in any way, appends what survives of it as the other one
   * would; without undo and nesting, that is everything that was inserted.
   */
  lemma NestingAtEndAppends(s: State, ops: seq<Op>)
    ensures Apply(s, Nested(|s.pending|, ops)) == Apply(s, Insert(Run(Start(s.room), ops).Surviving()))
    ensures (forall i | 0 <= i < |ops| :: ops[i].Insert? || ops[i].Commit?) ==>
      Apply(s, Nested(|s.pending|, ops)) == Apply(s, Insert(Concatenation(ops)))
  {
    var surviving := Run(Start(s.room), ops).Surviving();
    InsertedAtEnd(s.pending, surviving);
    assert surviving[..|surviving|] == surviving;
    if forall i | 0 <= i < |ops| :: ops[i].Insert? || ops[i].Commit? {
      InsertsSurvive(s.room, ops);
    }
  }

  /** A saved-marker stream is a byte writer over the gap it opened. */
  class SavedMarkerStreamWriter {
    const gap: ByteOutputStreamWriter

    constructor (memory: array<Byte>, begin: nat, end: nat)
      requires begin <= end <= memory.Length
      ensures fresh(gap) && gap.memory == memory && Holds(begin, end, Start(end - begin))
    {
      gap := new ByteOutputStreamWriter(memory, begin, end);
    }

    /** The committed bytes lie before the writer's range, from where the gap started. */
    ghost predicate Holds(start: nat, stop: nat, s: State)
      reads gap, gap.memory
    {
      && gap.Valid()
      && start <= gap.begin && gap.end == stop
      && gap.memory[start..gap.begin] == s.committed
      && gap.Processed() == s.pending
      && gap.Available() == s.room
    }

    method Commit()
      requires gap.Valid()
      modifies gap
      ensures gap.Valid() && gap.end == old(gap.end)
      ensures gap.begin == old(gap.begin + gap.offset) && gap.offset == 0
    {
      gap.Reset(gap.begin + gap.offset, gap.end);
    }

    method Undo()
      requires gap.Valid()
      modifies gap
      ensures gap.Valid() && gap.begin == old(gap.begin) && gap.end == old(gap.end) && gap.offset == 0
    {
      gap.Reset(gap.begin, gap.end);
    }
  }

  lemma BeforeGap(was: seq<Byte>, now: seq<Byte>, low: nat, a: nat, b: nat)
    requires a <= b <= low <= |was| == |now| && now[..low] == was[..low]
    ensures now[a..b] == was[a..b]
  {
    assert now[a..b] == now[..low][a..b];
    assert was[a..b] == was[..low][a..b];
  }

  lemma AfterGap(was: seq<Byte>, now: seq<Byte>, high: nat, a: nat, b: nat)
    requires high <= a <= b <= |was| == |now| && now[high..] == was[high..]
    ensures now[a..b] == was[a..b]
  {
    forall k | a <= k < b
      ensures now[k] == was[k]
    {
      assert now[k] == now[high..][k - high] && was[k] == was[high..][k - high];
    }
  }

  /** Around a gap that was filled, the text is what it was with the filling at the marker. */
  lemma GapFilled(was: seq<Byte>, now: seq<Byte>, begin: nat, gapBegin: nat, next: nat, gapEnd: nat, end: nat, text: seq<Byte>)
    requires begin <= gapBegin <= next <= gapEnd <= end <= |was| == |now|
    requires gapBegin - begin <= |text|
    requires was[begin..gapBegin] == text[..gapBegin - begin] && was[gapEnd..end] == text[gapBegin - begin..]
    requires now[..gapBegin] == was[..gapBegin] && now[gapEnd..] == was[gapEnd..]
    ensures now[begin..next] + now[gapEnd..end] == Inserted(text, gapBegin - begin, now[gapBegin..next])
    ensures now[..begin] == was[..begin] && now[end..] == was[end..]
  {
    BeforeGap(was, now, gapBegin, begin, gapBegin);
    AfterGap(was, now, gapEnd, gapEnd, end);
    Joined(now, begin, gapBegin, next);
    GapOutside(was, now, begin, gapBegin, gapEnd, end);
  }

  lemma GapOutside(was: seq<Byte>, now: seq<Byte>, begin: nat, gapBegin: nat, gapEnd: nat, end: nat)
    requires begin <= gapBegin <= gapEnd <= end <= |was| == |now|
    requires now[..gapBegin] == was[..gapBegin] && now[gapEnd..] == was[gapEnd..]
    ensures now[..begin] == was[..begin] && now[end..] == was[end..]
  {
    BeforeGap(was, now, gapBegin, 0, begin);
    AfterGap(was, now, gapEnd, end, |was|);
  }

  /** Opens a stream at the marker of a byte writer, uses it and closes it. */
  method Session(stream: ByteOutputStreamWriter, marker: nat, ops: seq<Op>)
    requires stream.Valid() && marker <= stream.offset && AllLegal(Start(stream.Available()), ops)
    modifies stream`offset, stream.memory
    ensures stream.Valid()
    ensures stream.Processed() == Inserted(old(stream.Processed()), marker, Run(Start(old(stream.Available())), ops).Surviving())
    ensures stream.memory[..stream.begin] == old(stream.memory[..stream.begin])
    ensures stream.memory[stream.end..] == old(stream.memory[stream.end..])
    decreases ops, 1
  {
    ghost var text := stream.Processed();
    ghost var room := stream.Available();
    var gapBegin, gapEnd := stream.SaveState(marker);
    UseAndRestore(stream, gapBegin, gapEnd, ops, text, marker, room);
  }

  method UseAndRestore(stream: ByteOutputStreamWriter, gapBegin: nat, gapEnd: nat, ops: seq<Op>, ghost text: seq<Byte>,
      ghost marker: nat, ghost room: nat)
    requires stream.Valid() && stream.begin <= gapBegin <= gapEnd <= stream.end
    requires marker == gapBegin - stream.begin <= |text| && room == gapEnd - gapBegin
    requires stream.memory[stream.begin..gapBegin] == text[..marker]
    requires stream.memory[gapEnd..stream.end] == text[marker..]
    requires AllLegal(Start(room), ops)
    modifies stream`offset, stream.memory
    ensures stream.Valid()
    ensures stream.Processed() == Inserted(text, marker, Run(Start(room), ops).Surviving())
    ensures stream.memory[..stream.begin] == old(stream.memory[..stream.begin])
    ensures stream.memory[stream.end..] == old(stream.memory[stream.end..])
    decreases ops, 0, 2
  {
    ghost var was := stream.memory[..];
    var unused := UseGap(stream.memory, gapBegin, gapEnd, ops);
    SessionInGap(was, stream.memory[..], stream.begin, gapBegin, unused, gapEnd, stream.end, text,
      Run(Start(room), ops).Surviving());
    stream.RestoreState(unused, gapEnd);
  }

  lemma SessionInGap(was: seq<Byte>, now: seq<Byte>, begin: nat, gapBegin: nat, next: nat, gapEnd: nat, end: nat,
      text: seq<Byte>, surviving: seq<Byte>)
    requires begin <= gapBegin <= next <= gapEnd <= end <= |was| == |now|
    requires gapBegin - begin <= |text|
    requires was[begin..gapBegin] == text[..gapBegin - begin] && was[gapEnd..end] == text[gapBegin - begin..]
    requires now[..gapBegin] == was[..gapBegin] && now[gapEnd..] == was[gapEnd..] && now[gapBegin..next] == surviving
    ensures now[begin..next] + now[gapEnd..end] == Inserted(text, gapBegin - begin, surviving)
    ensures now[..begin] == was[..begin] && now[end..] == was[end..]
  {
    GapFilled(was, now, begin, gapBegin, next, gapEnd, end, text);
  }

  /** The same with a vector as the stream that is inserted into. */
  method VectorSession(stream: BoundedVectorStreamWriter, marker: nat, ops: seq<Op>)
    requires stream.Valid() && marker <= stream.size && AllLegal(Start(stream.Available()), ops)
    modifies stream, stream.storage
    ensures stream.Valid()
    ensures stream.Contents() == Inserted(old(stream.Contents()), marker, Run(Start(old(stream.Available())), ops).Surviving())
  {
    ghost var text := stream.Contents();
    var gapBegin, gapEnd := stream.SaveState(marker);
    UseAndRestoreVector(stream, gapBegin, gapEnd, ops, text);
  }

  method UseAndRestoreVector(stream: BoundedVectorStreamWriter, gapBegin: nat, gapEnd: nat, ops: seq<Op>, ghost text: seq<Byte>)
    requires stream.Valid() && gapBegin <= gapEnd <= stream.size && gapBegin <= |text|
    requires stream.storage[..gapBegin] == text[..gapBegin] && stream.storage[gapEnd..stream.size] == text[gapBegin..]
    requires AllLegal(Start(gapEnd - gapBegin), ops)
    modifies stream, stream.storage
    ensures stream.Valid()
    ensures stream.Contents() == Inserted(text, gapBegin, Run(Start(gapEnd - gapBegin), ops).Surviving())
  {
    ghost var was := stream.storage[..];
    var unused := UseGap(stream.storage, gapBegin, gapEnd, ops);
    GapFilled(was, stream.storage[..], 0, gapBegin, unused, gapEnd, stream.size, text);
    stream.RestoreState(unused, gapEnd);
  }

  /** The life of a saved-marker stream between the save and the restore; the rest of the gap stays unused. */
  method UseGap(memory: array<Byte>, gapBegin: nat, gapEnd: nat, ops: seq<Op>) returns (unused: nat)
    requires gapBegin <= gapEnd <= memory.Length && AllLegal(Start(gapEnd - gapBegin), ops)
    modifies memory
    ensures gapBegin <= unused <= gapEnd
    ensures memory[gapBegin..unused] == Run(Start(gapEnd - gapBegin), ops).Surviving()
    ensures memory[..gapBegin] == old(memory[..gapBegin]) && memory[gapEnd..] == old(memory[gapEnd..])
    decreases ops, 0, 1
  {
    var writer := new SavedMarkerStreamWriter(memory, gapBegin, gapEnd);
    assert memory[..] == old(memory[..]);
    unused := ApplyAll(writer, gapBegin, ops);
  }

  method ApplyAll(writer: SavedMarkerStreamWriter, start: nat, ops: seq<Op>) returns (unused: nat)
    requires start <= writer.gap.end <= writer.gap.memory.Length
    requires writer.Holds(start, writer.gap.end, Start(writer.gap.end - start))
    requires AllLegal(Start(writer.gap.end - start), ops)
    modifies writer.gap, writer.gap.memory
    ensures start <= unused <= old(writer.gap.end)
    ensures writer.gap.memory[start..unused] == Run(Start(old(writer.gap.end) - start), ops).Surviving()
    ensures writer.gap.memory[..start] == old(writer.gap.memory[..start])
    ensures writer.gap.memory[old(writer.gap.end)..] == old(writer.gap.memory[writer.gap.end..])
    decreases ops, 0, 0
  {
    var memory := writer.gap.memory;
    ghost var stop := writer.gap.end;
    ghost var first := Start(stop - start);
    assert ops[..0] == [];
    var i := 0;
    while i < |ops|
      invariant 0 <= i <= |ops|
      invariant writer.Holds(start, stop, Run(first, ops[..i]))
      invariant memory[..start] == old(memory[..start]) && memory[stop..] == old(memory[stop..])
    {
      RunNext(first, ops, i);
      ApplyOne(writer, start, ops[i], Run(first, ops[..i]));
      i := i + 1;
    }
    assert ops[..i] == ops;
    unused := writer.gap.begin + writer.gap.offset;
    Joined(memory[..], start, writer.gap.begin, unused);
  }

  method ApplyOne(writer: SavedMarkerStreamWriter, ghost start: nat, op: Op, ghost s: State)
    requires writer.Holds(start, writer.gap.end, s) && Legal(s, op)
    modifies writer.gap, writer.gap.memory
    ensures writer.Holds(start, old(writer.gap.end), Apply(s, op))
    ensures writer.gap.memory[..start] == old(writer.gap.memory[..start])
    ensures writer.gap.memory[writer.gap.end..] == old(writer.gap.memory[writer.gap.end..])
    decreases op, 1
  {
    match op
    case Insert(_) => Fill(writer, start, op, s);
    case Nested(_, _) => Fill(writer, start, op, s);
    case Commit =>
      Joined(writer.gap.memory[..], start, writer.gap.begin, writer.gap.begin + writer.gap.offset);
      writer.Commit();
    case Undo =>
      writer.Undo();
  }

  /** The operations that put bytes into the gap leave what was committed alone. */
  method Fill(writer: SavedMarkerStreamWriter, ghost start: nat, op: Op, ghost s: State)
    requires writer.Holds(start, writer.gap.end, s) && Legal(s, op) && (op.Insert? || op.Nested?)
    modifies writer.gap`offset, writer.gap.memory
    ensures writer.Holds(start, old(writer.gap.end), Apply(s, op))
    ensures writer.gap.memory[..start] == old(writer.gap.memory[..start])
    ensures writer.gap.memory[writer.gap.end..] == old(writer.gap.memory[writer.gap.end..])
    decreases op, 0
  {
    var memory, begin := writer.gap.memory, writer.gap.begin;
    ghost var was := memory[..];
    if op.Insert? {
      var _ := writer.gap.Insert(op.data);
    } else {
      Session(writer.gap, op.marker, op.ops);
    }
    BeforeGap(was, memory[..], begin, start, begin);
    BeforeGap(was, memory[..], begin, 0, start);
  }
}
