/** A reader and a writer that keep in a deque what one session leaves over for the next. */
module BufferingStream {
  import opened Arithmetic
  import opened BoundedDeque
  import opened Bytes
  import opened Copying
  import opened Sequences
  import opened Wrappers

  /** An output that takes a fixed number of bytes. */
  class Output {
    const capacity: nat
    var written: seq<Byte>

    ghost predicate Valid()
      reads this
    {
      |written| <= capacity
    }

    constructor (capacity: nat)
      ensures Valid() && this.capacity == capacity && written == []
    {
      this.capacity := capacity;
      written := [];
    }

    function Available(): nat
      requires Valid()
      reads this
    {
      capacity - |written|
    }

    method Insert(data: seq<Byte>)
      requires Valid() && |data| <= Available()
      modifies this
      ensures Valid() && written == old(written) + data
    {
      written := written + data;
    }
  }

  /** What goes out goes behind everything, as nothing waits while something goes out. */
  lemma InsertedBehind<T>(written: seq<T>, waiting: seq<T>, data: seq<T>, n: nat)
    requires n <= |data| && (waiting == [] || n == 0)
    ensures (written + data[..n]) + (waiting + data[n..]) == (written + waiting) + data
  {
  }

  class BufferingStreamWriter {
    const buffer: BoundedDeque
    const output: Output
    var index: nat

    /** Nothing waits in the buffer while the output still takes bytes. */
    ghost predicate Valid()
      reads this, buffer, output
    {
      && buffer.Valid() && output.Valid()
      && (buffer.contents != [] ==> output.Available() == 0)
    }

    /** Everything that this session got, in order: what went out, and what waits. */
    ghost function Accepted(): seq<Byte>
      reads buffer, output
    {
      output.written + buffer.contents
    }

    constructor (buffer: BoundedDeque, output: Output)
      requires buffer.Valid() && output.Valid()
      modifies buffer, output
      ensures this.buffer == buffer && this.output == output
      ensures Valid() && Accepted() == old(output.written) + old(buffer.contents) && index == |buffer.contents|
    {
      this.buffer := buffer;
      this.output := output;
      new;
      LoadPiece();
      LoadPiece();
      index := |buffer.contents|;
    }

    /** Half of loading the remainder: one contiguous piece of the buffer goes out as far as it fits. */
    method LoadPiece()
      requires buffer.Valid() && output.Valid()
      modifies buffer, output
      ensures buffer.Valid() && output.Valid() && Accepted() == old(Accepted())
      ensures output.Available() == 0 || buffer.contents == old(buffer.contents[|buffer.ContiguousRange(0)|..])
      ensures output.Available() == 0 || old(buffer.Index(|buffer.ContiguousRange(0)|)) == buffer.start
    {
      var from := buffer.ContiguousRange(0)[..Min(|buffer.ContiguousRange(0)|, output.Available())];
      ghost var was := buffer.contents;
      assert was == from + was[|from|..];
      output.Insert(from);
      buffer.EraseFront(|from|);
    }

    function Available(): nat
      requires Valid()
      reads this, buffer, output
    {
      output.Available() + buffer.maxSize - |buffer.contents|
    }

    method Insert(data: seq<Byte>)
      requires Valid() && |data| <= Available()
      modifies this`index, buffer`contents, output
      ensures Valid() && Accepted() == old(Accepted()) + data && index == old(index) + |data|
    {
      var first := data[..Min(|data|, output.Available())];
      output.Insert(first);
      index := index + |first|;
      var rest := data[|first|..];
      InsertedBehind(old(output.written), old(buffer.contents), data, |first|);
      buffer.InsertAtEnd(rest);
      index := index + |rest|;
    }
  }

  /** An input whose bytes are stored in pieces: from each position on, some of them are contiguous. */
  class Input {
    const bytes: seq<Byte>
    const contiguous: seq<nat>
    var position: nat

    ghost predicate Valid()
      reads this
    {
      && position <= |bytes|
      && |contiguous| == |bytes|
      && forall i | 0 <= i < |bytes| :: 0 < contiguous[i] <= |bytes| - i
    }

    constructor (bytes: seq<Byte>, contiguous: seq<nat>)
      requires |contiguous| == |bytes| && forall i | 0 <= i < |bytes| :: 0 < contiguous[i] <= |bytes| - i
      ensures Valid() && this.bytes == bytes && this.contiguous == contiguous && position == 0
    {
      this.bytes := bytes;
      this.contiguous := contiguous;
      position := 0;
    }

    function Contiguous(): nat
      requires Valid()
      reads this
    {
      if position == |bytes| then 0 else contiguous[position]
    }

    function Empty(): bool
      requires Valid()
      reads this
    {
      position == |bytes|
    }

    method ExtractContiguousRange(max: nat) returns (data: seq<Byte>)
      requires Valid()
      modifies this
      ensures Valid() && position == old(position) + Min(max, old(Contiguous())) && data == bytes[old(position)..position]
    {
      data := bytes[position..position + Min(max, Contiguous())];
      position := position + |data|;
    }

    /** Nothing if it is asked beyond its end, where inputs differ in what they answer. */
    function PeekContiguousRange(start: nat): (r: Option<seq<Byte>>)
      requires Valid()
      reads this
      ensures r.None? <==> position + start > |bytes|
      ensures r.Some? ==> r.value <= bytes[position + start..] && (r.value == [] <==> position + start == |bytes|)
    {
      if position + start > |bytes| then None
      else if position + start == |bytes| then Some([])
      else Some(bytes[position + start..position + start + contiguous[position + start]])
    }

    method Rewind(marker: nat)
      requires Valid() && marker <= position
      modifies this
      ensures Valid() && position == marker
    {
      position := marker;
    }
  }

  lemma SliceBehind<T>(front: seq<T>, back: seq<T>, first: nat, from: nat, to: nat)
    requires first <= from <= to <= |back|
    ensures (front + back[first..])[|front| + (from - first)..|front| + (to - first)] == back[from..to]
  {
  }

  class BufferingStreamReader {
    const buffer: BoundedDeque
    const input: Input
    var index: nat
    var bufferIndex: nat
    /** Where the input was when this session started. */
    ghost const first: nat

    ghost predicate Valid()
      reads this, buffer, input
    {
      && buffer.Valid() && input.Valid()
      && bufferIndex == Min(index, |buffer.contents|)
      && first <= input.position
      && input.position - first == if index <= |buffer.contents| then 0 else index - |buffer.contents|
    }

    /** Everything this session can deliver; the index is how much of it was. */
    ghost function All(): seq<Byte>
      requires Valid()
      reads this, buffer, input
    {
      buffer.contents + input.bytes[first..]
    }

    constructor (buffer: BoundedDeque, input: Input)
      requires buffer.Valid() && input.Valid()
      ensures Valid() && this.buffer == buffer && this.input == input && index == 0 && first == input.position
    {
      this.buffer := buffer;
      this.input := input;
      index := 0;
      bufferIndex := 0;
      first := input.position;
    }

    /**
     * Delivers the next bytes. The input is asked once, so this succeeds exactly if what the buffer does not
     * have is contiguous in the input.
     */
    method Extract(range: array<Byte>) returns (ok: bool)
      requires Valid()
      modifies this, input, range
      ensures Valid() && old(index) <= index <= old(index) + range.Length && All() == old(All()) && index <= |All()|
      ensures range[..] == Replaced(old(range[..]), 0, All()[old(index)..index])
      ensures ok <==> index == old(index) + range.Length
      ensures ok <==> range.Length <= |buffer.contents| - old(bufferIndex) + old(input.Contiguous())
    {
      ghost var was, begin := range[..], index;
      var done := 0;
      if index < |buffer.contents| {
        done := ReadAllBuffered(range);
      }
      if done < range.Length {
        ghost var middle := index;
        done := ReadInput(range, done);
        Delivered(was, All()[begin..middle], All()[middle..index]);
        Joined(All(), begin, middle, index);
      }
      ok := done == range.Length;
    }

    /** Two pieces make up all of the buffer. */
    method ReadAllBuffered(range: array<Byte>) returns (done: nat)
      requires Valid() && index < |buffer.contents|
      modifies this, range
      ensures Valid() && index <= |buffer.contents|
      ensures done == index - old(index) == Min(|buffer.contents| - old(index), range.Length)
      ensures range[..] == Replaced(old(range[..]), 0, All()[old(index)..index])
    {
      ghost var was, begin, contents := range[..], index, buffer.contents;
      done := ReadBuffered(range, 0);
      ghost var middle := index;
      done := ReadBuffered(range, done);
      Delivered(was, contents[begin..middle], contents[middle..index]);
      Joined(contents, begin, middle, index);
      PrefixSlice(contents, All(), begin, index);
    }

    method ReadInput(range: array<Byte>, done: nat) returns (next: nat)
      requires Valid() && index >= |buffer.contents| && done <= range.Length
      modifies this, input, range
      ensures Valid() && index <= |All()| && All() == old(All())
      ensures next - done == index - old(index) == Min(range.Length - done, old(input.Contiguous()))
      ensures range[..] == Replaced(old(range[..]), done, All()[old(index)..index])
    {
      var data := input.ExtractContiguousRange(range.Length - done);
      Read(data, range, done);
      next := done + |data|;
      assert data == All()[old(index)..index];
    }

    /** One piece of the buffer, as far as the range goes. */
    method ReadBuffered(range: array<Byte>, done: nat) returns (next: nat)
      requires Valid() && index <= |buffer.contents| && done <= range.Length
      modifies this, range
      ensures Valid() && index <= |buffer.contents|
      ensures next - done == index - old(index) == Min(|buffer.ContiguousRange(old(index))|, range.Length - done)
      ensures range[..] == Replaced(old(range[..]), done, buffer.contents[old(index)..index])
    {
      var from := buffer.ContiguousRange(index)[..Min(|buffer.ContiguousRange(index)|, range.Length - done)];
      Read(from, range, done);
      bufferIndex := bufferIndex + |from|;
      next := done + |from|;
    }

    method Read(from: seq<Byte>, range: array<Byte>, done: nat)
      requires done + |from| <= range.Length
      modifies this`index, range
      ensures range[..] == Replaced(old(range[..]), done, from) && index == old(index) + |from|
    {
      Write(range, done, from);
      index := index + |from|;
    }

    method ExtractContiguousRange(max: nat) returns (data: seq<Byte>)
      requires Valid()
      modifies this, input
      ensures Valid() && All() == old(All()) && index <= |All()| && index == old(index) + |data|
      ensures data == All()[old(index)..index] && |data| <= max
      ensures |data| == Min(max, old(if index < |buffer.contents| then |buffer.ContiguousRange(index)| else input.Contiguous()))
      ensures data == [] ==> max == 0 || index == |All()|
    {
      if index < |buffer.contents| {
        data := buffer.ContiguousRange(index)[..Min(|buffer.ContiguousRange(index)|, max)];
        index := index + |data|;
        bufferIndex := bufferIndex + |data|;
        PrefixSlice(buffer.contents, All(), old(index), index);
      } else {
        data := input.ExtractContiguousRange(max);
        index := index + |data|;
        SliceBehind(buffer.contents, input.bytes, first, old(input.position), input.position);
      }
    }

    /**
     * Where the bytes that are peeked at are: the input is asked relative to the start of the session, but
     * answers relative to what was read from it since.
     */
    ghost function PeekedAt(start: nat): nat
      requires Valid()
      reads this, buffer, input
    {
      if index + start < |buffer.contents| then index + start
      else index + start + (input.position - first)
    }

    /** Peeking looks at the next bytes if and only if nothing was read from the input yet. */
    lemma PeeksAtNext(start: nat)
      requires Valid()
      ensures PeekedAt(start) == index + start <==> index <= |buffer.contents|
    {
    }

    /** The bytes from there on, or nothing if the input is asked beyond its end. */
    method PeekContiguousRange(start: nat) returns (data: Option<seq<Byte>>)
      requires Valid()
      ensures data.None? <==> PeekedAt(start) > |All()|
      ensures data.Some? ==> data.value <= All()[PeekedAt(start)..] && (data.value == [] <==> PeekedAt(start) == |All()|)
    {
      if index + start < |buffer.contents| {
        data := Some(buffer.ContiguousRange(index + start));
        assert All()[index + start..] == buffer.contents[index + start..] + input.bytes[first..];
      } else {
        data := input.PeekContiguousRange(index + start - |buffer.contents|);
        assert data.Some? ==> All()[PeekedAt(start)..] == input.bytes[input.position + (index + start - |buffer.contents|)..];
      }
    }

    function Available(): (r: nat)
      requires Valid()
      reads this, buffer, input
      ensures r == |All()| - index
    {
      |buffer.contents| - bufferIndex + (|input.bytes| - input.position)
    }

    /** Goes back to any earlier position of this session. */
    method Rewind(marker: nat)
      requires Valid() && marker <= index
      modifies this, input
      ensures Valid() && index == marker && All() == old(All())
    {
      if index > |buffer.contents| {
        var rewindAmount := Min(index - marker, index - |buffer.contents|);
        input.Rewind(input.position - rewindAmount);
        index := index - rewindAmount;
      }
      if marker < |buffer.contents| {
        index := marker;
        bufferIndex := index;
      }
    }

    /** The destructor: what was not read goes to the buffer, which has room for it. */
    method StoreRemainder()
      requires Valid() && Available() <= buffer.maxSize
      modifies buffer, input
      ensures buffer.Valid() && input.Valid() && input.Empty()
      ensures old(All()) == old(All())[..index] + buffer.contents
    {
      ghost var all := All();
      var bufferDecrease := Min(|buffer.contents|, index);
      buffer.EraseFront(bufferDecrease);
      assert all[index..] == buffer.contents + input.bytes[input.position..];
      while !input.Empty()
        invariant buffer.Valid() && input.Valid()
        invariant |buffer.contents| + (|input.bytes| - input.position) <= buffer.maxSize
        invariant all[index..] == buffer.contents + input.bytes[input.position..]
        decreases |input.bytes| - input.position
      {
        ghost var was := input.position;
        var data := input.ExtractContiguousRange(|input.bytes|);
        assert input.bytes[was..] == data + input.bytes[input.position..];
        buffer.InsertAtEnd(data);
      }
      assert all == all[..index] + all[index..];
    }
  }

  lemma OnlyPrefix<T>(s: seq<T>, x: T)
    requires s <= [x] && s != []
    ensures s == [x]
  {
  }

  /** One byte of three was read from the input: peeking shows the byte after the next one. */
  method PeekingSkips() returns (peeked: Option<seq<Byte>>, next: seq<Byte>)
    ensures peeked == Some([3]) && next == [2, 3]
  {
    var reader := ReaderOfThree(1);
    peeked := reader.PeekContiguousRange(0);
    assert reader.PeekedAt(0) == 2 && reader.All()[2..] == [3];
    OnlyPrefix(peeked.value, 3);
    next := reader.ExtractContiguousRange(2);
  }

  /** Two bytes of three were read: peeking asks the input beyond its end, although there is a byte. */
  method PeekingGoesBeyond() returns (peeked: Option<seq<Byte>>, next: seq<Byte>)
    ensures peeked == None && next == [3]
  {
    var reader := ReaderOfThree(2);
    peeked := reader.PeekContiguousRange(0);
    next := reader.ExtractContiguousRange(2);
  }

  method ReaderOfThree(count: nat) returns (reader: BufferingStreamReader)
    requires count <= 3
    ensures fresh(reader) && fresh(reader.input) && reader.Valid() && reader.index == count && reader.All() == [1, 2, 3]
    ensures reader.buffer.contents == [] && reader.input.contiguous == [3, 2, 1] && reader.input.bytes == [1, 2, 3]
  {
    var buffer := new BoundedDeque(1);
    var input := new Input([1, 2, 3], [3, 2, 1]);
    reader := new BufferingStreamReader(buffer, input);
    var range := new Byte[count];
    var ok := reader.Extract(range);
  }

  // -------------------------------------------------------------------------------------------------- whole sessions

  /** Whether the insertions of each session fit: a session leaves over what does not fit its output. */
  predicate Fits(waiting: nat, maxSize: nat, capacities: seq<nat>, data: seq<seq<seq<Byte>>>)
    requires |capacities| == |data|
    decreases |data|
  {
    if data == [] then true
    else
      var total := waiting + |Flattened(data[0])|;
      total <= capacities[0] + maxSize && Fits(total - Min(total, capacities[0]), maxSize, capacities[1..], data[1..])
  }

  lemma NextFits(waiting: nat, maxSize: nat, capacities: seq<nat>, data: seq<seq<seq<Byte>>>, i: nat)
    requires |capacities| == |data| && i < |data| && Fits(waiting, maxSize, capacities[i..], data[i..])
    ensures var total := waiting + |Flattened(data[i])|;
      total <= capacities[i] + maxSize && Fits(total - Min(total, capacities[i]), maxSize, capacities[i + 1..], data[i + 1..])
  {
    assert data[i..][0] == data[i] && capacities[i..][0] == capacities[i];
    assert data[i..][1..] == data[i + 1..] && capacities[i..][1..] == capacities[i + 1..];
  }

  /** A writer session: as much as fits goes out, and the rest waits in the buffer. */
  method WriterSession(buffer: BoundedDeque, capacity: nat, pieces: seq<seq<Byte>>) returns (written: seq<Byte>)
    requires buffer.Valid() && |buffer.contents| + |Flattened(pieces)| <= capacity + buffer.maxSize
    modifies buffer
    ensures buffer.Valid() && written + buffer.contents == old(buffer.contents) + Flattened(pieces)
    ensures |written| <= capacity && (buffer.contents != [] ==> |written| == capacity)
  {
    var output := new Output(capacity);
    var writer := new BufferingStreamWriter(buffer, output);
    assert writer.Accepted() == old(buffer.contents) + Flattened(pieces[..0]);
    for i := 0 to |pieces|
      invariant writer.Valid() && writer.buffer == buffer && writer.output == output && output.capacity == capacity
      invariant fresh(writer) && fresh(output)
      invariant writer.Accepted() == old(buffer.contents) + Flattened(pieces[..i])
    {
      FlattenedOnwards(pieces, i);
      Reassociated(old(buffer.contents), Flattened(pieces[..i]), pieces[i]);
      writer.Insert(pieces[i]);
    }
    assert pieces[..|pieces|] == pieces;
    written := output.written;
  }

  lemma {:induction false} FlattenedOnwards<T>(pieces: seq<seq<T>>, i: nat)
    requires i < |pieces|
    ensures Flattened(pieces[..i + 1]) == Flattened(pieces[..i]) + pieces[i]
    ensures |Flattened(pieces[..i + 1])| <= |Flattened(pieces)|
    decreases |pieces|
  {
    assert pieces[..i + 1][..i] == pieces[..i];
    if i < |pieces| - 1 {
      var before := pieces[..|pieces| - 1];
      FlattenedOnwards(before, i);
      assert before[..i + 1] == pieces[..i + 1];
    } else {
      assert pieces[..i + 1] == pieces;
    }
  }

  function Inserted(data: seq<seq<seq<Byte>>>): seq<Byte> {
    if data == [] then [] else Inserted(data[..|data| - 1]) + Flattened(data[|data| - 1])
  }

  lemma InsertedOnwards(data: seq<seq<seq<Byte>>>, i: nat)
    requires i < |data|
    ensures Inserted(data[..i + 1]) == Inserted(data[..i]) + Flattened(data[i])
  {
    assert data[..i + 1][..i] == data[..i];
  }

  lemma FlattenedAppended<T>(pieces: seq<seq<T>>, piece: seq<T>)
    ensures Flattened(pieces + [piece]) == Flattened(pieces) + piece
  {
    assert (pieces + [piece])[..|pieces|] == pieces;
  }

  /** No output got more than it takes, and bytes wait only if the last one got all that it takes. */
  ghost predicate Taken(written: seq<seq<Byte>>, capacities: seq<nat>, waiting: bool) {
    && |written| <= |capacities| && (forall i | 0 <= i < |written| :: |written[i]| <= capacities[i])
    && (waiting && written != [] ==> |written[|written| - 1]| == capacities[|written| - 1])
  }

  lemma TakenOnwards(written: seq<seq<Byte>>, capacities: seq<nat>, piece: seq<Byte>, waiting: bool)
    requires |written| < |capacities| && Taken(written, capacities, false)
    requires |piece| <= capacities[|written|] && (waiting ==> |piece| == capacities[|written|])
    ensures Taken(written + [piece], capacities, waiting)
  {
  }

  /** After some sessions: the equation, what the outputs took, and that the rest of the sessions fit. */
  ghost predicate Written(first: seq<Byte>, now: seq<Byte>, maxSize: nat, written: seq<seq<Byte>>, capacities: seq<nat>,
      data: seq<seq<seq<Byte>>>)
  {
    && |written| <= |data| == |capacities|
    && Fits(|now|, maxSize, capacities[|written|..], data[|written|..])
    && Flattened(written) + now == first + Inserted(data[..|written|])
    && Taken(written, capacities, now != [])
  }

  lemma NothingWritten(first: seq<Byte>, maxSize: nat, capacities: seq<nat>, data: seq<seq<seq<Byte>>>)
    requires |data| == |capacities| && Fits(|first|, maxSize, capacities, data)
    ensures Written(first, first, maxSize, [], capacities, data)
  {
    assert data[..0] == [] && data[0..] == data && capacities[0..] == capacities;
    assert [] + first == first + [];
  }

  lemma WrittenOnwards(first: seq<Byte>, was: seq<Byte>, now: seq<Byte>, maxSize: nat, written: seq<seq<Byte>>,
      capacities: seq<nat>, data: seq<seq<seq<Byte>>>, piece: seq<Byte>)
    requires Written(first, was, maxSize, written, capacities, data) && |written| < |data|
    requires piece + now == was + Flattened(data[|written|])
    requires |piece| <= capacities[|written|] && (now != [] ==> |piece| == capacities[|written|])
    ensures Written(first, now, maxSize, written + [piece], capacities, data)
  {
    var i := |written|;
    NextFits(|was|, maxSize, capacities, data, i);
    RestAfter(piece, now, was, Flattened(data[i]), capacities[i]);
    InsertedOnwards(data, i);
    HandedOn(Flattened(written), piece, was, now, first, Inserted(data[..i]), Flattened(data[i]));
    FlattenedAppended(written, piece);
    TakenOnwards(written, capacities, piece, now != []);
  }

  lemma RestAfter(piece: seq<Byte>, now: seq<Byte>, was: seq<Byte>, data: seq<Byte>, capacity: nat)
    requires piece + now == was + data && |piece| <= capacity && (now != [] ==> |piece| == capacity)
    ensures |now| == |was| + |data| - Min(|was| + |data|, capacity)
  {
    assert |piece| + |now| == |piece + now| == |was + data|;
  }

  /**
   * Any number of writer sessions on one buffer: what went out, session by session, and what waits are what waited
   * before and what was inserted, and no session holds back what its output would have taken.
   */
  method WriterSessions(buffer: BoundedDeque, capacities: seq<nat>, data: seq<seq<seq<Byte>>>) returns (written: seq<seq<Byte>>)
    requires buffer.Valid() && |capacities| == |data| && Fits(|buffer.contents|, buffer.maxSize, capacities, data)
    modifies buffer
    ensures buffer.Valid() && |written| == |data|
    ensures Flattened(written) + buffer.contents == old(buffer.contents) + Inserted(data)
    ensures Taken(written, capacities, buffer.contents != [])
  {
    ghost var first := buffer.contents;
    written := [];
    NothingWritten(first, buffer.maxSize, capacities, data);
    for i := 0 to |data|
      invariant buffer.Valid() && |written| == i
      invariant Written(first, buffer.contents, buffer.maxSize, written, capacities, data)
    {
      ghost var was := buffer.contents;
      NextFits(|was|, buffer.maxSize, capacities, data, i);
      var piece := WriterSession(buffer, capacities[i], data[i]);
      WrittenOnwards(first, was, buffer.contents, buffer.maxSize, written, capacities, data, piece);
      written := written + [piece];
    }
    assert data[..|data|] == data;
  }

  /** A session hands on what it does not deliver. */
  lemma HandedOn<T>(done: seq<T>, piece: seq<T>, was: seq<T>, now: seq<T>, first: seq<T>, before: seq<T>, incoming: seq<T>)
    requires done + was == first + before && piece + now == was + incoming
    ensures (done + piece) + now == first + (before + incoming)
  {
    calc {
      (done + piece) + now;
      done + (piece + now);
      done + (was + incoming);
      (done + was) + incoming;
      (first + before) + incoming;
      first + (before + incoming);
    }
  }

  /** What a session does with its reader. */
  datatype Request = Extract(n: nat) | ExtractContiguousRange(max: nat) | Rewind(marker: nat)

  datatype Incoming = Incoming(bytes: seq<Byte>, contiguous: seq<nat>) {
    predicate Valid() {
      |contiguous| == |bytes| && forall i | 0 <= i < |bytes| :: 0 < contiguous[i] <= |bytes| - i
    }
  }

  method Extracted(reader: BufferingStreamReader, n: nat) returns (data: seq<Byte>)
    requires reader.Valid()
    modifies reader, reader.input
    ensures reader.Valid() && reader.All() == old(reader.All()) && old(reader.index) <= reader.index <= |reader.All()|
    ensures data == reader.All()[old(reader.index)..reader.index]
  {
    var index, range := reader.index, new Byte[n];
    var ok := reader.Extract(range);
    data := range[..reader.index - index];
  }

  /** One request; the text is what was delivered, without what was gone back over. */
  method Deliver(reader: BufferingStreamReader, request: Request, text: seq<Byte>) returns (now: seq<Byte>)
    requires reader.Valid() && reader.index <= |reader.All()| && text == reader.All()[..reader.index]
    modifies reader, reader.input
    ensures reader.Valid() && reader.All() == old(reader.All())
    ensures reader.index <= |reader.All()| && now == reader.All()[..reader.index]
  {
    var index := reader.index;
    match request {
      case Extract(n) =>
        var piece := Extracted(reader, n);
        now := text + piece;
      case ExtractContiguousRange(max) =>
        var piece := reader.ExtractContiguousRange(max);
        now := text + piece;
      case Rewind(marker) =>
        reader.Rewind(Min(marker, index));
        now := text[..Min(marker, index)];
    }
  }

  /**
   * A reader session, with any requests. At its end the buffer has to have room for what was not read; what was
   * delivered and what waits are what waited before and what came in.
   */
  method ReaderSession(buffer: BoundedDeque, incoming: Incoming, requests: seq<Request>) returns (fits: bool, text: seq<Byte>)
    requires buffer.Valid() && incoming.Valid()
    modifies buffer
    ensures buffer.Valid() && text <= old(buffer.contents) + incoming.bytes
    ensures fits <==> |old(buffer.contents) + incoming.bytes| - |text| <= buffer.maxSize
    ensures if fits then text + buffer.contents == old(buffer.contents) + incoming.bytes else buffer.contents == old(buffer.contents)
  {
    var input := new Input(incoming.bytes, incoming.contiguous);
    var reader := new BufferingStreamReader(buffer, input);
    ghost var all := reader.All();
    assert all == buffer.contents + incoming.bytes;
    text := [];
    for i := 0 to |requests|
      invariant reader.Valid() && reader.buffer == buffer && reader.input == input && fresh(reader) && fresh(input)
      invariant reader.All() == all && buffer.Valid() && buffer.contents == old(buffer.contents)
      invariant reader.index <= |all| && text == all[..reader.index]
    {
      text := Deliver(reader, requests[i], text);
    }
    fits := reader.Available() <= buffer.maxSize;
    if fits {
      reader.StoreRemainder();
    }
  }

  function CameIn(incoming: seq<Incoming>): seq<Byte> {
    if incoming == [] then [] else CameIn(incoming[..|incoming| - 1]) + incoming[|incoming| - 1].bytes
  }

  /**
   * Any number of reader sessions on one buffer: what was delivered, session by session, and what waits are what
   * waited before and what came in. Ends early only at a session whose remainder does not fit the buffer; the last
   * text is what that session delivered.
   */
  method ReaderSessions(buffer: BoundedDeque, incoming: seq<Incoming>, requests: seq<seq<Request>>)
    returns (fits: bool, texts: seq<seq<Byte>>, last: seq<Byte>)
    requires buffer.Valid() && |incoming| == |requests| && forall i | 0 <= i < |incoming| :: incoming[i].Valid()
    modifies buffer
    ensures buffer.Valid() && |texts| <= |incoming| && (fits <==> |texts| == |incoming|)
    ensures Flattened(texts) + buffer.contents == old(buffer.contents) + CameIn(incoming[..|texts|])
    ensures !fits ==> last <= buffer.contents + incoming[|texts|].bytes
    ensures !fits ==> |buffer.contents + incoming[|texts|].bytes| - |last| > buffer.maxSize
  {
    fits, texts, last := true, [], [];
    var i := 0;
    while i < |incoming|
      invariant buffer.Valid() && |texts| == i <= |incoming| && fits
      invariant Flattened(texts) + buffer.contents == old(buffer.contents) + CameIn(incoming[..i])
    {
      ghost var was := buffer.contents;
      var text;
      fits, text := ReaderSession(buffer, incoming[i], requests[i]);
      if !fits {
        last := text;
        return;
      }
      assert incoming[..i + 1][..i] == incoming[..i];
      FlattenedAppended(texts, text);
      HandedOn(Flattened(texts), text, was, buffer.contents, old(buffer.contents), CameIn(incoming[..i]), incoming[i].bytes);
      texts := texts + [text];
      i := i + 1;
    }
  }
}
