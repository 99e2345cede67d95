/**
 * A byte queue between one reader and one writer, where the writer may interrupt the reader between any two
 * accesses to the shared state.
 */
module AtomicByteQueue {
  import opened Bytes
  import opened Copying
  import opened RingBuffer
  import opened Sequences

  class Queue {
    const storage: array<Byte>
    var b: nat
    var e: nat
    /** Everything that was ever pushed, and how much of it was popped. */
    ghost var stream: seq<Byte>
    ghost var freed: nat

    /** Holds between any two accesses: no byte that was not popped is overwritten. */
    ghost predicate Valid()
      reads this, storage
    {
      && b <= storage.Length && e < storage.Length
      && freed <= |stream|
      && Unread(storage[..], b, e) == stream[freed..]
    }

    constructor (storage: array<Byte>)
      requires storage.Length > 0
      ensures Valid() && this.storage == storage && b < storage.Length && stream == [] && freed == 0
    {
      this.storage := storage;
      b := 0;
      e := 0;
      stream := [];
      freed := 0;
    }

    function SizeOf(begin: nat, end: nat): int {
      if begin <= end then end - begin else storage.Length + (end - begin)
    }

    function MaxSize(): int {
      storage.Length - 1
    }

    /** Runs to completion as seen by the reader. */
    method Push(data: seq<Byte>)
      requires Valid() && |data| <= MaxSize() - SizeOf(b, e)
      modifies this`e, this`stream, storage
      ensures Valid() && stream == old(stream) + data
    {
      ghost var unread := Unread(storage[..], b, e);
      var done := 0;
      assert unread + data[..done] == unread;
      while done < |data|
        invariant 0 <= done <= |data|
        invariant e < storage.Length
        invariant Unread(storage[..], b, e) == unread + data[..done] && stream == old(stream)
      {
        var n := if |data| - done <= storage.Length - e then |data| - done else storage.Length - e;
        PushPiece(data[done..done + n]);
        AppendedOnwards(data, done, n, unread);
        done := done + n;
      }
      assert data[..done] == data;
      RestAppended(stream, freed, data);
      stream := stream + data;
    }

    /** What one round of the loop writes: a piece that does not go beyond the end of the storage. */
    method PushPiece(data: seq<Byte>)
      requires b <= storage.Length && e < storage.Length && e + |data| <= storage.Length
      requires |Unread(storage[..], b, e)| + |data| < storage.Length
      modifies this`e, storage
      ensures e < storage.Length && Unread(storage[..], b, e) == old(Unread(storage[..], b, e)) + data
    {
      PushedPiece(storage[..], b, e, data);
      Write(storage, e, data);
      e := e + |data|;
      if e == storage.Length {
        e := 0;
      }
    }

    /** Whatever the writer inserts between two accesses of the reader. */
    method Interrupt()
      requires Valid()
      modifies this`e, this`stream, storage
      ensures Valid() && old(stream) <= stream
    {
      var times: nat := *;
      var i := 0;
      while i < times
        invariant Valid() && old(stream) <= stream
      {
        var data: seq<Byte> := *;
        var _ := Insert(data);
        i := i + 1;
      }
    }

    /** The writer: inserts as much as fits. */
    method Insert(data: seq<Byte>) returns (ok: bool)
      requires Valid()
      modifies this`e, this`stream, storage
      ensures Valid()
      ensures ok == (|data| <= storage.Length - 1 - old(|stream| - freed))
      ensures stream == old(stream) + data[..if ok then |data| else storage.Length - 1 - old(|stream| - freed)]
    {
      var available := MaxSize() - SizeOf(b, e);
      ok := |data| <= available;
      Push(data[..if ok then |data| else available]);
    }

    /** Between its two updates of the read index, that index is at the end of the storage. */
    method Pop(size: nat)
      requires Valid() && b < storage.Length && size <= |stream| - freed
      modifies this, storage
      ensures Valid() && b < storage.Length && freed == old(freed) + size && old(stream) <= stream
    {
      var takenFromEnd := if size <= storage.Length - b then size else storage.Length - b;
      PoppedPiece(storage[..], b, e, takenFromEnd);
      b := b + takenFromEnd;
      freed := freed + takenFromEnd;
      assert stream[freed..] == old(stream[freed..])[takenFromEnd..];

      Interrupt();

      if b == storage.Length {
        LazyWrap(storage[..], e);
        PoppedPiece(storage[..], 0, e, size - takenFromEnd);
        ghost var unread := stream[freed..];
        b := size - takenFromEnd;
        freed := freed + (size - takenFromEnd);
        assert stream[freed..] == unread[size - takenFromEnd..];
      }
    }

    /** How much was unread when the second index was loaded. */
    method Size() returns (size: nat)
      requires Valid() && b < storage.Length
      modifies this`e, this`stream, storage
      ensures Valid() && old(stream) <= stream && size == |stream| - freed
    {
      var begin := b;
      Interrupt();
      var end := e;
      size := SizeOf(begin, end);
    }

    /** The unread bytes from a position on, as far as they are stored contiguously. */
    method PeekContiguousRange(start: nat) returns (begin: nat, end: nat)
      requires Valid() && b < storage.Length && start <= |stream| - freed
      modifies this`e, this`stream, storage
      ensures Valid() && old(stream) <= stream
      ensures begin <= end <= storage.Length && start + (end - begin) <= |stream| - freed
      ensures begin == PieceBegin(storage.Length, b, start)
      ensures storage[begin..end] == stream[freed + start..freed + start + (end - begin)]
      ensures begin == end ==> start == old(|stream|) - freed
    {
      var endIndex := e;
      PieceBounds(storage.Length, b, e, start);
      Interrupt();
      begin := b;
      var takenFromEnd := if start <= storage.Length - begin then start else storage.Length - begin;
      begin := begin + takenFromEnd;
      if begin == storage.Length {
        begin := start - takenFromEnd;
      }
      end := if begin <= endIndex then endIndex else storage.Length;
      SpanIsInStream(storage[..], b, e, stream, freed, start, end - begin);
    }
  }

  class Reader {
    const queue: Queue
    var offset: nat

    ghost predicate Valid()
      reads this, queue, queue.storage
    {
      && queue.Valid() && queue.b < queue.storage.Length
      && offset <= |queue.stream| - queue.freed
    }

    /** How much of the stream was read. */
    ghost function Position(): nat
      reads this, queue
    {
      queue.freed + offset
    }

    constructor (queue: Queue)
      requires queue.Valid() && queue.b < queue.storage.Length
      ensures Valid() && this.queue == queue && offset == 0
    {
      this.queue := queue;
      offset := 0;
    }

    /** Gives the bytes that were read back to the writer. */
    method Commit()
      requires Valid()
      modifies this, queue, queue.storage
      ensures Valid() && offset == 0 && Position() == old(Position()) && old(queue.stream) <= queue.stream
    {
      queue.Pop(offset);
      offset := 0;
    }

    /** Delivers the next bytes of the stream in order, all of them unless the queue ran empty. */
    method Extract(range: array<Byte>) returns (ok: bool)
      requires Valid() && range != queue.storage
      modifies this, queue`e, queue`stream, queue.storage, range
      ensures Valid() && old(queue.stream) <= queue.stream
      ensures old(offset) <= offset <= old(offset) + range.Length
      ensures range[..] == Replaced(old(range[..]), 0, queue.stream[old(Position())..Position()])
      ensures ok <==> offset == old(offset) + range.Length
      ensures !ok ==> Position() >= old(|queue.stream|)
    {
      ghost var position, was, data := Position(), range[..], queue.stream[Position()..Position()];
      ok := true;
      var done := 0;
      while done < range.Length
        invariant 0 <= done <= range.Length
        invariant Valid() && old(queue.stream) <= queue.stream
        invariant offset == old(offset) + done && queue.freed == old(queue.freed)
        invariant data == queue.stream[position..Position()]
        invariant range[..] == Replaced(was, 0, data)
      {
        ghost var last, middle := queue.stream, Position();
        var n := ExtractPiece(range, done);
        ghost var piece := queue.stream[middle..Position()];
        ReadOnwards(last, queue.stream, position, middle, Position());
        Delivered(was, data, piece);
        data := data + piece;
        done := done + n;
        if n == 0 {
          ok := false;
          break;
        }
      }
    }

    /** Reads what is contiguous of the next bytes, and nothing if there are none. */
    method ExtractPiece(range: array<Byte>, done: nat) returns (n: nat)
      requires Valid() && range != queue.storage && done < range.Length
      modifies this, queue`e, queue`stream, queue.storage, range
      ensures Valid() && old(queue.stream) <= queue.stream
      ensures done + n <= range.Length && offset == old(offset) + n
      ensures range[..] == Replaced(old(range[..]), done, queue.stream[old(Position())..Position()])
      ensures n == 0 ==> Position() >= old(|queue.stream|)
    {
      var begin, end := queue.PeekContiguousRange(offset);
      n := if end - begin <= range.Length - done then end - begin else range.Length - done;
      CopyPiece(range, done, begin, n);
    }

    method CopyPiece(range: array<Byte>, done: nat, begin: nat, n: nat)
      requires Valid() && range != queue.storage && done + n <= range.Length
      requires begin == PieceBegin(queue.storage.Length, queue.b, offset) && begin + n <= queue.storage.Length
      requires offset + n <= |queue.stream| - queue.freed
      modifies this`offset, queue`e, queue`stream, queue.storage, range
      ensures Valid() && old(queue.stream) <= queue.stream && offset == old(offset) + n
      ensures range[..] == Replaced(old(range[..]), done, queue.stream[old(Position())..Position()])
    {
      ghost var position, stream := Position(), queue.stream;
      CopyBytes(range, done, begin, n, position);
      PrefixSlice(stream, queue.stream, position, position + n);
      offset := offset + n;
    }

    /** Copies byte by byte, with the writer at work in between. */
    method CopyBytes(range: array<Byte>, done: nat, begin: nat, n: nat, ghost position: nat)
      requires Valid() && position == Position() && range != queue.storage && done + n <= range.Length
      requires begin == PieceBegin(queue.storage.Length, queue.b, offset) && begin + n <= queue.storage.Length
      requires offset + n <= |queue.stream| - queue.freed
      modifies queue`e, queue`stream, queue.storage, range
      ensures Valid() && old(queue.stream) <= queue.stream
      ensures range[..] == Replaced(old(range[..]), done, old(queue.stream)[position..position + n])
    {
      ghost var was, first := range[..], queue.stream;
      ghost var data := first[position..position + n];
      var i := 0;
      while i < n
        invariant 0 <= i <= n
        invariant Valid() && first <= queue.stream
        invariant range[..] == Replaced(was, done, data[..i])
      {
        PrefixElement(first, queue.stream, position, position + n, i);
        CopyByte(range, done + i, begin + i, offset + i, data[i]);
        ReplacedOnwards(was, done, data, i);
        i := i + 1;
      }
      assert data[..i] == data;
    }

    method CopyByte(range: array<Byte>, to: nat, from: nat, ghost start: nat, ghost element: Byte)
      requires Valid() && range != queue.storage && to < range.Length
      requires start < |queue.stream| - queue.freed && from == PieceBegin(queue.storage.Length, queue.b, start)
      requires element == queue.stream[queue.freed + start]
      modifies queue`e, queue`stream, queue.storage, range
      ensures Valid() && old(queue.stream) <= queue.stream
      ensures range[..] == old(range[..])[to := element]
    {
      queue.Interrupt();
      UnreadAt(queue.storage[..], queue.b, queue.e, start);
      range[to] := queue.storage[from];
    }

    /** Goes back to a position that was not committed since. */
    method Rewind(marker: nat)
      requires Valid() && marker <= offset
      modifies this
      ensures Valid() && offset == marker
    {
      offset := marker;
    }

    method Available() returns (available: nat)
      requires Valid()
      modifies queue`e, queue`stream, queue.storage
      ensures Valid() && old(queue.stream) <= queue.stream && available == |queue.stream| - Position()
    {
      var size := queue.Size();
      available := size - offset;
    }
  }
}
