/**
 * A queue that is filled from interrupts and emptied by one reader, which is told through the event dispatcher
 * that there is something to read. Interrupts hit between any two accesses of the reader to the shared state.
 */
module QueueForOneReaderOneIrqWriter {
  import opened Arithmetic
  import opened Bytes
  import opened Copying
  import opened RingBuffer
  import opened Sequences

  function Length(size: nat, b: nat, e: nat): int {
    if b <= e then e - b else size - b + e
  }

  /** One element stays free, so this is when another one fits. */
  predicate Fits(size: nat, b: nat, e: nat, n: nat) {
    Length(size, b, e) + n < size
  }

  predicate Full(size: nat, b: nat, e: nat) {
    (e == size - 1 || b == e + 1) && (e != size - 1 || b == 0)
  }

  /** How much of the data goes before the end of the buffer. */
  function CopySize(size: nat, e: nat, n: nat): int {
    if n <= size - e then n else size - e
  }

  /** The check before the first copy of a range, and the assertion before the second. */
  predicate FirstCheck(size: nat, b: nat, e: nat, n: nat) {
    b <= e || b > e + CopySize(size, e, n)
  }

  predicate SecondCheck(size: nat, b: nat, e: nat, n: nat)
    requires e < size
  {
    var next := Advanced(e, size, CopySize(size, e, n));
    b <= next || b > next + (n - CopySize(size, e, n))
  }

  lemma FullIsNoRoom(size: nat, b: nat, e: nat)
    requires b < size && e < size
    ensures Full(size, b, e) <==> !Fits(size, b, e, 1)
    ensures Fits(size, b, e, 0)
  {
  }

  /**
   * The two checks let exactly those ranges pass that fit, unless the read index is at the start of the buffer:
   * then they let everything pass.
   */
  lemma ChecksAreExact(size: nat, b: nat, e: nat, n: nat)
    requires b < size && e < size
    ensures FirstCheck(size, b, e, n) && SecondCheck(size, b, e, n) <==> Fits(size, b, e, n) || b == 0
    ensures b > e ==> (FirstCheck(size, b, e, n) <==> Fits(size, b, e, n))
  {
    if b <= e && n > size - e {
      assert Advanced(e, size, CopySize(size, e, n)) == 0;
    }
  }

  /** A range of exactly the size of an empty buffer passes both checks and leaves the buffer looking empty. */
  lemma FullBufferLooksEmpty(size: nat)
    requires size > 0
    ensures !Full(size, 0, 0) <==> size > 1
    ensures FirstCheck(size, 0, 0, size) && SecondCheck(size, 0, 0, size) && !Fits(size, 0, 0, size)
    ensures Length(size, 0, Advanced(0, size, CopySize(size, 0, size))) == 0
  {
  }

  /** Both parts of a range that fits land behind what is unread. */
  lemma PushedRange<T>(s: seq<T>, b: nat, e: nat, data: seq<T>)
    requires b < |s| && e < |s| && Fits(|s|, b, e, |data|)
    ensures var n := CopySize(|s|, e, |data|); var next := Advanced(e, |s|, n);
      && 0 <= n <= |data| && e + n <= |s| && next < |s| && next + |data[n..]| < |s|
      && Unread(Replaced(Replaced(s, e, data[..n]), next, data[n..]), b, next + |data[n..]|) == Unread(s, b, e) + data
  {
    var n := CopySize(|s|, e, |data|);
    var next := Advanced(e, |s|, n);
    PushedPiece(s, b, e, data[..n]);
    var t := Replaced(s, e, data[..n]);
    assert |Unread(t, b, next)| + |data[n..]| < |s|;
    PushedPiece(t, b, next, data[n..]);
    assert Unread(s, b, e) + data == Unread(s, b, e) + data[..n] + data[n..];
  }

  /** How far the dispatcher is with a DataAvailable call that it took from its queue. */
  datatype Phase = Idle | Taken | Cleared

  class Queue<T(0)> {
    const buffer: array<T>
    var contentsBegin: nat
    var contentsEnd: nat
    var notificationScheduled: bool

    /** Everything that was ever added, and how much of it was consumed. */
    ghost var stream: seq<T>
    ghost var freed: nat
    /** The DataAvailable calls that wait in the event dispatcher, and the one that it is executing. */
    ghost var scheduled: nat
    ghost var phase: Phase
    /** Whether anything was added since onDataAvailable last started. */
    ghost var unseen: bool

    ghost predicate Contained()
      reads this, buffer
    {
      && contentsBegin < buffer.Length && contentsEnd < buffer.Length
      && freed <= |stream|
      && Unread(buffer[..], contentsBegin, contentsEnd) == stream[freed..]
    }

    /** The dispatcher never holds more than one call, and holds or runs one whenever there are unseen elements. */
    ghost predicate Notified()
      reads this
    {
      && (phase.Taken? ==> notificationScheduled && scheduled == 0)
      && (!phase.Taken? ==> scheduled == if notificationScheduled then 1 else 0)
      && (unseen ==> scheduled == 1 || !phase.Idle?)
    }

    ghost predicate Valid()
      reads this, buffer
    {
      Contained() && Notified()
    }

    constructor (buffer: array<T>)
      requires buffer.Length > 0
      ensures Valid() && this.buffer == buffer && stream == [] && freed == contentsBegin == 0 && phase.Idle? && !unseen
    {
      this.buffer := buffer;
      contentsBegin := 0;
      contentsEnd := 0;
      notificationScheduled := false;
      stream := [];
      freed := 0;
      scheduled := 0;
      phase := Idle;
      unseen := false;
    }

    method AddFromInterrupt(element: T)
      requires Valid() && !Full(buffer.Length, contentsBegin, contentsEnd)
      modifies this`contentsEnd, this`notificationScheduled, this`stream, this`scheduled, this`unseen, buffer
      ensures Valid() && stream == old(stream) + [element] && unseen
    {
      FullIsNoRoom(buffer.Length, contentsBegin, contentsEnd);
      PushedPiece(buffer[..], contentsBegin, contentsEnd, [element]);
      ghost var replaced := Replaced(buffer[..], contentsEnd, [element]);
      buffer[contentsEnd] := element;
      assert buffer[..] == replaced;
      if contentsEnd == buffer.Length - 1 {
        contentsEnd := 0;
      } else {
        contentsEnd := contentsEnd + 1;
      }
      RestAppended(stream, freed, [element]);
      stream := stream + [element];
      unseen := true;
      NotifyDataAvailable();
    }

    /** A range that does not fit is dropped when the contents wrap; the program asserts that it fits otherwise. */
    method AddRangeFromInterrupt(data: seq<T>)
      requires Valid() && !Full(buffer.Length, contentsBegin, contentsEnd)
      requires Fits(buffer.Length, contentsBegin, contentsEnd, |data|) || contentsBegin > contentsEnd
      modifies this`contentsEnd, this`notificationScheduled, this`stream, this`scheduled, this`unseen, buffer
      ensures Valid() && unseen == old(unseen || (data != [] && Fits(buffer.Length, contentsBegin, contentsEnd, |data|)))
      ensures old(Fits(buffer.Length, contentsBegin, contentsEnd, |data|)) ==> stream == old(stream) + data
      ensures !old(Fits(buffer.Length, contentsBegin, contentsEnd, |data|)) ==> stream == old(stream) && buffer[..] == old(buffer[..])
    {
      ChecksAreExact(buffer.Length, contentsBegin, contentsEnd, |data|);
      var copySize := if |data| <= buffer.Length - contentsEnd then |data| else buffer.Length - contentsEnd;
      var begin := contentsBegin;
      if !(begin <= contentsEnd || begin > contentsEnd + copySize) {
        return;
      }
      CopyIn(data, copySize);
      RestAppended(stream, freed, data);
      stream := stream + data;
      unseen := unseen || data != [];
      NotifyDataAvailable();
    }

    /** Copies up to the end of the buffer, and the rest to its start. */
    method CopyIn(data: seq<T>, copySize: nat)
      requires contentsBegin < buffer.Length && contentsEnd < buffer.Length
      requires Fits(buffer.Length, contentsBegin, contentsEnd, |data|) && copySize == CopySize(buffer.Length, contentsEnd, |data|)
      modifies this`contentsEnd, buffer
      ensures contentsEnd < buffer.Length
      ensures Unread(buffer[..], contentsBegin, contentsEnd) == old(Unread(buffer[..], contentsBegin, contentsEnd)) + data
    {
      PushedRange(buffer[..], contentsBegin, contentsEnd, data);
      Write(buffer, contentsEnd, data[..copySize]);
      if contentsEnd == buffer.Length - copySize {
        contentsEnd := 0;
      } else {
        contentsEnd := contentsEnd + copySize;
      }
      var rest := data[copySize..];
      assert contentsBegin <= contentsEnd || contentsBegin > contentsEnd + |rest|;
      Write(buffer, contentsEnd, rest);
      contentsEnd := contentsEnd + |rest|;
    }

    method NotifyDataAvailable()
      requires Contained()
      requires phase.Taken? ==> notificationScheduled && scheduled == 0
      requires !phase.Taken? ==> scheduled == if notificationScheduled then 1 else 0
      requires unseen ==> contentsBegin != contentsEnd || scheduled == 1 || !phase.Idle?
      modifies this`notificationScheduled, this`scheduled
      ensures Valid()
    {
      if contentsBegin != contentsEnd {
        var wasScheduled := notificationScheduled;
        notificationScheduled := true;
        if !wasScheduled {
          scheduled := scheduled + 1;
        }
      }
    }

    /** Whatever is added between two accesses of the reader; the interrupt checks for room. */
    method Interrupt()
      requires Valid()
      modifies this`contentsEnd, this`notificationScheduled, this`stream, this`scheduled, this`unseen, buffer
      ensures Valid() && old(stream) <= stream
      ensures old(unseen) ==> unseen
      ensures |stream| > |old(stream)| ==> unseen
    {
      var times: nat := *;
      var i := 0;
      while i < times
        invariant Valid() && old(stream) <= stream
        invariant old(unseen) ==> unseen
        invariant |stream| > |old(stream)| ==> unseen
      {
        var data: seq<T> := *;
        if !Full(buffer.Length, contentsBegin, contentsEnd) {
          if |data| == 1 {
            AddFromInterrupt(data[0]);
          } else if Fits(buffer.Length, contentsBegin, contentsEnd, |data|) || contentsBegin > contentsEnd {
            AddRangeFromInterrupt(data);
          }
        }
        i := i + 1;
      }
    }

    /** The dispatcher executes the call that waits in it, up to where the callback starts. */
    method DataAvailable()
      requires Valid() && phase.Idle? && scheduled == 1
      modifies this, buffer
      ensures Valid() && phase.Idle? && old(stream) <= stream && freed == old(freed) && !unseen
    {
      scheduled := scheduled - 1;
      phase := Taken;
      Interrupt();
      notificationScheduled := false;
      phase := Cleared;
      Interrupt();
      unseen := false;
      phase := Idle;
    }

    method Empty() returns (empty: bool)
      requires Valid()
      ensures empty <==> freed == |stream|
    {
      empty := contentsBegin == contentsEnd;
    }

    method Get() returns (element: T)
      requires Valid() && freed < |stream|
      modifies this, buffer
      ensures Valid() && old(stream) <= stream && freed == old(freed) + 1 && element == stream[old(freed)]
      ensures phase == old(phase)
    {
      UnreadAt(buffer[..], contentsBegin, contentsEnd, 0);
      element := buffer[contentsBegin];
      Interrupt();
      FreedPiece(buffer[..], contentsBegin, contentsEnd, stream, freed, 1);
      if contentsBegin == buffer.Length - 1 {
        contentsBegin := 0;
      } else {
        contentsBegin := contentsBegin + 1;
      }
      freed := freed + 1;
    }

    /** Between its two updates of the read index, that index is at the start of the buffer. */
    method Consume(amount: nat)
      requires Valid() && amount <= |stream| - freed
      modifies this, buffer
      ensures Valid() && old(stream) <= stream && freed == old(freed) + amount && phase == old(phase)
      ensures old(contentsBegin) + amount < buffer.Length ==> |stream| < old(freed) + buffer.Length
    {
      var rest := amount;
      if contentsBegin + rest >= buffer.Length {
        rest := rest - (buffer.Length - contentsBegin);
        WrapBegin();
      }
      Interrupt();
      AdvanceBegin(rest);
    }

    method WrapBegin()
      requires Valid() && buffer.Length - contentsBegin <= |stream| - freed
      modifies this`contentsBegin, this`freed
      ensures Valid() && contentsBegin == 0 && freed == old(freed + (buffer.Length - contentsBegin))
    {
      FreedPiece(buffer[..], contentsBegin, contentsEnd, stream, freed, buffer.Length - contentsBegin);
      freed := freed + (buffer.Length - contentsBegin);
      contentsBegin := 0;
    }

    method AdvanceBegin(amount: nat)
      requires Valid() && contentsBegin + amount < buffer.Length && amount <= |stream| - freed
      modifies this`contentsBegin, this`freed
      ensures Valid() && contentsBegin == old(contentsBegin) + amount && freed == old(freed) + amount
    {
      FreedPiece(buffer[..], contentsBegin, contentsEnd, stream, freed, amount);
      contentsBegin := contentsBegin + amount;
      freed := freed + amount;
    }

    /** How much was unread when the second index was loaded. */
    method Size() returns (size: nat)
      requires Valid()
      modifies this`contentsEnd, this`notificationScheduled, this`stream, this`scheduled, this`unseen, buffer
      ensures Valid() && old(stream) <= stream && size == |stream| - freed
    {
      var begin := contentsBegin;
      Interrupt();
      var end := contentsEnd;
      FullIsNoRoom(buffer.Length, begin, end);
      if Full(buffer.Length, begin, end) {
        size := buffer.Length - 1;
      } else if end >= begin {
        size := end - begin;
      } else {
        size := buffer.Length - begin + end;
      }
    }

    /** Where the element is that lies a number of elements behind an index. */
    method Wrapped(index: nat, offset: nat) returns (begin: nat)
      requires index < buffer.Length && offset < buffer.Length
      ensures begin == PieceBegin(buffer.Length, index, offset)
    {
      var rest := offset;
      begin := index;
      if begin + rest >= buffer.Length {
        rest := rest - (buffer.Length - begin);
        begin := 0;
      }
      begin := begin + rest;
    }

    method At(position: nat) returns (element: T)
      requires Valid() && position < |stream| - freed
      modifies this`contentsEnd, this`notificationScheduled, this`stream, this`scheduled, this`unseen, buffer
      ensures Valid() && old(stream) <= stream && element == stream[freed + position]
    {
      var begin := Wrapped(contentsBegin, position);
      Interrupt();
      UnreadAt(buffer[..], contentsBegin, contentsEnd, position);
      element := buffer[begin];
    }

    /** The unread elements from a position on, as far as they are stored contiguously. */
    method ContiguousRange(offset: nat) returns (begin: nat, end: nat)
      requires Valid() && offset <= |stream| - freed
      modifies this`contentsEnd, this`notificationScheduled, this`stream, this`scheduled, this`unseen, buffer
      ensures Valid() && old(stream) <= stream
      ensures begin <= end <= buffer.Length && offset + (end - begin) <= |stream| - freed
      ensures begin == PieceBegin(buffer.Length, contentsBegin, offset)
      ensures buffer[begin..end] == stream[freed + offset..freed + offset + (end - begin)]
      ensures begin == end ==> offset == old(|stream|) - freed
    {
      var loaded := contentsEnd;
      ghost var unread := |stream| - freed;
      Interrupt();
      begin, end := RangeUpTo(loaded, offset, unread);
    }

    /** The range up to an end index that may be outdated by now. */
    method RangeUpTo(loaded: nat, offset: nat, ghost unread: nat) returns (begin: nat, end: nat)
      requires Contained() && loaded < buffer.Length
      requires offset <= unread == Length(buffer.Length, contentsBegin, loaded) <= |stream| - freed
      ensures begin <= end <= buffer.Length && offset + (end - begin) <= unread && (begin == end ==> offset == unread)
      ensures begin == PieceBegin(buffer.Length, contentsBegin, offset)
      ensures buffer[begin..end] == stream[freed + offset..freed + offset + (end - begin)]
    {
      begin := Wrapped(contentsBegin, offset);
      end := loaded;
      if end < begin {
        end := buffer.Length;
      }
      PieceBounds(buffer.Length, contentsBegin, loaded, offset);
      SpanIsInStream(buffer[..], contentsBegin, contentsEnd, stream, freed, offset, end - begin);
    }
  }

  class StreamReader {
    const queue: Queue<Byte>
    var available: nat
    var offset: nat
    /** How much was consumed before this reader existed, and how much was in the queue by then. */
    ghost const start: nat
    ghost const last: nat
    /** How much this reader gave back to the queue. */
    ghost var committed: nat

    ghost predicate Valid()
      reads this, queue, queue.buffer
    {
      && queue.Valid()
      && offset <= |queue.stream| - queue.freed && offset <= available
      && queue.freed == start + committed && start + available == last <= |queue.stream|
    }

    /** How much was added since this reader exists. */
    ghost function Added(): nat
      requires Valid()
      reads this, queue, queue.buffer
    {
      |queue.stream| - last
    }

    /** How much of the stream was read. */
    ghost function Position(): nat
      reads this, queue
    {
      queue.freed + offset
    }

    constructor (queue: Queue<Byte>)
      requires queue.Valid()
      modifies queue, queue.buffer
      ensures Valid() && this.queue == queue && start == queue.freed == old(queue.freed) && offset == 0
      ensures Added() == committed == 0 && old(queue.stream) <= queue.stream
      ensures available == |queue.stream| - queue.freed && queue.contentsBegin == old(queue.contentsBegin)
    {
      var size := queue.Size();
      this.queue := queue;
      available := size;
      offset := 0;
      start := queue.freed;
      last := |queue.stream|;
      committed := 0;
    }

    /**
     * What the reader says it can still read is there if and only if no more was committed than was added since it
     * exists; it overstates by what was committed, and understates by what was added.
     */
    function Available(): (r: nat)
      requires Valid()
      reads this, queue, queue.buffer
      ensures r <= |queue.stream| - Position() <==> committed <= Added()
      ensures r - (|queue.stream| - Position()) == committed - Added()
    {
      available - offset
    }

    method Commit()
      requires Valid()
      modifies this, queue, queue.buffer
      ensures Valid() && offset == 0 && Position() == old(Position()) && old(queue.stream) <= queue.stream
      ensures Available() == old(available) && committed == old(committed + offset)
      ensures old(queue.contentsBegin + offset) < queue.buffer.Length ==> |queue.stream| < old(queue.freed) + queue.buffer.Length
    {
      queue.Consume(offset);
      committed := committed + offset;
      offset := 0;
    }

    /** Delivers the next elements in order, all of them unless the queue ran empty or its initial size was read. */
    method Extract(range: array<Byte>) returns (ok: bool)
      requires Valid() && range != queue.buffer
      modifies this`offset, queue`contentsEnd, queue`notificationScheduled, queue`stream, queue`scheduled, queue`unseen, queue.buffer, range
      ensures Valid() && old(queue.stream) <= queue.stream && queue.freed == old(queue.freed)
      ensures old(offset) <= offset <= old(offset) + range.Length
      ensures range[..] == Replaced(old(range[..]), 0, queue.stream[old(Position())..Position()])
      ensures ok <==> offset == old(offset) + range.Length
      ensures !ok ==> Position() >= old(|queue.stream|) || offset == available
    {
      ghost var position, was, data := Position(), range[..], queue.stream[Position()..Position()];
      ok := true;
      var done := 0;
      while done < range.Length
        invariant 0 <= done <= range.Length
        invariant Valid() && old(queue.stream) <= queue.stream
        invariant offset == old(offset) + done && queue.freed == old(queue.freed)
        invariant data == queue.stream[position..Position()]
        invariant range[..] == Replaced(was, 0, data)
      {
        ghost var last, middle := queue.stream, Position();
        var n := ExtractPiece(range, done);
        ghost var piece := queue.stream[middle..Position()];
        ReadOnwards(last, queue.stream, position, middle, Position());
        Delivered(was, data, piece);
        data := data + piece;
        done := done + n;
        if n == 0 {
          ok := false;
          break;
        }
      }
    }

    method ExtractPiece(range: array<Byte>, done: nat) returns (n: nat)
      requires Valid() && range != queue.buffer && done < range.Length
      modifies this`offset, queue`contentsEnd, queue`notificationScheduled, queue`stream, queue`scheduled, queue`unseen, queue.buffer, range
      ensures Valid() && old(queue.stream) <= queue.stream && queue.freed == old(queue.freed)
      ensures done + n <= range.Length && offset == old(offset) + n
      ensures range[..] == Replaced(old(range[..]), done, queue.stream[old(Position())..Position()])
      ensures n == 0 ==> Position() >= old(|queue.stream|) || offset == available
    {
      var begin, end := queue.ContiguousRange(offset);
      n := Min(end - begin, Min(range.Length - done, available - offset));
      CopyPiece(range, done, begin, n);
    }

    method CopyPiece(range: array<Byte>, done: nat, begin: nat, n: nat)
      requires Valid() && range != queue.buffer && done + n <= range.Length && offset + n <= available
      requires begin == PieceBegin(queue.buffer.Length, queue.contentsBegin, offset) && begin + n <= queue.buffer.Length
      requires offset + n <= |queue.stream| - queue.freed
      modifies this`offset, queue`contentsEnd, queue`notificationScheduled, queue`stream, queue`scheduled, queue`unseen, queue.buffer, range
      ensures Valid() && old(queue.stream) <= queue.stream && offset == old(offset) + n
      ensures range[..] == Replaced(old(range[..]), done, queue.stream[old(Position())..Position()])
    {
      ghost var position, stream := Position(), queue.stream;
      CopyBytes(range, done, begin, n, position);
      PrefixSlice(stream, queue.stream, position, position + n);
      offset := offset + n;
    }

    /** Copies element by element, with interrupts in between. */
    method CopyBytes(range: array<Byte>, done: nat, begin: nat, n: nat, ghost position: nat)
      requires Valid() && position == Position() && range != queue.buffer && done + n <= range.Length
      requires begin == PieceBegin(queue.buffer.Length, queue.contentsBegin, offset) && begin + n <= queue.buffer.Length
      requires offset + n <= |queue.stream| - queue.freed
      modifies queue`contentsEnd, queue`notificationScheduled, queue`stream, queue`scheduled, queue`unseen, queue.buffer, range
      ensures Valid() && old(queue.stream) <= queue.stream
      ensures range[..] == Replaced(old(range[..]), done, old(queue.stream)[position..position + n])
    {
      ghost var was, first := range[..], queue.stream;
      ghost var data := first[position..position + n];
      var i := 0;
      while i < n
        invariant 0 <= i <= n
        invariant Valid() && first <= queue.stream
        invariant range[..] == Replaced(was, done, data[..i])
      {
        PrefixElement(first, queue.stream, position, position + n, i);
        CopyByte(range, done + i, begin + i, offset + i, data[i]);
        ReplacedOnwards(was, done, data, i);
        i := i + 1;
      }
      assert data[..i] == data;
    }

    method CopyByte(range: array<Byte>, to: nat, from: nat, ghost position: nat, ghost element: Byte)
      requires Valid() && range != queue.buffer && to < range.Length
      requires position < |queue.stream| - queue.freed && from == PieceBegin(queue.buffer.Length, queue.contentsBegin, position)
      requires element == queue.stream[queue.freed + position]
      modifies queue`contentsEnd, queue`notificationScheduled, queue`stream, queue`scheduled, queue`unseen, queue.buffer, range
      ensures Valid() && old(queue.stream) <= queue.stream
      ensures range[..] == old(range[..])[to := element]
    {
      queue.Interrupt();
      UnreadAt(queue.buffer[..], queue.contentsBegin, queue.contentsEnd, position);
      range[to] := queue.buffer[from];
    }

    method Rewind(marker: nat)
      requires Valid() && marker <= offset
      modifies this`offset
      ensures Valid() && offset == marker
    {
      offset := marker;
    }
  }

  /** One byte is added, read and committed: the reader says that one can still be read, of a queue that is empty. */
  method CommittedIsStillAvailable() returns (available: nat, empty: bool)
    ensures available == 1 && empty
  {
    var buffer := new Byte[2];
    var queue := new Queue<Byte>(buffer);
    queue.AddFromInterrupt(7);
    var reader := new StreamReader(queue);
    var range := new Byte[1];
    var ok := reader.Extract(range);
    reader.Commit();
    available := reader.Available();
    empty := queue.Empty();
  }
}
