/** A writer into a range of memory, and the gap it can open at an earlier position. */
module ByteOutputStream {
  import opened Bytes
  import opened Copying
  import opened Sequences

  /** What the copy that closes a gap leaves before, in and behind the range. */
  lemma RestoredAround<T>(was: seq<T>, begin: nat, rangeBegin: nat, rangeEnd: nat, end: nat)
    requires begin <= rangeBegin <= rangeEnd <= end <= |was|
    ensures var now := Replaced(was, rangeBegin, was[rangeEnd..end]);
      && now[begin..rangeBegin + (end - rangeEnd)] == was[begin..rangeBegin] + was[rangeEnd..end]
      && now[..begin] == was[..begin] && now[end..] == was[end..]
  {
  }

  class ByteOutputStreamWriter {
    const memory: array<Byte>
    var begin: nat
    var end: nat
    var offset: nat

    ghost predicate Valid()
      reads this
    {
      begin + offset <= end <= memory.Length
    }

    constructor (memory: array<Byte>, begin: nat, end: nat)
      requires begin <= end <= memory.Length
      ensures Valid() && this.memory == memory && this.begin == begin && this.end == end && offset == 0
    {
      this.memory := memory;
      this.begin := begin;
      this.end := end;
      offset := 0;
    }

    function Processed(): seq<Byte>
      requires Valid()
      reads this, memory
    {
      memory[begin..begin + offset]
    }

    function Available(): nat
      requires Valid()
      reads this
    {
      end - begin - offset
    }

    method Insert(data: seq<Byte>) returns (ok: bool)
      requires Valid()
      modifies this`offset, memory
      ensures Valid() && ok == (|data| <= old(Available()))
      ensures Processed() == old(Processed()) + data[..if ok then |data| else old(Available())]
      ensures memory[..begin] == old(memory[..begin]) && memory[end..] == old(memory[end..])
    {
      ok := |data| <= end - begin - offset;
      var kept := data[..if ok then |data| else end - begin - offset];
      ghost var was := memory[..];
      Write(memory, begin + offset, kept);
      assert memory[..] == Replaced(was, begin + offset, kept);
      assert memory[..begin] == was[..begin] && memory[end..] == was[end..];
      offset := offset + |kept|;
    }

    method Reset(newBegin: nat, newEnd: nat)
      requires newBegin <= newEnd <= memory.Length
      modifies this
      ensures Valid() && begin == newBegin && end == newEnd && offset == 0
    {
      offset := 0;
      begin := newBegin;
      end := newEnd;
    }

    /** Moves what was written since the marker to the end of the range and hands out the gap before it. */
    method SaveState(marker: nat) returns (gapBegin: nat, gapEnd: nat)
      requires Valid() && marker <= offset
      modifies memory
      ensures Valid() && gapBegin == begin + marker && gapEnd == end - (offset - marker) && gapBegin <= gapEnd
      ensures memory[begin..gapBegin] == old(Processed())[..marker]
      ensures memory[gapEnd..end] == old(Processed())[marker..]
      ensures memory[..begin] == old(memory[..begin]) && memory[end..] == old(memory[end..])
    {
      var copyBegin := begin + marker;
      var copyEnd := begin + offset;
      CopyBackward(memory, copyBegin, copyEnd, end);
      gapBegin, gapEnd := copyBegin, end - (copyEnd - copyBegin);
    }

    /** Closes the gap of which the given range is left unused. */
    method RestoreState(rangeBegin: nat, rangeEnd: nat)
      requires Valid() && begin <= rangeBegin <= rangeEnd <= end
      modifies this`offset, memory
      ensures Valid() && Processed() == old(memory[begin..rangeBegin]) + old(memory[rangeEnd..end])
      ensures memory[..begin] == old(memory[..begin]) && memory[end..] == old(memory[end..])
    {
      ghost var was := memory[..];
      Copy(memory, rangeEnd, end, rangeBegin);
      RestoredAround(was, begin, rangeBegin, rangeEnd, end);
      offset := offset + (rangeBegin - (begin + offset)) + (end - rangeEnd);
    }
  }
}
