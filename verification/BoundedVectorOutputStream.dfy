/** A writer that appends to a vector of bounded size, and the gap it can open inside that vector. */
module BoundedVectorOutputStream {
  import opened Bytes
  import opened Copying
  import opened Sequences

  const ZERO: Byte := 0

  /** The vector is its storage, of which the first `size` bytes are in use. */
  class BoundedVectorStreamWriter {
    const storage: array<Byte>
    var size: nat

    ghost predicate Valid()
      reads this
    {
      size <= storage.Length
    }

    constructor (storage: array<Byte>)
      ensures Valid() && this.storage == storage && size == 0
    {
      this.storage := storage;
      size := 0;
    }

    function Contents(): seq<Byte>
      requires Valid()
      reads this, storage
    {
      storage[..size]
    }

    function Available(): nat
      requires Valid()
      reads this
    {
      storage.Length - size
    }

    method Insert(data: seq<Byte>) returns (ok: bool)
      requires Valid()
      modifies this, storage
      ensures Valid() && ok == (|data| <= old(Available()))
      ensures Contents() == old(Contents()) + data[..if ok then |data| else old(Available())]
    {
      var spaceLeft := Available();
      ok := |data| <= spaceLeft;
      var kept := data[..if ok then |data| else spaceLeft];
      Write(storage, size, kept);
      size := size + |kept|;
    }

    /** Shrinks by dropping bytes at the end, grows by appending zeroes. */
    method Resize(newSize: nat)
      requires Valid() && newSize <= storage.Length
      modifies this, storage
      ensures Valid() && size == newSize
      ensures forall k | 0 <= k < old(size) :: storage[k] == old(storage[k])
      ensures forall k | old(size) <= k < newSize :: storage[k] == ZERO
    {
      while newSize < size
        invariant newSize <= size || size == old(size)
        invariant size <= old(size)
        invariant storage[..] == old(storage[..])
      {
        size := size - 1;
      }
      assert forall k | 0 <= k < storage.Length :: storage[k] == old(storage[..])[k];
      while newSize > size
        invariant size <= newSize
        invariant size >= old(size) || size == newSize
        invariant forall k | 0 <= k < old(size) :: storage[k] == old(storage[k])
        invariant forall k | old(size) <= k < size :: storage[k] == ZERO
      {
        storage[size] := ZERO;
        size := size + 1;
      }
    }

    /** Grows the vector to its maximum, moves what follows the marker to the end and hands out the gap before it. */
    method SaveState(marker: nat) returns (gapBegin: nat, gapEnd: nat)
      requires Valid() && marker <= size
      modifies this, storage
      ensures Valid() && size == storage.Length
      ensures gapBegin == marker && gapEnd == storage.Length - (old(size) - marker) && gapBegin <= gapEnd
      ensures storage[0..gapBegin] == old(Contents())[..marker]
      ensures storage[gapEnd..size] == old(Contents())[marker..]
    {
      var copyBegin, copyEnd := marker, size;
      Resize(storage.Length);
      CopyBackward(storage, copyBegin, copyEnd, storage.Length);
      gapBegin, gapEnd := copyBegin, storage.Length - (copyEnd - copyBegin);
    }

    /** Closes the gap of which the given range is left unused. */
    method RestoreState(rangeBegin: nat, rangeEnd: nat)
      requires Valid() && rangeBegin <= rangeEnd <= size
      modifies this, storage
      ensures Valid() && Contents() == old(storage[0..rangeBegin]) + old(storage[rangeEnd..size])
    {
      Copy(storage, rangeEnd, size, rangeBegin);
      Resize(size - (rangeEnd - rangeBegin));
    }
  }
}
