/** The copies within and into memory that the streams and queues are built on. */
module Copying {
  import opened Sequences

  /** std::copy: forwards, so that the destination may overlap the source from below. */
  method Copy<T>(memory: array<T>, first: nat, last: nat, destination: nat)
    requires destination <= first <= last <= memory.Length
    modifies memory
    ensures memory[..] == Replaced(old(memory[..]), destination, old(memory[first..last]))
  {
    ghost var was := memory[..];
    ghost var data := was[first..last];
    var i := 0;
    while i < last - first
      invariant 0 <= i <= last - first
      invariant memory[..] == Replaced(was, destination, data[..i])
    {
      ReplacedAt(was, destination, data[..i], first + i);
      ghost var before := memory[..];
      assert memory[first + i] == before[first + i] == data[i];
      memory[destination + i] := memory[first + i];
      assert memory[..] == before[destination + i := data[i]];
      ReplacedOnwards(was, destination, data, i);
      i := i + 1;
    }
    assert data[..i] == data;
  }

  /** std::copy_backward: from the end, so that the destination may overlap the source from above. */
  method CopyBackward<T>(memory: array<T>, first: nat, last: nat, destinationEnd: nat)
    requires first <= last <= destinationEnd <= memory.Length
    modifies memory
    ensures memory[..] == Replaced(old(memory[..]), destinationEnd - (last - first), old(memory[first..last]))
  {
    ghost var was := memory[..];
    ghost var data := was[first..last];
    var begin := destinationEnd - (last - first);
    var i := last - first;
    assert data[i..] == [];
    while i > 0
      invariant 0 <= i <= last - first
      invariant memory[..] == Replaced(was, begin + i, data[i..])
    {
      ReplacedAt(was, begin + i, data[i..], first + i - 1);
      i := i - 1;
      ghost var before := memory[..];
      assert memory[first + i] == before[first + i] == data[i];
      memory[begin + i] := memory[first + i];
      assert memory[..] == before[begin + i := data[i]];
      ReplacedBefore(was, begin, data, i);
    }
    assert data[0..] == data;
  }

  /** Writes the data to the memory. */
  method Write<T>(memory: array<T>, at: nat, data: seq<T>)
    requires at + |data| <= memory.Length
    modifies memory
    ensures memory[..] == Replaced(old(memory[..]), at, data)
  {
    ghost var was := memory[..];
    var i := 0;
    while i < |data|
      invariant 0 <= i <= |data|
      invariant memory[..] == Replaced(was, at, data[..i])
    {
      ghost var before := memory[..];
      memory[at + i] := data[i];
      assert memory[..] == before[at + i := data[i]];
      ReplacedOnwards(was, at, data, i);
      i := i + 1;
    }
    assert data[..i] == data;
  }
}
