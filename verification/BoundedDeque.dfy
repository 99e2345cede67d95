/** A deque of bounded size, whose elements are stored as a ring: from any position on, in at most two pieces. */
module BoundedDeque {
  import opened Arithmetic
  import opened Bytes

  class BoundedDeque {
    const maxSize: nat
    var start: nat
    var contents: seq<Byte>

    ghost predicate Valid()
      reads this
    {
      |contents| <= maxSize && (start < maxSize || start == 0 == maxSize)
    }

    constructor (maxSize: nat)
      ensures Valid() && this.maxSize == maxSize && contents == []
    {
      this.maxSize := maxSize;
      start := 0;
      contents := [];
    }

    function Index(element: nat): nat
      requires Valid() && element <= maxSize
      reads this
    {
      if start + element < maxSize then start + element else start + element - maxSize
    }

    /** The elements from a position on that are stored before the end of the storage. */
    function ContiguousRange(from: nat): (r: seq<Byte>)
      requires Valid() && from <= |contents|
      reads this
      ensures r <= contents[from..] && (r == [] <==> from == |contents|)
    {
      if contents == [] then []
      else contents[from..from + Min(|contents| - from, maxSize - Index(from))]
    }

    /** A first piece that does not reach the end of the contents is followed by one that does. */
    lemma TwoPieces(from: nat)
      requires Valid() && from <= |contents|
      ensures var first := |ContiguousRange(from)|; contents[from..] == ContiguousRange(from) + ContiguousRange(from + first)
    {
      var first := |ContiguousRange(from)|;
      assert contents[from..] == contents[from..from + first] + contents[from + first..];
    }

    method InsertAtEnd(data: seq<Byte>)
      requires Valid() && |contents| + |data| <= maxSize
      modifies this`contents
      ensures Valid() && contents == old(contents) + data
    {
      contents := contents + data;
    }

    /** Erasing from the front moves the start along, one element at a time. */
    method EraseFront(n: nat)
      requires Valid() && n <= |contents|
      modifies this
      ensures Valid() && contents == old(contents)[n..] && start == old(Index(n))
    {
      ghost var was, first := contents, start;
      var i := 0;
      while i < n
        invariant 0 <= i <= n && Valid() && contents == was[i..]
        invariant start == if first + i < maxSize then first + i else first + i - maxSize
      {
        contents := contents[1..];
        start := Index(1);
        i := i + 1;
      }
      assert maxSize == 0 ==> n == 0;
    }
  }
}
