/** The contents of a storage that is used as a ring, of which one element always stays free. */
module RingBuffer {
  import opened Sequences

  /** The elements between the read and the write index; a read index at the end of the storage wraps lazily. */
  function Unread<T>(s: seq<T>, b: nat, e: nat): (r: seq<T>)
    requires b <= |s| && e < |s|
    ensures |r| == if b <= e then e - b else |s| - b + e
  {
    if b <= e then s[b..e] else s[b..] + s[..e]
  }

  lemma UnreadAt<T>(s: seq<T>, b: nat, e: nat, k: nat)
    requires b <= |s| && e < |s| && k < |Unread(s, b, e)|
    ensures Unread(s, b, e)[k] == if b + k < |s| then s[b + k] else s[b + k - |s|]
  {
  }

  function Advanced(e: nat, size: nat, n: nat): nat {
    if e + n == size then 0 else e + n
  }

  /** A piece up to the end of the storage, of no more than is free, lands behind what is unread. */
  lemma PushedPiece<T>(s: seq<T>, b: nat, e: nat, data: seq<T>)
    requires b <= |s| && e < |s| && e + |data| <= |s|
    requires |Unread(s, b, e)| + |data| < |s|
    ensures Unread(Replaced(s, e, data), b, Advanced(e, |s|, |data|)) == Unread(s, b, e) + data
  {
    var t := Replaced(s, e, data);
    var next := Advanced(e, |s|, |data|);
    var was, now := Unread(s, b, e), Unread(t, b, next);
    assert |now| == |was| + |data|;
    forall k | 0 <= k < |now|
      ensures now[k] == (was + data)[k]
    {
      PushedAt(s, b, e, data, k);
    }
  }

  lemma PushedAt<T>(s: seq<T>, b: nat, e: nat, data: seq<T>, k: nat)
    requires b <= |s| && e < |s| && e + |data| <= |s|
    requires |Unread(s, b, e)| + |data| < |s| && k < |Unread(s, b, e)| + |data|
    ensures var now := Unread(Replaced(s, e, data), b, Advanced(e, |s|, |data|));
      |now| == |Unread(s, b, e)| + |data| && now[k] == (Unread(s, b, e) + data)[k]
  {
    UnreadAt(Replaced(s, e, data), b, Advanced(e, |s|, |data|), k);
    ReplacedAt(s, e, data, if b + k < |s| then b + k else b + k - |s|);
    if k < |Unread(s, b, e)| {
      UnreadAt(s, b, e, k);
    }
  }

  /** Giving up elements up to the end of the storage leaves the others unread. */
  lemma PoppedPiece<T>(s: seq<T>, b: nat, e: nat, n: nat)
    requires b + n <= |s| && e < |s| && n <= |Unread(s, b, e)|
    ensures Unread(s, b + n, e) == Unread(s, b, e)[n..]
  {
    if b > e {
      assert Unread(s, b, e)[n..] == s[b + n..] + s[..e];
    }
  }

  /** A read index at the end of the storage means the same as one at its start. */
  lemma LazyWrap<T>(s: seq<T>, e: nat)
    requires e < |s|
    ensures Unread(s, |s|, e) == Unread(s, 0, e)
  {
  }

  /** The read index moves past elements up to the end of the storage, and then goes back to its start. */
  lemma FreedPiece<T>(s: seq<T>, b: nat, e: nat, stream: seq<T>, freed: nat, n: nat)
    requires b < |s| && e < |s| && b + n <= |s|
    requires freed + n <= |stream| && Unread(s, b, e) == stream[freed..]
    ensures Unread(s, Advanced(b, |s|, n), e) == stream[freed + n..]
  {
    PoppedPiece(s, b, e, n);
    RestOfRest(stream, freed, n);
    LazyWrap(s, e);
  }

  /** Where the element at a position of the unread elements is stored, and how far they go on from there. */
  function PieceBegin(size: nat, b: nat, start: nat): nat
    requires b < size
  {
    if b + start < size then b + start else b + start - size
  }

  function PieceEnd(size: nat, begin: nat, e: nat): nat {
    if begin <= e then e else size
  }

  lemma SpanIsUnread<T>(s: seq<T>, b: nat, e: nat, start: nat, n: nat)
    requires b < |s| && e < |s| && start + n <= |Unread(s, b, e)|
    requires PieceBegin(|s|, b, start) + n <= |s|
    ensures s[PieceBegin(|s|, b, start)..PieceBegin(|s|, b, start) + n] == Unread(s, b, e)[start..start + n]
  {
    var begin := PieceBegin(|s|, b, start);
    var stored, unread := s[begin..begin + n], Unread(s, b, e)[start..start + n];
    forall k | 0 <= k < n
      ensures stored[k] == unread[k]
    {
      UnreadAt(s, b, e, start + k);
    }
  }

  lemma PieceBounds(size: nat, b: nat, e: nat, start: nat)
    requires b < size && e < size && start <= if b <= e then e - b else size - b + e
    ensures var begin := PieceBegin(size, b, start); var end := PieceEnd(size, begin, e);
      && begin <= end <= size
      && start + (end - begin) <= (if b <= e then e - b else size - b + e)
      && (begin == end ==> start == if b <= e then e - b else size - b + e)
  {
  }

  lemma SpanIsInStream<T>(s: seq<T>, b: nat, e: nat, stream: seq<T>, freed: nat, start: nat, n: nat)
    requires b < |s| && e < |s| && freed <= |stream| && Unread(s, b, e) == stream[freed..]
    requires start + n <= |stream| - freed && PieceBegin(|s|, b, start) + n <= |s|
    ensures s[PieceBegin(|s|, b, start)..PieceBegin(|s|, b, start) + n] == stream[freed + start..freed + start + n]
  {
    SpanIsUnread(s, b, e, start, n);
    SliceOfRest(stream, freed, start, start + n);
  }
}
