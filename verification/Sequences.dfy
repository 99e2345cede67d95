/** Replacing and slicing parts of sequences. */
module Sequences {
  /** The sequence with other elements from a position on. */
  function Replaced<T>(m: seq<T>, at: nat, data: seq<T>): (r: seq<T>)
    requires at + |data| <= |m|
    ensures |r| == |m|
  {
    m[..at] + data + m[at + |data|..]
  }

  lemma ReplacedAt<T>(m: seq<T>, at: nat, data: seq<T>, k: nat)
    requires at + |data| <= |m| && k < |m|
    ensures Replaced(m, at, data)[k] == if at <= k < at + |data| then data[k - at] else m[k]
  {
  }

  lemma ReplacedOnwards<T>(m: seq<T>, at: nat, data: seq<T>, i: nat)
    requires at + |data| <= |m| && i < |data|
    ensures Replaced(m, at, data[..i])[at + i := data[i]] == Replaced(m, at, data[..i + 1])
  {
    var r := Replaced(m, at, data[..i])[at + i := data[i]];
    forall k | 0 <= k < |m|
      ensures r[k] == Replaced(m, at, data[..i + 1])[k]
    {
      ReplacedAt(m, at, data[..i], k);
      ReplacedAt(m, at, data[..i + 1], k);
    }
  }

  lemma ReplacedBefore<T>(m: seq<T>, at: nat, data: seq<T>, i: nat)
    requires at + |data| <= |m| && i < |data|
    ensures Replaced(m, at + (i + 1), data[i + 1..])[at + i := data[i]] == Replaced(m, at + i, data[i..])
  {
    var r := Replaced(m, at + (i + 1), data[i + 1..])[at + i := data[i]];
    forall k | 0 <= k < |m|
      ensures r[k] == Replaced(m, at + i, data[i..])[k]
    {
      ReplacedAt(m, at + (i + 1), data[i + 1..], k);
      ReplacedAt(m, at + i, data[i..], k);
    }
  }

  function Flattened<T>(pieces: seq<seq<T>>): seq<T> {
    if pieces == [] then [] else Flattened(pieces[..|pieces| - 1]) + pieces[|pieces| - 1]
  }

  lemma Reassociated<T>(a: seq<T>, b: seq<T>, c: seq<T>)
    ensures a + b + c == a + (b + c)
  {
  }

  lemma AppendedOnwards<T>(data: seq<T>, done: nat, n: nat, prefix: seq<T>)
    requires done + n <= |data|
    ensures prefix + data[..done] + data[done..done + n] == prefix + data[..done + n]
  {
  }

  lemma PrefixGrows<T>(prefix: seq<T>, data: seq<T>, i: nat)
    requires i < |data|
    ensures prefix + data[..i] + [data[i]] == prefix + data[..i + 1]
  {
  }

  lemma RestAppended<T>(s: seq<T>, freed: nat, data: seq<T>)
    requires freed <= |s|
    ensures (s + data)[freed..] == s[freed..] + data
  {
  }

  lemma RestOfRest<T>(s: seq<T>, freed: nat, n: nat)
    requires freed + n <= |s|
    ensures s[freed..][n..] == s[freed + n..]
  {
  }

  lemma Joined<T>(m: seq<T>, a: nat, b: nat, c: nat)
    requires a <= b <= c <= |m|
    ensures m[a..b] + m[b..c] == m[a..c]
  {
  }

  lemma PrefixSlice<T>(s: seq<T>, t: seq<T>, from: nat, to: nat)
    requires s <= t && from <= to <= |s|
    ensures t[from..to] == s[from..to]
  {
  }

  lemma PrefixElement<T>(s: seq<T>, t: seq<T>, from: nat, to: nat, i: nat)
    requires s <= t && from + i < to <= |s|
    ensures t[from + i] == s[from..to][i]
  {
  }

  lemma SliceOfRest<T>(s: seq<T>, freed: nat, from: nat, to: nat)
    requires freed <= |s| && from <= to <= |s| - freed
    ensures s[freed..][from..to] == s[freed + from..freed + to]
  {
  }

  lemma Delivered<T>(was: seq<T>, data: seq<T>, piece: seq<T>)
    requires |data| + |piece| <= |was|
    ensures Replaced(Replaced(was, 0, data), |data|, piece) == Replaced(was, 0, data + piece)
  {
  }

  /** What was read stays a part of the stream when the stream grows, and goes on with the next piece. */
  lemma ReadOnwards<T>(last: seq<T>, stream: seq<T>, position: nat, middle: nat, next: nat)
    requires last <= stream && position <= middle <= next && middle <= |last| && next <= |stream|
    ensures last[position..middle] + stream[middle..next] == stream[position..next]
  {
    PrefixSlice(last, stream, position, middle);
  }
}
