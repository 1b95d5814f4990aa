/**
 * Moving byte strings over a stream connection in bounded pieces: the two
 * send loops that slice a payload into at most `BufferSize` elements per
 * `send`, and the receive loop that appends pieces until the first empty one.
 */
module Chunking {

  /** `self.BUFFER_SIZE`, the largest slice handed to one `send`. */
  const BufferSize: nat := 8192

  /** The concatenation of a sequence of slices, in order. */
  function Flatten<T>(chunks: seq<seq<T>>): seq<T> {
    if chunks == [] then [] else Flatten(chunks[..|chunks| - 1]) + chunks[|chunks| - 1]
  }

  lemma FlattenSnoc<T>(chunks: seq<seq<T>>, c: seq<T>)
    ensures Flatten(chunks + [c]) == Flatten(chunks) + c
  {
    assert (chunks + [c])[..|chunks|] == chunks;
  }

  /** `chunks` is a slicing of `payload` into pieces of `size`: the pieces
      concatenate to the payload, none is empty or longer than `size`, and
      every piece but the last is exactly `size` long. */
  predicate ChunkedAs<T(==)>(chunks: seq<seq<T>>, payload: seq<T>, size: nat) {
    && Flatten(chunks) == payload
    && (forall k :: 0 <= k < |chunks| ==> 0 < |chunks[k]| <= size)
    && (forall k :: 0 <= k < |chunks| - 1 ==> |chunks[k]| == size)
  }

  /** The quotient `n / d` rounded up. */
  function CeilDiv(n: nat, d: nat): nat
    requires d > 0
  {
    (n + d - 1) / d
  }

  lemma MulMonotone(a: int, b: int, d: nat)
    ensures a <= b ==> a * d <= b * d
  {
    if a <= b {
      assert b * d == a * d + (b - a) * d;
    }
  }

  lemma DivOfMulAdd(m: nat, d: nat, r: nat)
    requires r < d
    ensures (m * d + r) / d == m
  {
    var x := m * d + r;
    var q := x / d;
    assert x == q * d + x % d;
    MulMonotone(q, m - 1, d);
    MulMonotone(m + 1, q, d);
    assert (m - 1) * d == m * d - d;
    assert (m + 1) * d == m * d + d;
  }

  lemma {:induction false} FlattenOfFull<T>(chunks: seq<seq<T>>, size: nat)
    requires forall k :: 0 <= k < |chunks| ==> |chunks[k]| == size
    ensures |Flatten(chunks)| == |chunks| * size
  {
    if chunks != [] {
      FlattenOfFull(chunks[..|chunks| - 1], size);
      assert (|chunks| - 1) * size + size == |chunks| * size;
    }
  }

  /** A slicing into pieces of `size` has exactly ceil(|payload| / size) pieces. */
  lemma ChunkCount<T>(chunks: seq<seq<T>>, payload: seq<T>, size: nat)
    requires size > 0
    requires ChunkedAs(chunks, payload, size)
    ensures |chunks| == CeilDiv(|payload|, size)
  {
    if chunks == [] {
      DivOfMulAdd(0, size, size - 1);
    } else {
      var init := chunks[..|chunks| - 1];
      var last := chunks[|chunks| - 1];
      FlattenOfFull(init, size);
      assert |payload| == |init| * size + |last|;
      assert |payload| + size - 1 == (|init| + 1) * size + (|last| - 1);
      DivOfMulAdd(|init| + 1, size, |last| - 1);
    }
  }

  /** The send loop: an index steps from 0 by `size` while it is below the
      payload's length, and each step sends the slice from the index to the
      index plus `size`, cut at the end. The slices are returned in the order
      they are sent. */
  method Chunk<T(==)>(payload: seq<T>, size: nat) returns (chunks: seq<seq<T>>)
    requires size > 0
    ensures ChunkedAs(chunks, payload, size)
    ensures |chunks| == CeilDiv(|payload|, size)
  {
    chunks := [];
    var i := 0;
    while i < |payload|
      invariant Flatten(chunks) == payload[..if i < |payload| then i else |payload|]
      invariant forall k :: 0 <= k < |chunks| ==> 0 < |chunks[k]| <= size
      invariant forall k :: 0 <= k < |chunks| - 1 ==> |chunks[k]| == size
      invariant i < |payload| ==> forall k :: 0 <= k < |chunks| ==> |chunks[k]| == size
      invariant chunks == [] ==> i == 0
    {
      var end := if i + size < |payload| then i + size else |payload|;
      FlattenSnoc(chunks, payload[i..end]);
      assert payload[..i] + payload[i..end] == payload[..end];
      chunks := chunks + [payload[i..end]];
      i := i + size;
    }
    assert payload[..|payload|] == payload;
    ChunkCount(chunks, payload, size);
  }

  /** The index of the first empty read in `pieces`, or |pieces| when every read is non-empty. */
  function FirstEmpty<T(==)>(pieces: seq<seq<T>>): (n: nat)
    ensures n <= |pieces|
    ensures forall k :: 0 <= k < n ==> pieces[k] != []
    ensures n < |pieces| ==> pieces[n] == []
  {
    if pieces == [] || pieces[0] == [] then 0 else 1 + FirstEmpty(pieces[1..])
  }

  /** What the read-until-empty loop writes to the file: every read before
      the first empty one, concatenated in arrival order. */
  function Received<T(==)>(pieces: seq<seq<T>>): seq<T> {
    Flatten(pieces[..FirstEmpty(pieces)])
  }

  /** However the stream's bytes are grouped into reads (a `recv` returns
      any non-empty part of what has arrived, whatever slices the sender
      handed to `send`), appending every read until the empty read of a
      closed connection reproduces the stream's bytes exactly. */
  lemma ReceiveReads<T>(pieces: seq<seq<T>>, payload: seq<T>)
    requires forall k :: 0 <= k < |pieces| ==> pieces[k] != []
    requires Flatten(pieces) == payload
    ensures Received(pieces + [[]]) == payload
  {
    var all := pieces + [[]];
    assert all[|pieces|] == [];
    assert forall k :: 0 <= k < |pieces| ==> all[k] == pieces[k];
    assert FirstEmpty(all) == |pieces|;
    assert all[..|pieces|] == pieces;
  }
}
