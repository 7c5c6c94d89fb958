/**
 * Byte buffers written at offsets, as merge writes each chunk into the
 * final file through its own write stream opened at `start: k * size`.
 */
module Layout {

  newtype byte = x: int | 0 <= x < 256

  type Bytes = seq<byte>

  function Max(a: nat, b: nat): nat
  {
    if a < b then b else a
  }

  /** The zero bytes a file reads as where nothing was written. */
  function Zeros(n: nat): (z: Bytes)
    ensures |z| == n && forall p :: 0 <= p < n ==> z[p] == 0
  {
    seq(n, _ => 0)
  }

  /**
   * Writing `data` into a file whose content is `buf`, starting at byte
   * `offset`: the written range takes `data`, bytes outside it keep their
   * value, a gap before `offset` reads as zeros, and the file grows to
   * cover the write.  An empty chunk is piped without a single write, so
   * the file keeps its length.
   */
  function WriteAt(buf: Bytes, offset: nat, data: Bytes): (r: Bytes)
    ensures |r| == if data == [] then |buf| else Max(|buf|, offset + |data|)
    ensures forall p :: 0 <= p < |r| ==>
      r[p] == if offset <= p < offset + |data| then data[p - offset]
              else if p < |buf| then buf[p]
              else 0
  {
    if data == [] then buf
    else
      var padded := if |buf| < offset then buf + Zeros(offset - |buf|) else buf;
      var tail := if offset + |data| < |padded| then padded[offset + |data|..] else [];
      padded[..offset] + data + tail
  }

  /** The offsets 0, 1, ..., n - 1 in increasing order. */
  function Range(n: nat): (r: seq<nat>)
    ensures |r| == n && forall k :: 0 <= k < n ==> r[k] == k
  {
    if n == 0 then [] else Range(n - 1) + [n - 1]
  }

  predicate InBounds(order: seq<nat>, n: nat)
  {
    forall i :: 0 <= i < |order| ==> order[i] < n
  }

  /**
   * A fresh file after writing chunk `order[0]`, then `order[1]`, ...:
   * chunk `k` of `chunks` always goes to offset `k * size`.
   */
  function WriteInOrder(chunks: seq<Bytes>, size: nat, order: seq<nat>): (r: Bytes)
    requires InBounds(order, |chunks|)
  {
    if order == [] then []
    else
      var k := order[|order| - 1];
      WriteAt(WriteInOrder(chunks, size, order[..|order| - 1]), k * size, chunks[k])
  }

  /** What merge writes: chunk `k` of the sorted list at offset `k * size`, in list order. */
  function LayOut(chunks: seq<Bytes>, size: nat): (r: Bytes)
  {
    WriteInOrder(chunks, size, Range(|chunks|))
  }

  /** The chunks one after another. */
  function Concat(chunks: seq<Bytes>): (r: Bytes)
  {
    if chunks == [] then [] else Concat(chunks[..|chunks| - 1]) + chunks[|chunks| - 1]
  }

  /**
   * An empty chunk file is piped without a write: a trailing empty chunk
   * leaves the merged file as the chunks before it made it.
   */
  lemma EmptyChunkWritesNothing(chunks: seq<Bytes>, size: nat)
    ensures LayOut(chunks + [[]], size) == LayOut(chunks, size)
  {
    var n := |chunks|;
    var all := chunks + [[]];
    assert Range(n + 1)[..n] == Range(n);
    assert InBounds(Range(n), |chunks|);
    WriteInOrderSameChunks(chunks, all, size, Range(n));
  }

  /** Only the chunks an order names matter to what it writes. */
  lemma {:induction false} WriteInOrderSameChunks(chunks: seq<Bytes>, more: seq<Bytes>, size: nat, order: seq<nat>)
    requires InBounds(order, |chunks|) && |chunks| <= |more|
    requires forall k :: 0 <= k < |chunks| ==> more[k] == chunks[k]
    ensures WriteInOrder(more, size, order) == WriteInOrder(chunks, size, order)
  {
    if order != [] {
      WriteInOrderSameChunks(chunks, more, size, order[..|order| - 1]);
    }
  }

  /** Every chunk but the last is at most `size` bytes long: no two writes overlap. */
  predicate NonOverlapping(chunks: seq<Bytes>, size: nat)
  {
    forall k :: 0 <= k < |chunks| - 1 ==> |chunks[k]| <= size
  }

  /** Every chunk but the last is exactly `size` bytes long, as the client cuts a file. */
  predicate Framed(chunks: seq<Bytes>, size: nat)
  {
    forall k :: 0 <= k < |chunks| - 1 ==> |chunks[k]| == size
  }

  /** Chunk `k` sits in `buf` at offset `k * size` (an empty chunk sits anywhere). */
  predicate Placed(buf: Bytes, chunks: seq<Bytes>, size: nat, k: nat)
    requires k < |chunks|
  {
    chunks[k] == [] || (k * size + |chunks[k]| <= |buf| && buf[k * size..k * size + |chunks[k]|] == chunks[k])
  }

  lemma MulMono(a: nat, b: nat, c: nat)
    requires a <= b
    ensures a * c <= b * c
  {
  }

  /** Distinct chunks of a non-overlapping list occupy disjoint byte ranges. */
  lemma Disjoint(chunks: seq<Bytes>, size: nat, j: nat, k: nat)
    requires NonOverlapping(chunks, size)
    requires j < k < |chunks|
    ensures j * size + |chunks[j]| <= k * size
  {
    MulMono(j + 1, k, size);
  }

  /** A write elsewhere leaves a placed chunk in place. */
  lemma WriteKeepsPlaced(buf: Bytes, chunks: seq<Bytes>, size: nat, j: nat, offset: nat, data: Bytes)
    requires j < |chunks| && Placed(buf, chunks, size, j)
    requires offset + |data| <= j * size || j * size + |chunks[j]| <= offset
    ensures Placed(WriteAt(buf, offset, data), chunks, size, j)
  {
    if chunks[j] != [] {
      WriteKeepsRange(buf, j * size, chunks[j], offset, data);
    }
  }

  /** A write that misses the range `[lo, lo + |piece|)` leaves its content as it was. */
  lemma WriteKeepsRange(buf: Bytes, lo: nat, piece: Bytes, offset: nat, data: Bytes)
    requires lo + |piece| <= |buf| && buf[lo..lo + |piece|] == piece
    requires offset + |data| <= lo || lo + |piece| <= offset
    ensures var r := WriteAt(buf, offset, data);
      lo + |piece| <= |r| && r[lo..lo + |piece|] == piece
  {
    var r := WriteAt(buf, offset, data);
    forall t | 0 <= t < |piece|
      ensures r[lo..lo + |piece|][t] == piece[t]
    {
      assert buf[lo..lo + |piece|][t] == buf[lo + t];
    }
  }

  /**
   * Whatever order the writes are issued in, every chunk written ends up
   * whole at its own offset, as long as no two chunks overlap.  A chunk
   * written twice (a retried write) is placed all the same.
   */
  lemma {:induction false} WriteInOrderPlaces(chunks: seq<Bytes>, size: nat, order: seq<nat>)
    requires InBounds(order, |chunks|)
    requires NonOverlapping(chunks, size)
    ensures forall i :: 0 <= i < |order| ==> Placed(WriteInOrder(chunks, size, order), chunks, size, order[i])
  {
    if order != [] {
      var prefix := order[..|order| - 1];
      var k := order[|order| - 1];
      var before := WriteInOrder(chunks, size, prefix);
      var after := WriteInOrder(chunks, size, order);
      WriteInOrderPlaces(chunks, size, prefix);
      forall i | 0 <= i < |order|
        ensures Placed(after, chunks, size, order[i])
      {
        var j := order[i];
        if j == k {
          assert chunks[k] != [] ==> after[k * size..k * size + |chunks[k]|] == chunks[k];
        } else {
          assert j == prefix[i];
          if j < k { Disjoint(chunks, size, j, k); } else { Disjoint(chunks, size, k, j); }
          WriteKeepsPlaced(before, chunks, size, j, k * size, chunks[k]);
        }
      }
    }
  }

  /** The file never grows past the furthest end of a chunk written. */
  lemma {:induction false} WriteInOrderBounded(chunks: seq<Bytes>, size: nat, order: seq<nat>, bound: nat)
    requires InBounds(order, |chunks|)
    requires forall i :: 0 <= i < |order| ==> order[i] * size + |chunks[order[i]]| <= bound
    ensures |WriteInOrder(chunks, size, order)| <= bound
  {
    if order != [] {
      WriteInOrderBounded(chunks, size, order[..|order| - 1], bound);
    }
  }

  /** A prefix of full-size chunks concatenates to `size` bytes each. */
  lemma {:induction false} ConcatLength(chunks: seq<Bytes>, size: nat)
    requires Framed(chunks, size) && chunks != []
    ensures |Concat(chunks)| == (|chunks| - 1) * size + |chunks[|chunks| - 1]|
  {
    var n := |chunks|;
    if n > 1 {
      var init := chunks[..n - 1];
      assert Framed(init, size);
      ConcatLength(init, size);
      assert |init[n - 2]| == size;
      assert |Concat(chunks)| == |Concat(init)| + |chunks[n - 1]|;
      assert (n - 1) * size == (n - 2) * size + size;
    }
  }

  /** Every chunk ends at or before the end of the concatenation. */
  lemma ChunkEndsWithinConcat(chunks: seq<Bytes>, size: nat, k: nat)
    requires Framed(chunks, size) && k < |chunks|
    ensures k * size + |chunks[k]| <= |Concat(chunks)|
  {
    var n := |chunks|;
    ConcatLength(chunks, size);
    if k < n - 1 {
      MulMono(k + 1, n - 1, size);
    }
  }

  /** An order that mentions every chunk places every chunk. */
  lemma CoveringOrderPlacesAll(chunks: seq<Bytes>, size: nat, order: seq<nat>)
    requires InBounds(order, |chunks|)
    requires forall k :: 0 <= k < |chunks| ==> k in order
    requires NonOverlapping(chunks, size)
    ensures forall k :: 0 <= k < |chunks| ==> Placed(WriteInOrder(chunks, size, order), chunks, size, k)
  {
    WriteInOrderPlaces(chunks, size, order);
    forall k | 0 <= k < |chunks|
      ensures Placed(WriteInOrder(chunks, size, order), chunks, size, k)
    {
      assert k in order;
      var i :| 0 <= i < |order| && order[i] == k;
    }
  }

  /** A buffer in which every chunk is placed starts with their concatenation. */
  lemma {:induction false} AllPlacedIsConcat(buf: Bytes, chunks: seq<Bytes>, size: nat)
    requires Framed(chunks, size)
    requires forall k :: 0 <= k < |chunks| ==> Placed(buf, chunks, size, k)
    ensures |Concat(chunks)| <= |buf| && buf[..|Concat(chunks)|] == Concat(chunks)
  {
    var n := |chunks|;
    if n > 0 {
      var init := chunks[..n - 1];
      assert forall k :: 0 <= k < |init| ==> Placed(buf, init, size, k) by {
        forall k | 0 <= k < |init| ensures Placed(buf, init, size, k) {
          assert Placed(buf, chunks, size, k);
        }
      }
      AllPlacedIsConcat(buf, init, size);
      ConcatLength(chunks, size);
      if n > 1 {
        ConcatLength(init, size);
      }
      var lo := (n - 1) * size;
      assert |Concat(init)| == lo;
      assert Placed(buf, chunks, size, n - 1);
      assert buf[..|Concat(chunks)|] == buf[..lo] + buf[lo..lo + |chunks[n - 1]|];
    }
  }

  /**
   * Merge determinism: when every chunk but the last is exactly `size`
   * bytes, writing each chunk at its offset in ANY order that covers every
   * chunk (repeats allowed) yields exactly the chunks concatenated.  This is
   * why the concurrent writes of merge need no ordering between them.
   */
  lemma AnyOrderIsConcat(chunks: seq<Bytes>, size: nat, order: seq<nat>)
    requires InBounds(order, |chunks|)
    requires forall k :: 0 <= k < |chunks| ==> k in order
    requires Framed(chunks, size)
    ensures WriteInOrder(chunks, size, order) == Concat(chunks)
  {
    var r := WriteInOrder(chunks, size, order);
    var whole := Concat(chunks);
    forall i | 0 <= i < |order|
      ensures order[i] * size + |chunks[order[i]]| <= |whole|
    {
      ChunkEndsWithinConcat(chunks, size, order[i]);
    }
    WriteInOrderBounded(chunks, size, order, |whole|);
    CoveringOrderPlacesAll(chunks, size, order);
    AllPlacedIsConcat(r, chunks, size);
    assert r == r[..|whole|];
  }

  /** Merge's own write order, position by position, also gives the concatenation. */
  lemma LayOutIsConcat(chunks: seq<Bytes>, size: nat)
    requires Framed(chunks, size)
    ensures LayOut(chunks, size) == Concat(chunks)
  {
    var order := Range(|chunks|);
    forall k | 0 <= k < |chunks| ensures k in order {
      assert order[k] == k;
    }
    AnyOrderIsConcat(chunks, size, order);
  }

  /** In merge's layout a non-empty chunk at position k starts at byte k * size. */
  lemma LayOutPlaces(chunks: seq<Bytes>, size: nat, k: nat)
    requires NonOverlapping(chunks, size) && k < |chunks|
    ensures chunks[k] != [] ==>
      && k * size + |chunks[k]| <= |LayOut(chunks, size)|
      && LayOut(chunks, size)[k * size..k * size + |chunks[k]|] == chunks[k]
  {
    var order := Range(|chunks|);
    WriteInOrderPlaces(chunks, size, order);
    assert order[k] == k;
    assert Placed(LayOut(chunks, size), chunks, size, order[k]);
  }
}
