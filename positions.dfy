/** Positions in the buffered stream and the cursor that converts between them.
 *
 *  A flat position is an offset into the concatenation of the buffered chunks;
 *  a structured position (BufferPosition) names a chunk and an offset inside it.
 *  Locate is the reference conversion, computed from scratch; PositionConverter
 *  is the source's incremental cursor, proved to agree with it.
 */
module Positions {
  import opened Chunks

  /** A position among disjoint buffers: chunk index and offset within that chunk. */
  datatype BufferPosition = BufferPosition(seqNum: nat, offset: nat)

  /** Outcome of the last attempted frame parse (parse_state.h is not part of this model;
   *  these are the states the parse result distinguishes). The source's default is Invalid. */
  datatype ParseState = Invalid | NeedsMoreData | Success

  /** Frame start positions, the position where parsing stopped, and the final state.
   *  P is nat for a contiguous buffer and BufferPosition for disjoint buffers. */
  datatype ParseResult<P> = ParseResult(startPositions: seq<P>, endPosition: P, state: ParseState)

  /** The flat offset a structured position names. */
  function FlatPosition(msgs: seq<Bytes>, p: BufferPosition): nat
    requires p.seqNum <= |msgs|
  {
    TotalLen(msgs[..p.seqNum]) + p.offset
  }

  /** Reference conversion of a flat offset: the chunk holding byte pos and the offset in it,
   *  or the end sentinel {|msgs|, 0} when pos is at or beyond the end of the stream. */
  function Locate(msgs: seq<Bytes>, pos: nat): (r: BufferPosition)
    ensures r.seqNum <= |msgs|
  {
    if msgs == [] then BufferPosition(0, 0)
    else if pos < |msgs[0]| then BufferPosition(0, pos)
    else
      var r := Locate(msgs[1..], pos - |msgs[0]|);
      BufferPosition(r.seqNum + 1, r.offset)
  }

  /** p names byte pos of the stream: p is inside a chunk, its flat offset is pos,
   *  and the chunk holds at p the byte found at pos in the concatenation. */
  ghost predicate NamesByte(msgs: seq<Bytes>, p: BufferPosition, pos: nat)
  {
    && p.seqNum < |msgs| && p.offset < |msgs[p.seqNum]|
    && FlatPosition(msgs, p) == pos
    && pos < TotalLen(msgs)
    && Concat(msgs)[pos] == msgs[p.seqNum][p.offset]
  }

  /** Locate's answer names byte pos: the flat offset round-trips, and the chunk
   *  at that structured position holds the byte found at pos in the stream. */
  lemma {:induction false} LocateRoundTrip(msgs: seq<Bytes>, pos: nat)
    requires pos < TotalLen(msgs)
    ensures NamesByte(msgs, Locate(msgs, pos), pos)
  {
    var r := Locate(msgs, pos);
    if pos >= |msgs[0]| {
      var r' := Locate(msgs[1..], pos - |msgs[0]|);
      LocateRoundTrip(msgs[1..], pos - |msgs[0]|);
      assert msgs[..r.seqNum] == [msgs[0]] + msgs[1..][..r'.seqNum];
      TotalLenAppend([msgs[0]], msgs[1..][..r'.seqNum]);
    }
  }

  /** At or beyond the end, the structured position is the end sentinel {|msgs|, 0},
   *  which names the end of the stream. */
  lemma {:induction false} LocateEndFlat(msgs: seq<Bytes>, pos: nat)
    requires TotalLen(msgs) <= pos
    ensures Locate(msgs, pos) == BufferPosition(|msgs|, 0)
    ensures FlatPosition(msgs, Locate(msgs, pos)) == TotalLen(msgs)
  {
    if msgs != [] {
      LocateEndFlat(msgs[1..], pos - |msgs[0]|);
    }
    assert msgs[..|msgs|] == msgs;
  }

  /** Up to and including the end of the stream, the flat offset round-trips. */
  lemma LocateFlat(msgs: seq<Bytes>, pos: nat, p: BufferPosition)
    requires pos <= TotalLen(msgs) && p == Locate(msgs, pos)
    ensures FlatPosition(msgs, p) == pos
  {
    if pos < TotalLen(msgs) {
      LocateRoundTrip(msgs, pos);
    } else {
      LocateEndFlat(msgs, pos);
    }
  }

  /** Conversely, every byte's structured position is what Locate finds for its flat offset. */
  lemma {:induction false} LocateOfFlatPosition(msgs: seq<Bytes>, p: BufferPosition)
    requires p.seqNum < |msgs| && p.offset < |msgs[p.seqNum]|
    ensures Locate(msgs, FlatPosition(msgs, p)) == p
  {
    if p.seqNum > 0 {
      var q := BufferPosition(p.seqNum - 1, p.offset);
      LocateOfFlatPosition(msgs[1..], q);
      assert msgs[..p.seqNum] == [msgs[0]] + msgs[1..][..q.seqNum];
      TotalLenAppend([msgs[0]], msgs[1..][..q.seqNum]);
    }
  }

  /** Larger flat offsets never map to earlier chunks. */
  lemma {:induction false} LocateMonotone(msgs: seq<Bytes>, p: nat, q: nat)
    requires p <= q
    ensures Locate(msgs, p).seqNum <= Locate(msgs, q).seqNum
  {
    if msgs != [] && p >= |msgs[0]| {
      LocateMonotone(msgs[1..], p - |msgs[0]|, q - |msgs[0]|);
    }
  }

  /** Searching from chunk k, with the k chunks before it wholly before pos,
   *  finds the same position as searching from the start. */
  lemma {:induction false} LocateFrom(msgs: seq<Bytes>, k: nat, pos: nat)
    requires k <= |msgs| && TotalLen(msgs[..k]) <= pos
    ensures var r := Locate(msgs[k..], pos - TotalLen(msgs[..k]));
      Locate(msgs, pos) == BufferPosition(r.seqNum + k, r.offset)
  {
    if k > 0 {
      ConcatSnoc(msgs, k - 1);
      LocateFrom(msgs, k - 1, pos);
      LocateStep(msgs, k - 1, pos - TotalLen(msgs[..k - 1]));
    } else {
      assert msgs[..0] == [] && msgs[0..] == msgs;
    }
  }

  /** One step of a search from chunk k: either chunk k holds the offset, or the
   *  search continues in the chunks after it. */
  lemma LocateStep(msgs: seq<Bytes>, k: nat, off: nat)
    requires k < |msgs|
    ensures off < |msgs[k]| ==> Locate(msgs[k..], off) == BufferPosition(0, off)
    ensures |msgs[k]| <= off ==>
      var r := Locate(msgs[k + 1..], off - |msgs[k]|);
      Locate(msgs[k..], off) == BufferPosition(r.seqNum + 1, r.offset)
  {
  }

  /** Converts flat positions to structured ones with a cursor that only moves forward.
   *  Queries must be non-decreasing; the cursor (currSeq, size) stays at the first
   *  chunk not wholly before the last query. */
  class PositionConverter {
    var currSeq: nat
    var size: nat
    var lastQueryPos: nat

    /** The cursor is consistent with the chunk list msgs: size counts the bytes of the
     *  chunks before currSeq, all of which lie before the last query. */
    ghost predicate Valid(msgs: seq<Bytes>)
      reads this
    {
      currSeq <= |msgs| && size == TotalLen(msgs[..currSeq]) && size <= lastQueryPos
    }

    constructor ()
      ensures currSeq == 0 && size == 0 && lastQueryPos == 0
      ensures forall msgs :: Valid(msgs)
    {
      currSeq, size, lastQueryPos := 0, 0, 0;
    }

    /** Rewinds the cursor. The last query position is kept, so later queries
     *  must still not go below it. */
    method Reset()
      modifies this
      ensures currSeq == 0 && size == 0 && lastQueryPos == old(lastQueryPos)
      ensures forall msgs :: Valid(msgs)
    {
      currSeq := 0;
      size := 0;
    }

    /** The structured position of flat offset pos in msgs; the answer is the one a
     *  fresh search gives, and the cursor is left at the chunk found, never behind where
     *  it was. */
    method Convert(msgs: seq<Bytes>, pos: nat) returns (p: BufferPosition)
      requires Valid(msgs)
      requires lastQueryPos <= pos
      modifies this
      ensures Valid(msgs) && lastQueryPos == pos
      ensures p == Locate(msgs, pos)
      ensures old(currSeq) <= currSeq == p.seqNum
      ensures old(size) <= size
    {
      lastQueryPos := pos;
      while currSeq < |msgs|
        invariant old(currSeq) <= currSeq <= |msgs| && lastQueryPos == pos
        invariant size == TotalLen(msgs[..currSeq]) && size <= pos
        decreases |msgs| - currSeq
      {
        var msg := msgs[currSeq];
        if pos < size + |msg| {
          LocateFrom(msgs, currSeq, pos);
          LocateStep(msgs, currSeq, pos - size);
          TotalLenPrefixMonotone(msgs, old(currSeq), currSeq);
          return BufferPosition(currSeq, pos - size);
        }
        ConcatSnoc(msgs, currSeq);
        currSeq := currSeq + 1;
        size := size + |msg|;
      }
      LocateFrom(msgs, currSeq, pos);
      TotalLenPrefixMonotone(msgs, old(currSeq), currSeq);
      return BufferPosition(currSeq, 0);
    }
  }
}
