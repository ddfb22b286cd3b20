/** The event parser: buffers captured chunks, parses their concatenation with a
 *  protocol codec, maps the codec's flat positions back to chunks, stamps each new
 *  frame with the timestamp of the chunk holding its first byte, and drains itself.
 */
module Parsing {
  import opened Chunks
  import opened Positions
  import opened Codecs

  /** The two fields of a captured socket event that the parser uses. */
  datatype SocketDataEvent = SocketDataEvent(msg: Bytes, returnTimestampNs: uint64)

  /** The caller's frame container (a std::deque), appended to and updated in place. */
  class FrameQueue<P> {
    var items: seq<Frame<P>>

    constructor ()
      ensures items == []
    {
      items := [];
    }

    /** Sets the timestamp of the frame at index j. */
    method SetTimestamp(j: nat, ts: uint64)
      requires j < |items|
      modifies this
      ensures items == old(items)[j := old(items)[j].Stamped(ts)]
    {
      items := items[j := items[j].Stamped(ts)];
    }
  }

  /** Where parsing starts in buf: at 0, or with resync at the boundary the codec finds
   *  searching from byte 1, falling back to 0 when it finds none. */
  function StartPosition<P>(codec: Codec<P>, msgType: MessageType, buf: Bytes, resync: bool): (s: nat)
    requires codec.Valid()
    ensures s <= |buf|
    ensures !resync ==> s == 0
    ensures resync && codec.findFrameBoundary(msgType, buf, 1) == NPOS ==> s == 0
    ensures resync && codec.findFrameBoundary(msgType, buf, 1) != NPOS ==>
              1 < s && s == codec.findFrameBoundary(msgType, buf, 1)
  {
    if resync then
      var b := codec.findFrameBoundary(msgType, buf, 1);
      if b == NPOS then 0 else b
    else 0
  }

  /** What the codec reports for the buffered chunks msgs: its output on the
   *  concatenation from the start position on. */
  function CodecRun<P>(codec: Codec<P>, msgType: MessageType, msgs: seq<Bytes>, resync: bool): (out: CodecOutput<P>)
    requires codec.Valid()
    ensures WellFormedOutput(out, TotalLen(msgs) - StartPosition(codec, msgType, Concat(msgs), resync))
  {
    var buf := Concat(msgs);
    codec.parseFrames(msgType, buf[StartPosition(codec, msgType, buf, resync)..])
  }

  /** newItems is oldItems followed by the codec's new frames, where each frame whose
   *  start the codec reported carries the timestamp of the chunk holding that start
   *  (offset start in the concatenation of msgs), and the other new frames are as the
   *  codec made them. */
  ghost predicate FramesAppendedAndStamped<P>(oldItems: seq<Frame<P>>, newItems: seq<Frame<P>>,
                                              out: CodecOutput<P>, msgs: seq<Bytes>, ts: seq<uint64>, start: nat)
  {
    && |out.result.startPositions| <= |out.frames|
    && |newItems| == |oldItems| + |out.frames|
    && newItems[..|oldItems|] == oldItems
    && (forall i :: 0 <= i < |out.result.startPositions| ==>
          var k := Locate(msgs, start + out.result.startPositions[i]).seqNum;
          k < |ts| && newItems[|oldItems| + i] == out.frames[i].Stamped(ts[k]))
    && (forall i :: |out.result.startPositions| <= i < |out.frames| ==> newItems[|oldItems| + i] == out.frames[i])
  }

  /** newItems is oldItems followed by frames, of which the first |positions| carry the
   *  timestamps of the chunks named by positions and the rest are unchanged. */
  ghost predicate StampedAt<P>(oldItems: seq<Frame<P>>, newItems: seq<Frame<P>>, frames: seq<Frame<P>>,
                               ts: seq<uint64>, positions: seq<BufferPosition>)
  {
    && |positions| <= |frames|
    && |newItems| == |oldItems| + |frames|
    && newItems[..|oldItems|] == oldItems
    && (forall i :: 0 <= i < |positions| ==>
          positions[i].seqNum < |ts| && newItems[|oldItems| + i] == frames[i].Stamped(ts[positions[i].seqNum]))
    && (forall i :: |positions| <= i < |frames| ==> newItems[|oldItems| + i] == frames[i])
  }

  /** The first n flat frame starts sp, re-based by start, are converted to the
   *  structured positions Locate gives for them. */
  ghost predicate ConvertedUpTo(positions: seq<BufferPosition>, sp: seq<nat>, msgs: seq<Bytes>, start: nat, n: nat)
  {
    && n <= |sp| && |positions| == n
    && (forall i :: 0 <= i < n ==> positions[i] == Locate(msgs, start + sp[i]))
  }

  /** Converting the next frame start keeps ConvertedUpTo. */
  lemma ConvertedStep(positions: seq<BufferPosition>, sp: seq<nat>, msgs: seq<Bytes>, start: nat, n: nat,
                      p: BufferPosition)
    requires ConvertedUpTo(positions, sp, msgs, start, n)
    requires n < |sp| && p == Locate(msgs, start + sp[n])
    ensures ConvertedUpTo(positions + [p], sp, msgs, start, n + 1)
  {
  }

  /** res is the flat result, re-based by start, in structured positions over msgs,
   *  with the parse state passed through. */
  ghost predicate ResultConverted(res: ParseResult<BufferPosition>, flat: ParseResult<nat>,
                                  msgs: seq<Bytes>, start: nat)
  {
    && ConvertedUpTo(res.startPositions, flat.startPositions, msgs, start, |flat.startPositions|)
    && res.endPosition == Locate(msgs, start + flat.endPosition)
    && res.state == flat.state
  }

  /** Converted frame starts name the bytes the codec reported: each is a byte of a
   *  buffered chunk at the reported flat offset. */
  lemma ConvertedNamesBytes(positions: seq<BufferPosition>, sp: seq<nat>, msgs: seq<Bytes>, start: nat)
    requires ConvertedUpTo(positions, sp, msgs, start, |sp|)
    requires forall i :: 0 <= i < |sp| ==> start + sp[i] < TotalLen(msgs)
    ensures forall i :: 0 <= i < |positions| ==> NamesByte(msgs, positions[i], start + sp[i])
  {
    forall i | 0 <= i < |positions|
      ensures NamesByte(msgs, positions[i], start + sp[i])
    {
      LocateRoundTrip(msgs, start + sp[i]);
    }
  }

  /** A converted result names the bytes the codec reported: each frame start is a byte
   *  of a buffered chunk at the reported flat offset, and the end position names the
   *  reported end offset. */
  lemma ConvertedResultNamesBytes(res: ParseResult<BufferPosition>, flat: ParseResult<nat>,
                                  msgs: seq<Bytes>, start: nat)
    requires ResultConverted(res, flat, msgs, start)
    requires start + flat.endPosition <= TotalLen(msgs)
    requires forall i :: 0 <= i < |flat.startPositions| ==> start + flat.startPositions[i] < TotalLen(msgs)
    ensures forall i :: 0 <= i < |res.startPositions| ==>
      NamesByte(msgs, res.startPositions[i], start + flat.startPositions[i])
    ensures FlatPosition(msgs, res.endPosition) == start + flat.endPosition
  {
    ConvertedNamesBytes(res.startPositions, flat.startPositions, msgs, start);
    LocateFlat(msgs, start + flat.endPosition, res.endPosition);
  }

  /** End to end: the i-th frame the codec reported keeps its payload, sits after the
   *  frames that were already there, and carries the timestamp of the chunk that the
   *  i-th returned position names, which is the chunk holding the frame's first byte. */
  lemma StampedFromStartChunk<P>(oldItems: seq<Frame<P>>, newItems: seq<Frame<P>>, out: CodecOutput<P>,
                                 msgs: seq<Bytes>, ts: seq<uint64>, start: nat, res: ParseResult<BufferPosition>)
    requires start <= TotalLen(msgs) && WellFormedOutput(out, TotalLen(msgs) - start)
    requires FramesAppendedAndStamped(oldItems, newItems, out, msgs, ts, start)
    requires ResultConverted(res, out.result, msgs, start)
    ensures newItems[..|oldItems|] == oldItems
    ensures forall i :: 0 <= i < |res.startPositions| ==>
      && NamesByte(msgs, res.startPositions[i], start + out.result.startPositions[i])
      && res.startPositions[i].seqNum < |ts|
      && newItems[|oldItems| + i].payload == out.frames[i].payload
      && newItems[|oldItems| + i].timestampNs == ts[res.startPositions[i].seqNum]
  {
    ConvertedResultNamesBytes(res, out.result, msgs, start);
    forall i | 0 <= i < |res.startPositions|
      ensures res.startPositions[i].seqNum < |ts|
      ensures newItems[|oldItems| + i] == out.frames[i].Stamped(ts[res.startPositions[i].seqNum])
    {
      assert res.startPositions[i] == Locate(msgs, start + out.result.startPositions[i]);
    }
  }

  /** Stamping the next new frame keeps StampedAt. */
  lemma StampedStep<P>(oldItems: seq<Frame<P>>, newItems: seq<Frame<P>>, frames: seq<Frame<P>>,
                       ts: seq<uint64>, positions: seq<BufferPosition>, p: BufferPosition, j: nat)
    requires StampedAt(oldItems, newItems, frames, ts, positions)
    requires |positions| < |frames| && p.seqNum < |ts| && j == |oldItems| + |positions|
    ensures StampedAt(oldItems, newItems[j := newItems[j].Stamped(ts[p.seqNum])], frames, ts, positions + [p])
  {
  }

  /** Once every reported start is converted and its frame stamped, the frames are
   *  stamped with the chunks Locate finds. */
  lemma StampedAtLocated<P>(oldItems: seq<Frame<P>>, newItems: seq<Frame<P>>, out: CodecOutput<P>,
                            msgs: seq<Bytes>, ts: seq<uint64>, start: nat, positions: seq<BufferPosition>)
    requires StampedAt(oldItems, newItems, out.frames, ts, positions)
    requires ConvertedUpTo(positions, out.result.startPositions, msgs, start, |out.result.startPositions|)
    ensures FramesAppendedAndStamped(oldItems, newItems, out, msgs, ts, start)
  {
  }

  /** One step of MatchTimestamps: converts the next reported frame start and stamps
   *  its frame. */
  method MatchNext<P>(chunks: seq<Bytes>, ts: seq<uint64>, frames: FrameQueue<P>,
                      ghost oldItems: seq<Frame<P>>, prev: nat, start: nat,
                      out: CodecOutput<P>, converter: PositionConverter, positions: seq<BufferPosition>)
    returns (positions': seq<BufferPosition>)
    requires |chunks| == |ts| && prev == |oldItems|
    requires |positions| < |out.result.startPositions| <= |out.frames|
    requires start + out.result.startPositions[|positions|] < TotalLen(chunks)
    requires converter.Valid(chunks) && converter.lastQueryPos <= start + out.result.startPositions[|positions|]
    requires ConvertedUpTo(positions, out.result.startPositions, chunks, start, |positions|)
    requires StampedAt(oldItems, frames.items, out.frames, ts, positions)
    modifies frames, converter
    ensures converter.Valid(chunks) && converter.lastQueryPos == start + out.result.startPositions[|positions|]
    ensures ConvertedUpTo(positions', out.result.startPositions, chunks, start, |positions| + 1)
    ensures StampedAt(oldItems, frames.items, out.frames, ts, positions')
  {
    var i := |positions|;
    var position := converter.Convert(chunks, start + out.result.startPositions[i]);
    LocateRoundTrip(chunks, start + out.result.startPositions[i]);
    // The sequence number is in the valid range [0, |chunks|).
    assert position.seqNum < |chunks|;
    ghost var items := frames.items;
    StampedStep(oldItems, items, out.frames, ts, positions, position, prev + i);
    frames.SetTimestamp(prev + i, ts[position.seqNum]);
    assert frames.items == items[prev + i := items[prev + i].Stamped(ts[position.seqNum])];
    ConvertedStep(positions, out.result.startPositions, chunks, start, i, position);
    positions' := positions + [position];
  }

  /** The timestamp-matching loop: converts the codec's frame starts (flat offsets after
   *  the first start bytes) to chunk positions, and stamps each new frame in frames (from
   *  index prev on) whose start was reported with the timestamp of the chunk holding that
   *  start. The converter is left ready for the end position. */
  method MatchTimestamps<P>(chunks: seq<Bytes>, ts: seq<uint64>, frames: FrameQueue<P>,
                            ghost oldItems: seq<Frame<P>>, prev: nat, start: nat,
                            out: CodecOutput<P>, converter: PositionConverter)
    returns (positions: seq<BufferPosition>)
    requires |chunks| == |ts| && start <= TotalLen(chunks)
    requires WellFormedOutput(out, TotalLen(chunks) - start)
    requires prev == |oldItems| && frames.items == oldItems + out.frames
    requires converter.Valid(chunks) && converter.lastQueryPos == 0
    modifies frames, converter
    ensures converter.Valid(chunks) && converter.lastQueryPos <= start + out.result.endPosition
    ensures ConvertedUpTo(positions, out.result.startPositions, chunks, start, |out.result.startPositions|)
    ensures FramesAppendedAndStamped(oldItems, frames.items, out, chunks, ts, start)
  {
    assert frames.items[..prev] == oldItems;
    var sp := out.result.startPositions;
    positions := [];

    for i := 0 to |sp|
      invariant converter.Valid(chunks)
      invariant i == 0 ==> converter.lastQueryPos == 0
      invariant 0 < i ==> converter.lastQueryPos == start + sp[i - 1]
      invariant ConvertedUpTo(positions, sp, chunks, start, i)
      invariant StampedAt(oldItems, frames.items, out.frames, ts, positions)
    {
      positions := MatchNext(chunks, ts, frames, oldItems, prev, start, out, converter, positions);
    }
    StampedAtLocated(oldItems, frames.items, out, chunks, ts, start, positions);
  }

  /** The body of EventParser.ParseFrames once the chunks are combined into buf: finds
   *  the start position, runs the codec from there, converts its positions and stamps
   *  the new frames. */
  method ParseCombined<P>(msgType: MessageType, chunks: seq<Bytes>, ts: seq<uint64>, buf: Bytes,
                          frames: FrameQueue<P>, resync: bool, codec: Codec<P>)
    returns (res: ParseResult<BufferPosition>)
    requires |chunks| == |ts| && buf == Concat(chunks) && codec.Valid()
    modifies frames
    ensures FramesAppendedAndStamped(old(frames.items), frames.items, CodecRun(codec, msgType, chunks, resync),
              chunks, ts, StartPosition(codec, msgType, buf, resync))
    ensures ResultConverted(res, CodecRun(codec, msgType, chunks, resync).result, chunks,
              StartPosition(codec, msgType, buf, resync))
  {
    // The resync choice is written out as the parser makes it; StartPosition is its
    // specification, and the assertion below ties the two together.
    var startPos := 0;
    if resync {
      // Search from byte 1, so that a resync never stays at the current position.
      startPos := codec.findFrameBoundary(msgType, buf, 1);
      if startPos == NPOS {
        startPos := 0;
      }
    }
    assert startPos == StartPosition(codec, msgType, buf, resync);

    var out := codec.parseFrames(msgType, buf[startPos..]);
    assert out == CodecRun(codec, msgType, chunks, resync);
    res := CollectFrames(chunks, ts, frames, startPos, out);
  }

  /** Appends the codec's frames to frames, converts the flat positions it reported
   *  (relative to start) to chunk positions, and stamps each frame with a reported start. */
  method CollectFrames<P>(chunks: seq<Bytes>, ts: seq<uint64>, frames: FrameQueue<P>, start: nat,
                          out: CodecOutput<P>)
    returns (res: ParseResult<BufferPosition>)
    requires |chunks| == |ts| && start <= TotalLen(chunks)
    requires WellFormedOutput(out, TotalLen(chunks) - start)
    modifies frames
    ensures FramesAppendedAndStamped(old(frames.items), frames.items, out, chunks, ts, start)
    ensures ResultConverted(res, out.result, chunks, start)
  {
    ghost var items0 := frames.items;
    var prevSize := |frames.items|;
    frames.items := frames.items + out.frames;

    var converter := new PositionConverter();
    // Stamp each new frame from the chunk holding its start, with a fresh converter.
    var positions := MatchTimestamps(chunks, ts, frames, items0, prevSize, start, out, converter);
    var endPosition := converter.Convert(chunks, start + out.result.endPosition);
    res := ParseResult(positions, endPosition, out.result.state);
  }

  /** Parses a stream of captured events into as many complete frames as it can. */
  class EventParser<P> {
    // tsNses[k] is the capture timestamp of chunk msgs[k].
    var tsNses: seq<uint64>
    var msgs: seq<Bytes>
    // The total size of the buffered chunks.
    var msgsSize: nat

    ghost predicate Valid()
      reads this
    {
      |msgs| == |tsNses| && msgsSize == TotalLen(msgs)
    }

    constructor ()
      ensures Valid() && msgs == [] && tsNses == [] && msgsSize == 0
    {
      tsNses, msgs, msgsSize := [], [], 0;
    }

    /** Buffers one event's payload and timestamp; nothing is parsed. */
    method Append(event: SocketDataEvent)
      requires Valid()
      modifies this
      ensures Valid()
      ensures msgs == old(msgs) + [event.msg]
      ensures tsNses == old(tsNses) + [event.returnTimestampNs]
      ensures msgsSize == old(msgsSize) + |event.msg|
    {
      TotalLenAppend(msgs, [event.msg]);
      msgs := msgs + [event.msg];
      tsNses := tsNses + [event.returnTimestampNs];
      msgsSize := msgsSize + |event.msg|;
    }

    /** The buffered chunks concatenated in order; its length is the tracked size. */
    method Combine() returns (buf: Bytes)
      requires Valid()
      ensures buf == Concat(msgs)
      ensures |buf| == msgsSize
    {
      buf := [];
      for i := 0 to |msgs|
        invariant buf == Concat(msgs[..i])
      {
        ConcatSnoc(msgs, i);
        buf := buf + msgs[i];
      }
      assert msgs[..|msgs|] == msgs;
    }

    /** Parses the buffered data with the codec and appends the frames found to frames.
     *  Each new frame with a reported start gets the timestamp of the chunk holding its
     *  first byte; the result gives those starts and the end as chunk positions.
     *  All buffered data is dropped, whatever the outcome. */
    method ParseFrames(msgType: MessageType, frames: FrameQueue<P>, resync: bool, codec: Codec<P>)
      returns (res: ParseResult<BufferPosition>)
      requires Valid() && codec.Valid()
      modifies this, frames
      ensures Valid() && msgs == [] && tsNses == [] && msgsSize == 0
      ensures FramesAppendedAndStamped(old(frames.items), frames.items,
                CodecRun(codec, msgType, old(msgs), resync), old(msgs), old(tsNses),
                StartPosition(codec, msgType, Concat(old(msgs)), resync))
      ensures ResultConverted(res, CodecRun(codec, msgType, old(msgs), resync).result, old(msgs),
                StartPosition(codec, msgType, Concat(old(msgs)), resync))
    {
      var chunks, ts := msgs, tsNses;
      var buf := Combine();
      res := ParseCombined(msgType, chunks, ts, buf, frames, resync, codec);

      // Reset all state: a call to ParseFrames drains what Append buffered.
      msgs := [];
      tsNses := [];
      msgsSize := 0;

    }
  }
}
