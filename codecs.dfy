/** The per-protocol codec contract that the event parser calls through.
 *
 *  Each protocol supplies FindFrameBoundary and ParseFrames; the event parser does
 *  not implement them. Here a codec is a pair of functions, and Codec.Valid states
 *  what their documentation (and the event parser's checks on their output) demand.
 */
module Codecs {
  import opened Chunks
  import opened Positions

  /** std::string::npos, the "not found" answer of FindFrameBoundary. */
  const NPOS: nat := 0xFFFF_FFFF_FFFF_FFFF

  /** Whether the requests or the responses of a connection are being parsed. */
  datatype MessageType = Request | Response

  /** A parsed frame: the protocol's own content and the capture timestamp
   *  the event parser assigns. */
  datatype Frame<P> = Frame(payload: P, timestampNs: uint64)
  {
    /** The same frame with its timestamp set to ts. */
    function Stamped(ts: uint64): (f: Frame<P>)
      ensures f.payload == payload && f.timestampNs == ts
    {
      this.(timestampNs := ts)
    }
  }

  /** What a codec's ParseFrames produces: the frames it appends to the caller's
   *  container, and the flat positions it reports. */
  datatype CodecOutput<P> = CodecOutput(frames: seq<Frame<P>>, result: ParseResult<nat>)

  /** The output of parsing an n-byte buffer is usable: every reported frame start is
   *  in the buffer and they come in order, one appended frame per reported start at
   *  least, and the end position lies between the last start and the end of the buffer. */
  ghost predicate WellFormedOutput<P>(out: CodecOutput<P>, n: nat)
  {
    var sp := out.result.startPositions;
    |sp| <= |out.frames|
    && (forall j, k :: 0 <= j <= k < |sp| ==> sp[j] <= sp[k])
    && (forall j :: 0 <= j < |sp| ==> sp[j] < n && sp[j] <= out.result.endPosition)
    && out.result.endPosition <= n
  }

  /** A protocol codec: a boundary search and a frame parser. */
  datatype Codec<P> = Codec(
    findFrameBoundary: (MessageType, Bytes, nat) -> nat,
    parseFrames: (MessageType, Bytes) -> CodecOutput<P>)
  {
    /** A boundary found from startPos lies after it and within the buffer; otherwise
     *  the answer is NPOS. The frame parser's output is well formed for its input. */
    ghost predicate Valid()
    {
      (forall t, buf, startPos: nat ::
         var b := findFrameBoundary(t, buf, startPos);
         b == NPOS || startPos < b <= |buf|)
      && (forall t, buf :: WellFormedOutput(parseFrames(t, buf), |buf|))
    }
  }
}
