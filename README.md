# Event parser stream reassembly, modelled in Dafny

This project models the protocol-independent core of the socket-trace event parser in
`src/stirling/common/event_parser.h`. Captured socket events arrive as chunks of bytes, each
with a capture timestamp. The `EventParser` buffers them (`Append`). On `ParseFrames` it:

- concatenates the chunks (`Combine`);
- optionally resynchronises to the next frame boundary;
- hands the suffix to a protocol codec;
- converts every flat offset the codec reports back to a `(chunk, offset)` position with a
  forward-only `PositionConverter`;
- stamps each new frame with the timestamp of the chunk that holds its first byte;
- drains all buffered state.

Modules:

- `Chunks` (`chunks.dfy`): byte chunks, their total length `TotalLen` and their
  concatenation `Concat`, with the append lemmas.
- `Positions` (`positions.dfy`):
  - `BufferPosition`, `ParseState` and `ParseResult`;
  - `Locate`, a from-scratch reference conversion of a flat offset, with its round-trip,
    end-sentinel and monotonicity lemmas;
  - the `PositionConverter` class, whose `Convert` loop is proved to return `Locate`'s
    answer.
- `Codecs` (`codecs.dfy`): the per-protocol `FindFrameBoundary` and `ParseFrames`. They
  are declared but not defined in the header, so here they are a `Codec` value of two
  functions. `Codec.Valid` states what their documentation and the parser's checks
  demand of them.
- `Parsing` (`parsing.dfy`): the caller's frame container (`FrameQueue`) and the
  `EventParser` class. `ParseFrames` is proved against `StartPosition`, `CodecRun`,
  `Locate` and the stamping predicate `FramesAppendedAndStamped`. The result's meaning is
  proved in `ConvertedResultNamesBytes` and `StampedFromStartChunk`.

The timestamp-matching loop of `ParseFrames` is modelled as `MatchTimestamps`, with one
iteration factored into `MatchNext`. The steps after `Combine` are factored into
`ParseCombined` and `CollectFrames`. This keeps each proof small. The order of operations
is the source's.

`Reset` clears only `curr_seq_` and `size_` (`event_parser.h:83-86`); `last_query_pos_` is kept, so later queries must still not go below it.

## Model

| member | source | states |
|---|---|---|
| Chunks.Concat | src/stirling/common/event_parser.h:215-222 | the in-order concatenation of the chunks has length TotalLen, the sum of the chunk sizes |
| Chunks.TotalLenAppend | src/stirling/common/event_parser.h:138-142 | the total size of two chunk lists laid end to end is the sum of their totals (what keeps msgs_size_ right across push_back) |
| Chunks.ConcatAppend | src/stirling/common/event_parser.h:218-220 | concatenating two chunk lists is concatenating their concatenations |
| Chunks.ConcatSnoc | src/stirling/common/event_parser.h:218-220 | appending one more chunk extends the concatenation by exactly that chunk and the size by its length |
| Chunks.TotalLenPrefixMonotone | src/stirling/common/event_parser.h:114-115 | the prefix sums of chunk sizes that the converter accumulates never decrease |
| Positions.Locate | src/stirling/common/event_parser.h:105-117 | the reference conversion names a chunk index no larger than the number of chunks |
| Positions.LocateRoundTrip | src/stirling/common/event_parser.h:105-112 | for a flat offset inside the stream, the answer names a byte inside a chunk, its flat offset is the query, and that chunk holds the byte found at the query in the concatenation |
| Positions.LocateEndFlat | src/stirling/common/event_parser.h:105-117 | at or beyond the end of the stream the answer is the sentinel {number of chunks, 0}, which names the end offset; with no chunks every query gives {0, 0} |
| Positions.LocateFlat | src/stirling/common/event_parser.h:105-117 | for every offset up to and including the end, the answer's flat offset is the query |
| Positions.LocateOfFlatPosition | src/stirling/common/event_parser.h:105-112 | conversely, every byte position inside a chunk is what the conversion gives for its flat offset |
| Positions.LocateMonotone | src/stirling/common/event_parser.h:96-116 | a larger flat offset never maps to an earlier chunk |
| Positions.LocateFrom | src/stirling/common/event_parser.h:105-116 | resuming the search at chunk k, with the sizes before k subtracted, gives the same answer as a search from chunk 0 (why the cursor may resume) |
| Positions.LocateStep | src/stirling/common/event_parser.h:106-115 | one step of the search from chunk k: either chunk k holds the offset or the search moves to chunk k+1 with its size subtracted |
| Positions.PositionConverter.constructor | src/stirling/common/event_parser.h:81-86 | a new converter has cursor, size and last query position all zero, and is consistent with any chunk list |
| Positions.PositionConverter.Reset | src/stirling/common/event_parser.h:83-86 | cursor and size become zero, the last query position is kept, and the converter is consistent with any chunk list |
| Positions.PositionConverter.Convert | src/stirling/common/event_parser.h:96-118 | requires a query not below the last one; records it; returns exactly Locate's answer; keeps size equal to the total of the chunks before the cursor; the cursor and the size it accumulates only move forward, and the cursor stops at the chunk returned |
| Codecs.WellFormedOutput | src/stirling/common/event_parser.h:62-73 | the frame parser's output for an n-byte buffer: the reported starts are in order, below n and not past the end position, at most one per appended frame, and the end position is at most n (what the checks at lines 97 and 196 and the indexing at line 200 rely on) |
| Codecs.Codec.Valid | src/stirling/common/event_parser.h:49-73 | a found boundary lies after the search start and within the buffer, otherwise it is npos; the frame parser's output is well formed for its input and only adds frames |
| Codecs.Frame.Stamped | src/stirling/common/event_parser.h:200-201 | writing the timestamp changes only the timestamp of the frame |
| Parsing.FrameQueue.SetTimestamp | src/stirling/common/event_parser.h:200-201 | only the frame at the given index changes, and only its timestamp |
| Parsing.StartPosition | src/stirling/common/event_parser.h:163-176 | without resync parsing starts at 0; with resync it starts at the boundary FindFrameBoundary finds from byte 1 (so after byte 1), or at 0 when it returns npos; the start is within the buffer |
| Parsing.CodecRun | src/stirling/common/event_parser.h:182-184 | the codec's output on the buffer suffix from the start position is well formed for the suffix length |
| Parsing.ConvertedNamesBytes | src/stirling/common/event_parser.h:194-198 | each converted frame start names, inside a chunk, the byte at the reported flat offset plus the start position |
| Parsing.ConvertedResultNamesBytes | src/stirling/common/event_parser.h:194-211 | a converted result names the reported bytes: each start position is inside a chunk at the reported flat offset plus the start position, and the end position's flat offset is the reported end plus the start position |
| Parsing.StampedFromStartChunk | src/stirling/common/event_parser.h:179-211 | frames present before the call are unchanged; the i-th new frame keeps its payload and carries the timestamp of the chunk named by the i-th returned start position, which holds the frame's first byte |
| Parsing.StampedStep | src/stirling/common/event_parser.h:200-201 | stamping the next new frame extends the stamped prefix by one frame and leaves all other frames alone |
| Parsing.MatchNext | src/stirling/common/event_parser.h:195-201 | one loop iteration converts the next start with the shared converter and stamps its frame with the timestamp of the chunk found |
| Parsing.MatchTimestamps | src/stirling/common/event_parser.h:189-202 | the loop converts every reported start to Locate's answer and stamps every frame with a reported start, leaving earlier frames and later new frames untouched |
| Parsing.CollectFrames | src/stirling/common/event_parser.h:179-204 | the codec's frames are appended after the existing ones and stamped; the result holds the converted starts, the converted end and the codec's state unchanged |
| Parsing.ParseCombined | src/stirling/common/event_parser.h:163-204 | the same, for the start position StartPosition chooses and the codec output CodecRun gives on the combined buffer |
| Parsing.EventParser.constructor | src/stirling/common/event_parser.h:224-229 | a new parser buffers nothing and its tracked size is zero |
| Parsing.EventParser.Append | src/stirling/common/event_parser.h:138-142 | adds exactly one chunk and its timestamp and adds the chunk's length to the tracked size, keeping both lists of equal length and the size equal to the total |
| Parsing.EventParser.Combine | src/stirling/common/event_parser.h:215-222 | returns the in-order concatenation of the buffered chunks; its length is the tracked size |
| Parsing.EventParser.ParseFrames | src/stirling/common/event_parser.h:159-212 | earlier frames are unchanged and the codec's frames are appended and stamped per chunk of their first byte; the result is the converted codec result; afterwards the chunks, timestamps and size are cleared |

## Left out

- Integer width: `size_t` offsets and sizes are unbounded naturals, so overflow of `msgs_size_` or of `start_pos + start_positions[i]` is not modelled. Timestamps are a 64-bit newtype and are only copied.
- The codec bodies (HTTP, MySQL and others) are not part of this model. `FindFrameBoundary` and the codec's `ParseFrames` are the two functions of a `Codec` value. Their contract is `Codec.Valid`.
- The codec contract also requires the boundary search to answer at most the buffer length. `remove_prefix` would otherwise be undefined behaviour.
- The codec contract requires the start positions reported by the codec to:
  - be in order, as the converter's forward-only check needs;
  - lie inside the parsed suffix, which is what the `seq_num < msgs_.size()` check amounts to;
  - not exceed the end position;
  - number no more than the frames appended.

  The end position must not exceed the suffix length.
- The codec's `ParseFrames` is modelled as returning the frames it appends, rather than writing into the deque. The parser then appends them. This makes "frames are only appended" (the `frames->size() >= prev_size` check) hold by construction.
- `SocketDataEvent` is reduced to its payload and its return timestamp, the only fields used. Kernel capture is not part of this model.
- `ParseState` comes from `parse_state.h`, which is not part of this model. It is a three-valued datatype carried through unchanged.
- `MessageType` is a two-valued datatype, request or response.
- `VLOG` tracing, the DCHECK message texts and `absl::Substitute` formatting are not modelled.
- The two DCHECKs of the parse loop are modelled differently:
  - the forward-only check is a precondition of `Convert`;
  - the sequence-number check is a proved assertion.
- `reserve`, `string_view` lifetime and aliasing, and the deque-versus-vector choice are not modelled; they do not change results.
