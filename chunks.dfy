/** Captured payloads and their virtual concatenation.
 *
 *  A chunk is the byte payload of one captured socket event. The event parser
 *  treats the list of buffered chunks as one logical stream: the functions here
 *  define that stream (Concat) and its length (TotalLen).
 */
module Chunks {

  /** The byte payload of one captured event. */
  type Bytes = seq<bv8>

  /** A capture timestamp in nanoseconds (C++ uint64_t). */
  newtype uint64 = x: int | 0 <= x < 0x1_0000_0000_0000_0000

  /** Sum of the chunk lengths: the length of the virtual concatenation. */
  function TotalLen(msgs: seq<Bytes>): nat
  {
    if msgs == [] then 0 else |msgs[0]| + TotalLen(msgs[1..])
  }

  /** The chunks laid end to end, in order. */
  function Concat(msgs: seq<Bytes>): (r: Bytes)
    ensures |r| == TotalLen(msgs)
  {
    if msgs == [] then [] else msgs[0] + Concat(msgs[1..])
  }

  lemma {:induction false} TotalLenAppend(a: seq<Bytes>, b: seq<Bytes>)
    ensures TotalLen(a + b) == TotalLen(a) + TotalLen(b)
  {
    if a == [] {
      assert a + b == b;
    } else {
      assert (a + b)[1..] == a[1..] + b;
      TotalLenAppend(a[1..], b);
    }
  }

  lemma {:induction false} ConcatAppend(a: seq<Bytes>, b: seq<Bytes>)
    ensures Concat(a + b) == Concat(a) + Concat(b)
  {
    if a == [] {
      assert a + b == b;
    } else {
      assert (a + b)[1..] == a[1..] + b;
      ConcatAppend(a[1..], b);
    }
  }

  /** Extending the list by one chunk extends the stream by that chunk. */
  lemma ConcatSnoc(msgs: seq<Bytes>, i: nat)
    requires i < |msgs|
    ensures Concat(msgs[..i + 1]) == Concat(msgs[..i]) + msgs[i]
    ensures TotalLen(msgs[..i + 1]) == TotalLen(msgs[..i]) + |msgs[i]|
  {
    assert msgs[..i + 1] == msgs[..i] + [msgs[i]];
    ConcatAppend(msgs[..i], [msgs[i]]);
    TotalLenAppend(msgs[..i], [msgs[i]]);
    assert Concat([msgs[i]]) == msgs[i] + Concat([]);
  }

  /** Prefix sums of chunk lengths never decrease. */
  lemma {:induction false} TotalLenPrefixMonotone(msgs: seq<Bytes>, i: nat, j: nat)
    requires i <= j <= |msgs|
    ensures TotalLen(msgs[..i]) <= TotalLen(msgs[..j])
  {
    if i < j {
      ConcatSnoc(msgs, j - 1);
      TotalLenPrefixMonotone(msgs, i, j - 1);
    }
  }
}
