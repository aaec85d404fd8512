/** The relay's wire format: every message is one length byte followed by that many
    payload bytes, in both directions of one persistent stream. */
module Framing {
  import opened Apdu

  /** What sendCommand writes for a payload: the length, of which write(int) keeps only
      the low 8 bits, then the payload bytes in order. */
  function Frame(payload: seq<byte>): seq<byte>
  {
    [(|payload| % 256) as byte] + payload
  }

  /** The stream starts with a length byte and holds at least that many bytes after it. */
  predicate FrameAvailable(s: seq<byte>)
  {
    |s| >= 1 && |s| >= 1 + s[0] as int
  }

  /** The payload waitForResponse assembles from the head of the stream. */
  function FramePayload(s: seq<byte>): seq<byte>
    requires FrameAvailable(s)
  {
    s[1..1 + s[0] as int]
  }

  /** What is left of the stream after one message has been read. */
  function FrameRest(s: seq<byte>): seq<byte>
    requires FrameAvailable(s)
  {
    s[1 + s[0] as int..]
  }

  /** Round trip: a payload of at most 255 bytes framed and put ahead of any further
      traffic is read back whole, and the reader stops exactly at the end of the frame. */
  lemma FrameRoundTrip(payload: seq<byte>, rest: seq<byte>)
    requires |payload| <= 255
    ensures FrameAvailable(Frame(payload) + rest)
    ensures FramePayload(Frame(payload) + rest) == payload
    ensures FrameRest(Frame(payload) + rest) == rest
  {
    var s := Frame(payload) + rest;
    assert s[0] as int == |payload|;
    assert s[1..1 + |payload|] == payload;
    assert s[1 + |payload|..] == rest;
  }

  /** The one-byte length does not fit longer payloads: the reader gets only the first
      |payload| % 256 bytes, so the payload does not come back. */
  lemma OversizedFrameTruncated(payload: seq<byte>, rest: seq<byte>)
    requires |payload| >= 256
    ensures FrameAvailable(Frame(payload) + rest)
    ensures FramePayload(Frame(payload) + rest) == payload[..|payload| % 256]
    ensures FramePayload(Frame(payload) + rest) != payload
  {
    var s := Frame(payload) + rest;
    var n := |payload| % 256;
    assert s[0] as int == n;
    assert s[1..1 + n] == payload[..n];
  }

  /** Several messages sent one after the other on the same stream. */
  function Concat(payloads: seq<seq<byte>>): seq<byte>
  {
    if |payloads| == 0 then [] else Frame(payloads[0]) + Concat(payloads[1..])
  }

  /** Reading `n` messages off the head of a stream; None when the stream runs short. */
  function ReadMessages(s: seq<byte>, n: nat): Option<seq<seq<byte>>>
  {
    if n == 0 then Some([])
    else if !FrameAvailable(s) then None
    else
      match ReadMessages(FrameRest(s), n - 1)
      case None => None
      case Some(more) => Some([FramePayload(s)] + more)
  }

  /** Messages of at most 255 bytes sent in a row are read back in a row, in order and
      unmodified: length prefixes alone delimit the messages. */
  lemma {:induction false} ConcatRoundTrip(payloads: seq<seq<byte>>)
    requires forall i :: 0 <= i < |payloads| ==> |payloads[i]| <= 255
    ensures ReadMessages(Concat(payloads), |payloads|) == Some(payloads)
  {
    if |payloads| > 0 {
      var rest := Concat(payloads[1..]);
      FrameRoundTrip(payloads[0], rest);
      ConcatRoundTrip(payloads[1..]);
      assert [payloads[0]] + payloads[1..] == payloads;
    }
  }
}
