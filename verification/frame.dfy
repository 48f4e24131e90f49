/**
 The frame extractor's language-neutral meaning, shared by the three bot
 variants: when the accumulated buffer holds a complete event, what that
 event is, and how the buffer grows as the chunks of one connection arrive.
 */
module Frame {
  import opened Wire

  const Brace: char := '{'
  const Newline: char := '\n'

  /** The acknowledgement both Python variants send after an extraction. */
  const HtmlAck: Bytes := "HTTP/1.1 200 OK\r\nConnection: Close\r\nContent-Type: text/html\r\n\r\n"

  /** The result of one extraction call in the two variants that report "no
      event" as an empty string (`""` in C++, `b''` under `python/`): the
      buffer afterwards, the event, and the bytes written to the connection. */
  datatype Step = Step(buffer: Bytes, event: Bytes, sent: Bytes)

  /** The completion predicate: a `{` somewhere in the buffer, and a line
      feed as its last byte. */
  predicate Complete(buffer: Bytes)
  {
    Brace in buffer && |buffer| > 0 && buffer[|buffer| - 1] == Newline
  }

  /** `event` is the frame of `buffer`: the buffer is a prefix free of `{`,
      then `event`, which opens with `{`, then the one trailing line feed. */
  predicate IsEventOf(buffer: Bytes, event: Bytes)
  {
    && 0 < |event| < |buffer|
    && event[0] == Brace
    && buffer[|buffer| - 1] == Newline
    && buffer[|buffer| - 1 - |event|..|buffer| - 1] == event
    && Brace !in buffer[..|buffer| - 1 - |event|]
  }

  /** A complete buffer frames the bytes from its first `{` up to, and not
      including, its final byte. */
  lemma FrameOfComplete(buffer: Bytes)
    requires Complete(buffer)
    ensures 0 <= FindFirst(buffer, Brace) < |buffer| - 1
    ensures IsEventOf(buffer, buffer[FindFirst(buffer, Brace)..|buffer| - 1])
  {
    var i := FindFirst(buffer, Brace);
    var e := buffer[i..|buffer| - 1];
    assert |buffer| - 1 - |e| == i;
  }

  /** A buffer frames at most one event. */
  lemma FrameUnique(buffer: Bytes, e1: Bytes, e2: Bytes)
    requires IsEventOf(buffer, e1) && IsEventOf(buffer, e2)
    ensures e1 == e2
  {
  }

  /** Completion holds exactly when the buffer frames some event. */
  lemma CompleteIffFramed(buffer: Bytes)
    ensures Complete(buffer) <==> exists e :: IsEventOf(buffer, e)
  {
    if Complete(buffer) {
      FrameOfComplete(buffer);
    }
    if e :| IsEventOf(buffer, e) {
      assert buffer[|buffer| - 1 - |e|] == e[0];
    }
  }

  /** The buffer after the first `k` chunks of a connection were appended to
      the bytes `start` left over from before. */
  function Acc(start: Bytes, conn: seq<Bytes>, k: nat): Bytes
    requires k <= |conn|
  {
    start + Concat(conn[..k])
  }

  lemma AccStep(start: Bytes, conn: seq<Bytes>, k: nat)
    requires k < |conn|
    ensures Acc(start, conn, k + 1) == Acc(start, conn, k) + conn[k]
  {
    assert conn[..k + 1][..k] == conn[..k];
  }

  lemma AccShift(start: Bytes, conn: seq<Bytes>, k: nat)
    requires k < |conn|
    ensures Acc(start + conn[0], conn[1..], k) == Acc(start, conn, k + 1)
  {
    assert conn[..k + 1] == [conn[0]] + conn[1..][..k];
    ConcatAppend([conn[0]], conn[1..][..k]);
    assert Concat([conn[0]]) == Concat([]) + conn[0];
  }

  /** None of the tests made after chunks 1 to `k` found a complete buffer. */
  predicate Quiet(start: Bytes, conn: seq<Bytes>, k: nat)
    requires k <= |conn|
  {
    forall j :: 1 <= j <= k ==> !Complete(Acc(start, conn, j))
  }

  lemma QuietExtend(start: Bytes, conn: seq<Bytes>, k: nat)
    requires k < |conn|
    requires Quiet(start, conn, k) && !Complete(Acc(start, conn, k + 1))
    ensures Quiet(start, conn, k + 1)
  {
  }

  /** A buffer that was not complete stays so while the tests stay quiet. */
  lemma QuietKeepsIncomplete(start: Bytes, conn: seq<Bytes>, k: nat)
    requires k <= |conn|
    requires Quiet(start, conn, k) && !Complete(start)
    ensures !Complete(Acc(start, conn, k))
  {
    if k == 0 {
      assert conn[..0] == [];
    }
  }

  /** The test made after chunk `k` is the first that found a complete buffer. */
  predicate FirstEventAt(start: Bytes, conn: seq<Bytes>, k: nat)
  {
    1 <= k <= |conn| && Quiet(start, conn, k - 1) && Complete(Acc(start, conn, k))
  }

  /** An event is found at most once per connection: the position of the
      first complete test is unique. */
  lemma FirstEventUnique(start: Bytes, conn: seq<Bytes>, k1: nat, k2: nat)
    requires FirstEventAt(start, conn, k1) && FirstEventAt(start, conn, k2)
    ensures k1 == k2
  {
  }

  /** Framing round trip: noise free of `{`, an event that opens with `{`,
      and a line feed make a complete buffer that frames exactly that event. */
  lemma FrameRoundTrip(noise: Bytes, event: Bytes)
    requires Brace !in noise && |event| > 0 && event[0] == Brace
    ensures Complete(noise + event + [Newline])
    ensures IsEventOf(noise + event + [Newline], event)
  {
    var b := noise + event + [Newline];
    assert b[|noise|] == Brace;
    assert b[..|noise|] == noise;
    assert b[|noise|..|b| - 1] == event;
  }

  /** Splitting an event over two chunks delays it until the line feed
      arrives: `{"a":1}` then a line feed yields the same frame as one chunk. */
  lemma TwoChunkExample()
    ensures !Complete(Acc([], ["{\"a\":1}", "\n"], 1))
    ensures FirstEventAt([], ["{\"a\":1}", "\n"], 2)
    ensures IsEventOf(Acc([], ["{\"a\":1}", "\n"], 2), "{\"a\":1}")
  {
    var e: Bytes := "{\"a\":1}";
    var two: seq<Bytes> := [e, "\n"];
    assert two[..0] == [];
    AccStep([], two, 0);
    AccStep([], two, 1);
    assert Acc([], two, 1) == e;
    assert e[|e| - 1] != Newline;
    FrameRoundTrip([], e);
    assert [] + e + [Newline] == Acc([], two, 2);
  }

  /** Bytes left by a connection that closed without an event open the next
      connection's buffer: `{"a":` on one connection and `1}` with a line
      feed on the next yield the event `{"a":1}` from the second. */
  lemma CarryOverExample()
    ensures Quiet([], ["{\"a\":"], 1) && Acc([], ["{\"a\":"], 1) == "{\"a\":"
    ensures FirstEventAt("{\"a\":", ["1}\n"], 1)
    ensures IsEventOf(Acc("{\"a\":", ["1}\n"], 1), "{\"a\":1}")
  {
    var c: Bytes := "{\"a\":";
    var first: seq<Bytes> := [c];
    assert first[..0] == [];
    AccStep([], first, 0);
    assert c[|c| - 1] != Newline;
    var second: seq<Bytes> := ["1}\n"];
    assert second[..0] == [];
    AccStep(c, second, 0);
    var e: Bytes := "{\"a\":1}";
    assert Acc(c, second, 1) == [] + e + [Newline];
    FrameRoundTrip([], e);
  }
}
