/**
 The Python variant at the repository root, `bot.py`: `__process_ev` reports
 "no event" as `None`, `receive` keeps reading after the peer has closed, and
 `api` runs the header lines together without a separator.
 */
module RootBot {
  import opened Wire
  import Frame
  import Headers

  /** The result of one `__process_ev` call: the buffer afterwards, the event
      (`None` for none) and the bytes written to the connection. */
  datatype Step = Step(buffer: Bytes, event: Option<Bytes>, sent: Bytes)

  /** `__process_ev`: on a complete buffer, `buffer[idx:-1]` from the first
      `{`, not decoded, an emptied buffer and the acknowledgement; otherwise
      `None`, the buffer untouched and nothing written. */
  function ProcessEv(buffer: Bytes): (s: Step)
    ensures s.event.Some? <==> Frame.Complete(buffer)
    ensures s.event.Some? ==> Frame.IsEventOf(buffer, s.event.value)
    ensures s.event.Some? ==> s.buffer == [] && s.sent == Frame.HtmlAck
    ensures s.event.None? ==> s.buffer == buffer && s.sent == []
  {
    var idx := FindFirst(buffer, Frame.Brace);
    if idx != -1 && EndsWith(buffer, [Frame.Newline]) then
      Frame.FrameOfComplete(buffer);
      Step([], Some(Slice(buffer, idx, -1)), Frame.HtmlAck)
    else
      Step(buffer, None, [])
  }

  /** Where the `receive` loop stands after the reads `conn`: still looping
      with the buffer it has, or returned with an event after `used` reads. */
  datatype Pumped =
    | Pending(buffer: Bytes)
    | Returned(buffer: Bytes, event: Bytes, sent: Bytes, used: nat)

  /** The `receive` loop fed the reads `conn`, empty ones included: each
      read is appended (an empty one appends nothing) and the buffer tested.
      The loop returns the first event found; if none is found it is still
      looping when the reads run out. */
  function Pump(buffer: Bytes, conn: seq<Bytes>): (p: Pumped)
    ensures p.Pending? ==> Frame.Quiet(buffer, conn, |conn|) && p.buffer == Frame.Acc(buffer, conn, |conn|)
    ensures p.Returned? ==>
      && Frame.FirstEventAt(buffer, conn, p.used)
      && Frame.IsEventOf(Frame.Acc(buffer, conn, p.used), p.event)
      && p.buffer == []
      && p.sent == Frame.HtmlAck
    decreases |conn|
  {
    if conn == [] then
      assert conn[..0] == [];
      Pending(buffer)
    else
      var s := ProcessEv(buffer + conn[0]);
      Frame.AccStep(buffer, conn, 0);
      assert conn[..0] == [];
      assert Frame.Acc(buffer, conn, 1) == buffer + conn[0];
      match s.event
      case Some(ev) => Returned(s.buffer, ev, s.sent, 1)
      case None =>
        var p := Pump(s.buffer, conn[1..]);
        if p.Returned? then
          ShiftFirst(buffer, conn, p.used);
          p.(used := p.used + 1)
        else
          ShiftPending(buffer, conn);
          p
  }

  /** The tests of the loop restarted after a failed first chunk are the
      tests of the whole loop from its second chunk on. */
  lemma ShiftQuiet(buffer: Bytes, conn: seq<Bytes>, k: nat)
    requires k < |conn|
    requires !Frame.Complete(Frame.Acc(buffer, conn, 1))
    requires Frame.Quiet(buffer + conn[0], conn[1..], k)
    ensures Frame.Quiet(buffer, conn, k + 1)
  {
    forall j | 1 <= j <= k + 1
      ensures !Frame.Complete(Frame.Acc(buffer, conn, j))
    {
      if j > 1 {
        Frame.AccShift(buffer, conn, j - 1);
      }
    }
  }

  lemma ShiftPending(buffer: Bytes, conn: seq<Bytes>)
    requires 0 < |conn|
    requires !Frame.Complete(Frame.Acc(buffer, conn, 1))
    requires Frame.Quiet(buffer + conn[0], conn[1..], |conn| - 1)
    ensures Frame.Quiet(buffer, conn, |conn|)
    ensures Frame.Acc(buffer + conn[0], conn[1..], |conn| - 1) == Frame.Acc(buffer, conn, |conn|)
  {
    ShiftQuiet(buffer, conn, |conn| - 1);
    Frame.AccShift(buffer, conn, |conn| - 1);
  }

  lemma ShiftFirst(buffer: Bytes, conn: seq<Bytes>, k: nat)
    requires 0 < |conn|
    requires !Frame.Complete(Frame.Acc(buffer, conn, 1))
    requires Frame.FirstEventAt(buffer + conn[0], conn[1..], k)
    ensures Frame.FirstEventAt(buffer, conn, k + 1)
    ensures Frame.Acc(buffer + conn[0], conn[1..], k) == Frame.Acc(buffer, conn, k + 1)
  {
    ShiftQuiet(buffer, conn, k - 1);
    Frame.AccShift(buffer, conn, k);
  }

  /** `n` reads of a connection whose peer has closed. */
  function Silence(n: nat): (s: seq<Bytes>)
    ensures |s| == n && forall i :: 0 <= i < n ==> s[i] == []
  {
    seq(n, _ => [])
  }

  /** Once the peer has closed, `receive` never returns: from a buffer
      without a complete event, however many further reads come back empty,
      the loop is still pending with the buffer unchanged. */
  lemma {:induction false} SpinsOnSilence(buffer: Bytes, n: nat)
    requires !Frame.Complete(buffer)
    ensures Pump(buffer, Silence(n)) == Pending(buffer)
    decreases n
  {
    if n > 0 {
      assert buffer + Silence(n)[0] == buffer;
      assert Silence(n)[1..] == Silence(n - 1);
      SpinsOnSilence(buffer, n - 1);
    }
  }

  /** Concretely: a peer that sends `{"a":1` and closes leaves `receive`
      looping for good, where the other two variants return "no event". */
  lemma SpinExample(n: nat)
    ensures Pump([], ["{\"a\":1"] + Silence(n)) == Pending("{\"a\":1")
  {
    var conn := ["{\"a\":1"] + Silence(n);
    var c: Bytes := "{\"a\":1";
    assert [] + conn[0] == c;
    assert !Frame.Complete(c) by { assert c[|c| - 1] != Frame.Newline; }
    assert conn[1..] == Silence(n);
    SpinsOnSilence(c, n);
  }

  /** The header block as `bot.py` writes it: the `k: v` strings in dict
      order concatenated with nothing between them. */
  function HeaderBlock(items: seq<(Bytes, Bytes)>): (h: Bytes)
    ensures |items| <= 1 ==> h == Join(Headers.Lines(items), Headers.Crlf)
  {
    Join(Headers.Lines(items), [])
  }

  /** Whatever the headers, the block is their lines concatenated, with no
      separator between neighbours. */
  lemma HeaderBlockConcatenates(items: seq<(Bytes, Bytes)>)
    ensures HeaderBlock(items) == Concat(Headers.Lines(items))
  {
    JoinNothing(Headers.Lines(items));
  }

  /** Two headers run together on a single line: `A: 1B: 2` reads back as one
      line, not two. */
  lemma HeadersRunTogether()
    ensures HeaderBlock([("A", "1"), ("B", "2")]) == "A: 1B: 2"
    ensures Headers.SplitLines(HeaderBlock([("A", "1"), ("B", "2")])) == ["A: 1B: 2"]
    ensures Headers.SplitLines(HeaderBlock([("A", "1"), ("B", "2")])) != Headers.Lines([("A", "1"), ("B", "2")])
  {
    var ls := Headers.Lines([("A", "1"), ("B", "2")]);
    assert ls[0] == "A: 1" && ls[1] == "B: 2";
    var h: Bytes := "A: 1B: 2";
    assert Join(ls, []) == h by {
      assert ls[1..] == ["B: 2"];
    }
    assert !Headers.HasCrlf(h) by {
      forall i | 0 <= i < |h|
        ensures !Headers.CrlfAt(h, i)
      {
      }
    }
  }

  /** The request `api` sends: request line, `Connection: Close`, `Host`, the
      header block, a blank line, then the payload. */
  function Request(action: Bytes, path: Bytes, host: Bytes, payload: Bytes, items: seq<(Bytes, Bytes)>): (r: Bytes)
    ensures |items| <= 1 ==>
      r == action + " " + path + " HTTP/1.1\r\nConnection: Close\r\nHost: " + host + "\r\n"
           + Join(Headers.Lines(items), Headers.Crlf) + "\r\n\r\n" + payload
  {
    action + " " + path + " HTTP/1.1\r\nConnection: Close\r\nHost: " + host + "\r\n"
      + HeaderBlock(items) + "\r\n\r\n" + payload
  }

  /** `api` against an endpoint whose reads return `replies`: the request
      written, and the reply, which is every chunk before the first empty read. */
  method Api(host: Bytes, path: Bytes, action: Bytes, payload: Bytes, items: seq<(Bytes, Bytes)>, replies: seq<Bytes>)
    returns (request: Bytes, reply: Bytes)
    ensures request == Request(action, path, host, payload, items)
    ensures reply == Concat(replies[..FirstEmpty(replies)])
  {
    request := Request(action, path, host, payload, items);
    reply := Drain(replies);
  }
}
