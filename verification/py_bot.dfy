/**
 The Python variant under `python/`: `__process_ev` reports "no event" as
 `b''`, `receive` gives up when a read comes back empty, and `api` puts each
 header on a line of its own.
 */
module PyBot {
  import opened Wire
  import Frame
  import Headers

  /** Python truthiness of a byte string: `b''` is false, anything else true. */
  predicate Truthy(b: Bytes)
  {
    b != []
  }

  /** `__process_ev`: on a complete buffer, `buffer[idx:-1]` from the first
      `{`, an emptied buffer and the acknowledgement; otherwise `b''`, the
      buffer untouched and nothing written. An extracted event is never
      `b''`, so the caller's `if tmp:` tells the two outcomes apart. */
  function ProcessEv(buffer: Bytes): (s: Frame.Step)
    ensures Truthy(s.event) <==> Frame.Complete(buffer)
    ensures Truthy(s.event) ==> Frame.IsEventOf(buffer, s.event)
    ensures Truthy(s.event) ==> s.buffer == [] && s.sent == Frame.HtmlAck
    ensures !Truthy(s.event) ==> s.buffer == buffer && s.sent == []
  {
    var idx := FindFirst(buffer, Frame.Brace);
    if idx != -1 && EndsWith(buffer, [Frame.Newline]) then
      Frame.FrameOfComplete(buffer);
      Frame.Step([], Slice(buffer, idx, -1), Frame.HtmlAck)
    else
      Frame.Step(buffer, [], [])
  }

  /** The result of `receive`: the buffer afterwards, the event (`b''` for
      none), the bytes written back, and how many data chunks were consumed. */
  datatype Received = Received(buffer: Bytes, event: Bytes, sent: Bytes, used: nat)

  /** `receive` on one accepted connection whose reads return `conn`: each
      chunk is appended and tested in turn; the first complete test yields
      its frame and empties the buffer; the first empty read ends the
      attempt with `b''`, the bytes appended so far staying in the buffer. */
  method Receive(buffer: Bytes, conn: seq<Bytes>) returns (r: Received)
    ensures r.used <= |conn| && forall j :: 0 <= j < r.used ==> conn[j] != []
    ensures Truthy(r.event) ==>
      && Frame.FirstEventAt(buffer, conn, r.used)
      && Frame.IsEventOf(Frame.Acc(buffer, conn, r.used), r.event)
      && r.buffer == []
      && r.sent == Frame.HtmlAck
    ensures !Truthy(r.event) ==>
      && Read(conn, r.used) == []
      && Frame.Quiet(buffer, conn, r.used)
      && r.buffer == Frame.Acc(buffer, conn, r.used)
      && r.sent == []
    ensures !Frame.Complete(buffer) ==> !Frame.Complete(r.buffer)
  {
    var acc := buffer;
    var i := 0;
    var chunk := Read(conn, i);
    while chunk != []
      invariant i <= |conn|
      invariant chunk == Read(conn, i)
      invariant forall j :: 0 <= j < i ==> conn[j] != []
      invariant acc == Frame.Acc(buffer, conn, i)
      invariant Frame.Quiet(buffer, conn, i)
      decreases |conn| - i
    {
      Frame.AccStep(buffer, conn, i);
      acc := acc + chunk;
      var s := ProcessEv(acc);
      if Truthy(s.event) {
        assert Frame.FirstEventAt(buffer, conn, i + 1);
        return Received(s.buffer, s.event, s.sent, i + 1);
      }
      Frame.QuietExtend(buffer, conn, i);
      i := i + 1;
      chunk := Read(conn, i);
    }
    if !Frame.Complete(buffer) {
      Frame.QuietKeepsIncomplete(buffer, conn, i);
    }
    return Received(acc, [], [], i);
  }

  /** The header block `"\r\n".join` builds from the `k: v` strings in dict
      order: empty without headers, and otherwise a block that reads back as
      exactly those lines when none of them carries a CR LF of its own. */
  function HeaderBlock(items: seq<(Bytes, Bytes)>): (h: Bytes)
    ensures items == [] ==> h == []
    ensures |items| == 1 ==> h == Headers.Line(items[0].0, items[0].1)
    ensures items != [] && Headers.NoCrlf(Headers.Lines(items)) ==>
      Headers.SplitLines(h) == Headers.Lines(items)
  {
    var lines := Headers.Lines(items);
    assert items != [] && Headers.NoCrlf(lines) ==> Headers.SplitLines(Join(lines, Headers.Crlf)) == lines by {
      if items != [] && Headers.NoCrlf(lines) {
        Headers.SplitJoin(lines);
      }
    }
    Join(lines, Headers.Crlf)
  }

  /** The request `api` sends: the head, then the payload untouched. When
      none of the lines carries a CR LF of its own, a receiver splitting the
      head at CR LF reads back the request line, `Connection: Close`, `Host`
      and the header lines in dict order, then the blank line that ends the
      head; with no headers one extra blank line ends the head early. */
  function Request(action: Bytes, path: Bytes, host: Bytes, payload: Bytes, items: seq<(Bytes, Bytes)>): (r: Bytes)
    ensures r == action + " " + path + " HTTP/1.1\r\nConnection: Close\r\nHost: " + host + "\r\n"
                 + Join(Headers.Lines(items), Headers.Crlf) + "\r\n\r\n" + payload
    ensures r[|r| - |payload|..] == payload
    ensures Headers.NoCrlf(First(action, path, host)) && Headers.NoCrlf(Headers.Lines(items)) ==>
      Headers.SplitLines(r[..|r| - |payload|]) ==
        First(action, path, host) + (if items == [] then [""] else Headers.Lines(items)) + ["", ""]
  {
    var head := Head(action, path, host, items);
    HeadReadsBack(action, path, host, items);
    assert (head + payload)[..|head|] == head;
    head + payload
  }

  /** The request up to the payload, as the f-string lays it out. */
  function Head(action: Bytes, path: Bytes, host: Bytes, items: seq<(Bytes, Bytes)>): Bytes
  {
    action + " " + path + " HTTP/1.1\r\nConnection: Close\r\nHost: " + host + "\r\n"
      + HeaderBlock(items) + "\r\n\r\n"
  }

  lemma HeadReadsBack(action: Bytes, path: Bytes, host: Bytes, items: seq<(Bytes, Bytes)>)
    ensures Headers.NoCrlf(First(action, path, host)) && Headers.NoCrlf(Headers.Lines(items)) ==>
      Headers.SplitLines(Head(action, path, host, items)) ==
        First(action, path, host) + (if items == [] then [""] else Headers.Lines(items)) + ["", ""]
  {
    var first := First(action, path, host);
    HeadLayout(action, path, host, HeaderBlock(items));
    if Headers.NoCrlf(first) && Headers.NoCrlf(Headers.Lines(items)) {
      Headers.ReadBack(first, Headers.Lines(items));
    }
  }

  /** The fixed lines that open the request head, in this variant's order. */
  function First(action: Bytes, path: Bytes, host: Bytes): seq<Bytes>
  {
    [Headers.RequestLine(action, path), Headers.CloseLine, Headers.HostLine(host)]
  }

  lemma HeadLayout(action: Bytes, path: Bytes, host: Bytes, block: Bytes)
    ensures Join(First(action, path, host), Headers.Crlf) + Headers.Crlf + block + Headers.Crlf + Headers.Crlf
            == action + " " + path + " HTTP/1.1\r\nConnection: Close\r\nHost: " + host + "\r\n" + block + "\r\n\r\n"
  {
    var first := First(action, path, host);
    var x := action + " " + path;
    Headers.JoinThree(first[0], first[1], first[2]);
    var fixed: Bytes := " HTTP/1.1" + Headers.Crlf + Headers.CloseLine + Headers.Crlf + "Host: ";
    assert fixed == " HTTP/1.1\r\nConnection: Close\r\nHost: ";
    var q := x + " HTTP/1.1\r\nConnection: Close\r\nHost: " + host;
    assert Join(first, Headers.Crlf) == q by {
      assert Join(first, Headers.Crlf) == x + " HTTP/1.1" + Headers.Crlf + Headers.CloseLine + Headers.Crlf + ("Host: " + host);
      assert x + " HTTP/1.1" + Headers.Crlf + Headers.CloseLine + Headers.Crlf + ("Host: " + host) == x + fixed + host;
    }
    assert q + Headers.Crlf + block + Headers.Crlf + Headers.Crlf == q + "\r\n" + block + "\r\n\r\n";
  }

  /** `api` against an endpoint whose reads return `replies`: the request
      written, and the reply, which is every chunk before the first empty read. */
  method Api(host: Bytes, path: Bytes, action: Bytes, payload: Bytes, items: seq<(Bytes, Bytes)>, replies: seq<Bytes>)
    returns (request: Bytes, reply: Bytes)
    ensures request == Request(action, path, host, payload, items)
    ensures reply == Concat(replies[..FirstEmpty(replies)])
  {
    request := Request(action, path, host, payload, items);
    reply := Drain(replies);
  }
}
