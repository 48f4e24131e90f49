/**
 The C++ variant of the bot: a server descriptor that is open or closed
 (-1), a buffer that persists across `receive` calls, the extractor
 `process_ev`, and the request and reply handling of `api`.
 */
module CppBot {
  import opened Wire
  import Frame
  import Headers

  /** The descriptor value that marks a closed server. */
  const ClosedFd: int := -1

  /** `std::string::npos` as `find_first_of` reports it, in the -1 form of `FindFirst`. */
  const Npos: int := -1

  /** The bot's state between calls: the listening descriptor and the buffer. */
  datatype Bot = Bot(server: int, buffer: Bytes)

  /** The literal `process_ev` passes to `send`: 38 characters. */
  const AckText: Bytes := "HTTP/1.1 200 OK\r\nConnection: Close\r\n\r\n"

  /** The length passed to `send` alongside that literal. */
  const AckLength: nat := 39

  /** A C string literal in memory: its characters and a terminating NUL. */
  function CString(s: Bytes): Bytes
  {
    s + ['\0']
  }

  /** `send(fd, buf, n, 0)` on a buffer of at least `n` bytes writes its first `n`. */
  function Send(buf: Bytes, n: nat): Bytes
    requires n <= |buf|
  {
    buf[..n]
  }

  /** The bytes `process_ev` writes to the connection after an extraction:
      the 38 characters of the literal and then its terminating NUL. */
  function Acknowledgement(): (a: Bytes)
    ensures |AckText| == 38 && |a| == 39
    ensures a == AckText + ['\0']
    ensures a[38] == '\0'
  {
    Send(CString(AckText), AckLength)
  }

  /** `s.substr(pos, count)`: at most `count` bytes starting at `pos` (a
      `pos` past the end throws; no caller here passes one). */
  function Substr(s: Bytes, pos: nat, count: nat): Bytes
    requires pos <= |s|
  {
    s[pos..if pos + count <= |s| then pos + count else |s|]
  }

  /** `process_ev`: on a complete buffer, the frame from the first `{` up to
      the trailing line feed, an emptied buffer and the acknowledgement;
      otherwise `""`, the buffer untouched and nothing written. */
  function ProcessEv(buffer: Bytes): (s: Frame.Step)
    ensures s.event != [] <==> Frame.Complete(buffer)
    ensures s.event != [] ==> Frame.IsEventOf(buffer, s.event)
    ensures s.event != [] ==> s.event == buffer[FindFirst(buffer, Frame.Brace)..|buffer| - 1]
    ensures s.event != [] ==> s.buffer == [] && s.sent == Acknowledgement()
    ensures s.event == [] ==> s.buffer == buffer && s.sent == []
  {
    var idx := FindFirst(buffer, Frame.Brace);
    if idx != Npos && |buffer| > 0 && buffer[|buffer| - 1] == Frame.Newline then
      Frame.FrameOfComplete(buffer);
      Frame.Step([], Substr(buffer, idx, |buffer| - idx - 1), Acknowledgement())
    else
      Frame.Step(buffer, [], [])
  }

  /** `noise{"a":1}` and a line feed: the bytes before the first `{` are dropped. */
  lemma NoiseExample()
    ensures ProcessEv("noise{\"a\":1}\n").event == "{\"a\":1}"
    ensures ProcessEv("noise{\"a\":1}\n").buffer == []
    ensures ProcessEv("{\"a\":1}").event == []
  {
    var b: Bytes := "noise{\"a\":1}\n";
    assert b[5] == Frame.Brace;
    assert b[..5] == "noise";
    assert b[5..|b| - 1] == "{\"a\":1}";
    assert Frame.IsEventOf(b, "{\"a\":1}");
    Frame.FrameUnique(b, "{\"a\":1}", ProcessEv(b).event);
    var c: Bytes := "{\"a\":1}";
    assert c[|c| - 1] != Frame.Newline;
  }

  /** The bytes `std::string(buf, 0, s)` keeps of a received chunk. No
      constructor takes a pointer, a position and a count, so `buf` is first
      read as a C string, which ends at its first NUL, and `s` then caps the
      count. The chunk is cut just before its first NUL, and kept whole when
      it holds none. */
  function NulCut(chunk: Bytes): (c: Bytes)
    ensures |c| <= |chunk| && c == chunk[..|c|]
    ensures '\0' !in c
    ensures c == chunk || chunk[|c|] == '\0'
  {
    var n := FindFirst(chunk, '\0');
    if n == -1 then chunk else chunk[..n]
  }

  /** The bytes each read of a connection contributes to the buffer. */
  function NulCuts(conn: seq<Bytes>): (cs: seq<Bytes>)
    ensures |cs| == |conn|
  {
    if conn == [] then [] else [NulCut(conn[0])] + NulCuts(conn[1..])
  }

  lemma {:induction false} NulCutsAt(conn: seq<Bytes>, i: nat)
    requires i < |conn|
    ensures NulCuts(conn)[i] == NulCut(conn[i])
    decreases i
  {
    if i > 0 {
      NulCutsAt(conn[1..], i - 1);
    }
  }

  /** Chunks without a NUL are kept whole. */
  lemma NulFree(conn: seq<Bytes>)
    requires forall i :: 0 <= i < |conn| ==> '\0' !in conn[i]
    ensures NulCuts(conn) == conn
  {
    forall i | 0 <= i < |conn|
      ensures NulCuts(conn)[i] == conn[i]
    {
      NulCutsAt(conn, i);
      assert NulCut(conn[i]) == conn[i];
    }
  }

  /** The result of `receive`: the state afterwards, the event (`""` for
      none), the bytes written back, and how many data chunks were consumed. */
  datatype Received = Received(bot: Bot, event: Bytes, sent: Bytes, used: nat)

  /** `receive` on one accepted connection whose reads return `conn`.
      A closed server returns `""` without reading. Otherwise, while a read
      returns data, the part of the chunk before its first NUL is appended
      and the buffer tested: the first complete test yields its frame and
      empties the buffer; a read that comes back empty ends the attempt with
      `""` and leaves everything appended so far in the buffer, where the
      next connection's bytes will follow it. */
  method Receive(bot: Bot, conn: seq<Bytes>) returns (r: Received)
    ensures bot.server == ClosedFd ==> r == Received(bot, [], [], 0)
    ensures r.bot.server == bot.server
    ensures r.used <= |conn| && forall j :: 0 <= j < r.used ==> conn[j] != []
    ensures bot.server != ClosedFd && r.event != [] ==>
      && Frame.FirstEventAt(bot.buffer, NulCuts(conn), r.used)
      && Frame.IsEventOf(Frame.Acc(bot.buffer, NulCuts(conn), r.used), r.event)
      && r.bot.buffer == []
      && r.sent == Acknowledgement()
    ensures bot.server != ClosedFd && r.event == [] ==>
      && Read(conn, r.used) == []
      && Frame.Quiet(bot.buffer, NulCuts(conn), r.used)
      && r.bot.buffer == Frame.Acc(bot.buffer, NulCuts(conn), r.used)
      && r.sent == []
    ensures !Frame.Complete(bot.buffer) ==> !Frame.Complete(r.bot.buffer)
  {
    if bot.server == ClosedFd {
      return Received(bot, [], [], 0);
    }
    var cuts := NulCuts(conn);  // cuts[i] is what `std::string(buf, 0, s)` keeps of read i
    var buffer := bot.buffer;
    var i := 0;
    var chunk := Read(conn, i);
    while chunk != []
      invariant i <= |conn|
      invariant chunk == Read(conn, i)
      invariant forall j :: 0 <= j < i ==> conn[j] != []
      invariant buffer == Frame.Acc(bot.buffer, cuts, i)
      invariant Frame.Quiet(bot.buffer, cuts, i)
      decreases |conn| - i
    {
      Frame.AccStep(bot.buffer, cuts, i);
      buffer := buffer + cuts[i];
      var s := ProcessEv(buffer);
      if s.event != [] {
        assert Frame.FirstEventAt(bot.buffer, cuts, i + 1);
        return Received(Bot(bot.server, s.buffer), s.event, s.sent, i + 1);
      }
      Frame.QuietExtend(bot.buffer, cuts, i);
      i := i + 1;
      chunk := Read(conn, i);
    }
    if !Frame.Complete(bot.buffer) {
      Frame.QuietKeepsIncomplete(bot.buffer, cuts, i);
    }
    return Received(Bot(bot.server, buffer), [], [], i);
  }

  /** `receive` as evidently intended, appending each received chunk whole,
      as `std::string(buf, s)` would: the same loop as `Receive` on the
      uncut chunks. */
  method IntendedReceive(bot: Bot, conn: seq<Bytes>) returns (r: Received)
    ensures bot.server == ClosedFd ==> r == Received(bot, [], [], 0)
    ensures r.bot.server == bot.server
    ensures r.used <= |conn| && forall j :: 0 <= j < r.used ==> conn[j] != []
    ensures bot.server != ClosedFd && r.event != [] ==>
      && Frame.FirstEventAt(bot.buffer, conn, r.used)
      && Frame.IsEventOf(Frame.Acc(bot.buffer, conn, r.used), r.event)
      && r.bot.buffer == []
      && r.sent == Acknowledgement()
    ensures bot.server != ClosedFd && r.event == [] ==>
      && Read(conn, r.used) == []
      && Frame.Quiet(bot.buffer, conn, r.used)
      && r.bot.buffer == Frame.Acc(bot.buffer, conn, r.used)
      && r.sent == []
    ensures !Frame.Complete(bot.buffer) ==> !Frame.Complete(r.bot.buffer)
  {
    if bot.server == ClosedFd {
      return Received(bot, [], [], 0);
    }
    var buffer := bot.buffer;
    var i := 0;
    var chunk := Read(conn, i);
    while chunk != []
      invariant i <= |conn|
      invariant chunk == Read(conn, i)
      invariant forall j :: 0 <= j < i ==> conn[j] != []
      invariant buffer == Frame.Acc(bot.buffer, conn, i)
      invariant Frame.Quiet(bot.buffer, conn, i)
      decreases |conn| - i
    {
      Frame.AccStep(bot.buffer, conn, i);
      buffer := buffer + chunk;
      var s := ProcessEv(buffer);
      if s.event != [] {
        assert Frame.FirstEventAt(bot.buffer, conn, i + 1);
        return Received(Bot(bot.server, s.buffer), s.event, s.sent, i + 1);
      }
      Frame.QuietExtend(bot.buffer, conn, i);
      i := i + 1;
      chunk := Read(conn, i);
    }
    if !Frame.Complete(bot.buffer) {
      Frame.QuietKeepsIncomplete(bot.buffer, conn, i);
    }
    return Received(Bot(bot.server, buffer), [], [], i);
  }

  /** A chunk holding an event whose line feed follows a NUL. */
  const NulChunk: Bytes := "{\"a\":1}\0\n"

  /** A NUL inside an event hides its line feed: `NulChunk` in one read, then
      the peer closes. `receive` appends only `{"a":1}`, finds no event,
      returns `""` and keeps `{"a":1}` in the buffer. */
  method NulHidesEvent() returns (r: Received)
    ensures r.event == [] && r.bot.buffer == "{\"a\":1}" && r.sent == []
  {
    NulCutTranscript();
    r := Receive(Bot(3, []), [NulChunk]);
    assert Read([NulChunk], 0) != [];
  }

  /** The same connection with the chunk appended whole: the event is
      `{"a":1}` and the NUL, and the buffer is emptied. */
  method WholeChunkEvent() returns (r: Received)
    ensures r.event == "{\"a\":1}\0" && r.bot.buffer == [] && r.sent == Acknowledgement()
  {
    WholeTranscript();
    r := IntendedReceive(Bot(3, []), [NulChunk]);
    assert Read([NulChunk], 0) != [];
    Frame.FrameUnique(Frame.Acc([], [NulChunk], 1), "{\"a\":1}\0", r.event);
  }

  /** Cut at its NUL, `NulChunk` leaves `{"a":1}`, and no test along that
      connection is complete. */
  lemma NulCutTranscript()
    ensures Frame.Acc([], NulCuts([NulChunk]), 1) == "{\"a\":1}"
    ensures Frame.Quiet([], NulCuts([NulChunk]), 1)
    ensures forall k :: !Frame.FirstEventAt([], NulCuts([NulChunk]), k)
  {
    var cut: Bytes := "{\"a\":1}";
    assert NulChunk[7] == '\0' && '\0' !in NulChunk[..7];
    assert NulCut(NulChunk) == cut;
    assert [NulChunk][1..] == [];
    assert NulCuts([NulChunk]) == [cut];
    assert [cut][..1] == [cut];
    assert Concat([cut]) == Concat([]) + cut;
    assert cut[|cut| - 1] != Frame.Newline;
  }

  /** Whole, `NulChunk` frames `{"a":1}` and the NUL at the first test. */
  lemma WholeTranscript()
    ensures Frame.FirstEventAt([], [NulChunk], 1)
    ensures !Frame.Quiet([], [NulChunk], 1)
    ensures Frame.IsEventOf(Frame.Acc([], [NulChunk], 1), "{\"a\":1}\0")
  {
    assert [NulChunk][..1] == [NulChunk];
    assert [NulChunk][..0] == [];
    assert Concat([NulChunk]) == Concat([]) + NulChunk;
    var e: Bytes := "{\"a\":1}\0";
    Frame.FrameRoundTrip([], e);
    assert [] + e + [Frame.Newline] == NulChunk;
  }

  /** The result of `close`: the state afterwards and the descriptors handed
      to `::close`. */
  datatype Closing = Closing(bot: Bot, released: seq<int>)

  /** `close`: the server ends up closed, the buffer is kept, and the
      descriptor is released only if it was still open. */
  function Close(bot: Bot): (c: Closing)
    ensures c.bot.server == ClosedFd && c.bot.buffer == bot.buffer
    ensures |c.released| <= 1
    ensures c.released != [] <==> bot.server != ClosedFd
    ensures forall fd :: fd in c.released ==> fd == bot.server
  {
    if bot.server == ClosedFd then Closing(bot, [])
    else Closing(bot.(server := ClosedFd), [bot.server])
  }

  /** Closing twice is closing once: the second call changes nothing and
      releases nothing. */
  lemma CloseIdempotent(bot: Bot)
    ensures Close(Close(bot).bot) == Closing(Close(bot).bot, [])
  {
  }

  // ---------------------------------------------------------------------
  // api: the request string and the reply
  // ---------------------------------------------------------------------

  /** 2^64: `size_t` arithmetic is taken modulo this. */
  const SizeModulus: nat := 0x1_0000_0000_0000_0000

  /** `a - b` on `size_t` operands: it wraps around below zero. */
  function SizeSub(a: nat, b: nat): nat
    requires b <= SizeModulus
  {
    if a >= b then a - b else SizeModulus - (b - a)
  }

  /** The header map `{"Content-Type": "application/json"}` `api` uses by default. */
  const DefaultHeaders: map<Bytes, Bytes> := map[Headers.DefaultName := Headers.DefaultValue]

  /** The (name, value) pairs of a `std::map`, in the order its iterators
      visit them: every entry once, names strictly ascending. */
  function Items(headers: map<Bytes, Bytes>): (items: seq<(Bytes, Bytes)>)
    ensures |items| == |headers|
    ensures forall i :: 0 <= i < |items| ==> items[i].0 in headers && headers[items[i].0] == items[i].1
    ensures forall k :: k in headers ==> exists i :: 0 <= i < |items| && items[i].0 == k
    ensures forall i, j :: 0 <= i < j < |items| ==> Headers.LexLess(items[i].0, items[j].0)
  {
    var ks := Headers.Ascending(headers.Keys);
    var items := seq(|ks|, i requires 0 <= i < |ks| => (ks[i], headers[ks[i]]));
    assert |headers.Keys| == |headers|;
    forall k | k in headers
      ensures exists i :: 0 <= i < |items| && items[i].0 == k
    {
      assert k in ks;
      var i :| 0 <= i < |ks| && ks[i] == k;
      assert items[i].0 == k;
    }
    items
  }

  /** The header block of the request: `arg` collects `k: v` and CR LF per
      entry, and `arg.substr(0, arg.length() - 2)` drops the last CR LF. For
      an empty map the length wraps around and `substr` returns the empty
      `arg` whole. The block is the lines joined by CR LF, in key order, and
      when the map is non-empty and no line carries a CR LF of its own, it
      reads back as exactly those lines. */
  function HeaderBlock(headers: map<Bytes, Bytes>): (h: Bytes)
    ensures h == Join(Headers.Lines(Items(headers)), Headers.Crlf)
    ensures |headers| == 0 <==> h == []
    ensures |headers| > 0 && Headers.NoCrlf(Headers.Lines(Items(headers))) ==>
      Headers.SplitLines(h) == Headers.Lines(Items(headers))
  {
    var lines := Headers.Lines(Items(headers));
    var arg := Headers.Terminated(lines);
    var h := Substr(arg, 0, SizeSub(|arg|, 2));
    assert lines != [] ==> h == Join(lines, Headers.Crlf) && (Headers.NoCrlf(lines) ==> Headers.SplitLines(h) == lines) by {
      if lines != [] {
        Headers.TerminatedIsJoin(lines);
        assert |lines[0]| + 2 <= |arg| by { JoinCovers(lines, Headers.Crlf); }
        if Headers.NoCrlf(lines) {
          Headers.SplitJoin(lines);
        }
      }
    }
    h
  }

  lemma JoinCovers(parts: seq<Bytes>, sep: Bytes)
    requires parts != []
    ensures |parts[0]| <= |Join(parts, sep)|
  {
  }

  /** The request `api` sends: the head, then the payload untouched. When
      none of the lines carries a CR LF of its own, a receiver splitting the
      head at CR LF reads back the request line, `Host`, `Connection: Close`
      and the header lines in key order, then the blank line that ends the
      head; an empty map leaves one extra blank line, so the head ends early
      and the body starts with CR LF. */
  function Request(action: Bytes, path: Bytes, host: Bytes, payload: Bytes, headers: map<Bytes, Bytes>): (r: Bytes)
    ensures r == action + " " + path + " HTTP/1.1\r\nHost: " + host + "\r\nConnection: Close\r\n"
                 + Join(Headers.Lines(Items(headers)), Headers.Crlf) + "\r\n\r\n" + payload
    ensures |headers| == 0 ==> r == action + " " + path + " HTTP/1.1\r\nHost: " + host + "\r\nConnection: Close\r\n\r\n\r\n" + payload
    ensures r[|r| - |payload|..] == payload
    ensures Headers.NoCrlf(First(action, path, host)) && Headers.NoCrlf(Headers.Lines(Items(headers))) ==>
      Headers.SplitLines(r[..|r| - |payload|]) ==
        First(action, path, host) + (if |headers| == 0 then [""] else Headers.Lines(Items(headers))) + ["", ""]
  {
    var head := Head(action, path, host, headers);
    HeadReadsBack(action, path, host, headers);
    assert (head + payload)[..|head|] == head;
    head + payload
  }

  /** The request up to the payload, as `content` lays it out. */
  function Head(action: Bytes, path: Bytes, host: Bytes, headers: map<Bytes, Bytes>): Bytes
  {
    action + " " + path + " HTTP/1.1\r\nHost: " + host + "\r\nConnection: Close\r\n"
      + HeaderBlock(headers) + "\r\n\r\n"
  }

  lemma HeadReadsBack(action: Bytes, path: Bytes, host: Bytes, headers: map<Bytes, Bytes>)
    ensures Headers.NoCrlf(First(action, path, host)) && Headers.NoCrlf(Headers.Lines(Items(headers))) ==>
      Headers.SplitLines(Head(action, path, host, headers)) ==
        First(action, path, host) + (if |headers| == 0 then [""] else Headers.Lines(Items(headers))) + ["", ""]
  {
    var first := First(action, path, host);
    var lines := Headers.Lines(Items(headers));
    HeadLayout(action, path, host, HeaderBlock(headers));
    assert HeaderBlock(headers) == Join(lines, Headers.Crlf);
    if Headers.NoCrlf(first) && Headers.NoCrlf(lines) {
      Headers.ReadBack(first, lines);
      assert |headers| == 0 <==> lines == [];
    }
  }

  /** The fixed lines that open the request head, in this variant's order. */
  function First(action: Bytes, path: Bytes, host: Bytes): seq<Bytes>
  {
    [Headers.RequestLine(action, path), Headers.HostLine(host), Headers.CloseLine]
  }

  lemma HeadLayout(action: Bytes, path: Bytes, host: Bytes, block: Bytes)
    ensures Join(First(action, path, host), Headers.Crlf) + Headers.Crlf + block + Headers.Crlf + Headers.Crlf
            == action + " " + path + " HTTP/1.1\r\nHost: " + host + "\r\nConnection: Close\r\n" + block + "\r\n\r\n"
  {
    var first := First(action, path, host);
    var x := action + " " + path;
    Headers.JoinThree(first[0], first[1], first[2]);
    var q := x + " HTTP/1.1\r\nHost: " + host;
    assert x + " HTTP/1.1" + Headers.Crlf + ("Host: " + host) == q by {
      assert " HTTP/1.1" + Headers.Crlf + "Host: " == " HTTP/1.1\r\nHost: ";
    }
    assert Join(first, Headers.Crlf) == q + Headers.Crlf + Headers.CloseLine;
    var tail: Bytes := Headers.Crlf + Headers.CloseLine + Headers.Crlf;
    assert tail == "\r\nConnection: Close\r\n";
    assert q + Headers.Crlf + Headers.CloseLine + Headers.Crlf + block + Headers.Crlf + Headers.Crlf
           == q + tail + block + "\r\n\r\n";
  }

  /** The reply loop of `api`: while a read returns data, the part of the
      chunk before its first NUL is appended. Without NULs the reply is every
      chunk before the first empty read, whole. */
  method CollectReply(replies: seq<Bytes>) returns (reply: Bytes)
    ensures reply == Concat(NulCuts(replies)[..FirstEmpty(replies)])
    ensures (forall j :: 0 <= j < |replies| ==> '\0' !in replies[j]) ==> reply == Concat(replies[..FirstEmpty(replies)])
  {
    var cuts := NulCuts(replies);
    reply := [];
    var i := 0;
    var chunk := Read(replies, i);
    while chunk != []
      invariant i <= |replies|
      invariant chunk == Read(replies, i)
      invariant forall j :: 0 <= j < i ==> replies[j] != []
      invariant reply == Concat(cuts[..i])
      decreases |replies| - i
    {
      assert cuts[..i + 1][..i] == cuts[..i];
      NulCutsAt(replies, i);
      reply := reply + NulCut(chunk);
      i := i + 1;
      chunk := Read(replies, i);
    }
    if forall j :: 0 <= j < |replies| ==> '\0' !in replies[j] {
      NulFree(replies);
    }
  }

  /** `api` against an endpoint whose reads return `replies`: the request
      written, and the reply, which is every chunk before the first read that
      returns no data, each cut at its first NUL. */
  method Api(host: Bytes, path: Bytes, action: Bytes, payload: Bytes, headers: map<Bytes, Bytes>, replies: seq<Bytes>)
    returns (request: Bytes, reply: Bytes)
    ensures request == Request(action, path, host, payload, headers)
    ensures reply == Concat(NulCuts(replies)[..FirstEmpty(replies)])
  {
    request := Request(action, path, host, payload, headers);
    reply := CollectReply(replies);
  }

  /** A NUL in a reply cuts its chunk short: `OK`, NUL, `x` comes back as
      `OK`, where the whole chunk comes back as the uncut reply loop. */
  method NulReplyExample() returns (asWritten: Bytes, intended: Bytes)
    ensures asWritten == "OK" && intended == "OK\0x"
  {
    var chunk: Bytes := "OK\0x";
    var replies := [chunk];
    assert chunk[2] == '\0' && '\0' !in chunk[..2];
    assert NulCut(chunk) == "OK";
    assert NulCuts(replies) == ["OK"];
    assert FirstEmpty(replies) == 1;
    assert replies[..1] == replies && NulCuts(replies)[..1] == ["OK"];
    assert Concat(["OK"]) == Concat([]) + "OK";
    assert Concat(replies) == Concat([]) + chunk;
    asWritten := CollectReply(replies);
    intended := Drain(replies);
  }
}
