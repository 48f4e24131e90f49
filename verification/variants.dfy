/**
 How the three variants of the bot relate: they extract the same frame from
 the same buffer and differ only in how they report it and what they write
 back, and their header blocks agree wherever the joining rules coincide.
 */
module Variants {
  import opened Wire
  import Frame
  import Headers
  import CppBot
  import RootBot
  import PyBot

  /** All three extractors take the same bytes out of the same buffer; only
      the "no event" sentinel differs (`""`, `None`, `b''`). */
  lemma SameFrame(buffer: Bytes)
    ensures CppBot.ProcessEv(buffer).event == PyBot.ProcessEv(buffer).event
    ensures RootBot.ProcessEv(buffer).event ==
      if Frame.Complete(buffer) then Some(PyBot.ProcessEv(buffer).event) else None
    ensures CppBot.ProcessEv(buffer).buffer == PyBot.ProcessEv(buffer).buffer == RootBot.ProcessEv(buffer).buffer
  {
    if Frame.Complete(buffer) {
      Frame.FrameUnique(buffer, CppBot.ProcessEv(buffer).event, PyBot.ProcessEv(buffer).event);
      Frame.FrameUnique(buffer, RootBot.ProcessEv(buffer).event.value, PyBot.ProcessEv(buffer).event);
    }
  }

  /** The acknowledgements differ: the Python variants add a
      `Content-Type: text/html` line that the C++ literal lacks, and the C++
      variant writes one NUL byte after its blank line. */
  lemma AcknowledgementsDiffer()
    ensures Frame.HtmlAck == CppBot.AckText[..36] + "Content-Type: text/html\r\n" + CppBot.AckText[36..]
    ensures CppBot.Acknowledgement() == CppBot.AckText + ['\0']
    ensures |Frame.HtmlAck| == 63 && |CppBot.Acknowledgement()| == 39
  {
  }

  /** For the same headers listed in ascending key order, the C++ and the
      `python/` header blocks are identical. */
  lemma SortedHeaderBlocksAgree(headers: map<Bytes, Bytes>)
    ensures CppBot.HeaderBlock(headers) == PyBot.HeaderBlock(CppBot.Items(headers))
  {
  }

  /** With at most one header, as with the default `Content-Type`, the root
      `bot.py` block agrees with the `python/` block; the missing separator
      shows only from two headers on. */
  lemma RootAgreesUpToOneHeader(items: seq<(Bytes, Bytes)>)
    requires |items| <= 1
    ensures RootBot.HeaderBlock(items) == PyBot.HeaderBlock(items)
  {
  }

  /** The C++ default header map yields the block `Content-Type: application/json`. */
  lemma DefaultHeaderBlock()
    ensures CppBot.HeaderBlock(CppBot.DefaultHeaders) == "Content-Type: application/json"
  {
    var items := CppBot.Items(CppBot.DefaultHeaders);
    assert |items| == 1;
    assert items[0].0 in CppBot.DefaultHeaders;
    assert items[0] == (Headers.DefaultName, Headers.DefaultValue);
    var lines := Headers.Lines(items);
    assert lines == [Headers.Line(Headers.DefaultName, Headers.DefaultValue)];
    assert CppBot.HeaderBlock(CppBot.DefaultHeaders) == Join(lines, Headers.Crlf);
  }
}
