# nobot frame extractor, modelled in Dafny

nobot is a minimal reverse-HTTP bot. A peer connects and pushes one event,
and the bot answers with a fixed acknowledgement. The bot also makes
outbound API calls over plain sockets. The repository ships the bot three
times: a C++ header (`cpp/nobot.h`), a Python file at the root (`bot.py`)
and a second Python file (`python/bot.py`).

This project models the frame extractor of all three variants. The
extractor appends each received chunk to a buffer that lives as long as the
bot. After every chunk it tests a completion predicate: the buffer contains
`{` and ends with a line feed. When the test passes, the event is the bytes
from the first `{` up to, but not including, the trailing line feed. The
buffer is then cleared and an acknowledgement is written back. The project
also models the two parts of `api` that are pure logic: building the request
string, and collecting the reply until the peer closes. For the C++ variant
it models the open/closed server handle as well.

Files and modules:

- `wire.dfy` (`Wire`): byte strings, the chunk transcript of a connection,
  `find`, Python slicing, `join`, and the reply loop `Drain`.
- `frame.dfy` (`Frame`): the language-neutral meaning of the extractor. It
  defines `Complete` (the predicate) and `IsEventOf` (the event a buffer
  frames). It defines `Acc`, the buffer after k chunks, and
  `Quiet`/`FirstEventAt`, which say where along a connection the first
  complete test falls.
- `headers.dfy` (`Headers`): header lines, `std::string` ordering and the
  ascending key order of a `std::map`, and CR LF splitting and joining.
- `cpp_bot.dfy` (`CppBot`), `root_bot.dfy` (`RootBot`), `py_bot.dfy`
  (`PyBot`): one module per source file.
- `variants.dfy` (`Variants`): lemmas that relate the three variants.

Sockets are abstracted. A connection is the sequence of chunks its `recv`
calls return. An empty chunk is a read that reports the peer closed: a
non-positive `recv` in C++, or `b""` in Python. Every read past the end of
the sequence is empty. What a variant writes to a connection is returned as
a byte string. A `char` stands for one octet.

Behaviour of the code that a reader might not expect, and that the model
keeps:

- A connection that closes without an event leaves its bytes in the buffer,
  and the next connection's bytes are appended after them: nothing in any
  variant clears the buffer except a successful extraction
  (cpp/nobot.h:105-112, `Frame.CarryOverExample`).
- The C++ acknowledgement has no `Content-Type` line. It is sent with length
  39, so the literal's terminating NUL goes out as a 39th byte.
- The C++ variant appends each chunk through `std::string(buf, 0, s)`. That
  reads `buf` as a C string, so a chunk is cut just before its first NUL
  byte (see Findings).
- A closed C++ server makes `receive` return `""`. It does not raise an
  error.
- The C++ request puts `Host` before `Connection: Close`. Both Python
  variants put it after. With an empty C++ header map the head carries one
  extra blank line, so it ends early and the body starts with CR LF.

## Model

| member | source | states |
|---|---|---|
| Wire.FindFirst | cpp/nobot.h:22 | the index of the first `{` or -1 (`npos`); -1 exactly when there is none; the byte there is `{` and no earlier byte is |
| Wire.Drain | python/bot.py:57-61 | the reply is the concatenation, in order, of every chunk before the first read that returns `b""`; with no empty read it is all of them |
| Wire.JoinNothing | bot.py:61 | joining with an empty separator is plain concatenation of the parts |
| Frame.FrameOfComplete | cpp/nobot.h:22-25 | on a complete buffer the first `{` lies before the final byte, and `buffer[i..len-1]` is the framed event: a `{`-free prefix, then the event opening with `{`, then the line feed |
| Frame.FrameUnique | python/bot.py:19-21 | a buffer frames at most one event, so every extractor that meets the frame description returns the same bytes |
| Frame.CompleteIffFramed | cpp/nobot.h:23-24 | the completion predicate holds exactly when the buffer frames some event |
| Frame.FrameRoundTrip | bot.py:20-23 | noise without `{`, then an event opening with `{`, then a line feed, is complete and frames exactly that event |
| Frame.TwoChunkExample | python/bot.py:88-92 | `{"a":1}` followed by a line feed in a second chunk is not complete after the first chunk, and is complete with the event `{"a":1}` after the second |
| Frame.FirstEventUnique | cpp/nobot.h:105-110 | the first complete test along a connection is at one position only, so the "first chunk whose test is complete" in the `Receive` and `Pump` rows names a single chunk |
| Frame.CarryOverExample | cpp/nobot.h:105-112 | `{"a":` left by a connection that closed, then `1}` and a line feed on the next connection, yield the event `{"a":1}` |
| Headers.Ascending | cpp/nobot.h:62-64 | the keys of a map listed once each, none missing, in strictly ascending `std::string` order |
| Headers.SplitJoin | python/bot.py:52 | one or more header lines joined with CR LF split back into exactly those lines when none carries a CR LF (no lines join to `""`, which splits into one empty line) |
| Headers.SplitBlock | python/bot.py:52 | a CR LF-joined block, a CR LF and a remainder read back as the block's lines followed by the remainder's lines, when no line carries a CR LF |
| Headers.ReadBack | python/bot.py:52 | a request head (fixed lines, header lines, CR LF twice) reads back as those lines, the blank line and an empty remainder; with no header lines, one extra blank line, when no line carries a CR LF |
| Headers.TerminatedIsJoin | cpp/nobot.h:62-66 | appending `line + "\r\n"` for each of one or more lines gives the CR LF join of the lines plus one final CR LF |
| CppBot.Acknowledgement | cpp/nobot.h:27-28 | the bytes sent are 39: the 38-character status and `Connection: Close` literal, then its NUL |
| CppBot.ProcessEv | cpp/nobot.h:21-37 | an event is returned iff the buffer is complete; it is the frame `buffer[first { .. len-1]`, the buffer is then empty and the 39-byte acknowledgement is sent; otherwise `""`, the buffer is unchanged and nothing is sent |
| CppBot.NoiseExample | cpp/nobot.h:22-25 | `noise{"a":1}` with a line feed yields `{"a":1}` and an empty buffer; `{"a":1}` alone yields `""` |
| CppBot.NulCut | cpp/nobot.h:106 | what `std::string(buf, 0, s)` keeps of a chunk: a prefix of it without NUL that is either the whole chunk or stops at a NUL |
| CppBot.NulFree | cpp/nobot.h:87 | chunks without a NUL are kept whole, so on NUL-free reads the cut and uncut loops see the same bytes |
| CppBot.Receive | cpp/nobot.h:95-113 | a closed server returns `""` with no read and the state unchanged; otherwise, reading until a read returns no data and appending each chunk cut at its first NUL, the event is the frame of the buffer after the first read whose test is complete, and the buffer is emptied; on a read without data first it returns `""` and keeps every appended byte in the buffer; a buffer that was not complete does not become complete |
| CppBot.IntendedReceive | cpp/nobot.h:95-113 | the same as `Receive` with each chunk appended whole, as `std::string(buf, s)` would |
| CppBot.NulHidesEvent | cpp/nobot.h:105-106 | one chunk `{"a":1}`, NUL, line feed, then close: no event, nothing sent, and `{"a":1}` left in the buffer |
| CppBot.WholeChunkEvent | cpp/nobot.h:105-109 | the same chunk appended whole yields the event `{"a":1}` and the NUL, an emptied buffer and the acknowledgement |
| CppBot.Close | cpp/nobot.h:43-47 | afterwards the server is `-1` and the buffer is kept; the descriptor is released once, and only if it was open |
| CppBot.CloseIdempotent | cpp/nobot.h:43-47 | a second `close` changes nothing and releases nothing |
| CppBot.Items | cpp/nobot.h:57-64 | the map's entries, each once, with names in strictly ascending order |
| CppBot.HeaderBlock | cpp/nobot.h:61-69 | the `substr` of the accumulated lines, including the `size_t` wrap for an empty map, equals the CR LF join of the `k: v` lines in key order; it is empty exactly for an empty map; for a non-empty map, when no line carries a CR LF, it splits back into those lines |
| CppBot.Request | cpp/nobot.h:67-69 | the payload ends the request untouched; when no line carries a CR LF, the head reads back as the request line, `Host`, `Connection: Close`, the header lines in key order, a blank line and an empty remainder; an empty map adds one more blank line |
| CppBot.CollectReply | cpp/nobot.h:84-89 | the reply is every chunk before the first read without data, each cut at its first NUL; without NULs it is those chunks whole |
| CppBot.Api | cpp/nobot.h:55-90 | the request written is `Request`, and the reply is every chunk before the first read without data, each cut at its first NUL |
| CppBot.NulReplyExample | cpp/nobot.h:87 | a reply chunk `OK`, NUL, `x` comes back as `OK`, where the uncut loop returns all four bytes |
| RootBot.ProcessEv | bot.py:11-32 | `Some` event iff the buffer is complete; the event is the raw, undecoded frame; the buffer is then emptied and the `Content-Type: text/html` acknowledgement sent; on `None` the buffer is unchanged and nothing is sent |
| RootBot.Pump | bot.py:101-106 | every read, including an empty one, is appended and tested; the loop returns the frame at the first complete test and empties the buffer; if no test is complete it is still looping, holding everything read |
| RootBot.SpinsOnSilence | bot.py:102-106 | from a buffer that is not complete, any number of empty reads leaves the loop pending with the buffer unchanged, so `receive` never returns after the peer closes |
| RootBot.SpinExample | bot.py:101-106 | a peer that sends `{"a":1` and closes leaves the loop pending however many empty reads follow |
| RootBot.HeaderBlock | bot.py:61 | with at most one header the block is the CR LF join, that is, the one `k: v` line |
| RootBot.HeaderBlockConcatenates | bot.py:61 | for any headers, the block is the `k: v` lines concatenated with nothing between them |
| RootBot.HeadersRunTogether | bot.py:61 | headers `A: 1` and `B: 2` become the single line `A: 1B: 2`, which does not split back into the two header lines |
| RootBot.Request | bot.py:60-65 | request line, `Connection: Close`, `Host`, the header block, a blank line, then the payload; with at most one header the block is the CR LF join |
| RootBot.Api | bot.py:34-75 | the request written is `Request`, and the reply is every chunk before the first empty read |
| PyBot.ProcessEv | python/bot.py:10-29 | a truthy event iff the buffer is complete, so `if tmp:` detects success; the event is the frame, the buffer is emptied and the acknowledgement sent; on `b''` the buffer is unchanged and nothing is sent |
| PyBot.Receive | python/bot.py:79-93 | the event is the frame after the first chunk whose test is complete, with the buffer emptied; the first empty read returns `b''` and keeps every appended byte in the buffer; a buffer that was not complete does not become complete |
| PyBot.HeaderBlock | python/bot.py:52 | empty without headers, one `k: v` line for one header, and, for one or more headers none of whose lines carries a CR LF, a block that splits back into exactly the header lines in dict order |
| PyBot.Request | python/bot.py:51-56 | the payload ends the request untouched; when no line carries a CR LF, the head reads back as the request line, `Connection: Close`, `Host`, the header lines in dict order, a blank line and an empty remainder; no headers add one more blank line |
| PyBot.Api | python/bot.py:31-61 | the request written is `Request`, and the reply is every chunk before the first empty read |
| Variants.SameFrame | bot.py:20-32 | the three extractors take the same event out of the same buffer and leave the same buffer; only the "no event" sentinel differs |
| Variants.AcknowledgementsDiffer | cpp/nobot.h:27-28 | the Python acknowledgement is the C++ literal with a `Content-Type: text/html` line added; the C++ one carries a trailing NUL |
| Variants.SortedHeaderBlocksAgree | python/bot.py:52 | for the same headers in ascending key order, the C++ and `python/` header blocks are identical |
| Variants.RootAgreesUpToOneHeader | bot.py:39 | with at most one header, such as the default, the root and `python/` header blocks agree |
| Variants.DefaultHeaderBlock | cpp/nobot.h:57-58 | the default header map yields the block `Content-Type: application/json` |

## Findings

| source | as written | input that shows it | evidently intended | confidence | as-written member | corrected member |
|---|---|---|---|---|---|---|
| bot.py:102-106 | an empty read (peer closed) appends nothing and the loop reads again; there is no exit | the peer sends `{"a":1` and closes | stop at the first empty read and report no event, as python/bot.py:88-93 does | high; not executed | RootBot.SpinsOnSilence | PyBot.Receive |
| cpp/nobot.h:106 | `std::string(buf, 0, s)` reads `buf` as a C string, so each chunk is cut before its first NUL (and, with no NUL among the `s` bytes, `strlen` reads past them) | one chunk `{"a":1}`, NUL, line feed, then the peer closes: `receive` returns `""` and keeps `{"a":1}` | append the `s` bytes received, `std::string(buf, s)` | high; not executed | CppBot.NulHidesEvent | CppBot.IntendedReceive |
| cpp/nobot.h:87 | the reply loop appends `std::string(buf, 0, s)` the same way | a reply chunk `OK`, NUL, `x` comes back as `OK` | append the `s` bytes received, `std::string(buf, s)` | high; not executed | CppBot.NulReplyExample | Wire.Drain |
| bot.py:61 | the `k: v` strings are joined with `''` | the headers `A: 1` and `B: 2` produce the line `A: 1B: 2` (RootBot.HeadersRunTogether) | one header per line, joined with CR LF, as python/bot.py:52 does | high; not executed | RootBot.HeaderBlockConcatenates | PyBot.HeaderBlock |

## Left out

- Socket calls (`socket`, `setsockopt`, `bind`, `listen`, `accept`, `connect`, `send`, `::close` of a client connection), address parsing and `htons`/`inet_addr`: operating-system I/O. Reads are a given chunk sequence, and writes are returned bytes. The accepted connection is the `conn` argument of `Receive`/`Pump`.
- The 1024-byte read size: it only bounds chunk length and does not change the logic.
- Exceptions from a failed `socket`, `connect`, `accept`, `send` or `recv`, and the constructors, which bind and listen: runtime and operating-system behaviour. A failing `recv` differs between the variants: in Python it raises out of `receive` or `api` (python/bot.py:58 and :88, bot.py:69 and :103), and the bytes already appended stay in the buffer; in C++ a `recv` of -1 ends the loop exactly as a close does (cpp/nobot.h:87 and :105), which the empty chunk models.
- The bytes `strlen` reads past a chunk that holds no NUL: the model takes the whole chunk, which is what `std::string(buf, 0, s)` keeps whenever that read stops at a NUL; reading past the end of `buf` is undefined behaviour.
- Python `close`, `__del__`, `__iter__` and `__next__`: `close` only closes the socket, and `__next__` just calls `receive`.
- `receive` after `close` in the Python variants: its behaviour depends on `socket.accept` raising, which is outside the code.
- UTF-8 encoding of the Python request string: strings are treated as octet sequences, which agrees with UTF-8 for ASCII text only.
- RootBot.HeaderBlock: states the block only for at most one header. For more headers the block runs the lines together, which is the bot.py finding above.
- RootBot.Request: states its layout as a CR LF join only for at most one header, for the same reason; for more headers `RootBot.HeaderBlockConcatenates` gives the block.
- RootBot.Pump: the root `receive` loop does not terminate when data runs out, so the model covers a finite prefix of reads and reports whether the loop is still pending after it.
