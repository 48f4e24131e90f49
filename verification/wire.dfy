/**
 The octet sequences that cross the bot's sockets, and the handful of
 sequence operations the three bot variants share.

 A `char` stands for one octet: the C++ variant works on `std::string`, the
 Python variants on `bytes`, and every literal the bot writes is ASCII.
 A connection is modelled by the sequence of chunks its successive `recv`
 calls return; an empty chunk is a read that reported the peer closed (a
 non-positive return value in C++, `b""` in Python), and every read past the
 end of the sequence is such an empty read.
 */
module Wire {

  type Bytes = seq<char>

  datatype Option<+T> = None | Some(value: T)

  /** The chunk the `i`-th `recv` on a connection returns. */
  function Read(conn: seq<Bytes>, i: nat): Bytes
  {
    if i < |conn| then conn[i] else []
  }

  /** The bytes `buffer += chunk` accumulates from `chunks`, in order. */
  function Concat(chunks: seq<Bytes>): Bytes
  {
    if chunks == [] then [] else Concat(chunks[..|chunks| - 1]) + chunks[|chunks| - 1]
  }

  lemma {:induction false} ConcatAppend(chunks: seq<Bytes>, more: seq<Bytes>)
    ensures Concat(chunks + more) == Concat(chunks) + Concat(more)
    decreases |more|
  {
    if more == [] {
      assert chunks + more == chunks;
    } else {
      var init := more[..|more| - 1];
      assert (chunks + more)[..|chunks + more| - 1] == chunks + init;
      ConcatAppend(chunks, init);
    }
  }

  /** `find` on a byte string: the first index of `c`, or -1 when `c` does not
      occur (C++ `npos` is modelled by the same -1). */
  function FindFirst(s: Bytes, c: char): (r: int)
    ensures -1 <= r < |s|
    ensures r == -1 <==> c !in s
    ensures 0 <= r ==> s[r] == c && c !in s[..r]
    decreases |s|
  {
    if s == [] then -1
    else if s[0] == c then 0
    else
      var k := FindFirst(s[1..], c);
      if k == -1 then -1
      else
        assert s[..k + 1] == [s[0]] + s[1..][..k];
        k + 1
  }

  /** Python's `s.endswith(suffix)`. */
  predicate EndsWith(s: Bytes, suffix: Bytes)
  {
    |suffix| <= |s| && s[|s| - |suffix|..] == suffix
  }

  /** A Python slice bound normalised against length `n`: a negative bound
      counts from the end, and the result is clamped into `[0, n]`. */
  function SliceBound(i: int, n: nat): (b: nat)
    ensures b <= n
    ensures 0 <= i <= n ==> b == i
    ensures i < 0 && 0 <= n + i ==> b == n + i
  {
    if i < 0 then (if n + i < 0 then 0 else n + i)
    else if i > n then n
    else i
  }

  /** Python's `s[start:stop]`; an empty result when the bounds cross. */
  function Slice(s: Bytes, start: int, stop: int): Bytes
  {
    var a := SliceBound(start, |s|);
    var b := SliceBound(stop, |s|);
    if a <= b then s[a..b] else []
  }

  /** `sep.join(parts)`: the parts with `sep` between neighbours, and nothing
      before the first or after the last. */
  function Join(parts: seq<Bytes>, sep: Bytes): Bytes
    decreases |parts|
  {
    if parts == [] then []
    else if |parts| == 1 then parts[0]
    else parts[0] + sep + Join(parts[1..], sep)
  }

  /** Joining with an empty separator concatenates the parts. */
  lemma {:induction false} JoinNothing(parts: seq<Bytes>)
    ensures Join(parts, []) == Concat(parts)
    decreases |parts|
  {
    if parts != [] {
      assert parts == [parts[0]] + parts[1..];
      ConcatAppend([parts[0]], parts[1..]);
      assert Concat([parts[0]]) == Concat([]) + parts[0];
      if |parts| > 1 {
        JoinNothing(parts[1..]);
      } else {
        assert parts[1..] == [];
      }
    }
  }

  /** The index of the first empty read, bounded by the recorded chunks. */
  function FirstEmpty(replies: seq<Bytes>): (k: nat)
    ensures k <= |replies|
    ensures Read(replies, k) == []
    ensures forall j :: 0 <= j < k ==> replies[j] != []
    decreases |replies|
  {
    if replies == [] || replies[0] == [] then 0
    else 1 + FirstEmpty(replies[1..])
  }

  /** The reply loop of `api`: append every chunk until a read comes back
      empty, then return what was appended. */
  method Drain(replies: seq<Bytes>) returns (reply: Bytes)
    ensures reply == Concat(replies[..FirstEmpty(replies)])
    ensures (forall j :: 0 <= j < |replies| ==> replies[j] != []) ==> reply == Concat(replies)
  {
    reply := [];
    var i := 0;
    var chunk := Read(replies, i);
    while chunk != []
      invariant i <= |replies|
      invariant chunk == Read(replies, i)
      invariant forall j :: 0 <= j < i ==> replies[j] != []
      invariant reply == Concat(replies[..i])
      decreases |replies| - i
    {
      assert replies[..i + 1][..i] == replies[..i];
      reply := reply + chunk;
      i := i + 1;
      chunk := Read(replies, i);
    }
    assert i == |replies| ==> replies[..i] == replies;
  }
}
