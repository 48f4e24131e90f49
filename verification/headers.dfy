/**
 Header lines of an outbound request: how a header renders as one line, the
 order a `std::map` hands its keys out in, and the CRLF framing that the
 header block is meant to have (every header on a line of its own).
 */
module Headers {
  import opened Wire

  const Crlf: Bytes := "\r\n"

  /** The header every variant's `api` sends when the caller gives none. */
  const DefaultName: Bytes := "Content-Type"
  const DefaultValue: Bytes := "application/json"

  /** One header rendered as `Key: Value`. */
  function Line(name: Bytes, value: Bytes): Bytes
  {
    name + ": " + value
  }

  /** The lines of headers given as (name, value) pairs in iteration order. */
  function Lines(items: seq<(Bytes, Bytes)>): (ls: seq<Bytes>)
    ensures |ls| == |items|
    ensures forall i :: 0 <= i < |items| ==> ls[i] == Line(items[i].0, items[i].1)
  {
    seq(|items|, i requires 0 <= i < |items| => Line(items[i].0, items[i].1))
  }

  // ---------------------------------------------------------------------
  // std::string ordering, and the key order of a std::map
  // ---------------------------------------------------------------------

  /** `a < b` on `std::string`: lexicographic on octets, a proper prefix
      before any of its extensions. */
  predicate LexLess(a: Bytes, b: Bytes)
    decreases |a|
  {
    if |b| == 0 then false
    else if |a| == 0 then true
    else a[0] < b[0] || (a[0] == b[0] && LexLess(a[1..], b[1..]))
  }

  lemma {:induction false} LexIrreflexive(a: Bytes)
    ensures !LexLess(a, a)
    decreases |a|
  {
    if |a| > 0 {
      LexIrreflexive(a[1..]);
    }
  }

  lemma {:induction false} LexTransitive(a: Bytes, b: Bytes, c: Bytes)
    requires LexLess(a, b) && LexLess(b, c)
    ensures LexLess(a, c)
    decreases |a|
  {
    if |a| > 0 && a[0] == b[0] && b[0] == c[0] {
      LexTransitive(a[1..], b[1..], c[1..]);
    }
  }

  lemma {:induction false} LexTotal(a: Bytes, b: Bytes)
    ensures a == b || LexLess(a, b) || LexLess(b, a)
    decreases |a|
  {
    if |a| > 0 && |b| > 0 && a[0] == b[0] {
      LexTotal(a[1..], b[1..]);
      if a[1..] == b[1..] {
        assert a == [a[0]] + a[1..] && b == [b[0]] + b[1..];
      }
    }
  }

  /** `m` is the least of `keys` under `LexLess`. */
  predicate IsLeast(keys: set<Bytes>, m: Bytes)
  {
    m in keys && forall k :: k in keys && k != m ==> LexLess(m, k)
  }

  lemma {:induction false} LeastExists(keys: set<Bytes>)
    requires keys != {}
    ensures exists m :: IsLeast(keys, m)
    decreases |keys|
  {
    var x :| x in keys;
    if keys == {x} {
      assert IsLeast(keys, x);
    } else {
      var rest := keys - {x};
      LeastExists(rest);
      var m :| IsLeast(rest, m);
      LexTotal(x, m);
      if LexLess(x, m) {
        forall k | k in keys && k != x
          ensures LexLess(x, k)
        {
          if k != m {
            LexTransitive(x, m, k);
          }
        }
        assert IsLeast(keys, x);
      } else {
        assert IsLeast(keys, m);
      }
    }
  }

  lemma LeastUnique(keys: set<Bytes>)
    ensures forall m1, m2 :: IsLeast(keys, m1) && IsLeast(keys, m2) ==> m1 == m2
  {
    forall m1, m2 | IsLeast(keys, m1) && IsLeast(keys, m2)
      ensures m1 == m2
    {
      if m1 != m2 {
        LexTransitive(m1, m2, m1);
        LexIrreflexive(m1);
      }
    }
  }

  /** The least key of a non-empty key set. */
  function Least(keys: set<Bytes>): (m: Bytes)
    requires keys != {}
    ensures IsLeast(keys, m)
  {
    LeastExists(keys);
    LeastUnique(keys);
    var m :| IsLeast(keys, m);
    m
  }

  /** The keys of a `std::map`, in the ascending order its iterators visit them. */
  function Ascending(keys: set<Bytes>): (ks: seq<Bytes>)
    ensures |ks| == |keys|
    ensures forall k :: k in keys <==> k in ks
    ensures forall i, j :: 0 <= i < j < |ks| ==> LexLess(ks[i], ks[j])
    decreases |keys|
  {
    if keys == {} then []
    else
      var m := Least(keys);
      var rest := Ascending(keys - {m});
      [m] + rest
  }

  // ---------------------------------------------------------------------
  // CRLF framing
  // ---------------------------------------------------------------------

  /** A CR LF pair starts at index `i` of `s`. */
  predicate CrlfAt(s: Bytes, i: int)
  {
    0 <= i && i + 1 < |s| && s[i] == '\r' && s[i + 1] == '\n'
  }

  predicate HasCrlf(s: Bytes)
  {
    exists i :: 0 <= i < |s| && CrlfAt(s, i)
  }

  /** None of `lines` carries a CR LF of its own. */
  predicate NoCrlf(lines: seq<Bytes>)
  {
    forall i :: 0 <= i < |lines| ==> !HasCrlf(lines[i])
  }

  lemma ShiftCrlf(s: Bytes)
    requires |s| > 0
    ensures forall i :: 1 <= i ==> (CrlfAt(s, i) <==> CrlfAt(s[1..], i - 1))
  {
  }

  /** The index of the first CR LF pair in `s`, or -1 when there is none. */
  function FindCrlf(s: Bytes): (r: int)
    ensures r == -1 <==> !HasCrlf(s)
    ensures r != -1 ==> CrlfAt(s, r)
    ensures forall i :: 0 <= i < r ==> !CrlfAt(s, i)
    decreases |s|
  {
    if |s| < 2 then -1
    else if CrlfAt(s, 0) then 0
    else
      var k := FindCrlf(s[1..]);
      ShiftCrlf(s);
      if k == -1 then
        assert forall i :: 0 <= i < |s| && CrlfAt(s, i) ==> CrlfAt(s[1..], i - 1);
        -1
      else
        assert CrlfAt(s, k + 1);
        k + 1
  }

  /** The lines of a CRLF-separated block, as a receiver would read them back. */
  function SplitLines(s: Bytes): seq<Bytes>
    decreases |s|
  {
    var p := FindCrlf(s);
    if p == -1 then [s] else [s[..p]] + SplitLines(s[p + 2..])
  }

  lemma FindCrlfAfterLine(line: Bytes, rest: Bytes)
    requires !HasCrlf(line)
    ensures FindCrlf(line + Crlf + rest) == |line|
  {
    var s := line + Crlf + rest;
    assert CrlfAt(s, |line|);
    forall i | 0 <= i < |line|
      ensures !CrlfAt(s, i)
    {
      if i + 1 < |line| {
        assert !CrlfAt(line, i);
      }
    }
  }

  lemma SplitAfterLine(line: Bytes, rest: Bytes)
    requires !HasCrlf(line)
    ensures SplitLines(line + Crlf + rest) == [line] + SplitLines(rest)
  {
    var s := line + Crlf + rest;
    FindCrlfAfterLine(line, rest);
    assert s[..|line|] == line;
    assert s[|line| + 2..] == rest;
  }

  /** Joining one or more lines with CR LF and splitting the block again
      gives the lines back, as long as no line carries a CR LF of its own.
      (No lines join to the empty block, which splits into one empty line.) */
  lemma {:induction false} SplitJoin(lines: seq<Bytes>)
    requires |lines| > 0 && NoCrlf(lines)
    ensures SplitLines(Join(lines, Crlf)) == lines
    decreases |lines|
  {
    if |lines| == 1 {
      assert FindCrlf(lines[0]) == -1;
    } else {
      var tail := Join(lines[1..], Crlf);
      assert Join(lines, Crlf) == lines[0] + Crlf + tail;
      SplitAfterLine(lines[0], tail);
      SplitJoin(lines[1..]);
      assert lines == [lines[0]] + lines[1..];
    }
  }

  /** A CR LF-joined block followed by CR LF and `rest` reads back as the
      block's lines and then the lines of `rest`. */
  lemma {:induction false} SplitBlock(lines: seq<Bytes>, rest: Bytes)
    requires |lines| > 0 && NoCrlf(lines)
    ensures SplitLines(Join(lines, Crlf) + Crlf + rest) == lines + SplitLines(rest)
    decreases |lines|
  {
    if |lines| == 1 {
      SplitAfterLine(lines[0], rest);
    } else {
      var tail := Join(lines[1..], Crlf);
      assert Join(lines, Crlf) + Crlf + rest == lines[0] + Crlf + (tail + Crlf + rest);
      SplitAfterLine(lines[0], tail + Crlf + rest);
      SplitBlock(lines[1..], rest);
      assert lines == [lines[0]] + lines[1..];
    }
  }

  /** A lone CR LF reads back as two empty lines. */
  lemma SplitBlank()
    ensures SplitLines(Crlf) == ["", ""]
    ensures SplitLines(Crlf + Crlf) == ["", "", ""]
  {
    assert FindCrlf([]) == -1;
    assert CrlfAt(Crlf, 0);
    assert Crlf[2..] == [];
    assert CrlfAt(Crlf + Crlf, 0);
    assert (Crlf + Crlf)[2..] == Crlf;
  }

  // ---------------------------------------------------------------------
  // The head of an outbound request
  // ---------------------------------------------------------------------

  /** `action path HTTP/1.1`, the first line of every request `api` sends. */
  function RequestLine(action: Bytes, path: Bytes): Bytes
  {
    action + " " + path + " HTTP/1.1"
  }

  function HostLine(host: Bytes): Bytes
  {
    "Host: " + host
  }

  const CloseLine: Bytes := "Connection: Close"

  /** A request head: the fixed lines `first`, then the header lines, each
      group joined by CR LF, then CR LF twice. A receiver reads it back as
      exactly those lines followed by the blank line that ends the head and
      an empty remainder; with no header lines, the empty header block reads
      back as one more blank line. */
  lemma ReadBack(first: seq<Bytes>, lines: seq<Bytes>)
    requires |first| > 0 && NoCrlf(first) && NoCrlf(lines)
    ensures lines != [] ==>
      SplitLines(Join(first, Crlf) + Crlf + Join(lines, Crlf) + Crlf + Crlf) == first + lines + ["", ""]
    ensures lines == [] ==>
      SplitLines(Join(first, Crlf) + Crlf + Join(lines, Crlf) + Crlf + Crlf) == first + ["", "", ""]
  {
    var block := Join(lines, Crlf);
    assert Join(first, Crlf) + Crlf + block + Crlf + Crlf == Join(first, Crlf) + Crlf + (block + Crlf + Crlf);
    SplitBlock(first, block + Crlf + Crlf);
    SplitBlank();
    if lines != [] {
      SplitBlock(lines, Crlf);
    } else {
      assert block + Crlf + Crlf == Crlf + Crlf;
    }
  }

  /** Three lines joined by CR LF. */
  lemma JoinThree(a: Bytes, b: Bytes, c: Bytes)
    ensures Join([a, b, c], Crlf) == a + Crlf + b + Crlf + c
  {
    assert [a, b, c][1..] == [b, c];
    assert [b, c][1..] == [c];
    assert Join([b, c], Crlf) == b + Crlf + c;
  }

  /** The lines each followed by CR LF, as `arg += line + "\r\n"` builds them. */
  function Terminated(lines: seq<Bytes>): Bytes
    decreases |lines|
  {
    if lines == [] then [] else lines[0] + Crlf + Terminated(lines[1..])
  }

  /** Terminating every line is joining them and terminating the last. */
  lemma {:induction false} TerminatedIsJoin(lines: seq<Bytes>)
    requires |lines| > 0
    ensures Terminated(lines) == Join(lines, Crlf) + Crlf
    decreases |lines|
  {
    if |lines| > 1 {
      TerminatedIsJoin(lines[1..]);
    } else {
      assert lines[1..] == [];
    }
  }
}
