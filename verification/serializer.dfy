/**
 The response writer: the status line, one line per header in the order the
 header map is iterated, a blank line, then the body, appended to one output
 buffer. The iteration order is a parameter that lists every key once.
 */
module Serializer {
  import opened Bytes
  import opened Http

  /** `order` lists every key of `keys` exactly once: one possible map iteration order. */
  predicate Enumerates(order: seq<Bytes>, keys: set<Bytes>) {
    && (forall i, j :: 0 <= i < j < |order| ==> order[i] != order[j])
    && (forall k :: k in keys ==> k in order)
    && (forall i :: 0 <= i < |order| ==> order[i] in keys)
  }

  function StatusLine(res: Response): Bytes {
    res.version + " " + res.status
  }

  function FieldLine(name: Bytes, value: Bytes): Bytes {
    name + FieldSeparator + value
  }

  /** The header lines for the keys in `order`, without line ends. */
  function FieldLines(headers: HeaderMap, order: seq<Bytes>): (lines: seq<Bytes>)
    requires forall k :: k in order ==> k in headers
    ensures |lines| == |order|
  {
    if order == [] then []
    else
      var k := order[|order| - 1];
      FieldLines(headers, order[..|order| - 1]) + [FieldLine(k, headers[k])]
  }

  /** Lines, each followed by CRLF. */
  function Terminated(lines: seq<Bytes>): Bytes {
    if lines == [] then [] else Terminated(lines[..|lines| - 1]) + lines[|lines| - 1] + CRLF
  }

  /** The header lines for the keys in `order`, each ended by CRLF. */
  function HeaderBytes(headers: HeaderMap, order: seq<Bytes>): Bytes
    requires forall k :: k in order ==> k in headers
  {
    Terminated(FieldLines(headers, order))
  }

  /** One more key in the order writes one more header line. */
  lemma HeaderBytesSnoc(headers: HeaderMap, order: seq<Bytes>)
    requires order != [] && forall k :: k in order ==> k in headers
    ensures var k := order[|order| - 1];
      HeaderBytes(headers, order) == HeaderBytes(headers, order[..|order| - 1]) + FieldLine(k, headers[k]) + CRLF
  {
    var lines := FieldLines(headers, order);
    assert lines[..|lines| - 1] == FieldLines(headers, order[..|order| - 1]);
  }

  /** Everything written for `res` when its headers are iterated in `order`. */
  function Wire(res: Response, order: seq<Bytes>): Bytes
    requires forall k :: k in order ==> k in res.headers
  {
    StatusLine(res) + CRLF + HeaderBytes(res.headers, order) + CRLF + res.body
  }

  /** The writer, appending each piece to the output buffer in turn. */
  method WriteResponse(res: Response, order: seq<Bytes>) returns (wire: Bytes)
    requires Enumerates(order, res.headers.Keys)
    ensures wire == Wire(res, order)
  {
    wire := StatusLine(res) + CRLF;
    var i := 0;
    while i < |order|
      invariant 0 <= i <= |order|
      invariant wire == StatusLine(res) + CRLF + HeaderBytes(res.headers, order[..i])
    {
      var k := order[i];
      assert order[..i + 1][..i] == order[..i];
      HeaderBytesSnoc(res.headers, order[..i + 1]);
      wire := wire + FieldLine(k, res.headers[k]) + CRLF;
      i := i + 1;
    }
    assert order[..i] == order;
    wire := wire + CRLF;
    wire := wire + res.body;
  }

  lemma JoinSnoc(pieces: seq<Bytes>, p: Bytes, sep: Bytes)
    requires |pieces| >= 1
    ensures Join(pieces + [p], sep) == Join(pieces, sep) + sep + p
    decreases |pieces|
  {
    if |pieces| > 1 {
      assert (pieces + [p])[1..] == pieces[1..] + [p];
      JoinSnoc(pieces[1..], p, sep);
    }
  }

  /** Lines each ended by CRLF after a first line ended by CRLF are all the lines joined by CRLF, plus CRLF. */
  lemma {:induction false} TerminatedIsJoined(first: Bytes, lines: seq<Bytes>)
    ensures first + CRLF + Terminated(lines) == Join([first] + lines, CRLF) + CRLF
    decreases |lines|
  {
    if lines != [] {
      var front := lines[..|lines| - 1];
      var last := lines[|lines| - 1];
      assert first + CRLF + Terminated(front) == Join([first] + front, CRLF) + CRLF by {
        TerminatedIsJoined(first, front);
      }
      JoinSnoc([first] + front, last, CRLF);
      assert [first] + lines == [first] + front + [last];
    }
  }

  /** The status line and header lines, each ended by CRLF, are the CRLF-joined lines plus a final CRLF. */
  lemma HeaderBytesAreJoinedLines(status: Bytes, headers: HeaderMap, order: seq<Bytes>)
    requires forall k :: k in order ==> k in headers
    ensures status + CRLF + HeaderBytes(headers, order) == Join([status] + FieldLines(headers, order), CRLF) + CRLF
  {
    TerminatedIsJoined(status, FieldLines(headers, order));
  }

  /** Layout: the written bytes are the CRLF-joined status and header lines, a blank line, and the body. */
  lemma WireLayout(res: Response, order: seq<Bytes>)
    requires forall k :: k in order ==> k in res.headers
    ensures Wire(res, order) == Join([StatusLine(res)] + FieldLines(res.headers, order), CRLF) + HeaderEnd + res.body
  {
    HeaderBytesAreJoinedLines(StatusLine(res), res.headers, order);
  }

  lemma {:induction false} TerminatedAppend(a: seq<Bytes>, b: seq<Bytes>)
    ensures Terminated(a + b) == Terminated(a) + Terminated(b)
    decreases |b|
  {
    if b != [] {
      assert (a + b)[..|a + b| - 1] == a + b[..|b| - 1];
      assert Terminated(a + b[..|b| - 1]) == Terminated(a) + Terminated(b[..|b| - 1]) by {
        TerminatedAppend(a, b[..|b| - 1]);
      }
    } else {
      assert a + b == a;
    }
  }

  lemma {:induction false} FieldLinesAppend(headers: HeaderMap, a: seq<Bytes>, b: seq<Bytes>)
    requires forall k :: k in a + b ==> k in headers
    ensures FieldLines(headers, a + b) == FieldLines(headers, a) + FieldLines(headers, b)
    decreases |b|
  {
    if b != [] {
      assert (a + b)[..|a + b| - 1] == a + b[..|b| - 1];
      assert FieldLines(headers, a + b[..|b| - 1]) == FieldLines(headers, a) + FieldLines(headers, b[..|b| - 1]) by {
        FieldLinesAppend(headers, a, b[..|b| - 1]);
      }
    } else {
      assert a + b == a;
    }
  }

  lemma HeaderBytesAppend(headers: HeaderMap, a: seq<Bytes>, b: seq<Bytes>)
    requires forall k :: k in a + b ==> k in headers
    ensures HeaderBytes(headers, a + b) == HeaderBytes(headers, a) + HeaderBytes(headers, b)
  {
    FieldLinesAppend(headers, a, b);
    TerminatedAppend(FieldLines(headers, a), FieldLines(headers, b));
  }

  lemma RemoveAt(s: seq<Bytes>, i: nat)
    requires i < |s|
    ensures multiset(s[..i] + s[i + 1..]) == multiset(s) - multiset{s[i]}
  {
    assert s == s[..i] + [s[i]] + s[i + 1..];
    assert multiset(s) == multiset(s[..i]) + multiset{s[i]} + multiset(s[i + 1..]);
  }

  /** Taking one key out of the order takes out exactly its line. */
  lemma HeaderBytesRemove(headers: HeaderMap, o: seq<Bytes>, i: nat)
    requires i < |o| && forall k :: k in o ==> k in headers
    ensures |HeaderBytes(headers, o)| ==
      |HeaderBytes(headers, o[..i] + o[i + 1..])| + |FieldLine(o[i], headers[o[i]])| + |CRLF|
  {
    assert o == (o[..i] + [o[i]]) + o[i + 1..];
    HeaderBytesAppend(headers, o[..i] + [o[i]], o[i + 1..]);
    HeaderBytesAppend(headers, o[..i], [o[i]]);
    HeaderBytesAppend(headers, o[..i], o[i + 1..]);
    assert HeaderBytes(headers, [o[i]]) == FieldLine(o[i], headers[o[i]]) + CRLF by {
      HeaderBytesSnoc(headers, [o[i]]);
    }
  }

  /** Reordering the keys does not change how many header bytes are written. */
  lemma {:induction false} HeaderBytesLengthPermutation(headers: HeaderMap, o1: seq<Bytes>, o2: seq<Bytes>)
    requires forall k :: k in o1 ==> k in headers
    requires forall k :: k in o2 ==> k in headers
    requires multiset(o1) == multiset(o2)
    ensures |HeaderBytes(headers, o1)| == |HeaderBytes(headers, o2)|
    decreases |o1|
  {
    if o1 == [] {
      assert o2 == [] by {
        assert |multiset(o2)| == 0;
      }
    } else {
      var k := o1[|o1| - 1];
      var front := o1[..|o1| - 1];
      assert o1 == front + [k];
      assert k in multiset(o2);
      var i :| 0 <= i < |o2| && o2[i] == k;
      var rest := o2[..i] + o2[i + 1..];
      HeaderBytesRemove(headers, o2, i);
      RemoveAt(o2, i);
      assert multiset(rest) == multiset(front);
      forall x | x in rest ensures x in headers {
        assert x in multiset(rest);
      }
      assert |HeaderBytes(headers, front)| == |HeaderBytes(headers, rest)| by {
        HeaderBytesLengthPermutation(headers, front, rest);
      }
    }
  }

  lemma {:induction false} EnumerationMultiset(order: seq<Bytes>, keys: set<Bytes>)
    requires Enumerates(order, keys)
    ensures forall k :: multiset(order)[k] == if k in keys then 1 else 0
    decreases |order|
  {
    if order != [] {
      var k := order[|order| - 1];
      var front := order[..|order| - 1];
      assert order == front + [k];
      assert k !in front;
      assert Enumerates(front, keys - {k});
      EnumerationMultiset(front, keys - {k});
    }
  }

  /** Two iteration orders of the same header map write the same number of bytes. */
  lemma WireLengthIndependentOfOrder(res: Response, o1: seq<Bytes>, o2: seq<Bytes>)
    requires Enumerates(o1, res.headers.Keys) && Enumerates(o2, res.headers.Keys)
    ensures |Wire(res, o1)| == |Wire(res, o2)|
  {
    EnumerationMultiset(o1, res.headers.Keys);
    EnumerationMultiset(o2, res.headers.Keys);
    assert multiset(o1) == multiset(o2);
    HeaderBytesLengthPermutation(res.headers, o1, o2);
  }
}
