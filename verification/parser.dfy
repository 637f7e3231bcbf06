/**
 The request parser: one buffer of received bytes is cut at every blank line,
 the first piece into CRLF-separated lines, the first line into white-space
 separated tokens and every later line into a header name and value.
 */
module Parser {
  import opened Wrappers
  import opened Bytes
  import opened Http

  /** The three places where the parser indexes past the end of a slice. */
  datatype ParseError =
    | TooFewRequestLineTokens  // the request line has fewer than three tokens
    | MissingHeaderEnd         // no blank line, so there is no second piece for the body
    | MissingFieldSeparator    // a header line holds no ": "

  /** Name and value of a header line: pieces 0 and 1 of the line split on every ": ". */
  function FieldOf(line: Bytes): Option<(Bytes, Bytes)> {
    var parts := Split(line, FieldSeparator);
    if |parts| < 2 then None else Some((parts[0], parts[1]))
  }

  /** The header map after inserting the fields of `lines` one after the other into `acc`. */
  function InsertFields(lines: seq<Bytes>, acc: HeaderMap): Result<HeaderMap, ParseError>
    decreases |lines|
  {
    if lines == [] then Success(acc)
    else match FieldOf(lines[0])
      case None => Failure(MissingFieldSeparator)
      case Some(f) => InsertFields(lines[1..], acc[f.0 := f.1])
  }

  /** The lines of the header block: the part before the first blank line, cut at every CRLF. */
  function HeaderLines(packet: Bytes): (lines: seq<Bytes>)
    ensures |lines| >= 1
  {
    Split(Split(packet, HeaderEnd)[0], CRLF)
  }

  /** What the parser makes of the bytes of one read. */
  function ParsedRequest(packet: Bytes): Result<Request, ParseError> {
    var data := Split(packet, HeaderEnd);
    var lines := Split(data[0], CRLF);
    var first := Fields(lines[0]);
    if |first| < 3 then Failure(TooFewRequestLineTokens)
    else if |data| < 2 then Failure(MissingHeaderEnd)
    else match InsertFields(lines[1..], map[])
      case Failure(e) => Failure(e)
      case Success(headers) => Success(Request(first[0], first[1], first[2], headers, data[1]))
  }

  /**
   The parser itself: the header loop inserts one field per line into the
   header map, so that a later line with the same name wins.
   */
  method ParseRequest(packet: Bytes) returns (r: Result<Request, ParseError>)
    ensures r == ParsedRequest(packet)
  {
    var data := Split(packet, HeaderEnd);
    var lines := Split(data[0], CRLF);
    var first := Fields(lines[0]);
    if |first| < 3 {
      return Failure(TooFewRequestLineTokens);
    }
    if |data| < 2 {
      return Failure(MissingHeaderEnd);
    }
    var headers: HeaderMap := map[];
    var i := 1;
    while i < |lines|
      invariant 1 <= i <= |lines|
      invariant InsertFields(lines[i..], headers) == InsertFields(lines[1..], map[])
    {
      assert lines[i..][1..] == lines[i + 1..];
      var parts := Split(lines[i], FieldSeparator);
      if |parts| < 2 {
        return Failure(MissingFieldSeparator);
      }
      headers := headers[parts[0] := parts[1]];
      i := i + 1;
    }
    assert lines[i..] == [];
    r := Success(Request(first[0], first[1], first[2], headers, data[1]));
  }

  /** A line has a field exactly when it contains ": ". */
  lemma FieldOfPresent(line: Bytes)
    ensures FieldOf(line).Some? <==> !Free(line, FieldSeparator)
  {
    SplitCount(line, FieldSeparator);
  }

  /**
   With a name free of ':', the name is everything before the first ": " and
   the value only what comes before the next ": ".
   */
  lemma FieldOfLine(name: Bytes, value: Bytes)
    requires Lacks(name, ':')
    ensures FieldOf(name + FieldSeparator + value) == Some((name, Split(value, FieldSeparator)[0]))
  {
    LacksLeadNoOccurrence(name, FieldSeparator);
    SplitFirst(name, FieldSeparator, value);
  }

  /** Inserting the fields of two runs of lines is inserting the first run, then the second. */
  lemma {:induction false} InsertFieldsConcat(a: seq<Bytes>, b: seq<Bytes>, acc: HeaderMap)
    ensures InsertFields(a + b, acc) ==
      match InsertFields(a, acc)
      case Failure(e) => Failure(e)
      case Success(m) => InsertFields(b, m)
    decreases |a|
  {
    if a == [] {
      assert a + b == b;
    } else {
      assert (a + b)[0] == a[0];
      assert (a + b)[1..] == a[1..] + b;
      match FieldOf(a[0])
      case None =>
      case Some(f) => InsertFieldsConcat(a[1..], b, acc[f.0 := f.1]);
    }
  }

  /** Inserting fields fails exactly when some line has no field. */
  lemma {:induction false} InsertFieldsFails(lines: seq<Bytes>, acc: HeaderMap)
    ensures InsertFields(lines, acc).Failure? <==> exists i :: 0 <= i < |lines| && FieldOf(lines[i]).None?
    ensures InsertFields(lines, acc).Failure? ==> InsertFields(lines, acc).error == MissingFieldSeparator
    decreases |lines|
  {
    if lines != [] && FieldOf(lines[0]).Some? {
      var f := FieldOf(lines[0]).value;
      InsertFieldsFails(lines[1..], acc[f.0 := f.1]);
      if exists i :: 0 <= i < |lines| && FieldOf(lines[i]).None? {
        var i :| 0 <= i < |lines| && FieldOf(lines[i]).None?;
        assert lines[1..][i - 1] == lines[i];
      }
      if exists i :: 0 <= i < |lines[1..]| && FieldOf(lines[1..][i]).None? {
        var i :| 0 <= i < |lines[1..]| && FieldOf(lines[1..][i]).None?;
        assert lines[i + 1] == lines[1..][i];
      }
    }
  }

  /** The name of a header line (empty when it has none). */
  function NameOf(line: Bytes): Bytes {
    match FieldOf(line)
    case Some(f) => f.0
    case None => []
  }

  /** The value of a header line (empty when it has none). */
  function ValueOf(line: Bytes): Bytes {
    match FieldOf(line)
    case Some(f) => f.1
    case None => []
  }

  /** Some line of `lines` is named `name`. */
  predicate Named(lines: seq<Bytes>, name: Bytes) {
    exists i :: 0 <= i < |lines| && NameOf(lines[i]) == name
  }

  /** No line after line `i` carries the name of line `i`. */
  predicate LastNamed(lines: seq<Bytes>, i: nat)
    requires i < |lines|
  {
    forall j :: i < j < |lines| ==> NameOf(lines[j]) != NameOf(lines[i])
  }

  /**
   Last write wins: the parsed map holds the name of every line, maps each
   name to the value on the last line that carries it, and keeps the entries
   of `acc` that no line renames.
   */
  lemma {:induction false} LastWriteWins(lines: seq<Bytes>, acc: HeaderMap)
    requires InsertFields(lines, acc).Success?
    ensures var m := InsertFields(lines, acc).value;
      && (forall i :: 0 <= i < |lines| ==> NameOf(lines[i]) in m)
      && (forall i :: 0 <= i < |lines| && LastNamed(lines, i) ==> m[NameOf(lines[i])] == ValueOf(lines[i]))
      && (forall k :: k in m ==> k in acc || Named(lines, k))
      && (forall k :: k in acc && !Named(lines, k) ==> k in m && m[k] == acc[k])
    decreases |lines|
  {
    if lines != [] {
      var f := FieldOf(lines[0]).value;
      var acc' := acc[f.0 := f.1];
      var rest := lines[1..];
      var m := InsertFields(lines, acc).value;
      assert m == InsertFields(rest, acc').value;
      LastWriteWins(rest, acc');
      forall i | 0 <= i < |lines|
        ensures NameOf(lines[i]) in m
        ensures LastNamed(lines, i) ==> m[NameOf(lines[i])] == ValueOf(lines[i])
      {
        if i > 0 {
          assert lines[i] == rest[i - 1];
          if LastNamed(lines, i) {
            forall j | i - 1 < j < |rest| ensures NameOf(rest[j]) != NameOf(rest[i - 1]) {
              assert rest[j] == lines[j + 1];
            }
          }
        } else if LastNamed(lines, 0) {
          assert !Named(rest, f.0) by {
            forall j | 0 <= j < |rest| ensures NameOf(rest[j]) != f.0 {
              assert rest[j] == lines[j + 1];
            }
          }
        }
      }
      forall k | k in m ensures k in acc || Named(lines, k) {
        if Named(rest, k) {
          var j :| 0 <= j < |rest| && NameOf(rest[j]) == k;
          assert lines[j + 1] == rest[j];
        } else if k !in acc {
          assert NameOf(lines[0]) == k;
        }
      }
      forall k | k in acc && !Named(lines, k) ensures k in m && m[k] == acc[k] {
        assert NameOf(lines[0]) != k;
        forall j | 0 <= j < |rest| ensures NameOf(rest[j]) != k {
          assert rest[j] == lines[j + 1];
        }
      }
    }
  }

  /** A header block: lines that are not empty and hold no CR. */
  predicate IsHeaderBlock(lines: seq<Bytes>) {
    |lines| >= 1 && forall k :: 0 <= k < |lines| ==> |lines[k]| > 0 && Lacks(lines[k], '\r')
  }

  /** The blank line that follows a header block is the first one in the packet. */
  lemma {:induction false} HeaderBlockEnd(lines: seq<Bytes>)
    requires IsHeaderBlock(lines)
    ensures NoEarlyOccurrence(Join(lines, CRLF), HeaderEnd)
    decreases |lines|
  {
    var line := lines[0];
    if |lines| == 1 {
      LacksLeadNoOccurrence(line, HeaderEnd);
    } else {
      var rest := lines[1..];
      var tail := Join(rest, CRLF);
      assert NoEarlyOccurrence(tail, HeaderEnd) by {
        HeaderBlockEnd(rest);
      }
      assert tail[0] == rest[0][0];
      var s := Join(lines, CRLF) + HeaderEnd;
      assert s == (line + CRLF) + (tail + HeaderEnd);
      forall j: nat | j < |Join(lines, CRLF)| ensures !OccursAt(s, HeaderEnd, j) {
        if j < |line| {
          NotOccursAt(s, HeaderEnd, j, 0);
        } else if j == |line| {
          NotOccursAt(s, HeaderEnd, j, 2);
        } else if j == |line| + 1 {
          NotOccursAt(s, HeaderEnd, j, 0);
        } else {
          OccursInSuffix(line + CRLF, tail + HeaderEnd, HeaderEnd, j - |line| - 2);
        }
      }
    }
  }

  /** What the parser makes of a packet whose first two pieces are a header block and `body`. */
  lemma ParsedFromBlock(packet: Bytes, lines: seq<Bytes>, body: Bytes)
    requires IsHeaderBlock(lines)
    requires |Split(packet, HeaderEnd)| >= 2
    requires Split(packet, HeaderEnd)[0] == Join(lines, CRLF) && Split(packet, HeaderEnd)[1] == body
    ensures var r := ParsedRequest(packet);
      var first := Fields(lines[0]);
      var fields := InsertFields(lines[1..], map[]);
      && (|first| < 3 ==> r == Failure(TooFewRequestLineTokens))
      && (r.Success? <==> |first| >= 3 && fields.Success?)
      && (r.Success? ==> r.value == Request(first[0], first[1], first[2], fields.value, body))
  {
    SplitJoin(lines, CRLF);
  }

  /**
   Framing: a header block, the blank line and a body without a blank line
   parse into the block's request line and fields and exactly that body.
   */
  lemma ParseFramed(lines: seq<Bytes>, body: Bytes)
    requires IsHeaderBlock(lines) && Free(body, HeaderEnd)
    ensures var r := ParsedRequest(Join(lines, CRLF) + HeaderEnd + body);
      var first := Fields(lines[0]);
      var fields := InsertFields(lines[1..], map[]);
      && (|first| < 3 ==> r == Failure(TooFewRequestLineTokens))
      && (r.Success? <==> |first| >= 3 && fields.Success?)
      && (r.Success? ==> r.value == Request(first[0], first[1], first[2], fields.value, body))
  {
    var packet := Join(lines, CRLF) + HeaderEnd + body;
    HeaderBlockEnd(lines);
    SplitFirst(Join(lines, CRLF), HeaderEnd, body);
    SplitFree(body, HeaderEnd);
    ParsedFromBlock(packet, lines, body);
  }

  /** The body is the piece up to the second blank line, not everything after the first. */
  lemma BodyStopsAtNextBlankLine(lines: seq<Bytes>, body: Bytes, tail: Bytes)
    requires IsHeaderBlock(lines) && NoEarlyOccurrence(body, HeaderEnd)
    ensures var r := ParsedRequest(Join(lines, CRLF) + HeaderEnd + body + HeaderEnd + tail);
      var first := Fields(lines[0]);
      var fields := InsertFields(lines[1..], map[]);
      && (r.Success? <==> |first| >= 3 && fields.Success?)
      && (r.Success? ==> r.value == Request(first[0], first[1], first[2], fields.value, body))
  {
    var block := Join(lines, CRLF);
    var packet := block + HeaderEnd + body + HeaderEnd + tail;
    assert packet == block + HeaderEnd + (body + HeaderEnd + tail);
    HeaderBlockEnd(lines);
    SplitFirst(block, HeaderEnd, body + HeaderEnd + tail);
    SplitFirst(body, HeaderEnd, tail);
    ParsedFromBlock(packet, lines, body);
  }

  /**
   The three ways parsing fails, in the order the parser meets them: fewer than
   three request-line tokens, no blank line, a header line without ": ".
   */
  lemma ParseFailures(packet: Bytes)
    ensures var lines := HeaderLines(packet);
      var r := ParsedRequest(packet);
      && (r == Failure(TooFewRequestLineTokens) <==> |Fields(lines[0])| < 3)
      && (r == Failure(MissingHeaderEnd) <==> |Fields(lines[0])| >= 3 && Free(packet, HeaderEnd))
      && (r == Failure(MissingFieldSeparator) <==>
            && |Fields(lines[0])| >= 3 && !Free(packet, HeaderEnd)
            && exists i :: 1 <= i < |lines| && Free(lines[i], FieldSeparator))
  {
    var lines := HeaderLines(packet);
    SplitCount(packet, HeaderEnd);
    InsertFieldsFails(lines[1..], map[]);
    if exists i :: 1 <= i < |lines| && Free(lines[i], FieldSeparator) {
      var i :| 1 <= i < |lines| && Free(lines[i], FieldSeparator);
      FieldOfPresent(lines[i]);
      assert lines[1..][i - 1] == lines[i];
    }
    if exists i :: 0 <= i < |lines[1..]| && FieldOf(lines[1..][i]).None? {
      var i :| 0 <= i < |lines[1..]| && FieldOf(lines[1..][i]).None?;
      FieldOfPresent(lines[1..][i]);
      assert lines[i + 1] == lines[1..][i];
    }
  }
}
