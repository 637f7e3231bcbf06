/**
 One connection: a single read of at most `BufferSize` bytes is parsed, routed
 by method and path, and the response is written out. A parse failure is an
 out-of-range index in `parseMyRequest`, a panic that ends the process, so
 nothing is written.
 Also the round trip between the writer and the parser.
 */
module Connection {
  import opened Wrappers
  import opened Bytes
  import opened Http
  import opened DecimalFormat
  import opened Parser
  import opened Router
  import opened Serializer

  /** Some iteration order of a header map: every key exactly once, in no promised order. */
  method MapOrder(keys: set<Bytes>) returns (order: seq<Bytes>)
    ensures Enumerates(order, keys)
  {
    order := [];
    var left := keys;
    while left != {}
      invariant left <= keys
      invariant forall k :: k in keys ==> k in left || k in order
      invariant forall i :: 0 <= i < |order| ==> order[i] in keys && order[i] !in left
      invariant forall i, j :: 0 <= i < j < |order| ==> order[i] != order[j]
      decreases left
    {
      var k :| k in left;
      order := order + [k];
      left := left - {k};
    }
  }

  /**
   The connection handler: the read delivered the first `n` bytes of what the
   peer sent; the result is what is written back and the files afterwards.
   */
  method HandleConnection(incoming: Bytes, n: nat, dir: Bytes, files: FileSystem, writeOk: bool)
    returns (wire: Option<Bytes>, stored: FileSystem)
    requires n <= BufferSize && n <= |incoming|
    ensures ParsedRequest(incoming[..n]).Failure? ==> wire == None && stored == files
    ensures ParsedRequest(incoming[..n]).Success? ==>
      var h := Route(ParsedRequest(incoming[..n]).value, dir, files, writeOk);
      && stored == h.files && wire.Some?
      && exists order :: Enumerates(order, h.response.headers.Keys) && wire.value == Wire(h.response, order)
  {
    var parsed := ParseRequest(incoming[..n]);
    if parsed.Failure? {
      return None, files;
    }
    var h := Route(parsed.value, dir, files, writeOk);
    var order := MapOrder(h.response.headers.Keys);
    var out := WriteResponse(h.response, order);
    return Some(out), h.files;
  }

  /**
   A read that ends before the blank line yields a failed parse; one that ends
   inside the body yields the same request with the body cut where the read ended.
   */
  lemma ShortRead(lines: seq<Bytes>, body: Bytes, n: nat)
    requires IsHeaderBlock(lines) && Free(body, HeaderEnd)
    requires n <= |Join(lines, CRLF) + HeaderEnd + body|
    ensures var block := Join(lines, CRLF);
      var packet := block + HeaderEnd + body;
      var r := ParsedRequest(packet[..n]);
      var full := ParsedRequest(packet);
      && (n < |block| + |HeaderEnd| ==> r.Failure?)
      && (n >= |block| + |HeaderEnd| ==>
            && (r.Success? <==> full.Success?)
            && (r.Success? ==> r.value == full.value.(body := body[..n - |block| - |HeaderEnd|])))
  {
    var block := Join(lines, CRLF);
    var packet := block + HeaderEnd + body;
    HeaderBlockEnd(lines);
    if n < |block| + |HeaderEnd| {
      var framed := block + HeaderEnd;
      assert packet[..n] == framed[..n] by {
        assert packet == framed + body;
      }
      forall j: nat | j <= n ensures !OccursAt(packet[..n], HeaderEnd, j) {
        if j + |HeaderEnd| <= n {
          assert j < |block|;
          assert framed[..n][j..j + |HeaderEnd|] == framed[j..j + |HeaderEnd|];
          assert !OccursAt(framed, HeaderEnd, j);
        }
      }
      SplitCount(packet[..n], HeaderEnd);
    } else {
      var m := n - |block| - |HeaderEnd|;
      assert packet[..n] == block + HeaderEnd + body[..m];
      FreePrefix(body, HeaderEnd, m);
      ParseFramed(lines, body);
      ParseFramed(lines, body[..m]);
    }
  }

  /** Header names and values that survive being written and parsed again. */
  predicate PlainFields(headers: HeaderMap) {
    forall k :: k in headers ==> PlainField(k, headers[k])
  }

  /** A name without CR or ':' and a value without CR or ": ". */
  predicate PlainField(name: Bytes, value: Bytes) {
    Lacks(name, '\r') && Lacks(name, ':') && Lacks(value, '\r') && Free(value, FieldSeparator)
  }

  lemma PlainFieldsUpdate(headers: HeaderMap, name: Bytes, value: Bytes)
    requires PlainFields(headers) && PlainField(name, value)
    ensures PlainFields(headers[name := value])
  {
  }

  lemma FieldLinesAt(headers: HeaderMap, order: seq<Bytes>, j: nat)
    requires forall k :: k in order ==> k in headers
    requires j < |order|
    ensures FieldLines(headers, order)[j] == FieldLine(order[j], headers[order[j]])
    decreases |order|
  {
    if j < |order| - 1 {
      FieldLinesAt(headers, order[..|order| - 1], j);
    }
  }

  lemma {:induction false} InsertFieldLines(headers: HeaderMap, order: seq<Bytes>)
    requires forall k :: k in order ==> k in headers
    requires PlainFields(headers)
    ensures InsertFields(FieldLines(headers, order), map[]) == Success(map k | k in order :: headers[k])
    decreases |order|
  {
    if order != [] {
      var front := order[..|order| - 1];
      var k := order[|order| - 1];
      var v := headers[k];
      assert InsertFields(FieldLines(headers, front), map[]) == Success(map x | x in front :: headers[x]) by {
        InsertFieldLines(headers, front);
      }
      InsertFieldsConcat(FieldLines(headers, front), [FieldLine(k, v)], map[]);
      FieldOfLine(k, v);
      SplitFree(v, FieldSeparator);
      assert (map x | x in front :: headers[x])[k := v] == map x | x in order :: headers[x];
    }
  }

  lemma FieldLinePlain(name: Bytes, value: Bytes)
    requires Lacks(name, '\r') && Lacks(value, '\r')
    ensures |FieldLine(name, value)| > 0 && Lacks(FieldLine(name, value), '\r')
  {
    var line := FieldLine(name, value);
    forall i | 0 <= i < |line| ensures line[i] != '\r' {
      if i < |name| {
        assert line[i] == name[i];
      } else if i >= |name| + 2 {
        assert line[i] == value[i - |name| - 2];
      }
    }
  }

  /** The status line and the header lines of a response form a header block. */
  lemma ResponseHeaderBlock(res: Response, order: seq<Bytes>)
    requires forall k :: k in order ==> k in res.headers
    requires Lacks(StatusLine(res), '\r') && PlainFields(res.headers)
    ensures IsHeaderBlock([StatusLine(res)] + FieldLines(res.headers, order))
  {
    var h := res.headers;
    var lines := [StatusLine(res)] + FieldLines(h, order);
    forall j | 1 <= j < |lines| ensures |lines[j]| > 0 && Lacks(lines[j], '\r') {
      FieldLinesAt(h, order, j - 1);
      FieldLinePlain(order[j - 1], h[order[j - 1]]);
    }
    assert |StatusLine(res)| >= |" "|;
  }

  /**
   Round trip: the bytes written for a response parse, as a request, into
   the status-line tokens, the same header map whatever the iteration order,
   and the same body.
   */
  lemma ResponseReparses(res: Response, order: seq<Bytes>)
    requires Enumerates(order, res.headers.Keys)
    requires Lacks(StatusLine(res), '\r') && |Fields(StatusLine(res))| >= 3
    requires PlainFields(res.headers)
    requires Free(res.body, HeaderEnd)
    ensures var f := Fields(StatusLine(res));
      ParsedRequest(Wire(res, order)) == Success(Request(f[0], f[1], f[2], res.headers, res.body))
  {
    var h := res.headers;
    var lines := [StatusLine(res)] + FieldLines(h, order);
    WireLayout(res, order);
    ResponseHeaderBlock(res, order);
    ParseFramed(lines, res.body);
    assert lines[1..] == FieldLines(h, order);
    InsertFieldLines(h, order);
    assert (map k | k in order :: h[k]) == h;
  }

  lemma LacksColonPlain(v: Bytes)
    requires Lacks(v, ':') && Lacks(v, '\r')
    ensures Free(v, FieldSeparator)
  {
    LacksLeadNoOccurrence(v, FieldSeparator);
  }

  lemma DecimalPlain(n: nat)
    ensures Lacks(Decimal(n), ':') && Lacks(Decimal(n), '\r') && Free(Decimal(n), FieldSeparator)
  {
    LacksColonPlain(Decimal(n));
  }

  lemma PlainTextFieldsPlain(version: Bytes, body: Bytes)
    ensures PlainFields(PlainText(version, body).headers)
  {
    var length := Decimal(|body|);
    assert PlainField("Content-Type", "text/plain") by {
      LacksColonPlain("text/plain");
    }
    assert PlainField("Content-Length", length) by {
      DecimalPlain(|body|);
    }
    PlainFieldsUpdate(map[], "Content-Type", "text/plain");
    PlainFieldsUpdate(map["Content-Type" := "text/plain"], "Content-Length", length);
  }

  lemma OctetStreamFieldsPlain(version: Bytes, status: Bytes, body: Bytes)
    ensures PlainFields(OctetStream(version, status, body).headers)
  {
    var length := Decimal(|body|);
    var h1: HeaderMap := map["Content-Type" := "application/octet-stream"];
    var h2 := h1["Content-Length" := length];
    assert PlainField("Content-Type", "application/octet-stream") by {
      LacksColonPlain("application/octet-stream");
    }
    assert PlainField("Content-Length", length) by {
      DecimalPlain(|body|);
    }
    assert PlainField("Connection", "close") by {
      LacksColonPlain("close");
    }
    PlainFieldsUpdate(map[], "Content-Type", "application/octet-stream");
    PlainFieldsUpdate(h1, "Content-Length", length);
    PlainFieldsUpdate(h2, "Connection", "close");
  }

  /** The headers the handlers set have names and values without CR or ':'. */
  lemma HandlerFieldsPlain(req: Request, dir: Bytes, files: FileSystem, writeOk: bool)
    ensures PlainFields(Route(req, dir, files, writeOk).response.headers)
  {
    var res := Route(req, dir, files, writeOk).response;
    if res.headers != map[] {
      if req.verb == "GET" {
        if "/user-agent" <= req.path {
          PlainTextFieldsPlain(res.version, res.body);
        } else if "/files/" <= req.path {
          OctetStreamFieldsPlain(res.version, res.status, res.body);
        } else {
          PlainTextFieldsPlain(res.version, res.body);
        }
      } else {
        OctetStreamFieldsPlain(res.version, res.status, res.body);
      }
    }
  }

  /** A status line splits into the version, the code and the words of the reason phrase. */
  lemma StatusLineFields(version: Bytes, code: Bytes, reason: Bytes)
    requires IsToken(version) && IsToken(code)
    ensures Fields(version + " " + (code + " " + reason)) == [version, code] + Fields(reason)
  {
    FieldsOfToken(version);
    FieldsOfToken(code);
    FieldsAroundSpace(code, ' ', reason);
    FieldsAroundSpace(version, ' ', code + " " + reason);
  }

  /** A status line built from a token version holds no CR when its status holds none. */
  lemma StatusLineLacksCR(version: Bytes, status: Bytes)
    requires IsToken(version) && Lacks(status, '\r')
    ensures Lacks(version + " " + status, '\r')
  {
    var line := version + " " + status;
    forall i | 0 <= i < |line| ensures line[i] != '\r' {
      if i < |version| {
        assert line[i] == version[i];
        assert !IsSpace(version[i]);
      } else if i > |version| {
        assert line[i] == status[i - |version| - 1];
      }
    }
  }

  /** Each status the handlers set is a three-byte code token, a space and a reason phrase starting with a word. */
  lemma HandlerStatusShape(status: Bytes)
    requires status in {StatusOk, StatusCreated, StatusNotFound}
    ensures |status| > 4 && status == status[..3] + " " + status[4..]
    ensures IsToken(status[..3]) && !IsSpace(status[4]) && Lacks(status, '\r')
  {
    assert status == status[..3] + " " + status[4..];
  }

  /** A version token and any status the handlers set make a status line of at least three tokens, the first the version. */
  lemma HandlerStatusLine(res: Response)
    requires IsToken(res.version) && res.status in {StatusOk, StatusCreated, StatusNotFound}
    ensures Lacks(StatusLine(res), '\r') && |Fields(StatusLine(res))| >= 3
    ensures Fields(StatusLine(res))[0] == res.version
  {
    HandlerStatusShape(res.status);
    var reason := res.status[4..];
    assert |Fields(reason)| >= 1 by {
      assert reason != [] && !IsSpace(reason[0]);
    }
    StatusLineFields(res.version, res.status[..3], res.status[4..]);
    StatusLineLacksCR(res.version, res.status);
  }

  /**
   A response with a token version, one of the handlers' statuses, plain
   header fields and a body without a blank line re-parses into its own
   header map and body.
   */
  lemma HandlerResponseReparses(res: Response, order: seq<Bytes>)
    requires IsToken(res.version) && res.status in {StatusOk, StatusCreated, StatusNotFound}
    requires PlainFields(res.headers) && Free(res.body, HeaderEnd)
    requires Enumerates(order, res.headers.Keys)
    ensures var r := ParsedRequest(Wire(res, order));
      r.Success? && r.value.verb == res.version && r.value.headers == res.headers && r.value.body == res.body
  {
    HandlerStatusLine(res);
    ResponseReparses(res, order);
  }

  /**
   Every response the server writes with a status re-parses into its own
   header map and body, provided the version it echoes is one token and the
   body holds no blank line.
   */
  lemma ServedResponseReparses(req: Request, dir: Bytes, files: FileSystem, writeOk: bool, order: seq<Bytes>)
    requires IsToken(req.version)
    requires Route(req, dir, files, writeOk).response.status != []
    requires Free(Route(req, dir, files, writeOk).response.body, HeaderEnd)
    requires Enumerates(order, Route(req, dir, files, writeOk).response.headers.Keys)
    ensures var res := Route(req, dir, files, writeOk).response;
      var r := ParsedRequest(Wire(res, order));
      r.Success? && r.value.verb == res.version && r.value.headers == res.headers && r.value.body == res.body
  {
    var res := Route(req, dir, files, writeOk).response;
    HandlerFieldsPlain(req, dir, files, writeOk);
    assert IsToken(DefaultVersion);
    HandlerResponseReparses(res, order);
  }
}
