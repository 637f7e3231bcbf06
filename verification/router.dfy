/**
 The handlers and the method dispatch: a request, the storage root and a
 snapshot of the files under it determine the response, and a POST to
 `/files/` may also store the body. Reading a file is a lookup in the
 snapshot; whether a write succeeds is a parameter.
 */
module Router {
  import opened Bytes
  import opened Http
  import opened DecimalFormat

  /** The files the server can reach: a path to the bytes stored there. */
  type FileSystem = map<Bytes, Bytes>

  /** The response to one request and the files after handling it. */
  datatype Handled = Handled(response: Response, files: FileSystem)

  const StatusOk: Bytes := "200 OK"
  const StatusCreated: Bytes := "201 Created"
  const StatusNotFound: Bytes := "404 Not Found"

  /** The version of the response to a method the server does not know. */
  const DefaultVersion: Bytes := "HTTP/1.1"

  /** A `Content-Length` header, where there is one, holds the decimal length of the body. */
  predicate ContentLengthMatches(res: Response) {
    "Content-Length" in res.headers ==> res.headers["Content-Length"] == Decimal(|res.body|)
  }

  /** A not-found response carries neither headers nor body. */
  predicate NotFoundIsBare(res: Response) {
    res.status == StatusNotFound ==> res.headers == map[] && res.body == []
  }

  /** A response with no status, no headers and no body. */
  function Unset(version: Bytes): Response {
    Response(version, [], map[], [])
  }

  function NotFound(version: Bytes): Response {
    Response(version, StatusNotFound, map[], [])
  }

  /** A 200 with a plain-text body. */
  function PlainText(version: Bytes, body: Bytes): (res: Response)
    ensures ContentLengthMatches(res)
  {
    Response(version, StatusOk, map["Content-Type" := "text/plain", "Content-Length" := Decimal(|body|)], body)
  }

  /** A response with a byte-stream body on a connection the server closes. */
  function OctetStream(version: Bytes, status: Bytes, body: Bytes): (res: Response)
    ensures ContentLengthMatches(res)
  {
    Response(version, status,
      map["Content-Type" := "application/octet-stream",
          "Content-Length" := Decimal(|body|),
          "Connection" := "close"],
      body)
  }

  /** The GET handler: the first route whose prefix the path has wins. */
  function HandleGet(req: Request, dir: Bytes, files: FileSystem): (res: Response)
    ensures res.version == req.version
    ensures ContentLengthMatches(res) && NotFoundIsBare(res)
    ensures res.status in {StatusOk, StatusNotFound, []}
    ensures res.headers != map[] <==> res.status == StatusOk
  {
    var path := req.path;
    if "/user-agent" <= path then
      if "User-Agent" in req.headers then PlainText(req.version, req.headers["User-Agent"])
      else Unset(req.version)
    else if "/files/" <= path then
      var name := path[|"/files/"|..];
      if dir + name in files then OctetStream(req.version, StatusOk, files[dir + name])
      else NotFound(req.version)
    else if "/echo/" <= path then PlainText(req.version, path[|"/echo/"|..])
    else if path == "/" then PlainText(req.version, [])
    else NotFound(req.version)
  }

  /** Where a POST to `/files/<name>` stores its body: the root, a separator, the name. */
  function WritePath(dir: Bytes, name: Bytes): Bytes {
    dir + "/" + name
  }

  /**
   The POST handler: a `/files/` path stores the body first and answers 404
   if that fails; every other outcome is a 201 that echoes the body.
   */
  function HandlePost(req: Request, dir: Bytes, files: FileSystem, writeOk: bool): (h: Handled)
    ensures h.response.version == req.version
    ensures ContentLengthMatches(h.response) && NotFoundIsBare(h.response)
    ensures h.response.status in {StatusCreated, StatusNotFound}
    ensures h.response.status == StatusNotFound <==> "/files/" <= req.path && !writeOk
    ensures h.response.status == StatusCreated ==> h.response.body == req.body
    ensures "/files/" <= req.path && writeOk ==>
      h.files == files[WritePath(dir, req.path[|"/files/"|..]) := req.body]
    ensures !("/files/" <= req.path && writeOk) ==> h.files == files
  {
    if "/files/" <= req.path then
      var target := WritePath(dir, req.path[|"/files/"|..]);
      if !writeOk then Handled(NotFound(req.version), files)
      else Handled(OctetStream(req.version, StatusCreated, req.body), files[target := req.body])
    else Handled(OctetStream(req.version, StatusCreated, req.body), files)
  }

  /** The method switch of the connection handler. */
  function Route(req: Request, dir: Bytes, files: FileSystem, writeOk: bool): (h: Handled)
    ensures ContentLengthMatches(h.response) && NotFoundIsBare(h.response)
    ensures h.response.version == if req.verb in {"GET", "POST"} then req.version else DefaultVersion
    ensures h.response.status in {StatusOk, StatusCreated, StatusNotFound, []}
    ensures req.verb != "POST" ==> h.files == files
  {
    if req.verb == "GET" then Handled(HandleGet(req, dir, files), files)
    else if req.verb == "POST" then HandlePost(req, dir, files, writeOk)
    else Handled(NotFound(DefaultVersion), files)
  }

  /** Whenever a response has a `Content-Length`, it reads back as the body's length. */
  lemma ContentLengthIsBodyLength(req: Request, dir: Bytes, files: FileSystem, writeOk: bool)
    ensures var res := Route(req, dir, files, writeOk).response;
      && (res.headers != map[] <==> "Content-Length" in res.headers)
      && ("Content-Length" in res.headers ==> DigitsValue(res.headers["Content-Length"]) == |res.body|)
  {
    var res := Route(req, dir, files, writeOk).response;
    DecimalValue(|res.body|);
  }

  /** GET `/echo/<s>` answers 200 with body `<s>`. */
  lemma EchoRoute(req: Request, dir: Bytes, files: FileSystem, writeOk: bool, s: Bytes)
    requires req.verb == "GET" && req.path == "/echo/" + s
    ensures Route(req, dir, files, writeOk) == Handled(PlainText(req.version, s), files)
  {
    assert req.path[1] == 'e';
    assert req.path[|"/echo/"|..] == s;
  }

  /** Any GET path starting with `/user-agent` reflects the `User-Agent` header, or leaves the status unset. */
  lemma UserAgentRoute(req: Request, dir: Bytes, files: FileSystem, writeOk: bool)
    requires req.verb == "GET" && "/user-agent" <= req.path
    ensures var res := Route(req, dir, files, writeOk).response;
      && ("User-Agent" in req.headers ==> res == PlainText(req.version, req.headers["User-Agent"]))
      && ("User-Agent" !in req.headers ==> res == Unset(req.version))
  {
  }

  /** GET `/files/<name>` serves the bytes at root + name, with no separator, or a bare 404. */
  lemma FilesGetRoute(req: Request, dir: Bytes, files: FileSystem, writeOk: bool, name: Bytes)
    requires req.verb == "GET" && req.path == "/files/" + name
    ensures var res := Route(req, dir, files, writeOk).response;
      && (dir + name in files ==> res == OctetStream(req.version, StatusOk, files[dir + name]))
      && (dir + name !in files ==> res == NotFound(req.version))
  {
    assert req.path[1] == 'f';
    assert req.path[|"/files/"|..] == name;
  }

  /** GET `/` answers the plain-text 200 with an empty body and `Content-Length: 0`. */
  lemma RootRoute(req: Request, dir: Bytes, files: FileSystem, writeOk: bool)
    requires req.verb == "GET" && req.path == "/"
    ensures Route(req, dir, files, writeOk) == Handled(PlainText(req.version, []), files)
    ensures Route(req, dir, files, writeOk).response.headers["Content-Length"] == "0"
  {
  }

  /** A GET path that no route claims answers a bare 404. */
  lemma UnmatchedGetRoute(req: Request, dir: Bytes, files: FileSystem, writeOk: bool)
    requires req.verb == "GET" && req.path != "/"
    requires !("/user-agent" <= req.path) && !("/files/" <= req.path) && !("/echo/" <= req.path)
    ensures Route(req, dir, files, writeOk) == Handled(NotFound(req.version), files)
  {
  }

  /** POST `/files/<name>` stores the body at root + "/" + name when the write succeeds. */
  lemma FilesPostRoute(req: Request, dir: Bytes, files: FileSystem, writeOk: bool, name: Bytes)
    requires req.verb == "POST" && req.path == "/files/" + name
    ensures var h := Route(req, dir, files, writeOk);
      && (writeOk ==> h == Handled(OctetStream(req.version, StatusCreated, req.body), files[WritePath(dir, name) := req.body]))
      && (!writeOk ==> h == Handled(NotFound(req.version), files))
  {
    assert req.path[|"/files/"|..] == name;
  }

  /** A POST anywhere else echoes the body with 201 and writes nothing. */
  lemma OtherPostRoute(req: Request, dir: Bytes, files: FileSystem, writeOk: bool)
    requires req.verb == "POST" && !("/files/" <= req.path)
    ensures Route(req, dir, files, writeOk) == Handled(OctetStream(req.version, StatusCreated, req.body), files)
  {
  }

  /** Any method but GET and POST answers a bare 404 with version HTTP/1.1. */
  lemma OtherMethodRoute(req: Request, dir: Bytes, files: FileSystem, writeOk: bool)
    requires req.verb != "GET" && req.verb != "POST"
    ensures Route(req, dir, files, writeOk) == Handled(Response("HTTP/1.1", StatusNotFound, map[], []), files)
  {
  }

  /**
   A stored body is served back by GET `/files/` + "/" + name, the path that
   reads the key the POST wrote. For a root that does not end in "/" and a
   name that does not start with "/", GET `/files/<name>` reads root + name, a
   different key of the file map, so the POST leaves its answer as it was.
   */
  lemma PostThenGet(post: Request, get: Request, dir: Bytes, files: FileSystem, name: Bytes)
    requires post.verb == "POST" && post.path == "/files/" + name
    requires get.verb == "GET"
    ensures var stored := Route(post, dir, files, true).files;
      && (get.path == "/files/" + "/" + name ==>
            Route(get, dir, stored, true).response == OctetStream(get.version, StatusOk, post.body))
      && (get.path == "/files/" + name && (dir == [] || dir[|dir| - 1] != '/') && (name == [] || name[0] != '/') ==>
            Route(get, dir, stored, true).response == Route(get, dir, files, true).response)
  {
    var stored := Route(post, dir, files, true).files;
    FilesPostRoute(post, dir, files, true, name);
    if get.path == "/files/" + "/" + name {
      FilesGetRoute(get, dir, stored, true, "/" + name);
      assert dir + ("/" + name) == WritePath(dir, name);
    }
    if get.path == "/files/" + name && (dir == [] || dir[|dir| - 1] != '/') && (name == [] || name[0] != '/') {
      assert |dir + name| != |WritePath(dir, name)|;
      FilesGetRoute(get, dir, stored, true, name);
      FilesGetRoute(get, dir, files, true, name);
    }
  }
}
