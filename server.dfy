/**
 * What the server does with one connection: the handler body run for
 * each accepted client, and `serve_file`. Socket writes, the request
 * body read, `open`, `os.fstat` and a response `send` are recorded as
 * events; what the environment answers to them is an input.
 */
module Server {
  import opened Wrappers
  import opened Text
  import opened Bytes
  import opened PyInt
  import opened Paths
  import opened HeaderTable
  import opened Runtime
  import opened HttpResponse
  import opened FixedResponses

  /** A parsed request; `verb` is `request.method`. */
  datatype Request = Request(verb: string, path: string, headers: Headers)

  /** What `Request.from_socket` gives: a request, or an exception. */
  datatype Parsed = Parsed(request: Request) | Malformed

  /**
   * The answers of the calls the model does not see: reading the request
   * body, `open(abspath, "rb")`, `os.fstat` on the open file, and
   * `mimetypes.guess_type(abspath)` as a (type, encoding) pair.
   */
  datatype Env = Env(
    read: Outcome<Raised>,
    open: Outcome<Raised>,
    fstat: Outcome<Raised>,
    guessedType: Option<string>,
    guessedEncoding: Option<string>)

  datatype Event =
    | Write(chunk: Chunk)
    | ReadBody(size: int)
    | Open(path: string)
    | Close(path: string)
    /** `response.send(sock)` called on a response holding these fields. */
    | Send(response: Fields)

  /** The events of a call and how it ended. */
  datatype Served = Served(events: seq<Event>, outcome: Outcome<Raised>)

  /** The chunks handed to `sendall`, in order. */
  function Written(evs: seq<Event>): (w: seq<Chunk>)
    ensures |w| <= |evs|
    decreases |evs|
  {
    if evs == [] then []
    else (if evs[0].Write? then [evs[0].chunk] else []) + Written(evs[1..])
  }

  //
  // serve_file
  //

  /** The guard on the resolved path. */
  predicate Admits(rev: Revision, root: string, abspath: string) {
    if rev == AsWritten then PrefixGuard(root, abspath) else WithinRoot(root, abspath)
  }

  /** `str(encoding)` for the encoding `mimetypes` guessed. */
  function PyStr(s: Option<string>): string {
    if s.None? then "None" else s.value
  }

  /** `content_type` after the default of `application/octet-stream`: never `None`. */
  function DefaultedType(guessedType: Option<string>): (r: Option<string>)
    ensures r.Some?
    ensures guessedType.Some? ==> r == guessedType
  {
    if guessedType.None? then Some("application/octet-stream") else guessedType
  }

  /** As written: `if content_type is not None: content_type += f"; charset={encoding}"`. */
  function AppendCharset(contentType: Option<string>, guessedEncoding: Option<string>): (r: Option<string>)
    ensures r.Some? <==> contentType.Some?
    ensures r.Some? ==> StartsWith(r.value, contentType.value)
  {
    if contentType.Some? then
      assert (contentType.value + "; charset=" + PyStr(guessedEncoding))[..|contentType.value|] == contentType.value;
      Some(contentType.value + "; charset=" + PyStr(guessedEncoding))
    else contentType
  }

  /** The content type given to a file response. */
  function ContentType(rev: Revision, guessedType: Option<string>, guessedEncoding: Option<string>): (r: string)
    ensures StartsWith(r, if guessedType.None? then "application/octet-stream" else guessedType.value)
  {
    var t := DefaultedType(guessedType);
    if rev == AsWritten then AppendCharset(t, guessedEncoding).value
    else if guessedEncoding.Some? then
      assert (t.value + "; charset=" + guessedEncoding.value)[..|t.value|] == t.value;
      t.value + "; charset=" + guessedEncoding.value
    else t.value
  }

  /** Building a response and sending it: either raises. */
  function Reply(r: Result<Fields, Raised>): Served {
    match r
    case Failure(e) => Served([], Fail(e))
    case Success(f) => Served([Send(f)], Fail(NotImplementedError))
  }

  /** What `Response(status="404 Not Found", content="Not Found")` yields (see `NotFoundBuilt`). */
  function NotFoundResponse(rev: Revision): Result<Fields, Raised> {
    if rev == AsWritten then Failure(NameError("headers"))
    else Success(Fields(Ascii("404 Not Found"), [], InMemory(Ascii("Not Found"))))
  }

  /** What `Response(status="200 OK", body=f)` yields for the file opened at `abspath` (see `FileResponseBuilt`). */
  function FileResponse(rev: Revision, abspath: string): Result<Fields, Raised> {
    if rev == AsWritten then Failure(NameError("headers"))
    else Success(Fields(Ascii("200 OK"), [], File(Stream(abspath))))
  }

  /** The body of the `with open(abspath, "rb") as f:` block; the file is closed however it ends. */
  function WithFile(rev: Revision, abspath: string, env: Env): (r: Served)
    ensures r.outcome.Fail? && r.events != [] && r.events[|r.events| - 1] == Close(abspath)
  {
    if env.fstat.Fail? then Served([Close(abspath)], env.fstat)
    else
      var ct := ContentType(rev, env.guessedType, env.guessedEncoding);
      match FileResponse(rev, abspath)
      case Failure(e) => Served([Close(abspath)], Fail(e))
      case Success(f) =>
        var g := f.(headers := Add(f.headers, "content-type", ct));
        Served([Send(g), Close(abspath)], Fail(NotImplementedError))
  }

  /**
   * The body of the `with` block run step by step on a `Response` object:
   * construct it, add the content type, send it. It does what `WithFile`
   * states.
   */
  method RunWithFile(rev: Revision, abspath: string, env: Env) returns (s: Served)
    ensures s == WithFile(rev, abspath, env)
  {
    if env.fstat.Fail? {
      return Served([Close(abspath)], env.fstat);
    }
    var ct := ContentType(rev, env.guessedType, env.guessedEncoding);
    FileResponseBuilt(rev, abspath);
    var r := Response.Create(rev, "200 OK", None, Some(Stream(abspath)), None, Utf8);
    if r.Failure? {
      return Served([Close(abspath)], Fail(r.error));
    }
    var response := r.value;
    response.AddHeader("content-type", ct);
    var o := response.Send();
    return Served([Send(response.Contents()), Close(abspath)], o);
  }

  /** The `try` block of `serve_file`. */
  function TryOpen(rev: Revision, abspath: string, env: Env): (r: Served)
    ensures r.outcome.Fail? && r.events != [] && r.events[0] == Open(abspath)
    ensures env.open.Pass? ==> r.events[|r.events| - 1] == Close(abspath)
  {
    if env.open.Fail? then Served([Open(abspath)], env.open)
    else
      var s := WithFile(rev, abspath, env);
      Served([Open(abspath)] + s.events, s.outcome)
  }

  /** `serve_file` from the guard on: the 404 reply, or the `try` block with its `except FileNotFoundError`. */
  function ServeResolved(rev: Revision, root: string, abspath: string, env: Env): (r: Served)
    ensures r.outcome.Fail?
  {
    if !Admits(rev, root, abspath) then Reply(NotFoundResponse(rev))
    else
      var t := TryOpen(rev, abspath, env);
      if t.outcome == Fail(FileNotFoundError) then
        var n := Reply(NotFoundResponse(rev));
        Served(t.events + n.events, n.outcome)
      else t
  }

  /** `serve_file(sock, path)` with `SERVER_ROOT` as `root`: the rewrite and resolution, then the rest. */
  function ServeFile(rev: Revision, root: string, path: string, env: Env): (r: Served)
    ensures r.outcome.Fail?
  {
    ServeResolved(rev, root, Resolve(root, path), env)
  }

  //
  // The handler
  //

  /** `int(request.headers.get("content-length", "0"))`, with 0 in place of `ValueError`. */
  function ContentLength(hs: Headers): (r: int)
    ensures r != 0 ==> Parse(Get(hs, "content-length", "0")) == Some(r)
    ensures Parse(Get(hs, "content-length", "0")).Some? ==> r == Parse(Get(hs, "content-length", "0")).value
  {
    match Parse(Get(hs, "content-length", "0"))
    case None => 0
    case Some(n) => n
  }

  /** `"100-continue" in request.headers.get("expect", "")`. */
  predicate WantsContinue(hs: Headers) {
    Contains(Get(hs, "expect", ""), "100-continue")
  }

  /** Whether the exception handler takes over at the body read. */
  predicate ReadFails(length: int, env: Env) {
    length != 0 && env.read.Fail?
  }

  /** What the handler does after the body read: the 405 reply, or `serve_file` and the 400 reply if it raises. */
  function Dispatch(rev: Revision, root: string, req: Request, env: Env, length: int): (r: seq<Event>)
    ensures r != [] && r[|r| - 1].Write? && r[|r| - 1].chunk != ContinueLine
  {
    if ReadFails(length, env) then [Write(BadRequestReply)]
    else if req.verb != "GET" then [Write(MethodNotAllowedReply(rev))]
    else
      var s := ServeFile(rev, root, req.path, env);
      s.events + (if s.outcome.Fail? then [Write(BadRequestReply)] else [])
  }

  /**
   * The handler for a parsed request once the two header values are
   * known: the interim reply when `expectsContinue`, the body read when
   * `length` is not zero, then the rest.
   */
  function Respond(rev: Revision, root: string, req: Request, env: Env, expectsContinue: bool, length: int): (r: seq<Event>)
    ensures r != [] && r[|r| - 1].Write? && r[|r| - 1].chunk != ContinueLine
  {
    (if expectsContinue then [Write(ContinueLine)] else [])
    + (if length != 0 then [ReadBody(length)] else [])
    + Dispatch(rev, root, req, env, length)
  }

  /** The handler body for one accepted connection. */
  function Handle(rev: Revision, root: string, p: Parsed, env: Env): (r: seq<Event>)
    ensures r != [] && r[|r| - 1].Write? && r[|r| - 1].chunk != ContinueLine
  {
    match p
    case Malformed => [Write(BadRequestReply)]
    case Parsed(req) => Respond(rev, root, req, env, WantsContinue(req.headers), ContentLength(req.headers))
  }

  //
  // Lemmas on serve_file
  //

  /** The 404 reply is what the response constructor builds from its arguments. */
  lemma NotFoundBuilt(rev: Revision)
    ensures NotFoundResponse(rev) == Build(rev, "404 Not Found", None, None, Some("Not Found"), Utf8)
  {
    if rev == Corrected {
      assert IsAscii("404 Not Found") && IsAscii("Not Found");
      BuildAscii("404 Not Found", "Not Found");
    }
  }

  /** The file response is what the response constructor builds from its arguments. */
  lemma FileResponseBuilt(rev: Revision, abspath: string)
    ensures FileResponse(rev, abspath) == Build(rev, "200 OK", None, Some(Stream(abspath)), None, Utf8)
  {
    if rev == Corrected {
      assert IsAscii("200 OK");
      BuildAsciiFile("200 OK", Stream(abspath));
    }
  }

  lemma ServeResolvedWritesNothing(rev: Revision, root: string, abspath: string, env: Env)
    ensures forall e :: e in ServeResolved(rev, root, abspath, env).events ==> !e.Write? && !e.ReadBody?
  {
  }

  /** The only file opened is the resolved path, and only when the guard admits it. */
  lemma ServeResolvedOpens(rev: Revision, root: string, abspath: string, env: Env, p: string)
    requires Open(p) in ServeResolved(rev, root, abspath, env).events
    ensures p == abspath && Admits(rev, root, abspath)
  {
  }

  /** A resolved path the guard rejects gets the 404 reply and no file is opened. */
  lemma RejectedIsNotFound(rev: Revision, root: string, abspath: string, env: Env)
    requires !Admits(rev, root, abspath)
    ensures ServeResolved(rev, root, abspath, env) == Reply(NotFoundResponse(rev))
    ensures forall e :: e in ServeResolved(rev, root, abspath, env).events ==> !e.Open?
  {
  }

  /** A file that is missing gets the 404 reply, after the failed `open`. */
  lemma MissingFileIsNotFound(rev: Revision, root: string, abspath: string, env: Env)
    requires Admits(rev, root, abspath) && env.open == Fail(FileNotFoundError)
    ensures var n := Reply(NotFoundResponse(rev));
      ServeResolved(rev, root, abspath, env) == Served([Open(abspath)] + n.events, n.outcome)
  {
  }

  /** A file that was opened is closed before `serve_file` ends, and nothing else is closed. */
  lemma ClosesWhatItOpens(rev: Revision, root: string, abspath: string, env: Env)
    ensures var evs := ServeResolved(rev, root, abspath, env).events;
      && (env.open.Pass? && Open(abspath) in evs ==> Close(abspath) in evs)
      && (forall p :: Close(p) in evs ==> p == abspath && Open(p) in evs && env.open.Pass?)
  {
  }

  /**
   * With the constructor repaired, a file that opens is handed to a 200
   * response as its body, with the content type added; `send` then raises.
   */
  lemma CorrectedSendsFile(root: string, abspath: string, env: Env)
    requires Admits(Corrected, root, abspath) && env.open.Pass? && env.fstat.Pass?
    ensures exists f ::
      && Send(f) in ServeResolved(Corrected, root, abspath, env).events
      && f.status == Ascii("200 OK")
      && f.body == File(Stream(abspath))
      && Get(f.headers, "content-type", "") == ContentType(Corrected, env.guessedType, env.guessedEncoding)
  {
    var ct := ContentType(Corrected, env.guessedType, env.guessedEncoding);
    var f := FileResponse(Corrected, abspath).value;
    var g := f.(headers := Add(f.headers, "content-type", ct));
    GetAfterAdd([], "content-type", ct, "content-type", "");
    assert Send(g) in ServeResolved(Corrected, root, abspath, env).events;
  }

  /** `serve_file` writes nothing to the socket itself and reads no body. */
  lemma ServeFileWritesNothing(rev: Revision, root: string, path: string, env: Env)
    ensures forall e :: e in ServeFile(rev, root, path, env).events ==> !e.Write? && !e.ReadBody?
  {
    ServeResolvedWritesNothing(rev, root, Resolve(root, path), env);
  }

  /** With the intended guard, a file is opened only inside the root's directory tree. */
  lemma CorrectedOpensWithinRoot(root: string, path: string, env: Env, p: string)
    requires IsServerRoot(root)
    requires Open(p) in ServeFile(Corrected, root, path, env).events
    ensures p == Resolve(root, path) && WithinRoot(root, p)
    ensures Components(root) <= ResolvedComponents(root, path)
  {
    ServeResolvedOpens(Corrected, root, Resolve(root, path), env, p);
    ResolveWithinRoot(root, path);
  }

  /** As written, a file is opened only when its path starts with the root string. */
  lemma AsWrittenOpensPrefixed(root: string, path: string, env: Env, p: string)
    requires Open(p) in ServeFile(AsWritten, root, path, env).events
    ensures p == Resolve(root, path) && PrefixGuard(root, p)
  {
    ServeResolvedOpens(AsWritten, root, Resolve(root, path), env, p);
  }

  /** A request path made only of normal names and "." is admitted by the intended guard. */
  lemma CorrectedAdmitsPlainPaths(root: string, path: string)
    requires IsServerRoot(root)
    requires ".." !in Split(LStrip(RewriteIndex(path), '/'))
    ensures Admits(Corrected, root, Resolve(root, path))
  {
    NoParentStaysWithin(root, path);
  }

  /**
   * As written, `/../www-private/secret` under the root `/srv/www` is
   * opened although it lies outside the root; the intended guard turns
   * it away with the 404 reply.
   */
  lemma AsWrittenOpensSibling(root: string, suffix: string, name: string, env: Env)
    requires IsServerRoot(root)
    requires IsSegment(RootName(root) + suffix) && IsSegment(name) && suffix != ""
    ensures var path := SiblingRequest(RootName(root) + suffix, name);
      var abspath := Resolve(root, path);
      && Open(abspath) in ServeFile(AsWritten, root, path, env).events
      && !WithinRoot(root, abspath)
      && ServeFile(Corrected, root, path, env) == Reply(NotFoundResponse(Corrected))
  {
    var path := SiblingRequest(RootName(root) + suffix, name);
    var abspath := Resolve(root, path);
    SiblingEscapesPrefixGuard(root, suffix, name);
    assert Open(abspath) in ServeResolved(AsWritten, root, abspath, env).events;
    RejectedIsNotFound(Corrected, root, abspath, env);
  }

  /** The site root is served from `index.html` directly under the root. */
  lemma RootOpensIndex(rev: Revision, root: string, env: Env)
    requires IsServerRoot(root)
    ensures Open(root + "/index.html") in ServeFile(rev, root, "/", env).events
  {
    var abspath := root + "/index.html";
    RootServesIndex(root);
    IndexWithinRoot(root);
    WithinRootPassesPrefixGuard(root, abspath);
    assert Admits(rev, root, abspath);
    assert Open(abspath) in ServeResolved(rev, root, abspath, env).events;
  }

  lemma IndexWithinRoot(root: string)
    ensures WithinRoot(root, root + "/index.html")
  {
    assert (root + "/index.html")[..|root| + 1] == root + "/";
  }

  //
  // Lemmas on the content type
  //

  /**
   * As written, the test `content_type is not None` is always taken, so a
   * charset parameter is always appended, `None` when no encoding was guessed.
   */
  lemma ContentTypeAsWrittenCharset(t: Option<string>, enc: Option<string>)
    ensures DefaultedType(t).Some?
    ensures var base := if t.None? then "application/octet-stream" else t.value;
      && ContentType(AsWritten, t, enc) == base + "; charset=" + PyStr(enc)
      && Contains(ContentType(AsWritten, t, enc), "; charset=")
  {
    var base := if t.None? then "application/octet-stream" else t.value;
    ContainsInfix(base, "; charset=", PyStr(enc));
  }

  /** As written, a file with no guessed encoding is labelled `charset=None`. */
  lemma ContentTypeAsWrittenNone()
    ensures ContentType(AsWritten, Some("text/html"), None) == "text/html; charset=None"
  {
  }

  /**
   * The correction changes only the case without a guessed encoding:
   * with an encoding both revisions give the same value, and without
   * one the written code adds `; charset=None` to the corrected value.
   */
  lemma ContentTypeCorrected(t: Option<string>, enc: Option<string>)
    ensures enc.Some? ==> ContentType(Corrected, t, enc) == ContentType(AsWritten, t, enc)
    ensures ContentType(AsWritten, t, None) == ContentType(Corrected, t, None) + "; charset=None"
  {
  }

  //
  // Lemmas on the handler
  //

  lemma {:induction false} WrittenConcat(a: seq<Event>, b: seq<Event>)
    ensures Written(a + b) == Written(a) + Written(b)
    decreases |a|
  {
    if a == [] {
      assert a + b == b;
    } else {
      assert (a + b)[0] == a[0] && (a + b)[1..] == a[1..] + b;
      WrittenConcat(a[1..], b);
    }
  }

  lemma {:induction false} WrittenNone(evs: seq<Event>)
    requires forall e :: e in evs ==> !e.Write?
    ensures Written(evs) == []
    decreases |evs|
  {
    if evs != [] {
      assert evs[0] in evs;
      WrittenNone(evs[1..]);
    }
  }

  /** A request that does not parse gets the 400 reply and nothing else. */
  lemma MalformedIsBadRequest(rev: Revision, root: string, env: Env)
    ensures Written(Handle(rev, root, Malformed, env)) == [BadRequestReply]
  {
  }

  lemma DispatchWrites(rev: Revision, root: string, req: Request, env: Env, length: int)
    ensures Written(Dispatch(rev, root, req, env, length)) ==
      if !ReadFails(length, env) && req.verb != "GET" then [MethodNotAllowedReply(rev)]
      else [BadRequestReply]
  {
    if !ReadFails(length, env) && req.verb == "GET" {
      var s := ServeFile(rev, root, req.path, env);
      ServeFileWritesNothing(rev, root, req.path, env);
      WrittenNone(s.events);
      WrittenConcat(s.events, [Write(BadRequestReply)]);
    }
  }

  lemma RespondWrites(rev: Revision, root: string, req: Request, env: Env, c: bool, n: int)
    ensures Written(Respond(rev, root, req, env, c, n)) ==
      (if c then [ContinueLine] else [])
      + (if !ReadFails(n, env) && req.verb != "GET" then [MethodNotAllowedReply(rev)] else [BadRequestReply])
  {
    var cp: seq<Event> := if c then [Write(ContinueLine)] else [];
    var rp: seq<Event> := if n != 0 then [ReadBody(n)] else [];
    WrittenConcat(cp + rp, Dispatch(rev, root, req, env, n));
    WrittenConcat(cp, rp);
    DispatchWrites(rev, root, req, env, n);
    assert Written(rp) == [];
  }

  /**
   * The chunks written for a parsed request: the interim `100 Continue`
   * line when asked for, then exactly one final reply: 405 for a method
   * other than `GET`, and otherwise 400, since `serve_file` always raises.
   */
  lemma HandleWrites(rev: Revision, root: string, req: Request, env: Env)
    ensures Written(Handle(rev, root, Parsed(req), env)) ==
      (if WantsContinue(req.headers) then [ContinueLine] else [])
      + (if !ReadFails(ContentLength(req.headers), env) && req.verb != "GET" then [MethodNotAllowedReply(rev)]
         else [BadRequestReply])
  {
    RespondWrites(rev, root, req, env, WantsContinue(req.headers), ContentLength(req.headers));
  }

  /** A method other than `GET` gets the 405 reply. */
  lemma NonGetIsMethodNotAllowed(rev: Revision, root: string, req: Request, env: Env)
    requires req.verb != "GET" && !ReadFails(ContentLength(req.headers), env)
    ensures Written(Handle(rev, root, Parsed(req), env)) ==
      (if WantsContinue(req.headers) then [ContinueLine] else []) + [MethodNotAllowedReply(rev)]
  {
    HandleWrites(rev, root, req, env);
  }

  lemma RespondNonGet(rev: Revision, root: string, req: Request, env: Env, c: bool, n: int)
    requires req.verb != "GET" && !ReadFails(n, env)
    ensures forall e :: e in Respond(rev, root, req, env, c, n) ==> !e.Open? && !e.Send?
  {
    var cp: seq<Event> := if c then [Write(ContinueLine)] else [];
    var rp: seq<Event> := if n != 0 then [ReadBody(n)] else [];
    assert Respond(rev, root, req, env, c, n) == cp + rp + [Write(MethodNotAllowedReply(rev))];
  }

  /** For a method other than `GET`, `serve_file` is not called: no file is opened and nothing is sent. */
  lemma NonGetOpensNothing(rev: Revision, root: string, req: Request, env: Env)
    requires req.verb != "GET" && !ReadFails(ContentLength(req.headers), env)
    ensures forall e :: e in Handle(rev, root, Parsed(req), env) ==> !e.Open? && !e.Send?
  {
    RespondNonGet(rev, root, req, env, WantsContinue(req.headers), ContentLength(req.headers));
  }

  /** Every `GET` ends with the 400 reply, in either revision. */
  lemma GetIsBadRequest(rev: Revision, root: string, req: Request, env: Env)
    requires req.verb == "GET"
    ensures Written(Handle(rev, root, Parsed(req), env)) ==
      (if WantsContinue(req.headers) then [ContinueLine] else []) + [BadRequestReply]
  {
    HandleWrites(rev, root, req, env);
  }

  /**
   * The first chunk written for a parsed request is `100 Continue`
   * exactly when the `Expect` header value contains `100-continue`.
   */
  lemma ContinueFirst(rev: Revision, root: string, req: Request, env: Env)
    ensures var w := Written(Handle(rev, root, Parsed(req), env));
      |w| >= 1 && (Wire(w[0]) == ContinueResponse <==> WantsContinue(req.headers))
  {
    var w := Written(Handle(rev, root, Parsed(req), env));
    HandleWrites(rev, root, req, env);
    if w[0] != ContinueLine {
      ContinueIsNotFinal(w[0]);
    }
  }

  lemma RespondReads(rev: Revision, root: string, req: Request, env: Env, c: bool, n: int, m: int)
    ensures ReadBody(m) in Respond(rev, root, req, env, c, n) <==> m == n && n != 0
  {
    var cp: seq<Event> := if c then [Write(ContinueLine)] else [];
    var rp: seq<Event> := if n != 0 then [ReadBody(n)] else [];
    var d := Dispatch(rev, root, req, env, n);
    DispatchReadsNothing(rev, root, req, env, n);
    assert Respond(rev, root, req, env, c, n) == cp + rp + d;
    assert ReadBody(m) !in cp && ReadBody(m) !in d;
  }

  lemma DispatchReadsNothing(rev: Revision, root: string, req: Request, env: Env, n: int)
    ensures forall e :: e in Dispatch(rev, root, req, env, n) ==> !e.ReadBody?
  {
    if !ReadFails(n, env) && req.verb == "GET" {
      ServeFileWritesNothing(rev, root, req.path, env);
    }
  }

  /** The request body is read exactly when the length is not zero, with that length as the argument of `read`. */
  lemma ReadsBodyIffLength(rev: Revision, root: string, req: Request, env: Env, n: int)
    ensures ReadBody(n) in Handle(rev, root, Parsed(req), env) <==>
      n == ContentLength(req.headers) && n != 0
  {
    RespondReads(rev, root, req, env, WantsContinue(req.headers), ContentLength(req.headers), n);
  }

  //
  // Lemmas on the length header
  //

  /** No `Content-Length` header: length 0. */
  lemma ContentLengthMissing(hs: Headers)
    requires forall i :: 0 <= i < |hs| ==> !SameName(hs[i].name, "content-length")
    ensures ContentLength(hs) == 0
  {
    GetMissing(hs, "content-length", "0");
    ParseNat(0);
    assert NatToDecimal(0) == "0";
  }

  /** A value `int` rejects: length 0, and handling goes on. */
  lemma ContentLengthMalformed(hs: Headers)
    requires Parse(Get(hs, "content-length", "0")).None?
    ensures ContentLength(hs) == 0
  {
  }

  /** A decimal numeral is the length it spells. */
  lemma ContentLengthDecimal(hs: Headers, n: int)
    requires Get(hs, "content-length", "0") == IntToDecimal(n)
    ensures ContentLength(hs) == n
  {
    ParseDecimal(n);
  }
}
