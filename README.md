# A model of a file-serving HTTP server written from scratch

The server accepts one connection at a time. It parses the request, and
if the client sent `Expect: 100-continue` it first writes the interim
`HTTP/1.1 100 Continue` line. It then reads the request body when
`Content-Length` is non-zero. A method other than `GET` gets the fixed
405 reply. A `GET` goes to `serve_file`, which:

- rewrites `/` to `/index.html`;
- joins the path to `SERVER_ROOT` and normalises it;
- checks the result against the root;
- opens the file and answers through a `Response` object.

Any exception during a request is caught, and the fixed 400 reply is
written.

This Dafny project models that core:

- the handler body and `serve_file` (`server.py`);
- the fixed reply literals at the top of `server.py`;
- the `Response` class (`response.py`).

It proves what these do, exactly where the code's behaviour surprises.
The `Response` constructor reads an unbound name, so it always raises.
`send` is a stub that raises as well. So every `GET` ends with the 400
reply.

Each of the four defects this uncovers is threaded through the model as
a `Revision` (`Runtime.Revision`). `AsWritten` is the code as it stands,
and `Corrected` is what it evidently means. See "## Findings".

Modules:

- `Wrappers`: `Option`, `Result` and `Outcome`.
- `Bytes`: bytes; `str.encode` for UTF-8, Latin-1 and ASCII; a UTF-8 decoder for the round trip.
- `Text`: prefix and substring tests, `lstrip` and ASCII lower-casing.
- `PyInt`: `int(s)` in base 10, that is strip, sign and digit groups with `_`, plus `str(n)`.
- `Paths`: `split`/`join` on `/`, POSIX `os.path.join` and `os.path.normpath`, and the request-path resolution and the two guards.
- `HeaderTable`: the header container, an ordered list with a case-insensitive, first-match `get`, and `add`.
- `Runtime`: the exceptions that can arise, and the `Revision`.
- `HttpResponse`: what `Response.__init__` stores (the function `Build`) and the class `Response` with its constructor, `Create`, `AddHeader` and `Send`.
- `FixedResponses`: the reply literals, their CRLF framing and their declared lengths.
- `Server`: `serve_file` and the handler as functions that return the events they cause (socket writes, body read, `open`/close, `send`).

The handler's socket writes are recorded as tags (`FixedResponses.Chunk`).
`FixedResponses.Wire` gives the exact bytes of each tag.

## Model

| member | source | states |
|---|---|---|
| HttpResponse.Response.constructor | response.py:30-38 | the object holds exactly the status bytes, header list and body it is given |
| HttpResponse.Response.Create | response.py:21-38 | construction fails exactly when `Build` does, with the same exception; otherwise a fresh object holds `Build`'s status, headers and body |
| HttpResponse.Response.AddHeader | server.py:74 | the header list gains the pair at its end; the status and body are unchanged |
| HttpResponse.Response.Send | response.py:40-43 | `send` always raises `NotImplementedError` |
| HttpResponse.Build | response.py:21-38 | as written, every construction raises `NameError` for `headers`; corrected, a construction without content always succeeds |
| HttpResponse.BuildAsWrittenRaises | response.py:24-31 | as written, construction raises `NameError` for `headers` whatever the arguments |
| HttpResponse.HeadersDefault | response.py:31 | as intended, the headers are the container passed in, or an empty one |
| HttpResponse.ContentWins | response.py:16-17 | corrected, given content, the body is its encoding, the same whatever body stream is passed; construction fails exactly when encoding fails |
| HttpResponse.ContentUtf8 | response.py:27 | corrected, with the default UTF-8 codec, any content encodes, and decoding the body gives the content back |
| HttpResponse.ContentUnencodable | response.py:34 | corrected and with the ASCII codec (the only codec it is stated for), a content character above 127 makes construction raise `UnicodeEncodeError` at a position holding such a character |
| HttpResponse.NoBodyIsEmpty | response.py:35-36 | corrected, with neither content nor body, the body is an empty in-memory buffer |
| HttpResponse.BodyPassedThrough | response.py:37-38 | corrected, a body stream without content is stored unchanged |
| HttpResponse.StatusIsText | response.py:30 | the status is the UTF-8 encoding of the status text (it decodes back to the text), and ASCII text is stored byte for byte with no protocol prefix |
| HttpResponse.BuildAscii | response.py:30-34 | corrected, an ASCII status and content with UTF-8 are stored byte for byte, in an empty header list |
| HttpResponse.BuildAsciiFile | response.py:30-38 | corrected, an ASCII status and a body stream: the status byte for byte, the stream as the body |
| Bytes.EncodeUtf8 | response.py:30 | `str.encode()` gives between one and four bytes per character |
| Bytes.DecodeEncodeUtf8 | response.py:30 | UTF-8 decoding inverts `str.encode()` on every string |
| Bytes.EncodeAsciiAgrees | response.py:34 | on ASCII text, all three codecs give the same bytes, one per character |
| FixedResponses.Crlf | server.py:26 | `.replace(b"\n", b"\r\n")`, applied to each literal at lines 26, 33, 40 and 47, never shortens, and leaves every LF preceded by CR |
| FixedResponses.CrlfConcat | server.py:33 | the replacement works piecewise over a concatenation |
| FixedResponses.Literal | server.py:21-47 | a literal is at least as long as its source text, and every LF in it is preceded by CR |
| FixedResponses.LiteralFramed | server.py:21-47 | each literal is its status line, two header lines and a blank line, each ending in CRLF, then the unchanged body bytes |
| FixedResponses.LiteralStartsWithStatus | server.py:21-47 | each literal starts with its status line |
| FixedResponses.HelloPlain | server.py:21-26 | the 200 literal's fields are ASCII lines without line feeds, so `LiteralFramed` applies |
| FixedResponses.BadRequestPlain | server.py:28-33 | the same for the 400 literal |
| FixedResponses.NotFoundPlain | server.py:35-40 | the same for the 404 literal |
| FixedResponses.MethodNotAllowedPlain | server.py:42-47 | the same for the 405 literal, in both revisions |
| FixedResponses.HonestLengths | server.py:21-40 | the 200, 400 and 404 literals declare the byte length of their bodies (15, 11, 9), and `int` of each declared value is that length |
| FixedResponses.MethodNotAllowedShort | server.py:42-47 | the 405 literal declares 17 for an 18-byte body: a reader trusting the header stops at `Method Not Allowe` |
| FixedResponses.MethodNotAllowedHonest | server.py:42-47 | corrected, the 405 literal declares exactly its body length, and `int` of the declared value is that length |
| FixedResponses.DeclaredLengthParses | server.py:21-47 | a declared length written as a decimal numeral parses back with `int` to that number |
| FixedResponses.ContinueIsNotFinal | server.py:94-95 | the interim `100 Continue` bytes differ from the 400 and 405 replies |
| PyInt.ParseDecimal | server.py:98 | `int(str(n)) == n` for every integer |
| PyInt.ParseAcceptsOnlyNumerals | server.py:97-100 | any text `int` accepts is made only of white space, digits, `_` and signs |
| PyInt.ParseRejectsSeparators | server.py:97-100 | `int` does not skip the separators U+001C to U+001F, which `str.isspace` accepts: `"5"` with one of them after it or before it raises `ValueError` |
| PyInt.ParseBlank | server.py:97-100 | blank text is rejected with `ValueError` |
| HeaderTable.Find | server.py:94 | the position found holds the first header whose name matches, ignoring ASCII case; no earlier header matches, and none at all when nothing is found |
| HeaderTable.GetMissing | server.py:94 | a name that no header has gives the default |
| HeaderTable.GetFirst | server.py:98 | the first matching header supplies the value |
| HeaderTable.GetIgnoresCase | server.py:94 | header lookup ignores the case of the name asked for |
| HeaderTable.Add | server.py:74 | `add` appends the pair at the end and keeps every earlier header in place |
| HeaderTable.GetAfterAdd | server.py:74 | after `add`, a lookup finds an earlier header, else the added value when the names match, else the default |
| Text.LStrip | server.py:57 | `path.lstrip("/")` removes exactly the leading run of `/`: the result is a suffix of the path that does not start with `/`, and every character removed is `/` |
| Text.ContainsIff | server.py:94 | the `in` test on strings holds exactly when the text occurs at some position |
| Paths.SplitJoin | server.py:57 | joining slash-free pieces and splitting them again gives them back |
| Paths.JoinSplit | server.py:57 | splitting on `/` and joining again gives the text back |
| Paths.NormPath | server.py:57 | the normalised path is never empty, and an absolute path stays absolute |
| Paths.PosixJoin | server.py:57 | an absolute second part replaces the first; otherwise the result starts with the first part |
| Paths.Resolve | server.py:54-57 | under an absolute root, the resolved path is absolute |
| Paths.RewriteOnlyRoot | server.py:54-55 | only `/` is rewritten, and the rewrite is idempotent |
| Paths.RootServesIndex | server.py:54-57 | `/` resolves to `index.html` directly under the root |
| Paths.ResolveName | server.py:57 | `/<name>` for one normal name resolves to `<root>/<name>` |
| Paths.ResolveShape | server.py:57 | under a server root, the resolved path is absolute and made of normal components only |
| Paths.CollapseNormal | server.py:57 | on an absolute path, normalisation keeps only normal components; `..` never climbs above `/` |
| Paths.CollapseSegments | server.py:57 | normal components pass through normalisation unchanged |
| Paths.NormPathIdempotent | server.py:57 | normalisation is idempotent on absolute paths |
| Paths.ResolveWithinRoot | server.py:57-58 | the intended guard admits a resolved path exactly when the root's components are a prefix of its components |
| Paths.NoParentStaysWithin | server.py:57-58 | a request path without `..` always resolves inside the root |
| Paths.WithinRootPassesPrefixGuard | server.py:58 | whatever the intended guard admits, the written prefix test admits too |
| Paths.SiblingEscapesPrefixGuard | server.py:57-58 | `/../<root name><suffix>/<name>` resolves into a sibling directory, beside the root; it passes the string-prefix test but is not within the root |
| Server.NotFoundBuilt | server.py:59 | the 404 response is what the constructor builds from `"404 Not Found"` / `"Not Found"` |
| Server.FileResponseBuilt | server.py:73 | the file response is what the constructor builds from `"200 OK"` and the open file |
| Server.ServeResolved | server.py:58-79 | from the guard on, `serve_file` always raises, in both revisions |
| Server.ServeFile | server.py:49-79 | `serve_file` never returns normally |
| Server.TryOpen | server.py:63-79 | the `open` comes first; when it succeeds, the close of that file comes last; the block always raises |
| Server.WithFile | server.py:64-75 | inside the `with` block the last event is the close of the file, and the block raises |
| Server.RunWithFile | server.py:64-75 | the `with` block run step by step on a `Response` object (`Create`, `AddHeader`, `Send`) gives exactly the events and outcome `WithFile` describes |
| Server.ServeFileWritesNothing | server.py:49-79 | `serve_file` itself writes no handler reply and reads no body |
| Server.ServeResolvedOpens | server.py:58-64 | the only file opened is the resolved path, and only when the guard admits it |
| Server.RejectedIsNotFound | server.py:58-61 | a rejected path gets the 404 response, and no file is opened |
| Server.MissingFileIsNotFound | server.py:63-79 | a missing file gets the 404 response, after the failed `open` |
| Server.ClosesWhatItOpens | server.py:64-75 | a file that opens is closed however the block ends, and nothing else is closed |
| Server.CorrectedSendsFile | server.py:63-75 | corrected, an opened file goes to `send` as the body of a `200 OK` response, carrying the computed content type |
| Server.CorrectedOpensWithinRoot | server.py:57-64 | corrected, a file is opened only within the root's directory tree |
| Server.AsWrittenOpensPrefixed | server.py:58-64 | as written, a file is opened only when its path starts with the root string |
| Server.CorrectedAdmitsPlainPaths | server.py:57-58 | corrected, any request path without `..` passes the guard |
| Server.AsWrittenOpensSibling | server.py:57-64 | as written, a file in a sibling directory whose name extends the root's is opened; corrected, the request gets the 404 |
| Server.RootOpensIndex | server.py:54-64 | a request for `/` opens `<root>/index.html` in both revisions |
| Server.DefaultedType | server.py:66-68 | after the default, `content_type` is never `None`, and a guessed type is kept |
| Server.AppendCharset | server.py:70-71 | as written, the result is present exactly when `content_type is not None`, and then starts with the type; what follows the type (`; charset=` and `str(encoding)`) is stated by `ContentTypeAsWrittenCharset` |
| Server.ContentType | server.py:66-71 | the label starts with the guessed type, or with `application/octet-stream` when none was guessed |
| Server.ContentTypeAsWrittenCharset | server.py:66-71 | as written, the test `content_type is not None` is always taken, so `; charset=` plus `str(encoding)` is always appended |
| Server.ContentTypeAsWrittenNone | server.py:70-71 | as written, a file with no guessed encoding is labelled `charset=None` |
| Server.ContentTypeCorrected | server.py:66-71 | the correction changes only the case without a guessed encoding: with an encoding both revisions give the same label; without one, the written code adds `; charset=None` to the corrected label |
| Server.Handle | server.py:92-113 | every request, parsed or not, ends with a final reply written, never the interim line |
| Server.Respond | server.py:94-113 | for a parsed request, from the interim line on, the last event is a write of a final reply |
| Server.Dispatch | server.py:102-113 | from the body read on, the last event is a write of a final reply |
| Server.ContentLength | server.py:97-100 | when `int` accepts the `Content-Length` value (default `"0"`), the length is the number it gives, so `05` and `+5` both give 5; a non-zero length always comes from such a parse |
| Server.MalformedIsBadRequest | server.py:93-113 | a request that does not parse gets exactly the 400 reply |
| Server.HandleWrites | server.py:92-113 | for a parsed request: the interim line when asked for, then exactly one final reply, either 405 (a non-`GET` whose body read succeeded) or 400 |
| Server.NonGetIsMethodNotAllowed | server.py:102-108 | a method other than exactly `GET`, when the body read does not raise, gets the 405 reply after the interim line if asked for; when the read raises, the reply is 400 instead (see `HandleWrites`) |
| Server.NonGetOpensNothing | server.py:102-110 | for such a method, when the body read does not raise, `serve_file` is not reached: nothing is opened or sent |
| Server.GetIsBadRequest | server.py:110-113 | every `GET` ends with the 400 reply, since `serve_file` always raises |
| Server.ContinueFirst | server.py:94-95 | the first bytes written are the `100 Continue` line exactly when the `Expect` value contains `100-continue` |
| Server.ReadsBodyIffLength | server.py:102-103 | the body is read exactly when the length is non-zero, with that length as the argument of `read` |
| Server.ContentLengthMissing | server.py:98 | with no `Content-Length` header, the length is 0 |
| Server.ContentLengthMalformed | server.py:97-100 | a value `int` rejects gives length 0, and handling goes on |
| Server.ContentLengthDecimal | server.py:98 | a decimal numeral gives the number it spells |

## Left out

- The listen/accept loop, `print` logging and the socket itself (server.py:82-90, 104, 112) are left out. They are I/O. Socket writes are recorded as events instead.
- `open`, `os.fstat` and the read of the request body are modelled only by their outcome, which is an input (`Server.Env`). Neither file contents nor body bytes are modelled.
- `mimetypes.guess_type` is a library table. Its (type, encoding) answer is an input.
- `Request.from_socket` is not part of this model, because `request.py` is not part of it. A request either arrives parsed or is `Malformed`.
- The `Headers` class is not part of this model either, because `headers.py` is not part of it. Its lookup is modelled as an ordered list with case-insensitive, first-match lookup.
- `Encode` models only three codecs: UTF-8, Latin-1 and ASCII. Codec names, and the `LookupError` an unknown name would raise, are left out.
- `PyInt.Parse` accepts ASCII digits only. Python's `int` also accepts other Unicode decimal digits.
- `FILE_RESPONSE_TEMPLATE` (server.py:14-19) is not modelled, because no code uses it. `RESPONSE` is modelled as `FixedResponses.Hello`, although the handler never writes it.
- `send` never gets as far as serialising a response, because it raises. How a response would be written is therefore not modelled.
- Failures of `sendall` itself are not modelled, and neither are errors raised inside the exception handler.
- The `or` in `headers or Headers()` is modelled without Python truthiness: in `Corrected`, an empty container passed in is kept. An empty one is indistinguishable from a fresh one for every operation modelled.
- `status.encode()` cannot fail in the model, because Dafny strings hold no lone surrogates.
- Server.ReadsBodyIffLength: states the argument passed to `read`, not how many bytes come back. A negative length, as in `Content-Length: -1`, is non-zero, so `read(-1)` is called, and that reads to the end of the stream.
- PyInt.ParseDecimal: does not model CPython's limit of 4300 digits on integer conversion (Python 3.11 and later). Above it, `int(s)` and `str(n)` raise `ValueError`, so the round trip holds there only for numbers of at most 4300 digits.
- PyInt.Parse: accepts numerals of any length, with no 4300-digit limit. CPython raises `ValueError` for longer ones.
- Server.ContentLengthDecimal: longer numerals give a length of 0 in the source, because the `ValueError` is caught at server.py:99-100. Then no body is read, and a non-`GET` gets 405 where the model may read the body and reply 400.
- Server.ContentType: even corrected, the second value of `guess_type` is used as the charset. That value is a content coding such as `gzip`, not a character set, so `x.html.gz` is labelled `text/html; charset=gzip`. The correction only drops the `charset=None` case.

## Findings

| source | as written | input that shows it | evidently intended | confidence | as-written member | corrected member |
|---|---|---|---|---|---|---|
| response.py:24-31 | the parameter is `Headers`, but the body reads `headers`, an unbound name, so `NameError` is raised | any construction, e.g. `Response(status="404 Not Found", content="Not Found")` | the given container, or a fresh empty one | high (not executed) | HttpResponse.BuildAsWrittenRaises | HttpResponse.HeadersDefault |
| server.py:58 | the plain string-prefix test `abspath.startswith(SERVER_ROOT)` | root `/srv/www`, request path `/../www-private/secret`: it resolves to `/srv/www-private/secret`, which passes the test and is opened | admit only the root or paths below `root + "/"` | high (not executed) | Server.AsWrittenOpensSibling | Server.CorrectedOpensWithinRoot |
| server.py:70-71 | `if content_type is not None` is always true after the default, so `; charset=None` is appended | a guess of `("text/html", None)` gives `text/html; charset=None` | append a charset only when an encoding was guessed | medium (not executed) | Server.ContentTypeAsWrittenNone | Server.ContentTypeCorrected |
| server.py:45 | `Content-length: 17` for the 18-byte body `Method Not Allowed` | any non-`GET` request; a client trusting the header reads `Method Not Allowe` and never reads the final `d` | `Content-length: 18` | high (not executed) | FixedResponses.MethodNotAllowedShort | FixedResponses.MethodNotAllowedHonest |
