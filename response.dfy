/**
 * An HTTP response: the encoded status text, its headers and its body,
 * as the `Response` constructor selects them, and a `send` that is not
 * implemented.
 */
module HttpResponse {
  import opened Wrappers
  import opened Bytes
  import opened HeaderTable
  import opened Runtime

  /** An open file object, known by the path it was opened as. */
  datatype Stream = Stream(path: string)

  /** The body: an in-memory buffer (`io.BytesIO`) or a file handed in by the caller. */
  datatype Body = InMemory(data: Bytes) | File(stream: Stream)

  datatype Fields = Fields(status: Bytes, headers: Headers, body: Body)

  /**
   * What `Response(status, Headers=headers, body=body, content=content,
   * encoding=encoding)` stores, or the exception it raises.
   */
  function Build(rev: Revision, status: string, headers: Option<Headers>, body: Option<Stream>,
                 content: Option<string>, encoding: Codec): (r: Result<Fields, Raised>)
    ensures rev == AsWritten ==> r == Failure(NameError("headers"))
    ensures rev == Corrected && content.None? ==> r.Success?
  {
    var st := EncodeUtf8(status);
    if rev == AsWritten then Failure(NameError("headers"))
    else
      var hs := if headers.Some? then headers.value else [];
      if content.Some? then
        match Encode(content.value, encoding)
        case Failure(e) => Failure(Raised.UnicodeEncodeError(e.position))
        case Success(data) => Success(Fields(st, hs, InMemory(data)))
      else if body.None? then Success(Fields(st, hs, InMemory([])))
      else Success(Fields(st, hs, File(body.value)))
  }

  /**
   * The response object, updated in place. `Create` is the constructor
   * call as the server makes it and stores what `Build` selects;
   * `Server.RunWithFile` uses it for the file response.
   */
  class Response {
    var status: Bytes
    var headers: Headers
    var body: Body

    constructor (status: Bytes, headers: Headers, body: Body)
      ensures this.status == status && this.headers == headers && this.body == body
    {
      this.status := status;
      this.headers := headers;
      this.body := body;
    }

    function Contents(): Fields
      reads this
    {
      Fields(status, headers, body)
    }

    /** `Response.__init__`, returning the exception it raises instead of an object. */
    static method Create(rev: Revision, status: string, headers: Option<Headers>, body: Option<Stream>,
                         content: Option<string>, encoding: Codec) returns (r: Result<Response, Raised>)
      ensures r.Failure? <==> Build(rev, status, headers, body, content, encoding).Failure?
      ensures r.Failure? ==> r.error == Build(rev, status, headers, body, content, encoding).error
      ensures r.Success? ==>
        && fresh(r.value)
        && r.value.Contents() == Build(rev, status, headers, body, content, encoding).value
    {
      var st := EncodeUtf8(status);
      if rev == AsWritten {
        return Failure(NameError("headers"));
      }
      var hs := if headers.Some? then headers.value else [];
      var b: Body;
      if content.Some? {
        var e := Encode(content.value, encoding);
        if e.Failure? {
          return Failure(Raised.UnicodeEncodeError(e.error.position));
        }
        b := InMemory(e.value);
      } else if body.None? {
        b := InMemory([]);
      } else {
        b := File(body.value);
      }
      var resp := new Response(st, hs, b);
      return Success(resp);
    }

    /** `response.headers.add(name, value)`. */
    method AddHeader(name: string, value: string)
      modifies this
      ensures headers == Add(old(headers), name, value)
      ensures status == old(status) && body == old(body)
    {
      headers := Add(headers, name, value);
    }

    /** `send`: not implemented, whatever the response holds. */
    method Send() returns (o: Outcome<Raised>)
      ensures o == Fail(NotImplementedError)
    {
      o := Fail(NotImplementedError);
    }
  }

  //
  // What the constructor selects
  //

  /** As written, the constructor reads the unbound name `headers` and always raises. */
  lemma BuildAsWrittenRaises(status: string, headers: Option<Headers>, body: Option<Stream>,
                             content: Option<string>, encoding: Codec)
    ensures Build(AsWritten, status, headers, body, content, encoding) == Failure(NameError("headers"))
  {
  }

  /** Supplied content is the body, whatever body stream is passed beside it. */
  lemma ContentWins(status: string, headers: Option<Headers>, b1: Option<Stream>, b2: Option<Stream>,
                    content: string, encoding: Codec)
    ensures var r := Build(Corrected, status, headers, b1, Some(content), encoding);
      && r == Build(Corrected, status, headers, b2, Some(content), encoding)
      && (r.Success? <==> Encode(content, encoding).Success?)
      && (r.Success? ==> r.value.body == InMemory(Encode(content, encoding).value))
  {
  }

  /** With the default codec the content always encodes, and decodes back to itself. */
  lemma ContentUtf8(status: string, headers: Option<Headers>, body: Option<Stream>, content: string)
    ensures var r := Build(Corrected, status, headers, body, Some(content), Utf8);
      r.Success? && r.value.body.InMemory? && DecodeUtf8(r.value.body.data) == Some(content)
  {
    DecodeEncodeUtf8(content);
  }

  /** A codec that lacks a character of the content makes construction raise at that character. */
  lemma ContentUnencodable(status: string, headers: Option<Headers>, body: Option<Stream>,
                           content: string, i: nat)
    requires i < |content| && (content[i] as int) >= 128
    ensures var r := Build(Corrected, status, headers, body, Some(content), AsciiCodec);
      r.Failure? && r.error.UnicodeEncodeError?
      && r.error.position < |content| && (content[r.error.position] as int) >= 128
  {
  }

  /** Neither content nor body: an empty in-memory body. */
  lemma NoBodyIsEmpty(status: string, headers: Option<Headers>, encoding: Codec)
    ensures var r := Build(Corrected, status, headers, None, None, encoding);
      r.Success? && r.value.body == InMemory([])
  {
  }

  /** A body stream without content is kept as it is. */
  lemma BodyPassedThrough(status: string, headers: Option<Headers>, body: Stream, encoding: Codec)
    ensures var r := Build(Corrected, status, headers, Some(body), None, encoding);
      r.Success? && r.value.body == File(body)
  {
  }

  /**
   * The status holds the status text alone, UTF-8 encoded: decoding it
   * gives the text back, and ASCII text such as `200 OK` is stored byte
   * for byte, with no protocol prefix.
   */
  lemma StatusIsText(rev: Revision, status: string, headers: Option<Headers>, body: Option<Stream>,
                     content: Option<string>, encoding: Codec)
    ensures var r := Build(rev, status, headers, body, content, encoding);
      r.Success? ==>
        && DecodeUtf8(r.value.status) == Some(status)
        && (IsAscii(status) ==> r.value.status == Ascii(status))
  {
    DecodeEncodeUtf8(status);
    if IsAscii(status) {
      EncodeUtf8Ascii(status);
    }
  }

  /** ASCII status and content with the default codec: both stored byte for byte. */
  lemma BuildAscii(status: string, content: string)
    requires IsAscii(status) && IsAscii(content)
    ensures Build(Corrected, status, None, None, Some(content), Utf8)
      == Success(Fields(Ascii(status), [], InMemory(Ascii(content))))
  {
    EncodeUtf8Ascii(status);
    EncodeAsciiAgrees(content, Utf8);
  }

  /** An ASCII status and a body stream: the status byte for byte, the stream as the body. */
  lemma BuildAsciiFile(status: string, body: Stream)
    requires IsAscii(status)
    ensures Build(Corrected, status, None, Some(body), None, Utf8)
      == Success(Fields(Ascii(status), [], File(body)))
  {
    EncodeUtf8Ascii(status);
  }

  /** The headers are the container passed in, or a fresh empty one. */
  lemma HeadersDefault(status: string, headers: Option<Headers>, body: Option<Stream>,
                       content: Option<string>, encoding: Codec)
    ensures var r := Build(Corrected, status, headers, body, content, encoding);
      r.Success? ==> r.value.headers == (if headers.Some? then headers.value else [])
  {
  }
}
