/**
 * The fixed replies the server writes. Each is a triple-quoted bytes
 * literal, one header per line, in which every line feed is then
 * replaced by a carriage return and a line feed.
 */
module FixedResponses {
  import opened Wrappers
  import opened Bytes
  import opened PyInt
  import opened Runtime

  const CR: byte := 13
  const LF: byte := 10
  const CRLF: Bytes := [CR, LF]

  /** `.replace(b"\n", b"\r\n")`. */
  function Crlf(b: Bytes): (r: Bytes)
    ensures |r| >= |b|
    ensures forall i :: 0 <= i < |r| && r[i] == LF ==> i > 0 && r[i - 1] == CR
    decreases |b|
  {
    if b == [] then []
    else (if b[0] == LF then CRLF else [b[0]]) + Crlf(b[1..])
  }

  lemma {:induction false} CrlfConcat(a: Bytes, b: Bytes)
    ensures Crlf(a + b) == Crlf(a) + Crlf(b)
    decreases |a|
  {
    if a == [] {
      assert a + b == b;
    } else {
      assert (a + b)[0] == a[0] && (a + b)[1..] == a[1..] + b;
      CrlfConcat(a[1..], b);
    }
  }

  lemma {:induction false} CrlfNoLineFeed(b: Bytes)
    requires forall i :: 0 <= i < |b| ==> b[i] != LF
    ensures Crlf(b) == b
    decreases |b|
  {
    if b != [] {
      CrlfNoLineFeed(b[1..]);
    }
  }

  /** A line of a literal: ASCII text with no line feed. */
  predicate Plain(s: string) {
    forall i :: 0 <= i < |s| ==> (s[i] as int) < 128 && s[i] != '\n'
  }

  lemma PlainConcat(a: string, b: string)
    requires Plain(a) && Plain(b)
    ensures Plain(a + b)
  {
    assert forall i :: 0 <= i < |a + b| ==> (a + b)[i] == if i < |a| then a[i] else b[i - |a|];
  }

  /** A header line as it goes on the wire. */
  function Line(s: string): Bytes {
    Ascii(s) + CRLF
  }

  lemma LineStep(x: string, rest: string)
    requires Plain(x)
    ensures Crlf(Ascii(x + "\n" + rest)) == Line(x) + Crlf(Ascii(rest))
  {
    AsciiConcat(x + "\n", rest);
    AsciiConcat(x, "\n");
    assert Ascii("\n") == [LF];
    CrlfConcat(Ascii(x) + [LF], Ascii(rest));
    CrlfConcat(Ascii(x), [LF]);
    assert Crlf([LF]) == CRLF;
    CrlfNoLineFeed(Ascii(x));
  }

  /** A fixed reply: its status line, its content type, the length it declares, and its body. */
  datatype Fixed = Fixed(statusLine: string, contentType: string, declared: string, body: string)

  /** The text of the literal before the line feeds are replaced. */
  function Source(m: Fixed): string {
    m.statusLine + "\n" + (("Content-type: " + m.contentType) + "\n"
      + (("Content-length: " + m.declared) + "\n" + ("\n" + m.body)))
  }

  /** The literal as the program holds it. */
  function Literal(m: Fixed): (r: Bytes)
    ensures |r| >= |Source(m)|
    ensures forall i :: 0 <= i < |r| && r[i] == LF ==> i > 0 && r[i - 1] == CR
  {
    Crlf(Ascii(Source(m)))
  }

  predicate PlainParts(m: Fixed) {
    && Plain(m.statusLine) && Plain("Content-type: " + m.contentType)
    && Plain("Content-length: " + m.declared) && Plain(m.body)
  }

  /** The status line and the header lines, each ended by CRLF, then the blank line. */
  function Head(m: Fixed): Bytes {
    Line(m.statusLine) + Line("Content-type: " + m.contentType) + Line("Content-length: " + m.declared) + CRLF
  }

  lemma BlankLine(body: string)
    requires Plain(body)
    ensures Crlf(Ascii("\n" + body)) == CRLF + Ascii(body)
  {
    assert "\n" + body == "" + "\n" + body;
    LineStep("", body);
    assert Line("") == CRLF;
    CrlfNoLineFeed(Ascii(body));
  }

  /**
   * The literal is an HTTP message: status line, two header lines and a
   * blank line, each ended by CRLF, followed by the body bytes as they are.
   */
  lemma LiteralFramed(m: Fixed)
    requires PlainParts(m)
    ensures Literal(m) == Head(m) + Ascii(m.body)
  {
    var ct, cl := "Content-type: " + m.contentType, "Content-length: " + m.declared;
    var r3 := "\n" + m.body;
    var r2 := cl + "\n" + r3;
    var r1 := ct + "\n" + r2;
    LineStep(m.statusLine, r1);
    LineStep(ct, r2);
    LineStep(cl, r3);
    BlankLine(m.body);
    Regroup(Line(m.statusLine), Line(ct), Line(cl), Ascii(m.body));
  }

  lemma Regroup(a: Bytes, b: Bytes, c: Bytes, d: Bytes)
    ensures a + (b + (c + (CRLF + d))) == a + b + c + CRLF + d
  {
  }

  /** The declared `Content-length` is the decimal length of the body. */
  predicate DeclaresItsLength(m: Fixed) {
    m.declared == NatToDecimal(|Ascii(m.body)|)
  }

  /** A reader that parses the declared `Content-length` with `int` gets the number declared. */
  lemma DeclaredLengthParses(m: Fixed, n: nat)
    requires m.declared == NatToDecimal(n)
    ensures Parse(m.declared) == Some(n)
  {
    ParseNat(n);
  }

  const Hello := Fixed("HTTP/1.1 200 OK", "text/html", "15", "<h1>Hello!</h1>")
  const BadRequest := Fixed("HTTP/1.1 400 Bad Request", "text/plain", "11", "Bad Request")
  const NotFound := Fixed("HTTP/1.1 404 Not Found", "text/plain", "9", "Not Found")
  /** As written: it declares 17 bytes for an 18-byte body. */
  const MethodNotAllowedAsWritten := Fixed("HTTP/1.1 405 Method Not Allowed", "text/plain", "17", "Method Not Allowed")
  const MethodNotAllowedCorrected := Fixed("HTTP/1.1 405 Method Not Allowed", "text/plain", "18", "Method Not Allowed")

  /** `METHOD_NOT_ALLOWED_RESPONSE` in either revision. */
  function MethodNotAllowed(rev: Revision): Fixed {
    if rev == AsWritten then MethodNotAllowedAsWritten else MethodNotAllowedCorrected
  }

  /** `b"HTTP/1.1 100 Continue\r\n\r\n"`. */
  const ContinueResponse: Bytes := Ascii("HTTP/1.1 100 Continue") + CRLF + CRLF

  /**
   * The 200, 400 and 404 literals declare exactly the length of their
   * bodies, so a client parsing the header with `int` reads the whole body.
   */
  lemma HonestLengths()
    ensures DeclaresItsLength(Hello) && DeclaresItsLength(BadRequest) && DeclaresItsLength(NotFound)
    ensures Parse(Hello.declared) == Some(|Ascii(Hello.body)|)
    ensures Parse(BadRequest.declared) == Some(|Ascii(BadRequest.body)|)
    ensures Parse(NotFound.declared) == Some(|Ascii(NotFound.body)|)
  {
    assert NatToDecimal(15) == "15";
    assert NatToDecimal(11) == "11";
    assert NatToDecimal(9) == "9";
    DeclaredLengthParses(Hello, 15);
    DeclaredLengthParses(BadRequest, 11);
    DeclaredLengthParses(NotFound, 9);
  }

  /**
   * The 405 literal declares one byte short: a client that trusts the
   * header reads `Method Not Allowe` and never reads the final `d`.
   */
  lemma MethodNotAllowedShort()
    ensures MethodNotAllowedAsWritten.declared == NatToDecimal(17)
    ensures |Ascii(MethodNotAllowedAsWritten.body)| == 18
    ensures !DeclaresItsLength(MethodNotAllowedAsWritten)
    ensures Ascii(MethodNotAllowedAsWritten.body)[..17] == Ascii("Method Not Allowe")
  {
    assert NatToDecimal(17) == "17";
    assert NatToDecimal(18) == "18";
  }

  /** The corrected 405 literal declares the length of its body. */
  lemma MethodNotAllowedHonest()
    ensures DeclaresItsLength(MethodNotAllowedCorrected)
    ensures Parse(MethodNotAllowedCorrected.declared) == Some(|Ascii(MethodNotAllowedCorrected.body)|)
  {
    assert NatToDecimal(18) == "18";
    DeclaredLengthParses(MethodNotAllowedCorrected, 18);
  }

  lemma HeaderLinesPlain(contentType: string, declared: string)
    requires Plain(contentType) && Plain(declared)
    ensures Plain("Content-type: " + contentType) && Plain("Content-length: " + declared)
  {
    assert Plain("Content-type: ") && Plain("Content-length: ");
    PlainConcat("Content-type: ", contentType);
    PlainConcat("Content-length: ", declared);
  }

  lemma FixedPlain(m: Fixed)
    requires Plain(m.statusLine) && Plain(m.contentType) && Plain(m.declared) && Plain(m.body)
    ensures PlainParts(m)
  {
    HeaderLinesPlain(m.contentType, m.declared);
  }

  lemma PlainFields()
    ensures Plain("text/html") && Plain("text/plain")
    ensures Plain("15") && Plain("11") && Plain("9") && Plain("17") && Plain("18")
  {
  }

  /** Each fixed literal is ASCII, one line per field. */
  lemma HelloPlain()
    ensures PlainParts(Hello)
  {
    assert Plain("HTTP/1.1 200 OK");
    assert Plain("<h1>Hello!</h1>");
    PlainFields();
    FixedPlain(Hello);
  }

  lemma BadRequestPlain()
    ensures PlainParts(BadRequest)
  {
    assert Plain("HTTP/1.1 400 Bad Request");
    assert Plain("Bad Request");
    PlainFields();
    FixedPlain(BadRequest);
  }

  lemma NotFoundPlain()
    ensures PlainParts(NotFound)
  {
    assert Plain("HTTP/1.1 404 Not Found");
    assert Plain("Not Found");
    PlainFields();
    FixedPlain(NotFound);
  }

  lemma MethodNotAllowedPlain(rev: Revision)
    ensures PlainParts(MethodNotAllowed(rev))
  {
    MethodNotAllowedStrings();
    PlainFields();
    FixedPlain(MethodNotAllowed(rev));
  }

  lemma MethodNotAllowedStrings()
    ensures Plain("HTTP/1.1 405 Method Not Allowed") && Plain("Method Not Allowed")
  {
  }

  /** Every fixed literal opens with its status line. */
  lemma LiteralStartsWithStatus(m: Fixed)
    requires PlainParts(m)
    ensures |Literal(m)| > |m.statusLine| && Literal(m)[..|m.statusLine|] == Ascii(m.statusLine)
  {
    LiteralFramed(m);
  }

  /** The byte strings the handler itself hands to `sendall`. */
  datatype Chunk = ContinueLine | BadRequestReply | MethodNotAllowedReply(rev: Revision)

  function Wire(c: Chunk): Bytes {
    match c
    case ContinueLine => ContinueResponse
    case BadRequestReply => Literal(BadRequest)
    case MethodNotAllowedReply(rev) => Literal(MethodNotAllowed(rev))
  }

  /** The tenth byte of the interim line is the first digit of its status code, `1`. */
  lemma ContinueStatusDigit()
    ensures |ContinueResponse| > 9 && ContinueResponse[9] == '1' as byte
  {
  }

  /** A fixed reply whose status code does not start with `1` is not the interim line. */
  lemma FinalIsNotContinue(m: Fixed)
    requires PlainParts(m) && |m.statusLine| > 9 && m.statusLine[9] != '1'
    ensures Literal(m) != ContinueResponse
  {
    LiteralStartsWithStatus(m);
    ContinueStatusDigit();
    assert Literal(m)[9] == Ascii(m.statusLine)[9];
  }

  /** The interim line differs from every final reply: their status codes differ. */
  lemma ContinueIsNotFinal(c: Chunk)
    requires c != ContinueLine
    ensures Wire(c) != Wire(ContinueLine)
  {
    if c.BadRequestReply? {
      BadRequestPlain();
      assert BadRequest.statusLine[9] == '4';
      FinalIsNotContinue(BadRequest);
    } else {
      MethodNotAllowedPlain(c.rev);
      assert MethodNotAllowed(c.rev).statusLine[9] == '4';
      FinalIsNotContinue(MethodNotAllowed(c.rev));
    }
  }
}
