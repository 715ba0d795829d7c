/**
 * The plain-text reply the controller sends after a set request, and how an
 * HTTP/1.1 client reads such a reply back: the header section ends at the
 * first empty line (section 2.1 of RFC 9112), its lines are separated by
 * CRLF, and the Content-Length field gives the body length (section 8.6 of
 * RFC 9110). That section counts octets while the reply counts characters
 * (`len(body)`); the two agree for an ASCII body such as `OK`.
 */
module Http {
  import opened Base
  import opened Text

  const CRLF := "\r\n"

  /** The end of a header section: a CRLF that ends the last field line, then an empty line. */
  const BlankLine := "\r\n\r\n"

  // The fixed lines are written as short pieces so that the verifier can
  // look inside them character by character.
  const StatusLine := "HTTP/1.1 " + "200 OK"
  const ContentTypeField := "Content-Type: " + "text/plain"
  const CacheControlField := "Cache-Control: " + "no-cache, " + "no-store, " + "must-revalidate"
  const ContentLengthName := "Content-Length"
  const ConnectionField := "Connection: " + "close"

  /** Status line and header fields of a text/plain reply carrying `body`; `%d` of `len(body)` fills in the length. */
  function TextHeaderLines(body: string): seq<string>
  {
    [StatusLine, ContentTypeField, CacheControlField, ContentLengthName + ": " + ShowNat(|body|), ConnectionField]
  }

  /** The reply text: every header line ended by CRLF, an empty line, then the body verbatim. */
  function TextResponse(body: string): string
  {
    Join(CRLF, TextHeaderLines(body)) + BlankLine + body
  }

  /** The text of the reply to every set request. */
  function OkResponse(): string
  {
    TextResponse("OK")
  }

  // ---------------------------------------------------------------------
  // The client's reading of a reply
  // ---------------------------------------------------------------------

  /** The body as a client finds it: everything after the first empty line. */
  function BodyOf(response: string): Option<string>
  {
    match IndexOf(response, BlankLine)
    case None => None
    case Some(i) => Some(response[i + |BlankLine|..])
  }

  /** The lines of the header section: the text before the first empty line, split at CRLF. */
  function HeaderLinesOf(response: string): Option<seq<string>>
  {
    match IndexOf(response, BlankLine)
    case None => None
    case Some(i) => Some(Split(response[..i], CRLF))
  }

  /** `l` begins with `prefix`. */
  predicate HasPrefix(l: string, prefix: string)
  {
    |prefix| <= |l| && l[..|prefix|] == prefix
  }

  /** The value of the first line of the form `name: value`. */
  function FieldValue(lines: seq<string>, name: string): Option<string>
  {
    if |lines| == 0 then None
    else if HasPrefix(lines[0], name + ": ") then Some(lines[0][|name + ": "|..])
    else FieldValue(lines[1..], name)
  }

  /** The body length a client reads from the Content-Length field. */
  function ContentLength(response: string): Option<int>
  {
    match HeaderLinesOf(response)
    case None => None
    case Some(lines) =>
      match FieldValue(lines, ContentLengthName)
      case None => None
      case Some(v) => ParseInt(v)
  }

  // ---------------------------------------------------------------------
  // Framing of a reply
  // ---------------------------------------------------------------------

  /** A header line: not empty, and free of CR. */
  predicate IsLine(l: string)
  {
    |l| > 0 && '\r' !in l
  }

  /** A CRLF in front of text that does not start with CR does not start an empty line. */
  lemma CrlfNotBlank(y: string)
    requires |y| > 0 && y[0] != '\r' && |CRLF + y| >= |BlankLine|
    ensures IndexOf(CRLF + y, BlankLine) == Shift(IndexOf("\n" + y, BlankLine), 1)
  {
    var x := CRLF + y;
    assert x[..4][2] != BlankLine[2];
    IndexOfStep(x, BlankLine);
    assert x[1..] == "\n" + y;
  }

  /** A CRLF in front of text that does not start with CR cannot start an empty line. */
  lemma IndexOfAfterCrlf(y: string)
    requires |y| > 0 && y[0] != '\r'
    ensures IndexOf(CRLF + y, BlankLine) == Shift(IndexOf(y, BlankLine), 2)
  {
    if |CRLF + y| >= |BlankLine| {
      CrlfNotBlank(y);
      IndexOfSkip("\n", y, BlankLine);
      ShiftShift(IndexOf(y, BlankLine), 1, 1);
    } else {
      assert IndexOf(CRLF + y, BlankLine) == None;
      assert IndexOf(y, BlankLine) == None;
    }
  }

  /** Joined lines start with the first line. */
  lemma JoinStart(lines: seq<string>)
    requires |lines| >= 1
    ensures Join(CRLF, lines)[..|lines[0]|] == lines[0]
  {
  }

  /** The first empty line after a single header line is the one that ends it. */
  lemma HeaderEndOne(l: string, body: string)
    requires IsLine(l)
    ensures IndexOf(Join(CRLF, [l]) + BlankLine + body, BlankLine) == Some(|l|)
  {
    assert Join(CRLF, [l]) + BlankLine + body == l + (BlankLine + body);
    IndexOfSkip(l, BlankLine + body, BlankLine);
    assert OccursAt(BlankLine + body, BlankLine, 0);
  }

  /** Skipping the first header line and its CRLF moves the first empty line back by their length. */
  lemma HeaderEndStep(lines: seq<string>, body: string)
    requires |lines| >= 2
    requires IsLine(lines[0]) && IsLine(lines[1])
    ensures IndexOf(Join(CRLF, lines) + BlankLine + body, BlankLine)
      == Shift(IndexOf(Join(CRLF, lines[1..]) + BlankLine + body, BlankLine), |lines[0]| + 2)
  {
    var l := lines[0];
    var more := lines[1..];
    var y := Join(CRLF, more) + BlankLine + body;
    assert Join(CRLF, lines) + BlankLine + body == l + (CRLF + y);
    IndexOfSkip(l, CRLF + y, BlankLine);
    JoinStart(more);
    assert y[0] == more[0][0];
    assert more[0][0] in more[0];
    IndexOfAfterCrlf(y);
    ShiftShift(IndexOf(y, BlankLine), 2, |l|);
  }

  /** In lines ended by CRLF and followed by an empty line, the first empty line is the one after the last line. */
  lemma {:induction false} HeaderEnd(lines: seq<string>, body: string)
    requires |lines| >= 1
    requires forall k :: 0 <= k < |lines| ==> IsLine(lines[k])
    ensures IndexOf(Join(CRLF, lines) + BlankLine + body, BlankLine) == Some(|Join(CRLF, lines)|)
    decreases |lines|
  {
    if |lines| == 1 {
      HeaderEndOne(lines[0], body);
    } else {
      HeaderEndStep(lines, body);
      HeaderEnd(lines[1..], body);
    }
  }

  /** The fixed header lines hold no CR. */
  lemma FixedLinesAreLines()
    ensures IsLine(StatusLine) && IsLine(ContentTypeField) && IsLine(CacheControlField) && IsLine(ConnectionField)
  {
  }

  /** Every line of a text reply is a proper header line. */
  lemma TextHeaderLinesAreLines(body: string)
    ensures forall k :: 0 <= k < |TextHeaderLines(body)| ==> IsLine(TextHeaderLines(body)[k])
  {
    var n := ShowNat(|body|);
    var l := ContentLengthName + ": " + n;
    forall i | 0 <= i < |l| ensures l[i] != '\r' {
      if i >= 16 { assert l[i] == n[i - 16]; }
    }
    FixedLinesAreLines();
  }

  /** In five lines of which only the fourth is a `name` field, the field's value is read from the fourth. */
  lemma FieldValueFourth(a: string, b: string, c: string, v: string, e: string, name: string)
    requires !HasPrefix(a, name + ": ") && !HasPrefix(b, name + ": ") && !HasPrefix(c, name + ": ")
    ensures FieldValue([a, b, c, name + ": " + v, e], name) == Some(v)
  {
    var d := name + ": " + v;
    var lines := [a, b, c, d, e];
    assert d[..|name + ": "|] == name + ": ";
    assert d[|name + ": "|..] == v;
    assert FieldValue([d, e], name) == Some(v);
    assert lines[1..] == [b, c, d, e] && lines[1..][1..] == [c, d, e] && [c, d, e][1..] == [d, e];
    assert FieldValue([c, d, e], name) == Some(v);
    assert FieldValue([b, c, d, e], name) == Some(v);
  }

  /** None of the fixed lines is a Content-Length field. */
  lemma FixedLinesAreNotContentLength()
    ensures !HasPrefix(StatusLine, ContentLengthName + ": ")
    ensures !HasPrefix(ContentTypeField, ContentLengthName + ": ")
    ensures !HasPrefix(CacheControlField, ContentLengthName + ": ")
  {
    assert ContentTypeField[..16][8] != (ContentLengthName + ": ")[8];
    assert CacheControlField[..16][2] != (ContentLengthName + ": ")[2];
  }

  /** The Content-Length field is found on the fourth line. */
  lemma FieldValueContentLength(body: string)
    ensures FieldValue(TextHeaderLines(body), ContentLengthName) == Some(ShowNat(|body|))
  {
    FixedLinesAreNotContentLength();
    FieldValueFourth(StatusLine, ContentTypeField, CacheControlField, ShowNat(|body|), ConnectionField, ContentLengthName);
  }

  /** After lines ended by CRLF and an empty line, a client finds the body. */
  lemma FramingBody(lines: seq<string>, body: string)
    requires |lines| >= 1
    requires forall k :: 0 <= k < |lines| ==> IsLine(lines[k])
    ensures BodyOf(Join(CRLF, lines) + BlankLine + body) == Some(body)
  {
    var j := Join(CRLF, lines);
    HeaderEnd(lines, body);
    Slices3(j, BlankLine, body);
  }

  /** Before the empty line, a client finds the lines themselves. */
  lemma FramingHeader(lines: seq<string>, body: string)
    requires |lines| >= 1
    requires forall k :: 0 <= k < |lines| ==> IsLine(lines[k])
    ensures HeaderLinesOf(Join(CRLF, lines) + BlankLine + body) == Some(lines)
  {
    var j := Join(CRLF, lines);
    HeaderEnd(lines, body);
    Slices3(j, BlankLine, body);
    SplitJoin(lines, CRLF);
  }

  /** A text reply splits back into its header lines and its body. */
  lemma TextResponseParts(body: string)
    ensures HeaderLinesOf(TextResponse(body)) == Some(TextHeaderLines(body))
    ensures BodyOf(TextResponse(body)) == Some(body)
  {
    TextHeaderLinesAreLines(body);
    FramingBody(TextHeaderLines(body), body);
    FramingHeader(TextHeaderLines(body), body);
  }

  /**
   * A client reading a text reply gets exactly the body back, and the
   * Content-Length it reads is the body's length.
   */
  lemma TextResponseFraming(body: string)
    ensures BodyOf(TextResponse(body)) == Some(body)
    ensures ContentLength(TextResponse(body)) == Some(|body|)
  {
    TextResponseParts(body);
    FieldValueContentLength(body);
    ParseIntShowNat(|body|);
  }

  /** Five header lines laid out one after another, each ended by CRLF. */
  lemma FiveLines(a: string, b: string, c: string, d: string, e: string, body: string)
    ensures Join(CRLF, [a, b, c, d, e]) + BlankLine + body
      == a + CRLF + b + CRLF + c + CRLF + d + CRLF + e + CRLF + CRLF + body
  {
    var lines := [a, b, c, d, e];
    assert lines[4..] == [e];
    assert lines[3..][1..] == lines[4..];
    assert lines[2..][1..] == lines[3..];
    assert lines[1..][1..] == lines[2..];
    assert Join(CRLF, lines[3..]) == d + CRLF + e;
    assert Join(CRLF, lines[2..]) == c + CRLF + (d + CRLF + e);
    assert Join(CRLF, lines[1..]) == b + CRLF + (c + CRLF + (d + CRLF + e));
    assert Join(CRLF, lines) == a + CRLF + (b + CRLF + (c + CRLF + (d + CRLF + e)));
  }

  /** The reply to a set request, line for line: a two-character body "OK" announced by `Content-Length: 2`. */
  lemma OkResponseText()
    ensures OkResponse()
      == StatusLine + CRLF
      + ContentTypeField + CRLF
      + CacheControlField + CRLF
      + "Content-Length: 2" + CRLF
      + ConnectionField + CRLF
      + CRLF + "OK"
  {
    assert ShowNat(2) == "2";
    assert ContentLengthName + ": " + ShowNat(|"OK"|) == "Content-Length: 2";
    FiveLines(StatusLine, ContentTypeField, CacheControlField, "Content-Length: 2", ConnectionField, "OK");
  }

  /** A client reading that reply finds the body "OK" and a Content-Length of 2. */
  lemma OkResponseFraming()
    ensures BodyOf(OkResponse()) == Some("OK") && ContentLength(OkResponse()) == Some(2)
  {
    TextResponseFraming("OK");
  }
}
