/** The response serialiser of `WebServer::build_http_response`
    (src/server.cpp:150-160): an HTTP/1.1 status line, the three header
    fields `Content-Type`, `Content-Length` and `Connection: close`, a blank
    line, then the body.

    Its partner is `ParseHttpResponse`, a reader of such messages written
    independently of the serialiser; the lemma `ResponseRoundTrip` shows that
    reading back a serialised response recovers every field, and the lemma
    `ResponseCanonical` shows the converse, that every message the reader
    accepts with `Connection: close` is the serialisation of what it reads. */
module HttpResponse {
  import opened Wrappers
  import opened Decimal

  const CRLF: string := "\r\n"

  /** The status line of section 4 of RFC 9112, without its line ending. */
  function StatusLine(statusCode: int, statusText: string): string {
    "HTTP/1.1 " + IntToDecimal(statusCode) + " " + statusText
  }

  /** One header field line, `name: value` ended by CRLF. */
  function HeaderLine(name: string, value: string): string {
    name + ": " + value + CRLF
  }

  /** Everything that precedes the body: the status line, the three header
      fields in their fixed order, and the empty line that ends the header section. */
  function HeaderBlock(statusCode: int, statusText: string, contentType: string, bodyLength: nat): string {
    StatusLine(statusCode, statusText) + CRLF
    + HeaderLine("Content-Type", contentType)
    + HeaderLine("Content-Length", NatToDecimal(bodyLength))
    + HeaderLine("Connection", "close")
    + CRLF
  }

  /** `build_http_response`: the response is the header block for a body of this
      length followed by the body itself, unchanged. */
  function BuildHttpResponse(statusCode: int, statusText: string, contentType: string, body: string): (r: string)
    ensures |r| > |body| && r[|r| - |body|..] == body
  {
    var response := "HTTP/1.1 " + IntToDecimal(statusCode) + " " + statusText + "\r\n";
    var response := response + ("Content-Type: " + contentType + "\r\n");
    var response := response + ("Content-Length: " + NatToDecimal(|body|) + "\r\n");
    var response := response + "Connection: close\r\n";
    var response := response + "\r\n";
    response + body
  }

  // ---------------------------------------------------------------------
  // Reading a response back

  /** The fields a reader recovers from a response. */
  datatype ParsedResponse = ParsedResponse(
    statusCode: int,
    statusText: string,
    contentType: string,
    connection: string,
    body: string)

  /** Splits `s` at the first occurrence of `c`. */
  function SplitAt(s: string, c: char): (r: Option<(string, string)>)
    ensures r.Some? ==> c !in r.value.0 && s == r.value.0 + [c] + r.value.1
    ensures r.None? ==> c !in s
  {
    if s == [] then None
    else if s[0] == c then Some(([], s[1..]))
    else
      match SplitAt(s[1..], c)
      case None => None
      case Some(p) => Some(([s[0]] + p.0, p.1))
  }

  /** Splits `s` after its first line, which must end with CRLF. */
  function TakeLine(s: string): (r: Option<(string, string)>)
    ensures r.Some? ==> '\r' !in r.value.0 && s == r.value.0 + CRLF + r.value.1
  {
    var p :- SplitAt(s, '\r');
    if |p.1| > 0 && p.1[0] == '\n' then Some((p.0, p.1[1..])) else None
  }

  function StripPrefix(prefix: string, s: string): (r: Option<string>)
    ensures r.Some? <==> prefix <= s
    ensures r.Some? ==> s == prefix + r.value
  {
    if prefix <= s then Some(s[|prefix|..]) else None
  }

  /** The value of a header line `name: value`. */
  function HeaderValue(name: string, line: string): Option<string> {
    StripPrefix(name + ": ", line)
  }

  /** Reads one header line for the field `name`: its value and what follows the line. */
  function ReadHeader(name: string, s: string): Option<(string, string)> {
    var line :- TakeLine(s);
    var value :- HeaderValue(name, line.0);
    Some((value, line.1))
  }

  /** The status code at the head of a response. */
  function StatusCode(s: string): Option<int> {
    var afterVersion :- StripPrefix("HTTP/1.1 ", s);
    var p :- SplitAt(afterVersion, ' ');
    ParseInt(p.0)
  }

  /** The header fields and body a reader recovers from what follows the status line. */
  datatype HeaderSection = HeaderSection(contentType: string, connection: string, body: string)

  /** Reads the three header fields in the server's order, the empty line, and a
      body whose length must be the canonical decimal `Content-Length`. */
  function ParseHeaderSection(s: string): (r: Option<HeaderSection>)
    ensures r.Some? ==> |r.value.body| <= |s| && s[|s| - |r.value.body|..] == r.value.body
  {
    var contentType :- ReadHeader("Content-Type", s);
    var framing :- ParseFraming(contentType.1);
    Some(HeaderSection(contentType.0, framing.0, framing.1))
  }

  /** Reads `Content-Length`, `Connection`, the empty line and the body; gives the
      connection directive and the body. */
  function ParseFraming(s: string): (r: Option<(string, string)>)
    ensures r.Some? ==> |r.value.1| <= |s| && s[|s| - |r.value.1|..] == r.value.1
  {
    var lengthText :- ReadHeader("Content-Length", s);
    var contentLength :- ParseNat(lengthText.0);
    ParseConnectionAndBody(contentLength, lengthText.1)
  }

  /** Reads `Connection`, the empty line and a body of exactly `contentLength` characters. */
  function ParseConnectionAndBody(contentLength: nat, s: string): (r: Option<(string, string)>)
    ensures r.Some? ==> |r.value.1| == contentLength <= |s| && s[|s| - |r.value.1|..] == r.value.1
  {
    var connection :- ReadHeader("Connection", s);
    var blank :- TakeLine(connection.1);
    if blank.0 == [] && contentLength == |blank.1| then Some((connection.0, blank.1)) else None
  }

  /** Reads a response of the shape the server writes: the status line, then
      the header section. Its postcondition only carries the status code over
      to `StatusCode` for the GET handler's contract; the properties of the
      reader are `ResponseRoundTrip` and `ResponseCanonical`. */
  function ParseHttpResponse(s: string): (r: Option<ParsedResponse>)
    ensures r.Some? ==> StatusCode(s) == Some(r.value.statusCode)
  {
    var afterVersion :- StripPrefix("HTTP/1.1 ", s);
    var code :- SplitAt(afterVersion, ' ');
    var statusCode :- ParseInt(code.0);
    var status :- TakeLine(code.1);
    var section :- ParseHeaderSection(status.1);
    Some(ParsedResponse(statusCode, status.0, section.contentType, section.connection, section.body))
  }

  // ---------------------------------------------------------------------
  // Properties of the serialiser

  lemma {:induction false} SplitAtFirst(a: string, c: char, b: string)
    requires c !in a
    ensures SplitAt(a + [c] + b, c) == Some((a, b))
    decreases |a|
  {
    var s := a + [c] + b;
    if a != [] {
      assert s[0] == a[0];
      assert s[1..] == a[1..] + [c] + b;
      SplitAtFirst(a[1..], c, b);
      assert [a[0]] + a[1..] == a;
    }
  }

  lemma TakeLineFirst(a: string, b: string)
    requires '\r' !in a
    ensures TakeLine(a + CRLF + b) == Some((a, b))
  {
    assert a + CRLF + b == a + ['\r'] + (['\n'] + b);
    SplitAtFirst(a, '\r', ['\n'] + b);
  }

  lemma HeaderLineRead(name: string, value: string, rest: string)
    requires '\r' !in name && '\r' !in value
    ensures ReadHeader(name, HeaderLine(name, value) + rest) == Some((value, rest))
  {
    assert HeaderLine(name, value) + rest == (name + ": " + value) + CRLF + rest;
    TakeLineFirst(name + ": " + value, rest);
  }

  /** The serialised response is the header block followed by the body: the
      status line, then `Content-Type`, `Content-Length` holding the decimal
      length of the body, `Connection: close`, the empty line, and the body. */
  lemma ResponseLayout(statusCode: int, statusText: string, contentType: string, body: string)
    ensures BuildHttpResponse(statusCode, statusText, contentType, body)
            == HeaderBlock(statusCode, statusText, contentType, |body|) + body
  {
    var length := NatToDecimal(|body|);
    assert "Content-Type: " + contentType + "\r\n" == HeaderLine("Content-Type", contentType);
    assert "Content-Length: " + length + "\r\n" == HeaderLine("Content-Length", length);
    assert "Connection: close\r\n" == HeaderLine("Connection", "close");
  }

  /** Proof step only: the response regrouped in the order the reader walks through it. */
  function Walked(code: string, statusText: string, contentType: string, length: string, body: string): string {
    "HTTP/1.1 " + (code + [' '] + (statusText + CRLF + (HeaderLine("Content-Type", contentType)
      + (HeaderLine("Content-Length", length) + (HeaderLine("Connection", "close") + (CRLF + body))))))
  }

  /** Proof step only: regrouping a concatenation, so that each use is a small solver query. */
  lemma Associative(a: string, b: string, c: string)
    ensures (a + b) + c == a + (b + c)
  {
  }

  /** Proof step only: the response layout regrouped as `Walked`. */
  lemma WalkedLayout(statusCode: int, statusText: string, contentType: string, body: string)
    ensures HeaderBlock(statusCode, statusText, contentType, |body|) + body
            == Walked(IntToDecimal(statusCode), statusText, contentType, NatToDecimal(|body|), body)
  {
    var code := IntToDecimal(statusCode);
    var line := StatusLine(statusCode, statusText);
    var h1 := HeaderLine("Content-Type", contentType);
    var h2 := HeaderLine("Content-Length", NatToDecimal(|body|));
    var h3 := HeaderLine("Connection", "close");
    var t3 := h3 + (CRLF + body);
    var t2 := h2 + t3;
    var t1 := h1 + t2;
    Associative(line + CRLF + h1 + h2 + h3, CRLF, body);
    Associative(line + CRLF + h1 + h2, h3, CRLF + body);
    Associative(line + CRLF + h1, h2, t3);
    Associative(line + CRLF, h1, t2);
    Associative(line, CRLF, t1);
    assert HeaderBlock(statusCode, statusText, contentType, |body|) + body == line + (CRLF + t1);
    Associative("HTTP/1.1 " + code + " ", statusText, CRLF + t1);
    Associative("HTTP/1.1 " + code, " ", statusText + (CRLF + t1));
    Associative("HTTP/1.1 ", code, " " + (statusText + (CRLF + t1)));
    Associative(code, " ", statusText + (CRLF + t1));
    Associative(statusText, CRLF, t1);
  }

  /** Proof step only: facts about the fixed field names, proved once so that the
      round-trip lemmas do not re-examine the literals. */
  lemma FieldNamesOnOneLine()
    ensures '\r' !in "Content-Type" && '\r' !in "Content-Length"
    ensures '\r' !in "Connection" && '\r' !in "close"
  {
  }

  lemma ConnectionAndBodyRoundTrip(body: string)
    ensures ParseConnectionAndBody(|body|, HeaderLine("Connection", "close") + (CRLF + body))
            == Some(("close", body))
  {
    var rest := CRLF + body;
    FieldNamesOnOneLine();
    HeaderLineRead("Connection", "close", rest);
    assert rest == [] + CRLF + body;
    TakeLineFirst([], body);
  }

  lemma FramingRoundTrip(body: string)
    ensures ParseFraming(HeaderLine("Content-Length", NatToDecimal(|body|))
              + (HeaderLine("Connection", "close") + (CRLF + body)))
            == Some(("close", body))
  {
    var rest := HeaderLine("Connection", "close") + (CRLF + body);
    FieldNamesOnOneLine();
    HeaderLineRead("Content-Length", NatToDecimal(|body|), rest);
    NatRoundTrip(|body|);
    ConnectionAndBodyRoundTrip(body);
  }

  lemma HeaderSectionRoundTrip(contentType: string, body: string)
    requires '\r' !in contentType
    ensures ParseHeaderSection(HeaderLine("Content-Type", contentType)
              + (HeaderLine("Content-Length", NatToDecimal(|body|))
              + (HeaderLine("Connection", "close") + (CRLF + body))))
            == Some(HeaderSection(contentType, "close", body))
  {
    var rest1 := HeaderLine("Content-Length", NatToDecimal(|body|))
      + (HeaderLine("Connection", "close") + (CRLF + body));
    FieldNamesOnOneLine();
    HeaderLineRead("Content-Type", contentType, rest1);
    FramingRoundTrip(body);
  }

  /** Reading back a serialised response recovers the status code, the status
      text, the content type and the body, and finds `Connection: close` and a
      `Content-Length` equal to the body's length. The status text and the
      content type must not contain a carriage return, or their line could not
      be told from the next one. */
  lemma ResponseRoundTrip(statusCode: int, statusText: string, contentType: string, body: string)
    requires '\r' !in statusText && '\r' !in contentType
    ensures ParseHttpResponse(BuildHttpResponse(statusCode, statusText, contentType, body))
            == Some(ParsedResponse(statusCode, statusText, contentType, "close", body))
  {
    var code := IntToDecimal(statusCode);
    var section := HeaderLine("Content-Type", contentType)
      + (HeaderLine("Content-Length", NatToDecimal(|body|))
      + (HeaderLine("Connection", "close") + (CRLF + body)));
    ResponseLayout(statusCode, statusText, contentType, body);
    WalkedLayout(statusCode, statusText, contentType, body);
    assert BuildHttpResponse(statusCode, statusText, contentType, body)
        == "HTTP/1.1 " + (code + [' '] + (statusText + CRLF + section));
    SplitAtFirst(code, ' ', statusText + CRLF + section);
    IntRoundTrip(statusCode);
    TakeLineFirst(statusText, section);
    HeaderSectionRoundTrip(contentType, body);
  }

  /** The status code a client reads from the status line is the one passed in,
      whatever the other fields hold. */
  lemma StatusCodeOfResponse(statusCode: int, statusText: string, contentType: string, body: string)
    ensures StatusCode(BuildHttpResponse(statusCode, statusText, contentType, body)) == Some(statusCode)
  {
    var code := IntToDecimal(statusCode);
    var r := BuildHttpResponse(statusCode, statusText, contentType, body);
    var tail := r[|"HTTP/1.1 " + code| + 1..];
    assert r == "HTTP/1.1 " + (code + [' '] + tail);
    SplitAtFirst(code, ' ', tail);
    IntRoundTrip(statusCode);
  }

  // ---------------------------------------------------------------------
  // The converse: everything the reader accepts is a serialised response

  lemma ReadHeaderCanonical(name: string, s: string)
    requires ReadHeader(name, s).Some?
    ensures s == HeaderLine(name, ReadHeader(name, s).value.0) + ReadHeader(name, s).value.1
  {
    var line := TakeLine(s).value;
    var value := HeaderValue(name, line.0).value;
    assert line.0 == name + ": " + value;
    Associative(line.0, CRLF, line.1);
    Associative(line.0 + CRLF, [], line.1);
  }

  lemma ConnectionAndBodyCanonical(contentLength: nat, s: string)
    requires ParseConnectionAndBody(contentLength, s).Some?
    ensures var r := ParseConnectionAndBody(contentLength, s).value;
            s == HeaderLine("Connection", r.0) + (CRLF + r.1)
  {
    var connection := ReadHeader("Connection", s).value;
    ReadHeaderCanonical("Connection", s);
    var blank := TakeLine(connection.1).value;
    assert connection.1 == [] + CRLF + blank.1;
  }

  lemma FramingCanonical(s: string)
    requires ParseFraming(s).Some?
    ensures var r := ParseFraming(s).value;
            s == HeaderLine("Content-Length", NatToDecimal(|r.1|)) + (HeaderLine("Connection", r.0) + (CRLF + r.1))
  {
    var lengthText := ReadHeader("Content-Length", s).value;
    ReadHeaderCanonical("Content-Length", s);
    var contentLength := ParseNat(lengthText.0).value;
    ParsedNatIsCanonical(lengthText.0, contentLength);
    ConnectionAndBodyCanonical(contentLength, lengthText.1);
  }

  lemma HeaderSectionCanonical(s: string)
    requires ParseHeaderSection(s).Some?
    ensures var h := ParseHeaderSection(s).value;
            s == HeaderLine("Content-Type", h.contentType)
                 + (HeaderLine("Content-Length", NatToDecimal(|h.body|))
                 + (HeaderLine("Connection", h.connection) + (CRLF + h.body)))
  {
    var contentType := ReadHeader("Content-Type", s).value;
    ReadHeaderCanonical("Content-Type", s);
    FramingCanonical(contentType.1);
  }

  /** The other direction of `ResponseRoundTrip`: every message the reader
      accepts with `Connection: close` is, byte for byte, the serialisation of
      the fields it reads. So a response that reads back as given fields is
      exactly the response built from them. */
  lemma ResponseCanonical(s: string, p: ParsedResponse)
    requires ParseHttpResponse(s) == Some(p) && p.connection == "close"
    ensures s == BuildHttpResponse(p.statusCode, p.statusText, p.contentType, p.body)
  {
    var afterVersion := StripPrefix("HTTP/1.1 ", s).value;
    var code := SplitAt(afterVersion, ' ').value;
    ParsedIntIsCanonical(code.0, p.statusCode);
    var status := TakeLine(code.1).value;
    HeaderSectionCanonical(status.1);
    assert s == Walked(IntToDecimal(p.statusCode), p.statusText, p.contentType, NatToDecimal(|p.body|), p.body);
    WalkedLayout(p.statusCode, p.statusText, p.contentType, p.body);
    ResponseLayout(p.statusCode, p.statusText, p.contentType, p.body);
  }

  // The four lemmas below are proof steps only: they split the worked example
  // into small solver queries about literals and carry no property of the model.

  lemma ExampleDigits()
    ensures IntToDecimal(200) == "200" && NatToDecimal(|"hi"|) == "2"
  {
    assert NatToDecimal(2) == "2";
    assert NatToDecimal(20) == NatToDecimal(2) + "0" == "20";
    assert IntToDecimal(200) == NatToDecimal(20) + "0" == "200";
  }

  lemma ExampleStatusAndType()
    ensures "HTTP/1.1 " + "200" + " " + "OK" + "\r\n" + ("Content-Type: " + "text/html" + "\r\n")
            == "HTTP/1.1 200 OK\r\nContent-Type: text/html\r\n"
  {
    assert "HTTP/1.1 " + "200" + " " + "OK" + "\r\n" == "HTTP/1.1 200 OK\r\n";
    assert "Content-Type: " + "text/html" + "\r\n" == "Content-Type: text/html\r\n";
  }

  lemma ExampleLength()
    ensures "HTTP/1.1 200 OK\r\nContent-Type: text/html\r\n" + ("Content-Length: " + "2" + "\r\n")
            == "HTTP/1.1 200 OK\r\nContent-Type: text/html\r\nContent-Length: 2\r\n"
  {
    assert "Content-Length: " + "2" + "\r\n" == "Content-Length: 2\r\n";
  }

  lemma ExampleRest()
    ensures "HTTP/1.1 200 OK\r\nContent-Type: text/html\r\nContent-Length: 2\r\n"
              + "Connection: close\r\n" + "\r\n" + "hi"
            == "HTTP/1.1 200 OK\r\nContent-Type: text/html\r\nContent-Length: 2\r\nConnection: close\r\n\r\nhi"
  {
  }

  /** The worked example: status 200, text "OK", type "text/html" and body "hi". */
  lemma ExampleResponse()
    ensures BuildHttpResponse(200, "OK", "text/html", "hi")
            == "HTTP/1.1 200 OK\r\nContent-Type: text/html\r\nContent-Length: 2\r\nConnection: close\r\n\r\nhi"
  {
    ExampleDigits();
    ExampleStatusAndType();
    ExampleLength();
    ExampleRest();
  }
}
