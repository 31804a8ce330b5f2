/** The request-to-response logic of `WebServer` (src/server.cpp):
    reading one request from a connection, dispatching it, building the
    response, and the lifecycle of the listening descriptor.

    `HttpRequest::parse` and `FileHandler` are collaborators whose source is
    not part of this model: the parser is a function from the request text to
    an optional request, and the file handler is the datatype `FileLookup` of
    three lookups by path. `recv` and `send` are modelled by what they deliver
    and what they are handed. */
module Server {
  import opened Wrappers
  import opened HttpResponse

  // ---------------------------------------------------------------------
  // Collaborators

  /** The fields of a parsed `HttpRequest` that the server reads. */
  datatype Request = Request(httpMethod: string, path: string)

  /** `FileHandler`: existence, content and MIME type of a path under the document root. */
  datatype FileLookup = FileLookup(
    fileExists: string -> bool,
    readFile: string -> string,
    mimeType: string -> string)

  // ---------------------------------------------------------------------
  // Responses

  const NotFoundBody: string :=
    "<html><body><h1>404 Not Found</h1><p>The requested file was not found.</p></body></html>"
  const BadRequestBody: string := "<html><body><h1>400 Bad Request</h1></body></html>"
  const MethodNotAllowedBody: string := "<html><body><h1>405 Method Not Allowed</h1></body></html>"

  /** Proof step only: the fixed status texts and type hold no carriage return. */
  lemma FixedTextsOnOneLine()
    ensures '\r' !in "Not Found" && '\r' !in "Bad Request" && '\r' !in "Method Not Allowed"
    ensures '\r' !in "OK" && '\r' !in "text/html"
  {
  }

  /** `get_404_response`: reads back as status 404 "Not Found" with a fixed,
      non-empty HTML body. */
  function Get404Response(): (r: string)
    ensures ParseHttpResponse(r) == Some(ParsedResponse(404, "Not Found", "text/html", "close", NotFoundBody))
    ensures NotFoundBody != ""
  {
    FixedTextsOnOneLine();
    ResponseRoundTrip(404, "Not Found", "text/html", NotFoundBody);
    BuildHttpResponse(404, "Not Found", "text/html", NotFoundBody)
  }

  /** The response to a request that does not parse. */
  function BadRequestResponse(): (r: string)
    ensures ParseHttpResponse(r) == Some(ParsedResponse(400, "Bad Request", "text/html", "close", BadRequestBody))
  {
    FixedTextsOnOneLine();
    ResponseRoundTrip(400, "Bad Request", "text/html", BadRequestBody);
    BuildHttpResponse(400, "Bad Request", "text/html", BadRequestBody)
  }

  /** The response to any method other than `GET`; it carries no `Allow` header. */
  function MethodNotAllowedResponse(): (r: string)
    ensures ParseHttpResponse(r)
            == Some(ParsedResponse(405, "Method Not Allowed", "text/html", "close", MethodNotAllowedBody))
  {
    FixedTextsOnOneLine();
    ResponseRoundTrip(405, "Method Not Allowed", "text/html", MethodNotAllowedBody);
    BuildHttpResponse(405, "Method Not Allowed", "text/html", MethodNotAllowedBody)
  }

  /** A file is served when it exists and its content is not empty;
      an existing empty file is answered like a missing one. */
  predicate Servable(files: FileLookup, path: string) {
    files.fileExists(path) && files.readFile(path) != ""
  }

  /** `handle_get_request`: 200 with the file's MIME type and its content
      unchanged when the file is servable, the 404 response otherwise. */
  function HandleGetRequest(files: FileLookup, request: Request): (r: string)
    ensures StatusCode(r) == Some(200) <==> Servable(files, request.path)
    ensures StatusCode(r) == Some(404) <==> !Servable(files, request.path)
    ensures !Servable(files, request.path) ==> r == Get404Response()
    ensures Servable(files, request.path) ==>
              var content := files.readFile(request.path);
              |r| > |content| && r[|r| - |content|..] == content
  {
    if !files.fileExists(request.path) then
      Get404Response()
    else
      var content := files.readFile(request.path);
      if content == "" then
        Get404Response()
      else
        var mimeType := files.mimeType(request.path);
        StatusCodeOfResponse(200, "OK", mimeType, content);
        BuildHttpResponse(200, "OK", mimeType, content)
  }

  /** When the MIME type has no line break in it, a client reading the GET
      response back finds every field the decision table promises. */
  lemma GetResponseReadsBack(files: FileLookup, request: Request)
    requires '\r' !in files.mimeType(request.path)
    ensures ParseHttpResponse(HandleGetRequest(files, request))
            == if Servable(files, request.path) then
                 Some(ParsedResponse(200, "OK", files.mimeType(request.path), "close", files.readFile(request.path)))
               else
                 Some(ParsedResponse(404, "Not Found", "text/html", "close", NotFoundBody))
  {
    if Servable(files, request.path) {
      FixedTextsOnOneLine();
      ResponseRoundTrip(200, "OK", files.mimeType(request.path), files.readFile(request.path));
    }
  }

  /** What `handle_client` sends for the text of one request: nothing for an
      empty request, otherwise exactly one response chosen by the parse result
      and the method. */
  function ClientResponses(requestData: string, parse: string -> Option<Request>, files: FileLookup)
    : (sent: seq<string>)
    ensures |sent| <= 1
    ensures sent == [] <==> requestData == ""
    ensures sent != [] ==> (StatusCode(sent[0]) == Some(400) <==> parse(requestData).None?)
    ensures sent != [] && parse(requestData).None? ==> sent[0] == BadRequestResponse()
    ensures sent != [] ==>
              (StatusCode(sent[0]) == Some(405) <==> parse(requestData).Some? && parse(requestData).value.httpMethod != "GET")
    ensures sent != [] && parse(requestData).Some? && parse(requestData).value.httpMethod != "GET" ==>
              sent[0] == MethodNotAllowedResponse()
    ensures sent != [] && parse(requestData).Some? && parse(requestData).value.httpMethod == "GET" ==>
              sent[0] == HandleGetRequest(files, parse(requestData).value)
  {
    if requestData == "" then
      []
    else
      match parse(requestData)
      case None => [BadRequestResponse()]
      case Some(request) =>
        if request.httpMethod == "GET" then [HandleGetRequest(files, request)] else [MethodNotAllowedResponse()]
  }

  /** The method is compared exactly: a lower-case "get" is answered with 405. */
  lemma MethodIsCaseSensitive(requestData: string, parse: string -> Option<Request>, files: FileLookup, path: string)
    requires requestData != "" && parse(requestData) == Some(Request("get", path))
    ensures ClientResponses(requestData, parse, files) == [MethodNotAllowedResponse()]
  {
    assert "get" != "GET" by { assert "get"[0] != "GET"[0]; }
  }

  // ---------------------------------------------------------------------
  // Reading a request

  /** `char buffer[4096]` in `read_request`. */
  const BufferSize: nat := 4096

  /** What one `recv` call delivers: the bytes waiting on the connection (an
      empty sequence when the peer has closed it), or a failure. */
  datatype RecvOutcome = Delivered(available: string) | RecvFailed

  /** The return value of `recv` asked for at most `len` bytes. */
  function BytesReceived(outcome: RecvOutcome, len: nat): (n: int)
    ensures -1 <= n <= len
    ensures n == -1 <==> outcome.RecvFailed?
    ensures outcome.Delivered? ==> n <= |outcome.available| && (n < len ==> n == |outcome.available|)
  {
    match outcome
    case RecvFailed => -1
    case Delivered(available) => if |available| < len then |available| else len
  }

  /** What `std::string(const char*)` keeps of a character array: everything
      before the first NUL, or all of it when there is none. */
  function CString(s: string): (r: string)
    ensures r <= s && '\0' !in r
    ensures |r| < |s| ==> s[|r|] == '\0'
  {
    if s == [] || s[0] == '\0' then [] else [s[0]] + CString(s[1..])
  }

  /** The prefix that stops at the first NUL, or at the end, is the only one
      `CString` can give. */
  lemma CStringUnique(s: string, k: nat)
    requires k <= |s| && '\0' !in s[..k] && (k == |s| || s[k] == '\0')
    ensures CString(s) == s[..k]
  {
  }

  /** The request text `read_request` returns for a `recv` outcome: empty when
      `recv` fails or returns 0, otherwise the at most 4095 bytes received, cut
      before the first NUL. */
  function RequestData(outcome: RecvOutcome): (r: string)
    ensures |r| <= BufferSize - 1 && '\0' !in r
    ensures outcome.RecvFailed? ==> r == ""
    ensures outcome.Delivered? ==> r <= outcome.available
    ensures outcome.Delivered? && |r| < |outcome.available| && |r| < BufferSize - 1 ==>
              outcome.available[|r|] == '\0'
  {
    var n := BytesReceived(outcome, BufferSize - 1);
    if n > 0 then CString(outcome.available[..n]) else ""
  }

  /** `recv` into `buffer`, asking for at most `len` bytes: the bytes it
      returns are copied to the front of the buffer and nothing else changes. */
  method Recv(outcome: RecvOutcome, buffer: array<char>, len: nat) returns (n: int)
    requires len <= buffer.Length
    modifies buffer
    ensures n == BytesReceived(outcome, len)
    ensures n > 0 ==> buffer[..n] == outcome.available[..n]
    ensures n > 0 ==> buffer[n..] == old(buffer[n..])
    ensures n <= 0 ==> buffer[..] == old(buffer[..])
  {
    n := BytesReceived(outcome, len);
    if n > 0 {
      var i := 0;
      while i < n
        invariant 0 <= i <= n
        invariant buffer[..i] == outcome.available[..i]
        invariant buffer[n..] == old(buffer[n..])
      {
        buffer[i] := outcome.available[i];
        i := i + 1;
      }
    }
  }

  /** `strlen`: the index of the first NUL in a NUL-terminated array. */
  method StrLen(buffer: array<char>) returns (n: nat)
    requires '\0' in buffer[..]
    ensures n < buffer.Length && buffer[n] == '\0' && '\0' !in buffer[..n]
  {
    n := 0;
    while buffer[n] != '\0'
      invariant n < buffer.Length && '\0' in buffer[n..] && '\0' !in buffer[..n]
      decreases buffer.Length - n
    {
      assert buffer[n..] == [buffer[n]] + buffer[n + 1..];
      n := n + 1;
    }
  }

  /** `read_request`: one `recv` of at most 4095 bytes into a 4096-byte
      buffer, NUL-terminated and turned into a string. */
  method ReadRequest(outcome: RecvOutcome) returns (request: string)
    ensures request == RequestData(outcome)
  {
    var buffer := new char[BufferSize];
    request := "";
    var bytesReceived := Recv(outcome, buffer, BufferSize - 1);
    if bytesReceived > 0 {
      buffer[bytesReceived] := '\0';
      assert buffer[..bytesReceived] == outcome.available[..bytesReceived];
      assert buffer[..][bytesReceived] == '\0';
      var length := StrLen(buffer);
      request := buffer[..length];
      var received := outcome.available[..bytesReceived];
      assert request == received[..length] by {
        assert buffer[..length] == buffer[..bytesReceived][..length];
      }
      CStringUnique(received, length);
    }
  }

  // ---------------------------------------------------------------------
  // Connections and the server object

  /** One accepted connection: what `recv` delivers on it, and every response
      handed to `send` on it, in order. */
  class ClientSocket {
    const incoming: RecvOutcome
    var sent: seq<string>

    constructor (incoming: RecvOutcome)
      ensures this.incoming == incoming && sent == []
    {
      this.incoming := incoming;
      sent := [];
    }
  }

  /** `send_response`: hands the whole response to `send` on the connection. */
  method SendResponse(client: ClientSocket, response: string)
    modifies client
    ensures client.sent == old(client.sent) + [response]
  {
    client.sent := client.sent + [response];
  }

  class WebServer {
    /** The listening descriptor; -1 when there is none. */
    var serverFd: int
    const port: int
    const documentRoot: string
    const fileHandler: FileLookup
    /** Every descriptor passed to `close` by this object, in order. */
    ghost var closedFds: seq<int>

    /** The constructor: no listening descriptor yet. */
    constructor (port: int, documentRoot: string, fileHandler: FileLookup)
      ensures serverFd == -1 && closedFds == []
      ensures this.port == port && this.documentRoot == documentRoot && this.fileHandler == fileHandler
    {
      serverFd := -1;
      this.port := port;
      this.documentRoot := documentRoot;
      this.fileHandler := fileHandler;
      closedFds := [];
    }

    /** `cleanup`: closes the listening descriptor if there is one and forgets it. */
    method Cleanup()
      modifies this
      ensures serverFd == -1
      ensures closedFds == old(closedFds) + (if old(serverFd) != -1 then [old(serverFd)] else [])
    {
      if serverFd != -1 {
        closedFds := closedFds + [serverFd];
        serverFd := -1;
      }
    }

    /** The destructor, as far as the descriptor goes: it runs `cleanup`. */
    method Destroy()
      modifies this
      ensures serverFd == -1
      ensures closedFds == old(closedFds) + (if old(serverFd) != -1 then [old(serverFd)] else [])
    {
      Cleanup();
    }

    /** `handle_client`: reads one request from the connection and sends what
      `ClientResponses` prescribes for it. */
    method HandleClient(client: ClientSocket, parse: string -> Option<Request>)
      modifies client
      ensures client.sent == old(client.sent) + ClientResponses(RequestData(client.incoming), parse, fileHandler)
    {
      var requestData := ReadRequest(client.incoming);
      if requestData == "" {
        return;
      }
      var request := parse(requestData);
      if request.None? {
        var response := BuildHttpResponse(400, "Bad Request", "text/html", BadRequestBody);
        SendResponse(client, response);
        return;
      }
      var response;
      if request.value.httpMethod == "GET" {
        response := HandleGetRequest(fileHandler, request.value);
      } else {
        response := BuildHttpResponse(405, "Method Not Allowed", "text/html", MethodNotAllowedBody);
      }
      SendResponse(client, response);
    }
  }

  /** An explicit `cleanup` followed by the destructor closes the listening
      descriptor at most once and leaves none behind. */
  method CleanupThenDestroy(server: WebServer)
    modifies server
    ensures server.serverFd == -1
    ensures server.closedFds == old(server.closedFds) + (if old(server.serverFd) != -1 then [old(server.serverFd)] else [])
  {
    server.Cleanup();
    server.Destroy();
  }
}
