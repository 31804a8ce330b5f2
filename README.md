# A verified model of a minimal static-file HTTP server's request handling

This project models, in Dafny, the request-to-response logic of the
`WebServer` class of a small C++ static-file HTTP/1.1 server
(`src/server.cpp`). The server accepts one connection at a time, reads one
request with a single `recv`, answers it with at most one response (none for
an empty request), and closes the connection. The model covers four parts:

- **The response serialiser** `build_http_response` (module `HttpResponse`).
  It writes the status line of section 4 of RFC 9112, then `Content-Type`,
  then `Content-Length`, then `Connection: close`, then an empty line, then the
  body. `Content-Length` is the decimal length of the body in bytes (section
  8.6 of RFC 9110). `Connection: close` (section 9.6 of RFC 9112) is sent for
  every status. `std::to_string` is modelled in module `Decimal`, minus sign
  included.
  The serialiser's partner is `ParseHttpResponse`, a reader written
  independently of it. `ResponseRoundTrip` proves that reading a serialised
  response back recovers the status code, the status text, the content type,
  `close` and the body. `ResponseCanonical` proves the other direction: any
  message the reader accepts with `Connection: close` is byte for byte the
  serialisation of the fields it reads. The reader accepts `Content-Length`
  only when it is the canonical decimal length of the body.
- **Dispatch** `handle_client`, `handle_get_request` and `get_404_response`
  (module `Server`):
  - empty request text: nothing is sent;
  - a request that does not parse: 400;
  - any method other than the exact string `GET`: 405, whatever the path;
  - `GET` of a missing file, or of a file whose content reads back empty: 404;
  - otherwise: 200, with the file's MIME type and its content unchanged.
  The collaborators `HttpRequest::parse` and `FileHandler` are not part of
  this model. They appear as a parameter `string -> Option<Request>` and as a
  datatype `FileLookup` of three total functions of the path.
- **Reading the request** `read_request`. It is a method over a 4096-byte
  array. `recv` copies at most 4095 bytes into the array, the byte after them
  is set to NUL, and `std::string(char*)` keeps what comes before the first
  NUL. The method is proved equal to the function `RequestData`, and the
  function `CString` characterises the NUL cut.
- **The listening descriptor** `server_fd` (declared at `include/server.h:14`).
  The class `WebServer` holds it in the field `serverFd`. A ghost log,
  `closedFds`, records every descriptor passed to `close`. `Cleanup` and the
  destructor `Destroy` close the descriptor at most once and leave `-1`.

The model follows what `src/server.cpp` does:
- It is single-threaded. It has no worker pool, keep-alive, idle reaper or
  connection registry.
- It always sends `Connection: close`.
- It treats an existing file whose content reads back empty exactly like a
  missing file (404). The model keeps that behaviour; `Servable` names the
  condition under which a file is served.

Strings are Dafny `string`s. Each `char` stands for one C++ `char`, that is,
one byte, so `|s|` is `std::string::length()`.

## Model

| member | source | states |
|---|---|---|
| `Decimal.NatToDecimal` | src/server.cpp:154 | the rendering of `std::to_string` of a length is non-empty, all digits, and starts with `0` exactly when the number is 0 |
| `Decimal.IntToDecimal` | src/server.cpp:152 | the rendering of a status code starts with `-` exactly when the code is negative and contains neither a space nor a CR |
| `Decimal.NatRoundTrip` | src/server.cpp:154 | reading back the decimal rendering of a natural gives that natural |
| `Decimal.IntRoundTrip` | src/server.cpp:152 | reading back the decimal rendering of any integer, negative ones included, gives that integer |
| `Decimal.ParsedNatIsCanonical` | src/server.cpp:154 | every string the decimal reader accepts is the rendering of its value, so the rendering of a length is unique |
| `Decimal.ParsedIntIsCanonical` | src/server.cpp:152 | every signed decimal string the reader accepts is the rendering of its value |
| `HttpResponse.BuildHttpResponse` | src/server.cpp:150-160 | the response is longer than the body and ends with the body, unchanged |
| `HttpResponse.ResponseLayout` | src/server.cpp:150-159 | the response is exactly the status line, `Content-Type`, `Content-Length` holding the decimal body length, `Connection: close` and an empty line, each ended by CRLF and in that order, followed by the body; so its length is the header length plus the body length |
| `HttpResponse.ParseHeaderSection` | src/server.cpp:153-157 | whenever the header-section reader accepts, the body it gives is a suffix of its input |
| `HttpResponse.ParseConnectionAndBody` | src/server.cpp:155-157 | whenever it accepts, the body it gives is a suffix of its input and has exactly the announced `Content-Length` |
| `HttpResponse.ResponseRoundTrip` | src/server.cpp:150-160 | reading a serialised response back recovers the status code, the status text, the content type, `Connection: close` and the body, and its `Content-Length` equals the body length |
| `HttpResponse.ResponseCanonical` | src/server.cpp:150-160 | every message that reads back as some fields with `Connection: close` is exactly the response `build_http_response` builds from those fields, so the response layout is the only one the reader accepts |
| `HttpResponse.HeaderSectionRoundTrip` | src/server.cpp:153-157 | the three header lines and the body read back as the content type, `close` and the body |
| `HttpResponse.FramingRoundTrip` | src/server.cpp:154-157 | `Content-Length: <decimal length>` and `Connection: close` read back as a consistent length, `close` and the body, for every body |
| `HttpResponse.StatusCodeOfResponse` | src/server.cpp:152 | the status code a client reads from the status line is the one passed in, whatever the other fields hold |
| `HttpResponse.ExampleResponse` | src/server.cpp:150-160 | status 200, text `OK`, type `text/html` and body `hi` serialise to exactly `HTTP/1.1 200 OK\r\nContent-Type: text/html\r\nContent-Length: 2\r\nConnection: close\r\n\r\nhi` |
| `Server.Get404Response` | src/server.cpp:181-184 | the 404 response reads back as 404 `Not Found`, `text/html`, `close`, with the fixed non-empty HTML body |
| `Server.BadRequestResponse` | src/server.cpp:93-95 | the response to an unparsable request reads back as 400 `Bad Request`, `text/html`, `close`, with its fixed HTML body |
| `Server.MethodNotAllowedResponse` | src/server.cpp:109-111 | the response to a non-GET method reads back as 405 `Method Not Allowed`, `text/html`, `close`, with its fixed HTML body |
| `Server.HandleGetRequest` | src/server.cpp:162-179 | the status is 200 exactly when the file exists and its content is non-empty, and 404 exactly otherwise; a 404 is the `get_404_response` message; a 200 ends with the file content unchanged |
| `Server.GetResponseReadsBack` | src/server.cpp:162-184 | when the MIME type has no CR, the GET response reads back as 200 `OK` with that MIME type and the content as body, or as the 404 response |
| `Server.ClientResponses` | src/server.cpp:80-115 | at most one response is sent, and none exactly when the request text is empty; the response is 400 exactly when parsing fails, and then it is the fixed 400 message; it is 405 exactly when the method is not `GET`, and then it is the fixed 405 message whatever the path; a `GET` gets the GET handler's response |
| `Server.MethodIsCaseSensitive` | src/server.cpp:105 | a request whose method is `get` in lower case gets the 405 response |
| `Server.BytesReceived` | src/server.cpp:121 | `recv` into `sizeof(buffer) - 1` bytes returns -1 exactly on failure, otherwise the number of available bytes capped at the requested length |
| `Server.CString` | src/server.cpp:124 | `std::string(char*)` gives a prefix of the array that holds no NUL and stops at a NUL or at the end |
| `Server.CStringUnique` | src/server.cpp:124 | a prefix that holds no NUL and stops at a NUL or at the end is the one `std::string(char*)` gives |
| `Server.RequestData` | src/server.cpp:117-132 | the request text is at most 4095 bytes long and holds no NUL; it is empty when `recv` fails; otherwise it is a prefix of the delivered bytes, cut only at a NUL or at the 4095-byte limit |
| `Server.Recv` | src/server.cpp:121 | `recv` copies the bytes it returns to the front of the buffer and leaves the rest of the buffer unchanged |
| `Server.StrLen` | src/server.cpp:124 | the length found is the index of the first NUL of the array |
| `Server.ReadRequest` | src/server.cpp:117-132 | reading into the 4096-byte buffer and NUL-terminating it yields exactly `RequestData` of the `recv` outcome |
| `Server.SendResponse` | src/server.cpp:134-141 | the whole response is appended to what has been sent on the connection |
| `Server.WebServer.constructor` | src/server.cpp:6-10 | a new server has no listening descriptor (`-1`) and has closed nothing |
| `Server.WebServer.Cleanup` | src/server.cpp:143-148 | afterwards the descriptor is `-1`; the old descriptor was closed once if it was not `-1`, and nothing was closed otherwise |
| `Server.WebServer.Destroy` | src/server.cpp:12-15 | the destructor has the same effect on the descriptor as `cleanup` |
| `Server.WebServer.HandleClient` | src/server.cpp:80-115 | the connection receives exactly the responses `ClientResponses` prescribes for the request text `read_request` returns, and nothing else |
| `Server.CleanupThenDestroy` | src/server.cpp:143-148 | `cleanup` followed by the destructor closes the listening descriptor at most once and leaves `-1` |

## Left out

- `initialize` (src/server.cpp:17-51) is not modelled: socket creation, socket options, `bind` and `listen` are operating-system calls. So no operation of the model opens a descriptor, and `Cleanup` is stated for any value of `serverFd`.
- `start` (src/server.cpp:53-78) is not modelled: it is the endless accept loop and logging.
- `SendResponse` records the response handed to `send`. The byte count `send` returns, short writes and the error message are not modelled; the code does not retry short writes.
- `recv` is modelled by its outcome: the bytes waiting on the connection, or a failure. `recv` delivers the first `min(available, 4095)` of them. A delivery shorter than what is waiting is the same as a shorter `available`. Blocking is not modelled.
- `HttpRequest::parse` and `FileHandler` are not part of this model, so no request-line grammar, path validation or MIME table is modelled. Only the request's method and path are kept, because those are the only fields `src/server.cpp` reads.
- `HttpResponse.ResponseRoundTrip`: stated only for status texts and content types without a carriage return. With a CR, a reader could not tell where the line ends. The server passes fixed status texts, and its MIME types come from `FileHandler`.
- `Server.GetResponseReadsBack`: stated only when the MIME type has no carriage return, for the same reason. The status-code facts of `Server.HandleGetRequest` hold without that condition.
- `src/main.cpp` is not modelled: argument parsing with `std::stoi`, the signal handler and the global `server_instance` pointer. The handler's call to `cleanup` is covered by `Cleanup`'s contract.
- Console logging, the `delete file_handler` in the destructor, and the stored `port` (kept as a constant, never used by the modelled code) have no behaviour to verify.
- `Server.WebServer.constructor`: receives the `FileHandler` lookups as a parameter `fileHandler` instead of building `new FileHandler(document_root)` as src/server.cpp:9 does. `FileHandler`'s source is not part of this model, so which files are served is not tied to `documentRoot`; `documentRoot` is only stored.
- Concurrency, keep-alive, an idle timeout and a worker pool are absent from the code, so they are absent from the model.
- The 405 response carries no `Allow` header, although section 15.5.6 of RFC 9110 asks for one. The model follows the code.
