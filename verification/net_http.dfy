/** The parts of Go's `net/http` that the protocol touches: header maps, a response writer that may fail
    or be flushable, the response a client receives, and the status text table. */
module NetHttp {
  import opened Results
  import opened ByteOrder
  import opened Io
  import Strconv

  const StatusOK: int := 200
  const StatusBadRequest: int := 400
  const StatusInternalServerError: int := 500

  /** Header names map to one value each; canonicalisation of names is left out (see README). */
  type Header = map<string, string>

  /** `Header.Get`: the value of `key`, or the empty string when it is absent. */
  function Get(h: Header, key: string): string
  {
    if key in h then h[key] else ""
  }

  /** How the connection behind a writer takes body bytes: without limit; up to `room` more bytes and
      then failing with `failure`; or taking every byte but still reporting `failure` (as net/http's
      chunked writer does when the data went out but the chunk terminator did not). */
  datatype Capacity = Unlimited | Limited(room: nat, failure: string) | FailsAfterTaking(failure: string)

  /** An `http.ResponseWriter`: the headers set so far, the body written so far, whether it also
      implements `http.Flusher`, and how much more it accepts. */
  datatype ResponseWriter = ResponseWriter(header: Header, body: seq<byte>, flushable: bool, capacity: Capacity)

  /** Whether `w` accepts `n` more body bytes without failing. */
  predicate Accepts(w: ResponseWriter, n: nat)
  {
    w.capacity.Unlimited? || (w.capacity.Limited? && n <= w.capacity.room)
  }

  /** A writer after a `Write`, and the failure that `Write` returned, if any. */
  datatype Written = Written(w: ResponseWriter, failure: Option<string>)

  /** `ResponseWriter.Write`: as `io.Writer` requires, taking only part of `data` comes with a failure;
      a writer may also take all of `data` and still fail. Either way, a prefix of `data` is taken. */
  function Write(w: ResponseWriter, data: seq<byte>): (r: Written)
    ensures r.w.header == w.header && r.w.flushable == w.flushable
    ensures w.body <= r.w.body && r.w.body <= w.body + data
    ensures |r.w.body| < |w.body| + |data| ==> r.failure.Some?
    ensures r.failure.None? <==> Accepts(w, |data|)
    ensures r.failure.None? ==> r.w.body == w.body + data && (w.capacity.Unlimited? ==> r.w.capacity == w.capacity)
    ensures r.failure.Some? ==> r.failure.value == w.capacity.failure
    ensures r.failure.Some? && w.capacity.Limited? ==> |r.w.body| == |w.body| + w.capacity.room
    ensures w.capacity.FailsAfterTaking? ==> r.w.body == w.body + data
  {
    match w.capacity
    case Unlimited => Written(w.(body := w.body + data), None)
    case Limited(room, failure) =>
      if |data| <= room then
        Written(w.(body := w.body + data, capacity := Limited(room - |data|, failure)), None)
      else
        Written(w.(body := w.body + data[..room], capacity := Limited(0, failure)), Some(failure))
    case FailsAfterTaking(failure) => Written(w.(body := w.body + data), Some(failure))
  }

  /** `http.StatusText`: the reason phrase of every code Go's table names, and the empty string for
      any other code. */
  function StatusText(code: int): string
  {
    match code
    case 100 => "Continue"
    case 101 => "Switching Protocols"
    case 102 => "Processing"
    case 103 => "Early Hints"
    case 200 => "OK"
    case 201 => "Created"
    case 202 => "Accepted"
    case 203 => "Non-Authoritative Information"
    case 204 => "No Content"
    case 205 => "Reset Content"
    case 206 => "Partial Content"
    case 207 => "Multi-Status"
    case 208 => "Already Reported"
    case 226 => "IM Used"
    case 300 => "Multiple Choices"
    case 301 => "Moved Permanently"
    case 302 => "Found"
    case 303 => "See Other"
    case 304 => "Not Modified"
    case 305 => "Use Proxy"
    case 307 => "Temporary Redirect"
    case 308 => "Permanent Redirect"
    case 400 => "Bad Request"
    case 401 => "Unauthorized"
    case 402 => "Payment Required"
    case 403 => "Forbidden"
    case 404 => "Not Found"
    case 405 => "Method Not Allowed"
    case 406 => "Not Acceptable"
    case 407 => "Proxy Authentication Required"
    case 408 => "Request Timeout"
    case 409 => "Conflict"
    case 410 => "Gone"
    case 411 => "Length Required"
    case 412 => "Precondition Failed"
    case 413 => "Request Entity Too Large"
    case 414 => "Request URI Too Long"
    case 415 => "Unsupported Media Type"
    case 416 => "Requested Range Not Satisfiable"
    case 417 => "Expectation Failed"
    case 418 => "I'm a teapot"
    case 421 => "Misdirected Request"
    case 422 => "Unprocessable Entity"
    case 423 => "Locked"
    case 424 => "Failed Dependency"
    case 425 => "Too Early"
    case 426 => "Upgrade Required"
    case 428 => "Precondition Required"
    case 429 => "Too Many Requests"
    case 431 => "Request Header Fields Too Large"
    case 451 => "Unavailable For Legal Reasons"
    case 500 => "Internal Server Error"
    case 501 => "Not Implemented"
    case 502 => "Bad Gateway"
    case 503 => "Service Unavailable"
    case 504 => "Gateway Timeout"
    case 505 => "HTTP Version Not Supported"
    case 506 => "Variant Also Negotiates"
    case 507 => "Insufficient Storage"
    case 508 => "Loop Detected"
    case 510 => "Not Extended"
    case 511 => "Network Authentication Required"
    case _ => ""
  }

  /** An `http.Response` as the client sees it: status code, status line text, headers and body. */
  datatype Response = Response(statusCode: int, status: string, header: Header, body: Stream)

  /** The response a client receives for a handler that left `w` behind and sent `statusCode`
      (net/http sends 200 when the handler never chose a code). The status line falls back to
      "status code N" when the code has no text, as the server does. */
  function Deliver(w: ResponseWriter, statusCode: int): Response
  {
    var text := if StatusText(statusCode) != "" then StatusText(statusCode)
                else "status code " + Strconv.Itoa(statusCode);
    Response(statusCode, Strconv.Itoa(statusCode) + " " + text, w.header, Stream(w.body, AtEof))
  }
}
