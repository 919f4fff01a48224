# proto-over-HTTP framing and error channel, modelled in Dafny

This project models linkerd2's `pkg/proto/proto_over_http.go`. That file carries protobuf messages over
HTTP. It has four parts:

- **Frame codec.** A response body is a sequence of frames. Each frame is a 4-byte little-endian
  `uint32` length followed by exactly that many payload bytes.
- **Request reader.** A request body is one unframed serialized message.
- **Response and streaming writers.** They set headers and write frames. The streaming writer requires
  a flushable sink.
- **Error channel.** On the write side, the server marks the response with the `linkerd-error` header
  and writes one framed `ApiError{error}` as the body. On the read side, the client checks that header
  before anything else.

Modules, leaves first:

- `Results`: `Option` and `Result`, standing in for Go's `(value, error)` returns.
- `ByteOrder`: bytes, `uint32`, `binary.LittleEndian.PutUint32` and `Uint32`. It proves that these two
  are mutually inverse against a reference reading of little-endian numbers.
- `Strconv`: decimal rendering of integers for error texts and status lines.
- `Io`: a reader is a `Stream`, meaning the bytes not yet consumed plus how the stream ends (a clean
  EOF or a failure). It models `io.ReadFull` and `ioutil.ReadAll`, including their `EOF` and
  `ErrUnexpectedEOF` rules.
- `NetHttp`: header maps with `Get`, and a `ResponseWriter` value. The writer holds its header map,
  its body so far, a flag saying whether it implements `http.Flusher`, and a capacity. The capacity
  says how `Write` behaves: it never fails; or it takes a set number of further bytes and then fails;
  or it takes all the data and still reports a failure. Each failing case carries the failure text. The module
  also has the `StatusText` table and the `Response` a client receives.
- `FrameCodec`: `SerializeAsPayload` and `deserializePayloadFromReader`.
- `ProtoOverHttp`: the constants, the error values, and an abstract serializer. It also has
  `HttpRequestToProto`, `WriteProtoToHTTPResponse`, `NewStreamingWriter` and
  `FromByteStreamToProtocolBuffers`.
- `ErrorChannel`: `WriteErrorToHTTPResponse` and `CheckIfResponseHasError`, with the theorem that
  connects them.

Error values are a closed datatype. The kinds are: `httpError{code, wrapped}`, a gRPC status error (the
only kind `status.FromError` recognises), a collaborator's error known only by its text, and each
error this file creates itself. `Text` gives each kind's `Error()` string.

The protobuf serializer is a pair of total, fallible functions. The predicate `Inverse` says that
unmarshalling undoes every successful marshalling. Only the round-trip theorems assume it.

Two behaviours of the code are worth stating, because the model follows the code here:

- `WriteErrorToHTTPResponse` never calls `WriteHeader`. The status code it chooses reaches the client
  only as the text of the `linkerd-error` header. The status line is whatever the handler sends (200
  when nothing else chose one). So `NetHttp.Deliver` takes the status code as a parameter, and the
  error round trip is proved for every status.
- The reader treats an empty `linkerd-error` value as "no error". `http.StatusText` is empty for a code
  outside its table, so an `httpError` with such a code produces a response that reads as a success.
  `ErrorChannel.UnnamedStatusCodeHidesError` proves this. `httpError` is unexported, and this file only
  builds it with code 400, so no caller here reaches that case.

## Model

| member | source | states |
|---|---|---|
| `ByteOrder.PutUint32Value` | pkg/proto/proto_over_http.go:112 | the four bytes written for the length prefix denote the length least significant byte first |
| `ByteOrder.Uint32Value` | pkg/proto/proto_over_http.go:123 | reading the prefix back computes the little-endian value of its four bytes |
| `ByteOrder.Uint32OfPutUint32` | pkg/proto/proto_over_http.go:109-123 | a length prefix written at line 112 reads back at line 123 as the same `uint32` |
| `ByteOrder.PutUint32OfUint32` | pkg/proto/proto_over_http.go:112-123 | conversely, every 4-byte prefix is the encoding of the value read from it, so prefix and length determine each other |
| `FrameCodec.SerializeAsPayload` | pkg/proto/proto_over_http.go:108-115 | the frame is 4 bytes longer than the payload, declares the payload length reduced to `uint32`, and ends with the payload verbatim; an empty payload gives a 4-byte frame |
| `FrameCodec.DeserializePayloadFromReader` | pkg/proto/proto_over_http.go:117-132 | decoding succeeds exactly when 4 prefix bytes and then at least the declared number of bytes are available; it returns a payload of exactly the declared length and leaves everything after the frame unread; fewer than 4 bytes is a length error, a short payload is a payload error recording the declared length, and a broken reader's failure is the cause |
| `FrameCodec.RoundTrip` | pkg/proto/proto_over_http.go:108-132 | decoding a frame followed by anything returns the payload and leaves exactly what followed, so concatenated frames decode in order |
| `FrameCodec.OversizedPayloadIsCutShort` | pkg/proto/proto_over_http.go:109-126 | because of the `uint32` conversion, a payload of 2^32 bytes or more decodes as its first `len mod 2^32` bytes, and its remaining bytes are left on the stream |
| `FrameCodec.TruncatedFrameIsUnreadable` | pkg/proto/proto_over_http.go:117-129 | any proper prefix of a frame fails to decode, however the stream ends, so decoding never returns a payload shorter than declared |
| `FrameCodec.ExampleFrame` | pkg/proto/proto_over_http.go:108-115 | the payload `41 42 43 44 45` frames as `05 00 00 00 41 42 43 44 45` |
| `Io.ReadFull` | pkg/proto/proto_over_http.go:119-126 | a read of n bytes succeeds exactly when n bytes are available, consuming exactly them; otherwise the error is EOF (nothing available), unexpected EOF (some available), or the reader's own failure |
| `Io.ReadAll` | pkg/proto/proto_over_http.go:41 | reading a whole body succeeds exactly when the stream ends cleanly, and returns all its bytes |
| `NetHttp.Write` | pkg/proto/proto_over_http.go:93 | taking only part of the data always comes with a failure, and a write may also take everything and still fail; either way, the body grows by a prefix of the data, and headers are untouched |
| `ProtoOverHttp.HttpRequestToProto` | pkg/proto/proto_over_http.go:40-58 | the whole unframed body is unmarshalled; success exactly when the body ends cleanly and unmarshals; every failure is an `httpError` with code 400 wrapping the read or unmarshal failure |
| `ProtoOverHttp.RequestRoundTrip` | pkg/proto/proto_over_http.go:40-58 | a request body holding one marshalled message, with no length prefix, is read back as that message |
| `ProtoOverHttp.WriteProtoToHttpResponse` | pkg/proto/proto_over_http.go:85-95 | `Content-Type` is always set to `application/octet-stream`; a marshalling failure is returned unchanged with nothing written; otherwise exactly the frame of the marshalled bytes is appended, or, when the write fails, a prefix of it, with the write failure returned |
| `ProtoOverHttp.NewStreamingWriter` | pkg/proto/proto_over_http.go:97-106 | a non-flushable writer is refused with the streaming error and left unchanged; a flushable one gains exactly `Connection: keep-alive` and `Transfer-Encoding: chunked`, and its body, other headers and capacity stay the same |
| `ProtoOverHttp.WriteProtosAppendsFrames` | pkg/proto/proto_over_http.go:85-95 | writing messages one after another to an unfailing writer appends their frames in order and reports no error |
| `ProtoOverHttp.FromByteStreamToProtocolBuffers` | pkg/proto/proto_over_http.go:134-146 | a message is read exactly when one frame decodes and its payload unmarshals, and the stream is left after that frame; a frame failure and an unmarshal failure are distinct errors, and the latter records the payload size |
| `ProtoOverHttp.FramedMessageRoundTrip` | pkg/proto/proto_over_http.go:134-146 | a framed marshalled message followed by anything is read back as the same message, leaving exactly what followed |
| `ProtoOverHttp.FramesReadInOrder` | pkg/proto/proto_over_http.go:117-146 | reading n messages from n concatenated frames returns them in order and leaves what followed |
| `ProtoOverHttp.StreamedMessagesArriveInOrder` | pkg/proto/proto_over_http.go:85-106 | through the streaming writer, messages written in sequence to a fresh flushable response are read back by the client in the same order, with nothing left over |
| `ErrorChannel.WriteErrorToHttpResponse` | pkg/proto/proto_over_http.go:60-83 | the marker header holds the status text of the `httpError`'s code, or of 500 for any other error; the body is the framed `ApiError`; when marshalling or the write fails, the marker header holds that failure's text; the body then keeps only a proper prefix of the frame after a short write, or the whole frame when the write took everything and still failed; `Content-Type` is set and other headers are kept |
| `ErrorChannel.CheckIfResponseHasError` | pkg/proto/proto_over_http.go:148-167 | no error exactly when the marker header is empty and the status is 200; with the header, the error is the framed `ApiError`'s message, or an error naming the header value and the read failure; without it, a non-200 status gives an error naming the status line |
| `ErrorChannel.WrittenErrorIsReported` | pkg/proto/proto_over_http.go:60-167 | writing an error into a fresh response and checking that response returns exactly the message written, for any status: the gRPC status message for a gRPC error, the wrapped error's text for an `httpError`, and the error's own text otherwise |
| `ErrorChannel.UnnamedStatusCodeHidesError` | pkg/proto/proto_over_http.go:61-69 | an error whose code has no status text is necessarily an `httpError`, and once written it reads back as a success on a 200 response |
| `ErrorChannel.FailedErrorWriteIsUnreadable` | pkg/proto/proto_over_http.go:78-89 | when the error body cannot be written whole into a fresh response, because marshalling the `ApiError` failed or a short write failed part-way, the reader reports an unreadable error body that names that failure's text (when non-empty) |
| `ErrorChannel.LateWriteFailureIsStillReported` | pkg/proto/proto_over_http.go:78-93 | when the write takes the whole error frame but still reports a failure, the marker header holds the failure text and the reader still gets back the message that was written |

Helpers without a row: `Strconv.Itoa` and `ProtoOverHttp.Text` render error texts. `NetHttp.StatusText`,
`NetHttp.Get` and `NetHttp.Deliver` model `net/http`. `ErrorChannel.StatusCodeFor` (lines 61-67) and
`ErrorChannel.MessageToReturn` (lines 62-74) are the two choices whose results the error-channel
contracts state. `ProtoOverHttp.WriteProtos` and `ProtoOverHttp.ReadProtos` are a producer and a
consumer that call the writer and reader repeatedly.

## Left out

- Real HTTP machinery is not modelled: connections, chunked encoding, the `Flush` call itself, and
  the moment `net/http` sends the headers. The client is taken to see the final header map. In
  `net/http` the headers are sent at the first `Write`, so the overwrite at line 81 after a failed
  write may never reach the client.
- Header names are compared as written. `net/http` canonicalises them, but it does so on both `Set`
  and `Get`, so the lookups in this file are unaffected. Multi-valued headers are out of scope
  because the file only uses `Set` and `Get`.
- The protobuf wire format is left out. The serializer is an abstract pair of fallible functions.
- `status.FromError` is reduced to one error kind that carries a gRPC code name and a message. The
  text of an rpc error uses that code name as given.
- `NetHttp.StatusText` names the same codes as Go's table, with the classic reason phrases; later Go
  releases renamed a few phrases (413, 414, 416, 422), which only changes the header's diagnostic text.
- `bufio` buffering is left out. A reader is the sequence of bytes not yet consumed.
- The logging at line 80 is left out.
- A nil error, or an `httpError` with a nil wrapped error, makes line 71 panic. The error datatype
  has no nil value.
- Line 123 converts the length to `int`, and line 125 allocates up to 4 GiB. Both assume a 64-bit
  platform and enough memory.
- `ErrorChannel.WrittenErrorIsReported` requires the code's status text to be non-empty. Without that
  condition the promise does not hold, as `ErrorChannel.UnnamedStatusCodeHidesError` shows.
