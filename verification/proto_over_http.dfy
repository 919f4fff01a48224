/** Carrying serialized messages over HTTP: unframed request bodies, framed response bodies written once
    or streamed, and reading framed messages back from a byte stream. */
module ProtoOverHttp {
  import opened Results
  import opened ByteOrder
  import opened Io
  import opened NetHttp
  import opened FrameCodec
  import Strconv

  const ErrorHeader: string := "linkerd-error"
  const DefaultHttpErrorStatusCode: int := StatusInternalServerError
  const ContentTypeHeader: string := "Content-Type"
  const ProtobufContentType: string := "application/octet-stream"
  const ConnectionHeader: string := "Connection"
  const TransferEncodingHeader: string := "Transfer-Encoding"

  /** The error values that reach or leave this protocol, as a closed set of kinds. */
  datatype Error =
      /** `httpError`: a status code to report and the error behind it. */
    | HttpError(code: int, wrapped: Error)
      /** An error from a collaborator (reader, writer, serializer), known only by its text. */
    | Plain(text: string)
      /** An error carrying a gRPC status, which `status.FromError` recognises. */
    | RpcStatus(rpcCode: string, message: string)
    | StreamingUnsupported
    | StreamHeaderUnreadable(frameError: FrameError)
    | UnmarshalFailed(size: nat, unmarshalError: string)
      /** The marker header was set but the body held no readable error message. */
    | ErrorBodyUnreadable(header: string, cause: Error)
      /** The message a peer reported through the error channel. */
    | ApiErrorReported(message: string)
    | UnexpectedResponse(status: string)

  /** What `Error()` returns for each kind. */
  function Text(e: Error): string
  {
    match e
    case HttpError(code, wrapped) =>
      "HTTP error, status Code [" + Strconv.Itoa(code) + "], wrapped error is: " + Text(wrapped)
    case Plain(text) => text
    case RpcStatus(rpcCode, message) => "rpc error: code = " + rpcCode + " desc = " + message
    case StreamingUnsupported => "streaming not supported by this writer"
    case StreamHeaderUnreadable(cause) => "error reading byte stream header: " + FrameErrorText(cause)
    case UnmarshalFailed(size, cause) =>
      "error unmarshalling array of [" + Strconv.Itoa(size) + "] bytes error: " + cause
    case ErrorBodyUnreadable(header, cause) =>
      "Response has " + ErrorHeader + " header [" + header + "], but response body didn't contain protobuf error: "
      + Text(cause)
    case ApiErrorReported(message) => message
    case UnexpectedResponse(status) => "Unexpected API response: " + status
  }

  /** The protobuf serializer for messages of type `M`: both directions may fail with a text. */
  datatype Serializer<!M> = Serializer(marshal: M -> Result<seq<byte>, string>,
                                      unmarshal: seq<byte> -> Result<M, string>)

  /** Unmarshalling undoes every successful marshalling. */
  ghost predicate Inverse<M(!new)>(s: Serializer<M>)
  {
    forall m :: s.marshal(m).Success? ==> s.unmarshal(s.marshal(m).value) == Success(m)
  }

  /** Every message of `msgs` marshals, to fewer than 2^32 bytes. */
  ghost predicate AllMarshal<M>(s: Serializer<M>, msgs: seq<M>)
  {
    forall i :: 0 <= i < |msgs| ==> s.marshal(msgs[i]).Success? && |s.marshal(msgs[i]).value| < Uint32Modulus
  }

  /** `HttpRequestToProto`: the whole request body, unframed, is one serialized message; reading or
      unmarshalling it may fail, and either failure is reported as a 400 wrapping its cause. */
  function HttpRequestToProto<M>(s: Serializer<M>, body: Stream): (r: Result<M, Error>)
    ensures r.Success? <==> body.end.AtEof? && s.unmarshal(body.data).Success?
    ensures r.Success? ==> s.unmarshal(body.data) == Success(r.value)
    ensures r.Failure? ==> r.error.HttpError? && r.error.code == StatusBadRequest
    ensures body.end.Broken? ==> r == Failure(HttpError(StatusBadRequest, Plain(body.end.failure)))
    ensures body.end.AtEof? && r.Failure? ==>
              r == Failure(HttpError(StatusBadRequest, Plain(s.unmarshal(body.data).error)))
  {
    match ReadAll(body)
    case Failure(err) => Failure(HttpError(StatusBadRequest, Plain(err)))
    case Success(bytes) =>
      match s.unmarshal(bytes)
      case Failure(err) => Failure(HttpError(StatusBadRequest, Plain(err)))
      case Success(m) => Success(m)
  }

  /** A request whose body is exactly one marshalled message is read back as that message. */
  lemma RequestRoundTrip<M(!new)>(s: Serializer<M>, m: M)
    requires Inverse(s) && s.marshal(m).Success?
    ensures HttpRequestToProto(s, Stream(s.marshal(m).value, AtEof)) == Success(m)
  {
  }

  /** A writer after an operation, and the error the operation returned, if any. */
  datatype Step = Step(w: ResponseWriter, err: Option<Error>)

  /** `WriteProtoToHTTPResponse`: always sets the content type; a marshalling failure is returned as is
      and writes nothing; otherwise the frame of the marshalled bytes is written, and a write failure
      is returned as is. */
  function WriteProtoToHttpResponse<M>(w: ResponseWriter, s: Serializer<M>, msg: M): (r: Step)
    ensures r.w.header == w.header[ContentTypeHeader := ProtobufContentType]
    ensures r.w.flushable == w.flushable
    ensures s.marshal(msg).Failure? ==> r.err == Some(Plain(s.marshal(msg).error)) && r.w.body == w.body
    ensures s.marshal(msg).Success? ==>
              var frame := SerializeAsPayload(s.marshal(msg).value);
              && w.body <= r.w.body && r.w.body <= w.body + frame
              && (r.err.None? <==> Accepts(w, |frame|))
              && (r.err.None? ==> r.w.body == w.body + frame)
              && (r.err.Some? ==> r.err == Some(Plain(w.capacity.failure)))
    ensures w.capacity.Unlimited? ==> r.w.capacity == w.capacity
  {
    var w1 := w.(header := w.header[ContentTypeHeader := ProtobufContentType]);
    match s.marshal(msg)
    case Failure(err) => Step(w1, Some(Plain(err)))
    case Success(marshalled) =>
      var written := Write(w1, SerializeAsPayload(marshalled));
      match written.failure
      case Some(failure) => Step(written.w, Some(Plain(failure)))
      case None => Step(written.w, None)
  }

  /** `NewStreamingWriter`: a writer without `http.Flusher` is refused and left untouched; a flushable
      one gets exactly the keep-alive and chunked headers and is otherwise returned as it was. */
  function NewStreamingWriter(w: ResponseWriter): (r: Step)
    ensures r.err.None? <==> w.flushable
    ensures r.err.Some? ==> r.err.value == StreamingUnsupported && r.w == w
    ensures r.err.None? ==>
              && r.w.body == w.body && r.w.flushable && r.w.capacity == w.capacity
              && r.w.header.Keys == w.header.Keys + {ConnectionHeader, TransferEncodingHeader}
              && Get(r.w.header, ConnectionHeader) == "keep-alive"
              && Get(r.w.header, TransferEncodingHeader) == "chunked"
              && (forall k :: k in w.header && k != ConnectionHeader && k != TransferEncodingHeader ==>
                                r.w.header[k] == w.header[k])
  {
    if !w.flushable then
      Step(w, Some(StreamingUnsupported))
    else
      var h := w.header[ConnectionHeader := "keep-alive"][TransferEncodingHeader := "chunked"];
      Step(w.(header := h), None)
  }

  /** A producer streaming `msgs`: one `WriteProtoToHttpResponse` per message, in order, stopping at the
      first error. */
  function WriteProtos<M>(w: ResponseWriter, s: Serializer<M>, msgs: seq<M>): Step
    decreases |msgs|
  {
    if |msgs| == 0 then Step(w, None)
    else
      var first := WriteProtoToHttpResponse(w, s, msgs[0]);
      if first.err.Some? then first else WriteProtos(first.w, s, msgs[1..])
  }

  /** The frames of `msgs`, one after another. */
  ghost function Frames<M>(s: Serializer<M>, msgs: seq<M>): seq<byte>
    requires AllMarshal(s, msgs)
    decreases |msgs|
  {
    if |msgs| == 0 then [] else SerializeAsPayload(s.marshal(msgs[0]).value) + Frames(s, msgs[1..])
  }

  /** Streaming to an unlimited writer appends exactly the frames of the messages, in order. */
  lemma {:induction false} WriteProtosAppendsFrames<M>(w: ResponseWriter, s: Serializer<M>, msgs: seq<M>)
    requires w.capacity.Unlimited? && AllMarshal(s, msgs)
    ensures WriteProtos(w, s, msgs).err.None?
    ensures WriteProtos(w, s, msgs).w.body == w.body + Frames(s, msgs)
    decreases |msgs|
  {
    if |msgs| > 0 {
      var first := WriteProtoToHttpResponse(w, s, msgs[0]);
      assert AllMarshal(s, msgs[1..]) by {
        forall i | 0 <= i < |msgs[1..]|
          ensures s.marshal(msgs[1..][i]).Success? && |s.marshal(msgs[1..][i]).value| < Uint32Modulus
        {
          assert msgs[1..][i] == msgs[i + 1];
        }
      }
      WriteProtosAppendsFrames(first.w, s, msgs[1..]);
    }
  }

  /** A message read from a stream and the stream positioned after its frame. */
  datatype Read<M> = Read(message: M, rest: Stream)

  /** `FromByteStreamToProtocolBuffers`: one frame, then its payload unmarshalled. A frame that cannot
      be read and a payload that cannot be unmarshalled are distinct errors; the latter records the
      payload size. */
  function FromByteStreamToProtocolBuffers<M>(s: Serializer<M>, stream: Stream): (r: Result<Read<M>, Error>)
    ensures r.Success? <==>
              && DeserializePayloadFromReader(stream).Success?
              && s.unmarshal(DeserializePayloadFromReader(stream).value.payload).Success?
    ensures r.Success? ==>
              var frame := DeserializePayloadFromReader(stream).value;
              && s.unmarshal(frame.payload) == Success(r.value.message)
              && r.value.rest == frame.rest
    ensures DeserializePayloadFromReader(stream).Failure? ==>
              r == Failure(StreamHeaderUnreadable(DeserializePayloadFromReader(stream).error))
    ensures r.Failure? && DeserializePayloadFromReader(stream).Success? ==>
              var payload := DeserializePayloadFromReader(stream).value.payload;
              r == Failure(UnmarshalFailed(|payload|, s.unmarshal(payload).error))
  {
    match DeserializePayloadFromReader(stream)
    case Failure(err) => Failure(StreamHeaderUnreadable(err))
    case Success(frame) =>
      match s.unmarshal(frame.payload)
      case Failure(cause) => Failure(UnmarshalFailed(|frame.payload|, cause))
      case Success(m) => Success(Read(m, frame.rest))
  }

  /** A message framed and followed by anything is read back, leaving exactly what followed. */
  lemma FramedMessageRoundTrip<M(!new)>(s: Serializer<M>, m: M, rest: Stream)
    requires Inverse(s) && s.marshal(m).Success? && |s.marshal(m).value| < Uint32Modulus
    ensures FromByteStreamToProtocolBuffers(s, Stream(SerializeAsPayload(s.marshal(m).value) + rest.data, rest.end))
            == Success(Read(m, rest))
  {
    RoundTrip(s.marshal(m).value, rest);
  }

  /** A consumer reading `n` messages with `FromByteStreamToProtocolBuffers`, one after another on the
      same reader, stopping at the first error. */
  function ReadProtos<M>(s: Serializer<M>, stream: Stream, n: nat): Result<(seq<M>, Stream), Error>
    decreases n
  {
    if n == 0 then Success(([], stream))
    else
      var first :- FromByteStreamToProtocolBuffers(s, stream);
      var others :- ReadProtos(s, first.rest, n - 1);
      Success(([first.message] + others.0, others.1))
  }

  /** Concatenated frames are read back message by message, in order, leaving what followed them. */
  lemma {:induction false} FramesReadInOrder<M(!new)>(s: Serializer<M>, msgs: seq<M>, rest: Stream)
    requires Inverse(s) && AllMarshal(s, msgs)
    ensures ReadProtos(s, Stream(Frames(s, msgs) + rest.data, rest.end), |msgs|) == Success((msgs, rest))
    decreases |msgs|
  {
    var stream := Stream(Frames(s, msgs) + rest.data, rest.end);
    if |msgs| == 0 {
      assert stream == rest;
    } else {
      assert AllMarshal(s, msgs[1..]) by {
        forall i | 0 <= i < |msgs[1..]|
          ensures s.marshal(msgs[1..][i]).Success? && |s.marshal(msgs[1..][i]).value| < Uint32Modulus
        {
          assert msgs[1..][i] == msgs[i + 1];
        }
      }
      var tail := Stream(Frames(s, msgs[1..]) + rest.data, rest.end);
      var frame := SerializeAsPayload(s.marshal(msgs[0]).value);
      assert stream == Stream(frame + tail.data, tail.end);
      FramedMessageRoundTrip(s, msgs[0], tail);
      assert FromByteStreamToProtocolBuffers(s, stream) == Success(Read(msgs[0], tail));
      FramesReadInOrder(s, msgs[1..], rest);
      assert ReadProtos(s, tail, |msgs| - 1) == Success((msgs[1..], rest));
      assert [msgs[0]] + msgs[1..] == msgs;
    }
  }

  /** Streaming end to end: on a flushable, unfailing, fresh writer, messages written one after another
      through the streaming writer are read back by the client in the order they were written. */
  lemma StreamedMessagesArriveInOrder<M(!new)>(w: ResponseWriter, s: Serializer<M>, msgs: seq<M>, statusCode: int)
    requires w.flushable && w.capacity.Unlimited? && w.body == []
    requires Inverse(s) && AllMarshal(s, msgs)
    ensures var streaming := NewStreamingWriter(w);
            var written := WriteProtos(streaming.w, s, msgs);
            && streaming.err.None?
            && written.err.None?
            && ReadProtos(s, Deliver(written.w, statusCode).body, |msgs|) == Success((msgs, Stream([], AtEof)))
  {
    var streaming := NewStreamingWriter(w);
    assert streaming.w.capacity.Unlimited? && streaming.w.body == [];
    WriteProtosAppendsFrames(streaming.w, s, msgs);
    var written := WriteProtos(streaming.w, s, msgs);
    assert written.w.body == Frames(s, msgs);
    var body := Deliver(written.w, statusCode).body;
    assert body == Stream(Frames(s, msgs) + [], AtEof);
    FramesReadInOrder(s, msgs, Stream([], AtEof));
  }
}
