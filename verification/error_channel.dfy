/** The in-band error channel. The server marks a response with the `linkerd-error` header and writes
    one framed `ApiError` as its body; the client looks for the header before anything else. */
module ErrorChannel {
  import opened Results
  import opened ByteOrder
  import opened Io
  import opened NetHttp
  import opened FrameCodec
  import opened ProtoOverHttp

  /** The error message shape carried in an error body. */
  datatype ApiError = ApiError(error: string)

  /** The code whose status text goes into the marker header: an `httpError`'s own code, otherwise the
      default 500. */
  function StatusCodeFor(errorObtained: Error): int
  {
    if errorObtained.HttpError? then errorObtained.code else DefaultHttpErrorStatusCode
  }

  /** The message put into the error body: the gRPC status message when the error obtained carries one,
      otherwise the text of the error to return (an `httpError` is unwrapped first). */
  function MessageToReturn(errorObtained: Error): string
  {
    var errorToReturn := if errorObtained.HttpError? then errorObtained.wrapped else errorObtained;
    if errorObtained.RpcStatus? then errorObtained.message else Text(errorToReturn)
  }

  /** `WriteErrorToHTTPResponse`: sets the marker header to the status text of the chosen code, then
      writes the framed `ApiError`; when that write fails, the marker header is overwritten with the
      failure's text and the body keeps whatever part of the frame was taken. No status code is sent. */
  function WriteErrorToHttpResponse(w: ResponseWriter, s: Serializer<ApiError>, errorObtained: Error): (r: ResponseWriter)
    ensures r.flushable == w.flushable
    ensures Get(r.header, ContentTypeHeader) == ProtobufContentType
    ensures r.header.Keys == w.header.Keys + {ErrorHeader, ContentTypeHeader}
    ensures forall k :: k in w.header && k != ErrorHeader && k != ContentTypeHeader ==> r.header[k] == w.header[k]
    ensures var marshalled := s.marshal(ApiError(MessageToReturn(errorObtained)));
            && (marshalled.Failure? ==> Get(r.header, ErrorHeader) == marshalled.error && r.body == w.body)
            && (marshalled.Success? ==>
                  var frame := SerializeAsPayload(marshalled.value);
                  && w.body <= r.body
                  && (Accepts(w, |frame|) ==> r.body == w.body + frame)
                  && (!Accepts(w, |frame|) ==> Get(r.header, ErrorHeader) == w.capacity.failure)
                  && (!Accepts(w, |frame|) && w.capacity.Limited? ==> r.body < w.body + frame)
                  && (w.capacity.FailsAfterTaking? ==> r.body == w.body + frame))
    ensures s.marshal(ApiError(MessageToReturn(errorObtained))).Success? ==>
              var frame := SerializeAsPayload(s.marshal(ApiError(MessageToReturn(errorObtained))).value);
              Accepts(w, |frame|) ==>
                && (errorObtained.HttpError? ==> Get(r.header, ErrorHeader) == StatusText(errorObtained.code))
                && (!errorObtained.HttpError? ==> Get(r.header, ErrorHeader) == "Internal Server Error")
  {
    var w1 := w.(header := w.header[ErrorHeader := StatusText(StatusCodeFor(errorObtained))]);
    var written := WriteProtoToHttpResponse(w1, s, ApiError(MessageToReturn(errorObtained)));
    match written.err
    case Some(err) => written.w.(header := written.w.header[ErrorHeader := Text(err)])
    case None => written.w
  }

  /** `CheckIfResponseHasError`: a non-empty marker header means the body holds one framed `ApiError`,
      whose message becomes the error (or, when it cannot be read, an error naming the header value and
      the cause); without the header, any status other than 200 is an error naming the status line. */
  function CheckIfResponseHasError(s: Serializer<ApiError>, rsp: Response): (r: Option<Error>)
    ensures r.None? <==> Get(rsp.header, ErrorHeader) == "" && rsp.statusCode == StatusOK
    ensures Get(rsp.header, ErrorHeader) == "" && rsp.statusCode != StatusOK ==>
              r == Some(UnexpectedResponse(rsp.status))
    ensures Get(rsp.header, ErrorHeader) != "" ==>
              match FromByteStreamToProtocolBuffers(s, rsp.body)
              case Success(read) => r == Some(ApiErrorReported(read.message.error))
              case Failure(cause) => r == Some(ErrorBodyUnreadable(Get(rsp.header, ErrorHeader), cause))
  {
    var errorMsg := Get(rsp.header, ErrorHeader);
    if errorMsg != "" then
      match FromByteStreamToProtocolBuffers(s, rsp.body)
      case Failure(err) => Some(ErrorBodyUnreadable(errorMsg, err))
      case Success(read) => Some(ApiErrorReported(read.message.error))
    else if rsp.statusCode != StatusOK then
      Some(UnexpectedResponse(rsp.status))
    else
      None
  }

  /** The error body for `errorObtained` can be written whole: it marshals, fits a frame, and the
      writer takes the frame. */
  ghost predicate ErrorBodyFits(w: ResponseWriter, s: Serializer<ApiError>, errorObtained: Error)
  {
    var marshalled := s.marshal(ApiError(MessageToReturn(errorObtained)));
    && marshalled.Success?
    && |marshalled.value| < Uint32Modulus
    && Accepts(w, NumBytesForMessageLength + |marshalled.value|)
  }

  /** Writing an error into a fresh response and then checking that response yields the message that
      was written, whatever status the response carries: the gRPC status message for a gRPC error, the
      wrapped error's text for an `httpError`, and the error's own text otherwise. The code's status
      text must be non-empty, since the marker header's value is what the reader tests. */
  lemma WrittenErrorIsReported(w: ResponseWriter, s: Serializer<ApiError>, errorObtained: Error, statusCode: int)
    requires w.body == [] && Inverse(s) && ErrorBodyFits(w, s, errorObtained)
    requires StatusText(StatusCodeFor(errorObtained)) != ""
    ensures var reported := CheckIfResponseHasError(s, Deliver(WriteErrorToHttpResponse(w, s, errorObtained), statusCode));
            && reported.Some? && reported.value.ApiErrorReported?
            && Text(reported.value) == match errorObtained
                                       case RpcStatus(_, message) => message
                                       case HttpError(_, wrapped) => Text(wrapped)
                                       case _ => Text(errorObtained)
  {
    var msg := ApiError(MessageToReturn(errorObtained));
    var written := WriteErrorToHttpResponse(w, s, errorObtained);
    var frame := SerializeAsPayload(s.marshal(msg).value);
    assert written.body == frame;
    var rsp := Deliver(written, statusCode);
    assert rsp.body == Stream(frame + [], AtEof);
    FramedMessageRoundTrip(s, msg, Stream([], AtEof));
  }

  /** The marker header is the reader's only signal: an `httpError` whose code has no status text gets an
      empty marker header, and since no status code is sent either, the response reads as a success. */
  lemma UnnamedStatusCodeHidesError(w: ResponseWriter, s: Serializer<ApiError>, errorObtained: Error)
    requires ErrorBodyFits(w, s, errorObtained)
    requires StatusText(StatusCodeFor(errorObtained)) == ""
    ensures errorObtained.HttpError?
    ensures CheckIfResponseHasError(s, Deliver(WriteErrorToHttpResponse(w, s, errorObtained), StatusOK)).None?
  {
  }

  /** The degraded mode: when the error body cannot be written whole into a fresh response, because
      marshalling the `ApiError` failed (nothing is written) or the write failed part-way, the marker
      header carries that failure's text; when the text is non-empty, the reader reports that the body
      holds no readable error and names the text. */
  lemma FailedErrorWriteIsUnreadable(w: ResponseWriter, s: Serializer<ApiError>, errorObtained: Error, statusCode: int)
    requires w.body == []
    requires var marshalled := s.marshal(ApiError(MessageToReturn(errorObtained)));
             && (marshalled.Failure? ==> marshalled.error != "")
             && (marshalled.Success? ==>
                   && |marshalled.value| < Uint32Modulus
                   && w.capacity.Limited?
                   && !Accepts(w, NumBytesForMessageLength + |marshalled.value|)
                   && w.capacity.failure != "")
    ensures var marshalled := s.marshal(ApiError(MessageToReturn(errorObtained)));
            var reported := CheckIfResponseHasError(s, Deliver(WriteErrorToHttpResponse(w, s, errorObtained), statusCode));
            && reported.Some? && reported.value.ErrorBodyUnreadable?
            && reported.value.header == (if marshalled.Failure? then marshalled.error else w.capacity.failure)
            && reported.value.cause.StreamHeaderUnreadable?
  {
    var msg := ApiError(MessageToReturn(errorObtained));
    var written := WriteErrorToHttpResponse(w, s, errorObtained);
    if s.marshal(msg).Success? {
      TruncatedFrameIsUnreadable(s.marshal(msg).value, written.body, AtEof);
    }
  }

  /** The other degraded mode: a writer that takes the whole error frame but still reports a failure
      leaves a complete body, so the reader, seeing the failure text in the marker header, still gets
      the message back. */
  lemma LateWriteFailureIsStillReported(w: ResponseWriter, s: Serializer<ApiError>, errorObtained: Error, statusCode: int)
    requires w.body == [] && w.capacity.FailsAfterTaking? && w.capacity.failure != "" && Inverse(s)
    requires var marshalled := s.marshal(ApiError(MessageToReturn(errorObtained)));
             marshalled.Success? && |marshalled.value| < Uint32Modulus
    ensures var reported := CheckIfResponseHasError(s, Deliver(WriteErrorToHttpResponse(w, s, errorObtained), statusCode));
            && reported == Some(ApiErrorReported(MessageToReturn(errorObtained)))
            && Get(WriteErrorToHttpResponse(w, s, errorObtained).header, ErrorHeader) == w.capacity.failure
  {
    var msg := ApiError(MessageToReturn(errorObtained));
    var written := WriteErrorToHttpResponse(w, s, errorObtained);
    var frame := SerializeAsPayload(s.marshal(msg).value);
    assert written.body == frame;
    assert Deliver(written, statusCode).body == Stream(frame + [], AtEof);
    FramedMessageRoundTrip(s, msg, Stream([], AtEof));
  }
}
