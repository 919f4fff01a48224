/** The length-prefixed frame: a 4-byte little-endian `uint32` length followed by exactly that many
    payload bytes. Frames are self-delimiting, so several can follow one another on one stream. */
module FrameCodec {
  import opened Results
  import opened ByteOrder
  import opened Io

  /** Width of the length prefix, `numBytesForMessageLength`. */
  const NumBytesForMessageLength: nat := 4

  /** The length a frame at the head of `data` declares. */
  ghost function DeclaredLength(data: seq<byte>): nat
    requires |data| >= NumBytesForMessageLength
  {
    LittleEndian(data[..NumBytesForMessageLength])
  }

  /** `SerializeAsPayload`: the prefix holds the payload length converted to `uint32` (so reduced modulo
      2^32), followed by the payload verbatim. */
  function SerializeAsPayload(payload: seq<byte>): (frame: seq<byte>)
    ensures |frame| == NumBytesForMessageLength + |payload|
    ensures DeclaredLength(frame) == |payload| % Uint32Modulus
    ensures frame[NumBytesForMessageLength..] == payload
  {
    var lengthOfThePayload := (|payload| % Uint32Modulus) as uint32;
    PutUint32Value(lengthOfThePayload);
    var frame := PutUint32(lengthOfThePayload) + payload;
    assert frame[..NumBytesForMessageLength] == PutUint32(lengthOfThePayload);
    frame
  }

  /** Why a frame could not be read: the prefix was cut short, or the payload was (`declared` is the
      length the prefix announced). */
  datatype FrameError =
    | LengthUnreadable(cause: ReadError)
    | PayloadUnreadable(declared: nat, cause: ReadError)

  function FrameErrorText(e: FrameError): string
  {
    match e
    case LengthUnreadable(cause) => "error while reading message length: " + ReadErrorText(cause)
    case PayloadUnreadable(_, cause) => "error while reading bytes from message: " + ReadErrorText(cause)
  }

  /** A decoded payload and the stream positioned right after its frame. */
  datatype Decoded = Decoded(payload: seq<byte>, rest: Stream)

  /** `deserializePayloadFromReader`: reads exactly the prefix, then exactly the declared number of
      bytes, and nothing more. */
  function DeserializePayloadFromReader(s: Stream): (r: Result<Decoded, FrameError>)
    ensures |s.data| < NumBytesForMessageLength ==> r.Failure? && r.error.LengthUnreadable?
    ensures r.Success? <==>
              NumBytesForMessageLength <= |s.data|
              && DeclaredLength(s.data) <= |s.data| - NumBytesForMessageLength
    ensures r.Success? ==>
              && |r.value.payload| == DeclaredLength(s.data)
              && s.data == s.data[..NumBytesForMessageLength] + r.value.payload + r.value.rest.data
              && r.value.rest.end == s.end
    ensures NumBytesForMessageLength <= |s.data| && r.Failure? ==>
              r.error == PayloadUnreadable(DeclaredLength(s.data), r.error.cause)
    ensures r.Failure? && s.end.Broken? ==> r.error.cause == Failed(s.end.failure)
  {
    match ReadFull(s, NumBytesForMessageLength)
    case Failure(e) => Failure(LengthUnreadable(e))
    case Success(prefix) =>
      Uint32Value(prefix.bytes);
      var messageLength := Uint32(prefix.bytes) as nat;
      match ReadFull(prefix.rest, messageLength)
      case Failure(e) => Failure(PayloadUnreadable(messageLength, e))
      case Success(contents) => Success(Decoded(contents.bytes, contents.rest))
  }

  /** Round trip: a frame followed by anything decodes to its payload and leaves exactly what followed
      it unread, so concatenated frames decode one after another in order. */
  lemma RoundTrip(payload: seq<byte>, rest: Stream)
    requires |payload| < Uint32Modulus
    ensures DeserializePayloadFromReader(Stream(SerializeAsPayload(payload) + rest.data, rest.end))
            == Success(Decoded(payload, rest))
  {
    var frame := SerializeAsPayload(payload);
    var s := Stream(frame + rest.data, rest.end);
    assert s.data[..NumBytesForMessageLength] == frame[..NumBytesForMessageLength];
    var r := DeserializePayloadFromReader(s);
    assert s.data == frame[..NumBytesForMessageLength] + payload + rest.data;
    assert r.Success?;
    assert r.value.payload + r.value.rest.data == payload + rest.data;
    assert r.value.payload == payload;
  }

  /** A payload of 2^32 bytes or more gets a prefix that understates its length: decoding stops early and
      leaves the remaining payload bytes on the stream as if they began the next frame. */
  lemma OversizedPayloadIsCutShort(payload: seq<byte>, rest: Stream)
    requires |payload| >= Uint32Modulus
    ensures var k := |payload| % Uint32Modulus;
            DeserializePayloadFromReader(Stream(SerializeAsPayload(payload) + rest.data, rest.end))
            == Success(Decoded(payload[..k], Stream(payload[k..] + rest.data, rest.end)))
  {
    var k := |payload| % Uint32Modulus;
    var frame := SerializeAsPayload(payload);
    var s := Stream(frame + rest.data, rest.end);
    assert s.data[..NumBytesForMessageLength] == frame[..NumBytesForMessageLength];
    assert s.data == frame[..NumBytesForMessageLength] + payload[..k] + (payload[k..] + rest.data);
    var r := DeserializePayloadFromReader(s);
    assert r.value.payload + r.value.rest.data == payload[..k] + (payload[k..] + rest.data);
    assert r.value.payload == payload[..k];
  }

  /** A frame cut short anywhere cannot be read: its prefix is incomplete, or it promises more payload
      than follows. */
  lemma TruncatedFrameIsUnreadable(payload: seq<byte>, data: seq<byte>, end: End)
    requires |payload| < Uint32Modulus
    requires data < SerializeAsPayload(payload)
    ensures DeserializePayloadFromReader(Stream(data, end)).Failure?
  {
    var frame := SerializeAsPayload(payload);
    assert |data| < |frame| && data == frame[..|data|];
    if |data| >= NumBytesForMessageLength {
      assert data[..NumBytesForMessageLength] == frame[..NumBytesForMessageLength];
      assert DeclaredLength(data) == |payload|;
    }
  }

  /** The frame of a five-byte payload, byte for byte. */
  lemma ExampleFrame()
    ensures SerializeAsPayload([0x41, 0x42, 0x43, 0x44, 0x45]) == [5, 0, 0, 0, 0x41, 0x42, 0x43, 0x44, 0x45]
  {
  }
}
