/** Byte streams as Go's `io` package reads them: the data still available, then how the stream ends. */
module Io {
  import opened Results
  import opened ByteOrder

  /** What a reader reports once its remaining data is used up. */
  datatype End = AtEof | Broken(failure: string)

  /** A reader positioned at `data`: the bytes not yet consumed, followed by `end`. */
  datatype Stream = Stream(data: seq<byte>, end: End)

  /** `io.EOF`, `io.ErrUnexpectedEOF`, or the failure of a broken reader. */
  datatype ReadError = Eof | UnexpectedEof | Failed(failure: string)

  /** Bytes taken from a stream and the stream positioned after them. */
  datatype Chunk = Chunk(bytes: seq<byte>, rest: Stream)

  function ReadErrorText(e: ReadError): string
  {
    match e
    case Eof => "EOF"
    case UnexpectedEof => "unexpected EOF"
    case Failed(failure) => failure
  }

  /** `io.ReadFull`: exactly `n` bytes when that many are available, otherwise `EOF` when nothing at all
      was available before a clean end, `ErrUnexpectedEOF` when only part was, and a broken reader's own
      failure. Reading zero bytes always succeeds. */
  function ReadFull(s: Stream, n: nat): (r: Result<Chunk, ReadError>)
    ensures r.Success? <==> n <= |s.data|
    ensures r.Success? ==> |r.value.bytes| == n && r.value.bytes + r.value.rest.data == s.data
    ensures r.Success? ==> r.value.rest.end == s.end
    ensures r.Failure? && s.end.Broken? ==> r.error == Failed(s.end.failure)
    ensures r.Failure? && s.end.AtEof? ==> (r.error == Eof <==> |s.data| == 0) && !r.error.Failed?
  {
    if n <= |s.data| then
      Success(Chunk(s.data[..n], Stream(s.data[n..], s.end)))
    else
      match s.end
      case Broken(failure) => Failure(Failed(failure))
      case AtEof => if |s.data| == 0 then Failure(Eof) else Failure(UnexpectedEof)
  }

  /** `ioutil.ReadAll`: everything up to a clean end, or the failure of a broken reader. */
  function ReadAll(s: Stream): (r: Result<seq<byte>, string>)
    ensures r.Success? <==> s.end.AtEof?
    ensures r.Success? ==> r.value == s.data
    ensures r.Failure? ==> r.error == s.end.failure
  {
    match s.end
    case AtEof => Success(s.data)
    case Broken(failure) => Failure(failure)
  }
}
