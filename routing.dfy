/**
 * `MJPEGServer.serve`: the response descriptor chosen for a request URI.
 * Sockets, chunked transfer and the response objects themselves belong to
 * the HTTP library and are not part of this model.
 */
module Routing {
  import opened Wrappers
  import opened Bytes
  import MjpegChunk

  datatype Status = Ok | NotFound {
    function Code(): (c: int)
      ensures c == 200 <==> this == Ok
      ensures c == 404 <==> this == NotFound
    {
      match this
      case Ok => 200
      case NotFound => 404
    }
  }

  /**
   * A fixed-length body with its text, or a chunked body fed by a fresh
   * `MJPEGInputStream` over the latest-frame slot.
   */
  datatype Body = FixedLength(text: string) | ChunkedFrameStream

  datatype Header = Header(name: string, value: string)

  /** What `serve` returns: status, MIME type, body and the headers it adds. */
  datatype Response = Response(status: Status, mimeType: string, body: Body, headers: seq<Header>)

  /** An HTTP session; its URI may be null. */
  datatype Session = Session(uri: Option<string>)

  const RootPath: string := "/"
  const StreamPath: string := "/stream"

  /**
   * Stand-in for the viewer page, whose literal HTML is not modelled: it
   * keeps the one element that matters, the image fed by `/stream`.
   */
  const ViewerPage: string := "<img id=\"camera\" src=\"/stream\" />"

  const MultipartPrefix: string := "multipart/x-mixed-replace; boundary="

  /** The content type of `/stream`, carrying the server's boundary. */
  const StreamMimeType: string := MultipartPrefix + MjpegChunk.Boundary

  const NoCacheHeaders: seq<Header> :=
    [Header("Connection", "close"), Header("Cache-Control", "no-cache"), Header("Pragma", "no-cache")]

  /** `session?.uri ?: "/"`: the URI, with a missing session or URI read as the root. */
  function RequestUri(session: Option<Session>): (uri: string)
    ensures session.None? ==> uri == RootPath
    ensures session.Some? && session.value.uri.None? ==> uri == RootPath
    ensures session.Some? && session.value.uri.Some? ==> uri == session.value.uri.value
  {
    match session
    case None => RootPath
    case Some(s) =>
      match s.uri
      case None => RootPath
      case Some(u) => u
  }

  /** `serve`: the `when` on the URI. */
  function Serve(session: Option<Session>): (r: Response)
    ensures r.status == Ok <==> RequestUri(session) == RootPath || RequestUri(session) == StreamPath
    ensures r.body == ChunkedFrameStream <==> RequestUri(session) == StreamPath
    ensures r.headers != [] <==> RequestUri(session) == StreamPath
    ensures RequestUri(session) == RootPath ==> r.mimeType == "text/html" && r.body == FixedLength(ViewerPage)
    ensures RequestUri(session) == StreamPath ==> r.mimeType == StreamMimeType && r.headers == NoCacheHeaders
    ensures r.status == NotFound ==>
      r.mimeType == "text/plain" && r.body == FixedLength("404 Not Found") && r.headers == []
  {
    var uri := RequestUri(session);
    if uri == RootPath then
      Response(Ok, "text/html", FixedLength(ViewerPage), [])
    else if uri == StreamPath then
      Response(Ok, StreamMimeType, ChunkedFrameStream, NoCacheHeaders)
    else
      Response(NotFound, "text/plain", FixedLength("404 Not Found"), [])
  }

  /** A null session, or a session with a null URI, is served exactly as `/`. */
  lemma MissingUriServedAsRoot(session: Option<Session>)
    requires session.None? || session.value.uri.None?
    ensures Serve(session) == Serve(Some(Session(Some(RootPath))))
    ensures Serve(session).status.Code() == 200 && Serve(session).mimeType == "text/html"
  {
  }

  /** The boundary parameter of a `multipart/x-mixed-replace` content type, if it has one. */
  function BoundaryParameter(mimeType: string): (b: Option<string>)
    ensures b.Some? ==> mimeType == MultipartPrefix + b.value
  {
    if |mimeType| >= |MultipartPrefix| && mimeType[..|MultipartPrefix|] == MultipartPrefix
    then Some(mimeType[|MultipartPrefix|..])
    else None
  }

  /**
   * The boundary the `/stream` response announces is the one every chunk of
   * its body opens with: each chunk starts with "--", the announced boundary
   * and CRLF, whatever the frame.
   */
  lemma StreamBoundaryMatchesChunks(session: Option<Session>, jpeg: seq<Byte>)
    requires RequestUri(session) == StreamPath
    ensures BoundaryParameter(Serve(session).mimeType) == Some(MjpegChunk.Boundary)
    ensures MjpegChunk.Delimiter(BoundaryParameter(Serve(session).mimeType).value) + MjpegChunk.CRLF
         == MjpegChunk.DelimiterLine
    ensures IsAscii(MjpegChunk.DelimiterLine)
    ensures MjpegChunk.Chunk(jpeg)[..|MjpegChunk.DelimiterLine|] == Ascii(MjpegChunk.DelimiterLine)
  {
    var mime := Serve(session).mimeType;
    assert mime[..|MultipartPrefix|] == MultipartPrefix;
    assert mime[|MultipartPrefix|..] == MjpegChunk.Boundary;
    MjpegChunk.ChunkStartsWithDelimiter(jpeg);
  }

  /** `text` occurs in `page` starting at index `i`. */
  predicate OccursAt(page: string, text: string, i: nat) {
    i + |text| <= |page| && page[i..i + |text|] == text
  }

  /** The viewer page's image source is the stream path. */
  lemma ViewerPageShowsStream()
    ensures exists i: nat :: OccursAt(ViewerPage, StreamPath, i)
  {
    assert OccursAt(ViewerPage, StreamPath, 22);
  }
}
