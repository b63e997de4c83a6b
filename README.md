# IP camera MJPEG server — a Dafny model

This project models the core of an Android IP-camera app. The app shows the
camera preview and serves the most recent frame over HTTP as a Motion-JPEG
stream. The model covers:

- the HTTP routing of `MJPEGServer.serve`: `/` gives the viewer page,
  `/stream` gives the multipart MJPEG stream, anything else gives 404;
- `MJPEGInputStream`, the byte stream behind `/stream`. It builds one
  multipart chunk per sampled frame (delimiter line, `Content-Type`,
  `Content-Length`, blank line, JPEG bytes, CRLF) and hands it out one
  unsigned byte per `read()`;
- `cropToRatio`, which crops a frame to the selected aspect ratio, centred;
- `getLocalIpAddress`, which picks the first non-loopback IPv4 address;
- the activity's start/stop toggle and `onDestroy`.

Modules:

| file | module | what it holds |
|---|---|---|
| wrappers.dfy | `Wrappers` | `Option`, for Kotlin's nullable types |
| bytes.dfy | `Bytes` | signed Kotlin `Byte`, `toInt() and 0xFF`, ASCII `toByteArray()`, `Int.toString()` and its inverse |
| mjpeg_chunk.dfy | `MjpegChunk` | the boundary, the chunk layout, and a parser that reads a chunk back |
| mjpeg_stream.dfy | `MjpegStream` | the `MJPEGInputStream` class (`read`, `generateNextFrame`) and a functional step/run specification it is proved against |
| routing.dfy | `Routing` | `serve` as a function from the session to a response descriptor |
| crop.dfy | `Crop` | `cropToRatio` with exact rational ratios |
| local_address.dfy | `LocalAddress` | `getLocalIpAddress`, a nested loop proved against a recursive search |
| server_lifecycle.dfy | `ServerLifecycle` | the activity's `server` field, the toggle and `onDestroy` |

Each core file is modelled in the form it is written in:

- `MJPEGInputStream` mutates `buffer` and `pos`, so it is a class whose
  `Read` and `GenerateNextFrame` methods are tied to the pure `Step` and
  `NextBuffer` functions.
- `getLocalIpAddress` loops with an early return, so it is a method with
  loop invariants.
- `serve` and `cropToRatio` compute values, so they are functions.

Two modelling choices matter for reading the contracts:

- `Bitmap.compress` is a parameter `compress: F -> seq<Byte>` over an
  abstract frame type `F`.
- The shared `AtomicReference` slot is the value `latest: Option<F>` that
  each `read()` call sees.

When the buffer is used up and the slot is empty, `read()` returns -1
(MJPEGServer.kt:89, :94-96). A reader of an `InputStream` takes that as end
of stream, not as a request to try again. `Step` and `Read` state this case
exactly: -1 is returned if and only if the buffer is exhausted and no frame
is present.

## Model

| member | source | states |
|---|---|---|
| Bytes.Unsigned | app/src/main/java/com/fhylabs/ipcamera/MJPEGServer.kt:89 | `toInt() and 0xFF` yields a value in 0..255 that is congruent to the signed byte modulo 256, and equals it when it is non-negative |
| Bytes.AsciiAppend | app/src/main/java/com/fhylabs/ipcamera/MJPEGServer.kt:102-103 | encoding the template's pieces separately and concatenating them gives the encoding of the whole header |
| Bytes.AsciiInjective | app/src/main/java/com/fhylabs/ipcamera/MJPEGServer.kt:102-103 | two ASCII strings with equal `toByteArray()` bytes are the same string, so the encoded header determines its text |
| Bytes.Decimal | app/src/main/java/com/fhylabs/ipcamera/MJPEGServer.kt:102 | `${jpeg.size}` is a non-empty run of decimal digits with no leading zero except for 0 itself |
| Bytes.DecimalRoundTrip | app/src/main/java/com/fhylabs/ipcamera/MJPEGServer.kt:102 | reading back the written digits of the length gives the length |
| Bytes.DecimalCanonical | app/src/main/java/com/fhylabs/ipcamera/MJPEGServer.kt:102 | every canonical digit run is exactly what `Int.toString()` writes for its value, so the length field has one spelling |
| MjpegChunk.Delimiter | app/src/main/java/com/fhylabs/ipcamera/MJPEGServer.kt:14 | a part delimiter is `--` followed by the boundary |
| MjpegChunk.Chunk | app/src/main/java/com/fhylabs/ipcamera/MJPEGServer.kt:99-103 | a chunk is the header, then the JPEG bytes at offset \|header\|, then two more bytes |
| MjpegChunk.ChunkLayout | app/src/main/java/com/fhylabs/ipcamera/MJPEGServer.kt:102-103 | a chunk is the fixed prefix up to `Content-Length: `, then the length digits, CRLF CRLF, the JPEG bytes and CRLF |
| MjpegChunk.ParseChunk | app/src/main/java/com/fhylabs/ipcamera/MJPEGServer.kt:102-103 | a chunk the reader accepts declares a Content-Length equal to the number of payload bytes it carries |
| MjpegChunk.ParseChunkOfChunk | app/src/main/java/com/fhylabs/ipcamera/MJPEGServer.kt:99-103 | parsing the chunk built for any JPEG gives back that JPEG, and its declared Content-Length equals the payload size |
| MjpegChunk.ParseChunkOnlyChunks | app/src/main/java/com/fhylabs/ipcamera/MJPEGServer.kt:99-103 | any byte string the parser accepts is exactly the chunk built for the payload it returns, so chunk and parser are inverse both ways |
| MjpegChunk.ChunkStartsWithDelimiter | app/src/main/java/com/fhylabs/ipcamera/MJPEGServer.kt:102 | every chunk starts with the delimiter line `--` + boundary + CRLF, encoded as ASCII |
| MjpegStream.NextBuffer | app/src/main/java/com/fhylabs/ipcamera/MJPEGServer.kt:92-104 | the buffer is empty exactly when the slot holds no frame |
| MjpegStream.NextBufferParses | app/src/main/java/com/fhylabs/ipcamera/MJPEGServer.kt:99-103 | with a frame in the slot, the new buffer is a well-formed chunk whose payload is that frame's JPEG and whose length field matches it |
| MjpegStream.Step | app/src/main/java/com/fhylabs/ipcamera/MJPEGServer.kt:84-90 | one `read()`: the result is -1 or a byte in 0..255; it is -1 exactly when the buffer is used up and the slot is empty, and the cursor is then reset; otherwise it is the next buffered byte, or the first byte of a freshly built chunk |
| MjpegStream.Run | app/src/main/java/com/fhylabs/ipcamera/MJPEGServer.kt:84-90 | a sequence of reads returns one value per read |
| MjpegStream.RunDrainsBuffer | app/src/main/java/com/fhylabs/ipcamera/MJPEGServer.kt:85-89 | while bytes remain buffered, reads return exactly those bytes as unsigned values, whatever the slot holds meanwhile |
| MjpegStream.SampleThenDrain | app/src/main/java/com/fhylabs/ipcamera/MJPEGServer.kt:85-89 | after the buffer is used up, the next reads deliver the new buffer from its first byte on |
| MjpegStream.ChunkDeliveredWhole | app/src/main/java/com/fhylabs/ipcamera/MJPEGServer.kt:84-103 | a frame sampled when the buffer is used up reaches the client as its whole chunk, byte for byte, even if the slot changes during delivery |
| MjpegStream.MJPEGInputStream.constructor | app/src/main/java/com/fhylabs/ipcamera/MJPEGServer.kt:80-82 | a new stream starts with an empty buffer at position 0 |
| MjpegStream.MJPEGInputStream.Read | app/src/main/java/com/fhylabs/ipcamera/MJPEGServer.kt:84-90 | the method's new state and result are exactly one `Step` of the specification, including the -1 end-of-stream case |
| MjpegStream.MJPEGInputStream.GenerateNextFrame | app/src/main/java/com/fhylabs/ipcamera/MJPEGServer.kt:92-104 | the buffer is replaced by `NextBuffer` of the slot, that is, empty or the chunk for the frame |
| Routing.Serve | app/src/main/java/com/fhylabs/ipcamera/MJPEGServer.kt:21-71 | OK exactly for `/` and `/stream`; a chunked MJPEG body exactly for `/stream`, with the multipart MIME type and the three no-cache headers; anything else gives a 404 text response |
| Routing.MissingUriServedAsRoot | app/src/main/java/com/fhylabs/ipcamera/MJPEGServer.kt:22-24 | a request without a URI is served the viewer page |
| Routing.BoundaryParameter | app/src/main/java/com/fhylabs/ipcamera/MJPEGServer.kt:61 | the boundary read from a multipart MIME type is what follows `boundary=` |
| Routing.StreamBoundaryMatchesChunks | app/src/main/java/com/fhylabs/ipcamera/MJPEGServer.kt:58-63 | the boundary announced in the `/stream` content type is the one every chunk's delimiter line uses |
| Routing.ViewerPageShowsStream | app/src/main/java/com/fhylabs/ipcamera/MJPEGServer.kt:51 | the viewer page points its image at `/stream` |
| Crop.CropToRatio | app/src/main/java/com/fhylabs/ipcamera/MainActivity.kt:124-138 | the crop lies inside the image; a source wider than the ratio keeps its full height, with width floor(h·ratio), centred horizontally; otherwise it keeps its full width, with height floor(w/ratio), centred vertically |
| Crop.MatchingRatioKeepsImage | app/src/main/java/com/fhylabs/ipcamera/MainActivity.kt:127-136 | an image already at the ratio is kept whole |
| Crop.CropNonEmpty | app/src/main/java/com/fhylabs/ipcamera/MainActivity.kt:129-136 | for ratios between 1 and 2 and sources at least 2 pixels wide, the crop is at least 1x1 |
| Crop.OnePixelWideCropIsEmpty | app/src/main/java/com/fhylabs/ipcamera/MainActivity.kt:133-136 | a 1x1 source cropped to 16:9 gets height 0 |
| Crop.UiRatiosAreBetweenOneAndTwo | app/src/main/java/com/fhylabs/ipcamera/CameraScreen.kt:95-101 | every ratio the UI offers lies between 1 and 2 |
| Crop.SquareCropOfVga | app/src/main/java/com/fhylabs/ipcamera/MainActivity.kt:129-132 | 640x480 cropped to 1:1 gives the centred 480x480 square at x = 80 |
| LocalAddress.IndexOf | app/src/main/java/com/fhylabs/ipcamera/MainActivity.kt:146 | `indexOf` is negative exactly when the character is absent; otherwise it gives its first occurrence |
| LocalAddress.FirstEligibleSpec | app/src/main/java/com/fhylabs/ipcamera/MainActivity.kt:143-151 | the search finds nothing exactly when no address is non-loopback and colon-free; otherwise it returns the host of the first such address |
| LocalAddress.GetLocalIpAddress | app/src/main/java/com/fhylabs/ipcamera/MainActivity.kt:140-156 | the nested loop returns the first eligible address over all interfaces in order, or `127.0.0.1` when there is none or enumeration fails |
| ServerLifecycle.MJPEGServer.constructor | app/src/main/java/com/fhylabs/ipcamera/MJPEGServer.kt:9-12 | a new server has its port and is not yet listening |
| ServerLifecycle.MJPEGServer.StartServer | app/src/main/java/com/fhylabs/ipcamera/MJPEGServer.kt:16-19 | after `startServer`, the server is listening |
| ServerLifecycle.MJPEGServer.StopServer | app/src/main/java/com/fhylabs/ipcamera/MJPEGServer.kt:74-77 | after `stopServer`, the server is not listening |
| ServerLifecycle.MainActivity.constructor | app/src/main/java/com/fhylabs/ipcamera/MainActivity.kt:22-23 | the activity starts with no server, on port 8080 |
| ServerLifecycle.MainActivity.OnToggleServer | app/src/main/java/com/fhylabs/ipcamera/MainActivity.kt:53-61 | the toggle flips whether a server exists; a new server is fresh, listening and on `serverPort`; the old one is stopped before it is dropped |
| ServerLifecycle.MainActivity.ToggleTwice | app/src/main/java/com/fhylabs/ipcamera/MainActivity.kt:53-61 | two toggles restore whether a server is running, and keep the invariant |
| ServerLifecycle.MainActivity.OnDestroy | app/src/main/java/com/fhylabs/ipcamera/MainActivity.kt:118-121 | on destroy, a held server is stopped and the field is left unchanged |

## Left out

- NanoHTTPD itself is not modelled: sockets, `start`/`stop`, the read timeout, chunked transfer encoding and the bind failure (`IOException`). `serve` is modelled as the choice of a response descriptor.
- The `AtomicReference` and the concurrency between the camera thread and the HTTP threads are left out. Each `read()` receives the slot's current value as a parameter, so any interleaving of writes is covered, but memory-model effects are not.
- JPEG encoding (`Bitmap.compress` at quality 80) is a parameter of the model, and its output is not constrained.
- `Bitmap.createBitmap` is not modelled. The model computes the crop rectangle. `CropNonEmpty` and `OnePixelWideCropIsEmpty` show when the rectangle can be empty; there `createBitmap` would throw.
- Crop.CropToRatio: uses exact rational ratios (1, 2, 4/3, 16/9) and exact floors in place of `Float` arithmetic. Where float rounding lands exactly on an integer boundary, the device may differ by one pixel.
- Routing.Serve: the literal HTML of the viewer page is replaced by a stand-in that keeps its `<img src="/stream">` element. The styling and script text are not modelled.
- `getLocalIpAddress`: `NetworkInterface.getNetworkInterfaces()` is an input. `None` stands for the caught exception (the stack trace printing is dropped).
- `buffer` in `MJPEGInputStream` is a `seq<Byte>` field, since the source only ever replaces it whole and never updates it in place.
- MjpegChunk.ParseChunk: the parser is a reference reader for the round trip. It accepts only canonical lengths (no leading zeros), which is the only form the writer produces.
- `toByteArray()` is modelled for ASCII text only; every string the stream encodes is ASCII.
- Camera setup (CameraX), permissions, resolution selection, the Compose UI and `println` logging are outside the core.
- ServerLifecycle.MainActivity.OnToggleServer: the server's `latestFrame` reference is not modelled, since the server shares the activity's slot.
- ServerLifecycle.MainActivity.OnToggleServer: `startServer()` cannot fail in the model. In the source, `server` is assigned before `startServer()` (MainActivity.kt:55-56). A bind failure there would leave a non-null server that is not listening, and the exception would escape the click handler. The model does not capture that state, so `Valid()` (a held server is listening) rests on a successful start.
