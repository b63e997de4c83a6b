/**
 * The wire format of one part of the `multipart/x-mixed-replace` body that
 * `MJPEGInputStream.generateNextFrame` builds: a delimiter line in the style of
 * section 5.1.1 of RFC 2046, two header lines, a blank line, the JPEG bytes
 * and a closing CRLF.
 */
module MjpegChunk {
  import opened Wrappers
  import opened Bytes

  /** The `boundary` constant of `MJPEGServer`. */
  const Boundary: string := "MJPEGBOUNDARY"

  const CRLF: string := "\r\n"

  /** The bytes of CRLF, carriage return and line feed. */
  const CRLFBytes: seq<Byte> := [13, 10]

  /** The first line of the chunk template, the delimiter written out literally. */
  const DelimiterLine: string := "--MJPEGBOUNDARY" + CRLF

  /** The header lines after the delimiter, up to the length value. */
  const HeaderLines: string := "Content-Type: image/jpeg" + CRLF + "Content-Length: "

  /**
   * The part of the header before the length value: the chunk template's
   * text, written here one line at a time.
   */
  const LengthFieldPrefix: string := DelimiterLine + HeaderLines

  lemma LengthFieldPrefixIsAscii()
    ensures IsAscii(DelimiterLine) && IsAscii(HeaderLines) && IsAscii(LengthFieldPrefix)
    ensures Ascii(LengthFieldPrefix) == Ascii(DelimiterLine) + Ascii(HeaderLines)
  {
    assert IsAscii("--MJPEGBOUNDARY") && IsAscii(CRLF);
    assert IsAscii("Content-Type: image/jpeg") && IsAscii("Content-Length: ");
    AsciiAppend("--MJPEGBOUNDARY", CRLF);
    AsciiAppend("Content-Type: image/jpeg", CRLF);
    AsciiAppend("Content-Type: image/jpeg" + CRLF, "Content-Length: ");
    AsciiAppend(DelimiterLine, HeaderLines);
  }

  /** The delimiter line a multipart body uses for `Boundary`: "--" followed by the boundary. */
  function Delimiter(boundary: string): (d: string)
    ensures |d| == |boundary| + 2 && d[..2] == "--" && d[2..] == boundary
  {
    "--" + boundary
  }

  /** The header text for a payload of `n` bytes, as the string template builds it. */
  function HeaderText(n: nat): (s: string)
    ensures IsAscii(s)
  {
    DecimalIsAscii(n);
    LengthFieldPrefixIsAscii();
    AsciiAppend(LengthFieldPrefix, Decimal(n));
    AsciiAppend(LengthFieldPrefix + Decimal(n), CRLF);
    AsciiAppend(LengthFieldPrefix + Decimal(n) + CRLF, CRLF);
    LengthFieldPrefix + Decimal(n) + CRLF + CRLF
  }

  /** `header + jpeg + "\r\n".toByteArray()`: the buffer built for one frame. */
  function Chunk(jpeg: seq<Byte>): (c: seq<Byte>)
    ensures |c| == |HeaderText(|jpeg|)| + |jpeg| + 2
    ensures c[|HeaderText(|jpeg|)|..|c| - 2] == jpeg
  {
    Ascii(HeaderText(|jpeg|)) + jpeg + Ascii(CRLF)
  }

  /** What a reader of the multipart body recovers from one part. */
  datatype Part = Part(contentLength: nat, jpeg: seq<Byte>)

  /** The number of leading decimal digit bytes of `s`. */
  function DigitRun(s: seq<Byte>): (k: nat)
    ensures k <= |s|
    ensures AllDigits(s[..k])
    ensures k < |s| ==> !IsDigit(s[k])
  {
    if s == [] || !IsDigit(s[0]) then 0
    else
      var k := 1 + DigitRun(s[1..]);
      assert s[..k] == [s[0]] + s[1..][..k - 1];
      k
  }

  /**
   * Parses one chunk against the layout: the fixed prefix up to the length
   * value, then the fields that `ParseFields` reads.
   */
  function ParseChunk(b: seq<Byte>): (r: Option<Part>)
    ensures r.Some? ==> r.value.contentLength == |r.value.jpeg|
  {
    LengthFieldPrefixIsAscii();
    var prefix := Ascii(LengthFieldPrefix);
    if |b| < |prefix| || b[..|prefix|] != prefix then None
    else ParseFields(b[|prefix|..])
  }

  /**
   * Everything after the fixed prefix: a canonical decimal length, a blank
   * line, exactly that many payload bytes, a closing CRLF and nothing more.
   */
  function ParseFields(rest: seq<Byte>): (r: Option<Part>)
    ensures r.Some? ==> r.value.contentLength == |r.value.jpeg|
  {
    var k := DigitRun(rest);
    if k == 0 || (rest[0] == 48 && k > 1) then None
    else
      FieldsAfterLength(ParseDigits(rest[..k]), rest[k..])
  }

  /** After a length value `n`: a blank line, `n` payload bytes, CRLF, and the end. */
  function FieldsAfterLength(n: nat, tail: seq<Byte>): (r: Option<Part>)
    ensures r.Some? ==> r.value.contentLength == n == |r.value.jpeg|
  {
    if |tail| < 4 || tail[..4] != CRLFBytes + CRLFBytes then None
    else
      var payload := tail[4..];
      if |payload| != n + 2 || payload[n..] != CRLFBytes then None
      else Some(Part(n, payload[..n]))
  }

  /** Encoding the header text piece by piece. */
  lemma {:induction false} AsciiHeader(prefix: string, digits: string)
    requires IsAscii(prefix) && IsAscii(digits)
    ensures IsAscii(prefix + digits + CRLF + CRLF)
    ensures Ascii(prefix + digits + CRLF + CRLF) == Ascii(prefix) + Ascii(digits) + Ascii(CRLF + CRLF)
  {
    AsciiAppend(prefix, digits);
    AsciiAppend(CRLF, CRLF);
    AsciiAppend(prefix + digits, CRLF + CRLF);
    assert prefix + digits + CRLF + CRLF == (prefix + digits) + (CRLF + CRLF);
  }

  /** The bytes of a chunk after the fixed prefix: length value, blank line, payload, CRLF. */
  function FieldBytes(jpeg: seq<Byte>): (f: seq<Byte>)
    ensures |f| >= |jpeg| + 7
  {
    DecimalIsAscii(|jpeg|);
    Ascii(Decimal(|jpeg|)) + BodyBytes(jpeg)
  }

  /** The blank line ending the header, the payload, and the closing CRLF. */
  function BodyBytes(jpeg: seq<Byte>): (f: seq<Byte>)
    ensures |f| == |jpeg| + 6 && f[0] == 13
  {
    CRLFBytes + CRLFBytes + jpeg + CRLFBytes
  }

  /** A chunk is the fixed prefix followed by its fields. */
  lemma ChunkLayout(jpeg: seq<Byte>)
    ensures IsAscii(LengthFieldPrefix)
    ensures Chunk(jpeg) == Ascii(LengthFieldPrefix) + FieldBytes(jpeg)
  {
    DecimalIsAscii(|jpeg|);
    LengthFieldPrefixIsAscii();
    AsciiHeader(LengthFieldPrefix, Decimal(|jpeg|));
    AsciiCRLF();
  }

  /** Round trip: parsing a built chunk recovers the JPEG bytes and a length field equal to their count. */
  lemma ParseChunkOfChunk(jpeg: seq<Byte>)
    ensures ParseChunk(Chunk(jpeg)) == Some(Part(|jpeg|, jpeg))
  {
    ChunkLayout(jpeg);
    var prefix := Ascii(LengthFieldPrefix);
    var rest := FieldBytes(jpeg);
    assert (prefix + rest)[..|prefix|] == prefix && (prefix + rest)[|prefix|..] == rest;
    ParseFieldsRoundTrip(jpeg);
  }

  lemma ParseFieldsRoundTrip(jpeg: seq<Byte>)
    ensures ParseFields(FieldBytes(jpeg)) == Some(Part(|jpeg|, jpeg))
  {
    DecimalRoundTrip(|jpeg|);
    var digits := Ascii(Decimal(|jpeg|));
    assert digits[0] == 48 ==> |digits| == 1 by {
      assert digits[0] as int == Decimal(|jpeg|)[0] as int;
    }
    ParseFieldsOf(digits, jpeg);
  }

  lemma AsciiCRLF()
    ensures Ascii(CRLF) == CRLFBytes
    ensures Ascii(CRLF + CRLF) == CRLFBytes + CRLFBytes
  {
  }

  /** The fields parse back from any canonical digit run that counts the payload. */
  lemma ParseFieldsOf(digits: seq<Byte>, jpeg: seq<Byte>)
    requires |digits| >= 1 && AllDigits(digits)
    requires digits[0] == 48 ==> |digits| == 1
    requires ParseDigits(digits) == |jpeg|
    ensures ParseFields(digits + BodyBytes(jpeg)) == Some(Part(|jpeg|, jpeg))
  {
    ParseFieldsSplit(digits, BodyBytes(jpeg));
    FieldsAfterLengthOf(jpeg);
  }

  /** After the length value, a blank line, the payload and CRLF are read back as the payload. */
  lemma FieldsAfterLengthOf(jpeg: seq<Byte>)
    ensures FieldsAfterLength(|jpeg|, BodyBytes(jpeg)) == Some(Part(|jpeg|, jpeg))
  {
    var payload := jpeg + CRLFBytes;
    var tail := BodyBytes(jpeg);
    assert tail == (CRLFBytes + CRLFBytes) + payload;
    assert tail[..4] == CRLFBytes + CRLFBytes;
    assert tail[4..] == payload;
    assert payload[..|jpeg|] == jpeg;
    assert payload[|jpeg|..] == CRLFBytes;
  }

  /** `ParseFields` reads a canonical digit run up to the first non-digit and continues after it. */
  lemma ParseFieldsSplit(digits: seq<Byte>, tail: seq<Byte>)
    requires |digits| >= 1 && AllDigits(digits)
    requires digits[0] == 48 ==> |digits| == 1
    requires tail != [] && !IsDigit(tail[0])
    ensures ParseFields(digits + tail) == FieldsAfterLength(ParseDigits(digits), tail)
  {
    var rest := digits + tail;
    DigitRunStops(digits, tail);
    assert rest[..|digits|] == digits;
    assert rest[|digits|..] == tail;
  }

  /** A digit run followed by a non-digit ends where the digits end. */
  lemma {:induction false} DigitRunStops(d: seq<Byte>, s: seq<Byte>)
    requires AllDigits(d)
    requires s != [] && !IsDigit(s[0])
    ensures DigitRun(d + s) == |d|
    decreases |d|
  {
    if d == [] {
      assert d + s == s;
    } else {
      var ds := d + s;
      assert ds[0] == d[0] && IsDigit(ds[0]);
      assert ds[1..] == d[1..] + s;
      DigitRunStops(d[1..], s);
      assert DigitRun(ds) == 1 + DigitRun(ds[1..]);
    }
  }

  /**
   * The parser accepts nothing but built chunks: whatever it accepts is
   * exactly the chunk of the payload it returns.
   */
  lemma ParseChunkOnlyChunks(b: seq<Byte>)
    requires ParseChunk(b).Some?
    ensures b == Chunk(ParseChunk(b).value.jpeg)
  {
    LengthFieldPrefixIsAscii();
    var prefix := Ascii(LengthFieldPrefix);
    var rest := b[|prefix|..];
    assert b == prefix + rest;
    var jpeg := ParseFields(rest).value.jpeg;
    assert ParseChunk(b).value.jpeg == jpeg;
    ParseFieldsOnlyFields(rest);
    ChunkLayout(jpeg);
  }

  lemma ParseFieldsOnlyFields(rest: seq<Byte>)
    requires ParseFields(rest).Some?
    ensures rest == FieldBytes(ParseFields(rest).value.jpeg)
  {
    var k := DigitRun(rest);
    var digits := rest[..k];
    var n := ParseDigits(digits);
    assert digits[0] == rest[0];
    DecimalCanonical(digits);
    FieldsAfterLengthOnly(n, rest[k..]);
    assert rest == digits + rest[k..];
  }

  lemma FieldsAfterLengthOnly(n: nat, tail: seq<Byte>)
    requires FieldsAfterLength(n, tail).Some?
    ensures tail == BodyBytes(FieldsAfterLength(n, tail).value.jpeg)
  {
    var payload := tail[4..];
    assert payload == payload[..n] + payload[n..];
    assert tail == tail[..4] + payload;
  }

  /** Every chunk opens with the delimiter line of `Boundary`. */
  lemma ChunkStartsWithDelimiter(jpeg: seq<Byte>)
    ensures DelimiterLine == Delimiter(Boundary) + CRLF && IsAscii(DelimiterLine)
    ensures Chunk(jpeg)[..|DelimiterLine|] == Ascii(DelimiterLine)
  {
    DelimiterLineSpelling();
    LengthFieldPrefixIsAscii();
    ChunkLayout(jpeg);
    PrefixOfConcat(Ascii(DelimiterLine), Ascii(HeaderLines), FieldBytes(jpeg));
  }

  /** The template's literal first line is the delimiter of `Boundary` followed by CRLF. */
  lemma DelimiterLineSpelling()
    ensures Delimiter(Boundary) + CRLF == DelimiterLine
    ensures |DelimiterLine| == |Boundary| + 4
  {
  }

  lemma PrefixOfConcat<T>(a: seq<T>, b: seq<T>, c: seq<T>)
    ensures (a + b + c)[..|a|] == a
  {
  }
}
