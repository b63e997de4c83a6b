/**
 * `MJPEGInputStream`: the body of a `/stream` response, pulled one byte at
 * a time by the HTTP layer. It keeps the current chunk and a cursor into it
 * and samples the latest-frame slot only when the chunk is used up.
 *
 * The slot is shared with the capture pipeline, which may change it between
 * any two reads; here its value at the moment of a read is the `latest`
 * argument of that read. `Bitmap.compress` is the `compress` argument.
 */
module MjpegStream {
  import opened Wrappers
  import opened Bytes
  import opened MjpegChunk

  /**
   * `generateNextFrame`: the chunk for the frame in the slot, or an empty
   * buffer when the slot holds no frame.
   */
  function NextBuffer<F>(latest: Option<F>, compress: F -> seq<Byte>): (b: seq<Byte>)
    ensures b == [] <==> latest.None?
  {
    match latest
    case None => []
    case Some(frame) => Chunk(compress(frame))
  }

  /**
   * A sampled frame becomes a buffer that parses back to its JPEG bytes,
   * with a `Content-Length` equal to their count.
   */
  lemma NextBufferParses<F>(latest: Option<F>, compress: F -> seq<Byte>)
    requires latest.Some?
    ensures ParseChunk(NextBuffer(latest, compress))
         == Some(Part(|compress(latest.value)|, compress(latest.value)))
  {
    ParseChunkOfChunk(compress(latest.value));
  }

  /** The stream's two fields: the current chunk and the index of the next byte to return. */
  datatype Cursor = Cursor(buffer: seq<Byte>, pos: nat) {
    predicate Valid() { pos <= |buffer| }
    predicate Exhausted() { pos >= |buffer| }
  }

  /**
   * One `read()`: the new cursor and the value returned. A cursor that
   * still has bytes returns the next one; an exhausted cursor samples the
   * slot first, and returns -1 (end of stream) when the slot is empty.
   */
  function Step<F>(c: Cursor, latest: Option<F>, compress: F -> seq<Byte>): (r: (Cursor, int))
    ensures r.0.Valid()
    ensures r.1 == -1 || 0 <= r.1 < 256
    ensures r.1 == -1 <==> c.Exhausted() && latest.None?
    ensures r.1 == -1 ==> r.0 == Cursor([], 0)
    ensures !c.Exhausted() ==> r == (Cursor(c.buffer, c.pos + 1), Unsigned(c.buffer[c.pos]))
    ensures c.Exhausted() && latest.Some? ==>
      r.0 == Cursor(NextBuffer(latest, compress), 1) && r.1 == Unsigned(r.0.buffer[0])
  {
    var c' := if c.Exhausted() then Cursor(NextBuffer(latest, compress), 0) else c;
    if c'.buffer != [] then (Cursor(c'.buffer, c'.pos + 1), Unsigned(c'.buffer[c'.pos]))
    else (c', -1)
  }

  /** The values returned by successive reads, the i-th read seeing slot value `slots[i]`. */
  function Run<F>(c: Cursor, slots: seq<Option<F>>, compress: F -> seq<Byte>): (out: seq<int>)
    ensures |out| == |slots|
    decreases |slots|
  {
    if slots == [] then []
    else
      var (next, r) := Step(c, slots[0], compress);
      [r] + Run(next, slots[1..], compress)
  }

  /**
   * While the current chunk has bytes left, reads return them in order,
   * whatever the slot holds meanwhile.
   */
  lemma {:induction false} RunDrainsBuffer<F>(c: Cursor, slots: seq<Option<F>>, compress: F -> seq<Byte>)
    requires c.pos + |slots| <= |c.buffer|
    ensures Run(c, slots, compress) == UnsignedAll(c.buffer[c.pos..c.pos + |slots|])
    decreases |slots|
  {
    if slots != [] {
      var next := Cursor(c.buffer, c.pos + 1);
      assert Step(c, slots[0], compress) == (next, Unsigned(c.buffer[c.pos]));
      RunDrainsBuffer(next, slots[1..], compress);
    }
  }

  /**
   * A chunk is never mixed with another sample: once an exhausted stream
   * samples frame `f`, the next reads return exactly the bytes of `f`'s
   * chunk, in order, read as unsigned, however the slot changes meanwhile.
   */
  lemma ChunkDeliveredWhole<F>(c: Cursor, f: F, slots: seq<Option<F>>, compress: F -> seq<Byte>)
    requires c.Exhausted()
    requires |slots| == |Chunk(compress(f))| && slots[0] == Some(f)
    ensures Run(c, slots, compress) == UnsignedAll(Chunk(compress(f)))
  {
    assert NextBuffer(slots[0], compress) == Chunk(compress(f));
    SampleThenDrain(c, slots, compress);
  }

  /** An exhausted stream whose sample is non-empty returns that whole sample next. */
  lemma SampleThenDrain<F>(c: Cursor, slots: seq<Option<F>>, compress: F -> seq<Byte>)
    requires c.Exhausted() && slots != []
    requires |slots| == |NextBuffer(slots[0], compress)|
    ensures Run(c, slots, compress) == UnsignedAll(NextBuffer(slots[0], compress))
  {
    var (next, r) := Step(c, slots[0], compress);
    RunFirst(c, slots, compress);
    RunDrainsBuffer(next, slots[1..], compress);
    UnsignedAllFirst(next.buffer);
  }

  lemma RunFirst<F>(c: Cursor, slots: seq<Option<F>>, compress: F -> seq<Byte>)
    requires slots != []
    ensures Run(c, slots, compress)
         == [Step(c, slots[0], compress).1] + Run(Step(c, slots[0], compress).0, slots[1..], compress)
  {
  }

  lemma UnsignedAllFirst(bs: seq<Byte>)
    requires bs != []
    ensures UnsignedAll(bs) == [Unsigned(bs[0])] + UnsignedAll(bs[1..])
  {
  }

  /**
   * The stream object. `buffer` stands for the `ByteArray` field, which is
   * only ever replaced as a whole, and `pos` for the cursor.
   */
  class MJPEGInputStream<F> {
    var buffer: seq<Byte>
    var pos: nat

    constructor ()
      ensures buffer == [] && pos == 0
    {
      buffer := [];
      pos := 0;
    }

    function State(): Cursor
      reads this
    {
      Cursor(buffer, pos)
    }

    /**
     * `read()`: the next byte of the current chunk as a value in 0..255,
     * sampling the slot first when the chunk is used up; -1 when that
     * sample finds the slot empty.
     */
    method Read(latest: Option<F>, compress: F -> seq<Byte>) returns (r: int)
      modifies this
      ensures (State(), r) == Step(old(State()), latest, compress)
      ensures pos <= |buffer|
      ensures r == -1 || 0 <= r < 256
      ensures old(pos) < |old(buffer)| ==>
        buffer == old(buffer) && pos == old(pos) + 1 && r == Unsigned(old(buffer)[old(pos)])
      ensures old(pos) >= |old(buffer)| ==> buffer == NextBuffer(latest, compress)
      ensures r == -1 <==> old(pos) >= |old(buffer)| && latest.None?
      ensures r == -1 ==> buffer == [] && pos == 0
    {
      if pos >= |buffer| {
        GenerateNextFrame(latest, compress);
        pos := 0;
      }
      if |buffer| != 0 {
        r := Unsigned(buffer[pos]);
        pos := pos + 1;
      } else {
        r := -1;
      }
    }

    /** `generateNextFrame()`: replaces the buffer with the chunk for the slot's frame, or empties it. */
    method GenerateNextFrame(latest: Option<F>, compress: F -> seq<Byte>)
      modifies this`buffer
      ensures buffer == NextBuffer(latest, compress)
    {
      if latest.None? {
        buffer := [];
        return;
      }
      var jpeg := compress(latest.value);
      var header := Ascii(HeaderText(|jpeg|));
      buffer := header + jpeg + Ascii(CRLF);
    }
  }
}
