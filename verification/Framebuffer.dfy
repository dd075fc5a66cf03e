/** The host mirror: rectangles reassembled from chunks and painted into an RGB888 buffer. */
module Framebuffer {
  import opened Bytes
  import opened Options
  import opened BinaryFrame
  import opened DisplayStream

  // Chunks of one pending rectangle, a dictionary in insertion order.

  datatype Entry = Entry(offset: nat, data: seq<byte>)

  function End(e: Entry): nat { e.offset + |e.data| }

  function Put(chunks: seq<Entry>, e: Entry): seq<Entry> {
    if chunks == [] then [e]
    else if chunks[0].offset == e.offset then [e] + chunks[1..]
    else [chunks[0]] + Put(chunks[1..], e)
  }

  function Received(chunks: seq<Entry>): nat {
    if chunks == [] then 0 else Received(chunks[..|chunks| - 1]) + |chunks[|chunks| - 1].data|
  }

  predicate AllInside(chunks: seq<Entry>, total: nat) {
    forall k :: 0 <= k < |chunks| ==> End(chunks[k]) <= total
  }

  predicate CoveredAt(chunks: seq<Entry>, i: nat) {
    exists k :: 0 <= k < |chunks| && chunks[k].offset <= i < End(chunks[k])
  }

  predicate AllCovered(chunks: seq<Entry>, total: nat) {
    forall i :: 0 <= i < total ==> CoveredAt(chunks, i)
  }

  /** The byte the last covering chunk leaves at i. */
  function ByteAt(chunks: seq<Entry>, i: nat): byte {
    if chunks == [] then 0
    else
      var last := chunks[|chunks| - 1];
      if last.offset <= i < End(last) then last.data[i - last.offset] else ByteAt(chunks[..|chunks| - 1], i)
  }

  /** The message the chunks spell, or nothing while they leave a hole or stick out. */
  function Payload(chunks: seq<Entry>, total: nat): (payload: Option<seq<byte>>)
    requires total >= RECT_HEADER_BYTES
    ensures payload.Some? ==> |payload.value| == total - RECT_HEADER_BYTES
  {
    if AllInside(chunks, total) && AllCovered(chunks, total) then
      var bytes := seq<byte>(total - RECT_HEADER_BYTES, i requires 0 <= i < total - RECT_HEADER_BYTES =>
        ByteAt(chunks, RECT_HEADER_BYTES + i));
      Some(bytes)
    else None
  }

  method AssemblePayload(chunks: seq<Entry>, total: nat) returns (payload: Option<seq<byte>>)
    requires total >= RECT_HEADER_BYTES
    ensures payload == Payload(chunks, total)
  {
    var buffer := new byte[total](_ => 0);
    var seen := new bool[total](_ => false);
    for k := 0 to |chunks|
      invariant AllInside(chunks[..k], total)
      invariant forall i :: 0 <= i < total ==> buffer[i] == ByteAt(chunks[..k], i)
      invariant forall i :: 0 <= i < total ==> seen[i] == CoveredAt(chunks[..k], i)
    {
      var e := chunks[k];
      if End(e) > total {
        return None;
      }
      CoverOneMore(chunks, k);
      hide CoveredAt;
      assert chunks[..k + 1] == chunks[..k] + [e] && chunks[..k + 1][..k] == chunks[..k];
      forall i | e.offset <= i < End(e) {
        buffer[i] := e.data[i - e.offset];
      }
      for i := e.offset to End(e)
        invariant forall j :: 0 <= j < total ==> seen[j] == (CoveredAt(chunks[..k], j) || e.offset <= j < i)
        invariant forall i :: 0 <= i < total ==> buffer[i] == ByteAt(chunks[..k + 1], i)
      {
        seen[i] := true;
      }
    }
    assert chunks[..|chunks|] == chunks;
    for i := 0 to total
      invariant forall j :: 0 <= j < i ==> CoveredAt(chunks, j)
    {
      if !seen[i] {
        return None;
      }
    }
    assert AllInside(chunks, total) && AllCovered(chunks, total);
    ghost var expected := Payload(chunks, total).value;
    assert buffer[RECT_HEADER_BYTES..] == expected by {
      assert forall i :: 0 <= i < |expected| ==> buffer[RECT_HEADER_BYTES..][i] == buffer[RECT_HEADER_BYTES + i];
    }
    payload := Some(buffer[RECT_HEADER_BYTES..]);
  }

  lemma CoverOneMore(chunks: seq<Entry>, k: nat)
    requires k < |chunks|
    ensures forall i: nat :: CoveredAt(chunks[..k + 1], i)
                        <==> CoveredAt(chunks[..k], i) || chunks[k].offset <= i < End(chunks[k])
  {
    var more, fewer := chunks[..k + 1], chunks[..k];
    assert more[k] == chunks[k];
    forall i: nat | CoveredAt(fewer, i) ensures CoveredAt(more, i) {
      var j :| 0 <= j < |fewer| && fewer[j].offset <= i < End(fewer[j]);
      assert more[j] == fewer[j];
    }
    forall i: nat | CoveredAt(more, i) && !(chunks[k].offset <= i < End(chunks[k])) ensures CoveredAt(fewer, i) {
      var j :| 0 <= j < |more| && more[j].offset <= i < End(more[j]);
      assert more[j] == fewer[j];
    }
  }

  // Pixels.

  /** Channel c (red, green, blue) of an RGB565 value, high bits replicated into the low ones. */
  function Channel(value: u16, c: nat): byte
    requires c < 3
  {
    var red, green, blue := value / 0x800 % 0x20, value / 0x20 % 0x40, value % 0x20;
    if c == 0 then red * 8 + red / 4
    else if c == 1 then green * 4 + green / 16
    else blue * 8 + blue / 4
  }

  /** The expansion loses nothing: the 565 value can be read back from the three channels. */
  lemma Recoverable(value: u16)
    ensures Channel(value, 0) / 8 * 0x800 + Channel(value, 1) / 4 * 0x20 + Channel(value, 2) / 8 == value
    ensures value == 0xFFFF ==> Channel(value, 0) == Channel(value, 1) == Channel(value, 2) == 255
  {
    var red, green, blue := value / 0x800 % 0x20, value / 0x20 % 0x40, value % 0x20;
    assert (red * 8 + red / 4) / 8 == red;
    assert (green * 4 + green / 16) / 4 == green;
    assert (blue * 8 + blue / 4) / 8 == blue;
    assert value / 0x800 == value / 0x20 / 0x40;
  }

  predicate InRect(r: Rect, x: nat, y: nat) { r.x1 <= x <= r.x2 && r.y1 <= y <= r.y2 }

  predicate Fits(r: Rect, width: nat, height: nat) {
    r.x1 <= r.x2 < width && r.y1 <= r.y2 < height
  }

  function RectWidth(r: Rect): nat requires r.x1 <= r.x2 { r.x2 - r.x1 + 1 }
  function RectHeight(r: Rect): nat requires r.y1 <= r.y2 { r.y2 - r.y1 + 1 }

  function PixelBytes(r: Rect): nat
    requires r.x1 <= r.x2 && r.y1 <= r.y2
  {
    RectWidth(r) * RectHeight(r) * 2
  }

  lemma SourceIndex(r: Rect, x: nat, y: nat)
    requires r.x1 <= r.x2 && r.y1 <= r.y2 && InRect(r, x, y)
    ensures 0 <= ((y - r.y1) * RectWidth(r) + (x - r.x1)) * 2 <= PixelBytes(r) - 2
  {
    var w, h := RectWidth(r), RectHeight(r);
    assert (y - r.y1) * w <= (h - 1) * w;
    assert (h - 1) * w + w == h * w;
  }

  /** The RGB565 value a rectangle's payload holds for screen pixel (x, y). */
  function SourcePixel(r: Rect, payload: seq<byte>, x: nat, y: nat): u16
    requires r.x1 <= r.x2 && r.y1 <= r.y2 && InRect(r, x, y) && |payload| == PixelBytes(r)
  {
    SourceIndex(r, x, y);
    var i := ((y - r.y1) * RectWidth(r) + (x - r.x1)) * 2;
    var low: int, high: int := payload[i], payload[i + 1];
    low + 256 * high
  }

  // The mirror is row-major, three bytes a pixel.
  function Col(width: nat, i: nat): nat requires width > 0 { i / 3 % width }
  function Row(width: nat, i: nat): nat requires width > 0 { i / 3 / width }
  function Index(width: nat, x: nat, y: nat): nat { (y * width + x) * 3 }

  lemma PixelAt(width: nat, x: nat, y: nat, i: nat)
    requires x < width
    ensures Col(width, i) == x && Row(width, i) == y <==> Index(width, x, y) <= i < Index(width, x, y) + 3
    ensures Index(width, x, y) <= i < Index(width, x, y) + 3 ==> i % 3 == i - Index(width, x, y)
  {
    var p := i / 3;
    assert p == p / width * width + p % width;
    if Index(width, x, y) <= i < Index(width, x, y) + 3 {
      assert p == y * width + x;
      Quotient(width, y, x);
    }
  }

  lemma Quotient(width: nat, y: nat, x: nat)
    requires x < width
    ensures (y * width + x) / width == y && (y * width + x) % width == x
  {
    var p := y * width + x;
    var d := p / width - y;
    assert d * width == x - p % width;
    if d >= 1 {
      Grows(d, width);
    } else if d <= -1 {
      Grows(-d, width);
    }
  }

  lemma Grows(d: int, width: nat)
    requires d >= 1
    ensures d * width >= width
  {
    assert d * width == (d - 1) * width + width;
  }

  lemma IndexInside(width: nat, height: nat, x: nat, y: nat)
    requires x < width && y < height
    ensures Index(width, x, y) + 3 <= width * height * 3
  {
    assert y * width <= (height - 1) * width;
    assert (height - 1) * width + width == height * width;
  }

  /** The buffer with a rectangle painted: its own pixels expanded, every other byte as before. */
  function Painted(pixels: seq<byte>, width: nat, height: nat, r: Rect, payload: seq<byte>): (painted: seq<byte>)
    requires Fits(r, width, height) && |payload| == PixelBytes(r)
    ensures |painted| == |pixels|
  {
    seq<byte>(|pixels|, i requires 0 <= i < |pixels| =>
      if InRect(r, Col(width, i), Row(width, i))
      then Channel(SourcePixel(r, payload, Col(width, i), Row(width, i)), i % 3)
      else pixels[i])
  }

  // The bytes painted once `row` rows and `column` pixels of the next are done.
  predicate Done(width: nat, r: Rect, row: nat, column: nat, i: nat)
    requires width > 0
  {
    && InRect(r, Col(width, i), Row(width, i))
    && (Row(width, i) < r.y1 + row || (Row(width, i) == r.y1 + row && Col(width, i) < r.x1 + column))
  }

  lemma DoneStep(width: nat, r: Rect, row: nat, column: nat, i: nat)
    requires r.x1 <= r.x2 < width && r.y1 <= r.y2 && row < RectHeight(r) && column < RectWidth(r)
    ensures var index := Index(width, r.x1 + column, r.y1 + row);
            && (Done(width, r, row, column + 1, i) <==> Done(width, r, row, column, i) || index <= i < index + 3)
            && (index <= i < index + 3 ==>
                 && Col(width, i) == r.x1 + column && Row(width, i) == r.y1 + row && i % 3 == i - index
                 && !Done(width, r, row, column, i))
  {
    PixelAt(width, r.x1 + column, r.y1 + row, i);
    hide Col, Row, Index;
  }

  lemma DoneRow(width: nat, r: Rect, row: nat, i: nat)
    requires r.x1 <= r.x2 < width && r.y1 <= r.y2
    ensures Done(width, r, row, RectWidth(r), i) <==> Done(width, r, row + 1, 0, i)
    ensures !Done(width, r, 0, 0, i)
    ensures Done(width, r, RectHeight(r), 0, i) <==> InRect(r, Col(width, i), Row(width, i))
  {
    hide Col, Row;
  }

  lemma SourceIndexAt(r: Rect, row: nat, column: nat)
    requires r.x1 <= r.x2 && r.y1 <= r.y2 && row < RectHeight(r) && column < RectWidth(r)
    ensures 0 <= row * RectWidth(r) * 2 + column * 2
    ensures row * RectWidth(r) * 2 + column * 2 == (row * RectWidth(r) + column) * 2 <= PixelBytes(r) - 2
  {
    SourceIndex(r, r.x1 + column, r.y1 + row);
  }

  // Painting so far: done bytes are final, the others untouched.
  predicate PaintedSoFar(now: seq<byte>, was: seq<byte>, final: seq<byte>, width: nat, r: Rect, row: nat, column: nat)
    requires width > 0
  {
    && |now| == |was| == |final|
    && forall i :: 0 <= i < |now| ==> now[i] == if Done(width, r, row, column, i) then final[i] else was[i]
  }

  function WithPixel(s: seq<byte>, index: nat, value: u16): (t: seq<byte>)
    requires index + 3 <= |s|
    ensures |t| == |s|
  {
    s[..index] + [Channel(value, 0), Channel(value, 1), Channel(value, 2)] + s[index + 3..]
  }

  lemma PaintPixel(now: seq<byte>, next: seq<byte>, was: seq<byte>, width: nat, height: nat, r: Rect,
                   payload: seq<byte>, row: nat, column: nat)
    requires Fits(r, width, height) && |payload| == PixelBytes(r) && row < RectHeight(r) && column < RectWidth(r)
    requires |was| == width * height * 3
    requires PaintedSoFar(now, was, Painted(was, width, height, r, payload), width, r, row, column)
    requires var index := Index(width, r.x1 + column, r.y1 + row);
             var value := SourcePixel(r, payload, r.x1 + column, r.y1 + row);
             && index + 3 <= |now|
             && next == WithPixel(now, index, value)
    ensures PaintedSoFar(next, was, Painted(was, width, height, r, payload), width, r, row, column + 1)
  {
    var final := Painted(was, width, height, r, payload);
    var index := Index(width, r.x1 + column, r.y1 + row);
    forall i | 0 <= i < |next|
      ensures next[i] == if Done(width, r, row, column + 1, i) then final[i] else was[i]
    {
      DoneStep(width, r, row, column, i);
      hide Done, Index, Col, Row, SourcePixel, Channel;
    }
  }

  lemma PaintStart(was: seq<byte>, width: nat, height: nat, r: Rect, payload: seq<byte>)
    requires Fits(r, width, height) && |payload| == PixelBytes(r)
    ensures PaintedSoFar(was, was, Painted(was, width, height, r, payload), width, r, 0, 0)
  {
    forall i | 0 <= i < |was| ensures !Done(width, r, 0, 0, i) { DoneRow(width, r, 0, i); }
    hide Done;
  }

  lemma PaintRow(now: seq<byte>, was: seq<byte>, final: seq<byte>, width: nat, r: Rect, row: nat)
    requires r.x1 <= r.x2 < width && r.y1 <= r.y2
    requires PaintedSoFar(now, was, final, width, r, row, RectWidth(r))
    ensures PaintedSoFar(now, was, final, width, r, row + 1, 0)
  {
    forall i | 0 <= i < |now|
      ensures Done(width, r, row, RectWidth(r), i) == Done(width, r, row + 1, 0, i)
    {
      DoneRow(width, r, row, i);
    }
    hide Done;
  }

  lemma PaintEnd(now: seq<byte>, was: seq<byte>, width: nat, height: nat, r: Rect, payload: seq<byte>)
    requires Fits(r, width, height) && |payload| == PixelBytes(r)
    requires PaintedSoFar(now, was, Painted(was, width, height, r, payload), width, r, RectHeight(r), 0)
    ensures now == Painted(was, width, height, r, payload)
  {
    var final := Painted(was, width, height, r, payload);
    forall i | 0 <= i < |now| ensures now[i] == final[i] { DoneRow(width, r, 0, i); }
  }

  // Ingestion.

  datatype Pending = Pending(rect: Rect, total: nat, chunks: seq<Entry>)

  /** The mirror as a value. */
  datatype State = State(width: nat, height: nat, pixels: seq<byte>, pending: map<u16, Pending>,
                         applied: nat, dropped: nat)

  function ReadRect(data: seq<byte>): Rect
    requires |data| >= RECT_HEADER_BYTES
  {
    FromLE2(data[0..2]);
    FromLE2(data[2..4]);
    FromLE2(data[4..6]);
    FromLE2(data[6..8]);
    Rect(FromLE(data[0..2]), FromLE(data[2..4]), FromLE(data[4..6]), FromLE(data[6..8]))
  }

  predicate Sound(p: Pending, width: nat, height: nat) {
    Fits(p.rect, width, height) && p.total == RECT_HEADER_BYTES + PixelBytes(p.rect)
  }

  predicate Valid(s: State) {
    && |s.pixels| == s.width * s.height * 3
    && forall k :: k in s.pending ==> Sound(s.pending[k], s.width, s.height)
  }

  function IngestChunk(s: State, c: Chunk): (State, bool)
    requires Valid(s)
  {
    if c.offset == 0 && (|c.data| < RECT_HEADER_BYTES || !Fits(ReadRect(c.data), s.width, s.height)) then (s, false)
    else
      var begun := if c.offset == 0 then
          var r := ReadRect(c.data);
          s.pending[c.session := Pending(r, RECT_HEADER_BYTES + PixelBytes(r), [])]
        else s.pending;
      if c.session !in begun then (s.(dropped := s.dropped + 1), false)
      else
        var p := begun[c.session];
        var frame := p.(chunks := Put(p.chunks, Entry(c.offset, c.data)));
        if Received(frame.chunks) < frame.total then (s.(pending := begun[c.session := frame]), false)
        else
          var later := begun - {c.session};
          match Payload(frame.chunks, frame.total)
          case None => (s.(pending := later, dropped := s.dropped + 1), false)
          case Some(payload) =>
            (s.(pending := later, applied := s.applied + 1,
                pixels := Painted(s.pixels, s.width, s.height, frame.rect, payload)), true)
  }

  class Framebuffer {
    const width: nat
    const height: nat
    const pixels: array<byte>
    var framesApplied: nat
    var framesDropped: nat
    var pending: map<u16, Pending>

    function Value(): State
      reads this, pixels
    {
      State(width, height, pixels[..], pending, framesApplied, framesDropped)
    }

    constructor (width: nat, height: nat)
      ensures Valid(Value()) && fresh(pixels)
      ensures Value() == State(width, height, seq<byte>(width * height * 3, _ => 0), map[], 0, 0)
    {
      this.width, this.height := width, height;
      pixels := new byte[width * height * 3](_ => 0);
      framesApplied, framesDropped, pending := 0, 0, map[];
    }

    /** Feeds one side-channel chunk; true when it completed a rectangle. */
    method Ingest(session: u16, offset: u32, data: seq<byte>) returns (completed: bool)
      requires Valid(Value())
      modifies this, pixels
      ensures (Value(), completed) == IngestChunk(old(Value()), Chunk(session, offset, data))
      ensures Valid(Value())
    {
      hide Painted, Payload, Put, Received, ReadRect, PixelBytes;
      if offset == 0 {
        if |data| < RECT_HEADER_BYTES {
          return false;
        }
        var r := ReadRect(data);
        if r.x2 < r.x1 || r.y2 < r.y1 || r.x2 >= width || r.y2 >= height {
          return false;
        }
        pending := pending[session := Pending(r, RECT_HEADER_BYTES + PixelBytes(r), [])];
      }
      if session !in pending {
        framesDropped := framesDropped + 1;
        return false;
      }
      ghost var begun := pending;
      var frame := pending[session];
      frame := frame.(chunks := Put(frame.chunks, Entry(offset, data)));
      pending := pending[session := frame];
      if Received(frame.chunks) < frame.total {
        return false;
      }
      var payload := AssemblePayload(frame.chunks, frame.total);
      pending := pending - {session};
      assert pending == begun - {session};
      if payload.None? {
        framesDropped := framesDropped + 1;
        return false;
      }
      Blit(frame.rect, payload.value);
      framesApplied := framesApplied + 1;
      return true;
    }

    method Blit(r: Rect, payload: seq<byte>)
      requires Fits(r, width, height) && |payload| == PixelBytes(r) && pixels.Length == width * height * 3
      modifies pixels
      ensures pixels[..] == Painted(old(pixels[..]), width, height, r, payload)
    {
      var rectWidth := r.x2 - r.x1 + 1;
      ghost var was := pixels[..];
      ghost var final := Painted(was, width, height, r, payload);
      PaintStart(was, width, height, r, payload);
      hide Painted, PaintedSoFar, Channel, Col, Row, Done;
      for row := 0 to r.y2 - r.y1 + 1
        invariant PaintedSoFar(pixels[..], was, final, width, r, row, 0)
      {
        var source := row * rectWidth * 2;
        var target := ((r.y1 + row) * width + r.x1) * 3;
        for column := 0 to rectWidth
          invariant PaintedSoFar(pixels[..], was, final, width, r, row, column)
        {
          SourceIndexAt(r, row, column);
          IndexInside(width, height, r.x1 + column, r.y1 + row);
          var low: int, high: int := payload[source + column * 2], payload[source + column * 2 + 1];
          var value: u16 := low + 256 * high;
          var index := target + column * 3;
          assert index == Index(width, r.x1 + column, r.y1 + row);
          ghost var now := pixels[..];
          pixels[index] := Channel(value, 0);
          pixels[index + 1] := Channel(value, 1);
          pixels[index + 2] := Channel(value, 2);
          assert value == SourcePixel(r, payload, r.x1 + column, r.y1 + row);
          assert pixels[..] == WithPixel(now, index, value);
          PaintPixel(now, pixels[..], was, width, height, r, payload, row, column);
        }
        PaintRow(pixels[..], was, final, width, r, row);
      }
      PaintEnd(pixels[..], was, width, height, r, payload);
    }
  }

  // What is kept of chunks that meet.

  /** Of the chunks covering a byte the last one in the dictionary's order decides it. */
  lemma {:induction false} LastWins(chunks: seq<Entry>, k: nat, i: nat)
    requires k < |chunks| && chunks[k].offset <= i < End(chunks[k])
    requires forall j :: k < j < |chunks| ==> !(chunks[j].offset <= i < End(chunks[j]))
    ensures ByteAt(chunks, i) == chunks[k].data[i - chunks[k].offset]
  {
    if k < |chunks| - 1 {
      LastWins(chunks[..|chunks| - 1], k, i);
    }
  }

  /** A chunk at an offset already held takes the other's place; one at a new offset goes last. */
  lemma {:induction false} PutPlaces(chunks: seq<Entry>, e: Entry, k: nat)
    requires k <= |chunks| && forall j :: 0 <= j < k ==> chunks[j].offset != e.offset
    requires k < |chunks| ==> chunks[k].offset == e.offset
    ensures Put(chunks, e) == if k < |chunks| then chunks[k := e] else chunks + [e]
  {
    if k > 0 {
      PutPlaces(chunks[1..], e, k - 1);
      assert chunks == [chunks[0]] + chunks[1..];
    }
  }
}
