/** End to end: what LVGL flushed on the device is what the host mirror shows. */
module ScreenMirror {
  import opened Bytes
  import opened BinaryFrame
  import opened SerialLink
  import opened DisplayStream
  import opened Framebuffer
  import opened Reassembly
  import opened WholeRectangle

  /** A rectangle and its RGB565 values, row by row. */
  datatype Flush = Flush(rect: Rect, colours: seq<u16>)

  /** RGB565 values in memory: two bytes each, low byte first. */
  function BytesOf(colours: seq<u16>): (bytes: seq<byte>)
    ensures |bytes| == 2 * |colours|
    ensures forall k :: 0 <= k < |colours| ==>
              bytes[2 * k] == colours[k] % 256 && bytes[2 * k + 1] == colours[k] / 256
  {
    if colours == [] then []
    else
      var last := |colours| - 1;
      BytesOf(colours[..last]) + [colours[last] % 256, colours[last] / 256]
  }

  function Pixels(f: Flush): seq<byte> { BytesOf(f.colours) }

  /** A flush LVGL makes on a screen of this size. */
  predicate Ready(f: Flush, width: nat, height: nat) {
    && Fits(f.rect, width, height)
    && |f.colours| == RectWidth(f.rect) * RectHeight(f.rect)
    && RECT_HEADER_BYTES + 2 * |f.colours| <= 0x1_0000_0000
  }

  predicate AllReady(flushes: seq<Flush>, width: nat, height: nat) {
    forall k :: 0 <= k < |flushes| ==> Ready(flushes[k], width, height)
  }

  // The device's own screen: RGB565 values, row-major.

  function Draw(screen: seq<u16>, f: Flush, width: nat, height: nat): (drawn: seq<u16>)
    requires Ready(f, width, height)
    ensures |drawn| == |screen|
  {
    seq<u16>(|screen|, p requires 0 <= p < |screen| =>
      var x, y := p % width, p / width;
      if f.rect.x1 <= x <= f.rect.x2 && f.rect.y1 <= y <= f.rect.y2 then
        ColourIndex(f.rect, x, y);
        f.colours[(y - f.rect.y1) * (f.rect.x2 - f.rect.x1 + 1) + (x - f.rect.x1)]
      else screen[p])
  }

  lemma ColourIndex(r: Rect, x: nat, y: nat)
    requires r.x1 <= r.x2 && r.y1 <= r.y2 && InRect(r, x, y)
    ensures 0 <= (y - r.y1) * (r.x2 - r.x1 + 1) + (x - r.x1) < RectWidth(r) * RectHeight(r)
  {
    SourceIndex(r, x, y);
  }

  /** The byte order and stride the host reads with are those LVGL wrote with. */
  lemma SourceIsColour(f: Flush, width: nat, height: nat, x: nat, y: nat)
    requires Ready(f, width, height) && InRect(f.rect, x, y)
    ensures |Pixels(f)| == PixelBytes(f.rect)
    ensures 0 <= (y - f.rect.y1) * (f.rect.x2 - f.rect.x1 + 1) + (x - f.rect.x1) < |f.colours|
    ensures SourcePixel(f.rect, Pixels(f), x, y)
         == f.colours[(y - f.rect.y1) * (f.rect.x2 - f.rect.x1 + 1) + (x - f.rect.x1)]
  {
    ColourIndex(f.rect, x, y);
    hide BytesOf;
  }

  function DrawAll(screen: seq<u16>, flushes: seq<Flush>, width: nat, height: nat): (drawn: seq<u16>)
    requires AllReady(flushes, width, height)
    ensures |drawn| == |screen|
    decreases |flushes|
  {
    if flushes == [] then screen else DrawAll(Draw(screen, flushes[0], width, height), flushes[1..], width, height)
  }

  predicate DrawnBy(f: Flush, width: nat, p: nat) {
    width > 0 && InRect(f.rect, p % width, p / width)
  }

  /** The pixels some flush has drawn. */
  predicate Drawn(flushes: seq<Flush>, width: nat, p: nat) {
    exists k :: 0 <= k < |flushes| && DrawnBy(flushes[k], width, p)
  }

  // The device end: every flush under the next session number.

  function Next16(n: u16): u16 { (n + 1) % 0x1_0000 }

  function Streamed(frameId: u16, flushes: seq<Flush>, maxChunk: nat): seq<Chunk>
    requires maxChunk > RECT_HEADER_BYTES
    decreases |flushes|
  {
    if flushes == [] then []
    else Stamp(frameId, 0, FlushPieces(flushes[0].rect, Pixels(flushes[0]), maxChunk))
         + Streamed(Next16(frameId), flushes[1..], maxChunk)
  }

  function SessionAt(frameId: u16, k: nat): u16 { (frameId + k) % 0x1_0000 }

  /** Flush after flush, as `Display.Flush` hands each to a carrier that refuses nothing: what the carrier was handed in
      all is the stream. `runs` are the carrier's logs between the flushes. */
  lemma {:induction false} DeviceStreams(answer: nat -> int, runs: seq<seq<Chunk>>, errors: seq<int>, frameId: u16,
                                         flushes: seq<Flush>, maxChunk: nat)
    requires maxChunk > RECT_HEADER_BYTES && |runs| == |flushes| + 1 && |errors| == |flushes|
    requires forall n: nat :: answer(n) == ESP_OK
    requires forall k :: 0 <= k < |flushes| ==>
               HandedOut(answer, runs[k], runs[k + 1], errors[k],
                 Stamp(SessionAt(frameId, k), 0, FlushPieces(flushes[k].rect, Pixels(flushes[k]), maxChunk)))
    ensures runs[|flushes|] == runs[0] + Streamed(frameId, flushes, maxChunk)
    ensures forall k :: 0 <= k < |flushes| ==> errors[k] == ESP_OK
    decreases |flushes|
  {
    hide HandedOut, Stamp, FlushPieces, Pixels;
    if flushes == [] {
      assert runs[0] + [] == runs[0];
    } else {
      var first := Stamp(frameId, 0, FlushPieces(flushes[0].rect, Pixels(flushes[0]), maxChunk));
      assert SessionAt(frameId, 0) == frameId;
      HandedOutAll(answer, runs[0], runs[1], errors[0], first);
      forall k | 0 <= k < |flushes| - 1
        ensures HandedOut(answer, runs[1..][k], runs[1..][k + 1], errors[1..][k],
                  Stamp(SessionAt(Next16(frameId), k), 0,
                    FlushPieces(flushes[1..][k].rect, Pixels(flushes[1..][k]), maxChunk)))
      {
        assert SessionAt(Next16(frameId), k) == SessionAt(frameId, k + 1);
      }
      DeviceStreams(answer, runs[1..], errors[1..], Next16(frameId), flushes[1..], maxChunk);
      assert forall k :: 1 <= k < |flushes| ==> errors[k] == errors[1..][k - 1];
    }
  }

  // The host end: reads go through the link, and the frames of each read are ingested before the next.

  function HostRun(rest: seq<byte>, s: State, pieces: seq<seq<byte>>): (seq<byte>, State)
    requires Valid(s)
    decreases |pieces|
  {
    if pieces == [] then (rest, s)
    else if pieces[0] == [] then HostRun(rest, s, pieces[1..])
    else
      var split := Demux(rest + pieces[0]);
      IngestAppend(s, ChunksOf(split.items), []);
      HostRun(split.rest, IngestAll(s, ChunksOf(split.items)), pieces[1..])
  }

  /** One pump of a session: a read, then every frame it completed, in order. Returns the rectangles applied. */
  method PumpSession(link: Link, frame: Framebuffer, data: seq<byte>) returns (applied: nat)
    requires link.frames == [] && Valid(frame.Value())
    modifies link, frame, frame.pixels
    ensures link.frames == [] && Valid(frame.Value())
    ensures (link.raw, frame.Value()) == HostRun(old(link.raw), old(frame.Value()), [data])
    ensures applied == frame.framesApplied - old(frame.framesApplied)
  {
    hide Demux, IngestChunk, ChunksOf, Valid;
    ghost var start := frame.Value();
    ghost var raw := link.raw;
    var polled := link.PollFrames(data);
    assert [data][1..] == [] && polled[..0] == [];
    IngestAppend(start, polled, []);
    assert data == [] ==> polled == [];
    applied := 0;
    for k := 0 to |polled|
      invariant Valid(frame.Value()) && frame.Value() == IngestAll(start, polled[..k])
      invariant applied == frame.framesApplied - start.applied
      invariant link.frames == []
      invariant link.raw == if data == [] then raw else Demux(raw + data).rest
    {
      var c := polled[k];
      IngestAppend(start, polled[..k], [c]);
      assert polled[..k + 1] == polled[..k] + [c];
      IngestOne(frame.Value(), c);
      var completed := frame.Ingest(c.session, c.offset, c.data);
      if completed {
        applied := applied + 1;
      }
    }
    assert polled[..|polled|] == polled;
    assert HostRun(link.raw, frame.Value(), []) == (link.raw, frame.Value());
  }

  lemma {:induction false} IngestOne(s: State, c: Chunk)
    requires Valid(s)
    ensures IngestAll(s, [c]) == IngestChunk(s, c).0
    ensures IngestChunk(s, c).0.applied == s.applied + if IngestChunk(s, c).1 then 1 else 0
  {
    hide Painted, Payload, Put, Received, ReadRect, PixelBytes;
    assert [c][1..] == [];
    StaysValid(s, c);
  }

  /** Reading and ingesting in turns is ingesting what the whole stream holds. */
  lemma {:induction false} HostRunIsFeed(rest: seq<byte>, s: State, pieces: seq<seq<byte>>)
    requires Valid(s)
    ensures HostRun(rest, s, pieces)
         == (Feed(rest, pieces).rest, IngestAll(s, ChunksOf(Feed(rest, pieces).items)))
    decreases |pieces|
  {
    hide Demux, Valid, IngestChunk;
    if pieces == [] {
      assert ChunksOf([]) == [];
    } else if pieces[0] == [] {
      HostRunIsFeed(rest, s, pieces[1..]);
    } else {
      var split := Demux(rest + pieces[0]);
      var later := Feed(split.rest, pieces[1..]);
      IngestAppend(s, ChunksOf(split.items), ChunksOf(later.items));
      HostRunIsFeed(split.rest, IngestAll(s, ChunksOf(split.items)), pieces[1..]);
      ProjectionsAppend(split.items, later.items);
    }
  }

  // One flush.

  function SentFlush(session: u16, f: Flush, maxChunk: nat): Sent
    requires maxChunk > RECT_HEADER_BYTES
  {
    Sent(session, f.rect, Pixels(f), FlushPieces(f.rect, Pixels(f), maxChunk))
  }

  lemma FlushIsWellSent(session: u16, f: Flush, maxChunk: nat, width: nat, height: nat)
    requires Ready(f, width, height) && maxChunk > RECT_HEADER_BYTES
    ensures WellSent(SentFlush(session, f, maxChunk), width, height)
  {
    FlushIsCut(f.rect, Pixels(f), maxChunk);
    var pieces := FlushPieces(f.rect, Pixels(f), maxChunk);
    forall i | 0 <= i < |pieces| ensures pieces[i] != [] { assert 1 <= |pieces[i]|; }
  }

  /** Every known pixel shows the device's value; `known` are the pixels the host can know. */
  ghost predicate Mirrors(s: State, screen: seq<u16>, known: iset<nat>)
  {
    && |s.pixels| == 3 * |screen|
    && forall i :: 0 <= i < |s.pixels| && i / 3 in known ==> s.pixels[i] == Channel(screen[i / 3], i % 3)
  }

  ghost function Learn(known: iset<nat>, f: Flush, width: nat): iset<nat> {
    iset p: nat | p in known || DrawnBy(f, width, p)
  }

  lemma FlushMirrors(s: State, screen: seq<u16>, known: iset<nat>, t: Sent, f: Flush)
    requires Valid(s) && Ready(f, s.width, s.height) && WellSent(t, s.width, s.height)
    requires t.rect == f.rect && t.pixels == Pixels(f)
    requires Mirrors(s, screen, known)
    ensures Mirrors(Completed(s, t), Draw(screen, f, s.width, s.height), Learn(known, f, s.width))
  {
    hide Channel, SourcePixel, WellSent, Valid, PixelBytes, Draw, Completed, Pixels, Learn;
    var drawn := Draw(screen, f, s.width, s.height);
    forall i | 0 <= i < |s.pixels|
      ensures |Completed(s, t).pixels| == |s.pixels|
      ensures i / 3 in Learn(known, f, s.width) ==> Completed(s, t).pixels[i] == Channel(drawn[i / 3], i % 3)
    {
      FlushMirrorsAt(s, screen, known, t, f, i);
    }
    assert |Completed(s, t).pixels| == |s.pixels| by { CompletedSize(s, t); }
  }

  lemma CompletedSize(s: State, t: Sent)
    requires WellSent(t, s.width, s.height)
    ensures |Completed(s, t).pixels| == |s.pixels|
  {
    hide WellSent, Painted;
  }

  lemma FlushMirrorsAt(s: State, screen: seq<u16>, known: iset<nat>, t: Sent, f: Flush, i: nat)
    requires Ready(f, s.width, s.height) && WellSent(t, s.width, s.height)
    requires t.rect == f.rect && t.pixels == Pixels(f)
    requires Mirrors(s, screen, known) && i < |s.pixels|
    ensures |Completed(s, t).pixels| == |s.pixels|
    ensures i / 3 in Learn(known, f, s.width)
            ==> Completed(s, t).pixels[i] == Channel(Draw(screen, f, s.width, s.height)[i / 3], i % 3)
  {
    hide Channel, SourcePixel, WellSent, PixelBytes, Pixels, BytesOf, Ready, Draw, Completed;
    DrawnAt(screen, f, s.width, s.height, i / 3);
    CompletedAt(s, t, i);
    hide InRect;
  }

  lemma DrawnAt(screen: seq<u16>, f: Flush, width: nat, height: nat, p: nat)
    requires Ready(f, width, height) && p < |screen|
    ensures width > 0 && |Pixels(f)| == PixelBytes(f.rect)
    ensures Draw(screen, f, width, height)[p]
         == if InRect(f.rect, p % width, p / width) then SourcePixel(f.rect, Pixels(f), p % width, p / width)
            else screen[p]
  {
    if InRect(f.rect, p % width, p / width) {
      SourceIsColour(f, width, height, p % width, p / width);
    }
    hide SourcePixel, BytesOf;
  }

  lemma CompletedState(s: State, t: Sent)
    requires Valid(s) && WellSent(t, s.width, s.height)
    ensures var u := Completed(s, t);
            && Valid(u) && u.width == s.width && u.height == s.height
            && u.applied == s.applied + 1 && u.dropped == s.dropped
            && u.pending == s.pending - {t.session}
  {
    hide Painted, WellSent, Sound;
  }

  /** The first flush of a stream, chunk by chunk into the mirror. */
  lemma {:induction false} FirstFlush(s: State, frameId: u16, flushes: seq<Flush>, maxChunk: nat) returns (t: Sent)
    requires Valid(s) && flushes != [] && Ready(flushes[0], s.width, s.height) && maxChunk > RECT_HEADER_BYTES
    ensures t == SentFlush(frameId, flushes[0], maxChunk) && WellSent(t, s.width, s.height)
    ensures Valid(Completed(s, t)) && Valid(IngestAll(s, Streamed(frameId, flushes, maxChunk)))
    ensures IngestAll(s, Streamed(frameId, flushes, maxChunk))
         == IngestAll(Completed(s, t), Streamed(Next16(frameId), flushes[1..], maxChunk))
  {
    t := SentFlush(frameId, flushes[0], maxChunk);
    FlushIsWellSent(frameId, flushes[0], maxChunk, s.width, s.height);
    hide WellSent, Valid, IngestChunk, IngestAll, Completed, Stamp, FlushPieces, Ready;
    IngestAppend(s, Stamp(frameId, 0, t.pieces), Streamed(Next16(frameId), flushes[1..], maxChunk));
    IngestAppend(s, Streamed(frameId, flushes, maxChunk), []);
    InOrder(s, t);
    CompletedState(s, t);
  }

  /** All flushes, chunk by chunk into the mirror. */
  lemma {:induction false} StreamMirrors(s: State, screen: seq<u16>, known: iset<nat>, frameId: u16,
                                         flushes: seq<Flush>, maxChunk: nat)
    requires Valid(s) && s.pending == map[] && AllReady(flushes, s.width, s.height) && maxChunk > RECT_HEADER_BYTES
    requires Mirrors(s, screen, known)
    ensures Valid(IngestAll(s, Streamed(frameId, flushes, maxChunk)))
    ensures var u := IngestAll(s, Streamed(frameId, flushes, maxChunk));
            && u.pending == map[] && u.dropped == s.dropped && u.applied == s.applied + |flushes|
            && Mirrors(u, DrawAll(screen, flushes, s.width, s.height),
                 iset p: nat | p in known || Drawn(flushes, s.width, p))
    decreases |flushes|
  {
    if flushes == [] {
      assert Streamed(frameId, flushes, maxChunk) == [];
    } else {
      hide WellSent, Valid, IngestChunk, IngestAll, Completed, Mirrors, Draw, Learn, Drawn, SentFlush, Streamed, Ready;
      var f, later := flushes[0], flushes[1..];
      var t := FirstFlush(s, frameId, flushes, maxChunk);
      assert t.rect == f.rect && t.pixels == Pixels(f) by { SentIs(frameId, f, maxChunk); }
      CompletedState(s, t);
      FlushMirrors(s, screen, known, t, f);
      StreamMirrors(Completed(s, t), Draw(screen, f, s.width, s.height), Learn(known, f, s.width), Next16(frameId),
        later, maxChunk);
      LearntInTurn(known, flushes, s.width);
    }
  }

  lemma SentIs(session: u16, f: Flush, maxChunk: nat)
    requires maxChunk > RECT_HEADER_BYTES
    ensures SentFlush(session, f, maxChunk).rect == f.rect && SentFlush(session, f, maxChunk).pixels == Pixels(f)
  {}

  lemma LearntInTurn(known: iset<nat>, flushes: seq<Flush>, width: nat)
    requires flushes != []
    ensures (iset p: nat | p in Learn(known, flushes[0], width) || Drawn(flushes[1..], width, p))
         == (iset p: nat | p in known || Drawn(flushes, width, p))
  {
    forall p: nat { DrawnCons(flushes, width, p); }
    hide Drawn, DrawnBy;
  }

  lemma DrawnCons(flushes: seq<Flush>, width: nat, p: nat)
    requires flushes != []
    ensures Drawn(flushes, width, p) == (DrawnBy(flushes[0], width, p) || Drawn(flushes[1..], width, p))
  {
    if Drawn(flushes[1..], width, p) {
      var k :| 0 <= k < |flushes[1..]| && DrawnBy(flushes[1..][k], width, p);
      assert flushes[k + 1] == flushes[1..][k];
    }
    if Drawn(flushes, width, p) && !DrawnBy(flushes[0], width, p) {
      var k :| 0 <= k < |flushes| && DrawnBy(flushes[k], width, p);
      assert flushes[1..][k - 1] == flushes[k];
    }
  }

  /** The mirror is the screen. For every sequence of flushes, log text free of markers anywhere between frames, and
      every way the byte stream is cut into reads: once all bytes are in, every pixel that was right before or that some
      flush has drawn shows the device's value (from which `Recoverable` reads it back), every flush was applied,
      nothing was dropped, nothing is pending or undecided, and the text is exactly the log. */
  lemma {:induction false} EndToEnd(s: State, screen: seq<u16>, known: iset<nat>, frameId: u16, flushes: seq<Flush>,
                                    maxChunk: nat, items: seq<Item>, pieces: seq<seq<byte>>)
    requires Valid(s) && s.pending == map[] && Mirrors(s, screen, known)
    requires AllReady(flushes, s.width, s.height) && maxChunk > RECT_HEADER_BYTES
    requires Clean(items) && ChunksOf(items) == Streamed(frameId, flushes, maxChunk)
    requires Carried(items) && Joined(pieces) == Wire(items)
    ensures Feed([], pieces) == Split(items, [])
    ensures var (rest, u) := HostRun([], s, pieces);
            && rest == []
            && u.applied == s.applied + |flushes| && u.dropped == s.dropped && u.pending == map[]
            && Mirrors(u, DrawAll(screen, flushes, s.width, s.height),
                 iset p: nat | p in known || Drawn(flushes, s.width, p))
  {
    WholeStream(items, pieces);
    HostRunIsFeed([], s, pieces);
    hide Demux, Feed, HostRun, Streamed, Clean, Carried, Wire, IngestAll, Valid, DrawAll, Drawn, Mirrors;
    StreamMirrors(s, screen, known, frameId, flushes, maxChunk);
  }

  // The same, pixel by pixel and in numbers.

  /** What a screen shows at a pixel is the value of the last flush that covers it. */
  lemma {:induction false} LastDrawn(screen: seq<u16>, flushes: seq<Flush>, width: nat, height: nat, k: nat, x: nat, y: nat)
    requires AllReady(flushes, width, height) && |screen| == width * height
    requires k < |flushes| && x < width && y < height && InRect(flushes[k].rect, x, y)
    requires forall m :: k < m < |flushes| ==> !InRect(flushes[m].rect, x, y)
    ensures 0 <= y * width + x < |screen|
    ensures var f := flushes[k];
            var index := (y - f.rect.y1) * (f.rect.x2 - f.rect.x1 + 1) + (x - f.rect.x1);
            && 0 <= index < |f.colours|
            && DrawAll(screen, flushes, width, height)[y * width + x] == f.colours[index]
    decreases |flushes|
  {
    var p := y * width + x;
    IndexInside(width, height, x, y);
    Quotient(width, y, x);
    ColourIndex(flushes[k].rect, x, y);
    var next := Draw(screen, flushes[0], width, height);
    if k > 0 {
      LastDrawn(next, flushes[1..], width, height, k - 1, x, y);
    } else {
      NotDrawn(next, flushes[1..], width, height, x, y);
    }
  }

  lemma {:induction false} NotDrawn(screen: seq<u16>, flushes: seq<Flush>, width: nat, height: nat, x: nat, y: nat)
    requires AllReady(flushes, width, height) && |screen| == width * height && x < width && y < height
    requires forall m :: 0 <= m < |flushes| ==> !InRect(flushes[m].rect, x, y)
    ensures 0 <= y * width + x < |screen|
    ensures DrawAll(screen, flushes, width, height)[y * width + x] == screen[y * width + x]
    decreases |flushes|
  {
    IndexInside(width, height, x, y);
    Quotient(width, y, x);
    if flushes != [] {
      NotDrawn(Draw(screen, flushes[0], width, height), flushes[1..], width, height, x, y);
    }
  }

  /** Column i, row j of flush k lies inside it, and no later flush covers that pixel. */
  predicate OnTop(flushes: seq<Flush>, k: nat, i: nat, j: nat)
    requires k < |flushes|
  {
    var r := flushes[k].rect;
    && r.x1 + i <= r.x2 && r.y1 + j <= r.y2
    && (forall m :: k < m < |flushes| ==> !InRect(flushes[m].rect, r.x1 + i, r.y1 + j))
  }

  /** The three bytes at pixel p of the mirror: five bits of red, six of green and five of blue of an RGB565 value, each
      widened by repeating its leading bits. */
  predicate ShowsColour(u: State, p: nat, colour: u16) {
    var red, green, blue := colour / 2048, colour / 32 % 64, colour % 32;
    && 3 * p + 2 < |u.pixels|
    && u.pixels[3 * p] == red * 8 + red / 4
    && u.pixels[3 * p + 1] == green * 4 + green / 16
    && u.pixels[3 * p + 2] == blue * 8 + blue / 4
  }

  /** The flush gives column i, row j this colour, row-major. */
  predicate Flushed(f: Flush, i: nat, j: nat, colour: u16) {
    var index := j * (f.rect.x2 - f.rect.x1 + 1) + i;
    0 <= index < |f.colours| && f.colours[index] == colour
  }

  /** Column i, row j of a flush is shown at its place, row-major on both sides. */
  predicate ShowsAt(u: State, f: Flush, i: nat, j: nat) {
    var index := j * (f.rect.x2 - f.rect.x1 + 1) + i;
    && 0 <= index < |f.colours|
    && ShowsColour(u, (f.rect.y1 + j) * u.width + (f.rect.x1 + i), f.colours[index])
  }

  /** Once all bytes are in, every column and row of every flush, unless a later flush covers that pixel, is shown at its
      place in the flushed colour. */
  lemma {:induction false} PixelForPixel(s: State, screen: seq<u16>, frameId: u16, flushes: seq<Flush>, maxChunk: nat,
                                         items: seq<Item>, pieces: seq<seq<byte>>, k: nat, i: nat, j: nat)
    requires Valid(s) && s.pending == map[] && |s.pixels| == 3 * |screen|
    requires AllReady(flushes, s.width, s.height) && maxChunk > RECT_HEADER_BYTES
    requires Clean(items) && ChunksOf(items) == Streamed(frameId, flushes, maxChunk)
    requires Carried(items) && Joined(pieces) == Wire(items)
    requires k < |flushes| && OnTop(flushes, k, i, j)
    ensures ShowsAt(HostRun([], s, pieces).1, flushes[k], i, j)
  {
    hide *;
    NothingKnown(s, screen);
    EndToEnd(s, screen, iset{}, frameId, flushes, maxChunk, items, pieces);
    SameWidth(s, pieces);
    InsideScreen(s, flushes, k, i, j);
    var nothing: iset<nat> := iset{};
    var known := iset q: nat | q in nothing || Drawn(flushes, s.width, q);
    MirrorsFlush(HostRun([], s, pieces).1, screen, known, flushes, s.width, s.height, k, i, j);
  }

  lemma {:induction false} SameWidth(s: State, pieces: seq<seq<byte>>)
    requires Valid(s)
    ensures HostRun([], s, pieces).1.width == s.width
  {
    HostRunIsFeed([], s, pieces);
    SameSize(s, ChunksOf(Feed([], pieces).items));
    hide HostRun, Feed, IngestAll, ChunksOf, Valid;
  }

  lemma {:induction false} MirrorsFlush(u: State, screen: seq<u16>, known: iset<nat>, flushes: seq<Flush>, width: nat, height: nat, k: nat,
                     i: nat, j: nat)
    requires AllReady(flushes, width, height) && u.width == width && |screen| == width * height
    requires k < |flushes| && OnTop(flushes, k, i, j)
    requires flushes[k].rect.x1 + i < width && flushes[k].rect.y1 + j < height
    requires Mirrors(u, DrawAll(screen, flushes, width, height), known)
    requires forall p: nat :: Drawn(flushes, width, p) ==> p in known
    ensures ShowsAt(u, flushes[k], i, j)
  {
    hide *;
    var p, colour := TopColour(screen, flushes, width, height, k, i, j);
    ShownAt(u, DrawAll(screen, flushes, width, height), known, p);
    ShowsFlushed(u, flushes[k], i, j, p, colour);
  }

  /** Where a column and row that is on top lies on the screen, and the colour there. */
  lemma TopColour(screen: seq<u16>, flushes: seq<Flush>, width: nat, height: nat, k: nat, i: nat, j: nat)
    returns (p: nat, colour: u16)
    requires AllReady(flushes, width, height) && |screen| == width * height
    requires k < |flushes| && OnTop(flushes, k, i, j)
    requires flushes[k].rect.x1 + i < width && flushes[k].rect.y1 + j < height
    ensures p < |screen| && DrawAll(screen, flushes, width, height)[p] == colour && Drawn(flushes, width, p)
    ensures p == (flushes[k].rect.y1 + j) * width + (flushes[k].rect.x1 + i)
    ensures Flushed(flushes[k], i, j, colour)
  {
    var r := flushes[k].rect;
    hide AllReady, DrawAll, Drawn;
    LastDrawn(screen, flushes, width, height, k, r.x1 + i, r.y1 + j);
    CoveredIsDrawn(flushes, width, k, r.x1 + i, r.y1 + j);
    p := (r.y1 + j) * width + (r.x1 + i);
    colour := DrawAll(screen, flushes, width, height)[p];
  }

  lemma ShowsFlushed(u: State, f: Flush, i: nat, j: nat, p: nat, colour: u16)
    requires Flushed(f, i, j, colour) && ShowsColour(u, p, colour)
    requires p == (f.rect.y1 + j) * u.width + (f.rect.x1 + i)
    ensures ShowsAt(u, f, i, j)
  {
    hide ShowsColour;
  }

  lemma NothingKnown(s: State, screen: seq<u16>)
    requires |s.pixels| == 3 * |screen|
    ensures Mirrors(s, screen, iset{})
  {}

  lemma CoveredIsDrawn(flushes: seq<Flush>, width: nat, k: nat, x: nat, y: nat)
    requires k < |flushes| && x < width && InRect(flushes[k].rect, x, y)
    ensures Drawn(flushes, width, y * width + x)
  {
    Quotient(width, y, x);
    assert DrawnBy(flushes[k], width, y * width + x);
  }

  lemma ShownAt(u: State, screen: seq<u16>, known: iset<nat>, p: nat)
    requires Mirrors(u, screen, known) && p in known && p < |screen|
    ensures ShowsColour(u, p, screen[p])
  {
    Widened(screen[p]);
    hide Channel;
    assert (3 * p) / 3 == p && (3 * p + 1) / 3 == p && (3 * p + 2) / 3 == p;
  }

  lemma InsideScreen(s: State, flushes: seq<Flush>, k: nat, i: nat, j: nat)
    requires Valid(s) && AllReady(flushes, s.width, s.height) && k < |flushes| && OnTop(flushes, k, i, j)
    ensures flushes[k].rect.x1 + i < s.width && flushes[k].rect.y1 + j < s.height
    ensures |s.pixels| == 3 * (s.width * s.height)
  {
    assert Ready(flushes[k], s.width, s.height);
  }

  lemma Widened(colour: u16)
    ensures Channel(colour, 0) == colour / 2048 * 8 + colour / 2048 / 4
    ensures Channel(colour, 1) == colour / 32 % 64 * 4 + colour / 32 % 64 / 16
    ensures Channel(colour, 2) == colour % 32 * 8 + colour % 32 / 4
  {}

  function Fresh(width: nat, height: nat): State {
    State(width, height, seq<byte>(width * height * 3, _ => 0), map[], 0, 0)
  }

  function Black(width: nat, height: nat): (screen: seq<u16>)
    ensures |screen| == width * height
  {
    seq<u16>(width * height, _ => 0)
  }

  predicate OnScreen(width: nat, height: nat, p: nat) { p < width * height }

  /** From a black start the whole mirror is the whole screen, pixel for pixel, drawn or not. */
  lemma {:induction false} EndToEndFromBlack(width: nat, height: nat, frameId: u16, flushes: seq<Flush>, maxChunk: nat,
                                             items: seq<Item>, pieces: seq<seq<byte>>)
    requires AllReady(flushes, width, height) && maxChunk > RECT_HEADER_BYTES
    requires Clean(items) && ChunksOf(items) == Streamed(frameId, flushes, maxChunk)
    requires Carried(items) && Joined(pieces) == Wire(items)
    ensures Valid(Fresh(width, height))
    ensures var u := HostRun([], Fresh(width, height), pieces).1;
            var screen := DrawAll(Black(width, height), flushes, width, height);
            && |u.pixels| == 3 * |screen|
            && forall i :: 0 <= i < |u.pixels| ==> u.pixels[i] == Channel(screen[i / 3], i % 3)
  {
    var all := iset p: nat | OnScreen(width, height, p);
    FreshMirrors(width, height, all);
    hide HostRun, Feed, Streamed, Clean, Carried, Wire, DrawAll, Ready, Channel;
    EndToEnd(Fresh(width, height), Black(width, height), all, frameId, flushes, maxChunk, items, pieces);
  }

  lemma FreshMirrors(width: nat, height: nat, known: iset<nat>)
    ensures Valid(Fresh(width, height)) && Mirrors(Fresh(width, height), Black(width, height), known)
  {
    assert forall c: nat :: c < 3 ==> Channel(0, c) == 0;
    hide Channel;
  }

  lemma {:induction false} WholeStream(items: seq<Item>, pieces: seq<seq<byte>>)
    requires Clean(items) && Carried(items) && Joined(pieces) == Wire(items)
    ensures Feed([], pieces) == Split(items, [])
  {
    SplitInvariance([], pieces);
    DemuxWire(items, []);
    assert Wire(items) + [] == Wire(items) && [] + Joined(pieces) == Joined(pieces);
    assert items + [] == items;
  }

  /** With such a chunk size the firmware's encoder refuses no chunk of any flush. */
  lemma {:induction false} StreamedSendable(frameId: u16, flushes: seq<Flush>, maxChunk: nat)
    requires RECT_HEADER_BYTES < maxChunk <= MAX_PAYLOAD
    ensures AllSendable(Streamed(frameId, flushes, maxChunk))
    decreases |flushes|
  {
    if flushes != [] {
      var f := flushes[0];
      FlushSendable(frameId, f.rect, Pixels(f), maxChunk);
      StreamedSendable(Next16(frameId), flushes[1..], maxChunk);
      hide Stamp, FlushPieces, Sendable;
    }
  }
}
