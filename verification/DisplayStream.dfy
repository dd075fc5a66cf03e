/** The streaming display driver: one flushed rectangle leaves as a header-carrying first chunk and further
    pixel chunks under one session number. */
module DisplayStream {
  import opened Bytes
  import opened BinaryFrame

  const RECT_HEADER_BYTES := 8
  const DEFAULT_CHUNK := 1024
  const FIRST_BYTES := RECT_HEADER_BYTES + DEFAULT_CHUNK
  const ESP_OK := 0

  /** Inclusive bounds, as on the wire. */
  datatype Rect = Rect(x1: u16, y1: u16, x2: u16, y2: u16)

  datatype Config = Config(width: u16, height: u16, maxChunk: nat)

  function RectHeader(r: Rect): (h: seq<byte>)
    ensures |h| == RECT_HEADER_BYTES
  {
    ToLE(r.x1, 2) + ToLE(r.y1, 2) + ToLE(r.x2, 2) + ToLE(r.y2, 2)
  }

  predicate Legal(c: Config) {
    c.width != 0 && c.height != 0 && (c.maxChunk == 0 || c.maxChunk > RECT_HEADER_BYTES)
  }

  function Effective(maxChunk: nat): nat {
    if maxChunk > 0 then maxChunk else DEFAULT_CHUNK
  }

  /** The carrier's write callback: it is handed every chunk and answers by the number of chunks before. */
  class Carrier {
    const answer: nat -> int
    var written: seq<Chunk>

    constructor (answer: nat -> int)
      ensures this.answer == answer && written == []
    {
      this.answer := answer;
      written := [];
    }

    method Write(session: u16, offset: u32, data: seq<byte>) returns (err: int)
      modifies this
      ensures written == old(written) + [Chunk(session, offset, data)]
      ensures err == answer(|old(written)|)
    {
      err := answer(|written|);
      written := written + [Chunk(session, offset, data)];
    }
  }

  // The pieces a flush is cut into, and the stamps they are sent under.

  function PixelPieces(pixels: seq<byte>, maxChunk: nat): seq<seq<byte>>
    requires maxChunk > 0
    decreases |pixels|
  {
    if pixels == [] then []
    else if |pixels| < maxChunk then [pixels]
    else [pixels[..maxChunk]] + PixelPieces(pixels[maxChunk..], maxChunk)
  }

  function FirstPixels(len: nat, maxChunk: nat): nat
    requires maxChunk > RECT_HEADER_BYTES
  {
    var capacity := if maxChunk > FIRST_BYTES then DEFAULT_CHUNK else maxChunk - RECT_HEADER_BYTES;
    if len < capacity then len else capacity
  }

  function FlushPieces(r: Rect, pixels: seq<byte>, maxChunk: nat): seq<seq<byte>>
    requires maxChunk > RECT_HEADER_BYTES
  {
    var n := FirstPixels(|pixels|, maxChunk);
    [RectHeader(r) + pixels[..n]] + PixelPieces(pixels[n..], maxChunk)
  }

  /** Consecutive pieces under one session, each at the offset where the one before ended. */
  function Stamp(session: u16, offset: nat, pieces: seq<seq<byte>>): seq<Chunk>
    decreases |pieces|
  {
    if pieces == [] then []
    else [Chunk(session, offset % 0x1_0000_0000, pieces[0])] + Stamp(session, offset + |pieces[0]|, pieces[1..])
  }

  /** Hands out chunks until the first refusal; how many were handed out, and the answer that ended it. */
  function Accepted(answer: nat -> int, already: nat, chunks: seq<Chunk>): (nat, int)
    decreases |chunks|
  {
    if chunks == [] then (0, ESP_OK)
    else if answer(already) != ESP_OK then (1, answer(already))
    else
      var (n, err) := Accepted(answer, already + 1, chunks[1..]);
      (n + 1, err)
  }

  lemma {:induction false} AcceptedPrefix(answer: nat -> int, already: nat, chunks: seq<Chunk>)
    ensures Accepted(answer, already, chunks).0 <= |chunks|
    ensures (forall i :: already <= i < already + |chunks| ==> answer(i) == ESP_OK)
            <==> Accepted(answer, already, chunks) == (|chunks|, ESP_OK)
    decreases |chunks|
  {
    if chunks != [] {
      AcceptedPrefix(answer, already + 1, chunks[1..]);
    }
  }

  /** The carrier was handed `chunks` in order, up to and including the first it refused; `err` is its last answer. */
  predicate HandedOut(answer: nat -> int, before: seq<Chunk>, after: seq<Chunk>, err: int, chunks: seq<Chunk>) {
    var (n, outcome) := Accepted(answer, |before|, chunks);
    n <= |chunks| && after == before + chunks[..n] && err == outcome
  }

  lemma HandedOutFirst(answer: nat -> int, before: seq<Chunk>, after: seq<Chunk>, err: int, first: Chunk,
                       later: seq<Chunk>)
    requires if answer(|before|) == ESP_OK then HandedOut(answer, before + [first], after, err, later)
             else after == before + [first] && err == answer(|before|)
    ensures HandedOut(answer, before, after, err, [first] + later)
  {
    var (n, outcome) := Accepted(answer, |before|, [first] + later);
    assert ([first] + later)[1..] == later;
    assert ([first] + later)[..n] == [first] + later[..n - 1];
  }

  /** A carrier that refuses nothing is handed the whole flush. */
  lemma HandedOutAll(answer: nat -> int, before: seq<Chunk>, after: seq<Chunk>, err: int, chunks: seq<Chunk>)
    requires HandedOut(answer, before, after, err, chunks)
    ensures (forall i :: |before| <= i < |before| + |chunks| ==> answer(i) == ESP_OK)
            ==> after == before + chunks && err == ESP_OK
  {
    AcceptedPrefix(answer, |before|, chunks);
    assert chunks[..|chunks|] == chunks;
  }

  // `done` chunks have been handed out and accepted; the outcome is decided by those still to come.
  predicate Underway(answer: nat -> int, before: seq<Chunk>, now: seq<Chunk>, chunks: seq<Chunk>, done: nat) {
    && done <= |chunks|
    && now == before + chunks[..done]
    && var (n, err) := Accepted(answer, |now|, chunks[done..]);
       Accepted(answer, |before|, chunks) == (n + done, err)
  }

  lemma UnderwayStep(answer: nat -> int, before: seq<Chunk>, now: seq<Chunk>, chunks: seq<Chunk>, done: nat)
    requires Underway(answer, before, now, chunks, done) && done < |chunks|
    ensures answer(|now|) != ESP_OK ==> HandedOut(answer, before, now + [chunks[done]], answer(|now|), chunks)
    ensures answer(|now|) == ESP_OK ==> Underway(answer, before, now + [chunks[done]], chunks, done + 1)
  {
    assert chunks[done..][1..] == chunks[done + 1..];
    assert chunks[..done + 1] == chunks[..done] + [chunks[done]];
  }

  lemma UnderwayEnds(answer: nat -> int, before: seq<Chunk>, now: seq<Chunk>, chunks: seq<Chunk>)
    ensures Underway(answer, before, before, chunks, 0) && chunks[0..] == chunks
    ensures Underway(answer, before, now, chunks, |chunks|) ==> HandedOut(answer, before, now, ESP_OK, chunks)
  {
    assert chunks[0..] == chunks && chunks[|chunks|..] == [];
  }

  class Display {
    var config: Config
    var frameId: u16

    constructor ()
      ensures frameId == 0
    {
      config := Config(0, 0, 0);
      frameId := 0;
    }

    /** The configuration guard. */
    method Configure(c: Config, hasWrite: bool) returns (accepted: bool)
      modifies this`config
      ensures accepted == (hasWrite && Legal(c))
      ensures config == if accepted then c else old(config)
    {
      if !hasWrite || c.width == 0 || c.height == 0 {
        return false;
      }
      if c.maxChunk > 0 && c.maxChunk <= RECT_HEADER_BYTES {
        return false;
      }
      config := c;
      return true;
    }

    method Flush(r: Rect, pixels: array<byte>, len: nat, carrier: Carrier) returns (err: int)
      requires Legal(config) && len <= pixels.Length
      modifies this`frameId, carrier
      ensures frameId == (old(frameId) + 1) % 0x1_0000
      ensures HandedOut(carrier.answer, old(carrier.written), carrier.written, err,
                Stamp(old(frameId), 0, FlushPieces(r, pixels[..len], Effective(config.maxChunk))))
    {
      var maxChunk := if config.maxChunk > 0 then config.maxChunk else DEFAULT_CHUNK;
      var header := RectHeader(r);
      var session := frameId;
      frameId := (frameId + 1) % 0x1_0000;

      var first, firstPixels := FillFirst(header, pixels, len, maxChunk);
      FirstPiece(session, r, pixels[..len], maxChunk);
      assert pixels[..len][..firstPixels] == pixels[..firstPixels];
      ghost var before := carrier.written;
      err := carrier.Write(session, 0, first);
      hide Stamp, FlushPieces, PixelPieces, RectHeader;
      ghost var later := Stamp(session, RECT_HEADER_BYTES + firstPixels,
        PixelPieces(pixels[..len][firstPixels..], maxChunk));
      if err == ESP_OK {
        err := FlushRemaining(session, pixels, firstPixels, len, maxChunk, carrier);
        HandedOutFirst(carrier.answer, before, carrier.written, err, Chunk(session, 0, first), later);
      } else {
        HandedOutFirst(carrier.answer, before, carrier.written, err, Chunk(session, 0, first), later);
      }
    }

    /** The loop over the pixels the first chunk had no room for. */
    method FlushRemaining(session: u16, pixels: array<byte>, start: nat, len: nat, maxChunk: nat, carrier: Carrier)
      returns (err: int)
      requires start <= len <= pixels.Length && maxChunk > 0
      modifies carrier
      ensures HandedOut(carrier.answer, old(carrier.written), carrier.written, err,
                Stamp(session, RECT_HEADER_BYTES + start, PixelPieces(pixels[..len][start..], maxChunk)))
    {
      ghost var shown := pixels[..len];
      ghost var chunks := Stamp(session, RECT_HEADER_BYTES + start, PixelPieces(shown[start..], maxChunk));
      ghost var before := carrier.written;
      hide *;
      SendingStarts(carrier.answer, before, session, shown, maxChunk, start);
      var sent := start;
      while sent < len
        invariant start <= sent <= len
        invariant Sending(carrier.answer, before, carrier.written, chunks, session, shown, maxChunk, sent)
      {
        var remaining := len - sent;
        var chunk := if remaining < maxChunk then remaining else maxChunk;
        var data := pixels[sent..sent + chunk];
        assert data == shown[sent..sent + chunk];
        SendingStep(carrier.answer, before, carrier.written, chunks, session, shown, maxChunk, sent, data);
        err := carrier.Write(session, (RECT_HEADER_BYTES + sent) % 0x1_0000_0000, data);
        if err != ESP_OK {
          return;
        }
        sent := sent + chunk;
      }
      SendingEnds(carrier.answer, before, carrier.written, chunks, session, shown, maxChunk);
      err := ESP_OK;
    }

    /** Assembles the first chunk in its fixed buffer: the header, and as many pixels as fit. */
    method FillFirst(header: seq<byte>, pixels: array<byte>, len: nat, maxChunk: nat)
      returns (data: seq<byte>, firstPixels: nat)
      requires |header| == RECT_HEADER_BYTES && len <= pixels.Length && maxChunk > RECT_HEADER_BYTES
      ensures firstPixels == FirstPixels(len, maxChunk) && data == header + pixels[..firstPixels]
    {
      var first := new byte[FIRST_BYTES];
      var firstCapacity: nat := if maxChunk > FIRST_BYTES then FIRST_BYTES - RECT_HEADER_BYTES
                                else maxChunk - RECT_HEADER_BYTES;
      firstPixels := if len < firstCapacity then len else firstCapacity;
      forall i | 0 <= i < RECT_HEADER_BYTES {
        first[i] := header[i];
      }
      forall i | RECT_HEADER_BYTES <= i < RECT_HEADER_BYTES + firstPixels {
        first[i] := pixels[i - RECT_HEADER_BYTES];
      }
      data := first[..RECT_HEADER_BYTES + firstPixels];
      assert forall i :: 0 <= i < RECT_HEADER_BYTES ==> data[i] == first[i] == header[i];
      assert forall i :: RECT_HEADER_BYTES <= i < RECT_HEADER_BYTES + firstPixels ==>
        data[i] == first[i] == pixels[i - RECT_HEADER_BYTES];
    }
  }

  lemma {:induction false} FirstPiece(session: u16, r: Rect, pixels: seq<byte>, maxChunk: nat)
    requires maxChunk > RECT_HEADER_BYTES
    ensures var n := FirstPixels(|pixels|, maxChunk);
            Stamp(session, 0, FlushPieces(r, pixels, maxChunk))
            == [Chunk(session, 0, RectHeader(r) + pixels[..n])]
               + Stamp(session, RECT_HEADER_BYTES + n, PixelPieces(pixels[n..], maxChunk))
  {
    var n := FirstPixels(|pixels|, maxChunk);
    assert FlushPieces(r, pixels, maxChunk)[1..] == PixelPieces(pixels[n..], maxChunk);
  }

  // The flush loop with `sent` pixels gone: what was handed out, and the chunks left.
  predicate Sending(answer: nat -> int, before: seq<Chunk>, now: seq<Chunk>, chunks: seq<Chunk>, session: u16,
                    pixels: seq<byte>, maxChunk: nat, sent: nat)
    requires maxChunk > 0 && sent <= |pixels|
  {
    && |before| <= |now| <= |before| + |chunks|
    && Underway(answer, before, now, chunks, |now| - |before|)
    && chunks[|now| - |before|..] == Stamp(session, RECT_HEADER_BYTES + sent, PixelPieces(pixels[sent..], maxChunk))
  }

  lemma SendingStarts(answer: nat -> int, before: seq<Chunk>, session: u16, pixels: seq<byte>, maxChunk: nat,
                      start: nat)
    requires maxChunk > 0 && start <= |pixels|
    ensures Sending(answer, before, before,
              Stamp(session, RECT_HEADER_BYTES + start, PixelPieces(pixels[start..], maxChunk)),
              session, pixels, maxChunk, start)
  {
    UnderwayEnds(answer, before, before,
      Stamp(session, RECT_HEADER_BYTES + start, PixelPieces(pixels[start..], maxChunk)));
  }

  lemma SendingStep(answer: nat -> int, before: seq<Chunk>, now: seq<Chunk>, chunks: seq<Chunk>, session: u16,
                    pixels: seq<byte>, maxChunk: nat, sent: nat, data: seq<byte>)
    requires maxChunk > 0 && sent < |pixels|
    requires Sending(answer, before, now, chunks, session, pixels, maxChunk, sent)
    requires data == pixels[sent..sent + if |pixels| - sent < maxChunk then |pixels| - sent else maxChunk]
    ensures var next := now + [Chunk(session, (RECT_HEADER_BYTES + sent) % 0x1_0000_0000, data)];
            if answer(|now|) != ESP_OK then HandedOut(answer, before, next, answer(|now|), chunks)
            else Sending(answer, before, next, chunks, session, pixels, maxChunk, sent + |data|)
  {
    var done := |now| - |before|;
    NextPiece(session, RECT_HEADER_BYTES + sent, pixels[sent..], maxChunk);
    hide Stamp, PixelPieces, Underway, HandedOut;
    assert pixels[sent..][..|data|] == data && pixels[sent..][|data|..] == pixels[sent + |data|..];
    assert chunks[done] == chunks[done..][0] && chunks[done + 1..] == chunks[done..][1..];
    UnderwayStep(answer, before, now, chunks, done);
  }

  lemma SendingEnds(answer: nat -> int, before: seq<Chunk>, now: seq<Chunk>, chunks: seq<Chunk>, session: u16,
                    pixels: seq<byte>, maxChunk: nat)
    requires maxChunk > 0
    requires Sending(answer, before, now, chunks, session, pixels, maxChunk, |pixels|)
    ensures HandedOut(answer, before, now, ESP_OK, chunks)
  {
    NoPieces(session, RECT_HEADER_BYTES + |pixels|, pixels[|pixels|..], maxChunk);
    UnderwayEnds(answer, before, now, chunks);
  }

  lemma {:induction false} NoPieces(session: u16, offset: nat, pixels: seq<byte>, maxChunk: nat)
    requires maxChunk > 0 && pixels == []
    ensures Stamp(session, offset, PixelPieces(pixels, maxChunk)) == []
  {}

  lemma NextPiece(session: u16, offset: nat, pixels: seq<byte>, maxChunk: nat)
    requires maxChunk > 0 && pixels != []
    ensures var n := if |pixels| < maxChunk then |pixels| else maxChunk;
            Stamp(session, offset, PixelPieces(pixels, maxChunk))
            == [Chunk(session, offset % 0x1_0000_0000, pixels[..n])]
               + Stamp(session, offset + n, PixelPieces(pixels[n..], maxChunk))
  {
    var n := if |pixels| < maxChunk then |pixels| else maxChunk;
    if |pixels| < maxChunk {
      assert pixels[..n] == pixels;
      assert PixelPieces(pixels[n..], maxChunk) == [];
      assert PixelPieces(pixels, maxChunk) == [pixels[..n]] + [];
    }
    var pieces := PixelPieces(pixels, maxChunk);
    assert pieces[0] == pixels[..n] && pieces[1..] == PixelPieces(pixels[n..], maxChunk);
  }

  // What a flush puts on the side-channel.

  predicate WithinChunk(pieces: seq<seq<byte>>, maxChunk: nat) {
    forall i :: 0 <= i < |pieces| ==> 1 <= |pieces[i]| <= maxChunk
  }

  lemma {:induction false} PixelPiecesCut(pixels: seq<byte>, maxChunk: nat)
    requires maxChunk > 0
    ensures WithinChunk(PixelPieces(pixels, maxChunk), maxChunk)
    ensures Joined(PixelPieces(pixels, maxChunk)) == pixels
    decreases |pixels|
  {
    if pixels != [] {
      if |pixels| < maxChunk {
        assert [pixels][1..] == [] && Joined([pixels]) == pixels + Joined([]);
      } else {
        var later := PixelPieces(pixels[maxChunk..], maxChunk);
        PixelPiecesCut(pixels[maxChunk..], maxChunk);
        assert ([pixels[..maxChunk]] + later)[1..] == later;
        assert pixels == pixels[..maxChunk] + pixels[maxChunk..];
      }
    }
  }

  /** Every flush is cut into pieces of 1 to max_chunk bytes that concatenate to header then pixels; the first
      piece holds the whole header and stays within its buffer. */
  lemma FlushIsCut(r: Rect, pixels: seq<byte>, maxChunk: nat)
    requires maxChunk > RECT_HEADER_BYTES
    ensures var pieces := FlushPieces(r, pixels, maxChunk);
            && WithinChunk(pieces, maxChunk)
            && Joined(pieces) == RectHeader(r) + pixels
            && RECT_HEADER_BYTES <= |pieces[0]| <= FIRST_BYTES
  {
    var n := FirstPixels(|pixels|, maxChunk);
    var pieces := FlushPieces(r, pixels, maxChunk);
    PixelPiecesCut(pixels[n..], maxChunk);
    assert pieces[1..] == PixelPieces(pixels[n..], maxChunk);
    assert forall i :: 1 <= i < |pieces| ==> pieces[i] == pieces[1..][i - 1];
    assert RectHeader(r) + pixels[..n] + pixels[n..] == RectHeader(r) + pixels;
  }

  /** Where piece i of a cut starts. */
  function Start(pieces: seq<seq<byte>>, i: nat): nat
    requires i <= |pieces|
  {
    if i == 0 then 0 else |pieces[0]| + Start(pieces[1..], i - 1)
  }

  /** Stamped chunks run contiguously: chunk i carries piece i, under the session, from where piece i starts. */
  lemma {:induction false} StampedAt(session: u16, offset: nat, pieces: seq<seq<byte>>, i: nat)
    requires i < |pieces|
    ensures |Stamp(session, offset, pieces)| == |pieces|
    ensures Stamp(session, offset, pieces)[i]
         == Chunk(session, (offset + Start(pieces, i)) % 0x1_0000_0000, pieces[i])
    decreases |pieces|
  {
    if i > 0 {
      StampedAt(session, offset + |pieces[0]|, pieces[1..], i - 1);
    } else if |pieces| > 1 {
      StampedAt(session, offset + |pieces[0]|, pieces[1..], 0);
    }
  }

  predicate AllSendable(chunks: seq<Chunk>) {
    forall i :: 0 <= i < |chunks| ==> Sendable(chunks[i])
  }

  /** The serial carrier takes a flush whole exactly when the chunk size is within its payload limit or the whole
      rectangle fits one payload. */
  lemma {:induction false} FlushSendable(session: u16, r: Rect, pixels: seq<byte>, maxChunk: nat)
    requires maxChunk > RECT_HEADER_BYTES
    ensures AllSendable(Stamp(session, 0, FlushPieces(r, pixels, maxChunk)))
       <==> maxChunk <= MAX_PAYLOAD || RECT_HEADER_BYTES + |pixels| <= MAX_PAYLOAD
  {
    var pieces := FlushPieces(r, pixels, maxChunk);
    var chunks := Stamp(session, 0, pieces);
    FlushIsCut(r, pixels, maxChunk);
    StampedAt(session, 0, pieces, 0);
    if maxChunk <= MAX_PAYLOAD {
      forall i | 0 <= i < |chunks| ensures Sendable(chunks[i]) {
        StampedAt(session, 0, pieces, i);
      }
    } else if RECT_HEADER_BYTES + |pixels| <= MAX_PAYLOAD {
      assert pixels[FirstPixels(|pixels|, maxChunk)..] == [];
      assert |chunks| == 1;
    } else {
      assert !Sendable(chunks[0]);
    }
  }

  // The bytes and sizes of a flush, in numbers.

  /** The rectangle header on the wire: four little-endian coordinates. */
  lemma {:induction false} RectHeaderBytes(r: Rect)
    ensures RectHeader(r)
         == [r.x1 % 256, r.x1 / 256, r.y1 % 256, r.y1 / 256, r.x2 % 256, r.x2 / 256, r.y2 % 256, r.y2 / 256]
  {
    LittleEndian2(r.x1);
    LittleEndian2(r.y1);
    LittleEndian2(r.x2);
    LittleEndian2(r.y2);
    hide ToLE;
    assert forall n: u16 :: n / 256 % 256 == n / 256;
  }

  /** Every piece but the last is full. */
  predicate Full(pieces: seq<seq<byte>>, maxChunk: nat) {
    forall i :: 0 <= i < |pieces| - 1 ==> |pieces[i]| == maxChunk
  }

  lemma {:induction false} FullPieces(pixels: seq<byte>, maxChunk: nat)
    requires maxChunk > 0
    ensures Full(PixelPieces(pixels, maxChunk), maxChunk)
    decreases |pixels|
  {
    if pixels != [] && |pixels| >= maxChunk {
      FullPieces(pixels[maxChunk..], maxChunk);
      FullCons(pixels[..maxChunk], PixelPieces(pixels[maxChunk..], maxChunk), maxChunk);
    }
  }

  lemma FullCons(first: seq<byte>, later: seq<seq<byte>>, maxChunk: nat)
    requires |first| == maxChunk && Full(later, maxChunk)
    ensures Full([first] + later, maxChunk)
  {}

  /** No chunk is smaller than it has to be: the first holds the header and as many pixels as the chunk size and the
      1032-byte buffer allow, every other but the last exactly max_chunk bytes. */
  lemma {:induction false} FlushIsPacked(r: Rect, pixels: seq<byte>, maxChunk: nat)
    requires maxChunk > 8
    ensures var pieces := FlushPieces(r, pixels, maxChunk);
            var room := if maxChunk > 1032 then 1032 else maxChunk;
            && |pieces[0]| == (if 8 + |pixels| < room then 8 + |pixels| else room)
            && Full(pieces[1..], maxChunk)
  {
    var n := FirstPixels(|pixels|, maxChunk);
    FullPieces(pixels[n..], maxChunk);
    assert FlushPieces(r, pixels, maxChunk)[1..] == PixelPieces(pixels[n..], maxChunk);
  }
}
