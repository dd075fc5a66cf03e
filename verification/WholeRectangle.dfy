/** A rectangle that really was sent: its chunks complete it in any order, with repeats, among other sessions. */
module WholeRectangle {
  import opened Options
  import opened Bytes
  import opened BinaryFrame
  import opened DisplayStream
  import opened Framebuffer
  import opened Reassembly

  /** A rectangle, its pixels, and the pieces its message was cut into. */
  datatype Sent = Sent(session: u16, rect: Rect, pixels: seq<byte>, pieces: seq<seq<byte>>)

  predicate WellSent(t: Sent, width: nat, height: nat) {
    && Fits(t.rect, width, height)
    && |t.pixels| == PixelBytes(t.rect)
    && Joined(t.pieces) == RectHeader(t.rect) + t.pixels
    && t.pieces != []
    && |t.pieces[0]| >= RECT_HEADER_BYTES
    && (forall i :: 0 <= i < |t.pieces| ==> t.pieces[i] != [])
    && RECT_HEADER_BYTES + |t.pixels| <= 0x1_0000_0000
  }

  function Message(t: Sent): seq<byte> {
    RectHeader(t.rect) + t.pixels
  }

  function ChunkOf(t: Sent, i: nat): Chunk
    requires i < |t.pieces|
  {
    Chunk(t.session, Start(t.pieces, i) % 0x1_0000_0000, t.pieces[i])
  }

  function EntryOf(t: Sent, i: nat): Entry
    requires i < |t.pieces|
  {
    Entry(Start(t.pieces, i), t.pieces[i])
  }

  // Where pieces lie in their message.

  lemma {:induction false} PieceInMessage(pieces: seq<seq<byte>>, i: nat)
    requires i < |pieces|
    ensures Start(pieces, i) + |pieces[i]| == Start(pieces, i + 1) <= |Joined(pieces)|
    ensures Joined(pieces)[Start(pieces, i)..Start(pieces, i + 1)] == pieces[i]
    decreases i
  {
    if i == 0 {
      assert Start(pieces[1..], 0) == 0;
    } else {
      PieceInMessage(pieces[1..], i - 1);
    }
  }

  lemma {:induction false} StartGrows(pieces: seq<seq<byte>>, i: nat, j: nat)
    requires i <= j <= |pieces|
    requires forall k :: 0 <= k < |pieces| ==> pieces[k] != []
    ensures Start(pieces, i) <= Start(pieces, j)
    ensures i < j ==> Start(pieces, i) < Start(pieces, j)
    decreases j
  {
    if i < j {
      StartGrows(pieces, i, j - 1);
      PieceInMessage(pieces, j - 1);
    }
  }

  lemma {:induction false} StartEnd(pieces: seq<seq<byte>>)
    ensures Start(pieces, |pieces|) == |Joined(pieces)|
    decreases |pieces|
  {
    if pieces != [] {
      StartEnd(pieces[1..]);
    }
  }

  /** Every message byte belongs to a piece. */
  lemma {:induction false} PieceAt(pieces: seq<seq<byte>>, n: nat, j: nat) returns (i: nat)
    requires n <= |pieces| && j < Start(pieces, n)
    ensures i < n && Start(pieces, i) <= j < Start(pieces, i) + |pieces[i]|
  {
    PieceInMessage(pieces, n - 1);
    if Start(pieces, n - 1) <= j {
      i := n - 1;
    } else {
      i := PieceAt(pieces, n - 1, j);
    }
  }

  // How many bytes a set of pieces amounts to.

  function Amount(pieces: seq<seq<byte>>, got: set<nat>, n: nat): nat
    requires n <= |pieces|
  {
    if n == 0 then 0 else Amount(pieces, got, n - 1) + if n - 1 in got then |pieces[n - 1]| else 0
  }

  lemma {:induction false} AmountAdds(pieces: seq<seq<byte>>, got: set<nat>, i: nat, n: nat)
    requires n <= |pieces| && i !in got
    ensures Amount(pieces, got + {i}, n) == Amount(pieces, got, n) + if i < n then |pieces[i]| else 0
  {
    if n > 0 {
      AmountAdds(pieces, got, i, n - 1);
    }
  }

  lemma {:induction false} AmountWhole(pieces: seq<seq<byte>>, got: set<nat>, n: nat)
    requires n <= |pieces|
    requires forall k :: 0 <= k < |pieces| ==> pieces[k] != []
    ensures Amount(pieces, got, n) <= Start(pieces, n)
    ensures Amount(pieces, got, n) == Start(pieces, n) <==> forall k :: 0 <= k < n ==> k in got
    decreases n
  {
    if n > 0 {
      AmountWhole(pieces, got, n - 1);
      PieceInMessage(pieces, n - 1);
      assert pieces[n - 1] != [];
    }
  }

  predicate Whole(t: Sent, got: set<nat>) {
    forall k :: 0 <= k < |t.pieces| ==> k in got
  }

  /** The entries hold exactly the pieces received. */
  predicate Holds(chunks: seq<Entry>, t: Sent, got: set<nat>) {
    && (forall k :: 0 <= k < |chunks| ==> IsPiece(chunks[k], t, got))
    && (forall i :: i in got ==> i < |t.pieces| && EntryOf(t, i) in chunks)
    && Received(chunks) == Amount(t.pieces, got, |t.pieces|)
  }

  predicate IsPiece(e: Entry, t: Sent, got: set<nat>) {
    exists i :: i in got && i < |t.pieces| && e == EntryOf(t, i)
  }

  lemma {:induction false} PutRepeat(chunks: seq<Entry>, e: Entry)
    requires e in chunks && forall k :: 0 <= k < |chunks| && chunks[k].offset == e.offset ==> chunks[k] == e
    ensures Put(chunks, e) == chunks
  {
    if chunks[0].offset == e.offset {
      assert chunks == [chunks[0]] + chunks[1..];
    } else {
      assert forall k :: 0 <= k < |chunks[1..]| ==> chunks[1..][k] == chunks[k + 1];
      PutRepeat(chunks[1..], e);
    }
  }

  lemma {:induction false} PutNew(chunks: seq<Entry>, e: Entry)
    requires forall k :: 0 <= k < |chunks| ==> chunks[k].offset != e.offset
    ensures Put(chunks, e) == chunks + [e]
  {
    if chunks != [] {
      assert forall k :: 0 <= k < |chunks[1..]| ==> chunks[1..][k] == chunks[k + 1];
      PutNew(chunks[1..], e);
    }
  }

  lemma {:induction false} SameStart(t: Sent, width: nat, height: nat, i: nat, j: nat)
    requires WellSent(t, width, height) && i < |t.pieces| && j < |t.pieces|
    requires Start(t.pieces, i) == Start(t.pieces, j)
    ensures i == j
  {
    if i < j {
      StartGrows(t.pieces, i, j);
    } else if j < i {
      StartGrows(t.pieces, j, i);
    }
  }

  lemma {:induction false} HoldsRepeat(chunks: seq<Entry>, t: Sent, got: set<nat>, i: nat, width: nat, height: nat)
    requires WellSent(t, width, height) && Holds(chunks, t, got) && i in got && i < |t.pieces|
    ensures Put(chunks, EntryOf(t, i)) == chunks
  {
    forall k | 0 <= k < |chunks| && chunks[k].offset == EntryOf(t, i).offset
      ensures chunks[k] == EntryOf(t, i)
    {
      assert IsPiece(chunks[k], t, got);
      var j :| j in got && j < |t.pieces| && chunks[k] == EntryOf(t, j);
      SameStart(t, width, height, i, j);
    }
    PutRepeat(chunks, EntryOf(t, i));
  }

  lemma {:induction false} OtherOffsets(chunks: seq<Entry>, t: Sent, got: set<nat>, i: nat, width: nat, height: nat)
    requires WellSent(t, width, height) && Holds(chunks, t, got) && i !in got && i < |t.pieces|
    ensures forall k :: 0 <= k < |chunks| ==>
              chunks[k].offset != EntryOf(t, i).offset && IsPiece(chunks[k], t, got + {i})
  {
    forall k | 0 <= k < |chunks|
      ensures chunks[k].offset != EntryOf(t, i).offset && IsPiece(chunks[k], t, got + {i})
    {
      assert IsPiece(chunks[k], t, got);
      var j :| j in got && j < |t.pieces| && chunks[k] == EntryOf(t, j);
      hide WellSent;
      if chunks[k].offset == EntryOf(t, i).offset {
        SameStart(t, width, height, i, j);
      }
      assert j in got + {i};
    }
    hide WellSent, Holds, IsPiece;
  }

  lemma {:induction false} HoldsNew(chunks: seq<Entry>, t: Sent, got: set<nat>, i: nat, width: nat, height: nat)
    requires WellSent(t, width, height) && Holds(chunks, t, got) && i !in got && i < |t.pieces|
    ensures Holds(Put(chunks, EntryOf(t, i)), t, got + {i})
  {
    hide WellSent, EntryOf;
    var e := EntryOf(t, i);
    OtherOffsets(chunks, t, got, i, width, height);
    PutNew(chunks, e);
    var more := chunks + [e];
    assert IsPiece(e, t, got + {i}) by { assert i in got + {i}; }
    assert more[..|more| - 1] == chunks;
    AmountAdds(t.pieces, got, i, |t.pieces|);
    assert e == more[|chunks|];
    assert |e.data| == |t.pieces[i]| by { EntryIs(t, i); }
    forall j | j in got + {i} ensures j < |t.pieces| && EntryOf(t, j) in more {
      if j in got {
        assert EntryOf(t, j) in chunks;
      }
    }
  }

  lemma EntryIs(t: Sent, i: nat)
    requires i < |t.pieces|
    ensures EntryOf(t, i).data == t.pieces[i]
  {}

  // The payload of a whole rectangle.

  predicate Agrees(chunks: seq<Entry>, message: seq<byte>) {
    forall k :: 0 <= k < |chunks| ==>
      End(chunks[k]) <= |message| && chunks[k].data == message[chunks[k].offset..End(chunks[k])]
  }

  lemma {:induction false} AgreeingByte(chunks: seq<Entry>, message: seq<byte>, j: nat)
    requires Agrees(chunks, message) && CoveredAt(chunks, j) && j < |message|
    ensures ByteAt(chunks, j) == message[j]
    decreases |chunks|
  {
    var n := |chunks| - 1;
    var last := chunks[n];
    if last.offset <= j < End(last) {
      assert last.data[j - last.offset] == message[last.offset..End(last)][j - last.offset];
    } else {
      var k :| 0 <= k < |chunks| && chunks[k].offset <= j < End(chunks[k]);
      assert chunks[..n][k] == chunks[k];
      AgreeingByte(chunks[..n], message, j);
    }
  }

  lemma HoldsAgrees(chunks: seq<Entry>, t: Sent, got: set<nat>, width: nat, height: nat)
    requires WellSent(t, width, height) && Holds(chunks, t, got)
    ensures Agrees(chunks, Message(t))
  {
    forall k | 0 <= k < |chunks|
      ensures End(chunks[k]) <= |Message(t)| && chunks[k].data == Message(t)[chunks[k].offset..End(chunks[k])]
    {
      assert IsPiece(chunks[k], t, got);
      var i :| i in got && i < |t.pieces| && chunks[k] == EntryOf(t, i);
      PieceInMessage(t.pieces, i);
    }
  }

  lemma WholeCovers(chunks: seq<Entry>, t: Sent, got: set<nat>, width: nat, height: nat, j: nat)
    requires WellSent(t, width, height) && Holds(chunks, t, got) && Whole(t, got) && j < |Message(t)|
    ensures CoveredAt(chunks, j)
  {
    StartEnd(t.pieces);
    var i := PieceAt(t.pieces, |t.pieces|, j);
    assert EntryOf(t, i) in chunks;
    var k :| 0 <= k < |chunks| && chunks[k] == EntryOf(t, i);
  }

  lemma WholePayload(chunks: seq<Entry>, t: Sent, got: set<nat>, width: nat, height: nat)
    requires WellSent(t, width, height) && Holds(chunks, t, got) && Whole(t, got)
    ensures Payload(chunks, |Message(t)|) == Some(t.pixels)
  {
    HoldsAgrees(chunks, t, got, width, height);
    hide Holds, WellSent, Whole, RectHeader, Agrees, Payload, ByteAt;
    forall j: nat | j < |Message(t)| ensures CoveredAt(chunks, j) {
      WholeCovers(chunks, t, got, width, height, j);
    }
    AgreeingPayload(chunks, RectHeader(t.rect), t.pixels);
  }

  lemma AgreeingPayload(chunks: seq<Entry>, header: seq<byte>, pixels: seq<byte>)
    requires |header| == RECT_HEADER_BYTES && Agrees(chunks, header + pixels)
    requires forall j: nat :: j < |header + pixels| ==> CoveredAt(chunks, j)
    ensures Payload(chunks, |header + pixels|) == Some(pixels)
  {
    var message := header + pixels;
    forall j: nat | j < |pixels| ensures ByteAt(chunks, RECT_HEADER_BYTES + j) == pixels[j] {
      AgreeingByte(chunks, message, RECT_HEADER_BYTES + j);
    }
    assert AllInside(chunks, |message|) && AllCovered(chunks, |message|);
    hide ByteAt, CoveredAt, Agrees, AllInside, AllCovered;
    assert Payload(chunks, |message|).value == pixels;
  }

  // Steps.

  /** The mirror is collecting t and holds the pieces `got`, not yet all of them. */
  predicate Collecting(s: State, t: Sent, got: set<nat>) {
    && 0 in got
    && !Whole(t, got)
    && t.session in s.pending
    && var p := s.pending[t.session];
       p.rect == t.rect && p.total == |Message(t)| && Holds(p.chunks, t, got)
  }

  /** t painted and out of the way; nothing counted as dropped. */
  function Completed(s: State, t: Sent): State
    requires WellSent(t, s.width, s.height)
  {
    s.(pending := s.pending - {t.session}, applied := s.applied + 1,
       pixels := Painted(s.pixels, s.width, s.height, t.rect, t.pixels))
  }

  lemma {:induction false} OffsetFits(t: Sent, i: nat, width: nat, height: nat)
    requires WellSent(t, width, height) && i < |t.pieces|
    ensures ChunkOf(t, i).offset == Start(t.pieces, i)
    ensures i > 0 ==> ChunkOf(t, i).offset > 0
  {
    SentBounds(t, i, width, height);
    hide WellSent, Joined;
    StartBounds(t.pieces, i);
    hide Start;
  }

  lemma SentBounds(t: Sent, i: nat, width: nat, height: nat)
    requires WellSent(t, width, height) && i < |t.pieces|
    ensures |Joined(t.pieces)| <= 0x1_0000_0000 && forall k :: 0 <= k < |t.pieces| ==> t.pieces[k] != []
  {
    hide RectHeader, Joined, PixelBytes, Fits;
  }

  lemma {:induction false} StartBounds(pieces: seq<seq<byte>>, i: nat)
    requires i < |pieces| && forall k :: 0 <= k < |pieces| ==> pieces[k] != []
    ensures Start(pieces, i) < |Joined(pieces)|
    ensures i > 0 ==> Start(pieces, i) > 0
  {
    PieceInMessage(pieces, i);
    StartGrows(pieces, 0, i);
    assert pieces[i] != [];
    hide Joined;
  }

  /** The step of a chunk of t onto entries that then hold `got`. */
  lemma StepHolding(s: State, t: Sent, i: nat, frame: Pending, got: set<nat>)
    requires Valid(s) && WellSent(t, s.width, s.height) && i < |t.pieces|
    requires Candidate(s, ChunkOf(t, i)) == Some(frame)
    requires frame.rect == t.rect && frame.total == |Message(t)| && Holds(frame.chunks, t, got)
    ensures if Whole(t, got) then IngestChunk(s, ChunkOf(t, i)) == (Completed(s, t), true)
            else IngestChunk(s, ChunkOf(t, i)) == (s.(pending := s.pending[t.session := frame]), false)
  {
    StepCases(s, ChunkOf(t, i));
    StartEnd(t.pieces);
    AmountWhole(t.pieces, got, |t.pieces|);
    if Whole(t, got) {
      WholePayload(frame.chunks, t, got, s.width, s.height);
    }
    hide IngestChunk, Candidate, Holds, WellSent, Painted, Payload, Valid, Sound;
  }

  lemma ReadRectHeader(r: Rect, tail: seq<byte>)
    ensures ReadRect(RectHeader(r) + tail) == r
  {
    var data := RectHeader(r) + tail;
    Widths();
    FromLEToLE(r.x1, 2);
    FromLEToLE(r.y1, 2);
    FromLEToLE(r.x2, 2);
    FromLEToLE(r.y2, 2);
    hide FromLE, ToLE;
    assert data[0..2] == ToLE(r.x1, 2);
    assert data[2..4] == ToLE(r.y1, 2);
    assert data[4..6] == ToLE(r.x2, 2);
    assert data[6..8] == ToLE(r.y2, 2);
  }

  /** The header chunk starts collecting, whatever the session held before; alone it may complete. */
  lemma HeaderStep(s: State, t: Sent)
    requires Valid(s) && WellSent(t, s.width, s.height)
    ensures var (u, done) := IngestChunk(s, ChunkOf(t, 0));
            if |t.pieces| == 1 then done && u == Completed(s, t)
            else !done && Collecting(u, t, {0}) && u.(pending := s.pending) == s
  {
    var head := t.pieces[0];
    PieceInMessage(t.pieces, 0);
    assert head[..RECT_HEADER_BYTES] == RectHeader(t.rect);
    assert head == RectHeader(t.rect) + head[RECT_HEADER_BYTES..];
    ReadRectHeader(t.rect, head[RECT_HEADER_BYTES..]);
    var frame := With(Pending(t.rect, |Message(t)|, []), ChunkOf(t, 0));
    assert Candidate(s, ChunkOf(t, 0)) == Some(frame);
    HoldsNew([], t, {}, 0, s.width, s.height) by {
      AmountNothing(t.pieces, |t.pieces|);
    }
    assert {} + {0} == {0};
    StepHolding(s, t, 0, frame, {0});
    if |t.pieces| == 1 {
      assert Whole(t, {0});
    } else {
      assert 1 !in {0};
    }
  }

  lemma {:induction false} AmountNothing(pieces: seq<seq<byte>>, n: nat)
    requires n <= |pieces|
    ensures Amount(pieces, {}, n) == 0
  {
    if n > 0 {
      AmountNothing(pieces, n - 1);
    }
  }

  /** A further chunk of t: a repeat changes nothing at all, the last missing one completes, another is kept. */
  lemma OwnStep(s: State, t: Sent, got: set<nat>, i: nat)
    requires Valid(s) && WellSent(t, s.width, s.height) && Collecting(s, t, got) && 0 < i < |t.pieces|
    ensures var (u, done) := IngestChunk(s, ChunkOf(t, i));
            if i in got then !done && u == s
            else if Whole(t, got + {i}) then done && u == Completed(s, t)
            else !done && Collecting(u, t, got + {i}) && u.(pending := s.pending) == s
  {
    var p := s.pending[t.session];
    var frame := With(p, ChunkOf(t, i));
    OffsetFits(t, i, s.width, s.height);
    if i in got {
      HoldsRepeat(p.chunks, t, got, i, s.width, s.height);
      StepHolding(s, t, i, frame, got);
      assert s.pending[t.session := frame] == s.pending;
    } else {
      HoldsNew(p.chunks, t, got, i, s.width, s.height);
      StepHolding(s, t, i, frame, got + {i});
    }
  }

  /** A chunk of another session does not disturb t. */
  lemma OtherStep(s: State, t: Sent, got: set<nat>, c: Chunk)
    requires Valid(s) && Collecting(s, t, got) && c.session != t.session
    ensures Collecting(IngestChunk(s, c).0, t, got)
  {
    hide Painted, Payload, Put, Received, ReadRect, PixelBytes, Holds;
  }

  /** The mirror shows t: every pixel of its rectangle has its value. */
  predicate Shown(s: State, t: Sent)
    requires WellSent(t, s.width, s.height)
  {
    forall i :: 0 <= i < |s.pixels| && InRect(t.rect, Col(s.width, i), Row(s.width, i)) ==>
      s.pixels[i] == Channel(SourcePixel(t.rect, t.pixels, Col(s.width, i), Row(s.width, i)), i % 3)
  }

  /** What completing t leaves at each byte of the mirror. */
  lemma CompletedAt(s: State, t: Sent, i: nat)
    requires WellSent(t, s.width, s.height) && i < |s.pixels|
    ensures s.width > 0 && t.rect.x1 <= t.rect.x2 && t.rect.y1 <= t.rect.y2 && |t.pixels| == PixelBytes(t.rect)
    ensures |Completed(s, t).pixels| == |s.pixels|
    ensures Completed(s, t).pixels[i]
         == if InRect(t.rect, i / 3 % s.width, i / 3 / s.width)
            then Channel(SourcePixel(t.rect, t.pixels, i / 3 % s.width, i / 3 / s.width), i % 3)
            else s.pixels[i]
  {
    hide SourcePixel, Channel, Joined, RectHeader, InRect, PixelBytes;
  }

  /** Completing t changes a pixel exactly when the mirror does not show t already; afterwards it does. */
  lemma CompletingChanges(s: State, t: Sent)
    requires WellSent(t, s.width, s.height)
    ensures Completed(s, t).pixels != s.pixels <==> !Shown(s, t)
    ensures Shown(Completed(s, t), t)
  {
    hide Channel, SourcePixel, Col, Row, WellSent, InRect;
  }

  /** A repeat onto a free session: it completes exactly when the rectangle was a single chunk, and it changes a pixel
      exactly when, besides, a pixel of the rectangle has been painted over since. */
  lemma LateRepeat(s: State, t: Sent, i: nat)
    requires Valid(s) && WellSent(t, s.width, s.height) && t.session !in s.pending && i < |t.pieces|
    ensures var (u, done) := IngestChunk(s, ChunkOf(t, i));
            && (i > 0 ==> !done && u == s.(dropped := s.dropped + 1))
            && (done <==> |t.pieces| == 1)
            && (done ==> u.pixels == Painted(s.pixels, s.width, s.height, t.rect, t.pixels))
            && (u.pixels != s.pixels <==> done && !Shown(s, t))
  {
    if i == 0 {
      HeaderStep(s, t);
      CompletingChanges(s, t);
    } else {
      OffsetFits(t, i, s.width, s.height);
    }
    hide Painted, Payload, Put, Received, ReadRect, PixelBytes, WellSent, Valid, Collecting, Shown;
  }

  lemma RepaintedSame(pixels: seq<byte>, width: nat, height: nat, r: Rect, payload: seq<byte>)
    requires Fits(r, width, height) && |payload| == PixelBytes(r)
    ensures var once := Painted(pixels, width, height, r, payload); Painted(once, width, height, r, payload) == once
  {
    hide Channel, SourcePixel, Col, Row;
  }

  // Runs.

  /** Chunks after the header: a further chunk of t, or any chunk of another session. */
  predicate Traffic(t: Sent, chunks: seq<Chunk>) {
    forall k :: 0 <= k < |chunks| ==> IsTraffic(t, chunks[k])
  }

  predicate IsTraffic(t: Sent, c: Chunk) {
    c.session != t.session || exists i :: 0 < i < |t.pieces| && c == ChunkOf(t, i)
  }

  function Arrivals(t: Sent, chunks: seq<Chunk>): set<nat> {
    set i: nat | i < |t.pieces| && ChunkOf(t, i) in chunks
  }

  lemma ArrivalsCons(t: Sent, c: Chunk, later: seq<Chunk>, width: nat, height: nat)
    requires WellSent(t, width, height)
    ensures c.session != t.session ==> Arrivals(t, [c] + later) == Arrivals(t, later)
    ensures forall i: nat :: i < |t.pieces| && c == ChunkOf(t, i) ==> Arrivals(t, [c] + later) == {i} + Arrivals(t, later)
  {
    forall i: nat | i < |t.pieces| && c == ChunkOf(t, i)
      ensures Arrivals(t, [c] + later) == {i} + Arrivals(t, later)
    {
      OnlyPiece(t, i, width, height);
    }
  }

  lemma OnlyPiece(t: Sent, i: nat, width: nat, height: nat)
    requires WellSent(t, width, height) && i < |t.pieces|
    ensures forall j: nat | j < |t.pieces| :: ChunkOf(t, j) == ChunkOf(t, i) ==> j == i
  {
    forall j: nat | j < |t.pieces| && ChunkOf(t, j) == ChunkOf(t, i) ensures j == i {
      OffsetFits(t, i, width, height);
      OffsetFits(t, j, width, height);
      SameStart(t, width, height, i, j);
    }
  }

  lemma TrafficCons(t: Sent, chunks: seq<Chunk>)
    requires Traffic(t, chunks) && chunks != []
    ensures IsTraffic(t, chunks[0]) && Traffic(t, chunks[1..]) && chunks == [chunks[0]] + chunks[1..]
  {
    hide IsTraffic;
    assert forall k :: 0 <= k < |chunks[1..]| ==> chunks[1..][k] == chunks[k + 1];
  }

  lemma NotWholeBelow(t: Sent, fewer: set<nat>, more: set<nat>)
    requires fewer <= more && !Whole(t, more)
    ensures !Whole(t, fewer)
  {}

  /** One chunk of such traffic that leaves a piece missing. */
  lemma TrafficStep(s: State, t: Sent, got: set<nat>, c: Chunk, later: seq<Chunk>) returns (more: set<nat>)
    requires Valid(s) && WellSent(t, s.width, s.height) && Collecting(s, t, got)
    requires IsTraffic(t, c) && !Whole(t, got + Arrivals(t, [c] + later))
    ensures Collecting(IngestChunk(s, c).0, t, more)
    ensures more + Arrivals(t, later) == got + Arrivals(t, [c] + later)
  {
    ArrivalsCons(t, c, later, s.width, s.height);
    if c.session != t.session {
      OtherStep(s, t, got, c);
      more := got;
    } else {
      var i :| 0 < i < |t.pieces| && c == ChunkOf(t, i);
      OwnStep(s, t, got, i);
      more := got + {i};
      NotWholeBelow(t, more, got + Arrivals(t, [c] + later));
      hide IngestChunk, Collecting, WellSent, Valid, Whole, Arrivals;
      if i in got {
        assert more == got;
      }
    }
  }

  /** While a piece is missing t stays pending, holding exactly what has arrived, whatever the order. */
  lemma {:induction false} CollectsInAnyOrder(s: State, t: Sent, got: set<nat>, chunks: seq<Chunk>)
    requires Valid(s) && WellSent(t, s.width, s.height) && Collecting(s, t, got)
    requires Traffic(t, chunks) && !Whole(t, got + Arrivals(t, chunks))
    ensures Valid(IngestAll(s, chunks)) && Collecting(IngestAll(s, chunks), t, got + Arrivals(t, chunks))
    ensures IngestAll(s, chunks).width == s.width && IngestAll(s, chunks).height == s.height
    decreases |chunks|
  {
    hide IngestChunk, Valid, WellSent, Collecting, IsTraffic, Traffic, Whole;
    if chunks == [] {
      assert got + Arrivals(t, chunks) == got;
    } else {
      hide Arrivals;
      TrafficCons(t, chunks);
      StaysValid(s, chunks[0]);
      var more := TrafficStep(s, t, got, chunks[0], chunks[1..]);
      CollectsInAnyOrder(IngestChunk(s, chunks[0]).0, t, more, chunks[1..]);
    }
  }

  lemma LastMissing(t: Sent, got: set<nat>, last: nat)
    requires !Whole(t, got) && Whole(t, got + {last})
    ensures last !in got
  {
    if last in got {
      NotWholeBelow(t, got + {last}, got);
    }
  }

  /** Reassembly is order-independent: after the header chunk, with the other chunks of the rectangle in any order
      and any number of repeats among any chunks of other sessions, the rectangle completes exactly when its last
      distinct chunk arrives, and paints the original pixels. */
  lemma {:induction false} OrderIndependence(s: State, t: Sent, chunks: seq<Chunk>, last: nat)
    requires Valid(s) && WellSent(t, s.width, s.height) && 0 < last < |t.pieces|
    requires Traffic(t, chunks)
    requires !Whole(t, {0} + Arrivals(t, chunks)) && Whole(t, {0} + Arrivals(t, chunks) + {last})
    ensures Valid(IngestChunk(s, ChunkOf(t, 0)).0)
    ensures var u := IngestAll(IngestChunk(s, ChunkOf(t, 0)).0, chunks);
            && Valid(u) && u.width == s.width && u.height == s.height
            && Collecting(u, t, {0} + Arrivals(t, chunks))
            && IngestChunk(u, ChunkOf(t, last)) == (Completed(u, t), true)
  {
    var got := {0} + Arrivals(t, chunks);
    HeaderStep(s, t);
    StaysValid(s, ChunkOf(t, 0));
    LastMissing(t, got, last);
    hide IngestChunk, Valid, WellSent, Collecting, Traffic, Whole, Arrivals, Completed, IngestAll;
    var first := IngestChunk(s, ChunkOf(t, 0)).0;
    CollectsInAnyOrder(first, t, {0}, chunks);
    OwnStep(IngestAll(first, chunks), t, got, last);
  }

  // In order, the way the device sends them.

  lemma StampSplit(t: Sent, i: nat)
    requires i < |t.pieces|
    ensures Stamp(t.session, Start(t.pieces, i), t.pieces[i..])
         == [ChunkOf(t, i)] + Stamp(t.session, Start(t.pieces, i + 1), t.pieces[i + 1..])
  {
    PieceInMessage(t.pieces, i);
    assert t.pieces[i..][1..] == t.pieces[i + 1..];
  }

  // Completing after steps that only touched the session's own pending entry.
  lemma CompletedAfter(s: State, u: State, t: Sent)
    requires WellSent(t, s.width, s.height) && u.(pending := s.pending) == s
    requires u.pending - {t.session} == s.pending - {t.session}
    ensures Completed(u, t) == Completed(s, t)
  {}

  lemma FirstPieces(t: Sent, i: nat, got: set<nat>)
    requires i < |t.pieces| && forall k :: k in got <==> 0 <= k < i
    ensures i !in got && (forall k :: k in got + {i} <==> 0 <= k < i + 1)
    ensures Whole(t, got + {i}) <==> i + 1 == |t.pieces|
  {
    if i + 1 < |t.pieces| {
      assert i + 1 !in got + {i};
    }
  }

  lemma {:induction false} NothingLeft(s: State, t: Sent)
    requires Valid(s)
    ensures IngestAll(s, Stamp(t.session, Start(t.pieces, |t.pieces|), t.pieces[|t.pieces|..])) == s
  {}

  lemma {:induction false} TailInOrder(s: State, t: Sent, i: nat, got: set<nat>)
    requires Valid(s) && WellSent(t, s.width, s.height) && Collecting(s, t, got) && 0 < i < |t.pieces|
    requires forall k :: k in got <==> 0 <= k < i
    ensures IngestAll(s, Stamp(t.session, Start(t.pieces, i), t.pieces[i..])) == Completed(s, t)
    decreases |t.pieces| - i
  {
    hide IngestChunk, IngestAll, Valid, WellSent, Collecting, Stamp, Completed, Whole;
    StampSplit(t, i);
    IngestFirst(s, ChunkOf(t, i), Stamp(t.session, Start(t.pieces, i + 1), t.pieces[i + 1..]));
    OwnStep(s, t, got, i);
    OnlySession(s, ChunkOf(t, i));
    StaysValid(s, ChunkOf(t, i));
    FirstPieces(t, i, got);
    var u := IngestChunk(s, ChunkOf(t, i)).0;
    if i + 1 == |t.pieces| {
      NothingLeft(u, t);
    } else {
      TailInOrder(u, t, i + 1, got + {i});
      CompletedAfter(s, u, t);
    }
  }

  /** A rectangle sent in order is painted, counted once, and leaves nothing pending. */
  lemma {:induction false} InOrder(s: State, t: Sent)
    requires Valid(s) && WellSent(t, s.width, s.height)
    ensures IngestAll(s, Stamp(t.session, 0, t.pieces)) == Completed(s, t)
  {
    hide IngestChunk, IngestAll, Valid, Collecting, Stamp, Completed, Whole;
    StampSplit(t, 0);
    assert t.pieces[0..] == t.pieces && Start(t.pieces, 0) == 0;
    IngestFirst(s, ChunkOf(t, 0), Stamp(t.session, Start(t.pieces, 1), t.pieces[1..]));
    HeaderStep(s, t);
    OnlySession(s, ChunkOf(t, 0));
    StaysValid(s, ChunkOf(t, 0));
    var u := IngestChunk(s, ChunkOf(t, 0)).0;
    if |t.pieces| == 1 {
      NothingLeft(u, t);
    } else {
      TailInOrder(u, t, 1, {0});
      CompletedAfter(s, u, t);
    }
  }
}
