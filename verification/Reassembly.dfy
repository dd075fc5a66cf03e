/** What the host mirror guarantees over runs of arbitrary chunks: which rectangle each session is collecting, from which
    chunks, and that painting uses nothing else. */
module Reassembly {
  import opened Options
  import opened Bytes
  import opened BinaryFrame
  import opened DisplayStream
  import opened Framebuffer

  function IngestAll(s: State, chunks: seq<Chunk>): State
    requires Valid(s)
    decreases |chunks|
  {
    if chunks == [] then s
    else
      StaysValid(s, chunks[0]);
      IngestAll(IngestChunk(s, chunks[0]).0, chunks[1..])
  }

  /** Pending rectangles always lie inside the mirror, so nothing is ever painted outside it. */
  lemma StaysValid(s: State, c: Chunk)
    requires Valid(s)
    ensures Valid(IngestChunk(s, c).0)
    ensures var t := IngestChunk(s, c).0; t.width == s.width && t.height == s.height
  {
    hide Painted, Payload, Put, Received, ReadRect, PixelBytes;
  }

  lemma {:induction false} IngestAppend(s: State, a: seq<Chunk>, b: seq<Chunk>)
    requires Valid(s)
    ensures Valid(IngestAll(s, a))
    ensures IngestAll(s, a + b) == IngestAll(IngestAll(s, a), b)
    decreases |a|
  {
    hide IngestChunk, Valid;
    if a == [] {
      assert a + b == b;
    } else {
      StaysValid(s, a[0]);
      IngestAppend(IngestChunk(s, a[0]).0, a[1..], b);
      assert (a + b)[1..] == a[1..] + b;
    }
  }

  lemma {:induction false} NothingIngested(s: State)
    requires Valid(s)
    ensures IngestAll(s, []) == s
  {}

  lemma {:induction false} IngestFirst(s: State, c: Chunk, later: seq<Chunk>)
    requires Valid(s)
    ensures Valid(IngestChunk(s, c).0) && IngestAll(s, [c] + later) == IngestAll(IngestChunk(s, c).0, later)
  {
    StaysValid(s, c);
    hide IngestChunk, Valid;
    assert ([c] + later)[1..] == later;
  }

  /** The mirror keeps its size; a run taken one chunk further is one more step. */
  lemma {:induction false} IngestLast(s: State, log: seq<Chunk>, c: Chunk)
    requires Valid(s)
    ensures Valid(IngestAll(s, log)) && IngestAll(s, log).width == s.width && IngestAll(s, log).height == s.height
    ensures Valid(IngestChunk(IngestAll(s, log), c).0)
    ensures IngestAll(s, log + [c]) == IngestChunk(IngestAll(s, log), c).0
  {
    hide IngestChunk, Valid;
    SameSize(s, log);
    IngestAppend(s, log, [c]);
    IngestFirst(IngestAll(s, log), c, []);
    NothingIngested(IngestChunk(IngestAll(s, log), c).0);
    assert [c] + [] == [c];
  }

  lemma {:induction false} SameSize(s: State, log: seq<Chunk>)
    requires Valid(s)
    ensures Valid(IngestAll(s, log)) && IngestAll(s, log).width == s.width && IngestAll(s, log).height == s.height
    decreases |log|
  {
    hide IngestChunk, Valid;
    if log != [] {
      StaysValid(s, log[0]);
      SameSize(IngestChunk(s, log[0]).0, log[1..]);
    }
  }

  // One step.

  /** A chunk that starts a rectangle inside the mirror; any other chunk at offset 0 is ignored. */
  predicate Begins(c: Chunk, width: nat, height: nat) {
    c.offset == 0 && |c.data| >= RECT_HEADER_BYTES && Fits(ReadRect(c.data), width, height)
  }

  function Blank(r: Rect): Pending
    requires r.x1 <= r.x2 && r.y1 <= r.y2
  {
    Pending(r, RECT_HEADER_BYTES + PixelBytes(r), [])
  }

  function EntryAt(c: Chunk): Entry { Entry(c.offset, c.data) }

  function With(p: Pending, c: Chunk): Pending {
    p.(chunks := Put(p.chunks, EntryAt(c)))
  }

  /** The pending rectangle a chunk is added to, with the chunk; nothing if the chunk is ignored or an orphan. */
  function Candidate(s: State, c: Chunk): Option<Pending> {
    if Begins(c, s.width, s.height) then Some(With(Blank(ReadRect(c.data)), c))
    else if c.offset > 0 && c.session in s.pending then Some(With(s.pending[c.session], c))
    else None
  }

  /** What a step does: the chunk is not kept; or kept for later; or the received lengths have reached the size, and the
      rectangle ends, painted if its chunks spell it out and dropped if they do not. */
  lemma StepCases(s: State, c: Chunk)
    requires Valid(s)
    ensures var (t, done) := IngestChunk(s, c);
            match Candidate(s, c)
            case None => !done && t.(dropped := s.dropped) == s
            case Some(p) =>
              && Sound(p, s.width, s.height)
              && if Received(p.chunks) < p.total then !done && t == s.(pending := s.pending[c.session := p])
                 else
                   match Payload(p.chunks, p.total)
                   case None => !done && t == s.(pending := s.pending - {c.session}, dropped := s.dropped + 1)
                   case Some(payload) =>
                     done && t == s.(pending := s.pending - {c.session}, applied := s.applied + 1,
                                     pixels := Painted(s.pixels, s.width, s.height, p.rect, payload))
  {
    hide Painted, Payload, Put, Received, ReadRect, PixelBytes;
    if Begins(c, s.width, s.height) {
      var begun := s.pending[c.session := Blank(ReadRect(c.data))];
      assert begun - {c.session} == s.pending - {c.session};
    }
  }

  lemma OnlySession(s: State, c: Chunk)
    requires Valid(s)
    ensures IngestChunk(s, c).0.pending - {c.session} == s.pending - {c.session}
  {
    StepCases(s, c);
    hide IngestChunk, Candidate, Payload, Painted, Received, Valid, Sound;
  }

  lemma QuietStep(s: State, c: Chunk)
    requires Valid(s)
    ensures var (t, done) := IngestChunk(s, c);
            if done then t.applied == s.applied + 1 else t.pixels == s.pixels && t.applied == s.applied
  {
    StepCases(s, c);
    hide IngestChunk, Candidate, Payload, Painted, Received, Valid, Sound;
  }

  // What a session is collecting, by its log alone.

  /** A chunk of the session that is not ignored. */
  predicate Counts(c: Chunk, session: u16, width: nat, height: nat) {
    c.session == session && (c.offset > 0 || Begins(c, width, height))
  }

  /** The chunks of a session, the latest for each offset. */
  function KeptOf(chunks: seq<Chunk>, session: u16, width: nat, height: nat): seq<Entry> {
    if chunks == [] then []
    else
      var last := chunks[|chunks| - 1];
      var kept := KeptOf(chunks[..|chunks| - 1], session, width, height);
      if Counts(last, session, width, height) then Put(kept, EntryAt(last)) else kept
  }

  /** The size of the message a header announces. */
  function SizeOf(c: Chunk, width: nat, height: nat): (size: nat)
    requires Begins(c, width, height)
    ensures size > RECT_HEADER_BYTES
  {
    var r := ReadRect(c.data);
    SourceIndex(r, r.x1, r.y1);
    RECT_HEADER_BYTES + PixelBytes(r)
  }

  /** Chunk a is the last header of its session. */
  predicate HeaderAt(log: seq<Chunk>, a: nat, session: u16, width: nat, height: nat) {
    && a < |log| && log[a].session == session && Begins(log[a], width, height)
    && (forall k :: a < k < |log| && log[k].session == session ==> !Begins(log[k], width, height))
  }

  /** Up to chunk n the lengths kept since header a never reached the size: the guard of the source, at every step. */
  predicate Growing(log: seq<Chunk>, a: nat, n: nat, session: u16, width: nat, height: nat)
    requires a < |log| && n <= |log| && Begins(log[a], width, height)
  {
    forall k :: a < k <= n ==> Received(KeptOf(log[a..k], session, width, height)) < SizeOf(log[a], width, height)
  }

  /** The rectangle of header a is still being collected. */
  predicate Open(log: seq<Chunk>, a: nat, session: u16, width: nat, height: nat) {
    HeaderAt(log, a, session, width, height) && Growing(log, a, |log|, session, width, height)
  }

  function OpenPending(log: seq<Chunk>, a: nat, session: u16, width: nat, height: nat): Pending
    requires a < |log| && Begins(log[a], width, height)
  {
    Pending(ReadRect(log[a].data), SizeOf(log[a], width, height), KeptOf(log[a..], session, width, height))
  }

  /** What a session has pending is what its log says: the open rectangle, holding the chunks kept since its header. */
  ghost predicate TracedAt(s: State, log: seq<Chunk>, session: u16) {
    && (session in s.pending ==> exists a :: Open(log, a, session, s.width, s.height))
    && (forall a :: Open(log, a, session, s.width, s.height) ==>
          session in s.pending && s.pending[session] == OpenPending(log, a, session, s.width, s.height))
  }

  ghost predicate Traced(s: State, log: seq<Chunk>) {
    forall session: u16 :: TracedAt(s, log, session)
  }

  lemma {:induction false} KeptSnoc(log: seq<Chunk>, c: Chunk, a: nat, session: u16, width: nat, height: nat)
    requires a <= |log|
    ensures KeptOf((log + [c])[a..], session, width, height)
         == var kept := KeptOf(log[a..], session, width, height);
            if Counts(c, session, width, height) then Put(kept, EntryAt(c)) else kept
  {
    var run := (log + [c])[a..];
    assert run[..|run| - 1] == log[a..] && run[|run| - 1] == c;
    hide Counts, Put;
  }

  lemma HeaderSnoc(log: seq<Chunk>, c: Chunk, a: nat, session: u16, width: nat, height: nat)
    ensures HeaderAt(log + [c], a, session, width, height)
       <==> if c.session == session && Begins(c, width, height) then a == |log|
            else HeaderAt(log, a, session, width, height)
  {
    hide Begins;
    var run := log + [c];
    assert run[|log|] == c && forall k :: 0 <= k < |log| ==> run[k] == log[k];
  }

  /** A rectangle stays open under one more chunk exactly when that is no new header of its session and the lengths
      kept still do not reach the size. */
  lemma {:induction false} OpenSnoc(log: seq<Chunk>, c: Chunk, a: nat, session: u16, width: nat, height: nat)
    ensures Open(log + [c], a, session, width, height)
       <==> && HeaderAt(log + [c], a, session, width, height)
            && (a < |log| ==> Open(log, a, session, width, height))
            && Received(KeptOf((log + [c])[a..], session, width, height)) < SizeOf((log + [c])[a], width, height)
  {
    HeaderSnoc(log, c, a, session, width, height);
    var run := log + [c];
    if HeaderAt(run, a, session, width, height) {
      assert forall k :: a < k <= |log| ==> run[a..k] == log[a..k];
      assert run[a..|run|] == run[a..];
      assert a < |log| ==> run[a] == log[a];
    }
    hide KeptOf, Received, SizeOf, Begins;
  }

  lemma TracedByOther(s: State, log: seq<Chunk>, c: Chunk, session: u16)
    requires Valid(s) && TracedAt(s, log, session) && !Counts(c, session, s.width, s.height)
    ensures TracedAt(IngestChunk(s, c).0, log + [c], session)
  {
    var t := IngestChunk(s, c).0;
    StepCases(s, c);
    OnlySession(s, c);
    StaysValid(s, c);
    assert session in t.pending <==> session in s.pending by {
      assert session != c.session ==> (session in t.pending <==> session in t.pending - {c.session});
    }
    assert session in t.pending ==> t.pending[session] == s.pending[session] by {
      assert session != c.session && session in t.pending
             ==> t.pending[session] == (t.pending - {c.session})[session] == (s.pending - {c.session})[session];
    }
    hide IngestChunk, Candidate, Valid, Sound, Painted, Payload;
    forall a ensures Open(log + [c], a, session, s.width, s.height) <==> Open(log, a, session, s.width, s.height)
      ensures Open(log, a, session, s.width, s.height) ==>
                OpenPending(log + [c], a, session, s.width, s.height) == OpenPending(log, a, session, s.width, s.height)
    {
      StaysOpen(log, c, a, session, s.width, s.height);
    }
    hide Open, OpenPending;
  }

  lemma StaysOpen(log: seq<Chunk>, c: Chunk, a: nat, session: u16, width: nat, height: nat)
    requires !Counts(c, session, width, height)
    ensures Open(log + [c], a, session, width, height) <==> Open(log, a, session, width, height)
    ensures Open(log, a, session, width, height) ==>
              OpenPending(log + [c], a, session, width, height) == OpenPending(log, a, session, width, height)
  {
    HeaderSnoc(log, c, a, session, width, height);
    OpenSnoc(log, c, a, session, width, height);
    if a < |log| {
      KeptSnoc(log, c, a, session, width, height);
      assert (log + [c])[a] == log[a] && log[a..|log|] == log[a..];
    }
    hide KeptOf, Received, SizeOf, Begins, Put, ReadRect;
  }

  lemma TracedByHeader(s: State, log: seq<Chunk>, c: Chunk)
    requires Valid(s) && Begins(c, s.width, s.height)
    ensures TracedAt(IngestChunk(s, c).0, log + [c], c.session)
  {
    var t := IngestChunk(s, c).0;
    var a := |log|;
    StepCases(s, c);
    StaysValid(s, c);
    KeptSnoc(log, c, a, c.session, s.width, s.height);
    assert log[a..] == [] && (log + [c])[a] == c;
    hide IngestChunk, Valid, Sound, Painted, Payload, Received, Put, ReadRect, PixelBytes;
    forall b ensures Open(log + [c], b, c.session, s.width, s.height) ==> b == a {
      HeaderSnoc(log, c, b, c.session, s.width, s.height);
    }
    OpenSnoc(log, c, a, c.session, s.width, s.height);
    HeaderSnoc(log, c, a, c.session, s.width, s.height);
  }

  lemma TracedByChunk(s: State, log: seq<Chunk>, c: Chunk)
    requires Valid(s) && TracedAt(s, log, c.session) && c.offset > 0
    ensures TracedAt(IngestChunk(s, c).0, log + [c], c.session)
  {
    var t := IngestChunk(s, c).0;
    StepCases(s, c);
    StaysValid(s, c);
    hide IngestChunk, Valid, Sound, Painted, Payload, Received, Put, ReadRect, PixelBytes;
    forall a
      ensures Open(log + [c], a, c.session, s.width, s.height)
         <==> Open(log, a, c.session, s.width, s.height) && Received(With(s.pending[c.session], c).chunks) < s.pending[c.session].total
      ensures Open(log, a, c.session, s.width, s.height) ==>
                OpenPending(log + [c], a, c.session, s.width, s.height) == With(s.pending[c.session], c)
    {
      ChunkAdded(s, log, c, a);
    }
    hide Open, OpenPending;
  }

  lemma ChunkAdded(s: State, log: seq<Chunk>, c: Chunk, a: nat)
    requires TracedAt(s, log, c.session) && c.offset > 0
    ensures Open(log + [c], a, c.session, s.width, s.height)
       <==> && Open(log, a, c.session, s.width, s.height)
            && Received(With(s.pending[c.session], c).chunks) < s.pending[c.session].total
    ensures Open(log, a, c.session, s.width, s.height) ==>
              OpenPending(log + [c], a, c.session, s.width, s.height) == With(s.pending[c.session], c)
  {
    OpenSnoc(log, c, a, c.session, s.width, s.height);
    HeaderSnoc(log, c, a, c.session, s.width, s.height);
    if a < |log| {
      KeptSnoc(log, c, a, c.session, s.width, s.height);
      assert (log + [c])[a] == log[a];
    }
    hide KeptOf, Received, SizeOf, Put, ReadRect, Growing;
  }

  lemma {:induction false} TracedStep(s: State, log: seq<Chunk>, c: Chunk, session: u16)
    requires Valid(s) && TracedAt(s, log, session)
    ensures TracedAt(IngestChunk(s, c).0, log + [c], session)
  {
    hide IngestChunk, TracedAt, Valid;
    if !Counts(c, session, s.width, s.height) {
      TracedByOther(s, log, c, session);
    } else if Begins(c, s.width, s.height) {
      TracedByHeader(s, log, c);
    } else {
      TracedByChunk(s, log, c);
    }
  }

  lemma {:induction false} TracedAtRun(s: State, log: seq<Chunk>, chunks: seq<Chunk>, session: u16)
    requires Valid(s) && TracedAt(s, log, session)
    ensures Valid(IngestAll(s, chunks)) && TracedAt(IngestAll(s, chunks), log + chunks, session)
    decreases |chunks|
  {
    if chunks == [] {
      assert log + chunks == log;
    } else {
      hide IngestChunk, Valid, TracedAt;
      StaysValid(s, chunks[0]);
      TracedStep(s, log, chunks[0], session);
      TracedAtRun(IngestChunk(s, chunks[0]).0, log + [chunks[0]], chunks[1..], session);
      assert log + [chunks[0]] + chunks[1..] == log + chunks;
    }
  }

  /** After any run, a session has a rectangle pending exactly when a header of it has arrived since which the lengths
      kept have never reached the size; it then holds exactly the chunks kept since that header. */
  lemma {:induction false} TracedRun(s: State, log: seq<Chunk>, chunks: seq<Chunk>)
    requires Valid(s) && Traced(s, log)
    ensures Valid(IngestAll(s, chunks)) && Traced(IngestAll(s, chunks), log + chunks)
  {
    IngestAppend(s, chunks, []);
    forall session: u16 ensures TracedAt(IngestAll(s, chunks), log + chunks, session) {
      TracedAtRun(s, log, chunks, session);
    }
    hide TracedAt, Valid;
  }

  lemma {:induction false} TracedFromFree(s: State, log: seq<Chunk>, session: u16)
    requires Valid(s) && session !in s.pending
    ensures Valid(IngestAll(s, log)) && TracedAt(IngestAll(s, log), log, session)
  {
    TracedAtRun(s, [], log, session);
    assert [] + log == log;
  }

  /** What a chunk is added to, by the log alone. */
  lemma {:induction false} CandidateIs(s: State, log: seq<Chunk>, c: Chunk) returns (a: nat)
    requires TracedAt(s, log, c.session) && Candidate(s, c).Some?
    ensures Counts(c, c.session, s.width, s.height)
    ensures HeaderAt(log + [c], a, c.session, s.width, s.height)
    ensures a < |log| ==> Open(log, a, c.session, s.width, s.height)
    ensures Candidate(s, c).value == OpenPending(log + [c], a, c.session, s.width, s.height)
  {
    if Begins(c, s.width, s.height) {
      a := |log|;
      assert log[a..] == [];
    } else {
      a :| Open(log, a, c.session, s.width, s.height);
    }
    HeaderSnoc(log, c, a, c.session, s.width, s.height);
    KeptSnoc(log, c, a, c.session, s.width, s.height);
    assert a < |log| ==> (log + [c])[a] == log[a];
    hide Put, ReadRect, Received, PixelBytes, Fits, Growing;
  }

  // Safety for arbitrary chunks.

  /** Chunk c lies wholly inside a message of `total` bytes and covers its byte j. */
  predicate Covers(c: Chunk, session: u16, total: nat, j: nat) {
    c.session == session && c.offset <= j < c.offset + |c.data| <= total
  }

  predicate Arrived(log: seq<Chunk>, session: u16, total: nat, j: nat) {
    exists d :: d in log && Covers(d, session, total, j)
  }

  /** Some chunk of the session lying inside the message carried this byte at position j. */
  predicate CarriedAt(log: seq<Chunk>, session: u16, total: nat, j: nat, b: byte) {
    exists d :: d in log && Covers(d, session, total, j) && d.data[j - d.offset] == b
  }

  lemma {:induction false} PutMembers(chunks: seq<Entry>, e: Entry, x: Entry)
    requires x in Put(chunks, e)
    ensures x == e || x in chunks
  {
    if chunks != [] && chunks[0].offset != e.offset && x != chunks[0] {
      PutMembers(chunks[1..], e, x);
    }
  }

  lemma {:induction false} KeptMembers(chunks: seq<Chunk>, session: u16, width: nat, height: nat, x: Entry)
    requires x in KeptOf(chunks, session, width, height)
    ensures exists d :: d in chunks && Counts(d, session, width, height) && EntryAt(d) == x
  {
    hide Counts, Put;
    var n := |chunks| - 1;
    var last := chunks[n];
    var kept := KeptOf(chunks[..n], session, width, height);
    if Counts(last, session, width, height) {
      PutMembers(kept, EntryAt(last), x);
    }
    if x in kept {
      KeptMembers(chunks[..n], session, width, height, x);
    } else {
      assert last in chunks;
    }
  }

  lemma {:induction false} ByteOfEntry(chunks: seq<Entry>, j: nat) returns (e: Entry)
    requires CoveredAt(chunks, j)
    ensures e in chunks && e.offset <= j < End(e) && ByteAt(chunks, j) == e.data[j - e.offset]
    decreases |chunks|
  {
    var n := |chunks| - 1;
    var last := chunks[n];
    if last.offset <= j < End(last) {
      e := last;
    } else {
      var k :| 0 <= k < |chunks| && chunks[k].offset <= j < End(chunks[k]);
      assert chunks[..n][k] == chunks[k];
      e := ByteOfEntry(chunks[..n], j);
    }
  }

  /** Each byte of a message that is spelled out came in a chunk of the run. */
  lemma {:induction false} KeptCarries(chunks: seq<Chunk>, session: u16, width: nat, height: nat, total: nat, j: nat)
    requires var kept := KeptOf(chunks, session, width, height); AllInside(kept, total) && CoveredAt(kept, j)
    ensures CarriedAt(chunks, session, total, j, ByteAt(KeptOf(chunks, session, width, height), j))
  {
    var kept := KeptOf(chunks, session, width, height);
    var e := ByteOfEntry(kept, j);
    KeptMembers(chunks, session, width, height, e);
    hide KeptOf, ByteAt, CoveredAt;
    var d :| d in chunks && Counts(d, session, width, height) && EntryAt(d) == e;
    assert Covers(d, session, total, j);
  }

  /** The rectangle p and its pixels were received in full since its own header, chunk a of the run. */
  predicate ReceivedSince(run: seq<Chunk>, a: nat, session: u16, width: nat, height: nat, p: Pending, pixels: seq<byte>) {
    && HeaderAt(run, a, session, width, height)
    && p.rect == ReadRect(run[a].data) && p.total == SizeOf(run[a], width, height) == RECT_HEADER_BYTES + |pixels|
    && (forall j: nat :: j < RECT_HEADER_BYTES ==> Arrived(run[a..], session, p.total, j))
    && (forall j: nat :: j < |pixels| ==> CarriedAt(run[a..], session, p.total, RECT_HEADER_BYTES + j, pixels[j]))
  }

  /** Whatever arrived before, in whatever order, sessions, lengths and overlaps: a step leaves every pixel alone
      unless it completes a rectangle inside the mirror. Then exactly that rectangle's pixels are painted, and every
      byte painted is one that a chunk of its session, lying wholly inside its message and received no earlier than its
      own header, carried at that position. */
  lemma {:induction false} PaintsOnlyWhatArrived(start: State, log: seq<Chunk>, c: Chunk)
    requires Valid(start) && c.session !in start.pending
    ensures Valid(IngestAll(start, log))
    ensures var s := IngestAll(start, log);
            var (t, done) := IngestChunk(s, c);
            if !done then t.pixels == s.pixels && t.applied == s.applied
            else
              && Candidate(s, c).Some?
              && var p := Candidate(s, c).value;
                 && Sound(p, s.width, s.height)
                 && t.applied == s.applied + 1
                 && Payload(p.chunks, p.total).Some?
                 && var pixels := Payload(p.chunks, p.total).value;
                    && t.pixels == Painted(s.pixels, s.width, s.height, p.rect, pixels)
                    && (exists a :: ReceivedSince(log + [c], a, c.session, s.width, s.height, p, pixels))
  {
    TracedFromFree(start, log, c.session);
    var s := IngestAll(start, log);
    QuietStep(s, c);
    if IngestChunk(s, c).1 {
      CompletedStep(s, c);
      var p := Candidate(s, c).value;
      var a := CandidateIs(s, log, c);
      hide *;
      SpelledOut(log + [c], a, c.session, s.width, s.height, p);
    }
  }

  lemma {:induction false} SpelledOut(run: seq<Chunk>, a: nat, session: u16, width: nat, height: nat, p: Pending)
    requires HeaderAt(run, a, session, width, height) && p == OpenPending(run, a, session, width, height)
    requires AllInside(p.chunks, p.total) && AllCovered(p.chunks, p.total)
    ensures Payload(p.chunks, p.total).Some?
    ensures ReceivedSince(run, a, session, width, height, p, Payload(p.chunks, p.total).value)
  {
    var pixels := Payload(p.chunks, p.total).value;
    forall j: nat | j < p.total
      ensures CarriedAt(run[a..], session, p.total, j, ByteAt(p.chunks, j))
    {
      assert CoveredAt(p.chunks, j);
      KeptCarries(run[a..], session, width, height, p.total, j);
    }
    assert forall j: nat :: j < |pixels| ==> pixels[j] == ByteAt(p.chunks, RECT_HEADER_BYTES + j);
    hide CoveredAt, ByteAt, KeptOf, ReadRect;
    forall j: nat | j < RECT_HEADER_BYTES ensures Arrived(run[a..], session, p.total, j) {
      assert CarriedAt(run[a..], session, p.total, j, ByteAt(p.chunks, j));
      var d :| d in run[a..] && Covers(d, session, p.total, j) && d.data[j - d.offset] == ByteAt(p.chunks, j);
    }
  }

  /** A step that reports completion had every byte of the message covered by chunks lying inside it. */
  lemma CompletedStep(s: State, c: Chunk)
    requires Valid(s) && IngestChunk(s, c).1
    ensures Candidate(s, c).Some?
    ensures var p := Candidate(s, c).value;
            && Sound(p, s.width, s.height)
            && AllInside(p.chunks, p.total) && AllCovered(p.chunks, p.total)
            && IngestChunk(s, c).0.applied == s.applied + 1
            && Payload(p.chunks, p.total).Some?
            && IngestChunk(s, c).0.pixels
               == Painted(s.pixels, s.width, s.height, p.rect, Payload(p.chunks, p.total).value)
  {
    StepCases(s, c);
    hide IngestChunk, Candidate, Painted, Received, Valid, Sound, AllInside, AllCovered;
  }
}
