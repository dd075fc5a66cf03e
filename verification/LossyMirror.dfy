/** A stream that loses chunks: what a damaged frame, or any number of them, costs the mirror. For runs of any length:
    exactly when the losses cost only their own rectangles. */
module LossyMirror {
  import opened Bytes
  import opened BinaryFrame
  import opened SerialLink
  import opened DisplayStream
  import opened Framebuffer
  import opened Reassembly
  import opened WholeRectangle
  import opened ScreenMirror
  import opened Completion
  import opened CornerPixel

  /** A flush on its way: the pieces, by number, whose frames did not survive. */
  datatype Trip = Trip(flush: Flush, lost: set<nat>)

  predicate Intact(trip: Trip, maxChunk: nat)
    requires maxChunk > RECT_HEADER_BYTES
  {
    forall i :: 0 <= i < |FlushPieces(trip.flush.rect, Pixels(trip.flush), maxChunk)| ==> i !in trip.lost
  }

  /** The chunks of t from piece i on that arrive. */
  function Survivors(t: Sent, i: nat, lost: set<nat>): seq<Chunk>
    requires i <= |t.pieces|
    decreases |t.pieces| - i
  {
    if i == |t.pieces| then []
    else (if i in lost then [] else [ChunkOf(t, i)]) + Survivors(t, i + 1, lost)
  }

  function Arriving(frameId: u16, trips: seq<Trip>, maxChunk: nat): seq<Chunk>
    requires maxChunk > RECT_HEADER_BYTES
    decreases |trips|
  {
    if trips == [] then []
    else Survivors(SentFlush(frameId, trips[0].flush, maxChunk), 0, trips[0].lost)
         + Arriving(Next16(frameId), trips[1..], maxChunk)
  }

  /** The flushes none of whose pieces were lost. */
  function IntactOf(trips: seq<Trip>, maxChunk: nat): seq<Flush>
    requires maxChunk > RECT_HEADER_BYTES
  {
    if trips == [] then []
    else (if Intact(trips[0], maxChunk) then [trips[0].flush] else []) + IntactOf(trips[1..], maxChunk)
  }

  predicate AllTripsReady(trips: seq<Trip>, width: nat, height: nat) {
    forall k :: 0 <= k < |trips| ==> Ready(trips[k].flush, width, height)
  }

  lemma {:induction false} IntactReady(trips: seq<Trip>, maxChunk: nat, width: nat, height: nat)
    requires AllTripsReady(trips, width, height) && maxChunk > RECT_HEADER_BYTES
    ensures AllReady(IntactOf(trips, maxChunk), width, height)
  {
    hide Ready, Intact;
    if trips != [] {
      IntactReady(trips[1..], maxChunk, width, height);
    }
  }

  lemma {:induction false} AllSurvive(t: Sent, i: nat, lost: set<nat>)
    requires i <= |t.pieces| && forall k :: 0 <= k < |t.pieces| ==> k !in lost
    ensures Survivors(t, i, lost) == Stamp(t.session, Start(t.pieces, i), t.pieces[i..])
    decreases |t.pieces| - i
  {
    hide Stamp, ChunkOf;
    if i < |t.pieces| {
      AllSurvive(t, i + 1, lost);
      StampSplit(t, i);
    } else {
      NothingStamped(t, i);
    }
  }

  lemma {:induction false} NothingStamped(t: Sent, i: nat)
    requires i == |t.pieces|
    ensures Stamp(t.session, Start(t.pieces, i), t.pieces[i..]) == []
  {}

  lemma {:induction false} SurvivorsFrom(t: Sent, i: nat, lost: set<nat>)
    requires i < |t.pieces|
    ensures i in lost ==> Survivors(t, i, lost) == Survivors(t, i + 1, lost)
    ensures i !in lost ==> Survivors(t, i, lost) == [ChunkOf(t, i)] + Survivors(t, i + 1, lost)
  {
    hide ChunkOf;
    assert [] + Survivors(t, i + 1, lost) == Survivors(t, i + 1, lost);
  }

  /** The mirror shows what it showed, and only the pending entry of one session may differ. */
  predicate Unmoved(s: State, u: State, session: u16) {
    && u.width == s.width && u.height == s.height
    && u.pixels == s.pixels && u.applied == s.applied
    && u.pending - {session} == s.pending - {session}
  }

  /** With a piece missing for good, the others are collected and never painted. */
  lemma {:induction false} HoleStays(s: State, t: Sent, i: nat, got: set<nat>, lost: set<nat>, hole: nat)
    requires Valid(s) && WellSent(t, s.width, s.height) && Collecting(s, t, got) && 0 < i <= |t.pieces|
    requires hole < |t.pieces| && hole in lost && hole !in got
    ensures Valid(IngestAll(s, Survivors(t, i, lost))) && Unmoved(s, IngestAll(s, Survivors(t, i, lost)), t.session)
    decreases |t.pieces| - i
  {
    hide IngestChunk, IngestAll, Valid, WellSent, Collecting, ChunkOf;
    if i == |t.pieces| {
      NothingIngested(s);
    } else {
      SurvivorsFrom(t, i, lost);
      if i in lost {
        HoleStays(s, t, i + 1, got, lost, hole);
      } else {
        var c := ChunkOf(t, i);
        OwnStep(s, t, got, i);
        assert !Whole(t, got + {i}) by { assert hole !in got + {i}; }
        OwnSession(t, i);
        OnlySession(s, c);
        IngestFirst(s, c, Survivors(t, i + 1, lost));
        HoleStays(IngestChunk(s, c).0, t, i + 1, if i in got then got else got + {i}, lost, hole);
      }
    }
  }

  lemma OwnSession(t: Sent, i: nat)
    requires i < |t.pieces|
    ensures ChunkOf(t, i).session == t.session
  {}

  /** A rectangle that lost a piece but not its header moves no pixel, whatever its session held before. */
  lemma {:induction false} BrokenFlush(s: State, t: Sent, lost: set<nat>, hole: nat)
    requires Valid(s) && WellSent(t, s.width, s.height)
    requires 0 !in lost && hole < |t.pieces| && hole in lost
    ensures Valid(IngestAll(s, Survivors(t, 0, lost))) && Unmoved(s, IngestAll(s, Survivors(t, 0, lost)), t.session)
  {
    hide IngestChunk, IngestAll, Valid, WellSent, Collecting, ChunkOf;
    SurvivorsFrom(t, 0, lost);
    var c := ChunkOf(t, 0);
    HeaderStep(s, t);
    OwnSession(t, 0);
    OnlySession(s, c);
    IngestFirst(s, c, Survivors(t, 1, lost));
    HoleStays(IngestChunk(s, c).0, t, 1, {0}, lost, hole);
  }

  // Chunks that complete nothing.

  predicate NoneDone(s: State, chunks: seq<Chunk>)
    requires Valid(s)
  {
    forall n :: 0 <= n < |chunks| ==> !DoneAt(s, chunks, n)
  }

  predicate DoneAt(s: State, chunks: seq<Chunk>, n: nat)
    requires Valid(s) && n < |chunks|
  {
    SameSize(s, chunks[..n]);
    IngestChunk(IngestAll(s, chunks[..n]), chunks[n]).1
  }

  /** The mirror counts the chunks that completed something, and moves no pixel if there is none. */
  lemma {:induction false} CountsDone(s: State, chunks: seq<Chunk>, n: nat)
    requires Valid(s) && n <= |chunks|
    ensures Valid(IngestAll(s, chunks[..n])) && IngestAll(s, chunks[..n]).applied >= s.applied
    ensures (exists k :: 0 <= k < n && DoneAt(s, chunks, k)) ==> IngestAll(s, chunks[..n]).applied > s.applied
    ensures (forall k :: 0 <= k < n ==> !DoneAt(s, chunks, k)) ==>
              IngestAll(s, chunks[..n]).applied == s.applied && IngestAll(s, chunks[..n]).pixels == s.pixels
  {
    hide IngestChunk, IngestAll, Valid;
    if n == 0 {
      NothingIngested(s);
      assert chunks[..0] == [];
    } else {
      var before := chunks[..n - 1];
      CountsDone(s, chunks, n - 1);
      IngestLast(s, before, chunks[n - 1]);
      QuietStep(IngestAll(s, before), chunks[n - 1]);
      assert DoneAt(s, chunks, n - 1) <==> IngestChunk(IngestAll(s, before), chunks[n - 1]).1;
      assert chunks[..n] == before + [chunks[n - 1]];
    }
  }

  // One flush.

  lemma {:induction false} WholeTrip(s: State, screen: seq<u16>, known: iset<nat>, frameId: u16, trip: Trip, maxChunk: nat)
    requires Valid(s) && Ready(trip.flush, s.width, s.height) && maxChunk > RECT_HEADER_BYTES
    requires Intact(trip, maxChunk)
    ensures WellSent(SentFlush(frameId, trip.flush, maxChunk), s.width, s.height)
    ensures var t := SentFlush(frameId, trip.flush, maxChunk);
            var u := IngestAll(s, Survivors(t, 0, trip.lost));
            && u == Completed(s, t)
            && (Mirrors(s, screen, known) ==>
                  Mirrors(u, Draw(screen, trip.flush, s.width, s.height), Learn(known, trip.flush, s.width)))
  {
    var t := SentFlush(frameId, trip.flush, maxChunk);
    FlushIsWellSent(frameId, trip.flush, maxChunk, s.width, s.height);
    AllSurvive(t, 0, trip.lost);
    assert t.pieces[0..] == t.pieces;
    hide IngestChunk, IngestAll, Valid, WellSent, Mirrors, Draw, Learn, Stamp, Survivors, FlushPieces, Ready;
    InOrder(s, t);
    if Mirrors(s, screen, known) {
      FlushMirrors(s, screen, known, t, trip.flush);
    }
  }

  /** What a flush on its way adds: itself if whole; nothing if it broke behind its header; and without its header, one
      count for each rectangle its chunks complete, or nothing at all. */
  lemma {:induction false} TripMirrors(s: State, screen: seq<u16>, known: iset<nat>, frameId: u16, trip: Trip,
                                       maxChunk: nat) returns (u: State, chunks: seq<Chunk>)
    requires Valid(s) && Ready(trip.flush, s.width, s.height) && maxChunk > RECT_HEADER_BYTES
    requires Mirrors(s, screen, known)
    ensures chunks == Survivors(SentFlush(frameId, trip.flush, maxChunk), 0, trip.lost) && u == IngestAll(s, chunks)
    ensures Valid(u) && u.width == s.width && u.height == s.height
    ensures if Intact(trip, maxChunk) then
              && 0 !in trip.lost && u.applied == s.applied + 1
              && Mirrors(u, Draw(screen, trip.flush, s.width, s.height), Learn(known, trip.flush, s.width))
            else if 0 !in trip.lost || NoneDone(s, chunks) then u.applied == s.applied && Mirrors(u, screen, known)
            else u.applied > s.applied
  {
    var t := SentFlush(frameId, trip.flush, maxChunk);
    assert t.pieces == FlushPieces(trip.flush.rect, Pixels(trip.flush), maxChunk) && t.session == frameId;
    FlushIsWellSent(frameId, trip.flush, maxChunk, s.width, s.height);
    chunks := Survivors(t, 0, trip.lost);
    u := IngestAll(s, chunks);
    SameSize(s, chunks);
    if Intact(trip, maxChunk) {
      WholeTrip(s, screen, known, frameId, trip, maxChunk);
      CompletedState(s, t);
      assert t.pieces != [] && 0 !in trip.lost;
      hide IngestChunk, IngestAll, Valid, WellSent, Mirrors, Draw, Learn, Survivors, FlushPieces, Ready, Completed;
    } else {
      var hole :| 0 <= hole < |t.pieces| && hole in trip.lost;
      hide IngestChunk, IngestAll, Valid, WellSent, Draw, Learn, Survivors, FlushPieces, Ready, DoneAt;
      if 0 !in trip.lost {
        BrokenFlush(s, t, trip.lost, hole);
      } else {
        CountsDone(s, chunks, |chunks|);
        assert chunks[..|chunks|] == chunks;
      }
    }
  }

  /** No flush whose header was lost completes anything. */
  predicate Quiet(s: State, frameId: u16, trips: seq<Trip>, maxChunk: nat)
    requires Valid(s) && maxChunk > RECT_HEADER_BYTES
    decreases |trips|
  {
    trips == [] ||
    var chunks := Survivors(SentFlush(frameId, trips[0].flush, maxChunk), 0, trips[0].lost);
    SameSize(s, chunks);
    (0 in trips[0].lost ==> NoneDone(s, chunks)) && Quiet(IngestAll(s, chunks), Next16(frameId), trips[1..], maxChunk)
  }

  /** From s on, u has applied these flushes and shows them. */
  ghost predicate Shows(s: State, u: State, screen: seq<u16>, known: iset<nat>, flushes: seq<Flush>)
    requires AllReady(flushes, s.width, s.height)
  {
    && u.applied == s.applied + |flushes|
    && Mirrors(u, DrawAll(screen, flushes, s.width, s.height), iset p: nat | p in known || Drawn(flushes, s.width, p))
  }

  lemma ShowsOneMore(s: State, t: State, u: State, screen: seq<u16>, known: iset<nat>, f: Flush, later: seq<Flush>)
    requires Ready(f, s.width, s.height) && AllReady(later, s.width, s.height)
    requires t.width == s.width && t.height == s.height && t.applied == s.applied + 1
    requires Shows(t, u, Draw(screen, f, s.width, s.height), Learn(known, f, s.width), later)
    ensures AllReady([f] + later, s.width, s.height) && Shows(s, u, screen, known, [f] + later)
  {
    hide Mirrors, Draw, Learn, Drawn, Ready;
    var flushes := [f] + later;
    assert flushes[0] == f && flushes[1..] == later;
    LearntInTurn(known, flushes, s.width);
  }

  lemma SameBefore(s: State, t: State, u: State, screen: seq<u16>, known: iset<nat>, flushes: seq<Flush>)
    requires s.width == t.width && s.height == t.height && s.applied == t.applied
    requires AllReady(flushes, s.width, s.height)
    ensures Shows(t, u, screen, known, flushes) == Shows(s, u, screen, known, flushes)
  {}

  /** What arrived, arrived: the mirror counts at least the intact flushes, and exactly them only if all was quiet. */
  lemma {:induction false} AppliesAtLeast(s: State, frameId: u16, trips: seq<Trip>, maxChunk: nat)
    requires Valid(s) && AllTripsReady(trips, s.width, s.height) && maxChunk > RECT_HEADER_BYTES
    ensures Valid(IngestAll(s, Arriving(frameId, trips, maxChunk)))
    ensures var u := IngestAll(s, Arriving(frameId, trips, maxChunk));
            var n := s.applied + |IntactOf(trips, maxChunk)|;
            u.applied >= n && (!Quiet(s, frameId, trips, maxChunk) ==> u.applied > n)
    decreases |trips|
  {
    if trips == [] {
      NothingIngested(s);
    } else {
      TripsReady(trips, s.width, s.height);
      var t := FirstCounted(s, frameId, trips, maxChunk);
      IntactCons(trips, maxChunk);
      AppliesAtLeast(t, Next16(frameId), trips[1..], maxChunk);
      hide IngestAll, Valid, Intact, IntactOf, Arriving, NoneDone, Ready;
    }
  }

  /** The first flush on its way, in counts alone: whatever the mirror shows. */
  lemma {:induction false} FirstCounted(s: State, frameId: u16, trips: seq<Trip>, maxChunk: nat) returns (t: State)
    requires Valid(s) && trips != [] && Ready(trips[0].flush, s.width, s.height) && maxChunk > RECT_HEADER_BYTES
    ensures var chunks := Survivors(SentFlush(frameId, trips[0].flush, maxChunk), 0, trips[0].lost);
            && t == IngestAll(s, chunks) && Valid(t) && t.width == s.width && t.height == s.height
            && t.applied >= s.applied + (if Intact(trips[0], maxChunk) then 1 else 0)
            && (Intact(trips[0], maxChunk) ==> 0 !in trips[0].lost)
            && (0 in trips[0].lost && !NoneDone(s, chunks) ==> t.applied > s.applied)
    ensures Valid(IngestAll(s, Arriving(frameId, trips, maxChunk)))
    ensures IngestAll(s, Arriving(frameId, trips, maxChunk))
         == IngestAll(t, Arriving(Next16(frameId), trips[1..], maxChunk))
  {
    var nothing: iset<nat> := iset{};
    var blank := seq<u16>(|s.pixels| / 3, _ => 0);
    assert Mirrors(s, blank, nothing) by { assert |s.pixels| == 3 * |blank| by { Thirds(s.width * s.height); } }
    hide IngestChunk, IngestAll, Valid, Mirrors, Draw, Learn, Ready, Intact, Survivors, SentFlush, NoneDone;
    var chunks;
    t, chunks := TripMirrors(s, blank, nothing, frameId, trips[0], maxChunk);
    IngestAppend(s, chunks, Arriving(Next16(frameId), trips[1..], maxChunk));
    IngestAppend(s, Arriving(frameId, trips, maxChunk), []);
  }

  lemma Thirds(n: nat)
    ensures n * 3 / 3 * 3 == n * 3
  {}

  /** If all was quiet the mirror shows the intact flushes. */
  lemma {:induction false} QuietShows(s: State, screen: seq<u16>, known: iset<nat>, frameId: u16, trips: seq<Trip>,
                                      maxChunk: nat)
    requires Valid(s) && AllTripsReady(trips, s.width, s.height) && maxChunk > RECT_HEADER_BYTES
    requires Mirrors(s, screen, known) && Quiet(s, frameId, trips, maxChunk)
    ensures Valid(IngestAll(s, Arriving(frameId, trips, maxChunk)))
    ensures AllReady(IntactOf(trips, maxChunk), s.width, s.height)
    ensures Shows(s, IngestAll(s, Arriving(frameId, trips, maxChunk)), screen, known, IntactOf(trips, maxChunk))
    decreases |trips|
  {
    IntactReady(trips, maxChunk, s.width, s.height);
    if trips == [] {
      NothingArrives(s, screen, known, frameId, trips, maxChunk);
    } else {
      var f, later := trips[0].flush, trips[1..];
      TripsReady(trips, s.width, s.height);
      var t, chunks := TripMirrors(s, screen, known, frameId, trips[0], maxChunk);
      var same := FirstCounted(s, frameId, trips, maxChunk);
      IntactCons(trips, maxChunk);
      hide *;
      assert Quiet(t, Next16(frameId), later, maxChunk) by { QuietLater(s, frameId, trips, maxChunk); }
      if Intact(trips[0], maxChunk) {
        QuietShows(t, Draw(screen, f, s.width, s.height), Learn(known, f, s.width), Next16(frameId), later, maxChunk);
        ShowsOneMore(s, t, IngestAll(t, Arriving(Next16(frameId), later, maxChunk)), screen, known, f,
          IntactOf(later, maxChunk));
      } else {
        QuietFirst(s, frameId, trips, maxChunk);
        QuietShows(t, screen, known, Next16(frameId), later, maxChunk);
        SameBefore(s, t, IngestAll(t, Arriving(Next16(frameId), later, maxChunk)), screen, known,
          IntactOf(later, maxChunk));
      }
    }
  }

  lemma {:induction false} QuietLater(s: State, frameId: u16, trips: seq<Trip>, maxChunk: nat)
    requires Valid(s) && maxChunk > RECT_HEADER_BYTES && trips != [] && Quiet(s, frameId, trips, maxChunk)
    ensures var t := IngestAll(s, Survivors(SentFlush(frameId, trips[0].flush, maxChunk), 0, trips[0].lost));
            Valid(t) && Quiet(t, Next16(frameId), trips[1..], maxChunk)
  {
    hide Survivors, SentFlush, IngestAll, Valid, NoneDone;
    SameSize(s, Survivors(SentFlush(frameId, trips[0].flush, maxChunk), 0, trips[0].lost));
  }

  lemma {:induction false} QuietFirst(s: State, frameId: u16, trips: seq<Trip>, maxChunk: nat)
    requires Valid(s) && maxChunk > RECT_HEADER_BYTES && trips != [] && Quiet(s, frameId, trips, maxChunk)
    ensures 0 in trips[0].lost ==>
              NoneDone(s, Survivors(SentFlush(frameId, trips[0].flush, maxChunk), 0, trips[0].lost))
  {}

  lemma {:induction false} NothingArrives(s: State, screen: seq<u16>, known: iset<nat>, frameId: u16,
                                          trips: seq<Trip>, maxChunk: nat)
    requires Valid(s) && trips == [] && maxChunk > RECT_HEADER_BYTES && Mirrors(s, screen, known)
    ensures IngestAll(s, Arriving(frameId, trips, maxChunk)) == s && IntactOf(trips, maxChunk) == []
    ensures Shows(s, s, screen, known, [])
  {
    assert (iset p: nat | p in known || Drawn([], s.width, p)) == known;
  }

  lemma TripsReady(trips: seq<Trip>, width: nat, height: nat)
    requires AllTripsReady(trips, width, height) && trips != []
    ensures Ready(trips[0].flush, width, height) && AllTripsReady(trips[1..], width, height)
  {
    hide Ready;
  }

  lemma {:induction false} IntactCons(trips: seq<Trip>, maxChunk: nat)
    requires trips != [] && maxChunk > RECT_HEADER_BYTES
    ensures IntactOf(trips, maxChunk)
         == if Intact(trips[0], maxChunk) then [trips[0].flush] + IntactOf(trips[1..], maxChunk)
            else IntactOf(trips[1..], maxChunk)
  {
    hide Intact;
    assert [] + IntactOf(trips[1..], maxChunk) == IntactOf(trips[1..], maxChunk);
  }

  // Exactly when, in terms of what arrives.

  /** What survives of flush k. */
  function SurvivorsOf(frameId: u16, trips: seq<Trip>, k: nat, maxChunk: nat): seq<Chunk>
    requires k < |trips| && maxChunk > RECT_HEADER_BYTES
  {
    Survivors(SentFlush(SessionAt(frameId, k), trips[k].flush, maxChunk), 0, trips[k].lost)
  }

  /** Flush k lost its header, and with its surviving chunk n a rectangle is complete: one begun by an earlier flush of
      the same session number. */
  predicate AdoptsAt(before: seq<Chunk>, frameId: u16, trips: seq<Trip>, maxChunk: nat, k: nat, n: nat, width: nat,
                     height: nat)
    requires k < |trips| && maxChunk > RECT_HEADER_BYTES
  {
    var chunks := SurvivorsOf(frameId, trips, k, maxChunk);
    && 0 in trips[k].lost && n < |chunks|
    && Finishes(before + Arriving(frameId, trips[..k], maxChunk) + chunks[..n + 1], width, height)
  }

  /** A chunk of a flush whose header was lost completes a rectangle begun by another flush. */
  predicate Adopts(before: seq<Chunk>, frameId: u16, trips: seq<Trip>, maxChunk: nat, width: nat, height: nat)
    requires maxChunk > RECT_HEADER_BYTES
  {
    exists k, n :: 0 <= k < |trips| && 0 <= n < |SurvivorsOf(frameId, trips, k, maxChunk)|
                   && AdoptsAt(before, frameId, trips, maxChunk, k, n, width, height)
  }

  lemma SessionFirst(frameId: u16, k: nat)
    ensures SessionAt(frameId, 0) == frameId && SessionAt(Next16(frameId), k) == SessionAt(frameId, k + 1)
  {}

  lemma {:induction false} ArrivingFirst(frameId: u16, trips: seq<Trip>, k: nat, maxChunk: nat)
    requires trips != [] && k <= |trips[1..]| && maxChunk > RECT_HEADER_BYTES
    ensures Arriving(frameId, trips[..k + 1], maxChunk)
         == SurvivorsOf(frameId, trips, 0, maxChunk) + Arriving(Next16(frameId), trips[1..][..k], maxChunk)
  {
    SessionFirst(frameId, k);
    assert trips[..k + 1][1..] == trips[1..][..k];
    hide Survivors, SentFlush;
  }

  lemma {:induction false} ArrivingCons(frameId: u16, trips: seq<Trip>, k: nat, maxChunk: nat)
    requires trips != [] && k < |trips[1..]| && maxChunk > RECT_HEADER_BYTES
    ensures Arriving(frameId, trips[..k + 1], maxChunk)
         == SurvivorsOf(frameId, trips, 0, maxChunk) + Arriving(Next16(frameId), trips[1..][..k], maxChunk)
    ensures SurvivorsOf(Next16(frameId), trips[1..], k, maxChunk) == SurvivorsOf(frameId, trips, k + 1, maxChunk)
  {
    SessionFirst(frameId, k);
    assert trips[..k + 1][1..] == trips[1..][..k];
    hide Survivors, SentFlush;
  }

  /** The later flushes seen from behind the first. */
  lemma {:induction false} AdoptsLater(before: seq<Chunk>, frameId: u16, trips: seq<Trip>, maxChunk: nat, k: nat, n: nat,
                                       width: nat, height: nat)
    requires trips != [] && k < |trips[1..]| && maxChunk > RECT_HEADER_BYTES
    ensures AdoptsAt(before + SurvivorsOf(frameId, trips, 0, maxChunk), Next16(frameId), trips[1..], maxChunk, k, n, width, height)
       <==> AdoptsAt(before, frameId, trips, maxChunk, k + 1, n, width, height)
  {
    ArrivingCons(frameId, trips, k, maxChunk);
    hide Survivors, SentFlush, SurvivorsOf, Arriving, Finishes;
    var first := SurvivorsOf(frameId, trips, 0, maxChunk);
    var later := Arriving(Next16(frameId), trips[1..][..k], maxChunk);
    assert before + (first + later) == before + first + later;
  }

  /** The first flush: what it completes is what the run it ends completes. */
  lemma {:induction false} AdoptsFirst(start: State, before: seq<Chunk>, frameId: u16, trips: seq<Trip>, maxChunk: nat,
                                       n: nat)
    requires Valid(start) && start.pending == map[] && trips != [] && maxChunk > RECT_HEADER_BYTES
    requires 0 in trips[0].lost && n < |SurvivorsOf(frameId, trips, 0, maxChunk)|
    ensures Valid(IngestAll(start, before))
    ensures DoneAt(IngestAll(start, before), SurvivorsOf(frameId, trips, 0, maxChunk), n)
       <==> AdoptsAt(before, frameId, trips, maxChunk, 0, n, start.width, start.height)
  {
    var chunks := SurvivorsOf(frameId, trips, 0, maxChunk);
    assert trips[..0] == [];
    assert Arriving(frameId, [], maxChunk) == [];
    hide Survivors, SentFlush, SurvivorsOf, Arriving, Finishes, IngestAll, IngestChunk, Valid;
    DoneIsFinished(start, before, chunks, n);
    assert before + [] == before;
  }

  /** All is quiet exactly when no flush without a header completes the rectangle of another. */
  lemma {:induction false} QuietIsNoAdoption(start: State, before: seq<Chunk>, frameId: u16, trips: seq<Trip>, maxChunk: nat)
    requires Valid(start) && start.pending == map[] && maxChunk > RECT_HEADER_BYTES
    ensures Valid(IngestAll(start, before))
    ensures Quiet(IngestAll(start, before), frameId, trips, maxChunk)
       <==> !Adopts(before, frameId, trips, maxChunk, start.width, start.height)
    decreases |trips|
  {
    IngestAppend(start, before, []);
    if trips != [] {
      var first := SurvivorsOf(frameId, trips, 0, maxChunk);
      var u := IngestAll(start, before);
      IngestAppend(start, before, first);
      QuietIsNoAdoption(start, before + first, Next16(frameId), trips[1..], maxChunk);
      QuietCons(u, frameId, trips, maxChunk);
      hide IngestAll, Valid, Quiet, Arriving, Survivors, AdoptsAt, Adopts, DoneAt;
      if 0 in trips[0].lost {
        forall n | 0 <= n < |first|
          ensures DoneAt(u, first, n) <==> AdoptsAt(before, frameId, trips, maxChunk, 0, n, start.width, start.height)
        {
          AdoptsFirst(start, before, frameId, trips, maxChunk, n);
        }
      }
      AdoptsSplit(before, frameId, trips, maxChunk, start.width, start.height);
    }
  }

  lemma {:induction false} QuietCons(u: State, frameId: u16, trips: seq<Trip>, maxChunk: nat)
    requires Valid(u) && trips != [] && maxChunk > RECT_HEADER_BYTES
    ensures var first := SurvivorsOf(frameId, trips, 0, maxChunk);
            && Valid(IngestAll(u, first))
            && (Quiet(u, frameId, trips, maxChunk)
                <==> && (0 in trips[0].lost ==> NoneDone(u, first))
                     && Quiet(IngestAll(u, first), Next16(frameId), trips[1..], maxChunk))
  {
    SessionFirst(frameId, 0);
    hide Survivors, SentFlush, IngestAll, Valid, NoneDone;
    SameSize(u, SurvivorsOf(frameId, trips, 0, maxChunk));
  }

  lemma {:induction false} AdoptsSplit(before: seq<Chunk>, frameId: u16, trips: seq<Trip>, maxChunk: nat, width: nat,
                                       height: nat)
    requires trips != [] && maxChunk > RECT_HEADER_BYTES
    ensures var first := SurvivorsOf(frameId, trips, 0, maxChunk);
            Adopts(before, frameId, trips, maxChunk, width, height)
            <==> || (exists n :: 0 <= n < |first| && AdoptsAt(before, frameId, trips, maxChunk, 0, n, width, height))
                 || Adopts(before + first, Next16(frameId), trips[1..], maxChunk, width, height)
  {
    var first := SurvivorsOf(frameId, trips, 0, maxChunk);
    var later := trips[1..];
    hide AdoptsAt, SurvivorsOf;
    if Adopts(before, frameId, trips, maxChunk, width, height) {
      var k, n :| 0 <= k < |trips| && 0 <= n < |SurvivorsOf(frameId, trips, k, maxChunk)|
                  && AdoptsAt(before, frameId, trips, maxChunk, k, n, width, height);
      if k > 0 {
        AdoptsLater(before, frameId, trips, maxChunk, k - 1, n, width, height);
        ArrivingCons(frameId, trips, k - 1, maxChunk);
      }
    }
    if Adopts(before + first, Next16(frameId), later, maxChunk, width, height) {
      var k, n :| 0 <= k < |later| && 0 <= n < |SurvivorsOf(Next16(frameId), later, k, maxChunk)|
                  && AdoptsAt(before + first, Next16(frameId), later, maxChunk, k, n, width, height);
      AdoptsLater(before, frameId, trips, maxChunk, k, n, width, height);
      ArrivingCons(frameId, trips, k, maxChunk);
    }
  }

  /** For runs of any length and any losses: the mirror shows and counts exactly the flushes that arrived intact, if and
      only if no chunk of a flush whose header was lost completes a rectangle begun by another flush. That depends on
      the offsets and lengths of what arrives, not on what was shown. */
  lemma {:induction false} LossesExactly(s: State, screen: seq<u16>, known: iset<nat>, frameId: u16, trips: seq<Trip>,
                                         maxChunk: nat)
    requires Valid(s) && s.pending == map[] && AllTripsReady(trips, s.width, s.height) && maxChunk > RECT_HEADER_BYTES
    requires Mirrors(s, screen, known)
    ensures Valid(IngestAll(s, Arriving(frameId, trips, maxChunk)))
    ensures AllReady(IntactOf(trips, maxChunk), s.width, s.height)
    ensures Shows(s, IngestAll(s, Arriving(frameId, trips, maxChunk)), screen, known, IntactOf(trips, maxChunk))
       <==> !Adopts([], frameId, trips, maxChunk, s.width, s.height)
  {
    IntactReady(trips, maxChunk, s.width, s.height);
    AppliesAtLeast(s, frameId, trips, maxChunk);
    NothingIngested(s);
    QuietIsNoAdoption(s, [], frameId, trips, maxChunk);
    hide IngestAll, Valid, Quiet, Arriving, Adopts, IntactOf, Mirrors;
    if Quiet(s, frameId, trips, maxChunk) {
      QuietShows(s, screen, known, frameId, trips, maxChunk);
    }
  }

  // A condition on the losses alone.

  /** Flush j is the last before flush k under the same session number whose header arrived. */
  predicate LastHeader(frameId: u16, trips: seq<Trip>, j: nat, k: nat)
    requires j < k <= |trips|
  {
    LastOf(frameId, trips, j, k, SessionAt(frameId, k))
  }

  predicate LastOf(frameId: u16, trips: seq<Trip>, j: nat, k: nat, session: u16)
    requires j < k <= |trips|
  {
    && SessionAt(frameId, j) == session && 0 !in trips[j].lost
    && (forall m :: j < m < k && SessionAt(frameId, m) == session ==> 0 in trips[m].lost)
  }

  /** The header of flush k was lost and another piece of it was not. */
  predicate Orphaned(trip: Trip, maxChunk: nat)
    requires maxChunk > RECT_HEADER_BYTES
  {
    && 0 in trip.lost
    && exists i :: 0 < i < |FlushPieces(trip.flush.rect, Pixels(trip.flush), maxChunk)| && i !in trip.lost
  }

  /** Whenever the header of a flush is lost while another of its pieces survives, the last flush under the same session
      number whose header did arrive was intact, if there is one. */
  predicate NoStaleHeader(frameId: u16, trips: seq<Trip>, maxChunk: nat)
    requires maxChunk > RECT_HEADER_BYTES
  {
    forall j, k :: 0 <= j < k < |trips| && Orphaned(trips[k], maxChunk) && LastHeader(frameId, trips, j, k)
      ==> Intact(trips[j], maxChunk)
  }

  lemma {:induction false} ArrivingSnoc(frameId: u16, trips: seq<Trip>, k: nat, maxChunk: nat)
    requires k < |trips| && maxChunk > RECT_HEADER_BYTES
    ensures Arriving(frameId, trips[..k + 1], maxChunk)
         == Arriving(frameId, trips[..k], maxChunk) + SurvivorsOf(frameId, trips, k, maxChunk)
    decreases k
  {
    hide *;
    var later := trips[1..];
    ArrivingFirst(frameId, trips, k, maxChunk);
    if k == 0 {
      assert later[..0] == [] && trips[..0] == [];
      NoTrips(Next16(frameId), maxChunk);
      NoTrips(frameId, maxChunk);
    } else {
      ArrivingFirst(frameId, trips, k - 1, maxChunk);
      ArrivingSnoc(Next16(frameId), later, k - 1, maxChunk);
      ArrivingCons(frameId, trips, k - 1, maxChunk);
    }
  }

  /** Without its header a flush opens nothing and, on a free session, completes nothing and moves no pixel. */
  lemma {:induction false} OrphansDropped(s: State, t: Sent, i: nat, lost: set<nat>)
    requires Valid(s) && WellSent(t, s.width, s.height) && 0 < i <= |t.pieces|
    ensures var chunks := Survivors(t, i, lost);
            && Valid(IngestAll(s, chunks))
            && IngestAll(s, chunks).pending - {t.session} == s.pending - {t.session}
            && (t.session !in s.pending ==>
                  && t.session !in IngestAll(s, chunks).pending
                  && NoneDone(s, chunks) && Unmoved(s, IngestAll(s, chunks), t.session))
    decreases |t.pieces| - i
  {
    hide IngestChunk, IngestAll, Valid, WellSent, ChunkOf;
    if i == |t.pieces| {
      NothingIngested(s);
    } else {
      SurvivorsFrom(t, i, lost);
      if i in lost {
        OrphansDropped(s, t, i + 1, lost);
      } else {
        var c := ChunkOf(t, i);
        OrphanStep(s, t, i);
        IngestFirst(s, c, Survivors(t, i + 1, lost));
        StaysValid(s, c);
        OrphansDropped(IngestChunk(s, c).0, t, i + 1, lost);
        if t.session !in s.pending {
          NoneDoneCons(s, c, Survivors(t, i + 1, lost));
        }
      }
    }
  }

  lemma OrphanStep(s: State, t: Sent, i: nat)
    requires Valid(s) && WellSent(t, s.width, s.height) && 0 < i < |t.pieces|
    ensures var (u, done) := IngestChunk(s, ChunkOf(t, i));
            && u.pending - {t.session} == s.pending - {t.session}
            && (t.session !in s.pending ==> t.session !in u.pending && !done && u == s.(dropped := s.dropped + 1))
  {
    OwnSession(t, i);
    OnlySession(s, ChunkOf(t, i));
    if t.session !in s.pending {
      LateRepeat(s, t, i);
    }
    hide IngestChunk, ChunkOf, WellSent, Valid;
  }

  lemma {:induction false} NoneDoneCons(s: State, c: Chunk, later: seq<Chunk>)
    requires Valid(s) && !IngestChunk(s, c).1
    ensures Valid(IngestChunk(s, c).0)
    ensures NoneDone(IngestChunk(s, c).0, later) ==> NoneDone(s, [c] + later)
  {
    hide IngestChunk, IngestAll, Valid;
    StaysValid(s, c);
    var u, chunks := IngestChunk(s, c).0, [c] + later;
    if NoneDone(u, later) {
      forall n | 0 <= n < |chunks| ensures !DoneAt(s, chunks, n) {
        if n == 0 {
          assert chunks[..0] == [];
          NothingIngested(s);
        } else {
          assert !DoneAt(u, later, n - 1);
          assert chunks[..n] == [c] + later[..n - 1];
          IngestFirst(s, c, later[..n - 1]);
        }
      }
    }
  }

  /** What one flush leaves pending: nothing of its own if it was whole, at most what was there if its header was lost. */
  lemma {:induction false} TripPending(s: State, frameId: u16, trip: Trip, maxChunk: nat)
    requires Valid(s) && Ready(trip.flush, s.width, s.height) && maxChunk > RECT_HEADER_BYTES
    ensures var u := IngestAll(s, Survivors(SentFlush(frameId, trip.flush, maxChunk), 0, trip.lost));
            && Valid(u) && u.width == s.width && u.height == s.height
            && u.pending - {frameId} == s.pending - {frameId}
            && (Intact(trip, maxChunk) ==> frameId !in u.pending)
            && (0 in trip.lost && frameId !in s.pending ==> frameId !in u.pending)
  {
    var t := SentFlush(frameId, trip.flush, maxChunk);
    assert t.pieces == FlushPieces(trip.flush.rect, Pixels(trip.flush), maxChunk) && t.session == frameId;
    FlushIsWellSent(frameId, trip.flush, maxChunk, s.width, s.height);
    SameSize(s, Survivors(t, 0, trip.lost));
    if Intact(trip, maxChunk) {
      WholeTrip(s, [], iset{}, frameId, trip, maxChunk);
      CompletedState(s, t);
      hide IngestChunk, IngestAll, Valid, WellSent, Survivors, FlushPieces, Ready, Completed, Mirrors;
    } else {
      var hole :| 0 <= hole < |t.pieces| && hole in trip.lost;
      hide IngestChunk, IngestAll, Valid, WellSent, FlushPieces, Ready;
      if 0 !in trip.lost {
        BrokenFlush(s, t, trip.lost, hole);
      } else {
        SurvivorsFrom(t, 0, trip.lost);
        OrphansDropped(s, t, 1, trip.lost);
      }
    }
  }

  lemma SubsetOfWithout<K, V>(m: map<K, V>, n: map<K, V>, x: K, y: K)
    requires m - {x} == n - {x} && x != y
    ensures y in m <==> y in n
  {
    assert y in m <==> y in m - {x};
    assert y in n <==> y in n - {x};
  }

  /** A session is pending only if the last header to arrive under its number was of a flush that broke. */
  lemma {:induction false} PendingMeansBroken(s: State, frameId: u16, trips: seq<Trip>, k: nat, maxChunk: nat,
                                              session: u16)
    requires Valid(s) && s.pending == map[] && AllTripsReady(trips, s.width, s.height) && maxChunk > RECT_HEADER_BYTES
    requires k <= |trips|
    ensures var u := IngestAll(s, Arriving(frameId, trips[..k], maxChunk));
            && Valid(u) && u.width == s.width && u.height == s.height
            && (session in u.pending ==>
                  exists j :: 0 <= j < k && LastOf(frameId, trips, j, k, session) && !Intact(trips[j], maxChunk))
  {
    hide IngestChunk, IngestAll, Valid, Ready, Intact, Survivors, SentFlush, Arriving;
    if k == 0 {
      assert trips[..0] == [];
      assert Arriving(frameId, [], maxChunk) == [] by { NoTrips(frameId, maxChunk); }
      NothingIngested(s);
    } else {
      var m := k - 1;
      PendingMeansBroken(s, frameId, trips, m, maxChunk, session);
      ArrivingSnoc(frameId, trips, m, maxChunk);
      var before := Arriving(frameId, trips[..m], maxChunk);
      var u := IngestAll(s, before);
      IngestAppend(s, before, SurvivorsOf(frameId, trips, m, maxChunk));
      TripPending(u, SessionAt(frameId, m), trips[m], maxChunk);
      var v := IngestAll(u, SurvivorsOf(frameId, trips, m, maxChunk));
      if session in v.pending {
        if SessionAt(frameId, m) == session && 0 !in trips[m].lost {
          assert LastOf(frameId, trips, m, k, session);
        } else {
          if SessionAt(frameId, m) != session {
            SubsetOfWithout(v.pending, u.pending, SessionAt(frameId, m), session);
          }
          var j :| 0 <= j < m && LastOf(frameId, trips, j, m, session) && !Intact(trips[j], maxChunk);
          assert LastOf(frameId, trips, j, k, session);
        }
      }
    }
  }

  lemma {:induction false} NoTrips(frameId: u16, maxChunk: nat)
    requires maxChunk > RECT_HEADER_BYTES
    ensures Arriving(frameId, [], maxChunk) == []
  {}

  lemma {:induction false} SurvivorMeansOrphaned(frameId: u16, trips: seq<Trip>, k: nat, maxChunk: nat)
    requires k < |trips| && maxChunk > RECT_HEADER_BYTES && 0 in trips[k].lost
    requires SurvivorsOf(frameId, trips, k, maxChunk) != []
    ensures Orphaned(trips[k], maxChunk)
  {
    var t := SentFlush(SessionAt(frameId, k), trips[k].flush, maxChunk);
    var lost := trips[k].lost;
    if forall i :: 0 < i < |t.pieces| ==> i in lost {
      NothingSurvives(t, 0, lost);
    }
    hide Survivors, FlushPieces;
  }

  lemma {:induction false} NothingSurvives(t: Sent, i: nat, lost: set<nat>)
    requires i <= |t.pieces| && forall k :: 0 <= k < |t.pieces| ==> k in lost
    ensures Survivors(t, i, lost) == []
    decreases |t.pieces| - i
  {
    if i < |t.pieces| {
      NothingSurvives(t, i + 1, lost);
    }
  }

  /** Without a stale header nothing is adopted. */
  lemma {:induction false} NoStaleHeaderNoAdoption(s: State, frameId: u16, trips: seq<Trip>, maxChunk: nat)
    requires Valid(s) && s.pending == map[] && AllTripsReady(trips, s.width, s.height) && maxChunk > RECT_HEADER_BYTES
    requires NoStaleHeader(frameId, trips, maxChunk)
    ensures !Adopts([], frameId, trips, maxChunk, s.width, s.height)
  {
    forall k, n | 0 <= k < |trips| && 0 <= n < |SurvivorsOf(frameId, trips, k, maxChunk)|
      ensures !AdoptsAt([], frameId, trips, maxChunk, k, n, s.width, s.height)
    {
      if 0 in trips[k].lost {
        FreeMeansNoAdoption(s, frameId, trips, maxChunk, k, n);
      }
    }
    hide AdoptsAt, SurvivorsOf;
  }

  lemma {:induction false} SessionFree(s: State, frameId: u16, trips: seq<Trip>, maxChunk: nat, k: nat)
    requires Valid(s) && s.pending == map[] && AllTripsReady(trips, s.width, s.height) && maxChunk > RECT_HEADER_BYTES
    requires NoStaleHeader(frameId, trips, maxChunk) && k < |trips| && Orphaned(trips[k], maxChunk)
    ensures var u := IngestAll(s, Arriving(frameId, trips[..k], maxChunk));
            Valid(u) && u.width == s.width && u.height == s.height && SessionAt(frameId, k) !in u.pending
  {
    hide IngestChunk, IngestAll, Valid, Ready, Intact, Arriving, Orphaned, LastOf;
    var session := SessionAt(frameId, k);
    PendingMeansBroken(s, frameId, trips, k, maxChunk, session);
    if session in IngestAll(s, Arriving(frameId, trips[..k], maxChunk)).pending {
      var j :| 0 <= j < k && LastOf(frameId, trips, j, k, session) && !Intact(trips[j], maxChunk);
      LastWasIntact(frameId, trips, j, k, maxChunk);
    }
  }

  lemma LastWasIntact(frameId: u16, trips: seq<Trip>, j: nat, k: nat, maxChunk: nat)
    requires maxChunk > RECT_HEADER_BYTES && NoStaleHeader(frameId, trips, maxChunk)
    requires j < k < |trips| && Orphaned(trips[k], maxChunk) && LastOf(frameId, trips, j, k, SessionAt(frameId, k))
    ensures Intact(trips[j], maxChunk)
  {
    assert LastHeader(frameId, trips, j, k);
  }

  lemma {:induction false} FreeCompletesNothing(u: State, session: u16, trip: Trip, maxChunk: nat)
    requires Valid(u) && Ready(trip.flush, u.width, u.height) && maxChunk > RECT_HEADER_BYTES
    requires session !in u.pending && 0 in trip.lost
    ensures NoneDone(u, Survivors(SentFlush(session, trip.flush, maxChunk), 0, trip.lost))
  {
    var t := SentFlush(session, trip.flush, maxChunk);
    FlushIsWellSent(session, trip.flush, maxChunk, u.width, u.height);
    HasHeader(session, trip.flush, maxChunk);
    hide Survivors, WellSent, Ready, NoneDone, SentFlush, Valid;
    SurvivorsFrom(t, 0, trip.lost);
    OrphansDropped(u, t, 1, trip.lost);
  }

  lemma {:induction false} FreeMeansNoAdoption(s: State, frameId: u16, trips: seq<Trip>, maxChunk: nat, k: nat, n: nat)
    requires Valid(s) && s.pending == map[] && AllTripsReady(trips, s.width, s.height) && maxChunk > RECT_HEADER_BYTES
    requires NoStaleHeader(frameId, trips, maxChunk) && k < |trips| && n < |SurvivorsOf(frameId, trips, k, maxChunk)|
    requires 0 in trips[k].lost
    ensures !AdoptsAt([], frameId, trips, maxChunk, k, n, s.width, s.height)
  {
    var chunks := SurvivorsOf(frameId, trips, k, maxChunk);
    var before := Arriving(frameId, trips[..k], maxChunk);
    SurvivorMeansOrphaned(frameId, trips, k, maxChunk);
    SessionFree(s, frameId, trips, maxChunk, k);
    FreeCompletesNothing(IngestAll(s, before), SessionAt(frameId, k), trips[k], maxChunk);
    hide IngestChunk, IngestAll, Valid, Ready, Arriving, Finishes, Survivors, SentFlush, NoStaleHeader;
    assert !DoneAt(IngestAll(s, before), chunks, n);
    DoneIsFinished(s, before, chunks, n);
    assert [] + before == before;
  }

  /** Completion after two runs is decided by their concatenation. */
  lemma {:induction false} DoneIsFinished(s: State, before: seq<Chunk>, chunks: seq<Chunk>, n: nat)
    requires Valid(s) && s.pending == map[] && n < |chunks|
    ensures Valid(IngestAll(s, before))
    ensures DoneAt(IngestAll(s, before), chunks, n) <==> Finishes(before + chunks[..n + 1], s.width, s.height)
  {
    hide IngestChunk, IngestAll, Valid, Finishes;
    IngestAppend(s, before, chunks[..n]);
    AppliedExactly(s, before + chunks[..n], chunks[n]);
    assert before + chunks[..n + 1] == before + chunks[..n] + [chunks[n]];
  }

  lemma HasHeader(session: u16, f: Flush, maxChunk: nat)
    requires maxChunk > RECT_HEADER_BYTES
    ensures SentFlush(session, f, maxChunk).pieces != [] && SentFlush(session, f, maxChunk).session == session
  {}

  /** A damaged frame costs its rectangle and no other. Over runs of any length, whatever chunks of whichever flushes are
      lost: as long as no flush without its header meets the header of a broken one under the same session number, the
      mirror shows exactly what the device's screen would show had only the intact flushes been made, and counts
      exactly those. */
  lemma {:induction false} LossesCostOnlyTheirRectangles(s: State, screen: seq<u16>, known: iset<nat>, frameId: u16,
                                                         trips: seq<Trip>, maxChunk: nat)
    requires Valid(s) && s.pending == map[] && AllTripsReady(trips, s.width, s.height) && maxChunk > RECT_HEADER_BYTES
    requires Mirrors(s, screen, known) && NoStaleHeader(frameId, trips, maxChunk)
    ensures Valid(IngestAll(s, Arriving(frameId, trips, maxChunk)))
    ensures AllReady(IntactOf(trips, maxChunk), s.width, s.height)
    ensures Shows(s, IngestAll(s, Arriving(frameId, trips, maxChunk)), screen, known, IntactOf(trips, maxChunk))
  {
    NoStaleHeaderNoAdoption(s, frameId, trips, maxChunk);
    LossesExactly(s, screen, known, frameId, trips, maxChunk);
  }

  /** Within one round of the session number no header can be stale: any 65536 flushes in a row are safe. */
  lemma {:induction false} OneRoundIsSafe(frameId: u16, trips: seq<Trip>, maxChunk: nat)
    requires maxChunk > RECT_HEADER_BYTES && |trips| <= 0x1_0000
    ensures NoStaleHeader(frameId, trips, maxChunk)
  {
    forall j, k | 0 <= j < k < |trips| ensures SessionAt(frameId, j) != SessionAt(frameId, k) {
      SessionsDiffer(frameId, j, k);
    }
    hide SessionAt, Orphaned, Intact;
  }

  lemma SessionsDiffer(frameId: u16, j: nat, k: nat)
    requires j < k < j + 0x1_0000
    ensures SessionAt(frameId, j) != SessionAt(frameId, k)
  {}

  // A session number that comes round.

  function Pair(low: u16, high: u16): (bytes: seq<byte>)
    ensures |bytes| == 2
  {
    [low % 256, high / 256]
  }

  lemma {:induction false} PixelFlush(session: u16, colour: u16)
    ensures SentFlush(session, Flush(CORNER, [colour]), 9) == Pixel(session, Pair(colour, colour), true)
  {
    var bytes := Pair(colour, colour);
    assert Pixels(Flush(CORNER, [colour])) == bytes by { assert [colour][..0] == []; }
    assert FirstPixels(2, 9) == 1;
    assert PixelPieces(bytes[1..], 9) == [bytes[1..]];
    hide RectHeader, Pixels;
  }

  lemma {:induction false} SessionsOf(frameId: u16, trips: seq<Trip>, maxChunk: nat, c: Chunk) returns (k: nat)
    requires maxChunk > RECT_HEADER_BYTES && c in Arriving(frameId, trips, maxChunk)
    ensures k < |trips| && c.session == SessionAt(frameId, k)
    decreases |trips|
  {
    SessionFirst(frameId, 0);
    var first := Survivors(SentFlush(frameId, trips[0].flush, maxChunk), 0, trips[0].lost);
    if c in first {
      SurvivorSession(SentFlush(frameId, trips[0].flush, maxChunk), 0, trips[0].lost, c);
      k := 0;
    } else {
      k := SessionsOf(Next16(frameId), trips[1..], maxChunk, c);
      SessionFirst(frameId, k);
      k := k + 1;
    }
  }

  lemma {:induction false} SurvivorSession(t: Sent, i: nat, lost: set<nat>, c: Chunk)
    requires i <= |t.pieces| && c in Survivors(t, i, lost)
    ensures c.session == t.session
    decreases |t.pieces| - i
  {
    if c in Survivors(t, i + 1, lost) {
      SurvivorSession(t, i + 1, lost, c);
    }
  }

  /** A pixel of colour c whose header arrived and whose last byte was lost; any 65535 flushes, whole or not; a pixel of
      colour d whose header was lost. */
  function Round(c: u16, between: seq<Trip>, d: u16): seq<Trip> {
    [Trip(Flush(CORNER, [c]), {1})] + between + [Trip(Flush(CORNER, [d]), {0})]
  }

  lemma {:induction false} RoundArrives(frameId: u16, c: u16, between: seq<Trip>, d: u16)
    requires |between| == 0xFFFF
    ensures var trips := Round(c, between, d);
            var mix := Pixel(frameId, Pair(c, d), true);
            && Arriving(frameId, trips[..0x1_0000], 9) == [ChunkOf(mix, 0)] + Arriving(Next16(frameId), between, 9)
            && SurvivorsOf(frameId, trips, 0x1_0000, 9) == [ChunkOf(mix, 1)]
  {
    var trips := Round(c, between, d);
    var mix := Pixel(frameId, Pair(c, d), true);
    assert trips[1..] == between + [trips[0x1_0000]] && trips[1..][..0xFFFF] == between;
    ArrivingFirst(frameId, trips, 0xFFFF, 9);
    SessionFirst(frameId, 0);
    assert SessionAt(frameId, 0x1_0000) == frameId;
    PixelFlush(frameId, c);
    PixelFlush(frameId, d);
    PixelSurvivors(Pixel(frameId, Pair(c, c), true));
    PixelSurvivors(Pixel(frameId, Pair(d, d), true));
    SameChunks(frameId, c, d);
    hide Arriving, Survivors, ChunkOf, Pixel, SentFlush;
  }

  lemma {:induction false} PixelSurvivors(t: Sent)
    requires |t.pieces| == 2
    ensures Survivors(t, 0, {1}) == [ChunkOf(t, 0)] && Survivors(t, 0, {0}) == [ChunkOf(t, 1)]
  {
    SurvivorsFrom(t, 0, {1});
    SurvivorsFrom(t, 1, {1});
    SurvivorsFrom(t, 0, {0});
    SurvivorsFrom(t, 1, {0});
    hide ChunkOf;
    assert Survivors(t, 2, {0}) == [] && Survivors(t, 2, {1}) == [];
  }

  lemma {:induction false} SameChunks(session: u16, c: u16, d: u16)
    ensures var mix := Pixel(session, Pair(c, d), true);
            && ChunkOf(Pixel(session, Pair(c, c), true), 0) == ChunkOf(mix, 0)
            && ChunkOf(Pixel(session, Pair(d, d), true), 1) == ChunkOf(mix, 1)
  {
    assert Pair(c, c)[..1] == Pair(c, d)[..1] && Pair(d, d)[1..] == Pair(c, d)[1..];
    hide RectHeader, Pair;
    var mix := Pixel(session, Pair(c, d), true);
    assert Start(mix.pieces, 1) == |mix.pieces[0]| + Start(mix.pieces[1..], 0);
    var other := Pixel(session, Pair(d, d), true);
    assert Start(other.pieces, 1) == |other.pieces[0]| + Start(other.pieces[1..], 0);
  }

  lemma {:induction false} OtherSession(frameId: u16, between: seq<Trip>, c: Chunk)
    requires |between| == 0xFFFF && c in Arriving(Next16(frameId), between, 9)
    ensures c.session != frameId
  {
    hide Arriving, SessionAt, Next16;
    var k := SessionsOf(Next16(frameId), between, 9, c);
    SessionFirst(frameId, k);
    SessionFirst(frameId, 0);
    SessionsDiffer(frameId, 0, k + 1);
  }

  lemma {:induction false} BetweenIsTraffic(frameId: u16, between: seq<Trip>, t: Sent)
    requires |between| == 0xFFFF && t.session == frameId
    ensures Traffic(t, Arriving(Next16(frameId), between, 9))
  {
    var chunks := Arriving(Next16(frameId), between, 9);
    forall i | 0 <= i < |chunks| ensures IsTraffic(t, chunks[i]) { OtherSession(frameId, between, chunks[i]); }
  }

  /** Beyond one round it does go wrong: whatever is flushed and lost in between, the stale header takes in the last byte
      of a flush made 65536 flushes later, and the mirror paints a pixel nobody flushed, the low byte of one and the
      high byte of the other, unless they agree. */
  lemma {:induction false} StaleHeaderAdopts(s: State, screen: seq<u16>, known: iset<nat>, frameId: u16, c: u16,
                                             between: seq<Trip>, d: u16)
    requires Valid(s) && s.pending == map[] && s.width > 0 && s.height > 0 && Mirrors(s, screen, known)
    requires AllTripsReady(between, s.width, s.height) && |between| == 0xFFFF
    ensures var trips := Round(c, between, d);
            var mix := Pixel(frameId, Pair(c, d), true);
            && AllTripsReady(trips, s.width, s.height) && AllReady(IntactOf(trips, 9), s.width, s.height)
            && Valid(IngestAll(s, Arriving(frameId, trips[..0x1_0000], 9)))
            && var u := IngestAll(s, Arriving(frameId, trips[..0x1_0000], 9));
               && WellSent(mix, u.width, u.height)
               && Valid(IngestAll(s, Arriving(frameId, trips, 9)))
               && IngestAll(s, Arriving(frameId, trips, 9)) == Completed(u, mix)
               && !Shows(s, IngestAll(s, Arriving(frameId, trips, 9)), screen, known, IntactOf(trips, 9))
  {
    var trips := Round(c, between, d);
    var mix := Pixel(frameId, Pair(c, d), true);
    RoundReady(s, c, between, d);
    RoundArrives(frameId, c, between, d);
    RoundCompletes(s, frameId, c, between, d);
    ArrivingSnoc(frameId, trips, 0x1_0000, 9);
    assert trips[..0x1_0001] == trips && 0 in trips[0x1_0000].lost;
    var before := Arriving(frameId, trips[..0x1_0000], 9);
    hide *;
    IngestLast(s, before, ChunkOf(mix, 1));
    LastAdopts(s, frameId, trips, 9, before, ChunkOf(mix, 1));
    LossesExactly(s, screen, known, frameId, trips, 9);
  }

  /** A last flush whose one surviving chunk completes something adopts it. */
  lemma {:induction false} LastAdopts(s: State, frameId: u16, trips: seq<Trip>, maxChunk: nat, before: seq<Chunk>, c: Chunk)
    requires Valid(s) && s.pending == map[] && trips != [] && maxChunk > RECT_HEADER_BYTES
    requires var k := |trips| - 1;
             && before == Arriving(frameId, trips[..k], maxChunk)
             && SurvivorsOf(frameId, trips, k, maxChunk) == [c] && 0 in trips[k].lost
    requires Valid(IngestAll(s, before)) && IngestChunk(IngestAll(s, before), c).1
    ensures Adopts([], frameId, trips, maxChunk, s.width, s.height)
  {
    var k := |trips| - 1;
    hide IngestChunk, IngestAll, Valid, Arriving, SurvivorsOf, Finishes;
    AppliedExactly(s, before, c);
    assert [c][..0 + 1] == [c] && [] + before == before;
    assert AdoptsAt([], frameId, trips, maxChunk, k, 0, s.width, s.height);
  }

  lemma {:induction false} RoundReady(s: State, c: u16, between: seq<Trip>, d: u16)
    requires Valid(s) && s.width > 0 && s.height > 0
    requires AllTripsReady(between, s.width, s.height)
    ensures AllTripsReady(Round(c, between, d), s.width, s.height)
  {
    assert PixelBytes(CORNER) == 2;
    var trips := Round(c, between, d);
    assert Ready(trips[0].flush, s.width, s.height) && Ready(trips[|between| + 1].flush, s.width, s.height);
    hide Ready;
    forall k | 0 <= k < |trips| ensures Ready(trips[k].flush, s.width, s.height) {
      assert 0 < k <= |between| ==> trips[k] == between[k - 1];
    }
  }

  lemma {:induction false} RoundCompletes(s: State, frameId: u16, c: u16, between: seq<Trip>, d: u16)
    requires Valid(s) && s.width > 0 && s.height > 0 && |between| == 0xFFFF
    ensures var mix := Pixel(frameId, Pair(c, d), true);
            var before := [ChunkOf(mix, 0)] + Arriving(Next16(frameId), between, 9);
            && Valid(IngestAll(s, before))
            && var u := IngestAll(s, before);
               && WellSent(mix, u.width, u.height)
               && IngestChunk(u, ChunkOf(mix, 1)) == (Completed(u, mix), true)
  {
    var mix := Pixel(frameId, Pair(c, d), true);
    var chunks := Arriving(Next16(frameId), between, 9);
    PixelWellSent(frameId, Pair(c, d), true, s.width, s.height);
    BetweenIsTraffic(frameId, between, mix);
    assert |mix.pieces| == 2 && mix.session == frameId;
    hide IngestChunk, IngestAll, Valid, Arriving, WellSent, Completed, Collecting, Traffic, Pixel, ChunkOf;
    IngestFirst(s, ChunkOf(mix, 0), chunks);
    IngestAppend(s, [ChunkOf(mix, 0)] + chunks, []);
    NoneBetween(mix, Arrivals(mix, chunks));
    if Whole(mix, {0} + Arrivals(mix, chunks)) {
      OthersBring(frameId, between, mix);
    }
    OrderIndependence(s, mix, chunks, 1);
  }

  lemma NoneBetween(t: Sent, got: set<nat>)
    requires |t.pieces| == 2
    ensures Whole(t, {0} + got + {1})
    ensures Whole(t, {0} + got) <==> 1 in got
  {}

  lemma {:induction false} OthersBring(frameId: u16, between: seq<Trip>, t: Sent)
    requires |between| == 0xFFFF && t.session == frameId && |t.pieces| == 2
    ensures 1 !in Arrivals(t, Arriving(Next16(frameId), between, 9))
  {
    if ChunkOf(t, 1) in Arriving(Next16(frameId), between, 9) {
      OtherSession(frameId, between, ChunkOf(t, 1));
    }
  }

  // Byte for byte.

  /** The mirror under damage, byte for byte: a stream damaged in any number of places in which no frame starts, cut
      into reads anyhow, with the frames that survive being those of `trips`, shows exactly the intact flushes if and
      only if no flush without its header completes the rectangle of another; and it does whenever no header is stale. */
  lemma {:induction false} EndToEndWithLosses(s: State, screen: seq<u16>, known: iset<nat>, frameId: u16,
                                              trips: seq<Trip>, maxChunk: nat, segments: seq<Segment>,
                                              pieces: seq<seq<byte>>)
    requires Valid(s) && s.pending == map[] && Mirrors(s, screen, known)
    requires AllTripsReady(trips, s.width, s.height) && maxChunk > RECT_HEADER_BYTES
    requires AllCarried(segments) && Survivable(segments)
    requires ChunksOf(Recovered(segments)) == Arriving(frameId, trips, maxChunk)
    requires Joined(pieces) == SegmentsWire(segments)
    ensures AllReady(IntactOf(trips, maxChunk), s.width, s.height)
    ensures Feed([], pieces) == Split(Recovered(segments), [])
    ensures HostRun([], s, pieces).0 == []
    ensures Shows(s, HostRun([], s, pieces).1, screen, known, IntactOf(trips, maxChunk))
       <==> !Adopts([], frameId, trips, maxChunk, s.width, s.height)
    ensures NoStaleHeader(frameId, trips, maxChunk)
            ==> Shows(s, HostRun([], s, pieces).1, screen, known, IntactOf(trips, maxChunk))
  {
    DemuxSegments(segments);
    SplitInvariance([], pieces) by { NoMore([]); }
    assert [] + Joined(pieces) == Joined(pieces);
    HostRunIsFeed([], s, pieces);
    hide Demux, Feed, HostRun, Arriving, IngestAll, Valid, Shows, Recovered, SegmentsWire, IntactOf, Adopts, NoStaleHeader;
    LossesExactly(s, screen, known, frameId, trips, maxChunk);
    if NoStaleHeader(frameId, trips, maxChunk) {
      NoStaleHeaderNoAdoption(s, frameId, trips, maxChunk);
    }
  }
}
