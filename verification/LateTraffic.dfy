/** Repeats after completion, over whole runs: exactly when a rectangle is painted a second time, and when that shows. */
module LateTraffic {
  import opened Options
  import opened Bytes
  import opened BinaryFrame
  import opened DisplayStream
  import opened Framebuffer
  import opened Reassembly
  import opened WholeRectangle
  import opened CornerPixel

  /** A repeat of any chunk of t, its header included, or any chunk of another session. */
  predicate IsLate(t: Sent, c: Chunk) {
    c.session != t.session || exists i :: 0 <= i < |t.pieces| && c == ChunkOf(t, i)
  }

  predicate Late(t: Sent, chunks: seq<Chunk>) {
    forall k :: 0 <= k < |chunks| ==> IsLate(t, chunks[k])
  }

  /** Chunk k is t's header, the last of the run. */
  predicate HeaderSince(t: Sent, run: seq<Chunk>, k: nat) {
    t.pieces != [] && k < |run| && run[k] == ChunkOf(t, 0) && forall j :: k < j < |run| ==> run[j] != ChunkOf(t, 0)
  }

  /** The run holds t's header at k and every other piece after it, with no further header. */
  predicate SendsAgain(t: Sent, run: seq<Chunk>, k: nat) {
    HeaderSince(t, run, k) && forall i :: 0 < i < |t.pieces| ==> ChunkOf(t, i) in run[k + 1..]
  }

  predicate SentAgain(t: Sent, run: seq<Chunk>) {
    exists k :: 0 <= k < |run| && SendsAgain(t, run, k)
  }

  /** Chunk n of the run is one of t's session and completes a rectangle. */
  predicate PaintsAt(s: State, t: Sent, run: seq<Chunk>, n: nat)
    requires Valid(s) && n < |run|
  {
    SameSize(s, run[..n]);
    run[n].session == t.session && IngestChunk(IngestAll(s, run[..n]), run[n]).1
  }

  /** The session is free, or holds what arrived of t since its last header. */
  ghost predicate LateState(u: State, t: Sent, run: seq<Chunk>) {
    t.session !in u.pending
    || exists k :: HeaderSince(t, run, k) && Collecting(u, t, {0} + Arrivals(t, run[k + 1..]))
  }

  lemma {:induction false} WholeArrivals(t: Sent, run: seq<Chunk>)
    ensures Whole(t, {0} + Arrivals(t, run)) <==> forall i :: 0 < i < |t.pieces| ==> ChunkOf(t, i) in run
  {
    assert forall i :: 0 < i < |t.pieces| ==> (i in {0} + Arrivals(t, run) <==> ChunkOf(t, i) in run);
    hide ChunkOf;
  }

  lemma {:induction false} ArrivalsSnoc(t: Sent, run: seq<Chunk>, c: Chunk, width: nat, height: nat)
    requires WellSent(t, width, height)
    ensures c.session != t.session ==> Arrivals(t, run + [c]) == Arrivals(t, run)
    ensures forall i: nat :: i < |t.pieces| && c == ChunkOf(t, i) ==> Arrivals(t, run + [c]) == Arrivals(t, run) + {i}
  {
    forall i: nat | i < |t.pieces| && c == ChunkOf(t, i)
      ensures Arrivals(t, run + [c]) == Arrivals(t, run) + {i}
    {
      OnlyPiece(t, i, width, height);
    }
  }

  lemma SinceSnoc(t: Sent, run: seq<Chunk>, c: Chunk, k: nat)
    requires HeaderSince(t, run, k) && c != ChunkOf(t, 0)
    ensures HeaderSince(t, run + [c], k) && (run + [c])[k + 1..] == run[k + 1..] + [c]
  {}

  lemma SinceHere(t: Sent, run: seq<Chunk>)
    requires t.pieces != []
    ensures HeaderSince(t, run + [ChunkOf(t, 0)], |run|) && (run + [ChunkOf(t, 0)])[|run| + 1..] == []
  {}

  lemma OtherLate(u: State, t: Sent, run: seq<Chunk>, c: Chunk)
    requires Valid(u) && WellSent(t, u.width, u.height) && LateState(u, t, run) && c.session != t.session
    ensures LateState(IngestChunk(u, c).0, t, run + [c])
  {
    var v := IngestChunk(u, c).0;
    OnlySession(u, c);
    hide IngestChunk, Valid, WellSent, Collecting;
    if t.session in u.pending {
      var k :| HeaderSince(t, run, k) && Collecting(u, t, {0} + Arrivals(t, run[k + 1..]));
      OtherStep(u, t, {0} + Arrivals(t, run[k + 1..]), c);
      SinceSnoc(t, run, c, k);
      ArrivalsSnoc(t, run[k + 1..], c, u.width, u.height);
    } else {
      assert t.session in v.pending ==> t.session in v.pending - {c.session};
    }
  }

  lemma HeaderLate(u: State, t: Sent, run: seq<Chunk>)
    requires Valid(u) && WellSent(t, u.width, u.height)
    ensures var c := ChunkOf(t, 0);
            var (v, done) := IngestChunk(u, c);
            && LateState(v, t, run + [c])
            && (done ==> v == Completed(u, t) && SentAgain(t, run + [c]))
  {
    HeaderStep(u, t);
    SinceHere(t, run);
    assert {0} + Arrivals(t, []) == {0};
    hide IngestChunk, Valid, WellSent, Collecting, ChunkOf;
    if |t.pieces| == 1 {
      assert SendsAgain(t, run + [ChunkOf(t, 0)], |run|);
    }
  }

  lemma PieceLate(u: State, t: Sent, run: seq<Chunk>, i: nat)
    requires Valid(u) && WellSent(t, u.width, u.height) && LateState(u, t, run) && 0 < i < |t.pieces|
    ensures var c := ChunkOf(t, i);
            var (v, done) := IngestChunk(u, c);
            && LateState(v, t, run + [c])
            && (done ==> v == Completed(u, t) && SentAgain(t, run + [c]))
  {
    hide IngestChunk, Valid, WellSent, Collecting, ChunkOf, SentAgain, Arrivals;
    if t.session !in u.pending {
      LateRepeat(u, t, i);
    } else {
      var k :| HeaderSince(t, run, k) && Collecting(u, t, {0} + Arrivals(t, run[k + 1..]));
      PieceCollected(u, t, run, i, k);
    }
  }

  lemma PieceCollected(u: State, t: Sent, run: seq<Chunk>, i: nat, k: nat)
    requires Valid(u) && WellSent(t, u.width, u.height) && 0 < i < |t.pieces|
    requires HeaderSince(t, run, k) && Collecting(u, t, {0} + Arrivals(t, run[k + 1..]))
    ensures var c := ChunkOf(t, i);
            var (v, done) := IngestChunk(u, c);
            && LateState(v, t, run + [c])
            && (done ==> v == Completed(u, t) && SentAgain(t, run + [c]))
  {
    var c := ChunkOf(t, i);
    var got := {0} + Arrivals(t, run[k + 1..]);
    OnlyPiece(t, 0, u.width, u.height);
    hide IngestChunk, Valid, WellSent, Collecting, ChunkOf;
    OwnStep(u, t, got, i);
    SinceSnoc(t, run, c, k);
    ArrivalsSnoc(t, run[k + 1..], c, u.width, u.height);
    WholeArrivals(t, run[k + 1..] + [c]);
    hide Arrivals, Whole, HeaderSince;
    assert {0} + Arrivals(t, run[k + 1..] + [c]) == got + {i};
    assert i in got ==> got + {i} == got;
    hide LateState;
    if Whole(t, got + {i}) && i !in got {
      assert SendsAgain(t, run + [c], k);
      HeaderInside(t, run + [c], k);
    }
  }

  /** One late chunk: the session stays accounted for, and what completes is t, sent again in full since its header. */
  lemma {:induction false} LateStep(u: State, t: Sent, run: seq<Chunk>, c: Chunk)
    requires Valid(u) && WellSent(t, u.width, u.height) && LateState(u, t, run) && IsLate(t, c)
    ensures var (v, done) := IngestChunk(u, c);
            && LateState(v, t, run + [c])
            && (done && c.session == t.session ==> v == Completed(u, t) && SentAgain(t, run + [c]))
  {
    hide IngestChunk, Valid, WellSent, LateState, SentAgain;
    if c.session != t.session {
      OtherLate(u, t, run, c);
    } else {
      var i :| 0 <= i < |t.pieces| && c == ChunkOf(t, i);
      if i == 0 {
        HeaderLate(u, t, run);
      } else {
        PieceLate(u, t, run, i);
      }
    }
  }

  lemma {:induction false} LateRun(s: State, t: Sent, run: seq<Chunk>, n: nat)
    requires Valid(s) && WellSent(t, s.width, s.height) && t.session !in s.pending && Late(t, run) && n <= |run|
    ensures var u := IngestAll(s, run[..n]);
            Valid(u) && u.width == s.width && u.height == s.height && LateState(u, t, run[..n])
  {
    hide IngestChunk, Valid, WellSent, IsLate, IngestAll;
    if n == 0 {
      NothingIngested(s);
      assert run[..0] == [];
    } else {
      LateRun(s, t, run, n - 1);
      SameSize(s, run[..n]);
      IngestLast(s, run[..n - 1], run[n - 1]);
      LateStep(IngestAll(s, run[..n - 1]), t, run[..n - 1], run[n - 1]);
      assert run[..n] == run[..n - 1] + [run[n - 1]];
    }
  }

  lemma NothingWhole(t: Sent)
    requires |t.pieces| > 1
    ensures !Whole(t, {0} + Arrivals(t, []))
  {
    assert 1 !in {0} + Arrivals(t, []);
  }

  lemma {:induction false} FirstWhole(t: Sent, part: seq<Chunk>, width: nat, height: nat) returns (j: nat, last: nat)
    requires WellSent(t, width, height) && |t.pieces| > 1 && Traffic(t, part)
    requires Whole(t, {0} + Arrivals(t, part))
    ensures j < |part| && 0 < last < |t.pieces| && part[j] == ChunkOf(t, last)
    ensures !Whole(t, {0} + Arrivals(t, part[..j])) && Whole(t, {0} + Arrivals(t, part[..j]) + {last})
    decreases |part|
  {
    hide WellSent, ChunkOf;
    if part == [] {
      NothingWhole(t);
      assert false;
    } else {
      var n := |part| - 1;
      var init := part[..n];
      assert part == init + [part[n]];
      assert Traffic(t, init);
      ArrivalsSnoc(t, init, part[n], width, height);
      if Whole(t, {0} + Arrivals(t, init)) {
        j, last := FirstWhole(t, init, width, height);
        assert part[..j] == init[..j];
      } else {
        assert IsTraffic(t, part[n]);
        assert part[n].session == t.session;
        last :| 0 < last < |t.pieces| && part[n] == ChunkOf(t, last);
        j := n;
        assert {0} + Arrivals(t, part) == {0} + Arrivals(t, init) + {last};
      }
    }
  }

  lemma TrafficSince(t: Sent, run: seq<Chunk>, k: nat)
    requires Late(t, run) && HeaderSince(t, run, k)
    ensures Traffic(t, run[k + 1..])
  {
    var part := run[k + 1..];
    forall j | 0 <= j < |part| ensures IsTraffic(t, part[j]) {
      assert IsLate(t, run[k + 1 + j]);
    }
  }

  /** Sent again in full, t is painted again. */
  lemma {:induction false} SentAgainPaints(s: State, t: Sent, run: seq<Chunk>, k: nat, m: nat) returns (n: nat)
    requires Valid(s) && WellSent(t, s.width, s.height) && Late(t, run) && k < m <= |run|
    requires SendsAgain(t, run[..m], k)
    ensures n < m && PaintsAt(s, t, run, n)
  {
    hide IngestChunk, IngestAll, Valid, WellSent, Collecting, Late, ChunkOf;
    var part := run[..m][k + 1..];
    IngestLast(s, run[..k], run[k]);
    var u := IngestAll(s, run[..k]);
    assert run[k] == run[..m][k] == ChunkOf(t, 0);
    SessionOf(t, 0);
    if |t.pieces| == 1 {
      HeaderStep(u, t);
      n := k;
    } else {
      LatePart(t, run, m);
      TrafficSince(t, run[..m], k);
      WholeArrivals(t, part);
      var j, last := FirstWhole(t, part, s.width, s.height);
      assert Traffic(t, part[..j]);
      OrderIndependence(u, t, part[..j], last);
      n := k + 1 + j;
      SessionOf(t, last);
      assert run[n] == part[j];
      assert run[..n] == run[..k] + ([run[k]] + part[..j]);
      IngestAppend(s, run[..k], [run[k]] + part[..j]);
      IngestFirst(u, run[k], part[..j]);
    }
  }

  lemma SessionOf(t: Sent, i: nat)
    requires i < |t.pieces|
    ensures ChunkOf(t, i).session == t.session
  {}

  lemma LatePart(t: Sent, run: seq<Chunk>, m: nat)
    requires Late(t, run) && m <= |run|
    ensures Late(t, run[..m])
  {
    hide IsLate;
  }

  lemma {:induction false} PaintedMeansSentAgain(s: State, t: Sent, run: seq<Chunk>, n: nat)
    requires Valid(s) && WellSent(t, s.width, s.height) && t.session !in s.pending && Late(t, run) && n < |run|
    requires run[n].session == t.session
    ensures var u := IngestAll(s, run[..n]);
            && Valid(u) && u.width == s.width && u.height == s.height
            && (PaintsAt(s, t, run, n) ==>
                  && IngestChunk(u, run[n]) == (Completed(u, t), true)
                  && SentAgain(t, run[..n + 1]))
            && (IngestChunk(u, run[n]).0.pixels != u.pixels <==> PaintsAt(s, t, run, n) && !Shown(u, t))
  {
    hide IngestChunk, IngestAll, Valid, WellSent, LateState, Shown, IsLate, Completed, SentAgain;
    LateRun(s, t, run, n);
    var u := IngestAll(s, run[..n]);
    LateStep(u, t, run[..n], run[n]);
    QuietStep(u, run[n]);
    CompletingChanges(u, t);
    assert run[..n + 1] == run[..n] + [run[n]];
  }

  lemma HeaderInside(t: Sent, run: seq<Chunk>, k: nat)
    requires SendsAgain(t, run, k)
    ensures k < |run|
  {}

  /** What the chunk n of a run does, if it is one of t's session. */
  predicate PaintsOnlyAgain(s: State, t: Sent, run: seq<Chunk>, n: nat)
    requires Valid(s) && WellSent(t, s.width, s.height) && n < |run|
  {
    SameSize(s, run[..n]);
    var u := IngestAll(s, run[..n]);
    && (PaintsAt(s, t, run, n) ==> IngestChunk(u, run[n]) == (Completed(u, t), true))
    && (IngestChunk(u, run[n]).0.pixels != u.pixels <==> PaintsAt(s, t, run, n) && !Shown(u, t))
  }

  /** For every run of late traffic, repeats of the header included, among any chunks of other sessions: t is painted
      again if and only if the run holds its header followed by every other piece before the next header. What is
      painted then is t, and a chunk of its session changes a pixel exactly when it completes t and a pixel of the
      rectangle has been painted over since. */
  lemma {:induction false} RepaintedExactly(s: State, t: Sent, run: seq<Chunk>)
    requires Valid(s) && WellSent(t, s.width, s.height) && t.session !in s.pending && Late(t, run)
    ensures (exists n :: 0 <= n < |run| && PaintsAt(s, t, run, n))
       <==> (exists m :: 0 <= m <= |run| && SentAgain(t, run[..m]))
    ensures forall n :: 0 <= n < |run| && run[n].session == t.session ==> PaintsOnlyAgain(s, t, run, n)
  {
    hide IngestChunk, IngestAll, Valid, WellSent, Shown, Late, Completed, SendsAgain;
    forall n | 0 <= n < |run| && run[n].session == t.session
      ensures PaintsOnlyAgain(s, t, run, n) && (PaintsAt(s, t, run, n) ==> SentAgain(t, run[..n + 1]))
    {
      PaintedMeansSentAgain(s, t, run, n);
    }
    if m :| 0 <= m <= |run| && SentAgain(t, run[..m]) {
      var k :| 0 <= k < m && SendsAgain(t, run[..m], k);
      var n := SentAgainPaints(s, t, run, k, m);
    }
    if n :| 0 <= n < |run| && PaintsAt(s, t, run, n) {
      assert SentAgain(t, run[..n + 1]);
    }
  }

  /** Repeats of t alone, in any order and number, change no pixel of a mirror that shows t. */
  lemma {:induction false} RepeatsAloneChangeNothing(s: State, t: Sent, run: seq<Chunk>, n: nat)
    requires Valid(s) && WellSent(t, s.width, s.height) && t.session !in s.pending && Late(t, run) && n <= |run|
    requires Shown(s, t) && forall k :: 0 <= k < |run| ==> run[k].session == t.session
    ensures Valid(IngestAll(s, run[..n])) && IngestAll(s, run[..n]).pixels == s.pixels
  {
    hide IngestChunk, IngestAll, Valid, WellSent, Late, PaintsAt;
    if n == 0 {
      NothingIngested(s);
      assert run[..0] == [];
    } else {
      var before := run[..n - 1];
      RepeatsAloneChangeNothing(s, t, run, n - 1);
      PaintedMeansSentAgain(s, t, run, n - 1);
      IngestLast(s, before, run[n - 1]);
      assert run[..n] == before + [run[n - 1]];
    }
  }

  // A repeat that shows.

  /** A white pixel is completed and a black one painted over it; then every chunk of the white one arrives once more, be
      they one or two, and the mirror turns white again while the screen stays black. */
  lemma {:induction false} OverpaintedRepeat(s: State, split: bool)
    requires Valid(s) && s.width > 0 && s.height > 0
    ensures var white, black := Pixel(1, WHITE, split), Pixel(2, BLACK, split);
            var run := Stamp(1, 0, white.pieces);
            Valid(IngestAll(s, run)) && var once := IngestAll(s, run);
            Valid(IngestAll(once, Stamp(2, 0, black.pieces))) && var over := IngestAll(once, Stamp(2, 0, black.pieces));
            Valid(IngestAll(over, run)) && var again := IngestAll(over, run);
            && 1 !in once.pending && 1 !in over.pending && |over.pixels| == |again.pixels| > 0
            && over.pixels[0] == 0 && again.pixels[0] == 255
  {
    var white, black := Pixel(1, WHITE, split), Pixel(2, BLACK, split);
    hide IngestAll, Valid, Stamp, Completed, WellSent;
    CornerPainted(s, 1, WHITE, split);
    InOrder(s, white);
    SameSize(s, Stamp(1, 0, white.pieces));
    var once := Completed(s, white);
    CornerPainted(once, 2, BLACK, split);
    InOrder(once, black);
    SameSize(once, Stamp(2, 0, black.pieces));
    var over := Completed(once, black);
    CornerPainted(over, 1, WHITE, split);
    InOrder(over, white);
    SameSize(over, Stamp(1, 0, white.pieces));
    FreeAfter(s, white);
    FreeAfter(once, black);
    Colours();
  }

  lemma FreeAfter(s: State, t: Sent)
    requires WellSent(t, s.width, s.height)
    ensures Completed(s, t).pending == s.pending - {t.session}
  {
    hide WellSent, Painted;
  }
}
