/** When a rectangle is painted. The mirror counts the lengths it has received and not the bytes they cover, so overlaps
    can end a rectangle before its last byte arrives. For every run of chunks: exactly when a chunk completes one. */
module Completion {
  import opened Options
  import opened Bytes
  import opened BinaryFrame
  import opened DisplayStream
  import opened Framebuffer
  import opened Reassembly
  import opened CornerPixel

  // Counting covered bytes.

  function Interval(lo: nat, hi: nat): (s: set<nat>)
    ensures forall i :: i in s <==> lo <= i < hi
    decreases hi
  {
    if lo < hi then Interval(lo, hi - 1) + {hi - 1} else {}
  }

  lemma {:induction false} IntervalSize(lo: nat, hi: nat)
    requires lo <= hi
    ensures |Interval(lo, hi)| == hi - lo
    decreases hi
  {
    if lo < hi {
      IntervalSize(lo, hi - 1);
    }
  }

  function Span(e: Entry): set<nat> { Interval(e.offset, End(e)) }

  /** The positions the chunks cover. */
  function Covered(chunks: seq<Entry>): set<nat> {
    if chunks == [] then {} else Covered(chunks[..|chunks| - 1]) + Span(chunks[|chunks| - 1])
  }

  lemma {:induction false} CoveredIs(chunks: seq<Entry>, i: nat)
    ensures i in Covered(chunks) <==> CoveredAt(chunks, i)
  {
    if chunks != [] {
      var n := |chunks| - 1;
      CoveredIs(chunks[..n], i);
      CoverOneMore(chunks, n);
      assert chunks[..n + 1] == chunks;
    }
  }

  predicate Apart(e: Entry, f: Entry) {
    End(e) <= f.offset || End(f) <= e.offset
  }

  predicate Disjoint(chunks: seq<Entry>) {
    forall j, k :: 0 <= j < k < |chunks| ==> Apart(chunks[j], chunks[k])
  }

  lemma UnionSize(a: set<nat>, b: set<nat>)
    ensures |a + b| <= |a| + |b|
    ensures a !! b ==> |a + b| == |a| + |b|
  {
    assert a + b == a + (b - a);
    assert b == (b - a) + (b * a);
  }

  /** Lengths add up to at least the bytes covered, and to exactly those when nothing overlaps. */
  lemma {:induction false} ReceivedCovers(chunks: seq<Entry>)
    ensures |Covered(chunks)| <= Received(chunks)
    ensures Disjoint(chunks) ==> |Covered(chunks)| == Received(chunks)
  {
    if chunks != [] {
      var n := |chunks| - 1;
      var last := chunks[n];
      ReceivedCovers(chunks[..n]);
      IntervalSize(last.offset, End(last));
      UnionSize(Covered(chunks[..n]), Span(last));
      if Disjoint(chunks) {
        forall i | i in Covered(chunks[..n]) ensures i !in Span(last) {
          CoveredIs(chunks[..n], i);
          var k :| 0 <= k < n && chunks[..n][k].offset <= i < End(chunks[..n][k]);
          assert Apart(chunks[k], chunks[n]);
        }
      }
    }
  }

  lemma {:induction false} SubsetSize(a: set<nat>, b: set<nat>)
    requires a <= b
    ensures |a| <= |b|
    ensures |a| == |b| ==> a == b
  {
    assert b == a + (b - a);
  }

  /** Chunks that cover a message have lengths that reach its size. */
  lemma {:induction false} CoveredReached(chunks: seq<Entry>, total: nat)
    requires AllCovered(chunks, total)
    ensures Received(chunks) >= total
  {
    forall i | i in Interval(0, total) ensures i in Covered(chunks) { CoveredIs(chunks, i); }
    ReceivedCovers(chunks);
    IntervalSize(0, total);
    SubsetSize(Interval(0, total), Covered(chunks));
  }

  /** Without overlaps, and inside the message, lengths that reach its size cover it. */
  lemma {:induction false} ReachedCovers(chunks: seq<Entry>, total: nat)
    requires AllInside(chunks, total) && Disjoint(chunks) && Received(chunks) >= total
    ensures AllCovered(chunks, total)
  {
    forall i | i in Covered(chunks) ensures i in Interval(0, total) {
      CoveredIs(chunks, i);
      var k :| 0 <= k < |chunks| && chunks[k].offset <= i < End(chunks[k]);
      assert End(chunks[k]) <= total;
    }
    ReceivedCovers(chunks);
    IntervalSize(0, total);
    SubsetSize(Covered(chunks), Interval(0, total));
    forall i | 0 <= i < total ensures CoveredAt(chunks, i) { CoveredIs(chunks, i); }
  }

  // Exactly when.

  /** The last chunk of a run completes the rectangle of its chunk a: the lengths kept had not reached the size before,
      and what is kept now lies inside the message and covers it. Offsets and lengths decide this, not pixels. */
  predicate Completes(run: seq<Chunk>, a: nat, width: nat, height: nat) {
    && a < |run|
    && var n := |run| - 1;
       var session := run[n].session;
       && HeaderAt(run, a, session, width, height)
       && Counts(run[n], session, width, height)
       && Growing(run, a, n, session, width, height)
       && var kept := KeptOf(run[a..], session, width, height);
          AllInside(kept, SizeOf(run[a], width, height)) && AllCovered(kept, SizeOf(run[a], width, height))
  }

  predicate Finishes(run: seq<Chunk>, width: nat, height: nat) {
    exists a :: 0 <= a < |run| && Completes(run, a, width, height)
  }

  lemma CompletesSnoc(log: seq<Chunk>, c: Chunk, a: nat, width: nat, height: nat)
    ensures Completes(log + [c], a, width, height)
       <==> && HeaderAt(log + [c], a, c.session, width, height)
            && Counts(c, c.session, width, height)
            && (a < |log| ==> Open(log, a, c.session, width, height))
            && var p := OpenPending(log + [c], a, c.session, width, height);
               AllInside(p.chunks, p.total) && AllCovered(p.chunks, p.total)
  {
    var run := log + [c];
    HeaderSnoc(log, c, a, c.session, width, height);
    if HeaderAt(run, a, c.session, width, height) {
      assert forall k :: a < k <= |log| ==> run[a..k] == log[a..k];
      assert a < |log| ==> run[a] == log[a];
    }
    hide KeptOf, Received, SizeOf, Begins, AllInside, AllCovered, ReadRect, Counts;
  }

  /** A candidate that lies inside its message and covers it is painted, and no other is. */
  lemma DoneIs(s: State, c: Chunk)
    requires Valid(s)
    ensures IngestChunk(s, c).1
       <==> Candidate(s, c).Some? && var p := Candidate(s, c).value;
                                     AllInside(p.chunks, p.total) && AllCovered(p.chunks, p.total)
  {
    StepCases(s, c);
    if Candidate(s, c).Some? {
      var p := Candidate(s, c).value;
      if AllCovered(p.chunks, p.total) {
        CoveredReached(p.chunks, p.total);
      }
    }
    hide IngestChunk, Candidate, Painted, Received, AllInside, AllCovered;
  }

  /** For every run whatsoever from a free session: a chunk completes a rectangle if and only if some header of its
      session is the last before it, the lengths kept since have not reached the size earlier, and with this chunk they
      lie inside the message and cover it. */
  lemma {:induction false} AppliedExactly(s: State, log: seq<Chunk>, c: Chunk)
    requires Valid(s) && c.session !in s.pending
    ensures Valid(IngestAll(s, log))
    ensures IngestChunk(IngestAll(s, log), c).1 <==> Finishes(log + [c], s.width, s.height)
  {
    TracedFromFree(s, log, c.session);
    SameSize(s, log);
    var u := IngestAll(s, log);
    DoneIs(u, c);
    hide IngestChunk, IngestAll, Valid, AllInside, AllCovered, KeptOf, Open, OpenPending, Begins, SizeOf;
    if IngestChunk(u, c).1 {
      var a := CandidateIs(u, log, c);
      CompletesSnoc(log, c, a, s.width, s.height);
    }
    if Finishes(log + [c], s.width, s.height) {
      var a :| Completes(log + [c], a, s.width, s.height);
      CompletesSnoc(log, c, a, s.width, s.height);
      IsCandidate(u, log, c, a);
    }
  }

  lemma IsCandidate(s: State, log: seq<Chunk>, c: Chunk, a: nat)
    requires TracedAt(s, log, c.session) && HeaderAt(log + [c], a, c.session, s.width, s.height)
    requires Counts(c, c.session, s.width, s.height)
    requires a < |log| ==> Open(log, a, c.session, s.width, s.height)
    ensures Candidate(s, c) == Some(OpenPending(log + [c], a, c.session, s.width, s.height))
  {
    HeaderSnoc(log, c, a, c.session, s.width, s.height);
    KeptSnoc(log, c, a, c.session, s.width, s.height);
    assert a < |log| ==> (log + [c])[a] == log[a];
    assert a == |log| ==> log[a..] == [];
    hide Put, ReadRect, Received, PixelBytes, Fits, Growing;
  }

  // Without overlaps: as soon as, and only once.

  /** Two chunks that do not disturb each other: they cover different bytes, or the same ones. */
  predicate Compatible(c: Chunk, d: Chunk) {
    if c.offset == d.offset then |c.data| == |d.data| else Apart(EntryAt(c), EntryAt(d))
  }

  /** The chunks of the session lie inside a message of this size and do not overlap, repeats apart. */
  predicate Orderly(chunks: seq<Chunk>, session: u16, size: nat, width: nat, height: nat) {
    && (forall c :: c in chunks && Counts(c, session, width, height) ==> End(EntryAt(c)) <= size)
    && (forall c, d :: c in chunks && d in chunks && Counts(c, session, width, height) && Counts(d, session, width, height)
          ==> Compatible(c, d))
  }

  predicate AllArrived(chunks: seq<Chunk>, session: u16, size: nat) {
    forall j: nat :: j < size ==> Arrived(chunks, session, size, j)
  }

  lemma {:induction false} PutHolds(chunks: seq<Entry>, e: Entry)
    ensures e in Put(chunks, e)
    ensures forall x :: x in chunks && x.offset != e.offset ==> x in Put(chunks, e)
  {
    if chunks != [] && chunks[0].offset != e.offset {
      PutHolds(chunks[1..], e);
    }
  }

  predicate OffsetsDiffer(chunks: seq<Entry>) {
    forall j, k :: 0 <= j < k < |chunks| ==> chunks[j].offset != chunks[k].offset
  }

  lemma {:induction false} PutDiffers(chunks: seq<Entry>, e: Entry)
    requires OffsetsDiffer(chunks)
    ensures OffsetsDiffer(Put(chunks, e))
  {
    if chunks != [] {
      var head, tail := chunks[0], chunks[1..];
      assert OffsetsDiffer(tail) by { assert forall k :: 0 <= k < |tail| ==> tail[k] == chunks[k + 1]; }
      if head.offset != e.offset {
        PutDiffers(tail, e);
        var more := Put(tail, e);
        forall k | 0 <= k < |more| ensures head.offset != more[k].offset {
          PutMembers(tail, e, more[k]);
          if more[k] != e {
            var i :| 0 <= i < |tail| && tail[i] == more[k];
            assert chunks[i + 1] == tail[i];
          }
        }
      } else {
        assert forall k :: 0 <= k < |tail| ==> tail[k] == chunks[k + 1];
      }
    }
  }

  lemma {:induction false} KeptDiffers(chunks: seq<Chunk>, session: u16, width: nat, height: nat)
    ensures OffsetsDiffer(KeptOf(chunks, session, width, height))
  {
    hide Counts, Put;
    if chunks != [] {
      var n := |chunks| - 1;
      KeptDiffers(chunks[..n], session, width, height);
      PutDiffers(KeptOf(chunks[..n], session, width, height), EntryAt(chunks[n]));
    }
  }

  /** Every chunk that counts is kept, or another of the same offset is. */
  lemma {:induction false} KeptStands(chunks: seq<Chunk>, session: u16, width: nat, height: nat, c: Chunk)
    requires c in chunks && Counts(c, session, width, height)
    ensures exists e :: e in KeptOf(chunks, session, width, height) && e.offset == c.offset
  {
    hide Counts, Put;
    var n := |chunks| - 1;
    var last := chunks[n];
    var kept := KeptOf(chunks[..n], session, width, height);
    PutHolds(kept, EntryAt(last));
    if c != last {
      assert c in chunks[..n];
      KeptStands(chunks[..n], session, width, height, c);
      var e :| e in kept && e.offset == c.offset;
      if Counts(last, session, width, height) && last.offset == e.offset {
        assert EntryAt(last) in KeptOf(chunks, session, width, height);
      } else {
        assert e in KeptOf(chunks, session, width, height);
      }
    } else {
      assert EntryAt(last) in KeptOf(chunks, session, width, height);
    }
  }

  lemma {:induction false} OrderlyKept(chunks: seq<Chunk>, session: u16, size: nat, width: nat, height: nat)
    requires Orderly(chunks, session, size, width, height)
    ensures var kept := KeptOf(chunks, session, width, height); AllInside(kept, size) && Disjoint(kept)
  {
    hide Counts, KeptOf;
    var kept := KeptOf(chunks, session, width, height);
    KeptDiffers(chunks, session, width, height);
    forall k | 0 <= k < |kept| ensures End(kept[k]) <= size {
      KeptMembers(chunks, session, width, height, kept[k]);
    }
    forall j, k | 0 <= j < k < |kept| ensures Apart(kept[j], kept[k]) {
      KeptMembers(chunks, session, width, height, kept[j]);
      KeptMembers(chunks, session, width, height, kept[k]);
      var c :| c in chunks && Counts(c, session, width, height) && EntryAt(c) == kept[j];
      var d :| d in chunks && Counts(d, session, width, height) && EntryAt(d) == kept[k];
      assert Compatible(c, d);
    }
  }

  /** The bytes kept are the bytes that have arrived. */
  lemma {:induction false} OrderlyCovers(chunks: seq<Chunk>, session: u16, size: nat, width: nat, height: nat)
    requires Orderly(chunks, session, size, width, height)
    requires forall c :: c in chunks && c.session == session ==> Counts(c, session, width, height)
    ensures AllCovered(KeptOf(chunks, session, width, height), size) <==> AllArrived(chunks, session, size)
  {
    hide Counts, KeptOf;
    var kept := KeptOf(chunks, session, width, height);
    OrderlyKept(chunks, session, size, width, height);
    forall j: nat | j < size ensures CoveredAt(kept, j) <==> Arrived(chunks, session, size, j) {
      if CoveredAt(kept, j) {
        KeptCarries(chunks, session, width, height, size, j);
        var d :| d in chunks && Covers(d, session, size, j) && d.data[j - d.offset] == ByteAt(kept, j);
      }
      if Arrived(chunks, session, size, j) {
        var d :| d in chunks && Covers(d, session, size, j);
        KeptStands(chunks, session, width, height, d);
        var e :| e in kept && e.offset == d.offset;
        KeptMembers(chunks, session, width, height, e);
        var c :| c in chunks && Counts(c, session, width, height) && EntryAt(c) == e;
        assert Compatible(c, d);
        var k :| 0 <= k < |kept| && kept[k] == e;
      }
    }
  }

  lemma {:induction false} OrderlyPart(chunks: seq<Chunk>, part: seq<Chunk>, session: u16, size: nat, width: nat, height: nat)
    requires Orderly(chunks, session, size, width, height) && forall c :: c in part ==> c in chunks
    ensures Orderly(part, session, size, width, height)
  {}

  /** The lengths reach the size exactly when every byte has arrived. */
  lemma {:induction false} OrderlyReached(chunks: seq<Chunk>, session: u16, size: nat, width: nat, height: nat)
    requires Orderly(chunks, session, size, width, height)
    requires forall c :: c in chunks && c.session == session ==> Counts(c, session, width, height)
    ensures Received(KeptOf(chunks, session, width, height)) >= size <==> AllArrived(chunks, session, size)
  {
    var kept := KeptOf(chunks, session, width, height);
    OrderlyKept(chunks, session, size, width, height);
    OrderlyCovers(chunks, session, size, width, height);
    hide Orderly, KeptOf, AllArrived, AllInside, AllCovered, Disjoint, Received, Counts;
    if Received(kept) >= size {
      ReachedCovers(kept, size);
    }
    if AllCovered(kept, size) {
      CoveredReached(kept, size);
    }
  }

  lemma {:induction false} CompletesWhenAllArrived(run: seq<Chunk>, a: nat, session: u16, width: nat, height: nat)
    requires run != [] && HeaderAt(run, a, session, width, height) && run[|run| - 1].session == session
    requires forall d :: d in run[a..] && d.session == session ==> Counts(d, session, width, height)
    requires Orderly(run[a..], session, SizeOf(run[a], width, height), width, height)
    ensures var size := SizeOf(run[a], width, height);
            Completes(run, a, width, height)
            <==> AllArrived(run[a..], session, size) && !AllArrived(run[a..|run| - 1], session, size)
  {
    var n := |run| - 1;
    var size := SizeOf(run[a], width, height);
    assert run[n] in run[a..] by { assert run[a..][n - a] == run[n]; }
    OrderlyKept(run[a..], session, size, width, height);
    OrderlyCovers(run[a..], session, size, width, height);
    GrowingIsMissing(run, a, n, session, size, width, height);
    hide KeptOf, Growing, Orderly, AllArrived, AllInside, AllCovered, Counts, Begins, SizeOf, Disjoint;
  }

  /** If the chunks since a header lie inside its message and do not overlap, the rectangle is painted as soon as every
      byte of it has arrived and only then: by exactly the chunk that brings the last of them. */
  lemma {:induction false} PaintedWhenAllArrived(s: State, log: seq<Chunk>, c: Chunk, a: nat)
    requires Valid(s) && c.session !in s.pending
    requires HeaderAt(log + [c], a, c.session, s.width, s.height)
    requires forall d :: d in (log + [c])[a..] && d.session == c.session ==> Counts(d, c.session, s.width, s.height)
    requires Orderly((log + [c])[a..], c.session, SizeOf((log + [c])[a], s.width, s.height), s.width, s.height)
    ensures Valid(IngestAll(s, log))
    ensures var run := log + [c];
            var size := SizeOf(run[a], s.width, s.height);
            IngestChunk(IngestAll(s, log), c).1
            <==> AllArrived(run[a..], c.session, size) && !AllArrived(run[a..|log|], c.session, size)
  {
    var run := log + [c];
    AppliedExactly(s, log, c);
    CompletesWhenAllArrived(run, a, c.session, s.width, s.height);
    forall b | 0 <= b < |run| && Completes(run, b, s.width, s.height) ensures b == a {
      SameHeader(run, a, b, c.session, s.width, s.height);
    }
    hide IngestChunk, IngestAll, Valid, Completes, HeaderAt, Orderly, AllArrived, SizeOf, Counts;
  }

  lemma SameHeader(run: seq<Chunk>, a: nat, b: nat, session: u16, width: nat, height: nat)
    requires HeaderAt(run, a, session, width, height) && HeaderAt(run, b, session, width, height)
    ensures a == b
  {
    hide Begins;
  }

  lemma {:induction false} GrowingIsMissing(run: seq<Chunk>, a: nat, n: nat, session: u16, size: nat, width: nat, height: nat)
    requires a <= n <= |run| && a < |run| && Begins(run[a], width, height) && size == SizeOf(run[a], width, height)
    requires Orderly(run[a..], session, size, width, height)
    requires forall d :: d in run[a..] && d.session == session ==> Counts(d, session, width, height)
    ensures Growing(run, a, n, session, width, height) <==> !AllArrived(run[a..n], session, size)
  {
    hide Counts, KeptOf, Begins, Received;
    forall k | a <= k <= n
      ensures Received(KeptOf(run[a..k], session, width, height)) >= size <==> AllArrived(run[a..k], session, size)
      ensures AllArrived(run[a..k], session, size) ==> AllArrived(run[a..n], session, size)
    {
      PartOf(run, a, k, n);
      OrderlyPart(run[a..], run[a..k], session, size, width, height);
      OrderlyReached(run[a..k], session, size, width, height);
      MoreArrived(run[a..k], run[a..n], session, size);
    }
    hide AllArrived, Orderly;
    if a == n {
      NothingArrived(session, size);
      assert run[a..a] == [];
    }
  }

  lemma PartOf(run: seq<Chunk>, a: nat, k: nat, n: nat)
    requires a <= k <= n <= |run|
    ensures forall c :: c in run[a..k] ==> c in run[a..] && c in run[a..n]
  {
    forall c | c in run[a..k] ensures c in run[a..] && c in run[a..n] {
      var i :| 0 <= i < k - a && run[a..k][i] == c;
      assert run[a..][i] == c && run[a..n][i] == c;
    }
  }

  lemma MoreArrived(fewer: seq<Chunk>, more: seq<Chunk>, session: u16, size: nat)
    requires forall c :: c in fewer ==> c in more
    ensures AllArrived(fewer, session, size) ==> AllArrived(more, session, size)
  {
    hide Covers;
    if AllArrived(fewer, session, size) {
      forall j: nat | j < size ensures Arrived(more, session, size, j) {
        assert Arrived(fewer, session, size, j);
      }
    }
  }

  lemma NothingArrived(session: u16, size: nat)
    requires size > 0
    ensures !AllArrived([], session, size)
  {
    assert !Arrived([], session, size, 0);
  }

  // With overlaps: never.

  /** A one-pixel rectangle in the corner: its header, its first pixel byte, the header's last byte once more, and its
      second pixel byte. */
  function Overlapping(session: u16): seq<Chunk> {
    [Chunk(session, 0, [0, 0, 0, 0, 0, 0, 0, 0]), Chunk(session, 8, [0]), Chunk(session, 7, [0]), Chunk(session, 9, [0])]
  }

  lemma {:induction false} ThreeReceived(a: Entry, b: Entry, c: Entry)
    ensures Received([a]) == |a.data| && Received([a, b]) == |a.data| + |b.data|
    ensures Received([a, b, c]) == |a.data| + |b.data| + |c.data|
  {
    assert [a][..0] == [] && [a, b][..1] == [a] && [a, b, c][..2] == [a, b];
  }

  /** Every byte of the rectangle arrives, in chunks inside its message, and it is never painted: the third chunk brings
      the lengths to the size with the last byte still missing, so the rectangle is dropped, and that byte with it. */
  lemma {:induction false} OverlapDrops(s: State, session: u16)
    requires Valid(s) && session !in s.pending && s.width > 0 && s.height > 0
    ensures Valid(IngestAll(s, Overlapping(session)))
    ensures AllArrived(Overlapping(session), session, 10)
    ensures IngestAll(s, Overlapping(session)) == s.(dropped := s.dropped + 2)
  {
    var run := Overlapping(session);
    OverlapSteps(s, session, run);
    OverlapArrives(session);
    hide IngestChunk, Valid, AllArrived, Overlapping;
    FourSteps(s, run);
  }

  lemma {:induction false} FourSteps(s: State, run: seq<Chunk>)
    requires Valid(s) && |run| == 4
    ensures var s1 := IngestChunk(s, run[0]).0;
            Valid(s1) && var s2 := IngestChunk(s1, run[1]).0;
            Valid(s2) && var s3 := IngestChunk(s2, run[2]).0;
            Valid(s3) && Valid(IngestAll(s, run)) && IngestAll(s, run) == IngestChunk(s3, run[3]).0
  {
    hide IngestChunk, Valid, IngestAll;
    NothingIngested(s);
    IngestLast(s, [], run[0]);
    IngestLast(s, [run[0]], run[1]);
    IngestLast(s, [run[0], run[1]], run[2]);
    IngestLast(s, [run[0], run[1], run[2]], run[3]);
    assert [] + [run[0]] == [run[0]] && [run[0]] + [run[1]] == [run[0], run[1]];
    assert [run[0], run[1]] + [run[2]] == [run[0], run[1], run[2]];
    assert [run[0], run[1], run[2]] + [run[3]] == run;
    SameSize(s, run);
  }

  lemma {:induction false} OverlapSteps(s: State, session: u16, run: seq<Chunk>)
    requires Valid(s) && session !in s.pending && s.width > 0 && s.height > 0 && run == Overlapping(session)
    ensures var s1 := IngestChunk(s, run[0]).0;
            Valid(s1) && var s2 := IngestChunk(s1, run[1]).0;
            Valid(s2) && var s3 := IngestChunk(s2, run[2]).0;
            Valid(s3) && IngestChunk(s3, run[3]).0 == s.(dropped := s.dropped + 2)
  {
    CornerHeader(s.width, s.height);
    var e0, e1, e2 := EntryAt(run[0]), EntryAt(run[1]), EntryAt(run[2]);
    ThreeReceived(e0, e1, e2);
    ThreePut(e0, e1, e2);
    LastMissing(e0, e1, e2);
    hide IngestChunk, Valid, Put, Received, Payload, Painted, ReadRect;
    StepCases(s, run[0]);
    StaysValid(s, run[0]);
    var s1 := IngestChunk(s, run[0]).0;
    assert s1.pending[session] == Pending(CORNER, 10, [e0]);
    StepCases(s1, run[1]);
    StaysValid(s1, run[1]);
    var s2 := IngestChunk(s1, run[1]).0;
    assert s2.pending[session] == Pending(CORNER, 10, [e0, e1]);
    StepCases(s2, run[2]);
    StaysValid(s2, run[2]);
    var s3 := IngestChunk(s2, run[2]).0;
    assert s3.pending == s.pending;
    StepCases(s3, run[3]);
  }

  lemma {:induction false} ThreePut(a: Entry, b: Entry, c: Entry)
    requires a.offset != b.offset && a.offset != c.offset && b.offset != c.offset
    ensures Put([], a) == [a] && Put([a], b) == [a, b] && Put([a, b], c) == [a, b, c]
  {
    assert [a][1..] == [] && [a, b][1..] == [b] && [b][1..] == [];
    assert Put([], b) == [b] && Put([], c) == [c] && Put([b], c) == [b, c] && [a] + [b, c] == [a, b, c];
  }

  lemma LastMissing(e0: Entry, e1: Entry, e2: Entry)
    requires End(e0) <= 9 && End(e1) <= 9 && End(e2) <= 9
    ensures Payload([e0, e1, e2], 10) == None
  {
    assert !CoveredAt([e0, e1, e2], 9);
  }

  lemma OverlapArrives(session: u16)
    ensures AllArrived(Overlapping(session), session, 10)
  {
    var run := Overlapping(session);
    forall j: nat | j < 10 ensures Arrived(run, session, 10, j) {
      var d := if j < 8 then run[0] else if j == 8 then run[1] else run[3];
      assert d in run && Covers(d, session, 10, j);
    }
  }
}
