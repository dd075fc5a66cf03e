/** The host end of the UART: an incremental splitter of one byte stream into binary frames and text. */
module SerialLink {
  import opened Bytes
  import opened FrameChecksum
  import opened BinaryFrame

  datatype Item = Text(b: byte) | Binary(chunk: Chunk)

  /** What a buffer splits into, in stream order, and the bytes it is too early to decide. */
  datatype Split = Split(items: seq<Item>, rest: seq<byte>)

  datatype Decision = Wait | Take(item: Item, size: nat)

  /** What the bytes at the front of the buffer are. */
  function Next(raw: seq<byte>): (d: Decision)
    requires raw != []
    ensures d.Take? ==> 1 <= d.size <= |raw|
  {
    if raw[0] != MARKER then Take(Text(raw[0]), 1)
    else
      match ParseBinaryFrame(raw, 0)
      case Incomplete => Wait
      case Invalid => Take(Text(raw[0]), 1)
      case Frame(chunk, size) => Take(Binary(chunk), size)
  }

  function Demux(raw: seq<byte>): Split
    decreases |raw|
  {
    if raw == [] then Split([], [])
    else
      match Next(raw)
      case Wait => Split([], raw)
      case Take(item, size) => Prepend([item], Demux(raw[size..]))
  }

  function Prepend(items: seq<Item>, s: Split): Split {
    Split(items + s.items, s.rest)
  }

  function TextPart(item: Item): seq<byte> {
    if item.Text? then [item.b] else []
  }

  function ChunkPart(item: Item): seq<Chunk> {
    if item.Binary? then [item.chunk] else []
  }

  function TextOf(items: seq<Item>): seq<byte> {
    if items == [] then [] else TextPart(items[0]) + TextOf(items[1..])
  }

  function ChunksOf(items: seq<Item>): seq<Chunk> {
    if items == [] then [] else ChunkPart(items[0]) + ChunksOf(items[1..])
  }

  lemma PrependTwice(a: seq<Item>, b: seq<Item>, s: Split)
    ensures Prepend(a, Prepend(b, s)) == Prepend(a + b, s)
    ensures Prepend([], s) == s
  {
    assert a + (b + s.items) == a + b + s.items;
    assert [] + s.items == s.items;
  }

  lemma TailOfSnoc<T>(a: seq<T>, x: T)
    requires a != []
    ensures (a + [x])[0] == a[0] && (a + [x])[1..] == a[1..] + [x]
  {}

  lemma {:induction false} TextSnoc(a: seq<Item>, item: Item)
    ensures TextOf(a + [item]) == TextOf(a) + TextPart(item)
  {
    hide TextPart;
    if a == [] {
      assert a + [item] == [item] && [item][1..] == [];
    } else {
      TextSnoc(a[1..], item);
      TailOfSnoc(a, item);
    }
  }

  lemma {:induction false} ChunksSnoc(a: seq<Item>, item: Item)
    ensures ChunksOf(a + [item]) == ChunksOf(a) + ChunkPart(item)
  {
    hide ChunkPart;
    if a == [] {
      assert a + [item] == [item] && [item][1..] == [];
    } else {
      ChunksSnoc(a[1..], item);
      TailOfSnoc(a, item);
    }
  }

  /** `Next` at an index of the buffer, the way the loop looks at it. */
  lemma NextAt(raw: seq<byte>, index: nat)
    requires index < |raw|
    ensures Next(raw[index..]) ==
            if raw[index] != MARKER then Take(Text(raw[index]), 1)
            else match ParseBinaryFrame(raw, index)
                 case Incomplete => Wait
                 case Invalid => Take(Text(raw[index]), 1)
                 case Frame(chunk, size) => Take(Binary(chunk), size)
  {
    ParseFromSuffix(raw, index);
    hide ParseBinaryFrame;
  }

  /** One turn of the splitting loop. */
  lemma {:induction false} TakeOne(raw: seq<byte>, index: nat, items: seq<Item>)
    requires index < |raw| && Next(raw[index..]).Take?
    requires Demux(raw) == Prepend(items, Demux(raw[index..]))
    ensures var d := Next(raw[index..]);
            && index + d.size <= |raw|
            && Demux(raw) == Prepend(items + [d.item], Demux(raw[index + d.size..]))
            && match d.item
               case Text(b) =>
                 TextOf(items + [d.item]) == TextOf(items) + [b] && ChunksOf(items + [d.item]) == ChunksOf(items)
               case Binary(chunk) =>
                 TextOf(items + [d.item]) == TextOf(items) && ChunksOf(items + [d.item]) == ChunksOf(items) + [chunk]
  {
    hide Next;
    var d := Next(raw[index..]);
    assert raw[index..][d.size..] == raw[index + d.size..];
    PrependTwice(items, [d.item], Demux(raw[index + d.size..]));
    TextSnoc(items, d.item);
    ChunksSnoc(items, d.item);
  }

  lemma NoItems()
    ensures TextOf([]) == [] && ChunksOf([]) == []
  {}

  lemma {:induction false} NoMore(raw: seq<byte>)
    requires raw == [] || Next(raw).Wait?
    ensures Demux(raw) == Split([], raw)
  {
    hide Next;
  }

  lemma PrependNothing(items: seq<Item>, rest: seq<byte>)
    ensures Prepend(items, Split([], rest)) == Split(items, rest)
  {
    assert items + [] == items;
  }

  class Link {
    var raw: seq<byte>
    var frames: seq<Chunk>
    var text: seq<byte>

    constructor ()
      ensures raw == [] && frames == [] && text == []
    {
      raw, frames, text := [], [], [];
    }

    /** One read: whatever the transport had, possibly nothing. */
    method Pump(data: seq<byte>)
      modifies this
      ensures data != [] ==>
                var s := Demux(old(raw) + data);
                && raw == s.rest
                && frames == old(frames) + ChunksOf(s.items)
                && text == old(text) + TextOf(s.items)
      ensures data == [] ==> raw == old(raw) && frames == old(frames) && text == old(text)
    {
      if data != [] {
        raw := raw + data;
        SplitBuffer();
      }
    }

    /** The loop over the buffer. */
    method SplitBuffer()
      modifies this
      ensures var s := Demux(old(raw));
              && raw == s.rest
              && frames == old(frames) + ChunksOf(s.items)
              && text == old(text) + TextOf(s.items)
    {
      hide ParseBinaryFrame, Next, Demux, TextOf, ChunksOf;
      NoItems();
      var decoded: seq<byte> := [];
      var index := 0;
      ghost var items: seq<Item> := [];
      PrependTwice([], [], Demux(raw));
      assert raw[0..] == raw;
      while index < |raw|
        invariant index <= |raw| && raw == old(raw)
        invariant Demux(raw) == Prepend(items, Demux(raw[index..]))
        invariant decoded == TextOf(items) && text == old(text)
        invariant frames == old(frames) + ChunksOf(items)
      {
        NextAt(raw, index);
        var b := raw[index];
        if b != MARKER {
          TakeOne(raw, index, items);
          items := items + [Text(b)];
          decoded := decoded + [b];
          index := index + 1;
          continue;
        }

        var frame := ParseBinaryFrame(raw, index);
        if frame.Incomplete? {
          break;
        }
        TakeOne(raw, index, items);
        if frame.Invalid? {
          items := items + [Text(b)];
          decoded := decoded + [b];
          index := index + 1;
          continue;
        }

        items := items + [Binary(frame.chunk)];
        frames := frames + [frame.chunk];
        index := index + frame.size;
      }

      NoMore(raw[index..]);
      PrependNothing(items, raw[index..]);
      raw := raw[index..];
      if decoded != [] {
        text := text + decoded;
      }
    }

    /** Reads once more, then drains the frames received so far. */
    method PollFrames(data: seq<byte>) returns (polled: seq<Chunk>)
      modifies this
      ensures frames == []
      ensures data == [] ==> polled == old(frames) && raw == old(raw) && text == old(text)
      ensures data != [] ==>
                var s := Demux(old(raw) + data);
                && polled == old(frames) + ChunksOf(s.items)
                && raw == s.rest
                && text == old(text) + TextOf(s.items)
    {
      Pump(data);
      polled := frames;
      frames := [];
    }
  }

  // Conservation.

  predicate Carriable(item: Item) {
    item.Binary? ==> Sendable(item.chunk)
  }

  /** The bytes an item stands for on the wire. */
  function WireOf(item: Item): (w: seq<byte>)
    requires Carriable(item)
    ensures w != []
  {
    match item
    case Text(b) => [b]
    case Binary(chunk) => BuildBinaryFrame(chunk)
  }

  predicate Carried(items: seq<Item>) {
    forall i :: 0 <= i < |items| ==> Carriable(items[i])
  }

  function Wire(items: seq<Item>): seq<byte>
    requires Carried(items)
  {
    if items == [] then [] else WireOf(items[0]) + Wire(items[1..])
  }

  lemma {:induction false} WireCons(item: Item, items: seq<Item>)
    requires Carriable(item) && Carried(items)
    ensures Carried([item] + items) && Wire([item] + items) == WireOf(item) + Wire(items)
  {
    hide Carriable, WireOf;
    assert ([item] + items)[1..] == items;
  }

  lemma Regroup(a: seq<byte>, b: seq<byte>, c: seq<byte>)
    ensures a + b + c == a + (b + c)
  {}

  /** A decided item stands for exactly the bytes taken. */
  lemma NextConserves(raw: seq<byte>)
    requires raw != [] && Next(raw).Take?
    ensures Carriable(Next(raw).item) && WireOf(Next(raw).item) == raw[..Next(raw).size]
  {
    if raw[0] == MARKER && ParseBinaryFrame(raw, 0).Frame? {
      BuildParsed(raw);
      hide ParseBinaryFrame, BuildBinaryFrame;
    } else {
      hide ParseBinaryFrame, BuildBinaryFrame;
    }
  }

  /** Every input byte belongs to exactly one text byte, one frame or the leftover, in order. */
  lemma {:induction false} Conservation(raw: seq<byte>)
    ensures Carried(Demux(raw).items)
    ensures Wire(Demux(raw).items) + Demux(raw).rest == raw
    decreases |raw|
  {
    hide Next, WireOf, Carriable, Wire, Carried;
    NoWire();
    if raw != [] && Next(raw).Take? {
      NextConserves(raw);
      var d := Next(raw);
      var later := Demux(raw[d.size..]);
      Conservation(raw[d.size..]);
      WireCons(d.item, later.items);
      Regroup(raw[..d.size], Wire(later.items), later.rest);
      assert raw == raw[..d.size] + raw[d.size..];
    } else {
      assert [] + raw == raw;
    }
  }

  lemma NoWire()
    ensures Carried([]) && Wire([]) == []
  {}

  /** After any read fewer bytes than one full frame stay undecided, and those begin with a marker. */
  lemma {:induction false} BoundedWithholding(raw: seq<byte>)
    ensures |Demux(raw).rest| <= MAX_FRAME - 1 == 1037
    ensures Demux(raw).rest != [] ==> Demux(raw).rest[0] == MARKER && Next(Demux(raw).rest).Wait?
    decreases |raw|
  {
    if raw != [] {
      if Next(raw).Take? {
        hide Next;
        BoundedWithholding(raw[Next(raw).size..]);
      } else {
        IncompleteIsShort(raw, 0);
      }
    }
  }

  // Split invariance.

  lemma NextStable(raw: seq<byte>, more: seq<byte>)
    requires raw != [] && Next(raw).Take?
    ensures Next(raw + more) == Next(raw)
  {
    if raw[0] == MARKER {
      VerdictStable(raw, more);
    }
    hide ParseBinaryFrame;
  }

  /** Deciding a prefix early changes nothing: the rest of the stream continues from the leftover. */
  lemma {:induction false} DemuxIncremental(a: seq<byte>, b: seq<byte>)
    ensures Demux(a + b) == Prepend(Demux(a).items, Demux(Demux(a).rest + b))
    decreases |a|
  {
    hide Next;
    if a == [] {
      assert a + b == b;
      PrependTwice([], [], Demux(b));
    } else if Next(a).Wait? {
      PrependTwice([], [], Demux(a + b));
    } else {
      var d := Next(a);
      NextStable(a, b);
      assert (a + b)[d.size..] == a[d.size..] + b;
      DemuxIncremental(a[d.size..], b);
      PrependTwice([d.item], Demux(a[d.size..]).items, Demux(Demux(a).rest + b));
    }
  }

  /** Reads one after the other, as `Pump` performs them. */
  function Feed(rest: seq<byte>, pieces: seq<seq<byte>>): Split
    decreases |pieces|
  {
    if pieces == [] then Split([], rest)
    else if pieces[0] == [] then Feed(rest, pieces[1..])
    else
      var s := Demux(rest + pieces[0]);
      Prepend(s.items, Feed(s.rest, pieces[1..]))
  }

  /** A leftover: what a fresh link, or any earlier read, leaves behind. */
  predicate Undecided(rest: seq<byte>) {
    Demux(rest) == Split([], rest)
  }

  lemma {:induction false} RestUndecided(raw: seq<byte>)
    ensures Undecided(Demux(raw).rest)
  {
    BoundedWithholding(raw);
    hide Next;
  }

  /** However any byte stream, damaged or not, is cut into reads, the frames, the text, their order and the
      leftover are those of reading it at once. */
  lemma {:induction false} SplitInvariance(rest: seq<byte>, pieces: seq<seq<byte>>)
    requires Undecided(rest)
    ensures Feed(rest, pieces) == Demux(rest + Joined(pieces))
    decreases |pieces|
  {
    hide Demux;
    if pieces == [] {
      assert rest + Joined(pieces) == rest;
    } else if pieces[0] == [] {
      SplitInvariance(rest, pieces[1..]);
      assert Joined(pieces) == Joined(pieces[1..]);
    } else {
      var sofar := rest + pieces[0];
      RestUndecided(sofar);
      SplitInvariance(Demux(sofar).rest, pieces[1..]);
      DemuxIncremental(sofar, Joined(pieces[1..]));
      assert rest + Joined(pieces) == sofar + Joined(pieces[1..]);
    }
  }

  // Round trip and resynchronisation.

  predicate CleanItem(item: Item) {
    match item case Text(b) => b != MARKER case Binary(c) => Sendable(c)
  }

  /** What a well-behaved sender puts on the wire: frames the carrier accepts and text free of markers. */
  predicate Clean(items: seq<Item>) {
    forall i :: 0 <= i < |items| ==> CleanItem(items[i])
  }

  lemma CleanIsCarried(items: seq<Item>)
    requires Clean(items)
    ensures Carried(items)
  {
    forall i | 0 <= i < |items| ensures Carriable(items[i]) { assert CleanItem(items[i]); }
  }

  lemma NextOfWire(item: Item, after: seq<byte>)
    requires CleanItem(item)
    ensures Carriable(item) && Next(WireOf(item) + after) == Take(item, |WireOf(item)|)
  {
    if item.Binary? {
      ParseBuilt(item.chunk, after);
      assert (BuildBinaryFrame(item.chunk) + after)[0] == MARKER;
      hide ParseBinaryFrame, BuildBinaryFrame;
    } else {
      hide ParseBinaryFrame, BuildBinaryFrame;
    }
  }

  /** A clean sequence of text and frames is read back exactly, whatever follows it. */
  lemma {:induction false} DemuxWire(items: seq<Item>, tail: seq<byte>)
    requires Clean(items)
    ensures Carried(items) && Demux(Wire(items) + tail) == Prepend(items, Demux(tail))
    decreases |items|
  {
    CleanIsCarried(items);
    if items == [] {
      assert Wire(items) + tail == tail;
      PrependTwice([], [], Demux(tail));
    } else {
      var first, others := items[0], items[1..];
      NextOfWire(first, Wire(others) + tail);
      DemuxWire(others, tail);
      hide Next, WireOf, CleanItem, Carriable, Wire, Carried, Clean;
      WireCons(first, others);
      assert items == [first] + others;
      Regroup(WireOf(first), Wire(others), tail);
      assert (WireOf(first) + (Wire(others) + tail))[|WireOf(first)|..] == Wire(others) + tail;
      PrependTwice([first], others, Demux(tail));
    }
  }

  function AsText(bytes: seq<byte>): seq<Item> {
    seq(|bytes|, i requires 0 <= i < |bytes| => Text(bytes[i]))
  }

  /** No position inside `damaged` starts a valid frame of the stream `damaged + after`. */
  predicate Dead(damaged: seq<byte>, after: seq<byte>) {
    forall i :: 0 <= i < |damaged| && damaged[i] == MARKER ==> !ParseBinaryFrame(damaged + after, i).Frame?
  }

  lemma DeadTail(damaged: seq<byte>, after: seq<byte>)
    requires damaged != [] && Dead(damaged, after)
    ensures Dead(damaged[1..], after)
  {
    var next := damaged[1..];
    forall i | 0 <= i < |next| && next[i] == MARKER
      ensures !ParseBinaryFrame(next + after, i).Frame?
    {
      assert damaged[i + 1] == MARKER;
      SameSuffix(damaged + after, i + 1, next + after, i);
    }
  }

  lemma SameSuffix(raw: seq<byte>, i: nat, other: seq<byte>, j: nat)
    requires i < |raw| && j < |other| && raw[i..] == other[j..]
    ensures ParseBinaryFrame(raw, i) == ParseBinaryFrame(other, j)
  {
    ParseFromSuffix(raw, i);
    ParseFromSuffix(other, j);
  }

  /** A damaged region comes out as text, and what follows it is read as if it stood alone, exactly when no frame starts
      inside it. */
  lemma {:induction false} DemuxDead(damaged: seq<byte>, after: seq<byte>)
    requires |after| >= MAX_FRAME - 1
    ensures Demux(damaged + after) == Prepend(AsText(damaged), Demux(after)) <==> Dead(damaged, after)
  {
    if Dead(damaged, after) {
      DeadIsText(damaged, after);
    } else {
      LiveIsNotText(damaged, after);
    }
  }

  lemma {:induction false} DeadIsText(damaged: seq<byte>, after: seq<byte>)
    requires Dead(damaged, after) && |after| >= MAX_FRAME - 1
    ensures Demux(damaged + after) == Prepend(AsText(damaged), Demux(after))
    decreases |damaged|
  {
    if damaged == [] {
      assert damaged + after == after;
      PrependTwice([], [], Demux(after));
    } else {
      TextFirst(damaged, after);
      DeadTail(damaged, after);
      hide Next, Dead;
      var next := damaged[1..];
      assert (damaged + after)[1..] == next + after;
      DeadIsText(next, after);
      assert AsText(damaged) == [Text(damaged[0])] + AsText(next);
      PrependTwice([Text(damaged[0])], AsText(next), Demux(after));
    }
  }

  lemma {:induction false} DemuxTaken(raw: seq<byte>, item: Item, size: nat)
    requires raw != [] && Next(raw) == Take(item, size)
    ensures size <= |raw| && Demux(raw) == Prepend([item], Demux(raw[size..]))
  {
    hide Next;
  }

  /** The first frame to start inside the region is delivered, in place of the text. */
  lemma {:induction false} LiveSurfaces(damaged: seq<byte>, after: seq<byte>) returns (i: nat)
    requires !Dead(damaged, after) && |after| >= MAX_FRAME - 1
    ensures i < |damaged| && i < |Demux(damaged + after).items| && Demux(damaged + after).items[i].Binary?
    decreases |damaged|
  {
    hide Demux, ParseBinaryFrame;
    var raw := damaged + after;
    var next := damaged[1..];
    if damaged[0] == MARKER && ParseBinaryFrame(raw, 0).Frame? {
      DemuxTaken(raw, Next(raw).item, Next(raw).size);
      i := 0;
    } else {
      TextFirst(damaged, after);
      LiveTail(damaged, after);
      DemuxTaken(raw, Text(damaged[0]), 1);
      hide Next, Dead;
      assert raw[1..] == next + after;
      i := LiveSurfaces(next, after);
      i := i + 1;
    }
  }

  lemma {:induction false} LiveIsNotText(damaged: seq<byte>, after: seq<byte>)
    requires !Dead(damaged, after) && |after| >= MAX_FRAME - 1
    ensures Demux(damaged + after) != Prepend(AsText(damaged), Demux(after))
  {
    hide Demux, Dead;
    var i := LiveSurfaces(damaged, after);
    assert Prepend(AsText(damaged), Demux(after)).items[i] == Text(damaged[i]);
  }

  lemma TextFirst(damaged: seq<byte>, after: seq<byte>)
    requires damaged != [] && |after| >= MAX_FRAME - 1
    requires damaged[0] == MARKER ==> !ParseBinaryFrame(damaged + after, 0).Frame?
    ensures Next(damaged + after) == Take(Text(damaged[0]), 1)
  {
    var raw := damaged + after;
    if damaged[0] == MARKER && ParseBinaryFrame(raw, 0).Incomplete? {
      IncompleteIsShort(raw, 0);
    }
    hide ParseBinaryFrame;
  }

  lemma LiveTail(damaged: seq<byte>, after: seq<byte>)
    requires damaged != [] && !Dead(damaged, after)
    requires damaged[0] == MARKER ==> !ParseBinaryFrame(damaged + after, 0).Frame?
    ensures !Dead(damaged[1..], after)
  {
    hide ParseBinaryFrame;
    var next := damaged[1..];
    var i :| 0 <= i < |damaged| && damaged[i] == MARKER && ParseBinaryFrame(damaged + after, i).Frame?;
    assert next[i - 1] == MARKER;
    assert (damaged + after)[i..] == (next + after)[i - 1..];
    SameSuffix(damaged + after, i, next + after, i - 1);
  }

  lemma PrependCancels(items: seq<Item>, s: Split, t: Split)
    requires Prepend(items, s) == Prepend(items, t)
    ensures s == t
  {
    assert (items + s.items)[|items|..] == s.items && (items + t.items)[|items|..] == t.items;
  }

  /** Resynchronisation: a damaged region is lost to text and nothing else is, every intact item before and after it
      being delivered in order once a frame's worth of bytes has followed, exactly when no frame starts inside it. */
  lemma {:induction false} Resynchronises(before: seq<Item>, damaged: seq<byte>, later: seq<Item>, tail: seq<byte>)
    requires Clean(before) && Clean(later)
    requires Carried(later) && |Wire(later) + tail| >= MAX_FRAME - 1
    ensures Carried(before)
    ensures Demux(Wire(before) + (damaged + (Wire(later) + tail)))
            == Prepend(before + AsText(damaged) + later, Demux(tail))
       <==> Dead(damaged, Wire(later) + tail)
  {
    hide *;
    var after := Wire(later) + tail;
    DemuxWire(before, damaged + after);
    DemuxDead(damaged, after);
    DemuxWire(later, tail);
    var lost := Prepend(AsText(damaged), Demux(after));
    PrependTwice(AsText(damaged), later, Demux(tail));
    PrependTwice(before, AsText(damaged) + later, Demux(tail));
    assert before + (AsText(damaged) + later) == before + AsText(damaged) + later;
    if Prepend(before, Demux(damaged + after)) == Prepend(before, lost) {
      PrependCancels(before, Demux(damaged + after), lost);
    }
  }

  /** The other case: a whole frame inside a damaged one, its payload for instance, is a frame in its own right. */
  lemma InnerFrameSurfaces(front: seq<byte>, inner: Chunk, back: seq<byte>, after: seq<byte>)
    requires Sendable(inner)
    ensures !Dead(front + BuildBinaryFrame(inner) + back, after)
  {
    var frame := BuildBinaryFrame(inner);
    var damaged := front + frame + back;
    ParseBuilt(inner, back + after);
    assert frame[0] == MARKER;
    hide BuildBinaryFrame;
    ParseFromSuffix(damaged + after, |front|);
    FrontedFrame(front, frame, back, after);
    hide ParseBinaryFrame;
    assert damaged[|front|] == MARKER && ParseBinaryFrame(damaged + after, |front|).Frame?;
  }

  lemma FrontedFrame(front: seq<byte>, frame: seq<byte>, back: seq<byte>, after: seq<byte>)
    requires frame != []
    ensures (front + frame + back)[|front|] == frame[0]
    ensures (front + frame + back + after)[|front|..] == frame + (back + after)
  {}

  // Any number of damaged regions.

  datatype Segment = Clear(items: seq<Item>) | Damaged(bytes: seq<byte>)

  function SegmentsWire(segments: seq<Segment>): seq<byte>
    requires forall k :: 0 <= k < |segments| && segments[k].Clear? ==> Carried(segments[k].items)
  {
    if segments == [] then []
    else
      (match segments[0] case Clear(items) => Wire(items) case Damaged(bytes) => bytes) + SegmentsWire(segments[1..])
  }

  /** What is read back: a damaged region comes out as text. */
  function Recovered(segments: seq<Segment>): seq<Item> {
    if segments == [] then []
    else (match segments[0] case Clear(items) => items case Damaged(bytes) => AsText(bytes)) + Recovered(segments[1..])
  }

  predicate AllCarried(segments: seq<Segment>) {
    forall k :: 0 <= k < |segments| && segments[k].Clear? ==> Carried(segments[k].items)
  }

  /** In no damaged region does a frame start, and behind each a frame's worth of bytes follows. */
  predicate Survivable(segments: seq<Segment>)
    requires AllCarried(segments)
  {
    segments == [] ||
    (&& Survivable(segments[1..])
     && match segments[0]
        case Clear(items) => Clean(items)
        case Damaged(bytes) =>
          var after := SegmentsWire(segments[1..]);
          |after| >= MAX_FRAME - 1 && Dead(bytes, after))
  }

  /** However many regions are damaged, everything intact is read back in order. */
  lemma {:induction false} DemuxSegments(segments: seq<Segment>)
    requires AllCarried(segments) && Survivable(segments)
    ensures Demux(SegmentsWire(segments)) == Split(Recovered(segments), [])
  {
    hide Dead, Clean, Carried, Demux, Wire;
    if segments == [] {
      NoMore([]);
    } else {
      var later := segments[1..];
      var after := SegmentsWire(later);
      DemuxSegments(later);
      match segments[0]
      case Clear(items) => DemuxWire(items, after);
      case Damaged(bytes) => DemuxDead(bytes, after);
    }
  }

  // A frame body hit by a burst, behind its marker and before the rest of the stream.
  function Hit(body: seq<byte>, c: Chunk): seq<byte>
    requires Sendable(c)
  {
    body + ToLE(FrameCrc(Header(c) + c.data), 4)
  }

  lemma HitIsDead(c: Chunk, prefix: seq<byte>, w: seq<byte>, v: seq<byte>, suffix: seq<byte>, after: seq<byte>)
    requires Sendable(c)
    requires Header(c) + c.data == prefix + w + suffix
    requires |w| == |v| <= 4 && w != v
    requires (prefix + v + suffix)[7..9] == Header(c)[7..9]
    ensures Dead([MARKER] + Hit(prefix + v + suffix, c), after) <==> Dead(Hit(prefix + v + suffix, c), after)
  {
    var others := Hit(prefix + v + suffix, c);
    var hit := [MARKER] + others;
    DamagedFrameRejected(c, prefix, w, v, suffix, after);
    assert hit + after == [MARKER] + (prefix + v + suffix) + ToLE(FrameCrc(Header(c) + c.data), 4) + after;
    hide ParseBinaryFrame, FrameCrc, Header, Hit, ToLE;
    assert !ParseBinaryFrame(hit + after, 0).Frame?;
    assert hit[1..] == others;
    if Dead(others, after) {
      DeadBehind(hit, after);
    } else if Dead(hit, after) {
      DeadTail(hit, after);
    }
  }

  lemma DeadBehind(hit: seq<byte>, after: seq<byte>)
    requires hit != [] && !ParseBinaryFrame(hit + after, 0).Frame? && Dead(hit[1..], after)
    ensures Dead(hit, after)
  {
    hide ParseBinaryFrame;
    var others := hit[1..];
    forall i | 0 <= i < |hit| && hit[i] == MARKER
      ensures !ParseBinaryFrame(hit + after, i).Frame?
    {
      if i > 0 {
        assert (hit + after)[i..] == (others + after)[i - 1..];
        SameSuffix(hit + after, i, others + after, i - 1);
        assert others[i - 1] == MARKER;
      }
    }
  }

  /** One frame hit by a burst of up to four body bytes costs that frame and no other exactly when the hit frame's other
      bytes do not themselves spell out a frame; its own marker never starts one any more. */
  lemma {:induction false} BurstCostsOneFrame(items: seq<Item>, c: Chunk, prefix: seq<byte>, w: seq<byte>, v: seq<byte>,
                           suffix: seq<byte>, later: seq<Item>, tail: seq<byte>)
    requires Clean(items) && Clean(later) && Sendable(c)
    requires Header(c) + c.data == prefix + w + suffix
    requires |w| == |v| <= 4 && w != v
    requires (prefix + v + suffix)[7..9] == Header(c)[7..9]
    requires Carried(later) && |Wire(later) + tail| >= MAX_FRAME - 1
    ensures Carried(items)
    ensures var hit := [MARKER] + Hit(prefix + v + suffix, c);
            Demux(Wire(items) + (hit + (Wire(later) + tail)))
            == Prepend(items + AsText(hit) + later, Demux(tail))
            <==> Dead(Hit(prefix + v + suffix, c), Wire(later) + tail)
  {
    HitIsDead(c, prefix, w, v, suffix, Wire(later) + tail);
    Resynchronises(items, [MARKER] + Hit(prefix + v + suffix, c), later, tail);
  }

  // What text and frames come out as.

  /** Text items are their bytes, and no frame. */
  lemma {:induction false} TextOfText(bytes: seq<byte>)
    ensures TextOf(AsText(bytes)) == bytes && ChunksOf(AsText(bytes)) == []
  {
    if bytes != [] {
      TextOfText(bytes[1..]);
      assert AsText(bytes)[1..] == AsText(bytes[1..]);
      assert bytes == [bytes[0]] + bytes[1..];
    }
  }

  function AsFrames(chunks: seq<Chunk>): seq<Item> {
    seq(|chunks|, i requires 0 <= i < |chunks| => Binary(chunks[i]))
  }

  /** Frame items are their chunks, and no text. */
  lemma {:induction false} ChunksOfFrames(chunks: seq<Chunk>)
    ensures ChunksOf(AsFrames(chunks)) == chunks && TextOf(AsFrames(chunks)) == []
  {
    if chunks != [] {
      ChunksOfFrames(chunks[1..]);
      assert AsFrames(chunks)[1..] == AsFrames(chunks[1..]);
      assert chunks == [chunks[0]] + chunks[1..];
    }
  }

  /** Mixed, each keeps its order. */
  lemma {:induction false} ProjectionsAppend(a: seq<Item>, b: seq<Item>)
    ensures TextOf(a + b) == TextOf(a) + TextOf(b) && ChunksOf(a + b) == ChunksOf(a) + ChunksOf(b)
    decreases |b|
  {
    hide TextPart, ChunkPart;
    if b == [] {
      assert a + b == a;
    } else {
      var n := |b| - 1;
      ProjectionsAppend(a, b[..n]);
      TextSnoc(a + b[..n], b[n]);
      ChunksSnoc(a + b[..n], b[n]);
      TextSnoc(b[..n], b[n]);
      ChunksSnoc(b[..n], b[n]);
      hide TextOf, ChunksOf;
      assert a + b == a + b[..n] + [b[n]] && b == b[..n] + [b[n]];
    }
  }
}
