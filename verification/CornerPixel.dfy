/** The smallest rectangle: one pixel in the corner of the screen, for examples. */
module CornerPixel {
  import opened Bytes
  import opened BinaryFrame
  import opened DisplayStream
  import opened Framebuffer
  import opened Reassembly
  import opened WholeRectangle

  const CORNER := Rect(0, 0, 0, 0)
  const WHITE: seq<byte> := [0xFF, 0xFF]
  const BLACK: seq<byte> := [0x00, 0x00]

  /** One pixel in the corner, sent whole or with its last byte in a chunk of its own. */
  function Pixel(session: u16, colour: seq<byte>, split: bool): Sent
    requires |colour| == 2
  {
    Sent(session, CORNER, colour,
      if split then [RectHeader(CORNER) + colour[..1], colour[1..]] else [RectHeader(CORNER) + colour])
  }

  lemma {:induction false} PixelWellSent(session: u16, colour: seq<byte>, split: bool, width: nat, height: nat)
    requires |colour| == 2 && width > 0 && height > 0
    ensures WellSent(Pixel(session, colour, split), width, height)
  {
    var t := Pixel(session, colour, split);
    var head := RectHeader(CORNER);
    hide RectHeader;
    assert PixelBytes(CORNER) == 2;
    if split {
      JoinedTwo(head + colour[..1], colour[1..]);
      assert colour[..1] + colour[1..] == colour;
    } else {
      JoinedOne(head + colour);
    }
  }

  lemma {:induction false} JoinedOne(a: seq<byte>)
    ensures Joined([a]) == a
  {
    assert [a][1..] == [] && a + [] == a;
  }

  lemma {:induction false} JoinedTwo(a: seq<byte>, b: seq<byte>)
    ensures Joined([a, b]) == a + b
  {
    assert [a, b][1..] == [b];
    JoinedOne(b);
  }

  lemma {:induction false} CornerPainted(s: State, session: u16, colour: seq<byte>, split: bool)
    requires Valid(s) && s.width > 0 && s.height > 0 && |colour| == 2
    ensures var t := Pixel(session, colour, split);
            && WellSent(t, s.width, s.height)
            && |Completed(s, t).pixels| == |s.pixels| > 0
            && PixelBytes(CORNER) == 2 && Completed(s, t).pixels[0] == Channel(SourcePixel(CORNER, colour, 0, 0), 0)
  {
    var t := Pixel(session, colour, split);
    assert t.rect == CORNER && t.pixels == colour;
    IndexInside(s.width, s.height, 0, 0);
    assert InRect(CORNER, 0, 0) && 0 / 3 % s.width == 0 && 0 / 3 / s.width == 0;
    hide *;
    PixelWellSent(session, colour, split, s.width, s.height);
    CompletedAt(s, t, 0);
    CornerSize();
  }

  lemma CornerSize()
    ensures PixelBytes(CORNER) == 2
  {}

  lemma Colours()
    ensures PixelBytes(CORNER) == 2
    ensures Channel(SourcePixel(CORNER, WHITE, 0, 0), 0) == 255 && Channel(SourcePixel(CORNER, BLACK, 0, 0), 0) == 0
  {
    assert PixelBytes(CORNER) == 2;
    assert SourcePixel(CORNER, WHITE, 0, 0) == 0xFFFF && SourcePixel(CORNER, BLACK, 0, 0) == 0;
  }

  lemma {:induction false} CornerHeader(width: nat, height: nat)
    requires width > 0 && height > 0
    ensures ReadRect([0, 0, 0, 0, 0, 0, 0, 0]) == CORNER
    ensures Begins(Chunk(0, 0, [0, 0, 0, 0, 0, 0, 0, 0]), width, height) && PixelBytes(CORNER) == 2
  {
    var zeros: seq<byte> := [0, 0, 0, 0, 0, 0, 0, 0];
    assert zeros[0..2] == [0, 0] && zeros[2..4] == [0, 0] && zeros[4..6] == [0, 0] && zeros[6..8] == [0, 0];
    FromLE2([0, 0]);
  }
}
