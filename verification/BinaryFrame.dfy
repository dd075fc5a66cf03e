/** The binary frame that shares the UART with log text: marker, version, session, offset, length,
    payload and checksum, all little-endian. */
module BinaryFrame {
  import opened Bytes
  import opened FrameChecksum

  const MARKER: byte := 0x02
  const VERSION: byte := 0x01
  const HEADER_BYTES := 9
  const MAX_PAYLOAD := 1024
  const MAX_FRAME := 1 + HEADER_BYTES + MAX_PAYLOAD + 4

  datatype Chunk = Chunk(session: u16, offset: u32, data: seq<byte>)

  datatype Verdict =
    | Incomplete
    | Invalid
    | Frame(chunk: Chunk, size: nat)

  datatype Status = Ok | InvalidArg | InvalidState

  /** A chunk the wire can carry. */
  predicate Sendable(c: Chunk) {
    1 <= |c.data| <= MAX_PAYLOAD
  }

  function Header(c: Chunk): seq<byte>
    requires |c.data| < 0x1_0000
  {
    [VERSION] + ToLE(c.session, 2) + ToLE(c.offset, 4) + ToLE(|c.data|, 2)
  }

  /** The host's encoder. Its to_bytes(2) is what refuses longer payloads. */
  function BuildBinaryFrame(c: Chunk): seq<byte>
    requires |c.data| < 0x1_0000
  {
    var body := Header(c) + c.data;
    [MARKER] + body + ToLE(FrameCrc(body), 4)
  }

  /** The firmware's encoder: the ten header bytes by shifting and masking, the register carried from the
      header over to the payload. What `uart_write_bytes` is given is returned; nothing on refusal. */
  method SendBinary(started: bool, session: u16, offset: u32, data: seq<byte>)
    returns (status: Status, wire: seq<byte>)
    ensures status == if !started then InvalidState
                      else if Sendable(Chunk(session, offset, data)) then Ok else InvalidArg
    ensures wire == if status.Ok? then BuildBinaryFrame(Chunk(session, offset, data)) else []
  {
    if !started {
      return InvalidState, [];
    }
    if |data| == 0 || |data| > MAX_PAYLOAD {
      return InvalidArg, [];
    }
    hide *;
    var header: seq<byte> := HeaderByShifts(session, offset, |data|);
    var crc := Shift(ALL_ONES, header);
    crc := Shift(crc, data);
    var sum := Value(Xor32(crc, ALL_ONES));
    status, wire := Ok, [MARKER] + header + data + Quarters(sum);
    EncodedByShifts(Chunk(session, offset, data));
  }

  lemma {:induction false} EncodedByShifts(c: Chunk)
    requires |c.data| < 0x1_0000
    ensures var header := HeaderByShifts(c.session, c.offset, |c.data|);
            var crc := Register(Register(ALL_ONES, header), c.data);
            [MARKER] + header + c.data + Quarters(Value(Xor32(crc, ALL_ONES))) == BuildBinaryFrame(c)
  {
    hide Value, Xor32, Register, Quarters, ToLE, HeaderByShifts, Header;
    var header := HeaderByShifts(c.session, c.offset, |c.data|);
    ShiftsEncode(c);
    RegisterAppend(ALL_ONES, header, c.data);
    LittleEndian4(Value(Xor32(Register(Register(ALL_ONES, header), c.data), ALL_ONES)));
    assert [MARKER] + header + c.data == [MARKER] + (header + c.data);
  }

  /** The four bytes of a word by shifting and masking, lowest first. */
  function Quarters(n: u32): seq<byte> {
    [n % 256, n / 0x100 % 256, n / 0x1_0000 % 256, n / 0x100_0000 % 256]
  }

  function HeaderByShifts(session: u16, offset: u32, len: nat): seq<byte> {
    [VERSION] + [session % 256, session / 0x100 % 256] + Quarters(offset) + [len % 256, len / 0x100 % 256]
  }

  lemma ShiftsEncode(c: Chunk)
    requires |c.data| < 0x1_0000
    ensures HeaderByShifts(c.session, c.offset, |c.data|) == Header(c)
  {
    LittleEndian2(c.session);
    LittleEndian4(c.offset);
    LittleEndian2(|c.data|);
  }

  lemma Shifts(n: u32)
    ensures n / 256 / 256 == n / 0x1_0000
    ensures n / 256 / 256 / 256 == n / 0x100_0000
  {}

  lemma {:induction false} LittleEndian2(n: nat)
    ensures ToLE(n, 2) == [n % 256, n / 256 % 256]
  {
    assert ToLE(n / 256, 1) == [n / 256 % 256] + ToLE(n / 256 / 256, 0);
  }

  lemma {:induction false} LittleEndian4(n: u32)
    ensures ToLE(n, 4) == Quarters(n)
  {
    Shifts(n);
    assert ToLE(n, 4) == [n % 256] + ToLE(n / 256, 3);
    assert ToLE(n / 256, 3) == [n / 256 % 256] + ToLE(n / 256 / 256, 2);
    LittleEndian2(n / 256 / 256);
  }

  /** The host's decoder, reading the buffer from the marker at `start`. */
  function ParseBinaryFrame(raw: seq<byte>, start: nat): Verdict
    requires start < |raw|
  {
    var bodyStart := start + 1;
    if |raw| < bodyStart + HEADER_BYTES then Incomplete
    else if raw[bodyStart] != VERSION then Invalid
    else
      var length := FromLE(raw[bodyStart + 7..bodyStart + 9]);
      if length == 0 || length > MAX_PAYLOAD then Invalid
      else
        var end := bodyStart + HEADER_BYTES + length + 4;
        if |raw| < end then Incomplete
        else
          var body := raw[bodyStart..bodyStart + HEADER_BYTES + length];
          var expected := FromLE(raw[end - 4..end]);
          if FrameCrc(body) != expected then Invalid
          else
            ReadFits(raw[bodyStart + 1..bodyStart + 3], raw[bodyStart + 3..bodyStart + 7]);
            var session := FromLE(raw[bodyStart + 1..bodyStart + 3]);
            var offset := FromLE(raw[bodyStart + 3..bodyStart + 7]);
            Frame(Chunk(session, offset, body[HEADER_BYTES..]), end - start)
  }

  lemma {:induction false} ReadFits(two: seq<byte>, four: seq<byte>)
    requires |two| == 2 && |four| == 4
    ensures FromLE(two) < 0x1_0000 && FromLE(four) < 0x1_0000_0000
  {
    ToLEFromLE(two);
    ToLEFromLE(four);
    Widths();
  }

  /** The frame on the wire, byte by byte. */
  lemma {:induction false} FrameBytes(c: Chunk)
    requires |c.data| < 0x1_0000
    ensures var n := |c.data|;
            BuildBinaryFrame(c)
            == [0x02, 0x01, c.session % 256, c.session / 256]
               + [c.offset % 256, c.offset / 256 % 256, c.offset / 0x1_0000 % 256, c.offset / 0x100_0000]
               + [n % 256, n / 256] + c.data + Quarters(FrameCrc(Header(c) + c.data))
  {
    var sum := FrameCrc(Header(c) + c.data);
    hide FrameCrc, ToLE;
    HeaderBytes(c);
    LittleEndian4(sum);
    hide Header, Quarters;
  }

  lemma {:induction false} HeaderBytes(c: Chunk)
    requires |c.data| < 0x1_0000
    ensures var n := |c.data|;
            Header(c)
            == [0x01, c.session % 256, c.session / 256]
               + [c.offset % 256, c.offset / 256 % 256, c.offset / 0x1_0000 % 256, c.offset / 0x100_0000]
               + [n % 256, n / 256]
  {
    LittleEndian2(c.session);
    LittleEndian2(|c.data|);
    LittleEndian4(c.offset);
    QuartersAre(c.offset);
    hide ToLE, Quarters;
  }

  lemma QuartersAre(n: u32)
    ensures Quarters(n) == [n % 256, n / 256 % 256, n / 0x1_0000 % 256, n / 0x100_0000]
  {}

  /** A little-endian length. */
  function LengthAt(raw: seq<byte>): nat
    requires |raw| >= 10
  {
    var low: int, high: int := raw[8], raw[9];
    low + 256 * high
  }

  /** A buffer is undecided exactly while its header is not complete, or is one of a frame that can be and is not
      complete yet; a wrong version or length is rejected at once. */
  lemma {:induction false} IncompleteExactly(raw: seq<byte>)
    requires raw != []
    ensures ParseBinaryFrame(raw, 0).Incomplete?
       <==> |raw| < 10 || (raw[1] == 1 && 1 <= LengthAt(raw) <= 1024 && |raw| < 14 + LengthAt(raw))
  {
    hide FrameCrc;
    if |raw| >= 10 {
      FromLE2(raw[8..10]);
    }
    hide FromLE;
  }

  /** Only the bytes from the marker on matter. */
  lemma ParseFromSuffix(raw: seq<byte>, start: nat)
    requires start < |raw|
    ensures ParseBinaryFrame(raw, start) == ParseBinaryFrame(raw[start..], 0)
  {
    hide FrameCrc;
    var s := raw[start..];
    if |s| >= 1 + HEADER_BYTES {
      assert s[8..10] == raw[start + 8..start + 10];
      var length := FromLE(s[8..10]);
      if |s| >= 14 + length {
        assert s[1..10 + length] == raw[start + 1..start + 10 + length];
        assert s[10 + length..14 + length] == raw[start + 10 + length..start + 14 + length];
        assert s[2..4] == raw[start + 2..start + 4];
        assert s[4..8] == raw[start + 4..start + 8];
      }
    }
  }

  /** A decided verdict stays the same however many bytes arrive later. */
  lemma VerdictStable(raw: seq<byte>, more: seq<byte>)
    requires raw != [] && !ParseBinaryFrame(raw, 0).Incomplete?
    ensures ParseBinaryFrame(raw + more, 0) == ParseBinaryFrame(raw, 0)
  {
    hide FrameCrc;
    var s := raw + more;
    assert s[8..10] == raw[8..10];
    var length := FromLE(raw[8..10]);
    if |raw| >= 14 + length {
      assert s[1..10 + length] == raw[1..10 + length];
      assert s[10 + length..14 + length] == raw[10 + length..14 + length];
      assert s[2..4] == raw[2..4];
      assert s[4..8] == raw[4..8];
    }
  }

  /** An undecided buffer is shorter than one frame. */
  lemma IncompleteIsShort(raw: seq<byte>, start: nat)
    requires start < |raw| && ParseBinaryFrame(raw, start).Incomplete?
    ensures |raw| - start < MAX_FRAME
  {}

  // Where the fields of a frame lie in a buffer that begins with it.
  lemma Layout(header: seq<byte>, data: seq<byte>, sum: seq<byte>, rest: seq<byte>)
    requires |header| == HEADER_BYTES && |sum| == 4
    ensures var raw := [MARKER] + (header + data) + sum + rest;
            && raw[1] == header[0] && raw[2..4] == header[1..3] && raw[4..8] == header[3..7] && raw[8..10] == header[7..9]
            && raw[1..10 + |data|] == header + data
            && raw[10 + |data|..14 + |data|] == sum
  {
    var raw := [MARKER] + (header + data) + sum + rest;
    assert raw == [MARKER] + header + (data + sum + rest);
    assert raw[1..10] == header;
    assert raw == ([MARKER] + (header + data)) + sum + rest;
  }

  lemma HeaderLayout(c: Chunk)
    requires |c.data| < 0x1_0000
    ensures Header(c)[0] == VERSION && Header(c)[1..3] == ToLE(c.session, 2)
    ensures Header(c)[3..7] == ToLE(c.offset, 4) && Header(c)[7..9] == ToLE(|c.data|, 2)
  {}

  /** Decoding an encoded frame, whatever follows it, returns its fields and its exact size. */
  lemma ParseBuilt(c: Chunk, rest: seq<byte>)
    requires Sendable(c)
    ensures ParseBinaryFrame(BuildBinaryFrame(c) + rest, 0) == Frame(c, |BuildBinaryFrame(c)|)
  {
    var header := Header(c);
    var body := header + c.data;
    var sum := ToLE(FrameCrc(body), 4);
    var raw := BuildBinaryFrame(c) + rest;
    var n := |c.data|;
    Widths();
    FromLEToLE(n, 2);
    FromLEToLE(c.session, 2);
    FromLEToLE(c.offset, 4);
    FromLEToLE(FrameCrc(body), 4);
    HeaderLayout(c);
    Layout(header, c.data, sum, rest);
    hide FrameCrc, ToLE, FromLE, Header;
    assert raw == [MARKER] + body + sum + rest;
    assert body[HEADER_BYTES..] == c.data;
  }

  lemma HeaderParsed(raw: seq<byte>)
    requires raw != [] && ParseBinaryFrame(raw, 0).Frame?
    ensures Sendable(ParseBinaryFrame(raw, 0).chunk)
    ensures raw[1..10] == Header(ParseBinaryFrame(raw, 0).chunk)
  {
    hide FrameCrc;
    ToLEFromLE(raw[2..4]);
    ToLEFromLE(raw[4..8]);
    ToLEFromLE(raw[8..10]);
    assert raw[1..10] == [raw[1]] + raw[2..4] + raw[4..8] + raw[8..10];
  }

  /** Every accepted frame re-encodes to the very bytes it consumed. */
  lemma BuildParsed(raw: seq<byte>)
    requires raw != [] && raw[0] == MARKER && ParseBinaryFrame(raw, 0).Frame?
    ensures var v := ParseBinaryFrame(raw, 0);
            && Sendable(v.chunk)
            && v.size <= |raw|
            && BuildBinaryFrame(v.chunk) == raw[..v.size]
  {
    hide FrameCrc;
    HeaderParsed(raw);
    var v := ParseBinaryFrame(raw, 0);
    var n := |v.chunk.data|;
    ToLEFromLE(raw[10 + n..14 + n]);
    assert raw[1..10 + n] == raw[1..10] + v.chunk.data;
    assert raw[..v.size] == [raw[0]] + raw[1..10 + n] + raw[10 + n..14 + n];
  }

  lemma {:induction false} BadSumRejected(body: seq<byte>, trailer: seq<byte>, rest: seq<byte>)
    requires HEADER_BYTES < |body| <= HEADER_BYTES + MAX_PAYLOAD && |trailer| == 4
    requires body[7..9] == ToLE(|body| - HEADER_BYTES, 2)
    requires FrameCrc(body) != FromLE(trailer)
    ensures ParseBinaryFrame([MARKER] + body + trailer + rest, 0) == Invalid
  {
    hide FrameCrc;
    var raw := [MARKER] + body + trailer + rest;
    var n := |body| - HEADER_BYTES;
    Widths();
    FromLEToLE(n, 2);
    Layout(body[..HEADER_BYTES], body[HEADER_BYTES..], trailer, rest);
    hide FrameCrc, ToLE, FromLE;
    assert body == body[..HEADER_BYTES] + body[HEADER_BYTES..];
    assert body[7..9] == body[..HEADER_BYTES][7..9];
  }

  /** A frame hit in transit by any burst confined to four consecutive bytes between marker and checksum,
      its length bytes intact, is not a frame any more. */
  lemma DamagedFrameRejected(c: Chunk, before: seq<byte>, w: seq<byte>, v: seq<byte>, after: seq<byte>,
                             rest: seq<byte>)
    requires Sendable(c)
    requires Header(c) + c.data == before + w + after
    requires |w| == |v| <= 4 && w != v
    requires (before + v + after)[7..9] == Header(c)[7..9]
    ensures ParseBinaryFrame([MARKER] + (before + v + after) + ToLE(FrameCrc(Header(c) + c.data), 4) + rest, 0)
            == Invalid
  {
    var sent := Header(c) + c.data;
    assert |before + v + after| == |before + w + after|;
    assert Header(c)[7..9] == ToLE(|c.data|, 2);
    Widths();
    FromLEToLE(FrameCrc(sent), 4);
    BurstDetected(before, w, v, after);
    BadSumRejected(before + v + after, ToLE(FrameCrc(sent), 4), rest);
  }

  /** So is a frame whose checksum bytes alone were damaged. */
  lemma DamagedTrailerRejected(c: Chunk, trailer: seq<byte>, rest: seq<byte>)
    requires Sendable(c) && |trailer| == 4
    requires trailer != ToLE(FrameCrc(Header(c) + c.data), 4)
    ensures ParseBinaryFrame([MARKER] + (Header(c) + c.data) + trailer + rest, 0) == Invalid
  {
    ToLEFromLE(trailer);
    assert Header(c)[7..9] == ToLE(|c.data|, 2);
    BadSumRejected(Header(c) + c.data, trailer, rest);
  }
}
