/** The latency client's WebSocket frames (RFC 6455): what it sends, and how it reads frames off a socket that hands
    out bytes in arbitrary fragments. */
module WebSocketFrame {
  import opened Bytes
  import opened Options

  const TEXT_FRAME: byte := 0x81
  const MASK_BIT := 0x80

  /** The payload masked, or unmasked, as section 5.3 prescribes. */
  function Masked(data: seq<byte>, mask: seq<byte>): (r: seq<byte>)
    requires |mask| == 4
    ensures |r| == |data|
  {
    seq<byte>(|data|, i requires 0 <= i < |data| => Xor(data[i], mask[i % 4]))
  }

  /** The second header byte and the extended length of section 5.2. */
  function LengthBytes(n: nat, maskBit: nat): seq<byte>
    requires n < 0x1_0000_0000_0000_0000 && (maskBit == 0 || maskBit == MASK_BIT)
  {
    if n < 126 then [maskBit + n]
    else if n < 0x1_0000 then [maskBit + 126] + ToBE(n, 2)
    else [maskBit + 127] + ToBE(n, 8)
  }

  /** A frame: its first byte (final bit and opcode), a mask if it is masked, its payload. */
  function Encode(first: byte, mask: Option<seq<byte>>, data: seq<byte>): seq<byte>
    requires |data| < 0x1_0000_0000_0000_0000 && (mask.Some? ==> |mask.value| == 4)
  {
    match mask
    case None => [first] + LengthBytes(|data|, 0) + data
    case Some(m) => [first] + LengthBytes(|data|, MASK_BIT) + m + Masked(data, m)
  }

  /** What `_send_text` hands to the socket. */
  method SendText(data: seq<byte>, mask: seq<byte>) returns (header: seq<byte>)
    requires |data| < 0x1_0000_0000_0000_0000 && |mask| == 4
    ensures header == Encode(TEXT_FRAME, Some(mask), data)
  {
    header := [TEXT_FRAME];
    var length := |data|;
    if length < 126 {
      header := header + [0x80 + length];
    } else if length < 65536 {
      header := header + [0x80 + 126];
      header := header + ToBE(length, 2);
    } else {
      header := header + [0x80 + 127];
      header := header + ToBE(length, 8);
    }
    assert header == [TEXT_FRAME] + LengthBytes(length, MASK_BIT);
    header := header + mask;
    ghost var start := header;
    for i := 0 to |data|
      invariant header == start + Masked(data, mask)[..i]
    {
      header := header + [Xor(data[i], mask[i % 4])];
    }
    assert Masked(data, mask)[..|data|] == Masked(data, mask);
  }

  // Reading.

  datatype Frame = Closed | Frame(opcode: nat, data: seq<byte>, size: nat)

  /** How many bytes of extended length follow the second byte. */
  function Extra(second: byte): nat {
    if second % 0x80 == 126 then 2 else if second % 0x80 == 127 then 8 else 0
  }

  /** The frame at the front of a byte stream; closed when the stream ends inside it. */
  function Decode(stream: seq<byte>): (f: Frame)
    ensures f.Frame? ==> f.size <= |stream|
  {
    if |stream| < 2 then Closed
    else
      var first, second := stream[0], stream[1];
      var masked := second >= MASK_BIT;
      var extra := Extra(second);
      if |stream| < 2 + extra then Closed
      else
        var length := if extra == 0 then second % 0x80 else FromBE(stream[2..2 + extra]);
        DecodeBody(stream, first % 0x10, masked, 2 + extra + if masked then 4 else 0, length)
  }

  /** The payload, behind its mask if it is masked. */
  function DecodeBody(stream: seq<byte>, opcode: nat, masked: bool, body: nat, length: nat): (f: Frame)
    requires body >= 4 || !masked
    ensures f.Frame? ==> f.size <= |stream|
  {
    if |stream| < body + length then Closed
    else
      var data := stream[body..body + length];
      Frame(opcode, if masked then Masked(data, stream[body - 4..body]) else data, body + length)
  }

  /** What `_recv_frame` returns, or that it raised because the connection closed. */
  datatype Received = Lost | Got(opcode: nat, data: seq<byte>)

  /** A connected socket: the bytes the peer sent, and how many the next read may get. */
  class Socket {
    const incoming: seq<byte>
    const fragment: nat -> nat
    var position: nat

    constructor (incoming: seq<byte>, fragment: nat -> nat)
      ensures this.incoming == incoming && this.fragment == fragment && position == 0
    {
      this.incoming, this.fragment := incoming, fragment;
      position := 0;
    }

    /** `recv(limit)`: at least one byte unless the stream has ended, at most `limit`. */
    method Recv(limit: nat) returns (chunk: seq<byte>)
      requires position <= |incoming| && limit > 0
      modifies this
      ensures old(position) <= position <= |incoming| && chunk == incoming[old(position)..position]
      ensures |chunk| <= limit && (chunk == [] <==> old(position) == |incoming|)
    {
      var wish := if fragment(position) == 0 then 1 else fragment(position);
      var n := if wish < limit then wish else limit;
      var left := |incoming| - position;
      n := if n < left then n else left;
      chunk := incoming[position..position + n];
      position := position + n;
    }

    method RecvExact(length: nat) returns (data: Option<seq<byte>>)
      requires position <= |incoming|
      modifies this
      ensures position <= |incoming|
      ensures old(position) + length <= |incoming|
              ==> data == Some(incoming[old(position)..old(position) + length]) && position == old(position) + length
      ensures old(position) + length > |incoming| ==> data == None
    {
      var got := [];
      while |got| < length
        invariant |got| <= length && position == old(position) + |got| <= |incoming|
        invariant got == incoming[old(position)..position]
        decreases length - |got|
      {
        ghost var at := position;
        var chunk := Recv(length - |got|);
        if chunk == [] {
          return None;
        }
        assert incoming[old(position)..at] + incoming[at..position] == incoming[old(position)..position];
        got := got + chunk;
      }
      data := Some(got);
    }

    /** `_recv_frame`, whatever the fragments: the frame at the front of the unread stream. */
    method RecvFrame() returns (frame: Received)
      requires position <= |incoming|
      modifies this
      ensures position <= |incoming|
      ensures match Decode(incoming[old(position)..])
              case Closed => frame == Lost
              case Frame(opcode, data, size) => frame == Got(opcode, data) && position == old(position) + size
    {
      ghost var start := position;
      hide Decode, Masked, FromBE;
      var head := RecvExact(2);
      if head.None? {
        TooShort(incoming, start);
        return Lost;
      }
      var first, second := head.value[0], head.value[1];
      var opcode := first % 0x10;
      var masked := second >= MASK_BIT;
      var length := RecvLength(second);
      if length.None? {
        TooShort(incoming, start);
        return Lost;
      }
      DecodeParts(incoming, start, length.value);
      hide Extra;
      var mask: seq<byte> := [];
      if masked {
        var four := RecvExact(4);
        if four.None? {
          return Lost;
        }
        mask := four.value;
      }
      var data := RecvExact(length.value);
      if data.None? {
        return Lost;
      }
      frame := Got(opcode, if masked then Masked(data.value, mask) else data.value);
    }

    /** The payload length: in the second byte, or in the two or eight bytes after it. */
    method RecvLength(second: byte) returns (length: Option<nat>)
      requires position <= |incoming|
      modifies this
      ensures position <= |incoming|
      ensures var end := old(position) + Extra(second);
              if end > |incoming| then length == None
              else
                && length == Some(if Extra(second) == 0 then second % 0x80 else FromBE(incoming[old(position)..end]))
                && position == end
    {
      length := Some(second % 0x80);
      if second % 0x80 == 126 {
        var extended := RecvExact(2);
        if extended.None? {
          return None;
        }
        length := Some(FromBE(extended.value));
      } else if second % 0x80 == 127 {
        var extended := RecvExact(8);
        if extended.None? {
          return None;
        }
        length := Some(FromBE(extended.value));
      }
    }
  }

  lemma TooShort(incoming: seq<byte>, start: nat)
    requires start <= |incoming|
    requires |incoming| < start + 2 || |incoming| < start + 2 + Extra(incoming[start + 1])
    ensures Decode(incoming[start..]) == Closed
  {}

  /** The frame at `start`, by positions in the whole stream. */
  lemma DecodeParts(incoming: seq<byte>, start: nat, length: nat)
    requires start + 2 <= |incoming| && start + 2 + Extra(incoming[start + 1]) <= |incoming|
    requires var second := incoming[start + 1];
             length == if Extra(second) == 0 then second % 0x80
                       else FromBE(incoming[start + 2..start + 2 + Extra(second)])
    ensures var second := incoming[start + 1];
            var masked := second >= MASK_BIT;
            var body := start + 2 + Extra(second) + if masked then 4 else 0;
            Decode(incoming[start..])
            == if |incoming| < body + length then Closed
               else
                 var data := incoming[body..body + length];
                 Frame(incoming[start] % 0x10, if masked then Masked(data, incoming[body - 4..body]) else data,
                   body + length - start)
  {
    hide *;
    var second := incoming[start + 1];
    var body: nat := 2 + Extra(second) + if second >= MASK_BIT then 4 else 0;
    SliceOf(incoming, start, 2, 2 + Extra(second));
    HeaderAt(incoming[start..], length);
    BodyAt(incoming, start, incoming[start] % 0x10, second >= MASK_BIT, body, length);
  }

  lemma HeaderAt(stream: seq<byte>, length: nat)
    requires |stream| >= 2 && |stream| >= 2 + Extra(stream[1])
    requires length == if Extra(stream[1]) == 0 then stream[1] % 0x80 else FromBE(stream[2..2 + Extra(stream[1])])
    ensures Decode(stream)
         == DecodeBody(stream, stream[0] % 0x10, stream[1] >= MASK_BIT,
              2 + Extra(stream[1]) + if stream[1] >= MASK_BIT then 4 else 0, length)
  {
    hide FromBE, DecodeBody, Extra;
  }

  lemma BodyAt(incoming: seq<byte>, start: nat, opcode: nat, masked: bool, body: nat, length: nat)
    requires start <= |incoming| && (body >= 4 || !masked)
    ensures DecodeBody(incoming[start..], opcode, masked, body, length)
         == if |incoming| < start + body + length then Closed
            else
              var data := incoming[start + body..start + body + length];
              Frame(opcode, if masked then Masked(data, incoming[start + body - 4..start + body]) else data, body + length)
  {
    hide Masked;
    if start + body + length <= |incoming| {
      SliceOf(incoming, start, body, body + length);
      if masked {
        SliceOf(incoming, start, body - 4, body);
      }
    }
  }

  lemma SliceOf(incoming: seq<byte>, start: nat, a: int, b: int)
    requires 0 <= a <= b && start + b <= |incoming|
    ensures incoming[start..][a..b] == incoming[start + a..start + b]
  {}

  // Round trip.

  lemma MaskedTwice(data: seq<byte>, mask: seq<byte>)
    requires |mask| == 4
    ensures Masked(Masked(data, mask), mask) == data
  {
    forall i | 0 <= i < |data| ensures Masked(Masked(data, mask), mask)[i] == data[i] {
      XorTwice(data[i], mask[i % 4]);
    }
  }

  /** Where the parts of a frame lie in a stream that begins with it. */
  lemma LengthReadBack(n: nat, maskBit: nat, tail: seq<byte>)
    requires n < 0x8000_0000_0000_0000 && (maskBit == 0 || maskBit == MASK_BIT)
    ensures var bytes := LengthBytes(n, maskBit);
            var second := (bytes + tail)[0];
            var extra := Extra(second);
            && |bytes| == 1 + extra
            && (second >= MASK_BIT <==> maskBit == MASK_BIT)
            && n == if extra == 0 then second % 0x80 else FromBE((bytes + tail)[1..1 + extra])
  {
    Widths();
    var bytes := LengthBytes(n, maskBit);
    if 126 <= n < 0x1_0000 {
      FromBEToBE(n, 2);
      assert (bytes + tail)[1..3] == ToBE(n, 2);
    } else if n >= 0x1_0000 {
      FromBEToBE(n, 8);
      assert (bytes + tail)[1..9] == ToBE(n, 8);
    }
  }

  /** Reading back an encoded frame, masked or not, of any of the three length forms, whatever follows it. */
  lemma DecodeEncoded(first: byte, mask: Option<seq<byte>>, data: seq<byte>, rest: seq<byte>)
    requires |data| < 0x8000_0000_0000_0000 && (mask.Some? ==> |mask.value| == 4)
    ensures Decode(Encode(first, mask, data) + rest) == Frame(first % 0x10, data, |Encode(first, mask, data)|)
  {
    var maskBit := if mask.Some? then MASK_BIT else 0;
    var m := if mask.Some? then mask.value else [];
    var wire := if mask.Some? then Masked(data, m) else data;
    var length := LengthBytes(|data|, maskBit);
    var stream := Encode(first, mask, data) + rest;
    LengthReadBack(|data|, maskBit, m + wire + rest);
    if mask.Some? {
      MaskedTwice(data, m);
    }
    hide LengthBytes, FromBE, Masked, Xor;
    Parts(first, length, m, wire, rest);
    assert stream == [first] + length + m + wire + rest;
  }

  lemma Parts(first: byte, length: seq<byte>, m: seq<byte>, wire: seq<byte>, rest: seq<byte>)
    requires length != []
    ensures var stream := [first] + length + m + wire + rest;
            var n := 1 + |length|;
            && stream[0] == first && stream[1] == length[0] == (length + (m + wire + rest))[0]
            && stream[2..n] == (length + (m + wire + rest))[1..|length|]
            && stream[n..n + |m|] == m
            && stream[n + |m|..n + |m| + |wire|] == wire
  {
    var stream := [first] + length + m + wire + rest;
    assert stream == [first] + (length + (m + wire + rest));
    assert stream == ([first] + length) + (m + (wire + rest));
    assert stream == ([first] + length + m) + (wire + rest);
  }

  /** The shortest of the three length forms that can hold the length is used, as section 5.2 requires. */
  lemma LengthIsMinimal(n: nat, maskBit: nat)
    requires n < 0x8000_0000_0000_0000 && (maskBit == 0 || maskBit == MASK_BIT)
    ensures |LengthBytes(n, maskBit)| == if n <= 125 then 1 else if n <= 65535 then 3 else 9
  {}

  // Whole conversations.

  datatype Message = Message(data: seq<byte>, mask: seq<byte>)

  predicate Sendable(m: Message) {
    |m.data| < 0x8000_0000_0000_0000 && |m.mask| == 4
  }

  predicate AllSendable(messages: seq<Message>) {
    forall i :: 0 <= i < |messages| ==> Sendable(messages[i])
  }

  function WireOf(m: Message): seq<byte>
    requires Sendable(m)
  {
    Encode(TEXT_FRAME, Some(m.mask), m.data)
  }

  function Wire(messages: seq<Message>): seq<byte>
    requires AllSendable(messages)
  {
    if messages == [] then []
    else
      assert Sendable(messages[0]);
      WireOf(messages[0]) + Wire(messages[1..])
  }

  lemma NextMessage(messages: seq<Message>, i: nat)
    requires AllSendable(messages) && i < |messages|
    ensures Wire(messages[i..]) == WireOf(messages[i]) + Wire(messages[i + 1..])
    ensures Decode(Wire(messages[i..])) == Frame(1, messages[i].data, |WireOf(messages[i])|)
    ensures Wire(messages[i..])[|WireOf(messages[i])|..] == Wire(messages[i + 1..])
  {
    assert messages[i..][1..] == messages[i + 1..];
    DecodeEncoded(TEXT_FRAME, Some(messages[i].mask), messages[i].data, Wire(messages[i + 1..]));
    hide Encode, Decode;
  }

  /** However the socket fragments the bytes of any sequence of sent messages, reading frame after frame returns opcode
      1 and each payload in order, and then the end of the stream. */
  method ReceiveAll(messages: seq<Message>, fragment: nat -> nat)
    returns (frames: seq<Received>, last: Received)
    requires AllSendable(messages)
    ensures |frames| == |messages| && last == Lost
    ensures forall i :: 0 <= i < |messages| ==> frames[i] == Got(1, messages[i].data)
  {
    hide WireOf, Wire, Sendable;
    var socket := new Socket(Wire(messages), fragment);
    frames := [];
    assert socket.incoming[0..] == Wire(messages) && messages[0..] == messages;
    for i := 0 to |messages|
      invariant |frames| == i
      invariant socket.position <= |socket.incoming| && socket.incoming[socket.position..] == Wire(messages[i..])
      invariant forall j :: 0 <= j < i ==> frames[j] == Got(1, messages[j].data)
    {
      NextMessage(messages, i);
      hide Decode;
      ghost var at, size := socket.position, |WireOf(messages[i])|;
      var frame := socket.RecvFrame();
      assert socket.incoming[socket.position..] == socket.incoming[at..][size..];
      frames := frames + [frame];
    }
    NoMessages(messages);
    last := socket.RecvFrame();
  }

  lemma NoMessages(messages: seq<Message>)
    requires AllSendable(messages)
    ensures Wire(messages[|messages|..]) == [] && Decode([]) == Closed
  {}

  // The examples of section 5.7 of RFC 6455.

  const HELLO: seq<byte> := [0x48, 0x65, 0x6C, 0x6C, 0x6F]
  const HELLO_MASK: seq<byte> := [0x37, 0xFA, 0x21, 0x3D]

  lemma {:induction false} HelloH()
    ensures Xor(0x48, 0x37) == 0x7F
  {
    assert XorLow(0x1, 0x0, 2) == 0x1;
    assert XorLow(0x4, 0x3, 4) == 0x7;
    assert XorLow(0x12, 0xD, 6) == 0x1F;
  }

  lemma {:induction false} HelloE()
    ensures Xor(0x65, 0xFA) == 0x9F
  {
    assert XorLow(0x1, 0x3, 2) == 0x2;
    assert XorLow(0x6, 0xF, 4) == 0x9;
    assert XorLow(0x19, 0x3E, 6) == 0x27;
  }

  lemma {:induction false} HelloL()
    ensures Xor(0x6C, 0x21) == 0x4D
  {
    assert XorLow(0x1, 0x0, 2) == 0x1;
    assert XorLow(0x6, 0x2, 4) == 0x4;
    assert XorLow(0x1B, 0x8, 6) == 0x13;
  }

  lemma {:induction false} HelloSecondL()
    ensures Xor(0x6C, 0x3D) == 0x51
  {
    assert XorLow(0x1, 0x0, 2) == 0x1;
    assert XorLow(0x6, 0x3, 4) == 0x5;
    assert XorLow(0x1B, 0xF, 6) == 0x14;
  }

  lemma {:induction false} HelloO()
    ensures Xor(0x6F, 0x37) == 0x58
  {
    assert XorLow(0x1, 0x0, 2) == 0x1;
    assert XorLow(0x6, 0x3, 4) == 0x5;
    assert XorLow(0x1B, 0xD, 6) == 0x16;
  }

  /** A single-frame masked text message, and the two longer length forms. */
  lemma {:induction false} ExamplesOfTheStandard()
    ensures Encode(TEXT_FRAME, Some(HELLO_MASK), HELLO)
         == [0x81, 0x85, 0x37, 0xFA, 0x21, 0x3D, 0x7F, 0x9F, 0x4D, 0x51, 0x58]
    ensures LengthBytes(256, 0) == [0x7E, 0x01, 0x00]
    ensures LengthBytes(0x1_0000, 0) == [0x7F, 0x00, 0x00, 0x00, 0x00, 0x00, 0x01, 0x00, 0x00]
  {
    HelloH();
    HelloE();
    HelloL();
    HelloSecondL();
    HelloO();
    hide Xor;
    assert Masked(HELLO, HELLO_MASK) == [0x7F, 0x9F, 0x4D, 0x51, 0x58];
    assert ToBE(256, 2) == [0x01, 0x00];
    assert ToBE(0x1_0000, 4) == [0x00, 0x01, 0x00, 0x00];
    assert ToBE(0x1_0000, 8) == [0x00, 0x00, 0x00, 0x00, 0x00, 0x01, 0x00, 0x00];
  }
}
