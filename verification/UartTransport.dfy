/** transport/uart.c: a Greybus message inside one HDLC frame, and back. */
module UartTransport {
  import opened Bytes
  import opened HdlcFormat
  import opened HdlcReceiver
  import opened HdlcLink
  import opened HdlcDriver
  import opened GreybusWire

  const ADDRESS_GREYBUS: byte := 0x01

  /** Why hdlc_process_frame_cb refuses a frame. */
  datatype Received = Delivered(cport: bv16, message: Message) | TooShort | NoMemory

  /** gb_message_hdlc_send: three memcpy calls into a block-sized local buffer, then one block sent. */
  method MessageHdlcSend(driver: Driver, m: Message, cport: bv16)
    requires WellFormed(m) && MessageLen(m.header) + CPORT_SIZE <= MAX_BLOCK
    modifies driver`line
    ensures driver.line == old(driver.line) + Encode(Frame(ADDRESS_GREYBUS, Wire(cport, m)))
  {
    hide Encode, Le16, HeaderBytes, MessageLen;
    var n := MessageLen(m.header) + CPORT_SIZE;
    var buffer := new byte[MAX_BLOCK];
    Copy(buffer, 0, Le16(cport));
    Copy(buffer, CPORT_SIZE, HeaderBytes(m.header));
    assert buffer[..CPORT_SIZE] == Le16(cport);
    Copy(buffer, CPORT_SIZE + HEADER_SIZE, m.payload);
    assert buffer[..n] == buffer[..2] + buffer[2..10] + buffer[10..n];
    assert buffer[..n] == Wire(cport, m);
    driver.BlockSendSync(buffer[..n], ADDRESS_GREYBUS);
  }

  /** memcpy(&buffer[at], src, |src|). */
  method Copy(buffer: array<byte>, at: nat, src: seq<byte>)
    requires at + |src| <= buffer.Length
    modifies buffer
    ensures buffer[..] == old(buffer[..at]) + src + old(buffer[at + |src|..])
    ensures buffer[..at] == old(buffer[..at]) && buffer[at..at + |src|] == src
  {
    forall i | 0 <= i < |src| {
      buffer[at + i] := src[i];
    }
  }

  /** What a frame means as a Greybus message: nothing when its header announces more than arrived. */
  function PacketIn(f: Frame): Option<Packet>
    requires Readable(f)
  {
    var h := ParseHeader(f.payload[2..]);
    if MessageLen(h) > |f.payload| - CPORT_SIZE then None
    else
      Some(Packet(FromLe16(f.payload[0], f.payload[1]), h.kind, h.operationId, h.result,
                  f.payload[10..CPORT_SIZE + MessageLen(h)]))
  }

  /**
   hdlc_process_frame_cb. The source reads a header without checking that one arrived or that its size
   covers the header; both are asked of the frame here. Whether the allocation succeeds and what its unset
   bytes hold are inputs.
   */
  method ProcessFrameCb(f: Frame, heapOk: bool, pad: (byte, byte)) returns (r: Received)
    requires Readable(f)
    ensures r.TooShort? <==> PacketIn(f).None?
    ensures r.NoMemory? <==> PacketIn(f).Some? && !heapOk
    ensures r.Delivered? ==> WellFormed(r.message) && PacketIn(f) == Some(PacketOf(r.cport, r.message))
  {
    hide FromLe16, ParseHeader, MessageLen, Allocated;
    var h := ParseHeader(f.payload[2..]);
    var len := |f.payload| - CPORT_SIZE;
    if MessageLen(h) > len {
      return TooShort;
    }
    if !heapOk {
      return NoMemory;
    }
    var cport := FromLe16(f.payload[0], f.payload[1]);
    var payload := f.payload[10..CPORT_SIZE + MessageLen(h)];
    AllocatedWellFormed(payload, h, pad);
    return Delivered(cport, Allocated(payload, h, pad));
  }

  /** The whole path for a list of messages: serialise, encode, any chunking of the line, decode. */
  lemma GreybusOverHdlc(cports: seq<bv16>, ms: seq<Message>, chunks: seq<seq<byte>>)
    requires |cports| == |ms|
    requires forall i :: 0 <= i < |ms| ==> WellFormed(ms[i]) && MessageLen(ms[i].header) + CPORT_SIZE <= MAX_PAYLOAD
    requires Flatten(chunks) == EncodeAll(FramesOf(cports, ms))
    ensures RunChunks(CLEAN, chunks) == (CLEAN, FramesOf(cports, ms))
    ensures forall i :: 0 <= i < |ms| ==> Carries(FramesOf(cports, ms)[i], cports[i], ms[i])
    ensures PacketsIn(RunChunks(CLEAN, chunks).1) == PacketsSent(cports, ms)
  {
    hide Wire, ParseHeader, FromLe16, MessageLen, WellFormed, PacketIn;
    var fs := FramesOf(cports, ms);
    forall i | 0 <= i < |ms|
      ensures |fs[i].payload| <= MAX_PAYLOAD && Carries(fs[i], cports[i], ms[i])
      ensures Readable(fs[i]) && PacketIn(fs[i]) == Some(PacketOf(cports[i], ms[i]))
    {
      CarriesWire(cports[i], ms[i]);
      CarriedPacket(fs[i], cports[i], ms[i]);
    }
    LinkRoundTrip(fs, chunks);
    assert PacketsIn(fs) == PacketsSent(cports, ms);
    hide *;
  }

  function FramesOf(cports: seq<bv16>, ms: seq<Message>): (fs: seq<Frame>)
    requires |cports| == |ms|
  {
    seq(|ms|, i requires 0 <= i < |ms| => Frame(ADDRESS_GREYBUS, Wire(cports[i], ms[i])))
  }

  /** A frame from which the callback reads back exactly this message. */
  predicate Carries(f: Frame, cport: bv16, m: Message) {
    && |f.payload| == CPORT_SIZE + MessageLen(m.header)
    && |f.payload| >= CPORT_SIZE + HEADER_SIZE
    && f.address == ADDRESS_GREYBUS
    && FromLe16(f.payload[0], f.payload[1]) == cport
    && ParseHeader(f.payload[2..]) == m.header
    && f.payload[10..] == m.payload
  }

  /** What the callback asks of a frame before it looks at the announced length. */
  predicate Readable(f: Frame) {
    |f.payload| >= CPORT_SIZE + HEADER_SIZE && HEADER_SIZE <= MessageLen(ParseHeader(f.payload[2..]))
  }

  lemma CarriedPacket(f: Frame, cport: bv16, m: Message)
    requires WellFormed(m) && Carries(f, cport, m)
    ensures Readable(f) && PacketIn(f) == Some(PacketOf(cport, m))
  {
    hide ParseHeader, FromLe16, MessageLen;
    assert f.payload[10..CPORT_SIZE + MessageLen(m.header)] == f.payload[10..];
  }

  /** The packets read out of a list of frames, with memory for each. */
  function PacketsIn(fs: seq<Frame>): (ps: seq<Option<Packet>>)
    ensures |ps| == |fs|
  {
    seq(|fs|, i requires 0 <= i < |fs| => if Readable(fs[i]) then PacketIn(fs[i]) else None)
  }

  function PacketsSent(cports: seq<bv16>, ms: seq<Message>): (ps: seq<Option<Packet>>)
    requires |cports| == |ms|
    ensures |ps| == |ms|
  {
    seq(|ms|, i requires 0 <= i < |ms| => Some(PacketOf(cports[i], ms[i])))
  }

  lemma CarriesWire(cport: bv16, m: Message)
    requires WellFormed(m)
    ensures Carries(Frame(ADDRESS_GREYBUS, Wire(cport, m)), cport, m)
  {
    WireFields(cport, m, []);
    hide Wire, ParseHeader, FromLe16, MessageLen;
    assert Wire(cport, m) + [] == Wire(cport, m);
  }

  /** The frame of a message, byte by byte: address 1, control field 3, then the framed message. */
  lemma GreybusFrameLayout(cport: bv16, m: Message)
    ensures var f := Frame(ADDRESS_GREYBUS, Wire(cport, m));
            var b := Body(f);
            && |b| == 14 + |m.payload| && b[0] == 1 && b[1] == 3
            && LittleEndian(b[2], b[3], cport) && b[8] == m.header.kind && b[9] == m.header.result
            && b[12..12 + |m.payload|] == m.payload
  {
    WireLayout(cport, m);
    hide Wire, LittleEndian;
    var w := Wire(cport, m);
    var b := Body(Frame(ADDRESS_GREYBUS, w));
    assert b[2..2 + |w|] == w;
    assert forall i :: 0 <= i < |w| ==> b[2 + i] == w[i];
    assert b[12..12 + |m.payload|] == w[10..];
  }

  /** The packet in a frame, byte by byte. */
  lemma PacketLayout(f: Frame)
    requires Readable(f) && PacketIn(f).Some?
    ensures var p := PacketIn(f).value;
            && LittleEndian(f.payload[0], f.payload[1], p.cport)
            && LittleEndian(f.payload[4], f.payload[5], p.operationId)
            && p.kind == f.payload[6] && p.result == f.payload[7]
            && 10 + |p.payload| <= |f.payload| && p.payload == f.payload[10..10 + |p.payload|]
  {
    hide *;
    PacketFields(f);
    var h := f.payload[2..];
    FromLe16LittleEndian(f.payload[0], f.payload[1]);
    HeaderLayout(h);
    assert h[2] == f.payload[4] && h[3] == f.payload[5] && h[4] == f.payload[6] && h[5] == f.payload[7];
  }

  lemma PacketFields(f: Frame)
    requires Readable(f) && PacketIn(f).Some?
    ensures |f.payload| >= 10
    ensures var p, h := PacketIn(f).value, ParseHeader(f.payload[2..]);
            && p.cport == FromLe16(f.payload[0], f.payload[1])
            && p.kind == h.kind && p.operationId == h.operationId && p.result == h.result
            && 10 + |p.payload| <= |f.payload| && p.payload == f.payload[10..10 + |p.payload|]
  {
    hide FromLe16, ParseHeader, MessageLen;
  }
}
