/** The Greybus operation message as it lies in memory and travels: 16-bit cport, 8-byte header, payload. */
module GreybusWire {
  import opened Bytes

  const HEADER_SIZE := 8
  const CPORT_SIZE := 2

  /** struct gb_operation_msg_hdr, every field in host order. */
  datatype Header = Header(size: bv16, operationId: bv16, kind: byte, result: byte, pad: (byte, byte))

  datatype Message = Message(header: Header, payload: seq<byte>)

  /** What the round trips promise to preserve: everything but the pad bytes and the redundant size. */
  datatype Packet = Packet(cport: bv16, kind: byte, operationId: bv16, result: byte, payload: seq<byte>)

  /** gb_hdr_message_len. */
  function MessageLen(h: Header): (n: nat)
    ensures n < 0x10000
  {
    h.size as int
  }

  predicate WellFormed(m: Message) {
    MessageLen(m.header) == HEADER_SIZE + |m.payload|
  }

  function HeaderBytes(h: Header): (s: seq<byte>)
    ensures |s| == HEADER_SIZE
  {
    Le16(h.size) + Le16(h.operationId) + [h.kind, h.result, h.pad.0, h.pad.1]
  }

  function ParseHeader(s: seq<byte>): Header
    requires |s| >= HEADER_SIZE
  {
    Header(FromLe16(s[0], s[1]), FromLe16(s[2], s[3]), s[4], s[5], (s[6], s[7]))
  }

  function MessageBytes(m: Message): seq<byte> {
    HeaderBytes(m.header) + m.payload
  }

  /** The framing every stream transport uses. */
  function Wire(cport: bv16, m: Message): seq<byte> {
    Le16(cport) + MessageBytes(m)
  }

  function PacketOf(cport: bv16, m: Message): (p: Packet)
    ensures p.cport == cport && p.payload == m.payload
    ensures p.kind == m.header.kind && p.operationId == m.header.operationId && p.result == m.header.result
  {
    Packet(cport, m.header.kind, m.header.operationId, m.header.result, m.payload)
  }

  /** gb_message_alloc followed by filling the payload; the pad bytes are whatever the heap held. */
  function Allocated(payload: seq<byte>, h: Header, pad: (byte, byte)): Message
    requires MessageLen(h) == HEADER_SIZE + |payload|
  {
    Message(Header((HEADER_SIZE + |payload|) as bv16, h.operationId, h.kind, h.result, pad), payload)
  }

  lemma ParseHeaderInverts(h: Header, rest: seq<byte>)
    ensures ParseHeader(HeaderBytes(h) + rest) == h
  {
    Le16RoundTrip(h.size);
    Le16RoundTrip(h.operationId);
    hide Le16, FromLe16;
    var s := HeaderBytes(h) + rest;
    assert |Le16(h.size)| == 2 && |Le16(h.operationId)| == 2;
    assert s[0] == Le16(h.size)[0] && s[1] == Le16(h.size)[1];
    assert s[2] == Le16(h.operationId)[0] && s[3] == Le16(h.operationId)[1];
  }

  lemma AllocatedWellFormed(payload: seq<byte>, h: Header, pad: (byte, byte))
    requires MessageLen(h) == HEADER_SIZE + |payload|
    ensures Allocated(payload, h, pad) == Message(h.(pad := pad), payload)
    ensures WellFormed(Allocated(payload, h, pad))
  {
  }

  lemma PrefixSlices<T>(a: seq<T>, b: seq<T>, c: seq<T>, rest: seq<T>)
    ensures var s := a + (b + c) + rest;
            var i, j, n := |a|, |a| + |b|, |a| + |b| + |c|;
            && s[..i] == a && s[i..j] == b && s[j..n] == c && s[i..n] == b + c
            && s[..n] == a + (b + c) && s[n..] == rest && s[i..] == b + (c + rest)
  {
  }

  /** Everything a receiver reads from the front of a stream that starts with one framed message. */
  lemma WireFields(cport: bv16, m: Message, rest: seq<byte>)
    requires WellFormed(m)
    ensures var s := Wire(cport, m) + rest;
            var n := CPORT_SIZE + MessageLen(m.header);
            && |Wire(cport, m)| == n
            && FromLe16(s[0], s[1]) == cport
            && ParseHeader(s[2..]) == m.header
            && ParseHeader(s[2..10]) == m.header
            && s[2..n] == MessageBytes(m)
            && s[10..n] == m.payload
            && s[..n] == Wire(cport, m) && s[n..] == rest
  {
    Le16RoundTrip(cport);
    hide Le16, FromLe16, ParseHeader, HeaderBytes, MessageLen;
    var h := HeaderBytes(m.header);
    var s := Wire(cport, m) + rest;
    assert s == Le16(cport) + (h + m.payload) + rest;
    PrefixSlices(Le16(cport), h, m.payload, rest);
    ParseHeaderInverts(m.header, m.payload + rest);
    ParseHeaderInverts(m.header, []);
    assert h + [] == h;
    assert s[..2][0] == s[0] && s[..2][1] == s[1];
  }

  /** Two bytes hold this number, low byte first. */
  predicate LittleEndian(lo: byte, hi: byte, n: bv16) {
    (hi as bv16) * 256 + (lo as bv16) == n
  }

  lemma Le16LittleEndian(w: bv16)
    ensures LittleEndian(Le16(w)[0], Le16(w)[1], w)
  {
  }

  lemma FromLe16LittleEndian(lo: byte, hi: byte)
    ensures LittleEndian(lo, hi, FromLe16(lo, hi))
  {
  }

  /** A framed message, byte by byte: cport, size, operation id, type, result, two pad bytes, payload. */
  lemma WireLayout(cport: bv16, m: Message)
    ensures var s := Wire(cport, m);
            && |s| == 10 + |m.payload|
            && LittleEndian(s[0], s[1], cport)
            && LittleEndian(s[2], s[3], m.header.size)
            && LittleEndian(s[4], s[5], m.header.operationId)
            && s[6] == m.header.kind && s[7] == m.header.result
            && s[8] == m.header.pad.0 && s[9] == m.header.pad.1
            && s[10..] == m.payload
  {
    Le16LittleEndian(cport);
    Le16LittleEndian(m.header.size);
    Le16LittleEndian(m.header.operationId);
    hide Le16, LittleEndian;
    var h := HeaderBytes(m.header);
    assert Wire(cport, m) == Le16(cport) + h + m.payload;
  }

  /** The header a receiver reads off eight bytes. */
  lemma HeaderLayout(s: seq<byte>)
    requires |s| >= 8
    ensures var h := ParseHeader(s);
            && LittleEndian(s[0], s[1], h.size) && LittleEndian(s[2], s[3], h.operationId)
            && h.kind == s[4] && h.result == s[5] && h.pad == (s[6], s[7])
  {
    FromLe16LittleEndian(s[0], s[1]);
    FromLe16LittleEndian(s[2], s[3]);
    hide FromLe16, LittleEndian;
  }
}
