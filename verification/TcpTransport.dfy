/** transport/tcpip.c: blocking loops over a socket that may transfer fewer bytes than asked. */
module TcpTransport {
  import opened Bytes
  import opened GreybusWire
  import opened Framing

  /** A buffer after `data` was copied to it at offset `at`. */
  function Filled(was: seq<byte>, at: nat, data: seq<byte>): (now: seq<byte>)
    requires at + |data| <= |was|
    ensures |now| == |was|
  {
    was[..at] + data + was[at + |data|..]
  }

  /** A connected stream socket, as far as this side sees it. */
  class Socket {
    /** Bytes the peer sends before it closes, not yet received. */
    var inbox: seq<byte>
    /** Bytes accepted by zsock_send, oldest first. */
    var outbox: seq<byte>
    /** On a reliable socket no call fails and no allocation is refused; otherwise any call may. */
    const reliable: bool

    constructor (incoming: seq<byte>, reliable: bool)
      ensures inbox == incoming && outbox == [] && this.reliable == reliable
    {
      inbox, outbox, this.reliable := incoming, [], reliable;
    }

    /** zsock_recv into buf[at..at + len]: an error, 0 at end of stream, or between 1 and len bytes. */
    method Recv(buf: array<byte>, at: nat, len: nat) returns (ret: int)
      requires 1 <= len && at + len <= buf.Length
      modifies this`inbox, buf
      ensures ret <= len && (ret < 0 ==> !reliable) && (ret == 0 ==> old(inbox) == [])
      ensures ret <= 0 ==> inbox == old(inbox) && buf[..] == old(buf[..])
      ensures ret > 0 ==> ret <= |old(inbox)| && inbox == old(inbox)[ret..]
      ensures ret > 0 ==> buf[..] == Filled(old(buf[..]), at, old(inbox)[..ret])
    {
      var fail: bool := *;
      if fail && !reliable {
        return -1;
      }
      if inbox == [] {
        return 0;
      }
      ret :| 1 <= ret <= len && ret <= |inbox|;
      ghost var was := buf[..];
      forall i | 0 <= i < ret {
        buf[at + i] := inbox[i];
      }
      assert buf[..] == Filled(was, at, inbox[..ret]);
      inbox := inbox[ret..];
    }

    /** zsock_send: an error, or between 1 and all of the bytes. */
    method Send(data: seq<byte>) returns (ret: int)
      requires data != []
      modifies this`outbox
      ensures ret < 0 ==> !reliable && outbox == old(outbox)
      ensures ret >= 0 ==> 1 <= ret <= |data| && outbox == old(outbox) + data[..ret]
    {
      var fail: bool := *;
      if fail && !reliable {
        return -1;
      }
      ret :| 1 <= ret <= |data|;
      outbox := outbox + data[..ret];
    }

    /** gb_alloc: refused only when the heap is full; unset bytes hold anything. */
    method Alloc() returns (ok: bool, pad: (byte, byte))
      ensures reliable ==> ok
    {
      var full: bool, a: byte, b: byte := *, *, *;
      return reliable || !full, (a, b);
    }
  }

  /** read_data, filling buf[at..at + len]; `got` is how many bytes it took from the socket. */
  method ReadData(sock: Socket, buf: array<byte>, at: nat, len: nat) returns (ret: int, ghost got: nat)
    requires at + len <= buf.Length
    modifies sock`inbox, buf
    ensures ret == len || ret == 0 || (ret < 0 && !sock.reliable)
    ensures got <= len && got <= |old(sock.inbox)| && sock.inbox == old(sock.inbox)[got..]
    ensures ret == len <==> got == len
    ensures ret == len ==> buf[..] == Filled(old(buf[..]), at, old(sock.inbox)[..len])
    ensures ret == 0 && len > 0 ==> got == |old(sock.inbox)| < len
  {
    ghost var stream, was := sock.inbox, buf[..];
    FilledNone(was, at);
    hide Filled;
    var received := 0;
    while received < len
      invariant 0 <= received <= len && received <= |stream|
      invariant sock.inbox == stream[received..]
      invariant buf[..] == Filled(was, at, stream[..received])
      decreases len - received
    {
      var n := sock.Recv(buf, at + received, len - received);
      if n < 0 {
        return n, received;
      } else if n == 0 {
        return 0, received;
      }
      FilledFurther(was, at, stream, received, n);
      received := received + n;
    }
    return received, received;
  }

  lemma FilledNone(was: seq<byte>, at: nat)
    requires at <= |was|
    ensures Filled(was, at, []) == was
  {
  }

  lemma FilledFurther(was: seq<byte>, at: nat, stream: seq<byte>, done: nat, n: nat)
    requires at + done + n <= |was| && done + n <= |stream|
    ensures Filled(Filled(was, at, stream[..done]), at + done, stream[done..][..n])
         == Filled(was, at, stream[..done + n])
    ensures stream[done..][n..] == stream[done + n..]
  {
    assert stream[..done + n] == stream[..done] + stream[done..][..n];
  }

  /** write_data. */
  method WriteData(sock: Socket, data: seq<byte>) returns (ret: int)
    modifies sock`outbox
    ensures ret == |data| || (ret < 0 && !sock.reliable)
    ensures ret >= 0 ==> sock.outbox == old(sock.outbox) + data
    ensures ret < 0 ==> exists k: nat :: k < |data| && sock.outbox == old(sock.outbox) + data[..k]
  {
    var transmitted := 0;
    while transmitted < |data|
      invariant 0 <= transmitted <= |data|
      invariant sock.outbox == old(sock.outbox) + data[..transmitted]
      decreases |data| - transmitted
    {
      var n := sock.Send(data[transmitted..]);
      if n < 0 {
        return n;
      }
      assert data[..transmitted] + data[transmitted..][..n] == data[..transmitted + n];
      transmitted := transmitted + n;
    }
    assert data[..transmitted] == data;
    return transmitted;
  }

  /** gb_trans_send. */
  method TransSend(sock: Socket, cport: bv16, m: Message) returns (ret: int)
    requires WellFormed(m)
    modifies sock`outbox
    ensures ret == 0 || (ret < 0 && !sock.reliable)
    ensures ret == 0 ==> sock.outbox == old(sock.outbox) + Wire(cport, m)
    ensures ret < 0 ==> exists k: nat :: k < |Wire(cport, m)| && sock.outbox == old(sock.outbox) + Wire(cport, m)[..k]
  {
    hide Le16, HeaderBytes, MessageLen;
    ghost var w := Wire(cport, m);
    var head, body := Le16(cport), MessageBytes(m);
    assert w == head + body;
    ret := WriteData(sock, head);
    if ret < 0 {
      assert forall k: nat | k < |head| :: w[..k] == head[..k];
      return;
    }
    ghost var before := sock.outbox;
    ret := WriteData(sock, body);
    if ret < 0 {
      ghost var k: nat :| k < |body| && sock.outbox == before + body[..k];
      assert w[..|head| + k] == head + body[..k];
    }
    ret := if ret < 0 then ret else 0;
  }

  /** The messages of a list, sent one after the other until one fails. */
  method SendAll(sock: Socket, cports: seq<bv16>, ms: seq<Message>) returns (ok: bool)
    requires |cports| == |ms| && forall m | m in ms :: WellFormed(m)
    modifies sock`outbox
    ensures sock.reliable ==> ok
    ensures ok ==> sock.outbox == old(sock.outbox) + WireAll(cports, ms)
    ensures !ok ==> exists k: nat ::
                      k < |WireAll(cports, ms)| && sock.outbox == old(sock.outbox) + WireAll(cports, ms)[..k]
  {
    hide Wire, WireAll, WellFormed;
    ghost var all, before := WireAll(cports, ms), sock.outbox;
    assert before + [] == before;
    WireAllNil(cports, ms);
    for i := 0 to |ms|
      invariant sock.outbox == before + WireAll(cports[..i], ms[..i])
    {
      ghost var sent, w := WireAll(cports[..i], ms[..i]), Wire(cports[i], ms[i]);
      WireAllNext(cports, ms, i);
      assert ms[i] in ms;
      var ret := TransSend(sock, cports[i], ms[i]);
      if ret < 0 {
        ghost var k: nat :| k < |w| && sock.outbox == before + sent + w[..k];
        PrefixWithin(before, sent, w, all, k);
        return false;
      }
      ConcatAssoc(before, sent, w);
    }
    assert cports[..|ms|] == cports && ms[..|ms|] == ms;
    return true;
  }

  lemma PrefixWithin<T>(before: seq<T>, sent: seq<T>, w: seq<T>, all: seq<T>, k: nat)
    requires sent + w <= all && k < |w|
    ensures |sent| + k < |all| && before + sent + w[..k] == before + all[..|sent| + k]
  {
    assert all[..|sent| + k] == sent + w[..k];
    ConcatAssoc(before, sent, w[..k]);
  }

  lemma WireAllNil(cports: seq<bv16>, ms: seq<Message>)
    requires |cports| == |ms|
    ensures WireAll(cports[..0], ms[..0]) == []
  {
  }

  lemma WireAllNext(cports: seq<bv16>, ms: seq<Message>, i: nat)
    requires |cports| == |ms| && i < |ms|
    ensures WireAll(cports[..i + 1], ms[..i + 1]) == WireAll(cports[..i], ms[..i]) + Wire(cports[i], ms[i])
    ensures WireAll(cports[..i], ms[..i]) + Wire(cports[i], ms[i]) <= WireAll(cports, ms)
  {
    hide *;
    var cs, ns := cports[..i + 1], ms[..i + 1];
    WireAllSplit(cports, ms, i + 1);
    WireAllSplit(cs, ns, i);
    assert cs[..i] == cports[..i] && ns[..i] == ms[..i] && cs[i..] == [cports[i]] && ns[i..] == [ms[i]];
    WireAllOne(cports[i], ms[i]);
  }

  lemma {:induction false} WireAllSplit(cports: seq<bv16>, ms: seq<Message>, i: nat)
    requires |cports| == |ms| && i <= |ms|
    ensures WireAll(cports, ms) == WireAll(cports[..i], ms[..i]) + WireAll(cports[i..], ms[i..])
    decreases i
  {
    hide Wire;
    if i == 0 {
      assert cports[0..] == cports && ms[0..] == ms;
    } else {
      WireAllSplit(cports[1..], ms[1..], i - 1);
      assert cports[1..][..i - 1] == cports[..i][1..] && ms[1..][..i - 1] == ms[..i][1..];
      assert cports[1..][i - 1..] == cports[i..] && ms[1..][i - 1..] == ms[i..];
      ConcatAssoc(Wire(cports[0], ms[0]), WireAll(cports[..i][1..], ms[..i][1..]), WireAll(cports[i..], ms[i..]));
    }
  }

  lemma WireAllOne(cport: bv16, m: Message)
    ensures WireAll([cport], [m]) == Wire(cport, m)
  {
    hide Wire;
    assert WireAll([cport][1..], [m][1..]) == [];
    assert Wire(cport, m) + [] == Wire(cport, m);
  }

  /** The packet a delivery stands for. */
  function PacketIn(d: Delivery): Packet
    requires |d.raw| >= HEADER_SIZE
  {
    var h := ParseHeader(d.raw);
    Packet(d.cport, h.kind, h.operationId, h.result, d.raw[HEADER_SIZE..])
  }

  function PacketsIn(ds: seq<Delivery>): (ps: seq<Packet>)
    requires forall d <- ds :: |d.raw| >= HEADER_SIZE
  {
    seq(|ds|, i requires 0 <= i < |ds| => PacketIn(ds[i]))
  }

  /** The source trusts every header to announce at least its own eight bytes. */
  predicate SaneHead(s: seq<byte>) {
    |s| >= PREFIX ==> Announced(s) >= PREFIX
  }

  predicate Sane(s: seq<byte>)
    decreases |s|
  {
    SaneHead(s) && (Complete(s) ==> Sane(s[Announced(s)..]))
  }

  /** read_data into a buffer of its own. */
  method ReadNew(sock: Socket, len: nat) returns (buf: array<byte>, ret: int, ghost got: nat)
    modifies sock`inbox
    ensures fresh(buf) && buf.Length == len
    ensures ret == len || ret == 0 || (ret < 0 && !sock.reliable)
    ensures got <= len && got <= |old(sock.inbox)| && sock.inbox == old(sock.inbox)[got..]
    ensures ret == len <==> got == len
    ensures ret == len ==> buf[..] == old(sock.inbox)[..len]
    ensures ret == 0 && len > 0 ==> got == |old(sock.inbox)| < len
  {
    FilledWhole(if len <= |sock.inbox| then sock.inbox[..len] else []);
    hide Filled;
    buf := new byte[len];
    ret, got := ReadData(sock, buf, 0, len);
  }

  lemma FilledWhole(data: seq<byte>)
    ensures forall was: seq<byte> :: |was| == |data| ==> Filled(was, 0, data) == data
  {
  }

  /**
   What is left of a stream after a receive that failed with `used` bytes taken: nothing when the peer has closed,
   and otherwise less than the first message is gone, or all of it when it has no payload.
   */
  predicate CutOff(s: seq<byte>, used: nat, closed: bool) {
    && used <= |s|
    && (closed ==> !Complete(s) && used == |s|)
    && (Complete(s) ==> used < Announced(s) || used == Announced(s) == PREFIX)
  }

  /**
   gb_message_receive, with what it took off the stream. On a reliable socket: the first message if a whole one
   comes before the peer closes, otherwise the closed flag with everything consumed.
   */
  method MessageReceive(sock: Socket) returns (msg: Option<(bv16, Message)>, closed: bool, ghost used: nat)
    requires SaneHead(sock.inbox)
    modifies sock`inbox
    ensures used <= |old(sock.inbox)| && sock.inbox == old(sock.inbox)[used..]
    ensures msg.Some? ==>
              && !closed && Complete(old(sock.inbox)) && used == Announced(old(sock.inbox))
              && WellFormed(msg.value.1)
              && PacketOf(msg.value.0, msg.value.1) == PacketIn(First(old(sock.inbox)))
    ensures msg.None? ==> CutOff(old(sock.inbox), used, closed)
    ensures sock.reliable ==> (msg.Some? <==> Complete(old(sock.inbox))) && (closed <==> msg.None?)
  {
    hide ParseHeader, MessageLen, FromLe16, Allocated, First, Announced, Complete, WellFormed, PacketOf, PacketIn,
         CutOff;
    ghost var s := sock.inbox;
    ShortHead(s);
    var cport, ret, got := ReadNew(sock, CPORT_SIZE);
    if ret != CPORT_SIZE {
      CutInHead(s, got, ret == 0);
      return None, ret == 0, got;
    }
    var hdr;
    hdr, ret, got := ReadNew(sock, HEADER_SIZE);
    DropTwice(s, CPORT_SIZE, got);
    if ret != HEADER_SIZE {
      CutInHead(s, CPORT_SIZE + got, ret == 0);
      return None, ret == 0, CPORT_SIZE + got;
    }
    var h := ParseHeader(hdr[..]);
    HeadAnnounces(s);
    var n := MessageLen(h) - HEADER_SIZE;
    var ok, pad := sock.Alloc();
    if !ok {
      CutInPayload(s, PREFIX, false);
      return None, false, PREFIX;
    }
    var payload;
    payload, ret, got := ReadNew(sock, n);
    DropTwice(s, PREFIX, got);
    if ret != n {
      CutInPayload(s, PREFIX + got, ret == 0);
      return None, ret == 0, PREFIX + got;
    }
    Received(s, cport[0], cport[1], payload[..], pad);
    return Some((FromLe16(cport[0], cport[1]), Allocated(payload[..], h, pad))), false, PREFIX + n;
  }

  lemma CutInHead(s: seq<byte>, used: nat, closed: bool)
    requires used < PREFIX && used <= |s| && SaneHead(s) && (closed ==> used == |s|)
    ensures CutOff(s, used, closed) && (closed ==> !Complete(s))
  {
    ShortHead(s);
    hide Complete, Announced;
  }

  lemma CutInPayload(s: seq<byte>, used: nat, closed: bool)
    requires PREFIX <= used <= |s| && SaneHead(s)
    requires used < Announced(s) || (used == PREFIX && !closed)
    requires closed ==> used == |s|
    ensures CutOff(s, used, closed) && (closed ==> !Complete(s))
  {
    HeadAnnounces(s);
    hide Complete, Announced;
  }

  lemma DropTwice(s: seq<byte>, i: nat, j: nat)
    requires i + j <= |s|
    ensures s[i..][j..] == s[i + j..] && s[i..][..j] == s[i..i + j]
  {
  }

  lemma ShortHead(s: seq<byte>)
    ensures |s| < PREFIX ==> !Complete(s)
    ensures Complete(s) ==> |s| >= PREFIX
    ensures Complete(s) && SaneHead(s) ==> Announced(s) >= PREFIX
  {
    hide MessageLen, ParseHeader;
  }

  lemma HeadAnnounces(s: seq<byte>)
    requires |s| >= PREFIX && SaneHead(s)
    ensures Announced(s) == CPORT_SIZE + MessageLen(ParseHeader(s[CPORT_SIZE..PREFIX])) >= PREFIX
    ensures Complete(s) <==> |s| >= Announced(s)
  {
    hide MessageLen, ParseHeader;
  }

  /** What was read is the first message of the stream. */
  lemma Received(s: seq<byte>, lo: byte, hi: byte, payload: seq<byte>, pad: (byte, byte))
    requires Complete(s) && Announced(s) >= PREFIX
    requires lo == s[0] && hi == s[1] && payload == s[PREFIX..Announced(s)]
    requires |payload| == MessageLen(ParseHeader(s[CPORT_SIZE..PREFIX])) - HEADER_SIZE
    ensures var h := ParseHeader(s[CPORT_SIZE..PREFIX]);
            && |First(s).raw| >= HEADER_SIZE && WellFormed(Allocated(payload, h, pad))
            && PacketOf(FromLe16(lo, hi), Allocated(payload, h, pad)) == PacketIn(First(s))
  {
    hide MessageLen, ParseHeader, FromLe16, Allocated;
    FirstFields(s);
    AllocatedWellFormed(payload, ParseHeader(s[CPORT_SIZE..PREFIX]), pad);
  }

  lemma FirstFields(s: seq<byte>)
    requires Complete(s) && Announced(s) >= PREFIX
    ensures |First(s).raw| == Announced(s) - CPORT_SIZE
    ensures ParseHeader(First(s).raw) == ParseHeader(s[2..10])
    ensures First(s).raw[HEADER_SIZE..] == s[10..Announced(s)]
  {
    hide MessageLen, FromLe16;
  }

  lemma SaneUnfold(s: seq<byte>)
    requires Sane(s)
    ensures SaneHead(s)
    ensures Complete(s) ==> Sane(s[Announced(s)..]) && |First(s).raw| >= HEADER_SIZE
  {
    hide MessageLen, ParseHeader, FromLe16;
  }

  lemma SaneNil()
    ensures Sane([]) && !Complete([])
  {
  }

  lemma {:induction false} SaneDrain(s: seq<byte>)
    requires Sane(s)
    ensures forall d <- Drain(s).0 :: |d.raw| >= HEADER_SIZE
    decreases |s|
  {
    hide First, Announced, Drain, Sane, SaneHead;
    SaneUnfold(s);
    if Complete(s) {
      DrainOne(s);
      SaneDrain(s[Announced(s)..]);
    } else {
      DrainNone(s);
    }
  }

  /**
   What gb_trans_rx_thread_handler hands up from one connection: the list the ring-buffer parser takes off the
   same bytes.
   */
  method ReceiveUntilClosed(sock: Socket) returns (handled: seq<Packet>)
    requires sock.reliable && Sane(sock.inbox)
    modifies sock`inbox
    ensures forall d <- Drain(old(sock.inbox)).0 :: |d.raw| >= HEADER_SIZE
    ensures handled == PacketsIn(Drain(old(sock.inbox)).0)
  {
    hide First, Announced, Drain, PacketIn, PacketOf, Sane, SaneHead;
    ghost var s := sock.inbox;
    SaneDrain(s);
    handled := [];
    var closed := false;
    while !closed
      invariant Sane(sock.inbox)
      invariant forall d <- Drain(sock.inbox).0 :: |d.raw| >= HEADER_SIZE
      invariant PacketsIn(Drain(s).0) == handled + if closed then [] else PacketsIn(Drain(sock.inbox).0)
      decreases |sock.inbox|, if closed then 0 else 1
    {
      ghost var now := sock.inbox;
      var msg;
      SaneUnfold(now);
      ghost var used;
      msg, closed, used := MessageReceive(sock);
      if msg.Some? {
        handled := handled + [PacketOf(msg.value.0, msg.value.1)];
        DrainOne(now);
        SaneDrain(sock.inbox);
        var ds := Drain(sock.inbox).0;
        assert PacketsIn([First(now)] + ds) == [PacketIn(First(now))] + PacketsIn(ds);
      } else {
        SaneNil();
        DrainNone(now);
        DrainNone(sock.inbox);
      }
    }
  }

  /**
   Stream equivalence: whatever was sent with TransSend, message by message, is what both receivers hand up:
   ReceiveUntilClosed as these packets, the ring-buffer parser as deliveries that stand for these packets.
   */
  lemma {:induction false} StreamEquivalence(cports: seq<bv16>, ms: seq<Message>)
    requires |cports| == |ms| && forall m | m in ms :: WellFormed(m)
    ensures Sane(WireAll(cports, ms))
    ensures Drain(WireAll(cports, ms)) == (Deliveries(cports, ms), [])
    ensures forall d <- Deliveries(cports, ms) :: |d.raw| >= HEADER_SIZE
    ensures PacketsIn(Deliveries(cports, ms)) == seq(|ms|, i requires 0 <= i < |ms| => PacketOf(cports[i], ms[i]))
    decreases |ms|
  {
    hide First, Announced, Complete, Drain, Wire, WellFormed, MessageBytes, PacketOf, ParseHeader, FromLe16;
    PrefixDrains(cports, ms, WireAll(cports, ms));
    forall i | 0 <= i < |ms|
      ensures |MessageBytes(ms[i])| >= HEADER_SIZE
      ensures PacketIn(Delivery(cports[i], MessageBytes(ms[i]))) == PacketOf(cports[i], ms[i])
    {
      MessagePacket(cports[i], ms[i]);
    }
    if ms == [] {
      SaneNil();
    } else {
      var rest := WireAll(cports[1..], ms[1..]);
      StreamEquivalence(cports[1..], ms[1..]);
      SaneCons(cports[0], ms[0], rest);
    }
  }

  lemma MessagePacket(cport: bv16, m: Message)
    requires WellFormed(m)
    ensures |MessageBytes(m)| >= HEADER_SIZE
    ensures PacketIn(Delivery(cport, MessageBytes(m))) == PacketOf(cport, m)
  {
    ParseHeaderInverts(m.header, m.payload);
    hide ParseHeader, HeaderBytes;
    assert MessageBytes(m)[HEADER_SIZE..] == m.payload;
  }

  lemma SaneCons(cport: bv16, m: Message, rest: seq<byte>)
    requires WellFormed(m) && Sane(rest)
    ensures Sane(Wire(cport, m) + rest)
  {
    WireComplete(cport, m, rest);
    hide First, Announced, Complete, MessageLen, ParseHeader;
    assert |Wire(cport, m)| == PREFIX + |m.payload|;
  }
}
