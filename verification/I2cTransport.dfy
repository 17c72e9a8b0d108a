/** transport/i2c.c: bytes arrive one by one in a bounded ring, a work item takes whole messages out of it. */
module I2cTransport {
  import opened Bytes
  import opened GreybusWire
  import opened Framing

  const PIPE_LEN := 256

  datatype TakeResult = Taken(d: Delivery) | NoData | NoMemory

  class RxRing {
    /** Contents of rx_buf, oldest first. */
    var ring: seq<byte>
    /** Messages passed to greybus_rx_handler, oldest first. */
    var handled: seq<Delivery>

    ghost predicate Valid()
      reads this
    {
      |ring| <= PIPE_LEN
    }

    constructor ()
      ensures Valid() && ring == [] && handled == []
    {
      ring, handled := [], [];
    }

    /** i2c_target_write_received_cb: a byte that does not fit is dropped. */
    method WriteReceived(b: byte) returns (ok: bool)
      requires Valid()
      modifies this`ring
      ensures Valid() && ok == (|old(ring)| < 256)
      ensures ring == if ok then old(ring) + [b] else old(ring)
    {
      ok := |ring| < PIPE_LEN;
      if ok {
        ring := ring + [b];
      }
    }

    /** gb_msg_rx_take, with the outcome of the allocation as a parameter. */
    method RxTake(heapOk: bool) returns (r: TakeResult)
      requires Valid()
      modifies this`ring
      ensures Valid()
      ensures r.NoData? <==> !Complete(old(ring))
      ensures r.NoMemory? <==> Complete(old(ring)) && !heapOk
      ensures !r.Taken? ==> ring == old(ring)
      ensures r.Taken? ==> r.d == First(old(ring)) && ring == old(ring)[Announced(old(ring))..]
    {
      hide ParseHeader, MessageLen, FromLe16;
      if |ring| < PREFIX {
        return NoData;
      }
      var hdr := ring[..PREFIX];
      assert hdr[2..10] == ring[2..10];
      var dataLen := MessageLen(ParseHeader(hdr[2..10]));
      if |ring| < CPORT_SIZE + dataLen {
        return NoData;
      }
      if !heapOk {
        return NoMemory;
      }
      var cport := FromLe16(hdr[0], hdr[1]);
      ring := ring[CPORT_SIZE..];
      var raw := ring[..dataLen];
      ring := ring[dataLen..];
      return Taken(Delivery(cport, raw));
    }

    /**
     gb_msg_process_cb, with the number of allocations that succeed before one fails. The loop ends; with
     enough memory it ends with less than one whole message left.
     */
    method ProcessCb(allocations: nat)
      requires Valid()
      modifies this`ring, this`handled
      ensures Valid() && handled == old(handled) + Taking(old(ring), allocations).0
      ensures ring == Taking(old(ring), allocations).1
    {
      hide Complete, First, Announced;
      var left := allocations;
      var r := RxTake(left > 0);
      while r.Taken?
        invariant Valid()
        invariant 0 <= left <= allocations && (r.Taken? ==> left > 0)
        invariant var (ds, rest) := Taking(ring, if r.Taken? then left - 1 else 0);
                  && handled + (if r.Taken? then [r.d] + ds else []) == old(handled) + Taking(old(ring), allocations).0
                  && (if r.Taken? then rest else ring) == Taking(old(ring), allocations).1
        decreases left, if r.Taken? then 1 else 0
      {
        handled := handled + [r.d];
        left := left - 1;
        r := RxTake(left > 0);
      }
    }
  }

  /**
   The pipe the host reads from; a write blocks until everything is in, or the pipe is closed after `room` more
   bytes.
   */
  class TxPipe {
    var written: seq<byte>
    var room: nat

    constructor (room: nat)
      ensures written == [] && this.room == room
    {
      written, this.room := [], room;
    }

    method Write(data: seq<byte>) returns (n: nat)
      modifies this
      ensures n == (if |data| <= old(room) then |data| else old(room)) && room == old(room) - n
      ensures written == old(written) + data[..n]
    {
      n := if |data| <= room then |data| else room;
      written, room := written + data[..n], room - n;
    }

    /** gb_trans_send: success means the whole frame was written, failure what the pipe still took of it. */
    method TransSend(cport: bv16, m: Message) returns (ok: bool)
      requires WellFormed(m)
      modifies this
      ensures ok <==> |Wire(cport, m)| <= old(room)
      ensures written == old(written) + if ok then Wire(cport, m) else Wire(cport, m)[..old(room)]
    {
      hide Le16, HeaderBytes, MessageLen;
      var w := Wire(cport, m);
      var head, body := Le16(cport), MessageBytes(m);
      assert w == head + body && |head| == 2;
      ghost var before, space := written, room;
      var n := Write(head);
      if n != |head| {
        assert w[..n] == head[..n];
        return false;
      }
      assert head[..n] == head;
      n := Write(body);
      assert w[..|head| + n] == head + body[..n];
      assert written == before + w[..|head| + n];
      if n != |body| {
        return false;
      }
      assert w[..|head| + n] == w;
      return true;
    }
  }

  /** Draining with a bounded number of allocations. */
  function Taking(ring: seq<byte>, allocations: nat): (r: (seq<Delivery>, seq<byte>))
    ensures |r.1| <= |ring|
    decreases allocations
  {
    if allocations == 0 || !Complete(ring) then ([], ring)
    else
      var (ds, rest) := Taking(ring[Announced(ring)..], allocations - 1);
      ([First(ring)] + ds, rest)
  }

  /** Stopping early loses nothing: the rest is still in the ring. */
  lemma {:induction false} TakingIsPartOfDrain(ring: seq<byte>, allocations: nat)
    ensures var (ds, rest) := Taking(ring, allocations);
            Drain(ring) == (ds + Drain(rest).0, Drain(rest).1)
    ensures allocations >= |ring| ==> Taking(ring, allocations) == Drain(ring)
    decreases allocations
  {
    hide First, Announced;
    if allocations == 0 || !Complete(ring) {
      assert [] + Drain(ring).0 == Drain(ring).0;
      if allocations >= |ring| {
        NotComplete();
        DrainNone(ring);
      }
    } else {
      var tail := ring[Announced(ring)..];
      DrainOne(ring);
      TakingIsPartOfDrain(tail, allocations - 1);
      hide Complete, Drain;
      var (ds, rest) := Taking(tail, allocations - 1);
      ConcatAssoc([First(ring)], ds, Drain(rest).0);
    }
  }

  // ----- Arrivals and work items in any order -----

  datatype Event = Arrive(b: byte) | Work(allocations: nat)

  /** `accepted` is every byte that found room. */
  datatype Sys = Sys(ring: seq<byte>, handled: seq<Delivery>, accepted: seq<byte>)

  const START := Sys([], [], [])

  function Next(s: Sys, e: Event): Sys {
    match e
    case Arrive(b) =>
      if |s.ring| < PIPE_LEN then Sys(s.ring + [b], s.handled, s.accepted + [b]) else s
    case Work(n) =>
      var (ds, rest) := Taking(s.ring, n);
      Sys(rest, s.handled + ds, s.accepted)
  }

  function After(s: Sys, es: seq<Event>): Sys
    decreases |es|
  {
    if es == [] then s else After(Next(s, es[0]), es[1..])
  }

  /** Handled messages, then the parse of the ring, are the parse of everything accepted. */
  predicate Consistent(s: Sys) {
    && |s.ring| <= PIPE_LEN
    && Drain(s.accepted) == (s.handled + Drain(s.ring).0, Drain(s.ring).1)
  }

  lemma NextConsistent(s: Sys, e: Event)
    requires Consistent(s)
    ensures Consistent(Next(s, e))
  {
    hide Drain, Taking;
    match e
    case Arrive(b) =>
      if |s.ring| < PIPE_LEN {
        DrainResumes(s.accepted, [b]);
        DrainResumes(s.ring, [b]);
        var x := Drain(Drain(s.ring).1 + [b]).0;
        ConcatAssoc(s.handled, Drain(s.ring).0, x);
      }
    case Work(n) =>
      TakingIsPartOfDrain(s.ring, n);
      var (ds, rest) := Taking(s.ring, n);
      assert |rest| <= |s.ring|;
      ConcatAssoc(s.handled, ds, Drain(rest).0);
  }

  /** Every interleaving, on any bytes at all, well formed or not. */
  lemma {:induction false} AlwaysConsistent(s: Sys, es: seq<Event>)
    requires Consistent(s)
    ensures Consistent(After(s, es))
    decreases |es|
  {
    hide Consistent, Next;
    if es != [] {
      NextConsistent(s, es[0]);
      AlwaysConsistent(Next(s, es[0]), es[1..]);
    }
  }

  /**
   On a well-formed stream with no byte dropped, what was handled and what the ring parses to is a prefix of what
   was sent.
   */
  lemma HandledIsPrefix(cports: seq<bv16>, ms: seq<Message>, es: seq<Event>)
    requires |cports| == |ms| && forall m | m in ms :: WellFormed(m)
    requires After(START, es).accepted <= WireAll(cports, ms)
    ensures var s := After(START, es);
            && s.handled + Drain(s.ring).0 <= Deliveries(cports, ms)
            && (s.accepted == WireAll(cports, ms) && !Complete(s.ring) ==>
                  s.handled == Deliveries(cports, ms) && s.ring == [])
  {
    StartConsistent();
    AlwaysConsistent(START, es);
    var s := After(START, es);
    PrefixDrains(cports, ms, s.accepted);
    hide Drain, After, WireAll, Deliveries, Complete;
    if !Complete(s.ring) {
      DrainNone(s.ring);
      assert s.handled + [] == s.handled;
    }
  }

  lemma StartConsistent()
    ensures Consistent(START)
  {
    NotComplete();
    DrainNone([]);
    hide Drain;
    assert START.handled + [] == START.handled;
  }

  // ----- When bytes are dropped -----

  function Arrivals(s: seq<byte>): (es: seq<Event>)
    ensures |es| == |s|
  {
    seq(|s|, i requires 0 <= i < |s| => Arrive(s[i]))
  }

  lemma {:induction false} ArrivalsFit(s: Sys, bytes: seq<byte>)
    requires |s.ring| + |bytes| <= PIPE_LEN
    ensures After(s, Arrivals(bytes)) == Sys(s.ring + bytes, s.handled, s.accepted + bytes)
    decreases bytes
  {
    if bytes == [] {
      assert s.ring + [] == s.ring && s.accepted + [] == s.accepted;
    } else {
      assert Arrivals(bytes)[1..] == Arrivals(bytes[1..]);
      ArrivalsFit(Next(s, Arrive(bytes[0])), bytes[1..]);
      assert s.ring + [bytes[0]] + bytes[1..] == s.ring + bytes;
      assert s.accepted + [bytes[0]] + bytes[1..] == s.accepted + bytes;
    }
  }

  lemma {:induction false} AfterAppend(s: Sys, a: seq<Event>, b: seq<Event>)
    ensures After(s, a + b) == After(After(s, a), b)
    decreases |a|
  {
    hide Next;
    if a == [] {
      assert a + b == b;
    } else {
      AfterAppend(Next(s, a[0]), a[1..], b);
      assert (a + b)[1..] == a[1..] + b && (a + b)[0] == a[0];
    }
  }

  /** A frame that fits the ring, arriving into an empty ring and followed by the stop condition, is handled whole. */
  lemma FrameHandled(s: Sys, cport: bv16, m: Message, n: nat)
    requires s.ring == [] && WellFormed(m) && |Wire(cport, m)| <= PIPE_LEN && n >= 1
    ensures After(s, Arrivals(Wire(cport, m)) + [Work(n)])
         == Sys([], s.handled + [Delivery(cport, MessageBytes(m))], s.accepted + Wire(cport, m))
  {
    var w := Wire(cport, m);
    WireComplete(cport, m, []);
    hide Wire, WellFormed, First, Announced, Complete, MessageBytes;
    assert w + [] == w && s.ring + w == w;
    ArrivalsFit(s, w);
    var t := After(s, Arrivals(w));
    AfterAppend(s, Arrivals(w), [Work(n)]);
    assert [Work(n)][1..] == [];
    assert After(t, [Work(n)]) == After(Next(t, Work(n)), []);
    TakingOne(w, n, Delivery(cport, MessageBytes(m)));
  }

  lemma TakingOne(w: seq<byte>, n: nat, d: Delivery)
    requires Complete(w) && First(w) == d && w[Announced(w)..] == [] && n >= 1
    ensures Taking(w, n) == ([d], [])
  {
    NotComplete();
    hide First, Announced;
    assert Taking([], n - 1) == ([], []);
    assert [d] + [] == [d];
  }

  /** A host that sends one message per bus transaction. */
  function Session(cports: seq<bv16>, ms: seq<Message>): seq<Event>
    requires |cports| == |ms|
    decreases |ms|
  {
    if ms == [] then []
    else Arrivals(Wire(cports[0], ms[0])) + [Work(1)] + Session(cports[1..], ms[1..])
  }

  predicate Fits(cport: bv16, m: Message) {
    |Wire(cport, m)| <= 256
  }

  /** How many messages come before the first that does not fit the ring. */
  function Fitting(cports: seq<bv16>, ms: seq<Message>): (k: nat)
    requires |cports| == |ms|
    ensures k <= |ms|
    ensures forall i :: 0 <= i < k ==> Fits(cports[i], ms[i])
    ensures k < |ms| ==> !Fits(cports[k], ms[k])
    decreases |ms|
  {
    if ms == [] || !Fits(cports[0], ms[0]) then 0 else 1 + Fitting(cports[1..], ms[1..])
  }

  /**
   What such a host gets through: exactly the messages before the first that does not fit the ring, in order. All
   of them if and only if every message fits, and then the ring is empty again.
   */
  lemma SessionDelivers(s: Sys, cports: seq<bv16>, ms: seq<Message>)
    requires s.ring == [] && |cports| == |ms| && forall m | m in ms :: WellFormed(m)
    ensures var t, k := After(s, Session(cports, ms)), Fitting(cports, ms);
            && t.handled == s.handled + Deliveries(cports[..k], ms[..k])
            && (t.handled == s.handled + Deliveries(cports, ms)
                <==> forall i :: 0 <= i < |ms| ==> Fits(cports[i], ms[i]))
            && (k == |ms| ==> t == Sys([], t.handled, s.accepted + WireAll(cports, ms)))
  {
    SessionIs(s, cports, ms);
    var k := Fitting(cports, ms);
    hide Wire, WellFormed, Session, After, Next, Fits, MessageBytes;
    assert k == |ms| ==> cports[..k] == cports && ms[..k] == ms;
    assert |Deliveries(cports[..k], ms[..k])| == k && |Deliveries(cports, ms)| == |ms|;
    if k < |ms| {
      assert |s.handled + Deliveries(cports[..k], ms[..k])| < |s.handled + Deliveries(cports, ms)|;
    }
  }

  lemma {:induction false} SessionIs(s: Sys, cports: seq<bv16>, ms: seq<Message>)
    requires s.ring == [] && |cports| == |ms| && forall m | m in ms :: WellFormed(m)
    ensures var t, k := After(s, Session(cports, ms)), Fitting(cports, ms);
            && t.handled == s.handled + Deliveries(cports[..k], ms[..k])
            && (k == |ms| ==> t == Sys([], t.handled, s.accepted + WireAll(cports, ms)))
    decreases |ms|
  {
    hide Wire, WellFormed, Next, MessageBytes, Arrivals;
    if ms == [] {
      assert Deliveries(cports[..0], ms[..0]) == [];
      assert s.handled + [] == s.handled && s.accepted + [] == s.accepted;
    } else {
      var w, d := Wire(cports[0], ms[0]), Delivery(cports[0], MessageBytes(ms[0]));
      var first, later := Arrivals(w) + [Work(1)], Session(cports[1..], ms[1..]);
      if Fits(cports[0], ms[0]) {
        var t := Sys([], s.handled + [d], s.accepted + w);
        var k := Fitting(cports[1..], ms[1..]);
        FrameHandled(s, cports[0], ms[0], 1);
        AfterAppend(s, first, later);
        hide After;
        SessionIs(t, cports[1..], ms[1..]);
        assert cports[1..][..k] == cports[..k + 1][1..] && ms[1..][..k] == ms[..k + 1][1..];
        DeliveriesFirst(cports[..k + 1], ms[..k + 1]);
        ConcatAssoc(s.handled, [d], Deliveries(cports[1..][..k], ms[1..][..k]));
        ConcatAssoc(s.accepted, w, WireAll(cports[1..], ms[1..]));
      } else {
        assert Deliveries(cports[..0], ms[..0]) == [];
        assert s.handled + [] == s.handled;
        assert first + later == Arrivals(w) + ([Work(1)] + later);
        hide After, Session;
        OversizeNeverHandled(s, cports[0], ms[0], [Work(1)] + later);
      }
    }
  }

  lemma DeliveriesFirst(cports: seq<bv16>, ms: seq<Message>)
    requires |cports| == |ms| && ms != []
    ensures Deliveries(cports, ms)
         == [Delivery(cports[0], MessageBytes(ms[0]))] + Deliveries(cports[1..], ms[1..])
  {
    hide MessageBytes;
  }

  /** The bytes that arrive during these events. */
  function Arriving(es: seq<Event>): seq<byte>
    decreases |es|
  {
    if es == [] then []
    else (if es[0].Arrive? then [es[0].b] else []) + Arriving(es[1..])
  }

  /** Two byte strings agree as far as both go. */
  predicate Agree(a: seq<byte>, b: seq<byte>) {
    forall i :: 0 <= i < |a| && i < |b| ==> a[i] == b[i]
  }

  /**
   A message longer than the ring wedges the link for good: from any point at which the ring holds just a part of
   it, and however its remaining bytes, anything behind them, and work items interleave, nothing is handled.
   */
  lemma {:induction false} OversizeWedges(s: Sys, cport: bv16, m: Message, es: seq<Event>)
    requires WellFormed(m) && |Wire(cport, m)| > 256
    requires |s.ring| <= PIPE_LEN && s.ring <= Wire(cport, m)
    requires |s.ring| < PIPE_LEN ==> Agree(Arriving(es), Wire(cport, m)[|s.ring|..])
    ensures After(s, es).handled == s.handled && After(s, es).ring <= Wire(cport, m)
    decreases |es|
  {
    var w := Wire(cport, m);
    WireComplete(cport, m, []);
    hide Wire, WellFormed, Taking, Complete, Announced, First;
    assert w + [] == w;
    if es != [] {
      var t := Next(s, es[0]);
      match es[0] {
        case Arrive(b) =>
          if |s.ring| < PIPE_LEN {
            assert Arriving(es)[0] == b && w[|s.ring|..][0] == w[|s.ring|];
            assert Arriving(es)[1..] == Arriving(es[1..]);
            AgreeTail(Arriving(es), w[|s.ring|..]);
            assert w[|s.ring|..][1..] == w[|t.ring|..];
          }
        case Work(n) =>
          ShortIncomplete(s.ring, w);
          TakingNone(s.ring, n);
          assert s.handled + [] == s.handled;
          assert Arriving(es) == Arriving(es[1..]);
      }
      OversizeWedges(t, cport, m, es[1..]);
    }
  }

  lemma AgreeTail(a: seq<byte>, b: seq<byte>)
    requires Agree(a, b) && a != [] && b != []
    ensures a[0] == b[0] && Agree(a[1..], b[1..])
  {
  }

  lemma TakingNone(ring: seq<byte>, n: nat)
    requires !Complete(ring)
    ensures Taking(ring, n) == ([], ring)
  {
    hide Complete;
  }

  /** In particular when a host sends such a message into an empty ring, whatever comes after it. */
  lemma OversizeNeverHandled(s: Sys, cport: bv16, m: Message, es: seq<Event>)
    requires s.ring == [] && WellFormed(m) && |Wire(cport, m)| > 256
    ensures After(s, Arrivals(Wire(cport, m)) + es).handled == s.handled
  {
    var w := Wire(cport, m);
    ArrivingFirst(w, es);
    hide Wire, WellFormed, After, Arrivals;
    assert w[0..] == w;
    OversizeWedges(s, cport, m, Arrivals(w) + es);
  }

  lemma {:induction false} ArrivingFirst(bytes: seq<byte>, es: seq<Event>)
    ensures Arriving(Arrivals(bytes) + es) == bytes + Arriving(es)
    decreases bytes
  {
    if bytes == [] {
      assert Arrivals(bytes) + es == es && [] + Arriving(es) == Arriving(es);
    } else {
      var all := Arrivals(bytes) + es;
      assert all[0] == Arrive(bytes[0]) && all[1..] == Arrivals(bytes[1..]) + es;
      ArrivingFirst(bytes[1..], es);
      hide Arrivals;
      assert [bytes[0]] + (bytes[1..] + Arriving(es)) == bytes + Arriving(es);
    }
  }

  /** Once 256 bytes of a longer message are in, well formed or not, no later event changes anything. */
  lemma {:induction false} FullRingStuck(s: Sys, es: seq<Event>)
    requires |s.ring| == PIPE_LEN && Announced(s.ring) > PIPE_LEN
    ensures After(s, es) == s
    decreases |es|
  {
    if es != [] {
      hide Announced;
      assert s.handled + [] == s.handled;
      assert Next(s, es[0]) == s;
      FullRingStuck(s, es[1..]);
    }
  }

  /** With the ring full, a work item makes room exactly when the first message fits the ring. */
  lemma FullRingMovesIffFits(s: Sys, n: nat)
    requires |s.ring| == PIPE_LEN && n >= 1
    ensures |Next(s, Work(n)).ring| < PIPE_LEN <==> Announced(s.ring) <= PIPE_LEN
  {
    hide ParseHeader, MessageLen;
    if Announced(s.ring) <= PIPE_LEN {
      var rest := s.ring[Announced(s.ring)..];
      assert |Taking(rest, n - 1).1| <= |rest|;
    }
  }
}
