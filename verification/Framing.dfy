/** Cutting a byte stream into framed messages: the pure function both stream transports must agree on. */
module Framing {
  import opened Bytes
  import opened GreybusWire

  /** One message as taken off a stream: its cport and its raw bytes, header included. */
  datatype Delivery = Delivery(cport: bv16, raw: seq<byte>)

  const PREFIX := CPORT_SIZE + HEADER_SIZE

  /** The length on the wire that a stream of at least ten bytes announces for its first message. */
  function Announced(s: seq<byte>): (n: nat)
    requires |s| >= PREFIX
    ensures n >= CPORT_SIZE
  {
    CPORT_SIZE + MessageLen(ParseHeader(s[2..10]))
  }

  predicate Complete(s: seq<byte>) {
    |s| >= PREFIX && |s| >= Announced(s)
  }

  function First(s: seq<byte>): Delivery
    requires Complete(s)
  {
    Delivery(FromLe16(s[0], s[1]), s[CPORT_SIZE..Announced(s)])
  }

  /** Take messages while a whole one is there; what is left is less than a message. */
  function Drain(s: seq<byte>): (r: (seq<Delivery>, seq<byte>))
    ensures |r.1| <= |s| && !Complete(r.1)
    decreases |s|
  {
    if Complete(s) then
      var (ds, rest) := Drain(s[Announced(s)..]);
      ([First(s)] + ds, rest)
    else ([], s)
  }

  function WireAll(cports: seq<bv16>, ms: seq<Message>): seq<byte>
    requires |cports| == |ms|
    decreases |ms|
  {
    if ms == [] then [] else Wire(cports[0], ms[0]) + WireAll(cports[1..], ms[1..])
  }

  function Deliveries(cports: seq<bv16>, ms: seq<Message>): (ds: seq<Delivery>)
    requires |cports| == |ms|
  {
    seq(|ms|, i requires 0 <= i < |ms| => Delivery(cports[i], MessageBytes(ms[i])))
  }

  /** More bytes behind a complete message do not change it. */
  lemma CompleteGrows(s: seq<byte>, more: seq<byte>)
    requires Complete(s)
    ensures Complete(s + more) && First(s + more) == First(s) && Announced(s + more) == Announced(s)
    ensures (s + more)[Announced(s)..] == s[Announced(s)..] + more
  {
    hide ParseHeader, MessageLen, FromLe16;
    assert (s + more)[2..10] == s[2..10];
    assert (s + more)[CPORT_SIZE..Announced(s)] == s[CPORT_SIZE..Announced(s)];
  }

  lemma DrainOne(s: seq<byte>)
    requires Complete(s)
    ensures Drain(s).0 == [First(s)] + Drain(s[Announced(s)..]).0
    ensures Drain(s).1 == Drain(s[Announced(s)..]).1
  {
    hide First, Announced, Complete;
  }

  lemma DrainNone(s: seq<byte>)
    requires !Complete(s)
    ensures Drain(s) == ([], s)
  {
    hide First, Announced, Complete;
  }

  /** Draining early and then again gives what draining once at the end gives. */
  lemma {:induction false} DrainResumes(s: seq<byte>, more: seq<byte>)
    ensures var (ds, rest) := Drain(s);
            && Drain(s + more).0 == ds + Drain(rest + more).0
            && Drain(s + more).1 == Drain(rest + more).1
    decreases |s|
  {
    hide First, Announced, Drain;
    if Complete(s) {
      var tail := s[Announced(s)..];
      CompleteGrows(s, more);
      DrainOne(s);
      DrainOne(s + more);
      assert |tail| < |s|;
      DrainResumes(tail, more);
      ConcatAssoc([First(s)], Drain(tail).0, Drain(Drain(tail).1 + more).0);
    } else {
      DrainNone(s);
      assert [] + Drain(s + more).0 == Drain(s + more).0;
    }
  }

  lemma WireComplete(cport: bv16, m: Message, rest: seq<byte>)
    requires WellFormed(m)
    ensures var s := Wire(cport, m) + rest;
            && Complete(s) && Announced(s) == |Wire(cport, m)|
            && First(s) == Delivery(cport, MessageBytes(m)) && s[Announced(s)..] == rest
  {
    WireFields(cport, m, rest);
    hide ParseHeader, MessageLen, FromLe16, Wire;
    assert |MessageBytes(m)| >= 8;
  }

  /** What a receiver takes off any prefix of a well-formed stream is a prefix of what was sent on it. */
  lemma {:induction false} PrefixDrains(cports: seq<bv16>, ms: seq<Message>, s: seq<byte>)
    requires |cports| == |ms| && forall m | m in ms :: WellFormed(m)
    requires s <= WireAll(cports, ms)
    ensures Drain(s).0 <= Deliveries(cports, ms)
    ensures s == WireAll(cports, ms) ==> Drain(s) == (Deliveries(cports, ms), [])
    decreases |ms|
  {
    hide First, Announced, Complete, Drain, Wire, WellFormed, MessageBytes;
    if ms == [] {
      assert s == [];
      NotComplete();
      DrainNone(s);
    } else {
      var w, all := Wire(cports[0], ms[0]), Deliveries(cports, ms);
      var rest := WireAll(cports[1..], ms[1..]);
      assert all == [Delivery(cports[0], MessageBytes(ms[0]))] + Deliveries(cports[1..], ms[1..]);
      if |w| <= |s| {
        var tail := s[|w|..];
        assert s == w + tail && tail <= rest;
        WireComplete(cports[0], ms[0], tail);
        DrainOne(s);
        PrefixDrains(cports[1..], ms[1..], tail);
        if s == WireAll(cports, ms) {
          assert tail == rest;
        }
      } else {
        WireComplete(cports[0], ms[0], []);
        assert w + [] == w;
        assert s <= w;
        ShortIncomplete(s, w);
        DrainNone(s);
      }
    }
  }

  lemma NotComplete()
    ensures !Complete([])
  {
  }

  lemma ShortIncomplete(s: seq<byte>, w: seq<byte>)
    requires s <= w && |s| < |w| && Complete(w) && Announced(w) == |w|
    ensures !Complete(s)
  {
    hide ParseHeader, MessageLen;
    if |s| >= PREFIX {
      assert s[2..10] == w[2..10];
    }
  }
}
