/**
 transport/i2c.c with the bus interrupt between the single steps of gb_msg_rx_take: bytes arrive while the work item
 looks at the fill level, peeks at the header, and takes cport and message out of the ring.
 */
module I2cSteps {
  import opened Bytes
  import opened GreybusWire
  import opened Framing
  import opened I2cTransport

  /** Where the work item stands; each step is one access to the ring, or the allocation, or the handler. */
  datatype Worker =
    | Idle | Size | Peek | Need(head: seq<byte>) | Alloc(head: seq<byte>) | Cport(head: seq<byte>)
    | Data(front: seq<byte>, len: nat) | Handle(d: Delivery)

  datatype State = State(
    ring: seq<byte>, submitted: bool, w: Worker, handled: seq<Delivery>, accepted: seq<byte>)

  datatype StepEvent = Byte(b: byte) | Stop | Go(heapOk: bool)

  const INITIAL := State([], false, Idle, [], [])

  function Length(head: seq<byte>): nat
    requires |head| == PREFIX
  {
    MessageLen(ParseHeader(head[CPORT_SIZE..PREFIX]))
  }

  /** ring_buf_get: as much as there is. */
  function Got(ring: seq<byte>, n: nat): (r: (seq<byte>, seq<byte>))
    ensures r.0 + r.1 == ring
  {
    var k := if n <= |ring| then n else |ring|;
    (ring[..k], ring[k..])
  }

  function WorkerStep(s: State, heapOk: bool): State {
    match s.w
    case Idle => if s.submitted then s.(submitted := false, w := Size) else s
    case Size => s.(w := if |s.ring| < PREFIX then Idle else Peek)
    case Peek => s.(w := if |s.ring| < PREFIX then Idle else Need(s.ring[..PREFIX]))
    case Need(head) =>
      if |head| == PREFIX && |s.ring| >= CPORT_SIZE + Length(head) then s.(w := Alloc(head)) else s.(w := Idle)
    case Alloc(head) => s.(w := if heapOk then Cport(head) else Idle)
    case Cport(head) =>
      if |head| == PREFIX then s.(ring := Got(s.ring, CPORT_SIZE).1, w := Data(head[..CPORT_SIZE], Length(head)))
      else s
    case Data(front, len) =>
      if |front| == CPORT_SIZE then
        var (raw, rest) := Got(s.ring, len);
        s.(ring := rest, w := Handle(Delivery(FromLe16(front[0], front[1]), raw)))
      else s
    case Handle(d) => s.(handled := s.handled + [d], w := Size)
  }

  function Next(s: State, e: StepEvent): State {
    match e
    case Byte(b) =>
      if |s.ring| < PIPE_LEN then s.(ring := s.ring + [b], accepted := s.accepted + [b]) else s
    case Stop => s.(submitted := true)
    case Go(heapOk) => WorkerStep(s, heapOk)
  }

  function Run(s: State, es: seq<StepEvent>): State
    decreases |es|
  {
    if es == [] then s else Run(Next(s, es[0]), es[1..])
  }

  // ----- What every interleaving keeps -----

  /** The bytes not yet turned into a message: the ring, behind a cport already taken out of it. */
  function Pending(s: State): seq<byte> {
    if s.w.Data? then s.w.front + s.ring else s.ring
  }

  /** The messages taken so far, the one in the hand of the work item included. */
  function Taken(s: State): seq<Delivery> {
    if s.w.Handle? then s.handled + [s.w.d] else s.handled
  }

  /** What the work item knows about the ring stays true while bytes arrive. */
  predicate Knows(ring: seq<byte>, w: Worker) {
    match w
    case Peek => |ring| >= PREFIX
    case Need(head) => |ring| >= PREFIX && head == ring[..PREFIX]
    case Alloc(head) => Complete(ring) && head == ring[..PREFIX]
    case Cport(head) => Complete(ring) && head == ring[..PREFIX]
    case Data(front, len) =>
      |front| == CPORT_SIZE && Complete(front + ring) && Announced(front + ring) == CPORT_SIZE + len
    case _ => true
  }

  /** Messages taken, then the parse of what is pending, are the parse of every byte accepted. */
  predicate Consistent(s: State) {
    && |s.ring| <= PIPE_LEN
    && Knows(s.ring, s.w)
    && Drain(s.accepted) == (Taken(s) + Drain(Pending(s)).0, Drain(Pending(s)).1)
  }

  lemma HeadAnnounces(ring: seq<byte>)
    requires |ring| >= PREFIX
    ensures Announced(ring) == CPORT_SIZE + Length(ring[..PREFIX])
    ensures Complete(ring) <==> |ring| >= Announced(ring)
  {
    hide ParseHeader, MessageLen;
    assert ring[..PREFIX][CPORT_SIZE..PREFIX] == ring[CPORT_SIZE..PREFIX];
  }

  lemma CompleteLong(ring: seq<byte>)
    ensures Complete(ring) ==> |ring| >= PREFIX && Announced(ring) <= |ring|
  {
  }

  lemma ByteKnows(ring: seq<byte>, w: Worker, b: byte)
    requires Knows(ring, w)
    ensures Knows(ring + [b], w)
  {
    CompleteLong(ring);
    hide Announced, First, Complete;
    match w
    case Alloc(head) => CompleteGrows(ring, [b]);
    case Cport(head) => CompleteGrows(ring, [b]);
    case Data(front, len) =>
      CompleteGrows(front + ring, [b]);
      assert front + ring + [b] == front + (ring + [b]);
    case _ =>
  }

  lemma ByteConsistent(s: State, b: byte)
    requires Consistent(s)
    ensures Consistent(Next(s, Byte(b)))
  {
    if |s.ring| < PIPE_LEN {
      ByteKnows(s.ring, s.w, b);
      hide Drain, Knows;
      var p := Pending(s);
      DrainResumes(s.accepted, [b]);
      DrainResumes(p, [b]);
      assert Pending(Next(s, Byte(b))) == p + [b];
      ConcatAssoc(Taken(s), Drain(p).0, Drain(Drain(p).1 + [b]).0);
    }
  }

  /** The steps that only look leave pending bytes and messages alone. */
  lemma LookConsistent(s: State, heapOk: bool)
    requires Consistent(s) && !s.w.Data?
    ensures Consistent(WorkerStep(s, heapOk))
  {
    CompleteLong(s.ring);
    hide Drain, Announced, First, Complete;
    match s.w
    case Need(head) =>
      HeadAnnounces(s.ring);
    case Cport(head) =>
      HeadAnnounces(s.ring);
      hide Length;
      assert s.ring == head[..CPORT_SIZE] + s.ring[CPORT_SIZE..];
    case _ =>
      hide Length;
  }

  /** The step that takes a message takes the first one pending. */
  lemma DataConsistent(s: State, heapOk: bool)
    requires Consistent(s) && s.w.Data?
    ensures Consistent(WorkerStep(s, heapOk))
  {
    var p, n := Pending(s), s.w.len;
    FrontFields(s.w.front, s.ring, n);
    DrainOne(p);
    hide Drain, Announced, First, Complete;
    ConcatAssoc(s.handled, [First(p)], Drain(s.ring[n..]).0);
  }

  lemma FrontFields(front: seq<byte>, ring: seq<byte>, n: nat)
    requires |front| == CPORT_SIZE && Complete(front + ring) && Announced(front + ring) == CPORT_SIZE + n
    ensures n <= |ring|
    ensures First(front + ring) == Delivery(FromLe16(front[0], front[1]), ring[..n])
    ensures (front + ring)[CPORT_SIZE + n..] == ring[n..]
  {
    hide Announced, FromLe16;
  }

  lemma NextConsistent(s: State, e: StepEvent)
    requires Consistent(s)
    ensures Consistent(Next(s, e))
  {
    match e
    case Byte(b) => ByteConsistent(s, b);
    case Stop => hide Drain, Knows;
    case Go(heapOk) =>
      hide Consistent, WorkerStep;
      if s.w.Data? {
        DataConsistent(s, heapOk);
      } else {
        LookConsistent(s, heapOk);
      }
  }

  /** Under every interleaving of arriving bytes with the steps of the work item, on any bytes at all. */
  lemma {:induction false} AlwaysConsistent(s: State, es: seq<StepEvent>)
    requires Consistent(s)
    ensures Consistent(Run(s, es))
    decreases |es|
  {
    hide Consistent, Next;
    if es != [] {
      NextConsistent(s, es[0]);
      AlwaysConsistent(Next(s, es[0]), es[1..]);
    }
  }

  lemma InitialConsistent()
    ensures Consistent(INITIAL)
  {
    NotComplete();
    DrainNone([]);
    hide Drain;
    assert INITIAL.handled + [] == INITIAL.handled;
  }

  /**
   On a well-formed stream with no byte dropped, the messages taken and what is pending parses to are a prefix of
   what was sent, and all of it once everything has arrived and no whole message is pending.
   */
  lemma HandledIsPrefix(cports: seq<bv16>, ms: seq<Message>, es: seq<StepEvent>)
    requires |cports| == |ms| && forall m | m in ms :: WellFormed(m)
    requires Run(INITIAL, es).accepted <= WireAll(cports, ms)
    ensures var s := Run(INITIAL, es);
            && Taken(s) + Drain(Pending(s)).0 <= Deliveries(cports, ms)
            && (s.accepted == WireAll(cports, ms) && !Complete(Pending(s)) ==>
                  Taken(s) == Deliveries(cports, ms) && Pending(s) == [])
  {
    InitialConsistent();
    AlwaysConsistent(INITIAL, es);
    var s := Run(INITIAL, es);
    PrefixDrains(cports, ms, s.accepted);
    hide Drain, Run, WireAll, Deliveries, Complete, Taken, Pending;
    if !Complete(Pending(s)) {
      DrainNone(Pending(s));
      assert Taken(s) + [] == Taken(s);
    }
  }

  /** The work item ends exactly when less than one whole message is there at its last look, or memory is refused. */
  lemma EndsIff(s: State, heapOk: bool)
    requires Consistent(s) && !s.w.Idle?
    ensures WorkerStep(s, heapOk).w.Idle? <==>
              || (s.w.Size? && |s.ring| < PREFIX)
              || (s.w.Need? && !Complete(s.ring))
              || (s.w.Alloc? && !heapOk)
  {
    hide Drain;
    if s.w.Need? {
      HeadAnnounces(s.ring);
    }
    hide Announced, Length;
  }

  // ----- Messages longer than the ring -----

  function Arriving(es: seq<StepEvent>): seq<byte>
    decreases |es|
  {
    if es == [] then [] else (if es[0].Byte? then [es[0].b] else []) + Arriving(es[1..])
  }

  /** The ring holds a part of an over-long message, and the work item has not gone past the length check. */
  predicate Wedging(s: State, wire: seq<byte>) {
    && |s.ring| <= PIPE_LEN && 256 < |wire| && s.ring <= wire
    && Knows(s.ring, s.w) && (s.w.Idle? || s.w.Size? || s.w.Peek? || s.w.Need?)
  }

  lemma WedgingStep(s: State, cport: bv16, m: Message, e: StepEvent)
    requires WellFormed(m) && Wedging(s, Wire(cport, m))
    requires e.Byte? && |s.ring| < PIPE_LEN ==> e.b == Wire(cport, m)[|s.ring|]
    ensures Wedging(Next(s, e), Wire(cport, m)) && Next(s, e).handled == s.handled
  {
    var wire := Wire(cport, m);
    WireComplete(cport, m, []);
    assert wire + [] == wire;
    ShortIncomplete(s.ring, wire);
    hide Wire, WellFormed, Complete, Announced, Wedging;
    match e
    case Byte(b) => WedgingByte(s, wire, b);
    case Stop => WedgingStop(s, wire);
    case Go(heapOk) => WedgingGo(s, wire, heapOk);
  }

  lemma WedgingByte(s: State, wire: seq<byte>, b: byte)
    requires Wedging(s, wire) && (|s.ring| < PIPE_LEN ==> b == wire[|s.ring|])
    ensures Wedging(Next(s, Byte(b)), wire) && Next(s, Byte(b)).handled == s.handled
  {
    ByteKnows(s.ring, s.w, b);
    hide Knows;
  }

  lemma WedgingStop(s: State, wire: seq<byte>)
    requires Wedging(s, wire)
    ensures Wedging(Next(s, Stop), wire) && Next(s, Stop).handled == s.handled
  {
    hide Knows;
  }

  lemma WedgingGo(s: State, wire: seq<byte>, heapOk: bool)
    requires Wedging(s, wire) && !Complete(s.ring)
    ensures Wedging(WorkerStep(s, heapOk), wire) && WorkerStep(s, heapOk).handled == s.handled
  {
    if s.w.Need? {
      HeadAnnounces(s.ring);
    }
    hide Complete, Announced, Length, Got;
  }

  /** With the bus interrupt between any two steps, too, a message longer than the ring is the end of the link. */
  lemma {:induction false} OversizeWedges(s: State, cport: bv16, m: Message, es: seq<StepEvent>)
    requires WellFormed(m) && Wedging(s, Wire(cport, m))
    requires |s.ring| < PIPE_LEN ==> Agree(Arriving(es), Wire(cport, m)[|s.ring|..])
    ensures Run(s, es).handled == s.handled && Wedging(Run(s, es), Wire(cport, m))
    decreases |es|
  {
    var wire := Wire(cport, m);
    hide Wire, WellFormed, Wedging;
    if es != [] {
      var t := Next(s, es[0]);
      RestAgrees(s, wire, es);
      WedgingStep(s, cport, m, es[0]);
      hide Next;
      OversizeWedges(t, cport, m, es[1..]);
    }
  }

  lemma RingAfter(s: State, e: StepEvent)
    requires s.w.Idle? || s.w.Size? || s.w.Peek? || s.w.Need?
    ensures Next(s, e).ring == if e.Byte? && |s.ring| < PIPE_LEN then s.ring + [e.b] else s.ring
  {
    hide Length, Got;
  }

  lemma ArrivingFirst(es: seq<StepEvent>)
    requires es != []
    ensures Arriving(es) == (if es[0].Byte? then [es[0].b] else []) + Arriving(es[1..])
    ensures es[0].Byte? ==> Arriving(es)[1..] == Arriving(es[1..])
    ensures !es[0].Byte? ==> Arriving(es) == Arriving(es[1..])
  {
  }

  lemma RestAgrees(s: State, wire: seq<byte>, es: seq<StepEvent>)
    requires es != [] && Wedging(s, wire)
    requires |s.ring| < PIPE_LEN ==> Agree(Arriving(es), wire[|s.ring|..])
    ensures es[0].Byte? && |s.ring| < PIPE_LEN ==> es[0].b == wire[|s.ring|]
    ensures var t := Next(s, es[0]);
            |t.ring| < PIPE_LEN ==> |t.ring| <= |wire| && Agree(Arriving(es[1..]), wire[|t.ring|..])
  {
    RingAfter(s, es[0]);
    ArrivingFirst(es);
    hide Knows, Next, Arriving;
    if es[0].Byte? && |s.ring| < PIPE_LEN {
      AgreeTail(Arriving(es), wire[|s.ring|..]);
      assert wire[|s.ring|..][1..] == wire[|s.ring| + 1..];
    }
  }

  // ----- The work item left alone -----

  function Gos(n: nat): (es: seq<StepEvent>)
    ensures |es| == n
  {
    if n == 0 then [] else [Go(true)] + Gos(n - 1)
  }

  lemma GosFirst(s: State, n: nat)
    ensures Run(s, Gos(n + 1)) == Run(WorkerStep(s, true), Gos(n))
  {
    assert Gos(n + 1)[1..] == Gos(n);
    hide WorkerStep, Gos;
  }

  lemma NoGos(s: State)
    ensures Run(s, Gos(0)) == s
  {
  }

  /** Seven steps with memory take the first message of the ring, hand it up, and look again. */
  lemma TakesFirst(s: State)
    requires s.w == Size && Complete(s.ring)
    ensures Run(s, Gos(7)) == s.(ring := s.ring[Announced(s.ring)..], handled := s.handled + [First(s.ring)])
  {
    CompleteLong(s.ring);
    HeadAnnounces(s.ring);
    var head := s.ring[..PREFIX];
    LooksAhead(s);
    TakesOut(s);
    hide *;
    var a, b, c, d := s.(w := Peek), s.(w := Need(head)), s.(w := Alloc(head)), s.(w := Cport(head));
    var e := s.(ring := s.ring[2..], w := Data(head[..2], Length(head)));
    var f := s.(ring := s.ring[Announced(s.ring)..], w := Handle(First(s.ring)));
    GosFirst(s, 6);
    GosFirst(a, 5);
    GosFirst(b, 4);
    GosFirst(c, 3);
    GosFirst(d, 2);
    GosFirst(e, 1);
    GosFirst(f, 0);
    NoGos(WorkerStep(f, true));
  }

  lemma TakesOut(s: State)
    requires s.w == Size && Complete(s.ring) && |s.ring| >= PREFIX
    ensures var head := s.ring[..PREFIX];
            var e := s.(ring := s.ring[2..], w := Data(head[..2], Length(head)));
            var f := s.(ring := s.ring[Announced(s.ring)..], w := Handle(First(s.ring)));
            && WorkerStep(s.(w := Cport(head)), true) == e
            && WorkerStep(e, true) == f
            && WorkerStep(f, true) == s.(ring := f.ring, handled := s.handled + [First(s.ring)])
  {
    var head := s.ring[..PREFIX];
    HeadAnnounces(s.ring);
    assert s.ring == head[..CPORT_SIZE] + s.ring[CPORT_SIZE..];
    FrontFields(head[..CPORT_SIZE], s.ring[CPORT_SIZE..], Length(head));
    hide Length, Announced, First, Complete;
  }

  lemma LooksAhead(s: State)
    requires s.w == Size && Complete(s.ring) && |s.ring| >= PREFIX
    ensures var head := s.ring[..PREFIX];
            && WorkerStep(s, true) == s.(w := Peek)
            && WorkerStep(s.(w := Peek), true) == s.(w := Need(head))
            && WorkerStep(s.(w := Need(head)), true) == s.(w := Alloc(head))
            && WorkerStep(s.(w := Alloc(head)), true) == s.(w := Cport(head))
  {
    HeadAnnounces(s.ring);
    hide Length, Announced, Complete;
  }

  /** Without a whole message at most three steps end the work item, and nothing else has changed. */
  lemma GivesUp(s: State)
    requires s.w == Size && !Complete(s.ring)
    ensures Run(s, Gos(if |s.ring| < PREFIX then 1 else 3)) == s.(w := Idle)
  {
    if |s.ring| < PREFIX {
      GosFirst(s, 0);
      NoGos(s.(w := Idle));
    } else {
      var head := s.ring[..PREFIX];
      HeadAnnounces(s.ring);
      hide Length, Announced, Complete;
      var a, b := s.(w := Peek), s.(w := Need(head));
      assert a == WorkerStep(s, true) && b == WorkerStep(a, true) && WorkerStep(b, true) == s.(w := Idle);
      hide *;
      GosFirst(s, 2);
      GosFirst(a, 1);
      GosFirst(b, 0);
      NoGos(s.(w := Idle));
    }
  }

  lemma {:induction false} RunGos(s: State, m: nat, n: nat)
    ensures Run(s, Gos(m + n)) == Run(Run(s, Gos(m)), Gos(n))
    decreases m
  {
    if m == 0 {
      NoGos(s);
    } else {
      GosFirst(s, m - 1 + n);
      GosFirst(s, m - 1);
      RunGos(WorkerStep(s, true), m - 1, n);
    }
  }

  /**
   Left alone with memory, the work item ends, has handed up exactly the messages that can be taken off the ring,
   in order, and leaves the rest. From a submitted work item one more step starts it.
   */
  lemma {:induction false} WorkDrains(s: State) returns (n: nat)
    requires s.w == Size
    ensures Run(s, Gos(n)) == s.(ring := Drain(s.ring).1, handled := s.handled + Drain(s.ring).0, w := Idle)
    decreases |s.ring|
  {
    hide *;
    CompleteLong(s.ring);
    if Complete(s.ring) {
      var t := s.(ring := s.ring[Announced(s.ring)..], handled := s.handled + [First(s.ring)]);
      TakesFirst(s);
      DrainOne(s.ring);
      var k := WorkDrains(t);
      RunGos(s, 7, k);
      n := 7 + k;
      ConcatAssoc(s.handled, [First(s.ring)], Drain(t.ring).0);
    } else {
      GivesUp(s);
      DrainNone(s.ring);
      n := if |s.ring| < PREFIX then 1 else 3;
      assert s.handled + [] == s.handled;
    }
  }

  /** A stop condition leads there: the submitted work item runs once the last one has ended. */
  lemma StopDrains(s: State) returns (es: seq<StepEvent>)
    requires s.w == Idle
    ensures Run(s, es) == s.(ring := Drain(s.ring).1, handled := s.handled + Drain(s.ring).0, submitted := false)
  {
    hide Drain;
    var t := s.(submitted := false, w := Size);
    var n := WorkDrains(t);
    assert Next(s, Stop) == s.(submitted := true);
    assert WorkerStep(s.(submitted := true), true) == t;
    hide WorkerStep, Next;
    GosFirst(s.(submitted := true), n);
    es := [Stop] + Gos(n + 1);
    assert es[1..] == Gos(n + 1) && es[0] == Stop;
  }
}
