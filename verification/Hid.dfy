/**
 hid.c: five report buffers passed between an interrupt callback and a sender thread. The callback runs as
 one step; every access of the thread to shared state is a step of its own, so callbacks fall anywhere between.
 */
module Hid {
  import opened Bytes

  const MAX_REPORT_OPERATIONS := 5

  type Report = seq<byte>

  /** Where report_proc_thread stands in its loop. */
  datatype Pc = Waiting | DequeueData | Send | Requeue | CheckRequest | TakeFree | Install | ClearRequest

  /**
   Nodes are numbered; `buffers[n]` is the request payload of node n, `hand` the thread's local pointer while it
   owns a node.
   */
  datatype State = State(
    free: seq<nat>, data: seq<nat>, report: Option<nat>, request: bool, sem: nat,
    buffers: seq<Report>, bufSize: nat, pc: Pc, hand: Option<nat>,
    accepted: seq<Report>, sent: seq<Report>)

  datatype Answer = Accepted | OutOfNodes | BadLength

  datatype Event = Irq(report: Report) | Thread

  function Opt(o: Option<nat>): seq<nat> {
    if o.Some? then [o.value] else []
  }

  function Head(q: seq<nat>): Option<nat> {
    if q == [] then None else Some(q[0])
  }

  function Rest(q: seq<nat>): seq<nat> {
    if q == [] then [] else q[1..]
  }

  function At(buffers: seq<Report>, n: nat): Report {
    if n < |buffers| then buffers[n] else []
  }

  function Put(buffers: seq<Report>, n: nat, r: Report): seq<Report> {
    if n < |buffers| then buffers[n := r] else buffers
  }

  /** hid_event_callback_routine. */
  function Callback(s: State, r: Report): (State, Answer) {
    if s.report.None? then (s.(sem := s.sem + 1), OutOfNodes)
    else if |r| != s.bufSize then (s, BadLength)
    else
      (s.(buffers := Put(s.buffers, s.report.value, r),
          data := s.data + [s.report.value],
          report := Head(s.free),
          free := Rest(s.free),
          request := s.request || s.free == [],
          sem := s.sem + 1,
          accepted := s.accepted + [r]), Accepted)
  }

  /** One step of report_proc_thread; it blocks while the semaphore is zero. */
  function ThreadStep(s: State): State {
    match s.pc
    case Waiting => if s.sem == 0 then s else s.(sem := s.sem - 1, pc := DequeueData)
    case DequeueData =>
      s.(hand := Head(s.data), data := Rest(s.data), pc := if s.data == [] then CheckRequest else Send)
    case Send =>
      if s.hand.Some? then s.(sent := s.sent + [At(s.buffers, s.hand.value)], pc := Requeue) else s
    case Requeue => s.(free := s.free + Opt(s.hand), hand := None, pc := CheckRequest)
    case CheckRequest => s.(pc := if s.request then TakeFree else Waiting)
    case TakeFree => s.(hand := Head(s.free), free := Rest(s.free), pc := Install)
    case Install => s.(report := s.hand, hand := None, pc := ClearRequest)
    case ClearRequest => s.(request := false, pc := Waiting)
  }

  // ----- The object -----

  class Queue {
    var nodes: seq<nat>

    constructor ()
      ensures nodes == []
    {
      nodes := [];
    }

    /** node_requeue. */
    method NodeRequeue(node: nat)
      modifies this
      ensures nodes == old(nodes) + [node]
    {
      nodes := nodes + [node];
    }

    /** node_dequeue. */
    method NodeDequeue() returns (node: Option<nat>)
      modifies this
      ensures node == Head(old(nodes)) && nodes == Rest(old(nodes))
    {
      if nodes == [] {
        return None;
      }
      node := Some(nodes[0]);
      nodes := nodes[1..];
    }
  }

  class HidInfo {
    const freeQueue: Queue
    const dataQueue: Queue
    const buffers: array<Report>
    const reportBufSize: nat
    var reportNode: Option<nat>
    var nodeRequest: bool
    var activeSem: nat
    /** The thread's program counter and local node. */
    var pc: Pc
    var hand: Option<nat>
    /** Reports the callback answered with success, and payloads passed to gb_operation_send_request. */
    var accepted: seq<Report>
    var sent: seq<Report>

    ghost predicate Valid()
      reads this, freeQueue, dataQueue, buffers
    {
      freeQueue != dataQueue && Invariant(Abs())
    }

    ghost function Abs(): State
      reads this, freeQueue, dataQueue, buffers
    {
      State(freeQueue.nodes, dataQueue.nodes, reportNode, nodeRequest, activeSem, buffers[..], reportBufSize,
            pc, hand, accepted, sent)
    }

    /** hid_receiver_callback_init with the allocation loop of hid_alloc_op, and the first node taken by gb_hid_init. */
    constructor (reportBufSize: nat)
      ensures Valid() && fresh(freeQueue) && fresh(dataQueue) && fresh(buffers)
      ensures Abs() == Start(reportBufSize, Abs().buffers)
    {
      hide Invariant;
      var free := new Queue();
      var data := new Queue();
      var bufs := new Report[MAX_REPORT_OPERATIONS](_ => []);
      for i := 0 to MAX_REPORT_OPERATIONS
        invariant |free.nodes| == i && forall k :: 0 <= k < i ==> free.nodes[k] == k
        invariant data.nodes == [] && free != data && fresh(free) && fresh(data)
      {
        free.NodeRequeue(i);
      }
      assert free.nodes == [0, 1, 2, 3, 4];
      var first := free.NodeDequeue();
      freeQueue, dataQueue, buffers := free, data, bufs;
      this.reportBufSize := reportBufSize;
      reportNode, nodeRequest, activeSem := first, false, 0;
      pc, hand, accepted, sent := Waiting, None, [], [];
      new;
      StartInvariant(reportBufSize, buffers[..]);
    }

    method EventCallback(report: Report) returns (answer: Answer)
      requires Valid()
      modifies this, freeQueue, dataQueue, buffers
      ensures Valid() && (Abs(), answer) == Callback(old(Abs()), report)
    {
      hide Invariant;
      ghost var s := Abs();
      CallbackKeepsInvariant(s, report);
      NodesInRange(s);
      if reportNode.None? {
        activeSem := activeSem + 1;
        return OutOfNodes;
      }
      if reportBufSize != |report| {
        return BadLength;
      }
      buffers[reportNode.value] := report;
      dataQueue.NodeRequeue(reportNode.value);
      var node := freeQueue.NodeDequeue();
      if node.None? {
        nodeRequest := true;
      }
      reportNode := node;
      activeSem := activeSem + 1;
      accepted := accepted + [report];
      return Accepted;
    }

    method Step()
      requires Valid()
      modifies this, freeQueue, dataQueue
      ensures Valid() && Abs() == ThreadStep(old(Abs()))
    {
      hide Invariant;
      ghost var s := Abs();
      ThreadKeepsInvariant(s);
      NodesInRange(s);
      match pc
      case Waiting =>
        if activeSem > 0 {
          activeSem := activeSem - 1;
          pc := DequeueData;
        }
      case DequeueData =>
        hand := dataQueue.NodeDequeue();
        pc := if hand.Some? then Send else CheckRequest;
      case Send =>
        if hand.Some? {
          sent := sent + [buffers[hand.value]];
          pc := Requeue;
        }
      case Requeue =>
        if hand.Some? {
          freeQueue.NodeRequeue(hand.value);
        } else {
          assert freeQueue.nodes + [] == freeQueue.nodes;
        }
        hand := None;
        pc := CheckRequest;
      case CheckRequest =>
        pc := if nodeRequest then TakeFree else Waiting;
      case TakeFree =>
        hand := freeQueue.NodeDequeue();
        pc := Install;
      case Install =>
        reportNode := hand;
        hand := None;
        pc := ClearRequest;
      case ClearRequest =>
        nodeRequest := false;
        pc := Waiting;
    }
  }

  // ----- What every step keeps -----

  const ALL_NODES := multiset{0, 1, 2, 3, 4}

  /** Everyone who holds a node, with multiplicity. */
  function Holders(s: State): multiset<nat> {
    multiset(s.free) + multiset(s.data) + multiset(Opt(s.report)) + multiset(Opt(s.hand))
  }

  /** The five nodes are partitioned among the two queues, the callback's node and the thread's hand. */
  ghost predicate Partition(s: State) {
    Holders(s) == ALL_NODES && |s.buffers| == MAX_REPORT_OPERATIONS
  }

  /** Which parts of the thread's loop go with which shared state. */
  ghost predicate Control(s: State) {
    && (s.hand.Some? ==> s.pc in {Send, Requeue, Install})
    && (s.pc in {Send, Requeue} ==> s.hand.Some?)
    && (s.pc in {TakeFree, Install} ==> s.request)
    && (s.request && s.pc != ClearRequest ==> s.report.None?)
  }

  function Queued(buffers: seq<Report>, data: seq<nat>): (rs: seq<Report>)
    ensures |rs| == |data|
  {
    seq(|data|, i requires 0 <= i < |data| => At(buffers, data[i]))
  }

  /** Reports accepted and not yet sent, oldest first, as the buffers hold them now. */
  function InFlight(s: State): seq<Report> {
    (if s.pc == Send && s.hand.Some? then [At(s.buffers, s.hand.value)] else []) + Queued(s.buffers, s.data)
  }

  /** Accepted reports are sent once each, in order, with the contents they were accepted with. */
  ghost predicate Logged(s: State) {
    s.accepted == s.sent + InFlight(s)
  }

  ghost predicate Invariant(s: State) {
    Partition(s) && Control(s) && Logged(s)
  }

  function Start(bufSize: nat, buffers: seq<Report>): State {
    State([1, 2, 3, 4], [], Some(0), false, 0, buffers, bufSize, Waiting, None, [], [])
  }

  lemma StartInvariant(bufSize: nat, buffers: seq<Report>)
    requires |buffers| == MAX_REPORT_OPERATIONS
    ensures Invariant(Start(bufSize, buffers))
  {
    var s := Start(bufSize, buffers);
    hide Holders;
    HoldersAre(s, multiset{1, 2, 3, 4}, multiset{}, multiset{0}, multiset{});
    assert InFlight(s) == [];
  }

  lemma HeadRest(q: seq<nat>)
    ensures multiset(q) == multiset(Opt(Head(q))) + multiset(Rest(q))
  {
    if q != [] {
      assert q == [q[0]] + q[1..];
    }
  }

  /** The callback's node is nobody else's. */
  lemma ReportAlone(s: State)
    requires Partition(s) && s.report.Some?
    ensures s.report.value !in s.data && s.hand != s.report && s.report.value < |s.buffers|
  {
    var v := s.report.value;
    assert multiset(Opt(s.report))[v] == 1;
    assert Holders(s)[v] == ALL_NODES[v] <= 1;
    assert multiset(s.data)[v] == 0 && multiset(Opt(s.hand))[v] == 0;
    assert v in ALL_NODES;
    assert s.hand.Some? ==> multiset(Opt(s.hand))[s.hand.value] == 1;
  }

  lemma NodesInRange(s: State)
    requires Invariant(s)
    ensures |s.buffers| == MAX_REPORT_OPERATIONS
    ensures s.report.Some? ==> s.report.value < |s.buffers|
    ensures s.hand.Some? ==> s.hand.value < |s.buffers|
  {
    hide Logged;
    assert s.report.Some? ==> multiset(Opt(s.report))[s.report.value] == 1;
    assert s.hand.Some? ==> multiset(Opt(s.hand))[s.hand.value] == 1;
    assert forall v | v in Holders(s) :: v < MAX_REPORT_OPERATIONS;
  }

  /** Moving nodes between holders, as sums of multisets. */
  lemma Moves(a: multiset<nat>, b: multiset<nat>, c: multiset<nat>, d: multiset<nat>, e: multiset<nat>)
    ensures a + (d + b) + c + multiset{} == a + b + c + d
    ensures a + b + c + d == (a + d) + b + c + multiset{}
    ensures (d + a) + b + c + multiset{} == a + b + c + d
    ensures a + b + multiset{} + d == a + b + d + multiset{}
    ensures (e + a) + b + c + d == a + (b + c) + e + d
  {
  }

  lemma HoldersAre(s: State, a: multiset<nat>, b: multiset<nat>, c: multiset<nat>, d: multiset<nat>)
    requires multiset(s.free) == a && multiset(s.data) == b
    requires multiset(Opt(s.report)) == c && multiset(Opt(s.hand)) == d
    ensures Holders(s) == a + b + c + d
  {
  }

  lemma PutLength(buffers: seq<Report>, n: nat, r: Report)
    ensures |Put(buffers, n, r)| == |buffers|
  {
  }

  lemma CallbackPartition(s: State, r: Report)
    requires Partition(s)
    ensures Partition(Callback(s, r).0)
  {
    if s.report.Some? && |r| == s.bufSize {
      var t := Callback(s, r).0;
      PutLength(s.buffers, s.report.value, r);
      HeadRest(s.free);
      hide Holders, Put, Head, Rest;
      var h, a := multiset(Opt(Head(s.free))), multiset(Rest(s.free));
      var b, c, d := multiset(s.data), multiset(Opt(s.report)), multiset(Opt(s.hand));
      HoldersAre(s, h + a, b, c, d);
      HoldersAre(t, a, b + c, h, d);
      Moves(a, b, c, d, h);
    } else {
      hide Holders;
      HoldersSame(s, Callback(s, r).0);
    }
  }

  lemma HoldersSame(s: State, t: State)
    requires s.free == t.free && s.data == t.data && s.report == t.report && s.hand == t.hand
    ensures Holders(s) == Holders(t)
  {
  }

  lemma CallbackLogged(s: State, r: Report)
    requires Partition(s) && Logged(s)
    ensures Logged(Callback(s, r).0)
  {
    if s.report.Some? && |r| == s.bufSize {
      var v := s.report.value;
      ReportAlone(s);
      QueuedGrows(s.buffers, s.data, v, r);
      hide Partition, Queued;
      var t := Callback(s, r).0;
      var hand := if s.pc == Send && s.hand.Some? then [At(s.buffers, s.hand.value)] else [];
      assert InFlight(t) == hand + (Queued(s.buffers, s.data) + [r]);
      ConcatAssoc(hand, Queued(s.buffers, s.data), [r]);
      ConcatAssoc(s.sent, InFlight(s), [r]);
    }
  }

  lemma QueuedGrows(buffers: seq<Report>, data: seq<nat>, v: nat, r: Report)
    requires v < |buffers| && v !in data
    ensures Queued(Put(buffers, v, r), data + [v]) == Queued(buffers, data) + [r]
  {
  }

  lemma CallbackKeepsInvariant(s: State, r: Report)
    requires Invariant(s)
    ensures Invariant(Callback(s, r).0)
  {
    hide Partition, Logged;
    CallbackPartition(s, r);
    CallbackLogged(s, r);
  }

  lemma ThreadHolders(s: State)
    requires Control(s)
    ensures Holders(ThreadStep(s)) == Holders(s) && ThreadStep(s).buffers == s.buffers
  {
    hide Holders, Head, Rest, At;
    var t := ThreadStep(s);
    var a, b, c, d := multiset(s.free), multiset(s.data), multiset(Opt(s.report)), multiset(Opt(s.hand));
    HoldersAre(s, a, b, c, d);
    match s.pc
    case DequeueData =>
      var x, h := multiset(Rest(s.data)), multiset(Opt(Head(s.data)));
      HeadRest(s.data);
      HoldersAre(t, a, x, c, h);
      Moves(a, x, c, h, h);
    case Requeue =>
      HoldersAre(t, a + d, b, c, multiset{});
      Moves(a, b, c, d, d);
    case TakeFree =>
      var x, h := multiset(Rest(s.free)), multiset(Opt(Head(s.free)));
      HeadRest(s.free);
      HoldersAre(t, x, b, c, h);
      Moves(x, b, c, h, h);
    case Install =>
      HoldersAre(t, a, b, d, multiset{});
      Moves(a, b, c, d, d);
    case _ =>
      HoldersAre(t, a, b, c, d);
  }

  lemma ThreadPartition(s: State)
    requires Partition(s) && Control(s)
    ensures Partition(ThreadStep(s))
  {
    hide Holders, ThreadStep, ALL_NODES;
    ThreadHolders(s);
  }

  lemma ThreadLogged(s: State)
    requires Logged(s) && Control(s)
    ensures Logged(ThreadStep(s))
  {
    match s.pc
    case DequeueData =>
      if s.data != [] {
        assert Queued(s.buffers, s.data) == [At(s.buffers, s.data[0])] + Queued(s.buffers, s.data[1..]);
      }
    case Send =>
      hide Queued, At;
      ConcatAssoc(s.sent, [At(s.buffers, s.hand.value)], Queued(s.buffers, s.data));
      assert [] + Queued(s.buffers, s.data) == Queued(s.buffers, s.data);
    case _ =>
      hide Queued, At;
  }

  lemma ThreadKeepsInvariant(s: State)
    requires Invariant(s)
    ensures Invariant(ThreadStep(s))
  {
    hide Partition, Logged;
    ThreadPartition(s);
    ThreadLogged(s);
  }

  // ----- Runs -----

  function Next(s: State, e: Event): State {
    match e
    case Irq(r) => Callback(s, r).0
    case Thread => ThreadStep(s)
  }

  function Run(s: State, es: seq<Event>): State
    decreases |es|
  {
    if es == [] then s else Run(Next(s, es[0]), es[1..])
  }

  /** Node ownership over every interleaving of callbacks and thread steps. */
  lemma {:induction false} AlwaysInvariant(s: State, es: seq<Event>)
    requires Invariant(s)
    ensures Invariant(Run(s, es))
    decreases |es|
  {
    hide Invariant, Callback, ThreadStep;
    if es != [] {
      match es[0] {
        case Irq(r) => CallbackKeepsInvariant(s, r);
        case Thread => ThreadKeepsInvariant(s);
      }
      AlwaysInvariant(Next(s, es[0]), es[1..]);
    }
  }

  /**
   From power-on: what has been sent is always a prefix of what was accepted, and the rest is intact in the
   buffers.
   */
  lemma SentInOrder(bufSize: nat, buffers: seq<Report>, es: seq<Event>)
    requires |buffers| == MAX_REPORT_OPERATIONS
    ensures var s := Run(Start(bufSize, buffers), es);
            && s.sent <= s.accepted
            && s.accepted[|s.sent|..] == InFlight(s)
            && |s.free| + |s.data| + |Opt(s.report)| + |Opt(s.hand)| == MAX_REPORT_OPERATIONS
  {
    StartInvariant(bufSize, buffers);
    AlwaysInvariant(Start(bufSize, buffers), es);
    hide Run, InFlight;
    var s := Run(Start(bufSize, buffers), es);
    assert |Holders(s)| == |ALL_NODES|;
  }

  // ----- A request that is lost -----

  /** No node for the callback, and nobody who has been asked to supply one. */
  predicate Stuck(s: State) {
    s.report.None? && !s.request && !s.pc.TakeFree? && !s.pc.Install?
  }

  /** Once stuck, no interleaving ever gets another report accepted. */
  lemma {:induction false} StuckForEver(s: State, es: seq<Event>)
    requires Stuck(s)
    ensures Stuck(Run(s, es)) && Run(s, es).accepted == s.accepted
    decreases |es|
  {
    if es != [] {
      assert Stuck(Next(s, es[0])) && Next(s, es[0]).accepted == s.accepted;
      hide Stuck, Next;
      StuckForEver(Next(s, es[0]), es[1..]);
    }
  }

  /** The device becomes stuck exactly when the thread clears a request that is still, or again, unanswered. */
  lemma StuckIff(s: State, e: Event)
    requires Invariant(s) && !Stuck(s)
    ensures Stuck(Next(s, e)) <==> e == Thread && s.pc == ClearRequest && s.report.None?
  {
    hide Partition, Logged;
  }

  lemma RunCons(s: State, e: Event, es: seq<Event>)
    ensures Run(s, [e] + es) == Run(Next(s, e), es)
  {
    hide Next;
    assert ([e] + es)[1..] == es;
  }

  /** As many events of one kind. */
  function Repeat(e: Event, n: nat): seq<Event> {
    if n == 0 then [] else [e] + Repeat(e, n - 1)
  }

  /** Reports that find a node, with the thread asleep. */
  lemma {:induction false} Fill(s: State, r: Report, n: nat, tail: seq<Event>)
    requires |r| == s.bufSize && s.report.Some? && n == |s.free| + 1 && !s.request
    ensures Run(s, Repeat(Irq(r), n) + tail)
         == Run(Run(s, Repeat(Irq(r), n)), tail)
    ensures var t := Run(s, Repeat(Irq(r), n));
            && t.report == None && t.free == [] && t.request && t.pc == s.pc && t.hand == s.hand
            && t.data == s.data + Opt(s.report) + s.free && t.sem == s.sem + n && t.bufSize == s.bufSize
    decreases n
  {
    var rest := Repeat(Irq(r), n - 1);
    RunCons(s, Irq(r), rest);
    RunCons(s, Irq(r), rest + tail);
    assert [Irq(r)] + (rest + tail) == [Irq(r)] + rest + tail;
    assert Repeat(Irq(r), n) == [Irq(r)] + rest;
    var t := Next(s, Irq(r));
    hide Next, Repeat;
    if s.free == [] {
      assert rest == [] by { NoRepeat(Irq(r)); }
      assert [] + tail == tail;
      assert Run(t, []) == t;
      FillOne(s, r);
    } else {
      FillOne(s, r);
      Fill(t, r, n - 1, tail);
      assert s.data + Opt(s.report) + s.free == t.data + Opt(t.report) + t.free;
    }
  }

  lemma NoRepeat(e: Event)
    ensures Repeat(e, 0) == []
  {
  }

  lemma FillOne(s: State, r: Report)
    requires |r| == s.bufSize && s.report.Some?
    ensures var t := Next(s, Irq(r));
            && t.bufSize == s.bufSize && t.pc == s.pc && t.hand == s.hand && t.sem == s.sem + 1
            && t.data == s.data + Opt(s.report) && t.free == Rest(s.free) && t.report == Head(s.free)
            && (s.free != [] ==> t.request == s.request) && (s.free == [] ==> t.request)
  {
  }

  /**
   And it happens: reports until no node is left, one refill by the thread, one more report before it clears the
   request.
   */
  lemma RequestCanBeLost(r: Report)
    ensures exists es :: Stuck(Run(Start(|r|, [[], [], [], [], []]), es))
  {
    var s := Start(|r|, [[], [], [], [], []]);
    var refill := [Thread, Thread, Thread, Thread, Thread, Thread, Thread, Irq(r), Thread];
    Fill(s, r, 5, refill);
    var t := Run(s, Repeat(Irq(r), 5));
    assert t.data == [0, 1, 2, 3, 4];
    RefillLoses(t, r);
    hide *;
    assert Stuck(Run(s, Repeat(Irq(r), 5) + refill));
  }

  /** Four thread steps that send the oldest report and free its node. */
  lemma SendsOne(s: State, tail: seq<Event>)
    requires s.pc == Waiting && s.sem > 0 && s.data != [] && s.hand == None
    ensures var t := s.(sem := s.sem - 1, data := s.data[1..], free := s.free + [s.data[0]],
                        sent := s.sent + [At(s.buffers, s.data[0])], pc := CheckRequest);
            Run(s, [Thread, Thread, Thread, Thread] + tail) == Run(t, tail)
  {
    hide At, Run;
    var s1 := s.(sem := s.sem - 1, pc := DequeueData);
    var s2 := s1.(hand := Some(s.data[0]), data := s.data[1..], pc := Send);
    var s3 := s2.(sent := s.sent + [At(s.buffers, s.data[0])], pc := Requeue);
    assert ThreadStep(s) == s1;
    assert ThreadStep(s1) == s2;
    assert ThreadStep(s2) == s3;
    assert ThreadStep(s3) == s3.(free := s.free + [s.data[0]], hand := None, pc := CheckRequest);
    ThreadSteps(s, tail);
  }

  lemma ThreadSteps(s: State, tail: seq<Event>)
    ensures Run(s, [Thread, Thread, Thread, Thread] + tail)
         == Run(ThreadStep(ThreadStep(ThreadStep(ThreadStep(s)))), tail)
    ensures Run(s, [Thread, Thread, Thread] + tail) == Run(ThreadStep(ThreadStep(ThreadStep(s))), tail)
  {
    hide ThreadStep, Run;
    var t := ThreadStep(s);
    RunCons(s, Thread, [Thread, Thread, Thread] + tail);
    RunCons(s, Thread, [Thread, Thread] + tail);
    RunCons(t, Thread, [Thread, Thread] + tail);
    RunCons(t, Thread, [Thread] + tail);
    RunCons(ThreadStep(t), Thread, [Thread] + tail);
    RunCons(ThreadStep(t), Thread, tail);
    RunCons(ThreadStep(ThreadStep(t)), Thread, tail);
    assert [Thread] + ([Thread, Thread, Thread] + tail) == [Thread, Thread, Thread, Thread] + tail;
    assert [Thread] + ([Thread, Thread] + tail) == [Thread, Thread, Thread] + tail;
    assert [Thread] + ([Thread] + tail) == [Thread, Thread] + tail;
  }

  /** Three thread steps that answer a request. */
  lemma Refills(s: State, tail: seq<Event>)
    requires s.pc == CheckRequest && s.request && s.free != []
    ensures var t := s.(free := s.free[1..], report := Some(s.free[0]), hand := None, pc := ClearRequest);
            Run(s, [Thread, Thread, Thread] + tail) == Run(t, tail)
  {
    hide Run;
    var s1 := s.(pc := TakeFree);
    var s2 := s1.(hand := Some(s.free[0]), free := s.free[1..], pc := Install);
    assert ThreadStep(s) == s1;
    assert ThreadStep(s1) == s2;
    ThreadSteps(s, tail);
  }

  lemma RefillLoses(s: State, r: Report)
    requires s.pc == Waiting && s.sem > 0 && s.data != [] && s.free == [] && s.request && s.hand == None
    requires |r| == s.bufSize
    ensures Stuck(Run(s, [Thread, Thread, Thread, Thread, Thread, Thread, Thread, Irq(r), Thread]))
  {
    hide Run, At;
    var tail := [Irq(r), Thread];
    SendsOne(s, [Thread, Thread, Thread] + tail);
    var t := s.(sem := s.sem - 1, data := s.data[1..], free := [] + [s.data[0]],
                sent := s.sent + [At(s.buffers, s.data[0])], pc := CheckRequest);
    Refills(t, tail);
    var u := t.(free := [], report := Some(s.data[0]), hand := None, pc := ClearRequest);
    assert t.free[1..] == [];
    Loses(u, r);
    assert [Thread, Thread, Thread, Thread] + ([Thread, Thread, Thread] + tail)
        == [Thread, Thread, Thread, Thread, Thread, Thread, Thread, Irq(r), Thread];
  }

  lemma Loses(u: State, r: Report)
    requires u.pc == ClearRequest && u.free == [] && u.report.Some? && |r| == u.bufSize
    ensures Stuck(Run(u, [Irq(r), Thread]))
  {
    var d := Callback(u, r).0;
    RunCons(u, Irq(r), [Thread]);
    RunCons(d, Thread, []);
    assert [Thread] + [] == [Thread];
    assert Run(ThreadStep(d), []) == ThreadStep(d);
    hide Run, Put;
  }
}
