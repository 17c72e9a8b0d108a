/**
 hid.c, the sender thread as a whole: one turn of its loop, and what comes of all accepted reports once it is left to
 run.
 */
module HidThread {
  import opened Bytes
  import opened Hid

  // ----- What a report is answered -----

  /**
   A report is refused without a node, before its length is looked at, and then still wakes the thread; it is
   refused without that when its length is wrong; otherwise it is stored in the callback's node, queued, and counted.
   */
  lemma CallbackAnswers(s: State, r: Report)
    requires Invariant(s)
    ensures var (t, answer) := Callback(s, r);
            && (s.report.None? ==> answer == OutOfNodes && t == s.(sem := s.sem + 1))
            && (s.report.Some? && |r| != s.bufSize ==> answer == BadLength && t == s)
            && (s.report.Some? && |r| == s.bufSize ==>
                  && answer == Accepted && t.sem == s.sem + 1 && t.accepted == s.accepted + [r]
                  && t.data == s.data + [s.report.value] && At(t.buffers, s.report.value) == r
                  && (s.free == [] ==> t.report == None && t.free == [] && t.request)
                  && (s.free != [] ==>
                        t.report == Some(s.free[0]) && t.free == s.free[1..] && t.request == s.request))
  {
    NodesInRange(s);
    hide Invariant;
    if s.report.Some? && |r| == s.bufSize {
      StoredAt(s.buffers, s.report.value, r);
      hide Put, At;
    } else {
      hide Put, At, Head, Rest;
    }
  }

  lemma StoredAt(buffers: seq<Report>, n: nat, r: Report)
    requires n < |buffers|
    ensures At(Put(buffers, n, r), n) == r
  {
  }

  // ----- Nobody sleeps on a queued report -----

  /** The semaphore has a count for every queued report but the one the thread is about to take. */
  predicate Posted(s: State) {
    |s.data| <= s.sem + if s.pc == DequeueData then 1 else 0
  }

  lemma PostedStep(s: State, e: Event)
    requires Posted(s)
    ensures Posted(Next(s, e))
  {
    hide At, Put;
  }

  /** So under every interleaving the thread never waits on the semaphore while a report is queued. */
  lemma {:induction false} AlwaysPosted(s: State, es: seq<Event>)
    requires Posted(s)
    ensures var t := Run(s, es);
            Posted(t) && (t.pc == Waiting && t.data != [] ==> ThreadStep(t).pc == DequeueData)
    decreases |es|
  {
    hide Next;
    if es != [] {
      PostedStep(s, es[0]);
      AlwaysPosted(Next(s, es[0]), es[1..]);
    }
  }

  // ----- One turn of the loop -----

  /** The first half of the loop body: the oldest queued report is sent and its node freed. */
  function SendHalf(s: State): State {
    if s.data == [] then s
    else
      s.(sent := s.sent + [At(s.buffers, s.data[0])], data := s.data[1..], free := s.free + [s.data[0]])
  }

  /** The second half: a request for a node is answered with the oldest free one. */
  function RefillHalf(s: State): State {
    if !s.request then s
    else if s.free == [] then s.(report := None, request := false)
    else s.(report := Some(s.free[0]), free := s.free[1..], request := false)
  }

  lemma RepeatCons(s: State, n: nat)
    ensures Run(s, Repeat(Thread, n + 1)) == Run(ThreadStep(s), Repeat(Thread, n))
  {
    assert Repeat(Thread, n + 1) == [Thread] + Repeat(Thread, n);
    RunCons(s, Thread, Repeat(Thread, n));
  }

  lemma RepeatNone(s: State)
    ensures Run(s, Repeat(Thread, 0)) == s
  {
  }

  lemma {:induction false} RepeatAppend(s: State, m: nat, n: nat)
    ensures Run(s, Repeat(Thread, m + n)) == Run(Run(s, Repeat(Thread, m)), Repeat(Thread, n))
    decreases m
  {
    hide ThreadStep;
    if m == 0 {
      RepeatNone(s);
    } else {
      RepeatCons(s, m - 1 + n);
      RepeatCons(s, m - 1);
      RepeatAppend(ThreadStep(s), m - 1, n);
    }
  }

  lemma SendTurn(s: State) returns (n: nat)
    requires s.pc == Waiting && s.sem > 0 && s.hand == None
    ensures Run(s, Repeat(Thread, n)) == SendHalf(s.(sem := s.sem - 1, pc := CheckRequest))
  {
    hide At, Run;
    var a := s.(sem := s.sem - 1, pc := DequeueData);
    assert a == ThreadStep(s);
    if s.data == [] {
      assert ThreadStep(a) == SendHalf(s.(sem := s.sem - 1, pc := CheckRequest));
      n := 2;
      RepeatCons(s, 1);
      RepeatCons(a, 0);
      RepeatNone(ThreadStep(a));
    } else {
      var b := a.(hand := Some(s.data[0]), data := s.data[1..], pc := Send);
      var c := b.(sent := s.sent + [At(s.buffers, s.data[0])], pc := Requeue);
      assert b == ThreadStep(a) && c == ThreadStep(b);
      assert ThreadStep(c) == SendHalf(s.(sem := s.sem - 1, pc := CheckRequest));
      n := 4;
      hide ThreadStep, SendHalf;
      RepeatCons(s, 3);
      RepeatCons(a, 2);
      RepeatCons(b, 1);
      RepeatCons(c, 0);
      RepeatNone(ThreadStep(c));
    }
  }

  lemma RefillTurn(s: State) returns (n: nat)
    requires s.pc == CheckRequest && s.hand == None
    ensures Run(s, Repeat(Thread, n)) == RefillHalf(s.(pc := Waiting))
  {
    hide Run;
    if !s.request {
      assert ThreadStep(s) == RefillHalf(s.(pc := Waiting));
      n := 1;
      RepeatCons(s, 0);
      RepeatNone(ThreadStep(s));
    } else {
      var a := s.(pc := TakeFree);
      var b := a.(hand := Head(s.free), free := Rest(s.free), pc := Install);
      var c := b.(report := Head(s.free), hand := None, pc := ClearRequest);
      assert a == ThreadStep(s) && b == ThreadStep(a) && c == ThreadStep(b);
      assert ThreadStep(c) == RefillHalf(s.(pc := Waiting));
      n := 4;
      hide ThreadStep, RefillHalf;
      RepeatCons(s, 3);
      RepeatCons(a, 2);
      RepeatCons(b, 1);
      RepeatCons(c, 0);
      RepeatNone(ThreadStep(c));
    }
  }

  /** Left alone, the thread's steps from one wait to the next are one turn of the loop. */
  lemma TurnRuns(s: State) returns (n: nat)
    requires s.pc == Waiting && s.sem > 0 && s.hand == None
    ensures Run(s, Repeat(Thread, n)) == RefillHalf(SendHalf(s.(sem := s.sem - 1)))
  {
    var a := SendHalf(s.(sem := s.sem - 1, pc := CheckRequest));
    var j := SendTurn(s);
    assert a.pc == CheckRequest && a.hand == None;
    var k := RefillTurn(a);
    hide Run;
    RepeatAppend(s, j, k);
    n := j + k;
  }

  // ----- Every accepted report is sent -----

  lemma {:induction false} ThreadKeeps(s: State, n: nat)
    requires Invariant(s) && Posted(s)
    ensures var t := Run(s, Repeat(Thread, n));
            Invariant(t) && Posted(t) && t.accepted == s.accepted
    decreases n
  {
    hide Invariant, Run, ThreadStep;
    if n == 0 {
      RepeatNone(s);
    } else {
      RepeatCons(s, n - 1);
      ThreadKeepsInvariant(s);
      PostedStep(s, Thread);
      SameAccepted(s);
      ThreadKeeps(ThreadStep(s), n - 1);
    }
  }

  lemma SameAccepted(s: State)
    ensures ThreadStep(s).accepted == s.accepted && Next(s, Thread) == ThreadStep(s)
  {
    hide At;
  }

  /** How many steps the thread is away from its wait at most. */
  function StepsLeft(pc: Pc): nat {
    match pc
    case Waiting => 0
    case ClearRequest => 1
    case Install => 2
    case TakeFree => 3
    case CheckRequest => 4
    case Requeue => 5
    case Send => 6
    case DequeueData => 7
  }

  lemma {:induction false} Returns(s: State) returns (n: nat)
    requires Invariant(s) && Posted(s)
    ensures var t := Run(s, Repeat(Thread, n));
            t.pc == Waiting && Invariant(t) && Posted(t) && t.accepted == s.accepted
    decreases StepsLeft(s.pc)
  {
    hide *;
    if s.pc == Waiting {
      n := 0;
      RepeatNone(s);
    } else {
      var t := ThreadStep(s);
      StepsFewer(s);
      ThreadKeepsInvariant(s);
      PostedStep(s, Thread);
      SameAccepted(s);
      var k := Returns(t);
      n := k + 1;
      RepeatCons(s, k);
    }
  }

  lemma StepsFewer(s: State)
    requires Invariant(s) && s.pc != Waiting
    ensures StepsLeft(ThreadStep(s).pc) < StepsLeft(s.pc)
  {
    hide At, Partition, Logged;
  }

  /** The thread sleeps, nothing is queued, and these reports are what has been sent. */
  predicate Asleep(t: State, reports: seq<Report>) {
    t.pc == Waiting && t.sem == 0 && t.data == [] && t.sent == reports
  }

  /** Waiting with nothing to wake it, the thread has sent everything. */
  lemma AsleepMeansSent(s: State)
    requires Invariant(s) && Posted(s) && s.pc == Waiting && s.sem == 0
    ensures Asleep(s, s.accepted)
  {
    assert s.data == [];
    assert InFlight(s) == [];
    hide Partition, Control, InFlight;
    assert s.sent + [] == s.sent;
  }

  lemma {:induction false} DrainsFromWait(s: State) returns (n: nat)
    requires Invariant(s) && Posted(s) && s.pc == Waiting
    ensures var t := Run(s, Repeat(Thread, n));
            Asleep(t, s.accepted)
    decreases s.sem
  {
    hide *;
    if s.sem == 0 {
      AsleepMeansSent(s);
      n := 0;
      RepeatNone(s);
    } else {
      HandEmpty(s);
      var j := TurnRuns(s);
      var t := RefillHalf(SendHalf(s.(sem := s.sem - 1)));
      ThreadKeeps(s, j);
      TurnFields(s);
      var k := DrainsFromWait(t);
      RepeatAppend(s, j, k);
      n := j + k;
    }
  }

  lemma HandEmpty(s: State)
    requires Invariant(s) && s.pc == Waiting
    ensures s.hand == None
  {
    hide Partition, Logged;
  }

  lemma TurnFields(s: State)
    requires s.sem > 0 && s.pc == Waiting
    ensures var t := RefillHalf(SendHalf(s.(sem := s.sem - 1)));
            t.sem == s.sem - 1 && t.pc == Waiting && t.accepted == s.accepted
  {
    hide At;
  }

  /**
   From every state an interleaving can lead to: left to run, the thread sends every accepted report, in order, and
   goes to sleep.
   */
  lemma EveryReportSent(bufSize: nat, buffers: seq<Report>, es: seq<Event>) returns (n: nat)
    requires |buffers| == MAX_REPORT_OPERATIONS
    ensures var s := Run(Start(bufSize, buffers), es);
            var t := Run(s, Repeat(Thread, n));
            Asleep(t, s.accepted)
  {
    hide *;
    var s := Run(Start(bufSize, buffers), es);
    Reachable(bufSize, buffers, es);
    var j := Returns(s);
    var k := DrainsFromWait(Run(s, Repeat(Thread, j)));
    RepeatAppend(s, j, k);
    n := j + k;
  }

  lemma Reachable(bufSize: nat, buffers: seq<Report>, es: seq<Event>)
    requires |buffers| == MAX_REPORT_OPERATIONS
    ensures Invariant(Run(Start(bufSize, buffers), es)) && Posted(Run(Start(bufSize, buffers), es))
  {
    hide *;
    StartInvariant(bufSize, buffers);
    StartPosted(bufSize, buffers);
    AlwaysInvariant(Start(bufSize, buffers), es);
    AlwaysPosted(Start(bufSize, buffers), es);
  }

  lemma StartPosted(bufSize: nat, buffers: seq<Report>)
    ensures Posted(Start(bufSize, buffers))
  {
  }

  /** And a request for a node is answered by the next turn, unless it is cleared before. */
  lemma RequestAnswered(s: State)
    requires Invariant(s) && s.pc == Waiting && s.request && s.sem > 0
    ensures var t := RefillHalf(SendHalf(s.(sem := s.sem - 1)));
            t.report.Some? && !t.request
  {
    assert s.report == None && s.hand == None;
    assert |Holders(s)| == |ALL_NODES|;
    hide Invariant, Holders;
    assert |s.free| + |s.data| == 5 by { assert |Holders(s)| == |s.free| + |s.data| by { HolderCount(s); } }
  }

  lemma HolderCount(s: State)
    ensures |Holders(s)| == |s.free| + |s.data| + |Opt(s.report)| + |Opt(s.hand)|
  {
  }
}
