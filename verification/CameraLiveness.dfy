/**
 The camera left to run: what the worker does from one wake-up to the next, that a running stream goes on being
 served, that a stopped one winds down, and how a flush and a configuration are answered.
 */
module CameraLiveness {
  import opened Bytes
  import opened Camera
  import opened CameraRequests

  const EMPTY := Work(None, true)

  // ----- One wake-up of the worker, uninterrupted -----

  /** The stream is no longer running: the worker ends at once. */
  lemma WakesInVain(s: State)
    requires s.w == WIdle && s.sh.scheduled && s.sh.stream != Streaming
    ensures Run(s, [STEP, STEP]) == s.(sh := s.sh.(scheduled := false))
  {
    var a := s.(sh := s.sh.(scheduled := false), w := WCheck);
    assert a == Next(s, STEP) && Next(a, STEP) == s.(sh := s.sh.(scheduled := false));
    hide Next;
    Two(s, a, STEP);
  }

  /** No buffer is ready: the worker is scheduled again and all is as before. */
  lemma EmptyTurn(s: State)
    requires s.w == WIdle && s.sh == Shared(Streaming, true, false)
    ensures Run(s, [EMPTY, EMPTY, EMPTY, EMPTY, EMPTY]) == s
  {
    var a := s.(sh := Shared(Streaming, false, false), w := WCheck);
    var b, c, d := a.(w := WDequeue), a.(w := WRetry), a.(w := WSchedule);
    assert a == Next(s, EMPTY) && b == Next(a, EMPTY) && c == Next(b, EMPTY) && d == Next(c, EMPTY);
    assert s == Next(d, EMPTY);
    hide Next;
    Five(s, a, b, c, d, EMPTY);
  }

  /** The frame is over the target: it is counted, not sent, and the stream ends. */
  lemma FinalTurn(s: State)
    requires s.w == WIdle && s.sh == Shared(Streaming, true, false) && OverTarget(Bump(s.n))
    ensures Run(s, [STEP, STEP, STEP, STEP, STEP] + [STEP])
         == s.(sh := Shared(Idle, false, false), n := Bump(s.n).(complete := true))
  {
    var a := s.(sh := Shared(Streaming, false, false), w := WCheck);
    var b, c := a.(w := WDequeue), a.(w := WCount([0]));
    var d := a.(w := WReached, n := Bump(s.n));
    assert CountStep(c, [0]) == d;
    hide CountStep, Bump;
    var e := d.(w := WTail, sh := Shared(Idle, false, false), n := d.n.(complete := true));
    assert a == Next(s, STEP) && b == Next(a, STEP) && c == Next(b, STEP) && d == Next(c, STEP);
    assert e == Next(d, STEP);
    assert Next(e, STEP) == e.(w := WIdle);
    hide Next;
    Five(s, a, b, c, d, STEP);
    Single(e, STEP);
    RunAppend(s, [STEP, STEP, STEP, STEP, STEP], [STEP]);
  }

  /** The worker has let a frame through. */
  function LetThrough(s: State, frame: seq<byte>): State {
    s.(sh := s.sh.(scheduled := false), n := Bump(s.n).(passed := s.n.passed + 1), w := WSend(frame, 0),
       cuts := s.cuts + [Cut(frame, 0)])
  }

  lemma TakesFrame(s: State, frame: seq<byte>)
    requires s.w == WIdle && s.sh == Shared(Streaming, true, false) && !OverTarget(Bump(s.n))
    ensures var e := Work(Some(frame), true);
            Run(s, [e, e, e] + [e]) == LetThrough(s, frame)
  {
    var e := Work(Some(frame), true);
    var a := s.(sh := Shared(Streaming, false, false), w := WCheck);
    var b, c := a.(w := WDequeue), a.(w := WCount(frame));
    assert CountStep(c, frame) == LetThrough(s, frame) by { BumpReads(c.n, s.n); }
    hide CountStep, LetThrough, Bump, OverTarget;
    assert a == Next(s, e) && b == Next(a, e) && c == Next(b, e) && Next(c, e) == LetThrough(s, frame);
    hide Next;
    Three(s, a, b, e);
    Single(c, e);
    RunAppend(s, [e, e, e], [e]);
  }

  /** From the end of the frame, sent or refused, the worker is scheduled again. */
  lemma SchedulesAgain(s: State)
    requires s.w == WEnqueue && s.sh == Shared(Streaming, false, false)
    ensures Run(s, [EMPTY, EMPTY, EMPTY]) == s.(sh := Shared(Streaming, true, false), w := WIdle)
  {
    var a, b := s.(w := WDecide), s.(w := WSchedule);
    assert a == Next(s, EMPTY) && b == Next(a, EMPTY);
    assert Next(b, EMPTY) == s.(sh := Shared(Streaming, true, false), w := WIdle);
    hide Next;
    Three(s, a, b, EMPTY);
  }

  /**
   A frame within the target: the counter moves, exactly the fragments of the frame are sent, under the new frame id,
   and the worker is scheduled again.
   */
  lemma FrameTurn(s: State, frame: seq<byte>) returns (es: seq<Event>)
    requires s.w == WIdle && s.sh == Shared(Streaming, true, false) && !OverTarget(Bump(s.n))
    ensures var t := Run(s, es);
            && t == s.(n := t.n, cuts := t.cuts, log := t.log)
            && t.n == Bump(s.n).(passed := s.n.passed + 1)
            && t.log == s.log + Chunks(t.n.frameId, frame)
  {
    var e := Work(Some(frame), true);
    TakesFrame(s, frame);
    var a := LetThrough(s, frame);
    var cs := Chunks(a.n.frameId, frame);
    assert frame[0..] == frame;
    SendingUninterrupted(a, frame, 0);
    var sends := Repeat(EMPTY, |cs| + 1);
    var b := Run(a, sends);
    SchedulesAgain(b);
    hide *;
    RunAppend(s, [e, e, e] + [e], sends);
    RunAppend(s, [e, e, e] + [e] + sends, [EMPTY, EMPTY, EMPTY]);
    es := [e, e, e] + [e] + sends + [EMPTY, EMPTY, EMPTY];
    LetThroughFields(s, frame);
  }

  lemma LetThroughFields(s: State, frame: seq<byte>)
    ensures var a := LetThrough(s, frame);
            && a == s.(sh := a.sh, n := a.n, w := a.w, cuts := a.cuts) && a.sh == s.sh.(scheduled := false)
            && a.n == Bump(s.n).(passed := s.n.passed + 1)
  {
    hide Bump;
  }

  /** A fragment that slab or transport refuses ends the frame there, and nothing else. */
  lemma RefusedFragment(s: State)
    requires s.w.WSend?
    ensures Next(s, Work(None, false)) == s.(w := WEnqueue)
  {
  }

  // ----- A running stream goes on -----

  /** How far the worker is from the end of its turn, when fragments are refused. */
  function StepsLeft(w: Worker): nat {
    match w
    case WIdle => 0
    case WTail => 1
    case WSchedule => 1
    case WReached => 2
    case WDecide => 2
    case WRetry => 2
    case WEnqueue => 3
    case WSend(_, _) => 4
    case WCount(_) => 5
    case WDequeue => 6
    case WCheck => 7
  }

  lemma StepsFewer(s: State)
    requires s.w != WIdle
    ensures StepsLeft(WorkStep(s, None, false).w) < StepsLeft(s.w)
  {
    hide Bump, OverTarget;
  }

  /** The worker comes to the end of its turn, whatever control is doing meanwhile. */
  lemma {:induction false} TurnEnds(s: State) returns (n: nat)
    requires Invariant(s)
    ensures var t := Run(s, Repeat(Work(None, false), n));
            && t.w == WIdle && Invariant(t) && t.c == s.c && t.info == s.info && t.replies == s.replies
    ensures s.c != Ready ==> Busy(s, Repeat(Work(None, false), n))
    decreases StepsLeft(s.w)
  {
    hide *;
    var e := Work(None, false);
    if s.w == WIdle {
      n := 0;
      RepeatNone(s, e);
    } else {
      var t := Next(s, e);
      StepsFewer(s);
      NextIsWork(s, None, false);
      WorkLeavesControl(s, None, false);
      NextKeepsInvariant(s, e);
      var k := TurnEnds(t);
      RepeatFirst(s, e, k);
      RepeatBusy(s, e, k);
      n := k + 1;
    }
  }

  lemma RepeatNone(s: State, e: Event)
    ensures Run(s, Repeat(e, 0)) == s && Busy(s, Repeat(e, 0))
  {
  }

  lemma RepeatBusy(s: State, e: Event, n: nat)
    ensures s.c != Ready && Busy(Next(s, e), Repeat(e, n)) ==> Busy(s, Repeat(e, n + 1))
  {
    hide Next;
    assert Repeat(e, n + 1)[0] == e && Repeat(e, n + 1)[1..] == Repeat(e, n);
  }

  lemma NextIsWork(s: State, buffer: Option<seq<byte>>, ok: bool)
    ensures Next(s, Work(buffer, ok)) == WorkStep(s, buffer, ok)
  {
    hide WorkStep;
  }

  /**
   From every state between requests in which the stream is running or a worker active, the worker comes back to rest,
   and if the stream then still runs it is scheduled, so the next frame within the target goes out whole and one over
   it ends the stream.
   */
  lemma RunningStreamServed(s: State, frame: seq<byte>) returns (es: seq<Event>)
    requires Invariant(s) && s.c == Ready
    ensures var t := Run(s, es);
            && Invariant(t) && t.c == Ready && t.w == WIdle
            && (t.sh.stream == Streaming ==> t.sh == Shared(Streaming, true, false))
    ensures var t := Run(s, es);
            t.sh.stream == Streaming && !OverTarget(Bump(t.n)) ==>
              exists more :: Run(t, more).log == t.log + Chunks(Bump(t.n).frameId, frame) && Run(t, more).sh == t.sh
    ensures var t := Run(s, es);
            t.sh.stream == Streaming && OverTarget(Bump(t.n)) ==>
              exists more :: Run(t, more).log == t.log && Run(t, more).sh.stream == Idle
  {
    hide *;
    var n := TurnEnds(s);
    es := Repeat(Work(None, false), n);
    var t := Run(s, es);
    AtRest(t);
    if t.sh.stream == Streaming {
      if OverTarget(Bump(t.n)) {
        FinalTurn(t);
        var more := [STEP, STEP, STEP, STEP, STEP] + [STEP];
        assert Run(t, more).log == t.log && Run(t, more).sh.stream == Idle;
      } else {
        var more := FrameTurn(t, frame);
        BumpKeepsId(t.n);
        assert Run(t, more).log == t.log + Chunks(Bump(t.n).frameId, frame) && Run(t, more).sh == t.sh;
      }
    }
  }

  lemma BumpKeepsId(n: Tally)
    ensures Bump(n).(passed := n.passed + 1).frameId == Bump(n).frameId
  {
    hide Bump;
  }

  lemma AtRest(s: State)
    requires Invariant(s) && s.w == WIdle && s.c == Ready
    ensures s.sh.stream == Streaming ==> s.sh == Shared(Streaming, true, false)
  {
    hide Counted, Logged, InfoAgrees;
  }

  /** For instance after an empty dequeue: the worker comes back and sends the frame that is there by then. */
  lemma EmptyDequeueRetries(s: State)
    requires s.w == WDequeue && s.sh == Shared(Streaming, false, false) && !OverTarget(Bump(s.n))
    ensures var t := Run(s, [EMPTY, EMPTY, EMPTY] + [STEP, STEP, STEP, STEP, STEP]);
            t.log == s.log + [Fragment(Bump(s.n).frameId, [0])]
  {
    var a, b := s.(w := WRetry), s.(w := WSchedule);
    var c := s.(sh := Shared(Streaming, true, false), w := WIdle);
    assert a == Next(s, EMPTY) && b == Next(a, EMPTY) && c == Next(b, EMPTY);
    hide Next, Bump, OverTarget;
    Three(s, a, b, EMPTY);
    FragmentRun(c);
    RunAppend(s, [EMPTY, EMPTY, EMPTY], [STEP, STEP, STEP, STEP, STEP]);
  }

  // ----- A stopped stream winds down -----

  /** How many more frames the worker may let through once the stream is not running. */
  function InHandOf(w: Worker): nat {
    if w.WDequeue? || w.WCount? then 1 else 0
  }

  lemma WindStep(s: State, e: Event)
    requires Invariant(s) && s.sh.stream != Streaming && !StartsStream(s, e)
    ensures var t := Next(s, e);
            && t.sh.stream != Streaming
            && |t.cuts| + InHandOf(t.w) <= |s.cuts| + InHandOf(s.w)
            && (s.w != WSchedule && !s.sh.scheduled ==> t.w != WSchedule && !t.sh.scheduled)
  {
    hide Counted, Logged, InfoAgrees, Bump, OverTarget, ChunkLen;
    match e
    case Work(buffer, ok) =>
      hide GoStep;
    case Go(ok) =>
      GoFrames(s, ok);
      hide WorkStep, GoStep;
    case _ =>
      hide WorkStep, GoStep;
  }

  lemma GoFrames(s: State, ok: bool)
    requires Sync(s.sh, s.w, s.c, s.quiet) && s.sh.stream != Streaming && s.c != StartSet
    ensures var t := GoStep(s, ok);
            t.cuts == s.cuts && t.w == s.w && t.sh.stream != Streaming && (t.sh.scheduled ==> s.sh.scheduled)
  {
  }

  /**
   Once the stream is not running, and until it is started again, at most the frame that is past the check goes out,
   and a worker that is not on its way to being scheduled is never scheduled again, under every interleaving.
   */
  lemma {:induction false} StoppedWinds(s: State, es: seq<Event>)
    requires Invariant(s) && s.sh.stream != Streaming && !Starts(s, es)
    ensures var t := Run(s, es);
            && t.sh.stream != Streaming
            && |t.cuts| + InHandOf(t.w) <= |s.cuts| + InHandOf(s.w)
            && (s.w != WSchedule && !s.sh.scheduled ==> t.w != WSchedule && !t.sh.scheduled)
    decreases |es|
  {
    if es != [] {
      WindStep(s, es[0]);
      NextKeepsInvariant(s, es[0]);
      hide Invariant, Next, InHandOf;
      StoppedWinds(Next(s, es[0]), es[1..]);
    }
  }

  // ----- How a flush is answered -----

  /** The control thread executes the step at `c`, with that outcome. */
  predicate Executes(s: State, es: seq<Event>, c: Control, ok: bool)
    decreases |es|
  {
    es != [] && ((es[0] == Go(ok) && s.c == c) || Executes(Next(s, es[0]), es[1..], c, ok))
  }

  predicate Flushing(c: Control) {
    || c == StopCheck(true) || c == StopSet(true) || c == StopCancel(true) || c == StopWait(true)
    || c == StopIdle(true) || c == FlushVideo || c == FlushDriver || c == FlushDone
  }

  lemma FlushingStep(s: State, e: Event)
    requires Flushing(s.c)
    ensures var t := Next(s, e);
            && (Flushing(t.c) ==> t.replies == s.replies && t.info == s.info)
            && (!Flushing(t.c) ==> t.c == Ready)
            && (e == Go(false) && (s.c == FlushVideo || s.c == FlushDriver) ==>
                  t.c == Ready && t.replies == s.replies + [UnknownError] && t.info == s.info)
            && (t.c == Ready && !(e == Go(false) && (s.c == FlushVideo || s.c == FlushDriver)) ==>
                  s.c == FlushDone && t.replies == s.replies + [Flushed(s.n.frameId)] && t.info == Configured
                  && t.n == s.n)
            && (t.c == FlushDriver ==> s.c == FlushDriver || (s.c == FlushVideo && e == Go(true)))
            && (t.c == FlushDone ==> s.c == FlushDone || (s.c == FlushDriver && e == Go(true)))
  {
    if e.Work? {
      WorkLeavesControl(s, e.buffer, e.ok);
    }
    hide WorkStep;
  }

  /** One of the two calls into the video device fails. */
  predicate DeviceFails(s: State, es: seq<Event>) {
    Executes(s, es, FlushVideo, false) || Executes(s, es, FlushDriver, false)
  }

  lemma ExecutesFirst(s: State, es: seq<Event>, c: Control, ok: bool)
    requires es != []
    ensures Executes(s, es, c, ok) <==> (es[0] == Go(ok) && s.c == c) || Executes(Next(s, es[0]), es[1..], c, ok)
    ensures !Executes(Next(s, es[0]), [], c, ok)
  {
    hide Next;
  }

  /** What is still ahead of a flush that succeeds. */
  predicate BothAsked(s: State, es: seq<Event>) {
    && (s.c != FlushDone && s.c != FlushDriver ==> Executes(s, es, FlushVideo, true))
    && (s.c != FlushDone ==> Executes(s, es, FlushDriver, true))
  }

  lemma {:induction false} FlushResolves(s: State, es: seq<Event>)
    requires Flushing(s.c) && Handling(s, es)
    ensures var t := Run(s, es);
            && (DeviceFails(s, es) ==> Told(s, es) == [UnknownError] && t.info == s.info)
            && (!DeviceFails(s, es) ==>
                  Told(s, es) == [Flushed(t.n.frameId)] && t.info == Configured && BothAsked(s, es))
    decreases |es|
  {
    FlushingBusy(s.c);
    HandlingStep(s, es);
    var t := Next(s, es[0]);
    hide Next, Handling, Busy, Told, Run;
    FlushingStep(s, es[0]);
    ExecutesFirst(s, es, FlushVideo, false);
    ExecutesFirst(s, es, FlushDriver, false);
    ExecutesFirst(s, es, FlushVideo, true);
    ExecutesFirst(s, es, FlushDriver, true);
    assert es == [es[0]] + es[1..];
    ToldFirst(s, es[0], es[1..]);
    RunFirst(s, es);
    hide Executes;
    if Flushing(t.c) {
      FlushResolves(t, es[1..]);
    } else {
      assert es[1..] == [];
      ToldNothing(t);
    }
  }

  lemma FlushingBusy(c: Control)
    ensures Flushing(c) ==> c != Ready
  {
  }

  lemma RunFirst(s: State, es: seq<Event>)
    requires es != []
    ensures Run(s, es) == Run(Next(s, es[0]), es[1..])
    ensures Run(Next(s, es[0]), []) == Next(s, es[0])
  {
    hide Next;
  }

  /**
   A flush request, under every interleaving up to its answer: refused at once when the camera is not capturing;
   otherwise answered with success, with the frame counter, and the camera configured and idle, exactly when neither
   stopping nor flushing the device fails, both having been asked in this case; and with an error, still capturing,
   when one fails.
   */
  lemma FlushAnswers(s: State, es: seq<Event>)
    requires Invariant(s) && s.c == Ready && Handling(Next(s, Flush), es)
    ensures var a := Next(s, Flush);
            var t := Run(a, es);
            && (s.info != Capturing ==> es == [] && t == s.(replies := s.replies + [Invalid]))
            && (s.info == Capturing ==>
                  && a.replies == s.replies && Told(a, es) == [if DeviceFails(a, es) then UnknownError
                                                               else Flushed(t.n.frameId)]
                  && t.info == (if DeviceFails(a, es) then Capturing else Configured)
                  && (!DeviceFails(a, es) ==>
                        Executes(a, es, FlushVideo, true) && Executes(a, es, FlushDriver, true)
                        && t.sh.stream == Idle))
  {
    var a := Next(s, Flush);
    assert s.info != Capturing ==> a == s.(replies := s.replies + [Invalid]);
    assert s.info == Capturing ==> a.c == StopCheck(true) && a.replies == s.replies && a.info == s.info;
    NextKeepsInvariant(s, Flush);
    hide Invariant, Next;
    if s.info == Capturing {
      FlushResolves(a, es);
      AlwaysInvariant(a, es);
      IdleWhenConfigured(Run(a, es));
    } else {
      assert Run(a, []) == a;
    }
  }

  /** And a flush does come to its answer: with a willing device, control and worker left to run end in success. */
  lemma FlushEnds(s: State) returns (es: seq<Event>)
    requires Invariant(s) && s.c == Ready && s.info == Capturing
    ensures var a := Next(s, Flush);
            Handling(a, es) && Told(a, es) == [Flushed(Run(a, es).n.frameId)]
  {
    hide *;
    var a := Next(s, Flush);
    FlushBegins(s);
    NextKeepsInvariant(s, Flush);
    if a.sh.stream == Idle {
      es := [GO, GO, GO] + [GO];
      IdleStop(a);
      Asking(Next(a, GO));
      RunAppend(a, [GO], [GO, GO, GO]);
      Single(a, GO);
      assert [GO] + [GO, GO, GO] == es;
      FinishedFlush(a, es);
    } else {
      Stopping3(a);
      AlwaysInvariant(a, [GO, GO, GO]);
      var b := Run(a, [GO, GO, GO]);
      var n := TurnEnds(b);
      var turn := Repeat(Work(None, false), n);
      var c := Run(b, turn);
      WaitOver(c);
      var d := Run(c, [GO, GO]);
      Asking(d);
      RunAppend(a, [GO, GO, GO], turn);
      RunAppend(a, [GO, GO, GO] + turn, [GO, GO]);
      RunAppend(a, [GO, GO, GO] + turn + [GO, GO], [GO, GO, GO]);
      es := [GO, GO, GO] + turn + [GO, GO] + [GO, GO, GO];
      FinishedFlush(a, es);
    }
  }

  lemma FlushBegins(s: State)
    requires s.c == Ready && s.info == Capturing
    ensures Next(s, Flush) == s.(c := StopCheck(true))
  {
  }

  lemma IdleStop(s: State)
    requires s.c == StopCheck(true) && s.sh.stream == Idle
    ensures Next(s, GO) == s.(c := FlushVideo) && s.c != Ready
  {
  }

  lemma Stopping3(s: State)
    requires s.c == StopCheck(true) && s.sh.stream != Idle
    ensures var t := Run(s, [GO, GO, GO]);
            t.c == StopWait(true) && t.replies == s.replies && Busy(s, [GO, GO, GO])
  {
    var a, b := Next(s, GO), Next(Next(s, GO), GO);
    var t := Next(b, GO);
    assert a.c == StopSet(true) && b.c == StopCancel(true) && t.c == StopWait(true) && t.replies == s.replies;
    hide Next;
    Three(s, a, b, GO);
  }

  lemma WaitOver(s: State)
    requires s.c == StopWait(true) && s.w == WIdle
    ensures var t := Run(s, [GO, GO]);
            t.c == FlushVideo && t.replies == s.replies && Busy(s, [GO, GO])
  {
    var a := Next(s, GO);
    assert a.c == StopIdle(true) && Next(a, GO).c == FlushVideo && Next(a, GO).replies == s.replies;
    hide Next;
    Two(s, a, GO);
  }

  lemma Asking(s: State)
    requires s.c == FlushVideo
    ensures var t := Run(s, [GO, GO, GO]);
            t.c == Ready && t.replies == s.replies + [Flushed(t.n.frameId)] && Busy(s, [GO, GO, GO])
  {
    var a, b := s.(c := FlushDriver), s.(c := FlushDone);
    assert a == Next(s, GO) && b == Next(a, GO);
    var t := Next(b, GO);
    assert t.c == Ready && t.replies == s.replies + [Flushed(t.n.frameId)];
    hide Next;
    Three(s, a, b, GO);
  }

  lemma FinishedFlush(s: State, es: seq<Event>)
    requires Busy(s, es) && Run(s, es).c == Ready
    requires Run(s, es).replies == s.replies + [Flushed(Run(s, es).n.frameId)]
    ensures Handling(s, es) && Told(s, es) == [Flushed(Run(s, es).n.frameId)]
  {
    hide Busy, Run;
  }

  lemma IdleWhenConfigured(s: State)
    requires Invariant(s) && s.c == Ready
    ensures s.info != Capturing ==> s.sh.stream == Idle
  {
    hide Counted, Logged, Sync, Alive;
  }

  // ----- How a capture is answered -----

  lemma CaptureStep(s: State, e: Event)
    requires Starting(s.c)
    ensures var t := Next(s, e);
            && (s.c == StartBuffers && e == Go(false) ==>
                  t.c == Ready && t.replies == s.replies + [UnknownError] && t.info == s.info)
            && (VideoRefuses(s, e) ==> t.c == StopCheck(false) && t.replies == s.replies && t.info == s.info)
            && (!(s.c == StartBuffers && e == Go(false)) && !VideoRefuses(s, e) ==>
                  || (Starting(t.c) && t.replies == s.replies && t.info == s.info)
                  || (t.c == Ready && t.replies == s.replies + [CaptureDone] && t.info == Capturing))
  {
    if e.Work? {
      WorkLeavesControl(s, e.buffer, e.ok);
    }
    hide WorkStep;
  }

  /** The buffers cannot be queued, or the video device cannot be started. */
  predicate CaptureFails(s: State, es: seq<Event>) {
    Executes(s, es, StartBuffers, false) || VideoRefused(s, es)
  }

  lemma CaptureFailsFirst(s: State, es: seq<Event>)
    requires es != []
    ensures CaptureFails(s, es)
            <==> || (es[0] == Go(false) && s.c == StartBuffers) || VideoRefuses(s, es[0])
                 || CaptureFails(Next(s, es[0]), es[1..])
    ensures !CaptureFails(Next(s, es[0]), [])
  {
    hide Next, VideoRefuses;
    ExecutesFirst(s, es, StartBuffers, false);
  }

  lemma {:induction false} StoppingKeepsInfo(s: State, es: seq<Event>)
    requires StoppingCapture(s.c) && Handling(s, es)
    ensures Run(s, es).info == s.info
    decreases |es|
  {
    StoppingBusy(s.c);
    HandlingStep(s, es);
    hide Handling, Busy;
    var t := Next(s, es[0]);
    StoppingInfo(s, es[0]);
    RunFirst(s, es);
    hide Next, Run;
    if StoppingCapture(t.c) {
      StoppingKeepsInfo(t, es[1..]);
    }
  }

  lemma StoppingBusy(c: Control)
    ensures StoppingCapture(c) || Starting(c) ==> c != Ready
  {
  }

  lemma StoppingInfo(s: State, e: Event)
    requires StoppingCapture(s.c)
    ensures Next(s, e).info == s.info && (StoppingCapture(Next(s, e).c) || Next(s, e).c == Ready)
  {
    if e.Work? {
      WorkLeavesControl(s, e.buffer, e.ok);
    }
    hide WorkStep;
  }

  lemma {:induction false} CaptureResolves(s: State, es: seq<Event>)
    requires Starting(s.c) && Handling(s, es)
    ensures var t := Run(s, es);
            if CaptureFails(s, es) then Told(s, es) == [UnknownError] && t.info == s.info
            else Told(s, es) == [CaptureDone] && t.info == Capturing
    decreases |es|
  {
    hide *;
    StoppingBusy(s.c);
    HandlingStep(s, es);
    var t := Next(s, es[0]);
    CaptureStep(s, es[0]);
    CaptureFailsFirst(s, es);
    assert es == [es[0]] + es[1..];
    ToldFirst(s, es[0], es[1..]);
    RunFirst(s, es);
    if VideoRefuses(s, es[0]) {
      StopCheckStops();
      RefusalAnswered(t, es[1..]);
      StoppingKeepsInfo(t, es[1..]);
      assert Told(s, es) == [] + [UnknownError];
    } else if t.c == Ready {
      assert es[1..] == [];
      ToldNothing(t);
      assert t.replies[|s.replies|..] + [] == t.replies[|s.replies|..];
      StoppingBusy(t.c);
    } else {
      StoppingBusy(t.c);
      CaptureResolves(t, es[1..]);
    }
  }

  lemma StopCheckStops()
    ensures StoppingCapture(StopCheck(false))
  {
  }

  /**
   A capture request, under every interleaving up to its answer: refused at once when the camera is not configured or
   the request malformed; otherwise accepted, and the camera capturing, exactly when the buffers can be queued, if that
   is tried, and the video device started, if that is; with an error, and the camera as it was, when not.
   */
  lemma CaptureAnswers(s: State, num: nat, sizeOk: bool, es: seq<Event>)
    requires s.c == Ready && Handling(Next(s, Capture(num, sizeOk)), es)
    ensures var a := Next(s, Capture(num, sizeOk));
            var t := Run(a, es);
            if (s.info == Configured || s.info == Capturing) && sizeOk then
              && a.replies == s.replies
              && Told(a, es) == [if CaptureFails(a, es) then UnknownError else CaptureDone]
              && t.info == if CaptureFails(a, es) then s.info else Capturing
            else es == [] && t == s.(replies := s.replies + [Invalid])
  {
    var a := Next(s, Capture(num, sizeOk));
    CaptureBegins(s, num, sizeOk);
    hide Next, CaptureFails;
    if (s.info == Configured || s.info == Capturing) && sizeOk {
      CaptureResolves(a, es);
    } else {
      assert Run(a, []) == a;
    }
  }

  lemma CaptureBegins(s: State, num: nat, sizeOk: bool)
    requires s.c == Ready
    ensures Next(s, Capture(num, sizeOk))
         == if (s.info == Configured || s.info == Capturing) && sizeOk then s.(c := StartCheck(num % 65536))
            else s.(replies := s.replies + [Invalid])
  {
  }

  /** How a configuration is answered. */
  lemma ConfigureAnswers(s: State, ok: bool)
    requires s.c == Ready
    ensures Next(s, Configure(ok))
         == if s.info == Capturing then s.(replies := s.replies + [Invalid])
            else if ok then s.(info := Configured, replies := s.replies + [ConfigureDone])
            else s.(replies := s.replies + [UnknownError])
  {
  }
}
