/**
 The camera, one request at a time: what a capture does between its arrival and its answer, and runs that show
 where that differs from what its answer says.
 */
module CameraRequests {
  import opened Bytes
  import opened Camera

  // ----- Running events -----

  lemma {:induction false} RunAppend(s: State, a: seq<Event>, b: seq<Event>)
    ensures Run(s, a + b) == Run(Run(s, a), b)
    ensures Busy(s, a + b) <==> Busy(s, a) && Busy(Run(s, a), b)
    decreases |a|
  {
    hide Next;
    if a == [] {
      assert a + b == b;
    } else {
      RunAppend(Next(s, a[0]), a[1..], b);
      assert (a + b)[1..] == a[1..] + b && (a + b)[0] == a[0];
    }
  }

  const GO := Go(true)
  /** One worker step; a dequeue yields a frame of one byte. */
  const STEP := Work(Some([0]), true)

  /** The state once the stream has been started for a capture. */
  function StartedFor(s: State, num: nat): State {
    s.(sh := s.sh.(stream := Streaming, scheduled := true), c := Started, quiet := false, before := s.log, cuts := [],
       n := s.n.(target := num, goal := num, base := s.n.frameId, passed := 0, complete := false))
  }

  lemma StartRun(s: State, num: nat)
    requires s.c == StartCheck(num) && s.sh.stream != Streaming && !s.sh.canceling
    ensures Run(s, [GO, GO, GO, GO, GO]) == StartedFor(s, num) && Busy(s, [GO, GO, GO, GO, GO])
  {
    var a := Next(s, GO);
    var b := Next(a, GO);
    var c := Next(b, GO);
    var d := Next(c, GO);
    assert Next(d, GO) == StartedFor(s, num);
    hide Next;
    Five(s, a, b, c, d, GO);
  }

  lemma Single(s: State, e: Event)
    ensures Run(s, [e]) == Next(s, e) && (s.c != Ready ==> Busy(s, [e]))
  {
    hide Next;
    assert [e][1..] == [];
    assert Run(Next(s, e), []) == Next(s, e);
  }

  lemma Five(s: State, a: State, b: State, c: State, d: State, e: Event)
    requires a == Next(s, e) && b == Next(a, e) && c == Next(b, e) && d == Next(c, e)
    ensures Run(s, [e, e, e, e, e]) == Next(d, e)
    ensures s.c != Ready && a.c != Ready && b.c != Ready && c.c != Ready && d.c != Ready
            ==> Busy(s, [e, e, e, e, e])
  {
    hide *;
    Three(s, a, b, e);
    Two(c, d, e);
    RunAppend(s, [e, e, e], [e, e]);
    assert [e, e, e, e, e] == [e, e, e] + [e, e];
  }

  lemma Three(s: State, a: State, b: State, e: Event)
    requires a == Next(s, e) && b == Next(a, e)
    ensures Run(s, [e, e, e]) == Next(b, e)
    ensures s.c != Ready && a.c != Ready && b.c != Ready ==> Busy(s, [e, e, e])
  {
    hide *;
    Two(s, a, e);
    Single(b, e);
    RunAppend(s, [e, e], [e]);
    assert [e, e, e] == [e, e] + [e];
  }

  lemma Two(s: State, a: State, e: Event)
    requires a == Next(s, e)
    ensures Run(s, [e, e]) == Next(a, e)
    ensures s.c != Ready && a.c != Ready ==> Busy(s, [e, e])
  {
    hide *;
    Single(s, e);
    Single(a, e);
    RunAppend(s, [e], [e]);
    assert [e, e] == [e] + [e];
  }

  /** The state once the scheduled worker has sent the first fragment. */
  function FragmentSent(s: State): State {
    s.(sh := s.sh.(scheduled := false), n := Bump(s.n).(passed := s.n.passed + 1), w := WSend([0], 1),
       cuts := s.cuts + [Cut([0], 1)], log := s.log + [Fragment(Bump(s.n).frameId, [0])])
  }

  lemma FragmentRun(s: State)
    requires s.w == WIdle && s.sh.stream == Streaming && s.sh.scheduled && !OverTarget(Bump(s.n))
    ensures Run(s, [STEP, STEP, STEP, STEP, STEP]) == FragmentSent(s)
    ensures s.c != Ready ==> Busy(s, [STEP, STEP, STEP, STEP, STEP])
  {
    var a := s.(sh := s.sh.(scheduled := false), w := WCheck);
    var b := a.(w := WDequeue);
    var c := b.(w := WCount([0]));
    var d := CountStep(c, [0]);
    assert a == Next(s, STEP) && b == Next(a, STEP) && c == Next(b, STEP) && d == Next(c, STEP) by {
      hide CountStep;
    }
    assert d.w == WSend([0], 0) && d == c.(n := d.n, w := d.w, cuts := s.cuts + [Cut([0], 0)]) by { hide Bump; }
    assert d.n == Bump(s.n).(passed := s.n.passed + 1) by { BumpIs(s.n); }
    hide OverTarget, Bump, CountStep;
    assert [0 as byte][0..1] == [0];
    assert Advance(d.cuts, 1) == s.cuts + [Cut([0], 1)];
    assert FragmentSent(s) == SendStep(d, [0], 0);
    assert FragmentSent(s) == Next(d, STEP) by { hide SendStep, FragmentSent; }
    hide Next;
    Five(s, a, b, c, d, STEP);
  }

  // ----- One capture request, from its arrival to its answer -----

  /** The control thread is at work on a request throughout these events. */
  predicate Busy(s: State, es: seq<Event>)
    decreases |es|
  {
    es != [] ==> s.c != Ready && Busy(Next(s, es[0]), es[1..])
  }

  /** Exactly the handling of one request: busy up to the event that answers it. */
  predicate Handling(s: State, es: seq<Event>) {
    Busy(s, es) && Run(s, es).c == Ready
  }

  lemma BusyStep(s: State, e: Event)
    requires s.c != Ready
    ensures var t := Next(s, e);
            && (t.c != Ready ==> t.replies == s.replies)
            && (t.c == Ready ==>
                  exists r :: t.replies == s.replies + [r] && (r == CaptureDone ==> t.info == Capturing))
            && (VideoRefuses(s, e) ==> t.c == StopCheck(false))
  {
    hide WorkStep;
    match e
    case Work(buffer, ok) => WorkLeavesControl(s, buffer, ok);
    case Go(ok) =>
      var t := Next(s, e);
      if t.c == Ready {
        var r := t.replies[|s.replies|];
        assert t.replies == s.replies + [r];
      }
    case _ =>
  }

  lemma HandlingStep(s: State, es: seq<Event>)
    requires Handling(s, es) && s.c != Ready
    ensures es != [] && Handling(Next(s, es[0]), es[1..])
    ensures Next(s, es[0]).c == Ready ==> es[1..] == []
  {
    hide Next;
    var t := Next(s, es[0]);
    assert Busy(t, es[1..]);
  }

  /** Every request is answered exactly once. */
  lemma {:induction false} AnsweredOnce(s: State, es: seq<Event>)
    requires s.c != Ready && Handling(s, es)
    ensures |Told(s, es)| == 1
    ensures CaptureDone in Told(s, es) ==> Run(s, es).info == Capturing
    decreases |es|
  {
    var t := Next(s, es[0]);
    HandlingStep(s, es);
    BusyStep(s, es[0]);
    assert es == [es[0]] + es[1..];
    ToldFirst(s, es[0], es[1..]);
    hide Next, Handling, Busy;
    if t.c == Ready {
      assert Told(t, []) == [];
    } else {
      AnsweredOnce(t, es[1..]);
    }
  }

  /** The control thread is in gb_camera_data_start_stream, or just behind it. */
  predicate Starting(c: Control) {
    c.StartCheck? || c.StartTarget? || c.StartBuffers? || c.StartSet? || c.StartSchedule? || c.Started?
  }

  lemma StartingStep(s: State, e: Event)
    requires Starting(s.c)
    ensures var t := Next(s, e);
            && (VideoRefuses(s, e) ==> s.info != Capturing)
            && (Starting(t.c) ==> t.info == s.info && t.replies == s.replies && !VideoRefuses(s, e))
            && (!Starting(t.c) ==>
                  || (s.c.Started? && t.replies == s.replies + [CaptureDone] && t.c == Ready)
                  || VideoRefuses(s, e)
                  || (s.c.StartBuffers? && t.replies == s.replies + [UnknownError] && t.c == Ready))
            && (StartsStream(s, e) ==> t.c == StartSchedule)
            && (s.c.StartSchedule? || s.c.Started? ==> t.c.StartSchedule? || t.c.Started? || !Starting(t.c))
  {
    if e.Work? {
      WorkLeavesControl(s, e.buffer, e.ok);
    }
    hide WorkStep;
  }

  /** A request that has started the stream is accepted, or refused by the video device while not capturing. */
  lemma {:induction false} StartResolves(s: State, es: seq<Event>)
    requires Starting(s.c) && Handling(s, es) && (Starts(s, es) || s.c.StartSchedule? || s.c.Started?)
    ensures CaptureDone in Told(s, es) || (VideoRefused(s, es) && s.info != Capturing)
    decreases |es|
  {
    var t := Next(s, es[0]);
    HandlingStep(s, es);
    StartingStep(s, es[0]);
    assert es == [es[0]] + es[1..];
    ToldFirst(s, es[0], es[1..]);
    hide Next, Handling, Busy, Told, VideoRefuses;
    if Starting(t.c) {
      StartResolves(t, es[1..]);
    }
  }

  lemma ToldNothing(s: State)
    ensures Told(s, []) == []
  {
  }

  predicate StoppingCapture(c: Control) {
    || c == StopCheck(false) || c == StopSet(false) || c == StopCancel(false)
    || c == StopWait(false) || c == StopIdle(false)
  }

  lemma StoppingStep(s: State, e: Event)
    requires StoppingCapture(s.c)
    ensures var t := Next(s, e);
            && (if StoppingCapture(t.c) then t.replies == s.replies
                else t.c == Ready && t.replies == s.replies + [UnknownError])
  {
    if e.Work? {
      WorkLeavesControl(s, e.buffer, e.ok);
    }
    hide WorkStep;
  }

  /** Once the video device has refused, the answer is an error. */
  lemma {:induction false} RefusalAnswered(s: State, es: seq<Event>)
    requires StoppingCapture(s.c) && Handling(s, es)
    ensures Told(s, es) == [UnknownError]
    decreases |es|
  {
    var t := Next(s, es[0]);
    HandlingStep(s, es);
    StoppingStep(s, es[0]);
    assert es == [es[0]] + es[1..];
    ToldFirst(s, es[0], es[1..]);
    hide Next, Handling, Busy, Told;
    if StoppingCapture(t.c) {
      RefusalAnswered(t, es[1..]);
    } else {
      ToldNothing(t);
    }
  }

  lemma {:induction false} OnlyIdleRefused(s: State, es: seq<Event>)
    requires Starting(s.c) && Handling(s, es) && s.info == Capturing
    ensures !VideoRefused(s, es)
    decreases |es|
  {
    var t := Next(s, es[0]);
    HandlingStep(s, es);
    StartingStep(s, es[0]);
    hide Next, Handling, Busy;
    if Starting(t.c) {
      OnlyIdleRefused(t, es[1..]);
    } else {
      assert es[1..] == [] && !VideoRefused(t, []);
    }
  }

  lemma {:induction false} VideoRefusalAnswered(s: State, es: seq<Event>)
    requires Starting(s.c) && Handling(s, es) && VideoRefused(s, es)
    ensures Told(s, es) == [UnknownError]
    decreases |es|
  {
    var t := Next(s, es[0]);
    HandlingStep(s, es);
    StartingStep(s, es[0]);
    assert es == [es[0]] + es[1..];
    ToldFirst(s, es[0], es[1..]);
    assert VideoRefuses(s, es[0]) ==> t.c == StopCheck(false) && t.replies == s.replies;
    hide Next, Handling, Busy, Told, VideoRefuses;
    if VideoRefuses(s, es[0]) {
      RefusalAnswered(t, es[1..]);
    } else if Starting(t.c) {
      VideoRefusalAnswered(t, es[1..]);
    } else {
      assert false;
    }
  }

  /**
   A capture that is answered with an error, from any state between requests. Unless it was video_stream_start that
   refused it, it has not started the stream, and with an idle stream before it nothing has been sent.
   */
  lemma RefusedCaptureSendsNothing(s: State, num: nat, sizeOk: bool, es: seq<Event>)
    requires Invariant(s) && s.c == Ready
    requires Handling(Next(s, Capture(num, sizeOk)), es)
    ensures var all := [Capture(num, sizeOk)] + es;
            && |Told(s, all)| == 1
            && (Told(s, all) != [CaptureDone] && !VideoRefused(s, all) ==>
                  !Starts(s, all) && (s.sh.stream == Idle ==> Run(s, all).log == s.log))
            && (VideoRefused(s, all) ==> Told(s, all) == [UnknownError] && s.info != Capturing)
            && (!((s.info == Configured || s.info == Capturing) && sizeOk) ==> es == [] && Told(s, all) == [Invalid])
  {
    var e := Capture(num, sizeOk);
    var t := Next(s, e);
    var all := [e] + es;
    assert t.c == Ready <==> !((s.info == Configured || s.info == Capturing) && sizeOk);
    assert t.c != Ready ==> Starting(t.c);
    assert t.replies == s.replies + if t.c == Ready then [Invalid] else [];
    assert t.info == s.info;
    assert s.sh.stream == Idle ==> !Live(s);
    assert !VideoRefuses(s, e) && !StartsStream(s, e);
    hide Next, Invariant, Live;
    ToldFirst(s, e, es);
    assert all[0] == e && all[1..] == es;
    assert VideoRefused(s, all) == VideoRefused(t, es) && Starts(s, all) == Starts(t, es);
    if t.c != Ready {
      AnsweredOnce(t, es);
      if Starts(t, es) {
        StartResolves(t, es);
      }
      if VideoRefused(t, es) {
        VideoRefusalAnswered(t, es);
        if s.info == Capturing {
          OnlyIdleRefused(t, es);
        }
      }
    } else {
      assert es == [];
      ToldNothing(t);
    }
    if !Live(s) && !Starts(s, all) {
      SilentUntilStarted(s, all);
    }
    hide Run, Handling, Starts, VideoRefused;
    OneReply(Told(s, all));
  }

  lemma OneReply(rs: seq<Reply>)
    ensures |rs| == 1 && CaptureDone in rs ==> rs == [CaptureDone]
  {
  }

  /** A run in which a capture is answered with an error after the stream it started has sent a fragment. */
  ghost predicate Leaks(s: State, num: nat, sizeOk: bool, es: seq<Event>) {
    var t := Next(s, Capture(num, sizeOk));
    && Handling(t, es)
    && CaptureDone !in Run(t, es).replies[|s.replies|..]
    && Starts(t, es) && Run(t, es).log != s.log
  }

  /** The first frame of a capture of `num` frames would already be over the target. */
  predicate TargetPassed(n: Tally, num: nat) {
    OverTarget(Bump(n.(target := num % 0x10000)))
  }

  /**
   Whether a capture request that ends with an error may put fragments on the link, from any state between
   requests: exactly when the camera is configured but not capturing, the request is well formed, and the frame
   counter has not passed the target already.
   */
  lemma RefusedCaptureLeaksIff(s: State, num: nat, sizeOk: bool)
    requires Invariant(s) && s.c == Ready
    ensures (exists es :: Leaks(s, num, sizeOk, es))
            <==> s.info == Configured && sizeOk && !TargetPassed(s.n, num)
  {
    if s.info == Configured && sizeOk && !TargetPassed(s.n, num) {
      var es := LeakingRun(s, num);
      assert Leaks(s, num, sizeOk, es);
    } else {
      forall es
        ensures !Leaks(s, num, sizeOk, es)
      {
        NoLeak(s, num, sizeOk, es);
      }
    }
  }

  /**
   A run that leaks: the worker sends a fragment between the start of the stream and video_stream_start, which
   then fails. The host is told of an error.
   */
  lemma LeakingRun(s: State, num: nat) returns (es: seq<Event>)
    requires Invariant(s) && s.c == Ready
    requires s.info == Configured && !TargetPassed(s.n, num)
    ensures Leaks(s, num, true, es)
    ensures var t := Run(Next(s, Capture(num, true)), es);
            && t.replies == s.replies + [UnknownError] && t.info == Configured && t.c == Ready
            && t.log == s.log + [Fragment(Bump(s.n).frameId, [0])]
  {
    var t := num % 0x10000;
    assert !Active(s.w) && s.sh == Shared(Idle, false, false);
    var a := Next(s, Capture(num, true));
    assert a == s.(c := StartCheck(t));
    NextKeepsInvariant(s, Capture(num, true));
    assert !Live(a);
    hide OverTarget, Bump, Next, Invariant, Live;
    var front, d := LeakingFront(a, t);
    var back := StopRun(d);
    RunAppend(a, front, back);
    es := front + back;
    SilentNotStarted(a, es);
    hide Run, Busy, Starts;
    assert (s.replies + [UnknownError])[|s.replies|..] == [UnknownError];
    assert |d.log| == |s.log| + 1;
  }

  lemma SilentNotStarted(s: State, es: seq<Event>)
    requires Invariant(s) && !Live(s)
    ensures Run(s, es).log != s.log ==> Starts(s, es)
  {
    hide Invariant, Live, Run, Starts;
    if !Starts(s, es) {
      SilentUntilStarted(s, es);
    }
  }

  lemma LeakingFront(a: State, num: nat) returns (es: seq<Event>, d: State)
    requires a.c == StartCheck(num) && !Active(a.w) && a.sh == Shared(Idle, false, false)
    requires !OverTarget(Bump(a.n.(target := num)))
    ensures Busy(a, es) && d == Run(a, es)
    ensures d.c == Started && d.info == a.info && d.w == WSend([0], 1) && d.sh == Shared(Streaming, false, false)
    ensures d.replies == a.replies && d.log == a.log + [Fragment(Bump(a.n).frameId, [0])]
  {
    var b := Next(a, STEP);
    assert b == a.(w := WIdle);
    var c := StartedFor(b, num);
    BumpReads(c.n, a.n.(target := num));
    BumpId(a.n, c.n);
    hide OverTarget, Bump, Next;
    Single(a, STEP);
    StartRun(b, num);
    FragmentRun(c);
    d := FragmentSent(c);
    var gos, steps := [GO, GO, GO, GO, GO], [STEP, STEP, STEP, STEP, STEP];
    RunAppend(a, [STEP], gos);
    RunAppend(a, [STEP] + gos, steps);
    es := [STEP] + gos + steps;
  }

  lemma BumpId(a: Tally, b: Tally)
    ensures a.frameId == b.frameId ==> Bump(a).frameId == Bump(b).frameId
  {
  }

  /** The video device refuses, and the stream is stopped again around the worker. */
  lemma StopRun(s: State) returns (es: seq<Event>)
    requires s.c == Started && s.info == Configured && s.w == WSend([0], 1)
    requires s.sh == Shared(Streaming, false, false)
    ensures Busy(s, es)
    ensures Run(s, es)
         == s.(sh := Shared(Idle, false, false), w := WIdle, c := Ready, replies := s.replies + [UnknownError])
  {
    var a := Next(s, Go(false));
    assert a == s.(c := StopCheck(false));
    var b := a.(sh := Shared(Stopping, false, true), c := StopWait(false));
    var c := b.(w := WIdle);
    StopGo(a);
    StopWork(b);
    StopEnd(c);
    hide Next;
    Single(s, Go(false));
    es := [Go(false)] + [GO, GO, GO];
    RunAppend(s, [Go(false)], [GO, GO, GO]);
    RunAppend(s, es, [STEP, STEP, STEP]);
    es := es + [STEP, STEP, STEP];
    RunAppend(s, es, [GO, GO]);
    es := es + [GO, GO];
  }

  lemma StopGo(s: State)
    requires s.c == StopCheck(false) && s.sh.stream == Streaming && !s.sh.scheduled && !s.sh.canceling
    ensures Run(s, [GO, GO, GO]) == s.(sh := Shared(Stopping, false, true), c := StopWait(false))
    ensures Busy(s, [GO, GO, GO])
  {
    var a, b := Next(s, GO), Next(Next(s, GO), GO);
    assert Next(b, GO) == s.(sh := Shared(Stopping, false, true), c := StopWait(false));
    assert a.c != Ready && b.c != Ready;
    hide Next;
    Three(s, a, b, GO);
  }

  lemma StopWork(s: State)
    requires s.c == StopWait(false) && s.w == WSend([0], 1) && s.sh.stream == Stopping
    ensures Run(s, [STEP, STEP, STEP]) == s.(w := WIdle) && Busy(s, [STEP, STEP, STEP])
  {
    var a, b := s.(w := WEnqueue), s.(w := WDecide);
    assert a == Next(s, STEP) && b == Next(a, STEP) && Next(b, STEP) == s.(w := WIdle);
    hide Next;
    Three(s, a, b, STEP);
  }

  lemma StopEnd(s: State)
    requires s.c == StopWait(false) && s.w == WIdle && s.sh.stream == Stopping && !s.sh.scheduled
    ensures Run(s, [GO, GO])
         == s.(sh := Shared(Idle, false, false), c := Ready, replies := s.replies + [UnknownError])
    ensures Busy(s, [GO, GO])
  {
    var a := Next(s, GO);
    assert a == s.(sh := s.sh.(canceling := false), c := StopIdle(false));
    assert Next(a, GO) == s.(sh := Shared(Idle, false, false), c := Ready, replies := s.replies + [UnknownError]);
    hide Next;
    Two(s, a, GO);
  }

  lemma NoLeak(s: State, num: nat, sizeOk: bool, es: seq<Event>)
    requires Invariant(s) && s.c == Ready
    requires !(s.info == Configured && sizeOk && !TargetPassed(s.n, num))
    ensures !Leaks(s, num, sizeOk, es)
  {
    var t := Next(s, Capture(num, sizeOk));
    NextKeepsInvariant(s, Capture(num, sizeOk));
    if t.c == Ready {
      hide Next, Invariant;
      assert Busy(t, es) ==> es == [];
    } else if s.info == Capturing {
      assert Starting(t.c) && t.replies == s.replies && t.info == Capturing;
      hide Next, Invariant, Handling, Starting;
      if Handling(t, es) && Starts(t, es) {
        StartResolves(t, es);
      }
    } else {
      assert Barred(t, num % 0x10000);
      hide Next, Invariant, Barred, Handling;
      if Handling(t, es) {
        BarredSilent(t, num % 0x10000, es);
      }
    }
  }

  /** No frame will pass the target check of this capture. */
  predicate Barred(s: State, target: nat) {
    && !Through(s.w) && target > 0
    && (s.c.StartCheck? || s.c.StartTarget? ==> s.c.num == target)
    && (s.c.StartCheck? || s.c.StartTarget? || s.c.StartBuffers? || s.c.StartSet? ==>
          s.sh.stream == Idle && OverTarget(Bump(s.n.(target := target))))
    && (s.c.StartBuffers? || s.c.StartSet? ==> s.n.target == target)
    && (Live(s) && !s.w.WReached? ==> s.n.target == target && OverTarget(Bump(s.n)))
  }

  lemma BarredStep(s: State, target: nat, e: Event)
    requires Sync(s.sh, s.w, s.c, s.quiet) && Barred(s, target) && s.c != Ready
    ensures Next(s, e).log == s.log && (Next(s, e).c == Ready || Barred(Next(s, e), target))
  {
    hide Barred, Sync;
    match e
    case Work(buffer, ok) => BarredWork(s, target, buffer, ok);
    case Go(ok) => BarredGo(s, target, ok);
    case _ =>
  }

  lemma BarredWork(s: State, target: nat, buffer: Option<seq<byte>>, ok: bool)
    requires Sync(s.sh, s.w, s.c, s.quiet) && Barred(s, target)
    ensures WorkStep(s, buffer, ok).log == s.log && Barred(WorkStep(s, buffer, ok), target)
  {
    if s.w.WCount? {
      assert CountStep(s, s.w.frame) == s.(n := Bump(s.n), w := WReached);
    }
    hide SendStep, CountStep, Bump, OverTarget;
  }

  lemma BarredGo(s: State, target: nat, ok: bool)
    requires Sync(s.sh, s.w, s.c, s.quiet) && Barred(s, target)
    ensures var t := GoStep(s, ok);
            t.log == s.log && (t.c == Ready || Barred(t, target))
  {
    var t := GoStep(s, ok);
    GoTally(s, ok);
    GoSendsNothing(s, ok);
    GoPlaces(s, ok);
    BumpReads(s.n, t.n);
    BumpReads(s.n.(target := target), t.n.(target := target));
    BumpReads(s.n.(target := target), t.n);
    hide Sync, GoStep, Bump, OverTarget;
  }

  /** How control moves on while a stream is being started. */
  lemma GoPlaces(s: State, ok: bool)
    requires Sync(s.sh, s.w, s.c, s.quiet)
    ensures var t := GoStep(s, ok);
            && !t.c.StartCheck?
            && (t.c.StartTarget? ==> s.c == StartCheck(t.c.num) && t.sh == s.sh)
            && (t.c.StartBuffers? ==> s.c.StartTarget? && t.sh == s.sh)
            && (t.c.StartSet? ==> s.c.StartBuffers? && t.sh == s.sh)
            && (s.c.StartSet? ==> t.c == StartSchedule && !Active(t.w))
  {
  }

  /** The target check looks at counter and target only. */
  lemma BumpReads(a: Tally, b: Tally)
    ensures a.frameId == b.frameId && a.target == b.target ==> OverTarget(Bump(a)) == OverTarget(Bump(b))
  {
  }

  lemma {:induction false} BarredSilent(s: State, target: nat, es: seq<Event>)
    requires Invariant(s) && Barred(s, target) && s.c != Ready && Handling(s, es)
    ensures Run(s, es).log == s.log
    decreases |es|
  {
    HandlingStep(s, es);
    hide Handling, Busy;
    BarredStep(s, target, es[0]);
    NextKeepsInvariant(s, es[0]);
    hide Invariant, Barred, Next;
    var t := Next(s, es[0]);
    if t.c != Ready {
      BarredSilent(t, target, es[1..]);
    }
  }

  // ----- A capture that meets a running stream -----

  /** gb_camera_data_start_stream finds the stream running already. */
  predicate Meets(s: State, es: seq<Event>)
    decreases |es|
  {
    es != [] && ((es[0].Go? && s.c.StartCheck? && s.sh.stream == Streaming) || Meets(Next(s, es[0]), es[1..]))
  }

  lemma MeetStep(s: State, e: Event)
    requires Starting(s.c)
    ensures var t := Next(s, e);
            && (s.c.StartCheck? && e.Go? ==> if s.sh.stream == Streaming then t.c.Started? else t.c.StartTarget?)
            && (s.c.StartCheck? && !e.Go? ==> t.c == s.c && (t.sh.stream == Streaming ==> s.sh.stream == Streaming))
            && (s.c.StartTarget? || s.c.StartBuffers? ==>
                  t.c == s.c || t.c.StartBuffers? || t.c.StartSet? || t.c == Ready)
            && (s.c.StartSet? ==> t.c == s.c || StartsStream(s, e))
  {
    if e.Work? {
      WorkLeavesControl(s, e.buffer, e.ok);
    }
    hide CountStep, SendStep;
  }

  /** An accepted capture starts the stream exactly when it does not meet a running one. */
  lemma {:induction false} AcceptedStartsIff(s: State, es: seq<Event>)
    requires Starting(s.c) && Handling(s, es) && CaptureDone in Told(s, es)
    ensures s.c.StartCheck? ==> (Starts(s, es) <==> !Meets(s, es))
    ensures s.c.StartCheck? && s.sh.stream != Streaming ==> Starts(s, es)
    ensures s.c.StartTarget? || s.c.StartBuffers? || s.c.StartSet? ==> Starts(s, es) && !Meets(s, es)
    ensures s.c.StartSchedule? || s.c.Started? ==> !Starts(s, es) && !Meets(s, es)
    decreases |es|
  {
    var t := Next(s, es[0]);
    HandlingStep(s, es);
    StartingStep(s, es[0]);
    MeetStep(s, es[0]);
    assert es == [es[0]] + es[1..];
    ToldFirst(s, es[0], es[1..]);
    hide Next, Handling, Busy, Told;
    if Starting(t.c) {
      AcceptedStartsIff(t, es[1..]);
    } else if VideoRefuses(s, es[0]) {
      RefusalAnswered(t, es[1..]);
    } else {
      assert Told(t, es[1..]) == [] by { ToldNothing(t); }
    }
  }

  /** A run in which a capture is accepted without starting the stream: its frame count is ignored. */
  ghost predicate Ignored(s: State, num: nat, es: seq<Event>) {
    var t := Next(s, Capture(num, true));
    Handling(t, es) && CaptureDone in Run(t, es).replies[|s.replies|..] && !Starts(t, es)
  }

  /** That can happen to a capture exactly when it arrives while the stream is running. */
  lemma CaptureIgnoredIff(s: State, num: nat)
    requires Invariant(s) && s.c == Ready
    ensures (exists es :: Ignored(s, num, es)) <==> s.sh.stream == Streaming
  {
    if s.sh.stream == Streaming {
      IgnoredRun(s, num);
      assert Ignored(s, num, [GO, GO]);
    } else {
      forall es
        ensures !Ignored(s, num, es)
      {
        NotIgnored(s, num, es);
      }
    }
  }

  /** Then the request leaves nothing behind but its answer. */
  lemma IgnoredRun(s: State, num: nat)
    requires Invariant(s) && s.c == Ready && s.sh.stream == Streaming
    ensures Ignored(s, num, [GO, GO])
    ensures Run(s, [Capture(num, true), GO, GO]) == s.(replies := s.replies + [CaptureDone])
  {
    hide *;
    var t := MeetingRun(s, num);
    Single(s, Capture(num, true));
    RunAppend(s, [Capture(num, true)], [GO, GO]);
    assert [Capture(num, true)] + [GO, GO] == [Capture(num, true), GO, GO];
    IgnoredIs(s, num, [GO, GO], t);
  }

  lemma MeetingRun(s: State, num: nat) returns (t: State)
    requires Invariant(s) && s.c == Ready && s.sh.stream == Streaming
    ensures var a := Next(s, Capture(num, true));
            Busy(a, [GO, GO]) && Run(a, [GO, GO]) == t && !Starts(a, [GO, GO])
    ensures t == s.(replies := s.replies + [CaptureDone])
  {
    hide *;
    var a, b := s.(c := StartCheck(num % 0x10000)), s.(c := Started);
    t := s.(replies := s.replies + [CaptureDone]);
    MeetingSteps(s, num);
    Two(a, b, GO);
    NoStart(a, b);
  }

  lemma IgnoredIs(s: State, num: nat, es: seq<Event>, t: State)
    requires var a := Next(s, Capture(num, true));
             Busy(a, es) && Run(a, es) == t && !Starts(a, es)
    requires t.c == Ready && |t.replies| > |s.replies| && t.replies[|s.replies|] == CaptureDone
    ensures Ignored(s, num, es)
  {
    hide Next, Run, Busy, Starts;
    assert t.replies[|s.replies|..][0] == CaptureDone;
  }

  lemma MeetingSteps(s: State, num: nat)
    requires Invariant(s) && s.c == Ready && s.sh.stream == Streaming
    ensures var a, b := s.(c := StartCheck(num % 0x10000)), s.(c := Started);
            && Next(s, Capture(num, true)) == a && Next(a, GO) == b
            && Next(b, GO) == s.(replies := s.replies + [CaptureDone])
  {
    assert s.info == Capturing;
    hide Invariant;
  }

  lemma NoStart(a: State, b: State)
    requires b == Next(a, GO) && a.c != StartSet && b.c != StartSet
    ensures !Starts(a, [GO, GO])
  {
    hide Next;
    assert [GO, GO][1..] == [GO] && [GO][1..] == [];
    assert !Starts(b, [GO]);
  }

  lemma NotIgnored(s: State, num: nat, es: seq<Event>)
    requires Invariant(s) && s.c == Ready && s.sh.stream != Streaming
    ensures !Ignored(s, num, es)
  {
    var t := Next(s, Capture(num, true));
    assert t.c == Ready ==> t.replies == s.replies + [Invalid];
    assert t.c != Ready ==> t.c.StartCheck? && t.replies == s.replies && t.sh == s.sh;
    hide Next, Invariant;
    if Handling(t, es) {
      if t.c == Ready {
        assert es == [];
        assert (s.replies + [Invalid])[|s.replies|..] == [Invalid];
      } else if CaptureDone in Told(t, es) {
        AcceptedStartsIff(t, es);
      }
    }
  }

  // ----- A second capture -----

  /** The state after a capture of one frame has run into its target from frame counter zero or later. */
  lemma CaptureOne(s: State) returns (es: seq<Event>)
    requires s.c == Ready && s.w == WIdle && s.sh == Shared(Idle, false, false)
    requires s.info == Configured || s.info == Capturing
    requires s.n.frameId < 10
    ensures var t := Run(s, es);
            && t.c == Ready && t.w == WIdle && t.sh == Shared(Idle, false, false) && t.info == Capturing
            && t.replies == s.replies + [CaptureDone]
            && t.n.complete && t.n.wrapped == s.n.wrapped && t.n.goal == 1 && t.n.base == s.n.frameId
            && t.log == s.log + (if s.n.frameId == 0 then [Fragment(1, [0])] else [])
            && t.n.frameId == s.n.frameId + (if s.n.frameId == 0 then 2 else 1)
  {
    var a := Next(s, Capture(1, true));
    assert a == s.(c := StartCheck(1));
    StartRun(a, 1);
    var b := StartedFor(a, 1);
    var c := Next(b, GO);
    assert c == b.(info := Capturing, c := Ready, replies := s.replies + [CaptureDone]);
    Single(s, Capture(1, true));
    Single(b, GO);
    hide Next;
    var gos := [GO, GO, GO, GO, GO];
    RunAppend(s, [Capture(1, true)], gos);
    es := [Capture(1, true)] + gos;
    RunAppend(s, es, [GO]);
    es := es + [GO];
    var d := c;
    if s.n.frameId == 0 {
      var more := FrameRound(c);
      RunAppend(s, es, more);
      es := es + more;
      d := Run(c, more);
    }
    var more := LastRound(d);
    RunAppend(s, es, more);
    es := es + more;
    assert s.log + [] == s.log;
  }

  /** The worker takes a frame of one byte, sends it and is scheduled again. */
  lemma FrameRound(s: State) returns (es: seq<Event>)
    requires s.c == Ready && s.w == WIdle && s.sh == Shared(Streaming, true, false)
    requires s.n.frameId == 0 && s.n.target == 1
    ensures var t := Run(s, es);
            t == s.(log := s.log + [Fragment(1, [0])], cuts := s.cuts + [Cut([0], 1)],
                    n := s.n.(frameId := 1, passed := s.n.passed + 1))
  {
    FragmentRun(s);
    var a := FragmentSent(s);
    assert a.n == s.n.(frameId := 1, passed := s.n.passed + 1);
    var b := a.(w := WEnqueue);
    var c := a.(w := WDecide);
    var d := a.(w := WSchedule);
    var e := a.(sh := Shared(Streaming, true, false), w := WIdle);
    assert b == Next(a, STEP) && c == Next(b, STEP) && d == Next(c, STEP) && e == Next(d, STEP);
    hide Next;
    Three(a, b, c, STEP);
    Single(d, STEP);
    es := [STEP, STEP, STEP, STEP, STEP];
    RunAppend(s, es, [STEP, STEP, STEP]);
    es := es + [STEP, STEP, STEP];
    RunAppend(s, es, [STEP]);
    es := es + [STEP];
  }

  /** The worker takes a frame over the target and ends the stream. */
  lemma LastRound(s: State) returns (es: seq<Event>)
    requires s.c == Ready && s.w == WIdle && s.sh == Shared(Streaming, true, false)
    requires s.n.target == 1 && 1 <= s.n.frameId < 10
    ensures Run(s, es)
         == s.(sh := Shared(Idle, false, false), n := s.n.(frameId := s.n.frameId + 1, complete := true))
  {
    var a := s.(sh := Shared(Streaming, false, false), w := WCheck);
    var b := a.(w := WDequeue);
    var c := a.(w := WCount([0]));
    var d := a.(w := WReached, n := s.n.(frameId := s.n.frameId + 1));
    var e := d.(w := WTail, sh := Shared(Idle, false, false), n := d.n.(complete := true));
    assert a == Next(s, STEP) && b == Next(a, STEP) && c == Next(b, STEP);
    assert d == Next(c, STEP) && e == Next(d, STEP);
    assert Next(e, STEP) == e.(w := WIdle);
    hide Next;
    Five(s, a, b, c, d, STEP);
    Single(e, STEP);
    es := [STEP, STEP, STEP, STEP, STEP];
    RunAppend(s, es, [STEP]);
    es := es + [STEP];
  }

  /** From power-on: two captures of one frame each are accepted, and one frame is all that is ever sent. */
  lemma SecondCaptureEndsShort() returns (es: seq<Event>)
    ensures var t := Run(CONNECTED, es);
            && t.replies == [ConfigureDone, CaptureDone, CaptureDone] && t.log == [Fragment(1, [0])]
            && t.n.complete && !t.n.wrapped && t.n.base == 2 && t.n.goal == 1
  {
    var s := Next(CONNECTED, Configure(true));
    Single(CONNECTED, Configure(true));
    assert s == CONNECTED.(info := Configured, replies := [ConfigureDone]);
    hide Next;
    var one := CaptureOne(s);
    var two := CaptureOne(Run(s, one));
    RunAppend(CONNECTED, [Configure(true)], one);
    RunAppend(CONNECTED, [Configure(true)] + one, two);
    es := [Configure(true)] + one + two;
  }

  /** And the first capture after connecting can already be refused with a fragment of it on the link. */
  lemma FirstCaptureLeaks() returns (es: seq<Event>)
    ensures var t := Run(CONNECTED, es);
            t.replies == [ConfigureDone, UnknownError] && t.log == [Fragment(1, [0])] && VideoRefused(CONNECTED, es)
  {
    var s := Next(CONNECTED, Configure(true));
    ConfiguredFirst();
    hide *;
    var rest := LeakingRun(s, 1);
    Single(CONNECTED, Configure(true));
    Single(s, Capture(1, true));
    var front := [Configure(true)] + [Capture(1, true)];
    RunAppend(CONNECTED, [Configure(true)], [Capture(1, true)]);
    RunAppend(CONNECTED, front, rest);
    es := front + rest;
    FirstAnswers(es);
  }

  lemma ConfiguredFirst()
    ensures var s := Next(CONNECTED, Configure(true));
            && Invariant(s) && s.c == Ready && s.info == Configured
            && s.replies == [ConfigureDone] && s.log == []
            && !TargetPassed(s.n, 1) && Bump(s.n).frameId == 1
  {
    ConnectedInvariant();
    NextKeepsInvariant(CONNECTED, Configure(true));
    hide Invariant;
  }

  lemma FirstAnswers(es: seq<Event>)
    requires Run(CONNECTED, es).replies == [ConfigureDone] + [UnknownError] && Run(CONNECTED, es).c == Ready
    requires Run(CONNECTED, es).log == [] + [Fragment(1, [0])]
    ensures VideoRefused(CONNECTED, es)
  {
    NothingBeforeCapture(es);
    hide Run, VideoRefused;
  }
}
