/**
 camera.c and camera_data.c: a worker that fragments frames and a control thread that starts and stops it share
 a stream state. Every access to shared state is one step, and steps of the two interleave freely.
 */
module Camera {
  import opened Bytes

  const MTU := 1024
  const COUNTER_RANGE := 0x1_0000_0000

  datatype Stream = Idle | Streaming | Stopping

  /** info.state, in its order. */
  datatype Info = Removed | Inserted | Unconfigured | Configured | Capturing

  /**
   A message on the data cport. On the link it is its payload alone; `frameId` is a tag of the log that says which
   frame the payload was cut from.
   */
  datatype Fragment = Fragment(frameId: nat, payload: seq<byte>)

  /** Answers to the host; a capture or a configuration is accepted by the first two. */
  datatype Reply = CaptureDone | ConfigureDone | Flushed(requestId: nat) | Invalid | UnknownError

  /** A frame the worker let through, and how many of its bytes have gone out. */
  datatype Cut = Cut(frame: seq<byte>, sent: nat)

  /** Where gb_camera_frame_worker stands; WReached has seen the target exceeded, WTail has ended the stream. */
  datatype Worker =
    | WIdle | WCheck | WDequeue | WRetry | WCount(frame: seq<byte>) | WReached | WTail
    | WSend(sending: seq<byte>, offset: nat) | WEnqueue | WDecide | WSchedule

  /** Where the control thread stands: in gb_camera_data_start_stream, in stop_stream, or after either. */
  datatype Control =
    | Ready
    | StartCheck(num: nat) | StartTarget(num: nat) | StartBuffers | StartSet | StartSchedule | Started
    | StopCheck(flush: bool) | StopSet(flush: bool) | StopCancel(flush: bool) | StopWait(flush: bool)
    | StopIdle(flush: bool)
    | FlushVideo | FlushDriver | FlushDone

  /** What worker and control thread share, besides the counters. */
  datatype Shared = Shared(stream: Stream, scheduled: bool, canceling: bool)

  /** frame_id and target_frames, and what the running capture has come to. */
  datatype Tally = Tally(
    frameId: nat, target: nat,
    goal: nat,        // target_frames when the stream was last started
    base: nat,        // frame_id when the stream was last started
    passed: nat,      // frames the worker has let through since then
    complete: bool,   // the stream has stopped at its target
    wrapped: bool)    // frame_id has overflowed at some time

  /**
   `quiet`: since the last successful flush the stream has not been started. `before` is what had been sent when
   it was last started, `cuts` the frames let through since.
   */
  datatype State = State(
    sh: Shared, n: Tally, info: Info, quiet: bool, w: Worker, c: Control,
    log: seq<Fragment>, before: seq<Fragment>, cuts: seq<Cut>, replies: seq<Reply>)

  datatype Event =
    | Work(buffer: Option<seq<byte>>, ok: bool)
    | Go(ok: bool)
    | Capture(num: nat, sizeOk: bool)
    | Flush
    | Configure(ok: bool)

  /** k_work_schedule: refused while a cancellation is in progress. */
  function Schedule(sh: Shared): Shared {
    if sh.canceling then sh else sh.(scheduled := true)
  }

  function Bump(n: Tally): Tally {
    n.(frameId := (n.frameId + 1) % COUNTER_RANGE, wrapped := n.wrapped || n.frameId + 1 >= COUNTER_RANGE)
  }

  predicate OverTarget(n: Tally) {
    n.target > 0 && n.frameId > n.target
  }

  function ChunkLen(frame: seq<byte>, offset: nat): (n: nat)
    requires offset <= |frame|
    ensures n <= MTU && offset + n <= |frame| && (n == 0 <==> offset == |frame|)
  {
    if |frame| - offset > MTU then MTU else |frame| - offset
  }

  function Advance(cuts: seq<Cut>, to: nat): (r: seq<Cut>)
    ensures |r| == |cuts|
  {
    if cuts == [] then cuts else cuts[|cuts| - 1 := cuts[|cuts| - 1].(sent := to)]
  }

  function CountStep(s: State, frame: seq<byte>): State {
    var n := Bump(s.n);
    if OverTarget(n) then s.(n := n, w := WReached)
    else s.(n := n.(passed := n.passed + 1), w := WSend(frame, 0), cuts := s.cuts + [Cut(frame, 0)])
  }

  function SendStep(s: State, frame: seq<byte>, offset: nat): State
    requires offset < |frame|
  {
    var k := ChunkLen(frame, offset);
    s.(log := s.log + [Fragment(s.n.frameId, frame[offset..offset + k])],
       cuts := Advance(s.cuts, offset + k), w := WSend(frame, offset + k))
  }

  function WorkStep(s: State, buffer: Option<seq<byte>>, ok: bool): State {
    match s.w
    case WIdle => if s.sh.scheduled then s.(sh := s.sh.(scheduled := false), w := WCheck) else s
    case WCheck => s.(w := if s.sh.stream == Streaming then WDequeue else WIdle)
    case WDequeue => s.(w := if buffer.Some? then WCount(buffer.value) else WRetry)
    case WRetry => s.(w := if s.sh.stream == Streaming then WSchedule else WIdle)
    case WCount(frame) => CountStep(s, frame)
    case WReached => s.(sh := s.sh.(stream := Idle), n := s.n.(complete := true), w := WTail)
    case WTail => s.(w := WIdle)
    case WSend(frame, offset) =>
      if offset >= |frame| || !ok then s.(w := WEnqueue)
      else SendStep(s, frame, offset)
    case WEnqueue => s.(w := WDecide)
    case WDecide => s.(w := if s.sh.stream == Streaming then WSchedule else WIdle)
    case WSchedule => s.(sh := Schedule(s.sh), w := WIdle)
  }

  function Answer(s: State, r: Reply): State {
    s.(replies := s.replies + [r], c := Ready)
  }

  function AfterStop(s: State, flush: bool): State {
    if flush then s.(c := FlushVideo) else Answer(s, UnknownError)
  }

  function GoStep(s: State, ok: bool): State {
    match s.c
    case Ready => s
    case StartCheck(num) => s.(c := if s.sh.stream == Streaming then Started else StartTarget(num))
    case StartTarget(num) => s.(n := s.n.(target := num), c := StartBuffers)
    case StartBuffers => if ok then s.(c := StartSet) else Answer(s, UnknownError)
    case StartSet =>
      s.(sh := s.sh.(stream := Streaming), c := StartSchedule, quiet := false, before := s.log, cuts := [],
         n := s.n.(goal := s.n.target, base := s.n.frameId, passed := 0, complete := false))
    case StartSchedule => s.(sh := Schedule(s.sh), c := Started)
    case Started =>
      if s.info == Capturing then Answer(s, CaptureDone)
      else if ok then Answer(s.(info := Capturing), CaptureDone)
      else s.(c := StopCheck(false))
    case StopCheck(flush) => if s.sh.stream == Idle then AfterStop(s, flush) else s.(c := StopSet(flush))
    case StopSet(flush) => s.(sh := s.sh.(stream := Stopping), c := StopCancel(flush))
    case StopCancel(flush) => s.(sh := s.sh.(scheduled := false, canceling := true), c := StopWait(flush))
    case StopWait(flush) => if s.w == WIdle then s.(sh := s.sh.(canceling := false), c := StopIdle(flush)) else s
    case StopIdle(flush) => AfterStop(s.(sh := s.sh.(stream := Idle)), flush)
    case FlushVideo => if ok then s.(c := FlushDriver) else Answer(s, UnknownError)
    case FlushDriver => if ok then s.(c := FlushDone) else Answer(s, UnknownError)
    case FlushDone => Answer(s.(info := Configured, quiet := true), Flushed(s.n.frameId))
  }

  function Next(s: State, e: Event): (t: State)
    ensures s.replies <= t.replies
  {
    match e
    case Work(buffer, ok) => WorkStep(s, buffer, ok)
    case Go(ok) => GoStep(s, ok)
    case Capture(num, sizeOk) =>
      if s.c != Ready then s
      else if !(s.info.Configured? || s.info.Capturing?) || !sizeOk then Answer(s, Invalid)
      else s.(c := StartCheck(num % 0x10000))
    case Flush =>
      if s.c != Ready then s
      else if !s.info.Capturing? then Answer(s, Invalid)
      else s.(c := StopCheck(true))
    case Configure(ok) =>
      if s.c != Ready then s
      else if s.info.Capturing? then Answer(s, Invalid)
      else if ok then Answer(s.(info := Configured), ConfigureDone) else Answer(s, UnknownError)
  }

  /** gb_camera_connected: nothing is running. */
  const CONNECTED :=
    State(Shared(Idle, false, false), Tally(0, 0, 0, 0, 0, false, false), Unconfigured, false, WIdle, Ready,
          [], [], [], [])

  function Run(s: State, es: seq<Event>): (t: State)
    ensures s.replies <= t.replies
    decreases |es|
  {
    if es == [] then s else Run(Next(s, es[0]), es[1..])
  }

  // ----- What every interleaving keeps -----

  predicate Active(w: Worker) {
    !w.WIdle? && !w.WTail?
  }

  /** The worker is past the frame-limit check of the current frame. */
  predicate Through(w: Worker) {
    w.WSend? || w.WEnqueue? || w.WDecide?
  }

  /** Who may be where while the stream is in which state. */
  predicate Sync(sh: Shared, w: Worker, c: Control, quiet: bool) {
    && (Active(w) ==> sh.stream != Idle && !sh.scheduled)
    && (sh.scheduled ==> sh.stream != Idle)
    && (sh.canceling <==> c.StopWait?)
    && (sh.stream == Stopping ==> c.StopCancel? || c.StopWait? || c.StopIdle?)
    && (c.StartTarget? || c.StartBuffers? || c.StartSet? ==> sh.stream == Idle)
    && (c.StartSchedule? ==> sh.stream == Streaming && !sh.scheduled && !Active(w))
    && (c.StopWait? ==> !sh.scheduled)
    && (c.StopIdle? ==> !sh.scheduled && w == WIdle)
    && (c.FlushVideo? || c.FlushDriver? || c.FlushDone? ==> sh.stream == Idle)
    && (quiet ==> sh.stream == Idle)
    && (c.StopSet? || c.StopCancel? || c.StopWait? || c.StopIdle? ==> !quiet)
    && (c.StartSchedule? || c.Started? ==> !quiet)
  }

  /**
   The counters of the running capture; `live` while its worker can still run, `reached` when it saw the target
   exceeded.
   */
  predicate Counted(n: Tally, live: bool, through: bool, reached: bool) {
    && (live ==> n.target == n.goal && !n.complete)
    && (through ==> n.passed > 0 && (n.goal > 0 ==> n.frameId <= n.goal))
    && (!n.wrapped ==> n.frameId == n.base + n.passed + if n.complete || reached then 1 else 0)
    && (!n.wrapped && n.goal > 0 && n.passed > 0 ==> n.base + n.passed <= n.goal)
    && (!n.wrapped && (n.complete || reached) ==> n.goal > 0 && n.base + n.passed >= n.goal)
  }

  predicate Live(s: State) {
    s.sh.stream == Streaming || Active(s.w) || s.sh.scheduled
  }

  /** The info state and the stream agree while the control thread is between requests. */
  predicate InfoAgrees(stream: Stream, info: Info, c: Control, quiet: bool) {
    && (quiet ==> info != Capturing)
    && (info != Capturing ==>
          || stream == Idle
          || c.StartSchedule? || c.Started? || c.StopCheck? || c.StopSet?
          || c.StopCancel? || c.StopWait? || c.StopIdle?)
  }

  /** What has been sent of the frames let through: the fragments of each, frame by frame. */
  function Sent(base: nat, cuts: seq<Cut>): seq<Fragment>
    decreases |cuts|
  {
    if cuts == [] then []
    else
      var k := |cuts| - 1;
      Sent(base, cuts[..k]) + ChunksOf(IdAfter(base, k + 1), cuts[k])
  }

  /** The frame counter is 32 bits wide. */
  function IdAfter(base: nat, frames: nat): (id: nat)
    ensures id == (base + frames) % 0x1_0000_0000
    ensures base + frames < 0x1_0000_0000 ==> id == base + frames
  {
    (base + frames) % COUNTER_RANGE
  }

  function ChunksOf(id: nat, c: Cut): seq<Fragment> {
    Chunks(id, c.frame[..if c.sent <= |c.frame| then c.sent else |c.frame|])
  }

  /** A cut falls on a fragment boundary. */
  predicate Aligned(c: Cut) {
    c.sent <= |c.frame| && (c.sent < |c.frame| ==> c.sent % MTU == 0)
  }

  predicate AllAligned(cuts: seq<Cut>) {
    forall i :: 0 <= i < |cuts| ==> Aligned(cuts[i])
  }

  /** The frame in the hand of the worker is the last one let through. */
  predicate InHand(cuts: seq<Cut>, w: Worker) {
    w.WSend? ==> cuts != [] && cuts[|cuts| - 1] == Cut(w.sending, w.offset)
  }

  /** The log is what it was at the start, followed by what was sent of each frame under its own id. */
  predicate Logged(s: State) {
    && s.log == s.before + Sent(s.n.base, s.cuts)
    && |s.cuts| == s.n.passed
    && AllAligned(s.cuts)
    && InHand(s.cuts, s.w)
    && s.n.frameId == IdAfter(s.n.base, s.n.passed + if s.n.complete || s.w.WReached? then 1 else 0)
  }

  /**
   A running stream keeps a worker: scheduled, or at work on its way to being scheduled again. And while a stream is
   being stopped it does not run.
   */
  predicate Alive(sh: Shared, w: Worker, c: Control) {
    && (sh.stream == Streaming && !c.StartSchedule? ==> sh.scheduled || Active(w))
    && (c.StopCancel? || c.StopWait? || c.StopIdle? ==> sh.stream != Streaming)
  }

  predicate Invariant(s: State) {
    && Sync(s.sh, s.w, s.c, s.quiet)
    && Alive(s.sh, s.w, s.c)
    && InfoAgrees(s.sh.stream, s.info, s.c, s.quiet)
    && Counted(s.n, Live(s), Through(s.w), s.w.WReached?)
    && Logged(s)
  }

  lemma ConnectedInvariant()
    ensures Invariant(CONNECTED)
  {
  }

  lemma NextKeepsInvariant(s: State, e: Event)
    requires Invariant(s)
    ensures Invariant(Next(s, e))
  {
    hide WorkStep, GoStep, Sent;
    match e
    case Work(buffer, ok) =>
      hide Invariant;
      WorkKeepsInvariant(s, buffer, ok);
    case Go(ok) =>
      hide Invariant;
      GoKeepsInvariant(s, ok);
    case _ =>
      hide Logged;
      OnlyAnswered(s, Next(s, e));
  }

  lemma OnlyAnswered(s: State, t: State)
    requires t.log == s.log && t.before == s.before && t.cuts == s.cuts && t.n.base == s.n.base
    requires t.n.passed == s.n.passed && t.n.frameId == s.n.frameId && t.n.complete == s.n.complete && t.w == s.w
    ensures Logged(t) == Logged(s)
  {
    hide Sent, AllAligned;
  }

  lemma WorkKeepsInvariant(s: State, buffer: Option<seq<byte>>, ok: bool)
    requires Invariant(s)
    ensures Invariant(WorkStep(s, buffer, ok))
  {
    hide WorkStep, Counted, Sync, Logged, InfoAgrees, Alive;
    WorkKeepsSync(s, buffer, ok);
    WorkKeepsAlive(s, buffer, ok);
    WorkKeepsCounted(s, buffer, ok);
    hide Live;
    WorkKeepsLogged(s, buffer, ok);
  }

  lemma WorkKeepsSync(s: State, buffer: Option<seq<byte>>, ok: bool)
    requires Sync(s.sh, s.w, s.c, s.quiet) && InfoAgrees(s.sh.stream, s.info, s.c, s.quiet)
    ensures var t := WorkStep(s, buffer, ok);
            && Sync(t.sh, t.w, t.c, t.quiet) && InfoAgrees(t.sh.stream, t.info, t.c, t.quiet)
  {
    hide OverTarget, Bump, ChunkLen, Advance;
    match s.w
    case WCount(frame) =>
    case WSend(frame, offset) =>
    case _ =>
  }

  lemma WorkKeepsAlive(s: State, buffer: Option<seq<byte>>, ok: bool)
    requires Sync(s.sh, s.w, s.c, s.quiet) && Alive(s.sh, s.w, s.c)
    ensures var t := WorkStep(s, buffer, ok);
            Alive(t.sh, t.w, t.c)
  {
    hide OverTarget, Bump, ChunkLen, Advance;
  }

  lemma WorkKeepsCounted(s: State, buffer: Option<seq<byte>>, ok: bool)
    requires Sync(s.sh, s.w, s.c, s.quiet) && Counted(s.n, Live(s), Through(s.w), s.w.WReached?)
    ensures var t := WorkStep(s, buffer, ok);
            Counted(t.n, Live(t), Through(t.w), t.w.WReached?)
    ensures Active(s.w) ==> !s.n.complete
  {
    hide ChunkLen, Advance;
    match s.w
    case WCount(frame) =>
    case WSend(frame, offset) =>
    case _ =>
  }

  lemma WorkKeepsLogged(s: State, buffer: Option<seq<byte>>, ok: bool)
    requires Logged(s) && (Active(s.w) ==> !s.n.complete)
    ensures Logged(WorkStep(s, buffer, ok))
  {
    hide Sent, CountStep, SendStep;
    match s.w
    case WCount(frame) =>
      hide Logged;
      CountKeepsLogged(s, frame);
    case WSend(frame, offset) =>
      if offset < |frame| && ok {
        hide Logged;
        SendKeepsLogged(s, frame, offset);
      }
    case _ =>
      hide AllAligned;
  }

  lemma CountKeepsLogged(s: State, frame: seq<byte>)
    requires Logged(s) && !s.n.complete && s.w == WCount(frame)
    ensures Logged(CountStep(s, frame))
  {
    BumpIs(s.n);
    SentEmpty(s.n.base, s.cuts, frame);
    hide Sent, OverTarget, Bump, IdAfter;
    AlignedNext(s.cuts, Cut(frame, 0));
    hide AllAligned;
  }

  /** A frame of which nothing has gone out yet adds nothing. */
  lemma SentEmpty(base: nat, cuts: seq<Cut>, frame: seq<byte>)
    ensures Sent(base, cuts + [Cut(frame, 0)]) == Sent(base, cuts)
  {
    var id, c := IdAfter(base, |cuts| + 1), Cut(frame, 0);
    SentNext(base, cuts, c);
    assert frame[..0] == [];
    assert ChunksOf(id, c) == [];
    hide Sent, ChunksOf;
    assert Sent(base, cuts) + [] == Sent(base, cuts);
  }

  lemma BumpIs(n: Tally)
    ensures Bump(n) == n.(frameId := Bump(n).frameId, wrapped := Bump(n).wrapped)
    ensures n.frameId == IdAfter(n.base, n.passed) ==> Bump(n).frameId == IdAfter(n.base, n.passed + 1)
  {
  }

  lemma SendKeepsLogged(s: State, frame: seq<byte>, offset: nat)
    requires Logged(s) && !s.n.complete && s.w == WSend(frame, offset) && offset < |frame|
    ensures Logged(SendStep(s, frame, offset))
  {
    hide Sent, AllAligned, Aligned, Advance, ChunkLen, IdAfter, SendStep;
    var init := s.cuts[..|s.cuts| - 1];
    var n := ChunkLen(frame, offset);
    var now := init + [Cut(frame, offset + n)];
    var f := Fragment(s.n.frameId, frame[offset..offset + n]);
    LastCut(s.cuts, frame, offset, offset + n);
    SentMore(s.n.base, init, frame, offset);
    AlignedNext(init, Cut(frame, offset + n));
    SendFields(s, frame, offset);
    assert Sent(s.n.base, now) == Sent(s.n.base, s.cuts) + [f];
    ConcatAssoc(s.before, Sent(s.n.base, s.cuts), [f]);
  }

  lemma LastCut(cuts: seq<Cut>, frame: seq<byte>, offset: nat, to: nat)
    requires cuts != [] && cuts[|cuts| - 1] == Cut(frame, offset) && AllAligned(cuts)
    ensures var init := cuts[..|cuts| - 1];
            && cuts == init + [Cut(frame, offset)] && Advance(cuts, to) == init + [Cut(frame, to)]
            && AllAligned(init) && Aligned(Cut(frame, offset))
  {
    hide Aligned;
  }

  lemma SendFields(s: State, frame: seq<byte>, offset: nat)
    requires offset < |frame|
    ensures var n := ChunkLen(frame, offset);
            SendStep(s, frame, offset)
            == s.(log := s.log + [Fragment(s.n.frameId, frame[offset..offset + n])],
                  cuts := Advance(s.cuts, offset + n), w := WSend(frame, offset + n))
  {
    hide Advance, ChunkLen;
  }

  lemma AlignedNext(cuts: seq<Cut>, c: Cut)
    requires AllAligned(cuts) && Aligned(c)
    ensures AllAligned(cuts + [c])
  {
  }

  /** One more fragment of the last frame. */
  lemma SentMore(base: nat, init: seq<Cut>, frame: seq<byte>, offset: nat)
    requires offset < |frame| && Aligned(Cut(frame, offset))
    ensures var n := ChunkLen(frame, offset);
            var id := IdAfter(base, |init| + 1);
            && Aligned(Cut(frame, offset + n))
            && Sent(base, init + [Cut(frame, offset + n)])
               == Sent(base, init + [Cut(frame, offset)]) + [Fragment(id, frame[offset..offset + n])]
  {
    var n := ChunkLen(frame, offset);
    var id := IdAfter(base, |init| + 1);
    var was, now := Cut(frame, offset), Cut(frame, offset + n);
    ChunksExtend(id, frame, offset);
    SentNext(base, init, was);
    SentNext(base, init, now);
    hide Sent, Chunks;
    ConcatAssoc(Sent(base, init), ChunksOf(id, was), [Fragment(id, frame[offset..offset + n])]);
  }

  lemma SentNext(base: nat, cuts: seq<Cut>, c: Cut)
    ensures Sent(base, cuts + [c]) == Sent(base, cuts) + ChunksOf(IdAfter(base, |cuts| + 1), c)
  {
    assert (cuts + [c])[..|cuts|] == cuts;
    hide ChunksOf;
  }

  lemma GoKeepsInvariant(s: State, ok: bool)
    requires Invariant(s)
    ensures Invariant(GoStep(s, ok))
  {
    hide GoStep, Counted, Sync, Logged, InfoAgrees, Alive;
    GoKeepsSync(s, ok);
    GoKeepsAlive(s, ok);
    GoKeepsInfo(s, ok);
    GoKeepsCounted(s, ok);
    GoKeepsLogged(s, ok);
  }

  lemma GoKeepsAlive(s: State, ok: bool)
    requires Sync(s.sh, s.w, s.c, s.quiet) && Alive(s.sh, s.w, s.c)
    ensures var t := GoStep(s, ok);
            Alive(t.sh, t.w, t.c)
  {
  }

  lemma GoKeepsInfo(s: State, ok: bool)
    requires Sync(s.sh, s.w, s.c, s.quiet) && InfoAgrees(s.sh.stream, s.info, s.c, s.quiet)
    ensures var t := GoStep(s, ok);
            InfoAgrees(t.sh.stream, t.info, t.c, t.quiet)
  {
  }

  lemma GoKeepsLogged(s: State, ok: bool)
    requires Logged(s) && Sync(s.sh, s.w, s.c, s.quiet)
    ensures Logged(GoStep(s, ok))
  {
    hide Logged;
    if s.c == StartSet {
      StartKeepsLogged(s, ok);
    } else {
      hide Sync, Schedule, AfterStop;
      OnlyAnswered(s, GoStep(s, ok));
    }
  }

  lemma StartKeepsLogged(s: State, ok: bool)
    requires Logged(s) && Sync(s.sh, s.w, s.c, s.quiet) && s.c == StartSet
    ensures Logged(GoStep(s, ok))
  {
    assert !s.w.WSend? && !s.w.WReached?;
    assert AllAligned([]);
    SentNothing(s.n.frameId);
    hide Sync, Sent, AllAligned;
    assert s.log + [] == s.log;
  }

  lemma SentNothing(base: nat)
    ensures Sent(base, []) == []
  {
  }

  lemma GoKeepsSync(s: State, ok: bool)
    requires Sync(s.sh, s.w, s.c, s.quiet)
    ensures var t := GoStep(s, ok);
            Sync(t.sh, t.w, t.c, t.quiet) && t.w == s.w
  {
    match s.c
    case StopCheck(flush) =>
    case StopWait(flush) =>
    case StopIdle(flush) =>
    case _ =>
  }

  lemma GoKeepsCounted(s: State, ok: bool)
    requires Sync(s.sh, s.w, s.c, s.quiet) && Counted(s.n, Live(s), Through(s.w), s.w.WReached?)
    ensures var t := GoStep(s, ok);
            Counted(t.n, Live(t), Through(t.w), t.w.WReached?)
  {
    GoTally(s, ok);
    assert s.c.StartTarget? ==> !Live(s);
    hide GoStep, Sync;
  }

  /** Only starting a stream touches the counters, and only starting one brings the worker to life. */
  lemma GoTally(s: State, ok: bool)
    requires Sync(s.sh, s.w, s.c, s.quiet)
    ensures var t := GoStep(s, ok);
            && t.w == s.w
            && (s.c.StartTarget? ==> t.n == s.n.(target := s.c.num) && !Live(t))
            && (s.c.StartSet? ==>
                  t.n == s.n.(goal := s.n.target, base := s.n.frameId, passed := 0, complete := false)
                  && !Active(t.w))
            && (!s.c.StartTarget? && !s.c.StartSet? ==> t.n == s.n && (Live(t) ==> Live(s)))
  {
    match s.c
    case StopCheck(flush) =>
    case StopWait(flush) =>
    case StopIdle(flush) =>
    case _ =>
  }

  lemma {:induction false} AlwaysInvariant(s: State, es: seq<Event>)
    requires Invariant(s)
    ensures Invariant(Run(s, es))
    decreases |es|
  {
    hide Invariant, Next;
    if es != [] {
      NextKeepsInvariant(s, es[0]);
      AlwaysInvariant(Next(s, es[0]), es[1..]);
    }
  }

  // ----- Quiescence -----

  /** A fragment leaves only while a capture is running, with the current frame id, within the target. */
  predicate MaySend(s: State, f: Fragment) {
    && !s.quiet && s.sh.stream != Idle
    && f.frameId == s.n.frameId && 1 <= |f.payload| <= MTU
    && (s.n.goal > 0 ==> f.frameId <= s.n.goal)
    && (!s.n.wrapped ==> 1 <= f.frameId)
  }

  lemma SendingStep(s: State, e: Event)
    requires Invariant(s)
    ensures Next(s, e).log == s.log
            || exists f: Fragment :: Next(s, e).log == s.log + [f] && MaySend(s, f)
  {
    hide GoStep;
    match e
    case Work(buffer, ok) =>
      if s.w.WSend? && s.w.offset < |s.w.sending| && ok {
        var k := ChunkLen(s.w.sending, s.w.offset);
        var f := Fragment(s.n.frameId, s.w.sending[s.w.offset..s.w.offset + k]);
        assert Next(s, e).log == s.log + [f] && MaySend(s, f);
      } else {
        hide ChunkLen, Bump, Invariant;
      }
    case Go(ok) =>
      GoSendsNothing(s, ok);
    case _ =>
  }

  lemma GoSendsNothing(s: State, ok: bool)
    ensures GoStep(s, ok).log == s.log
    ensures s.c != StartSet ==> GoStep(s, ok).n.goal == s.n.goal && GoStep(s, ok).n.base == s.n.base
    ensures GoStep(s, ok).n.wrapped == s.n.wrapped
  {
  }

  /** The step that starts the stream. */
  predicate StartsStream(s: State, e: Event) {
    e.Go? && s.c.StartSet?
  }

  predicate Starts(s: State, es: seq<Event>)
    decreases |es|
  {
    es != [] && (StartsStream(s, es[0]) || Starts(Next(s, es[0]), es[1..]))
  }

  /**
   On the data plane: with no worker at work, nothing is sent until the stream is started, under every
   interleaving.
   */
  lemma {:induction false} SilentUntilStarted(s: State, es: seq<Event>)
    requires Invariant(s) && !Live(s) && !Starts(s, es)
    ensures Run(s, es).log == s.log && !Live(Run(s, es))
    decreases |es|
  {
    if es != [] {
      SilentStep(s, es[0]);
      NextKeepsInvariant(s, es[0]);
      hide Invariant, Next, Live;
      SilentUntilStarted(Next(s, es[0]), es[1..]);
    }
  }

  lemma SilentStep(s: State, e: Event)
    requires Sync(s.sh, s.w, s.c, s.quiet) && !Live(s) && !StartsStream(s, e)
    ensures Next(s, e).log == s.log && !Live(Next(s, e))
  {
    if e.Go? {
      GoTally(s, e.ok);
      GoSendsNothing(s, e.ok);
    }
    hide GoStep, Sync, CountStep, SendStep;
  }

  /** StartSet alone ends the quiet; whether the capture it belongs to is accepted is not decided yet. */
  lemma QuietEndsAtStartSet(s: State, e: Event)
    requires s.quiet
    ensures Next(s, e).quiet <==> !StartsStream(s, e)
  {
    hide ChunkLen, Bump, OverTarget;
  }

  /** The stream has been started for a capture that the host has no answer to yet. */
  predicate StartedUnanswered(s: State) {
    (s.c.StartSchedule? || s.c.Started?) && s.info != Capturing
  }

  /** video_stream_start fails for a capture whose stream has already been started. */
  predicate VideoRefuses(s: State, e: Event) {
    s.c.Started? && s.info != Capturing && e == Go(false)
  }

  predicate VideoRefused(s: State, es: seq<Event>)
    decreases |es|
  {
    es != [] && (VideoRefuses(s, es[0]) || VideoRefused(Next(s, es[0]), es[1..]))
  }

  /** What the host is told during these events. */
  function Told(s: State, es: seq<Event>): seq<Reply> {
    Run(s, es).replies[|s.replies|..]
  }

  lemma ToldFirst(s: State, e: Event, es: seq<Event>)
    ensures Told(s, [e] + es) == Next(s, e).replies[|s.replies|..] + Told(Next(s, e), es)
  {
    var t := Next(s, e);
    assert ([e] + es)[1..] == es;
    hide Next;
    assert t.replies <= Run(t, es).replies;
  }

  /** Such a capture stays unanswered, is accepted, or is refused by the video device. */
  lemma {:induction false} Unanswered(s: State, es: seq<Event>)
    requires StartedUnanswered(s)
    ensures StartedUnanswered(Run(s, es)) || CaptureDone in Told(s, es) || VideoRefused(s, es)
    decreases |es|
  {
    if es != [] {
      var t := Next(s, es[0]);
      assert es == [es[0]] + es[1..];
      ToldFirst(s, es[0], es[1..]);
      UnansweredStep(s, es[0]);
      hide Next, StartedUnanswered, VideoRefuses, Told;
      if StartedUnanswered(t) {
        Unanswered(t, es[1..]);
      }
    }
  }

  lemma UnansweredStep(s: State, e: Event)
    requires StartedUnanswered(s)
    ensures StartedUnanswered(Next(s, e)) || VideoRefuses(s, e) || Next(s, e).replies == s.replies + [CaptureDone]
  {
    if e.Work? {
      WorkLeavesControl(s, e.buffer, e.ok);
    }
    hide WorkStep;
  }

  lemma WorkLeavesControl(s: State, buffer: Option<seq<byte>>, ok: bool)
    ensures var t := WorkStep(s, buffer, ok);
            t.c == s.c && t.info == s.info && t.quiet == s.quiet && t.replies == s.replies
  {
    hide Bump, OverTarget, ChunkLen, Advance;
  }

  /** The stream is idle and the camera not capturing: since connecting, a flush, or a refused capture. */
  predicate Still(s: State) {
    && s.info != Capturing && s.sh.stream == Idle
    && (s.c.Ready? || s.c.StartCheck? || s.c.StartTarget? || s.c.StartBuffers? || s.c.StartSet?)
  }

  lemma StillStep(s: State, e: Event)
    requires Invariant(s) && Still(s)
    ensures Next(s, e).log == s.log && (Still(Next(s, e)) || StartedUnanswered(Next(s, e)))
  {
    SendingStep(s, e);
    hide Counted, Logged, InfoAgrees, SendStep, CountStep;
  }

  /**
   Quiescence as the host sees it. From a still state, under every interleaving, nothing is sent unless the host
   was told that a capture is accepted, or a capture was refused by the video device after its stream had been
   started, or a capture past that point still waits for its answer.
   */
  lemma {:induction false} Quiescence(s: State, es: seq<Event>)
    requires Invariant(s) && Still(s)
    ensures Run(s, es).log == s.log || CaptureDone in Told(s, es) || VideoRefused(s, es)
            || StartedUnanswered(Run(s, es))
    decreases |es|
  {
    if es != [] {
      var t := Next(s, es[0]);
      assert es == [es[0]] + es[1..];
      StillStep(s, es[0]);
      NextKeepsInvariant(s, es[0]);
      ToldFirst(s, es[0], es[1..]);
      hide Next, Invariant, Told, StartedUnanswered, Still;
      if Still(t) {
        Quiescence(t, es[1..]);
      } else {
        Unanswered(t, es[1..]);
      }
    }
  }

  /** From the moment of connecting, nothing is sent before that. */
  lemma NothingBeforeCapture(es: seq<Event>)
    ensures var t := Run(CONNECTED, es);
            t.log == [] || CaptureDone in Told(CONNECTED, es) || VideoRefused(CONNECTED, es) || StartedUnanswered(t)
  {
    ConnectedInvariant();
    hide Invariant, Run, Told, VideoRefused;
    Quiescence(CONNECTED, es);
  }

  /** Nor after a flush: any history since connecting, a flush answered with success, then any events. */
  lemma NothingAfterFlush(before: seq<Event>, ok: bool, after: seq<Event>)
    requires Run(CONNECTED, before).c == FlushDone
    ensures var t := GoStep(Run(CONNECTED, before), ok);
            Run(t, after).log == t.log || CaptureDone in Told(t, after) || VideoRefused(t, after)
            || StartedUnanswered(Run(t, after))
  {
    ConnectedInvariant();
    AlwaysInvariant(CONNECTED, before);
    var s := Run(CONNECTED, before);
    FlushedIsQuiet(s, ok);
    assert GoStep(s, ok).c == Ready;
    hide Invariant, GoStep, Run, Told, VideoRefused;
    GoKeepsInvariant(s, ok);
    Quiescence(GoStep(s, ok), after);
  }

  /** The step that answers a flush with success leaves the camera quiet, with nothing running or scheduled. */
  lemma FlushedIsQuiet(s: State, ok: bool)
    requires Invariant(s)
    ensures var t := GoStep(s, ok);
            && (t.replies == s.replies + [Flushed(s.n.frameId)] <==> s.c == FlushDone)
            && (s.c == FlushDone ==>
                  t.quiet && t.sh.stream == Idle && !t.sh.scheduled && !Active(t.w) && t.info == Configured)
  {
    hide Counted;
    assert forall r :: s.replies + [r] == s.replies + [Flushed(s.n.frameId)] ==> r == Flushed(s.n.frameId) by {
      LastReply(s.replies);
    }
    assert s.replies + [Flushed(s.n.frameId)] != s.replies;
  }

  lemma LastReply(rs: seq<Reply>)
    ensures forall r, q :: rs + [r] == rs + [q] ==> r == q
  {
    forall r, q | rs + [r] == rs + [q]
      ensures r == q
    {
      assert (rs + [r])[|rs|] == (rs + [q])[|rs|];
    }
  }

  // ----- The frame limit -----

  lemma CaptureKept(s: State, e: Event)
    requires !StartsStream(s, e)
    ensures Next(s, e).n.goal == s.n.goal && Next(s, e).n.base == s.n.base
    ensures s.n.wrapped ==> Next(s, e).n.wrapped
    ensures s.log <= Next(s, e).log
  {
    hide GoStep, ChunkLen;
    match e
    case Go(ok) => GoSendsNothing(s, ok);
    case _ =>
  }

  /** Within one capture with target T > 0, every fragment carries a frame id in 1..T, unless the counter overflowed. */
  lemma {:induction false} FrameLimit(s: State, es: seq<Event>)
    requires Invariant(s) && !Starts(s, es) && s.n.goal > 0
    ensures s.log <= Run(s, es).log
    ensures s.n.wrapped ==> Run(s, es).n.wrapped
    ensures forall f <- Run(s, es).log[|s.log|..] ::
              f.frameId <= s.n.goal && (1 <= f.frameId || Run(s, es).n.wrapped)
    decreases |es|
  {
    hide Invariant, Next;
    if es != [] {
      var t := Next(s, es[0]);
      SendingStep(s, es[0]);
      CaptureKept(s, es[0]);
      NextKeepsInvariant(s, es[0]);
      FrameLimit(t, es[1..]);
      var u := Run(t, es[1..]);
      assert u.log[|s.log|..] == t.log[|s.log|..] + u.log[|t.log|..];
    }
  }

  /** The fragments sent of `cuts` carry the ids base + 1 to base + |cuts|, in this order. */
  lemma {:induction false} SentIds(base: nat, cuts: seq<Cut>)
    requires base + |cuts| < COUNTER_RANGE
    ensures forall i :: 0 <= i < |Sent(base, cuts)| ==>
              base + 1 <= Sent(base, cuts)[i].frameId <= base + |cuts|
    ensures forall i, j :: 0 <= i < j < |Sent(base, cuts)| ==>
              Sent(base, cuts)[i].frameId <= Sent(base, cuts)[j].frameId
    decreases |cuts|
  {
    if cuts != [] {
      var k := |cuts| - 1;
      SentIds(base, cuts[..k]);
      var c := cuts[k];
      ChunksTile(base + k + 1, c.frame[..if c.sent <= |c.frame| then c.sent else |c.frame|]);
      hide Chunks;
    }
  }

  /** At every moment, under every interleaving: what went out since the stream was started, in order of frame id. */
  lemma SentSinceStart(s: State)
    requires Invariant(s) && !s.n.wrapped && s.n.frameId < COUNTER_RANGE
    ensures s.before <= s.log
    ensures forall i :: |s.before| <= i < |s.log| ==>
              s.n.base + 1 <= s.log[i].frameId <= s.n.base + s.n.passed
    ensures forall i, j :: |s.before| <= i < j < |s.log| ==> s.log[i].frameId <= s.log[j].frameId
  {
    SentIds(s.n.base, s.cuts);
    hide Sent, Sync, InfoAgrees, AllAligned, InHand, IdAfter;
    var x := Sent(s.n.base, s.cuts);
    assert forall i :: |s.before| <= i < |s.log| ==> s.log[i] == x[i - |s.before|];
  }

  /**
   What a capture of T > 0 frames delivers before it stops by itself: the frames base + 1 to T, of each of them
   what the transport took. frame_id is not reset when a capture starts, so the first capture after connecting
   delivers T frames and a later one fewer, possibly none.
   */
  lemma CaptureDelivers(s: State)
    requires Invariant(s) && s.n.complete && !s.n.wrapped
    ensures s.log == s.before + Sent(s.n.base, s.cuts)
    ensures |s.cuts| == if s.n.base < s.n.goal then s.n.goal - s.n.base else 0
    ensures forall f <- Sent(s.n.base, s.cuts) :: s.n.base < f.frameId <= s.n.goal
    ensures |s.cuts| == s.n.goal <==> s.n.base == 0
    ensures s.n.frameId > s.n.goal
  {
    assert s.n.base + |s.cuts| < COUNTER_RANGE;
    SentIds(s.n.base, s.cuts);
    hide Sent, Sync, InfoAgrees, AllAligned, InHand, IdAfter;
  }

  // ----- One frame, uninterrupted -----

  /** A frame cut at every multiple of the MTU. */
  function Chunks(id: nat, bytes: seq<byte>): seq<Fragment>
    decreases |bytes|
  {
    if bytes == [] then []
    else if |bytes| <= MTU then [Fragment(id, bytes)]
    else [Fragment(id, bytes[..MTU])] + Chunks(id, bytes[MTU..])
  }

  function Payloads(fs: seq<Fragment>): (ps: seq<seq<byte>>)
    ensures |ps| == |fs|
  {
    seq(|fs|, i requires 0 <= i < |fs| => fs[i].payload)
  }

  /** The fragments are the frame: in order, without gap or overlap, full size but for the last. */
  lemma {:induction false} ChunksTile(id: nat, bytes: seq<byte>)
    ensures Flatten(Payloads(Chunks(id, bytes))) == bytes
    ensures |Chunks(id, bytes)| == (|bytes| + 1023) / 1024
    ensures forall i :: 0 <= i < |Chunks(id, bytes)| ==>
              var f := Chunks(id, bytes)[i];
              && f.frameId == id && 1 <= |f.payload| <= 1024
              && (i + 1 < |Chunks(id, bytes)| ==> |f.payload| == 1024)
    decreases |bytes|
  {
    var fs := Chunks(id, bytes);
    if bytes == [] {
      assert Payloads(fs) == [];
    } else if |bytes| <= MTU {
      assert Payloads(fs) == [bytes];
      assert Payloads(fs)[1..] == [];
      FlattenCons(Payloads(fs));
    } else {
      ChunksTile(id, bytes[MTU..]);
      FlattenCons(Payloads(fs));
      assert Payloads(fs)[1..] == Payloads(Chunks(id, bytes[MTU..]));
      assert bytes == bytes[..MTU] + bytes[MTU..];
    }
  }

  /** One more chunk of a frame, cut after k of its bytes. */
  lemma {:induction false} ChunksExtend(id: nat, frame: seq<byte>, k: nat)
    requires k < |frame| && k % MTU == 0
    ensures var n := ChunkLen(frame, k);
            Chunks(id, frame[..k + n]) == Chunks(id, frame[..k]) + [Fragment(id, frame[k..k + n])]
    decreases k
  {
    var n := ChunkLen(frame, k);
    if k > 0 {
      var tail := frame[MTU..];
      ChunksExtend(id, tail, k - MTU);
      assert tail[..k - MTU + n] == frame[..k + n][MTU..] && tail[..k - MTU] == frame[..k][MTU..];
      assert frame[..k + n][..MTU] == frame[..MTU] == frame[..k][..MTU];
      assert tail[k - MTU..k - MTU + n] == frame[k..k + n];
      if k == MTU {
        assert frame[..k][..MTU] == frame[..k];
      }
    } else {
      assert frame[..0] == [];
      assert frame[0..n] == frame[..0 + n];
    }
  }

  function Repeat(e: Event, n: nat): (es: seq<Event>)
    ensures |es| == n
  {
    if n == 0 then [] else [e] + Repeat(e, n - 1)
  }

  lemma RepeatFirst(s: State, e: Event, n: nat)
    ensures Run(s, Repeat(e, n + 1)) == Run(Next(s, e), Repeat(e, n))
  {
    assert Repeat(e, n + 1)[0] == e && Repeat(e, n + 1)[1..] == Repeat(e, n);
    hide Next, Repeat;
  }

  /** Left alone and with nothing refused, the sending steps put out exactly these chunks. */
  lemma {:induction false} SendingUninterrupted(s: State, frame: seq<byte>, k: nat)
    requires s.w == WSend(frame, k) && k <= |frame|
    ensures var cs := Chunks(s.n.frameId, frame[k..]);
            var t := Run(s, Repeat(Work(None, true), |cs| + 1));
            t == s.(log := s.log + cs, w := WEnqueue, cuts := t.cuts)
    decreases |frame| - k
  {
    var e := Work(None, true);
    var cs := Chunks(s.n.frameId, frame[k..]);
    var t := Next(s, e);
    RepeatFirst(s, e, |cs|);
    if k == |frame| {
      assert cs == [] && s.log + [] == s.log;
      assert Run(t, Repeat(e, 0)) == t;
    } else {
      var n := ChunkLen(frame, k);
      var f := Fragment(s.n.frameId, frame[k..k + n]);
      assert t == s.(log := s.log + [f], w := WSend(frame, k + n), cuts := t.cuts);
      ChunksHead(s.n.frameId, frame, k);
      hide Next, Chunks, Repeat;
      SendingUninterrupted(t, frame, k + n);
      ConcatAssoc(s.log, [f], Chunks(s.n.frameId, frame[k + n..]));
    }
  }

  /**
   Under every interleaving, control steps and refusals included: what has been sent of the frame in hand is the
   fragments of its first `offset` bytes, at the end of the log.
   */
  lemma FrameInProgress(s: State)
    requires Invariant(s) && s.w.WSend?
    ensures s.cuts != [] && s.w.offset <= |s.w.sending|
    ensures var earlier := s.cuts[..|s.cuts| - 1];
            s.log == s.before + Sent(s.n.base, earlier) + Chunks(s.n.frameId, s.w.sending[..s.w.offset])
  {
    var k := |s.cuts| - 1;
    assert s.cuts == s.cuts[..k] + [s.cuts[k]];
    SentNext(s.n.base, s.cuts[..k], s.cuts[k]);
    hide Sent, Chunks, IdAfter;
    ConcatAssoc(s.before, Sent(s.n.base, s.cuts[..k]), Chunks(s.n.frameId, s.w.sending[..s.w.offset]));
  }

  lemma ChunksHead(id: nat, frame: seq<byte>, k: nat)
    requires k < |frame|
    ensures var n := ChunkLen(frame, k);
            Chunks(id, frame[k..]) == [Fragment(id, frame[k..k + n])] + Chunks(id, frame[k + n..])
  {
    var n := ChunkLen(frame, k);
    assert frame[k..][n..] == frame[k + n..] && frame[k..][..n] == frame[k..k + n];
    if k + n == |frame| {
      assert frame[k..] == frame[k..k + n];
    }
  }

  /** gb_camera_data_ctx as the worker sees it, with the fragments handed to the transport. */
  class DataCtx {
    var streamState: Stream
    var frameId: nat
    var targetFrames: nat
    var workScheduled: bool
    var log: seq<Fragment>
    /** How many more fragments slab and transport take before one of them refuses. */
    var credit: nat

    constructor (credit: nat)
      ensures streamState == Idle && frameId == 0 && !workScheduled && log == [] && this.credit == credit
    {
      streamState, frameId, targetFrames, workScheduled, log, this.credit := Idle, 0, 0, false, [], credit;
    }

    /** Slab allocation and transport. */
    method Transmit(f: Fragment) returns (ok: bool)
      modifies this`log, this`credit
      ensures ok == (old(credit) > 0)
      ensures log == if ok then old(log) + [f] else old(log)
      ensures credit == if ok then old(credit) - 1 else 0
    {
      ok := credit > 0;
      if ok {
        log, credit := log + [f], credit - 1;
      }
    }

    /**
     gb_camera_frame_worker run without interruption. `sent` says how much of the frame went out: all of it, or
     up to a fragment boundary when a fragment was refused; the frame is recycled and the worker rescheduled either way.
     */
    method FrameWorker(buffer: Option<seq<byte>>) returns (sent: nat, refused: bool)
      requires frameId < COUNTER_RANGE
      modifies this
      ensures targetFrames == old(targetFrames) && frameId < 0x1_0000_0000
      ensures old(streamState) != Streaming ==>
                frameId == old(frameId) && log == old(log) && streamState == old(streamState)
                && workScheduled == old(workScheduled)
      ensures old(streamState) == Streaming && buffer.None? ==>
                frameId == old(frameId) && log == old(log) && streamState == Streaming && workScheduled
      ensures old(streamState) == Streaming && buffer.Some? ==>
                && frameId == (old(frameId) + 1) % 0x1_0000_0000
                && if targetFrames > 0 && frameId > targetFrames
                   then streamState == Idle && log == old(log) && workScheduled == old(workScheduled)
                   else
                     && streamState == Streaming && workScheduled && sent <= |buffer.value|
                     && (if refused then credit == 0 && sent < |buffer.value| && sent % MTU == 0
                         else sent == |buffer.value|)
                     && log == old(log) + Chunks(frameId, buffer.value[..sent])
                     && credit + |Chunks(frameId, buffer.value[..sent])| == old(credit)
    {
      sent, refused := 0, false;
      if streamState != Streaming {
        return;
      }
      if buffer.None? {
        workScheduled := true;
        return;
      }
      var frame := buffer.value;
      frameId := (frameId + 1) % COUNTER_RANGE;
      if targetFrames > 0 && frameId > targetFrames {
        streamState := Idle;
        return;
      }
      assert frame[..0] == [];
      while sent < |frame|
        modifies this`log, this`credit
        invariant sent <= |frame| && !refused && (sent < |frame| ==> sent % MTU == 0)
        invariant log == old(log) + Chunks(frameId, frame[..sent])
        invariant credit + |Chunks(frameId, frame[..sent])| == old(credit)
      {
        var chunk := |frame| - sent;
        if chunk > MTU {
          chunk := MTU;
        }
        var ok := Transmit(Fragment(frameId, frame[sent..sent + chunk]));
        if !ok {
          refused := true;
          break;
        }
        ChunksExtend(frameId, frame, sent);
        sent := sent + chunk;
      }
      workScheduled := true;
    }
  }
}
