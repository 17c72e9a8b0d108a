/**
 The HDLC receiver as a step function over its four state fields, and a reference decoder that
 knows nothing of them: it cuts the line at its flags, unstuffs each piece, and checks the trailer.
 */
module HdlcReceiver {
  import opened Bytes
  import opened Crc16
  import opened HdlcFormat

  // ----- The state machine -----

  /** `held` is rx_buffer[..rx_buffer_len]. */
  datatype RxState = RxState(held: seq<byte>, crc: bv16, escaped: bool)

  const CLEAN := RxState([], SEED, false)

  function Gate(held: seq<byte>, crc: bv16): seq<Frame> {
    if |held| > 3 && crc == GOOD then [Frame(held[0], held[2..|held| - 2])] else []
  }

  function Save(s: RxState, b: byte): RxState {
    if |s.held| >= MAX_BLOCK then RxState([b], SEED, s.escaped) else s.(held := s.held + [b])
  }

  function Data(s: RxState, b: byte): RxState {
    var d := if s.escaped then Toggle(b) else b;
    Save(RxState(s.held, Step(s.crc, d), false), d)
  }

  function RxStep(s: RxState, b: byte): (RxState, seq<Frame>) {
    if b == FLAG then
      if s.held == [] then (s, []) else (RxState([], SEED, s.escaped), Gate(s.held, s.crc))
    else if b == ESC then (s.(escaped := true), [])
    else (Data(s, b), [])
  }

  function Run(s: RxState, line: seq<byte>): (RxState, seq<Frame>)
    decreases line
  {
    if line == [] then (s, [])
    else
      var (s1, f1) := RxStep(s, line[0]);
      var (s2, f2) := Run(s1, line[1..]);
      (s2, f1 + f2)
  }

  /** hdlc_process_buffer called once for each chunk. */
  function RunChunks(s: RxState, chunks: seq<seq<byte>>): (RxState, seq<Frame>)
    decreases chunks
  {
    if chunks == [] then (s, [])
    else
      var (s1, f1) := Run(s, chunks[0]);
      var (s2, f2) := RunChunks(s1, chunks[1..]);
      (s2, f1 + f2)
  }

  lemma {:induction false} RunAppend(s: RxState, a: seq<byte>, b: seq<byte>)
    ensures Run(s, a + b) == (Run(Run(s, a).0, b).0, Run(s, a).1 + Run(Run(s, a).0, b).1)
    decreases a
  {
    hide RxStep;
    if a == [] {
      assert a + b == b;
      assert [] + Run(s, b).1 == Run(s, b).1;
    } else {
      var (t, f) := RxStep(s, a[0]);
      RunAppend(t, a[1..], b);
      assert (a + b)[1..] == a[1..] + b && (a + b)[0] == a[0];
      var g, h := Run(t, a[1..]).1, Run(Run(t, a[1..]).0, b).1;
      assert f + (g + h) == (f + g) + h;
    }
  }

  lemma RunSnoc(s: RxState, a: seq<byte>, b: byte)
    ensures Run(s, a + [b]) == (RxStep(Run(s, a).0, b).0, Run(s, a).1 + RxStep(Run(s, a).0, b).1)
  {
    hide RxStep;
    var t := Run(s, a).0;
    RunAppend(s, a, [b]);
    assert [b][1..] == [];
    assert Run(RxStep(t, b).0, []) == (RxStep(t, b).0, []);
    assert RxStep(t, b).1 + [] == RxStep(t, b).1;
  }

  /** Chunking is invisible: only the bytes matter. */
  lemma {:induction false} ChunksDoNotMatter(s: RxState, chunks: seq<seq<byte>>)
    ensures RunChunks(s, chunks) == Run(s, Flatten(chunks))
    decreases chunks
  {
    hide Run;
    if chunks != [] {
      ChunksDoNotMatter(Run(s, chunks[0]).0, chunks[1..]);
      RunAppend(s, chunks[0], Flatten(chunks[1..]));
    } else {
      RunEmpty(s);
    }
  }

  lemma RunEmpty(s: RxState)
    ensures Run(s, []) == (s, [])
  {
  }

  // ----- What the state is, in terms of the bytes since the last flag -----

  /** How many of n unescaped bytes are in the buffer: it restarts with the byte that does not fit. */
  function HeldCount(n: nat): (k: nat)
    ensures k <= MAX_BLOCK && k <= n && (k == 0 <==> n == 0)
  {
    if n == 0 then 0 else (n - 1) % MAX_BLOCK + 1
  }

  function HeldOf(body: seq<byte>): seq<byte> {
    body[|body| - HeldCount(|body|)..]
  }

  /** All the buffered bytes are checked, except the first one after an overflow. */
  function CheckedOf(body: seq<byte>): seq<byte> {
    if |body| <= MAX_BLOCK then body else HeldOf(body)[1..]
  }

  function StateOf(body: seq<byte>, escaped: bool): RxState {
    RxState(HeldOf(body), Crc(SEED, CheckedOf(body)), escaped)
  }

  lemma HeldCountNext(n: nat)
    ensures HeldCount(n + 1) == if HeldCount(n) >= MAX_BLOCK then 1 else HeldCount(n) + 1
    ensures n <= MAX_BLOCK ==> HeldCount(n) == n
    ensures n > MAX_BLOCK && HeldCount(n) == MAX_BLOCK ==> n >= 2 * MAX_BLOCK
  {
  }

  lemma HeldSnoc(body: seq<byte>, d: byte)
    ensures HeldOf(body + [d]) == if |HeldOf(body)| >= MAX_BLOCK then [d] else HeldOf(body) + [d]
    ensures CheckedOf(body + [d]) == if |HeldOf(body)| >= MAX_BLOCK then [] else CheckedOf(body) + [d]
  {
    HeldCountNext(|body|);
    HeldCountNext(|body| + 1);
    hide HeldCount;
    var k := HeldCount(|body|);
    var next := body + [d];
    if k >= MAX_BLOCK {
      assert next[|body|..] == [d];
    } else {
      assert next[|body| - k..] == body[|body| - k..] + [d];
    }
  }

  /** One data byte on the line extends the body by one byte. */
  lemma DataExtends(body: seq<byte>, escaped: bool, b: byte)
    ensures Data(StateOf(body, escaped), b) == StateOf(body + [if escaped then Toggle(b) else b], false)
  {
    var d := if escaped then Toggle(b) else b;
    hide Toggle, HeldOf, CheckedOf, Step, Crc;
    HeldSnoc(body, d);
    CrcSnoc(SEED, CheckedOf(body), d);
    assert Crc(SEED, []) == SEED by { CrcNil(); }
  }

  lemma CrcNil()
    ensures Crc(SEED, []) == SEED
  {
  }

  lemma EmptyState(escaped: bool)
    ensures StateOf([], escaped) == RxState([], SEED, escaped)
  {
    hide Step;
  }

  /** A flag-free run of the line extends the body by what it unstuffs to. */
  lemma {:induction false} LineExtends(body: seq<byte>, escaped: bool, line: seq<byte>)
    requires FLAG !in line
    ensures var (more, pending) := Unstuff(escaped, line);
            Run(StateOf(body, escaped), line) == (StateOf(body + more, pending), [])
    decreases line
  {
    hide *;
    if line == [] {
      LineEmpty(body, escaped);
    } else {
      assert line[0] in line && FLAG !in line[1..];
      var rest := line[1..];
      if line[0] == ESC {
        LineEscape(body, escaped, line);
        LineExtends(body, true, rest);
      } else {
        var d := if escaped then Toggle(line[0]) else line[0];
        LineData(body, escaped, line);
        LineExtends(body + [d], false, rest);
        var more := Unstuff(false, rest).0;
        assert (body + [d]) + more == body + ([d] + more);
      }
    }
  }

  lemma LineEmpty(body: seq<byte>, escaped: bool)
    ensures Run(StateOf(body, escaped), []) == (StateOf(body, escaped), [])
    ensures Unstuff(escaped, []) == ([], escaped)
    ensures body + [] == body
  {
    hide StateOf;
  }

  lemma LineEscape(body: seq<byte>, escaped: bool, line: seq<byte>)
    requires line != [] && line[0] == ESC
    ensures Run(StateOf(body, escaped), line) == Run(StateOf(body, true), line[1..])
    ensures Unstuff(escaped, line) == Unstuff(true, line[1..])
  {
    assert ESC != FLAG;
    hide Run, HeldOf, CheckedOf, Crc;
    RunQuiet(StateOf(body, escaped), line, StateOf(body, true));
  }

  lemma LineData(body: seq<byte>, escaped: bool, line: seq<byte>)
    requires line != [] && line[0] != ESC && line[0] != FLAG
    ensures var d := if escaped then Toggle(line[0]) else line[0];
            && Run(StateOf(body, escaped), line) == Run(StateOf(body + [d], false), line[1..])
            && Unstuff(escaped, line) == ([d] + Unstuff(false, line[1..]).0, Unstuff(false, line[1..]).1)
  {
    hide Run, StateOf, Data, Toggle;
    var d := if escaped then Toggle(line[0]) else line[0];
    DataExtends(body, escaped, line[0]);
    RunQuiet(StateOf(body, escaped), line, StateOf(body + [d], false));
  }

  lemma RunQuiet(s: RxState, line: seq<byte>, t: RxState)
    requires line != [] && RxStep(s, line[0]) == (t, [])
    ensures Run(s, line) == Run(t, line[1..])
  {
    hide RxStep;
    assert [] + Run(t, line[1..]).1 == Run(t, line[1..]).1;
  }

  // ----- The reference decoder -----

  /** The flag-free pieces of a line; there is always one more than there are flags. */
  function Pieces(line: seq<byte>): (ps: seq<seq<byte>>)
    ensures ps != []
    decreases line
  {
    if line == [] then [[]]
    else
      var rest := Pieces(line[1..]);
      if line[0] == FLAG then [[]] + rest else [[line[0]] + rest[0]] + rest[1..]
  }

  /** Whether a body ends in the trailer of what precedes it. */
  predicate TrailerMatches(body: seq<byte>) {
    |body| >= 2 && body[|body| - 2..] == Trailer(Crc(SEED, body[..|body| - 2]))
  }

  function Accepted(body: seq<byte>): seq<Frame> {
    if |body| <= MAX_BLOCK then
      if |body| >= 4 && TrailerMatches(body) then [Frame(body[0], body[2..|body| - 2])] else []
    else
      Gate(HeldOf(body), Crc(SEED, HeldOf(body)[1..]))
  }

  /** Decode the pieces in order; an escape left pending by one piece carries into the next. */
  function Decode(body: seq<byte>, escaped: bool, pieces: seq<seq<byte>>): (seq<byte>, bool, seq<Frame>)
    requires pieces != []
    decreases |pieces|
  {
    var (more, pending) := Unstuff(escaped, pieces[0]);
    if |pieces| == 1 then (body + more, pending, [])
    else
      var (last, p, frames) := Decode([], pending, pieces[1..]);
      (last, p, Accepted(body + more) + frames)
  }

  /** The trailer comparison is the test against the magic residue. */
  lemma GoodIsTrailerMatch(body: seq<byte>)
    requires |body| >= 2
    ensures TrailerMatches(body) <==> Crc(SEED, body) == GOOD
  {
    hide Crc, Trailer;
    var n := |body|;
    GoodIffTrailer(SEED, body[..n - 2], body[n - 2], body[n - 1]);
    assert body == body[..n - 2] + [body[n - 2], body[n - 1]];
    assert body[n - 2..] == [body[n - 2], body[n - 1]];
  }

  lemma GateIsAccepted(body: seq<byte>)
    ensures Gate(HeldOf(body), StateOf(body, false).crc) == Accepted(body)
  {
    hide HeldCount, Crc, TrailerMatches;
    HeldCountNext(|body|);
    if 4 <= |body| <= MAX_BLOCK {
      assert HeldOf(body) == body;
      GoodIsTrailerMatch(body);
    }
  }

  lemma FlagCloses(body: seq<byte>, escaped: bool)
    ensures RxStep(StateOf(body, escaped), FLAG) == (StateOf([], escaped), Accepted(body))
  {
    GateIsAccepted(body);
    EmptyState(escaped);
    CheckedIgnoresEscape(body, escaped);
    hide Crc, HeldCount, Gate, Accepted;
    if body == [] {
      AcceptedNil();
    } else {
      assert HeldOf(body) != [];
    }
  }

  lemma AcceptedNil()
    ensures Accepted([]) == []
  {
    hide Crc;
  }

  lemma CheckedIgnoresEscape(body: seq<byte>, escaped: bool)
    ensures StateOf(body, escaped).crc == StateOf(body, false).crc
  {
    hide Crc, HeldOf;
  }

  lemma {:induction false} PiecesSplit(line: seq<byte>)
    ensures FLAG !in Pieces(line)[0]
    ensures |Pieces(line)| == 1 ==> Pieces(line)[0] == line
    ensures |Pieces(line)| > 1 ==>
              var n := |Pieces(line)[0]|;
              n < |line| && line == Pieces(line)[0] + [FLAG] + line[n + 1..]
              && Pieces(line[n + 1..]) == Pieces(line)[1..]
    decreases line
  {
    if line != [] {
      var tail := line[1..];
      var rest := Pieces(tail);
      PiecesSplit(tail);
      PiecesCons(line);
      hide *;
      if line[0] == FLAG {
        assert line == [] + [FLAG] + tail;
      } else {
        if |rest| > 1 {
          PiecesShift(line, rest[0]);
        }
      }
    }
  }

  lemma PiecesShift(line: seq<byte>, p: seq<byte>)
    requires |p| + 1 < |line| && line[1..] == p + [FLAG] + line[1..][|p| + 1..]
    ensures line == [line[0]] + p + [FLAG] + line[|p| + 2..]
    ensures line[1..][|p| + 1..] == line[|p| + 2..]
  {
    hide *;
    assert line == [line[0]] + line[1..];
  }

  lemma PiecesCons(line: seq<byte>)
    requires line != []
    ensures Pieces(line[1..]) != []
    ensures Pieces(line) == var rest := Pieces(line[1..]);
                            if line[0] == FLAG then [[]] + rest else [[line[0]] + rest[0]] + rest[1..]
  {
  }

  /** The receiver computes exactly what the reference decoder does, from every reachable state. */
  lemma {:induction false} RunIsDecode(body: seq<byte>, escaped: bool, line: seq<byte>)
    ensures var (last, pending, frames) := Decode(body, escaped, Pieces(line));
            Run(StateOf(body, escaped), line) == (StateOf(last, pending), frames)
    decreases |line|
  {
    hide StateOf, RxStep, Accepted, Run, Pieces, Unstuff;
    PiecesSplit(line);
    var ps := Pieces(line);
    var (more, pending) := Unstuff(escaped, ps[0]);
    LineExtends(body, escaped, ps[0]);
    if |ps| > 1 {
      var tail := line[|ps[0]| + 1..];
      RunAppend(StateOf(body, escaped), ps[0] + [FLAG], tail);
      RunSnoc(StateOf(body, escaped), ps[0], FLAG);
      FlagCloses(body + more, pending);
      RunIsDecode([], pending, tail);
      assert line == ps[0] + [FLAG] + tail;
      assert [] + Accepted(body + more) == Accepted(body + more);
    }
  }

  /**
   Receiver state characterisation, and the frames handed up, for every line from power-on. `body` is
   everything unescaped since the last flag.
   */
  lemma ReceiverCharacterised(line: seq<byte>)
    ensures var (s, delivered) := Run(CLEAN, line);
            var (body, pending, frames) := Decode([], false, Pieces(line));
            && delivered == frames
            && s.escaped == pending
            && |s.held| == HeldCount(|body|) <= 512
            && s.held == body[|body| - |s.held|..]
            && (|body| <= 512 ==> s.held == body && s.crc == Crc(SEED, body))
            && (|body| > 512 ==> s.held != [] && s.crc == Crc(SEED, s.held[1..]))
            && (s.held == [] ==> s.crc == SEED)
  {
    hide *;
    var (body, pending, frames) := Decode([], false, Pieces(line));
    EmptyState(false);
    RunIsDecode([], false, line);
    PowerOn();
    StateFields(body, pending);
  }

  lemma PowerOn()
    ensures CLEAN == RxState([], SEED, false)
  {
  }

  lemma StateFields(body: seq<byte>, pending: bool)
    ensures var s := StateOf(body, pending);
            && s.escaped == pending
            && |s.held| == HeldCount(|body|) <= 512
            && s.held == body[|body| - |s.held|..]
            && (|body| <= 512 ==> s.held == body && s.crc == Crc(SEED, body))
            && (|body| > 512 ==> s.held != [] && s.crc == Crc(SEED, s.held[1..]))
            && (s.held == [] ==> s.crc == SEED)
  {
    HeldCountNext(|body|);
    CrcNil();
    hide HeldCount, Crc;
  }
}
