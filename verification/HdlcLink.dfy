/** Sender and receiver together: round trips, resynchronisation, and what over-long frames do. */
module HdlcLink {
  import opened Bytes
  import opened Crc16
  import opened HdlcFormat
  import opened HdlcReceiver

  /** The longest payload whose body still fits the receive buffer. */
  const MAX_PAYLOAD := MAX_BLOCK - 4

  predicate Legal(fs: seq<Frame>) {
    forall f | f in fs :: |f.payload| <= 508
  }

  /** The body the receiver sees when it enters the frame with an escape pending. */
  function Seen(escaped: bool, f: Frame): seq<byte> {
    if escaped && !Special(f.address) then [Toggle(f.address)] + Body(f)[1..] else Body(f)
  }

  lemma SeenIs(escaped: bool, f: Frame)
    ensures Unstuff(escaped, Stuff(Body(f))) == (Seen(escaped, f), false)
  {
    BodyHead(f);
    hide Toggle, Special, Unstuff, Stuff, Body;
    if escaped {
      UnstuffAfterEscape(Body(f));
    } else {
      UnstuffInverts(Body(f));
    }
  }

  lemma BodyHead(f: Frame)
    ensures Body(f)[0] == f.address && |Body(f)| == |f.payload| + 4
    ensures Body(f)[2..|Body(f)| - 2] == f.payload
    ensures TrailerMatches(Body(f))
  {
    hide Crc, Trailer;
    var c := Covered(f);
    var t := Trailer(Crc(SEED, c));
    assert |t| == 2 by { TrailerLength(Crc(SEED, c)); }
    assert Body(f)[..|c|] == c && Body(f)[|c|..] == t;
  }

  lemma TrailerLength(c: bv16)
    ensures |Trailer(c)| == 2
  {
  }

  lemma BodyAccepted(f: Frame)
    requires |f.payload| <= MAX_PAYLOAD
    ensures Accepted(Body(f)) == [f]
  {
    BodyHead(f);
    hide Body, TrailerMatches;
  }

  /** Changing only the first byte of a good body is always noticed. */
  lemma DamagedRejected(f: Frame)
    requires |f.payload| <= MAX_PAYLOAD && !Special(f.address)
    ensures Accepted(Seen(true, f)) == []
  {
    var x, y := Body(f), Seen(true, f);
    BodyHead(f);
    ToggleLaws(f.address);
    assert x == [x[0]] + x[1..];
    hide Toggle, TrailerMatches, Body;
    GoodIsTrailerMatch(x);
    GoodIsTrailerMatch(y);
    HeadDetected(x[0], y[0], x[1..]);
  }

  lemma HeadDetected(a: byte, b: byte, rest: seq<byte>)
    requires a != b
    ensures Crc(SEED, [a] + rest) != Crc(SEED, [b] + rest)
  {
    hide Step;
    assert ([a] + rest)[1..] == rest && ([b] + rest)[1..] == rest;
    StepInjective(SEED, SEED, a, b);
    CrcSeedInjective(Step(SEED, a), Step(SEED, b), rest);
  }

  // ----- One frame -----

  /**
   From every reachable state, one encoded frame of any length closes what was pending and leaves a clean
   receiver.
   */
  lemma FrameFromAnyState(body: seq<byte>, escaped: bool, f: Frame)
    ensures Run(StateOf(body, escaped), Encode(f)) == (CLEAN, Accepted(body) + Accepted(Seen(escaped, f)))
  {
    var line := Stuff(Body(f));
    EmptyState(false);
    assert CLEAN == StateOf([], false);
    EncodeIs(f);
    hide *;
    BodyUnstuffs(f);
    SeenIs(escaped, f);
    var s := StateOf(body, escaped);
    var seen := Seen(escaped, f);
    RunAppend(s, [FLAG] + line, [FLAG]);
    RunAppend(s, [FLAG], line);
    RunFlag(body, escaped);
    LineExtends([], escaped, line);
    assert [] + seen == seen;
    RunFlag(seen, false);
    assert Accepted(body) + [] == Accepted(body);
  }

  lemma RunFlag(body: seq<byte>, escaped: bool)
    ensures Run(StateOf(body, escaped), [FLAG]) == (StateOf([], escaped), Accepted(body))
  {
    hide *;
    var s := StateOf(body, escaped);
    RunEmpty(s);
    RunSnoc(s, [], FLAG);
    FlagCloses(body, escaped);
    assert [] + [FLAG] == [FLAG];
    assert [] + Accepted(body) == Accepted(body);
  }

  lemma EncodeIs(f: Frame)
    ensures Encode(f) == [FLAG] + Stuff(Body(f)) + [FLAG]
  {
    hide Stuff, Body;
  }

  /** The four outcomes of one legal frame, exactly. */
  lemma FrameDelivered(body: seq<byte>, escaped: bool, f: Frame)
    requires |f.payload| <= MAX_PAYLOAD
    ensures Run(StateOf(body, escaped), Encode(f))
         == (CLEAN, Accepted(body) + if escaped && !Special(f.address) then [] else [f])
  {
    FrameFromAnyState(body, escaped, f);
    BodyAccepted(f);
    if escaped && !Special(f.address) {
      hide Run, Accepted, Body;
      DamagedRejected(f);
    }
  }

  // ----- Streams -----

  lemma {:induction false} CleanStream(fs: seq<Frame>)
    requires Legal(fs)
    ensures Run(CLEAN, EncodeAll(fs)) == (CLEAN, fs)
    decreases |fs|
  {
    CleanIs();
    if fs == [] {
      hide *;
      RunEmpty(CLEAN);
    } else {
      hide Run, Encode, Accepted, StateOf, CLEAN;
      FrameDelivered([], false, fs[0]);
      RunAppend(CLEAN, Encode(fs[0]), EncodeAll(fs[1..]));
      CleanStream(fs[1..]);
      assert fs == [fs[0]] + fs[1..];
      AcceptedNil();
      assert [] + [fs[0]] == [fs[0]];
    }
  }

  lemma CleanIs()
    ensures CLEAN == StateOf([], false)
    ensures EncodeAll([]) == []
  {
    EmptyState(false);
  }

  /** Link round trip: any sequence of legal blocks, any chunking, each frame handed up once, in order. */
  lemma LinkRoundTrip(fs: seq<Frame>, chunks: seq<seq<byte>>)
    requires Legal(fs) && Flatten(chunks) == EncodeAll(fs)
    ensures RunChunks(CLEAN, chunks) == (CLEAN, fs)
  {
    hide *;
    ChunksDoNotMatter(CLEAN, chunks);
    CleanStream(fs);
  }

  /**
   Self-stabilisation: whatever the line carried before, a first frame of any length leaves the receiver
   clean, and every legal frame after it is delivered. If the first frame is legal too, it is lost exactly
   when the noise ended in a pending escape and its address byte is not itself escaped.
   */
  lemma NoiseCostsAtMostOneFrame(noise: seq<byte>, first: Frame, fs: seq<Frame>)
    requires Legal(fs)
    ensures var (body, escaped, frames) := Decode([], false, Pieces(noise));
            && Run(CLEAN, noise + Encode(first)).0 == CLEAN
            && Run(CLEAN, noise + Encode(first) + EncodeAll(fs))
               == (CLEAN, frames + (Accepted(body) + Accepted(Seen(escaped, first))) + fs)
            && (|first.payload| <= MAX_PAYLOAD ==>
                  Accepted(Seen(escaped, first)) == if escaped && !Special(first.address) then [] else [first])
  {
    CleanIs();
    if |first.payload| <= MAX_PAYLOAD { SeenDelivered(first); }
    hide Run, Encode, Accepted, StateOf, CLEAN, Decode, Pieces, Seen, EncodeAll;
    var (body, escaped, frames) := Decode([], false, Pieces(noise));
    RunIsDecode([], false, noise);
    RunAppend(CLEAN, noise, Encode(first));
    FrameFromAnyState(body, escaped, first);
    RunAppend(CLEAN, noise + Encode(first), EncodeAll(fs));
    CleanStream(fs);
  }

  /** One stray escape byte is noise enough: the next frame is lost unless its address is escaped itself. */
  lemma EscapeCostsFrame(f: Frame)
    requires |f.payload| <= MAX_PAYLOAD
    ensures Run(CLEAN, [ESC] + Encode(f)) == (CLEAN, if Special(f.address) then [f] else [])
  {
    EscapePending();
    hide *;
    RunAppend(CLEAN, [ESC], Encode(f));
    FrameDelivered([], true, f);
    AcceptedNil();
    var fs := if Special(f.address) then [f] else [];
    assert [] + ([] + fs) == fs;
  }

  lemma EscapePending()
    ensures Run(CLEAN, [ESC]) == (StateOf([], true), [])
  {
    EmptyState(true);
    var t := RxState([], SEED, true);
    assert RxStep(CLEAN, ESC) == (t, []);
    hide RxStep, StateOf;
    var line := [ESC];
    assert line[0] == ESC && line[1..] == [];
    assert Run(t, line[1..]) == (t, []);
    var none: seq<Frame> := [];
    assert none + none == [];
  }

  lemma SeenDelivered(f: Frame)
    requires |f.payload| <= MAX_PAYLOAD
    ensures Accepted(Seen(false, f)) == [f]
    ensures Accepted(Seen(true, f)) == if Special(f.address) then [f] else []
  {
    BodyAccepted(f);
    hide Accepted, Body;
    if !Special(f.address) {
      DamagedRejected(f);
    }
  }

  // ----- What the gate notices -----

  /** If one body passes, no other body of its length passes that differs from it within 16 consecutive bits. */
  lemma GateNoticesBursts(x: seq<byte>, y: seq<byte>, i: nat, j: nat)
    requires |x| == |y| <= MAX_BLOCK && x != y
    requires i <= j <= 8 * |x| && j - i <= 16
    requires Bits(x)[..i] == Bits(y)[..i] && Bits(x)[j..] == Bits(y)[j..]
    ensures Accepted(x) == [] || Accepted(y) == []
  {
    hide Crc, Bits, TrailerMatches;
    BurstDetected(SEED, x, y, i, j);
    if |x| >= 4 {
      GoodIsTrailerMatch(x);
      GoodIsTrailerMatch(y);
    }
  }

  /** Nor one that differs from it inside two adjacent bytes. */
  lemma GateNoticesAdjacentBytes(pre: seq<byte>, u: seq<byte>, v: seq<byte>, post: seq<byte>)
    requires |u| == |v| <= 2 && u != v && |pre| + |u| + |post| <= MAX_BLOCK
    ensures Accepted(pre + u + post) == [] || Accepted(pre + v + post) == []
  {
    hide Crc, TrailerMatches;
    AdjacentBytesDetected(SEED, pre, u, v, post);
    if |pre + u + post| >= 4 {
      GoodIsTrailerMatch(pre + u + post);
      GoodIsTrailerMatch(pre + v + post);
    }
  }

  /** Nor one that differs in an odd number of bits, wherever they are. */
  lemma GateNoticesOddFlips(x: seq<byte>, y: seq<byte>)
    requires |x| == |y| <= MAX_BLOCK && Distance(Bits(x), Bits(y)) % 2 == 1
    ensures Accepted(x) == [] || Accepted(y) == []
  {
    hide Crc, Bits, TrailerMatches, OddBits, Distance;
    OddDistance(Bits(x), Bits(y));
    if |x| >= 4 {
      GoodIsTrailerMatch(x);
      GoodIsTrailerMatch(y);
      if Crc(SEED, x) == GOOD && Crc(SEED, y) == GOOD {
        GoodMeansEven(x);
        GoodMeansEven(y);
      }
    }
  }

  // ----- Frames too long for the buffer -----

  /** Where the checked part of an over-long body begins. */
  function Cut(f: Frame): (k: nat)
    ensures k <= |Body(f)|
  {
    var n := |f.payload| + 4;
    n - HeldCount(n) + 1
  }

  /**
   An over-long frame is never delivered as itself, from any reachable state. A truncated frame is delivered in its
   place exactly when at least four bytes stay buffered and the check sequence happens to be back at its seed at
   the cut. A pending escape makes no difference, since the first byte is lost in any case.
   */
  lemma OversizeFate(body: seq<byte>, escaped: bool, f: Frame)
    requires |f.payload| > MAX_PAYLOAD
    ensures Run(StateOf(body, escaped), Encode(f)) == (CLEAN, Accepted(body) + Accepted(Body(f)))
    ensures f !in Accepted(Body(f))
    ensures Accepted(Body(f)) != [] <==>
              HeldCount(|f.payload| + 4) > 3 && Crc(SEED, Body(f)[..Cut(f)]) == SEED
  {
    hide *;
    FrameFromAnyState(body, escaped, f);
    SeenAsSent(escaped, f);
    BodyFate(f);
  }

  lemma BodyFate(f: Frame)
    requires |f.payload| > MAX_PAYLOAD
    ensures f !in Accepted(Body(f))
    ensures Accepted(Body(f)) != [] <==>
              HeldCount(|f.payload| + 4) > 3 && Crc(SEED, Body(f)[..Cut(f)]) == SEED
  {
    BodyHead(f);
    assert |Body(f)| > MAX_BLOCK;
    hide *;
    GoodIsTrailerMatch(Body(f));
    Overlong(Body(f));
    CutIs(f);
    CutResidue(Body(f), Cut(f));
  }

  /** The first byte of an over-long body is no longer in the buffer at its end. */
  lemma SeenAsSent(escaped: bool, f: Frame)
    requires |f.payload| > MAX_PAYLOAD
    ensures Accepted(Seen(escaped, f)) == Accepted(Body(f))
  {
    var x := [Toggle(f.address)] + Body(f)[1..];
    hide Body, Toggle, Special, Accepted;
    assert x[1..] == Body(f)[1..];
    SameTail(x, Body(f));
  }

  lemma SameTail(x: seq<byte>, y: seq<byte>)
    requires |x| == |y| > MAX_BLOCK && x[1..] == y[1..]
    ensures Accepted(x) == Accepted(y)
  {
    HeldCountNext(|x| - 1);
    SameHeld(x, y, |x| - HeldCount(|x|));
    hide HeldCount, Crc, Gate;
  }

  lemma SameHeld<T>(x: seq<T>, y: seq<T>, at: nat)
    requires |x| == |y| && x != [] && x[1..] == y[1..]
    ensures 1 <= at <= |x| ==> x[at..] == y[at..]
  {
    if 1 <= at <= |x| {
      assert x[at..] == x[1..][at - 1..] && y[at..] == y[1..][at - 1..];
    }
  }

  lemma CutIs(f: Frame)
    ensures Cut(f) == |f.payload| + 4 - HeldCount(|f.payload| + 4) + 1
  {
    hide HeldCount;
  }

  lemma Overlong(b: seq<byte>)
    requires |b| > MAX_BLOCK
    ensures var k := HeldCount(|b|);
            && 1 <= k
            && (Accepted(b) != [] <==> k > 3 && Crc(SEED, b[|b| - k + 1..]) == GOOD)
            && forall g <- Accepted(b) :: |g.payload| <= MAX_PAYLOAD
  {
    hide HeldCount, Crc;
    assert HeldOf(b)[1..] == b[|b| - HeldCount(|b|) + 1..];
  }

  /** Dropping a prefix from a good body leaves a good residue exactly when the prefix leads back to the seed. */
  lemma CutResidue(b: seq<byte>, cut: nat)
    requires cut <= |b| && Crc(SEED, b) == GOOD
    ensures Crc(SEED, b[cut..]) == GOOD <==> Crc(SEED, b[..cut]) == SEED
  {
    hide *;
    assert b == b[..cut] + b[cut..];
    CrcAppend(SEED, b[..cut], b[cut..]);
    CrcSeedInjective(Crc(SEED, b[..cut]), SEED, b[cut..]);
  }

  /** So a checked link can still hand up a frame nobody sent: every 509-byte prefix extends to such a frame. */
  lemma OversizeCanSlipThrough(address: byte, pad: seq<byte>) returns (f: Frame)
    requires |pad| == 509
    ensures f.address == address && |f.payload| == 512 && f.payload[..509] == pad
    ensures Accepted(Body(f)) != [] && Accepted(Body(f)) != [f]
  {
    var head := [address, UFRAME] + pad;
    var w := Plus(Crc(SEED, head), 0xf321);
    var t := Le16(w);
    f := Frame(address, pad + t + [0]);
    assert f.payload[..509] == pad;
    BackToSeed(head);
    assert HeldCount(516) == 4;
    hide Crc, Plus, Le16;
    assert Cut(f) == 513;
    assert Body(f)[..513] == Covered(f)[..513] == head + t;
    hide *;
    OversizeFate([], false, f);
  }

  lemma BackToSeed(head: seq<byte>)
    ensures Crc(SEED, head + Le16(Plus(Crc(SEED, head), 0xf321))) == SEED
  {
    var r := Crc(SEED, head);
    var w := Plus(r, 0xf321);
    var t := Le16(w);
    Le16RoundTrip(w);
    SeedPreimage();
    PlusTwice(r, 0xf321);
    hide *;
    assert t == [t[0], t[1]];
    CrcAppend(SEED, head, t);
    CrcTwo(r, t[0], t[1]);
    TwoSteps(r, t[0], t[1]);
  }

  lemma PlusTwice(r: bv16, v: bv16)
    ensures Plus(r, Plus(r, v)) == v
  {
  }

  lemma SeedPreimage()
    ensures Shift(0xf321, 16) == SEED
  {
    ShiftSplit(0xf321, 4, 12);
    assert Shift(0xf321, 4) == 0x1fb3;
    ShiftSplit(0x1fb3, 4, 8);
    assert Shift(0x1fb3, 4) == 0x3078;
    ShiftSplit(0x3078, 4, 4);
    assert Shift(0x3078, 4) == 0x870f;
    assert Shift(0x870f, 4) == SEED;
  }
}
