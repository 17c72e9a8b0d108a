/** What the HDLC sender puts on the line: a flag, the byte-stuffed body with its trailer, a flag. */
module HdlcFormat {
  import opened Bytes
  import opened Crc16

  const FLAG: byte := 0x7E
  const ESC: byte := 0x7D
  const UFRAME: byte := 0x03

  /** HDLC_MAX_BLOCK_SIZE: what the receive buffer holds. */
  const MAX_BLOCK := 512

  datatype Frame = Frame(address: byte, payload: seq<byte>)

  predicate Special(b: byte) {
    b == FLAG || b == ESC
  }

  function Toggle(b: byte): byte {
    b ^ 0x20
  }

  lemma ToggleLaws(b: byte)
    ensures Toggle(Toggle(b)) == b && Toggle(b) != b
    ensures Special(b) ==> !Special(Toggle(b))
  {
  }

  function StuffByte(b: byte): (s: seq<byte>)
    ensures 1 <= |s| <= 2
  {
    if Special(b) then [ESC, Toggle(b)] else [b]
  }

  function Stuff(body: seq<byte>): seq<byte>
    decreases body
  {
    if body == [] then [] else StuffByte(body[0]) + Stuff(body[1..])
  }

  /** Address, control field and payload: what the check sequence covers. */
  function Covered(f: Frame): seq<byte> {
    [f.address, UFRAME] + f.payload
  }

  function Body(f: Frame): (b: seq<byte>)
    ensures |b| == |f.payload| + 4
  {
    Covered(f) + Trailer(Crc(SEED, Covered(f)))
  }

  function Encode(f: Frame): seq<byte> {
    [FLAG] + Stuff(Body(f)) + [FLAG]
  }

  function EncodeAll(fs: seq<Frame>): seq<byte>
    decreases fs
  {
    if fs == [] then [] else Encode(fs[0]) + EncodeAll(fs[1..])
  }

  // ----- Stuffing -----

  lemma {:induction false} StuffAppend(s: seq<byte>, t: seq<byte>)
    ensures Stuff(s + t) == Stuff(s) + Stuff(t)
    decreases s
  {
    hide StuffByte;
    if s == [] {
      assert s + t == t;
    } else {
      StuffCons(s);
      StuffCons(s + t);
      hide *;
      StuffAppend(s[1..], t);
      assert (s + t)[1..] == s[1..] + t && (s + t)[0] == s[0];
      ConcatAssoc(StuffByte(s[0]), Stuff(s[1..]), Stuff(t));
    }
  }

  lemma StuffCons(s: seq<byte>)
    requires s != []
    ensures Stuff(s) == StuffByte(s[0]) + Stuff(s[1..])
  {
    hide StuffByte;
  }

  lemma StuffOne(b: byte)
    ensures Stuff([b]) == StuffByte(b)
  {
    hide StuffByte;
    assert [b][1..] == [];
    assert Stuff([b]) == StuffByte(b) + Stuff([]);
  }

  /** No flag byte survives inside a stuffed body. */
  lemma {:induction false} StuffHasNoFlag(body: seq<byte>)
    ensures FLAG !in Stuff(body)
    decreases body
  {
    if body != [] {
      StuffHasNoFlag(body[1..]);
      ToggleLaws(body[0]);
      hide Toggle;
      assert FLAG !in StuffByte(body[0]);
    }
  }

  function SpecialCount(body: seq<byte>): nat
    decreases body
  {
    if body == [] then 0 else (if Special(body[0]) then 1 else 0) + SpecialCount(body[1..])
  }

  lemma {:induction false} StuffLength(body: seq<byte>)
    ensures |Stuff(body)| == |body| + SpecialCount(body)
    ensures SpecialCount(body) <= |body|
    decreases body
  {
    if body != [] {
      StuffLength(body[1..]);
    }
  }

  // ----- Undoing it -----

  /** What the receiver makes of a flag-free run of line bytes: the body bytes, and whether an escape is pending. */
  function Unstuff(escaped: bool, line: seq<byte>): (seq<byte>, bool)
    decreases line
  {
    if line == [] then ([], escaped)
    else if line[0] == ESC then Unstuff(true, line[1..])
    else
      var (rest, pending) := Unstuff(false, line[1..]);
      ([if escaped then Toggle(line[0]) else line[0]] + rest, pending)
  }

  lemma UnstuffByte(escaped: bool, b: byte, line: seq<byte>)
    ensures Unstuff(escaped, StuffByte(b) + line)
         == (var (rest, pending) := Unstuff(false, line);
             ([if escaped && !Special(b) then Toggle(b) else b] + rest, pending))
  {
    ToggleLaws(b);
    hide Toggle;
    var s := StuffByte(b) + line;
    if Special(b) {
      assert s[1..] == [Toggle(b)] + line;
      assert s[1..][1..] == line;
    } else {
      assert s[1..] == line;
    }
  }

  /** Transparency: unstuffing inverts stuffing, from a state with no escape pending. */
  lemma {:induction false} UnstuffInverts(body: seq<byte>)
    ensures Unstuff(false, Stuff(body)) == (body, false)
    decreases body
  {
    hide Toggle, StuffByte;
    if body != [] {
      UnstuffInverts(body[1..]);
      UnstuffByte(false, body[0], Stuff(body[1..]));
      assert body == [body[0]] + body[1..];
    }
  }

  /** A pending escape damages at most the first body byte, and only when that byte is not itself escaped. */
  lemma UnstuffAfterEscape(body: seq<byte>)
    requires body != []
    ensures Unstuff(true, Stuff(body))
         == (if Special(body[0]) then body else [Toggle(body[0])] + body[1..], false)
  {
    hide Toggle, StuffByte;
    var line := Stuff(body[1..]);
    assert Stuff(body) == StuffByte(body[0]) + line;
    assert body == [body[0]] + body[1..];
    hide *;
    UnstuffInverts(body[1..]);
    UnstuffByte(true, body[0], line);
  }

  lemma StuffInjective(s: seq<byte>, t: seq<byte>)
    requires Stuff(s) == Stuff(t)
    ensures s == t
  {
    hide *;
    UnstuffInverts(s);
    UnstuffInverts(t);
  }

  // ----- The encoder's line -----

  lemma BodyInjective(f: Frame, g: Frame)
    requires Body(f) == Body(g)
    ensures f == g
  {
    var n := |f.payload|;
    assert |g.payload| == n;
    assert Body(f)[..n + 2] == Covered(f) && Body(g)[..n + 2] == Covered(g);
    assert Covered(f)[2..] == f.payload && Covered(g)[2..] == g.payload;
    assert Covered(f)[0] == f.address && Covered(g)[0] == g.address;
  }

  /** The flag opens and closes the line and occurs nowhere between. */
  lemma EncodeTransparent(f: Frame, i: nat)
    requires i < |Encode(f)|
    ensures Encode(f)[i] == FLAG <==> i == 0 || i == |Encode(f)| - 1
  {
    hide Stuff, Body;
    StuffHasNoFlag(Body(f));
    if 0 < i < |Encode(f)| - 1 {
      assert Encode(f)[i] == Stuff(Body(f))[i - 1];
    }
  }

  lemma EncodeLength(f: Frame)
    ensures |Encode(f)| == |f.payload| + 6 + SpecialCount(Body(f))
    ensures |f.payload| + 6 <= |Encode(f)| <= 2 * (|f.payload| + 4) + 2
  {
    hide Stuff, SpecialCount;
    StuffLength(Body(f));
  }

  lemma BodyUnstuffs(f: Frame)
    ensures FLAG !in Stuff(Body(f)) && Stuff(Body(f)) != []
    ensures Unstuff(false, Stuff(Body(f))) == (Body(f), false)
  {
    hide *;
    StuffHasNoFlag(Body(f));
    UnstuffInverts(Body(f));
    StuffLength(Body(f));
  }

  /** Unique decodability of whole streams, whatever the frame lengths. */
  lemma {:induction false} StreamInjective(fs: seq<Frame>, gs: seq<Frame>)
    requires EncodeAll(fs) == EncodeAll(gs)
    ensures fs == gs
    decreases |fs|
  {
    hide Body, Stuff, Unstuff, FLAG;
    assert forall hs: seq<Frame> | hs != [] :: |Encode(hs[0])| >= 2;
    if fs != [] && gs != [] {
      var s, t := Stuff(Body(fs[0])), Stuff(Body(gs[0]));
      var a, b := EncodeAll(fs[1..]), EncodeAll(gs[1..]);
      BodyUnstuffs(fs[0]);
      BodyUnstuffs(gs[0]);
      assert EncodeAll(fs)[1..] == s + [FLAG] + a;
      assert EncodeAll(gs)[1..] == t + [FLAG] + b;
      FirstFlag(s, a, t, b);
      StuffInjective(Body(fs[0]), Body(gs[0]));
      BodyInjective(fs[0], gs[0]);
      StreamInjective(fs[1..], gs[1..]);
      assert fs == [fs[0]] + fs[1..] && gs == [gs[0]] + gs[1..];
    }
  }

  lemma FlagAt(s: seq<byte>, a: seq<byte>, u: seq<byte>)
    requires u == s + [FLAG] + a && FLAG !in s
    ensures forall i :: 0 <= i < |s| ==> u[i] != FLAG
    ensures u[|s|] == FLAG && s == u[..|s|] && a == u[|s| + 1..]
  {
  }

  lemma FirstFlag(s: seq<byte>, a: seq<byte>, t: seq<byte>, b: seq<byte>)
    requires s + [FLAG] + a == t + [FLAG] + b && FLAG !in s && FLAG !in t
    ensures s == t && a == b
  {
    hide *;
    FlagAt(s, a, s + [FLAG] + a);
    FlagAt(t, b, s + [FLAG] + a);
    assert |s| == |t|;
  }

  // ----- The bytes of RFC 1662, section 4.2, and of the frame -----

  /** What the sender puts on the line for one body byte. */
  lemma StuffedBytes(b: byte)
    ensures StuffByte(b) == if b == 0x7E then [0x7D, 0x5E] else if b == 0x7D then [0x7D, 0x5D] else [b]
  {
  }

  /** What the receiver makes of a byte behind an escape: the same byte with bit 5 inverted. */
  lemma UnstuffedBytes(b: byte)
    requires b != 0x7D
    ensures Unstuff(false, [0x7D, b]) == ([if b & 0x20 != 0 then b - 0x20 else b + 0x20], false)
    ensures Unstuff(false, [b]) == ([b], false)
  {
    FlipBit5(b);
    hide Toggle;
    var one: seq<byte> := [b];
    var two: seq<byte> := [0x7D, b];
    assert one[1..] == [] && two[1..] == one;
    assert Unstuff(false, one[1..]) == ([], false);
    assert Unstuff(true, one) == ([Toggle(b)] + [], false);
    assert Unstuff(false, one) == ([b] + [], false);
    assert Unstuff(false, two) == Unstuff(true, one);
    assert [Toggle(b)] + [] == [Toggle(b)] && [b] + [] == [b];
  }

  lemma FlipBit5(b: byte)
    ensures Toggle(b) == if b & 0x20 != 0 then b - 0x20 else b + 0x20
  {
  }

  /**
   The line of a frame, byte by byte: a flag, the stuffed body, a flag; the body is address, control field 0x03,
   payload and the complemented check sequence of all these, low byte first.
   */
  lemma LineLayout(f: Frame)
    ensures exists body: seq<byte> ::
              var n := |f.payload|;
              && Encode(f) == [0x7E] + Stuff(body) + [0x7E]
              && |body| == n + 4 && body[0] == f.address && body[1] == 0x03 && body[2..n + 2] == f.payload
              && (body[n + 3] as bv16) * 256 + (body[n + 2] as bv16) == 0xffff - Crc(0xffff, body[..n + 2])
  {
    var n, body := |f.payload|, Body(f);
    var c := Crc(0xffff, Covered(f));
    assert body[..n + 2] == Covered(f);
    assert body[n + 2] == Trailer(c)[0] && body[n + 3] == Trailer(c)[1];
    hide Stuff, Crc;
    TrailerBytes(c);
  }

  lemma TrailerBytes(c: bv16)
    ensures (Trailer(c)[1] as bv16) * 256 + (Trailer(c)[0] as bv16) == 0xffff - c
  {
  }
}
