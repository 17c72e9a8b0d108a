/** The driver object of hdlc.c: its four receive fields, and the two callbacks as logs of what they were given. */
module HdlcDriver {
  import opened Bytes
  import opened Crc16
  import opened HdlcFormat
  import opened HdlcReceiver

  class Driver {
    var crc: bv16
    var rxLen: nat
    const rxBuffer: array<byte>
    var nextEscaped: bool

    /** Frames passed to process_callback_frame_cb, oldest first. */
    var delivered: seq<Frame>
    /** Bytes passed to send_frame_cb, oldest first. */
    var line: seq<byte>

    ghost predicate Valid()
      reads this
    {
      rxBuffer.Length == MAX_BLOCK && rxLen <= MAX_BLOCK
    }

    ghost function State(): RxState
      requires Valid()
      reads this, rxBuffer
    {
      RxState(rxBuffer[..rxLen], crc, nextEscaped)
    }

    constructor ()
      ensures Valid() && fresh(rxBuffer) && State() == CLEAN && delivered == [] && line == []
    {
      crc := SEED;
      nextEscaped := false;
      rxLen := 0;
      rxBuffer := new byte[MAX_BLOCK];
      delivered := [];
      line := [];
    }

    // ----- Receiving -----

    method ProcessCompleteFrame()
      requires Valid() && rxLen > 3
      modifies this`delivered
      ensures delivered == old(delivered) + [Frame(State().held[0], State().held[2..rxLen - 2])]
    {
      var address := rxBuffer[0];
      var len := rxLen - 4;
      delivered := delivered + [Frame(address, rxBuffer[2..2 + len])];
      assert rxBuffer[..rxLen][2..rxLen - 2] == rxBuffer[2..2 + len];
    }

    method ProcessFrame()
      requires Valid()
      modifies this`delivered, this`crc, this`rxLen
      ensures Valid() && State() == RxState([], SEED, old(nextEscaped))
      ensures delivered == old(delivered) + Gate(old(State()).held, old(crc))
    {
      if rxLen > 3 && crc == GOOD {
        ProcessCompleteFrame();
      }
      crc := SEED;
      rxLen := 0;
    }

    method SaveByte(b: byte)
      requires Valid()
      modifies this`crc, this`rxLen, rxBuffer
      ensures Valid() && State() == Save(old(State()), b)
    {
      if rxLen >= MAX_BLOCK {
        crc := SEED;
        rxLen := 0;
      }
      rxBuffer[rxLen] := b;
      rxLen := rxLen + 1;
      assert rxBuffer[..rxLen] == rxBuffer[..rxLen - 1] + [b];
    }

    method InputByte(b: byte)
      requires Valid()
      modifies this`delivered, this`crc, this`rxLen, this`nextEscaped, rxBuffer
      ensures Valid() && State() == RxStep(old(State()), b).0
      ensures delivered == old(delivered) + RxStep(old(State()), b).1
    {
      hide Toggle, Step, Gate;
      if b == FLAG {
        if rxLen != 0 {
          ProcessFrame();
        }
      } else if b == ESC {
        nextEscaped := true;
      } else {
        var d := b;
        if nextEscaped {
          d := Toggle(d);
          nextEscaped := false;
        }
        crc := Step(crc, d);
        SaveByte(d);
      }
    }

    /** hdlc_process_buffer. */
    method ProcessBuffer(buf: seq<byte>) returns (len: nat)
      requires Valid()
      modifies this`delivered, this`crc, this`rxLen, this`nextEscaped, rxBuffer
      ensures Valid() && len == |buf|
      ensures State() == Run(old(State()), buf).0
      ensures delivered == old(delivered) + Run(old(State()), buf).1
    {
      hide RxStep;
      ghost var s := State();
      for i := 0 to |buf|
        invariant Valid()
        invariant State() == Run(s, buf[..i]).0
        invariant delivered == old(delivered) + Run(s, buf[..i]).1
      {
        RunSnoc(s, buf[..i], buf[i]);
        assert buf[..i + 1] == buf[..i] + [buf[i]];
        InputByte(buf[i]);
      }
      assert buf[..|buf|] == buf;
      return |buf|;
    }

    // ----- Sending -----

    /** uart_poll_out_crc: the crc parameter is a pointer in the source, an in and an out value here. */
    method PollOutCrc(b: byte, crcIn: bv16) returns (crcOut: bv16)
      modifies this`line
      ensures crcOut == Step(crcIn, b) && line == old(line) + StuffByte(b)
    {
      hide Toggle, Step;
      crcOut := Step(crcIn, b);
      var out := b;
      if b == FLAG || b == ESC {
        line := line + [ESC];
        out := Toggle(b);
      }
      line := line + [out];
    }

    /** hdlc_block_send_sync. */
    method BlockSendSync(buffer: seq<byte>, address: byte)
      modifies this`line
      ensures line == old(line) + Encode(Frame(address, buffer))
    {
      hide Step, StuffByte, Complement, Crc, Stuff, Encode;
      ghost var f := Frame(address, buffer);
      ghost var head := [address, UFRAME];
      var crcNow := SEED;
      line := line + [FLAG];
      ghost var base := line;
      crcNow := PollOutCrc(address, crcNow);
      crcNow := PollOutCrc(UFRAME, crcNow);
      HeadSent(base, address);
      for i := 0 to |buffer|
        invariant crcNow == Crc(SEED, head + buffer[..i])
        invariant line == base + Stuff(head + buffer[..i])
      {
        ByteSent(base, head + buffer[..i], buffer[i]);
        assert head + buffer[..i + 1] == head + buffer[..i] + [buffer[i]];
        crcNow := PollOutCrc(buffer[i], crcNow);
      }
      assert head + buffer[..|buffer|] == Covered(f);
      var t := Trailer(crcNow);
      TrailerSent(old(line), f);
      crcNow := PollOutCrc(t[0], crcNow);
      crcNow := PollOutCrc(t[1], crcNow);
      line := line + [FLAG];
    }
  }

  lemma HeadSent(before: seq<byte>, address: byte)
    ensures Crc(SEED, [address, UFRAME] + []) == Step(Step(SEED, address), UFRAME)
    ensures before + Stuff([address, UFRAME] + []) == before + StuffByte(address) + StuffByte(UFRAME)
  {
    hide *;
    CrcTwo(SEED, address, UFRAME);
    assert [address, UFRAME] + [] == [address] + [UFRAME] == [address, UFRAME];
    StuffAppend([address], [UFRAME]);
    StuffOne(address);
    StuffOne(UFRAME);
  }

  lemma ByteSent(before: seq<byte>, sent: seq<byte>, b: byte)
    ensures Crc(SEED, sent + [b]) == Step(Crc(SEED, sent), b)
    ensures before + Stuff(sent + [b]) == before + Stuff(sent) + StuffByte(b)
  {
    hide *;
    CrcSnoc(SEED, sent, b);
    StuffAppend(sent, [b]);
    StuffOne(b);
  }

  lemma TrailerSent(before: seq<byte>, f: Frame)
    ensures var t := Trailer(Crc(SEED, Covered(f)));
            && |t| == 2
            && before + Encode(f)
               == before + [FLAG] + Stuff(Covered(f)) + StuffByte(t[0]) + StuffByte(t[1]) + [FLAG]
  {
    var s := Covered(f);
    var t := Trailer(Crc(SEED, s));
    assert |t| == 2 && Body(f) == s + t;
    assert Encode(f) == [FLAG] + Stuff(Body(f)) + [FLAG];
    hide *;
    assert t == [t[0]] + [t[1]];
    ConcatAssoc(s, [t[0]], [t[1]]);
    ByteSent(before + [FLAG], s, t[0]);
    ByteSent(before + [FLAG], s + [t[0]], t[1]);
    ConcatAssoc(before, [FLAG] + Stuff(Body(f)), [FLAG]);
    ConcatAssoc(before, [FLAG], Stuff(Body(f)));
  }
}
