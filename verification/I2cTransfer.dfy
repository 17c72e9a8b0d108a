/** i2c.c, gb_i2c_protocol_transfer: one pass to size the response, one pass to run the operations. */
module I2cTransfer {
  import opened Bytes
  import opened Scatter

  const GB_I2C_M_RD: bv16 := 0x0001

  /** struct gb_i2c_transfer_op: six bytes on the wire. */
  datatype Op = Op(addr: nat, flags: bv16, size: nat)

  const OP_BYTES := 6
  const COUNT_BYTES := 2

  /** The one reply to a request: the response with the length its header announces, or an empty error response. */
  datatype Reply = Response(announced: nat, payload: seq<byte>) | NoMemory | BusError(code: int)

  predicate IsRead(op: Op) {
    op.flags & GB_I2C_M_RD != 0
  }

  function Dirs(ops: seq<Op>): (ds: seq<Dir>)
    ensures |ds| == |ops|
  {
    seq(|ops|, i requires 0 <= i < |ops| => Dir(IsRead(ops[i]), !IsRead(ops[i]), ops[i].size))
  }

  /** The bus: what it returns for a read is its own affair; `working` more operations succeed, the next one fails. */
  class Bus {
    var addrs: seq<nat>
    var done: seq<Done>
    var working: nat
    /** The negative errno of a failing operation. */
    const errno: int

    constructor (working: nat, errno: int)
      ensures addrs == [] && done == [] && this.working == working && this.errno == errno
    {
      addrs, done, this.working, this.errno := [], [], working, errno;
    }

    method Read(buf: array<byte>, at: nat, size: nat, addr: nat) returns (ok: bool)
      requires at + size <= buf.Length
      modifies this, buf
      ensures ok == (old(working) > 0)
      ensures working == if ok then old(working) - 1 else 0
      ensures !ok ==> done == old(done) && addrs == old(addrs)
      ensures ok ==> addrs == old(addrs) + [addr] && done == old(done) + [Done([], buf[at..at + size])]
      ensures buf[..at] == old(buf[..at])
    {
      if working == 0 {
        return false;
      }
      for i := 0 to size
        invariant buf[..at] == old(buf[..at])
        modifies buf
      {
        var b: byte := *;
        buf[at + i] := b;
      }
      working := working - 1;
      addrs, done := addrs + [addr], done + [Done([], buf[at..at + size])];
      return true;
    }

    method Write(data: seq<byte>, addr: nat) returns (ok: bool)
      modifies this
      ensures ok == (old(working) > 0)
      ensures working == if ok then old(working) - 1 else 0
      ensures !ok ==> done == old(done) && addrs == old(addrs)
      ensures ok ==> addrs == old(addrs) + [addr] && done == old(done) + [Done(data, [])]
    {
      if working == 0 {
        return false;
      }
      working := working - 1;
      addrs, done := addrs + [addr], done + [Done(data, [])];
      return true;
    }
  }

  /** How many bytes the first n operations send: the sizes of those without bit 0 in their flags. */
  function Outgoing(ops: seq<Op>, n: nat): nat
    requires n <= |ops|
  {
    if n == 0 then 0 else Outgoing(ops, n - 1) + if ops[n - 1].flags & 1 == 0 then ops[n - 1].size else 0
  }

  /** How many bytes they receive: the sizes of those with it. */
  function Incoming(ops: seq<Op>, n: nat): nat
    requires n <= |ops|
  {
    if n == 0 then 0 else Incoming(ops, n - 1) + if ops[n - 1].flags & 1 == 0 then 0 else ops[n - 1].size
  }

  /**
   Every operation that ran was a read of its size when bit 0 of its flags is set, and otherwise sent its own bytes
   of the request: behind the count and the six bytes of every operation, and behind what earlier ones have sent.
   */
  ghost predicate AsAsked(payload: seq<byte>, ops: seq<Op>, xs: seq<Done>) {
    && |xs| <= |ops|
    && forall i :: 0 <= i < |xs| ==>
         if ops[i].flags & 1 != 0 then xs[i].sent == [] && |xs[i].got| == ops[i].size
         else
           var at := 2 + 6 * |ops| + Outgoing(ops, i);
           xs[i].got == [] && at + ops[i].size <= |payload| && xs[i].sent == payload[at..at + ops[i].size]
  }

  lemma {:induction false} Totals(ops: seq<Op>, n: nat)
    requires n <= |ops|
    ensures WriteTotal(Dirs(ops)[..n]) == Outgoing(ops, n) && ReadTotal(Dirs(ops)[..n]) == Incoming(ops, n)
    decreases n
  {
    if n > 0 {
      Totals(ops, n - 1);
      WriteGrows(Dirs(ops), n - 1);
      hide WriteTotal, ReadTotal;
    }
  }

  /** Where the outgoing data begins in a request. */
  function DataAt(ops: seq<Op>): nat {
    COUNT_BYTES + OP_BYTES * |ops|
  }

  /** One more operation done as asked. */
  lemma {:induction false} AskedNext(payload: seq<byte>, ops: seq<Op>, xs: seq<Done>, x: Done)
    requires AsAsked(payload, ops, xs) && |xs| < |ops|
    requires IsRead(ops[|xs|]) ==> x.sent == [] && |x.got| == ops[|xs|].size
    requires !IsRead(ops[|xs|]) ==>
               var at := DataAt(ops) + Outgoing(ops, |xs|);
               x.got == [] && at + ops[|xs|].size <= |payload| && x.sent == payload[at..at + ops[|xs|].size]
    ensures AsAsked(payload, ops, xs + [x]) && Gathered(xs + [x]) == Gathered(xs) + x.got
  {
    GatheredNext(xs, x);
    hide Outgoing, Gathered;
  }

  lemma OutgoingGrows(ops: seq<Op>, i: nat)
    requires i < |ops|
    ensures Outgoing(ops, i + 1) == Outgoing(ops, i) + if IsRead(ops[i]) then 0 else ops[i].size
    ensures Incoming(ops, i + 1) == Incoming(ops, i) + if IsRead(ops[i]) then ops[i].size else 0
    ensures Outgoing(ops, i + 1) <= Outgoing(ops, |ops|) && Incoming(ops, i + 1) <= Incoming(ops, |ops|)
  {
    AllGrow(ops, i + 1);
  }

  lemma {:induction false} AllGrow(ops: seq<Op>, i: nat)
    requires i <= |ops|
    ensures Outgoing(ops, i) <= Outgoing(ops, |ops|) && Incoming(ops, i) <= Incoming(ops, |ops|)
    decreases |ops| - i
  {
    if i < |ops| {
      AllGrow(ops, i + 1);
    }
  }

  lemma {:induction false} RightAt(payload: seq<byte>, ops: seq<Op>, i: nat, x: Done)
    requires i < |ops| && |payload| >= 2 + 6 * |ops| + Outgoing(ops, |ops|)
    requires if ops[i].flags & 1 != 0 then x.sent == [] && |x.got| == ops[i].size
             else
               var at := 2 + 6 * |ops| + Outgoing(ops, i);
               x.got == [] && at + ops[i].size <= |payload| && x.sent == payload[at..at + ops[i].size]
    ensures Right(Dirs(ops), payload[2 + 6 * |ops|..], i, x)
  {
    var ds, base := Dirs(ops), 2 + 6 * |ops|;
    Totals(ops, i);
    OutgoingGrows(ops, i);
    WriteGrows(ds, i);
    hide WriteTotal, Outgoing;
    if ops[i].flags & 1 == 0 {
      DropSlice(payload, base, base + Outgoing(ops, i), ops[i].size);
    }
  }

  /** So the data is dealt out without gap or overlap. */
  lemma {:induction false} AskedIsDealt(payload: seq<byte>, ops: seq<Op>, xs: seq<Done>)
    requires AsAsked(payload, ops, xs) && |payload| >= 2 + 6 * |ops| + Outgoing(ops, |ops|)
    ensures Dealt(Dirs(ops), payload[2 + 6 * |ops|..], xs)
  {
    hide Outgoing, Right;
    forall i | 0 <= i < |xs|
      ensures Right(Dirs(ops), payload[2 + 6 * |ops|..], i, xs[i])
    {
      RightAt(payload, ops, i, xs[i]);
    }
  }

  /** The addresses of the first n operations. */
  function Addrs(ops: seq<Op>, n: nat): (r: seq<nat>)
    requires n <= |ops|
  {
    seq(n, i requires 0 <= i < n => ops[i].addr)
  }

  /** The first pass. */
  method ResponseSize(ops: seq<Op>) returns (size: nat)
    ensures size == ReadTotal(Dirs(ops)) == Incoming(ops, |ops|)
  {
    Totals(ops, |ops|);
    assert Dirs(ops)[..|ops|] == Dirs(ops);
    hide IsRead, ReadTotal, Outgoing;
    size := 0;
    for i := 0 to |ops|
      invariant size == Incoming(ops, i)
    {
      OutgoingGrows(ops, i);
      if IsRead(ops[i]) {
        size := size + ops[i].size;
      }
    }
  }

  /** The body of the second loop; `x` is what the operation did. */
  method Perform(payload: seq<byte>, ops: seq<Op>, i: nat, bus: Bus, resp: array<byte>, readAt: nat, writeAt: nat,
                 ghost xs: seq<Done>)
    returns (ok: bool, ghost x: Done)
    requires i == |xs| < |ops| && AsAsked(payload, ops, xs)
    requires |payload| >= DataAt(ops) + Outgoing(ops, |ops|) && resp.Length == Incoming(ops, |ops|)
    requires readAt == Incoming(ops, i) <= resp.Length && writeAt == DataAt(ops) + Outgoing(ops, i)
    requires resp[..readAt] == Gathered(xs)
    modifies bus, resp
    ensures ok == (old(bus.working) > 0)
    ensures !ok ==> bus.working == 0 && bus.done == old(bus.done) && bus.addrs == old(bus.addrs)
    ensures ok ==> bus.working == old(bus.working) - 1
    ensures ok ==> bus.done == old(bus.done) + [x] && bus.addrs == old(bus.addrs) + [ops[i].addr]
    ensures ok ==> AsAsked(payload, ops, xs + [x])
    ensures ok ==> Incoming(ops, i + 1) <= resp.Length && resp[..Incoming(ops, i + 1)] == Gathered(xs + [x])
  {
    hide *;
    OutgoingGrows(ops, i);
    var size := ops[i].size;
    if IsRead(ops[i]) {
      ok := bus.Read(resp, readAt, size, ops[i].addr);
      x := Done([], resp[readAt..readAt + size]);
      SplitAt(resp[..], readAt, readAt + size);
    } else {
      var out := payload[writeAt..writeAt + size];
      ok := bus.Write(out, ops[i].addr);
      x := Done(out, []);
      assert Gathered(xs) + [] == Gathered(xs);
    }
    AskedNext(payload, ops, xs, x);
  }

  /** The second loop, up to the first operation that fails. */
  method RunOps(payload: seq<byte>, ops: seq<Op>, bus: Bus, resp: array<byte>)
    returns (ok: bool, ghost xs: seq<Done>)
    requires |payload| >= DataAt(ops) + Outgoing(ops, |ops|) && resp.Length == Incoming(ops, |ops|)
    modifies bus, resp
    ensures |xs| <= |ops| && AsAsked(payload, ops, xs)
    ensures bus.done == old(bus.done) + xs && bus.addrs == old(bus.addrs) + Addrs(ops, |xs|)
    ensures ok <==> |ops| <= old(bus.working)
    ensures |xs| == if ok then |ops| else old(bus.working)
    ensures ok ==> resp[..] == Gathered(xs)
  {
    hide *;
    ghost var done, addrs := bus.done, bus.addrs;
    xs := [];
    Nothing(payload, ops);
    var readAt, writeAt := 0, DataAt(ops);
    for i := 0 to |ops|
      modifies bus, resp
      invariant |xs| == i && AsAsked(payload, ops, xs) && bus.done == done + xs
      invariant bus.addrs == addrs + Addrs(ops, i) && bus.working + i == old(bus.working)
      invariant readAt == Incoming(ops, i) <= resp.Length && writeAt == DataAt(ops) + Outgoing(ops, i)
      invariant resp[..readAt] == Gathered(xs)
    {
      ghost var x;
      ok, x := Perform(payload, ops, i, bus, resp, readAt, writeAt, xs);
      if !ok {
        return;
      }
      OutgoingGrows(ops, i);
      if IsRead(ops[i]) {
        readAt := readAt + ops[i].size;
      } else {
        writeAt := writeAt + ops[i].size;
      }
      ConcatAssoc(done, xs, [x]);
      ConcatAssoc(addrs, Addrs(ops, i), [ops[i].addr]);
      xs := xs + [x];
      AddrsNext(ops, i);
    }
    assert resp[..] == resp[..readAt];
    return true, xs;
  }

  /**
   gb_i2c_protocol_transfer. `payload` is the whole request payload: the count, the op array, the outgoing data. The
   source does not check that the data for all writes is there; that is asked of the request.
   */
  method ProtocolTransfer(payload: seq<byte>, ops: seq<Op>, bus: Bus, heapOk: bool)
    returns (reply: Reply, ghost xs: seq<Done>)
    requires |payload| >= 2 + 6 * |ops| + Outgoing(ops, |ops|)
    modifies bus
    ensures bus.done == old(bus.done) + xs
    ensures AsAsked(payload, ops, xs) && Dealt(Dirs(ops), payload[2 + 6 * |ops|..], xs)
    ensures bus.addrs == old(bus.addrs) + Addrs(ops, |xs|)
    ensures reply.NoMemory? <==> !heapOk
    ensures reply.NoMemory? ==> xs == []
    ensures heapOk ==> |xs| == if |ops| <= old(bus.working) then |ops| else old(bus.working)
    ensures reply.BusError? <==> heapOk && |xs| < |ops|
    ensures reply.BusError? ==> reply.code == bus.errno
    ensures reply.Response? ==> reply.payload == Gathered(xs)
    ensures reply.Response? ==> |reply.payload| == Incoming(ops, |ops|)
    ensures reply.Response? ==> reply.announced == (8 + Incoming(ops, |ops|)) % 0x10000
  {
    xs := [];
    Nothing(payload, ops);
    hide Gathered, Incoming, Outgoing, AsAsked, Dealt, Addrs;
    var respSize := ResponseSize(ops);
    if !heapOk {
      AskedIsDealt(payload, ops, xs);
      return NoMemory, xs;
    }
    var resp := new byte[respSize];
    var ok;
    ok, xs := RunOps(payload, ops, bus, resp);
    AskedIsDealt(payload, ops, xs);
    reply := if ok then Response((8 + respSize) % 0x10000, resp[..]) else BusError(bus.errno);
  }

  lemma Nothing(payload: seq<byte>, ops: seq<Op>)
    ensures Outgoing(ops, 0) == 0 && Incoming(ops, 0) == 0 && Gathered([]) == [] && Addrs(ops, 0) == []
    ensures AsAsked(payload, ops, [])
  {
  }

  lemma AddrsNext(ops: seq<Op>, i: nat)
    requires i < |ops|
    ensures Addrs(ops, i + 1) == Addrs(ops, i) + [ops[i].addr]
  {
  }
}
