/** spi.c, gb_spi_protocol_transfer: reads, writes and full-duplex transfers over one descriptor list. */
module SpiTransfer {
  import opened Bytes
  import opened Scatter

  const MODE_CPHA: bv8 := 0x01
  const MODE_CPOL: bv8 := 0x02
  const MODE_CS_HIGH: bv8 := 0x04
  const MODE_LSB_FIRST: bv8 := 0x08
  const MODE_3WIRE: bv8 := 0x10
  const MODE_LOOP: bv8 := 0x20
  const MODE_NO_CS: bv8 := 0x40
  const MODE_READY: bv8 := 0x80
  const XFER_READ: bv8 := 0x01
  const XFER_WRITE: bv8 := 0x02

  const TRANSFER_BYTES := 13
  const REQUEST_BYTES := 4

  /** struct gb_spi_transfer, without the delay. */
  datatype Transfer = Transfer(speed: nat, len: nat, csChange: bool, word: bv8, flags: bv8)

  datatype Reply = Response(announced: nat, payload: seq<byte>) | Internal | Invalid

  predicate Reads(t: Transfer) {
    t.flags & XFER_READ != 0
  }

  predicate Writes(t: Transfer) {
    t.flags & XFER_WRITE != 0
  }

  predicate Unsupported(mode: bv8) {
    mode & (MODE_NO_CS | MODE_3WIRE | MODE_READY) != 0
  }

  function Dirs(ts: seq<Transfer>): (ds: seq<Dir>)
    ensures |ds| == |ts|
  {
    seq(|ts|, i requires 0 <= i < |ts| => Dir(Reads(ts[i]), Writes(ts[i]), ts[i].len))
  }

  /** conf.operation |= SPI_WORD_SET(bits_per_word), as far as the word-size field goes. */
  function AddWord(field: bv8, t: Transfer): bv8 {
    field | (t.word & 0x3f)
  }

  /** The word-size field of the configuration when transfer i runs: it is only ever or-ed into. */
  function WordField(ts: seq<Transfer>, i: nat): bv8
    requires i <= |ts|
    decreases i
  {
    if i == 0 then 0 else AddWord(WordField(ts, i - 1), ts[i - 1])
  }

  /** struct spi_config but for frequency and word size: the same for all transfers of a request. */
  datatype Config = Config(slave: nat, cpha: bool, cpol: bool, csHigh: bool, lsbFirst: bool, loop: bool)

  /** The settings a transfer runs with. */
  datatype Setting = Setting(config: Config, speed: nat, word: bv8)

  function Settings(config: Config, ts: seq<Transfer>, n: nat): (r: seq<Setting>)
    requires n <= |ts|
  {
    seq(n, i requires 0 <= i < n => Setting(config, ts[i].speed, WordField(ts, i + 1)))
  }

  /** The bus: what it receives is its own affair; `working` more transfers succeed, the next one fails. */
  class Bus {
    var settings: seq<Setting>
    var done: seq<Done>
    var working: nat

    constructor (working: nat)
      ensures settings == [] && done == [] && this.working == working
    {
      settings, done, this.working := [], [], working;
    }

    /** spi_read, spi_write or spi_transceive: receives `rxLen` bytes into the buffer while sending `tx`. */
    method Transceive(buf: array<byte>, at: nat, rxLen: nat, tx: seq<byte>, setting: Setting) returns (ok: bool)
      requires at + rxLen <= buf.Length
      modifies this, buf
      ensures ok == (old(working) > 0)
      ensures working == if ok then old(working) - 1 else 0
      ensures !ok ==> done == old(done) && settings == old(settings)
      ensures ok ==> settings == old(settings) + [setting] && done == old(done) + [Done(tx, buf[at..at + rxLen])]
      ensures buf[..at] == old(buf[..at])
    {
      if working == 0 {
        return false;
      }
      for i := 0 to rxLen
        invariant buf[..at] == old(buf[..at])
        modifies buf
      {
        var b: byte := *;
        buf[at + i] := b;
      }
      working := working - 1;
      settings, done := settings + [setting], done + [Done(tx, buf[at..at + rxLen])];
      return true;
    }
  }

  /** How many bytes the first n transfers send: the lengths of those with bit 1 in their flags. */
  function Outgoing(ts: seq<Transfer>, n: nat): nat
    requires n <= |ts|
  {
    if n == 0 then 0 else Outgoing(ts, n - 1) + if ts[n - 1].flags & 2 != 0 then ts[n - 1].len else 0
  }

  /** How many bytes they receive: the lengths of those with bit 0. */
  function Incoming(ts: seq<Transfer>, n: nat): nat
    requires n <= |ts|
  {
    if n == 0 then 0 else Incoming(ts, n - 1) + if ts[n - 1].flags & 1 != 0 then ts[n - 1].len else 0
  }

  /**
   Every transfer that ran received its length when bit 0 of its flags is set, and sent its own bytes of the request
   when bit 1 is: behind the four bytes in front, the thirteen of every transfer, and what earlier ones have sent.
   */
  ghost predicate AsAsked(payload: seq<byte>, ts: seq<Transfer>, xs: seq<Done>) {
    && |xs| <= |ts|
    && forall i :: 0 <= i < |xs| ==>
         && |xs[i].got| == (if ts[i].flags & 1 != 0 then ts[i].len else 0)
         && if ts[i].flags & 2 == 0 then xs[i].sent == []
            else
              var at := 4 + 13 * |ts| + Outgoing(ts, i);
              at + ts[i].len <= |payload| && xs[i].sent == payload[at..at + ts[i].len]
  }

  lemma {:induction false} Totals(ts: seq<Transfer>, n: nat)
    requires n <= |ts|
    ensures WriteTotal(Dirs(ts)[..n]) == Outgoing(ts, n) && ReadTotal(Dirs(ts)[..n]) == Incoming(ts, n)
    decreases n
  {
    if n > 0 {
      Totals(ts, n - 1);
      WriteGrows(Dirs(ts), n - 1);
      hide WriteTotal, ReadTotal;
    }
  }

  /** Where the outgoing data begins in a request. */
  function DataAt(ts: seq<Transfer>): nat {
    REQUEST_BYTES + TRANSFER_BYTES * |ts|
  }

  /** One more transfer done as asked. */
  lemma {:induction false} AskedNext(payload: seq<byte>, ts: seq<Transfer>, xs: seq<Done>, x: Done)
    requires AsAsked(payload, ts, xs) && |xs| < |ts|
    requires |x.got| == if Reads(ts[|xs|]) then ts[|xs|].len else 0
    requires var at := DataAt(ts) + Outgoing(ts, |xs|);
             var n := if Writes(ts[|xs|]) then ts[|xs|].len else 0;
             at + n <= |payload| && x.sent == payload[at..at + n]
    ensures AsAsked(payload, ts, xs + [x]) && Gathered(xs + [x]) == Gathered(xs) + x.got
  {
    GatheredNext(xs, x);
    hide Outgoing, Gathered;
  }

  lemma OutgoingGrows(ts: seq<Transfer>, i: nat)
    requires i < |ts|
    ensures Outgoing(ts, i + 1) == Outgoing(ts, i) + if Writes(ts[i]) then ts[i].len else 0
    ensures Incoming(ts, i + 1) == Incoming(ts, i) + if Reads(ts[i]) then ts[i].len else 0
    ensures Outgoing(ts, i + 1) <= Outgoing(ts, |ts|) && Incoming(ts, i + 1) <= Incoming(ts, |ts|)
  {
    AllGrow(ts, i + 1);
  }

  lemma {:induction false} AllGrow(ts: seq<Transfer>, i: nat)
    requires i <= |ts|
    ensures Outgoing(ts, i) <= Outgoing(ts, |ts|) && Incoming(ts, i) <= Incoming(ts, |ts|)
    decreases |ts| - i
  {
    if i < |ts| {
      AllGrow(ts, i + 1);
    }
  }

  lemma {:induction false} RightAt(payload: seq<byte>, ts: seq<Transfer>, i: nat, x: Done)
    requires i < |ts| && |payload| >= 4 + 13 * |ts| + Outgoing(ts, |ts|)
    requires |x.got| == if ts[i].flags & 1 != 0 then ts[i].len else 0
    requires if ts[i].flags & 2 == 0 then x.sent == []
             else
               var at := 4 + 13 * |ts| + Outgoing(ts, i);
               at + ts[i].len <= |payload| && x.sent == payload[at..at + ts[i].len]
    ensures Right(Dirs(ts), payload[4 + 13 * |ts|..], i, x)
  {
    var ds, base := Dirs(ts), 4 + 13 * |ts|;
    Totals(ts, i);
    OutgoingGrows(ts, i);
    WriteGrows(ds, i);
    hide WriteTotal, Outgoing;
    if ts[i].flags & 2 != 0 {
      DropSlice(payload, base, base + Outgoing(ts, i), ts[i].len);
    }
  }

  /** So the data is dealt out without gap or overlap. */
  lemma {:induction false} AskedIsDealt(payload: seq<byte>, ts: seq<Transfer>, xs: seq<Done>)
    requires AsAsked(payload, ts, xs) && |payload| >= 4 + 13 * |ts| + Outgoing(ts, |ts|)
    ensures Dealt(Dirs(ts), payload[4 + 13 * |ts|..], xs)
  {
    hide Outgoing, Right;
    forall i | 0 <= i < |xs|
      ensures Right(Dirs(ts), payload[4 + 13 * |ts|..], i, xs[i])
    {
      RightAt(payload, ts, i, xs[i]);
    }
  }

  /** The first pass. */
  method ResponseSize(ts: seq<Transfer>) returns (size: nat)
    ensures size == Incoming(ts, |ts|) == ReadTotal(Dirs(ts))
  {
    Totals(ts, |ts|);
    assert Dirs(ts)[..|ts|] == Dirs(ts);
    hide Reads, Writes, ReadTotal, Outgoing;
    size := 0;
    for i := 0 to |ts|
      invariant size == Incoming(ts, i)
    {
      OutgoingGrows(ts, i);
      if Reads(ts[i]) {
        size := size + ts[i].len;
      }
    }
  }

  /** The bits of the mode byte that reach the bus. */
  function ConfigOf(chipSelect: nat, mode: bv8): Config {
    Config(chipSelect, mode & 0x01 != 0, mode & 0x02 != 0, mode & 0x04 != 0, mode & 0x08 != 0, mode & 0x20 != 0)
  }

  method BusConfig(chipSelect: nat, mode: bv8) returns (conf: Config)
    ensures conf == ConfigOf(chipSelect, mode)
  {
    conf := Config(chipSelect, false, false, false, false, false);
    if mode & MODE_CPHA != 0 {
      conf := conf.(cpha := true);
    }
    if mode & MODE_CPOL != 0 {
      conf := conf.(cpol := true);
    }
    if mode & MODE_CS_HIGH != 0 {
      conf := conf.(csHigh := true);
    }
    if mode & MODE_LSB_FIRST != 0 {
      conf := conf.(lsbFirst := true);
    }
    if mode & MODE_LOOP != 0 {
      conf := conf.(loop := true);
    }
  }

  /** The first n transfers ask for nothing that is refused. */
  predicate Runnable(ts: seq<Transfer>, n: nat) {
    n <= |ts| && forall i :: 0 <= i < n ==> !ts[i].csChange && ts[i].flags & 3 != 0
  }

  /**
   How far a request gets and what it is answered: not at all with bit 4, 6 or 7 of the mode set; otherwise up to the
   first transfer that changes the chip select, has neither bit 0 nor bit 1 in its flags, or fails on the bus.
   */
  predicate Outcome(mode: bv8, ts: seq<Transfer>, n: nat, working: nat, reply: Reply) {
    && Runnable(ts, n) && n <= working
    && (reply.Response? <==> mode & 0xD0 == 0 && n == |ts|)
    && (mode & 0xD0 != 0 ==> reply == Internal && n == 0)
    && (mode & 0xD0 == 0 && n < |ts| ==>
          if ts[n].csChange then reply == Internal
          else if ts[n].flags & 3 == 0 then reply == Invalid
          else n == working && reply == Internal)
  }

  lemma RunnableNext(ts: seq<Transfer>, n: nat)
    requires n < |ts| && Runnable(ts, n) && !ts[n].csChange && (Reads(ts[n]) || Writes(ts[n]))
    ensures Runnable(ts, n + 1)
  {
    FlagMask(ts[n]);
    hide Reads, Writes;
  }

  /** Where the loop stops, and with what. */
  predicate Stopped(ts: seq<Transfer>, n: nat, working: nat, refusal: Option<Reply>) {
    && Runnable(ts, n) && n <= working
    && (refusal.None? <==> n == |ts|)
    && (n < |ts| ==>
          if ts[n].csChange then refusal == Some(Internal)
          else if ts[n].flags & 3 == 0 then refusal == Some(Invalid)
          else n == working && refusal == Some(Internal))
  }

  lemma StopsAt(ts: seq<Transfer>, n: nat, working: nat)
    requires Runnable(ts, n) && n <= working && n < |ts|
    ensures ts[n].csChange ==> Stopped(ts, n, working, Some(Internal))
    ensures !ts[n].csChange && !Reads(ts[n]) && !Writes(ts[n]) ==> Stopped(ts, n, working, Some(Invalid))
    ensures !ts[n].csChange && (Reads(ts[n]) || Writes(ts[n])) && n == working ==>
              Stopped(ts, n, working, Some(Internal))
  {
    FlagMask(ts[n]);
    hide Reads, Writes, Runnable;
  }

  lemma StopsNowhere(ts: seq<Transfer>, working: nat)
    requires Runnable(ts, |ts|) && |ts| <= working
    ensures Stopped(ts, |ts|, working, None)
  {
    hide Runnable;
  }

  lemma NotAtAll(mode: bv8, ts: seq<Transfer>, working: nat)
    requires Unsupported(mode)
    ensures Outcome(mode, ts, 0, working, Internal)
  {
    ModeMask(mode);
    hide Unsupported;
  }

  lemma OutcomeIs(mode: bv8, ts: seq<Transfer>, n: nat, working: nat, refusal: Option<Reply>, reply: Reply)
    requires !Unsupported(mode) && Stopped(ts, n, working, refusal)
    requires if refusal.Some? then reply == refusal.value else reply.Response?
    ensures Outcome(mode, ts, n, working, reply) && (reply.Response? <==> refusal.None?)
    ensures reply.Response? ==> n == |ts|
  {
    ModeMask(mode);
    hide Unsupported;
  }

  /** One transfer on the bus; `x` is what it did. */
  method Exchange(payload: seq<byte>, ts: seq<Transfer>, i: nat, bus: Bus, resp: array<byte>, respPos: nat,
                  transData: nat, setting: Setting, ghost xs: seq<Done>)
    returns (ok: bool, ghost x: Done)
    requires i == |xs| < |ts| && AsAsked(payload, ts, xs)
    requires |payload| >= DataAt(ts) + Outgoing(ts, |ts|) && resp.Length == Incoming(ts, |ts|)
    requires respPos == Incoming(ts, i) <= resp.Length && transData == DataAt(ts) + Outgoing(ts, i)
    requires resp[..respPos] == Gathered(xs)
    modifies bus, resp
    ensures ok == (old(bus.working) > 0)
    ensures !ok ==> bus.done == old(bus.done) && bus.settings == old(bus.settings)
    ensures ok ==> bus.working == old(bus.working) - 1
    ensures ok ==> bus.done == old(bus.done) + [x] && bus.settings == old(bus.settings) + [setting]
    ensures ok ==> AsAsked(payload, ts, xs + [x])
    ensures ok ==> |x.got| == if Reads(ts[i]) then ts[i].len else 0
    ensures ok ==> respPos + |x.got| <= resp.Length && resp[..respPos + |x.got|] == Gathered(xs + [x])
  {
    hide *;
    OutgoingGrows(ts, i);
    var rxLen := if Reads(ts[i]) then ts[i].len else 0;
    var txLen := if Writes(ts[i]) then ts[i].len else 0;
    var out := payload[transData..transData + txLen];
    ok := bus.Transceive(resp, respPos, rxLen, out, setting);
    x := Done(out, resp[respPos..respPos + rxLen]);
    if ok {
      SplitAt(resp[..], respPos, respPos + rxLen);
      AskedNext(payload, ts, xs, x);
    }
  }

  /** The body of the second loop: why the transfer is refused, or else what it did. */
  method Perform(payload: seq<byte>, ts: seq<Transfer>, i: nat, bus: Bus, resp: array<byte>, respPos: nat,
                 transData: nat, setting: Setting, ghost xs: seq<Done>)
    returns (refusal: Option<Reply>, ghost x: Done)
    requires i == |xs| < |ts| && AsAsked(payload, ts, xs) && Runnable(ts, i)
    requires |payload| >= DataAt(ts) + Outgoing(ts, |ts|) && resp.Length == Incoming(ts, |ts|)
    requires respPos == Incoming(ts, i) <= resp.Length && transData == DataAt(ts) + Outgoing(ts, i)
    requires resp[..respPos] == Gathered(xs)
    modifies bus, resp
    ensures refusal.Some? ==> Stopped(ts, i, i + old(bus.working), refusal)
    ensures refusal.Some? ==> bus.done == old(bus.done) && bus.settings == old(bus.settings)
    ensures refusal.None? ==> bus.working == old(bus.working) - 1 && Runnable(ts, i + 1)
    ensures refusal.None? ==> bus.done == old(bus.done) + [x] && bus.settings == old(bus.settings) + [setting]
    ensures refusal.None? ==> AsAsked(payload, ts, xs + [x])
    ensures refusal.None? ==> |x.got| == if Reads(ts[i]) then ts[i].len else 0
    ensures refusal.None? ==> respPos + |x.got| <= resp.Length && resp[..respPos + |x.got|] == Gathered(xs + [x])
  {
    hide *;
    StopsAt(ts, i, i + bus.working);
    x := Done([], []);
    if ts[i].csChange {
      return Some(Internal), x;
    }
    if !Reads(ts[i]) && !Writes(ts[i]) {
      return Some(Invalid), x;
    }
    var ok;
    ok, x := Exchange(payload, ts, i, bus, resp, respPos, transData, setting, xs);
    RunnableNext(ts, i);
    refusal := if ok then None else Some(Internal);
  }

  /** The second loop, up to the first refusal. */
  method RunTransfers(payload: seq<byte>, ts: seq<Transfer>, conf: Config, bus: Bus, resp: array<byte>)
    returns (refusal: Option<Reply>, ghost xs: seq<Done>)
    requires |payload| >= DataAt(ts) + Outgoing(ts, |ts|) && resp.Length == Incoming(ts, |ts|)
    modifies bus, resp
    ensures |xs| <= |ts| && AsAsked(payload, ts, xs)
    ensures bus.done == old(bus.done) + xs && bus.settings == old(bus.settings) + Settings(conf, ts, |xs|)
    ensures Stopped(ts, |xs|, old(bus.working), refusal)
    ensures refusal.None? ==> resp[..] == Gathered(xs)
  {
    hide *;
    ghost var done, settings, working := bus.done, bus.settings, bus.working;
    xs := [];
    Nothing(payload, ts, conf);
    var respPos, transData := 0, DataAt(ts);
    var word: bv8 := 0;
    for i := 0 to |ts|
      modifies bus, resp
      invariant |xs| == i && AsAsked(payload, ts, xs) && bus.done == done + xs
      invariant word == WordField(ts, i) && bus.settings == settings + Settings(conf, ts, i)
      invariant bus.working + i == working && Runnable(ts, i)
      invariant respPos == Incoming(ts, i) <= resp.Length && transData == DataAt(ts) + Outgoing(ts, i)
      invariant resp[..respPos] == Gathered(xs)
    {
      WordNext(ts, i, conf);
      word := AddWord(word, ts[i]);
      var setting := Setting(conf, ts[i].speed, word);
      ghost var x;
      refusal, x := Perform(payload, ts, i, bus, resp, respPos, transData, setting, xs);
      if refusal.Some? {
        return;
      }
      ConcatAssoc(done, xs, [x]);
      ConcatAssoc(settings, Settings(conf, ts, i), [setting]);
      xs := xs + [x];
      OutgoingGrows(ts, i);
      respPos := respPos + if Reads(ts[i]) then ts[i].len else 0;
      transData := transData + if Writes(ts[i]) then ts[i].len else 0;
    }
    assert resp[..] == resp[..respPos];
    StopsNowhere(ts, working);
    return None, xs;
  }

  /**
   gb_spi_protocol_transfer. The source does not check that the response was allocated, nor that the data for all
   writes is there; both are asked of the caller here.
   */
  method ProtocolTransfer(payload: seq<byte>, chipSelect: nat, mode: bv8, ts: seq<Transfer>, bus: Bus)
    returns (reply: Reply, ghost xs: seq<Done>)
    requires |payload| >= 4 + 13 * |ts| + Outgoing(ts, |ts|)
    modifies bus
    ensures bus.done == old(bus.done) + xs
    ensures AsAsked(payload, ts, xs) && Dealt(Dirs(ts), payload[4 + 13 * |ts|..], xs)
    ensures bus.settings == old(bus.settings) + Settings(ConfigOf(chipSelect, mode), ts, |xs|)
    ensures Outcome(mode, ts, |xs|, old(bus.working), reply)
    ensures reply.Response? ==> reply.payload == Gathered(xs)
    ensures reply.Response? ==> |reply.payload| == Incoming(ts, |ts|)
    ensures reply.Response? ==> reply.announced == (8 + Incoming(ts, |ts|)) % 0x10000
  {
    xs := [];
    Nothing(payload, ts, ConfigOf(chipSelect, mode));
    hide Unsupported, Gathered, Incoming, Outgoing, AsAsked, Outcome, Stopped, ConfigOf, Settings, Dealt;
    if Unsupported(mode) {
      NotAtAll(mode, ts, bus.working);
      AskedIsDealt(payload, ts, xs);
      return Internal, xs;
    }
    var conf := BusConfig(chipSelect, mode);
    var respSize := ResponseSize(ts);
    var resp := new byte[respSize];
    var refusal;
    refusal, xs := RunTransfers(payload, ts, conf, bus, resp);
    AskedIsDealt(payload, ts, xs);
    reply := if refusal.Some? then refusal.value else Response((8 + respSize) % 0x10000, resp[..]);
    OutcomeIs(mode, ts, |xs|, old(bus.working), refusal, reply);
  }

  lemma ModeMask(mode: bv8)
    ensures Unsupported(mode) <==> mode & 0xD0 != 0
  {
  }

  lemma FlagMask(t: Transfer)
    ensures Reads(t) || Writes(t) <==> t.flags & 3 != 0
  {
  }

  lemma Nothing(payload: seq<byte>, ts: seq<Transfer>, config: Config)
    ensures Outgoing(ts, 0) == 0 && Incoming(ts, 0) == 0 && Gathered([]) == [] && AsAsked(payload, ts, [])
    ensures Settings(config, ts, 0) == [] && WordField(ts, 0) == 0 && Runnable(ts, 0)
  {
  }

  lemma WordNext(ts: seq<Transfer>, i: nat, config: Config)
    requires i < |ts|
    ensures WordField(ts, i + 1) == AddWord(WordField(ts, i), ts[i])
    ensures Settings(config, ts, i + 1)
         == Settings(config, ts, i) + [Setting(config, ts[i].speed, WordField(ts, i + 1))]
  {
  }

  /**
   The protocol gives every transfer a word size of its own. It runs with that size exactly when no earlier
   transfer has left a bit of its size behind that this one does not have.
   */
  lemma OwnWordSizeIff(config: Config, ts: seq<Transfer>, i: nat)
    requires i < |ts|
    ensures Settings(config, ts, |ts|)[i].word == Own(ts[i]) <==> Within(WordField(ts, i), Own(ts[i]))
  {
    hide *;
    WordNext(ts, i, config);
    OrAbsorbs(WordField(ts, i), ts[i]);
    assert Settings(config, ts, |ts|)[i].word == WordField(ts, i + 1) by { SettingsAt(config, ts, i); }
  }

  function Own(t: Transfer): bv8 {
    t.word & 0x3f
  }

  predicate Within(a: bv8, b: bv8) {
    a & !b == 0
  }

  lemma SettingsAt(config: Config, ts: seq<Transfer>, i: nat)
    requires i < |ts|
    ensures |Settings(config, ts, |ts|)| == |ts| && Settings(config, ts, |ts|)[i].word == WordField(ts, i + 1)
  {
    hide WordField;
  }

  lemma OrAbsorbs(a: bv8, t: Transfer)
    ensures AddWord(a, t) == Own(t) <==> Within(a, Own(t))
  {
  }

  /** Sixteen bits after eight is such a case: both run, the second with 24. */
  lemma WordSizesMix(config: Config)
    ensures var ts := [Transfer(0, 1, false, 8, XFER_WRITE), Transfer(0, 1, false, 16, XFER_WRITE)];
            |Settings(config, ts, 2)| == 2 && Settings(config, ts, 2)[1].word == 24
  {
    var ts := [Transfer(0, 1, false, 8, XFER_WRITE), Transfer(0, 1, false, 16, XFER_WRITE)];
    assert AddWord(0, ts[0]) == 8 && AddWord(8, ts[1]) == 24;
    Nothing([], ts, config);
    hide *;
    WordNext(ts, 0, config);
    WordNext(ts, 1, config);
    SettingsAt(config, ts, 1);
  }

  /** Which bit of the mode sets what, and which bits are the word size. */
  lemma ConfigBits(slave: nat, t: Transfer)
    ensures ConfigOf(slave, 0) == Config(slave, false, false, false, false, false)
    ensures ConfigOf(slave, 1) == Config(slave, true, false, false, false, false)
    ensures ConfigOf(slave, 2) == Config(slave, false, true, false, false, false)
    ensures ConfigOf(slave, 4) == Config(slave, false, false, true, false, false)
    ensures ConfigOf(slave, 8) == Config(slave, false, false, false, true, false)
    ensures ConfigOf(slave, 32) == Config(slave, false, false, false, false, true)
    ensures WordField([t], 1) == t.word % 64
  {
    assert AddWord(0, t) == t.word % 64;
  }
}
