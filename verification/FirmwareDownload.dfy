/** fw_download.c: an image fetched 64 bytes at a time and streamed to flash. */
module FirmwareDownload {
  import opened Bytes

  const DATA_SIZE_MAX := 64
  /** The offset parameter of the fetch request is sixteen bits wide. */
  const OFFSET_RANGE := 0x10000
  const SIZE_RANGE := 0x1_0000_0000

  datatype Status = Failed | Validated

  datatype Out =
    | FetchFirmware(firmwareId: byte, offset: nat, size: nat)
    | ReleaseFirmware(firmwareId: byte)
    | LoadedFw(requestId: int, status: Status, major: nat, minor: nat)

  /** What the boot loader says at the end: header unreadable, upgrade refused, or a bootable image's version. */
  datatype Boot = HeaderUnreadable | UpgradeRefused | Bootable(major: nat, minor: nat)

  /**
   What flash_img_buffered_write does with one block. A failing write may still have taken any number of its
   leading bytes; what was taken before stays.
   */
  datatype Write = Written | Broken(taken: nat)

  /** The part of a block that is taken. */
  function Taken(data: seq<byte>, w: Write): (t: seq<byte>)
    ensures t <= data
  {
    if w.Broken? && w.taken < |data| then data[..w.taken] else data
  }

  /**
   priv_data, and what flash_img_buffered_write has taken since flash_img_init. `flash` is written or still in the
   stream buffer; a flushing write that succeeds leaves all of it written.
   */
  datatype Fw = Fw(fwSize: nat, offset: nat, reqId: int, fwId: byte, flash: seq<byte>, flushes: nat)

  predicate ValidFw(s: Fw) {
    s.offset <= s.fwSize < SIZE_RANGE
  }

  function Min(a: int, b: int): int {
    if a < b then a else b
  }

  /** How many bytes of the next response are taken. */
  function CurSize(s: Fw): (n: nat)
    requires ValidFw(s)
    ensures n <= DATA_SIZE_MAX && s.offset + n <= s.fwSize
  {
    Min(s.fwSize - s.offset, DATA_SIZE_MAX)
  }

  function Fetch(id: byte, offset: nat, size: nat): Out {
    FetchFirmware(id, offset % OFFSET_RANGE, size)
  }

  /** The request id is passed on through an eight-bit parameter. */
  function Final(reqId: int, boot: Boot): (o: Out)
    ensures o.LoadedFw? && o.requestId == reqId % 256 && (0 <= reqId < 256 ==> o.requestId == reqId)
  {
    match boot
    case Bootable(major, minor) => LoadedFw(reqId % 256, Validated, major, minor)
    case _ => LoadedFw(reqId % 256, Failed, 0, 0)
  }

  lemma FinalCut(reqId: int, boot: Boot)
    ensures Final(reqId % 256, boot) == Final(reqId, boot)
  {
  }

  function Found(s: Fw, fwId: byte, size: nat): (Fw, seq<Out>) {
    (Fw(size, 0, s.reqId, fwId, [], 0), [Fetch(fwId, 0, DATA_SIZE_MAX)])
  }

  function Fetched(s: Fw, payload: seq<byte>, write: Write, boot: Boot): (r: (Fw, seq<Out>))
    requires ValidFw(s) && |payload| >= CurSize(s)
    ensures ValidFw(r.0)
  {
    var cur := CurSize(s);
    var last := s.offset + cur >= s.fwSize;
    var t := s.(offset := s.offset + cur);
    var next := if last then [ReleaseFirmware(s.fwId)] else [Fetch(s.fwId, t.offset, CurSize(t))];
    var t' := t.(flash := s.flash + Taken(payload[..cur], write));
    if write.Broken? then
      (t', next + [ReleaseFirmware(s.fwId), LoadedFw(s.fwSize % 256, Failed, 0, 0)])
    else
      var u := t'.(flushes := s.flushes + if last then 1 else 0);
      if last then (u.(reqId := -1), next + [Final(s.reqId, boot)]) else (u, next)
  }

  /** The driver object; `sent` logs the requests it hands to the transport. */
  class Downloader {
    var fwSize: nat
    var offset: nat
    var reqId: int
    var fwId: byte
    var flash: seq<byte>
    var flushes: nat
    var sent: seq<Out>

    ghost function State(): Fw
      reads this
    {
      Fw(fwSize, offset, reqId, fwId, flash, flushes)
    }

    constructor ()
      ensures ValidFw(State()) && reqId == -1 && sent == []
    {
      fwSize, offset, reqId, fwId, flash, flushes, sent := 0, 0, -1, 0, [], 0, [];
    }

    /** The state change of gb_fw_download_find_firmware; the find request itself carries no image data. */
    method FindFirmware(id: nat)
      requires id < 256
      modifies this`reqId
      ensures State() == old(State()).(reqId := id)
    {
      reqId := id;
    }

    method SendFetch(id: byte, at: nat, size: nat)
      modifies this`sent
      ensures sent == old(sent) + [Fetch(id, at, size)]
    {
      sent := sent + [FetchFirmware(id, at % OFFSET_RANGE, size)];
    }

    /** gb_fw_download_find_firmware_response_handler. */
    method FindFirmwareResponse(success: bool, id: byte, size: nat)
      requires size < SIZE_RANGE
      modifies this
      ensures !success ==> State() == old(State()) && sent == old(sent)
      ensures success ==> State() == Found(old(State()), id, size).0
      ensures success ==> sent == old(sent) + Found(old(State()), id, size).1
    {
      if !success {
        return;
      }
      flash, flushes := [], 0;
      fwId := id;
      fwSize := size;
      offset := 0;
      SendFetch(id, 0, DATA_SIZE_MAX);
    }

    /** flash_img_buffered_write, whose outcome is an input. */
    method FlashWrite(data: seq<byte>, flush: bool, write: Write)
      modifies this`flash, this`flushes
      ensures flash == old(flash) + Taken(data, write)
      ensures flushes == old(flushes) + if write.Written? && flush then 1 else 0
    {
      flash := flash + Taken(data, write);
      if write.Written? && flush {
        flushes := flushes + 1;
      }
    }

    method Release(id: byte)
      modifies this`sent
      ensures sent == old(sent) + [ReleaseFirmware(id)]
    {
      sent := sent + [ReleaseFirmware(id)];
    }

    /** gb_fw_download_early_fail. */
    method EarlyFail(id: byte, request: int)
      modifies this`sent
      ensures sent == old(sent) + [ReleaseFirmware(id), LoadedFw(request, Failed, 0, 0)]
    {
      Release(id);
      sent := sent + [LoadedFw(request, Failed, 0, 0)];
    }

    /** gb_fw_download_fetch_final. */
    method FetchFinal(request: int, boot: Boot)
      requires 0 <= request < 256
      modifies this`sent
      ensures sent == old(sent) + [Final(request, boot)]
      ensures boot.Bootable? ==> sent == old(sent) + [LoadedFw(request, Validated, boot.major, boot.minor)]
      ensures !boot.Bootable? ==> sent == old(sent) + [LoadedFw(request, Failed, 0, 0)]
    {
      if boot.HeaderUnreadable? {
        sent := sent + [LoadedFw(request, Failed, 0, 0)];
        return;
      }
      if boot.UpgradeRefused? {
        sent := sent + [LoadedFw(request, Failed, 0, 0)];
        return;
      }
      sent := sent + [LoadedFw(request, Validated, boot.major, boot.minor)];
    }

    /**
     gb_fw_download_fetch_firmware_response_handler. It reads as many payload bytes as it expects, without
     checking that they came; that is asked of the response here.
     */
    method FetchFirmwareResponse(success: bool, payload: seq<byte>, write: Write, boot: Boot)
      requires ValidFw(State()) && |payload| >= CurSize(State())
      modifies this
      ensures ValidFw(State())
      ensures !success ==> State() == old(State()) && sent == old(sent)
      ensures success ==> State() == Fetched(old(State()), payload, write, boot).0
      ensures success ==> sent == old(sent) + Fetched(old(State()), payload, write, boot).1
    {
      hide Final;
      var cur := Min(fwSize - offset, DATA_SIZE_MAX);
      var isFinal := offset + cur >= fwSize;
      if !success {
        return;
      }
      offset := offset + cur;
      if isFinal {
        Release(fwId);
      } else {
        var next := Min(fwSize - offset, DATA_SIZE_MAX);
        SendFetch(fwId, offset, next);
      }
      FlashWrite(payload[..cur], isFinal, write);
      if write.Broken? {
        // The source passes the firmware size where the request id belongs; the parameter is eight bits.
        EarlyFail(fwId, fwSize % 256);
        return;
      }
      if isFinal {
        FinalCut(reqId, boot);
        FetchFinal(reqId % 256, boot);
        reqId := -1;
      }
    }
  }

  // ----- A whole download against a host that answers every fetch -----

  /** What the host sends back for a fetch: the bytes of the image in that range. */
  function Answer(image: seq<byte>, offset: nat, size: nat): seq<byte> {
    image[Min(offset, |image|)..Min(offset + size, |image|)]
  }

  /** The driver, the fetch waiting for its answer, and everything sent so far. */
  datatype World = World(s: Fw, pending: Option<(nat, nat)>, sent: seq<Out>)

  function FetchIn(outs: seq<Out>): Option<(nat, nat)> {
    if outs != [] && outs[0].FetchFirmware? then Some((outs[0].offset, outs[0].size)) else None
  }

  /** One answered fetch; nothing happens when none is waiting, or the host has too little to answer with. */
  function Round(w: World, image: seq<byte>, write: Write, boot: Boot): World {
    if w.pending.None? || !ValidFw(w.s) then w
    else
      var payload := Answer(image, w.pending.value.0, w.pending.value.1);
      if |payload| < CurSize(w.s) then w
      else
        var (s, outs) := Fetched(w.s, payload, write, boot);
        World(s, FetchIn(outs), w.sent + outs)
  }

  /** As many rounds as there are outcomes of flash writes. */
  function Rounds(w: World, image: seq<byte>, ws: seq<Write>, boot: Boot): World
    decreases ws
  {
    if ws == [] then w else Round(Rounds(w, image, ws[..|ws| - 1], boot), image, ws[|ws| - 1], boot)
  }

  /** The world just after a successful find response. */
  function Begin(reqId: int, id: byte, size: nat): World {
    var (s, outs) := Found(Fw(0, 0, reqId, 0, [], 0), id, size);
    World(s, FetchIn(outs), outs)
  }

  // ----- What it should do, in terms of the image -----

  /** The number of fetches: one per started block of 64, and one even for an empty image. */
  function Count(size: nat): (n: nat)
    ensures n >= 1
  {
    if size == 0 then 1 else (size + DATA_SIZE_MAX - 1) / DATA_SIZE_MAX
  }

  function BlockLen(size: nat, k: nat): nat {
    if DATA_SIZE_MAX * k >= size then 0 else Min(size - DATA_SIZE_MAX * k, DATA_SIZE_MAX)
  }

  /** The image as sixteen-bit offsets see it. */
  function Folded(image: seq<byte>): (f: seq<byte>)
    ensures |f| == |image|
  {
    seq(|image|, i requires 0 <= i < |image| => image[i % OFFSET_RANGE])
  }

  /** An image that sixteen-bit offsets see as it is. */
  predicate Periodic(image: seq<byte>) {
    forall i :: 0 <= i < |image| ==> image[i] == image[i % OFFSET_RANGE]
  }

  function Block(image: seq<byte>, k: nat): (b: seq<byte>)
    ensures |b| == BlockLen(|image|, k)
  {
    var at := Min(DATA_SIZE_MAX * k, |image|);
    Folded(image)[at..at + BlockLen(|image|, k)]
  }

  /** What the writes of the first blocks leave in flash. */
  function Kept(image: seq<byte>, ws: seq<Write>): seq<byte>
    decreases ws
  {
    if ws == [] then []
    else
      var k := |ws| - 1;
      Kept(image, ws[..k]) + Taken(Block(image, k), ws[k])
  }

  lemma CountFacts(size: nat, k: nat)
    requires k < Count(size)
    ensures DATA_SIZE_MAX * k <= size
    ensures k + 1 < Count(size) ==> DATA_SIZE_MAX * (k + 1) < size && BlockLen(size, k) == DATA_SIZE_MAX
    ensures k + 1 == Count(size) ==> DATA_SIZE_MAX * k + BlockLen(size, k) == size
    ensures size > 0 ==> BlockLen(size, k) > 0
  {
  }

  lemma AnswerIsBlock(image: seq<byte>, k: nat, size: nat)
    requires k < Count(|image|) && BlockLen(|image|, k) <= size
    ensures var a := Answer(image, DATA_SIZE_MAX * k % OFFSET_RANGE, size);
            |a| >= BlockLen(|image|, k) && a[..BlockLen(|image|, k)] == Block(image, k)
  {
    CountFacts(|image|, k);
    OffsetAligned(k);
    var at, n := DATA_SIZE_MAX * k, BlockLen(|image|, k);
    var o := at % OFFSET_RANGE;
    assert o <= at && at + n <= |image| && n <= DATA_SIZE_MAX;
    assert Block(image, k) == Folded(image)[at..at + n];
    hide *;
    FoldedSlice(image, at, n);
    AnswerStart(image, o, size, n);
  }

  lemma AnswerStart(image: seq<byte>, o: nat, size: nat, n: nat)
    requires n <= size && o + n <= |image|
    ensures |Answer(image, o, size)| >= n && Answer(image, o, size)[..n] == image[o..o + n]
  {
    var end := Min(o + size, |image|);
    assert Answer(image, o, size) == image[o..end] && o + n <= end;
    hide *;
    InnerSlice(image, o, end, n);
  }

  lemma InnerSlice(s: seq<byte>, a: nat, b: nat, n: nat)
    requires a + n <= b <= |s|
    ensures s[a..b][..n] == s[a..a + n]
  {
  }

  lemma FoldedSlice(image: seq<byte>, at: nat, n: nat)
    requires at + n <= |image| && at % OFFSET_RANGE + n <= OFFSET_RANGE
    ensures var o := at % OFFSET_RANGE;
            o <= at && Folded(image)[at..at + n] == image[o..o + n]
  {
    var f, o := Folded(image), at % OFFSET_RANGE;
    assert o <= at;
    forall j | at <= j < at + n
      ensures f[j] == image[o + j - at]
    {
      WrapStep(at, j - at);
    }
    hide Folded;
  }

  lemma OffsetAligned(k: nat)
    ensures var o := DATA_SIZE_MAX * k % OFFSET_RANGE;
            o % DATA_SIZE_MAX == 0 && o + DATA_SIZE_MAX <= OFFSET_RANGE
  {
    var o := DATA_SIZE_MAX * k % OFFSET_RANGE;
    var q := DATA_SIZE_MAX * k / OFFSET_RANGE;
    assert o == DATA_SIZE_MAX * (k - 1024 * q);
  }

  lemma WrapStep(at: nat, i: nat)
    requires at % OFFSET_RANGE + i < OFFSET_RANGE
    ensures (at + i) % OFFSET_RANGE == at % OFFSET_RANGE + i
  {
  }

  /** The k-th fetch; the first one always asks for a full 64 bytes. */
  function Request(id: byte, size: nat, k: nat): Out {
    FetchFirmware(id, DATA_SIZE_MAX * k % OFFSET_RANGE, if k == 0 then DATA_SIZE_MAX else BlockLen(size, k))
  }

  /** What is sent in answer to the k-th response. */
  function Reaction(id: byte, size: nat, reqId: int, k: nat, write: Write, boot: Boot): (outs: seq<Out>)
    ensures outs != []
  {
    var last := k + 1 == Count(size);
    [if last then ReleaseFirmware(id) else Request(id, size, k + 1)]
    + (if write.Broken? then [ReleaseFirmware(id), LoadedFw(size % 256, Failed, 0, 0)]
       else if last then [Final(reqId, boot)] else [])
  }

  /** Everything sent in the first |ws| rounds. */
  function Emitted(id: byte, size: nat, reqId: int, ws: seq<Write>, boot: Boot): seq<Out>
    decreases ws
  {
    if ws == [] then [Request(id, size, 0)]
    else
      var k := |ws| - 1;
      Emitted(id, size, reqId, ws[..k], boot) + Reaction(id, size, reqId, k, ws[k], boot)
  }

  /** The world after each round of a download, whatever flash writes fail on the way. */
  ghost predicate OnCourse(w: World, image: seq<byte>, id: byte, reqId: int, ws: seq<Write>, boot: Boot) {
    var size, k := |image|, |ws|;
    && w.sent == Emitted(id, size, reqId, ws, boot)
    && w.s.fwSize == size && w.s.fwId == id && w.s.flash == Kept(image, ws)
    && (k < Count(size) ==>
          && w.s.offset == DATA_SIZE_MAX * k && w.s.reqId == reqId && w.s.flushes == 0
          && var r := Request(id, size, k); w.pending == Some((r.offset, r.size)))
    && (k == Count(size) ==>
          && w.s.offset == size && w.pending == None
          && w.s.reqId == (if ws[k - 1].Written? then -1 else reqId)
          && w.s.flushes == (if ws[k - 1].Written? then 1 else 0))
  }

  lemma FetchedIs(s: Fw, payload: seq<byte>, k: nat, write: Write, boot: Boot)
    requires k < Count(s.fwSize) && s.offset == DATA_SIZE_MAX * k && ValidFw(s) && |payload| >= CurSize(s)
    ensures var n := BlockLen(s.fwSize, k);
            var last := k + 1 == Count(s.fwSize);
            && CurSize(s) == n
            && Fetched(s, payload, write, boot)
               == (s.(offset := s.offset + n,
                      flash := s.flash + Taken(payload[..n], write),
                      flushes := s.flushes + (if write.Written? && last then 1 else 0),
                      reqId := if write.Written? && last then -1 else s.reqId),
                   Reaction(s.fwId, s.fwSize, s.reqId, k, write, boot))
  {
    CountFacts(s.fwSize, k);
    if k + 1 < Count(s.fwSize) {
      CountFacts(s.fwSize, k + 1);
    }
    CurSizeIs(s, k);
    hide Count, Final;
    var n, last := BlockLen(s.fwSize, k), k + 1 == Count(s.fwSize);
    var t := s.(offset := s.offset + n);
    assert s.offset + n >= s.fwSize <==> last;
    if !last {
      CurSizeIs(t, k + 1);
      assert Fetch(s.fwId, t.offset, CurSize(t)) == Request(s.fwId, s.fwSize, k + 1);
    }
    var e := if last then ReleaseFirmware(s.fwId) else Request(s.fwId, s.fwSize, k + 1);
    assert [e] + [] == [e];
  }

  lemma RoundOnCourse(w: World, image: seq<byte>, id: byte, reqId: int, ws: seq<Write>, write: Write, boot: Boot)
    requires |image| < SIZE_RANGE && |ws| < Count(|image|)
    requires OnCourse(w, image, id, reqId, ws, boot)
    ensures OnCourse(Round(w, image, write, boot), image, id, reqId, ws + [write], boot)
  {
    var size, k, now := |image|, |ws|, ws + [write];
    CountFacts(size, k);
    KeptNext(image, ws, write);
    EmittedNext(id, size, reqId, ws, write, boot);
    FetchInReaction(id, size, reqId, k, write, boot);
    assert |now| == k + 1 && now[k] == write;
    hide Block, Kept, Emitted, Count, BlockLen, Final, Taken, Round, Request, Reaction, FetchIn;
    RoundIs(w, image, k, write, boot);
    if k + 1 < Count(size) {
      assert DATA_SIZE_MAX * k + BlockLen(size, k) == DATA_SIZE_MAX * |now|;
    } else {
      assert |now| == Count(size);
    }
  }

  lemma FetchInReaction(id: byte, size: nat, reqId: int, k: nat, write: Write, boot: Boot)
    ensures var r := Request(id, size, k + 1);
            FetchIn(Reaction(id, size, reqId, k, write, boot))
            == if k + 1 == Count(size) then None else Some((r.offset, r.size))
  {
  }

  /** One round, in terms of the image. */
  lemma RoundIs(w: World, image: seq<byte>, k: nat, write: Write, boot: Boot)
    requires |image| < SIZE_RANGE && k < Count(|image|)
    requires w.s.fwSize == |image| && w.s.offset == DATA_SIZE_MAX * k && w.s.offset <= |image|
    requires var r := Request(w.s.fwId, |image|, k); w.pending == Some((r.offset, r.size))
    ensures var last := k + 1 == Count(|image|);
            var outs := Reaction(w.s.fwId, |image|, w.s.reqId, k, write, boot);
            Round(w, image, write, boot)
            == World(w.s.(offset := w.s.offset + BlockLen(|image|, k),
                          flash := w.s.flash + Taken(Block(image, k), write),
                          flushes := w.s.flushes + (if write.Written? && last then 1 else 0),
                          reqId := if write.Written? && last then -1 else w.s.reqId),
                     FetchIn(outs), w.sent + outs)
  {
    var r := Request(w.s.fwId, |image|, k);
    AnswerIsBlock(image, k, r.size);
    CurSizeIs(w.s, k);
    FetchedIs(w.s, Answer(image, r.offset, r.size), k, write, boot);
    hide Answer, Block, Count, BlockLen, Taken, Fetched, Reaction, CurSize, Request;
  }

  lemma CurSizeIs(s: Fw, k: nat)
    requires k < Count(s.fwSize) && s.offset == DATA_SIZE_MAX * k && ValidFw(s)
    ensures CurSize(s) == BlockLen(s.fwSize, k)
  {
    CountFacts(s.fwSize, k);
  }

  lemma KeptNext(image: seq<byte>, ws: seq<Write>, write: Write)
    ensures Kept(image, ws + [write]) == Kept(image, ws) + Taken(Block(image, |ws|), write)
  {
    assert (ws + [write])[..|ws|] == ws;
    hide Block;
  }

  lemma EmittedNext(id: byte, size: nat, reqId: int, ws: seq<Write>, write: Write, boot: Boot)
    ensures Emitted(id, size, reqId, ws + [write], boot)
         == Emitted(id, size, reqId, ws, boot) + Reaction(id, size, reqId, |ws|, write, boot)
  {
    assert (ws + [write])[..|ws|] == ws;
    hide Reaction, Request;
  }

  lemma {:induction false} RoundsOnCourse(image: seq<byte>, id: byte, reqId: int, ws: seq<Write>, boot: Boot)
    requires |image| < SIZE_RANGE && |ws| <= Count(|image|)
    ensures OnCourse(Rounds(Begin(reqId, id, |image|), image, ws, boot), image, id, reqId, ws, boot)
    decreases ws
  {
    if ws != [] {
      var k := |ws| - 1;
      assert ws == ws[..k] + [ws[k]];
      hide OnCourse, Round, Begin;
      RoundsOnCourse(image, id, reqId, ws[..k], boot);
      RoundOnCourse(Rounds(Begin(reqId, id, |image|), image, ws[..k], boot), image, id, reqId, ws[..k], ws[k], boot);
    }
  }

  // ----- Downloads in which every flash write succeeds -----

  predicate AllWritten(ws: seq<Write>) {
    forall i :: 0 <= i < |ws| ==> ws[i].Written?
  }

  /** Every write took its whole block, whether it then failed or not. */
  predicate AllTaken(size: nat, ws: seq<Write>) {
    forall k :: 0 <= k < |ws| ==> TakesAll(BlockLen(size, k), ws[k])
  }

  predicate TakesAll(n: nat, w: Write) {
    w.Written? || w.taken >= n
  }

  lemma AllTakenLast(size: nat, ws: seq<Write>)
    requires ws != []
    ensures var k := |ws| - 1;
            AllTaken(size, ws) <==> AllTaken(size, ws[..k]) && TakesAll(BlockLen(size, k), ws[k])
  {
    var k := |ws| - 1;
    hide TakesAll, BlockLen;
    assert ws == ws[..k] + [ws[k]];
  }

  lemma TakenLength(data: seq<byte>, w: Write)
    ensures |Taken(data, w)| <= |data|
    ensures |Taken(data, w)| == |data| <==> TakesAll(|data|, w)
    ensures TakesAll(|data|, w) ==> Taken(data, w) == data
  {
  }

  lemma KeptLast(image: seq<byte>, ws: seq<Write>)
    requires ws != []
    ensures var k := |ws| - 1;
            Kept(image, ws) == Kept(image, ws[..k]) + Taken(Block(image, k), ws[k])
  {
    hide Taken, Block;
  }

  /** How much of the image the first k blocks cover. */
  function Reach(size: nat, k: nat): nat {
    if k == Count(size) then size else DATA_SIZE_MAX * k
  }

  lemma ReachNext(size: nat, k: nat)
    requires k < Count(size)
    ensures Reach(size, 0) == 0
    ensures Reach(size, k) == DATA_SIZE_MAX * k
    ensures Reach(size, k) + BlockLen(size, k) == Reach(size, k + 1) <= size
    ensures size > 0 ==> BlockLen(size, k) > 0
  {
    CountFacts(size, k);
  }

  lemma {:induction false} KeptAll(image: seq<byte>, ws: seq<Write>)
    requires |ws| <= Count(|image|) && AllTaken(|image|, ws)
    ensures Reach(|image|, |ws|) <= |image| && Kept(image, ws) == Folded(image)[..Reach(|image|, |ws|)]
    decreases ws
  {
    if ws == [] {
      ReachNext(|image|, 0);
    } else {
      var k := |ws| - 1;
      hide *;
      AllTakenLast(|image|, ws);
      TakenLength(Block(image, k), ws[k]);
      KeptLast(image, ws);
      ReachNext(|image|, k);
      KeptAll(image, ws[..k]);
      BlockIs(image, k);
    }
  }

  lemma BlockIs(image: seq<byte>, k: nat)
    requires k < Count(|image|) && Reach(|image|, k) + BlockLen(|image|, k) <= |image|
    ensures var at := Reach(|image|, k);
            Folded(image)[..at] + Block(image, k) == Folded(image)[..at + BlockLen(|image|, k)]
  {
    ReachNext(|image|, k);
    hide BlockLen, Folded, Reach, Count;
  }

  function Requests(id: byte, size: nat, n: nat): (rs: seq<Out>)
    ensures |rs| == n
  {
    seq(n, k requires 0 <= k < n => Request(id, size, k))
  }

  lemma {:induction false} EmittedAll(id: byte, size: nat, reqId: int, ws: seq<Write>, boot: Boot)
    requires |ws| <= Count(size) && AllWritten(ws)
    ensures Emitted(id, size, reqId, ws, boot)
         == if |ws| == Count(size) then Requests(id, size, |ws|) + [ReleaseFirmware(id), Final(reqId, boot)]
            else Requests(id, size, |ws| + 1)
    decreases ws
  {
    hide Count, Final, Request;
    if ws == [] {
      assert Requests(id, size, 1) == [Request(id, size, 0)];
    } else {
      var k := |ws| - 1;
      EmittedAll(id, size, reqId, ws[..k], boot);
      var rs := Requests(id, size, k + 1);
      assert ws[k].Written?;
      hide Emitted;
      assert Requests(id, size, k + 2) == rs + [Request(id, size, k + 1)];
      assert [ReleaseFirmware(id)] + [Final(reqId, boot)] == [ReleaseFirmware(id), Final(reqId, boot)];
      assert [Request(id, size, k + 1)] + [] == [Request(id, size, k + 1)];
    }
  }

  /**
   Firmware tiling, for every image the 32-bit size field can announce: after Count(size) answered fetches the
   driver is done, flash holds the image as sixteen-bit offsets see it, with one flushing write, and what was
   sent is the fetches in order, one release, and one notification carrying the original request id.
   */
  lemma DownloadCompletes(image: seq<byte>, id: byte, reqId: int, ws: seq<Write>, boot: Boot)
    requires |image| < SIZE_RANGE && |ws| == Count(|image|) && AllWritten(ws)
    ensures var w := Rounds(Begin(reqId, id, |image|), image, ws, boot);
            && w.s.flash == Folded(image) && w.s.flushes == 1 && w.s.offset == |image|
            && w.pending == None && w.s.reqId == -1
            && w.sent == Requests(id, |image|, |ws|) + [ReleaseFirmware(id), Final(reqId, boot)]
            && (w.s.flash == image <==> Periodic(image))
            && (|image| <= 65536 ==> w.s.flash == image)
  {
    RoundsOnCourse(image, id, reqId, ws, boot);
    KeptAll(image, ws);
    EmittedAll(id, |image|, reqId, ws, boot);
    FoldedFaithful(image);
    assert ws[|ws| - 1].Written?;
    hide Rounds, Begin, Kept, Emitted, Count, Requests, Folded;
    assert Folded(image)[..|image|] == Folded(image);
  }

  /** So an image of 65537 bytes arrives damaged as soon as its last byte differs from its first. */
  lemma LongImageDamaged(image: seq<byte>, id: byte, reqId: int, ws: seq<Write>, boot: Boot)
    requires |image| == 65537 && image[65536] != image[0]
    requires |ws| == Count(|image|) && AllWritten(ws)
    ensures var w := Rounds(Begin(reqId, id, |image|), image, ws, boot);
            w.s.flash != image && w.s.flash == image[..65536] + [image[0]]
  {
    DownloadCompletes(image, id, reqId, ws, boot);
    hide Rounds, Begin, Count, Requests, Final;
    assert image[OFFSET_RANGE % OFFSET_RANGE] == image[0];
  }

  lemma FoldedFaithful(image: seq<byte>)
    ensures Folded(image) == image <==> Periodic(image)
    ensures |image| <= OFFSET_RANGE ==> Folded(image) == image
  {
    var f := Folded(image);
    if f == image {
      forall i | 0 <= i < |image|
        ensures image[i] == image[i % OFFSET_RANGE]
      {
        assert f[i] == image[i % OFFSET_RANGE];
      }
    }
  }

  /** The fetches tile the image: each begins where the one before it ended. */
  lemma RequestsTile(id: byte, size: nat, k: nat)
    requires k < Count(size)
    ensures var r := Requests(id, size, Count(size))[k];
            && r.FetchFirmware? && r.firmwareId == id
            && r.offset == 64 * k % 65536
            && r.size == (if k == 0 then 64 else if size - 64 * k < 64 then size - 64 * k else 64)
    ensures Count(size) == if size == 0 then 1 else (size + 63) / 64
    ensures k + 1 < Count(size) ==> 64 * k + BlockLen(size, k) == 64 * (k + 1)
    ensures k + 1 == Count(size) ==> 64 * k + BlockLen(size, k) == size
    ensures BlockLen(size, k) <= Requests(id, size, Count(size))[k].size <= 64
  {
    CountFacts(size, k);
  }

  // ----- Downloads with failing flash writes -----

  lemma {:induction false} KeptLength(image: seq<byte>, ws: seq<Write>)
    requires |ws| <= Count(|image|)
    ensures var at := Reach(|image|, |ws|);
            if AllTaken(|image|, ws) then |Kept(image, ws)| == at else |Kept(image, ws)| < at
    decreases ws
  {
    if ws == [] {
      ReachNext(|image|, 0);
    } else {
      var k := |ws| - 1;
      hide *;
      AllTakenLast(|image|, ws);
      TakenLength(Block(image, k), ws[k]);
      KeptLast(image, ws);
      ReachNext(|image|, k);
      KeptLength(image, ws[..k]);
    }
  }

  /**
   A download goes on after a failed flash write. What is written or buffered in the end is the expected image
   exactly when every write, failed or not, took its whole block, and too short otherwise. It is flushed exactly
   when the last write succeeds.
   */
  lemma FlashFailuresShow(image: seq<byte>, id: byte, reqId: int, ws: seq<Write>, boot: Boot)
    requires |ws| == Count(|image|) && |image| < SIZE_RANGE
    ensures var w := Rounds(Begin(reqId, id, |image|), image, ws, boot);
            && w.pending == None
            && (w.s.flash == Folded(image) <==> AllTaken(|image|, ws))
            && (AllTaken(|image|, ws) || |w.s.flash| < |image|)
            && w.s.flushes == if ws[|ws| - 1].Written? then 1 else 0
  {
    RoundsOnCourse(image, id, reqId, ws, boot);
    KeptLength(image, ws);
    hide Rounds, Begin, Kept, Folded, AllTaken, Emitted, Request;
    if AllTaken(|image|, ws) {
      KeptAll(image, ws);
      assert Folded(image)[..|image|] == Folded(image);
    }
  }

  predicate Reports(outs: seq<Out>, status: Status) {
    exists o <- outs :: o.LoadedFw? && o.status == status
  }

  lemma ReportsAppend(a: seq<Out>, b: seq<Out>, status: Status)
    ensures Reports(a + b, status) <==> Reports(a, status) || Reports(b, status)
  {
    forall o | o in a || o in b
      ensures o in a + b
    {
    }
  }

  /**
   When the host is told the image is validated. Only the last flash write and the boot loader are asked, so
   an image with a hole is reported as validated exactly when an earlier write failed and the last did not.
   */
  lemma {:induction false} ValidatedIff(id: byte, size: nat, reqId: int, ws: seq<Write>, boot: Boot)
    requires |ws| <= Count(size)
    ensures Reports(Emitted(id, size, reqId, ws, boot), Validated)
            <==> |ws| == Count(size) && ws[|ws| - 1].Written? && boot.Bootable?
    decreases ws
  {
    if ws != [] {
      var k := |ws| - 1;
      var before, x := Emitted(id, size, reqId, ws[..k], boot), Reaction(id, size, reqId, k, ws[k], boot);
      assert Emitted(id, size, reqId, ws, boot) == before + x;
      ValidatedIff(id, size, reqId, ws[..k], boot);
      ReportsAppend(before, x, Validated);
      hide Emitted, Count;
      if ws[k].Written? && k + 1 == Count(size) && boot.Bootable? {
        assert x[1] in x;
      }
    }
  }

  /**
   When the host is told that an image is validated although flash does not hold it: some write left bytes out,
   or the image is not what sixteen-bit offsets see, and the last write and the boot loader succeeded.
   */
  lemma HoleValidatedIff(image: seq<byte>, id: byte, reqId: int, ws: seq<Write>, boot: Boot)
    requires |ws| == Count(|image|) && |image| < SIZE_RANGE
    ensures var w := Rounds(Begin(reqId, id, |image|), image, ws, boot);
            && (w.s.flash == image <==> AllTaken(|image|, ws) && Periodic(image))
            && (w.s.flash != image && Reports(w.sent, Validated)
                <==> (!AllTaken(|image|, ws) || !Periodic(image)) && ws[|ws| - 1].Written? && boot.Bootable?)
  {
    FlashFailuresShow(image, id, reqId, ws, boot);
    RoundsOnCourse(image, id, reqId, ws, boot);
    ValidatedIff(id, |image|, reqId, ws, boot);
    FoldedFaithful(image);
    hide Rounds, Begin, Kept, Emitted, Reports, Folded, AllTaken, Periodic, Request;
  }

  /** For instance two blocks, of which the first write fails with any part of its bytes missing. */
  lemma HoleCanBeValidated(image: seq<byte>, id: byte, reqId: int, taken: nat)
    requires |image| == 128 && taken < 64
    ensures var w := Rounds(Begin(reqId, id, 128), image, [Broken(taken), Written], Bootable(1, 0));
            w.s.flash != image && Reports(w.sent, Validated)
  {
    var ws := [Broken(taken), Written];
    assert Count(128) == 2;
    assert !AllTaken(128, ws) by { assert ws[0].taken < BlockLen(128, 0); }
    FoldedFaithful(image);
    HoleValidatedIff(image, id, reqId, ws, Bootable(1, 0));
    hide Rounds, Begin;
  }

  /** A failed write is reported under the low byte of the image size, which is the request id only by coincidence. */
  lemma FailureReportedUnder(s: Fw, payload: seq<byte>, write: Write, boot: Boot)
    requires write.Broken? && ValidFw(s) && |payload| >= CurSize(s)
    ensures LoadedFw(s.reqId, Failed, 0, 0) in Fetched(s, payload, write, boot).1
            <==> s.fwSize % 256 == s.reqId
    ensures Fetched(s, payload, write, boot).1[1..]
         == [ReleaseFirmware(s.fwId), LoadedFw(s.fwSize % 256, Failed, 0, 0)]
  {
    var outs := Fetched(s, payload, write, boot).1;
    assert outs[2] == LoadedFw(s.fwSize % 256, Failed, 0, 0);
    assert outs == [outs[0], outs[1], outs[2]];
  }

  // ----- What the host is told -----

  /** The reports among the requests sent, in order. */
  function Reported(outs: seq<Out>): seq<Out>
    decreases outs
  {
    if outs == [] then []
    else (if outs[0].LoadedFw? then [outs[0]] else []) + Reported(outs[1..])
  }

  lemma {:induction false} ReportedAppend(a: seq<Out>, b: seq<Out>)
    ensures Reported(a + b) == Reported(a) + Reported(b)
    decreases a
  {
    if a == [] {
      assert a + b == b;
    } else {
      assert (a + b)[1..] == a[1..] + b && (a + b)[0] == a[0];
      ReportedAppend(a[1..], b);
    }
  }

  lemma ReportedOne(o: Out)
    ensures Reported([o]) == if o.LoadedFw? then [o] else []
  {
    assert [o][1..] == [];
    assert Reported([]) == [];
  }

  /** How many writes failed. */
  function Failures(ws: seq<Write>): nat
    decreases ws
  {
    if ws == [] then 0 else Failures(ws[..|ws| - 1]) + if ws[|ws| - 1].Broken? then 1 else 0
  }

  /** One failure report each, under the low byte of the image size. */
  function FailureReports(size: nat, n: nat): seq<Out> {
    if n == 0 then [] else FailureReports(size, n - 1) + [LoadedFw(size % 256, Failed, 0, 0)]
  }

  /** The last report of a download whose last write succeeded. */
  function Outcome(reqId: int, boot: Boot): (o: Out)
    ensures forall major, minor ::
              boot == Bootable(major, minor) ==> o == LoadedFw(reqId % 256, Validated, major, minor)
    ensures !boot.Bootable? ==> o == LoadedFw(reqId % 256, Failed, 0, 0)
  {
    Final(reqId, boot)
  }

  lemma ReactionReports(id: byte, size: nat, reqId: int, k: nat, write: Write, boot: Boot)
    ensures Reported(Reaction(id, size, reqId, k, write, boot))
         == (if write.Broken? then [LoadedFw(size % 256, Failed, 0, 0)]
             else if k + 1 == Count(size) then [Outcome(reqId, boot)] else [])
  {
    var x := if k + 1 == Count(size) then ReleaseFirmware(id) else Request(id, size, k + 1);
    var failed := LoadedFw(size % 256, Failed, 0, 0);
    hide Count, Request, Final, Reported;
    ReportedOne(x);
    if write.Broken? {
      ReportedOne(ReleaseFirmware(id));
      ReportedOne(failed);
      ReportedAppend([x], [ReleaseFirmware(id), failed]);
      ReportedAppend([ReleaseFirmware(id)], [failed]);
      assert [ReleaseFirmware(id)] + [failed] == [ReleaseFirmware(id), failed];
    } else if k + 1 == Count(size) {
      ReportedOne(Final(reqId, boot));
      ReportedAppend([x], [Final(reqId, boot)]);
    } else {
      assert [x] + [] == [x];
    }
  }

  lemma {:induction false} EmittedReports(id: byte, size: nat, reqId: int, ws: seq<Write>, boot: Boot)
    requires |ws| <= Count(size)
    ensures Reported(Emitted(id, size, reqId, ws, boot))
         == FailureReports(size, Failures(ws))
            + if |ws| == Count(size) && ws[|ws| - 1].Written? then [Outcome(reqId, boot)] else []
    decreases ws
  {
    hide Count, Request, Reaction, Final, Reported;
    if ws == [] {
      ReportedOne(Request(id, size, 0));
      RequestFetches(id, size, 0);
    } else {
      var k := |ws| - 1;
      EmittedReports(id, size, reqId, ws[..k], boot);
      ReactionReports(id, size, reqId, k, ws[k], boot);
      ReportedAppend(Emitted(id, size, reqId, ws[..k], boot), Reaction(id, size, reqId, k, ws[k], boot));
    }
  }

  lemma RequestFetches(id: byte, size: nat, k: nat)
    ensures Request(id, size, k).FetchFirmware?
  {
  }

  /**
   All that the host is told in the course of a download: one failure for every failed write, under the low byte of
   the image size, and after a last write that succeeded the outcome, under the request id: validated with the
   version if and only if the boot loader gives one, failed otherwise.
   */
  lemma HostIsTold(image: seq<byte>, id: byte, reqId: int, ws: seq<Write>, boot: Boot)
    requires |image| < SIZE_RANGE && |ws| == Count(|image|)
    ensures var told := Reported(Rounds(Begin(reqId, id, |image|), image, ws, boot).sent);
            var failed := FailureReports(|image|, Failures(ws));
            && (ws[|ws| - 1].Broken? ==> told == failed)
            && (ws[|ws| - 1].Written? ==> forall major, minor ::
                  told == failed + [LoadedFw(reqId % 256, Validated, major, minor)] <==> boot == Bootable(major, minor))
            && (ws[|ws| - 1].Written? ==>
                  (told == failed + [LoadedFw(reqId % 256, Failed, 0, 0)] <==> !boot.Bootable?))
  {
    RoundsOnCourse(image, id, reqId, ws, boot);
    EmittedReports(id, |image|, reqId, ws, boot);
    var failed, last := FailureReports(|image|, Failures(ws)), Outcome(reqId, boot);
    hide Rounds, Begin, Emitted, Kept, Count, Failures, FailureReports, Outcome, Reported;
    assert failed + [] == failed;
    if boot.Bootable? {
      assert last == LoadedFw(reqId % 256, Validated, boot.major, boot.minor);
    }
    forall o: Out
      ensures failed + [last] == failed + [o] <==> last == o
    {
      assert (failed + [last])[|failed|] == last && (failed + [o])[|failed|] == o;
    }
  }
}
