/** platform/manifest.c: descriptors written through an advancing cursor, and the walk that reads them back. */
module Manifest {
  import opened Bytes

  /** Sizes are sums and lengths, so this module works on numbers: a byte is one below 256. */
  type u8 = x: int | 0 <= x < 256

  const TYPE_INTERFACE: u8 := 1
  const TYPE_STRING: u8 := 2
  const TYPE_BUNDLE: u8 := 3
  const TYPE_CPORT: u8 := 4

  const VENDOR_STRING_ID: u8 := 1
  const PRODUCT_STRING_ID: u8 := 2

  const HEADER_SIZE := 4
  /** Interface, bundle and cport descriptors: a four-byte header and four bytes of content. */
  const FIXED_SIZE := 8

  datatype Descriptor =
    | Interface(vendorId: u8, productId: u8)
    | Text(id: u8, chars: seq<u8>)
    | Bundle(bundleId: u8, class_: u8)
    | CPort(cportId: nat, bundle: u8, protocol: u8)

  /** The tables the firmware is built with. */
  datatype Config = Config(
    major: u8, minor: u8, vendor: seq<u8>, product: seq<u8>, bundles: seq<u8>, cports: seq<(u8, u8)>)

  function RoundUp4(n: nat): (r: nat)
    ensures n <= r < n + 4 && r % 4 == 0
  {
    (n + 3) / 4 * 4
  }

  /** GREYBUS_MANIFEST_STRING_SIZE, and the fixed size of everything else. */
  function Size(d: Descriptor): (n: nat)
    ensures n >= 6
  {
    if d.Text? then RoundUp4(HEADER_SIZE + 2 + |d.chars|) else FIXED_SIZE
  }

  function NumberLe16(n: nat): (s: seq<u8>)
    ensures |s| == 2
  {
    [n % 256, n / 256 % 256]
  }

  function Zeros(n: nat): (z: seq<u8>)
    ensures |z| == n
  {
    seq(n, i => 0)
  }

  function TypeOf(d: Descriptor): u8 {
    match d
    case Interface(_, _) => TYPE_INTERFACE
    case Text(_, _) => TYPE_STRING
    case Bundle(_, _) => TYPE_BUNDLE
    case CPort(_, _, _) => TYPE_CPORT
  }

  /** The fields behind a descriptor's header, up to its padding. The length of a string is kept in one byte. */
  function Fields(d: Descriptor): seq<u8> {
    match d
    case Interface(v, p) => [v, p]
    case Text(id, chars) => [|chars| % 256, id] + chars
    case Bundle(id, c) => [id, c]
    case CPort(id, b, p) => NumberLe16(id) + [b, p]
  }

  function Encode(d: Descriptor): (s: seq<u8>)
    ensures |s| == Size(d)
  {
    NumberLe16(Size(d)) + [TypeOf(d), 0] + Fields(d) + Zeros(Size(d) - HEADER_SIZE - |Fields(d)|)
  }

  function EncodeAll(ds: seq<Descriptor>): seq<u8>
    decreases ds
  {
    if ds == [] then [] else EncodeAll(ds[..|ds| - 1]) + Encode(ds[|ds| - 1])
  }

  function Bundles(c: Config, n: nat): (ds: seq<Descriptor>)
    requires n <= |c.bundles|
    ensures |ds| == n
  {
    seq(n, i requires 0 <= i < n => Bundle(i % 256, c.bundles[i]))
  }

  function CPorts(c: Config, n: nat): (ds: seq<Descriptor>)
    requires n <= |c.cports|
    ensures |ds| == n
  {
    seq(n, i requires 0 <= i < n => CPort(i % 256, c.cports[i].0, c.cports[i].1))
  }

  /** Everything the manifest describes, in order. */
  function Descriptors(c: Config): seq<Descriptor> {
    [Interface(VENDOR_STRING_ID, PRODUCT_STRING_ID),
     Text(VENDOR_STRING_ID, c.vendor), Text(PRODUCT_STRING_ID, c.product)]
    + Bundles(c, |c.bundles|) + CPorts(c, |c.cports|)
  }

  /** GREYBUS_MANIFEST_SIZE. */
  function ManifestSize(c: Config): nat {
    HEADER_SIZE + FIXED_SIZE
    + RoundUp4(HEADER_SIZE + 2 + |c.vendor|) + RoundUp4(HEADER_SIZE + 2 + |c.product|)
    + FIXED_SIZE * |c.cports| + FIXED_SIZE * |c.bundles|
  }

  function ManifestHeader(c: Config): (s: seq<u8>)
    ensures |s| == HEADER_SIZE
  {
    NumberLe16(ManifestSize(c)) + [c.major, c.minor]
  }

  function Manifest(c: Config): seq<u8> {
    ManifestHeader(c) + EncodeAll(Descriptors(c))
  }

  // ----- Sizes -----

  lemma EncodeSnoc(ds: seq<Descriptor>, d: Descriptor)
    ensures EncodeAll(ds + [d]) == EncodeAll(ds) + Encode(d)
  {
    hide Encode;
    assert (ds + [d])[..|ds|] == ds;
  }

  lemma {:induction false} EncodeAppend(a: seq<Descriptor>, b: seq<Descriptor>)
    ensures EncodeAll(a + b) == EncodeAll(a) + EncodeAll(b)
    decreases b
  {
    hide Encode;
    if b == [] {
      assert a + b == a;
    } else {
      var k := |b| - 1;
      assert a + b == a + b[..k] + [b[k]];
      assert b == b[..k] + [b[k]];
      EncodeSnoc(a + b[..k], b[k]);
      EncodeSnoc(b[..k], b[k]);
      EncodeAppend(a, b[..k]);
      hide *;
      assert EncodeAll(a) + EncodeAll(b[..k]) + Encode(b[k]) == EncodeAll(a) + (EncodeAll(b[..k]) + Encode(b[k]));
    }
  }

  lemma {:induction false} FixedSizes(ds: seq<Descriptor>)
    requires forall d <- ds :: !d.Text?
    ensures |EncodeAll(ds)| == FIXED_SIZE * |ds|
    decreases ds
  {
    hide Encode;
    if ds != [] {
      FixedSizes(ds[..|ds| - 1]);
      assert !ds[|ds| - 1].Text?;
    }
  }

  function Front(c: Config): seq<Descriptor> {
    [Interface(VENDOR_STRING_ID, PRODUCT_STRING_ID),
     Text(VENDOR_STRING_ID, c.vendor), Text(PRODUCT_STRING_ID, c.product)]
  }

  lemma FrontSize(c: Config)
    ensures |EncodeAll(Front(c))|
         == FIXED_SIZE + RoundUp4(HEADER_SIZE + 2 + |c.vendor|) + RoundUp4(HEADER_SIZE + 2 + |c.product|)
  {
    var a, b, d := Interface(VENDOR_STRING_ID, PRODUCT_STRING_ID), Text(VENDOR_STRING_ID, c.vendor),
      Text(PRODUCT_STRING_ID, c.product);
    hide Encode, EncodeAll, RoundUp4;
    LengthSnoc([], a);
    LengthSnoc([a], b);
    LengthSnoc([a, b], d);
    assert [] + [a] == [a] && [a] + [b] == [a, b] && [a, b] + [d] == [a, b, d];
    assert |EncodeAll([])| == 0 by { EncodeNone(); }
  }

  lemma EncodeNone()
    ensures EncodeAll([]) == []
  {
  }

  lemma LengthSnoc(ds: seq<Descriptor>, d: Descriptor)
    ensures |EncodeAll(ds + [d])| == |EncodeAll(ds)| + Size(d)
  {
    EncodeSnoc(ds, d);
    hide EncodeAll, RoundUp4, Fields;
  }

  /** The size macro is the length of what is written. */
  lemma SizeAgrees(c: Config)
    ensures |Manifest(c)| == ManifestSize(c)
  {
    assert Descriptors(c) == Front(c) + Bundles(c, |c.bundles|) + CPorts(c, |c.cports|);
    assert |Manifest(c)| == HEADER_SIZE + |EncodeAll(Descriptors(c))|;
    hide EncodeAll, RoundUp4, Encode, Front, Descriptors, Manifest;
    FrontSize(c);
    EncodeAppend(Front(c), Bundles(c, |c.bundles|));
    EncodeAppend(Front(c) + Bundles(c, |c.bundles|), CPorts(c, |c.cports|));
    FixedSizes(Bundles(c, |c.bundles|));
    FixedSizes(CPorts(c, |c.cports|));
  }

  // ----- The walk -----

  /** How a walk ends: at or past the announced size, at an unknown type, outside the buffer, or never. */
  datatype End = Stopped(offset: nat) | UnknownType(offset: nat) | Outside | NeverEnds

  function U16(s: seq<u8>, at: nat): nat
    requires at + 2 <= |s|
  {
    var lo: int, hi: int := s[at], s[at + 1];
    lo + 256 * hi
  }

  /** What the print loop makes of the descriptor at an offset, when all of it is inside the buffer. */
  function ReadAt(s: seq<u8>, at: nat): (d: Descriptor)
    requires at + HEADER_SIZE + 4 <= |s| && TYPE_INTERFACE <= s[at + 2] <= TYPE_CPORT
    requires s[at + 2] == TYPE_STRING ==> at + HEADER_SIZE + 2 + s[at + 4] <= |s|
  {
    if s[at + 2] == TYPE_INTERFACE then Interface(s[at + 4], s[at + 5])
    else if s[at + 2] == TYPE_STRING then Text(s[at + 5], s[at + 6..at + 6 + s[at + 4]])
    else if s[at + 2] == TYPE_BUNDLE then Bundle(s[at + 4], s[at + 5])
    else CPort(U16(s, at + 4), s[at + 6], s[at + 7])
  }

  predicate Readable(s: seq<u8>, at: nat) {
    && at + HEADER_SIZE + 4 <= |s|
    && (s[at + 2] == TYPE_STRING ==> at + HEADER_SIZE + 2 + s[at + 4] <= |s|)
  }

  predicate KnownType(t: u8) {
    TYPE_INTERFACE <= t <= TYPE_CPORT
  }

  function Walk(s: seq<u8>, at: nat, limit: nat): (seq<Descriptor>, End)
    decreases limit - at
  {
    if at >= limit then ([], Stopped(at))
    else if !Readable(s, at) then ([], Outside)
    else if !KnownType(s[at + 2]) then ([], UnknownType(at))
    else if U16(s, at) == 0 then ([ReadAt(s, at)], NeverEnds)
    else
      var (ds, end) := Walk(s, at + U16(s, at), limit);
      ([ReadAt(s, at)] + ds, end)
  }

  /** What the fields of the descriptor formats can hold. */
  predicate Representable(d: Descriptor) {
    && (d.Text? ==> |d.chars| < 256)
    && (d.CPort? ==> d.cportId < 0x10000)
  }

  lemma U16OfNumberLe16(s: seq<u8>, at: nat, n: nat)
    requires at + 2 <= |s| && s[at..at + 2] == NumberLe16(n) && n < 0x10000
    ensures U16(s, at) == n
  {
    assert s[at] == s[at..at + 2][0] && s[at + 1] == s[at..at + 2][1];
  }

  lemma Head4(s: seq<u8>, at: nat, d: Descriptor)
    requires at + Size(d) <= |s| && s[at..at + Size(d)] == Encode(d)
    ensures s[at..at + 2] == NumberLe16(Size(d)) && s[at + 2] == TypeOf(d)
    ensures s[at + HEADER_SIZE..at + HEADER_SIZE + |Fields(d)|] == Fields(d)
  {
    SizeFacts(d);
    EncodeParts(d);
    hide NumberLe16, Size, TypeOf, Fields, Zeros, Encode;
    SubSlice(s, at, Size(d), 0, 2);
    SubSlice(s, at, Size(d), HEADER_SIZE, HEADER_SIZE + |Fields(d)|);
    assert s[at..at + Size(d)][2] == s[at + 2];
  }

  lemma EncodeParts(d: Descriptor)
    ensures var e := Encode(d);
            && |e| == Size(d) >= 8 && e[..2] == NumberLe16(Size(d)) && e[2] == TypeOf(d)
            && HEADER_SIZE + |Fields(d)| <= |e| && e[HEADER_SIZE..HEADER_SIZE + |Fields(d)|] == Fields(d)
  {
    SizeFacts(d);
    var a, b, c := NumberLe16(Size(d)), [TypeOf(d), 0], Zeros(Size(d) - HEADER_SIZE - |Fields(d)|);
    assert Encode(d) == a + b + Fields(d) + c && |a| == 2 && b[0] == TypeOf(d);
    hide NumberLe16, Size, TypeOf, Fields, Zeros, Encode;
    FourParts(a, b, Fields(d), c);
  }

  lemma FourParts(a: seq<u8>, b: seq<u8>, f: seq<u8>, c: seq<u8>)
    requires |a| == |b| == 2
    ensures var e := a + b + f + c;
            e[..2] == a && e[2] == b[0] && e[4..4 + |f|] == f
  {
  }

  lemma SubSlice(s: seq<u8>, at: nat, n: nat, i: nat, j: nat)
    requires at + n <= |s| && i <= j <= n
    ensures s[at..at + n][i..j] == s[at + i..at + j]
  {
    var u, v := s[at..at + n][i..j], s[at + i..at + j];
    forall k | 0 <= k < |u|
      ensures u[k] == v[k]
    {
    }
    assert u == v;
  }

  lemma SizeFacts(d: Descriptor)
    ensures |NumberLe16(Size(d))| == 2 && Size(d) >= 8 && |Fields(d)| + HEADER_SIZE <= Size(d)
    ensures Representable(d) ==> Size(d) < 0x10000
    ensures d.Text? ==> |Fields(d)| == 2 + |d.chars|
    ensures d.CPort? ==> |Fields(d)| == 4
    ensures d.Interface? || d.Bundle? ==> |Fields(d)| == 2
  {
    match d
    case Text(id, chars) =>
      var r := RoundUp4(HEADER_SIZE + 2 + |chars|);
      assert r >= 6 && r % 4 == 0;
      hide RoundUp4;
    case _ =>
  }

  /** Reading where a descriptor was written gives the descriptor, when its fields can hold it. */
  lemma ReadBack(s: seq<u8>, at: nat, d: Descriptor)
    requires Representable(d) && at + Size(d) <= |s| && s[at..at + Size(d)] == Encode(d)
    ensures Readable(s, at) && KnownType(s[at + 2]) && U16(s, at) == Size(d) && ReadAt(s, at) == d
  {
    Head4(s, at, d);
    SizeFacts(d);
    U16OfNumberLe16(s, at, Size(d));
    var f := s[at + HEADER_SIZE..at + HEADER_SIZE + |Fields(d)|];
    assert s[at + 4] == f[0] && s[at + 5] == f[1];
    hide Encode, Size, Zeros, U16;
    match d
    case Interface(v, p) =>
    case Text(id, chars) =>
      assert s[at + 6..at + 6 + |chars|] == f[2..];
    case Bundle(id, c) =>
    case CPort(id, b, p) =>
      assert s[at + 6] == f[2] && s[at + 7] == f[3];
      assert s[at + 4..at + 6] == f[..2];
      U16OfNumberLe16(s, at + 4, id);
  }

  lemma WalkStep(s: seq<u8>, at: nat, limit: nat, d: Descriptor)
    requires Representable(d) && at < limit && at + Size(d) <= |s| && s[at..at + Size(d)] == Encode(d)
    ensures var (ds, end) := Walk(s, at + Size(d), limit);
            Walk(s, at, limit) == ([d] + ds, end)
  {
    ReadBack(s, at, d);
    SizeFacts(d);
    hide Encode, Size, Representable, ReadAt, Readable, KnownType, U16;
  }

  lemma SplitSlice(s: seq<u8>, at: nat, end: nat, e: seq<u8>, t: seq<u8>)
    requires at <= end <= |s| && s[at..end] == e + t
    ensures at + |e| + |t| == end
    ensures s[at..at + |e|] == e && s[at + |e|..end] == t
  {
    var u := s[at..end];
    assert u[..|e|] == e && u[|e|..] == t;
    SubSlice(s, at, end - at, 0, |e|);
    SubSlice(s, at, end - at, |e|, end - at);
  }

  lemma EncodeCons(d: Descriptor, tail: seq<Descriptor>)
    ensures EncodeAll([d] + tail) == Encode(d) + EncodeAll(tail) && |Encode(d)| == Size(d) >= 6
  {
    EncodeAppend([d], tail);
    EncodeSnoc([], d);
    EncodeNone();
    assert [] + [d] == [d];
    assert |Encode(d)| == Size(d);
    hide EncodeAll, Encode, Size;
    assert [] + Encode(d) == Encode(d);
  }

  /** The walk over written descriptors meets exactly them and stops exactly at their end. */
  lemma {:induction false} WalkMeets(s: seq<u8>, at: nat, end: nat, ds: seq<Descriptor>)
    requires forall i :: 0 <= i < |ds| ==> Representable(ds[i])
    requires at <= end <= |s| && s[at..end] == EncodeAll(ds)
    ensures Walk(s, at, end) == (ds, Stopped(end))
    decreases ds
  {
    if ds == [] {
      EncodeNone();
      assert at == end;
    } else {
      hide *;
      var d, tail := ds[0], ds[1..];
      assert ds == [d] + tail;
      EncodeCons(d, tail);
      SplitSlice(s, at, end, Encode(d), EncodeAll(tail));
      WalkStep(s, at, end, d);
      WalkMeets(s, at + Size(d), end, tail);
    }
  }

  lemma DescriptorsRepresentable(c: Config)
    requires |c.vendor| < 256 && |c.product| < 256
    ensures forall i :: 0 <= i < |Descriptors(c)| ==> Representable(Descriptors(c)[i])
  {
  }

  /**
   Manifest round trip: for strings under 256 bytes and a total under 65536, walking any buffer that starts with
   the manifest meets the interface, the two strings, the bundles and the cports, and stops at the announced size.
   */
  lemma ManifestRoundTrip(c: Config, rest: seq<u8>)
    requires |c.vendor| < 256 && |c.product| < 256 && ManifestSize(c) < 0x10000
    ensures var s := Manifest(c) + rest;
            && |s| >= 2 && U16(s, 0) == ManifestSize(c)
            && Walk(s, HEADER_SIZE, U16(s, 0)) == (Descriptors(c), Stopped(ManifestSize(c)))
  {
    DescriptorsRepresentable(c);
    SizeAgrees(c);
    var h, body := ManifestHeader(c), EncodeAll(Descriptors(c));
    var n := ManifestSize(c);
    var s := Manifest(c) + rest;
    assert Manifest(c) == h + body;
    assert h[0..2] == NumberLe16(n) && |h| == HEADER_SIZE;
    hide *;
    Placement(h, body, rest);
    assert HEADER_SIZE == 4 by { FourBytes(); }
    U16OfNumberLe16(s, 0, n);
    WalkMeets(s, HEADER_SIZE, n, Descriptors(c));
  }

  lemma FourBytes()
    ensures HEADER_SIZE == 4
  {
  }

  lemma Placement(h: seq<u8>, body: seq<u8>, rest: seq<u8>)
    requires |h| >= 2
    ensures var s := h + body + rest;
            s[0..2] == h[0..2] && s[|h|..|h| + |body|] == body
  {
  }

  /** What is met, in order: the interface, vendor and product string, the bundles by id, the cports by id. */
  lemma DescriptorsAt(c: Config)
    ensures |Descriptors(c)| == 3 + |c.bundles| + |c.cports|
    ensures Descriptors(c)[..3] == Front(c)
    ensures Descriptors(c)[..3] == [Interface(1, 2), Text(1, c.vendor), Text(2, c.product)]
    ensures forall i :: 0 <= i < |c.bundles| ==> Descriptors(c)[3 + i] == Bundle(i % 256, c.bundles[i])
    ensures forall i :: 0 <= i < |c.cports| ==>
              Descriptors(c)[3 + |c.bundles| + i] == CPort(i % 256, c.cports[i].0, c.cports[i].1)
  {
  }

  /** A string comes back whole exactly when its length fits one byte; the descriptor is otherwise well placed. */
  lemma TextSurvivesIff(id: u8, chars: seq<u8>, rest: seq<u8>)
    requires |chars| < 0xff00
    ensures var s := Encode(Text(id, chars)) + rest;
            && Readable(s, 0) && KnownType(s[2]) && U16(s, 0) == Size(Text(id, chars))
            && (ReadAt(s, 0) == Text(id, chars) <==> |chars| < 256)
  {
    var d := Text(id, chars);
    var s := Encode(d) + rest;
    SizeFacts(d);
    TextHead(s, id, chars);
    if |chars| < 256 {
      assert s[0..0 + Size(d)] == Encode(d);
      hide Encode, Size, ReadAt, Readable, KnownType;
      ReadBack(s, 0, d);
    } else {
      hide Encode, Size, U16;
      assert |ReadAt(s, 0).chars| == |chars| % 256;
    }
  }

  lemma TextHead(s: seq<u8>, id: u8, chars: seq<u8>)
    requires |chars| < 0xff00 && var n := Size(Text(id, chars)); n <= |s| && s[..n] == Encode(Text(id, chars))
    ensures U16(s, 0) == Size(Text(id, chars)) && s[2] == TYPE_STRING && s[4] == |chars| % 256
    ensures |s| >= 8 && 6 + |chars| <= |s|
  {
    var d := Text(id, chars);
    SizeFacts(d);
    EncodeParts(d);
    assert Fields(d)[0] == |chars| % 256;
    hide Encode, Size, Zeros, U16, Fields, TypeOf;
    var e := s[..Size(d)];
    assert s[0..2] == e[..2] && s[2] == e[2] && s[4] == e[4] == e[HEADER_SIZE..HEADER_SIZE + |Fields(d)|][0];
    U16OfNumberLe16(s, 0, Size(d));
    assert TypeOf(d) == TYPE_STRING by { TextType(d); }
  }

  lemma TextType(d: Descriptor)
    requires d.Text?
    ensures TypeOf(d) == TYPE_STRING
  {
  }

  // ----- The writer -----

  /** A buffer after `bytes` were placed at an offset. */
  predicate Placed(was: seq<u8>, at: nat, bytes: seq<u8>, now: seq<u8>) {
    && |now| == |was| && at + |bytes| <= |was|
    && now[..at] == was[..at] && now[at..at + |bytes|] == bytes && now[at + |bytes|..] == was[at + |bytes|..]
  }

  predicate Blank(s: seq<u8>, at: nat, n: nat) {
    at + n <= |s| && forall i :: at <= i < at + n ==> s[i] == 0
  }

  /** set_greybus_descriptor_header. */
  method SetDescriptorHeader(buf: array<u8>, at: nat, size: nat, kind: u8)
    requires at + HEADER_SIZE <= buf.Length && buf[at + 3] == 0
    modifies buf
    ensures Placed(old(buf[..]), at, NumberLe16(size) + [kind, 0], buf[..])
  {
    buf[at + 2] := kind;
    buf[at], buf[at + 1] := size % 256, size / 256 % 256;
    assert buf[..][at..at + 4] == NumberLe16(size) + [kind, 0];
  }

  lemma Assemble(was: seq<u8>, now: seq<u8>, at: nat, d: Descriptor)
    requires Blank(was, at, Size(d)) && |now| == |was|
    requires now[..at] == was[..at] && now[at + Size(d)..] == was[at + Size(d)..]
    requires now[at..at + HEADER_SIZE] == NumberLe16(Size(d)) + [TypeOf(d), 0]
    requires HEADER_SIZE + |Fields(d)| <= Size(d)
    requires now[at + HEADER_SIZE..at + HEADER_SIZE + |Fields(d)|] == Fields(d)
    requires forall i :: at + HEADER_SIZE + |Fields(d)| <= i < at + Size(d) ==> now[i] == 0
    ensures Placed(was, at, Encode(d), now)
  {
    hide Size, Fields, TypeOf, NumberLe16;
    var padAt := at + HEADER_SIZE + |Fields(d)|;
    assert now[padAt..at + Size(d)] == Zeros(Size(d) - HEADER_SIZE - |Fields(d)|);
    Stitch(now, at, at + HEADER_SIZE, padAt, at + Size(d));
  }

  lemma Stitch(s: seq<u8>, a: nat, b: nat, c: nat, d: nat)
    requires a <= b <= c <= d <= |s|
    ensures s[a..d] == s[a..b] + s[b..c] + s[c..d]
  {
  }

  /**
   set_greybus_interface, set_greybus_string, set_greybus_bundle and set_greybus_cport: header, then fields; the
   padding is left as the memset made it. Returns how far the cursor moves.
   */
  method SetDescriptor(buf: array<u8>, at: nat, d: Descriptor) returns (size: nat)
    requires Blank(buf[..], at, Size(d))
    modifies buf
    ensures size == Size(d) && Placed(old(buf[..]), at, Encode(d), buf[..])
  {
    size := Size(d);
    SizeFacts(d);
    hide Size, Fields, TypeOf, NumberLe16, Encode;
    ghost var was := buf[..];
    assert buf[at + 3] == was[at + 3] == 0;
    SetDescriptorHeader(buf, at, size, TypeOf(d));
    ghost var mid := buf[..];
    var fields := Fields(d);
    forall i | 0 <= i < |fields| {
      buf[at + HEADER_SIZE + i] := fields[i];
    }
    assert buf[..][at..at + HEADER_SIZE] == mid[at..at + HEADER_SIZE];
    assert buf[..][..at] == mid[..at];
    assert forall i :: at + HEADER_SIZE <= i < |was| ==> mid[i] == was[i] by {
      assert mid[at + HEADER_SIZE..] == was[at + HEADER_SIZE..];
      SuffixEqual(mid, was, at + HEADER_SIZE);
    }
    assert buf[..][at + size..] == was[at + size..];
    Assemble(was, buf[..], at, d);
  }

  lemma SuffixEqual(a: seq<u8>, b: seq<u8>, k: nat)
    requires |a| == |b| && k <= |a| && a[k..] == b[k..]
    ensures forall i :: k <= i < |a| ==> a[i] == b[i]
  {
    forall i | k <= i < |a|
      ensures a[i] == b[i]
    {
      assert a[i] == a[k..][i - k] && b[i] == b[k..][i - k];
    }
  }

  /** The header and some descriptors written, the cursor behind them, and nothing but zeros from there on. */
  ghost predicate Written(s: seq<u8>, header: seq<u8>, ds: seq<Descriptor>, at: nat) {
    && at == |header| + |EncodeAll(ds)| <= |s|
    && s[..at] == header + EncodeAll(ds)
    && forall i :: at <= i < |s| ==> s[i] == 0
  }

  lemma WrittenNext(was: seq<u8>, now: seq<u8>, header: seq<u8>, ds: seq<Descriptor>, at: nat, d: Descriptor)
    requires Written(was, header, ds, at) && Placed(was, at, Encode(d), now)
    ensures Written(now, header, ds + [d], at + Size(d))
  {
    EncodeSnoc(ds, d);
    assert |Encode(d)| == Size(d);
    hide EncodeAll, Encode, Size;
    var n := at + Size(d);
    SuffixEqual(now, was, n);
    Stitch(now, 0, at, at, n);
    ConcatAssoc(header, EncodeAll(ds), Encode(d));
    assert now[0..at] == now[..at] && now[0..n] == now[..n] && now[at..at] == [];
    assert now[..at] + [] == now[..at];
  }

  /** One descriptor at the cursor. */
  method Append(buf: array<u8>, at: nat, d: Descriptor, ghost header: seq<u8>, ghost ds: seq<Descriptor>)
    returns (next: nat)
    requires Written(buf[..], header, ds, at) && at + Size(d) <= buf.Length
    modifies buf
    ensures next == at + Size(d) && Written(buf[..], header, ds + [d], next)
  {
    hide EncodeAll, Encode, Size;
    ghost var was := buf[..];
    var size := SetDescriptor(buf, at, d);
    WrittenNext(was, buf[..], header, ds, at, d);
    next := at + size;
  }

  lemma {:induction false} PrefixLength(ds: seq<Descriptor>, n: nat)
    requires n < |ds|
    ensures |EncodeAll(ds[..n])| + Size(ds[n]) <= |EncodeAll(ds)|
    decreases |ds|
  {
    hide *;
    var k := |ds| - 1;
    assert ds == ds[..k] + [ds[k]];
    LengthSnoc(ds[..k], ds[k]);
    if n < k {
      assert ds[..k][..n] == ds[..n];
      PrefixLength(ds[..k], n);
    }
  }

  /** The interface and the two strings. */
  method AppendFront(buf: array<u8>, at: nat, c: Config, ghost header: seq<u8>) returns (next: nat)
    requires Written(buf[..], header, [], at)
    requires |header| + |EncodeAll(Descriptors(c))| <= buf.Length
    modifies buf
    ensures 3 <= |Descriptors(c)| && Written(buf[..], header, Descriptors(c)[..3], next)
  {
    DescriptorsAt(c);
    FrontIs(c);
    hide Encode, EncodeAll, Size, Descriptors, Written, Front;
    ghost var all := Descriptors(c);
    WrittenLength(buf[..], header, [], at);
    assert all[..0] == [];
    NextFits(all, 0);
    next := Append(buf, at, Interface(VENDOR_STRING_ID, PRODUCT_STRING_ID), header, all[..0]);
    WrittenLength(buf[..], header, all[..1], next);
    NextFits(all, 1);
    next := Append(buf, next, Text(VENDOR_STRING_ID, c.vendor), header, all[..1]);
    WrittenLength(buf[..], header, all[..2], next);
    NextFits(all, 2);
    next := Append(buf, next, Text(PRODUCT_STRING_ID, c.product), header, all[..2]);
  }

  lemma FrontIs(c: Config)
    ensures |Descriptors(c)| >= 3
    ensures Descriptors(c)[0] == Interface(VENDOR_STRING_ID, PRODUCT_STRING_ID)
    ensures Descriptors(c)[1] == Text(VENDOR_STRING_ID, c.vendor)
    ensures Descriptors(c)[2] == Text(PRODUCT_STRING_ID, c.product)
  {
  }

  lemma WrittenLength(s: seq<u8>, header: seq<u8>, ds: seq<Descriptor>, at: nat)
    requires Written(s, header, ds, at)
    ensures at == |header| + |EncodeAll(ds)|
  {
  }

  /** The loop over the bundle table. */
  method AppendBundles(buf: array<u8>, at: nat, c: Config, ghost header: seq<u8>) returns (next: nat)
    requires Written(buf[..], header, Descriptors(c)[..3], at)
    requires |header| + |EncodeAll(Descriptors(c))| <= buf.Length
    modifies buf
    ensures 3 + |c.bundles| <= |Descriptors(c)| && Written(buf[..], header, Descriptors(c)[..3 + |c.bundles|], next)
  {
    DescriptorsAt(c);
    hide Encode, EncodeAll, Size, Descriptors;
    ghost var all := Descriptors(c);
    next := at;
    for i := 0 to |c.bundles|
      invariant Written(buf[..], header, all[..3 + i], next)
    {
      NextFits(all, 3 + i);
      next := Append(buf, next, Bundle(i % 256, c.bundles[i]), header, all[..3 + i]);
    }
  }

  /** The loop over the cport table. */
  method AppendCPorts(buf: array<u8>, at: nat, c: Config, ghost header: seq<u8>) returns (next: nat)
    requires 3 + |c.bundles| <= |Descriptors(c)| && Written(buf[..], header, Descriptors(c)[..3 + |c.bundles|], at)
    requires |header| + |EncodeAll(Descriptors(c))| <= buf.Length
    modifies buf
    ensures Written(buf[..], header, Descriptors(c), next)
  {
    DescriptorsAt(c);
    hide Encode, EncodeAll, Size, Descriptors;
    ghost var all := Descriptors(c);
    ghost var b := 3 + |c.bundles|;
    next := at;
    for i := 0 to |c.cports|
      invariant Written(buf[..], header, all[..b + i], next)
    {
      NextFits(all, b + i);
      next := Append(buf, next, CPort(i % 256, c.cports[i].0, c.cports[i].1), header, all[..b + i]);
    }
    assert all[..|all|] == all;
  }

  /** memset, then set_greybus_manifest_header. */
  method ClearAndHeader(buf: array<u8>, c: Config)
    requires buf.Length >= HEADER_SIZE
    modifies buf
    ensures buf[..HEADER_SIZE] == ManifestHeader(c)
    ensures forall i :: HEADER_SIZE <= i < buf.Length ==> buf[i] == 0
  {
    hide ManifestSize;
    var n := ManifestSize(c);
    forall i | 0 <= i < buf.Length {
      buf[i] := 0;
    }
    buf[0], buf[1], buf[2], buf[3] := n % 256, n / 256 % 256, c.major, c.minor;
  }

  /** manifest_create. */
  method ManifestCreate(buf: array<u8>, c: Config) returns (ret: int)
    modifies buf
    ensures buf.Length < ManifestSize(c) ==> ret < 0 && buf[..] == old(buf[..])
    ensures buf.Length >= ManifestSize(c) ==>
              && ret == ManifestSize(c)
              && buf[..] == Manifest(c) + Zeros(buf.Length - ManifestSize(c))
  {
    var n := ManifestSize(c);
    SizeAgrees(c);
    if buf.Length < n {
      return -7;
    }
    ghost var all := Descriptors(c);
    ghost var header := ManifestHeader(c);
    assert n == HEADER_SIZE + |EncodeAll(all)| && Manifest(c) == header + EncodeAll(all);
    DescriptorsAt(c);
    hide Encode, EncodeAll, Size, ManifestSize, ManifestHeader, Descriptors, Manifest;
    ClearAndHeader(buf, c);
    var at := HEADER_SIZE;
    NothingYet(buf[..], header, [], at);
    at := AppendFront(buf, at, c, header);
    at := AppendBundles(buf, at, c, header);
    at := AppendCPorts(buf, at, c, header);
    Finished(buf[..], header, all, at);
    return n;
  }

  lemma NothingYet(s: seq<u8>, header: seq<u8>, ds: seq<Descriptor>, at: nat)
    requires ds == [] && at == |header| <= |s| && s[..at] == header && forall i :: at <= i < |s| ==> s[i] == 0
    ensures Written(s, header, ds, at)
  {
    EncodeNone();
    hide EncodeAll;
    assert header + [] == header;
  }

  lemma Finished(s: seq<u8>, header: seq<u8>, ds: seq<Descriptor>, at: nat)
    requires Written(s, header, ds, at)
    ensures s == header + EncodeAll(ds) + Zeros(|s| - at)
  {
    hide EncodeAll;
    assert s == s[..at] + s[at..];
    assert s[at..] == Zeros(|s| - at);
  }

  lemma NextFits(all: seq<Descriptor>, k: nat)
    requires k < |all|
    ensures all[..k] + [all[k]] == all[..k + 1]
    ensures |EncodeAll(all[..k])| + Size(all[k]) <= |EncodeAll(all)|
  {
    hide *;
    PrefixLength(all, k);
  }

  /** manifest_print: the version and descriptors it prints, and whether it met the invalid case. */
  method ManifestPrint(buf: seq<u8>) returns (major: u8, minor: u8, printed: seq<Descriptor>, invalid: bool)
    requires |buf| >= HEADER_SIZE
    requires var end := Walk(buf, HEADER_SIZE, U16(buf, 0)).1; end.Stopped? || end.UnknownType?
    ensures major == buf[2] && minor == buf[3]
    ensures printed == Walk(buf, HEADER_SIZE, U16(buf, 0)).0
    ensures invalid == Walk(buf, HEADER_SIZE, U16(buf, 0)).1.UnknownType?
  {
    hide ReadAt, U16;
    major, minor := buf[2], buf[3];
    var limit := U16(buf, 0);
    var at := HEADER_SIZE;
    printed := [];
    while at < limit
      invariant Walk(buf, at, limit).1 == Walk(buf, HEADER_SIZE, limit).1
      invariant printed + Walk(buf, at, limit).0 == Walk(buf, HEADER_SIZE, limit).0
      decreases limit - at
    {
      if !KnownType(buf[at + 2]) {
        return major, minor, printed, true;
      }
      printed := printed + [ReadAt(buf, at)];
      at := at + U16(buf, at);
    }
    return major, minor, printed, false;
  }

  // ----- The bytes -----

  /** A manifest, byte by byte: size, version, then the descriptors from offset 4. */
  lemma ManifestLayout(c: Config)
    ensures var s := Manifest(c);
            && |s| == ManifestSize(c) >= 4 && (s[0] as int) + 256 * (s[1] as int) == |s| % 65536
            && s[2] == c.major && s[3] == c.minor && s[4..] == EncodeAll(Descriptors(c))
    ensures ManifestSize(c) == 4 + 8 + RoundUp4(6 + |c.vendor|) + RoundUp4(6 + |c.product|)
                               + 8 * (|c.bundles| + |c.cports|)
  {
    SizeAgrees(c);
    SizeBytes(ManifestSize(c));
    hide EncodeAll, Descriptors, RoundUp4;
    assert Manifest(c) == ManifestHeader(c) + EncodeAll(Descriptors(c));
  }

  lemma SizeBytes(n: nat)
    ensures (NumberLe16(n)[0] as int) + 256 * (NumberLe16(n)[1] as int) == n % 65536
  {
  }

  /** The fixed descriptors, byte by byte. */
  lemma FixedLayout(a: u8, b: u8, id: nat)
    ensures Encode(Interface(a, b)) == [8, 0, 1, 0, a, b, 0, 0]
    ensures Encode(Bundle(a, b)) == [8, 0, 3, 0, a, b, 0, 0]
    ensures id < 65536 ==> Encode(CPort(id, a, b)) == [8, 0, 4, 0, id % 256, id / 256, a, b]
  {
    assert Zeros(2) == [0, 0] && Zeros(0) == [];
    assert [8, 0, 1, 0] + [a, b] + Zeros(2) == [8, 0, 1, 0, a, b, 0, 0];
    assert [8, 0, 3, 0] + [a, b] + Zeros(2) == [8, 0, 3, 0, a, b, 0, 0];
  }

  /** A string descriptor: its padded size, type 2, the length in one byte, the id, the characters, zeros. */
  lemma TextLayout(id: u8, chars: seq<u8>)
    ensures var e, n := Encode(Text(id, chars)), |chars|;
            && 6 + n <= |e| == RoundUp4(6 + n)
            && (e[0] as int) + 256 * (e[1] as int) == |e| % 65536
            && e[2] == 2 && e[3] == 0 && e[4] == n % 256 && e[5] == id
            && e[6..6 + n] == chars && forall i :: 6 + n <= i < |e| ==> e[i] == 0
  {
    var d, pad := Text(id, chars), RoundUp4(6 + |chars|) - 6 - |chars|;
    SizeBytes(Size(d));
    TextParts(id, chars);
    hide *;
    TextBytes(NumberLe16(Size(d)), [|chars| % 256, id], chars, Zeros(pad));
    AllZero(pad);
  }

  lemma TextParts(id: u8, chars: seq<u8>)
    ensures var d, pad := Text(id, chars), RoundUp4(6 + |chars|) - 6 - |chars|;
            && pad >= 0 && Size(d) == RoundUp4(6 + |chars|)
            && Encode(d) == NumberLe16(Size(d)) + [2, 0] + ([|chars| % 256, id] + chars) + Zeros(pad)
  {
    hide RoundUp4, NumberLe16, Zeros;
  }

  lemma AllZero(n: nat)
    ensures |Zeros(n)| == n && forall i :: 0 <= i < n ==> Zeros(n)[i] == 0
  {
  }

  lemma TextBytes(size: seq<u8>, head: seq<u8>, chars: seq<u8>, pad: seq<u8>)
    requires |size| == |head| == 2
    ensures var e, n := size + [2, 0] + (head + chars) + pad, |chars|;
            && |e| == 6 + n + |pad| && e[0] == size[0] && e[1] == size[1] && e[2] == 2 && e[3] == 0
            && e[4] == head[0] && e[5] == head[1] && e[6..6 + n] == chars
            && forall i :: 6 + n <= i < |e| ==> e[i] == pad[i - 6 - n]
  {
  }
}
