/**
 What the two bus transfer handlers promise: outgoing data dealt out to the writes in order, reads gathered in
 order.
 */
module Scatter {
  import opened Bytes

  /** The part of a transfer descriptor that decides which bytes go where. */
  datatype Dir = Dir(rx: bool, tx: bool, size: nat)

  /** One completed bus operation: the bytes sent and the bytes received. */
  datatype Done = Done(sent: seq<byte>, got: seq<byte>)

  function ReadTotal(ds: seq<Dir>): nat
    decreases ds
  {
    if ds == [] then 0
    else ReadTotal(ds[..|ds| - 1]) + if ds[|ds| - 1].rx then ds[|ds| - 1].size else 0
  }

  function WriteTotal(ds: seq<Dir>): nat
    decreases ds
  {
    if ds == [] then 0
    else WriteTotal(ds[..|ds| - 1]) + if ds[|ds| - 1].tx then ds[|ds| - 1].size else 0
  }

  /** The slice of the outgoing data that belongs to operation i. */
  function Slice(ds: seq<Dir>, data: seq<byte>, i: nat): seq<byte>
    requires i < |ds| && WriteTotal(ds[..i + 1]) <= |data|
  {
    WriteGrows(ds, i);
    if ds[i].tx then data[WriteTotal(ds[..i])..WriteTotal(ds[..i + 1])] else []
  }

  /** Operation i did what its descriptor asks. */
  ghost predicate Right(ds: seq<Dir>, data: seq<byte>, i: nat, x: Done)
    requires i < |ds|
  {
    && WriteTotal(ds[..i + 1]) <= |data|
    && x.sent == Slice(ds, data, i)
    && |x.got| == if ds[i].rx then ds[i].size else 0
  }

  /** The first |xs| operations, in order, each with its own slice. */
  ghost predicate Dealt(ds: seq<Dir>, data: seq<byte>, xs: seq<Done>) {
    |xs| <= |ds| && forall i :: 0 <= i < |xs| ==> Right(ds, data, i, xs[i])
  }

  /** All bytes received, in order. */
  function Gathered(xs: seq<Done>): seq<byte>
    decreases xs
  {
    if xs == [] then [] else Gathered(xs[..|xs| - 1]) + xs[|xs| - 1].got
  }

  /** All bytes sent, in order. */
  function Sent(xs: seq<Done>): seq<byte>
    decreases xs
  {
    if xs == [] then [] else Sent(xs[..|xs| - 1]) + xs[|xs| - 1].sent
  }

  lemma WriteGrows(ds: seq<Dir>, i: nat)
    requires i < |ds|
    ensures WriteTotal(ds[..i + 1]) == WriteTotal(ds[..i]) + if ds[i].tx then ds[i].size else 0
    ensures ReadTotal(ds[..i + 1]) == ReadTotal(ds[..i]) + if ds[i].rx then ds[i].size else 0
  {
    assert ds[..i + 1][..i] == ds[..i];
  }

  lemma DropSlice(s: seq<byte>, base: nat, at: nat, n: nat)
    requires base <= at && at + n <= |s|
    ensures s[base..][at - base..at - base + n] == s[at..at + n]
  {
    var u, v := s[base..][at - base..at - base + n], s[at..at + n];
    forall k | 0 <= k < |u|
      ensures u[k] == v[k]
    {
    }
    assert u == v;
  }

  lemma SplitAt(s: seq<byte>, a: nat, b: nat)
    requires a <= b <= |s|
    ensures s[..b] == s[..a] + s[a..b]
  {
  }

  lemma GatheredNext(xs: seq<Done>, x: Done)
    ensures Gathered(xs + [x]) == Gathered(xs) + x.got
  {
    assert (xs + [x])[..|xs|] == xs;
  }

  /**
   The slices are the outgoing data: no gap, no overlap, no byte twice; and what was received is exactly as
   long as the reads announced.
   */
  lemma {:induction false} DealtCovers(ds: seq<Dir>, data: seq<byte>, xs: seq<Done>)
    requires Dealt(ds, data, xs)
    ensures WriteTotal(ds[..|xs|]) <= |data| && Sent(xs) == data[..WriteTotal(ds[..|xs|])]
    ensures |Gathered(xs)| == ReadTotal(ds[..|xs|])
    decreases xs
  {
    if xs != [] {
      var k := |xs| - 1;
      assert Right(ds, data, k, xs[k]);
      WriteGrows(ds, k);
      DealtCovers(ds, data, xs[..k]);
      hide WriteTotal, ReadTotal;
      var a, b := WriteTotal(ds[..k]), WriteTotal(ds[..k + 1]);
      assert data[..a] + data[a..b] == data[..b];
      assert a == b ==> data[..a] + [] == data[..b];
    }
  }
}
