/** Bytes, little-endian 16-bit fields, and the few sequence facts every other module uses. */
module Bytes {

  type byte = bv8

  datatype Option<+T> = None | Some(value: T)

  /** sys_cpu_to_le16 on a little-endian host: low byte first. */
  function Le16(w: bv16): (s: seq<byte>)
    ensures |s| == 2
  {
    [(w & 0xff) as byte, (w >> 8) as byte]
  }

  /** sys_le16_to_cpu on the two bytes as they lie in memory. */
  function FromLe16(lo: byte, hi: byte): bv16 {
    (hi as bv16 << 8) | (lo as bv16)
  }

  lemma Le16RoundTrip(w: bv16)
    ensures FromLe16(Le16(w)[0], Le16(w)[1]) == w
  {
  }

  lemma FromLe16RoundTrip(lo: byte, hi: byte)
    ensures Le16(FromLe16(lo, hi)) == [lo, hi]
  {
  }

  /** The bytes of several chunks, in order. */
  function Flatten<T>(chunks: seq<seq<T>>): seq<T> {
    if chunks == [] then [] else chunks[0] + Flatten(chunks[1..])
  }

  lemma FlattenCons<T>(a: seq<seq<T>>)
    requires a != []
    ensures Flatten(a) == a[0] + Flatten(a[1..])
  {
  }

  lemma ConcatAssoc<T>(a: seq<T>, b: seq<T>, c: seq<T>)
    ensures a + (b + c) == a + b + c
  {
  }
}
