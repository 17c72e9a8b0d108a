/** The 16-bit frame check sequence of RFC 1662, Appendix C.2 (reflected polynomial 0x8408). */
module Crc16 {
  import opened Bytes

  const SEED: bv16 := 0xffff
  const GOOD: bv16 := 0xf0b8

  /** One bit of division: shift out the low bit, subtract the polynomial when it was set. */
  function Shift1(c: bv16): bv16 {
    if c & 1 == 1 then (c >> 1) ^ 0x8408 else c >> 1
  }

  function Shift(c: bv16, n: nat): bv16
    decreases n
  {
    if n == 0 then c else Shift(Shift1(c), n - 1)
  }

  /** Addition of polynomials over the two-element field. */
  function Plus(c: bv16, d: bv16): bv16 {
    c ^ d
  }

  /** crc16_ccitt on one byte. */
  function Step(c: bv16, b: byte): bv16 {
    Shift(Plus(c, b as bv16), 8)
  }

  /** crc16_ccitt on a byte string. */
  function Crc(c: bv16, s: seq<byte>): bv16
    decreases s
  {
    if s == [] then c else Crc(Step(c, s[0]), s[1..])
  }

  lemma {:induction false} CrcAppend(c: bv16, s: seq<byte>, t: seq<byte>)
    ensures Crc(c, s + t) == Crc(Crc(c, s), t)
    decreases s
  {
    hide Step;
    if s == [] {
      assert s + t == t;
    } else {
      CrcAppend(Step(c, s[0]), s[1..], t);
      assert (s + t)[1..] == s[1..] + t;
    }
  }

  lemma CrcSnoc(c: bv16, s: seq<byte>, b: byte)
    ensures Crc(c, s + [b]) == Step(Crc(c, s), b)
  {
    hide Step;
    CrcAppend(c, s, [b]);
    assert [b][1..] == [];
  }

  // ----- The register update is a bijection -----

  lemma Shift1Injective(x: bv16, y: bv16)
    ensures Shift1(x) == Shift1(y) ==> x == y
  {
  }

  lemma {:induction false} ShiftInjective(x: bv16, y: bv16, n: nat)
    ensures Shift(x, n) == Shift(y, n) ==> x == y
    decreases n
  {
    hide Shift1;
    if n != 0 {
      Shift1Injective(x, y);
      ShiftInjective(Shift1(x), Shift1(y), n - 1);
    }
  }

  lemma PlusInjective(c: bv16, d: bv16, m: bv16)
    ensures Plus(c, m) == Plus(d, m) <==> c == d
    ensures Plus(m, c) == Plus(m, d) <==> c == d
  {
  }

  lemma StepInjective(c: bv16, d: bv16, a: byte, b: byte)
    ensures Step(c, b) == Step(d, b) ==> c == d
    ensures Step(c, a) == Step(c, b) ==> a == b
  {
    hide Shift, Plus;
    ShiftInjective(Plus(c, b as bv16), Plus(d, b as bv16), 8);
    ShiftInjective(Plus(c, a as bv16), Plus(c, b as bv16), 8);
    PlusInjective(c, d, b as bv16);
    PlusInjective(a as bv16, b as bv16, c);
    WidenInjective(a, b);
  }

  lemma WidenInjective(a: byte, b: byte)
    ensures a as bv16 == b as bv16 ==> a == b
  {
  }

  /** Over any fixed input, different seeds leave different residues. */
  lemma {:induction false} CrcSeedInjective(c: bv16, d: bv16, s: seq<byte>)
    ensures Crc(c, s) == Crc(d, s) <==> c == d
    decreases s
  {
    hide Step;
    if s != [] {
      StepInjective(c, d, s[0], s[0]);
      CrcSeedInjective(Step(c, s[0]), Step(d, s[0]), s[1..]);
    }
  }

  // ----- Up to 16 bits as one word, first bit lowest -----

  function BitOf(b: bool): bv16 {
    if b then 1 else 0
  }

  function Push(p: bv16, b: bool): bv16 {
    (p << 1) | BitOf(b)
  }

  function Pack(bits: seq<bool>): bv16
    decreases bits
  {
    if bits == [] then 0 else Push(Pack(bits[1..]), bits[0])
  }

  function Ones(n: nat): bv16 {
    if n == 0 then 0 else Push(Ones(n - 1), true)
  }

  /** `p` has no bit outside `mask`. */
  predicate Fits(p: bv16, mask: bv16) {
    p & !mask == 0
  }

  lemma PushFits(p: bv16, mask: bv16, b: bool)
    requires Fits(p, mask)
    ensures Fits(Push(p, b), Push(mask, true))
  {
    PushMask(mask);
    PushAnd(p, !mask, BitOf(b));
  }

  lemma PushMask(mask: bv16)
    ensures !((mask << 1) | 1) == !mask << 1
  {
  }

  lemma PushAnd(p: bv16, n: bv16, b: bv16)
    requires b <= 1
    ensures ((p << 1) | b) & (n << 1) == (p & n) << 1
  {
  }

  lemma PushInjective(p: bv16, b: bool, q: bv16, c: bool)
    requires Fits(p, 0x7fff) && Fits(q, 0x7fff) && Push(p, b) == Push(q, c)
    ensures p == q && b == c
  {
  }

  lemma FitsTransitive(p: bv16, q: bv16, r: bv16)
    requires Fits(p, q) && Fits(q, r)
    ensures Fits(p, r)
  {
  }

  lemma Ones15()
    ensures Ones(15) == 0x7fff
  {
    assert Ones(3) == 7;
    assert Ones(6) == 0x3f;
    assert Ones(9) == 0x1ff;
    assert Ones(12) == 0xfff;
  }

  lemma {:induction false} OnesNext(n: nat)
    ensures Fits(Ones(n), Ones(n + 1))
  {
    if n == 0 {
      assert Fits(0, Ones(1));
    } else {
      OnesNext(n - 1);
      hide Fits, Push;
      PushFits(Ones(n - 1), Ones(n), true);
    }
  }

  lemma {:induction false} OnesFit(n: nat)
    requires n <= 15
    ensures Fits(Ones(n), 0x7fff)
    decreases 15 - n
  {
    if n == 15 {
      Ones15();
      assert Fits(0x7fff, 0x7fff);
    } else {
      hide *;
      OnesNext(n);
      OnesFit(n + 1);
      FitsTransitive(Ones(n), Ones(n + 1), 0x7fff);
    }
  }

  lemma {:induction false} PackFits(bits: seq<bool>)
    ensures Fits(Pack(bits), Ones(|bits|))
    decreases bits
  {
    if bits == [] {
      assert Fits(0, 0);
    } else {
      hide Fits, Push;
      PackFits(bits[1..]);
      PushFits(Pack(bits[1..]), Ones(|bits| - 1), bits[0]);
    }
  }

  lemma PackTailFits(bits: seq<bool>)
    requires 1 <= |bits| <= 16
    ensures Fits(Pack(bits[1..]), 0x7fff)
  {
    hide *;
    PackFits(bits[1..]);
    OnesFit(|bits| - 1);
    FitsTransitive(Pack(bits[1..]), Ones(|bits| - 1), 0x7fff);
  }

  lemma PackCons(bits: seq<bool>)
    requires bits != []
    ensures Pack(bits) == Push(Pack(bits[1..]), bits[0])
  {
    hide Push;
  }

  lemma {:induction false} PackInjective(u: seq<bool>, v: seq<bool>)
    requires |u| == |v| <= 16 && Pack(u) == Pack(v)
    ensures u == v
    decreases u
  {
    if u != [] {
      PackCons(u);
      PackCons(v);
      hide *;
      PackTailFits(u);
      PackTailFits(v);
      PushInjective(Pack(u[1..]), u[0], Pack(v[1..]), v[0]);
      PackInjective(u[1..], v[1..]);
      assert u == [u[0]] + u[1..] && v == [v[0]] + v[1..];
    }
  }

  // ----- The same code, one bit at a time -----

  function CrcBits(c: bv16, bits: seq<bool>): bv16
    decreases bits
  {
    if bits == [] then c else CrcBits(Shift1(Plus(c, BitOf(bits[0]))), bits[1..])
  }

  /** A byte is divided lowest bit first. */
  function ByteBits(b: byte): seq<bool> {
    [b & 1 != 0, b & 2 != 0, b & 4 != 0, b & 8 != 0, b & 16 != 0, b & 32 != 0, b & 64 != 0, b & 128 != 0]
  }

  function Bits(s: seq<byte>): (bits: seq<bool>)
    ensures |bits| == 8 * |s|
    decreases s
  {
    if s == [] then [] else ByteBits(s[0]) + Bits(s[1..])
  }

  /** `y` is `x` with the bits of `d` flipped. */
  predicate Apart(x: bv16, y: bv16, d: bv16) {
    y == x ^ d
  }

  /** A flipped bit above the lowest one just moves down. */
  lemma Shift1Apart(x: bv16, y: bv16, p: bv16)
    requires Fits(p, 0x7fff) && Apart(x, y, p << 1)
    ensures Apart(Shift1(x), Shift1(y), p)
  {
    hide *;
    Shift1Is(x);
    Shift1Is(y);
    SameLowBit(x, y, p);
    MovesDown(x, y, p);
    PlusApart(Halve(x), Halve(y), p, 0x8408);
  }

  predicate LowBit(c: bv16) {
    c & 1 == 1
  }

  function Halve(c: bv16): bv16 {
    c >> 1
  }

  lemma Shift1Is(c: bv16)
    ensures Shift1(c) == if LowBit(c) then Plus(Halve(c), 0x8408) else Halve(c)
  {
  }

  lemma SameLowBit(x: bv16, y: bv16, p: bv16)
    requires Apart(x, y, p << 1)
    ensures LowBit(x) == LowBit(y)
  {
  }

  lemma MovesDown(x: bv16, y: bv16, p: bv16)
    requires Fits(p, 0x7fff) && Apart(x, y, p << 1)
    ensures Apart(Halve(x), Halve(y), p)
  {
  }

  lemma PlusApart(x: bv16, y: bv16, p: bv16, m: bv16)
    requires Apart(x, y, p)
    ensures Apart(Plus(x, m), Plus(y, m), p)
  {
  }

  lemma PushApart(c: bv16, p: bv16, b: bool)
    ensures Apart(Plus(c, BitOf(b)), Plus(c, Push(p, b)), p << 1)
  {
  }

  lemma ApartIsPlus(x: bv16, y: bv16, d: bv16)
    requires Apart(x, y, d)
    ensures y == Plus(x, d)
  {
  }

  lemma PlusZero(c: bv16)
    ensures Plus(c, 0) == c
  {
  }

  /** Dividing at most 16 bits is one addition followed by that many blank shifts. */
  lemma {:induction false} CrcOfPack(c: bv16, bits: seq<bool>)
    requires |bits| <= 16
    ensures CrcBits(c, bits) == Shift(Plus(c, Pack(bits)), |bits|)
    decreases bits
  {
    hide Shift1, Plus, Push, Fits, Apart, BitOf;
    if bits == [] {
      PlusZero(c);
    } else {
      var p := Pack(bits[1..]);
      var x, y := Plus(c, BitOf(bits[0])), Plus(c, Pack(bits));
      PackTailFits(bits);
      PushApart(c, p, bits[0]);
      Shift1Apart(x, y, p);
      ApartIsPlus(Shift1(x), Shift1(y), p);
      CrcOfPack(Shift1(x), bits[1..]);
    }
  }

  lemma {:induction false} CrcBitsAppend(c: bv16, s: seq<bool>, t: seq<bool>)
    ensures CrcBits(c, s + t) == CrcBits(CrcBits(c, s), t)
    decreases s
  {
    hide Shift1, Plus, BitOf;
    if s == [] {
      assert s + t == t;
    } else {
      CrcBitsAppend(Shift1(Plus(c, BitOf(s[0]))), s[1..], t);
      assert (s + t)[1..] == s[1..] + t;
    }
  }

  lemma {:induction false} CrcBitsSeedInjective(c: bv16, d: bv16, bits: seq<bool>)
    ensures CrcBits(c, bits) == CrcBits(d, bits) <==> c == d
    decreases bits
  {
    hide Shift1, Plus, BitOf;
    if bits != [] {
      var x, y := Plus(c, BitOf(bits[0])), Plus(d, BitOf(bits[0]));
      PlusInjective(c, d, BitOf(bits[0]));
      Shift1Injective(x, y);
      CrcBitsSeedInjective(Shift1(x), Shift1(y), bits[1..]);
    }
  }

  lemma PackByte(b: byte)
    ensures Pack(ByteBits(b)) == b as bv16
  {
    var s := ByteBits(b);
    PackUnroll(s);
    PushByte(b);
  }

  lemma PackUnroll(s: seq<bool>)
    requires |s| == 8
    ensures Pack(s)
         == Push(Push(Push(Push(Push(Push(Push(Push(0, s[7]), s[6]), s[5]), s[4]), s[3]), s[2]), s[1]), s[0])
  {
    hide Push;
    forall i: nat | i < 8
      ensures Pack(s[i..]) == Push(Pack(s[i + 1..]), s[i])
    {
      assert s[i..][1..] == s[i + 1..];
    }
    assert s[0..] == s;
  }

  lemma PushByte(b: byte)
    ensures Push(Push(Push(Push(Push(Push(Push(Push(0, b & 128 != 0), b & 64 != 0), b & 32 != 0), b & 16 != 0),
                  b & 8 != 0), b & 4 != 0), b & 2 != 0), b & 1 != 0) == b as bv16
  {
  }

  lemma StepIsBits(c: bv16, b: byte)
    ensures Step(c, b) == CrcBits(c, ByteBits(b))
  {
    PackByte(b);
    hide Shift, CrcBits, Pack, Plus;
    CrcOfPack(c, ByteBits(b));
  }

  /** The bytewise code is the bit-serial division of the bytes' bits. */
  lemma {:induction false} CrcIsBits(c: bv16, s: seq<byte>)
    ensures Crc(c, s) == CrcBits(c, Bits(s))
    decreases s
  {
    hide Step, ByteBits;
    if s != [] {
      StepIsBits(c, s[0]);
      CrcIsBits(Step(c, s[0]), s[1..]);
      CrcBitsAppend(c, ByteBits(s[0]), Bits(s[1..]));
    }
  }

  // ----- What a good residue says about the trailer -----

  function Or(p: bv16, q: bv16): bv16 {
    p | q
  }

  function Double(p: bv16): bv16 {
    p << 1
  }

  function Up(p: bv16, n: nat): bv16 {
    if n == 0 then p else Double(Up(p, n - 1))
  }

  lemma PushOr(p: bv16, q: bv16, b: bool, pq: bv16, pb: bv16, dq: bv16, r: bv16)
    requires pq == Or(p, q) && pb == Push(p, b) && dq == Double(q) && r == Or(pb, dq)
    ensures Push(pq, b) == r
  {
  }

  lemma {:induction false} PackAppend(s: seq<bool>, t: seq<bool>)
    ensures Pack(s + t) == Or(Pack(s), Up(Pack(t), |s|))
    decreases s
  {
    if s == [] {
      assert s + t == t;
      assert Or(0, Pack(t)) == Pack(t);
    } else {
      hide Push, Or, Double;
      PackAppend(s[1..], t);
      assert (s + t)[1..] == s[1..] + t;
      var p, q := Pack(s[1..]), Up(Pack(t), |s| - 1);
      PushOr(p, q, s[0], Or(p, q), Push(p, s[0]), Double(q), Or(Push(p, s[0]), Double(q)));
    }
  }

  lemma DoubleFour(p: bv16, q: bv16, r: bv16, s: bv16, t: bv16)
    requires q == Double(p) && r == Double(q) && s == Double(r) && t == Double(s)
    ensures t == p << 4
  {
  }

  lemma UpFour(p: bv16)
    ensures Up(p, 4) == p << 4
  {
    hide Double;
    assert Up(p, 2) == Double(Up(p, 1));
    assert Up(p, 3) == Double(Up(p, 2));
    assert Up(p, 4) == Double(Up(p, 3));
    DoubleFour(p, Up(p, 1), Up(p, 2), Up(p, 3), Up(p, 4));
  }

  lemma {:induction false} UpSplit(p: bv16, m: nat, n: nat)
    ensures Up(Up(p, m), n) == Up(p, m + n)
    decreases n
  {
    hide Double;
    if n != 0 {
      UpSplit(p, m, n - 1);
    }
  }

  lemma UpByte(p: bv16)
    ensures Up(p, 8) == p << 8
  {
    hide *;
    UpSplit(p, 4, 4);
    UpFour(p);
    UpFour(Up(p, 4));
    NibbleTwice(p, Up(p, 4));
  }

  lemma NibbleTwice(p: bv16, q: bv16)
    requires q == p << 4
    ensures q << 4 == p << 8
  {
  }

  lemma PackTwoBytes(lo: byte, hi: byte)
    ensures Pack(ByteBits(lo) + ByteBits(hi)) == FromLe16(lo, hi)
  {
    OrBytes(lo, hi);
    hide *;
    PackByte(lo);
    PackByte(hi);
    PackAppend(ByteBits(lo), ByteBits(hi));
    UpByte(hi as bv16);
    assert |ByteBits(lo)| == 8 by { EightBits(lo); }
  }

  lemma EightBits(b: byte)
    ensures |ByteBits(b)| == 8
  {
  }

  lemma OrBytes(lo: byte, hi: byte)
    ensures Or(lo as bv16, hi as bv16 << 8) == FromLe16(lo, hi)
  {
  }

  lemma TwoSteps(c: bv16, lo: byte, hi: byte)
    ensures Step(Step(c, lo), hi) == Shift(Plus(c, FromLe16(lo, hi)), 16)
  {
    StepIsBits(c, lo);
    StepIsBits(Step(c, lo), hi);
    PackTwoBytes(lo, hi);
    hide Step, Shift, Plus, Pack, FromLe16, CrcBits;
    CrcBitsAppend(c, ByteBits(lo), ByteBits(hi));
    CrcOfPack(c, ByteBits(lo) + ByteBits(hi));
  }

  lemma {:induction false} ShiftSplit(c: bv16, m: nat, n: nat)
    ensures Shift(c, m + n) == Shift(Shift(c, m), n)
    decreases m
  {
    hide Shift1;
    if m != 0 {
      ShiftSplit(Shift1(c), m - 1, n);
    }
  }

  lemma GoodResidue()
    ensures Shift(SEED, 16) == GOOD
  {
    ShiftSplit(SEED, 4, 12);
    assert Shift(SEED, 4) == 0xf870;
    ShiftSplit(0xf870, 4, 8);
    assert Shift(0xf870, 4) == 0xf87;
    ShiftSplit(0xf87, 4, 4);
    assert Shift(0xf87, 4) == 0x737f;
    assert Shift(0x737f, 4) == GOOD;
  }

  function Complement(c: bv16): bv16 {
    c ^ 0xffff
  }

  lemma PlusComplement(c: bv16)
    ensures Plus(c, Complement(c)) == SEED
  {
  }

  lemma Le16Is(lo: byte, hi: byte, w: bv16)
    ensures FromLe16(lo, hi) == w <==> [lo, hi] == Le16(w)
  {
    Le16RoundTrip(w);
    FromLe16RoundTrip(lo, hi);
    hide *;
    assert |Le16(w)| == 2;
  }

  /** The trailer a sender appends after register value `c`: the complement, low byte first. */
  function Trailer(c: bv16): (t: seq<byte>)
    ensures |t| == 2
  {
    Le16(Complement(c))
  }

  /** Gate exactness: the residue is good exactly when the last two bytes are the trailer of the rest. */
  lemma GoodIffTrailer(c: bv16, body: seq<byte>, lo: byte, hi: byte)
    ensures Crc(c, body + [lo, hi]) == GOOD <==> [lo, hi] == Trailer(Crc(c, body))
  {
    var r, w := Crc(c, body), FromLe16(lo, hi);
    CrcAppend(c, body, [lo, hi]);
    CrcTwo(r, lo, hi);
    TwoSteps(r, lo, hi);
    GoodResidue();
    ShiftInjective(Plus(r, w), SEED, 16);
    PlusComplement(r);
    PlusInjective(w, Complement(r), r);
    Le16Is(lo, hi, Complement(r));
    hide Plus, Complement, Crc, Step, Shift, FromLe16, Le16;
  }

  lemma CrcTwo(c: bv16, lo: byte, hi: byte)
    ensures Crc(c, [lo, hi]) == Step(Step(c, lo), hi)
  {
    hide Step;
    assert [lo, hi][1..] == [hi];
    assert [hi][1..] == [];
    assert Crc(Step(c, lo), [hi]) == Crc(Step(Step(c, lo), hi), []);
  }

  // ----- Error detection -----

  /** Two bit strings that differ only inside a window of at most 16 bits never share a residue. */
  lemma WindowDetected(c: bv16, pre: seq<bool>, u: seq<bool>, v: seq<bool>, post: seq<bool>)
    requires |u| == |v| <= 16
    requires CrcBits(c, pre + u + post) == CrcBits(c, pre + v + post)
    ensures u == v
  {
    hide *;
    var d := CrcBits(c, pre);
    CrcBitsAppend(c, pre + u, post);
    CrcBitsAppend(c, pre + v, post);
    CrcBitsAppend(c, pre, u);
    CrcBitsAppend(c, pre, v);
    CrcBitsSeedInjective(CrcBits(d, u), CrcBits(d, v), post);
    CrcOfPack(d, u);
    CrcOfPack(d, v);
    ShiftInjective(Plus(d, Pack(u)), Plus(d, Pack(v)), |u|);
    PlusInjective(Pack(u), Pack(v), d);
    PackInjective(u, v);
  }

  lemma ByteBitsInjective(a: byte, b: byte)
    requires ByteBits(a) == ByteBits(b)
    ensures a == b
  {
    PackByte(a);
    PackByte(b);
    hide *;
    WidenInjective(a, b);
  }

  lemma {:induction false} BitsInjective(x: seq<byte>, y: seq<byte>)
    requires |x| == |y| && Bits(x) == Bits(y)
    ensures x == y
    decreases x
  {
    if x != [] {
      assert Bits(x)[..8] == ByteBits(x[0]) && Bits(y)[..8] == ByteBits(y[0]);
      assert Bits(x)[8..] == Bits(x[1..]) && Bits(y)[8..] == Bits(y[1..]);
      hide ByteBits;
      ByteBitsInjective(x[0], y[0]);
      BitsInjective(x[1..], y[1..]);
    }
  }

  /** Every error burst of up to 16 bits, at any bit offset, changes the residue. */
  lemma BurstDetected(c: bv16, x: seq<byte>, y: seq<byte>, i: nat, j: nat)
    requires |x| == |y| && i <= j <= 8 * |x| && j - i <= 16
    requires Bits(x)[..i] == Bits(y)[..i] && Bits(x)[j..] == Bits(y)[j..]
    requires x != y
    ensures Crc(c, x) != Crc(c, y)
  {
    hide *;
    if Crc(c, x) == Crc(c, y) {
      var s, t := Bits(x), Bits(y);
      CrcIsBits(c, x);
      CrcIsBits(c, y);
      assert s == s[..i] + s[i..j] + s[j..];
      assert t == s[..i] + t[i..j] + s[j..];
      WindowDetected(c, s[..i], s[i..j], t[i..j], s[j..]);
      BitsInjective(x, y);
    }
  }

  lemma {:induction false} BitsSplit(s: seq<byte>, t: seq<byte>)
    ensures Bits(s + t) == Bits(s) + Bits(t)
    decreases s
  {
    if s == [] {
      assert s + t == t;
    } else {
      BitsCons(s);
      BitsCons(s + t);
      hide *;
      BitsSplit(s[1..], t);
      assert (s + t)[1..] == s[1..] + t && (s + t)[0] == s[0];
      ConcatAssoc(ByteBits(s[0]), Bits(s[1..]), Bits(t));
    }
  }

  lemma BitsCons(s: seq<byte>)
    requires s != []
    ensures Bits(s) == ByteBits(s[0]) + Bits(s[1..])
  {
    hide ByteBits;
  }

  /** In particular every error confined to two adjacent bytes. */
  lemma AdjacentBytesDetected(c: bv16, pre: seq<byte>, u: seq<byte>, v: seq<byte>, post: seq<byte>)
    requires |u| == |v| <= 2 && u != v
    ensures Crc(c, pre + u + post) != Crc(c, pre + v + post)
  {
    hide *;
    var x, y := pre + u + post, pre + v + post;
    assert u == x[|pre|..|pre| + |u|] && v == y[|pre|..|pre| + |u|];
    BitsSplit(pre + u, post);
    BitsSplit(pre, u);
    BitsSplit(pre + v, post);
    BitsSplit(pre, v);
    var i, j := 8 * |pre|, 8 * |pre| + 8 * |u|;
    assert Bits(x) == Bits(pre) + Bits(u) + Bits(post) && Bits(y) == Bits(pre) + Bits(v) + Bits(post);
    assert Bits(x)[..i] == Bits(pre) == Bits(y)[..i];
    assert Bits(x)[j..] == Bits(post) == Bits(y)[j..];
    BurstDetected(c, x, y, i, j);
  }

  function Fold8(c: bv16): bv16 { (c ^ (c >> 8)) & 0xff }
  function Fold4(c: bv16): bv16 { (c ^ (c >> 4)) & 0xf }
  function Fold2(c: bv16): bv16 { (c ^ (c >> 2)) & 3 }

  /** Whether a word has an odd number of ones. */
  predicate Odd(c: bv16) {
    var d := Fold2(Fold4(Fold8(c)));
    (d ^ (d >> 1)) & 1 == 1
  }

  predicate OddBits(bits: seq<bool>)
    decreases bits
  {
    if bits == [] then false else bits[0] != OddBits(bits[1..])
  }

  lemma EvenShiftOdd(c: bv16)
    requires c & 1 == 0
    ensures Odd(c >> 1) == Odd(c)
  {
  }

  lemma OddShiftOdd(c: bv16)
    requires c & 1 == 1
    ensures Odd((c >> 1) ^ 0x8408) == Odd(c)
  {
  }

  lemma Shift1Odd(c: bv16)
    ensures Odd(Shift1(c)) == Odd(c)
  {
    if c & 1 == 1 {
      OddShiftOdd(c);
      hide Odd;
    } else {
      EvenBit(c);
      EvenShiftOdd(c);
      hide Odd;
    }
  }

  lemma EvenBit(c: bv16)
    requires c & 1 != 1
    ensures c & 1 == 0
  {
  }

  lemma FlipOdd(c: bv16)
    ensures Odd(Plus(c, 1)) != Odd(c)
  {
  }

  lemma PlusBitOdd(c: bv16, b: bool)
    ensures Odd(Plus(c, BitOf(b))) == (Odd(c) != b)
  {
    PlusZero(c);
    FlipOdd(c);
    hide Odd, Plus;
  }

  lemma {:induction false} CrcBitsOdd(c: bv16, bits: seq<bool>)
    ensures Odd(CrcBits(c, bits)) == (Odd(c) != OddBits(bits))
    decreases bits
  {
    hide Odd, Shift1, Plus, BitOf;
    if bits != [] {
      PlusBitOdd(c, bits[0]);
      Shift1Odd(Plus(c, BitOf(bits[0])));
      CrcBitsOdd(Shift1(Plus(c, BitOf(bits[0]))), bits[1..]);
    }
  }

  /** A body that passes the gate has an even number of ones, so any odd number of flipped bits is caught. */
  lemma GoodMeansEven(body: seq<byte>)
    requires Crc(SEED, body) == GOOD
    ensures !OddBits(Bits(body))
  {
    assert !Odd(SEED) && !Odd(GOOD);
    hide *;
    CrcIsBits(SEED, body);
    CrcBitsOdd(SEED, Bits(body));
  }

  /** In how many places two bit strings differ. */
  function Distance(u: seq<bool>, v: seq<bool>): nat
    requires |u| == |v|
    decreases u
  {
    if u == [] then 0 else (if u[0] != v[0] then 1 else 0) + Distance(u[1..], v[1..])
  }

  lemma {:induction false} OddDistance(u: seq<bool>, v: seq<bool>)
    requires |u| == |v|
    ensures Distance(u, v) % 2 == 1 <==> OddBits(u) != OddBits(v)
    decreases u
  {
    if u != [] {
      OddDistance(u[1..], v[1..]);
    }
  }

  // ----- A known value -----

  /** The check value of this code: of the digits 1 to 9, before the final complement. */
  lemma CheckValue()
    ensures Crc(0xffff, [0x31, 0x32, 0x33, 0x34, 0x35, 0x36, 0x37, 0x38, 0x39]) == 0x6f91
  {
    FirstDigits();
    LastDigits();
    hide Step;
    var a: seq<byte> := [0x31, 0x32, 0x33, 0x34, 0x35];
    var b: seq<byte> := [0x36, 0x37, 0x38, 0x39];
    assert a + b == [0x31, 0x32, 0x33, 0x34, 0x35, 0x36, 0x37, 0x38, 0x39];
    CrcAppend(0xffff, a, b);
  }

  lemma FirstDigits()
    ensures Crc(0xffff, [0x31, 0x32, 0x33, 0x34, 0x35]) == 0x44bf
  {
    Digit(0xffff, 0x31, 0x2f8d);
    Digit(0x2f8d, 0x32, 0x4d53);
    Digit(0x4d53, 0x33, 0x634b);
    Digit(0x634b, 0x34, 0x8b13);
    Digit(0x8b13, 0x35, 0x44bf);
    hide *;
    CrcNone(0xffff);
    CrcSnoc(0xffff, [], 0x31);
    CrcSnoc(0xffff, [0x31], 0x32);
    CrcSnoc(0xffff, [0x31, 0x32], 0x33);
    CrcSnoc(0xffff, [0x31, 0x32, 0x33], 0x34);
    CrcSnoc(0xffff, [0x31, 0x32, 0x33, 0x34], 0x35);
    assert [] + [0x31 as byte] == [0x31];
    assert [0x31 as byte, 0x32, 0x33, 0x34] + [0x35] == [0x31, 0x32, 0x33, 0x34, 0x35];
  }

  lemma LastDigits()
    ensures Crc(0x44bf, [0x36, 0x37, 0x38, 0x39]) == 0x6f91
  {
    Digit(0x44bf, 0x36, 0x198d);
    Digit(0x198d, 0x37, 0x1ac8);
    Digit(0x1ac8, 0x38, 0xf795);
    Digit(0xf795, 0x39, 0x6f91);
    hide *;
    CrcNone(0x44bf);
    CrcSnoc(0x44bf, [], 0x36);
    CrcSnoc(0x44bf, [0x36], 0x37);
    CrcSnoc(0x44bf, [0x36, 0x37], 0x38);
    CrcSnoc(0x44bf, [0x36, 0x37, 0x38], 0x39);
    assert [] + [0x36 as byte] == [0x36];
    assert [0x36 as byte, 0x37, 0x38] + [0x39] == [0x36, 0x37, 0x38, 0x39];
  }

  lemma CrcNone(c: bv16)
    ensures Crc(c, []) == c
  {
  }

  lemma Digit(c: bv16, b: byte, d: bv16)
    requires Shift(Shift(Plus(c, b as bv16), 4), 4) == d
    ensures Step(c, b) == d
  {
    TwoHalves(c, b);
  }

  lemma TwoHalves(c: bv16, b: byte)
    ensures Step(c, b) == Shift(Shift(Plus(c, b as bv16), 4), 4)
  {
    ShiftSplit(Plus(c, b as bv16), 4, 4);
  }
}
