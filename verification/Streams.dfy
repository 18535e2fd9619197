/** The byte streams that the codec's own tests expect of a mutable struct, for both versions and byte orders. */
module Streams {
  import opened Layout
  import opened Schema
  import opened Encoding
  import opened Patching
  import opened Limits

  /** An unsigned long, an octet with a large identifier and an unsigned short, in the order they are written. */
  function Unordered(x: byte): Value {
    Struct(Mutable,
      MCons(3, false, Req(Prim(K4, x)), MCons(0x3FFF, false, Req(Prim(K1, x)), MCons(16, false, Req(Prim(K2, x)), MNil))))
  }

  /** Bytes given from the least significant one, in the order of the stream. */
  function Word(little: bool, s: seq<byte>): (r: Cells)
    ensures |r| == |s|
  {
    Raw(if little then s else Reverse(s))
  }

  function Stream2(little: bool, x: byte): Cells {
    Word(little, [0x16, 0, 0, 0])
    + (Word(little, [0x03, 0, 0, 0x20]) + Word(little, [x, 0, 0, 0])
    + (Word(little, [0xFF, 0x3F, 0, 0]) + Word(little, [x])
    + (Gaps(3) + Word(little, [0x10, 0, 0, 0x10]) + Word(little, [x, 0]))))
  }

  function Stream1(little: bool, x: byte): Cells {
    Word(little, [0x03, 0]) + Word(little, [0x04, 0]) + Word(little, [x, 0, 0, 0])
    + (Word(little, [0x01, 0x3F]) + Word(little, [0x08, 0]) + Word(little, [0xFF, 0x3F, 0, 0]) + Word(little, [0x01, 0, 0, 0])
    + Word(little, [x])
    + (Gaps(3) + Word(little, [0x10, 0]) + Word(little, [0x02, 0]) + Word(little, [x, 0])))
    + (Gaps(2) + Word(little, [0x02, 0x3F]) + Word(little, [0, 0]))
  }

  /** The least significant byte first. */
  lemma FirstByte(a: byte, m: nat, w: nat)
    ensures LittleBytes(a + 256 * m, w + 1) == [a] + LittleBytes(m, w)
  {
    assert (a + 256 * m) % 256 == a && (a + 256 * m) / 256 == m;
  }

  lemma NoBytes(m: nat)
    ensures LittleBytes(m, 0) == []
  {
  }

  lemma Bytes2(little: bool, n: nat, a: byte, b: byte)
    requires n == a + 256 * b
    ensures ToBytes(little, n, 2) == if little then [a, b] else Reverse([a, b])
  {
    hide LittleBytes, Reverse;
    NoBytes(0);
    FirstByte(b, 0, 0);
    FirstByte(a, b, 1);
    assert LittleBytes(n, 2) == [a, b];
  }

  lemma Bytes4(little: bool, n: nat, a: byte, b: byte, d: byte, e: byte)
    requires n == a + 0x100 * b + 0x1_0000 * d + 0x100_0000 * e
    ensures ToBytes(little, n, 4) == if little then [a, b, d, e] else Reverse([a, b, d, e])
  {
    hide LittleBytes, Reverse;
    NoBytes(0);
    FirstByte(e, 0, 0);
    FirstByte(d, e, 1);
    FirstByte(b, d + 256 * e, 2);
    FirstByte(a, b + 256 * (d + 256 * e), 3);
    assert LittleBytes(n, 4) == [a, b, d, e];
  }

  lemma Bytes1(little: bool, n: byte)
    ensures ToBytes(little, n, 1) == if little then [n] else Reverse([n])
  {
    assert LittleBytes(n, 1) == [n];
    assert Reverse([n]) == [n];
  }

  lemma Num1(c: Config, n: byte)
    ensures Num(c, n, 1) == Word(c.little, [n])
  {
    Bytes1(c.little, n);
  }

  lemma Num2(c: Config, n: nat, a: byte, b: byte)
    requires n == a + 256 * b
    ensures Num(c, n, 2) == Word(c.little, [a, b])
  {
    Bytes2(c.little, n, a, b);
  }

  lemma Num4(c: Config, n: nat, a: byte, b: byte, d: byte, e: byte)
    requires n == a + 0x100 * b + 0x1_0000 * d + 0x100_0000 * e
    ensures Num(c, n, 4) == Word(c.little, [a, b, d, e])
  {
    Bytes4(c.little, n, a, b, d, e);
  }

  /** A primitive at an aligned position is its bytes. */
  lemma PrimCells(c: Config, k: Kind, n: nat, p: nat)
    requires Pad(p, c.AlignOf(k)) == 0
    ensures Enc(c, Prim(k, n), p) == Out(Num(c, n, Size(k)), p + Size(k))
  {
    hide Pad, Num;
    NoGap(Num(c, n, Size(k)));
  }

  // ---------------------------------------------------------------- XCDRv2

  /** A member whose size has a length code. */
  lemma ShortMember2(c: Config, id: nat, k: Kind, n: nat, p: nat)
    requires c == Automatic(true, c.little) && k != K8
    ensures var q := p + Pad(p, 4) + 4;
      EncSlot(c, Mutable, id, false, Req(Prim(k, n)), p)
      == Out(U32(c, Word2(false, ShortCode(Size(k)), id), p) + Num(c, n, Size(k)), q + Size(k))
  {
    hide Pad, Num, Word2, Enc, U32;
    AlignedBelow4(c, k, p);
    PrimCells(c, k, n, p + Pad(p, 4) + 4);
  }

  lemma AlignedBelow4(c: Config, k: Kind, p: nat)
    requires k != K8
    ensures Pad(p + Pad(p, 4) + 4, c.AlignOf(k)) == 0
  {
  }

  lemma PaddedWords2(c: Config)
    requires c == Automatic(true, c.little)
    ensures U32(c, 22, 0) == Word(c.little, [0x16, 0, 0, 0])
    ensures U32(c, Word2(false, 2, 3), 4) == Word(c.little, [0x03, 0, 0, 0x20])
    ensures U32(c, Word2(false, 0, 0x3FFF), 12) == Word(c.little, [0xFF, 0x3F, 0, 0])
    ensures U32(c, Word2(false, 1, 16), 17) == Gaps(3) + Word(c.little, [0x10, 0, 0, 0x10])
  {
    hide Num, Word, Gaps;
    Num4(c, 22, 0x16, 0, 0, 0);
    Num4(c, Word2(false, 2, 3), 0x03, 0, 0, 0x20);
    Num4(c, Word2(false, 0, 0x3FFF), 0xFF, 0x3F, 0, 0);
    Num4(c, Word2(false, 1, 16), 0x10, 0, 0, 0x10);
    NoGap(Num(c, 22, 4));
    NoGap(Num(c, Word2(false, 2, 3), 4));
    NoGap(Num(c, Word2(false, 0, 0x3FFF), 4));
  }

  /** Three members one after the other. */
  lemma ThreeMembers(c: Config, ms: Members, p: nat, a: Out, b: Out, d: Out)
    requires ms.MCons? && ms.rest.MCons? && ms.rest.rest.MCons? && ms.rest.rest.rest.MNil?
    requires a == EncSlot(c, Mutable, ms.id, ms.must, ms.slot, p)
    requires b == EncSlot(c, Mutable, ms.rest.id, ms.rest.must, ms.rest.slot, a.rel)
    requires d == EncSlot(c, Mutable, ms.rest.rest.id, ms.rest.rest.must, ms.rest.rest.slot, b.rel)
    ensures EncMembers(c, Mutable, ms, p) == Out(a.cells + (b.cells + d.cells), d.rel)
  {
    hide EncSlot;
    assert EncMembers(c, Mutable, MNil, d.rel) == Out([], d.rel);
    assert d.cells + [] == d.cells;
    assert EncMembers(c, Mutable, ms.rest.rest, b.rel) == d;
    assert EncMembers(c, Mutable, ms.rest, a.rel) == Out(b.cells + d.cells, d.rel);
  }

  lemma MemberAt(c: Config, id: nat, k: Kind, n: nat, p: nat, q: nat)
    requires c == Automatic(true, c.little) && k != K8 && q == p + Pad(p, 4) + 4 + Size(k)
    ensures EncSlot(c, Mutable, id, false, Req(Prim(k, n)), p)
         == Out(U32(c, Word2(false, ShortCode(Size(k)), id), p) + Num(c, n, Size(k)), q)
  {
    hide Pad, EncSlot, U32, Num, Word2;
    ShortMember2(c, id, k, n, p);
  }

  /** XCDRv2: DHEADER 22, length codes 2, 0 and 1, three bytes of padding. */
  lemma ExpectedStream2(little: bool, x: byte)
    ensures Enc(Automatic(true, little), Unordered(x), 0).cells == Stream2(little, x)
  {
    hide Num, Word, Word2, U32, EncSlot, EncMembers, Enc, Gaps;
    var c, ms := Automatic(true, little), Unordered(x).members;
    MemberAt(c, 3, K4, x, 4, 12);
    MemberAt(c, 0x3FFF, K1, x, 12, 17);
    MemberAt(c, 16, K2, x, 17, 26);
    Num4(c, x, x, 0, 0, 0);
    Num1(c, x);
    Num2(c, x, x, 0);
    PaddedWords2(c);
    var a := EncSlot(c, Mutable, 3, false, Req(Prim(K4, x)), 4);
    var b := EncSlot(c, Mutable, 0x3FFF, false, Req(Prim(K1, x)), 12);
    var d := EncSlot(c, Mutable, 16, false, Req(Prim(K2, x)), 17);
    ThreeMembers(c, ms, 4, a, b, d);
    MutableCells2(c, ms);
    assert |a.cells + (b.cells + d.cells)| == 22;
  }

  lemma MutableCells2(c: Config, ms: Members)
    requires c.v2
    ensures var b := EncMembers(c, Mutable, ms, 4);
      Enc(c, Struct(Mutable, ms), 0) == Out(U32(c, |b.cells|, 0) + b.cells, b.rel)
  {
    hide EncMembers, U32;
  }

  // ---------------------------------------------------------------- XCDRv1

  lemma Member1(c: Config, id: nat, must: bool, k: Kind, n: nat, p: nat)
    requires c == Automatic(false, c.little)
    ensures EncSlot(c, Mutable, id, must, Req(Prim(k, n)), p)
         == Out(Header1(c, id, must, Size(k), id > MAX_SHORT_ID, p) + Num(c, n, Size(k)), Size(k))
  {
    hide Num, Header1, Enc;
    AlignedStart(c, k);
    PrimCells(c, k, n, 0);
  }

  lemma AlignedStart(c: Config, k: Kind)
    ensures Pad(0, c.AlignOf(k)) == 0
  {
  }

  lemma ShortHeaders1(c: Config)
    requires c == Automatic(false, c.little)
    ensures Header1(c, 3, false, 4, false, 0) == Word(c.little, [0x03, 0]) + Word(c.little, [0x04, 0])
    ensures Header1(c, 16, false, 2, false, 1) == Gaps(3) + Word(c.little, [0x10, 0]) + Word(c.little, [0x02, 0])
    ensures Sentinel(c, 2) == Gaps(2) + Word(c.little, [0x02, 0x3F]) + Word(c.little, [0, 0])
  {
    hide Num, Word, Gaps;
    Num2(c, 3, 0x03, 0);
    Num2(c, 4, 0x04, 0);
    Num2(c, 16, 0x10, 0);
    Num2(c, 2, 0x02, 0);
    Num2(c, PID_SENTINEL, 0x02, 0x3F);
    Num2(c, 0, 0, 0);
    NoGap(Num(c, 3, 2));
  }

  lemma LongHeader1(c: Config)
    requires c == Automatic(false, c.little)
    ensures Header1(c, 0x3FFF, false, 1, true, 4)
         == Word(c.little, [0x01, 0x3F]) + Word(c.little, [0x08, 0]) + Word(c.little, [0xFF, 0x3F, 0, 0]) + Word(c.little, [0x01, 0, 0, 0])
  {
    hide Num, Word, Gaps;
    Num2(c, PID_EXTENDED, 0x01, 0x3F);
    Num2(c, 8, 0x08, 0);
    Num4(c, 0x3FFF, 0xFF, 0x3F, 0, 0);
    Num4(c, 1, 0x01, 0, 0, 0);
    NoGap(Num(c, PID_EXTENDED, 2));
  }

  /** XCDRv1: short and long member headers, each body on an origin of its own, and the sentinel. */
  lemma ExpectedStream1(little: bool, x: byte)
    ensures Enc(Automatic(false, little), Unordered(x), 0).cells == Stream1(little, x)
  {
    hide Num, Word, Header1, Sentinel, EncSlot, EncMembers, Enc, Gaps;
    var c, ms := Automatic(false, little), Unordered(x).members;
    Member1(c, 3, false, K4, x, 0);
    Member1(c, 0x3FFF, false, K1, x, 4);
    Member1(c, 16, false, K2, x, 1);
    Num4(c, x, x, 0, 0, 0);
    Num1(c, x);
    Num2(c, x, x, 0);
    ShortHeaders1(c);
    LongHeader1(c);
    var a := EncSlot(c, Mutable, 3, false, Req(Prim(K4, x)), 0);
    var b := EncSlot(c, Mutable, 0x3FFF, false, Req(Prim(K1, x)), 4);
    var d := EncSlot(c, Mutable, 16, false, Req(Prim(K2, x)), 1);
    ThreeMembers(c, ms, 0, a, b, d);
    MutableCells1(c, ms, 0);
  }
}
