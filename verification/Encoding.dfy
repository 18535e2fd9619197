/**
 The wire layout of a value: what `Cdr` leaves in the buffer, as a function of the value, the
 encoding version, the byte order and the position relative to the alignment origin.
 */
module Encoding {
  import opened Layout
  import opened Schema

  /** One position of the buffer: padding, which is skipped and never written, or a byte. */
  datatype Cell = Gap | B(b: byte)

  type Cells = seq<Cell>

  /** Which header a member starts with, and whether it may be exchanged when the body is known. */
  datatype HeaderSelection = AutoShort | AutoLong | LongOnly | ShortOnly

  datatype Config = Config(v2: bool, little: bool, sel: HeaderSelection) {
    /** Alignment of 8-byte primitives: 4 in XCDRv2, 8 in XCDRv1. */
    function Align64(): nat { if v2 then 4 else 8 }

    function AlignOf(k: Kind): (r: nat)
      ensures IsAlign(r) && r <= Align64()
    {
      if k == K8 then Align64() else Size(k)
    }
  }

  /** A writer with the default header selection. */
  function Automatic(v2: bool, little: bool): Config {
    Config(v2, little, AutoShort)
  }

  /** Cells written, and the position after them relative to the origin then in force. */
  datatype Out = Out(cells: Cells, rel: nat)

  /** A buffer holds the cells at a position when it agrees with every byte that is not padding. */
  ghost predicate Holds(buf: seq<byte>, at: nat, cells: Cells) {
    && at + |cells| <= |buf|
    && forall i :: 0 <= i < |cells| && cells[i].B? ==> buf[at + i] == cells[i].b
  }

  // ---------------------------------------------------------------- primitives

  function Gaps(n: nat): (r: Cells)
    ensures |r| == n
  {
    seq(n, _ => Gap)
  }

  function Raw(s: seq<byte>): (r: Cells)
    ensures |r| == |s|
    ensures forall i :: 0 <= i < |s| ==> r[i] == B(s[i])
  {
    seq(|s|, i requires 0 <= i < |s| => B(s[i]))
  }

  /** The `w` bytes of a number, in the stream's order. */
  function Num(c: Config, n: nat, w: nat): (r: Cells)
    ensures |r| == w
  {
    Raw(ToBytes(c.little, n, w))
  }

  /** A number of `w` bytes on alignment `a`. */
  function Scalar(c: Config, n: nat, w: nat, a: nat, p: nat): (r: Cells)
    requires IsAlign(a)
    ensures |r| == Pad(p, a) + w
  {
    Gaps(Pad(p, a)) + Num(c, n, w)
  }

  function U32(c: Config, n: nat, p: nat): (r: Cells)
    ensures |r| == Pad(p, 4) + 4
  {
    Scalar(c, n, 4, 4, p)
  }

  /** Elements one after the other, each aligned on its own. */
  function Elements(c: Config, k: Kind, ns: seq<nat>, p: nat): Cells {
    if ns == [] then []
    else
      var e := Scalar(c, ns[0], Size(k), c.AlignOf(k), p);
      e + Elements(c, k, ns[1..], p + |e|)
  }

  // ---------------------------------------------------------------- member headers

  /** Whether the last value written starts with a length that can serve as NEXTINT, and its unit. */
  datatype NextInt = NoNext | Next1 | Next4 | Next8

  function SeqNext(k: Kind): NextInt {
    match k
    case K1 => Next1
    case KBool => Next1
    case K2 => NoNext
    case K4 => Next4
    case K8 => Next8
  }

  /** The flag an XCDRv2 encoder holds after writing the value as a member. */
  function Next(v: Value): NextInt {
    match v
    case Prim(_, _) => NoNext
    case Str(_) => Next1
    case WStr(_) => NoNext
    case SeqPrim(k, _) => SeqNext(k)
    case Seq(_, _) => Next1
    case Struct(ext, _) => if ext == Final then NoNext else Next1
  }

  /** Length code of a short header, or 8 where the size has none. */
  function ShortCode(size: nat): nat {
    if size == 1 then 0
    else if size == 2 then 1
    else if size == 4 then 2
    else if size == 8 then 3
    else 8
  }

  function LongCode(next: NextInt): nat {
    match next
    case NoNext => 4
    case Next1 => 5
    case Next4 => 6
    case Next8 => 7
  }

  /** XCDRv2 member header forms: size in the length code, size in NEXTINT, or NEXTINT shared with the body. */
  datatype Form = Short | Long | Joined

  function FormOf(sel: HeaderSelection, next: NextInt, size: nat): Form {
    if next != NoNext then Joined
    else if ShortCode(size) < 4 && sel != LongOnly then Short
    else Long
  }

  /** Bytes of a finished XCDRv2 member header. */
  function Header2Length(sel: HeaderSelection, next: NextInt, size: nat): nat {
    if FormOf(sel, next, size) == Long then 8 else 4
  }

  /** Whether a member starts with a long header whatever its identifier. */
  predicate AllocatesLong(sel: HeaderSelection) {
    sel == AutoLong || sel == LongOnly
  }

  const PID_EXTENDED: nat := 0x3F01
  const PID_SENTINEL: nat := 0x3F02
  const MAX_SHORT_ID: nat := 0x3F00

  /** The 32-bit word that opens an XCDRv2 member header. */
  function Word2(must: bool, code: nat, id: nat): nat {
    (if must then 0x8000_0000 else 0) + code * 0x1000_0000 + id
  }

  function Word1(must: bool, id: nat): nat {
    (if must then 0x4000 else 0) + id
  }

  /** An XCDRv1 member header for a body of `size` bytes; the origin moves to its end. */
  function Header1(c: Config, id: nat, must: bool, size: nat, long: bool, p: nat): (r: Cells)
    ensures |r| == Pad(p, 4) + if long then 12 else 4
  {
    if long then
      Gaps(Pad(p, 4)) + Num(c, Word1(must, PID_EXTENDED), 2) + Num(c, 8, 2) + Num(c, id, 4) + Num(c, size, 4)
    else
      Gaps(Pad(p, 4)) + Num(c, Word1(must, id), 2) + Num(c, size, 2)
  }

  /** Whether an XCDRv1 member starts with the long header. */
  predicate AllocatesLong1(id: nat, sel: HeaderSelection) {
    id > MAX_SHORT_ID || AllocatesLong(sel)
  }

  /** Whether a finished XCDRv1 member carries the long header. */
  predicate IsLong1(sel: HeaderSelection, id: nat, size: nat) {
    id > MAX_SHORT_ID || size > 0xFFFF || sel == LongOnly
  }

  /** Bytes of a finished XCDRv1 member header. */
  function Header1Length(sel: HeaderSelection, id: nat, size: nat): nat {
    if IsLong1(sel, id, size) then 12 else 4
  }

  /** The sentinel that closes an XCDRv1 mutable struct. */
  function Sentinel(c: Config, p: nat): (r: Cells)
    ensures |r| == Pad(p, 4) + 4
  {
    Gaps(Pad(p, 4)) + Num(c, PID_SENTINEL, 2) + Num(c, 0, 2)
  }

  // ---------------------------------------------------------------- values

  function Enc(c: Config, v: Value, p: nat): (r: Out)
    ensures r.rel <= p + |r.cells|
    ensures c.v2 ==> r.rel == p + |r.cells|
    decreases v, 0
  {
    match v
    case Prim(k, n) =>
      var e := Scalar(c, n, Size(k), c.AlignOf(k), p);
      Out(e, p + |e|)
    case Str(text) =>
      var t := CText(text, 0);
      var e := U32(c, |t| + 1, p) + Raw(t) + [B(0)];
      Out(e, p + |e|)
    case WStr(chars) =>
      var n := U32(c, |WText(chars)|, p);
      var e := n + Elements(c, K2, WText(chars), p + |n|);
      Out(e, p + |e|)
    case SeqPrim(k, ns) =>
      var n := U32(c, |ns|, p);
      var e := n + Elements(c, k, ns, p + |n|);
      Out(e, p + |e|)
    case Seq(_, items) =>
      if c.v2 then
        var q := p + Pad(p, 4) + 4;
        var b := EncItems(c, items, q + 4);
        Out(U32(c, 4 + |b.cells|, p) + Num(c, Count(items), 4) + b.cells, b.rel)
      else
        var n := U32(c, Count(items), p);
        var b := EncItems(c, items, p + |n|);
        Out(n + b.cells, b.rel)
    case Struct(ext, ms) =>
      if c.v2 then
        if ext == Final then EncMembers(c, ext, ms, p)
        else
          var b := EncMembers(c, ext, ms, p + Pad(p, 4) + 4);
          Out(U32(c, |b.cells|, p) + b.cells, b.rel)
      else
        var b := EncMembers(c, ext, ms, p);
        if ext == Mutable then
          var e := Sentinel(c, b.rel);
          Out(b.cells + e, b.rel + |e|)
        else b
  }

  function EncItems(c: Config, items: Items, p: nat): (r: Out)
    ensures r.rel <= p + |r.cells|
    ensures c.v2 ==> r.rel == p + |r.cells|
    decreases items
  {
    match items
    case INil => Out([], p)
    case ICons(v, rest) =>
      var a := Enc(c, v, p);
      var b := EncItems(c, rest, a.rel);
      Out(a.cells + b.cells, b.rel)
  }

  function EncMembers(c: Config, ext: Extensibility, ms: Members, p: nat): (r: Out)
    ensures r.rel <= p + |r.cells|
    ensures c.v2 ==> r.rel == p + |r.cells|
    decreases ms
  {
    match ms
    case MNil => Out([], p)
    case MCons(id, must, slot, rest) =>
      var a := EncSlot(c, ext, id, must, slot, p);
      var b := EncMembers(c, ext, rest, a.rel);
      Out(a.cells + b.cells, b.rel)
  }

  /** One member: bare in plain structs, flagged or headed when optional, headed in mutable ones. */
  function EncSlot(c: Config, ext: Extensibility, id: nat, must: bool, slot: Slot, p: nat): (r: Out)
    ensures r.rel <= p + |r.cells|
    ensures c.v2 ==> r.rel == p + |r.cells|
    decreases slot
  {
    match slot
    case Req(v) =>
      if ext != Mutable then Enc(c, v, p)
      else if c.v2 then EncHeaded2(c, id, must, v, p)
      else EncHeaded1(c, id, must, v, p)
    case Absent(_) =>
      if ext == Mutable then Out([], p)
      else if c.v2 then Out([B(0)], p + 1)
      else Out(Header1(c, id, must, 0, AllocatesLong1(id, c.sel), p), 0)
    case Present(v) =>
      if ext != Mutable && c.v2 then
        var e := Enc(c, v, p + 1);
        Out([B(1)] + e.cells, e.rel)
      else if c.v2 then EncHeaded2(c, id, must, v, p)
      else EncHeaded1(c, id, must, v, p)
  }

  /** An XCDRv2 mutable member: EMHEADER, and NEXTINT unless the size is coded or shared. */
  function EncHeaded2(c: Config, id: nat, must: bool, v: Value, p: nat): (r: Out)
    requires c.v2
    ensures r.rel == p + |r.cells|
    decreases v, 1
  {
    var q := p + Pad(p, 4);
    var size := |Enc(c, v, q + 4).cells|;
    match FormOf(c.sel, Next(v), size)
    case Short =>
      var b := Enc(c, v, q + 4);
      Out(U32(c, Word2(must, ShortCode(size), id), p) + b.cells, b.rel)
    case Joined =>
      var b := Enc(c, v, q + 4);
      Out(U32(c, Word2(must, LongCode(Next(v)), id), p) + b.cells, b.rel)
    case Long =>
      var b := Enc(c, v, q + 8);
      Out(U32(c, Word2(must, 4, id), p) + Num(c, size, 4) + b.cells, b.rel)
  }

  /** An XCDRv1 member with a header: the body starts a new alignment origin, which is never popped. */
  function EncHeaded1(c: Config, id: nat, must: bool, v: Value, p: nat): (r: Out)
    requires !c.v2
    ensures r.rel <= p + |r.cells|
    decreases v, 1
  {
    var b := Enc(c, v, 0);
    var long := IsLong1(c.sel, id, |b.cells|);
    Out(Header1(c, id, must, |b.cells|, long, p) + b.cells, b.rel)
  }
}
