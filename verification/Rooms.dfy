/** How far past its start the encoder reaches while it writes a value: headers are allocated before bodies are known. */
module Rooms {
  import opened Layout
  import opened Schema
  import opened Encoding
  import opened EncodingFacts

  function Max(a: nat, b: nat): nat { if a > b then a else b }

  /** Bytes allocated for an XCDRv2 member header. */
  function HeadLength(sel: HeaderSelection): (r: nat)
    ensures r == 4 || r == 8
  {
    if AllocatesLong(sel) then 8 else 4
  }

  function Peak(c: Config, v: Value, p: nat): nat
    decreases v, 0
  {
    match v
    case Seq(_, items) =>
      var n := Pad(p, 4) + if c.v2 then 8 else 4;
      n + PeakItems(c, items, p + n)
    case Struct(ext, ms) =>
      var n := if c.v2 && ext != Final then Pad(p, 4) + 4 else 0;
      if !c.v2 && ext == Mutable then
        var b := EncMembers(c, ext, ms, p);
        Max(PeakMembers(c, ext, ms, p), |b.cells| + Pad(b.rel, 4) + 4)
      else
        n + PeakMembers(c, ext, ms, p + n)
    case _ => |Enc(c, v, p).cells|
  }

  function PeakItems(c: Config, items: Items, p: nat): nat
    decreases items
  {
    match items
    case INil => 0
    case ICons(v, rest) =>
      var a := Enc(c, v, p);
      Max(Peak(c, v, p), |a.cells| + PeakItems(c, rest, a.rel))
  }

  function PeakMembers(c: Config, ext: Extensibility, ms: Members, p: nat): nat
    decreases ms
  {
    match ms
    case MNil => 0
    case MCons(id, must, slot, rest) =>
      var a := EncSlot(c, ext, id, must, slot, p);
      Max(PeakSlot(c, ext, id, slot, p), |a.cells| + PeakMembers(c, ext, rest, a.rel))
  }

  function PeakSlot(c: Config, ext: Extensibility, id: nat, slot: Slot, p: nat): nat
    decreases slot
  {
    match slot
    case Req(v) =>
      if ext != Mutable then Peak(c, v, p)
      else if c.v2 then PeakHeaded2(c, v, p)
      else PeakHeaded1(c, id, v, p)
    case Absent(_) => |EncSlot(c, ext, id, false, slot, p).cells|
    case Present(v) =>
      if ext != Mutable && c.v2 then 1 + Peak(c, v, p + 1)
      else if c.v2 then PeakHeaded2(c, v, p)
      else PeakHeaded1(c, id, v, p)
  }

  /** The allocated header and what the body needs, or the finished header and the body. */
  function PeakHeaded2(c: Config, v: Value, p: nat): nat
    requires c.v2
    decreases v, 1
  {
    var q, h := p + Pad(p, 4), HeadLength(c.sel);
    Pad(p, 4) + Max(h + Peak(c, v, q + h), Header2Length(c.sel, Next(v), |Enc(c, v, q + h).cells|) + |Enc(c, v, q + h).cells|)
  }

  function PeakHeaded1(c: Config, id: nat, v: Value, p: nat): nat
    requires !c.v2
    decreases v, 1
  {
    var h := if AllocatesLong1(id, c.sel) then 12 else 4;
    Pad(p, 4) + Max(h + Peak(c, v, 0), Header1Length(c.sel, id, |Enc(c, v, 0).cells|) + |Enc(c, v, 0).cells|)
  }

  // ---------------------------------------------------------------- writers that ask before every byte

  /**
   Nothing in the value makes the encoder move past the end of the buffer unasked: no header is made longer after its
   body is written, and no XCDRv1 header or sentinel is aligned.
   */
  predicate Elastic(c: Config, v: Value)
    decreases v
  {
    match v
    case Seq(_, items) => ElasticItems(c, items)
    case Struct(ext, ms) => (c.v2 || ext != Mutable) && ElasticMembers(c, ext, ms)
    case _ => true
  }

  predicate ElasticItems(c: Config, items: Items)
    decreases items
  {
    items.ICons? ==> Elastic(c, items.head) && ElasticItems(c, items.rest)
  }

  predicate ElasticMembers(c: Config, ext: Extensibility, ms: Members)
    decreases ms
  {
    ms.MCons? ==> ElasticSlot(c, ext, ms.slot) && ElasticMembers(c, ext, ms.rest)
  }

  predicate ElasticSlot(c: Config, ext: Extensibility, slot: Slot)
    decreases slot
  {
    && (!c.v2 ==> slot.Req? && ext != Mutable)
    && (!slot.Absent? ==> Elastic(c, slot.v) && (c.v2 && ext == Mutable ==> !Stretched(c, slot.v)))
  }

  /** A member whose short header has to be made long. */
  predicate Stretched(c: Config, v: Value) {
    c.sel == AutoShort && FormOf(c.sel, Next(v), |Enc(c, v, 0).cells|) == Long
  }

  /** Unless short headers may be made long, an XCDRv2 writer asks for all the room it takes. */
  lemma {:induction false} ElasticAlways(c: Config, v: Value)
    requires c.v2 && c.sel != AutoShort
    ensures Elastic(c, v)
    decreases v
  {
    match v
    case Seq(_, items) => ElasticAlwaysItems(c, items);
    case Struct(ext, ms) => ElasticAlwaysMembers(c, ext, ms);
    case _ =>
  }

  lemma {:induction false} ElasticAlwaysItems(c: Config, items: Items)
    requires c.v2 && c.sel != AutoShort
    ensures ElasticItems(c, items)
    decreases items
  {
    match items
    case INil =>
    case ICons(v, rest) =>
      ElasticAlways(c, v);
      ElasticAlwaysItems(c, rest);
  }

  lemma {:induction false} ElasticAlwaysMembers(c: Config, ext: Extensibility, ms: Members)
    requires c.v2 && c.sel != AutoShort
    ensures ElasticMembers(c, ext, ms)
    decreases ms
  {
    match ms
    case MNil =>
    case MCons(_, _, slot, rest) =>
      if !slot.Absent? { ElasticAlways(c, slot.v); }
      ElasticAlwaysMembers(c, ext, rest);
  }

  // ---------------------------------------------------------------- what a selection permits

  /** If only short headers are allowed, every header can be short. */
  predicate Permits(c: Config, v: Value)
    decreases v
  {
    match v
    case Seq(_, items) => PermitsItems(c, items)
    case Struct(ext, ms) => PermitsMembers(c, ext, ms)
    case _ => true
  }

  predicate PermitsItems(c: Config, items: Items)
    decreases items
  {
    items.ICons? ==> Permits(c, items.head) && PermitsItems(c, items.rest)
  }

  predicate PermitsMembers(c: Config, ext: Extensibility, ms: Members)
    decreases ms
  {
    ms.MCons? ==> PermitsSlot(c, ext, ms.id, ms.slot) && PermitsMembers(c, ext, ms.rest)
  }

  predicate PermitsSlot(c: Config, ext: Extensibility, id: nat, slot: Slot)
    decreases slot
  {
    if slot.Absent? then c.sel == ShortOnly && !c.v2 && ext != Mutable ==> id <= MAX_SHORT_ID
    else if c.v2 then Permits(c, slot.v) && (ext == Mutable ==> PermitsForm2(c, slot.v))
    else Permits(c, slot.v) && (ext == Mutable || slot.Present? ==> PermitsForm1(c, id, slot.v))
  }

  predicate PermitsForm2(c: Config, v: Value) {
    c.sel == ShortOnly ==> FormOf(c.sel, Next(v), |Enc(c, v, 0).cells|) == Short
  }

  predicate PermitsForm1(c: Config, id: nat, v: Value) {
    c.sel == ShortOnly ==> id <= MAX_SHORT_ID && |Enc(c, v, 0).cells| <= 0xFFFF
  }

  /** A selection that may choose permits everything. */
  lemma {:induction false} PermitsAuto(c: Config, v: Value)
    requires c.sel != ShortOnly
    ensures Permits(c, v)
    decreases v, 0
  {
    match v
    case Seq(_, items) => PermitsAutoItems(c, items);
    case Struct(ext, ms) => PermitsAutoMembers(c, ext, ms);
    case _ =>
  }

  lemma {:induction false} PermitsAutoItems(c: Config, items: Items)
    requires c.sel != ShortOnly
    ensures PermitsItems(c, items)
    decreases items, 0
  {
    if items.ICons? {
      PermitsAuto(c, items.head);
      PermitsAutoItems(c, items.rest);
    }
  }

  lemma {:induction false} PermitsAutoMembers(c: Config, ext: Extensibility, ms: Members)
    requires c.sel != ShortOnly
    ensures PermitsMembers(c, ext, ms)
    decreases ms, 0
  {
    if ms.MCons? {
      if !ms.slot.Absent? { PermitsAuto(c, ms.slot.v); }
      PermitsAutoMembers(c, ext, ms.rest);
    }
  }

  // ---------------------------------------------------------------- the high-water mark covers the bytes

  lemma {:induction false} PeakCovers(c: Config, v: Value, p: nat)
    ensures |Enc(c, v, p).cells| <= Peak(c, v, p)
    decreases v, 0
  {
    hide Pad, Num, Gaps, CText, WText, Raw, Elements, EncItems, EncMembers, PeakItems, PeakMembers;
    match v
    case Seq(_, items) => PeakItemsCovers(c, items, p + Pad(p, 4) + if c.v2 then 8 else 4);
    case Struct(ext, ms) => PeakMembersCovers(c, ext, ms, if c.v2 && ext != Final then p + Pad(p, 4) + 4 else p);
    case _ =>
  }

  lemma {:induction false} PeakItemsCovers(c: Config, items: Items, p: nat)
    ensures |EncItems(c, items, p).cells| <= PeakItems(c, items, p)
    decreases items, 0
  {
    hide Enc, Peak;
    if items.ICons? {
      PeakCovers(c, items.head, p);
      PeakItemsCovers(c, items.rest, Enc(c, items.head, p).rel);
    }
  }

  lemma {:induction false} PeakMembersCovers(c: Config, ext: Extensibility, ms: Members, p: nat)
    ensures |EncMembers(c, ext, ms, p).cells| <= PeakMembers(c, ext, ms, p)
    decreases ms, 0
  {
    hide EncSlot, PeakSlot;
    if ms.MCons? {
      PeakMembersCovers(c, ext, ms.rest, EncSlot(c, ext, ms.id, ms.must, ms.slot, p).rel);
    }
  }

  // ---------------------------------------------------------------- short headers first: no more room than bytes

  /** With short headers by default the encoder never reaches past the end of what it writes. */
  lemma {:induction false} PeakExact(c: Config, v: Value, p: nat)
    requires c.sel == AutoShort
    ensures Peak(c, v, p) == |Enc(c, v, p).cells|
    decreases v, 0
  {
    hide Pad, Num, Gaps, CText, Raw, Elements, EncItems, EncMembers, PeakItems, PeakMembers;
    match v
    case Seq(_, items) => PeakItemsExact(c, items, p + Pad(p, 4) + if c.v2 then 8 else 4);
    case Struct(ext, ms) => PeakMembersExact(c, ext, ms, if c.v2 && ext != Final then p + Pad(p, 4) + 4 else p);
    case _ =>
  }

  lemma {:induction false} PeakItemsExact(c: Config, items: Items, p: nat)
    requires c.sel == AutoShort
    ensures PeakItems(c, items, p) == |EncItems(c, items, p).cells|
    decreases items, 0
  {
    hide Enc, Peak;
    if items.ICons? {
      PeakExact(c, items.head, p);
      PeakItemsExact(c, items.rest, Enc(c, items.head, p).rel);
    }
  }

  lemma {:induction false} PeakMembersExact(c: Config, ext: Extensibility, ms: Members, p: nat)
    requires c.sel == AutoShort
    ensures PeakMembers(c, ext, ms, p) == |EncMembers(c, ext, ms, p).cells|
    decreases ms, 0
  {
    hide EncSlot, PeakSlot;
    if ms.MCons? {
      PeakSlotExact(c, ext, ms.id, ms.must, ms.slot, p);
      PeakMembersExact(c, ext, ms.rest, EncSlot(c, ext, ms.id, ms.must, ms.slot, p).rel);
    }
  }

  lemma {:induction false} PeakSlotExact(c: Config, ext: Extensibility, id: nat, must: bool, slot: Slot, p: nat)
    requires c.sel == AutoShort
    ensures PeakSlot(c, ext, id, slot, p) == |EncSlot(c, ext, id, must, slot, p).cells|
    decreases slot, 0
  {
    hide Enc, Peak, Pad, EncHeaded1, EncHeaded2, PeakHeaded1, PeakHeaded2, Header1;
    if !slot.Absent? {
      PeakExact(c, slot.v, p);
      PeakExact(c, slot.v, p + 1);
      if c.v2 { PeakHeaded2Exact(c, id, must, slot.v, p); } else { PeakHeaded1Exact(c, id, must, slot.v, p); }
    }
  }

  lemma {:induction false} PeakHeaded2Exact(c: Config, id: nat, must: bool, v: Value, p: nat)
    requires c.sel == AutoShort && c.v2
    ensures PeakHeaded2(c, v, p) == |EncHeaded2(c, id, must, v, p).cells|
    decreases v, 1
  {
    hide Enc, Peak, Pad, Num, Gaps, Word2, Next;
    PeakExact(c, v, p + Pad(p, 4) + 4);
    EncShift(c, v, p + Pad(p, 4) + 4);
  }

  lemma {:induction false} PeakHeaded1Exact(c: Config, id: nat, must: bool, v: Value, p: nat)
    requires c.sel == AutoShort && !c.v2
    ensures PeakHeaded1(c, id, v, p) == |EncHeaded1(c, id, must, v, p).cells|
    decreases v, 1
  {
    hide Enc, Peak, Pad, Header1;
    PeakExact(c, v, 0);
  }
}
