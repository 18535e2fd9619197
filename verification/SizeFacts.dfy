/** How the calculated size compares with the bytes the encoder writes. */
module SizeFacts {
  import opened Layout
  import opened Schema
  import opened Encoding
  import opened EncodingFacts
  import opened Evolution
  import opened Sizes

  /** No string, wide or not, holds a zero; in XCDRv1 no sequence of 8-byte elements is empty. */
  predicate Dense(c: Config, v: Value)
    decreases v
  {
    match v
    case Str(s) => CText(s, 0) == s
    case WStr(s) => CText(s, 0) == s
    case SeqPrim(k, ns) => !c.v2 && k == K8 ==> ns != []
    case Seq(_, items) => DenseItems(c, items)
    case Struct(_, ms) => DenseMembers(c, ms)
    case _ => true
  }

  predicate DenseItems(c: Config, items: Items)
    decreases items
  {
    match items
    case INil => true
    case ICons(v, rest) => Dense(c, v) && DenseItems(c, rest)
  }

  predicate DenseMembers(c: Config, ms: Members)
    decreases ms
  {
    match ms
    case MNil => true
    case MCons(_, _, slot, rest) => (!slot.Absent? ==> Dense(c, slot.v)) && DenseMembers(c, rest)
  }

  // ---------------------------------------------------------------- XCDRv2: the exact difference

  /** The flag the calculator holds after a value; it depends on no position. */
  function FlagAfter(v: Value, next: NextInt): NextInt
    decreases v
  {
    match v
    case Prim(_, _) => next
    case Str(_) => Next1
    case WStr(_) => next
    case SeqPrim(k, _) => if k == KBool then next else SeqNext(k)
    case Seq(_, _) => Next1
    case Struct(ext, ms) => if ext != Final then Next1 else FlagAfterMembers(ms, NoNext)
  }

  function FlagAfterMembers(ms: Members, next: NextInt): NextInt
    decreases ms
  {
    match ms
    case MNil => next
    case MCons(_, _, slot, rest) => FlagAfterMembers(rest, FlagAfterSlot(slot, next))
  }

  function FlagAfterSlot(slot: Slot, next: NextInt): NextInt
    decreases slot
  {
    match slot
    case Req(_) => NoNext
    case Absent(_) => next
    case Present(v) => FlagAfter(v, next)
  }

  /** Bytes the calculator is off by, over all mutable members at every depth; negative where it falls short. */
  function Drift(c: Config, v: Value): int
    requires c.v2
    decreases v, 0
  {
    match v
    case Seq(_, items) => DriftItems(c, items)
    case Struct(ext, ms) => DriftMembers(c, ext, ms, NoNext)
    case _ => 0
  }

  function DriftItems(c: Config, items: Items): int
    requires c.v2
    decreases items
  {
    match items
    case INil => 0
    case ICons(v, rest) => Drift(c, v) + DriftItems(c, rest)
  }

  function DriftMembers(c: Config, ext: Extensibility, ms: Members, next: NextInt): int
    requires c.v2
    decreases ms
  {
    match ms
    case MNil => 0
    case MCons(_, _, slot, rest) =>
      SlotDrift(c, ext, slot, next) + DriftMembers(c, ext, rest, FlagAfterSlot(slot, next))
  }

  function SlotDrift(c: Config, ext: Extensibility, slot: Slot, next: NextInt): int
    requires c.v2
    decreases slot
  {
    if slot.Absent? then 0
    else Drift(c, slot.v) + if ext == Mutable then HeadDrift(c, slot.Present?, slot.v, next) else 0
  }

  /** One header: what is charged for it less what is spent on it. */
  function HeadDrift(c: Config, optional: bool, v: Value, next: NextInt): int
    requires c.v2
    decreases v, 1
  {
    var size := |Enc(c, v, 0).cells|;
    Charge2(optional, FlagAfter(v, next), size) - Header2Length(c.sel, Next(v), size)
  }

  lemma PadCong(p: nat, d: int, a: nat)
    requires IsAlign(a) && a <= 4 && p + 4 * d >= 0
    ensures Pad(p + 4 * d, a) == Pad(p, a)
  {
    if a == 2 {
      var q, r := p / 2, p % 2;
      assert p + 4 * d == 2 * (q + 2 * d) + r;
    } else if a == 4 {
      var q, r := p / 4, p % 4;
      assert p + 4 * d == 4 * (q + d) + r;
    }
  }

  /** Calculated and written size, with the position they leave: `d` counts in fours how far apart those are. */
  ghost predicate Tracks(r: Sized, e: Out, p: nat, drift: int, d: int) {
    r.size == |e.cells| + drift && r.at == p + |e.cells| + 4 * d
  }

  /** A difference arises only where both sizes are beyond the length codes. */
  ghost predicate Apart(r: Sized, e: Out, drift: int, least: nat) {
    drift != 0 ==> |e.cells| > least && r.size > least
  }

  lemma {:induction false} Tracks2(c: Config, v: Value, p: nat, d0: int, next: NextInt) returns (d: int)
    requires c.v2 && Writable(c, v) && Dense(c, v) && p + 4 * d0 >= 0
    ensures var r, e := Calc(c, v, p + 4 * d0, next), Enc(c, v, p);
      Tracks(r, e, p, Drift(c, v), d) && Apart(r, e, Drift(c, v), 8) && r.next == FlagAfter(v, next)
    decreases v, 0
  {
    hide Pad, CText, WText, Elements, HeadDrift, U32, EncItems, CalcItems, EncMembers, CalcMembers, DriftItems, DriftMembers,
         FlagAfterMembers, WritableItems, WritableMembers, DenseItems, DenseMembers;
    d := d0;
    PadCong(p, d0, 4);
    match v
    case Prim(_, _) => TracksLeaf2(c, v, p, d0, next);
    case Str(_) => TracksLeaf2(c, v, p, d0, next);
    case WStr(_) => TracksLeaf2(c, v, p, d0, next);
    case SeqPrim(_, _) => TracksLeaf2(c, v, p, d0, next);
    case Seq(_, items) =>
      PadAfter4(p);
      PadCong(p + Pad(p, 4) + 4, d0, 4);
      d := TracksItems2(c, items, p + Pad(p, 4) + 8, d0, next);
    case Struct(ext, ms) =>
      d := TracksMembers2(c, ext, ms, if ext == Final then p else p + Pad(p, 4) + 4, d0, NoNext);
  }

  lemma TracksLeaf2(c: Config, v: Value, p: nat, d0: int, next: NextInt)
    requires c.v2 && (v.Prim? || v.Str? || v.WStr? || v.SeqPrim?) && Dense(c, v) && p + 4 * d0 >= 0
    ensures var r := Calc(c, v, p + 4 * d0, next);
      Tracks(r, Enc(c, v, p), p, 0, d0) && r.next == FlagAfter(v, next) && Drift(c, v) == 0
  {
    hide Pad, CText, WText, Elements, U32;
    PadCong(p, d0, 4);
    match v
    case Prim(k, _) => PadCong(p, d0, c.AlignOf(k));
    case Str(_) =>
    case WStr(chars) => WideBytes(c, chars, p);
    case SeqPrim(k, ns) => TracksSeqPrim2(c, k, ns, p, d0, next);
  }

  lemma TracksSeqPrim2(c: Config, k: Kind, ns: seq<nat>, p: nat, d0: int, next: NextInt)
    requires c.v2 && p + 4 * d0 >= 0
    ensures var v := SeqPrim(k, ns);
      Tracks(Calc(c, v, p + 4 * d0, next), Enc(c, v, p), p, 0, d0)
  {
    hide Pad, Elements;
    PadCong(p, d0, 4);
    PadAfter4(p);
    PadBelow4(c, k, p + Pad(p, 4));
    PadCong(p + Pad(p, 4) + 4, d0, c.AlignOf(k));
    ElementsPacked(c, k, ns, p + Pad(p, 4) + 4);
    assert k == KBool ==> |ns| * Size(k) == |ns|;
  }

  /** A wide string takes two bytes a character. */
  lemma WideBytes(c: Config, chars: seq<nat>, p: nat)
    ensures |Enc(c, WStr(chars), p).cells| == Pad(p, 4) + 4 + 2 * |WText(chars)|
  {
    hide Pad, Elements, WText;
    PadAfter4(p);
    EvenAfter4(p + Pad(p, 4) + 4);
    ElementsPacked(c, K2, WText(chars), p + Pad(p, 4) + 4);
  }

  lemma {:induction false} TracksItems2(c: Config, items: Items, p: nat, d0: int, next: NextInt) returns (d: int)
    requires c.v2 && WritableItems(c, items) && DenseItems(c, items) && p + 4 * d0 >= 0
    ensures var r, e := CalcItems(c, items, p + 4 * d0, next), EncItems(c, items, p);
      Tracks(r, e, p, DriftItems(c, items), d) && Apart(r, e, DriftItems(c, items), 8)
    decreases items
  {
    hide Calc, Enc, Drift, Writable, Dense, Hollow;
    match items
    case INil => d := d0;
    case ICons(v, rest) =>
      var d1 := Tracks2(c, v, p, d0, next);
      var a := Calc(c, v, p + 4 * d0, next);
      d := TracksItems2(c, rest, Enc(c, v, p).rel, d1, a.next);
  }

  lemma {:induction false} TracksMembers2(c: Config, ext: Extensibility, ms: Members, p: nat, d0: int, next: NextInt)
      returns (d: int)
    requires c.v2 && WritableMembers(c, ext, ms) && DenseMembers(c, ms) && p + 4 * d0 >= 0
    ensures var r, e := CalcMembers(c, ext, ms, p + 4 * d0, next), EncMembers(c, ext, ms, p);
      && Tracks(r, e, p, DriftMembers(c, ext, ms, next), d)
      && Apart(r, e, DriftMembers(c, ext, ms, next), if ext == Mutable then 4 else 8)
      && r.next == FlagAfterMembers(ms, next)
    decreases ms
  {
    hide CalcSlot, EncSlot, SlotDrift, Writable, Dense, Hollow, FlagAfterSlot;
    match ms
    case MNil => d := d0;
    case MCons(id, must, slot, rest) =>
      var d1 := TracksSlot2(c, ext, id, must, slot, p, d0, next);
      var a := CalcSlot(c, ext, id, slot, p + 4 * d0, next);
      d := TracksMembers2(c, ext, rest, EncSlot(c, ext, id, must, slot, p).rel, d1, a.next);
  }

  lemma {:induction false} TracksSlot2(c: Config, ext: Extensibility, id: nat, must: bool, slot: Slot,
                                       p: nat, d0: int, next: NextInt) returns (d: int)
    requires c.v2 && p + 4 * d0 >= 0
    requires !slot.Absent? ==> Writable(c, slot.v) && Dense(c, slot.v)
    requires !slot.Absent? && ext == Mutable ==> !Hollow(c, slot.v)
    ensures var r, e := CalcSlot(c, ext, id, slot, p + 4 * d0, next), EncSlot(c, ext, id, must, slot, p);
      && Tracks(r, e, p, SlotDrift(c, ext, slot, next), d)
      && Apart(r, e, SlotDrift(c, ext, slot, next), if ext == Mutable then 4 else 8)
      && r.next == FlagAfterSlot(slot, next)
    decreases slot
  {
    hide Calc, Enc, Drift, Writable, Dense, Hollow, HeadDrift, FlagAfter, EncHeaded2, CalcHeaded2;
    match slot
    case Absent(_) => d := d0;
    case Req(v) =>
      if ext == Mutable { d := TracksHeaded2(c, id, must, false, v, p, d0, next); }
      else { d := Tracks2(c, v, p, d0, next); }
    case Present(v) =>
      if ext == Mutable { d := TracksHeaded2(c, id, must, true, v, p, d0, next); }
      else { d := Tracks2(c, v, p + 1, d0, next); }
  }

  lemma {:induction false} TracksHeaded2(c: Config, id: nat, must: bool, optional: bool, v: Value,
                                         p: nat, d0: int, next: NextInt) returns (d: int)
    requires c.v2 && p + 4 * d0 >= 0 && Writable(c, v) && Dense(c, v) && !Hollow(c, v)
    ensures var r, e := CalcHeaded2(c, optional, v, p + 4 * d0, next), EncHeaded2(c, id, must, v, p);
      && Tracks(r, e, p, Drift(c, v) + HeadDrift(c, optional, v, next), d)
      && |e.cells| > 4 && r.size > 4 && r.next == FlagAfter(v, next)
    decreases v, 1
  {
    hide Pad, Enc, Calc, Drift, Writable, Dense, Hollow, FlagAfter, Next, EncHeaded2;
    var q := p + Pad(p, 4);
    PadCong(p, d0, 4);
    PadAligns(p, 4);
    // The calculator sizes the body where the header starts; the encoder writes it behind the header.
    var d1 := Tracks2(c, v, q, d0, next);
    EncAligned(c, v, q);
    EncHollow(c, v, 0);
    HeaderBytes(c, id, must, v, p);
    var r := Calc(c, v, q + 4 * d0, next);
    var step, spent := Step2(optional, r.next, r.size), Header2Length(c.sel, Next(v), |Enc(c, v, 0).cells|);
    d := if step == spent then d1 else if step > spent then d1 + 1 else d1 - 1;
  }

  lemma HeaderBytes(c: Config, id: nat, must: bool, v: Value, p: nat)
    requires c.v2
    ensures var size := |Enc(c, v, 0).cells|;
      |EncHeaded2(c, id, must, v, p).cells| == Pad(p, 4) + Header2Length(c.sel, Next(v), size) + size
  {
    hide Pad, Enc, Word2, Next;
    var q := p + Pad(p, 4);
    PadAligns(p, 4);
    EncAligned(c, v, q + 4);
    EncAligned(c, v, q + 8);
  }

  /**
   XCDRv2 size: for every value without zeros in its strings the calculated size is the number of bytes written
   plus the drift of its mutable members, so it is exact, short or generous according to the drift alone.
   */
  lemma SizeOff2(c: Config, v: Value)
    requires c.v2 && Writable(c, v) && Dense(c, v)
    ensures Calc(c, v, 0, NoNext).size == |Enc(c, v, 0).cells| + Drift(c, v)
  {
    hide Calc, Enc, Drift, Writable, Dense;
    var d := Tracks2(c, v, 0, 0, NoNext);
  }

  // ---------------------------------------------------------------- XCDRv2: where it is exact

  /** No optional member in a mutable struct, no boolean sequence as a mutable member, no optional leaking a flag. */
  predicate Plainly(v: Value)
    decreases v
  {
    match v
    case Seq(_, items) => PlainlyItems(items)
    case Struct(ext, ms) => PlainlyMembers(ext, ms)
    case _ => true
  }

  predicate PlainlyItems(items: Items)
    decreases items
  {
    match items
    case INil => true
    case ICons(v, rest) => Plainly(v) && PlainlyItems(rest)
  }

  predicate PlainlyMembers(ext: Extensibility, ms: Members)
    decreases ms
  {
    match ms
    case MNil => true
    case MCons(_, _, slot, rest) =>
      && (ext == Mutable ==> !slot.Present? && !(slot.Req? && BoolSeq(slot.v)) && !(slot.Req? && Leaks(slot.v)))
      && (!slot.Absent? ==> Plainly(slot.v))
      && PlainlyMembers(ext, rest)
  }

  predicate BoolSeq(v: Value) {
    v.SeqPrim? && v.k == KBool
  }

  /** A final struct after which the calculator still holds the flag of an optional member. */
  predicate Leaks(v: Value) {
    v.Struct? && v.ext == Final && FlagAfterMembers(v.members, NoNext) != NoNext
  }

  lemma {:induction false} PlainlyExact(c: Config, v: Value)
    requires c.v2 && c.sel != LongOnly && Plainly(v)
    ensures Drift(c, v) == 0
    decreases v
  {
    match v
    case Seq(_, items) => PlainlyItemsExact(c, items);
    case Struct(ext, ms) => PlainlyMembersExact(c, ext, ms, NoNext);
    case _ =>
  }

  lemma {:induction false} PlainlyItemsExact(c: Config, items: Items)
    requires c.v2 && c.sel != LongOnly && PlainlyItems(items)
    ensures DriftItems(c, items) == 0
    decreases items
  {
    match items
    case INil =>
    case ICons(v, rest) => PlainlyExact(c, v); PlainlyItemsExact(c, rest);
  }

  lemma {:induction false} PlainlyMembersExact(c: Config, ext: Extensibility, ms: Members, next: NextInt)
    requires c.v2 && c.sel != LongOnly && PlainlyMembers(ext, ms) && (ext == Mutable ==> next == NoNext)
    ensures DriftMembers(c, ext, ms, next) == 0
    decreases ms
  {
    hide Enc;
    match ms
    case MNil =>
    case MCons(_, _, slot, rest) =>
      if !slot.Absent? {
        PlainlyExact(c, slot.v);
        if ext == Mutable { ReqHeadExact(c, slot.v); }
      }
      PlainlyMembersExact(c, ext, rest, FlagAfterSlot(slot, next));
  }

  /** A plain mutable member is charged what is spent on it. */
  lemma ReqHeadExact(c: Config, v: Value)
    requires c.v2 && c.sel != LongOnly && !BoolSeq(v) && !Leaks(v)
    ensures HeadDrift(c, false, v, NoNext) == 0
  {
    hide Enc;
    var size := |Enc(c, v, 0).cells|;
    assert FlagAfter(v, NoNext) == Next(v);
  }

  /** XCDRv2 exactness over the types the calculator's plain overload covers. */
  lemma SizeExact2(c: Config, v: Value)
    requires c.v2 && c.sel != LongOnly && Writable(c, v) && Dense(c, v) && Plainly(v)
    ensures Calc(c, v, 0, NoNext).size == |Enc(c, v, 0).cells|
  {
    hide Calc, Enc, Drift, Writable, Dense, Plainly;
    SizeOff2(c, v);
    PlainlyExact(c, v);
  }

  /** A boolean sequence as a plain mutable member is charged 4 bytes too many unless it has 0 or 4 elements. */
  lemma BoolSeqDrift(c: Config, ns: seq<nat>)
    requires c.v2
    ensures HeadDrift(c, false, SeqPrim(KBool, ns), NoNext) == if |ns| == 0 || |ns| == 4 then 0 else 4
  {
    hide Elements;
    ElementsPacked(c, KBool, ns, 4);
    assert |Enc(c, SeqPrim(KBool, ns), 0).cells| == 4 + |ns|;
  }

  /** An optional mutable member of 3, 5, 6 or 7 bytes without a length of its own is charged 4 bytes too few. */
  lemma OptionalDrift(c: Config, v: Value)
    requires c.v2 && c.sel != LongOnly && Next(v) == NoNext && FlagAfter(v, NoNext) == NoNext && |Enc(c, v, 0).cells| > 0
    ensures var size := |Enc(c, v, 0).cells|;
      HeadDrift(c, true, v, NoNext) == if size == 3 || size == 5 || size == 6 || size == 7 then -4 else 0
  {
    hide Enc, FlagAfter, Next;
  }

  /** A writer that insists on long headers spends 4 bytes more on each that could be short. */
  lemma LongOnlyDrift(c: Config, v: Value)
    requires c.v2 && c.sel == LongOnly && Next(v) == NoNext && FlagAfter(v, NoNext) == NoNext
    ensures HeadDrift(c, false, v, NoNext) == if PowerSize(|Enc(c, v, 0).cells|) then -4 else 0
  {
    hide Enc, FlagAfter, Next;
  }

  /** An optional mutable member holding one 16-bit element: the calculated size is 4 bytes less than the encoder writes. */
  lemma Shortfall(c: Config, n: nat)
    requires c.v2 && c.sel != LongOnly && InKind(K2, n)
    ensures var v := Struct(Mutable, MCons(1, false, Present(SeqPrim(K2, [n])), MNil));
      Writable(c, v) && Dense(c, v) && Calc(c, v, 0, NoNext).size == |Enc(c, v, 0).cells| - 4 == 14
  {
    hide Calc, Enc;
    var body := SeqPrim(K2, [n]);
    var ms := MCons(1, false, Present(body), MNil);
    SixBytes(c, n);
    OptionalDrift(c, body);
    assert !Hollow(c, body) && Writable(c, body) && Dense(c, body);
    assert WritableMembers(c, Mutable, MNil) && DenseMembers(c, MNil);
    assert MemberIds(MNil) == {};
    assert DriftMembers(c, Mutable, MNil, NoNext) == 0;
    assert FlagAfterSlot(Present(body), NoNext) == NoNext;
    assert SlotDrift(c, Mutable, Present(body), NoNext) == -4;
    assert DriftMembers(c, Mutable, ms, NoNext) == -4;
    assert ms.slot.v == body && ms.rest == MNil;
    assert WritableMembers(c, Mutable, ms);
    assert DistinctMembers(ms);
    assert DenseMembers(c, ms);
    SizeOff2(c, Struct(Mutable, ms));
    EighteenBytes(c, body);
  }

  /** DHEADER, long header and 6 bytes. */
  lemma EighteenBytes(c: Config, v: Value)
    requires c.v2 && Next(v) == NoNext && |Enc(c, v, 0).cells| == 6
    ensures |Enc(c, Struct(Mutable, MCons(1, false, Present(v), MNil)), 0).cells| == 18
  {
    hide EncHeaded2, U32, Next;
    var ms := MCons(1, false, Present(v), MNil);
    HeaderBytes(c, 1, false, v, 4);
    assert |EncSlot(c, Mutable, 1, false, Present(v), 4).cells| == 14;
    assert EncMembers(c, Mutable, MNil, 18) == Out([], 18);
    assert |EncMembers(c, Mutable, ms, 4).cells| == 14;
  }

  lemma SixBytes(c: Config, n: nat)
    requires c.v2
    ensures |Enc(c, SeqPrim(K2, [n]), 0).cells| == 6
  {
    hide Elements;
    ElementsPacked(c, K2, [n], 4);
  }

  // ---------------------------------------------------------------- XCDRv1: the exact difference

  /** Bytes the calculator falls short by, over all headers at every depth. */
  function Excess(c: Config, v: Value): int
    requires !c.v2
    decreases v, 0
  {
    match v
    case Seq(_, items) => ExcessItems(c, items)
    case Struct(ext, ms) => ExcessMembers(c, ext, ms)
    case _ => 0
  }

  function ExcessItems(c: Config, items: Items): int
    requires !c.v2
    decreases items
  {
    match items
    case INil => 0
    case ICons(v, rest) => Excess(c, v) + ExcessItems(c, rest)
  }

  function ExcessMembers(c: Config, ext: Extensibility, ms: Members): int
    requires !c.v2
    decreases ms
  {
    match ms
    case MNil => 0
    case MCons(id, _, slot, rest) => SlotExcess(c, ext, id, slot) + ExcessMembers(c, ext, rest)
  }

  function SlotExcess(c: Config, ext: Extensibility, id: nat, slot: Slot): int
    requires !c.v2
    decreases slot
  {
    if slot.Absent? then
      if ext == Mutable then 0 else AbsentLength(c.sel, id) - Charge1(id, true, 0)
    else Excess(c, slot.v) + if Headed(c, ext, slot) then HeadExcess(c, id, ext != Mutable, slot.v) else 0
  }

  /** One header: what is spent on it less what is charged, which depends on the size calculated for the body. */
  function HeadExcess(c: Config, id: nat, always: bool, v: Value): int
    requires !c.v2
    decreases v, 1
  {
    var size := |Enc(c, v, 0).cells|;
    Header1Length(c.sel, id, size) - Charge1(id, always, size - Excess(c, v))
  }

  /** Bytes of the header of an absent member of a plain struct. */
  function AbsentLength(sel: HeaderSelection, id: nat): nat {
    if AllocatesLong1(id, sel) then 12 else 4
  }

  /** Calculated and written size, which end at the same distance from the origin. */
  ghost predicate Trails(r: Sized, e: Out, excess: int) {
    r.size == |e.cells| - excess && r.at == e.rel
  }

  lemma {:induction false} Trails1(c: Config, v: Value, p: nat, next: NextInt)
    requires !c.v2 && Dense(c, v)
    ensures Trails(Calc(c, v, p, next), Enc(c, v, p), Excess(c, v))
    decreases v, 0
  {
    hide Pad, CText, WText, Num, Elements, Sentinel, CalcItems, EncItems, CalcMembers, EncMembers, ExcessItems, ExcessMembers,
         DenseItems, DenseMembers;
    match v
    case Prim(_, _) =>
    case Str(_) =>
    case WStr(chars) => TrailsWide1(c, chars, p, next);
    case SeqPrim(k, ns) => TrailsSeqPrim1(c, k, ns, p, next);
    case Seq(_, items) => TrailsItems1(c, items, p + Pad(p, 4) + 4, next);
    case Struct(ext, ms) => TrailsMembers1(c, ext, ms, p, NoNext);
  }

  lemma TrailsWide1(c: Config, chars: seq<nat>, p: nat, next: NextInt)
    requires CText(chars, 0) == chars
    ensures Trails(Calc(c, WStr(chars), p, next), Enc(c, WStr(chars), p), 0)
  {
    hide Pad, Elements, U32;
    WideBytes(c, chars, p);
  }

  lemma TrailsSeqPrim1(c: Config, k: Kind, ns: seq<nat>, p: nat, next: NextInt)
    requires !c.v2 && (k == K8 ==> ns != [])
    ensures Trails(Calc(c, SeqPrim(k, ns), p, next), Enc(c, SeqPrim(k, ns), p), 0)
  {
    hide Pad, Elements;
    ElementsEnd(c, k, ns, p + Pad(p, 4) + 4);
    if k != K8 {
      PadWithin4(k, p);
      assert k == KBool ==> |ns| * Size(k) == |ns|;
    }
  }

  /** Elements end, aligned or not, no later than the calculator supposes. */
  lemma ElementsEnd(c: Config, k: Kind, ns: seq<nat>, p: nat)
    ensures |Elements(c, k, ns, p)| == if ns == [] then 0 else Pad(p, c.AlignOf(k)) + |ns| * Size(k)
  {
    hide Pad;
    if ns != [] {
      PadStep(c, k, p);
      var q := p + Pad(p, c.AlignOf(k)) + Size(k);
      ElementsPacked(c, k, ns[1..], q);
      assert |ns[1..]| * Size(k) + Size(k) == |ns| * Size(k);
    }
  }

  lemma PadWithin4(k: Kind, p: nat)
    requires k != K8
    ensures Pad(p + Pad(p, 4) + 4, Size(k)) == 0
  {
  }

  lemma {:induction false} TrailsItems1(c: Config, items: Items, p: nat, next: NextInt)
    requires !c.v2 && DenseItems(c, items)
    ensures Trails(CalcItems(c, items, p, next), EncItems(c, items, p), ExcessItems(c, items))
    decreases items
  {
    hide Calc, Enc, Dense, Excess;
    match items
    case INil =>
    case ICons(v, rest) =>
      Trails1(c, v, p, next);
      TrailsItems1(c, rest, Enc(c, v, p).rel, Calc(c, v, p, next).next);
  }

  lemma {:induction false} TrailsMembers1(c: Config, ext: Extensibility, ms: Members, p: nat, next: NextInt)
    requires !c.v2 && DenseMembers(c, ms)
    ensures Trails(CalcMembers(c, ext, ms, p, next), EncMembers(c, ext, ms, p), ExcessMembers(c, ext, ms))
    decreases ms
  {
    hide Dense, CalcSlot, EncSlot, SlotExcess;
    match ms
    case MNil =>
    case MCons(id, must, slot, rest) =>
      TrailsSlot1(c, ext, id, must, slot, p, next);
      TrailsMembers1(c, ext, rest, EncSlot(c, ext, id, must, slot, p).rel, CalcSlot(c, ext, id, slot, p, next).next);
  }

  lemma {:induction false} TrailsSlot1(c: Config, ext: Extensibility, id: nat, must: bool, slot: Slot, p: nat, next: NextInt)
    requires !c.v2 && (!slot.Absent? ==> Dense(c, slot.v))
    ensures Trails(CalcSlot(c, ext, id, slot, p, next), EncSlot(c, ext, id, must, slot, p), SlotExcess(c, ext, id, slot))
    decreases slot
  {
    hide Pad, Calc, Enc, Dense, Header1, Excess;
    if !slot.Absent? { Trails1(c, slot.v, if Headed(c, ext, slot) then 0 else p, next); }
  }

  /**
   XCDRv1 size: for every value without zeros in its strings and without empty sequences of 8-byte elements, and every
   selection, the calculated size is the number of bytes written less the excess of its headers.
   */
  lemma SizeOff1(c: Config, v: Value)
    requires !c.v2 && Dense(c, v)
    ensures Calc(c, v, 0, NoNext).size == |Enc(c, v, 0).cells| - Excess(c, v)
  {
    hide Calc, Enc, Excess, Dense;
    Trails1(c, v, 0, NoNext);
  }

  // ---------------------------------------------------------------- XCDRv1: where it is no less

  /**
   Every header, at every depth, is as short as its identifier and the size of its body allow, and no member of a mutable
   struct is without a body, for which the calculator charges no header.
   */
  predicate Lean(c: Config, v: Value)
    decreases v
  {
    match v
    case Seq(_, items) => LeanItems(c, items)
    case Struct(ext, ms) => LeanMembers(c, ext, ms)
    case _ => true
  }

  predicate LeanItems(c: Config, items: Items)
    decreases items
  {
    match items
    case INil => true
    case ICons(v, rest) => Lean(c, v) && LeanItems(c, rest)
  }

  predicate LeanMembers(c: Config, ext: Extensibility, ms: Members)
    decreases ms
  {
    match ms
    case MNil => true
    case MCons(id, _, slot, rest) => LeanSlot(c, ext, id, slot) && LeanMembers(c, ext, rest)
  }

  predicate LeanSlot(c: Config, ext: Extensibility, id: nat, slot: Slot)
    decreases slot
  {
    if slot.Absent? then ext != Mutable && AllocatesLong(c.sel) ==> id > MAX_SHORT_ID
    else Lean(c, slot.v) && (Headed(c, ext, slot) ==> LeanHeader(c, ext, id, |Enc(c, slot.v, 0).cells|))
  }

  predicate LeanHeader(c: Config, ext: Extensibility, id: nat, size: nat) {
    (c.sel == LongOnly ==> id > MAX_SHORT_ID || size > 0xFFFF) && (ext == Mutable ==> size > 0)
  }

  /** No header is ever charged more than is spent on it, and all are charged in full exactly if they are lean. */
  lemma {:induction false} LeanIff(c: Config, v: Value)
    requires !c.v2
    ensures Excess(c, v) >= 0 && (Excess(c, v) == 0 <==> Lean(c, v))
    decreases v
  {
    match v
    case Seq(_, items) => LeanItemsIff(c, items);
    case Struct(ext, ms) => LeanMembersIff(c, ext, ms);
    case _ =>
  }

  lemma {:induction false} LeanItemsIff(c: Config, items: Items)
    requires !c.v2
    ensures ExcessItems(c, items) >= 0 && (ExcessItems(c, items) == 0 <==> LeanItems(c, items))
    decreases items
  {
    match items
    case INil =>
    case ICons(v, rest) =>
      LeanIff(c, v);
      LeanItemsIff(c, rest);
  }

  lemma {:induction false} LeanMembersIff(c: Config, ext: Extensibility, ms: Members)
    requires !c.v2
    ensures ExcessMembers(c, ext, ms) >= 0 && (ExcessMembers(c, ext, ms) == 0 <==> LeanMembers(c, ext, ms))
    decreases ms
  {
    hide SlotExcess, LeanSlot;
    match ms
    case MNil =>
    case MCons(id, _, slot, rest) =>
      LeanSlotIff(c, ext, id, slot);
      LeanMembersIff(c, ext, rest);
  }

  lemma {:induction false} LeanSlotIff(c: Config, ext: Extensibility, id: nat, slot: Slot)
    requires !c.v2
    ensures SlotExcess(c, ext, id, slot) >= 0 && (SlotExcess(c, ext, id, slot) == 0 <==> LeanSlot(c, ext, id, slot))
    decreases slot
  {
    hide Enc, Excess, Lean;
    if !slot.Absent? {
      LeanIff(c, slot.v);
      LeanHeaderIff(c, ext, id, |Enc(c, slot.v, 0).cells|, Excess(c, slot.v));
    }
  }

  lemma LeanHeaderIff(c: Config, ext: Extensibility, id: nat, size: nat, excess: int)
    requires excess >= 0
    ensures var spare := Header1Length(c.sel, id, size) - Charge1(id, ext != Mutable, size - excess);
      spare >= 0 && (excess == 0 ==> (spare == 0 <==> LeanHeader(c, ext, id, size)))
  {
  }

  /**
   The calculator is never behind: neither in position nor in bytes counted against position. The second
   part is what survives the reset of both positions at a member header.
   */
  ghost predicate Covers(r: Sized, at: nat, e: Out, p: nat) {
    e.rel <= r.at && |e.cells| - e.rel + p <= r.size - r.at + at
  }

  lemma {:induction false} Covers1(c: Config, v: Value, p: nat, at: nat, next: NextInt)
    requires !c.v2 && Lean(c, v) && p <= at
    ensures Covers(Calc(c, v, at, next), at, Enc(c, v, p), p)
    decreases v, 0
  {
    hide Pad, CText, WText, Num, Elements, Sentinel, LeanItems, LeanMembers, EncItems, EncMembers, CalcItems, CalcMembers;
    PadMonotone(p, at, 4);
    match v
    case Prim(k, _) => PadMonotone(p, at, c.AlignOf(k));
    case Str(_) =>
    case WStr(chars) => CoversWide1(c, chars, p, at, next);
    case SeqPrim(k, ns) => CoversSeqPrim1(c, k, ns, p, at, next);
    case Seq(_, items) => CoversItems1(c, items, p + Pad(p, 4) + 4, at + Pad(at, 4) + 4, next);
    case Struct(ext, ms) =>
      CoversMembers1(c, ext, ms, p, at, NoNext);
      PadMonotone(EncMembers(c, ext, ms, p).rel, CalcMembers(c, ext, ms, at, NoNext).at, 4);
  }

  lemma CoversWide1(c: Config, chars: seq<nat>, p: nat, at: nat, next: NextInt)
    requires p <= at
    ensures Covers(Calc(c, WStr(chars), at, next), at, Enc(c, WStr(chars), p), p)
  {
    hide Pad, Elements, U32, WText;
    PadMonotone(p, at, 4);
    WideBytes(c, chars, p);
  }

  lemma CoversSeqPrim1(c: Config, k: Kind, ns: seq<nat>, p: nat, at: nat, next: NextInt)
    requires !c.v2 && p <= at
    ensures Covers(Calc(c, SeqPrim(k, ns), at, next), at, Enc(c, SeqPrim(k, ns), p), p)
  {
    hide Pad, Elements;
    PadMonotone(p, at, 4);
    var q, qt := p + Pad(p, 4) + 4, at + Pad(at, 4) + 4;
    PadMonotone(q, qt, c.AlignOf(k));
    ElementsEnd(c, k, ns, q);
    if k == KBool {
      assert |ns| * Size(k) == |ns|;
      PadOne(q);
    }
  }

  lemma {:induction false} CoversItems1(c: Config, items: Items, p: nat, at: nat, next: NextInt)
    requires !c.v2 && LeanItems(c, items) && p <= at
    ensures Covers(CalcItems(c, items, at, next), at, EncItems(c, items, p), p)
    decreases items
  {
    hide Calc, Enc, Lean;
    match items
    case INil =>
    case ICons(v, rest) =>
      Covers1(c, v, p, at, next);
      var a := Calc(c, v, at, next);
      CoversItems1(c, rest, Enc(c, v, p).rel, a.at, a.next);
  }

  lemma {:induction false} CoversMembers1(c: Config, ext: Extensibility, ms: Members, p: nat, at: nat, next: NextInt)
    requires !c.v2 && LeanMembers(c, ext, ms) && p <= at
    ensures Covers(CalcMembers(c, ext, ms, at, next), at, EncMembers(c, ext, ms, p), p)
    decreases ms
  {
    hide CalcSlot, EncSlot, LeanSlot;
    match ms
    case MNil =>
    case MCons(id, must, slot, rest) =>
      CoversSlot1(c, ext, id, must, slot, p, at, next);
      var a := CalcSlot(c, ext, id, slot, at, next);
      CoversMembers1(c, ext, rest, EncSlot(c, ext, id, must, slot, p).rel, a.at, a.next);
  }

  lemma {:induction false} CoversSlot1(c: Config, ext: Extensibility, id: nat, must: bool, slot: Slot,
                                       p: nat, at: nat, next: NextInt)
    requires !c.v2 && LeanSlot(c, ext, id, slot) && p <= at
    ensures Covers(CalcSlot(c, ext, id, slot, at, next), at, EncSlot(c, ext, id, must, slot, p), p)
    decreases slot
  {
    hide Pad, Calc, Enc, Lean, Header1;
    PadMonotone(p, at, 4);
    if !slot.Absent? {
      if Headed(c, ext, slot) { Covers1(c, slot.v, 0, 0, next); } else { Covers1(c, slot.v, p, at, next); }
    }
  }

  /** XCDRv1 size: for every value with lean headers, optional members included, it is never below the bytes written. */
  lemma SizeBound1(c: Config, v: Value)
    requires !c.v2 && Lean(c, v)
    ensures |Enc(c, v, 0).cells| <= Calc(c, v, 0, NoNext).size
  {
    hide Calc, Enc, Lean;
    Covers1(c, v, 0, 0, NoNext);
  }

  /** Where it is exact but for the headers, it is no less than the bytes written exactly if they are lean. */
  lemma SizeExact1(c: Config, v: Value)
    requires !c.v2 && Dense(c, v)
    ensures Calc(c, v, 0, NoNext).size <= |Enc(c, v, 0).cells|
    ensures Calc(c, v, 0, NoNext).size == |Enc(c, v, 0).cells| <==> Lean(c, v)
  {
    hide Calc, Enc, Lean, Dense, Excess;
    SizeOff1(c, v);
    LeanIff(c, v);
  }

  /** An absent member behind a long header: 12 bytes, of which 4 are charged. */
  lemma AbsentShortfall(c: Config, must: bool, ty: Type)
    requires !c.v2 && AllocatesLong(c.sel)
    ensures var v := Struct(Final, MCons(1, must, Absent(ty), MNil));
      Writable(c, v) && |Enc(c, v, 0).cells| == 12 && Calc(c, v, 0, NoNext).size == 4
  {
    hide Num, Gaps, Word1;
    assert EncMembers(c, Final, MNil, 0) == Out([], 0) && WritableMembers(c, Final, MNil);
    assert CalcMembers(c, Final, MNil, 0, NoNext) == Sized(0, 0, NoNext);
    assert |EncSlot(c, Final, 1, must, Absent(ty), 0).cells| == 12;
    assert CalcSlot(c, Final, 1, Absent(ty), 0, NoNext) == Sized(4, 0, NoNext);
  }

  /** A present one behind a header that may not be short: 13 bytes, of which 5 are charged. */
  lemma PresentShortfall(c: Config, must: bool, n: nat)
    requires !c.v2 && c.sel == LongOnly && InKind(K1, n)
    ensures var v := Struct(Final, MCons(1, must, Present(Prim(K1, n)), MNil));
      Writable(c, v) && |Enc(c, v, 0).cells| == 13 && Calc(c, v, 0, NoNext).size == 5
  {
    hide Num, Gaps, Word1, Enc, Calc;
    var body, ms := Prim(K1, n), MCons(1, must, Present(Prim(K1, n)), MNil);
    OneByte(c, n);
    assert EncMembers(c, Final, MNil, 1) == Out([], 1) && WritableMembers(c, Final, MNil);
    assert CalcMembers(c, Final, MNil, 1, NoNext) == Sized(0, 1, NoNext);
    assert EncSlot(c, Final, 1, must, Present(body), 0).rel == 1;
    assert CalcSlot(c, Final, 1, Present(body), 0, NoNext) == Sized(5, 1, NoNext);
    assert |EncMembers(c, Final, ms, 0).cells| == 13;
    assert CalcMembers(c, Final, ms, 0, NoNext).size == 5;
    assert WritableMembers(c, Final, ms);
    PlainStruct1(c, Final, ms);
  }

  lemma OneByte(c: Config, n: nat)
    requires InKind(K1, n)
    ensures var v := Prim(K1, n);
      && |Enc(c, v, 0).cells| == Enc(c, v, 0).rel == 1 && Calc(c, v, 0, NoNext) == Sized(1, 1, NoNext)
      && Writable(c, v) && !Hollow(c, v)
  {
  }

  /** A plain struct is its members. */
  lemma PlainStruct1(c: Config, ext: Extensibility, ms: Members)
    requires !c.v2 && ext != Mutable
    ensures Enc(c, Struct(ext, ms), 0) == EncMembers(c, ext, ms, 0)
    ensures Calc(c, Struct(ext, ms), 0, NoNext).size == CalcMembers(c, ext, ms, 0, NoNext).size
  {
  }

  /** A mutable struct's member of no bytes: header and sentinel take 8 bytes, of which 4 are charged. */
  lemma HollowShortfall(c: Config, must: bool)
    requires !c.v2 && c.sel != LongOnly
    ensures var v := Struct(Mutable, MCons(1, must, Req(Struct(Final, MNil)), MNil));
      Writable(c, v) && |Enc(c, v, 0).cells| == 8 && Calc(c, v, 0, NoNext).size == 4
  {
    hide Enc, Calc, EncMembers, CalcMembers, Writable;
    var body := Struct(Final, MNil);
    NoBytes(c);
    OneWritable1(c, must, body);
    OneHollow1(c, must, body);
    MutableStruct1(c, MCons(1, must, Req(body), MNil));
  }

  lemma OneWritable1(c: Config, must: bool, v: Value)
    requires !c.v2 && Writable(c, v)
    ensures Writable(c, Struct(Mutable, MCons(1, must, Req(v), MNil)))
  {
    hide Hollow;
    var ms := MCons(1, must, Req(v), MNil);
    assert MemberIds(MNil) == {} && DistinctMembers(ms);
    assert WritableMembers(c, Mutable, MNil);
    assert WritableMembers(c, Mutable, ms);
  }

  lemma OneHollow1(c: Config, must: bool, v: Value)
    requires !c.v2 && c.sel != LongOnly && Enc(c, v, 0) == Out([], 0) && Calc(c, v, 0, NoNext) == Sized(0, 0, NoNext)
    ensures var ms := MCons(1, must, Req(v), MNil); var b := EncMembers(c, Mutable, ms, 0);
      |b.cells| == 4 && b.rel == 0 && CalcMembers(c, Mutable, ms, 0, NoNext) == Sized(0, 0, NoNext)
  {
    hide Enc, Calc, Num, Gaps, Word1;
    var a := EncHeaded1(c, 1, must, v, 0);
    assert |a.cells| == 4 && a.rel == 0;
    assert EncSlot(c, Mutable, 1, must, Req(v), 0) == a;
    assert EncMembers(c, Mutable, MNil, 0) == Out([], 0);
    assert CalcSlot(c, Mutable, 1, Req(v), 0, NoNext) == Sized(0, 0, NoNext);
    assert CalcMembers(c, Mutable, MNil, 0, NoNext) == Sized(0, 0, NoNext);
  }

  lemma NoBytes(c: Config)
    requires !c.v2
    ensures var v := Struct(Final, MNil);
      Enc(c, v, 0) == Out([], 0) && Calc(c, v, 0, NoNext) == Sized(0, 0, NoNext) && Writable(c, v)
  {
    assert EncMembers(c, Final, MNil, 0) == Out([], 0) && WritableMembers(c, Final, MNil);
    assert CalcMembers(c, Final, MNil, 0, NoNext) == Sized(0, 0, NoNext);
  }

  /** A mutable one is its members and a sentinel. */
  lemma MutableStruct1(c: Config, ms: Members)
    requires !c.v2
    ensures var b, r := EncMembers(c, Mutable, ms, 0), CalcMembers(c, Mutable, ms, 0, NoNext);
      && |Enc(c, Struct(Mutable, ms), 0).cells| == |b.cells| + Pad(b.rel, 4) + 4
      && Calc(c, Struct(Mutable, ms), 0, NoNext).size == r.size + Pad(r.at, 4) + 4
  {
    hide Pad, Num;
  }
}
