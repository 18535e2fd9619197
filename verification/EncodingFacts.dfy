/** What moving a body, sharing a length and leaving a struct empty do to the layout. */
module EncodingFacts {
  import opened Layout
  import opened Schema
  import opened Encoding

  // ---------------------------------------------------------------- moving a body by 4

  lemma PadShift(p: nat, a: nat)
    requires IsAlign(a) && a <= 4
    ensures Pad(p + 4, a) == Pad(p, a)
  {
  }

  lemma {:induction false} ElementsShift(c: Config, k: Kind, ns: seq<nat>, p: nat)
    requires c.v2
    ensures Elements(c, k, ns, p + 4) == Elements(c, k, ns, p)
  {
    hide Pad, Num, Gaps;
    if ns != [] {
      PadShift(p, c.AlignOf(k));
      ElementsShift(c, k, ns[1..], p + |Scalar(c, ns[0], Size(k), c.AlignOf(k), p)|);
    }
  }

  /** XCDRv2 cells do not change when the body starts 4 bytes later: a finished body can be moved. */
  lemma {:induction false} EncShift(c: Config, v: Value, p: nat)
    requires c.v2
    ensures Enc(c, v, p + 4).cells == Enc(c, v, p).cells
    decreases v, 0
  {
    hide Pad, Num, Gaps, CText, WText, Raw, Header1, Sentinel, Word2, FormOf, ShortCode, LongCode, Next, Count;
    PadShift(p, 4);
    match v
    case Prim(k, n) => PadShift(p, c.AlignOf(k));
    case Str(_) =>
    case WStr(chars) => ElementsShift(c, K2, WText(chars), p + Pad(p, 4) + 4);
    case SeqPrim(k, ns) => ElementsShift(c, k, ns, p + Pad(p, 4) + 4);
    case Seq(_, items) => ItemsShift(c, items, p + Pad(p, 4) + 8);
    case Struct(ext, ms) =>
      MembersShift(c, ext, ms, if ext == Final then p else p + Pad(p, 4) + 4);
  }

  lemma {:induction false} ItemsShift(c: Config, items: Items, p: nat)
    requires c.v2
    ensures EncItems(c, items, p + 4).cells == EncItems(c, items, p).cells
    decreases items
  {
    hide Enc;
    match items
    case INil =>
    case ICons(v, rest) =>
      EncShift(c, v, p);
      ItemsShift(c, rest, Enc(c, v, p).rel);
  }

  lemma {:induction false} MembersShift(c: Config, ext: Extensibility, ms: Members, p: nat)
    requires c.v2
    ensures EncMembers(c, ext, ms, p + 4).cells == EncMembers(c, ext, ms, p).cells
    decreases ms
  {
    hide EncSlot;
    match ms
    case MNil =>
    case MCons(id, must, slot, rest) =>
      SlotShift(c, ext, id, must, slot, p);
      MembersShift(c, ext, rest, EncSlot(c, ext, id, must, slot, p).rel);
  }

  lemma {:induction false} SlotShift(c: Config, ext: Extensibility, id: nat, must: bool, slot: Slot, p: nat)
    requires c.v2
    ensures EncSlot(c, ext, id, must, slot, p + 4).cells == EncSlot(c, ext, id, must, slot, p).cells
    decreases slot
  {
    match slot
    case Absent(_) =>
    case Req(v) =>
      if ext == Mutable { HeadedShift(c, id, must, v, p); } else { EncShift(c, v, p); }
    case Present(v) =>
      if ext == Mutable { HeadedShift(c, id, must, v, p); } else { EncShift(c, v, p + 1); }
  }

  lemma {:induction false} HeadedShift(c: Config, id: nat, must: bool, v: Value, p: nat)
    requires c.v2
    ensures EncHeaded2(c, id, must, v, p + 4).cells == EncHeaded2(c, id, must, v, p).cells
    decreases v, 1
  {
    hide Pad, Num, Gaps, CText, Raw, Header1, Sentinel, Word2, FormOf, ShortCode, LongCode, Next, Count;
    PadShift(p, 4);
    EncShift(c, v, p + Pad(p, 4) + 4);
    EncShift(c, v, p + Pad(p, 4) + 8);
  }

  /** Nor does it matter which multiple of 4 it starts on. */
  lemma EncAligned(c: Config, v: Value, p: nat)
    requires c.v2 && p % 4 == 0
    ensures Enc(c, v, p).cells == Enc(c, v, 0).cells
  {
    hide Enc;
    assert p == 4 * (p / 4);
    EncFours(c, v, p / 4);
  }

  lemma {:induction false} EncFours(c: Config, v: Value, k: nat)
    requires c.v2
    ensures Enc(c, v, 4 * k).cells == Enc(c, v, 0).cells
    decreases k
  {
    hide Enc;
    if k > 0 {
      EncFours(c, v, k - 1);
      EncShift(c, v, 4 * (k - 1));
    }
  }

  // ---------------------------------------------------------------- values that take no bytes

  /** No bytes at all: a plain struct, every member of which is such a struct. */
  predicate Hollow(c: Config, v: Value)
    decreases v
  {
    v.Struct? && v.ext != Mutable && (c.v2 ==> v.ext == Final) && HollowMembers(c, v.members)
  }

  predicate HollowMembers(c: Config, ms: Members)
    decreases ms
  {
    match ms
    case MNil => true
    case MCons(_, _, slot, rest) => slot.Req? && Hollow(c, slot.v) && HollowMembers(c, rest)
  }

  predicate HollowItems(c: Config, items: Items) {
    match items
    case INil => true
    case ICons(v, rest) => Hollow(c, v) && HollowItems(c, rest)
  }

  lemma NoItems(c: Config, p: nat)
    ensures EncItems(c, INil, p) == Out([], p)
  {
  }

  lemma {:induction false} EncHollow(c: Config, v: Value, p: nat)
    ensures Hollow(c, v) <==> |Enc(c, v, p).cells| == 0
    ensures Hollow(c, v) ==> Enc(c, v, p).rel == p
    decreases v
  {
    if v.Struct? && v.ext != Mutable && (c.v2 ==> v.ext == Final) {
      EncHollowMembers(c, v.ext, v.members, p);
    }
  }

  lemma {:induction false} EncHollowMembers(c: Config, ext: Extensibility, ms: Members, p: nat)
    requires ext != Mutable
    ensures HollowMembers(c, ms) <==> |EncMembers(c, ext, ms, p).cells| == 0
    ensures HollowMembers(c, ms) ==> EncMembers(c, ext, ms, p).rel == p
    decreases ms
  {
    match ms
    case MNil =>
    case MCons(id, must, slot, rest) =>
      var a := EncSlot(c, ext, id, must, slot, p);
      if slot.Req? {
        EncHollow(c, slot.v, p);
      } else if slot.Present? && !c.v2 {
        assert a == EncHeaded1(c, id, must, slot.v, p) && |a.cells| > 0;
      } else {
        assert |a.cells| > 0;
      }
      EncHollowMembers(c, ext, rest, a.rel);
  }

  lemma {:induction false} EncHollowItems(c: Config, items: Items, p: nat)
    ensures HollowItems(c, items) <==> |EncItems(c, items, p).cells| == 0
    ensures HollowItems(c, items) ==> EncItems(c, items, p).rel == p
    decreases items
  {
    match items
    case INil =>
    case ICons(v, rest) =>
      EncHollow(c, v, p);
      EncHollowItems(c, rest, Enc(c, v, p).rel);
  }

  // ---------------------------------------------------------------- sequences of primitives

  lemma PadStep(c: Config, k: Kind, p: nat)
    ensures Pad(p + Pad(p, c.AlignOf(k)) + Size(k), c.AlignOf(k)) == 0
  {
    if k == K8 {
      if c.v2 { PadAfter4(p); } else { assert Pad(p + Pad(p, 8) + 8, 8) == 0; }
    } else if k == K4 {
      PadAfter4(p);
    } else if k == K2 {
      assert Pad(p + Pad(p, 2) + 2, 2) == 0;
    }
  }

  /** From an aligned start the elements lie back to back: no padding before any of them. */
  lemma {:induction false} ElementsPacked(c: Config, k: Kind, ns: seq<nat>, p: nat)
    requires Pad(p, c.AlignOf(k)) == 0
    ensures |Elements(c, k, ns, p)| == |ns| * Size(k)
  {
    hide Pad;
    if ns != [] {
      PadStep(c, k, p);
      ElementsPacked(c, k, ns[1..], p + Size(k));
      assert |ns[1..]| * Size(k) + Size(k) == |ns| * Size(k);
    }
  }

  lemma {:induction false} ElementsAtLeast(c: Config, k: Kind, ns: seq<nat>, p: nat)
    ensures |Elements(c, k, ns, p)| >= |ns|
  {
    hide Pad, Scalar;
    if ns != [] {
      var e := Scalar(c, ns[0], Size(k), c.AlignOf(k), p);
      ElementsAtLeast(c, k, ns[1..], p + |e|);
      assert |Elements(c, k, ns, p)| == |e| + |Elements(c, k, ns[1..], p + |e|)|;
    }
  }

  // ---------------------------------------------------------------- sharing NEXTINT with the body

  /** In XCDRv2 no element is padded after an aligned count. */
  lemma PadBelow4(c: Config, k: Kind, p: nat)
    requires c.v2 && Pad(p, 4) == 0
    ensures Pad(p + 4, c.AlignOf(k)) == 0 && Pad(p, c.AlignOf(k)) == 0
  {
  }

  /** Bytes per unit of the shared length. */
  function Unit(next: NextInt): nat
    requires next != NoNext
  {
    match next
    case Next1 => 1
    case Next4 => 4
    case Next8 => 8
  }

  /**
   Whenever the encoder shares NEXTINT, the body opens with a number `n` from which its length follows:
   4 + n times the unit its length code stands for.
   */
  lemma NextIntSound(c: Config, v: Value, p: nat) returns (n: nat, rest: Cells)
    requires c.v2 && Next(v) != NoNext && Pad(p, 4) == 0
    ensures Enc(c, v, p).cells == Num(c, n, 4) + rest
    ensures |Enc(c, v, p).cells| == 4 + n * Unit(Next(v))
  {
    hide Pad, CText, Num, Raw, EncItems, EncMembers, Elements;
    var aligned := Gaps(0);
    match v
    case Str(text) =>
      n, rest := |CText(text, 0)| + 1, Raw(CText(text, 0)) + [B(0)];
      assert aligned + Num(c, n, 4) + Raw(CText(text, 0)) + [B(0)] == Num(c, n, 4) + rest;
    case SeqPrim(k, ns) =>
      n, rest := |ns|, Elements(c, k, ns, p + 4);
      PadBelow4(c, k, p);
      ElementsPacked(c, k, ns, p + 4);
      assert aligned + Num(c, n, 4) == Num(c, n, 4);
    case Seq(_, items) =>
      var b := EncItems(c, items, p + 8);
      n, rest := 4 + |b.cells|, Num(c, Count(items), 4) + b.cells;
      assert aligned + Num(c, n, 4) + Num(c, Count(items), 4) + b.cells == Num(c, n, 4) + rest;
    case Struct(ext, ms) =>
      var b := EncMembers(c, ext, ms, p + 4);
      n, rest := |b.cells|, b.cells;
      assert aligned + Num(c, n, 4) == Num(c, n, 4);
  }

  // ---------------------------------------------------------------- values that keep the alignment origin

  /** No member header inside: in XCDRv1 each of them starts a new origin that is never popped. */
  predicate OneOrigin(c: Config, v: Value)
    decreases v
  {
    match v
    case Seq(_, items) => OneOriginItems(c, items)
    case Struct(ext, ms) => OneOriginMembers(c, ext, ms)
    case _ => true
  }

  predicate OneOriginItems(c: Config, items: Items)
    decreases items
  {
    match items
    case INil => true
    case ICons(v, rest) => OneOrigin(c, v) && OneOriginItems(c, rest)
  }

  predicate OneOriginMembers(c: Config, ext: Extensibility, ms: Members)
    decreases ms
  {
    match ms
    case MNil => true
    case MCons(_, _, slot, rest) =>
      && (c.v2 || (if ext == Mutable then slot.Absent? else slot.Req? && OneOrigin(c, slot.v)))
      && OneOriginMembers(c, ext, rest)
  }

  /** The origin after a value is the one before it exactly when no header was written inside. */
  lemma {:induction false} EncOneOrigin(c: Config, v: Value, p: nat)
    requires !c.v2
    ensures OneOrigin(c, v) <==> Enc(c, v, p).rel == p + |Enc(c, v, p).cells|
    decreases v
  {
    hide Pad, CText, Elements, Num, Scalar;
    match v
    case Seq(_, items) => ItemsOneOrigin(c, items, p + |U32(c, Count(items), p)|);
    case Struct(ext, ms) => MembersOneOrigin(c, ext, ms, p);
    case _ =>
  }

  lemma {:induction false} ItemsOneOrigin(c: Config, items: Items, p: nat)
    requires !c.v2
    ensures OneOriginItems(c, items) <==> EncItems(c, items, p).rel == p + |EncItems(c, items, p).cells|
    decreases items
  {
    match items
    case INil =>
    case ICons(v, rest) =>
      EncOneOrigin(c, v, p);
      ItemsOneOrigin(c, rest, Enc(c, v, p).rel);
  }

  lemma {:induction false} MembersOneOrigin(c: Config, ext: Extensibility, ms: Members, p: nat)
    requires !c.v2
    ensures OneOriginMembers(c, ext, ms) <==> EncMembers(c, ext, ms, p).rel == p + |EncMembers(c, ext, ms, p).cells|
    decreases ms
  {
    hide Header1;
    match ms
    case MNil =>
    case MCons(id, must, slot, rest) =>
      var a := EncSlot(c, ext, id, must, slot, p);
      if slot.Req? && ext != Mutable {
        EncOneOrigin(c, slot.v, p);
      } else if slot.Absent? {
      } else {
        assert a == EncHeaded1(c, id, must, slot.v, p);
        assert a.rel < p + |a.cells|;
      }
      MembersOneOrigin(c, ext, rest, a.rel);
  }
}
