/**
 Starting with a short header and widening it, or starting with a long one and narrowing it: when the two
 automatic selections leave the same bytes.
 */
module Selections {
  import opened Layout
  import opened Schema
  import opened Encoding

  /** An absent member with a short identifier in a plain struct, at any depth: its header is never exchanged. */
  predicate Blank(v: Value)
    decreases v
  {
    match v
    case Seq(_, items) => BlankItems(items)
    case Struct(ext, ms) => BlankMembers(ext, ms)
    case _ => false
  }

  predicate BlankItems(items: Items)
    decreases items
  {
    items.ICons? && (Blank(items.head) || BlankItems(items.rest))
  }

  predicate BlankMembers(ext: Extensibility, ms: Members)
    decreases ms
  {
    ms.MCons? && (BlankSlot(ext, ms.id, ms.slot) || BlankMembers(ext, ms.rest))
  }

  predicate BlankSlot(ext: Extensibility, id: nat, slot: Slot)
    decreases slot
  {
    if slot.Absent? then ext != Mutable && id <= MAX_SHORT_ID else Blank(slot.v)
  }

  /** What the two selections make of the same thing: the same cells, or in XCDRv1 the long one more of them. */
  predicate Agree(v2: bool, blank: bool, short: Out, long: Out) {
    if v2 || !blank then short == long else short.rel == long.rel && |short.cells| < |long.cells|
  }

  function Long(v2: bool, little: bool): Config { Config(v2, little, AutoLong) }

  lemma AgreeOn(v2: bool, blank: bool, blank': bool, a: Out, b: Out, a': Out, b': Out)
    requires Agree(v2, blank, a, b) && Agree(v2, blank', a', b')
    ensures Agree(v2, blank || blank', Out(a.cells + a'.cells, a'.rel), Out(b.cells + b'.cells, b'.rel))
  {
  }

  lemma NumAgree(v2: bool, little: bool, n: nat, w: nat)
    ensures Num(Automatic(v2, little), n, w) == Num(Long(v2, little), n, w)
  {
  }

  lemma {:induction false} ElementsAgree(v2: bool, little: bool, k: Kind, ns: seq<nat>, p: nat)
    ensures Elements(Automatic(v2, little), k, ns, p) == Elements(Long(v2, little), k, ns, p)
    decreases |ns|
  {
    hide Pad, Num;
    if ns != [] {
      NumAgree(v2, little, ns[0], Size(k));
      ElementsAgree(v2, little, k, ns[1..], p + Pad(p, Automatic(v2, little).AlignOf(k)) + Size(k));
    }
  }

  /**
   The two automatic selections give the same cells exactly when the version is 2 or no short header was
   written for an absent member.
   */
  lemma AutoSelections(v2: bool, little: bool, v: Value, p: nat)
    ensures Enc(Automatic(v2, little), v, p) == Enc(Long(v2, little), v, p) <==> v2 || !Blank(v)
  {
    hide Enc, Blank;
    ValueAgree(v2, little, v, p);
  }

  lemma {:induction false} ValueAgree(v2: bool, little: bool, v: Value, p: nat)
    ensures Agree(v2, Blank(v), Enc(Automatic(v2, little), v, p), Enc(Long(v2, little), v, p))
    decreases v, 0
  {
    hide Pad, Num, CText, WText, Raw, Gaps, Elements, EncItems, EncMembers, BlankItems, BlankMembers;
    match v
    case Prim(k, n) => NumAgree(v2, little, n, Size(k));
    case Str(t) => NumAgree(v2, little, |CText(t, 0)| + 1, 4);
    case WStr(s) =>
      NumAgree(v2, little, |WText(s)|, 4);
      ElementsAgree(v2, little, K2, WText(s), p + Pad(p, 4) + 4);
    case SeqPrim(k, ns) =>
      NumAgree(v2, little, |ns|, 4);
      ElementsAgree(v2, little, k, ns, p + Pad(p, 4) + 4);
    case Seq(_, items) =>
      var q := p + Pad(p, 4) + if v2 then 8 else 4;
      NumAgree(v2, little, Count(items), 4);
      ItemsAgree(v2, little, items, q);
      NumAgree(v2, little, 4 + |EncItems(Automatic(v2, little), items, q).cells|, 4);
    case Struct(ext, ms) =>
      var q := if v2 && ext != Final then p + Pad(p, 4) + 4 else p;
      MembersAgree(v2, little, ext, ms, q);
      NumAgree(v2, little, |EncMembers(Automatic(v2, little), ext, ms, q).cells|, 4);
      NumAgree(v2, little, PID_SENTINEL, 2);
      NumAgree(v2, little, 0, 2);
  }

  lemma {:induction false} ItemsAgree(v2: bool, little: bool, items: Items, p: nat)
    ensures Agree(v2, BlankItems(items), EncItems(Automatic(v2, little), items, p), EncItems(Long(v2, little), items, p))
    decreases items, 0
  {
    hide Enc, Blank, Agree;
    match items
    case INil => assert Agree(v2, false, Out([], p), Out([], p)) by { SameAgrees(v2, Out([], p)); }
    case ICons(v, rest) =>
      ValueAgree(v2, little, v, p);
      var a, b := Enc(Automatic(v2, little), v, p), Enc(Long(v2, little), v, p);
      SameRel(v2, Blank(v), a, b);
      ItemsAgree(v2, little, rest, a.rel);
      AgreeOn(v2, Blank(v), BlankItems(rest), a, b,
              EncItems(Automatic(v2, little), rest, a.rel), EncItems(Long(v2, little), rest, a.rel));
  }

  lemma SameAgrees(v2: bool, a: Out)
    ensures Agree(v2, false, a, a)
  {
  }

  lemma SameRel(v2: bool, blank: bool, a: Out, b: Out)
    requires Agree(v2, blank, a, b)
    ensures a.rel == b.rel
  {
  }

  lemma {:induction false} MembersAgree(v2: bool, little: bool, ext: Extensibility, ms: Members, p: nat)
    ensures Agree(v2, BlankMembers(ext, ms),
                  EncMembers(Automatic(v2, little), ext, ms, p), EncMembers(Long(v2, little), ext, ms, p))
    decreases ms, 0
  {
    hide EncSlot, BlankSlot, Agree;
    match ms
    case MNil => assert Agree(v2, false, Out([], p), Out([], p)) by { SameAgrees(v2, Out([], p)); }
    case MCons(id, must, slot, rest) =>
      SlotAgree(v2, little, ext, id, must, slot, p);
      var a, b := EncSlot(Automatic(v2, little), ext, id, must, slot, p), EncSlot(Long(v2, little), ext, id, must, slot, p);
      SameRel(v2, BlankSlot(ext, id, slot), a, b);
      MembersAgree(v2, little, ext, rest, a.rel);
      AgreeOn(v2, BlankSlot(ext, id, slot), BlankMembers(ext, rest), a, b,
              EncMembers(Automatic(v2, little), ext, rest, a.rel), EncMembers(Long(v2, little), ext, rest, a.rel));
  }

  lemma {:induction false} SlotAgree(v2: bool, little: bool, ext: Extensibility, id: nat, must: bool, slot: Slot, p: nat)
    ensures Agree(v2, BlankSlot(ext, id, slot),
                  EncSlot(Automatic(v2, little), ext, id, must, slot, p), EncSlot(Long(v2, little), ext, id, must, slot, p))
    decreases slot
  {
    hide Enc, Blank, EncHeaded1, EncHeaded2, Header1, Pad;
    if slot.Absent? {
      HeaderAgree(v2, little, id, must, 0, true, p);
    } else {
      var v := slot.v;
      ValueAgree(v2, little, v, p);
      ValueAgree(v2, little, v, p + 1);
      if v2 { Headed2Agree(little, id, must, v, p); } else { Headed1Agree(little, id, must, v, p); }
    }
  }

  lemma HeaderAgree(v2: bool, little: bool, id: nat, must: bool, size: nat, long: bool, p: nat)
    ensures Header1(Automatic(v2, little), id, must, size, long, p) == Header1(Long(v2, little), id, must, size, long, p)
  {
    hide Num, Gaps, Pad, Word1;
    NumAgree(v2, little, Word1(must, PID_EXTENDED), 2);
    NumAgree(v2, little, 8, 2);
    NumAgree(v2, little, id, 4);
    NumAgree(v2, little, size, 4);
    NumAgree(v2, little, Word1(must, id), 2);
    NumAgree(v2, little, size, 2);
  }

  lemma {:induction false} Headed1Agree(little: bool, id: nat, must: bool, v: Value, p: nat)
    ensures Agree(false, Blank(v),
                  EncHeaded1(Automatic(false, little), id, must, v, p), EncHeaded1(Long(false, little), id, must, v, p))
    decreases v, 1
  {
    hide Enc, Blank, Header1, Pad;
    ValueAgree(false, little, v, 0);
    var size := |Enc(Automatic(false, little), v, 0).cells|;
    HeaderAgree(false, little, id, must, size, IsLong1(AutoShort, id, size), p);
  }

  lemma {:induction false} Headed2Agree(little: bool, id: nat, must: bool, v: Value, p: nat)
    ensures EncHeaded2(Automatic(true, little), id, must, v, p) == EncHeaded2(Long(true, little), id, must, v, p)
    decreases v, 1
  {
    hide Enc, Blank, Pad, Next, Num, Gaps, Word2;
    var q := p + Pad(p, 4);
    ValueAgree(true, little, v, q + 4);
    ValueAgree(true, little, v, q + 8);
    var size := |Enc(Automatic(true, little), v, q + 4).cells|;
    NumAgree(true, little, Word2(must, ShortCode(size), id), 4);
    NumAgree(true, little, Word2(must, LongCode(Next(v)), id), 4);
    NumAgree(true, little, Word2(must, 4, id), 4);
    NumAgree(true, little, size, 4);
  }

  /** An absent member for which they do not: 4 bytes of header, or 12. */
  lemma BlankDiffers(little: bool, must: bool, ty: Type)
    ensures var v := Struct(Final, MCons(1, must, Absent(ty), MNil));
      && |Enc(Automatic(false, little), v, 0).cells| == 4 && |Enc(Long(false, little), v, 0).cells| == 12
  {
    hide Num, Gaps, Word1;
    var s, l := Automatic(false, little), Long(false, little);
    assert EncMembers(s, Final, MNil, 0) == Out([], 0) && EncMembers(l, Final, MNil, 0) == Out([], 0);
    assert |EncSlot(s, Final, 1, must, Absent(ty), 0).cells| == 4;
    assert |EncSlot(l, Final, 1, must, Absent(ty), 0).cells| == 12;
  }
}
