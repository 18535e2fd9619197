/** A reader that meets a must-understand member it does not know, at any depth, refuses the whole value. */
module Refusal {
  import opened Layout
  import opened Schema
  import opened Encoding
  import opened EncodingFacts
  import opened Decoding
  import opened Evolution
  import opened RoundTrip
  import opened Theorem

  /** A reader that would accept everything but unknown must-understand members, and meets one. */
  predicate Meets(c: Config, t: Type, v: Value) {
    Reads(c, true, t, v) && !Reads(c, false, t, v)
  }

  lemma {:induction false} HollowMeetsNone(c: Config, t: Type, v: Value)
    requires Hollow(c, v) && Reads(c, true, t, v)
    ensures Reads(c, false, t, v)
    decreases v
  {
    HollowPlainMeetsNone(c, false, t.fields, v.members);
  }

  lemma {:induction false} HollowPlainMeetsNone(c: Config, open: bool, fs: Fields, ms: Members)
    requires HollowMembers(c, ms) && ReadsPlain(c, true, open, fs, ms)
    ensures ReadsPlain(c, false, open, fs, ms)
    decreases ms
  {
    match (fs, ms)
    case (FCons(_, _, _, ty, frest), MCons(_, _, slot, rest)) =>
      HollowMeetsNone(c, ty, slot.v);
      HollowPlainMeetsNone(c, open, frest, rest);
    case _ =>
  }

  lemma {:induction false} HollowItemsMeetNone(c: Config, e: Type, items: Items)
    requires HollowItems(c, items) && ReadsItems(c, true, e, items)
    ensures ReadsItems(c, false, e, items)
    decreases items
  {
    match items
    case INil =>
    case ICons(v, rest) =>
      HollowMeetsNone(c, e, v);
      HollowItemsMeetNone(c, e, rest);
  }

  lemma {:induction false} RefuseValue(c: Config, t: Type, v: Value, buf: seq<byte>, cur: Cur)
    requires Writable(c, v) && Meets(c, t, v) && Stands(c, buf, cur, Enc(c, v, cur.rel))
    ensures Decode(c, t, buf, cur) == Err
    decreases v, 1
  {
    hide Stands, Writable, Enc;
    match v
    case Seq(_, items) =>
      if c.v2 { RefuseSeq2(c, t.elem, v, buf, cur); } else { RefuseSeq1(c, t.elem, v, buf, cur); }
    case Struct(ext, ms) =>
      if ext == Mutable {
        if c.v2 { RefuseMutable2(c, t.fields, v, buf, cur); } else { RefuseMutable1(c, t.fields, v, buf, cur); }
      } else if c.v2 && ext == Appendable {
        RefuseDelimited(c, t.fields, v, buf, cur);
      } else {
        RefusePlain(c, t.fields, v, buf, cur);
      }
    case _ =>
  }

  lemma {:induction false} RefuseItems(c: Config, e: Type, items: Items, buf: seq<byte>, cur: Cur, stop: nat)
    requires WritableItems(c, items) && Stands(c, buf, cur, EncItems(c, items, cur.rel))
    requires ReadsItems(c, true, e, items) && !ReadsItems(c, false, e, items)
    requires cur.off + |EncItems(c, items, cur.rel).cells| <= stop
    ensures DecItems(c, e, Count(items), buf, cur, stop) == Err
    decreases items
  {
    hide Stands, Enc, Decode, View, Hollow, Writable, Reads;
    var v, rest := items.head, items.rest;
    if cur.off >= stop {
      EncHollowItems(c, items, cur.rel);
      HollowItemsMeetNone(c, e, items);
    } else {
      var a := Enc(c, v, cur.rel);
      StandsConcat(c, buf, cur, a, EncItems(c, rest, a.rel), EncItems(c, items, cur.rel));
      if Reads(c, false, e, v) {
        ReadValue(c, e, v, buf, cur);
        RefuseItems(c, e, rest, buf, After(cur, a), stop);
      } else {
        RefuseValue(c, e, v, buf, cur);
      }
    }
  }

  lemma {:induction false} RefuseSeq2(c: Config, e: Type, v: Value, buf: seq<byte>, cur: Cur)
    requires c.v2 && v.Seq? && Writable(c, v) && Stands(c, buf, cur, Enc(c, v, cur.rel))
    requires ReadsItems(c, true, e, v.items) && !ReadsItems(c, false, e, v.items)
    ensures DecSeq2(c, e, buf, cur) == Err
    decreases v, 0
  {
    hide Pad, Holds, Num, U32, DecU32, EncItems, DecItems, WritableItems;
    var items := v.items;
    var n := Pad(cur.rel, 4) + 4;
    var start, cur1 := Cur(cur.off + n, cur.rel + n), Cur(cur.off + n + 4, cur.rel + n + 4);
    var b := EncItems(c, items, cur1.rel);
    var dh := U32(c, 4 + |b.cells|, cur.rel);
    assert dh + Num(c, Count(items), 4) + b.cells == dh + (Num(c, Count(items), 4) + b.cells);
    HoldsConcat(buf, cur.off, dh, Num(c, Count(items), 4) + b.cells);
    HoldsConcat(buf, start.off, Num(c, Count(items), 4), b.cells);
    ReadU32(c, 4 + |b.cells|, buf, cur);
    PadAfter4(cur.rel);
    ReadAligned(c, Count(items), buf, start);
    RefuseItems(c, e, items, buf, cur1, start.off + 4 + |b.cells|);
  }

  lemma {:induction false} RefuseSeq1(c: Config, e: Type, v: Value, buf: seq<byte>, cur: Cur)
    requires !c.v2 && v.Seq? && Writable(c, v) && Stands(c, buf, cur, Enc(c, v, cur.rel))
    requires ReadsItems(c, true, e, v.items) && !ReadsItems(c, false, e, v.items)
    ensures DecSeq1(c, e, buf, cur) == Err
    decreases v, 0
  {
    hide Pad, Holds, U32, DecU32, EncItems, DecItems, ReadsItems, WritableItems;
    var items := v.items;
    var n := Pad(cur.rel, 4) + 4;
    var cur1 := Cur(cur.off + n, cur.rel + n);
    var b := EncItems(c, items, cur1.rel);
    HoldsConcat(buf, cur.off, U32(c, Count(items), cur.rel), b.cells);
    HoldsFits(buf, cur1.off, b.cells);
    ReadU32(c, Count(items), buf, cur);
    RefuseItems(c, e, items, buf, cur1, |buf| + 1);
  }

  lemma {:induction false} RefuseSlot(c: Config, ext: Extensibility, ty: Type, id: nat, must: bool, slot: Slot,
                                      buf: seq<byte>, cur: Cur)
    requires ext != Mutable && Stands(c, buf, cur, EncSlot(c, ext, id, must, slot, cur.rel))
    requires Headed(c, ext, slot) ==> id < 0xFFFF_FFFF
    requires !slot.Absent? && Writable(c, slot.v) && Meets(c, ty, slot.v)
    requires NeedsBody(c, ext, slot) ==> !Hollow(c, slot.v)
    ensures DecSlot(c, !slot.Req?, ty, buf, cur) == Err
    decreases slot
  {
    hide Holds, Enc, Decode, Hollow, Writable, Meets, Header1, DecHeader1, DecPrim;
    match slot
    case Req(v) => RefuseValue(c, ty, v, buf, cur);
    case Present(v) =>
      if c.v2 {
        ReadFlag(c, 1, Enc(c, v, cur.rel + 1).cells, buf, cur);
        RefuseValue(c, ty, v, buf, Cur(cur.off + 1, cur.rel + 1));
      } else {
        var h, cur1 := ReadHeaded1(c, id, must, v, buf, cur);
        RefuseValue(c, ty, v, buf, cur1);
      }
  }

  lemma {:induction false} RefuseFields(c: Config, ext: Extensibility, open: bool, fs: Fields, ms: Members,
                                        buf: seq<byte>, cur: Cur, stop: nat)
    requires ext != Mutable && WritableMembers(c, ext, ms)
    requires ReadsPlain(c, true, open, fs, ms) && !ReadsPlain(c, false, open, fs, ms)
    requires Stands(c, buf, cur, EncMembers(c, ext, ms, cur.rel))
    requires cur.off + |EncMembers(c, ext, ms, cur.rel).cells| <= stop
    ensures DecFields(c, fs, buf, cur, stop) == Err
    decreases ms
  {
    hide Stands, EncSlot, DecSlot, ViewSlot, Hollow, Writable, Reads;
    match (fs, ms)
    case (FCons(_, _, opt, ty, frest), MCons(id, must, slot, rest)) =>
      if cur.off >= stop {
        EncHollowMembers(c, ext, ms, cur.rel);
        HollowPlainMeetsNone(c, open, fs, ms);
      } else {
        var a := EncSlot(c, ext, id, must, slot, cur.rel);
        StandsConcat(c, buf, cur, a, EncMembers(c, ext, rest, a.rel), EncMembers(c, ext, ms, cur.rel));
        if slot.Absent? || Reads(c, false, ty, slot.v) {
          ReadSlot(c, ext, ty, id, must, slot, buf, cur);
          RefuseFields(c, ext, open, frest, rest, buf, After(cur, a), stop);
        } else {
          RefuseSlot(c, ext, ty, id, must, slot, buf, cur);
        }
      }
    case _ =>
  }

  lemma {:induction false} RefusePlain(c: Config, fs: Fields, v: Value, buf: seq<byte>, cur: Cur)
    requires v.Struct? && v.ext != Mutable && !(c.v2 && v.ext == Appendable)
    requires Writable(c, v) && Stands(c, buf, cur, Enc(c, v, cur.rel))
    requires ReadsPlain(c, true, false, fs, v.members) && !ReadsPlain(c, false, false, fs, v.members)
    ensures Decode(c, TStruct(v.ext, fs), buf, cur) == Err
    decreases v, 0
  {
    hide EncMembers, DecFields, ReadsPlain, WritableMembers;
    RefuseFields(c, v.ext, false, fs, v.members, buf, cur, |buf|);
  }

  lemma {:induction false} RefuseDelimited(c: Config, fs: Fields, v: Value, buf: seq<byte>, cur: Cur)
    requires c.v2 && v.Struct? && v.ext == Appendable && Writable(c, v) && Stands(c, buf, cur, Enc(c, v, cur.rel))
    requires ReadsPlain(c, true, true, fs, v.members) && !ReadsPlain(c, false, true, fs, v.members)
    ensures Decode(c, TStruct(v.ext, fs), buf, cur) == Err
    decreases v, 0
  {
    hide Pad, Holds, U32, DecU32, EncMembers, DecFields, ReadsPlain, WritableMembers;
    var n := Pad(cur.rel, 4) + 4;
    var start := Cur(cur.off + n, cur.rel + n);
    var b := EncMembers(c, v.ext, v.members, start.rel);
    HoldsConcat(buf, cur.off, U32(c, |b.cells|, cur.rel), b.cells);
    ReadU32(c, |b.cells|, buf, cur);
    RefuseFields(c, v.ext, true, fs, v.members, buf, start, start.off + |b.cells|);
  }

  /** An unknown must-understand body, or a known one that itself is refused. */
  lemma {:induction false} RefuseBody(c: Config, fs: Fields, v: Value, h: Header, buf: seq<byte>, cur: Cur, acc: Members)
    requires Writable(c, v) && Stands(c, buf, cur, Enc(c, v, cur.rel))
    requires match FindField(fs, h.id) case None => h.must case Some(f) => Meets(c, f.ty, v)
    ensures RoundBody(c, fs, buf, cur, h, acc) == Err
    decreases v, 2
  {
    hide Enc, Decode, Writable, Meets, FindField, SetMember, Stands;
    match FindField(fs, h.id)
    case None =>
    case Some(f) => RefuseValue(c, f.ty, v, buf, cur);
  }

  lemma {:induction false} RefuseRounds2(c: Config, fs: Fields, ms: Members, buf: seq<byte>, cur: Cur, acc: Members)
    requires c.v2 && WritableMembers(c, Mutable, ms) && Stands(c, buf, cur, EncMembers(c, Mutable, ms, cur.rel))
    requires ReadsMutable(c, true, fs, ms) && !ReadsMutable(c, false, fs, ms)
    ensures Loop2(c, fs, buf, cur, cur.off + |EncMembers(c, Mutable, ms, cur.rel).cells|, acc) == Err
    decreases ms
  {
    hide Stands, EncHeaded2, Round2, Writable, Reads, Hollow, FindField, OneOrigin;
    var MCons(id, must, slot, rest) := ms;
    var a := EncSlot(c, Mutable, id, must, slot, cur.rel);
    StandsConcat(c, buf, cur, a, EncMembers(c, Mutable, rest, a.rel), EncMembers(c, Mutable, ms, cur.rel));
    if slot.Absent? {
      RefuseRounds2(c, fs, rest, buf, cur, acc);
    } else if match FindField(fs, id) case None => !must case Some(f) => Reads(c, false, f.ty, slot.v) {
      ReadRound2(c, fs, id, must, slot.v, buf, cur, acc);
      RefuseRounds2(c, fs, rest, buf, After(cur, a), StoreOne(fs, id, slot, acc));
    } else {
      RefuseRound2(c, fs, id, must, slot.v, buf, cur, acc);
    }
  }

  lemma {:induction false} RefuseRound2(c: Config, fs: Fields, id: nat, must: bool, v: Value,
                                        buf: seq<byte>, cur: Cur, acc: Members)
    requires c.v2 && id < 0x1000_0000 && !Hollow(c, v) && Writable(c, v)
    requires Stands(c, buf, cur, EncHeaded2(c, id, must, v, cur.rel))
    requires match FindField(fs, id) case None => must case Some(f) => Meets(c, f.ty, v)
    ensures Round2(c, fs, buf, cur, acc) == Err
    ensures |EncHeaded2(c, id, must, v, cur.rel).cells| > 0
    decreases v, 3
  {
    hide Pad, Holds, EncHeaded2, Enc, Writable, Meets, Hollow, RoundBody, DecHeader2;
    var h, cur1 := ReadHeaded2(c, id, must, v, buf, cur);
    EncHollow(c, v, cur1.rel);
    RefuseBody(c, fs, v, h, buf, cur1, acc);
  }

  lemma {:induction false} RefuseMutable2(c: Config, fs: Fields, v: Value, buf: seq<byte>, cur: Cur)
    requires c.v2 && v.Struct? && v.ext == Mutable && Writable(c, v) && Stands(c, buf, cur, Enc(c, v, cur.rel))
    requires ReadsMutable(c, true, fs, v.members) && !ReadsMutable(c, false, fs, v.members)
    ensures Decode(c, TStruct(v.ext, fs), buf, cur) == Err
    decreases v, 0
  {
    hide Pad, Holds, U32, DecU32, EncMembers, Loop2, ReadsMutable, WritableMembers, DefaultMembers, DistinctMembers;
    var n := Pad(cur.rel, 4) + 4;
    var start := Cur(cur.off + n, cur.rel + n);
    var b := EncMembers(c, v.ext, v.members, start.rel);
    HoldsConcat(buf, cur.off, U32(c, |b.cells|, cur.rel), b.cells);
    ReadU32(c, |b.cells|, buf, cur);
    RefuseRounds2(c, fs, v.members, buf, start, DefaultMembers(fs));
  }

  lemma {:induction false} RefuseRounds1(c: Config, fs: Fields, ms: Members, tail: Cells,
                                         buf: seq<byte>, cur: Cur, acc: Members)
    requires !c.v2 && WritableMembers(c, Mutable, ms)
    requires var b := EncMembers(c, Mutable, ms, cur.rel); Stands(c, buf, cur, Out(b.cells + tail, b.rel + |tail|))
    requires ReadsMutable(c, true, fs, ms) && !ReadsMutable(c, false, fs, ms)
    ensures Loop1(c, fs, buf, cur, acc) == Err
    decreases ms
  {
    hide Pad, Holds, EncHeaded1, DecHeader1, RoundBody, Writable, Reads, Hollow, FindField, StoreOne, OneOrigin;
    var MCons(id, must, slot, rest) := ms;
    var a := EncSlot(c, Mutable, id, must, slot, cur.rel);
    var b := EncMembers(c, Mutable, rest, a.rel);
    assert a.cells + b.cells + tail == a.cells + (b.cells + tail);
    var end := Out(b.cells + tail, b.rel + |tail|);
    StandsConcat(c, buf, cur, a, end, Out(a.cells + end.cells, end.rel));
    if slot.Absent? {
      RefuseRounds1(c, fs, rest, tail, buf, cur, acc);
    } else if match FindField(fs, id) case None => !must case Some(f) => Reads(c, false, f.ty, slot.v) {
      var h, cur1 := ReadRound1(c, fs, id, must, slot.v, buf, cur, acc);
      RefuseRounds1(c, fs, rest, tail, buf, After(cur, a), StoreOne(fs, id, Req(slot.v), acc));
    } else {
      var h, cur1 := ReadHeaded1(c, id, must, slot.v, buf, cur);
      RefuseBody(c, fs, slot.v, h, buf, cur1, acc);
    }
  }

  lemma {:induction false} RefuseMutable1(c: Config, fs: Fields, v: Value, buf: seq<byte>, cur: Cur)
    requires !c.v2 && v.Struct? && v.ext == Mutable && Writable(c, v) && Stands(c, buf, cur, Enc(c, v, cur.rel))
    requires ReadsMutable(c, true, fs, v.members) && !ReadsMutable(c, false, fs, v.members)
    ensures Decode(c, TStruct(v.ext, fs), buf, cur) == Err
    decreases v, 0
  {
    hide Holds, EncMembers, Loop1, ReadsMutable, WritableMembers, DefaultMembers, Sentinel, DistinctMembers;
    var b := EncMembers(c, Mutable, v.members, cur.rel);
    RefuseRounds1(c, fs, v.members, Sentinel(c, b.rel), buf, cur, DefaultMembers(fs));
  }

  /**
   Among readers that differ from the writer in a tolerable way, exactly those that meet no unknown
   must-understand member, at any depth of what they decode, accept the value.
   */
  lemma AcceptedIff(c: Config, t: Type, v: Value, buf: seq<byte>, cur: Cur)
    requires Writable(c, v) && Reads(c, true, t, v) && Stands(c, buf, cur, Enc(c, v, cur.rel))
    ensures Decode(c, t, buf, cur).Ok? <==> Reads(c, false, t, v)
    ensures Decode(c, t, buf, cur).Ok? ==>
              Decode(c, t, buf, cur) == Ok(View(t, v), After(cur, Enc(c, v, cur.rel)))
  {
    hide Stands, Writable, Reads, View, Decode, Enc;
    if Reads(c, false, t, v) {
      ReadValue(c, t, v, buf, cur);
    } else {
      RefuseValue(c, t, v, buf, cur);
    }
  }

  // ---------------------------------------------------------------- XCDRv2: whatever else the reader is

  /** A present member that must be understood and that the reader does not know. */
  predicate Demands(fs: Fields, ms: Members) {
    ms.MCons? && ((ms.must && !ms.slot.Absent? && FindField(fs, ms.id) == None) || Demands(fs, ms.rest))
  }

  /**
   Every accepted round takes exactly the bytes its header announces, so that any reader at all, whatever the types of the
   members it does know, comes to the member it does not know and fails there if not before.
   */
  lemma {:induction false} RefuseRoundsAny(c: Config, fs: Fields, ms: Members, buf: seq<byte>, cur: Cur, acc: Members)
    requires c.v2 && WritableMembers(c, Mutable, ms) && Demands(fs, ms)
    requires Stands(c, buf, cur, EncMembers(c, Mutable, ms, cur.rel))
    ensures Loop2(c, fs, buf, cur, cur.off + |EncMembers(c, Mutable, ms, cur.rel).cells|, acc) == Err
    decreases ms
  {
    hide Stands, EncHeaded2, Round2, Writable, Hollow, FindField, Loop2;
    var a := EncSlot(c, Mutable, ms.id, ms.must, ms.slot, cur.rel);
    var b := EncMembers(c, Mutable, ms.rest, a.rel);
    StandsConcat(c, buf, cur, a, b, EncMembers(c, Mutable, ms, cur.rel));
    StandsInside(c, buf, cur, a);
    if ms.slot.Absent? {
      RefuseRoundsAny(c, fs, ms.rest, buf, cur, acc);
    } else {
      RoundAny(c, fs, ms.id, ms.must, ms.slot.v, buf, cur, acc);
      var r := Round2(c, fs, buf, cur, acc);
      var end := cur.off + |a.cells + b.cells|;
      if r.Ok? {
        Loop2Step(c, fs, buf, cur, end, acc);
        RefuseRoundsAny(c, fs, ms.rest, buf, After(cur, a), r.value);
      } else {
        Loop2Fails(c, fs, buf, cur, end, acc);
      }
    }
  }

  lemma Loop2Fails(c: Config, fs: Fields, buf: seq<byte>, cur: Cur, end: nat, acc: Members)
    requires c.v2 && Inside(cur, buf) && cur.off < end && Round2(c, fs, buf, cur, acc).Err?
    ensures Loop2(c, fs, buf, cur, end, acc) == Err
  {
    hide Round2;
  }

  /** A round over a written member either fails or ends where the member ends. */
  lemma RoundAny(c: Config, fs: Fields, id: nat, must: bool, v: Value, buf: seq<byte>, cur: Cur, acc: Members)
    requires c.v2 && id < 0x1000_0000 && !Hollow(c, v)
    requires Stands(c, buf, cur, EncHeaded2(c, id, must, v, cur.rel))
    ensures var r := Round2(c, fs, buf, cur, acc);
      && (r.Ok? ==> r.cur == After(cur, EncHeaded2(c, id, must, v, cur.rel)))
      && (must && FindField(fs, id) == None ==> r.Err?)
    ensures |EncHeaded2(c, id, must, v, cur.rel).cells| > 0
  {
    hide Pad, Holds, EncHeaded2, Enc, Hollow, DecHeader2, Decode, FindField;
    var h, cur1 := ReadHeaded2(c, id, must, v, buf, cur);
    EncHollow(c, v, cur1.rel);
  }

  /** XCDRv2: any reader of a mutable struct refuses it if it lacks a present member that must be understood. */
  lemma RefusedByAny(c: Config, fs: Fields, v: Value, buf: seq<byte>, cur: Cur)
    requires c.v2 && v.Struct? && v.ext == Mutable && Writable(c, v) && Stands(c, buf, cur, Enc(c, v, cur.rel))
    requires Demands(fs, v.members)
    ensures Decode(c, TStruct(Mutable, fs), buf, cur) == Err
  {
    hide Pad, Holds, U32, DecU32, EncMembers, WritableMembers, Loop2, Demands;
    var n := Pad(cur.rel, 4) + 4;
    var start := Cur(cur.off + n, cur.rel + n);
    var b := EncMembers(c, Mutable, v.members, start.rel);
    HoldsConcat(buf, cur.off, U32(c, |b.cells|, cur.rel), b.cells);
    HoldsFits(buf, start.off, b.cells);
    ReadU32(c, |b.cells|, buf, cur);
    RefuseRoundsAny(c, fs, v.members, buf, start, DefaultMembers(fs));
  }
}
