/** The main theorem: decoding what was encoded yields the written value as the reader's type sees it. */
module Theorem {
  import opened Layout
  import opened Schema
  import opened Encoding
  import opened EncodingFacts
  import opened Decoding
  import opened Evolution
  import opened RoundTrip

  // ---------------------------------------------------------------- members that take no bytes read as defaults

  lemma {:induction false} HollowView(c: Config, t: Type, v: Value)
    requires Hollow(c, v) && Reads(c, false, t, v)
    ensures View(t, v) == Default(t)
    decreases v
  {
    HollowPlain(c, false, t.fields, v.members);
  }

  lemma {:induction false} HollowPlain(c: Config, open: bool, fs: Fields, ms: Members)
    requires HollowMembers(c, ms) && ReadsPlain(c, false, open, fs, ms)
    ensures ViewPlain(fs, ms) == DefaultMembers(fs)
    decreases ms
  {
    match (fs, ms)
    case (FCons(_, _, _, ty, frest), MCons(_, _, slot, rest)) =>
      HollowView(c, ty, slot.v);
      HollowPlain(c, open, frest, rest);
    case _ =>
  }

  lemma {:induction false} HollowViewItems(c: Config, e: Type, items: Items)
    requires HollowItems(c, items) && ReadsItems(c, false, e, items)
    ensures ViewItems(e, items) == DefaultItems(e, Count(items))
    decreases items
  {
    match items
    case INil =>
    case ICons(v, rest) =>
      HollowView(c, e, v);
      HollowViewItems(c, e, rest);
  }

  // ---------------------------------------------------------------- storing members by identifier

  /** The slot a reader's member ends up with. */
  function Stored(f: Field, v: Value): Slot {
    if f.opt then Present(View(f.ty, v)) else Req(View(f.ty, v))
  }

  /** The reader's members after the written ones have been stored one by one. */
  function StoreAll(fs: Fields, ms: Members, acc: Members): Members
    decreases ms
  {
    match ms
    case MNil => acc
    case MCons(id, _, slot, rest) => StoreAll(fs, rest, StoreOne(fs, id, slot, acc))
  }

  function StoreOne(fs: Fields, id: nat, slot: Slot, acc: Members): Members {
    if slot.Absent? then acc
    else
      match FindField(fs, id)
      case None => acc
      case Some(f) => SetMember(acc, id, Stored(f, slot.v))
  }

  lemma {:induction false} FindOutside(fs: Fields, id: nat)
    requires id !in FieldIds(fs)
    ensures FindField(fs, id) == None
  {
    match fs
    case FNil =>
    case FCons(_, _, _, _, rest) => FindOutside(rest, id);
  }

  lemma {:induction false} WrittenOutside(ms: Members, id: nat)
    requires id !in MemberIds(ms)
    ensures Written(ms, id) == None
  {
    match ms
    case MNil =>
    case MCons(_, _, _, rest) => WrittenOutside(rest, id);
  }

  /** Storing into a list of members stores into its head and, independently, into the rest. */
  lemma {:induction false} StoreHead(id: nat, must: bool, opt: bool, ty: Type, frest: Fields,
                                     ms: Members, head: Slot, acc: Members)
    requires DistinctMembers(ms) && id !in FieldIds(frest)
    ensures StoreAll(FCons(id, must, opt, ty, frest), ms, MCons(id, must, head, acc))
         == MCons(id, must,
                  match Written(ms, id) case None => head case Some(v) => Stored(Field(must, opt, ty), v),
                  StoreAll(frest, ms, acc))
    decreases ms
  {
    match ms
    case MNil =>
    case MCons(i, m, slot, rest) =>
      FindOutside(frest, id);
      var head' := if i == id && !slot.Absent? then Stored(Field(must, opt, ty), slot.v) else head;
      if i == id {
        WrittenOutside(rest, id);
      }
      StoreHead(id, must, opt, ty, frest, rest, head', StoreOne(frest, i, slot, acc));
  }

  /** Stored one by one into a default-constructed struct, they make up the reader's view. */
  lemma {:induction false} StoreAllIsView(fs: Fields, ms: Members)
    requires DistinctMembers(ms) && DistinctFields(fs)
    ensures StoreAll(fs, ms, DefaultMembers(fs)) == ViewMutable(fs, ms)
    decreases fs
  {
    match fs
    case FNil => StoreNil(ms);
    case FCons(id, must, opt, ty, rest) =>
      StoreHead(id, must, opt, ty, rest, ms, DefaultSlot(opt, ty), DefaultMembers(rest));
      StoreAllIsView(rest, ms);
  }

  lemma {:induction false} StoreNil(ms: Members)
    ensures StoreAll(FNil, ms, MNil) == MNil
  {
    match ms
    case MNil =>
    case MCons(_, _, _, rest) => StoreNil(rest);
  }

  // ---------------------------------------------------------------- the theorem

  /** What is required of a reader, a written value and the buffer it was written into. */
  ghost predicate Stands(c: Config, buf: seq<byte>, cur: Cur, out: Out) {
    Inside(cur, buf) && |out.cells| < TWO_32 && Holds(buf, cur.off, out.cells)
  }

  lemma StandsInside(c: Config, buf: seq<byte>, cur: Cur, out: Out)
    requires Stands(c, buf, cur, out)
    ensures Inside(cur, buf)
  {
  }

  lemma StandsConcat(c: Config, buf: seq<byte>, cur: Cur, a: Out, b: Out, out: Out)
    requires Stands(c, buf, cur, out) && out == Out(a.cells + b.cells, b.rel)
    requires a.rel <= cur.rel + |a.cells|
    ensures Stands(c, buf, cur, a) && Stands(c, buf, After(cur, a), b)
    ensures After(After(cur, a), b) == After(cur, out)
  {
    HoldsConcat(buf, cur.off, a.cells, b.cells);
  }

  /**
   A reader whose type can read the value obtains its view of it, and its cursor and origin end
   where the writer's did. Covers both encoding versions, every nesting and every header form.
   */
  lemma {:induction false} ReadValue(c: Config, t: Type, v: Value, buf: seq<byte>, cur: Cur)
    requires Writable(c, v) && Reads(c, false, t, v) && Stands(c, buf, cur, Enc(c, v, cur.rel))
    ensures Decode(c, t, buf, cur) == Ok(View(t, v), After(cur, Enc(c, v, cur.rel)))
    decreases v, 1
  {
    match v
    case Prim(k, n) => ReadPrimValue(c, k, n, buf, cur);
    case Str(text) => ReadStrValue(c, text, buf, cur);
    case WStr(chars) => ReadWStrValue(c, chars, buf, cur);
    case SeqPrim(k, ns) => ReadSeqPrimValue(c, k, ns, buf, cur);
    case Seq(_, items) =>
      if c.v2 { ReadSeq2(c, t.elem, v, buf, cur); } else { ReadSeq1(c, t.elem, v, buf, cur); }
    case Struct(ext, ms) =>
      if ext == Mutable {
        if c.v2 { ReadMutable2(c, t.fields, v, buf, cur); } else { ReadMutable1(c, t.fields, v, buf, cur); }
      } else if c.v2 && ext == Appendable {
        ReadDelimited(c, t.fields, v, buf, cur);
      } else {
        ReadPlain(c, t.fields, v, buf, cur);
      }
  }

  lemma ReadPrimValue(c: Config, k: Kind, n: nat, buf: seq<byte>, cur: Cur)
    requires InKind(k, n) && Stands(c, buf, cur, Enc(c, Prim(k, n), cur.rel))
    ensures Decode(c, TPrim(k), buf, cur) == Ok(Prim(k, n), After(cur, Enc(c, Prim(k, n), cur.rel)))
  {
    hide Pad, Holds, DecPrim, Scalar, InKind;
    ReadPrim(c, k, n, buf, cur);
  }

  lemma ReadStrValue(c: Config, text: seq<byte>, buf: seq<byte>, cur: Cur)
    requires Stands(c, buf, cur, Enc(c, Str(text), cur.rel))
    ensures Decode(c, TStr, buf, cur) == Ok(Str(CText(text, 0)), After(cur, Enc(c, Str(text), cur.rel)))
  {
    hide Pad, Holds, DecStr, U32, CText, Raw;
    ReadStr(c, text, buf, cur);
  }

  lemma ReadWStrValue(c: Config, chars: seq<nat>, buf: seq<byte>, cur: Cur)
    requires |WText(chars)| < 0x8000_0000 && Stands(c, buf, cur, Enc(c, WStr(chars), cur.rel))
    ensures Decode(c, TWStr, buf, cur)
         == Ok(WStr(WUntrail(WText(chars))), After(cur, Enc(c, WStr(chars), cur.rel)))
  {
    hide Pad, Holds, DecWStr, U32, WText, Elements;
    ReadWStr(c, chars, buf, cur);
  }

  lemma ReadSeqPrimValue(c: Config, k: Kind, ns: seq<nat>, buf: seq<byte>, cur: Cur)
    requires AllInKind(k, ns) && Stands(c, buf, cur, Enc(c, SeqPrim(k, ns), cur.rel))
    ensures Decode(c, TSeqPrim(k), buf, cur) == Ok(SeqPrim(k, ns), After(cur, Enc(c, SeqPrim(k, ns), cur.rel)))
  {
    hide Pad, Holds, DecSeqPrim, U32, AllInKind, Elements;
    ElementsAtLeast(c, k, ns, cur.rel + Pad(cur.rel, 4) + 4);
    ReadSeqPrim(c, k, ns, buf, cur);
  }

  // ---------------------------------------------------------------- sequences

  lemma {:induction false} ReadItems(c: Config, e: Type, items: Items, buf: seq<byte>, cur: Cur, stop: nat)
    requires WritableItems(c, items) && ReadsItems(c, false, e, items) && Stands(c, buf, cur, EncItems(c, items, cur.rel))
    requires cur.off + |EncItems(c, items, cur.rel).cells| <= stop
    ensures DecItems(c, e, Count(items), buf, cur, stop)
         == Ok(ViewItems(e, items), After(cur, EncItems(c, items, cur.rel)))
    decreases items, 0
  {
    hide Stands, Enc, Decode, View, Default, Hollow, Writable, Reads;
    match items
    case INil =>
    case ICons(v, rest) =>
      if cur.off >= stop {
        EncHollowItems(c, items, cur.rel);
        HollowViewItems(c, e, items);
      } else {
        var a := Enc(c, v, cur.rel);
        var b := EncItems(c, rest, a.rel);
        StandsConcat(c, buf, cur, a, b, EncItems(c, items, cur.rel));
        ReadValue(c, e, v, buf, cur);
        ReadItems(c, e, rest, buf, After(cur, a), stop);
      }
  }

  lemma ReadAligned(c: Config, n: nat, buf: seq<byte>, cur: Cur)
    requires Inside(cur, buf) && n < TWO_32 && Pad(cur.rel, 4) == 0 && Holds(buf, cur.off, Num(c, n, 4))
    ensures DecU32(c, buf, cur) == Ok(n, Cur(cur.off + 4, cur.rel + 4))
  {
    hide Pad, Holds, DecScalar, Num;
    Pow256Values();
    ReadNum(c, n, 4, 4, buf, cur);
  }

  lemma NoItemsSeen(e: Type)
    ensures ViewItems(e, INil) == INil
  {
  }

  lemma {:induction false} ReadSeq2(c: Config, e: Type, v: Value, buf: seq<byte>, cur: Cur)
    requires c.v2 && v.Seq? && Writable(c, v) && ReadsItems(c, false, e, v.items)
    requires Stands(c, buf, cur, Enc(c, v, cur.rel))
    ensures DecSeq2(c, e, buf, cur) == Ok(View(TSeq(e), v), After(cur, Enc(c, v, cur.rel)))
    decreases v, 0
  {
    hide Pad, Holds, Num, U32, DecU32, EncItems, DecItems, ReadsItems, WritableItems, ViewItems;
    var items := v.items;
    var n := Pad(cur.rel, 4) + 4;
    var start, cur1 := Cur(cur.off + n, cur.rel + n), Cur(cur.off + n + 4, cur.rel + n + 4);
    var b := EncItems(c, items, cur1.rel);
    var dh := U32(c, 4 + |b.cells|, cur.rel);
    assert dh + Num(c, Count(items), 4) + b.cells == dh + (Num(c, Count(items), 4) + b.cells);
    HoldsConcat(buf, cur.off, dh, Num(c, Count(items), 4) + b.cells);
    HoldsConcat(buf, start.off, Num(c, Count(items), 4), b.cells);
    ReadU32(c, 4 + |b.cells|, buf, cur);
    PadAfter4(cur.rel);
    ReadAligned(c, Count(items), buf, start);
    ReadItems(c, e, items, buf, cur1, start.off + 4 + |b.cells|);
    if Count(items) == 0 {
      NoItems(c, cur1.rel);
      NoItemsSeen(e);
    }
  }

  lemma {:induction false} ItemsAtLeast(c: Config, items: Items, p: nat)
    requires !c.v2 && WritableItems(c, items)
    ensures |EncItems(c, items, p).cells| >= Count(items)
  {
    hide Enc;
    match items
    case INil =>
    case ICons(v, rest) =>
      EncHollow(c, v, p);
      ItemsAtLeast(c, rest, Enc(c, v, p).rel);
  }

  lemma {:induction false} ReadSeq1(c: Config, e: Type, v: Value, buf: seq<byte>, cur: Cur)
    requires !c.v2 && v.Seq? && Writable(c, v) && ReadsItems(c, false, e, v.items)
    requires Stands(c, buf, cur, Enc(c, v, cur.rel))
    ensures DecSeq1(c, e, buf, cur) == Ok(View(TSeq(e), v), After(cur, Enc(c, v, cur.rel)))
    decreases v, 0
  {
    hide Pad, Holds, U32, DecU32, EncItems, DecItems, ReadsItems, WritableItems, ViewItems;
    var items := v.items;
    var n := Pad(cur.rel, 4) + 4;
    var cur1 := Cur(cur.off + n, cur.rel + n);
    var b := EncItems(c, items, cur1.rel);
    HoldsConcat(buf, cur.off, U32(c, Count(items), cur.rel), b.cells);
    HoldsFits(buf, cur1.off, b.cells);
    ReadU32(c, Count(items), buf, cur);
    ItemsAtLeast(c, items, cur1.rel);
    ReadItems(c, e, items, buf, cur1, |buf| + 1);
  }

  // ---------------------------------------------------------------- final and appendable structs

  lemma FlagCells(c: Config, n: nat, p: nat)
    requires n < 2
    ensures Scalar(c, n, 1, 1, p) == [B(n)]
  {
    assert LittleBytes(n, 1) == [n];
    assert Reverse([n]) == [n];
  }

  lemma ReadFlag(c: Config, n: nat, rest: Cells, buf: seq<byte>, cur: Cur)
    requires n < 2 && Inside(cur, buf) && Holds(buf, cur.off, [B(n)] + rest)
    ensures DecPrim(c, KBool, buf, cur) == Ok(n, Cur(cur.off + 1, cur.rel + 1))
    ensures Holds(buf, cur.off + 1, rest) && cur.off + 1 <= |buf|
  {
    hide Holds, Scalar, DecPrim;
    HoldsConcat(buf, cur.off, [B(n)], rest);
    HoldsFits(buf, cur.off + 1, rest);
    FlagCells(c, n, cur.rel);
    ReadPrim(c, KBool, n, buf, cur);
  }

  lemma {:induction false} ReadSlot(c: Config, ext: Extensibility, ty: Type, id: nat, must: bool, slot: Slot,
                                    buf: seq<byte>, cur: Cur)
    requires ext != Mutable && Stands(c, buf, cur, EncSlot(c, ext, id, must, slot, cur.rel))
    requires Headed(c, ext, slot) ==> id < 0xFFFF_FFFF
    requires !slot.Absent? ==> Writable(c, slot.v) && Reads(c, false, ty, slot.v)
    requires NeedsBody(c, ext, slot) ==> !Hollow(c, slot.v)
    ensures DecSlot(c, !slot.Req?, ty, buf, cur)
         == Ok(ViewSlot(ty, slot), After(cur, EncSlot(c, ext, id, must, slot, cur.rel)))
    decreases slot
  {
    hide Holds, Enc, Decode, View, Hollow, Writable, Reads, Header1, DecHeader1, DecPrim;
    match slot
    case Req(v) => ReadValue(c, ty, v, buf, cur);
    case Absent(_) => ReadAbsent(c, ext, ty, id, must, slot, buf, cur);
    case Present(v) =>
      if c.v2 {
        ReadFlag(c, 1, Enc(c, v, cur.rel + 1).cells, buf, cur);
        ReadValue(c, ty, v, buf, Cur(cur.off + 1, cur.rel + 1));
      } else {
        var h, cur1 := ReadHeaded1(c, id, must, v, buf, cur);
        ReadValue(c, ty, v, buf, cur1);
      }
  }

  lemma ReadAbsent(c: Config, ext: Extensibility, ty: Type, id: nat, must: bool, slot: Slot, buf: seq<byte>, cur: Cur)
    requires ext != Mutable && slot.Absent? && Stands(c, buf, cur, EncSlot(c, ext, id, must, slot, cur.rel))
    requires Headed(c, ext, slot) ==> id < 0xFFFF_FFFF
    ensures DecSlot(c, true, ty, buf, cur) == Ok(Absent(ty), After(cur, EncSlot(c, ext, id, must, slot, cur.rel)))
  {
    hide Holds, Decode, Header1, DecHeader1, DecPrim;
    if c.v2 {
      assert [B(0)] + [] == [B(0)];
      ReadFlag(c, 0, [], buf, cur);
    } else {
      var long := AllocatesLong1(id, c.sel);
      var cells := Header1(c, id, must, 0, long, cur.rel);
      assert cells + [] == cells;
      var h, cur1 := ReadHeader1(c, id, must, 0, long, [], buf, cur);
    }
  }

  lemma ReadHeaded1(c: Config, id: nat, must: bool, v: Value, buf: seq<byte>, cur: Cur) returns (h: Header, cur1: Cur)
    requires !c.v2 && id < 0xFFFF_FFFF
    requires Stands(c, buf, cur, EncHeaded1(c, id, must, v, cur.rel))
    ensures DecHeader1(c, buf, cur) == Ok(Member(h), cur1) && h.id == id && h.must == must
    ensures h.size == |Enc(c, v, 0).cells| && (h.size == 0 <==> Hollow(c, v)) && cur1.rel == 0 && cur.off < cur1.off
    ensures Stands(c, buf, cur1, Enc(c, v, 0))
    ensures After(cur1, Enc(c, v, 0)) == After(cur, EncHeaded1(c, id, must, v, cur.rel))
  {
    hide Holds, Enc, Hollow, Header1, DecHeader1;
    var b := Enc(c, v, 0);
    EncHollow(c, v, 0);
    h, cur1 := ReadHeader1(c, id, must, |b.cells|, IsLong1(c.sel, id, |b.cells|), b.cells, buf, cur);
  }

  lemma {:induction false} ReadFields(c: Config, ext: Extensibility, open: bool, fs: Fields, ms: Members,
                                      buf: seq<byte>, cur: Cur, stop: nat)
    requires ext != Mutable && WritableMembers(c, ext, ms) && ReadsPlain(c, false, open, fs, ms)
    requires Stands(c, buf, cur, EncMembers(c, ext, ms, cur.rel))
    requires cur.off + |EncMembers(c, ext, ms, cur.rel).cells| <= stop
    requires open ==> c.v2 && cur.off + |EncMembers(c, ext, ms, cur.rel).cells| == stop
    ensures var r := DecFields(c, fs, buf, cur, stop);
      && r.Ok? && r.value == ViewPlain(fs, ms)
      && (open ==> r.cur.off <= stop)
      && (!open ==> r.cur == After(cur, EncMembers(c, ext, ms, cur.rel)))
    decreases ms
  {
    hide Stands, EncSlot, DecSlot, ViewSlot, DefaultSlot, Hollow, Writable, Reads;
    match (fs, ms)
    case (FCons(_, _, opt, ty, frest), MCons(id, must, slot, rest)) =>
      if cur.off >= stop {
        EncHollowMembers(c, ext, ms, cur.rel);
        HollowPlain(c, open, fs, ms);
      } else {
        var a := EncSlot(c, ext, id, must, slot, cur.rel);
        var b := EncMembers(c, ext, rest, a.rel);
        StandsConcat(c, buf, cur, a, b, EncMembers(c, ext, ms, cur.rel));
        ReadSlot(c, ext, ty, id, must, slot, buf, cur);
        ReadFields(c, ext, open, frest, rest, buf, After(cur, a), stop);
      }
    case _ =>
  }

  lemma {:induction false} ReadPlain(c: Config, fs: Fields, v: Value, buf: seq<byte>, cur: Cur)
    requires v.Struct? && v.ext != Mutable && !(c.v2 && v.ext == Appendable)
    requires Writable(c, v) && ReadsPlain(c, false, false, fs, v.members) && Stands(c, buf, cur, Enc(c, v, cur.rel))
    ensures Decode(c, TStruct(v.ext, fs), buf, cur)
         == Ok(View(TStruct(v.ext, fs), v), After(cur, Enc(c, v, cur.rel)))
    decreases v, 0
  {
    hide EncMembers, DecFields, ReadsPlain, WritableMembers, ViewPlain;
    ReadFields(c, v.ext, false, fs, v.members, buf, cur, |buf|);
  }

  /** An appendable struct: the reader ends at the end of the DHEADER extent, whoever has more members. */
  lemma {:induction false} ReadDelimited(c: Config, fs: Fields, v: Value, buf: seq<byte>, cur: Cur)
    requires c.v2 && v.Struct? && v.ext == Appendable
    requires Writable(c, v) && ReadsPlain(c, false, true, fs, v.members) && Stands(c, buf, cur, Enc(c, v, cur.rel))
    ensures Decode(c, TStruct(v.ext, fs), buf, cur)
         == Ok(View(TStruct(v.ext, fs), v), After(cur, Enc(c, v, cur.rel)))
    decreases v, 0
  {
    hide Pad, Holds, U32, DecU32, EncMembers, DecFields, ReadsPlain, WritableMembers, ViewPlain;
    var n := Pad(cur.rel, 4) + 4;
    var start := Cur(cur.off + n, cur.rel + n);
    var b := EncMembers(c, v.ext, v.members, start.rel);
    HoldsConcat(buf, cur.off, U32(c, |b.cells|, cur.rel), b.cells);
    HoldsFits(buf, start.off, b.cells);
    ReadU32(c, |b.cells|, buf, cur);
    ReadFields(c, v.ext, true, fs, v.members, buf, start, start.off + |b.cells|);
  }

  // ---------------------------------------------------------------- mutable structs

  /** One body: a known member is stored, an unknown one is jumped over. */
  lemma {:induction false} ReadBody(c: Config, fs: Fields, v: Value, h: Header, buf: seq<byte>, cur: Cur, acc: Members)
    requires Writable(c, v) && Stands(c, buf, cur, Enc(c, v, cur.rel)) && h.size == |Enc(c, v, cur.rel).cells|
    requires match FindField(fs, h.id) case None => !h.must && (c.v2 || OneOrigin(c, v)) case Some(f) => Reads(c, false, f.ty, v)
    ensures RoundBody(c, fs, buf, cur, h, acc)
         == Ok(StoreOne(fs, h.id, Req(v), acc), After(cur, Enc(c, v, cur.rel)))
    decreases v, 2
  {
    hide Enc, Decode, View, Writable, Reads, FindField, SetMember;
    match FindField(fs, h.id)
    case None => if !c.v2 { EncOneOrigin(c, v, cur.rel); }
    case Some(f) => ReadValue(c, f.ty, v, buf, cur);
  }

  lemma {:induction false} ReadRounds2(c: Config, fs: Fields, ms: Members, buf: seq<byte>, cur: Cur, acc: Members)
    requires c.v2 && WritableMembers(c, Mutable, ms) && ReadsMutable(c, false, fs, ms)
    requires Stands(c, buf, cur, EncMembers(c, Mutable, ms, cur.rel))
    ensures var out := EncMembers(c, Mutable, ms, cur.rel);
      Loop2(c, fs, buf, cur, cur.off + |out.cells|, acc) == Ok(StoreAll(fs, ms, acc), After(cur, out))
    decreases ms
  {
    hide Stands, EncHeaded2, Round2, Writable, Reads, Hollow, FindField, Loop2, StoreOne;
    match ms
    case MNil =>
      StandsInside(c, buf, cur, Out([], cur.rel));
      Loop2Done(c, fs, buf, cur, acc);
    case MCons(id, must, slot, rest) =>
      var a := EncSlot(c, Mutable, id, must, slot, cur.rel);
      var b := EncMembers(c, Mutable, rest, a.rel);
      StandsConcat(c, buf, cur, a, b, EncMembers(c, Mutable, ms, cur.rel));
      if slot.Absent? {
        StoreAbsent(fs, id, slot, acc);
        ReadRounds2(c, fs, rest, buf, cur, acc);
      } else {
        ReadRound2(c, fs, id, must, slot.v, buf, cur, acc);
        StorePresent(fs, id, slot, acc);
        StandsInside(c, buf, cur, a);
        Loop2Step(c, fs, buf, cur, cur.off + |a.cells + b.cells|, acc);
        ReadRounds2(c, fs, rest, buf, After(cur, a), StoreOne(fs, id, slot, acc));
      }
  }

  lemma Loop2Step(c: Config, fs: Fields, buf: seq<byte>, cur: Cur, end: nat, acc: Members)
    requires c.v2 && Inside(cur, buf) && cur.off < end && Round2(c, fs, buf, cur, acc).Ok?
    ensures var r := Round2(c, fs, buf, cur, acc);
      Loop2(c, fs, buf, cur, end, acc) == Loop2(c, fs, buf, r.cur, end, r.value)
  {
    hide Round2;
  }

  lemma Loop2Done(c: Config, fs: Fields, buf: seq<byte>, cur: Cur, acc: Members)
    requires c.v2 && Inside(cur, buf)
    ensures Loop2(c, fs, buf, cur, cur.off, acc) == Ok(acc, cur)
  {
  }

  lemma {:induction false} ReadRound2(c: Config, fs: Fields, id: nat, must: bool, v: Value,
                                      buf: seq<byte>, cur: Cur, acc: Members)
    requires c.v2 && id < 0x1000_0000 && !Hollow(c, v) && Writable(c, v)
    requires Stands(c, buf, cur, EncHeaded2(c, id, must, v, cur.rel))
    requires match FindField(fs, id) case None => !must case Some(f) => Reads(c, false, f.ty, v)
    ensures Round2(c, fs, buf, cur, acc)
         == Ok(StoreOne(fs, id, Req(v), acc), After(cur, EncHeaded2(c, id, must, v, cur.rel)))
    ensures |EncHeaded2(c, id, must, v, cur.rel).cells| > 0
    decreases v, 3
  {
    hide Pad, Holds, EncHeaded2, Enc, Writable, Reads, Hollow, RoundBody, DecHeader2, StoreOne;
    var h, cur1 := ReadHeaded2(c, id, must, v, buf, cur);
    EncHollow(c, v, cur1.rel);
    ReadBody(c, fs, v, h, buf, cur1, acc);
  }

  lemma {:induction false} ReadMutable2(c: Config, fs: Fields, v: Value, buf: seq<byte>, cur: Cur)
    requires c.v2 && v.Struct? && v.ext == Mutable && Writable(c, v)
    requires DistinctFields(fs) && ReadsMutable(c, false, fs, v.members) && Stands(c, buf, cur, Enc(c, v, cur.rel))
    ensures Decode(c, TStruct(v.ext, fs), buf, cur)
         == Ok(View(TStruct(v.ext, fs), v), After(cur, Enc(c, v, cur.rel)))
    decreases v, 0
  {
    hide Pad, Holds, U32, DecU32, EncMembers, Loop2, ReadsMutable, WritableMembers, ViewMutable, DefaultMembers,
         DistinctFields, DistinctMembers;
    var n := Pad(cur.rel, 4) + 4;
    var start := Cur(cur.off + n, cur.rel + n);
    var b := EncMembers(c, v.ext, v.members, start.rel);
    HoldsConcat(buf, cur.off, U32(c, |b.cells|, cur.rel), b.cells);
    ReadU32(c, |b.cells|, buf, cur);
    ReadRounds2(c, fs, v.members, buf, start, DefaultMembers(fs));
    StoreAllIsView(fs, v.members);
  }

  lemma {:induction false} ReadRounds1(c: Config, fs: Fields, ms: Members, buf: seq<byte>, cur: Cur, acc: Members)
    requires !c.v2 && WritableMembers(c, Mutable, ms) && ReadsMutable(c, false, fs, ms)
    requires var b := EncMembers(c, Mutable, ms, cur.rel);
      Stands(c, buf, cur, Out(b.cells + Sentinel(c, b.rel), b.rel + |Sentinel(c, b.rel)|))
    ensures var b := EncMembers(c, Mutable, ms, cur.rel);
      Loop1(c, fs, buf, cur, acc)
      == Ok(StoreAll(fs, ms, acc), After(cur, Out(b.cells + Sentinel(c, b.rel), b.rel + |Sentinel(c, b.rel)|)))
    decreases ms
  {
    hide Pad, Holds, EncHeaded1, DecHeader1, RoundBody, Writable, Reads, Hollow, FindField, Sentinel, StoreOne, OneOrigin,
         Loop1;
    match ms
    case MNil =>
      assert [] + Sentinel(c, cur.rel) == Sentinel(c, cur.rel);
      ReadSentinel(c, buf, cur);
      Loop1End(c, fs, buf, cur, acc);
    case MCons(id, must, slot, rest) =>
      var a := EncSlot(c, Mutable, id, must, slot, cur.rel);
      var b := EncMembers(c, Mutable, rest, a.rel);
      var tail := Sentinel(c, b.rel);
      assert a.cells + b.cells + tail == a.cells + (b.cells + tail);
      var end := Out(b.cells + tail, b.rel + |tail|);
      StandsConcat(c, buf, cur, a, end, Out(a.cells + end.cells, end.rel));
      if slot.Absent? {
        StoreAbsent(fs, id, slot, acc);
        ReadRounds1(c, fs, rest, buf, cur, acc);
      } else {
        var h, cur1 := ReadRound1(c, fs, id, must, slot.v, buf, cur, acc);
        StorePresent(fs, id, slot, acc);
        Loop1Step(c, fs, buf, cur, acc, h, cur1);
        ReadRounds1(c, fs, rest, buf, After(cur, a), StoreOne(fs, id, slot, acc));
      }
  }

  lemma {:induction false} ReadRound1(c: Config, fs: Fields, id: nat, must: bool, v: Value,
                                      buf: seq<byte>, cur: Cur, acc: Members) returns (h: Header, cur1: Cur)
    requires !c.v2 && id < 0xFFFF_FFFF && Writable(c, v)
    requires Stands(c, buf, cur, EncHeaded1(c, id, must, v, cur.rel))
    requires match FindField(fs, id) case None => !must && OneOrigin(c, v) case Some(f) => Reads(c, false, f.ty, v)
    ensures DecHeader1(c, buf, cur) == Ok(Member(h), cur1)
    ensures var cur2 := After(cur, EncHeaded1(c, id, must, v, cur.rel));
      RoundBody(c, fs, buf, cur1, h, acc) == Ok(StoreOne(fs, id, Req(v), acc), cur2) && h.size == cur2.off - cur1.off
    decreases v, 3
  {
    hide Pad, Holds, EncHeaded1, Enc, Writable, Reads, Hollow, RoundBody, DecHeader1, StoreOne, OneOrigin;
    h, cur1 := ReadHeaded1(c, id, must, v, buf, cur);
    ReadBody(c, fs, v, h, buf, cur1, acc);
  }

  lemma Loop1End(c: Config, fs: Fields, buf: seq<byte>, cur: Cur, acc: Members)
    requires !c.v2 && Inside(cur, buf) && DecHeader1(c, buf, cur).Ok? && DecHeader1(c, buf, cur).value.End?
    ensures Loop1(c, fs, buf, cur, acc) == Ok(acc, DecHeader1(c, buf, cur).cur)
  {
    hide DecHeader1, RoundBody;
  }

  lemma Loop1Step(c: Config, fs: Fields, buf: seq<byte>, cur: Cur, acc: Members, h: Header, cur1: Cur)
    requires !c.v2 && Inside(cur, buf) && DecHeader1(c, buf, cur) == Ok(Member(h), cur1)
    requires var r := RoundBody(c, fs, buf, cur1, h, acc); r.Ok? && h.size == r.cur.off - cur1.off
    ensures var r := RoundBody(c, fs, buf, cur1, h, acc);
      Loop1(c, fs, buf, cur, acc) == Loop1(c, fs, buf, r.cur, r.value)
  {
    hide DecHeader1, RoundBody;
  }

  lemma StoreAbsent(fs: Fields, id: nat, slot: Slot, acc: Members)
    requires slot.Absent?
    ensures StoreOne(fs, id, slot, acc) == acc
  {
  }

  lemma StorePresent(fs: Fields, id: nat, slot: Slot, acc: Members)
    requires !slot.Absent?
    ensures StoreOne(fs, id, slot, acc) == StoreOne(fs, id, Req(slot.v), acc)
  {
  }

  lemma {:induction false} ReadMutable1(c: Config, fs: Fields, v: Value, buf: seq<byte>, cur: Cur)
    requires !c.v2 && v.Struct? && v.ext == Mutable && Writable(c, v)
    requires DistinctFields(fs) && ReadsMutable(c, false, fs, v.members) && Stands(c, buf, cur, Enc(c, v, cur.rel))
    ensures Decode(c, TStruct(v.ext, fs), buf, cur)
         == Ok(View(TStruct(v.ext, fs), v), After(cur, Enc(c, v, cur.rel)))
    decreases v, 0
  {
    hide Holds, EncMembers, Loop1, ReadsMutable, WritableMembers, ViewMutable, DefaultMembers, Sentinel,
         DistinctFields, DistinctMembers;
    ReadRounds1(c, fs, v.members, buf, cur, DefaultMembers(fs));
    StoreAllIsView(fs, v.members);
  }
}
