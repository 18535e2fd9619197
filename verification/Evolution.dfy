/**
 What a reader obtains from what a writer wrote, when their types need not be the same:
 the written value seen through the reader's type.
 */
module Evolution {
  import opened Layout
  import opened Schema
  import opened Encoding
  import opened EncodingFacts
  import opened Decoding

  // ---------------------------------------------------------------- the reader's view of a written value

  /** The value the reader's type makes of a written one. */
  function View(t: Type, v: Value): Value
    decreases t, 0
  {
    match (t, v)
    case (TStr, Str(s)) => Str(CText(s, 0))
    case (TWStr, WStr(s)) => WStr(WUntrail(WText(s)))
    case (TSeq(e), Seq(_, items)) => Seq(e, ViewItems(e, items))
    case (TStruct(ext, fs), Struct(_, ms)) =>
      Struct(ext, if ext == Mutable then ViewMutable(fs, ms) else ViewPlain(fs, ms))
    case _ => v
  }

  function ViewItems(e: Type, items: Items): Items
    decreases e, 1 + Count(items)
  {
    match items
    case INil => INil
    case ICons(v, rest) => ICons(View(e, v), ViewItems(e, rest))
  }

  function ViewSlot(ty: Type, slot: Slot): Slot
    decreases ty, 1
  {
    match slot
    case Req(v) => Req(View(ty, v))
    case Absent(_) => Absent(ty)
    case Present(v) => Present(View(ty, v))
  }

  /** Members are matched by position; the reader's surplus ones keep their defaults. */
  function ViewPlain(fs: Fields, ms: Members): Members
    decreases fs
  {
    match (fs, ms)
    case (FNil, _) => MNil
    case (FCons(_, _, _, _, _), MNil) => DefaultMembers(fs)
    case (FCons(id, must, _, ty, frest), MCons(_, _, slot, rest)) =>
      MCons(id, must, ViewSlot(ty, slot), ViewPlain(frest, rest))
  }

  /** The value written under an identifier, if any was. */
  function Written(ms: Members, id: nat): Option<Value> {
    match ms
    case MNil => None
    case MCons(i, _, slot, rest) => if i == id && !slot.Absent? then Some(slot.v) else Written(rest, id)
  }

  /** Members are matched by identifier; the ones not written keep their defaults. */
  function ViewMutable(fs: Fields, ms: Members): Members
    decreases fs
  {
    match fs
    case FNil => MNil
    case FCons(id, must, opt, ty, rest) =>
      var slot := match Written(ms, id)
        case None => DefaultSlot(opt, ty)
        case Some(v) => if opt then Present(View(ty, v)) else Req(View(ty, v));
      MCons(id, must, slot, ViewMutable(rest, ms))
  }

  // ---------------------------------------------------------------- values in scope

  /** Numbers in range, identifiers encodable and distinct, and a body for every member that needs one. */
  predicate Writable(c: Config, v: Value)
    decreases v
  {
    match v
    case Prim(k, n) => InKind(k, n)
    case Str(_) => true
    case WStr(s) => |WText(s)| < 0x8000_0000
    case SeqPrim(k, ns) => AllInKind(k, ns)
    case Seq(_, items) => Count(items) < TWO_32 && WritableItems(c, items)
    case Struct(ext, ms) => WritableMembers(c, ext, ms) && (ext == Mutable ==> DistinctMembers(ms))
  }

  predicate WritableItems(c: Config, items: Items)
    decreases items
  {
    match items
    case INil => true
    case ICons(v, rest) => Writable(c, v) && (!c.v2 ==> !Hollow(c, v)) && WritableItems(c, rest)
  }

  predicate WritableMembers(c: Config, ext: Extensibility, ms: Members)
    decreases ms
  {
    match ms
    case MNil => true
    case MCons(id, _, slot, rest) =>
      && (Headed(c, ext, slot) ==> id < if c.v2 then 0x1000_0000 else 0xFFFF_FFFF)
      && (NeedsBody(c, ext, slot) ==> !Hollow(c, slot.v))
      && (!slot.Absent? ==> Writable(c, slot.v))
      && WritableMembers(c, ext, rest)
  }

  /** Members whose decoders refuse a body of no bytes, or take it for an absent one. */
  predicate NeedsBody(c: Config, ext: Extensibility, slot: Slot) {
    if c.v2 then ext == Mutable && !slot.Absent? else ext != Mutable && slot.Present?
  }

  /** Members that carry a header: all of a mutable struct, and the optional ones of any XCDRv1 struct. */
  predicate Headed(c: Config, ext: Extensibility, slot: Slot) {
    ext == Mutable || (!c.v2 && !slot.Req?)
  }

  // ---------------------------------------------------------------- readers in scope

  /**
   A reader's type can read a written value: same shape, except that in XCDRv2 an appendable struct may
   have members more or fewer at its end, and a mutable one may lack members that are not must-understand
   (in XCDRv1 only such as leave the alignment origin alone). A mutable struct may always have members that
   were not written, in any order. A `lax` reader also meets unknown must-understand members.
   */
  predicate Reads(c: Config, lax: bool, t: Type, v: Value)
    decreases v
  {
    match v
    case Prim(k, _) => t == TPrim(k)
    case Str(_) => t == TStr
    case WStr(_) => t == TWStr
    case SeqPrim(k, _) => t == TSeqPrim(k)
    case Seq(_, items) => t.TSeq? && ReadsItems(c, lax, t.elem, items)
    case Struct(ext, ms) =>
      && t.TStruct? && t.ext == ext
      && if ext == Mutable then DistinctFields(t.fields) && ReadsMutable(c, lax, t.fields, ms)
         else ReadsPlain(c, lax, c.v2 && ext == Appendable, t.fields, ms)
  }

  predicate ReadsItems(c: Config, lax: bool, e: Type, items: Items)
    decreases items
  {
    match items
    case INil => true
    case ICons(v, rest) => Reads(c, lax, e, v) && ReadsItems(c, lax, e, rest)
  }

  predicate ReadsPlain(c: Config, lax: bool, open: bool, fs: Fields, ms: Members)
    decreases ms
  {
    match (fs, ms)
    case (FNil, MNil) => true
    case (FCons(_, _, opt, ty, frest), MCons(_, _, slot, rest)) =>
      && opt == !slot.Req?
      && (!slot.Absent? ==> Reads(c, lax, ty, slot.v))
      && ReadsPlain(c, lax, open, frest, rest)
    case _ => open
  }

  predicate ReadsMutable(c: Config, lax: bool, fs: Fields, ms: Members)
    decreases ms
  {
    match ms
    case MNil => true
    case MCons(id, must, slot, rest) =>
      && (!slot.Absent? ==>
            match FindField(fs, id)
            case None => if must then lax else c.v2 || OneOrigin(c, slot.v)
            case Some(f) => Reads(c, lax, f.ty, slot.v))
      && ReadsMutable(c, lax, fs, rest)
  }

  // ---------------------------------------------------------------- reading single items back

  lemma HoldsConcat(buf: seq<byte>, at: nat, a: Cells, b: Cells)
    ensures Holds(buf, at, a + b) <==> Holds(buf, at, a) && Holds(buf, at + |a|, b)
  {
    if Holds(buf, at, a + b) {
      forall i | 0 <= i < |a| && a[i].B?
        ensures buf[at + i] == a[i].b
      {
        assert (a + b)[i] == a[i];
      }
      forall i | 0 <= i < |b| && b[i].B?
        ensures buf[at + |a| + i] == b[i].b
      {
        assert (a + b)[|a| + i] == b[i];
      }
    }
  }

  lemma HoldsRaw(buf: seq<byte>, at: nat, s: seq<byte>)
    ensures Holds(buf, at, Raw(s)) <==> at + |s| <= |buf| && buf[at..at + |s|] == s
  {
    if Holds(buf, at, Raw(s)) {
      forall i | 0 <= i < |s|
        ensures buf[at..at + |s|][i] == s[i]
      {
        assert Raw(s)[i].B?;
      }
    } else if at + |s| <= |buf| {
      var i :| 0 <= i < |s| && buf[at + i] != s[i];
      assert buf[at..at + |s|][i] == buf[at + i];
    }
  }

  /** Where the cursor stands after cells have been read. */
  function After(cur: Cur, out: Out): Cur {
    Cur(cur.off + |out.cells|, out.rel)
  }

  lemma ReadScalar(c: Config, n: nat, w: nat, a: nat, buf: seq<byte>, cur: Cur)
    requires IsAlign(a) && Inside(cur, buf) && n < Pow256(w)
    requires Holds(buf, cur.off, Scalar(c, n, w, a, cur.rel))
    ensures DecScalar(c, w, a, buf, cur) == Ok(n, Cur(cur.off + Pad(cur.rel, a) + w, cur.rel + Pad(cur.rel, a) + w))
  {
    hide Pad, Pow256, ToBytes, FromBytes, Holds;
    var pad := Pad(cur.rel, a);
    HoldsConcat(buf, cur.off, Gaps(pad), Num(c, n, w));
    HoldsRaw(buf, cur.off + pad, ToBytes(c.little, n, w));
    BytesRoundTrip(c.little, n, w);
  }

  /** A number written right after an aligned one is found without padding. */
  lemma ReadNum(c: Config, n: nat, w: nat, a: nat, buf: seq<byte>, cur: Cur)
    requires IsAlign(a) && Inside(cur, buf) && n < Pow256(w) && Pad(cur.rel, a) == 0
    requires Holds(buf, cur.off, Num(c, n, w))
    ensures DecScalar(c, w, a, buf, cur) == Ok(n, Cur(cur.off + w, cur.rel + w))
  {
    hide Pad;
    assert Gaps(0) + Num(c, n, w) == Num(c, n, w);
    ReadScalar(c, n, w, a, buf, cur);
  }

  lemma ReadU32(c: Config, n: nat, buf: seq<byte>, cur: Cur)
    requires Inside(cur, buf) && n < TWO_32
    requires Holds(buf, cur.off, U32(c, n, cur.rel))
    ensures DecU32(c, buf, cur) == Ok(n, Cur(cur.off + Pad(cur.rel, 4) + 4, cur.rel + Pad(cur.rel, 4) + 4))
  {
    hide Pad;
    Pow256Values();
    ReadScalar(c, n, 4, 4, buf, cur);
  }

  lemma ReadPrim(c: Config, k: Kind, n: nat, buf: seq<byte>, cur: Cur)
    requires Inside(cur, buf) && InKind(k, n)
    requires Holds(buf, cur.off, Scalar(c, n, Size(k), c.AlignOf(k), cur.rel))
    ensures var w := Pad(cur.rel, c.AlignOf(k)) + Size(k);
      DecPrim(c, k, buf, cur) == Ok(n, Cur(cur.off + w, cur.rel + w))
  {
    hide Pad;
    Pow256Values();
    ReadScalar(c, n, Size(k), c.AlignOf(k), buf, cur);
  }

  predicate AllInKind(k: Kind, ns: seq<nat>) {
    forall i :: 0 <= i < |ns| ==> InKind(k, ns[i])
  }

  lemma {:induction false} ReadElements(c: Config, k: Kind, ns: seq<nat>, buf: seq<byte>, cur: Cur)
    requires Inside(cur, buf) && AllInKind(k, ns)
    requires Holds(buf, cur.off, Elements(c, k, ns, cur.rel))
    ensures var es := Elements(c, k, ns, cur.rel);
      DecElements(c, k, |ns|, buf, cur) == Ok(ns, Cur(cur.off + |es|, cur.rel + |es|))
    decreases |ns|
  {
    hide Pad, Holds, Scalar, DecPrim, AllInKind, DecElements;
    if ns == [] {
      ElementsNil(c, k, buf, cur);
    } else {
      var e := Scalar(c, ns[0], Size(k), c.AlignOf(k), cur.rel);
      HoldsConcat(buf, cur.off, e, Elements(c, k, ns[1..], cur.rel + |e|));
      AllInKindTail(k, ns);
      ReadPrim(c, k, ns[0], buf, cur);
      ReadElements(c, k, ns[1..], buf, Cur(cur.off + |e|, cur.rel + |e|));
      var es := Elements(c, k, ns, cur.rel);
      ElementsCons(c, k, ns, buf, cur, Cur(cur.off + |e|, cur.rel + |e|), Cur(cur.off + |es|, cur.rel + |es|));
    }
  }

  lemma ElementsNil(c: Config, k: Kind, buf: seq<byte>, cur: Cur)
    requires Inside(cur, buf)
    ensures DecElements(c, k, 0, buf, cur) == Ok([], cur)
  {
  }

  lemma ElementsCons(c: Config, k: Kind, ns: seq<nat>, buf: seq<byte>, cur: Cur, cur1: Cur, cur2: Cur)
    requires ns != [] && Inside(cur, buf) && Inside(cur1, buf)
    requires DecPrim(c, k, buf, cur) == Ok(ns[0], cur1)
    requires DecElements(c, k, |ns| - 1, buf, cur1) == Ok(ns[1..], cur2)
    ensures DecElements(c, k, |ns|, buf, cur) == Ok(ns, cur2)
  {
    hide DecPrim;
    assert [ns[0]] + ns[1..] == ns;
  }

  lemma AllInKindTail(k: Kind, ns: seq<nat>)
    requires ns != [] && AllInKind(k, ns)
    ensures InKind(k, ns[0]) && AllInKind(k, ns[1..])
  {
  }

  lemma ReadSeqPrim(c: Config, k: Kind, ns: seq<nat>, buf: seq<byte>, cur: Cur)
    requires Inside(cur, buf) && AllInKind(k, ns)
    requires Holds(buf, cur.off, Enc(c, SeqPrim(k, ns), cur.rel).cells)
    requires |ns| < TWO_32
    ensures DecSeqPrim(c, k, buf, cur) == Ok(ns, After(cur, Enc(c, SeqPrim(k, ns), cur.rel)))
  {
    hide Pad, Holds, DecElements, Elements;
    var n := U32(c, |ns|, cur.rel);
    var e := Elements(c, k, ns, cur.rel + |n|);
    HoldsConcat(buf, cur.off, n, e);
    ReadU32(c, |ns|, buf, cur);
    ReadElements(c, k, ns, buf, Cur(cur.off + |n|, cur.rel + |n|));
    ElementsAtLeast(c, k, ns, cur.rel + |n|);
  }

  lemma ReadWStr(c: Config, chars: seq<nat>, buf: seq<byte>, cur: Cur)
    requires Inside(cur, buf) && |WText(chars)| < 0x8000_0000
    requires Holds(buf, cur.off, Enc(c, WStr(chars), cur.rel).cells)
    ensures DecWStr(c, buf, cur) == Ok(WUntrail(WText(chars)), After(cur, Enc(c, WStr(chars), cur.rel)))
  {
    hide Pad, Holds, DecElements, Elements, WText, U32, DecU32, AllInKind, WUntrail;
    var t := WText(chars);
    var n := U32(c, |t|, cur.rel);
    var e := Elements(c, K2, t, cur.rel + |n|);
    HoldsConcat(buf, cur.off, n, e);
    ReadU32(c, |t|, buf, cur);
    WideInKind(chars);
    ReadWide(c, t, buf, Cur(cur.off + |n|, cur.rel + |n|), cur.rel);
    WideCount(|t|);
    WideEmpty();
  }

  lemma WideInKind(chars: seq<nat>)
    ensures AllInKind(K2, WText(chars))
  {
  }

  lemma WideCount(n: nat)
    requires n < 0x8000_0000
    ensures n * 2 % TWO_32 == n * 2
  {
  }

  lemma WideEmpty()
    ensures WUntrail([]) == []
  {
  }

  /** Wide characters behind an aligned count. */
  lemma ReadWide(c: Config, t: seq<nat>, buf: seq<byte>, cur: Cur, p: nat)
    requires Inside(cur, buf) && AllInKind(K2, t) && cur.rel == p + Pad(p, 4) + 4
    requires Holds(buf, cur.off, Elements(c, K2, t, cur.rel))
    ensures var es := Elements(c, K2, t, cur.rel);
      && |es| == 2 * |t| && cur.off + |es| <= |buf|
      && DecElements(c, K2, |t|, buf, cur) == Ok(t, Cur(cur.off + |es|, cur.rel + |es|))
  {
    hide Pad, Holds, DecElements, Elements, AllInKind;
    PadAfter4(p);
    EvenAfter4(cur.rel);
    ElementsPacked(c, K2, t, cur.rel);
    HoldsFits(buf, cur.off, Elements(c, K2, t, cur.rel));
    ReadElements(c, K2, t, buf, cur);
  }

  lemma HoldsFits(buf: seq<byte>, at: nat, cells: Cells)
    requires Holds(buf, at, cells)
    ensures at + |cells| <= |buf|
  {
  }

  lemma NoWideElements(c: Config, t: seq<nat>, p: nat)
    requires t == []
    ensures Elements(c, K2, t, p) == []
  {
  }

  lemma EvenAfter4(p: nat)
    requires Pad(p, 4) == 0
    ensures Pad(p, 2) == 0
  {
  }

  lemma HoldsText(buf: seq<byte>, at: nat, t: seq<byte>)
    requires Holds(buf, at, Raw(t) + [B(0)])
    ensures at + |t| < |buf| && buf[at..at + |t| + 1] == t + [0]
  {
    HoldsConcat(buf, at, Raw(t), [B(0)]);
    HoldsRaw(buf, at, t);
    assert [B(0)][0].B?;
    assert buf[at..at + |t| + 1] == buf[at..at + |t|] + [buf[at + |t|]];
  }

  lemma ReadStr(c: Config, text: seq<byte>, buf: seq<byte>, cur: Cur)
    requires Inside(cur, buf)
    requires Holds(buf, cur.off, Enc(c, Str(text), cur.rel).cells)
    requires |CText(text, 0)| + 1 < TWO_32
    ensures DecStr(c, buf, cur) == Ok(CText(text, 0), After(cur, Enc(c, Str(text), cur.rel)))
  {
    hide Pad, Holds, CText, Raw, U32, DecU32;
    var t := CText(text, 0);
    var n := U32(c, |t| + 1, cur.rel);
    assert n + Raw(t) + [B(0)] == n + (Raw(t) + [B(0)]);
    HoldsConcat(buf, cur.off, n, Raw(t) + [B(0)]);
    HoldsText(buf, cur.off + |n|, t);
    ReadU32(c, |t| + 1, buf, cur);
    assert (t + [0])[..|t|] == t;
  }
}
