/** What readers make of bytes that no writer of their type leaves, and what is in members that were not written. */
module Readings {
  import opened Layout
  import opened Schema
  import opened Encoding
  import opened Decoding
  import opened Evolution
  import opened Patching
  import opened Streams
  import opened Wire

  // ---------------------------------------------------------------- members that were not written

  /** A value of the type in which every number is 0, every string and sequence empty, and every optional absent. */
  predicate Cleared(t: Type, v: Value)
    decreases t, 0
  {
    match t
    case TPrim(k) => v.Prim? && v.k == k && v.n == 0
    case TStr => v.Str? && |v.text| == 0
    case TWStr => v.WStr? && |v.chars| == 0
    case TSeqPrim(k) => v.SeqPrim? && v.k == k && |v.ns| == 0
    case TSeq(e) => v.Seq? && v.elem == e && v.items.INil?
    case TStruct(ext, fs) => v.Struct? && v.ext == ext && ClearedMembers(fs, v.members)
  }

  predicate ClearedMembers(fs: Fields, ms: Members)
    decreases fs
  {
    match fs
    case FNil => ms.MNil?
    case FCons(id, must, opt, ty, rest) =>
      && ms.MCons? && ms.id == id && ms.must == must
      && (if opt then ms.slot.Absent? && ms.slot.ty == ty else ms.slot.Req? && Cleared(ty, ms.slot.v))
      && ClearedMembers(rest, ms.rest)
  }

  lemma {:induction false} DefaultCleared(t: Type)
    ensures Cleared(t, Default(t))
    decreases t, 0
  {
    if t.TStruct? { DefaultMembersCleared(t.fields); }
  }

  lemma {:induction false} DefaultMembersCleared(fs: Fields)
    ensures ClearedMembers(fs, DefaultMembers(fs))
    decreases fs
  {
    match fs
    case FNil =>
    case FCons(_, _, opt, ty, rest) =>
      DefaultCleared(ty);
      DefaultMembersCleared(rest);
  }

  /** There is no other such value. */
  lemma {:induction false} ClearedOnce(t: Type, v: Value)
    requires Cleared(t, v)
    ensures v == Default(t)
    decreases t, 0
  {
    if t.TStruct? { ClearedMembersOnce(t.fields, v.members); }
  }

  lemma {:induction false} ClearedMembersOnce(fs: Fields, ms: Members)
    requires ClearedMembers(fs, ms)
    ensures ms == DefaultMembers(fs)
    decreases fs
  {
    match fs
    case FNil =>
    case FCons(_, _, opt, ty, rest) =>
      if !opt { ClearedOnce(ty, ms.slot.v); }
      ClearedMembersOnce(rest, ms.rest);
  }

  /** `n` elements that were not written. */
  lemma {:induction false} DefaultItemsCleared(t: Type, n: nat, i: nat)
    requires i < n
    ensures Count(DefaultItems(t, n)) == n && Cleared(t, ItemAt(DefaultItems(t, n), i))
    decreases n
  {
    DefaultCleared(t);
    if n == 1 {
      assert DefaultItems(t, 0) == INil;
    } else {
      DefaultItemsCleared(t, n - 1, if i == 0 then 0 else i - 1);
    }
  }

  function ItemAt(items: Items, i: nat): Value {
    if items.INil? then Str([]) else if i == 0 then items.head else ItemAt(items.rest, i - 1)
  }

  /** The first two of three members were written: the third is 0, in an extent that ends early and at the end of a buffer. */
  lemma FewerWritten(c: Config, x: byte, buf: seq<byte>)
    requires var cells := Word(c.little, [x, 0, 0, 0]) + Word(c.little, [x, 0]);
      if c.v2 then |buf| == 10 && Holds(buf, 0, Word(c.little, [6, 0, 0, 0]) + cells) else |buf| == 6 && Holds(buf, 0, cells)
    ensures var fs := FCons(1, false, false, TPrim(K4), FCons(2, false, false, TPrim(K2), FCons(3, false, false, TPrim(K1), FNil)));
      var ms := MCons(1, false, Req(Prim(K4, x)), MCons(2, false, Req(Prim(K2, x)), MCons(3, false, Req(Prim(K1, 0)), MNil)));
      Decode(c, TStruct(Appendable, fs), buf, Cur(0, 0)) == Ok(Struct(Appendable, ms), Cur(|buf|, |buf|))
  {
    hide Holds, Word, Decode, DecFields;
    var third := FCons(3, false, false, TPrim(K1), FNil);
    var fs := FCons(1, false, false, TPrim(K4), FCons(2, false, false, TPrim(K2), third));
    var cells := Word(c.little, [x, 0, 0, 0]) + Word(c.little, [x, 0]);
    if c.v2 {
      HoldsConcat(buf, 0, Word(c.little, [6, 0, 0, 0]), cells);
      WordRead(c, 6, 6, 0, 0, 0, buf, 0);
      TwoRead(c, x, third, buf, 4, 10);
      ThirdCleared(c, third, buf, 10);
      DelimitedRead(c, fs, buf);
    } else {
      assert [] + cells == cells;
      TwoRead(c, x, third, buf, 0, 6);
      ThirdCleared(c, third, buf, 6);
      PlainRead(c, fs, buf);
    }
  }

  lemma ThirdCleared(c: Config, third: Fields, buf: seq<byte>, at: nat)
    requires third == FCons(3, false, false, TPrim(K1), FNil) && at == |buf|
    ensures DecFields(c, third, buf, Cur(at, at), at) == Ok(MCons(3, false, Req(Prim(K1, 0)), MNil), Cur(at, at))
  {
  }

  lemma DelimitedRead(c: Config, fs: Fields, buf: seq<byte>)
    requires c.v2 && |buf| == 10 && DecU32(c, buf, Cur(0, 0)) == Ok(6, Cur(4, 4))
    requires var r := DecFields(c, fs, buf, Cur(4, 4), 10); r.Ok? && r.cur == Cur(10, 10)
    ensures Decode(c, TStruct(Appendable, fs), buf, Cur(0, 0))
         == Ok(Struct(Appendable, DecFields(c, fs, buf, Cur(4, 4), 10).value), Cur(10, 10))
  {
    hide DecU32, DecFields;
  }

  lemma PlainRead(c: Config, fs: Fields, buf: seq<byte>)
    requires !c.v2 && DecFields(c, fs, buf, Cur(0, 0), |buf|).Ok?
    ensures var r := DecFields(c, fs, buf, Cur(0, 0), |buf|);
      Decode(c, TStruct(Appendable, fs), buf, Cur(0, 0)) == Ok(Struct(Appendable, r.value), r.cur)
  {
    hide DecFields;
  }

  lemma TwoRead(c: Config, x: byte, third: Fields, buf: seq<byte>, at: nat, stop: nat)
    requires at % 4 == 0 && stop == at + 6 == |buf|
    requires Holds(buf, at, Word(c.little, [x, 0, 0, 0]) + Word(c.little, [x, 0]))
    ensures var fs := FCons(1, false, false, TPrim(K4), FCons(2, false, false, TPrim(K2), third));
      var rest := DecFields(c, third, buf, Cur(stop, stop), stop);
      DecFields(c, fs, buf, Cur(at, at), stop)
      == if rest.Err? then Err
         else Ok(MCons(1, false, Req(Prim(K4, x)), MCons(2, false, Req(Prim(K2, x)), rest.value)), rest.cur)
  {
    hide Holds, Word, Num, DecSlot, DecFields;
    HoldsConcat(buf, at, Word(c.little, [x, 0, 0, 0]), Word(c.little, [x, 0]));
    Num4(c, x, x, 0, 0, 0);
    Num2(c, x, x, 0);
    SlotRead(c, K4, x, buf, at);
    SlotRead(c, K2, x, buf, at + 4);
    var second := FCons(2, false, false, TPrim(K2), third);
    FieldRead(c, second, buf, Cur(at + 4, at + 4), stop, Req(Prim(K2, x)), Cur(stop, stop));
    FieldRead(c, FCons(1, false, false, TPrim(K4), second), buf, Cur(at, at), stop, Req(Prim(K4, x)), Cur(at + 4, at + 4));
  }

  lemma FieldRead(c: Config, fs: Fields, buf: seq<byte>, cur: Cur, stop: nat, slot: Slot, cur1: Cur)
    requires Inside(cur, buf) && Inside(cur1, buf) && fs.FCons? && cur.off < stop
    requires DecSlot(c, fs.opt, fs.ty, buf, cur) == Ok(slot, cur1)
    ensures var rest := DecFields(c, fs.rest, buf, cur1, stop);
      DecFields(c, fs, buf, cur, stop)
      == if rest.Err? then Err else Ok(MCons(fs.id, fs.must, slot, rest.value), rest.cur)
  {
    hide DecSlot;
  }

  lemma SlotRead(c: Config, k: Kind, n: nat, buf: seq<byte>, at: nat)
    requires InKind(k, n) && k != K8 && at % 4 == 0 && at <= |buf| && Holds(buf, at, Num(c, n, Size(k)))
    ensures DecSlot(c, false, TPrim(k), buf, Cur(at, at)) == Ok(Req(Prim(k, n)), Cur(at + Size(k), at + Size(k)))
  {
    hide Holds, Num;
    NoGap(Num(c, n, Size(k)));
    ReadPrim(c, k, n, buf, Cur(at, at));
  }

  /** A number of four bytes at a position that is a multiple of 4. */
  lemma WordRead(c: Config, n: nat, a: byte, b: byte, d: byte, e: byte, buf: seq<byte>, at: nat)
    requires at % 4 == 0 && at <= |buf| && n == a + 0x100 * b + 0x1_0000 * d + 0x100_0000 * e
    requires Holds(buf, at, Word(c.little, [a, b, d, e]))
    ensures DecU32(c, buf, Cur(at, at)) == Ok(n, Cur(at + 4, at + 4))
  {
    hide Holds, Word, Num;
    Num4(c, n, a, b, d, e);
    AlignedWord(c, n, at);
    ReadU32(c, n, buf, Cur(at, at));
  }

  // ---------------------------------------------------------------- booleans

  /** A byte is a boolean only if it is 0 or 1. */
  lemma BooleanRead(c: Config, buf: seq<byte>, cur: Cur)
    requires Inside(cur, buf) && cur.off < |buf|
    ensures DecPrim(c, KBool, buf, cur) == if buf[cur.off] <= 1 then Ok(buf[cur.off], Cur(cur.off + 1, cur.rel + 1)) else Err
    ensures DecPrim(c, K1, buf, cur) == Ok(buf[cur.off], Cur(cur.off + 1, cur.rel + 1))
  {
    hide FromBytes, Pad;
    PadOne(cur.rel);
    assert buf[cur.off..cur.off + 1] == [buf[cur.off]];
    OneByteNumber(c.little, buf[cur.off]);
  }

  lemma OneByteNumber(little: bool, b: byte)
    ensures FromBytes(little, [b]) == b
  {
    assert Reverse([b]) == [b];
    assert FromLittle([b][1..]) == 0;
  }

  // ---------------------------------------------------------------- strings

  /** Whatever is in it, a string without a zero at its end is read whole, and one zero at its end is dropped. */
  lemma StringRead(c: Config, s: seq<byte>, buf: seq<byte>, cur: Cur)
    requires Inside(cur, buf) && s != [] && |s| < TWO_32 && Holds(buf, cur.off, U32(c, |s|, cur.rel) + Raw(s))
    ensures var n := Pad(cur.rel, 4) + 4 + |s|;
      var next := Cur(cur.off + n, cur.rel + n);
      && (s[|s| - 1] != 0 ==> DecStr(c, buf, cur) == Ok(s, next))
      && (forall t :: s == t + [0] ==> DecStr(c, buf, cur) == Ok(t, next))
  {
    hide Pad, Holds, Raw, U32, DecU32;
    var n := U32(c, |s|, cur.rel);
    HoldsConcat(buf, cur.off, n, Raw(s));
    HoldsRaw(buf, cur.off + |n|, s);
    ReadU32(c, |s|, buf, cur);
    forall t | s == t + [0]
      ensures s[|s| - 1] == 0 && s[..|s| - 1] == t
    {
    }
  }

  lemma NoString(c: Config, buf: seq<byte>, cur: Cur)
    requires Inside(cur, buf) && Holds(buf, cur.off, U32(c, 0, cur.rel))
    ensures var next := Cur(cur.off + Pad(cur.rel, 4) + 4, cur.rel + Pad(cur.rel, 4) + 4);
      DecStr(c, buf, cur) == Ok([], next) && DecWStr(c, buf, cur) == Ok([], next)
  {
    hide Pad, Holds, U32, DecU32, DecElements;
    ReadU32(c, 0, buf, cur);
  }

  /** The same for a wide string. */
  lemma WideRead(c: Config, s: seq<nat>, buf: seq<byte>, cur: Cur)
    requires Inside(cur, buf) && s != [] && |s| < 0x8000_0000 && AllInKind(K2, s)
    requires var n := U32(c, |s|, cur.rel); Holds(buf, cur.off, n + Elements(c, K2, s, cur.rel + |n|))
    ensures var n := Pad(cur.rel, 4) + 4 + 2 * |s|;
      var next := Cur(cur.off + n, cur.rel + n);
      && (s[|s| - 1] != 0 ==> DecWStr(c, buf, cur) == Ok(s, next))
      && (forall t :: s == t + [0] ==> DecWStr(c, buf, cur) == Ok(t, next))
  {
    hide Pad, Holds, U32, DecU32, Elements, DecElements, AllInKind;
    var n := U32(c, |s|, cur.rel);
    HoldsConcat(buf, cur.off, n, Elements(c, K2, s, cur.rel + |n|));
    ReadU32(c, |s|, buf, cur);
    ReadWide(c, s, buf, Cur(cur.off + |n|, cur.rel + |n|), cur.rel);
    WideCount(|s|);
    forall t | s == t + [0]
      ensures s[|s| - 1] == 0 && s[..|s| - 1] == t
    {
    }
  }

  /** A count of 2^31 wide characters doubles to nothing in 32 bits, and is the empty string. */
  lemma WideWraps(c: Config, buf: seq<byte>)
    requires Holds(buf, 0, Word(c.little, [0, 0, 0, 0x80]))
    ensures DecWStr(c, buf, Cur(0, 0)) == Ok([], Cur(4, 4))
  {
    hide Holds, Word, DecU32, DecElements;
    WordRead(c, 0x8000_0000, 0, 0, 0, 0x80, buf, 0);
  }

  // ---------------------------------------------------------------- headers

  /** An extended header must announce 8 bytes, and a sentinel none. */
  lemma HeadersRefused1(c: Config, must: bool, size: nat, buf: seq<byte>)
    requires size < 0x1_0000
    requires var top := if must then 0x7F else 0x3F;
      || (size != 8 && Holds(buf, 0, Word(c.little, [0x01, top]) + Num(c, size, 2)))
      || (size != 0 && Holds(buf, 0, Word(c.little, [0x02, top]) + Num(c, size, 2)))
    ensures DecHeader1(c, buf, Cur(0, 0)) == Err
  {
    hide Holds, Word, Num, DecU32;
    var top: byte := if must then 0x7F else 0x3F;
    if size != 8 && Holds(buf, 0, Word(c.little, [0x01, top]) + Num(c, size, 2)) {
      HalvesRead(c, 0x01 + 256 * top, 0x01, top, size, buf);
    } else {
      HalvesRead(c, 0x02 + 256 * top, 0x02, top, size, buf);
    }
  }

  /** The two halves a header starts with. */
  lemma HalvesRead(c: Config, w: nat, a: byte, b: byte, size: nat, buf: seq<byte>)
    requires w == a + 256 * b && size < 0x1_0000 && Holds(buf, 0, Word(c.little, [a, b]) + Num(c, size, 2))
    ensures DecScalar(c, 2, 4, buf, Cur(0, 0)) == Ok(w, Cur(2, 2)) && DecScalar(c, 2, 2, buf, Cur(2, 2)) == Ok(size, Cur(4, 4))
  {
    hide Holds, Word, Num;
    HoldsConcat(buf, 0, Word(c.little, [a, b]), Num(c, size, 2));
    HoldsFits(buf, 2, Num(c, size, 2));
    Num2(c, w, a, b);
    Pow256Values();
    ReadNum(c, w, 2, 4, buf, Cur(0, 0));
    ReadNum(c, size, 2, 2, buf, Cur(2, 2));
  }

  /** A shared NEXTINT counts in its unit, 4 bytes more, in 32 bits: 2^30 times 4 is nothing. */
  lemma NextIntWraps(c: Config, buf: seq<byte>)
    requires Holds(buf, 0, Word(c.little, [1, 0, 0, 0x60]) + Word(c.little, [0, 0, 0, 0x40]))
    ensures DecHeader2(c, buf, Cur(0, 0)) == Ok(Header(1, false, 4, 4), Cur(4, 4))
  {
    hide Holds, Word, DecU32;
    HoldsConcat(buf, 0, Word(c.little, [1, 0, 0, 0x60]), Word(c.little, [0, 0, 0, 0x40]));
    HoldsFits(buf, 4, Word(c.little, [0, 0, 0, 0x40]));
    WordRead(c, 0x6000_0001, 1, 0, 0, 0x60, buf, 0);
    WordRead(c, 0x4000_0000, 0, 0, 0, 0x40, buf, 4);
  }

  /** A sentinel in place of an optional member's header: the member is absent. */
  lemma SentinelIsAbsent(c: Config, ty: Type, buf: seq<byte>)
    requires !c.v2 && Holds(buf, 0, Word(c.little, [0x02, 0x3F]) + Word(c.little, [0, 0]))
    ensures DecSlot(c, true, ty, buf, Cur(0, 0)) == Ok(Absent(ty), Cur(4, 4))
  {
    hide Holds, Word, Num, DecU32, Decode;
    Num2(c, 0, 0, 0);
    HalvesRead(c, 0x3F02, 0x02, 0x3F, 0, buf);
  }

  /** A member of one byte behind an XCDRv1 header that announces two is refused, as an optional and in a mutable struct. */
  lemma SizeRefused1(c: Config, x: byte, y: byte, buf: seq<byte>)
    requires !c.v2 && Holds(buf, 0, Word(c.little, [1, 0]) + Word(c.little, [2, 0]) + Raw([x, y]))
    ensures DecSlot(c, true, TPrim(K1), buf, Cur(0, 0)) == Err
    ensures Decode(c, TStruct(Mutable, FCons(1, false, false, TPrim(K1), FNil)), buf, Cur(0, 0)) == Err
  {
    hide Holds, Word, Num, DecU32, DecPrim, Loop1;
    HoldsConcat(buf, 0, Word(c.little, [1, 0]) + Word(c.little, [2, 0]), Raw([x, y]));
    HoldsFits(buf, 4, Raw([x, y]));
    Num2(c, 2, 2, 0);
    HalvesRead(c, 1, 1, 0, 2, buf);
    BooleanRead(c, buf, Cur(4, 0));
    var fs := FCons(1, false, false, TPrim(K1), FNil);
    var h := Header(1, false, 2, 4);
    assert DecHeader1(c, buf, Cur(0, 0)) == Ok(Member(h), Cur(4, 0));
    assert Decode(c, TPrim(K1), buf, Cur(4, 0)).Ok?;
    RoundRefused1(c, fs, h, buf, DefaultMembers(fs));
  }

  lemma RoundRefused1(c: Config, fs: Fields, h: Header, buf: seq<byte>, acc: Members)
    requires !c.v2 && |buf| >= 4 && DecHeader1(c, buf, Cur(0, 0)) == Ok(Member(h), Cur(4, 0)) && h.size == 2
    requires FindField(fs, h.id) == Some(Field(false, false, TPrim(K1)))
    requires var r := Decode(c, TPrim(K1), buf, Cur(4, 0)); r.Ok? && r.cur.off == 5
    ensures Loop1(c, fs, buf, Cur(0, 0), acc) == Err
  {
    hide DecHeader1, Decode, FindField;
  }

  // ---------------------------------------------------------------- extents

  /** A sequence of octets in an extent: two in its count. */
  lemma ExtentDecides(c: Config, dh: byte, x: byte, y: byte, buf: seq<byte>)
    requires c.v2 && Holds(buf, 0, Word(c.little, [dh, 0, 0, 0]) + Word(c.little, [2, 0, 0, 0]) + Raw([x, y]))
    ensures var r := Decode(c, TSeq(TPrim(K1)), buf, Cur(0, 0));
      r == if dh == 6 then Ok(Seq(TPrim(K1), ICons(Prim(K1, x), ICons(Prim(K1, y), INil))), Cur(10, 10))
           else if dh == 5 then Ok(Seq(TPrim(K1), ICons(Prim(K1, x), ICons(Prim(K1, 0), INil))), Cur(9, 9))
           else if dh == 4 then Ok(Seq(TPrim(K1), ICons(Prim(K1, 0), ICons(Prim(K1, 0), INil))), Cur(8, 8))
           else Err
  {
    hide Holds, Word, DecU32, DecPrim, DecItems;
    var head := Word(c.little, [dh, 0, 0, 0]) + Word(c.little, [2, 0, 0, 0]);
    HoldsConcat(buf, 0, head, Raw([x, y]));
    HoldsConcat(buf, 0, Word(c.little, [dh, 0, 0, 0]), Word(c.little, [2, 0, 0, 0]));
    HoldsRaw(buf, 8, [x, y]);
    assert buf[8..10][0] == x && buf[8..10][1] == y;
    WordRead(c, dh, dh, 0, 0, 0, buf, 0);
    WordRead(c, 2, 2, 0, 0, 0, buf, 4);
    OctetsRead(c, x, y, buf, 4 + dh);
  }

  lemma OctetsRead(c: Config, x: byte, y: byte, buf: seq<byte>, stop: nat)
    requires |buf| >= 10 && buf[8] == x && buf[9] == y
    ensures DecItems(c, TPrim(K1), 2, buf, Cur(8, 8), stop)
         == if stop <= 8 then Ok(ICons(Prim(K1, 0), ICons(Prim(K1, 0), INil)), Cur(8, 8))
            else if stop == 9 then Ok(ICons(Prim(K1, x), ICons(Prim(K1, 0), INil)), Cur(9, 9))
            else Ok(ICons(Prim(K1, x), ICons(Prim(K1, y), INil)), Cur(10, 10))
  {
    hide DecPrim;
    BooleanRead(c, buf, Cur(8, 8));
    BooleanRead(c, buf, Cur(9, 9));
    var t := TPrim(K1);
    assert DefaultItems(t, 0) == INil && DefaultItems(t, 1) == ICons(Prim(K1, 0), INil);
    assert Decode(c, t, buf, Cur(8, 8)) == Ok(Prim(K1, x), Cur(9, 9));
    assert Decode(c, t, buf, Cur(9, 9)) == Ok(Prim(K1, y), Cur(10, 10));
    assert DecItems(c, t, 0, buf, Cur(10, 10), stop) == Ok(INil, Cur(10, 10));
    assert DecItems(c, t, 1, buf, Cur(9, 9), stop)
        == if 9 >= stop then Ok(ICons(Prim(K1, 0), INil), Cur(9, 9)) else Ok(ICons(Prim(K1, y), INil), Cur(10, 10));
  }

  /** Without elements the extent is not looked at. */
  lemma ExtentOfNone(c: Config, e: Type, dh: byte, buf: seq<byte>)
    requires c.v2 && Holds(buf, 0, Word(c.little, [dh, 0, 0, 0]) + Word(c.little, [0, 0, 0, 0]))
    ensures Decode(c, TSeq(e), buf, Cur(0, 0)) == Ok(Seq(e, INil), Cur(8, 8))
  {
    hide Holds, Word, DecU32, DecItems;
    HoldsConcat(buf, 0, Word(c.little, [dh, 0, 0, 0]), Word(c.little, [0, 0, 0, 0]));
    HoldsFits(buf, 4, Word(c.little, [0, 0, 0, 0]));
    WordRead(c, dh, dh, 0, 0, 0, buf, 0);
    WordRead(c, 0, 0, 0, 0, 0, buf, 4);
  }

  /** An appendable struct of one octet whose extent is longer: it is skipped if the buffer reaches that far, or not at all. */
  lemma ExtentSkipped(c: Config, dh: byte, x: byte, y: byte, buf: seq<byte>)
    requires c.v2 && dh > 0 && |buf| == 6 && Holds(buf, 0, Word(c.little, [dh, 0, 0, 0]) + Raw([x, y]))
    ensures Decode(c, TStruct(Appendable, FCons(0, false, false, TPrim(K1), FNil)), buf, Cur(0, 0))
         == Ok(Struct(Appendable, MCons(0, false, Req(Prim(K1, x)), MNil)), if dh == 2 then Cur(6, 6) else Cur(5, 5))
  {
    hide Holds, Word, DecU32, DecPrim, DecFields;
    HoldsConcat(buf, 0, Word(c.little, [dh, 0, 0, 0]), Raw([x, y]));
    HoldsRaw(buf, 4, [x, y]);
    assert buf[4..6][0] == x;
    WordRead(c, dh, dh, 0, 0, 0, buf, 0);
    OctetRead(c, x, buf, 4 + dh);
  }

  /** One of an unsigned short whose extent is shorter: the member is read beyond it, and the cursor stays there. */
  lemma ExtentOvershot(c: Config, x: byte, y: byte, buf: seq<byte>)
    requires c.v2 && |buf| == 6 && Holds(buf, 0, Word(c.little, [1, 0, 0, 0]) + Word(c.little, [x, y]))
    ensures Decode(c, TStruct(Appendable, FCons(0, false, false, TPrim(K2), FNil)), buf, Cur(0, 0))
         == Ok(Struct(Appendable, MCons(0, false, Req(Prim(K2, x + 256 * y)), MNil)), Cur(6, 6))
  {
    hide Holds, Word, DecU32, DecSlot;
    HoldsConcat(buf, 0, Word(c.little, [1, 0, 0, 0]), Word(c.little, [x, y]));
    WordRead(c, 1, 1, 0, 0, 0, buf, 0);
    Num2(c, x + 256 * y, x, y);
    SlotRead(c, K2, x + 256 * y, buf, 4);
    assert DecFields(c, FNil, buf, Cur(6, 6), 5) == Ok(MNil, Cur(6, 6));
    assert DecFields(c, FCons(0, false, false, TPrim(K2), FNil), buf, Cur(4, 4), 5)
        == Ok(MCons(0, false, Req(Prim(K2, x + 256 * y)), MNil), Cur(6, 6));
  }

  lemma OctetRead(c: Config, x: byte, buf: seq<byte>, stop: nat)
    requires |buf| == 6 && buf[4] == x && stop > 4
    ensures DecFields(c, FCons(0, false, false, TPrim(K1), FNil), buf, Cur(4, 4), stop)
         == Ok(MCons(0, false, Req(Prim(K1, x)), MNil), Cur(5, 5))
  {
    hide DecPrim;
    BooleanRead(c, buf, Cur(4, 4));
    assert Decode(c, TPrim(K1), buf, Cur(4, 4)) == Ok(Prim(K1, x), Cur(5, 5));
    assert DecSlot(c, false, TPrim(K1), buf, Cur(4, 4)) == Ok(Req(Prim(K1, x)), Cur(5, 5));
    assert DecFields(c, FNil, buf, Cur(5, 5), stop) == Ok(MNil, Cur(5, 5));
  }
}
