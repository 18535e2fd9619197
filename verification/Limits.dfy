/** Where readers part from the writer, and exactly when. */
module Limits {
  import opened Layout
  import opened Schema
  import opened Encoding
  import opened EncodingFacts
  import opened Decoding
  import opened Evolution
  import opened RoundTrip
  import opened Theorem

  // ---------------------------------------------------------------- members of no bytes

  /** An XCDRv1 optional of no bytes in a plain struct is taken for an absent one. */
  lemma HollowOptional1(c: Config, ext: Extensibility, ty: Type, id: nat, must: bool, v: Value, buf: seq<byte>, cur: Cur)
    requires !c.v2 && ext != Mutable && id < 0xFFFF_FFFF && Hollow(c, v)
    requires Stands(c, buf, cur, EncSlot(c, ext, id, must, Present(v), cur.rel))
    ensures DecSlot(c, true, ty, buf, cur)
         == Ok(Absent(ty), After(cur, EncSlot(c, ext, id, must, Present(v), cur.rel)))
  {
    hide Holds, Enc, Decode, Hollow, EncHeaded1, DecHeader1;
    var h, cur1 := ReadHeaded1(c, id, must, v, buf, cur);
    EncHollow(c, v, 0);
  }

  /** An XCDRv2 member of no bytes in a mutable struct is refused by every reader. */
  lemma HollowMember2(c: Config, fs: Fields, id: nat, must: bool, v: Value, buf: seq<byte>, cur: Cur, acc: Members)
    requires c.v2 && id < 0x1000_0000 && Hollow(c, v) && Stands(c, buf, cur, EncHeaded2(c, id, must, v, cur.rel))
    ensures Round2(c, fs, buf, cur, acc) == Err
  {
    hide Pad, Holds, EncHeaded2, Enc, Hollow, RoundBody, DecHeader2;
    var h, cur1 := ReadHeaded2(c, id, must, v, buf, cur);
    EncHollow(c, v, cur1.rel);
  }

  // ---------------------------------------------------------------- sequences longer than the bytes left

  /** Elements that may take no bytes. */
  predicate EachWritable(c: Config, items: Items) {
    items.ICons? ==> Writable(c, items.head) && EachWritable(c, items.rest)
  }

  lemma {:induction false} ReadEach(c: Config, e: Type, items: Items, buf: seq<byte>, cur: Cur)
    requires EachWritable(c, items) && ReadsItems(c, false, e, items) && Stands(c, buf, cur, EncItems(c, items, cur.rel))
    ensures DecItems(c, e, Count(items), buf, cur, |buf| + 1)
         == Ok(ViewItems(e, items), After(cur, EncItems(c, items, cur.rel)))
    decreases items
  {
    hide Writable, Reads, View, Decode, Enc, Stands;
    match items
    case INil => assert Inside(cur, buf) by { StandsInside(c, buf, cur, EncItems(c, items, cur.rel)); }
    case ICons(v, rest) =>
      var a := Enc(c, v, cur.rel);
      StandsInside(c, buf, cur, EncItems(c, items, cur.rel));
      StandsConcat(c, buf, cur, a, EncItems(c, rest, a.rel), EncItems(c, items, cur.rel));
      ReadValue(c, e, v, buf, cur);
      ReadEach(c, e, rest, buf, After(cur, a));
  }

  /**
   An XCDRv1 sequence of non-primitives is read back exactly when at least as many bytes as elements lie behind its
   count, elements of no bytes included; the guard against absurd counts refuses it otherwise.
   */
  lemma SequenceAccepted1(c: Config, e: Type, v: Value, buf: seq<byte>, cur: Cur)
    requires !c.v2 && v.Seq? && Count(v.items) < TWO_32
    requires EachWritable(c, v.items) && ReadsItems(c, false, e, v.items) && Stands(c, buf, cur, Enc(c, v, cur.rel))
    ensures Decode(c, TSeq(e), buf, cur)
         == if Count(v.items) <= |buf| - cur.off - Pad(cur.rel, 4) - 4
            then Ok(View(TSeq(e), v), After(cur, Enc(c, v, cur.rel))) else Err
  {
    hide DecSeq1, Enc, EachWritable, ReadsItems, View, Pad, Stands;
    StandsInside(c, buf, cur, Enc(c, v, cur.rel));
    CountedItems1(c, e, v, buf, cur);
  }

  /** One element of no bytes at the end of a message: it is refused. */
  lemma HollowRefused1(c: Config, buf: seq<byte>)
    requires !c.v2 && |buf| == 4 && Holds(buf, 0, Enc(c, OneHollow(), 0).cells)
    ensures Writable(c, OneHollow().items.head) && Decode(c, TSeq(TStruct(Final, FNil)), buf, Cur(0, 0)) == Err
  {
    hide Enc, Holds, Writable, Reads, Decode, View, EachWritable, ReadsItems, Count;
    HollowCells(c);
    HollowItem(c);
    SequenceAccepted1(c, TStruct(Final, FNil), OneHollow(), buf, Cur(0, 0));
  }

  lemma HollowItem(c: Config)
    ensures var items := OneHollow().items;
      && Writable(c, items.head) && EachWritable(c, items) && Count(items) == 1
      && ReadsItems(c, false, TStruct(Final, FNil), items)
  {
    var item := Struct(Final, MNil);
    assert WritableMembers(c, Final, MNil) && Writable(c, item);
    assert ReadsPlain(c, false, false, FNil, MNil) && Reads(c, false, TStruct(Final, FNil), item);
    assert EachWritable(c, INil) && ReadsItems(c, false, TStruct(Final, FNil), INil) && Count(INil) == 0;
  }

  function OneHollow(): Value { Seq(TStruct(Final, FNil), ICons(Struct(Final, MNil), INil)) }

  lemma HollowCells(c: Config)
    requires !c.v2
    ensures |Enc(c, OneHollow(), 0).cells| == 4
  {
    hide Num, Gaps;
    SeqOut1(c, OneHollow(), 0);
    assert EncMembers(c, Final, MNil, 4) == Out([], 4) && Enc(c, Struct(Final, MNil), 4) == Out([], 4);
    assert EncItems(c, INil, 4) == Out([], 4);
  }

  lemma CountedItems1(c: Config, e: Type, v: Value, buf: seq<byte>, cur: Cur)
    requires !c.v2 && v.Seq? && Count(v.items) < TWO_32
    requires EachWritable(c, v.items) && ReadsItems(c, false, e, v.items) && Stands(c, buf, cur, Enc(c, v, cur.rel))
    ensures DecSeq1(c, e, buf, cur)
         == if Count(v.items) <= |buf| - cur.off - Pad(cur.rel, 4) - 4
            then Ok(View(TSeq(e), v), After(cur, Enc(c, v, cur.rel))) else Err
  {
    hide Pad, U32, DecU32, EncItems, DecItems, ReadsItems, EachWritable, ViewItems, Holds, Enc, DecSeq1, Stands, Count,
         View, After;
    ViewOfSeq(e, v);
    var n := Pad(cur.rel, 4) + 4;
    var cur1 := Cur(cur.off + n, cur.rel + n);
    CountStands1(c, v, buf, cur);
    ReadU32(c, Count(v.items), buf, cur);
    ReadEach(c, e, v.items, buf, cur1);
    CountFirst1(c, e, buf, cur, Count(v.items), cur1);
  }

  lemma ViewOfSeq(e: Type, v: Value)
    requires v.Seq?
    ensures View(TSeq(e), v) == Seq(e, ViewItems(e, v.items))
  {
  }

  lemma CountStands1(c: Config, v: Value, buf: seq<byte>, cur: Cur)
    requires !c.v2 && v.Seq? && Stands(c, buf, cur, Enc(c, v, cur.rel))
    ensures var cur1 := Cur(cur.off + Pad(cur.rel, 4) + 4, cur.rel + Pad(cur.rel, 4) + 4);
      && Inside(cur, buf) && Holds(buf, cur.off, U32(c, Count(v.items), cur.rel))
      && Stands(c, buf, cur1, EncItems(c, v.items, cur1.rel))
      && After(cur1, EncItems(c, v.items, cur1.rel)) == After(cur, Enc(c, v, cur.rel))
  {
    hide Pad, U32, EncItems, Holds, Enc;
    SeqOut1(c, v, cur.rel);
    var n := Pad(cur.rel, 4) + 4;
    var b := EncItems(c, v.items, cur.rel + n);
    HoldsConcat(buf, cur.off, U32(c, Count(v.items), cur.rel), b.cells);
    HoldsFits(buf, cur.off + n, b.cells);
  }

  lemma SeqOut1(c: Config, v: Value, p: nat)
    requires !c.v2 && v.Seq?
    ensures var n := U32(c, Count(v.items), p);
      var b := EncItems(c, v.items, p + |n|);
      Enc(c, v, p) == Out(n + b.cells, b.rel)
  {
    hide U32, EncItems, Pad;
  }

  lemma CountFirst1(c: Config, e: Type, buf: seq<byte>, cur: Cur, n: nat, cur1: Cur)
    requires !c.v2 && Inside(cur, buf) && DecU32(c, buf, cur) == Ok(n, cur1)
    ensures var r := DecItems(c, e, n, buf, cur1, |buf| + 1);
      DecSeq1(c, e, buf, cur) == if |buf| - cur1.off < n || r.Err? then Err else Ok(Seq(e, r.value), r.cur)
  {
    hide DecU32, DecItems, Pad;
  }

  // ---------------------------------------------------------------- skipping a member

  /**
   A reader that skips an XCDRv1 member ends where the writer did, cursor and origin, exactly when no member header
   was written inside the member: the writer leaves such a header's origin in force, the reader never sees it.
   */
  lemma SkippedOrigin1(c: Config, fs: Fields, v: Value, h: Header, buf: seq<byte>, at: nat, acc: Members)
    requires !c.v2 && FindField(fs, h.id) == None && !h.must && h.size == |Enc(c, v, 0).cells|
    requires at + h.size <= |buf|
    ensures RoundBody(c, fs, buf, Cur(at, 0), h, acc) == Ok(acc, After(Cur(at, 0), Enc(c, v, 0))) <==> OneOrigin(c, v)
  {
    hide Enc, OneOrigin, Decode;
    EncOneOrigin(c, v, 0);
  }

  /** In XCDRv2, where no header moves the origin, it always does. */
  lemma SkippedOrigin2(c: Config, fs: Fields, v: Value, h: Header, buf: seq<byte>, cur: Cur, acc: Members)
    requires c.v2 && Inside(cur, buf) && FindField(fs, h.id) == None && !h.must && h.size == |Enc(c, v, cur.rel).cells|
    requires cur.off + h.size <= |buf|
    ensures RoundBody(c, fs, buf, cur, h, acc) == Ok(acc, After(cur, Enc(c, v, cur.rel)))
  {
    hide Enc, Decode;
  }

  /** A mutable struct whose one member holds an optional number, and an 8-byte number behind it. */
  function Inner(): Value { Struct(Final, MCons(9, false, Present(Prim(K4, 7)), MNil)) }

  function Outer(): Value { Struct(Mutable, MCons(1, false, Req(Inner()), MNil)) }

  function Drifting(n: nat): Value {
    Struct(Final, MCons(0, false, Req(Outer()), MCons(1, false, Req(Prim(K8, n)), MNil)))
  }

  /** A reader that knows nothing of that mutable struct's member. */
  const AHEAD: Type := TStruct(Final, FCons(0, false, false, TStruct(Mutable, FNil), FCons(1, false, false, TPrim(K8), FNil)))

  lemma InnerCells(c: Config, p: nat)
    requires c == Config(false, c.little, AutoShort)
    ensures |Enc(c, Inner(), p).cells| == Pad(p, 4) + 8 && Enc(c, Inner(), p).rel == 4
  {
    hide Num, Gaps;
    var a := EncHeaded1(c, 9, false, Prim(K4, 7), p);
    assert |a.cells| == Pad(p, 4) + 8 && a.rel == 4;
    assert EncSlot(c, Final, 9, false, Present(Prim(K4, 7)), p) == a;
    assert EncMembers(c, Final, MNil, 4) == Out([], 4);
  }

  lemma OuterCells(c: Config)
    requires c == Config(false, c.little, AutoShort)
    ensures Enc(c, Outer(), 0) == Out(Header1(c, 1, false, 8, false, 0) + Enc(c, Inner(), 0).cells + Sentinel(c, 4), 8)
    ensures |Enc(c, Inner(), 0).cells| == 8
  {
    InnerCells(c, 0);
    hide Num, Gaps, Enc, Header1, Sentinel;
    var b := Enc(c, Inner(), 0);
    var a := EncHeaded1(c, 1, false, Inner(), 0);
    assert a == Out(Header1(c, 1, false, 8, false, 0) + b.cells, 4);
    assert EncMembers(c, Mutable, MNil, 4) == Out([], 4);
    assert EncSlot(c, Mutable, 1, false, Req(Inner()), 0) == a;
    var ms := MCons(1, false, Req(Inner()), MNil);
    assert a.cells + [] == a.cells;
    assert EncMembers(c, Mutable, ms, 0) == a;
    MutableCells1(c, ms, 0);
  }

  lemma MutableCells1(c: Config, ms: Members, p: nat)
    requires !c.v2
    ensures var b := EncMembers(c, Mutable, ms, p);
      var e := Sentinel(c, b.rel);
      Enc(c, Struct(Mutable, ms), p) == Out(b.cells + e, b.rel + |e|)
  {
    hide EncMembers, Sentinel, Pad;
  }

  /** Two members of a plain struct, one after the other. */
  lemma TwoMembers1(c: Config, v: Value, w: Value, p: nat, a: Out, b: Out)
    requires !c.v2 && a == Enc(c, v, p) && b == Enc(c, w, a.rel)
    ensures Enc(c, Struct(Final, MCons(0, false, Req(v), MCons(1, false, Req(w), MNil))), p) == Out(a.cells + b.cells, b.rel)
  {
    hide Enc;
    var rest := MCons(1, false, Req(w), MNil);
    assert EncMembers(c, Final, MNil, b.rel) == Out([], b.rel);
    assert EncSlot(c, Final, 1, false, Req(w), a.rel) == b;
    assert b.cells + [] == b.cells;
    assert EncMembers(c, Final, rest, a.rel) == b;
    assert EncSlot(c, Final, 0, false, Req(v), p) == a;
    FinalCells1(c, MCons(0, false, Req(v), rest), p);
  }

  lemma DriftingCells(c: Config, n: nat)
    requires c == Config(false, c.little, AutoShort)
    ensures Enc(c, Drifting(n), 0).cells == Enc(c, Outer(), 0).cells + Num(c, n, 8)
  {
    hide Enc, Num, Outer, Header1, Sentinel, Inner;
    OuterCells(c);
    LongAtEight(c, n);
    TwoMembers1(c, Outer(), Prim(K8, n), 0, Enc(c, Outer(), 0), Enc(c, Prim(K8, n), 8));
  }

  lemma LongAtEight(c: Config, n: nat)
    requires !c.v2
    ensures Enc(c, Prim(K8, n), 8) == Out(Num(c, n, 8), 16)
  {
    hide Num;
    assert Gaps(0) + Num(c, n, 8) == Num(c, n, 8);
  }

  lemma FinalCells1(c: Config, ms: Members, p: nat)
    requires !c.v2
    ensures Enc(c, Struct(Final, ms), p) == EncMembers(c, Final, ms, p)
  {
    hide EncMembers;
  }

  /** The reader is 4 bytes further from its origin than the writer was from the one it left in force. */
  lemma SkippedOuter(c: Config, buf: seq<byte>)
    requires c == Config(false, c.little, AutoShort) && Holds(buf, 0, Enc(c, Outer(), 0).cells)
    ensures Loop1(c, FNil, buf, Cur(0, 0), MNil) == Ok(MNil, Cur(16, 12)) && Enc(c, Outer(), 0).rel == 8
  {
    OuterCells(c);
    hide Enc, Header1, Sentinel, Loop1, Holds, Outer, Inner;
    SkippedStruct(c, Enc(c, Inner(), 0).cells, buf);
  }

  lemma SkippedStruct(c: Config, body: Cells, buf: seq<byte>)
    requires !c.v2 && |body| == 8 && Holds(buf, 0, Header1(c, 1, false, 8, false, 0) + body + Sentinel(c, 4))
    ensures Loop1(c, FNil, buf, Cur(0, 0), MNil) == Ok(MNil, Cur(16, 12))
  {
    SentinelShift(c);
    FourEach(c);
    hide Header1, Sentinel, DecHeader1, Loop1, Holds, Pad;
    HoldsConcat(buf, 0, Header1(c, 1, false, 8, false, 0) + body, Sentinel(c, 4));
    SkippedRound(c, body, buf);
    ReadSentinel(c, buf, Cur(12, 8));
    Loop1End(c, FNil, buf, Cur(12, 8), MNil);
  }

  lemma SkippedRound(c: Config, body: Cells, buf: seq<byte>)
    requires !c.v2 && |body| == 8 && Holds(buf, 0, Header1(c, 1, false, 8, false, 0) + body)
    ensures |buf| >= 12 && Loop1(c, FNil, buf, Cur(0, 0), MNil) == Loop1(c, FNil, buf, Cur(12, 8), MNil)
  {
    hide Header1, DecHeader1, Loop1, Holds, Pad, RoundBody;
    FourEach(c);
    HoldsFits(buf, 0, Header1(c, 1, false, 8, false, 0) + body);
    var h, cur1 := ReadHeader1(c, 1, false, 8, false, body, buf, Cur(0, 0));
    SkippedBody(c, h, buf, 4);
    Loop1Step(c, FNil, buf, Cur(0, 0), MNil, h, cur1);
  }

  lemma FourEach(c: Config)
    ensures |Header1(c, 1, false, 8, false, 0)| == 4 && |Sentinel(c, 4)| == 4 && Pad(8, 4) == 0
  {
  }

  lemma SkippedBody(c: Config, h: Header, buf: seq<byte>, at: nat)
    requires !h.must && at + h.size <= |buf|
    ensures RoundBody(c, FNil, buf, Cur(at, 0), h, MNil) == Ok(MNil, Cur(at + h.size, h.size))
  {
  }

  lemma SentinelShift(c: Config)
    ensures Sentinel(c, 4) == Sentinel(c, 8)
  {
  }

  /** So it looks for the 8-byte number 4 bytes too late, and runs off the end of the message. */
  lemma SkippingDrifts1(c: Config, n: nat, buf: seq<byte>)
    requires c == Config(false, c.little, AutoShort) && InKind(K8, n)
    requires Holds(buf, 0, Enc(c, Drifting(n), 0).cells) && |buf| == |Enc(c, Drifting(n), 0).cells|
    ensures Writable(c, Drifting(n)) && Decode(c, AHEAD, buf, Cur(0, 0)) == Err
  {
    DriftingCells(c, n);
    OuterCells(c);
    DriftingWritable(c, n);
    hide Num, Enc, Holds, Outer, Inner, Header1, Sentinel, Writable, Loop1;
    HoldsConcat(buf, 0, Enc(c, Outer(), 0).cells, Num(c, n, 8));
    SkippedOuter(c, buf);
    var t, fs := TStruct(Mutable, FNil), FCons(1, false, false, TPrim(K8), FNil);
    assert Decode(c, t, buf, Cur(0, 0)) == Ok(Struct(Mutable, MNil), Cur(16, 12)) by { EmptyMutable(c, buf); }
    assert DecSlot(c, false, t, buf, Cur(0, 0)) == Ok(Req(Struct(Mutable, MNil)), Cur(16, 12));
    assert DecPrim(c, K8, buf, Cur(16, 12)) == Err;
    assert DecSlot(c, false, TPrim(K8), buf, Cur(16, 12)) == Err;
    assert DecFields(c, fs, buf, Cur(16, 12), |buf|) == Err;
    hide DecSlot, Decode;
    assert DecFields(c, FCons(0, false, false, t, fs), buf, Cur(0, 0), |buf|) == Err;
    FinalDecode1(c, FCons(0, false, false, t, fs), buf);
  }

  lemma FinalDecode1(c: Config, fs: Fields, buf: seq<byte>)
    requires !c.v2 && DecFields(c, fs, buf, Cur(0, 0), |buf|) == Err
    ensures Decode(c, TStruct(Final, fs), buf, Cur(0, 0)) == Err
  {
    hide DecFields;
  }

  lemma EmptyMutable(c: Config, buf: seq<byte>)
    requires !c.v2
    ensures var r := Loop1(c, FNil, buf, Cur(0, 0), MNil);
      Decode(c, TStruct(Mutable, FNil), buf, Cur(0, 0)) == if r.Err? then Err else Ok(Struct(Mutable, r.value), r.cur)
  {
    hide Loop1;
  }

  lemma DriftingWritable(c: Config, n: nat)
    requires c == Config(false, c.little, AutoShort) && InKind(K8, n)
    ensures Writable(c, Drifting(n))
  {
    assert InKind(K4, 7);
    assert Writable(c, Prim(K4, 7)) && !Hollow(c, Prim(K4, 7)) && WritableMembers(c, Final, MNil);
    assert WritableMembers(c, Final, Inner().members) && Writable(c, Inner());
    assert !HollowMembers(c, Inner().members) && !Hollow(c, Inner());
    assert WritableMembers(c, Mutable, MNil) && WritableMembers(c, Mutable, Outer().members);
    assert DistinctMembers(MNil) && DistinctMembers(Outer().members) && Writable(c, Outer());
    assert WritableMembers(c, Final, MCons(1, false, Req(Prim(K8, n)), MNil));
  }
}
