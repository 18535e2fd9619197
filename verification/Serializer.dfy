/** Writing a whole value with the codec object, as generated code does, lays out exactly the cells of the value. */
module Serializer {
  import opened Layout
  import opened Schema
  import opened Encoding
  import opened EncodingFacts
  import opened Evolution
  import opened FastBuffers
  import opened Patching
  import opened Rooms
  import opened Cdrs

  /** The algorithm generated code selects for a struct. */
  function AlgorithmOf(v2: bool, ext: Extensibility): Algorithm {
    if v2 then
      match ext
      case Final => PlainCdr2
      case Appendable => DelimitCdr2
      case Mutable => PlCdr2
    else if ext == Mutable then PlCdr
    else PlainCdr
  }

  /** The flag after a value, given the one before it. */
  function FlagStep(v: Value, next: NextInt): NextInt {
    if v.Prim? || v.WStr? then next else Next(v)
  }

  /** What writing a value leaves alone: everything but position, flag and buffer. */
  datatype Settings = Settings(
    v2: bool, align64: nat, little: bool, swap: bool, flag: Algorithm, encoding: Algorithm,
    options: (byte, byte), nextId: nat)

  ghost function SettingsOf(cdr: Cdr): Settings
    reads cdr
  {
    Settings(cdr.v2, cdr.align64, cdr.little, cdr.swap, cdr.flag, cdr.encoding, cdr.options, cdr.nextId)
  }

  /** A write that never reached further than `need` bytes: the buffer has grown only if it had to and could. */
  twostate predicate Steady(cdr: Cdr, need: nat)
    reads cdr, cdr.buffer
  {
    && |old(cdr.buffer.bytes)| <= |cdr.buffer.bytes|
    && (!cdr.buffer.internal || old(cdr.offset) + need <= |old(cdr.buffer.bytes)| ==>
          |cdr.buffer.bytes| == |old(cdr.buffer.bytes)|)
  }

  /** A value has been written: its cells stand where the cursor was, and all before them is as it was. */
  twostate predicate Laid(cdr: Cdr, out: Out, need: nat)
    reads cdr, cdr.buffer
  {
    && cdr.Valid() && SettingsOf(cdr) == old(SettingsOf(cdr)) && Steady(cdr, need)
    && cdr.Wrote(old(cdr.buffer.bytes), old(cdr.offset), out)
  }

  /**
   A write has ended: it has succeeded exactly if the selection permits it and the buffer had `need` bytes or may grow,
   and then it is laid down.
   */
  twostate predicate Ended(cdr: Cdr, ok: bool, permitted: bool, need: nat, out: Out)
    reads cdr, cdr.buffer
  {
    && ok == (permitted && (cdr.buffer.internal || old(cdr.offset) + need <= |old(cdr.buffer.bytes)|))
    && (ok ==> Laid(cdr, out, need))
  }

  ghost predicate Ready(cdr: Cdr)
    reads cdr, cdr.buffer
  {
    cdr.Valid() && cdr.nextId == INVALID_ID
  }

  /** The buffer has `need` bytes, or the writer asks for every one of them. */
  ghost predicate Roomy(cdr: Cdr, need: nat, elastic: bool)
    reads cdr, cdr.buffer
  {
    elastic || cdr.offset + need <= |cdr.buffer.bytes|
  }

  // ---------------------------------------------------------------- leaves do not look at the header selection

  lemma {:induction false} ElementsSel(c: Config, c': Config, k: Kind, ns: seq<nat>, p: nat)
    requires c.v2 == c'.v2 && c.little == c'.little
    ensures Elements(c, k, ns, p) == Elements(c', k, ns, p)
    decreases |ns|
  {
    hide Pad, Num;
    if ns != [] {
      assert c.AlignOf(k) == c'.AlignOf(k) && Num(c, ns[0], Size(k)) == Num(c', ns[0], Size(k)) by { NumSel(c, c', ns[0], Size(k)); }
      ElementsSel(c, c', k, ns[1..], p + |Scalar(c, ns[0], Size(k), c.AlignOf(k), p)|);
    }
  }

  lemma NumSel(c: Config, c': Config, n: nat, w: nat)
    requires c.little == c'.little
    ensures Num(c, n, w) == Num(c', n, w)
  {
  }

  lemma LeafSel(c: Config, c': Config, v: Value, p: nat)
    requires c.v2 == c'.v2 && c.little == c'.little && (v.Prim? || v.Str? || v.WStr? || v.SeqPrim?)
    ensures Enc(c, v, p) == Enc(c', v, p)
  {
    hide Pad, Num, Elements, CText, WText, Raw;
    match v
    case Prim(k, n) => NumSel(c, c', n, Size(k));
    case Str(t) => NumSel(c, c', |CText(t, 0)| + 1, 4);
    case WStr(s) =>
      NumSel(c, c', |WText(s)|, 4);
      ElementsSel(c, c', K2, WText(s), p + Pad(p, 4) + 4);
    case SeqPrim(k, ns) =>
      NumSel(c, c', |ns|, 4);
      ElementsSel(c, c', k, ns, p + Pad(p, 4) + 4);
  }

  method SerializeLeaf(cdr: Cdr, v: Value, ghost sel: HeaderSelection) returns (ok: bool)
    requires Ready(cdr) && (v.Prim? || v.Str? || v.WStr? || v.SeqPrim?) && Writable(cdr.Cfg(sel), v)
    modifies cdr, cdr.buffer
    ensures var out := Enc(old(cdr.Cfg(sel)), v, old(cdr.offset) - old(cdr.origin));
      Ended(cdr, ok, true, |out.cells|, out)
    ensures ok && cdr.v2 ==> cdr.next == FlagStep(v, old(cdr.next))
  {
    hide Pad, Holds, Kept, Patched, Enc, Cap, WText;
    ghost var c, p := cdr.Cfg(sel), cdr.offset - cdr.origin;
    LeafSel(cdr.Cfg(AutoShort), c, v, p);
    match v
    case Prim(k, n) => ok := SerializeNumber(cdr, k, n, sel);
    case Str(text) =>
      ok := cdr.SerializeString(text);
      if ok { KeptLonger(old(cdr.buffer.bytes), cdr.buffer.bytes, old(cdr.offset)); }
    case WStr(chars) =>
      ok := cdr.SerializeWString(chars);
      if ok { KeptLonger(old(cdr.buffer.bytes), cdr.buffer.bytes, old(cdr.offset)); }
    case SeqPrim(k, ns) =>
      ok := cdr.SerializeSeqPrim(k, ns);
      if ok { KeptLonger(old(cdr.buffer.bytes), cdr.buffer.bytes, old(cdr.offset)); }
  }

  method SerializeNumber(cdr: Cdr, k: Kind, n: nat, ghost sel: HeaderSelection) returns (ok: bool)
    requires Ready(cdr)
    modifies cdr, cdr.buffer
    ensures var out := Enc(old(cdr.Cfg(sel)), Prim(k, n), old(cdr.offset) - old(cdr.origin));
      Ended(cdr, ok, true, |out.cells|, out)
    ensures cdr.next == old(cdr.next)
  {
    hide Pad, Holds, Kept, Patched, Enc, Cap;
    ghost var c, p := cdr.Cfg(sel), cdr.offset - cdr.origin;
    PrimOut(c, k, n, p);
    ok := cdr.SerializePrim(k, n);
    if ok {
      WrotePrim(c, k, n, old(cdr.buffer.bytes), cdr.buffer.bytes, old(cdr.offset), p);
      KeptLonger(old(cdr.buffer.bytes), cdr.buffer.bytes, old(cdr.offset));
    }
  }

  lemma PrimOut(c: Config, k: Kind, n: nat, p: nat)
    ensures var cells := Scalar(c, n, Size(k), c.AlignOf(k), p); Enc(c, Prim(k, n), p) == Out(cells, p + |cells|)
  {
  }

  lemma WrotePrim(c: Config, k: Kind, n: nat, was: seq<byte>, now: seq<byte>, at: nat, p: nat)
    requires Patched(was, now, at + Pad(p, c.AlignOf(k)), ToBytes(c.little, n, Size(k)))
    ensures Kept(was, now, at) && Holds(now, at, Scalar(c, n, Size(k), c.AlignOf(k), p))
  {
    hide Pad, ToBytes, Patched, Holds, Raw;
    PatchedKept(was, now, at + Pad(p, c.AlignOf(k)), ToBytes(c.little, n, Size(k)));
    HoldsPadded(now, at, Pad(p, c.AlignOf(k)), Num(c, n, Size(k)));
  }

  // ---------------------------------------------------------------- the whole value

  /**
   Writes a value of any shape, with any header selection, into a buffer that may grow on the way. It succeeds exactly if
   the selection permits every header and the buffer has room for all the encoder reaches or may grow. Then the buffer
   holds the cells of the value from the old cursor on, everything before is kept, and cursor, origin, flag and algorithm
   are what the layout says. Room is needed in advance only where the encoder does not ask for it.
   */
  method SerializeValue(cdr: Cdr, v: Value, sel: HeaderSelection) returns (ok: bool)
    requires Ready(cdr) && Writable(cdr.Cfg(sel), v)
    requires var c := cdr.Cfg(sel); Roomy(cdr, Peak(c, v, cdr.offset - cdr.origin), Elastic(c, v))
    modifies cdr, cdr.buffer
    ensures var c, p := old(cdr.Cfg(sel)), old(cdr.offset) - old(cdr.origin);
      Ended(cdr, ok, Permits(c, v), Peak(c, v, p), Enc(c, v, p))
    ensures ok && cdr.v2 ==> cdr.next == FlagStep(v, old(cdr.next))
    decreases v, 1
  {
    hide Holds, Kept, Enc, PeakItems, PeakMembers, ElasticItems, ElasticMembers, PermitsItems, PermitsMembers;
    match v
    case Seq(_, items) => ok := SerializeSeq(cdr, v, sel);
    case Struct(ext, ms) =>
      if cdr.v2 { ok := SerializeStruct2(cdr, v, sel); } else { ok := SerializeStruct1(cdr, v, sel); }
    case _ => ok := SerializeLeaf(cdr, v, sel);
  }

  // ---------------------------------------------------------------- one write after another

  /** In the middle of writing: `done` stands at `start`, and what is left completes `all`. */
  ghost predicate Midway(was: seq<byte>, now: seq<byte>, start: nat, done: Cells, left: Out, all: Out) {
    && Kept(was, now, start) && Holds(now, start, done)
    && all == Out(done + left.cells, left.rel)
  }

  lemma MidwayStart(was: seq<byte>, start: nat, all: Out)
    requires start <= |was|
    ensures Midway(was, was, start, [], all, all)
  {
    assert [] + all.cells == all.cells;
  }

  lemma MidwayStep(was: seq<byte>, mid: seq<byte>, now: seq<byte>, start: nat, done: Cells, a: Out, b: Out, all: Out)
    requires Midway(was, mid, start, done, Out(a.cells + b.cells, b.rel), all)
    requires Kept(mid, now, start + |done|) && Holds(now, start + |done|, a.cells)
    ensures Midway(was, now, start, done + a.cells, b, all)
  {
    hide Holds, Kept;
    WroteOn(was, mid, now, start, done, a.cells);
    assert done + (a.cells + b.cells) == done + a.cells + b.cells;
  }

  lemma MidwayEnd(was: seq<byte>, now: seq<byte>, start: nat, done: Cells, p: nat, all: Out)
    requires Midway(was, now, start, done, Out([], p), all)
    ensures Kept(was, now, start) && Holds(now, start, all.cells) && all == Out(done, p)
  {
    assert done + [] == done;
  }

  /**
   Lengths of a buffer before and now, in the middle of writing something that reaches `all` bytes from `start` on:
   what is left reaches `left` bytes from `at` on.
   */
  ghost predicate Budget(internal: bool, was: nat, now: nat, start: nat, all: nat, at: nat, left: nat) {
    && was <= now
    && (!internal ==> now == was && (start + all <= was <==> at + left <= now))
    && (start + all <= was ==> now == was && at + left <= now)
  }

  lemma BudgetStart(internal: bool, was: nat, start: nat, all: nat)
    ensures Budget(internal, was, was, start, all, start, all)
  {
  }

  /** A part that reaches `need` bytes and takes `size` of them has been written. */
  lemma BudgetStep(internal: bool, was: nat, mid: nat, now: nat, start: nat, all: nat, at: nat, left: nat,
                   need: nat, size: nat, rest: nat)
    requires Budget(internal, was, mid, start, all, at, left) && left == Max(need, size + rest)
    requires mid <= now && (!internal || at + need <= mid ==> now == mid) && (internal || at + need <= mid)
    ensures Budget(internal, was, now, start, all, at + size, rest)
  {
  }

  /** There was no room for the part: then there was none for the whole. */
  lemma BudgetFail(internal: bool, was: nat, mid: nat, start: nat, all: nat, at: nat, left: nat, need: nat)
    requires Budget(internal, was, mid, start, all, at, left) && need <= left && !internal && mid < at + need
    ensures was < start + all
  {
  }

  lemma BudgetEnd(internal: bool, was: nat, now: nat, start: nat, all: nat, at: nat)
    requires Budget(internal, was, now, start, all, at, 0) && at <= now
    ensures was <= now && (!internal || start + all <= was ==> now == was) && (internal || start + all <= was)
  {
  }

  lemma ItemsPeak(c: Config, v: Value, rest: Items, p: nat)
    ensures var a := Enc(c, v, p);
      PeakItems(c, ICons(v, rest), p) == Max(Peak(c, v, p), |a.cells| + PeakItems(c, rest, a.rel))
  {
    hide Enc, Peak;
  }

  lemma ItemsOut(c: Config, v: Value, rest: Items, p: nat)
    ensures var a := Enc(c, v, p);
      var b := EncItems(c, rest, a.rel);
      EncItems(c, ICons(v, rest), p) == Out(a.cells + b.cells, b.rel)
  {
    hide Enc;
  }

  /** In the middle of elements: of all of them, `left` are still to be written, at position `p`. */
  ghost predicate ItemsLeft(c: Config, items: Items, p0: nat, left: Items, p: nat,
                            internal: bool, was: seq<byte>, now: seq<byte>, start: nat, done: Cells)
  {
    && Budget(internal, |was|, |now|, start, PeakItems(c, items, p0), start + |done|, PeakItems(c, left, p))
    && Midway(was, now, start, done, EncItems(c, left, p), EncItems(c, items, p0))
    && PermitsItems(c, items) == PermitsItems(c, left)
  }

  lemma ItemsBegin(c: Config, items: Items, p: nat, internal: bool, was: seq<byte>, start: nat)
    requires start <= |was|
    ensures ItemsLeft(c, items, p, items, p, internal, was, was, start, [])
  {
    hide EncItems, PeakItems, PermitsItems;
    MidwayStart(was, start, EncItems(c, items, p));
    BudgetStart(internal, |was|, start, PeakItems(c, items, p));
  }

  lemma ItemsNext(c: Config, items: Items, p0: nat, left: Items, p: nat, internal: bool,
                  was: seq<byte>, mid: seq<byte>, now: seq<byte>, start: nat, done: Cells)
    requires left.ICons? && ItemsLeft(c, items, p0, left, p, internal, was, mid, start, done) && Permits(c, left.head)
    requires var a, at, need := Enc(c, left.head, p), start + |done|, Peak(c, left.head, p);
      && |mid| <= |now| && (!internal || at + need <= |mid| ==> |now| == |mid|) && (internal || at + need <= |mid|)
      && Kept(mid, now, at) && Holds(now, at, a.cells)
    ensures var a := Enc(c, left.head, p);
      ItemsLeft(c, items, p0, left.rest, a.rel, internal, was, now, start, done + a.cells)
  {
    hide Enc, EncItems, Peak, PeakItems, Permits, Midway, Budget, Kept, Holds;
    var a := Enc(c, left.head, p);
    ItemsPeak(c, left.head, left.rest, p);
    ItemsOut(c, left.head, left.rest, p);
    BudgetStep(internal, |was|, |mid|, |now|, start, PeakItems(c, items, p0), start + |done|,
               PeakItems(c, left, p), Peak(c, left.head, p), |a.cells|, PeakItems(c, left.rest, a.rel));
    MidwayStep(was, mid, now, start, done, a, EncItems(c, left.rest, a.rel), EncItems(c, items, p0));
  }

  lemma ItemsFail(c: Config, items: Items, p0: nat, left: Items, p: nat, internal: bool,
                  was: seq<byte>, mid: seq<byte>, start: nat, done: Cells)
    requires left.ICons? && ItemsLeft(c, items, p0, left, p, internal, was, mid, start, done)
    requires Permits(c, left.head) ==> !internal && |mid| < start + |done| + Peak(c, left.head, p)
    ensures PermitsItems(c, items) ==> !internal && |was| < start + PeakItems(c, items, p0)
  {
    hide EncItems, Peak, PeakItems, Permits, Midway, Budget;
    ItemsPeak(c, left.head, left.rest, p);
    if Permits(c, left.head) {
      BudgetFail(internal, |was|, |mid|, start, PeakItems(c, items, p0), start + |done|,
                 PeakItems(c, left, p), Peak(c, left.head, p));
    }
  }

  lemma ItemsDone(c: Config, items: Items, p0: nat, p: nat, internal: bool,
                  was: seq<byte>, now: seq<byte>, start: nat, done: Cells)
    requires ItemsLeft(c, items, p0, INil, p, internal, was, now, start, done) && start + |done| <= |now|
    ensures var need := PeakItems(c, items, p0);
      && PermitsItems(c, items) && (internal || start + need <= |was|)
      && |was| <= |now| && (!internal || start + need <= |was| ==> |now| == |was|)
    ensures var all := EncItems(c, items, p0);
      Kept(was, now, start) && Holds(now, start, all.cells) && all == Out(done, p)
  {
    hide EncItems, PeakItems, Midway, Budget, Kept, Holds;
    NoItems(c, p);
    NoItemsPeak(c, p);
    BudgetEnd(internal, |was|, |now|, start, PeakItems(c, items, p0), start + |done|);
    MidwayEnd(was, now, start, done, p, EncItems(c, items, p0));
  }

  method SerializeItems(cdr: Cdr, items: Items, sel: HeaderSelection) returns (ok: bool)
    requires Ready(cdr) && WritableItems(cdr.Cfg(sel), items)
    requires var c := cdr.Cfg(sel); Roomy(cdr, PeakItems(c, items, cdr.offset - cdr.origin), ElasticItems(c, items))
    modifies cdr, cdr.buffer
    ensures var c, p := old(cdr.Cfg(sel)), old(cdr.offset) - old(cdr.origin);
      Ended(cdr, ok, PermitsItems(c, items), PeakItems(c, items, p), EncItems(c, items, p))
    decreases items, 0
  {
    hide Pad, Holds, Kept, Enc, EncItems, Peak, PeakItems, Writable, Hollow, ItemsLeft, Permits, Elastic, PermitsItems;
    ghost var c, was, start, p0 := cdr.Cfg(sel), cdr.buffer.bytes, cdr.offset, cdr.offset - cdr.origin;
    ghost var done: Cells := [];
    var left := items;
    ok := true;
    ItemsBegin(c, items, p0, cdr.buffer.internal, was, start);
    while left.ICons?
      invariant ok && Ready(cdr) && SettingsOf(cdr) == old(SettingsOf(cdr)) && cdr.offset == start + |done|
      invariant WritableItems(c, left) && (left == items || left < items)
      invariant Roomy(cdr, PeakItems(c, left, cdr.offset - cdr.origin), ElasticItems(c, left))
      invariant ItemsLeft(c, items, p0, left, cdr.offset - cdr.origin, cdr.buffer.internal, was, cdr.buffer.bytes, start, done)
      decreases left
    {
      ghost var p, mid := cdr.offset - cdr.origin, cdr.buffer.bytes;
      ItemsPeak(c, left.head, left.rest, p);
      ok := SerializeValue(cdr, left.head, sel);
      if !ok {
        ItemsFail(c, items, p0, left, p, cdr.buffer.internal, was, mid, start, done);
        return;
      }
      ItemsNext(c, items, p0, left, p, cdr.buffer.internal, was, mid, cdr.buffer.bytes, start, done);
      done := done + Enc(c, left.head, p).cells;
      left := left.rest;
    }
    assert left == INil;
    ItemsDone(c, items, p0, cdr.offset - cdr.origin, cdr.buffer.internal, was, cdr.buffer.bytes, start, done);
  }

  lemma NoItemsPeak(c: Config, p: nat)
    ensures PeakItems(c, INil, p) == 0
  {
  }

  // ---------------------------------------------------------------- sequences of non-primitives

  /** Finishing a header in front of cells, wherever they have moved, gives the header and the cells, and no more. */
  lemma CloseHeader(was: seq<byte>, mid: seq<byte>, now: seq<byte>, at: nat, pad: nat, head: seq<byte>, from: nat, body: Cells)
    requires Kept(was, mid, at) && Holds(mid, from, body) && Kept(mid, now, at + pad)
    requires Stamped(now, at + pad, head, mid[from..from + |body|])
    ensures Kept(was, now, at) && Holds(now, at, Gaps(pad) + Raw(head) + body)
  {
    hide Holds, Stamped, Raw, Gaps, Kept;
    KeptTrans(was, mid, now, at, at + pad);
    HoldsStamped(mid, from, body, now, at + pad, head);
    HoldsPadded(now, at, pad, Raw(head) + body);
    assert Gaps(pad) + Raw(head) + body == Gaps(pad) + (Raw(head) + body);
  }

  lemma CloseDheader(c: Config, was: seq<byte>, mid: seq<byte>, now: seq<byte>, at: nat, p: nat, body: Cells)
    requires Kept(was, mid, at) && Holds(mid, at + Pad(p, 4) + 4, body) && Kept(mid, now, at + Pad(p, 4))
    requires Stamped(now, at + Pad(p, 4), ToBytes(c.little, |body|, 4), mid[at + Pad(p, 4) + 4..at + Pad(p, 4) + 4 + |body|])
    ensures Kept(was, now, at) && Holds(now, at, U32(c, |body|, p) + body)
  {
    hide Pad, ToBytes, Holds, Stamped, Raw, Gaps, Kept;
    CloseHeader(was, mid, now, at, Pad(p, 4), ToBytes(c.little, |body|, 4), at + Pad(p, 4) + 4, body);
  }

  lemma SeqCells(c: Config, v: Value, p: nat)
    requires v.Seq?
    ensures c.v2 ==>
      var q := p + Pad(p, 4) + 4;
      var b := EncItems(c, v.items, q + 4);
      var body := U32(c, Count(v.items), q) + b.cells;
      |body| == 4 + |b.cells| && Enc(c, v, p) == Out(U32(c, |body|, p) + body, b.rel)
    ensures !c.v2 ==>
      var n := U32(c, Count(v.items), p);
      var b := EncItems(c, v.items, p + |n|);
      Enc(c, v, p) == Out(n + b.cells, b.rel)
  {
    hide Pad, Num, EncItems, Gaps;
    if c.v2 {
      PadAfter4(p);
      var b := EncItems(c, v.items, p + Pad(p, 4) + 8);
      NoGap(Num(c, Count(v.items), 4));
      var dh, n := U32(c, 4 + |b.cells|, p), Num(c, Count(v.items), 4);
      assert dh + n + b.cells == dh + (n + b.cells);
    }
  }

  lemma SeqPeak(c: Config, v: Value, p: nat)
    requires v.Seq?
    ensures Peak(c, v, p) == (if c.v2 then Pad(p, 4) + 8 + PeakItems(c, v.items, p + Pad(p, 4) + 8)
                              else Pad(p, 4) + 4 + PeakItems(c, v.items, p + Pad(p, 4) + 4))
  {
    hide Pad, PeakItems;
  }

  /** The number of elements and the elements. */
  method SerializeCounted(cdr: Cdr, items: Items, sel: HeaderSelection) returns (ok: bool)
    requires Ready(cdr) && WritableItems(cdr.Cfg(sel), items)
    requires var c, p := cdr.Cfg(sel), cdr.offset - cdr.origin;
      Roomy(cdr, Pad(p, 4) + 4 + PeakItems(c, items, p + Pad(p, 4) + 4), ElasticItems(c, items))
    modifies cdr, cdr.buffer
    ensures var c, p := old(cdr.Cfg(sel)), old(cdr.offset) - old(cdr.origin);
      var n := U32(c, Count(items), p);
      var b := EncItems(c, items, p + |n|);
      Ended(cdr, ok, PermitsItems(c, items), Pad(p, 4) + 4 + PeakItems(c, items, p + Pad(p, 4) + 4), Out(n + b.cells, b.rel))
    decreases items, 1
  {
    hide Pad, Holds, Kept, U32, EncItems, PeakItems, WritableItems, ElasticItems, PermitsItems, Cap, CacheHolds, Count;
    ghost var c, p, was, at := cdr.Cfg(sel), cdr.offset - cdr.origin, cdr.buffer.bytes, cdr.offset;
    ghost var n := U32(c, Count(items), p);
    U32Sel(cdr.Cfg(AutoShort), c, Count(items), p);
    ok := cdr.SerializeU32(Count(items));
    if !ok { return; }
    KeptLonger(was, cdr.buffer.bytes, at);
    ghost var mid := cdr.buffer.bytes;
    ok := SerializeItems(cdr, items, sel);
    if !ok { return; }
    WroteOn(was, mid, cdr.buffer.bytes, at, n, EncItems(c, items, p + |n|).cells);
  }

  method SerializeSeq(cdr: Cdr, v: Value, sel: HeaderSelection) returns (ok: bool)
    requires v.Seq? && Ready(cdr) && Writable(cdr.Cfg(sel), v)
    requires var c := cdr.Cfg(sel); Roomy(cdr, Peak(c, v, cdr.offset - cdr.origin), ElasticItems(c, v.items))
    modifies cdr, cdr.buffer
    ensures var c, p := old(cdr.Cfg(sel)), old(cdr.offset) - old(cdr.origin);
      Ended(cdr, ok, PermitsItems(c, v.items), Peak(c, v, p), Enc(c, v, p))
    ensures ok && cdr.v2 ==> cdr.next == Next1
    decreases v, 0
  {
    hide Pad, Holds, Kept, Enc, U32, EncItems, Peak, PeakItems, WritableItems, ElasticItems, PermitsItems;
    SeqCells(cdr.Cfg(sel), v, cdr.offset - cdr.origin);
    SeqPeak(cdr.Cfg(sel), v, cdr.offset - cdr.origin);
    if cdr.v2 { ok := SerializeSeq2(cdr, v.items, sel); } else { ok := SerializeCounted(cdr, v.items, sel); }
  }

  /** The number of elements and the elements, behind a DHEADER that gets their exact extent wherever they have gone. */
  method SerializeSeq2(cdr: Cdr, items: Items, sel: HeaderSelection) returns (ok: bool)
    requires cdr.v2 && Ready(cdr) && WritableItems(cdr.Cfg(sel), items)
    requires var c, p := cdr.Cfg(sel), cdr.offset - cdr.origin;
      Roomy(cdr, Pad(p, 4) + 8 + PeakItems(c, items, p + Pad(p, 4) + 8), ElasticItems(c, items))
    modifies cdr, cdr.buffer
    ensures ok ==> cdr.next == Next1
    ensures var c, p := old(cdr.Cfg(sel)), old(cdr.offset) - old(cdr.origin);
      var q := p + Pad(p, 4) + 4;
      var b := EncItems(c, items, q + 4);
      var body := U32(c, Count(items), q) + b.cells;
      Ended(cdr, ok, PermitsItems(c, items), Pad(p, 4) + 8 + PeakItems(c, items, q + 4), Out(U32(c, |body|, p) + body, b.rel))
    decreases items, 2
  {
    hide Pad, Holds, Kept, U32, EncItems, PeakItems, WritableItems, ElasticItems, PermitsItems, Stamped, ToBytes;
    ghost var c, p, was, at := cdr.Cfg(sel), cdr.offset - cdr.origin, cdr.buffer.bytes, cdr.offset;
    PadAfter4(p);
    var st;
    st, ok := cdr.AllocateDheader();
    if !ok { return; }
    ghost var b0, q, at0 := cdr.buffer.bytes, cdr.offset - cdr.origin, cdr.offset;
    ok := SerializeCounted(cdr, items, sel);
    if !ok { return; }
    ghost var b1 := cdr.buffer.bytes;
    KeptTrans(was, b0, b1, at, at0);
    cdr.SetDheader(st);
    CloseDheader(c, was, b1, cdr.buffer.bytes, at, p, U32(c, Count(items), q) + EncItems(c, items, q + 4).cells);
  }

  lemma U32Sel(c: Config, c': Config, n: nat, p: nat)
    requires c.little == c'.little
    ensures U32(c, n, p) == U32(c', n, p)
  {
    NumSel(c, c', n, 4);
  }

  // ---------------------------------------------------------------- structs

  method SerializeStruct2(cdr: Cdr, v: Value, sel: HeaderSelection) returns (ok: bool)
    requires v.Struct? && cdr.v2 && Ready(cdr) && Writable(cdr.Cfg(sel), v)
    requires var c := cdr.Cfg(sel);
      Roomy(cdr, Peak(c, v, cdr.offset - cdr.origin), ElasticMembers(c, v.ext, v.members))
    modifies cdr, cdr.buffer
    ensures var c, p := old(cdr.Cfg(sel)), old(cdr.offset) - old(cdr.origin);
      Ended(cdr, ok, PermitsMembers(c, v.ext, v.members), Peak(c, v, p), Enc(c, v, p))
    ensures ok ==> cdr.next == Next(v)
    decreases v, 0
  {
    hide Pad, Holds, Kept, U32, EncMembers, PeakMembers, WritableMembers, ElasticMembers, PermitsMembers;
    if v.ext == Final {
      ok := SerializeFinal2(cdr, v.members, sel);
    } else {
      ok := SerializeDelimited2(cdr, v.ext, v.members, sel);
    }
  }

  method SerializeFinal2(cdr: Cdr, ms: Members, sel: HeaderSelection) returns (ok: bool)
    requires cdr.v2 && Ready(cdr) && WritableMembers(cdr.Cfg(sel), Final, ms)
    requires var c := cdr.Cfg(sel);
      Roomy(cdr, PeakMembers(c, Final, ms, cdr.offset - cdr.origin), ElasticMembers(c, Final, ms))
    modifies cdr, cdr.buffer
    ensures var c, p := old(cdr.Cfg(sel)), old(cdr.offset) - old(cdr.origin);
      Ended(cdr, ok, PermitsMembers(c, Final, ms), PeakMembers(c, Final, ms, p), EncMembers(c, Final, ms, p))
    ensures ok ==> cdr.next == NoNext
    decreases ms, 2
  {
    hide Pad, Holds, Kept, EncMembers, PeakMembers, WritableMembers, ElasticMembers, PermitsMembers, Stamped, ToBytes;
    ghost var was, at := cdr.buffer.bytes, cdr.offset;
    var st;
    st, ok := cdr.BeginType2(PlainCdr2);
    ghost var mid := cdr.buffer.bytes;
    ok := SerializeMembers(cdr, Final, ms, sel);
    if !ok { return; }
    KeptTrans(was, mid, cdr.buffer.bytes, at, at);
    cdr.EndType2(st);
  }

  lemma DelimitedIs(ext: Extensibility)
    requires ext != Final
    ensures IsV2(AlgorithmOf(true, ext)) && AlgorithmOf(true, ext) != PlainCdr2
  {
  }

  /** A struct behind a DHEADER that gets its exact extent, however much the buffer has grown on the way. */
  method SerializeDelimited2(cdr: Cdr, ext: Extensibility, ms: Members, sel: HeaderSelection) returns (ok: bool)
    requires ext != Final && cdr.v2 && Ready(cdr) && WritableMembers(cdr.Cfg(sel), ext, ms)
    requires var c, p := cdr.Cfg(sel), cdr.offset - cdr.origin;
      Roomy(cdr, Pad(p, 4) + 4 + PeakMembers(c, ext, ms, p + Pad(p, 4) + 4), ElasticMembers(c, ext, ms))
    modifies cdr, cdr.buffer
    ensures var c, p := old(cdr.Cfg(sel)), old(cdr.offset) - old(cdr.origin);
      var b := EncMembers(c, ext, ms, p + Pad(p, 4) + 4);
      Ended(cdr, ok, PermitsMembers(c, ext, ms), Pad(p, 4) + 4 + PeakMembers(c, ext, ms, p + Pad(p, 4) + 4),
            Out(U32(c, |b.cells|, p) + b.cells, b.rel))
    ensures ok ==> cdr.next == Next1
    decreases ms, 3
  {
    hide Pad, Holds, Kept, U32, EncMembers, PeakMembers, WritableMembers, ElasticMembers, PermitsMembers, Stamped, ToBytes,
         AlgorithmOf, CacheHolds;
    ghost var was := cdr.buffer.bytes;
    DelimitedIs(ext);
    var st;
    st, ok := cdr.BeginType2(AlgorithmOf(true, ext));
    if !ok { return; }
    ok := SerializeExtent2(cdr, st, was, ext, ms, sel);
  }

  /** The members behind an allocated DHEADER, which then gets their extent. */
  method SerializeExtent2(cdr: Cdr, st: State, ghost was: seq<byte>, ext: Extensibility, ms: Members, sel: HeaderSelection)
      returns (ok: bool)
    requires ext != Final && cdr.v2 && Ready(cdr) && WritableMembers(cdr.Cfg(sel), ext, ms)
    requires cdr.encoding == AlgorithmOf(true, ext) && cdr.next == NoNext
    requires Saved(st) && st.origin == cdr.origin && st.swap == cdr.swap && st.nextId == INVALID_ID
    requires cdr.offset == cdr.HeaderAt(st) + 4 && Kept(was, cdr.buffer.bytes, st.offset)
    requires var c := cdr.Cfg(sel);
      Roomy(cdr, PeakMembers(c, ext, ms, cdr.offset - cdr.origin), ElasticMembers(c, ext, ms))
    modifies cdr, cdr.buffer
    ensures var c, p := old(cdr.Cfg(sel)), old(cdr.offset) - old(cdr.origin);
      var b, need := EncMembers(c, ext, ms, p), PeakMembers(c, ext, ms, p);
      && ok == (PermitsMembers(c, ext, ms) && (cdr.buffer.internal || old(cdr.offset) + need <= |old(cdr.buffer.bytes)|))
      && (ok ==> cdr.Valid() && SettingsOf(cdr) == old(SettingsOf(cdr)).(encoding := st.previous) && Steady(cdr, need))
      && (ok ==> cdr.Wrote(was, st.offset, Out(U32(c, |b.cells|, st.offset - st.origin) + b.cells, b.rel)))
    ensures ok ==> cdr.next == Next1
    decreases ms, 2
  {
    hide Pad, Holds, Kept, U32, EncMembers, PeakMembers, WritableMembers, ElasticMembers, PermitsMembers, Stamped, ToBytes,
         AlgorithmOf, CacheHolds;
    ghost var c, p, b0, at0 := cdr.Cfg(sel), cdr.offset - cdr.origin, cdr.buffer.bytes, cdr.offset;
    DelimitedIs(ext);
    ok := SerializeMembers(cdr, ext, ms, sel);
    if !ok { return; }
    KeptTrans(was, b0, cdr.buffer.bytes, st.offset, at0);
    EndDelimited(cdr, st, was, EncMembers(c, ext, ms, p).cells);
    U32Sel(cdr.Cfg(AutoShort), c, |EncMembers(c, ext, ms, p).cells|, st.offset - st.origin);
  }

  /** The end of a type behind a DHEADER. */
  method EndDelimited(cdr: Cdr, st: State, ghost was: seq<byte>, ghost body: Cells)
    requires cdr.Valid() && cdr.v2 && cdr.encoding != PlainCdr2 && Saved(st)
    requires st.origin == cdr.origin && st.swap == cdr.swap && Kept(was, cdr.buffer.bytes, st.offset)
    requires Holds(cdr.buffer.bytes, cdr.HeaderAt(st) + 4, body) && cdr.offset == cdr.HeaderAt(st) + 4 + |body|
    modifies cdr, cdr.buffer
    ensures cdr.Valid() && SettingsOf(cdr) == old(SettingsOf(cdr)).(nextId := st.nextId, encoding := st.previous)
    ensures cdr.origin == old(cdr.origin) && cdr.next == Next1 && |cdr.buffer.bytes| == |old(cdr.buffer.bytes)|
    ensures var cells := U32(cdr.Cfg(AutoShort), |body|, st.offset - st.origin) + body;
      cdr.Wrote(was, st.offset, Out(cells, st.offset - st.origin + |cells|))
  {
    hide Pad, Holds, Kept, U32, Stamped, ToBytes;
    ghost var mid := cdr.buffer.bytes;
    cdr.EndType2(st);
    CloseDheader(cdr.Cfg(AutoShort), was, mid, cdr.buffer.bytes, st.offset, st.offset - st.origin, body);
  }

  method SerializeStruct1(cdr: Cdr, v: Value, sel: HeaderSelection) returns (ok: bool)
    requires v.Struct? && !cdr.v2 && Ready(cdr) && Writable(cdr.Cfg(sel), v)
    requires var c := cdr.Cfg(sel);
      Roomy(cdr, Peak(c, v, cdr.offset - cdr.origin), v.ext != Mutable && ElasticMembers(c, v.ext, v.members))
    modifies cdr, cdr.buffer
    ensures var c, p := old(cdr.Cfg(sel)), old(cdr.offset) - old(cdr.origin);
      Ended(cdr, ok, PermitsMembers(c, v.ext, v.members), Peak(c, v, p), Enc(c, v, p))
    decreases v, 0
  {
    hide Pad, Holds, Kept, Patched, EncMembers, PeakMembers, WritableMembers, ElasticMembers, PermitsMembers, ToBytes, Sentinel;
    ghost var c, p, was, at := cdr.Cfg(sel), cdr.offset - cdr.origin, cdr.buffer.bytes, cdr.offset;
    var st := cdr.BeginType1(AlgorithmOf(false, v.ext));
    ok := SerializeMembers(cdr, v.ext, v.members, sel);
    if !ok { return; }
    ghost var b, b1 := EncMembers(c, v.ext, v.members, p), cdr.buffer.bytes;
    ok := cdr.EndType1(st);
    if v.ext == Mutable {
      WroteSentinel(c, b1, cdr.buffer.bytes, at + |b.cells|, b.rel);
      WroteOn(was, b1, cdr.buffer.bytes, at, b.cells, Sentinel(c, b.rel));
    }
  }

  lemma WroteSentinel(c: Config, was: seq<byte>, now: seq<byte>, at: nat, p: nat)
    requires Patched(was, now, at + Pad(p, 4), ToBytes(c.little, PID_SENTINEL, 2) + ToBytes(c.little, 0, 2))
    ensures Kept(was, now, at) && Holds(now, at, Sentinel(c, p))
  {
    hide Pad, ToBytes, Patched, Holds, Raw, Gaps;
    var a, b := ToBytes(c.little, PID_SENTINEL, 2), ToBytes(c.little, 0, 2);
    PatchedKept(was, now, at + Pad(p, 4), a + b);
    HoldsPadded(now, at, Pad(p, 4), Raw(a + b));
    RawConcat(Pad(p, 4), a, b);
  }

  lemma MembersOut(c: Config, ext: Extensibility, ms: Members, p: nat)
    requires ms.MCons?
    ensures var a := EncSlot(c, ext, ms.id, ms.must, ms.slot, p);
      var b := EncMembers(c, ext, ms.rest, a.rel);
      EncMembers(c, ext, ms, p) == Out(a.cells + b.cells, b.rel)
  {
    hide EncSlot;
  }

  lemma MembersPeak(c: Config, ext: Extensibility, ms: Members, p: nat)
    requires ms.MCons?
    ensures var a := EncSlot(c, ext, ms.id, ms.must, ms.slot, p);
      PeakMembers(c, ext, ms, p) == Max(PeakSlot(c, ext, ms.id, ms.slot, p), |a.cells| + PeakMembers(c, ext, ms.rest, a.rel))
  {
    hide EncSlot, PeakSlot;
  }

  lemma NoMembers(c: Config, ext: Extensibility, p: nat)
    ensures EncMembers(c, ext, MNil, p) == Out([], p) && PeakMembers(c, ext, MNil, p) == 0
    ensures PermitsMembers(c, ext, MNil)
  {
  }

  /** What is asked of members, for the first and the rest. */
  lemma MembersParts(c: Config, ext: Extensibility, ms: Members)
    requires ms.MCons?
    ensures WritableMembers(c, ext, ms) == (WritableSlot(c, ext, ms.id, ms.slot) && WritableMembers(c, ext, ms.rest))
    ensures ElasticMembers(c, ext, ms) == (ElasticSlot(c, ext, ms.slot) && ElasticMembers(c, ext, ms.rest))
    ensures PermitsMembers(c, ext, ms) == (PermitsSlot(c, ext, ms.id, ms.slot) && PermitsMembers(c, ext, ms.rest))
  {
    hide Writable, Hollow, ElasticSlot, PermitsSlot, Headed;
  }

  /** In the middle of members: of all of them, `left` are still to be written, at position `p`. */
  ghost predicate MembersLeft(c: Config, ext: Extensibility, ms: Members, p0: nat, left: Members, p: nat,
                              internal: bool, was: seq<byte>, now: seq<byte>, start: nat, done: Cells)
  {
    && Budget(internal, |was|, |now|, start, PeakMembers(c, ext, ms, p0), start + |done|, PeakMembers(c, ext, left, p))
    && Midway(was, now, start, done, EncMembers(c, ext, left, p), EncMembers(c, ext, ms, p0))
    && PermitsMembers(c, ext, ms) == PermitsMembers(c, ext, left)
  }

  lemma MembersBegin(c: Config, ext: Extensibility, ms: Members, p: nat, internal: bool, was: seq<byte>, start: nat)
    requires start <= |was|
    ensures MembersLeft(c, ext, ms, p, ms, p, internal, was, was, start, [])
  {
    hide EncMembers, PeakMembers, PermitsMembers;
    MidwayStart(was, start, EncMembers(c, ext, ms, p));
    BudgetStart(internal, |was|, start, PeakMembers(c, ext, ms, p));
  }

  lemma MembersNext(c: Config, ext: Extensibility, ms: Members, p0: nat, left: Members, p: nat, internal: bool,
                    was: seq<byte>, mid: seq<byte>, now: seq<byte>, start: nat, done: Cells)
    requires left.MCons? && MembersLeft(c, ext, ms, p0, left, p, internal, was, mid, start, done)
    requires PermitsSlot(c, ext, left.id, left.slot)
    requires var a, at, need := EncSlot(c, ext, left.id, left.must, left.slot, p), start + |done|,
                                PeakSlot(c, ext, left.id, left.slot, p);
      && |mid| <= |now| && (!internal || at + need <= |mid| ==> |now| == |mid|) && (internal || at + need <= |mid|)
      && Kept(mid, now, at) && Holds(now, at, a.cells)
    ensures var a := EncSlot(c, ext, left.id, left.must, left.slot, p);
      MembersLeft(c, ext, ms, p0, left.rest, a.rel, internal, was, now, start, done + a.cells)
  {
    hide EncSlot, EncMembers, PeakSlot, PeakMembers, PermitsSlot, PermitsMembers, ElasticMembers, WritableMembers, Midway,
         Budget, Kept, Holds;
    var a := EncSlot(c, ext, left.id, left.must, left.slot, p);
    var b := EncMembers(c, ext, left.rest, a.rel);
    MembersParts(c, ext, left);
    MembersPeak(c, ext, left, p);
    MembersOut(c, ext, left, p);
    BudgetStep(internal, |was|, |mid|, |now|, start, PeakMembers(c, ext, ms, p0), start + |done|,
               PeakMembers(c, ext, left, p), PeakSlot(c, ext, left.id, left.slot, p), |a.cells|,
               PeakMembers(c, ext, left.rest, a.rel));
    MidwayStep(was, mid, now, start, done, a, b, EncMembers(c, ext, ms, p0));
  }

  lemma MembersFail(c: Config, ext: Extensibility, ms: Members, p0: nat, left: Members, p: nat, internal: bool,
                    was: seq<byte>, mid: seq<byte>, start: nat, done: Cells)
    requires left.MCons? && MembersLeft(c, ext, ms, p0, left, p, internal, was, mid, start, done)
    requires PermitsSlot(c, ext, left.id, left.slot) ==>
      !internal && |mid| < start + |done| + PeakSlot(c, ext, left.id, left.slot, p)
    ensures PermitsMembers(c, ext, ms) ==> !internal && |was| < start + PeakMembers(c, ext, ms, p0)
  {
    hide EncMembers, PeakSlot, PeakMembers, PermitsSlot, PermitsMembers, ElasticMembers, WritableMembers, Midway, Budget;
    MembersParts(c, ext, left);
    MembersPeak(c, ext, left, p);
    if PermitsSlot(c, ext, left.id, left.slot) {
      BudgetFail(internal, |was|, |mid|, start, PeakMembers(c, ext, ms, p0), start + |done|,
                 PeakMembers(c, ext, left, p), PeakSlot(c, ext, left.id, left.slot, p));
    }
  }

  lemma MembersDone(c: Config, ext: Extensibility, ms: Members, p0: nat, p: nat, internal: bool,
                    was: seq<byte>, now: seq<byte>, start: nat, done: Cells)
    requires MembersLeft(c, ext, ms, p0, MNil, p, internal, was, now, start, done) && start + |done| <= |now|
    ensures var need := PeakMembers(c, ext, ms, p0);
      && PermitsMembers(c, ext, ms) && (internal || start + need <= |was|)
      && |was| <= |now| && (!internal || start + need <= |was| ==> |now| == |was|)
    ensures var all := EncMembers(c, ext, ms, p0);
      Kept(was, now, start) && Holds(now, start, all.cells) && all == Out(done, p)
  {
    hide EncMembers, PeakMembers, PermitsMembers, Midway, Budget, Kept, Holds;
    NoMembers(c, ext, p);
    BudgetEnd(internal, |was|, |now|, start, PeakMembers(c, ext, ms, p0), start + |done|);
    MidwayEnd(was, now, start, done, p, EncMembers(c, ext, ms, p0));
  }

  /** The members one after the other, as generated code writes them. */
  method SerializeMembers(cdr: Cdr, ext: Extensibility, ms: Members, sel: HeaderSelection) returns (ok: bool)
    requires Ready(cdr) && cdr.encoding == AlgorithmOf(cdr.v2, ext) && WritableMembers(cdr.Cfg(sel), ext, ms)
    requires cdr.v2 ==> cdr.next == NoNext
    requires var c := cdr.Cfg(sel);
      Roomy(cdr, PeakMembers(c, ext, ms, cdr.offset - cdr.origin), ElasticMembers(c, ext, ms))
    modifies cdr, cdr.buffer
    ensures var c, p := old(cdr.Cfg(sel)), old(cdr.offset) - old(cdr.origin);
      Ended(cdr, ok, PermitsMembers(c, ext, ms), PeakMembers(c, ext, ms, p), EncMembers(c, ext, ms, p))
    ensures ok && cdr.v2 ==> cdr.next == NoNext
    decreases ms, 1
  {
    hide Pad, Holds, Kept, EncMembers, PeakMembers, WritableMembers, MembersLeft, ElasticMembers, PermitsMembers, AlgorithmOf;
    ghost var c, was, start, p0 := cdr.Cfg(sel), cdr.buffer.bytes, cdr.offset, cdr.offset - cdr.origin;
    ghost var done: Cells := [];
    var left := ms;
    ok := true;
    MembersBegin(c, ext, ms, p0, cdr.buffer.internal, was, start);
    while left.MCons?
      invariant ok && Ready(cdr) && SettingsOf(cdr) == old(SettingsOf(cdr)) && cdr.offset == start + |done|
      invariant WritableMembers(c, ext, left) && (left == ms || left < ms) && (cdr.v2 ==> cdr.next == NoNext)
      invariant Roomy(cdr, PeakMembers(c, ext, left, cdr.offset - cdr.origin), ElasticMembers(c, ext, left))
      invariant MembersLeft(c, ext, ms, p0, left, cdr.offset - cdr.origin, cdr.buffer.internal,
                            was, cdr.buffer.bytes, start, done)
      decreases left
    {
      ok, done := SerializeNext(cdr, ext, left, sel, ms, p0, was, start, done);
      if !ok { return; }
      left := left.rest;
    }
    assert left == MNil;
    MembersDone(c, ext, ms, p0, cdr.offset - cdr.origin, cdr.buffer.internal, was, cdr.buffer.bytes, start, done);
  }

  /** One of them. */
  method SerializeNext(cdr: Cdr, ext: Extensibility, left: Members, sel: HeaderSelection,
                       ghost ms: Members, ghost p0: nat, ghost was: seq<byte>, ghost start: nat, ghost done: Cells)
      returns (ok: bool, ghost more: Cells)
    requires left.MCons? && Ready(cdr) && cdr.encoding == AlgorithmOf(cdr.v2, ext) && (cdr.v2 ==> cdr.next == NoNext)
    requires WritableMembers(cdr.Cfg(sel), ext, left) && cdr.offset == start + |done|
    requires var c, p := cdr.Cfg(sel), cdr.offset - cdr.origin;
      && Roomy(cdr, PeakMembers(c, ext, left, p), ElasticMembers(c, ext, left))
      && MembersLeft(c, ext, ms, p0, left, p, cdr.buffer.internal, was, cdr.buffer.bytes, start, done)
    modifies cdr, cdr.buffer
    ensures !ok && PermitsMembers(old(cdr.Cfg(sel)), ext, ms) ==>
      !cdr.buffer.internal && |was| < start + PeakMembers(old(cdr.Cfg(sel)), ext, ms, p0)
    ensures ok ==> Ready(cdr) && SettingsOf(cdr) == old(SettingsOf(cdr)) && (cdr.v2 ==> cdr.next == NoNext)
    ensures ok ==> WritableMembers(cdr.Cfg(sel), ext, left.rest) && cdr.offset == start + |more|
    ensures ok ==> var c, p := cdr.Cfg(sel), cdr.offset - cdr.origin;
      && Roomy(cdr, PeakMembers(c, ext, left.rest, p), ElasticMembers(c, ext, left.rest))
      && MembersLeft(c, ext, ms, p0, left.rest, p, cdr.buffer.internal, was, cdr.buffer.bytes, start, more)
    decreases left, 0
  {
    hide Pad, Holds, Kept, EncSlot, EncMembers, PeakSlot, PeakMembers, WritableSlot, WritableMembers, MembersLeft,
         ElasticSlot, ElasticMembers, PermitsSlot, PermitsMembers, AlgorithmOf;
    ghost var c, p, mid := cdr.Cfg(sel), cdr.offset - cdr.origin, cdr.buffer.bytes;
    MembersParts(c, ext, left);
    MembersPeak(c, ext, left, p);
    more := done;
    ok := SerializeMember(cdr, ext, left.id, left.must, left.slot, sel);
    if !ok {
      MembersFail(c, ext, ms, p0, left, p, cdr.buffer.internal, was, mid, start, done);
    } else {
      MembersNext(c, ext, ms, p0, left, p, cdr.buffer.internal, was, mid, cdr.buffer.bytes, start, done);
      more := done + EncSlot(c, ext, left.id, left.must, left.slot, p).cells;
    }
  }

  method SerializeMember(cdr: Cdr, ext: Extensibility, id: nat, must: bool, slot: Slot, sel: HeaderSelection)
      returns (ok: bool)
    requires Ready(cdr) && cdr.encoding == AlgorithmOf(cdr.v2, ext) && (cdr.v2 ==> cdr.next == NoNext)
    requires WritableSlot(cdr.Cfg(sel), ext, id, slot)
    requires var c := cdr.Cfg(sel);
      Roomy(cdr, PeakSlot(c, ext, id, slot, cdr.offset - cdr.origin), ElasticSlot(c, ext, slot))
    modifies cdr, cdr.buffer
    ensures var c, p := old(cdr.Cfg(sel)), old(cdr.offset) - old(cdr.origin);
      Ended(cdr, ok, PermitsSlot(c, ext, id, slot), PeakSlot(c, ext, id, slot, p), EncSlot(c, ext, id, must, slot, p))
    ensures ok && cdr.v2 ==> cdr.next == NoNext
    decreases slot, 4
  {
    hide EncSlot, PeakSlot, WritableSlot, ElasticSlot, PermitsSlot, Holds, Kept;
    if cdr.v2 { ok := SerializeMember2(cdr, ext, id, must, slot, sel); }
    else { ok := SerializeMember1(cdr, ext, id, must, slot, sel); }
  }

  ghost predicate WritableSlot(c: Config, ext: Extensibility, id: nat, slot: Slot) {
    && (Headed(c, ext, slot) ==> id < if c.v2 then 0x1000_0000 else 0xFFFF_FFFF)
    && (NeedsBody(c, ext, slot) ==> !Hollow(c, slot.v))
    && (!slot.Absent? ==> Writable(c, slot.v))
  }

  // ---------------------------------------------------------------- XCDRv2 members

  method SerializeMember2(cdr: Cdr, ext: Extensibility, id: nat, must: bool, slot: Slot, sel: HeaderSelection)
      returns (ok: bool)
    requires cdr.v2 && Ready(cdr) && cdr.encoding == AlgorithmOf(true, ext) && cdr.next == NoNext
    requires WritableSlot(cdr.Cfg(sel), ext, id, slot)
    requires var c := cdr.Cfg(sel);
      Roomy(cdr, PeakSlot(c, ext, id, slot, cdr.offset - cdr.origin), ElasticSlot(c, ext, slot))
    modifies cdr, cdr.buffer
    ensures var c, p := old(cdr.Cfg(sel)), old(cdr.offset) - old(cdr.origin);
      Ended(cdr, ok, PermitsSlot(c, ext, id, slot), PeakSlot(c, ext, id, slot, p), EncSlot(c, ext, id, must, slot, p))
    ensures ok ==> cdr.next == NoNext
    decreases slot, 3
  {
    hide Pad, Holds, Kept, Enc, Peak, Writable, Hollow, EncHeaded2, PeakHeaded2, Elastic, Stretched, Permits, PermitsForm2;
    if ext != Mutable {
      ok := SerializePlain2(cdr, ext, id, must, slot, sel);
    } else if slot.Absent? {
      KeptSelf(cdr.buffer.bytes, cdr.offset);
      var st;
      st, ok := cdr.BeginMember2(id, must, false, sel);
      ok := cdr.EndMember2(st);
    } else {
      ok := SerializeHeaded2(cdr, id, must, slot.v, sel);
    }
  }

  /** A member of a plain struct: a flag if it is optional, and the value if there is one. */
  method SerializePlain2(cdr: Cdr, ext: Extensibility, id: nat, must: bool, slot: Slot, sel: HeaderSelection)
      returns (ok: bool)
    requires ext != Mutable && cdr.v2 && Ready(cdr) && cdr.encoding == AlgorithmOf(true, ext) && cdr.next == NoNext
    requires WritableSlot(cdr.Cfg(sel), ext, id, slot)
    requires var c := cdr.Cfg(sel);
      Roomy(cdr, PeakSlot(c, ext, id, slot, cdr.offset - cdr.origin), ElasticSlot(c, ext, slot))
    modifies cdr, cdr.buffer
    ensures var c, p := old(cdr.Cfg(sel)), old(cdr.offset) - old(cdr.origin);
      Ended(cdr, ok, PermitsSlot(c, ext, id, slot), PeakSlot(c, ext, id, slot, p), EncSlot(c, ext, id, must, slot, p))
    ensures ok ==> cdr.next == NoNext
    decreases slot, 2
  {
    hide Pad, Holds, Kept, EncSlot, PeakSlot, WritableSlot, ElasticSlot, PermitsSlot, Stamped, Header2Bytes, FormOf, Finished2;
    var st := OpenPlain(cdr, id, must, !slot.Absent?, sel);
    ok := SerializeBody2(cdr, ext, id, must, slot, sel);
    if !ok { return; }
    ClosePlain(cdr, st);
  }

  /** The beginning of a member that gets no header changes nothing. */
  method OpenPlain(cdr: Cdr, id: nat, must: bool, present: bool, sel: HeaderSelection) returns (st: State)
    requires cdr.Valid() && cdr.encoding != PlCdr && !(present && cdr.encoding == PlCdr2)
    modifies cdr, cdr.buffer
    ensures Ready(cdr) && SettingsOf(cdr) == old(SettingsOf(cdr)).(nextId := INVALID_ID)
    ensures cdr.buffer.bytes == old(cdr.buffer.bytes)
    ensures cdr.offset == old(cdr.offset) && cdr.origin == old(cdr.origin) && cdr.next == old(cdr.next)
    ensures Saved(st) && st.origin == cdr.origin && st.swap == cdr.swap && st.present == present
  {
    hide Pad, Kept, Patched, Header1Bytes;
    var ok;
    if cdr.v2 { st, ok := cdr.BeginMember2(id, must, present, sel); }
    else { st, ok := cdr.BeginMember1(id, must, false, present, sel); }
  }

  /** Neither does its end, but for the flag. */
  method ClosePlain(cdr: Cdr, st: State)
    requires cdr.Valid() && cdr.encoding != PlCdr && !(st.present && cdr.encoding == PlCdr2)
    requires Saved(st) && st.swap == cdr.swap && (if cdr.v2 then st.origin == cdr.origin else st.present)
    modifies cdr, cdr.buffer
    ensures cdr.Valid() && SettingsOf(cdr) == old(SettingsOf(cdr)).(nextId := INVALID_ID)
    ensures cdr.buffer.bytes == old(cdr.buffer.bytes) && cdr.offset == old(cdr.offset) && cdr.origin == old(cdr.origin)
    ensures cdr.next == if cdr.v2 then NoNext else old(cdr.next)
  {
    hide Pad, Kept, Stamped, Header1Bytes, Finished2;
    var ok;
    if cdr.v2 { ok := cdr.EndMember2(st); } else { ok := cdr.EndMember1(st, false); }
  }

  method SerializeBody2(cdr: Cdr, ext: Extensibility, ghost id: nat, ghost must: bool, slot: Slot, sel: HeaderSelection)
      returns (ok: bool)
    requires ext != Mutable && cdr.v2 && Ready(cdr)
    requires WritableSlot(cdr.Cfg(sel), ext, id, slot)
    requires var c := cdr.Cfg(sel);
      Roomy(cdr, PeakSlot(c, ext, id, slot, cdr.offset - cdr.origin), ElasticSlot(c, ext, slot))
    modifies cdr, cdr.buffer
    ensures var c, p := old(cdr.Cfg(sel)), old(cdr.offset) - old(cdr.origin);
      Ended(cdr, ok, PermitsSlot(c, ext, id, slot), PeakSlot(c, ext, id, slot, p), EncSlot(c, ext, id, must, slot, p))
    decreases slot, 1
  {
    hide Pad, Holds, Kept, Enc, Peak, Writable, Hollow, Elastic, Stretched, Permits, PermitsForm2;
    if slot.Req? {
      ok := SerializeValue(cdr, slot.v, sel);
    } else {
      ok := SerializeOptional2(cdr, slot, sel);
    }
  }

  /** The presence flag, and the value if there is one. */
  method SerializeOptional2(cdr: Cdr, slot: Slot, sel: HeaderSelection) returns (ok: bool)
    requires !slot.Req? && cdr.v2 && Ready(cdr) && (slot.Present? ==> Writable(cdr.Cfg(sel), slot.v))
    requires slot.Present? ==>
      var c := cdr.Cfg(sel); Roomy(cdr, 1 + Peak(c, slot.v, cdr.offset - cdr.origin + 1), Elastic(c, slot.v))
    modifies cdr, cdr.buffer
    ensures var c, p := old(cdr.Cfg(sel)), old(cdr.offset) - old(cdr.origin);
      if slot.Absent? then Ended(cdr, ok, true, 1, Out([B(0)], p + 1))
      else
        var e := Enc(c, slot.v, p + 1);
        Ended(cdr, ok, Permits(c, slot.v), 1 + Peak(c, slot.v, p + 1), Out([B(1)] + e.cells, e.rel))
    decreases slot, 0
  {
    hide Pad, Holds, Kept, Enc, Peak, Writable, Hollow, Elastic, Permits;
    ghost var p, was, at, c := cdr.offset - cdr.origin, cdr.buffer.bytes, cdr.offset, cdr.Cfg(sel);
    ok := SerializeFlag(cdr, slot.Present?);
    if ok && slot.Present? {
      ghost var mid := cdr.buffer.bytes;
      ok := SerializeValue(cdr, slot.v, sel);
      if ok { WroteOn(was, mid, cdr.buffer.bytes, at, [B(1)], Enc(c, slot.v, p + 1).cells); }
    }
  }

  /** The presence flag of an optional member. */
  method SerializeFlag(cdr: Cdr, present: bool) returns (ok: bool)
    requires cdr.Valid()
    modifies cdr, cdr.buffer
    ensures cdr.next == old(cdr.next)
    ensures Ended(cdr, ok, true, 1, Out([B(if present then 1 else 0)], old(cdr.offset) - old(cdr.origin) + 1))
  {
    hide Holds, Kept, Patched, Pad, Cap;
    ghost var p, b := cdr.offset - cdr.origin, if present then 1 else 0;
    PadOne(p);
    ok := cdr.SerializePrim(KBool, if present then 1 else 0);
    if ok {
      OneByte(cdr.Order(), b);
      PatchedKept(old(cdr.buffer.bytes), cdr.buffer.bytes, old(cdr.offset), [b as byte]);
      KeptLonger(old(cdr.buffer.bytes), cdr.buffer.bytes, old(cdr.offset));
      assert Raw([b as byte]) == [B(b as byte)];
    }
  }

  lemma OneByte(little: bool, n: nat)
    requires n < 256
    ensures ToBytes(little, n, 1) == [n as byte]
  {
  }

  /** The header a finished member carries, in bytes, and the body behind it, wherever the header left it. */
  lemma Headed2Cells(c: Config, id: nat, must: bool, v: Value, p: nat, h: nat)
    requires c.v2 && (h == 4 || h == 8)
    ensures var body := Enc(c, v, p + Pad(p, 4) + h).cells;
      var form := FormOf(c.sel, Next(v), |body|);
      EncHeaded2(c, id, must, v, p).cells
        == Gaps(Pad(p, 4)) + Raw(Header2Bytes(c.little, id, must, form, |body|, Next(v))) + body
  {
    hide Pad, ToBytes, Enc, Next, Gaps, Raw, Word2;
    EncShift(c, v, p + Pad(p, 4) + 4);
    var body := Enc(c, v, p + Pad(p, 4) + 4).cells;
    if FormOf(c.sel, Next(v), |body|) == Long {
      RawConcat(Pad(p, 4), ToBytes(c.little, Word2(must, 4, id), 4), ToBytes(c.little, |body|, 4));
    }
  }

  /** How far a member reaches: as its header is allocated, or as it is finished. */
  lemma Headed2Room(c: Config, v: Value, p: nat)
    requires c.v2 && !Hollow(c, v)
    ensures var h := HeadLength(c.sel);
      var body := Enc(c, v, p + Pad(p, 4) + h).cells;
      && |body| > 0 && |body| == |Enc(c, v, 0).cells| && |body| <= Peak(c, v, p + Pad(p, 4) + h)
      && (Cdr.Stretches2(c.sel, Next(v), |body|) ==> Stretched(c, v) && Pad(p, 4) + 8 + |body| <= PeakHeaded2(c, v, p))
      && Pad(p, 4) + h + Peak(c, v, p + Pad(p, 4) + h) <= PeakHeaded2(c, v, p)
      && (PermitsForm2(c, v) && !Stretched(c, v) ==>
            PeakHeaded2(c, v, p) == Pad(p, 4) + h + Peak(c, v, p + Pad(p, 4) + h))
  {
    hide Pad, Peak, Enc, Hollow, Next;
    var h := HeadLength(c.sel);
    HeadAligned(p, h);
    EncAligned(c, v, p + Pad(p, 4) + h);
    EncHollow(c, v, p + Pad(p, 4) + h);
    PeakCovers(c, v, p + Pad(p, 4) + h);
  }

  lemma HeadAligned(p: nat, h: nat)
    requires h == 4 || h == 8
    ensures (p + Pad(p, 4) + h) % 4 == 0
  {
    PadAligns(p, 4);
  }

  method SerializeHeaded2(cdr: Cdr, id: nat, must: bool, v: Value, sel: HeaderSelection) returns (ok: bool)
    requires cdr.v2 && Ready(cdr) && cdr.encoding == PlCdr2 && cdr.next == NoNext
    requires id < 0x1000_0000 && !Hollow(cdr.Cfg(sel), v) && Writable(cdr.Cfg(sel), v)
    requires var c := cdr.Cfg(sel);
      Roomy(cdr, PeakHeaded2(c, v, cdr.offset - cdr.origin), Elastic(c, v) && !Stretched(c, v))
    modifies cdr, cdr.buffer
    ensures var c, p := old(cdr.Cfg(sel)), old(cdr.offset) - old(cdr.origin);
      Ended(cdr, ok, Permits(c, v) && PermitsForm2(c, v), PeakHeaded2(c, v, p), EncHeaded2(c, id, must, v, p))
    ensures ok ==> cdr.next == NoNext
    decreases v, 3
  {
    hide Pad, Holds, Kept, Enc, EncHeaded2, Peak, PeakHeaded2, Writable, Hollow, Header2Bytes, Next, Elastic, Stretched,
         Permits, Cdr.Stretches2, FormOf, AllocatesLong, HeadLength;
    ghost var c, p, was := cdr.Cfg(sel), cdr.offset - cdr.origin, cdr.buffer.bytes;
    ghost var h := HeadLength(sel);
    Headed2Room(c, v, p);
    Headed2Cells(c, id, must, v, p, h);
    var st;
    st, ok := SerializeBehind2(cdr, id, must, v, sel);
    if !ok { return; }
    ok := CloseHeaded2(cdr, st, was, Enc(c, v, p + Pad(p, 4) + h).cells);
  }

  /** An allocated header and the body behind it. */
  method SerializeBehind2(cdr: Cdr, id: nat, must: bool, v: Value, sel: HeaderSelection) returns (st: State, ok: bool)
    requires cdr.v2 && Ready(cdr) && cdr.encoding == PlCdr2 && cdr.next == NoNext
    requires id < 0x1000_0000 && Writable(cdr.Cfg(sel), v)
    requires var c, p, h := cdr.Cfg(sel), cdr.offset - cdr.origin, HeadLength(sel);
      Roomy(cdr, Pad(p, 4) + h + Peak(c, v, p + Pad(p, 4) + h), Elastic(c, v))
    modifies cdr, cdr.buffer
    ensures var c, p, h := old(cdr.Cfg(sel)), old(cdr.offset) - old(cdr.origin), HeadLength(sel);
      var need, body := Pad(p, 4) + h + Peak(c, v, p + Pad(p, 4) + h), Enc(c, v, p + Pad(p, 4) + h);
      var from := old(cdr.offset) + Pad(p, 4) + h;
      && ok == (Permits(c, v) && (cdr.buffer.internal || old(cdr.offset) + need <= |old(cdr.buffer.bytes)|))
      && (ok ==> Steady(cdr, need) && cdr.offset == from + |body.cells| && Holds(cdr.buffer.bytes, from, body.cells))
    ensures ok ==> cdr.Valid() && SettingsOf(cdr) == old(SettingsOf(cdr)) && cdr.next == Next(v)
    ensures ok ==> st.offset == old(cdr.offset) && st.origin == old(cdr.origin) == cdr.origin && Saved(st)
    ensures ok ==> st.swap == cdr.swap && st.present && st.must == must && st.nextId == id && st.selection == sel
    ensures ok ==> st.longHeader == AllocatesLong(sel) && Kept(old(cdr.buffer.bytes), cdr.buffer.bytes, st.offset)
    decreases v, 2
  {
    hide Pad, Holds, Kept, Enc, Peak, Writable, Next, Elastic, Permits, HeadLength, AllocatesLong;
    ghost var was, at := cdr.buffer.bytes, cdr.offset;
    st, ok := OpenHeaded2(cdr, id, must, sel);
    if !ok { return; }
    ghost var mid, from := cdr.buffer.bytes, cdr.offset;
    ok := SerializeValue(cdr, v, sel);
    if !ok { return; }
    FlagIsNext(v);
    KeptTrans(was, mid, cdr.buffer.bytes, at, from);
  }

  /** The beginning of a member of a mutable struct: room for the header. */
  method OpenHeaded2(cdr: Cdr, id: nat, must: bool, sel: HeaderSelection) returns (st: State, ok: bool)
    requires cdr.v2 && Ready(cdr) && cdr.encoding == PlCdr2 && id < 0x1000_0000
    modifies cdr, cdr.buffer
    ensures var n := Pad(old(cdr.offset) - old(cdr.origin), 4) + HeadLength(sel);
      && ok == (cdr.buffer.internal || old(cdr.offset) + n <= |old(cdr.buffer.bytes)|)
      && (ok ==> Steady(cdr, n) && cdr.offset == old(cdr.offset) + n)
    ensures ok ==> Ready(cdr) && SettingsOf(cdr) == old(SettingsOf(cdr)) && cdr.next == old(cdr.next)
    ensures ok ==> st.offset == old(cdr.offset) && st.origin == old(cdr.origin) == cdr.origin && Saved(st)
    ensures ok ==> st.swap == cdr.swap && st.present && st.must == must && st.nextId == id && st.selection == sel
    ensures ok ==> st.longHeader == AllocatesLong(sel)
    ensures ok ==> Kept(old(cdr.buffer.bytes), cdr.buffer.bytes, st.offset)
  {
    hide Pad, Kept;
    st, ok := cdr.BeginMember2(id, must, true, sel);
  }

  /** The end of a member whose body stands behind an allocated header. */
  method CloseHeaded2(cdr: Cdr, st: State, ghost was: seq<byte>, ghost body: Cells) returns (ok: bool)
    requires cdr.Valid() && cdr.v2 && cdr.encoding == PlCdr2 && body != []
    requires st.origin == cdr.origin && Saved(st) && st.swap == cdr.swap && st.present
    requires st.nextId < 0x1000_0000 && st.longHeader == AllocatesLong(st.selection)
    requires Kept(was, cdr.buffer.bytes, st.offset)
    requires var from := cdr.HeaderAt(st) + HeadLength(st.selection);
      Holds(cdr.buffer.bytes, from, body) && cdr.offset == from + |body|
    requires Cdr.Stretches2(st.selection, cdr.next, |body|) ==> cdr.HeaderAt(st) + 8 + |body| <= |cdr.buffer.bytes|
    modifies cdr, cdr.buffer
    ensures ok == (st.selection == ShortOnly ==> FormOf(st.selection, old(cdr.next), |body|) == Short)
    ensures cdr.Valid() && |cdr.buffer.bytes| == |old(cdr.buffer.bytes)|
    ensures ok ==> cdr.next == NoNext && cdr.origin == old(cdr.origin)
    ensures ok ==> SettingsOf(cdr) == old(SettingsOf(cdr)).(nextId := INVALID_ID)
    ensures ok ==>
      var form := FormOf(st.selection, old(cdr.next), |body|);
      var head := Header2Bytes(cdr.Order(), st.nextId, st.must, form, |body|, old(cdr.next));
      var cells := Gaps(Pad(st.offset - st.origin, 4)) + Raw(head) + body;
      cdr.Wrote(was, st.offset, Out(cells, st.offset - st.origin + |cells|))
  {
    hide Pad, Holds, Kept, Stamped, Header2Bytes;
    ghost var mid, next, from := cdr.buffer.bytes, cdr.next, cdr.offset - |body|;
    ok := cdr.EndMember2(st);
    if !ok { return; }
    ghost var form := FormOf(st.selection, next, |body|);
    CloseHeader(was, mid, cdr.buffer.bytes, st.offset, Pad(st.offset - st.origin, 4),
                Header2Bytes(cdr.Order(), st.nextId, st.must, form, |body|, next), from, body);
  }

  lemma FlagIsNext(v: Value)
    ensures FlagStep(v, NoNext) == Next(v)
  {
  }

  // ---------------------------------------------------------------- XCDRv1 members

  method SerializeMember1(cdr: Cdr, ext: Extensibility, id: nat, must: bool, slot: Slot, sel: HeaderSelection)
      returns (ok: bool)
    requires !cdr.v2 && Ready(cdr) && cdr.encoding == AlgorithmOf(false, ext)
    requires WritableSlot(cdr.Cfg(sel), ext, id, slot)
    requires var c := cdr.Cfg(sel);
      Roomy(cdr, PeakSlot(c, ext, id, slot, cdr.offset - cdr.origin), ElasticSlot(c, ext, slot))
    modifies cdr, cdr.buffer
    ensures var c, p := old(cdr.Cfg(sel)), old(cdr.offset) - old(cdr.origin);
      Ended(cdr, ok, PermitsSlot(c, ext, id, slot), PeakSlot(c, ext, id, slot, p), EncSlot(c, ext, id, must, slot, p))
    decreases slot, 1
  {
    hide Pad, Holds, Kept, Enc, EncHeaded1, Peak, PeakHeaded1, Writable, Hollow, Header1, Elastic, Permits, PermitsForm1;
    if slot.Absent? {
      ok := SerializeAbsent1(cdr, ext, id, must, sel);
    } else if slot.Req? && ext != Mutable {
      ok := SerializeBare1(cdr, id, must, slot.v, sel);
    } else {
      ok := SerializeHeaded1(cdr, id, must, !slot.Req?, slot.v, sel);
    }
  }

  /** A member that is not there: nothing in a mutable struct, a header for no bytes in a plain one. */
  method SerializeAbsent1(cdr: Cdr, ext: Extensibility, id: nat, must: bool, sel: HeaderSelection) returns (ok: bool)
    requires !cdr.v2 && Ready(cdr) && cdr.encoding == AlgorithmOf(false, ext) && (ext != Mutable ==> id < INVALID_ID)
    requires ext != Mutable ==>
      var n := if AllocatesLong1(id, sel) then 12 else 4;
      cdr.offset + Pad(cdr.offset - cdr.origin, 4) + n <= |cdr.buffer.bytes|
    modifies cdr, cdr.buffer
    ensures var p := old(cdr.offset) - old(cdr.origin);
      var out := if ext == Mutable then Out([], p)
                 else Out(Header1(old(cdr.Cfg(sel)), id, must, 0, AllocatesLong1(id, sel), p), 0);
      Ended(cdr, ok, sel == ShortOnly && ext != Mutable ==> id <= MAX_SHORT_ID, |out.cells|, out)
  {
    hide Pad, Holds, Kept, Patched, Header1, Header1Bytes, Stamped;
    ghost var p, was, at, c := cdr.offset - cdr.origin, cdr.buffer.bytes, cdr.offset, cdr.Cfg(sel);
    KeptSelf(was, at);
    var st;
    st, ok := cdr.BeginMember1(id, must, true, false, sel);
    if !ok { return; }
    if ext != Mutable {
      WroteHeader1(c, id, must, 0, st.longHeader, was, cdr.buffer.bytes, at, p);
    }
    ok := cdr.EndMember1(st, true);
  }

  /** A member of a plain struct that is not optional. */
  method SerializeBare1(cdr: Cdr, id: nat, must: bool, v: Value, sel: HeaderSelection) returns (ok: bool)
    requires !cdr.v2 && Ready(cdr) && cdr.encoding == PlainCdr && Writable(cdr.Cfg(sel), v)
    requires var c := cdr.Cfg(sel); Roomy(cdr, Peak(c, v, cdr.offset - cdr.origin), Elastic(c, v))
    modifies cdr, cdr.buffer
    ensures var c, p := old(cdr.Cfg(sel)), old(cdr.offset) - old(cdr.origin);
      Ended(cdr, ok, Permits(c, v), Peak(c, v, p), Enc(c, v, p))
    decreases v, 2
  {
    hide Pad, Holds, Kept, Enc, Peak, Writable, Patched, Header1Bytes, Stamped, Elastic, Permits;
    var st := OpenPlain(cdr, id, must, true, sel);
    ok := SerializeValue(cdr, v, sel);
    if !ok { return; }
    ClosePlain(cdr, st);
  }

  lemma Header1Cells(c: Config, id: nat, must: bool, size: nat, long: bool, p: nat)
    ensures Header1(c, id, must, size, long, p) == Gaps(Pad(p, 4)) + Raw(Header1Bytes(c.little, id, must, size, long))
  {
    hide Pad, ToBytes, Raw, Gaps, Word1;
    if long {
      var a, b := ToBytes(c.little, Word1(must, PID_EXTENDED), 2), ToBytes(c.little, 8, 2);
      var d, e := ToBytes(c.little, id, 4), ToBytes(c.little, size, 4);
      RawConcat(Pad(p, 4), a, b);
      RawConcat(Pad(p, 4), a + b, d);
      RawConcat(Pad(p, 4), a + b + d, e);
    } else {
      RawConcat(Pad(p, 4), ToBytes(c.little, Word1(must, id), 2), ToBytes(c.little, size, 2));
    }
  }

  lemma WroteHeader1(c: Config, id: nat, must: bool, size: nat, long: bool, was: seq<byte>, now: seq<byte>, at: nat, p: nat)
    requires Patched(was, now, at + Pad(p, 4), Header1Bytes(c.little, id, must, size, long))
    ensures Kept(was, now, at) && Holds(now, at, Header1(c, id, must, size, long, p))
  {
    hide Pad, Holds, Raw, Gaps, Header1, Header1Bytes;
    Header1Cells(c, id, must, size, long, p);
    var head := Header1Bytes(c.little, id, must, size, long);
    PatchedKept(was, now, at + Pad(p, 4), head);
    HoldsPadded(now, at, Pad(p, 4), Raw(head));
  }

  /** The part of an allocated header that the end of the member relies on survives the writing of the body. */
  lemma FixedKept(little: bool, id: nat, must: bool, long: bool, was: seq<byte>, mid: seq<byte>, now: seq<byte>, at: nat)
    requires Patched(was, mid, at, Header1Bytes(little, id, must, 0, long)) && Kept(mid, now, at + if long then 12 else 4)
    ensures var fixed := Fixed1(little, id, must, long);
      at + |fixed| <= |now| && now[at..at + |fixed|] == fixed
  {
    hide ToBytes, Word1;
    var fixed, head := Fixed1(little, id, must, long), Header1Bytes(little, id, must, 0, long);
    assert head[..|fixed|] == fixed;
    forall i | 0 <= i < |fixed|
      ensures now[at..at + |fixed|][i] == fixed[i]
    {
      assert now[at + i] == mid[at + i] == mid[at..at + |head|][i] == head[..|fixed|][i];
    }
  }

  method SerializeHeaded1(cdr: Cdr, id: nat, must: bool, optional: bool, v: Value, sel: HeaderSelection)
      returns (ok: bool)
    requires !cdr.v2 && Ready(cdr) && (optional || cdr.encoding == PlCdr)
    requires id < INVALID_ID && Writable(cdr.Cfg(sel), v)
    requires cdr.offset + PeakHeaded1(cdr.Cfg(sel), id, v, cdr.offset - cdr.origin) <= |cdr.buffer.bytes|
    modifies cdr, cdr.buffer
    ensures var c, p := old(cdr.Cfg(sel)), old(cdr.offset) - old(cdr.origin);
      Ended(cdr, ok, Permits(c, v) && PermitsForm1(c, id, v), PeakHeaded1(c, id, v, p), EncHeaded1(c, id, must, v, p))
    decreases v, 3
  {
    hide Pad, Holds, Kept, Patched, Enc, Peak, Writable, Header1, Header1Bytes, Fixed1, PeakHeaded1, Header1Length,
         Elastic, Permits, AllocatesLong1;
    Headed1Room(cdr.Cfg(sel), id, v, cdr.offset - cdr.origin);
    ghost var c, was := cdr.Cfg(sel), cdr.buffer.bytes;
    var st;
    st, ok := SerializeBehind1(cdr, id, must, optional, v, sel);
    if !ok { return; }
    ok := CloseHeaded1(cdr, st, optional, was, Enc(c, v, 0));
  }

  /** A header for no bytes yet and the body behind it. */
  method SerializeBehind1(cdr: Cdr, id: nat, must: bool, optional: bool, v: Value, sel: HeaderSelection)
      returns (st: State, ok: bool)
    requires !cdr.v2 && Ready(cdr) && (optional || cdr.encoding == PlCdr)
    requires id < INVALID_ID && Writable(cdr.Cfg(sel), v)
    requires var h := if AllocatesLong1(id, sel) then 12 else 4;
      cdr.offset + Pad(cdr.offset - cdr.origin, 4) + h + Peak(cdr.Cfg(sel), v, 0) <= |cdr.buffer.bytes|
    modifies cdr, cdr.buffer
    ensures var c, h, body := old(cdr.Cfg(sel)), if AllocatesLong1(id, sel) then 12 else 4,
                              Enc(old(cdr.Cfg(sel)), v, 0);
      var from := old(cdr.offset) + Pad(old(cdr.offset) - old(cdr.origin), 4) + h;
      && ok == (Permits(c, v) && !(id > MAX_SHORT_ID && sel == ShortOnly))
      && (ok ==> |cdr.buffer.bytes| == |old(cdr.buffer.bytes)| && cdr.Valid() && SettingsOf(cdr) == old(SettingsOf(cdr)))
      && (ok ==> cdr.offset == from + |body.cells| && Holds(cdr.buffer.bytes, from, body.cells))
      && (ok ==> cdr.offset - cdr.origin == body.rel)
    ensures ok ==> st.offset == old(cdr.offset) && st.origin == old(cdr.origin) && Saved(st) && st.swap == cdr.swap
    ensures ok ==> st.present && st.must == must && st.nextId == id && st.selection == sel
    ensures ok ==> st.longHeader == AllocatesLong1(id, sel) && cdr.Allocated1(st)
    ensures ok ==> Kept(old(cdr.buffer.bytes), cdr.buffer.bytes, st.offset)
    decreases v, 2
  {
    hide Pad, Holds, Kept, Patched, Enc, Peak, Writable, Header1Bytes, Fixed1, Elastic, Permits, AllocatesLong1;
    ghost var c, was, at := cdr.Cfg(sel), cdr.buffer.bytes, cdr.offset;
    ghost var hat := at + Pad(cdr.offset - cdr.origin, 4);
    st, ok := OpenHeaded1(cdr, id, must, optional, sel);
    if !ok { return; }
    ghost var mid, from := cdr.buffer.bytes, cdr.offset;
    ok := SerializeValue(cdr, v, sel);
    if !ok { return; }
    FixedKept(c.little, id, must, st.longHeader, was, mid, cdr.buffer.bytes, hat);
    KeptTrans(was, mid, cdr.buffer.bytes, at, from);
  }

  lemma Headed1Room(c: Config, id: nat, v: Value, p: nat)
    requires !c.v2
    ensures var h := if AllocatesLong1(id, c.sel) then 12 else 4;
      && Pad(p, 4) + h + Peak(c, v, 0) <= PeakHeaded1(c, id, v, p)
      && Pad(p, 4) + Header1Length(c.sel, id, |Enc(c, v, 0).cells|) + |Enc(c, v, 0).cells| <= PeakHeaded1(c, id, v, p)
  {
    hide Pad, Peak, Enc;
  }

  /** The beginning of a member that gets a header: the header for no bytes yet, and a new origin behind it. */
  method OpenHeaded1(cdr: Cdr, id: nat, must: bool, optional: bool, sel: HeaderSelection) returns (st: State, ok: bool)
    requires !cdr.v2 && Ready(cdr) && (optional || cdr.encoding == PlCdr) && id < INVALID_ID
    requires var n := if AllocatesLong1(id, sel) then 12 else 4;
      cdr.offset + Pad(cdr.offset - cdr.origin, 4) + n <= |cdr.buffer.bytes|
    modifies cdr, cdr.buffer
    ensures ok == !(id > MAX_SHORT_ID && sel == ShortOnly) && |cdr.buffer.bytes| == |old(cdr.buffer.bytes)|
    ensures ok ==> Ready(cdr) && SettingsOf(cdr) == old(SettingsOf(cdr))
    ensures ok ==> st.offset == old(cdr.offset) && st.origin == old(cdr.origin) && Saved(st) && st.swap == cdr.swap
    ensures ok ==> st.present && st.must == must && st.nextId == id && st.selection == sel
    ensures ok ==> st.longHeader == AllocatesLong1(id, sel)
    ensures ok ==>
      var at := old(cdr.offset) + Pad(old(cdr.offset) - old(cdr.origin), 4);
      && cdr.offset == cdr.origin == at + (if st.longHeader then 12 else 4)
      && Patched(old(cdr.buffer.bytes), cdr.buffer.bytes, at, Header1Bytes(cdr.Order(), id, must, 0, st.longHeader))
      && Kept(old(cdr.buffer.bytes), cdr.buffer.bytes, st.offset)
  {
    hide Pad, Holds, Patched, Header1Bytes;
    st, ok := cdr.BeginMember1(id, must, optional, true, sel);
    if ok {
      PatchedKept(old(cdr.buffer.bytes), cdr.buffer.bytes, cdr.HeaderAt(st),
                  Header1Bytes(cdr.Order(), id, must, 0, st.longHeader));
    }
  }

  /** The end of a member whose body stands behind an allocated header. */
  method CloseHeaded1(cdr: Cdr, st: State, optional: bool, ghost was: seq<byte>, ghost body: Out) returns (ok: bool)
    requires cdr.Valid() && !cdr.v2 && (optional || cdr.encoding == PlCdr)
    requires Saved(st) && st.swap == cdr.swap && st.present && !(st.nextId > MAX_SHORT_ID && st.selection == ShortOnly)
    requires st.longHeader == AllocatesLong1(st.nextId, st.selection)
    requires cdr.Allocated1(st) && Kept(was, cdr.buffer.bytes, st.offset)
    requires var from := cdr.HeaderAt(st) + if st.longHeader then 12 else 4;
      Holds(cdr.buffer.bytes, from, body.cells) && cdr.offset == from + |body.cells|
    requires cdr.offset - cdr.origin == body.rel <= |body.cells|
    requires var size := |body.cells|;
      cdr.HeaderAt(st) + Header1Length(st.selection, st.nextId, size) + size <= |cdr.buffer.bytes|
    modifies cdr, cdr.buffer
    ensures ok == !(st.selection == ShortOnly && |body.cells| > 0xFFFF)
    ensures cdr.Valid() && |cdr.buffer.bytes| == |old(cdr.buffer.bytes)|
    ensures ok ==> SettingsOf(cdr) == old(SettingsOf(cdr)).(nextId := INVALID_ID)
    ensures ok ==>
      var c, size, p := old(cdr.Cfg(st.selection)), |body.cells|, st.offset - st.origin;
      var long := IsLong1(st.selection, st.nextId, size);
      cdr.Wrote(was, st.offset, Out(Header1(c, st.nextId, st.must, size, long, p) + body.cells, body.rel))
  {
    hide Pad, Holds, Kept, Stamped, Header1, Header1Bytes, Fixed1;
    ghost var c, p, mid := cdr.Cfg(st.selection), st.offset - st.origin, cdr.buffer.bytes;
    ghost var size, from := |body.cells|, cdr.offset - |body.cells|;
    ok := cdr.EndMember1(st, optional);
    if !ok { return; }
    ghost var long := IsLong1(st.selection, st.nextId, size);
    Header1Cells(c, st.nextId, st.must, size, long, p);
    CloseHeader(was, mid, cdr.buffer.bytes, st.offset, Pad(p, 4), Header1Bytes(c.little, st.nextId, st.must, size, long),
                from, body.cells);
  }
}
