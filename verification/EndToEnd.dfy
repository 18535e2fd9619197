/** A writer and a reader on hosts of any byte order, with nothing in common but the bytes. */
module EndToEnd {
  import opened Layout
  import opened Schema
  import opened Encoding
  import opened Decoding
  import opened Evolution
  import opened Theorem
  import opened Rooms
  import opened FastBuffers
  import opened Patching
  import opened Cdrs
  import opened Serializer
  import opened Deserializer
  import opened Refusal
  import opened Sizes
  import opened SizeFacts
  import opened Calculators

  // ---------------------------------------------------------------- readers do not look at the header selection

  predicate SameReader(c: Config, c': Config) {
    c.v2 == c'.v2 && c.little == c'.little
  }

  lemma PrimSel(c: Config, c': Config, k: Kind, buf: seq<byte>, cur: Cur)
    requires SameReader(c, c') && Inside(cur, buf)
    ensures DecPrim(c, k, buf, cur) == DecPrim(c', k, buf, cur) && DecU32(c, buf, cur) == DecU32(c', buf, cur)
    ensures DecStr(c, buf, cur) == DecStr(c', buf, cur)
  {
    hide Pad, FromBytes, Untrail;
  }

  lemma {:induction false} ElementsDecSel(c: Config, c': Config, k: Kind, n: nat, buf: seq<byte>, cur: Cur)
    requires SameReader(c, c') && Inside(cur, buf)
    ensures DecElements(c, k, n, buf, cur) == DecElements(c', k, n, buf, cur)
    decreases n
  {
    hide DecPrim;
    if n > 0 {
      PrimSel(c, c', k, buf, cur);
      var d := DecPrim(c, k, buf, cur);
      if d.Ok? { ElementsDecSel(c, c', k, n - 1, buf, d.cur); }
    }
  }

  lemma HeaderSel(c: Config, c': Config, buf: seq<byte>, cur: Cur)
    requires SameReader(c, c') && Inside(cur, buf)
    ensures DecHeader1(c, buf, cur) == DecHeader1(c', buf, cur) && DecHeader2(c, buf, cur) == DecHeader2(c', buf, cur)
  {
    hide Pad, DecHeader1, DecU32, CodedSize;
    Header1Sel(c, c', buf, cur);
    PrimSel(c, c', K1, buf, cur);
    var word := DecU32(c, buf, cur);
    if word.Ok? { PrimSel(c, c', K1, buf, word.cur); }
  }

  lemma Header1Sel(c: Config, c': Config, buf: seq<byte>, cur: Cur)
    requires SameReader(c, c') && Inside(cur, buf)
    ensures DecHeader1(c, buf, cur) == DecHeader1(c', buf, cur)
  {
    hide Pad, DecHeader1, DecPrim, DecTail1;
    Header1Parts(c, buf, cur);
    Header1Parts(c', buf, cur);
    var pad := Pad(cur.rel, 4);
    if cur.off + pad <= |buf| {
      PrimSel(c, c', K2, buf, Cur(cur.off + pad, cur.rel + pad));
      var word := DecPrim(c, K2, buf, Cur(cur.off + pad, cur.rel + pad));
      if word.Ok? { TailSel(c, c', word.value, buf, word.cur); }
    }
  }

  lemma TailSel(c: Config, c': Config, w: nat, buf: seq<byte>, cur: Cur)
    requires SameReader(c, c') && Inside(cur, buf)
    ensures DecTail1(c, w, buf, cur) == DecTail1(c', w, buf, cur)
  {
    hide DecPrim, DecExtended1;
    PrimSel(c, c', K2, buf, cur);
    var size := DecPrim(c, K2, buf, cur);
    if size.Ok? { ExtendedSel(c, c', w / 0x4000 % 2 == 1, buf, size.cur); }
  }

  lemma ExtendedSel(c: Config, c': Config, must: bool, buf: seq<byte>, cur: Cur)
    requires SameReader(c, c') && Inside(cur, buf)
    ensures DecExtended1(c, must, buf, cur) == DecExtended1(c', must, buf, cur)
  {
    hide Pad, DecU32;
    PrimSel(c, c', K1, buf, cur);
    var id := DecU32(c, buf, cur);
    if id.Ok? { PrimSel(c, c', K1, buf, id.cur); }
  }

  lemma {:induction false} DecodeSel(c: Config, c': Config, t: Type, buf: seq<byte>, cur: Cur)
    requires SameReader(c, c') && Inside(cur, buf)
    ensures Decode(c, t, buf, cur) == Decode(c', t, buf, cur)
    decreases Height(t), 0, 2
  {
    hide Pad, DecPrim, DecStr, DecU32, DecElements, DecSeq1, DecSeq2, DecDelimited, DecMutable2, Loop1, DecFields;
    PrimSel(c, c', K1, buf, cur);
    match t
    case TPrim(k) => PrimSel(c, c', k, buf, cur);
    case TStr =>
    case TWStr =>
      var n := DecU32(c, buf, cur);
      if n.Ok? { ElementsDecSel(c, c', K2, n.value, buf, n.cur); }
    case TSeqPrim(k) =>
      var n := DecU32(c, buf, cur);
      if n.Ok? { ElementsDecSel(c, c', k, n.value, buf, n.cur); }
    case TSeq(e) => if c.v2 { Seq2Sel(c, c', e, buf, cur); } else { Seq1Sel(c, c', e, buf, cur); }
    case TStruct(ext, fs) =>
      if !c.v2 {
        if ext == Mutable { Loop1Sel(c, c', fs, buf, cur, DefaultMembers(fs)); }
        else { FieldsSel(c, c', fs, buf, cur, |buf|); }
      } else {
        match ext
        case Final => FieldsSel(c, c', fs, buf, cur, |buf|);
        case Appendable => DelimitedSel(c, c', fs, buf, cur);
        case Mutable => MutableSel(c, c', fs, buf, cur);
      }
  }

  lemma {:induction false} Seq2Sel(c: Config, c': Config, e: Type, buf: seq<byte>, cur: Cur)
    requires SameReader(c, c') && Inside(cur, buf) && c.v2
    ensures DecSeq2(c, e, buf, cur) == DecSeq2(c', e, buf, cur)
    decreases Height(e) + 1, 0, 1
  {
    hide DecU32, DecSeq2, DecCounted2, Pad;
    Seq2Parts(c, e, buf, cur);
    Seq2Parts(c', e, buf, cur);
    PrimSel(c, c', K1, buf, cur);
    var dh := DecU32(c, buf, cur);
    if dh.Ok? { CountedSel(c, c', e, dh.value, buf, dh.cur); }
  }

  lemma {:induction false} CountedSel(c: Config, c': Config, e: Type, dh: nat, buf: seq<byte>, start: Cur)
    requires SameReader(c, c') && Inside(start, buf)
    ensures DecCounted2(c, e, dh, buf, start) == DecCounted2(c', e, dh, buf, start)
    decreases Height(e) + 1, 0, 0
  {
    hide DecU32, DecItems, Pad;
    PrimSel(c, c', K1, buf, start);
    var n := DecU32(c, buf, start);
    if n.Ok? { ItemsSel(c, c', e, n.value, buf, n.cur, start.off + dh); }
  }

  lemma {:induction false} Seq1Sel(c: Config, c': Config, e: Type, buf: seq<byte>, cur: Cur)
    requires SameReader(c, c') && Inside(cur, buf) && !c.v2
    ensures DecSeq1(c, e, buf, cur) == DecSeq1(c', e, buf, cur)
    decreases Height(e) + 1, 0, 0
  {
    hide DecU32, DecItems, Pad;
    PrimSel(c, c', K1, buf, cur);
    var n := DecU32(c, buf, cur);
    if n.Ok? { ItemsSel(c, c', e, n.value, buf, n.cur, |buf| + 1); }
  }

  lemma {:induction false} ItemsSel(c: Config, c': Config, e: Type, n: nat, buf: seq<byte>, cur: Cur, stop: nat)
    requires SameReader(c, c') && Inside(cur, buf)
    ensures DecItems(c, e, n, buf, cur, stop) == DecItems(c', e, n, buf, cur, stop)
    decreases Height(e), n, 2
  {
    hide Decode;
    if n > 0 && cur.off < stop {
      DecodeSel(c, c', e, buf, cur);
      var d := Decode(c, e, buf, cur);
      if d.Ok? { ItemsSel(c, c', e, n - 1, buf, d.cur, stop); }
    }
  }

  lemma {:induction false} FieldsSel(c: Config, c': Config, fs: Fields, buf: seq<byte>, cur: Cur, stop: nat)
    requires SameReader(c, c') && Inside(cur, buf)
    ensures DecFields(c, fs, buf, cur, stop) == DecFields(c', fs, buf, cur, stop)
    decreases FieldsHeight(fs), 0, 1
  {
    hide DecSlot;
    if fs.FCons? && cur.off < stop {
      SlotSel(c, c', fs.opt, fs.ty, buf, cur);
      var d := DecSlot(c, fs.opt, fs.ty, buf, cur);
      if d.Ok? { FieldsSel(c, c', fs.rest, buf, d.cur, stop); }
    }
  }

  lemma {:induction false} SlotSel(c: Config, c': Config, opt: bool, ty: Type, buf: seq<byte>, cur: Cur)
    requires SameReader(c, c') && Inside(cur, buf)
    ensures DecSlot(c, opt, ty, buf, cur) == DecSlot(c', opt, ty, buf, cur)
    decreases Height(ty), 0, 3
  {
    hide Decode, DecPrim, DecHeader1;
    if !opt {
      DecodeSel(c, c', ty, buf, cur);
    } else if c.v2 {
      PrimSel(c, c', KBool, buf, cur);
      var d := DecPrim(c, KBool, buf, cur);
      if d.Ok? { DecodeSel(c, c', ty, buf, d.cur); }
    } else {
      HeaderSel(c, c', buf, cur);
      var d := DecHeader1(c, buf, cur);
      if d.Ok? { DecodeSel(c, c', ty, buf, d.cur); }
    }
  }

  lemma {:induction false} DelimitedSel(c: Config, c': Config, fs: Fields, buf: seq<byte>, cur: Cur)
    requires SameReader(c, c') && Inside(cur, buf) && c.v2
    ensures DecDelimited(c, fs, buf, cur) == DecDelimited(c', fs, buf, cur)
    decreases FieldsHeight(fs), 0, 2
  {
    hide DecU32, DecFields, Pad;
    PrimSel(c, c', K1, buf, cur);
    var dh := DecU32(c, buf, cur);
    if dh.Ok? { FieldsSel(c, c', fs, buf, dh.cur, dh.cur.off + dh.value); }
  }

  lemma {:induction false} MutableSel(c: Config, c': Config, fs: Fields, buf: seq<byte>, cur: Cur)
    requires SameReader(c, c') && Inside(cur, buf) && c.v2
    ensures DecMutable2(c, fs, buf, cur) == DecMutable2(c', fs, buf, cur)
    decreases FieldsHeight(fs), |buf| + 1, 0
  {
    hide DecU32, Loop2, Pad;
    PrimSel(c, c', K1, buf, cur);
    var dh := DecU32(c, buf, cur);
    if dh.Ok? { Loop2Sel(c, c', fs, buf, dh.cur, dh.cur.off + dh.value, DefaultMembers(fs)); }
  }

  lemma {:induction false} Loop2Sel(c: Config, c': Config, fs: Fields, buf: seq<byte>, cur: Cur, end: nat, acc: Members)
    requires SameReader(c, c') && Inside(cur, buf) && c.v2
    ensures Loop2(c, fs, buf, cur, end, acc) == Loop2(c', fs, buf, cur, end, acc)
    decreases FieldsHeight(fs), |buf| - cur.off, 1
  {
    hide DecHeader2, RoundBody;
    if cur.off < end {
      HeaderSel(c, c', buf, cur);
      var h := DecHeader2(c, buf, cur);
      if h.Ok? { BodySel(c, c', fs, buf, h.cur, h.value, acc); }
      var d := Round2(c, fs, buf, cur, acc);
      if d.Ok? { Loop2Sel(c, c', fs, buf, d.cur, end, d.value); }
    }
  }

  lemma {:induction false} BodySel(c: Config, c': Config, fs: Fields, buf: seq<byte>, cur: Cur, h: Header, acc: Members)
    requires SameReader(c, c') && Inside(cur, buf)
    ensures RoundBody(c, fs, buf, cur, h, acc) == RoundBody(c', fs, buf, cur, h, acc)
    decreases FieldsHeight(fs), 0, 0
  {
    hide Decode;
    var f := FindField(fs, h.id);
    if f.Some? { DecodeSel(c, c', f.value.ty, buf, cur); }
  }

  lemma {:induction false} Loop1Sel(c: Config, c': Config, fs: Fields, buf: seq<byte>, cur: Cur, acc: Members)
    requires SameReader(c, c') && Inside(cur, buf) && !c.v2
    ensures Loop1(c, fs, buf, cur, acc) == Loop1(c', fs, buf, cur, acc)
    decreases FieldsHeight(fs), |buf| - cur.off, 1
  {
    hide DecHeader1, RoundBody;
    HeaderSel(c, c', buf, cur);
    var h := DecHeader1(c, buf, cur);
    if h.Ok? && h.value.Member? {
      BodySel(c, c', fs, buf, h.cur, h.value.h, acc);
      var d := RoundBody(c, fs, buf, h.cur, h.value.h, acc);
      if d.Ok? && h.value.h.size == d.cur.off - h.cur.off { Loop1Sel(c, c', fs, buf, d.cur, d.value); }
    }
  }

  // ---------------------------------------------------------------- writer to reader

  /** A message: the encapsulation, and the cells of the value with the origin behind it. */
  ghost predicate Carries(buf: seq<byte>, flag: Algorithm, c: Config, v: Value) {
    && Holds(buf, 0, Raw(EncapsulationBytes(Encapsulation(flag, c.little, (0, 0)))))
    && Holds(buf, 4, Enc(c, v, 0).cells)
  }

  /** What a reader of type `t` makes of a message. */
  ghost function Message(buf: seq<byte>, t: Type): Res<Value> {
    if |buf| < 4 then Err
    else
      match ParseEncapsulation(buf[0], buf[1], buf[2], buf[3])
      case None => Err
      case Some(e) => Decode(Config(IsV2(e.flag), e.little, AutoShort), t, buf, Cur(4, 0))
  }

  /** A reader that knows nothing but its type obtains its view of what was written. */
  lemma MessageRead(buf: seq<byte>, flag: Algorithm, c: Config, v: Value, t: Type)
    requires Carries(buf, flag, c, v) && IsV2(flag) == c.v2
    requires Writable(c, v) && Reads(c, false, t, v) && |Enc(c, v, 0).cells| < TWO_32
    ensures Message(buf, t) == Ok(View(t, v), After(Cur(4, 0), Enc(c, v, 0)))
  {
    hide Decode, Enc, Writable, Reads, View, ParseEncapsulation;
    var e := Encapsulation(flag, c.little, (0, 0));
    HoldsRaw(buf, 0, EncapsulationBytes(e));
    assert buf[0..4] == [buf[0], buf[1], buf[2], buf[3]];
    EncapsulationRoundTrip(e, buf[0], buf[1], buf[2], buf[3]);
    ReadValue(c, t, v, buf, Cur(4, 0));
    DecodeSel(c, Config(c.v2, c.little, AutoShort), t, buf, Cur(4, 0));
  }

  /** Of the readers that differ from the writer in a tolerable way, those accept a message that know what they must. */
  lemma MessageAcceptedIff(buf: seq<byte>, flag: Algorithm, c: Config, v: Value, t: Type)
    requires Carries(buf, flag, c, v) && IsV2(flag) == c.v2
    requires Writable(c, v) && Reads(c, true, t, v) && |Enc(c, v, 0).cells| < TWO_32
    ensures Message(buf, t).Ok? <==> Reads(c, false, t, v)
  {
    hide Decode, Enc, Writable, Reads, View, ParseEncapsulation;
    var e := Encapsulation(flag, c.little, (0, 0));
    HoldsRaw(buf, 0, EncapsulationBytes(e));
    assert buf[0..4] == [buf[0], buf[1], buf[2], buf[3]];
    EncapsulationRoundTrip(e, buf[0], buf[1], buf[2], buf[3]);
    AcceptedIff(c, t, v, buf, Cur(4, 0));
    DecodeSel(c, Config(c.v2, c.little, AutoShort), t, buf, Cur(4, 0));
  }

  /**
   Writes a message on a host of either byte order, into a given block or into a buffer of the codec's own that starts
   empty and grows on the way.
   */
  method Send(v: Value, flag: Algorithm, little: bool, sel: HeaderSelection, hostLittle: bool, own: bool, room: seq<byte>)
      returns (buf: Option<seq<byte>>)
    requires var c := Config(IsV2(flag), little, sel);
      Writable(c, v) && (Elastic(c, v) || (!own && 4 + Peak(c, v, 0) <= |room|))
    ensures var c := Config(IsV2(flag), little, sel);
      && (buf.Some? <==> Permits(c, v) && (own || 4 + Peak(c, v, 0) <= |room|))
      && (buf.Some? ==> Carries(buf.value, flag, c, v) && |buf.value| == 4 + |Enc(c, v, 0).cells|)
  {
    hide Enc, Peak, Writable, Holds, Kept, Raw, Elastic, Permits, Pad;
    var cdr, ok := Address(flag, little, hostLittle, own, room);
    if !ok { return None; }
    var buffer := cdr.buffer;
    ghost var mid := buffer.bytes;
    ghost var head := Raw(EncapsulationBytes(Encapsulation(flag, little, (0, 0))));
    ok := SerializeValue(cdr, v, sel);
    if !ok { return None; }
    HoldsKept(mid, buffer.bytes, 4, 0, head);
    buf := Some(buffer.bytes[..cdr.offset]);
    HoldsPrefix(buffer.bytes, cdr.offset, 0, head);
    HoldsPrefix(buffer.bytes, cdr.offset, 4, Enc(Config(IsV2(flag), little, sel), v, 0).cells);
  }

  /** A codec with the encapsulation written. */
  method Address(flag: Algorithm, little: bool, hostLittle: bool, own: bool, room: seq<byte>) returns (cdr: Cdr, ok: bool)
    ensures fresh(cdr) && fresh(cdr.buffer) && cdr.buffer.internal == own && ok == (own || 4 <= |room|)
    ensures ok ==> Ready(cdr) && cdr.offset == cdr.origin == 4 && cdr.v2 == IsV2(flag) && cdr.Order() == little
    ensures ok ==> Holds(cdr.buffer.bytes, 0, Raw(EncapsulationBytes(Encapsulation(flag, little, (0, 0)))))
    ensures !own ==> |cdr.buffer.bytes| == |room|
  {
    hide Holds, Kept, Raw, Pad;
    var buffer;
    if own { buffer := new FastBuffer.Internal(); } else { buffer := new FastBuffer.User(room); }
    cdr := new Cdr(buffer, hostLittle, little, IsV2(flag));
    ok := cdr.SetEncodingFlag(flag);
    ok := cdr.SerializeEncapsulation();
  }

  lemma HoldsPrefix(buf: seq<byte>, n: nat, at: nat, cells: Cells)
    requires n <= |buf| && Holds(buf, at, cells) && at + |cells| <= n
    ensures Holds(buf[..n], at, cells)
  {
  }

  /** Reads a message with a reader on a host of either byte order that starts out in XCDRv2 and its own order. */
  method Receive(buf: seq<byte>, t: Type, hostLittle: bool) returns (r: Option<Value>)
    ensures r == match Message(buf, t) case Err => None case Ok(v, _) => Some(v)
  {
    hide Decode, ParseEncapsulation;
    var buffer := new FastBuffer.User(buf);
    var cdr := new Cdr(buffer, hostLittle, hostLittle, true);
    var ok := cdr.ReadEncapsulation();
    if !ok { return None; }
    r := DeserializeValue(cdr, t);
  }

  /**
   Writing on one host and reading on another: for both versions, both byte orders, every header selection and
   every pair of types that go together, into a block or a growing buffer, the reader obtains its view of the written
   value whenever the message could be written.
   */
  method Transfer(v: Value, t: Type, flag: Algorithm, little: bool, sel: HeaderSelection,
                  writerHost: bool, readerHost: bool, own: bool, room: seq<byte>) returns (r: Option<Value>)
    requires var c := Config(IsV2(flag), little, sel);
      && Writable(c, v) && Reads(c, false, t, v) && |Enc(c, v, 0).cells| < TWO_32
      && (Elastic(c, v) || (!own && 4 + Peak(c, v, 0) <= |room|))
    ensures var c := Config(IsV2(flag), little, sel);
      r == if Permits(c, v) && (own || 4 + Peak(c, v, 0) <= |room|) then Some(View(t, v)) else None
  {
    hide Enc, Peak, Writable, Reads, View, Carries, Message, Elastic, Permits;
    var buf := Send(v, flag, little, sel, writerHost, own, room);
    if buf.None? { return None; }
    MessageRead(buf.value, flag, Config(IsV2(flag), little, sel), v, t);
    r := Receive(buf.value, t, readerHost);
  }

  /**
   In XCDRv2 a payload of the calculated size has room for all the encoder reaches exactly if the drift is not negative.
   Where it has not, no test on the way notices it: see `ShortPayload`.
   */
  lemma PayloadSuffices2(c: Config, v: Value)
    requires c.v2 && c.sel == AutoShort && Writable(c, v) && Dense(c, v)
    ensures Peak(c, v, 0) <= Calc(c, v, 0, NoNext).size <==> Drift(c, v) >= 0
  {
    hide Enc, Peak, Calc, Drift, Writable, Dense;
    SizeOff2(c, v);
    PeakExact(c, v, 0);
  }

  /** In XCDRv1 it has exactly if every header is lean. */
  lemma PayloadSuffices1(c: Config, v: Value)
    requires !c.v2 && c.sel == AutoShort && Dense(c, v)
    ensures Peak(c, v, 0) <= Calc(c, v, 0, NoNext).size <==> Lean(c, v)
  {
    hide Enc, Peak, Calc, Lean, Dense;
    SizeExact1(c, v);
    PeakExact(c, v, 0);
  }

  /**
   An optional member of 6 bytes in a mutable struct: the payload has 18 bytes and the message 22. The header stands at 8
   with 10 bytes from there on, the guard passes, and the body would end at 22.
   */
  lemma ShortPayload(c: Config, n: nat)
    requires c.v2 && c.sel == AutoShort && InKind(K2, n)
    ensures var v := Struct(Mutable, MCons(1, false, Present(SeqPrim(K2, [n])), MNil));
      && Writable(c, v) && Dense(c, v) && Drift(c, v) == -4
      && 4 + Calc(c, v, 0, NoNext).size == 18 && 4 + Peak(c, v, 0) == 22
    ensures |Enc(c, SeqPrim(K2, [n]), 0).cells| == 6 && GuardPasses(18 - 8, 6, 7)
  {
    hide Enc, Peak, Calc, Drift, Writable, Dense;
    var v := Struct(Mutable, MCons(1, false, Present(SeqPrim(K2, [n])), MNil));
    SixBytes(c, n);
    Shortfall(c, n);
    SizeOff2(c, v);
    PeakExact(c, v, 0);
  }

  /**
   Calculates the size of a message, makes a payload of it and writes the message there. In XCDRv2 the drift is what the
   payload has to spare; in XCDRv1 it has nothing to spare where the calculator is exact but for headers.
   */
  method Publish(v: Value, flag: Algorithm, little: bool, hostLittle: bool) returns (buf: seq<byte>, size: int)
    requires var c := Config(IsV2(flag), little, AutoShort);
      Writable(c, v) && if c.v2 then Dense(c, v) && Drift(c, v) >= 0 else Lean(c, v)
    ensures var c := Config(IsV2(flag), little, AutoShort);
      && Carries(buf, flag, c, v) && |buf| <= size
      && (Dense(c, v) ==> size == |buf| + if c.v2 then Drift(c, v) else 0)
  {
    hide Enc, Peak, Writable, Drift, Dense, Lean, Calc, Carries, Elastic, Permits;
    ghost var c := Config(IsV2(flag), little, AutoShort);
    var calculator := new Calculator(IsV2(flag), little);
    var body, after := calculator.CalculateValue(v, 0);
    size := 4 + body;
    if c.v2 { SizeOff2(c, v); } else { SizeBound1(c, v); }
    if !c.v2 && Dense(c, v) { SizeExact1(c, v); }
    PeakExact(c, v, 0);
    PermitsAuto(c, v);
    var room := Uninitialised(4 + body);
    var sent := Send(v, flag, little, AutoShort, hostLittle, false, room);
    buf := sent.value;
  }
}
