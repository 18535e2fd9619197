/** Reading a whole value with the codec object, as generated code does, gives what the decoding function gives. */
module Deserializer {
  import opened Layout
  import opened Schema
  import opened Encoding
  import opened Decoding
  import opened Cdrs
  import opened Serializer

  /** A codec over a user's buffer, or in XCDRv2 over one of its own, which a jump may reallocate. */
  ghost predicate Listening(cdr: Cdr)
    reads cdr, cdr.buffer
  {
    cdr.Valid() && (cdr.buffer.internal ==> cdr.v2)
  }

  /** A read may have made the codec reallocate a buffer of its own, but no other. */
  twostate predicate Moved(cdr: Cdr)
    reads cdr, cdr.buffer
  {
    && Listening(cdr) && old(cdr.buffer.generation) <= cdr.buffer.generation
    && (InPlace(cdr) ==> cdr.buffer.bytes == old(cdr.buffer.bytes))
    && (!cdr.buffer.internal ==> InPlace(cdr))
  }

  /** No jump has made the codec reallocate its buffer. */
  twostate predicate InPlace(cdr: Cdr)
    reads cdr, cdr.buffer
  {
    cdr.buffer.generation == old(cdr.buffer.generation)
  }

  /** The cursor has not gone back, and in XCDRv2 the origin has not moved. */
  twostate predicate Onward(cdr: Cdr)
    reads cdr
  {
    old(cdr.offset) <= cdr.offset && (cdr.v2 ==> cdr.origin == old(cdr.origin))
  }

  /**
   A read has ended. Unless a jump has reallocated the buffer, it has ended as `d` says; and if it succeeded nothing has
   changed but the position.
   */
  twostate predicate Read<T>(cdr: Cdr, new d: Res<T>, new r: Option<T>)
    reads cdr, cdr.buffer
  {
    && Moved(cdr) && (InPlace(cdr) ==> cdr.Got(d, r))
    && (r.Some? ==> SettingsOf(cdr) == old(SettingsOf(cdr)) && Onward(cdr))
  }

  /** The same, but for the pending identifier. */
  twostate predicate ReadMembers(cdr: Cdr, new d: Res<Members>, new r: Option<Members>)
    reads cdr, cdr.buffer
  {
    && Moved(cdr) && (InPlace(cdr) ==> cdr.Got(d, r))
    && (r.Some? ==> SettingsOf(cdr).(nextId := 0) == old(SettingsOf(cdr)).(nextId := 0) && Onward(cdr))
  }

  // ---------------------------------------------------------------- values

  /**
   Reads a value of any type from arbitrary bytes: it succeeds exactly when the decoding function does, with the same
   value and the same cursor and origin, and then the algorithm and the pending identifier are the caller's again. Over a
   buffer of the codec's own this holds as long as no jump makes it reallocate the buffer.
   */
  method DeserializeValue(cdr: Cdr, t: Type) returns (r: Option<Value>)
    requires Listening(cdr)
    modifies cdr, cdr.buffer
    ensures Read(cdr, Decode(old(cdr.Cfg(AutoShort)), t, old(cdr.buffer.bytes), old(cdr.Here())), r)
    decreases Height(t), 0, 1
  {
    hide Pad, DecPrim, DecStr, DecWStr, DecSeqPrim, DecSeq1, DecSeq2, DecMutable2, DecDelimited, DecFields, Loop1;
    match t
    case TPrim(k) =>
      var x := cdr.DeserializePrim(k);
      r := if x.None? then None else Some(Prim(k, x.value));
    case TStr =>
      var x := cdr.ReadString();
      r := if x.None? then None else Some(Str(x.value));
    case TWStr =>
      var x := cdr.ReadWString();
      r := if x.None? then None else Some(WStr(x.value));
    case TSeqPrim(k) =>
      var x := cdr.DeserializeSeqPrim(k);
      r := if x.None? then None else Some(SeqPrim(k, x.value));
    case TSeq(e) =>
      if cdr.v2 { r := DeserializeSeq2(cdr, e); } else { r := DeserializeSeq1(cdr, e); }
    case TStruct(ext, fs) =>
      var ms;
      if cdr.v2 { ms := DeserializeType2(cdr, ext, fs); } else { ms := DeserializeType1(cdr, ext, fs); }
      r := if ms.None? then None else Some(Struct(ext, ms.value));
  }

  // ---------------------------------------------------------------- sequences of non-primitives

  function AppendItems(xs: seq<Value>, tail: Items): Items {
    if xs == [] then tail else ICons(xs[0], AppendItems(xs[1..], tail))
  }

  lemma {:induction false} AppendItem(xs: seq<Value>, v: Value, tail: Items)
    ensures AppendItems(xs + [v], tail) == AppendItems(xs, ICons(v, tail))
    decreases |xs|
  {
    if xs != [] {
      assert (xs + [v])[1..] == xs[1..] + [v];
      AppendItem(xs[1..], v, tail);
    }
  }

  /** The elements read so far in front of those still to be read. */
  function AfterItems(xs: seq<Value>, d: Res<Items>): Res<Items> {
    match d
    case Err => Err
    case Ok(items, cur) => Ok(AppendItems(xs, items), cur)
  }

  lemma ItemsNext(c: Config, e: Type, n: nat, buf: seq<byte>, cur: Cur, stop: nat, xs: seq<Value>)
    requires Inside(cur, buf) && n > 0 && cur.off < stop
    ensures var d := Decode(c, e, buf, cur);
      AfterItems(xs, DecItems(c, e, n, buf, cur, stop))
      == if d.Err? then Err else AfterItems(xs + [d.value], DecItems(c, e, n - 1, buf, d.cur, stop))
  {
    hide Decode;
    var d := Decode(c, e, buf, cur);
    if d.Ok? {
      var rest := DecItems(c, e, n - 1, buf, d.cur, stop);
      if rest.Ok? { AppendItem(xs, d.value, rest.value); }
    }
  }

  lemma NoMoreItems(c: Config, e: Type, n: nat, buf: seq<byte>, cur: Cur, stop: nat, xs: seq<Value>)
    requires Inside(cur, buf) && (n == 0 || cur.off >= stop)
    ensures AfterItems(xs, DecItems(c, e, n, buf, cur, stop)) == Ok(AppendItems(xs, DefaultItems(e, n)), cur)
  {
  }

  /** Fills a vector of `n` default elements from the front, until it is full or the cursor reaches `stop`. */
  method DeserializeItems(cdr: Cdr, e: Type, n: nat, stop: nat) returns (r: Option<Items>)
    requires Listening(cdr)
    modifies cdr, cdr.buffer
    ensures Read(cdr, DecItems(old(cdr.Cfg(AutoShort)), e, n, old(cdr.buffer.bytes), old(cdr.Here()), stop), r)
    decreases Height(e), 1, 0
  {
    hide Decode, DecItems, AfterItems;
    ghost var c, buf := cdr.Cfg(AutoShort), cdr.buffer.bytes;
    ghost var all := DecItems(c, e, n, buf, cdr.Here(), stop);
    var xs: seq<Value> := [];
    assert AfterItems(xs, all) == all by { NothingBefore(all); }
    while cdr.offset < stop && |xs| < n
      invariant Moved(cdr) && Onward(cdr) && SettingsOf(cdr) == old(SettingsOf(cdr)) && |xs| <= n
      invariant InPlace(cdr) ==> all == AfterItems(xs, DecItems(c, e, n - |xs|, buf, cdr.Here(), stop))
      decreases n - |xs|
    {
      if InPlace(cdr) { ItemsNext(c, e, n - |xs|, buf, cdr.Here(), stop, xs); }
      var v := DeserializeValue(cdr, e);
      if v.None? { return None; }
      xs := xs + [v.value];
    }
    if InPlace(cdr) { NoMoreItems(c, e, n - |xs|, buf, cdr.Here(), stop, xs); }
    r := Some(AppendItems(xs, DefaultItems(e, n - |xs|)));
  }

  lemma NothingBefore(d: Res<Items>)
    ensures AfterItems([], d) == d
  {
  }

  /** A sequence taken apart: the DHEADER, the count, and the elements if there are any. */
  lemma Seq2Parts(c: Config, e: Type, buf: seq<byte>, cur: Cur)
    requires c.v2 && Inside(cur, buf)
    ensures var dh := DecU32(c, buf, cur);
      DecSeq2(c, e, buf, cur) == if dh.Err? then Err else DecCounted2(c, e, dh.value, buf, dh.cur)
  {
    hide DecU32, DecItems, Pad;
  }

  function DecCounted2(c: Config, e: Type, dh: nat, buf: seq<byte>, start: Cur): Res<Value>
    requires Inside(start, buf)
  {
    match DecU32(c, buf, start)
    case Err => Err
    case Ok(n, cur1) =>
      if n == 0 then Ok(Seq(e, INil), cur1)
      else
        match DecItems(c, e, n, buf, cur1, start.off + dh)
        case Err => Err
        case Ok(items, cur2) => if cur2.off == start.off + dh then Ok(Seq(e, items), cur2) else Err
  }

  method DeserializeCounted2(cdr: Cdr, e: Type, dh: nat) returns (r: Option<Value>)
    requires Listening(cdr)
    modifies cdr, cdr.buffer
    ensures Read(cdr, DecCounted2(old(cdr.Cfg(AutoShort)), e, dh, old(cdr.buffer.bytes), old(cdr.Here())), r)
    decreases Height(e), 2, 0
  {
    hide DecU32, DecItems;
    var start := cdr.offset;
    var n := cdr.DeserializeU32();
    if n.None? { return None; }
    if n.value == 0 { return Some(Seq(e, INil)); }
    var items := DeserializeItems(cdr, e, n.value, start + dh);
    if items.None? || cdr.offset - start != dh { return None; }
    r := Some(Seq(e, items.value));
  }

  method DeserializeSeq2(cdr: Cdr, e: Type) returns (r: Option<Value>)
    requires cdr.v2 && Listening(cdr)
    modifies cdr, cdr.buffer
    ensures Read(cdr, DecSeq2(old(cdr.Cfg(AutoShort)), e, old(cdr.buffer.bytes), old(cdr.Here())), r)
    decreases Height(e) + 1, 0, 0
  {
    hide DecU32, DecSeq2, DecCounted2;
    Seq2Parts(cdr.Cfg(AutoShort), e, cdr.buffer.bytes, cdr.Here());
    var dh := cdr.DeserializeU32();
    if dh.None? { return None; }
    r := DeserializeCounted2(cdr, e, dh.value);
  }

  method DeserializeSeq1(cdr: Cdr, e: Type) returns (r: Option<Value>)
    requires !cdr.v2 && Listening(cdr)
    modifies cdr, cdr.buffer
    ensures Read(cdr, DecSeq1(old(cdr.Cfg(AutoShort)), e, old(cdr.buffer.bytes), old(cdr.Here())), r)
    ensures r == None ==> cdr.GetState().(previous := old(cdr.encoding)) == old(cdr.GetState())
    decreases Height(e) + 1, 0, 0
  {
    hide DecU32, DecCounted1, DecSeq1, Pad;
    Seq1Parts(cdr.Cfg(AutoShort), e, cdr.buffer.bytes, cdr.Here());
    var before := cdr.GetState();
    var n := cdr.DeserializeU32();
    if n.None? { return None; }
    r := DeserializeCounted1(cdr, e, n.value);
    if r.None? { cdr.SetState(before); }
  }

  function DecCounted1(c: Config, e: Type, n: nat, buf: seq<byte>, cur: Cur): Res<Value>
    requires Inside(cur, buf)
  {
    if |buf| - cur.off < n then Err
    else
      match DecItems(c, e, n, buf, cur, |buf| + 1)
      case Err => Err
      case Ok(items, cur2) => Ok(Seq(e, items), cur2)
  }

  lemma Seq1Parts(c: Config, e: Type, buf: seq<byte>, cur: Cur)
    requires !c.v2 && Inside(cur, buf)
    ensures var n := DecU32(c, buf, cur);
      DecSeq1(c, e, buf, cur) == if n.Err? then Err else DecCounted1(c, e, n.value, buf, n.cur)
  {
    hide DecU32, DecItems, Pad;
  }

  method DeserializeCounted1(cdr: Cdr, e: Type, n: nat) returns (r: Option<Value>)
    requires Listening(cdr)
    modifies cdr, cdr.buffer
    ensures Read(cdr, DecCounted1(old(cdr.Cfg(AutoShort)), e, n, old(cdr.buffer.bytes), old(cdr.Here())), r)
    decreases Height(e), 2, 0
  {
    hide DecItems, Pad;
    ghost var c, buf := cdr.Cfg(AutoShort), cdr.buffer.bytes;
    if n == 0 {
      NoMoreItems(c, e, 0, buf, cdr.Here(), |buf| + 1, []);
      NothingBefore(DecItems(c, e, 0, buf, cdr.Here(), |buf| + 1));
      return Some(Seq(e, INil));
    }
    if |cdr.buffer.bytes| - cdr.offset < n { return None; }
    var items := DeserializeItems(cdr, e, n, |cdr.buffer.bytes| + 1);
    r := if items.None? then None else Some(Seq(e, items.value));
  }

  // ---------------------------------------------------------------- plain structs

  datatype Entry = Entry(id: nat, must: bool, slot: Slot)

  function AppendMembers(xs: seq<Entry>, tail: Members): Members {
    if xs == [] then tail else MCons(xs[0].id, xs[0].must, xs[0].slot, AppendMembers(xs[1..], tail))
  }

  lemma {:induction false} AppendMember(xs: seq<Entry>, x: Entry, tail: Members)
    ensures AppendMembers(xs + [x], tail) == AppendMembers(xs, MCons(x.id, x.must, x.slot, tail))
    decreases |xs|
  {
    if xs != [] {
      assert (xs + [x])[1..] == xs[1..] + [x];
      AppendMember(xs[1..], x, tail);
    }
  }

  function AfterMembers(xs: seq<Entry>, d: Res<Members>): Res<Members> {
    match d
    case Err => Err
    case Ok(ms, cur) => Ok(AppendMembers(xs, ms), cur)
  }

  lemma NothingBeforeMembers(d: Res<Members>)
    ensures AfterMembers([], d) == d
  {
  }

  lemma FieldsNext(c: Config, fs: Fields, buf: seq<byte>, cur: Cur, stop: nat, xs: seq<Entry>)
    requires Inside(cur, buf) && fs.FCons? && cur.off < stop
    ensures var d := DecSlot(c, fs.opt, fs.ty, buf, cur);
      AfterMembers(xs, DecFields(c, fs, buf, cur, stop))
      == if d.Err? then Err
         else AfterMembers(xs + [Entry(fs.id, fs.must, d.value)], DecFields(c, fs.rest, buf, d.cur, stop))
  {
    hide DecSlot;
    var d := DecSlot(c, fs.opt, fs.ty, buf, cur);
    if d.Ok? {
      var rest := DecFields(c, fs.rest, buf, d.cur, stop);
      if rest.Ok? { AppendMember(xs, Entry(fs.id, fs.must, d.value), rest.value); }
    }
  }

  lemma NoMoreFields(c: Config, fs: Fields, buf: seq<byte>, cur: Cur, stop: nat, xs: seq<Entry>)
    requires Inside(cur, buf) && (fs.FNil? || cur.off >= stop)
    ensures AfterMembers(xs, DecFields(c, fs, buf, cur, stop)) == Ok(AppendMembers(xs, DefaultMembers(fs)), cur)
  {
  }

  /** What is left of the members to be read, if the buffer is the one they were in. */
  ghost predicate FieldsLeft(c: Config, fs: Fields, buf: seq<byte>, cur: Cur, stop: nat, xs: seq<Entry>, all: Res<Members>)
  {
    Inside(cur, buf) && all == AfterMembers(xs, DecFields(c, fs, buf, cur, stop))
  }

  /** Calls the functor with the identifiers 0, 1, 2, … until it knows no more members or the cursor reaches `stop`. */
  method DeserializeFields(cdr: Cdr, fs: Fields, stop: nat) returns (r: Option<Members>)
    requires Listening(cdr) && (cdr.encoding == PlainCdr <==> !cdr.v2)
    modifies cdr, cdr.buffer
    ensures ReadMembers(cdr, DecFields(old(cdr.Cfg(AutoShort)), fs, old(cdr.buffer.bytes), old(cdr.Here()), stop), r)
    decreases FieldsHeight(fs), 0, 2
  {
    hide DecFields, FieldsLeft, Pad;
    ghost var c, buf := cdr.Cfg(AutoShort), cdr.buffer.bytes;
    ghost var all := DecFields(c, fs, buf, cdr.Here(), stop);
    var xs: seq<Entry> := [];
    var left := fs;
    cdr.nextId := 0;
    FieldsBegin(c, fs, buf, cdr.Here(), stop);
    while cdr.offset < stop && left.FCons?
      invariant Moved(cdr) && Onward(cdr) && SettingsOf(cdr).(nextId := 0) == old(SettingsOf(cdr)).(nextId := 0)
      invariant FieldsHeight(left) <= FieldsHeight(fs)
      invariant InPlace(cdr) ==> FieldsLeft(c, left, buf, cdr.Here(), stop, xs, all)
      decreases left
    {
      var x := DeserializeField(cdr, left, stop, InPlace(cdr), xs, all);
      if x.None? { return None; }
      xs, left := xs + [x.value], left.rest;
    }
    if InPlace(cdr) { FieldsEnd(c, left, buf, cdr.Here(), stop, xs, all); }
    r := Some(AppendMembers(xs, DefaultMembers(left)));
  }

  lemma FieldsBegin(c: Config, fs: Fields, buf: seq<byte>, cur: Cur, stop: nat)
    requires Inside(cur, buf)
    ensures FieldsLeft(c, fs, buf, cur, stop, [], DecFields(c, fs, buf, cur, stop))
  {
    hide DecFields, AfterMembers;
    NothingBeforeMembers(DecFields(c, fs, buf, cur, stop));
  }

  lemma FieldsEnd(c: Config, left: Fields, buf: seq<byte>, cur: Cur, stop: nat, xs: seq<Entry>, all: Res<Members>)
    requires FieldsLeft(c, left, buf, cur, stop, xs, all) && (left.FNil? || cur.off >= stop)
    ensures all == Ok(AppendMembers(xs, DefaultMembers(left)), cur)
  {
    hide DecFields, AfterMembers;
    NoMoreFields(c, left, buf, cur, stop, xs);
  }

  /** One call of the functor, for the next identifier. */
  method DeserializeField(cdr: Cdr, left: Fields, ghost stop: nat, ghost intact: bool, ghost xs: seq<Entry>,
                          ghost all: Res<Members>) returns (x: Option<Entry>)
    requires Listening(cdr) && (cdr.encoding == PlainCdr <==> !cdr.v2) && left.FCons? && cdr.offset < stop
    requires intact ==> FieldsLeft(cdr.Cfg(AutoShort), left, cdr.buffer.bytes, cdr.Here(), stop, xs, all)
    modifies cdr, cdr.buffer
    ensures Moved(cdr)
    ensures x.None? && intact && InPlace(cdr) ==> all == Err
    ensures x.Some? ==> Onward(cdr) && SettingsOf(cdr).(nextId := 0) == old(SettingsOf(cdr)).(nextId := 0)
    ensures x.Some? && intact && InPlace(cdr) ==>
      FieldsLeft(cdr.Cfg(AutoShort), left.rest, cdr.buffer.bytes, cdr.Here(), stop, xs + [x.value], all)
    decreases FieldsHeight(left), 0, 1
  {
    hide DecSlot, DecFields, AfterMembers, Pad;
    if intact { FieldsNext(cdr.Cfg(AutoShort), left, cdr.buffer.bytes, cdr.Here(), stop, xs); }
    var slot := DeserializeSlot(cdr, left.opt, left.ty);
    if slot.None? { return None; }
    cdr.nextId := cdr.nextId + 1;
    x := Some(Entry(left.id, left.must, slot.value));
  }

  /** One member of a plain struct; an optional one has a flag in XCDRv2 and a header in XCDRv1. */
  method DeserializeSlot(cdr: Cdr, opt: bool, ty: Type) returns (r: Option<Slot>)
    requires Listening(cdr) && (cdr.encoding == PlainCdr <==> !cdr.v2)
    modifies cdr, cdr.buffer
    ensures Read(cdr, DecSlot(old(cdr.Cfg(AutoShort)), opt, ty, old(cdr.buffer.bytes), old(cdr.Here())), r)
    decreases Height(ty), 0, 3
  {
    hide Decode, DecPrim, DecHeader1, Pad;
    if !opt {
      var v := DeserializeValue(cdr, ty);
      r := if v.None? then None else Some(Req(v.value));
    } else if cdr.encoding == PlainCdr {
      r := DeserializeOptional1(cdr, ty);
    } else {
      var present := cdr.DeserializePrim(KBool);
      if present.None? { return None; }
      if present.value == 0 { return Some(Absent(ty)); }
      var v := DeserializeValue(cdr, ty);
      r := if v.None? then None else Some(Present(v.value));
    }
  }

  /** An optional member of an XCDRv1 plain struct: absent if its header announces no bytes. */
  method DeserializeOptional1(cdr: Cdr, ty: Type) returns (r: Option<Slot>)
    requires !cdr.v2 && Listening(cdr)
    modifies cdr, cdr.buffer
    ensures Read(cdr, DecSlot(old(cdr.Cfg(AutoShort)), true, ty, old(cdr.buffer.bytes), old(cdr.Here())), r)
    decreases Height(ty), 0, 2
  {
    hide Decode, DecHeader1, Pad;
    var h := ReadHeader1(cdr);
    if h.None? { return None; }
    var prev, size := cdr.offset, if h.value.End? then 0 else h.value.h.size;
    if size > 0 {
      var v := DeserializeValue(cdr, ty);
      if v.None? || size != cdr.offset - prev { return None; }
      r := Some(Present(v.value));
    } else {
      r := Some(Absent(ty));
    }
  }

  // ---------------------------------------------------------------- member headers

  method ReadHeader2(cdr: Cdr) returns (r: Option<Header>)
    requires Listening(cdr)
    modifies cdr`offset, cdr`last
    ensures Listening(cdr) && cdr.Got(DecHeader2(old(cdr.Cfg(AutoShort)), old(cdr.buffer.bytes), old(cdr.Here())), r)
  {
    hide Pad, DecU32;
    PadAfter4(cdr.offset - cdr.origin);
    var word := cdr.DeserializeU32();
    if word.None? { return None; }
    var w := word.value;
    var must, code, id := w / 0x8000_0000 % 2 == 1, w / 0x1000_0000 % 8, w % 0x1000_0000;
    if code < 4 { return Some(Header(id, must, CodedSize(code, 0), 4)); }
    var n := cdr.DeserializeU32();
    if n.None? { return None; }
    if code == 4 { return Some(Header(id, must, CodedSize(code, n.value), 8)); }
    cdr.offset := cdr.offset - 4;
    r := Some(Header(id, must, CodedSize(code, n.value), 4));
  }

  lemma HalfOnFour(c: Config, buf: seq<byte>, cur: Cur)
    requires Inside(cur, buf)
    ensures var pad := Pad(cur.rel, 4);
      DecScalar(c, 2, 4, buf, cur)
      == if cur.off + pad <= |buf| then DecPrim(c, K2, buf, Cur(cur.off + pad, cur.rel + pad)) else Err
  {
    var q := cur.rel + Pad(cur.rel, 4);
    assert Pad(q, 2) == 0;
  }

  lemma HalfIsPrim(c: Config, buf: seq<byte>, cur: Cur)
    requires Inside(cur, buf)
    ensures DecScalar(c, 2, 2, buf, cur) == DecPrim(c, K2, buf, cur)
  {
  }

  /** Identifier and size of a long header. */
  function DecExtended1(c: Config, must: bool, buf: seq<byte>, cur: Cur): Res<Parameter>
    requires Inside(cur, buf)
  {
    match DecU32(c, buf, cur)
    case Err => Err
    case Ok(mid, cur3) =>
      match DecU32(c, buf, cur3)
      case Err => Err
      case Ok(msize, cur4) => Ok(Member(Header(mid, must, msize, 12)), Cur(cur4.off, 0))
  }

  method ReadExtended1(cdr: Cdr, must: bool) returns (r: Option<Parameter>)
    requires Listening(cdr)
    modifies cdr`offset, cdr`origin, cdr`last
    ensures Listening(cdr)
    ensures cdr.Got(DecExtended1(old(cdr.Cfg(AutoShort)), must, old(cdr.buffer.bytes), old(cdr.Here())), r)
  {
    hide Pad, DecU32;
    var mid := cdr.DeserializeU32();
    if mid.None? { return None; }
    var msize := cdr.DeserializeU32();
    if msize.None? { return None; }
    cdr.ResetAlignment();
    r := Some(Member(Header(mid.value, must, msize.value, 12)));
  }

  /** What follows the first half of a header. */
  function DecTail1(c: Config, w: nat, buf: seq<byte>, cur: Cur): Res<Parameter>
    requires Inside(cur, buf)
  {
    match DecPrim(c, K2, buf, cur)
    case Err => Err
    case Ok(size, cur2) =>
      var must, id := w / 0x4000 % 2 == 1, w % 0x4000;
      if id < PID_EXTENDED then Ok(Member(Header(id, must, size, 4)), Cur(cur2.off, 0))
      else if id == PID_EXTENDED then if size != 8 then Err else DecExtended1(c, must, buf, cur2)
      else if id == PID_SENTINEL && size == 0 then Ok(End, cur2)
      else Err
  }

  /** A header taken apart: its first half on a multiple of 4, and the rest. */
  lemma Header1Parts(c: Config, buf: seq<byte>, cur: Cur)
    requires Inside(cur, buf)
    ensures var pad := Pad(cur.rel, 4);
      DecHeader1(c, buf, cur) ==
        if cur.off + pad > |buf| then Err
        else match DecPrim(c, K2, buf, Cur(cur.off + pad, cur.rel + pad))
          case Err => Err
          case Ok(w, cur1) => DecTail1(c, w, buf, cur1)
  {
    hide Pad, DecU32, DecPrim, DecScalar;
    HalfOnFour(c, buf, cur);
    var first := DecScalar(c, 2, 4, buf, cur);
    if first.Ok? { HalfIsPrim(c, buf, first.cur); }
  }

  method ReadHeader1(cdr: Cdr) returns (r: Option<Parameter>)
    requires Listening(cdr)
    modifies cdr`offset, cdr`origin, cdr`last
    ensures Listening(cdr) && cdr.Got(DecHeader1(old(cdr.Cfg(AutoShort)), old(cdr.buffer.bytes), old(cdr.Here())), r)
  {
    hide Pad, DecPrim, DecHeader1, DecExtended1;
    Header1Parts(cdr.Cfg(AutoShort), cdr.buffer.bytes, cdr.Here());
    var pad := cdr.Alignment(4);
    if cdr.offset + pad > |cdr.buffer.bytes| { return None; }
    cdr.MakeAlignment(pad);
    var word := cdr.DeserializePrim(K2);
    if word.None? { return None; }
    var must, id := word.value / 0x4000 % 2 == 1, word.value % 0x4000;
    var size := cdr.DeserializePrim(K2);
    if size.None? { return None; }
    if id < PID_EXTENDED {
      cdr.ResetAlignment();
      r := Some(Member(Header(id, must, size.value, 4)));
    } else if id == PID_EXTENDED {
      if size.value != 8 { return None; }
      r := ReadExtended1(cdr, must);
    } else {
      r := if id == PID_SENTINEL && size.value == 0 then Some(End) else None;
    }
  }

  // ---------------------------------------------------------------- mutable structs

  /** The functor's answer to a header, and a jump where it does not know the member. */
  method DeserializeMember(cdr: Cdr, fs: Fields, h: Header, acc: Members) returns (r: Option<Members>)
    requires Listening(cdr)
    modifies cdr, cdr.buffer
    ensures Read(cdr, RoundBody(old(cdr.Cfg(AutoShort)), fs, old(cdr.buffer.bytes), old(cdr.Here()), h, acc), r)
    decreases FieldsHeight(fs), 0, 0
  {
    hide Decode, SetMember;
    var f := FindField(fs, h.id);
    if f.None? {
      if h.must { return None; }
      var jumped := cdr.Jump(h.size);
      r := Some(acc);
    } else {
      var v := DeserializeValue(cdr, f.value.ty);
      if v.None? { return None; }
      r := Some(SetMember(acc, h.id, if f.value.opt then Present(v.value) else Req(v.value)));
    }
  }

  /** Distance to the next multiple of 4 of a saved position: `alignment_on_state`. */
  function AlignmentOnState(origin: nat, offset: nat): (r: nat)
    requires origin <= offset
    ensures r == Pad(offset - origin, 4)
  {
    MaskedPadIsPad(offset - origin, 4);
    MaskedPad(offset - origin, 4)
  }

  method DeserializeRound2(cdr: Cdr, fs: Fields, acc: Members) returns (r: Option<Members>)
    requires cdr.v2 && Listening(cdr)
    modifies cdr, cdr.buffer
    ensures ReadMembers(cdr, Round2(old(cdr.Cfg(AutoShort)), fs, old(cdr.buffer.bytes), old(cdr.Here()), acc), r)
    ensures r.Some? ==> old(cdr.offset) + 5 <= cdr.offset
    decreases FieldsHeight(fs), 0, 2
  {
    hide Pad, DecHeader2, DecSized, CacheHolds;
    Round2Parts(cdr.Cfg(AutoShort), fs, cdr.buffer.bytes, cdr.Here(), acc);
    var offset := cdr.offset;
    var h := ReadHeader2(cdr);
    if h.None? { return None; }
    cdr.nextId := h.value.id;
    r := DeserializeSized(cdr, fs, h.value, offset, acc);
  }

  /** The body of a member, of the size its header announces. */
  function DecSized(c: Config, fs: Fields, buf: seq<byte>, cur: Cur, h: Header, acc: Members): Res<Members>
    requires Inside(cur, buf)
  {
    match RoundBody(c, fs, buf, cur, h, acc)
    case Err => Err
    case Ok(acc1, cur1) => if h.size > 0 && h.size == cur1.off - cur.off then Ok(acc1, cur1) else Err
  }

  lemma Round2Parts(c: Config, fs: Fields, buf: seq<byte>, cur: Cur, acc: Members)
    requires c.v2 && Inside(cur, buf)
    ensures var h := DecHeader2(c, buf, cur);
      Round2(c, fs, buf, cur, acc) == if h.Err? then Err else DecSized(c, fs, buf, h.cur, h.value, acc)
  {
    hide DecHeader2, RoundBody, Pad;
  }

  /** The size is taken from where the header started. */
  method DeserializeSized(cdr: Cdr, fs: Fields, h: Header, offset: nat, acc: Members) returns (r: Option<Members>)
    requires cdr.v2 && Listening(cdr) && cdr.origin <= offset && (h.len == 4 || h.len == 8)
    requires cdr.offset == offset + Pad(offset - cdr.origin, 4) + h.len
    modifies cdr, cdr.buffer
    ensures Read(cdr, DecSized(old(cdr.Cfg(AutoShort)), fs, old(cdr.buffer.bytes), old(cdr.Here()), h, acc), r)
    ensures r.Some? ==> old(cdr.offset) < cdr.offset
    decreases FieldsHeight(fs), 0, 1
  {
    hide Pad, RoundBody, CacheHolds;
    r := DeserializeMember(cdr, fs, h, acc);
    if r.None? { return None; }
    var taken := cdr.offset - offset;
    if !(h.size == 0 && taken == 0) && !(0 < h.size && h.size == taken - AlignmentOnState(cdr.origin, offset) - h.len) {
      r := None;
    }
  }

  method DeserializeRounds2(cdr: Cdr, fs: Fields, end: nat) returns (r: Option<Members>)
    requires cdr.v2 && Listening(cdr)
    modifies cdr, cdr.buffer
    ensures var c, buf, cur := old(cdr.Cfg(AutoShort)), old(cdr.buffer.bytes), old(cdr.Here());
      ReadMembers(cdr, Loop2(c, fs, buf, cur, end, DefaultMembers(fs)), r)
    decreases FieldsHeight(fs), 0, 3
  {
    hide Round2;
    ghost var c, buf := cdr.Cfg(AutoShort), cdr.buffer.bytes;
    ghost var all := Loop2(c, fs, buf, cdr.Here(), end, DefaultMembers(fs));
    var acc := DefaultMembers(fs);
    while cdr.offset != end
      invariant Moved(cdr) && Onward(cdr) && SettingsOf(cdr).(nextId := 0) == old(SettingsOf(cdr)).(nextId := 0)
      invariant InPlace(cdr) ==> all == Loop2(c, fs, buf, cdr.Here(), end, acc)
      decreases end - cdr.offset
    {
      if cdr.offset > end { return None; }
      var ms := DeserializeRound2(cdr, fs, acc);
      if ms.None? { return None; }
      acc := ms.value;
    }
    r := Some(acc);
  }

  method DeserializeRounds1(cdr: Cdr, fs: Fields) returns (r: Option<Members>)
    requires !cdr.v2 && Listening(cdr)
    modifies cdr, cdr.buffer
    ensures var c, buf, cur := old(cdr.Cfg(AutoShort)), old(cdr.buffer.bytes), old(cdr.Here());
      ReadMembers(cdr, Loop1(c, fs, buf, cur, DefaultMembers(fs)), r)
    decreases FieldsHeight(fs), 0, 2
  {
    hide DecHeader1, RoundBody;
    ghost var c, buf := cdr.Cfg(AutoShort), cdr.buffer.bytes;
    ghost var all := Loop1(c, fs, buf, cdr.Here(), DefaultMembers(fs));
    var acc, more := DefaultMembers(fs), true;
    while more
      invariant Moved(cdr) && Onward(cdr)
      invariant SettingsOf(cdr).(nextId := 0) == old(SettingsOf(cdr)).(nextId := 0)
      invariant all == if more then Loop1(c, fs, buf, cdr.Here(), acc) else Ok(acc, cdr.Here())
      decreases |buf| - cdr.offset, more
    {
      var h := ReadHeader1(cdr);
      if h.None? { return None; }
      if h.value.End? {
        more := false;
      } else {
        cdr.nextId := h.value.h.id;
        var prev := cdr.offset;
        var ms := DeserializeMember(cdr, fs, h.value.h, acc);
        if ms.None? || h.value.h.size != cdr.offset - prev { return None; }
        acc := ms.value;
      }
    }
    r := Some(acc);
  }

  // ---------------------------------------------------------------- types

  method DeserializeType2(cdr: Cdr, ext: Extensibility, fs: Fields) returns (r: Option<Members>)
    requires cdr.v2 && Listening(cdr)
    modifies cdr, cdr.buffer
    ensures var c, buf, cur := old(cdr.Cfg(AutoShort)), old(cdr.buffer.bytes), old(cdr.Here());
      Read(cdr, match ext
                case Final => DecFields(c, fs, buf, cur, |buf|)
                case Appendable => DecDelimited(c, fs, buf, cur)
                case Mutable => DecMutable2(c, fs, buf, cur), r)
    decreases FieldsHeight(fs), 0, 5
  {
    hide DecFields, DecDelimited, DecMutable2;
    match ext
    case Final => r := DeserializeFinal2(cdr, fs);
    case Appendable => r := DeserializeDelimited(cdr, fs);
    case Mutable => r := DeserializeMutable2(cdr, fs);
  }

  method DeserializeFinal2(cdr: Cdr, fs: Fields) returns (r: Option<Members>)
    requires cdr.v2 && Listening(cdr)
    modifies cdr, cdr.buffer
    ensures var buf := old(cdr.buffer.bytes);
      Read(cdr, DecFields(old(cdr.Cfg(AutoShort)), fs, buf, old(cdr.Here()), |buf|), r)
    decreases FieldsHeight(fs), 0, 3
  {
    hide DecFields;
    var st := cdr.GetState();
    cdr.encoding := PlainCdr2;
    r := DeserializeFields(cdr, fs, |cdr.buffer.bytes|);
    if r.Some? { cdr.nextId, cdr.encoding := st.nextId, st.previous; }
  }

  method DeserializeDelimited(cdr: Cdr, fs: Fields) returns (r: Option<Members>)
    requires cdr.v2 && Listening(cdr)
    modifies cdr, cdr.buffer
    ensures Read(cdr, DecDelimited(old(cdr.Cfg(AutoShort)), fs, old(cdr.buffer.bytes), old(cdr.Here())), r)
    decreases FieldsHeight(fs), 0, 4
  {
    hide DecU32, DecDelimited, DecExtent;
    DelimitedParts(cdr.Cfg(AutoShort), fs, cdr.buffer.bytes, cdr.Here());
    var dh := cdr.DeserializeU32();
    if dh.None? { return None; }
    r := DeserializeExtent(cdr, fs, cdr.offset + dh.value);
  }

  /** The members in an extent, and the jump to its end. */
  function DecExtent(c: Config, fs: Fields, buf: seq<byte>, start: Cur, end: nat): Res<Members>
    requires Inside(start, buf)
  {
    match DecFields(c, fs, buf, start, end)
    case Err => Err
    case Ok(ms, cur1) => Ok(ms, Landed(buf, cur1, end))
  }

  /** Where a jump to `end` leads from `cur`. */
  function Landed(buf: seq<byte>, cur: Cur, end: nat): Cur
    requires Inside(cur, buf)
  {
    if cur.off <= end then Jump(buf, cur, end - cur.off) else cur
  }

  lemma DelimitedParts(c: Config, fs: Fields, buf: seq<byte>, cur: Cur)
    requires c.v2 && Inside(cur, buf)
    ensures var dh := DecU32(c, buf, cur);
      DecDelimited(c, fs, buf, cur) == if dh.Err? then Err else DecExtent(c, fs, buf, dh.cur, dh.cur.off + dh.value)
  {
    hide DecU32, DecFields, Pad;
  }

  method DeserializeExtent(cdr: Cdr, fs: Fields, end: nat) returns (r: Option<Members>)
    requires cdr.v2 && Listening(cdr) && cdr.offset <= end
    modifies cdr, cdr.buffer
    ensures Read(cdr, DecExtent(old(cdr.Cfg(AutoShort)), fs, old(cdr.buffer.bytes), old(cdr.Here()), end), r)
    decreases FieldsHeight(fs), 0, 3
  {
    hide DecFields, Landed;
    var st := cdr.GetState();
    cdr.encoding := DelimitCdr2;
    r := DeserializeFields(cdr, fs, end);
    if r.Some? {
      JumpTo(cdr, end);
      cdr.nextId, cdr.encoding := st.nextId, st.previous;
    }
  }

  /**
   A jump to the end of an extent. An overshoot makes the distance wrap to a huge one: for a user's buffer the jump does
   nothing, while a buffer of the codec's own loses as many bytes at its end and the cursor goes back.
   */
  method JumpTo(cdr: Cdr, end: nat)
    requires Listening(cdr) && cdr.origin <= end
    modifies cdr`offset, cdr`last, cdr.buffer
    ensures Moved(cdr) && (InPlace(cdr) ==> cdr.Here() == Landed(cdr.buffer.bytes, old(cdr.Here()), end))
    ensures old(cdr.offset) <= end ==> old(cdr.offset) <= cdr.offset
    ensures old(cdr.offset) > end ==>
      if cdr.buffer.internal
      then cdr.offset == end && cdr.buffer.bytes == old(cdr.buffer.bytes)[..|old(cdr.buffer.bytes)| - (old(cdr.offset) - end)]
      else cdr.offset == old(cdr.offset)
  {
    var jumped;
    if cdr.offset <= end { jumped := cdr.Jump(end - cdr.offset); } else { jumped := cdr.JumpBack(cdr.offset - end); }
  }

  method DeserializeMutable2(cdr: Cdr, fs: Fields) returns (r: Option<Members>)
    requires cdr.v2 && Listening(cdr)
    modifies cdr, cdr.buffer
    ensures Read(cdr, DecMutable2(old(cdr.Cfg(AutoShort)), fs, old(cdr.buffer.bytes), old(cdr.Here())), r)
    decreases FieldsHeight(fs), 0, 4
  {
    hide Pad, DecU32, Loop2;
    var dh := cdr.DeserializeU32();
    if dh.None? { return None; }
    var st := cdr.GetState();
    cdr.encoding := PlCdr2;
    r := DeserializeRounds2(cdr, fs, st.offset + dh.value);
    if r.Some? { cdr.nextId, cdr.encoding := st.nextId, st.previous; }
  }

  method DeserializeType1(cdr: Cdr, ext: Extensibility, fs: Fields) returns (r: Option<Members>)
    requires !cdr.v2 && Listening(cdr)
    modifies cdr, cdr.buffer
    ensures var c, buf, cur := old(cdr.Cfg(AutoShort)), old(cdr.buffer.bytes), old(cdr.Here());
      Read(cdr, if ext == Mutable then Loop1(c, fs, buf, cur, DefaultMembers(fs)) else DecFields(c, fs, buf, cur, |buf|), r)
    decreases FieldsHeight(fs), 0, 3
  {
    hide Pad, DecFields, Loop1;
    var st := cdr.GetState();
    cdr.encoding := AlgorithmOf(false, ext);
    if ext == Mutable {
      r := DeserializeRounds1(cdr, fs);
    } else {
      r := DeserializeFields(cdr, fs, |cdr.buffer.bytes|);
    }
    if r.Some? {
      cdr.nextId, cdr.encoding := st.nextId, st.previous;
    }
  }
}
