/** Whole-type consequences of the main theorem. */
module Results {
  import opened Layout
  import opened Schema
  import opened Encoding
  import opened Decoding
  import opened Evolution
  import opened Theorem

  // ---------------------------------------------------------------- reading with the writer's own type

  /** Every element of a sequence is of the sequence's element type. */
  predicate WellTyped(v: Value)
    decreases v
  {
    match v
    case Seq(e, items) => WellTypedItems(e, items)
    case Struct(_, ms) => WellTypedMembers(ms)
    case _ => true
  }

  predicate WellTypedItems(e: Type, items: Items)
    decreases items
  {
    match items
    case INil => true
    case ICons(v, rest) => TypeOf(v) == e && WellTyped(v) && WellTypedItems(e, rest)
  }

  predicate WellTypedMembers(ms: Members)
    decreases ms
  {
    match ms
    case MNil => true
    case MCons(_, _, slot, rest) => (!slot.Absent? ==> WellTyped(slot.v)) && WellTypedMembers(rest)
  }

  /** No string holds a zero byte, and no wide one a zero or a character beyond 16 bits. */
  predicate NulFree(v: Value)
    decreases v
  {
    match v
    case Str(s) => forall i :: 0 <= i < |s| ==> s[i] != 0
    case WStr(s) => Narrow(s)
    case Seq(_, items) => NulFreeItems(items)
    case Struct(_, ms) => NulFreeMembers(ms)
    case _ => true
  }

  predicate NulFreeItems(items: Items)
    decreases items
  {
    match items
    case INil => true
    case ICons(v, rest) => NulFree(v) && NulFreeItems(rest)
  }

  predicate NulFreeMembers(ms: Members)
    decreases ms
  {
    match ms
    case MNil => true
    case MCons(_, _, slot, rest) => (!slot.Absent? ==> NulFree(slot.v)) && NulFreeMembers(rest)
  }

  lemma {:induction false} ViewSame(c: Config, v: Value)
    requires WellTyped(v) && Writable(c, v)
    ensures View(TypeOf(v), v) == v <==> NulFree(v)
    decreases v
  {
    match v
    case WStr(s) => NarrowIff(s);
    case Seq(e, items) => ViewSameItems(c, e, items);
    case Struct(ext, ms) =>
      if ext == Mutable { ViewSameMutable(c, ms); } else { ViewSamePlain(c, ext, ms); }
    case _ =>
  }

  lemma {:induction false} ViewSameItems(c: Config, e: Type, items: Items)
    requires WellTypedItems(e, items) && WritableItems(c, items)
    ensures ViewItems(e, items) == items <==> NulFreeItems(items)
    decreases items
  {
    match items
    case INil =>
    case ICons(v, rest) =>
      ViewSame(c, v);
      ViewSameItems(c, e, rest);
  }

  lemma {:induction false} ViewSamePlain(c: Config, ext: Extensibility, ms: Members)
    requires WellTypedMembers(ms) && WritableMembers(c, ext, ms)
    ensures ViewPlain(FieldsOf(ms), ms) == ms <==> NulFreeMembers(ms)
    decreases ms
  {
    match ms
    case MNil =>
    case MCons(_, _, slot, rest) =>
      if !slot.Absent? { ViewSame(c, slot.v); }
      ViewSamePlain(c, ext, rest);
  }

  lemma {:induction false} ViewSameMutable(c: Config, ms: Members)
    requires WellTypedMembers(ms) && WritableMembers(c, Mutable, ms) && DistinctMembers(ms)
    ensures ViewMutable(FieldsOf(ms), ms) == ms <==> NulFreeMembers(ms)
    decreases ms
  {
    match ms
    case MNil =>
    case MCons(id, must, slot, rest) =>
      if !slot.Absent? { ViewSame(c, slot.v); }
      ViewSameMutable(c, rest);
      SameIds(rest);
      WrittenOutside(rest, id);
      ViewWithout(FieldsOf(rest), id, must, slot, rest);
  }

  /** A member the reader does not have makes no difference to its view. */
  lemma {:induction false} ViewWithout(fs: Fields, id: nat, must: bool, slot: Slot, ms: Members)
    requires id !in FieldIds(fs)
    ensures ViewMutable(fs, MCons(id, must, slot, ms)) == ViewMutable(fs, ms)
  {
    match fs
    case FNil =>
    case FCons(_, _, _, _, rest) => ViewWithout(rest, id, must, slot, ms);
  }

  lemma {:induction false} SameIds(ms: Members)
    ensures FieldIds(FieldsOf(ms)) == MemberIds(ms)
    ensures DistinctMembers(ms) ==> DistinctFields(FieldsOf(ms))
  {
    match ms
    case MNil =>
    case MCons(_, _, _, rest) => SameIds(rest);
  }

  lemma {:induction false} ReadsOwn(c: Config, v: Value)
    requires WellTyped(v) && Writable(c, v)
    ensures Reads(c, false, TypeOf(v), v)
    decreases v
  {
    match v
    case Seq(e, items) => ReadsOwnItems(c, e, items);
    case Struct(ext, ms) =>
      if ext == Mutable {
        SameIds(ms);
        ReadsOwnMutable(c, ms);
      } else {
        ReadsOwnPlain(c, ext, c.v2 && ext == Appendable, ms);
      }
    case _ =>
  }

  lemma {:induction false} ReadsOwnItems(c: Config, e: Type, items: Items)
    requires WellTypedItems(e, items) && WritableItems(c, items)
    ensures ReadsItems(c, false, e, items)
    decreases items
  {
    match items
    case INil =>
    case ICons(v, rest) => ReadsOwn(c, v); ReadsOwnItems(c, e, rest);
  }

  lemma {:induction false} ReadsOwnPlain(c: Config, ext: Extensibility, open: bool, ms: Members)
    requires WellTypedMembers(ms) && WritableMembers(c, ext, ms)
    ensures ReadsPlain(c, false, open, FieldsOf(ms), ms)
    decreases ms
  {
    match ms
    case MNil =>
    case MCons(_, _, slot, rest) =>
      if !slot.Absent? { ReadsOwn(c, slot.v); }
      ReadsOwnPlain(c, ext, open, rest);
  }

  lemma {:induction false} ReadsOwnMutable(c: Config, ms: Members)
    requires WellTypedMembers(ms) && WritableMembers(c, Mutable, ms) && DistinctMembers(ms)
    ensures ReadsMutable(c, false, FieldsOf(ms), ms)
    decreases ms
  {
    match ms
    case MNil =>
    case MCons(id, must, slot, rest) =>
      if !slot.Absent? { ReadsOwn(c, slot.v); }
      ReadsOwnMutable(c, rest);
      var fs := FieldsOf(ms);
      ReadsWider(c, id, fs.must, fs.opt, fs.ty, FieldsOf(rest), rest);
  }

  lemma {:induction false} ReadsWider(c: Config, id: nat, must: bool, opt: bool, ty: Type, fs: Fields, ms: Members)
    requires ReadsMutable(c, false, fs, ms) && id !in MemberIds(ms)
    ensures ReadsMutable(c, false, FCons(id, must, opt, ty, fs), ms)
    decreases ms
  {
    match ms
    case MNil =>
    case MCons(_, _, _, rest) => ReadsWider(c, id, must, opt, ty, fs, rest);
  }

  /**
   Whole-type round trip, for both versions: a reader with the writer's type obtains exactly the value
   written if and only if no string in it holds a zero byte and every wide character is a number of 16 bits other than
   zero, and stops where the writer stopped.
   */
  lemma RoundTripIff(c: Config, v: Value, buf: seq<byte>, cur: Cur)
    requires Writable(c, v) && WellTyped(v) && Stands(c, buf, cur, Enc(c, v, cur.rel))
    ensures var r := Decode(c, TypeOf(v), buf, cur);
      && r.Ok? && r.cur == After(cur, Enc(c, v, cur.rel))
      && (r.value == v <==> NulFree(v))
  {
    hide Stands, Writable, Reads, View, Decode, Enc, NulFree;
    ReadsOwn(c, v);
    ReadValue(c, TypeOf(v), v, buf, cur);
    ViewSame(c, v);
  }
}
