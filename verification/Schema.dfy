/** Types and values the codec moves: primitives, strings, sequences and structs of every extensibility. */
module Schema {
  import opened Layout

  /** Primitive kinds, by wire width. Floating-point values travel as their 4- and 8-byte patterns. */
  datatype Kind = K1 | KBool | K2 | K4 | K8

  function Size(k: Kind): (r: nat)
    ensures r == 1 || r == 2 || r == 4 || r == 8
  {
    match k
    case K1 => 1
    case KBool => 1
    case K2 => 2
    case K4 => 4
    case K8 => 8
  }

  /** Values of a kind: every bit pattern of its width, but only 0 and 1 for booleans. */
  predicate InKind(k: Kind, n: nat) {
    match k
    case K1 => n < 0x100
    case KBool => n < 2
    case K2 => n < 0x1_0000
    case K4 => n < 0x1_0000_0000
    case K8 => n < 0x1_0000_0000_0000_0000
  }

  /** What the encoder sees of a string, wide or not: what is before the first zero, as `strlen` and `wcslen` find it. */
  function CText<T(==)>(s: seq<T>, zero: T): (r: seq<T>)
    ensures |r| <= |s| && r == s[..|r|]
    ensures forall i :: 0 <= i < |r| ==> r[i] != zero
    ensures r == s <==> forall i :: 0 <= i < |s| ==> s[i] != zero
  {
    if s == [] || s[0] == zero then [] else [s[0]] + CText(s[1..], zero)
  }

  /** What it writes of a wide one: 16 bits of every such character. */
  function WText(s: seq<nat>): (r: seq<nat>)
    ensures |r| == |CText(s, 0)|
    ensures forall i :: 0 <= i < |r| ==> r[i] == CText(s, 0)[i] % 0x1_0000
  {
    var t := CText(s, 0);
    seq(|t|, i requires 0 <= i < |t| => t[i] % 0x1_0000)
  }

  /** Without the zero at the end, if there is one. */
  function WUntrail(s: seq<nat>): seq<nat> {
    if s != [] && s[|s| - 1] == 0 then s[..|s| - 1] else s
  }

  /** Characters of 16 bits other than zero. */
  predicate Narrow(s: seq<nat>) {
    forall i :: 0 <= i < |s| ==> 0 < s[i] < 0x1_0000
  }

  /** A wide string survives being written and read exactly if all its characters are such. */
  lemma NarrowIff(s: seq<nat>)
    ensures WUntrail(WText(s)) == s <==> Narrow(s)
    ensures Narrow(s) ==> |WText(s)| == |s|
  {
    var t := WText(s);
    if Narrow(s) {
      assert CText(s, 0) == s;
      assert t == s;
    }
    if WUntrail(t) == s {
      assert |t| == |s| && CText(s, 0) == s && t == s;
    }
  }

  datatype Extensibility = Final | Appendable | Mutable

  datatype Type =
    | TPrim(k: Kind)
    | TStr
    | TWStr
    | TSeqPrim(k: Kind)
    | TSeq(elem: Type)
    | TStruct(ext: Extensibility, fields: Fields)

  /** The members of a struct type, in declaration order. */
  datatype Fields =
    | FNil
    | FCons(id: nat, must: bool, opt: bool, ty: Type, rest: Fields)

  datatype Value =
    | Prim(k: Kind, n: nat)
    | Str(text: seq<byte>)
    | WStr(chars: seq<nat>)
    | SeqPrim(k: Kind, ns: seq<nat>)
    | Seq(elem: Type, items: Items)
    | Struct(ext: Extensibility, members: Members)

  datatype Items = INil | ICons(head: Value, rest: Items)

  datatype Members =
    | MNil
    | MCons(id: nat, must: bool, slot: Slot, rest: Members)

  /** What one member holds: a plain value, or an optional one that is absent or present. */
  datatype Slot = Req(v: Value) | Absent(ty: Type) | Present(v: Value)

  datatype Option<+T> = None | Some(value: T)

  // ---------------------------------------------------------------- lists

  function Count(items: Items): nat {
    match items
    case INil => 0
    case ICons(_, rest) => 1 + Count(rest)
  }

  /** Nesting height, the measure every decoding recursion goes down on. */
  function Height(t: Type): nat
    decreases t
  {
    match t
    case TSeq(e) => 1 + Height(e)
    case TStruct(_, fs) => 1 + FieldsHeight(fs)
    case _ => 0
  }

  function FieldsHeight(fs: Fields): nat
    decreases fs
  {
    match fs
    case FNil => 0
    case FCons(_, _, _, ty, rest) =>
      var a, b := Height(ty), FieldsHeight(rest);
      1 + if a > b then a else b
  }

  datatype Field = Field(must: bool, opt: bool, ty: Type)

  /** The member a reader's functor finds under an identifier. */
  function FindField(fs: Fields, id: nat): (r: Option<Field>)
    ensures r.Some? ==> Height(r.value.ty) < FieldsHeight(fs)
  {
    match fs
    case FNil => None
    case FCons(i, must, opt, ty, rest) =>
      if i == id then Some(Field(must, opt, ty)) else FindField(rest, id)
  }

  function FieldIds(fs: Fields): set<nat> {
    match fs
    case FNil => {}
    case FCons(id, _, _, _, rest) => {id} + FieldIds(rest)
  }

  function MemberIds(ms: Members): set<nat> {
    match ms
    case MNil => {}
    case MCons(id, _, _, rest) => {id} + MemberIds(rest)
  }

  predicate DistinctFields(fs: Fields) {
    match fs
    case FNil => true
    case FCons(id, _, _, _, rest) => id !in FieldIds(rest) && DistinctFields(rest)
  }

  predicate DistinctMembers(ms: Members) {
    match ms
    case MNil => true
    case MCons(id, _, _, rest) => id !in MemberIds(rest) && DistinctMembers(rest)
  }

  // ---------------------------------------------------------------- types of values

  function TypeOf(v: Value): Type
    decreases v
  {
    match v
    case Prim(k, _) => TPrim(k)
    case Str(_) => TStr
    case WStr(_) => TWStr
    case SeqPrim(k, _) => TSeqPrim(k)
    case Seq(e, _) => TSeq(e)
    case Struct(ext, ms) => TStruct(ext, FieldsOf(ms))
  }

  function FieldsOf(ms: Members): Fields
    decreases ms
  {
    match ms
    case MNil => FNil
    case MCons(id, must, slot, rest) =>
      match slot
      case Req(v) => FCons(id, must, false, TypeOf(v), FieldsOf(rest))
      case Absent(ty) => FCons(id, must, true, ty, FieldsOf(rest))
      case Present(v) => FCons(id, must, true, TypeOf(v), FieldsOf(rest))
  }

  // ---------------------------------------------------------------- default-constructed values

  function Default(t: Type): Value
    decreases t, 0
  {
    match t
    case TPrim(k) => Prim(k, 0)
    case TStr => Str([])
    case TWStr => WStr([])
    case TSeqPrim(k) => SeqPrim(k, [])
    case TSeq(e) => Seq(e, INil)
    case TStruct(ext, fs) => Struct(ext, DefaultMembers(fs))
  }

  function DefaultSlot(opt: bool, ty: Type): Slot
    decreases ty, 1
  {
    if opt then Absent(ty) else Req(Default(ty))
  }

  function DefaultMembers(fs: Fields): Members
    decreases fs
  {
    match fs
    case FNil => MNil
    case FCons(id, must, opt, ty, rest) => MCons(id, must, DefaultSlot(opt, ty), DefaultMembers(rest))
  }

  /** `n` default-constructed elements, as `vector::resize` leaves them. */
  function DefaultItems(t: Type, n: nat): Items
    decreases n
  {
    if n == 0 then INil else ICons(Default(t), DefaultItems(t, n - 1))
  }

  /** Stores a decoded value in the member with the given identifier. */
  function SetMember(ms: Members, id: nat, slot: Slot): Members {
    match ms
    case MNil => MNil
    case MCons(i, must, was, rest) =>
      if i == id then MCons(i, must, slot, rest) else MCons(i, must, was, SetMember(rest, id, slot))
  }
}
