/** What stands on the wire, byte by byte: numbers of the format written out, in place of the names the layout gives them. */
module Wire {
  import opened Layout
  import opened Schema
  import opened Encoding
  import opened EncodingFacts
  import opened Patching
  import opened Rooms
  import opened Limits
  import opened Streams

  // ---------------------------------------------------------------- values on their own

  lemma AlignedWord(c: Config, n: nat, p: nat)
    requires p % 4 == 0
    ensures U32(c, n, p) == Num(c, n, 4)
  {
    hide Num;
    NoGap(Num(c, n, 4));
  }

  /** The count includes the terminating zero. */
  lemma StringCells(c: Config, a: byte, b: byte, p: nat)
    requires a != 0 && b != 0 && p % 4 == 0
    ensures Enc(c, Str([a, b]), p).cells == Word(c.little, [3, 0, 0, 0]) + Raw([a, b, 0])
  {
    hide Num, U32, Word;
    assert CText([a, b], 0) == [a, b];
    AlignedWord(c, 3, p);
    Num4(c, 3, 3, 0, 0, 0);
    assert Raw([a, b]) + [B(0)] == Raw([a, b, 0]);
    assert Word(c.little, [3, 0, 0, 0]) + Raw([a, b]) + [B(0)] == Word(c.little, [3, 0, 0, 0]) + (Raw([a, b]) + [B(0)]);
  }

  /** A wide one has none, and is counted in characters. */
  lemma WideCells(c: Config, a: byte, b: byte, p: nat)
    requires a + b != 0 && p % 4 == 0
    ensures Enc(c, WStr([a + 256 * b]), p).cells == Word(c.little, [1, 0, 0, 0]) + Word(c.little, [a, b])
  {
    hide Num, U32, Word, Elements;
    var n: nat := a + 256 * b;
    assert CText([n], 0) == [n] && WText([n]) == [n];
    AlignedWord(c, 1, p);
    Num4(c, 1, 1, 0, 0, 0);
    Num2(c, n, a, b);
    OneElement(c, K2, n, p + 4);
  }

  lemma OneElement(c: Config, k: Kind, n: nat, p: nat)
    requires Pad(p, c.AlignOf(k)) == 0
    ensures Elements(c, k, [n], p) == Num(c, n, Size(k))
  {
    hide Num, Pad;
    var e := Scalar(c, n, Size(k), c.AlignOf(k), p);
    NoGap(Num(c, n, Size(k)));
    assert Elements(c, k, [n][1..], p + |e|) == [];
    assert e + [] == e;
  }

  /** A sequence of strings: XCDRv2 puts its extent, count included, in front. */
  lemma SequenceCells(c: Config, a: byte)
    requires a != 0
    ensures var v := Seq(TStr, ICons(Str([a]), INil));
      Enc(c, v, 0).cells == (if c.v2 then Word(c.little, [10, 0, 0, 0]) else [])
                            + Word(c.little, [1, 0, 0, 0]) + (Word(c.little, [2, 0, 0, 0]) + Raw([a, 0]))
  {
    hide Num, U32, Word, EncItems;
    var items := ICons(Str([a]), INil);
    OneString(c, a, if c.v2 then 8 else 4);
    CountOne(a);
    AlignedWord(c, 10, 0);
    AlignedWord(c, 1, 0);
    Num4(c, 10, 10, 0, 0, 0);
    Num4(c, 1, 1, 0, 0, 0);
    assert [] + Num(c, 1, 4) == Num(c, 1, 4);
  }

  lemma CountOne(a: byte)
    ensures Count(ICons(Str([a]), INil)) == 1
  {
    assert Count(INil) == 0;
  }

  lemma OneString(c: Config, a: byte, p: nat)
    requires a != 0 && p % 4 == 0
    ensures EncItems(c, ICons(Str([a]), INil), p).cells == Word(c.little, [2, 0, 0, 0]) + Raw([a, 0])
  {
    hide Num, U32, Word, Enc;
    ShortString(c, a, p);
    NoItems(c, Enc(c, Str([a]), p).rel);
    assert Enc(c, Str([a]), p).cells + [] == Enc(c, Str([a]), p).cells;
  }

  lemma ShortString(c: Config, a: byte, p: nat)
    requires a != 0 && p % 4 == 0
    ensures Enc(c, Str([a]), p).cells == Word(c.little, [2, 0, 0, 0]) + Raw([a, 0])
  {
    hide Num, U32, Word;
    assert CText([a], 0) == [a];
    AlignedWord(c, 2, p);
    Num4(c, 2, 2, 0, 0, 0);
    assert Raw([a]) + [B(0)] == Raw([a, 0]);
    assert Word(c.little, [2, 0, 0, 0]) + Raw([a]) + [B(0)] == Word(c.little, [2, 0, 0, 0]) + (Raw([a]) + [B(0)]);
  }

  // ---------------------------------------------------------------- plain structs

  lemma TwoMembers(c: Config, ext: Extensibility, a: Slot, b: Slot, p: nat)
    ensures var ms := MCons(1, false, a, MCons(2, false, b, MNil));
      var x := EncSlot(c, ext, 1, false, a, p);
      var y := EncSlot(c, ext, 2, false, b, x.rel);
      EncMembers(c, ext, ms, p) == Out(x.cells + y.cells, y.rel)
  {
    hide EncSlot;
    var x := EncSlot(c, ext, 1, false, a, p);
    var y := EncSlot(c, ext, 2, false, b, x.rel);
    assert EncMembers(c, ext, MNil, y.rel) == Out([], y.rel);
    assert y.cells + [] == y.cells;
    assert EncMembers(c, ext, MCons(2, false, b, MNil), x.rel) == y;
  }

  /** An unsigned long and an unsigned short: an appendable struct has a DHEADER in XCDRv2, and nothing else differs. */
  lemma PlainCells(c: Config, ext: Extensibility, x: byte)
    requires ext != Mutable
    ensures var v := Struct(ext, MCons(1, false, Req(Prim(K4, x)), MCons(2, false, Req(Prim(K2, x)), MNil)));
      Enc(c, v, 0).cells == (if c.v2 && ext == Appendable then Word(c.little, [6, 0, 0, 0]) else [])
                            + (Word(c.little, [x, 0, 0, 0]) + Word(c.little, [x, 0]))
  {
    hide Num, U32, Word, EncMembers;
    var ms := MCons(1, false, Req(Prim(K4, x)), MCons(2, false, Req(Prim(K2, x)), MNil));
    var p := if c.v2 && ext == Appendable then 4 else 0;
    PlainMembers(c, ext, x, p);
    AlignedWord(c, 6, 0);
    Num4(c, 6, 6, 0, 0, 0);
    var b := EncMembers(c, ext, ms, p);
    assert [] + b.cells == b.cells;
  }

  lemma PlainMembers(c: Config, ext: Extensibility, x: byte, p: nat)
    requires ext != Mutable && p % 4 == 0
    ensures var ms := MCons(1, false, Req(Prim(K4, x)), MCons(2, false, Req(Prim(K2, x)), MNil));
      EncMembers(c, ext, ms, p).cells == Word(c.little, [x, 0, 0, 0]) + Word(c.little, [x, 0])
  {
    hide Num, Enc, Word, EncMembers;
    TwoMembers(c, ext, Req(Prim(K4, x)), Req(Prim(K2, x)), p);
    PrimCells(c, K4, x, p);
    PrimCells(c, K2, x, p + 4);
    Num4(c, x, x, 0, 0, 0);
    Num2(c, x, x, 0);
  }

  /** An 8-byte number behind an octet: XCDRv1 aligns it on 8, XCDRv2 on 4. */
  lemma LongAlignment(c: Config, x: byte, n: nat)
    ensures var v := Struct(Final, MCons(1, false, Req(Prim(K1, x)), MCons(2, false, Req(Prim(K8, n)), MNil)));
      Enc(c, v, 0).cells == Word(c.little, [x]) + (Gaps(if c.v2 then 3 else 7) + Num(c, n, 8))
  {
    hide Num, Enc, Word, EncMembers;
    var ms := MCons(1, false, Req(Prim(K1, x)), MCons(2, false, Req(Prim(K8, n)), MNil));
    TwoMembers(c, Final, Req(Prim(K1, x)), Req(Prim(K8, n)), 0);
    PrimCells(c, K1, x, 0);
    Num1(c, x);
    BehindOctet(c, n);
    PlainIs(c, ms);
  }

  lemma BehindOctet(c: Config, n: nat)
    ensures Enc(c, Prim(K8, n), 1).cells == Gaps(if c.v2 then 3 else 7) + Num(c, n, 8)
  {
    hide Num;
  }

  lemma PlainIs(c: Config, ms: Members)
    ensures Enc(c, Struct(Final, ms), 0) == EncMembers(c, Final, ms, 0)
  {
    hide EncMembers;
  }

  /** Optional members of a plain struct: a flag of 0 or 1 in XCDRv2, a header in XCDRv1. */
  lemma OptionalCells(c: Config, x: byte)
    requires c == Automatic(c.v2, c.little)
    ensures var v := Struct(Final, MCons(1, false, Absent(TPrim(K1)), MCons(2, false, Present(Prim(K1, x)), MNil)));
      Enc(c, v, 0).cells ==
        if c.v2 then [B(0)] + ([B(1)] + Word(c.little, [x]))
        else Word(c.little, [1, 0]) + Word(c.little, [0, 0])
             + (Word(c.little, [2, 0]) + Word(c.little, [1, 0]) + Word(c.little, [x]))
  {
    hide Num, Enc, Word, EncMembers, Header1;
    var ms := MCons(1, false, Absent(TPrim(K1)), MCons(2, false, Present(Prim(K1, x)), MNil));
    TwoMembers(c, Final, Absent(TPrim(K1)), Present(Prim(K1, x)), 0);
    PrimCells(c, K1, x, 2);
    PrimCells(c, K1, x, 0);
    Num1(c, x);
    PlainIs(c, ms);
    ShortHeader(c, 1, false, 0, 0);
    ShortHeader(c, 2, false, 1, 0);
  }

  // ---------------------------------------------------------------- XCDRv1 member headers

  lemma ShortHeader(c: Config, id: byte, must: bool, size: byte, p: nat)
    requires p % 4 == 0
    ensures Header1(c, id, must, size, false, p)
         == Word(c.little, [id, if must then 0x40 else 0]) + Word(c.little, [size, 0])
  {
    hide Num, Word, Gaps;
    Num2(c, Word1(must, id), id, if must then 0x40 else 0);
    Num2(c, size, size, 0);
    NoGap(Num(c, Word1(must, id), 2));
  }

  /** A must-understand member of a mutable struct. */
  lemma MustCells1(c: Config, must: bool, x: byte)
    requires c == Automatic(false, c.little)
    ensures Enc(c, Struct(Mutable, MCons(5, must, Req(Prim(K1, x)), MNil)), 0).cells
         == Word(c.little, [5, if must then 0x40 else 0]) + Word(c.little, [1, 0]) + Word(c.little, [x])
            + (Gaps(3) + Word(c.little, [0x02, 0x3F]) + Word(c.little, [0, 0]))
  {
    hide Num, Enc, Word, EncMembers, EncSlot, Header1, Sentinel, Gaps;
    var ms := MCons(5, must, Req(Prim(K1, x)), MNil);
    var a := EncSlot(c, Mutable, 5, must, Req(Prim(K1, x)), 0);
    Member1(c, 5, must, K1, x, 0);
    Num1(c, x);
    ShortHeader(c, 5, must, 1, 0);
    assert EncMembers(c, Mutable, ms, 0) == a by { OneMember(c, 5, must, Req(Prim(K1, x)), 0); }
    SentinelAt1(c);
    MutableCells1(c, ms, 0);
  }

  lemma OneMember(c: Config, id: nat, must: bool, slot: Slot, p: nat)
    ensures EncMembers(c, Mutable, MCons(id, must, slot, MNil), p) == EncSlot(c, Mutable, id, must, slot, p)
  {
    hide EncSlot;
    var a := EncSlot(c, Mutable, id, must, slot, p);
    assert EncMembers(c, Mutable, MNil, a.rel) == Out([], a.rel);
    assert a.cells + [] == a.cells;
  }

  lemma SentinelAt1(c: Config)
    ensures Sentinel(c, 1) == Gaps(3) + Word(c.little, [0x02, 0x3F]) + Word(c.little, [0, 0])
  {
    hide Num, Word, Gaps;
    Num2(c, PID_SENTINEL, 0x02, 0x3F);
    Num2(c, 0, 0, 0);
  }

  /** The default selection: 4 bytes of header exactly for identifiers up to 0x3F00 and bodies up to 0xFFFF bytes. */
  lemma HeaderLength1(c: Config, id: nat, must: bool, v: Value, p: nat)
    requires !c.v2 && p % 4 == 0 && (c.sel == AutoShort || c.sel == AutoLong)
    ensures var size := |Enc(c, v, 0).cells|;
      |EncHeaded1(c, id, must, v, p).cells| == size + if id <= 0x3F00 && size <= 0xFFFF then 4 else 12
    ensures IsLong1(LongOnly, id, |Enc(c, v, 0).cells|)
  {
    hide Enc, Num, Gaps;
  }

  /** An absent optional of a plain struct: 4 bytes exactly for identifiers up to 0x3F00, if headers start out short. */
  lemma AbsentLength1(c: Config, ext: Extensibility, id: nat, must: bool, ty: Type, p: nat)
    requires !c.v2 && ext != Mutable && p % 4 == 0
    ensures |EncSlot(c, ext, id, must, Absent(ty), p).cells|
         == if id <= 0x3F00 && (c.sel == AutoShort || c.sel == ShortOnly) then 4 else 12
  {
    hide Num, Gaps;
  }

  // ---------------------------------------------------------------- XCDRv2 member headers

  /** A mutable struct of one member: the DHEADER and the member. */
  lemma OneHeaded2(c: Config, must: bool, v: Value, h: Cells)
    requires c.v2 && h == EncHeaded2(c, 1, must, v, 4).cells
    ensures Enc(c, Struct(Mutable, MCons(1, must, Req(v), MNil)), 0).cells == Num(c, |h|, 4) + h
  {
    hide EncHeaded2, EncMembers, U32, Num;
    OneMember(c, 1, must, Req(v), 4);
    MutableCells2(c, MCons(1, must, Req(v), MNil));
    AlignedWord(c, |h|, 0);
  }

  lemma HeadWord(c: Config, must: bool, code: nat)
    requires code < 8
    ensures U32(c, Word2(must, code, 1), 4) == Word(c.little, [1, 0, 0, (if must then 0x80 else 0) + 0x10 * code])
  {
    hide Num, Word;
    AlignedWord(c, Word2(must, code, 1), 4);
    Num4(c, Word2(must, code, 1), 1, 0, 0, (if must then 0x80 else 0) + 0x10 * code);
  }

  /** The count and the elements back to back. */
  function Counted(c: Config, k: Kind, ns: seq<nat>): Cells {
    Num(c, |ns|, 4) + Raw(Packed(c.little, ns, Size(k)))
  }

  lemma CountedCells(c: Config, k: Kind, ns: seq<nat>, p: nat)
    requires c.v2 && p % 4 == 0
    ensures Enc(c, SeqPrim(k, ns), p).cells == Counted(c, k, ns)
  {
    hide Num, U32, Elements;
    AlignedWord(c, |ns|, p);
    PackedElements(c, k, ns, p + 4);
  }

  lemma PackedElements(c: Config, k: Kind, ns: seq<nat>, p: nat)
    requires c.v2 && p % 4 == 0
    ensures Elements(c, k, ns, p) == Raw(Packed(c.little, ns, Size(k)))
  {
    if ns == [] {
      NothingAfter(c, k, ns, p);
    } else {
      BulkIsElements(c, k, ns, p);
      NoGap(Raw(Packed(c.little, ns, Size(k))));
    }
  }

  /**
   A sequence of numbers as a member: its count serves as NEXTINT, in units of 1, 4 or 8 bytes, and the header takes 4
   bytes. Elements of 2 bytes have no such unit.
   */
  lemma CountShared(c: Config, k: Kind, ns: seq<nat>)
    requires c.v2 && k != K2
    ensures var w, top := Size(k), if k == K4 then 0x60 else if k == K8 then 0x70 else 0x50;
      var cells := Enc(c, Struct(Mutable, MCons(1, false, Req(SeqPrim(k, ns)), MNil)), 0).cells;
      && cells == Num(c, 8 + |ns| * w, 4)
                  + (Word(c.little, [1, 0, 0, top]) + (Num(c, |ns|, 4) + Raw(Packed(c.little, ns, w))))
      && |cells| == 12 + |ns| * w && w == (if k == K4 then 4 else if k == K8 then 8 else 1)
  {
    hide Num, U32, Word, Word2, Enc, Packed;
    var v := SeqPrim(k, ns);
    CountedCells(c, k, ns, 8);
    HeadWord(c, false, if k == K4 then 6 else if k == K8 then 7 else 5);
    OneHeaded2(c, false, v, EncHeaded2(c, 1, false, v, 4).cells);
  }

  /** Elements of 2 bytes: none or two of them have a length code, other numbers a NEXTINT of their own. */
  lemma CountNotShared(c: Config, ns: seq<nat>)
    requires c.v2 && c.sel != LongOnly
    ensures var body := Counted(c, K2, ns);
      EncHeaded2(c, 1, false, SeqPrim(K2, ns), 4).cells ==
        if |ns| == 0 then Word(c.little, [1, 0, 0, 0x20]) + body
        else if |ns| == 2 then Word(c.little, [1, 0, 0, 0x30]) + body
        else Word(c.little, [1, 0, 0, 0x40]) + Num(c, 4 + 2 * |ns|, 4) + body
  {
    hide Num, Word, Enc, Counted, EncHeaded2, ShortCode, Next;
    CountedTwice(c, ns);
    CountedSize(c, ns);
    CodeOfCounted(ns);
    ByCode(c, SeqPrim(K2, ns), |ns|, Counted(c, K2, ns));
  }

  lemma CountedTwice(c: Config, ns: seq<nat>)
    requires c.v2
    ensures Enc(c, SeqPrim(K2, ns), 8).cells == Counted(c, K2, ns) && Enc(c, SeqPrim(K2, ns), 12).cells == Counted(c, K2, ns)
  {
    hide Enc, Counted;
    CountedCells(c, K2, ns, 8);
    CountedCells(c, K2, ns, 12);
  }

  lemma ByCode(c: Config, v: Value, n: nat, body: Cells)
    requires c.v2 && c.sel != LongOnly && Next(v) == NoNext && |body| == 4 + 2 * n
    requires Enc(c, v, 8).cells == body && Enc(c, v, 12).cells == body
    requires ShortCode(4 + 2 * n) == if n == 0 then 2 else if n == 2 then 3 else 8
    ensures EncHeaded2(c, 1, false, v, 4).cells ==
      if n == 0 then Word(c.little, [1, 0, 0, 0x20]) + body
      else if n == 2 then Word(c.little, [1, 0, 0, 0x30]) + body
      else Word(c.little, [1, 0, 0, 0x40]) + Num(c, 4 + 2 * n, 4) + body
  {
    hide Num, Word, Enc, EncHeaded2, ShortCode, Next;
    if n == 0 {
      CodedMember(c, v, 2);
    } else if n == 2 {
      CodedMember(c, v, 3);
    } else {
      LongMember(c, v);
    }
  }

  lemma CodeOfCounted(ns: seq<nat>)
    ensures Next(SeqPrim(K2, ns)) == NoNext
    ensures ShortCode(4 + 2 * |ns|) == if |ns| == 0 then 2 else if |ns| == 2 then 3 else 8
  {
  }

  lemma CountedSize(c: Config, ns: seq<nat>)
    requires c.v2
    ensures |Enc(c, SeqPrim(K2, ns), 8).cells| == 4 + 2 * |ns|
  {
    hide Num, Enc, Packed;
    CountedCells(c, K2, ns, 8);
  }

  lemma CodedMember(c: Config, v: Value, code: nat)
    requires c.v2 && c.sel != LongOnly && Next(v) == NoNext && code < 4 && ShortCode(|Enc(c, v, 8).cells|) == code
    ensures EncHeaded2(c, 1, false, v, 4).cells == Word(c.little, [1, 0, 0, 0x10 * code]) + Enc(c, v, 8).cells
  {
    hide Num, U32, Word, Word2, Enc, Next;
    HeadWord(c, false, code);
  }

  lemma LongMember(c: Config, v: Value)
    requires c.v2 && Next(v) == NoNext && ShortCode(|Enc(c, v, 8).cells|) == 8
    ensures EncHeaded2(c, 1, false, v, 4).cells
         == Word(c.little, [1, 0, 0, 0x40]) + Num(c, |Enc(c, v, 8).cells|, 4) + Enc(c, v, 12).cells
  {
    hide Num, U32, Word, Word2, Enc, Next;
    HeadWord(c, false, 4);
  }

  /** Numbers of 1, 2, 4 and 8 bytes have length codes 0 to 3. */
  lemma NumberMember(c: Config, must: bool, k: Kind, n: nat)
    requires c.v2 && c.sel != LongOnly
    ensures var code := match k case K1 => 0 case KBool => 0 case K2 => 0x10 case K4 => 0x20 case K8 => 0x30;
      EncHeaded2(c, 1, must, Prim(k, n), 4).cells
      == Word(c.little, [1, 0, 0, (if must then 0x80 else 0) + code]) + Num(c, n, Size(k))
  {
    hide Num, U32, Word, Word2, Enc;
    PrimCells(c, k, n, 8);
    HeadWord(c, must, match k case K1 => 0 case KBool => 0 case K2 => 1 case K4 => 2 case K8 => 3);
  }

  /** Strings, sequences of other things and delimited structs start with a length of their own; it is shared. */
  lemma LengthShared(c: Config, v: Value)
    requires c.v2 && (v.Str? || v.Seq? || (v.Struct? && v.ext != Final))
    ensures EncHeaded2(c, 1, false, v, 4).cells == Word(c.little, [1, 0, 0, 0x50]) + Enc(c, v, 8).cells
  {
    hide Num, U32, Word, Word2, Enc;
    HeadWord(c, false, 5);
  }

  /** Wide strings and final structs do not: unless their size has a length code they get a NEXTINT. */
  lemma LengthNotShared(c: Config, v: Value)
    requires c.v2 && (v.WStr? || (v.Struct? && v.ext == Final))
    ensures var size := |Enc(c, v, 8).cells|;
      size != 1 && size != 2 && size != 4 && size != 8 ==>
        EncHeaded2(c, 1, false, v, 4).cells == Word(c.little, [1, 0, 0, 0x40]) + Num(c, size, 4) + Enc(c, v, 12).cells
  {
    hide Num, U32, Word, Word2, Enc;
    HeadWord(c, false, 4);
  }

  // ---------------------------------------------------------------- what a selection restricted to short headers permits

  /** In XCDRv2 values of 1, 2, 4 and 8 bytes that do not start with a length of their own. */
  lemma ShortOnly2(c: Config, v: Value)
    requires c.v2 && c.sel == ShortOnly
    ensures var size := |Enc(c, v, 0).cells|;
      var counted := v.Str? || v.Seq? || (v.SeqPrim? && v.k != K2) || (v.Struct? && v.ext != Final);
      PermitsForm2(c, v) <==> !counted && (size == 1 || size == 2 || size == 4 || size == 8)
  {
    hide Enc;
  }

  /** In XCDRv1 identifiers up to 0x3F00 and bodies up to 0xFFFF bytes. */
  lemma ShortOnly1(c: Config, id: nat, v: Value)
    requires !c.v2 && c.sel == ShortOnly
    ensures PermitsForm1(c, id, v) <==> id <= 0x3F00 && |Enc(c, v, 0).cells| <= 0xFFFF
  {
    hide Enc;
  }
}
