/** What the size calculator charges, in numbers. */
module Charges {
  import opened Layout
  import opened Schema
  import opened Encoding
  import opened Sizes
  import opened SizeFacts

  /** Strings are charged whole, what is behind a zero included, and wide ones two bytes a character. */
  lemma StringCharge(c: Config, text: seq<byte>, chars: seq<nat>, at: nat, next: NextInt)
    requires at % 4 == 0
    ensures Calc(c, Str(text), at, next) == Sized(|text| + 5, at + |text| + 5, Next1)
    ensures Calc(c, WStr(chars), at, next) == Sized(2 * |chars| + 4, at + 2 * |chars| + 4, next)
  {
  }

  /** An empty sequence of 8-byte elements: XCDRv1 charges the alignment of elements that are not there. */
  lemma EmptyLongs(c: Config, at: nat, next: NextInt)
    ensures var up := Pad(at, 4);
      var n := if c.v2 || (at + up) % 8 == 4 then 4 else 8;
      var r := Calc(c, SeqPrim(K8, []), at, next);
      r.size == up + n && r.at == at + up + n && |Enc(c, SeqPrim(K8, []), at).cells| == up + 4
  {
    hide Elements, Pad;
    NoElements(c, at + Pad(at, 4) + 4);
    OnFour(at);
    assert |Enc(c, SeqPrim(K8, []), at).cells| == Pad(at, 4) + 4;
  }

  lemma OnFour(at: nat)
    ensures var p := at + Pad(at, 4);
      Pad(p + 4, 4) == 0 && Pad(p + 4, 8) == if p % 8 == 4 then 0 else 4
  {
  }

  /** One in front of an 8-byte number: what is charged for it is made up for by the alignment of the number. */
  lemma EmptyThenLong(c: Config, n: nat)
    requires !c.v2
    ensures var v := Struct(Final, MCons(1, false, Req(SeqPrim(K8, [])), MCons(2, false, Req(Prim(K8, n)), MNil)));
      Calc(c, v, 0, NoNext).size == 16 && |Enc(c, v, 0).cells| == 16
  {
    hide Enc, Calc, EncMembers, CalcMembers;
    var empty, long := SeqPrim(K8, []), Prim(K8, n);
    EmptyLongs(c, 0, NoNext);
    LongBehind(c, n);
    LeafAfter(c, empty, 0);
    TwoCharged(c, empty, long);
    PlainStruct1(c, Final, MCons(1, false, Req(empty), MCons(2, false, Req(long), MNil)));
  }

  lemma LeafAfter(c: Config, v: Value, p: nat)
    requires v.SeqPrim?
    ensures Enc(c, v, p).rel == p + |Enc(c, v, p).cells|
  {
    hide Elements;
  }

  lemma LongBehind(c: Config, n: nat)
    requires !c.v2
    ensures |Enc(c, Prim(K8, n), 4).cells| == 12 && Calc(c, Prim(K8, n), 8, NoNext).size == 8
  {
    hide Num, Gaps;
  }

  /** Two plain members, one behind the other. */
  lemma TwoCharged(c: Config, a: Value, b: Value)
    ensures var ms := MCons(1, false, Req(a), MCons(2, false, Req(b), MNil));
      && |EncMembers(c, Final, ms, 0).cells| == |Enc(c, a, 0).cells| + |Enc(c, b, Enc(c, a, 0).rel).cells|
      && CalcMembers(c, Final, ms, 0, NoNext).size
         == Calc(c, a, 0, NoNext).size + Calc(c, b, Calc(c, a, 0, NoNext).at, NoNext).size
  {
    hide Enc, Calc;
    var rest := MCons(2, false, Req(b), MNil);
    var p, at := Enc(c, a, 0).rel, Calc(c, a, 0, NoNext).at;
    var e, r := Enc(c, b, p), Calc(c, b, at, NoNext);
    assert EncMembers(c, Final, MNil, e.rel).cells == [] && CalcMembers(c, Final, MNil, r.at, NoNext).size == 0;
    assert |EncMembers(c, Final, rest, p).cells| == |e.cells| && CalcMembers(c, Final, rest, at, NoNext).size == r.size;
  }

  lemma NoElements(c: Config, p: nat)
    ensures Elements(c, K8, [], p) == []
  {
  }

  /** The flag: numbers, wide strings and booleans leave it alone, what starts with a length sets it by its unit. */
  lemma FlagCharge(c: Config, v: Value, at: nat, next: NextInt)
    requires c.v2
    ensures var r := Calc(c, v, at, next).next;
      match v
      case Prim(_, _) => r == next
      case Str(_) => r == Next1
      case WStr(_) => r == next
      case SeqPrim(k, _) =>
        r == (match k case K1 => Next1 case KBool => next case K2 => NoNext case K4 => Next4 case K8 => Next8)
      case Seq(_, _) => r == Next1
      case Struct(ext, ms) => (ext != Final ==> r == Next1) && (ext == Final && ms.MNil? ==> r == NoNext)
  {
    hide Pad;
  }

  /** An XCDRv1 header: none for a plain member of no bytes, 4 bytes up to the identifier 0x3F00 and 0xFFFF bytes, 12 beyond. */
  lemma HeaderCharge1(c: Config, id: nat, always: bool, v: Value, next: NextInt)
    requires !c.v2
    ensures var r := Calc(c, v, 0, next);
      var h := if r.size == 0 && !always then 0 else if id <= 0x3F00 && r.size <= 0xFFFF then 4 else 12;
      CalcHeaded1(c, id, always, v, 0, next) == Sized(h + r.size, r.at, r.next)
  {
    hide Calc;
  }

  /**
   An XCDRv2 header, and how far it moves the position. A plain member of 1, 2, 4 or 8 bytes takes 4, any optional up to 8
   bytes takes 4, others 4 if the flag says that they share their length and 8 if not. The position of a plain one moves
   as if nothing were shared.
   */
  lemma HeaderCharge2(c: Config, v: Value, next: NextInt)
    requires c.v2 && Calc(c, v, 0, next).size > 0
    ensures var r := Calc(c, v, 0, next);
      var short := r.size == 1 || r.size == 2 || r.size == 4 || r.size == 8;
      && CalcHeaded2(c, false, v, 0, next)
         == Sized(r.size + (if short || r.next != NoNext then 4 else 8), r.at + (if short then 4 else 8), r.next)
      && CalcHeaded2(c, true, v, 0, next)
         == var h := if r.size <= 8 || r.next != NoNext then 4 else 8; Sized(r.size + h, r.at + h, r.next)
  {
    hide Calc;
  }

  /** A member of no bytes is charged no header in a mutable struct. */
  lemma HollowCharge2(c: Config, optional: bool, v: Value, next: NextInt)
    requires c.v2 && Calc(c, v, 0, next).size == 0
    ensures CalcHeaded2(c, optional, v, 0, next).size == 0
  {
    hide Calc;
  }

  lemma OneMember2(c: Config, slot: Slot)
    requires c.v2
    ensures Calc(c, Struct(Mutable, MCons(1, false, slot, MNil)), 0, NoNext).size
         == 4 + CalcSlot(c, Mutable, 1, slot, 4, NoNext).size
  {
    hide CalcSlot;
    var a := CalcSlot(c, Mutable, 1, slot, 4, NoNext);
    assert CalcMembers(c, Mutable, MNil, a.at, a.next).size == 0;
  }

  /** A string as a member, optional or not: DHEADER, 4 bytes of header, and the string. */
  lemma StringMemberCharge(c: Config, text: seq<byte>, optional: bool)
    requires c.v2
    ensures var slot := if optional then Present(Str(text)) else Req(Str(text));
      Calc(c, Struct(Mutable, MCons(1, false, slot, MNil)), 0, NoNext).size == |text| + 13
  {
    hide Calc;
    StringCharge(c, text, [], 4, NoNext);
    OneMember2(c, if optional then Present(Str(text)) else Req(Str(text)));
  }

  /**
   An optional does not take its flag along: a wide string of three characters behind an optional string, with or without
   an absent member between them, is charged 4 bytes of header, behind a plain string 8.
   */
  lemma FlagLeftOver(c: Config, chars: seq<nat>, ty: Type)
    requires c.v2 && |chars| == 3
    ensures var wide := MCons(2, false, Present(WStr(chars)), MNil);
      && Calc(c, Struct(Mutable, MCons(1, false, Present(Str([])), wide)), 0, NoNext).size == 30
      && Calc(c, Struct(Mutable, MCons(1, false, Present(Str([])), MCons(3, false, Absent(ty), wide))), 0, NoNext).size == 30
      && Calc(c, Struct(Mutable, MCons(1, false, Req(Str([])), wide)), 0, NoNext).size == 34
  {
    hide Calc;
    var wide := MCons(2, false, Present(WStr(chars)), MNil);
    StringCharge(c, [], chars, 4, NoNext);
    WideBehind(c, chars, 13, Next1);
    WideBehind(c, chars, 17, NoNext);
    assert CalcSlot(c, Mutable, 1, Present(Str([])), 4, NoNext) == Sized(9, 13, Next1);
    assert CalcSlot(c, Mutable, 1, Req(Str([])), 4, NoNext) == Sized(9, 17, NoNext);
    assert CalcSlot(c, Mutable, 3, Absent(ty), 13, Next1) == Sized(0, 13, Next1);
    MutableCharge2(c, MCons(1, false, Present(Str([])), wide));
    MutableCharge2(c, MCons(1, false, Present(Str([])), MCons(3, false, Absent(ty), wide)));
    MutableCharge2(c, MCons(1, false, Req(Str([])), wide));
    assert CalcMembers(c, Mutable, MCons(3, false, Absent(ty), wide), 13, Next1).size == 17;
  }

  lemma WideBehind(c: Config, chars: seq<nat>, at: nat, next: NextInt)
    requires c.v2 && |chars| == 3 && at % 4 == 1
    ensures CalcMembers(c, Mutable, MCons(2, false, Present(WStr(chars)), MNil), at, next).size
         == 3 + (if next == NoNext then 8 else 4) + 10
  {
    hide Calc;
    StringCharge(c, [], chars, at + 3, next);
    var a := CalcHeaded2(c, true, WStr(chars), at, next);
    assert a.size == 3 + (if next == NoNext then 8 else 4) + 10;
    assert CalcSlot(c, Mutable, 2, Present(WStr(chars)), at, next) == a;
    assert CalcMembers(c, Mutable, MNil, a.at, a.next).size == 0;
  }

  lemma MutableCharge2(c: Config, ms: Members)
    requires c.v2
    ensures Calc(c, Struct(Mutable, ms), 0, NoNext).size == 4 + CalcMembers(c, Mutable, ms, 4, NoNext).size
  {
    hide CalcMembers;
  }

  /**
   The flag of an optional string leaks out of a final struct: as a member of a mutable one that is charged 4 bytes of
   header, where the encoder writes 8.
   */
  lemma FlagLeaksOut(c: Config, text: seq<byte>)
    requires c.v2
    ensures var inner := Struct(Final, MCons(1, false, Present(Str(text)), MNil));
      && Calc(c, Struct(Mutable, MCons(1, false, Req(inner), MNil)), 0, NoNext).size == |text| + 17
      && Header2Length(c.sel, Next(inner), |text| + 9) == 8
  {
    hide Calc, CalcHeaded2;
    var inner := Struct(Final, MCons(1, false, Present(Str(text)), MNil));
    InnerCharge(c, text);
    OneMember2(c, Req(inner));
    HeadedInner(c, inner, |text| + 9);
  }

  lemma HeadedInner(c: Config, v: Value, n: nat)
    requires c.v2 && n > 8 && Calc(c, v, 4, NoNext).size == n && Calc(c, v, 4, NoNext).next == Next1
    ensures CalcHeaded2(c, false, v, 4, NoNext).size == n + 4
  {
    hide Calc;
  }

  lemma InnerCharge(c: Config, text: seq<byte>)
    requires c.v2
    ensures var r := Calc(c, Struct(Final, MCons(1, false, Present(Str(text)), MNil)), 4, NoNext);
      r.size == |text| + 9 && r.next == Next1
  {
    var s := Calc(c, Str(text), 5, NoNext);
    assert s == Sized(|text| + 8, |text| + 13, Next1);
    assert CalcSlot(c, Final, 1, Present(Str(text)), 4, NoNext) == Sized(|text| + 9, |text| + 13, Next1);
    assert CalcMembers(c, Final, MNil, |text| + 13, Next1) == Sized(0, |text| + 13, Next1);
  }
}
