/** The size calculator object, as generated code drives it. */
module Calculators {
  import opened Layout
  import opened Schema
  import opened Encoding
  import opened Sizes
  import opened Cdrs
  import opened Serializer

  class Calculator {
    const v2: bool
    const align64: nat
    /** The byte order of the writer it calculates for, which no size depends on. */
    ghost const little: bool
    var encoding: Algorithm
    var next: NextInt

    constructor (v2: bool, ghost little: bool)
      ensures Valid() && Cfg() == Config(v2, little, AutoShort) && this.v2 == v2
      ensures encoding == (if v2 then PlainCdr2 else PlainCdr) && next == NoNext
    {
      this.v2, align64, this.little := v2, if v2 then 4 else 8, little;
      encoding, next := if v2 then PlainCdr2 else PlainCdr, NoNext;
    }

    ghost predicate Valid() {
      align64 == if v2 then 4 else 8
    }

    ghost function Cfg(): Config {
      Config(v2, little, AutoShort)
    }

    /** The masked distance to the next multiple. */
    static function Alignment(at: nat, a: nat): (r: nat)
      requires IsAlign(a)
      ensures r == Pad(at, a)
    {
      MaskedPadIsPad(at, a);
      MaskedPad(at, a)
    }

    /** The call has come to what the size function says, and the algorithm is the caller's. */
    twostate predicate Came(spec: Sized, size: nat, after: nat)
      reads this
    {
      spec == Sized(size, after, next) && encoding == old(encoding)
    }

    method BeginType(a: Algorithm, at: nat) returns (size: nat, after: nat)
      modifies this
      ensures encoding == a && next == NoNext && after == at + size
      ensures size == if v2 && a != PlainCdr2 then Pad(at, 4) + 4 else 0
    {
      size := 0;
      encoding := a;
      if v2 && encoding != PlainCdr2 { size := 4 + Alignment(at, 4); }
      after := at + size;
      next := NoNext;
    }

    method EndType(a: Algorithm, at: nat) returns (size: nat, after: nat)
      modifies this
      ensures encoding == a && after == at + size
      ensures size == if !v2 && old(encoding) == PlCdr then Pad(at, 4) + 4 else 0
      ensures next == if v2 && old(encoding) != PlainCdr2 then Next1 else old(next)
    {
      size := 0;
      if !v2 && encoding == PlCdr {
        size := 4 + Alignment(at, 4);
      } else if v2 && encoding != PlainCdr2 {
        next := Next1;
      }
      after := at + size;
      encoding := a;
    }

    /** Computes the size of a value of any shape, moving the position and the flag along. */
    method CalculateValue(v: Value, at: nat) returns (size: nat, after: nat)
      requires Valid()
      modifies this
      ensures Came(Calc(Cfg(), v, at, old(next)), size, after)
      decreases v, 1
    {
      hide Pad, CalcItems, CalcMembers;
      match v
      case Prim(k, _) =>
        size := Size(k) + if Size(k) == 1 then 0 else Alignment(at, if k == K8 then align64 else Size(k));
        PadOne(at);
        after := at + size;
      case Str(text) =>
        size := 4 + Alignment(at, 4) + |text| + 1;
        after := at + size;
        next := Next1;
      case WStr(chars) =>
        size := 4 + Alignment(at, 4) + |chars| * 2;
        after := at + size;
      case SeqPrim(k, ns) => size, after := CalculateSeqPrim(k, |ns|, v, at);
      case Seq(_, items) =>
        var pos := at;
        if v2 { pos := pos + 4 + Alignment(pos, 4); }
        pos := pos + 4 + Alignment(pos, 4);
        size := pos - at;
        var rest;
        rest, after := CalculateItems(items, pos);
        size := size + rest;
        if v2 { next := Next1; }
      case Struct(ext, ms) => size, after := CalculateStruct(ext, ms, at);
    }

    /** A sequence of primitives; one of booleans leaves the flag as it was. */
    method CalculateSeqPrim(k: Kind, n: nat, ghost v: Value, at: nat) returns (size: nat, after: nat)
      requires Valid() && v.SeqPrim? && v.k == k && |v.ns| == n
      modifies this
      ensures Came(Calc(Cfg(), v, at, old(next)), size, after)
    {
      hide Pad;
      if k == KBool {
        size := n + 4 + Alignment(at, 4);
        after := at + size;
      } else {
        after := at + 4 + Alignment(at, 4);
        size := after - at;
        PadOne(after);
        var elements := n * Size(k) + if Size(k) == 1 then 0 else Alignment(after, if k == K8 then align64 else Size(k));
        after, size := after + elements, size + elements;
        if v2 { next := SeqNext(k); }
      }
    }

    method CalculateItems(items: Items, at: nat) returns (size: nat, after: nat)
      requires Valid()
      modifies this
      ensures Came(CalcItems(Cfg(), items, at, old(next)), size, after)
      decreases items, 0
    {
      hide Calc;
      ghost var all := CalcItems(Cfg(), items, at, next);
      var left := items;
      size, after := 0, at;
      while left.ICons?
        invariant encoding == old(encoding) && (left == items || left < items)
        invariant var rest := CalcItems(Cfg(), left, after, next); all == Sized(size + rest.size, rest.at, rest.next)
        decreases left
      {
        var n;
        n, after := CalculateValue(left.head, after);
        size := size + n;
        left := left.rest;
      }
    }

    method CalculateStruct(ext: Extensibility, ms: Members, at: nat) returns (size: nat, after: nat)
      requires Valid()
      modifies this
      ensures Came(Calc(Cfg(), Struct(ext, ms), at, old(next)), size, after)
      decreases ms, 1
    {
      hide Pad, CalcMembers;
      var previous := encoding;
      var head, body, foot;
      head, after := BeginType(AlgorithmOf(v2, ext), at);
      body, after := CalculateMembers(ext, ms, after);
      foot, after := EndType(previous, after);
      size := head + body + foot;
    }

    method CalculateMembers(ext: Extensibility, ms: Members, at: nat) returns (size: nat, after: nat)
      requires Valid() && encoding == AlgorithmOf(v2, ext)
      modifies this
      ensures Came(CalcMembers(Cfg(), ext, ms, at, old(next)), size, after)
      decreases ms, 0
    {
      hide CalcSlot;
      ghost var all := CalcMembers(Cfg(), ext, ms, at, next);
      var left := ms;
      size, after := 0, at;
      while left.MCons?
        invariant encoding == old(encoding) && (left == ms || left < ms)
        invariant var rest := CalcMembers(Cfg(), ext, left, after, next); all == Sized(size + rest.size, rest.at, rest.next)
        decreases left
      {
        var n;
        if left.slot.Req? {
          n, after := CalculateMember(ext, left.id, left.slot, after);
        } else {
          n, after := CalculateOptional(ext, left.id, left.slot, after);
        }
        size := size + n;
        left := left.rest;
      }
    }

    /** The overload for members that are not optional. */
    method CalculateMember(ghost ext: Extensibility, id: nat, slot: Slot, at: nat) returns (size: nat, after: nat)
      requires Valid() && encoding == AlgorithmOf(v2, ext) && slot.Req?
      modifies this
      ensures Came(CalcSlot(Cfg(), ext, id, slot, at, old(next)), size, after)
      decreases slot, 1
    {
      hide Pad, Calc;
      after := at;
      if encoding == PlCdr || encoding == PlCdr2 { after := after + Alignment(after, 4); }
      var before, extra := after - at, 0;
      if encoding == PlCdr { after := 0; }
      size, after := CalculateValue(slot.v, after);
      var joined := 0;
      if v2 && encoding == PlCdr2 && 0 < size {
        if 8 < size || !PowerSize(size) {
          extra := 8;
          if next != NoNext { joined := 4; }
        } else {
          extra := 4;
        }
      } else if !v2 && encoding == PlCdr && 0 < size {
        extra := if MAX_SHORT_ID < id || size > 0xFFFF then 12 else 4;
      }
      size := size + before + extra - joined;
      if encoding != PlCdr { after := after + extra; }
      next := NoNext;
    }

    /** The overload for optional members: another rule for the header, and the flag stays. */
    method CalculateOptional(ghost ext: Extensibility, id: nat, slot: Slot, at: nat) returns (size: nat, after: nat)
      requires Valid() && encoding == AlgorithmOf(v2, ext) && !slot.Req?
      modifies this
      ensures Came(CalcSlot(Cfg(), ext, id, slot, at, old(next)), size, after)
      decreases slot, 1
    {
      hide Pad, Calc;
      after := at;
      if !v2 || encoding == PlCdr2 {
        if slot.Present? || encoding == PlainCdr { after := after + Alignment(after, 4); }
      }
      var before, extra := after - at, 0;
      if !v2 && (slot.Present? || encoding == PlainCdr) { after := 0; }
      size, after := CalculateOptionalValue(slot, after);
      if v2 && encoding == PlCdr2 && 0 < size {
        extra := if 8 < size then if next != NoNext then 4 else 8 else 4;
      } else if !v2 && (0 < size || encoding == PlainCdr) {
        extra := if MAX_SHORT_ID < id || size > 0xFFFF then 12 else 4;
      }
      size := size + before + extra;
      if v2 { after := after + extra; }
    }

    /** The value of an optional, behind a flag of one byte where the algorithm has one. */
    method CalculateOptionalValue(slot: Slot, at: nat) returns (size: nat, after: nat)
      requires Valid() && !slot.Req?
      modifies this
      ensures var flag := if v2 && old(encoding) != PlCdr2 then 1 else 0;
        if slot.Absent? then Came(Sized(flag, at + flag, old(next)), size, after)
        else var r := Calc(Cfg(), slot.v, at + flag, old(next)); Came(Sized(flag + r.size, r.at, r.next), size, after)
      decreases slot, 0
    {
      hide Calc;
      size := if v2 && encoding != PlCdr2 then 1 else 0;
      after := at + size;
      if slot.Present? {
        var n;
        n, after := CalculateValue(slot.v, after);
        size := size + n;
      }
    }
  }
}
