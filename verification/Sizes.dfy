/** The size calculator's arithmetic: a second account of the layout, with no buffer. */
module Sizes {
  import opened Layout
  import opened Schema
  import opened Encoding

  /** A calculated size, the calculator's alignment position after it, and its NEXTINT flag. */
  datatype Sized = Sized(size: nat, at: nat, next: NextInt)

  predicate PowerSize(n: nat) {
    n == 1 || n == 2 || n == 4 || n == 8
  }

  function Calc(c: Config, v: Value, at: nat, next: NextInt): (r: Sized)
    decreases v, 0
  {
    match v
    case Prim(k, _) =>
      var n := Pad(at, c.AlignOf(k)) + Size(k);
      Sized(n, at + n, next)
    case Str(text) =>
      var n := Pad(at, 4) + 4 + |text| + 1;
      Sized(n, at + n, Next1)
    case WStr(chars) =>
      var n := Pad(at, 4) + 4 + 2 * |chars|;
      Sized(n, at + n, next)
    case SeqPrim(k, ns) =>
      var n := Pad(at, 4) + 4;
      var m := if k == KBool then |ns| else Pad(at + n, c.AlignOf(k)) + |ns| * Size(k);
      Sized(n + m, at + n + m, if c.v2 && k != KBool then SeqNext(k) else next)
    case Seq(_, items) =>
      var n := if c.v2 then Pad(at, 4) + 4 else 0;
      var m := Pad(at + n, 4) + 4;
      var r := CalcItems(c, items, at + n + m, next);
      Sized(n + m + r.size, r.at, if c.v2 then Next1 else r.next)
    case Struct(ext, ms) =>
      var n := if c.v2 && ext != Final then Pad(at, 4) + 4 else 0;
      var r := CalcMembers(c, ext, ms, at + n, NoNext);
      var m := if !c.v2 && ext == Mutable then Pad(r.at, 4) + 4 else 0;
      Sized(n + r.size + m, r.at + m, if c.v2 && ext != Final then Next1 else r.next)
  }

  function CalcItems(c: Config, items: Items, at: nat, next: NextInt): (r: Sized)
    decreases items
  {
    match items
    case INil => Sized(0, at, next)
    case ICons(v, rest) =>
      var a := Calc(c, v, at, next);
      var b := CalcItems(c, rest, a.at, a.next);
      Sized(a.size + b.size, b.at, b.next)
  }

  function CalcMembers(c: Config, ext: Extensibility, ms: Members, at: nat, next: NextInt): (r: Sized)
    decreases ms
  {
    match ms
    case MNil => Sized(0, at, next)
    case MCons(id, _, slot, rest) =>
      var a := CalcSlot(c, ext, id, slot, at, next);
      var b := CalcMembers(c, ext, rest, a.at, a.next);
      Sized(a.size + b.size, b.at, b.next)
  }

  /** The two overloads for members: the one for plain members forgets the flag, the one for optionals does not. */
  function CalcSlot(c: Config, ext: Extensibility, id: nat, slot: Slot, at: nat, next: NextInt): (r: Sized)
    decreases slot
  {
    match slot
    case Req(v) =>
      var r := if ext != Mutable then Calc(c, v, at, next)
               else if c.v2 then CalcHeaded2(c, false, v, at, next)
               else CalcHeaded1(c, id, false, v, at, next);
      Sized(r.size, r.at, NoNext)
    case Absent(_) =>
      if ext == Mutable then Sized(0, at, next)
      else if c.v2 then Sized(1, at + 1, next)
      else Sized(Pad(at, 4) + Charge1(id, true, 0), 0, next)
    case Present(v) =>
      if c.v2 then
        if ext == Mutable then CalcHeaded2(c, true, v, at, next)
        else
          var r := Calc(c, v, at + 1, next);
          Sized(1 + r.size, r.at, r.next)
      else
        CalcHeaded1(c, id, ext != Mutable, v, at, next)
  }

  /** Header bytes an XCDRv2 member is charged for a body of `size` bytes; a joined NEXTINT is charged once. */
  function Charge2(optional: bool, next: NextInt, size: nat): nat {
    if (if optional then size <= 8 else PowerSize(size)) then 4
    else if next != NoNext then 4
    else 8
  }

  /** How far the position moves: the plain overload ignores that it took a joined NEXTINT off the size. */
  function Step2(optional: bool, next: NextInt, size: nat): nat {
    if optional then Charge2(optional, next, size) else if PowerSize(size) then 4 else 8
  }

  function CalcHeaded2(c: Config, optional: bool, v: Value, at: nat, next: NextInt): (r: Sized)
    requires c.v2
    decreases v, 1
  {
    var r := Calc(c, v, at + Pad(at, 4), next);
    if r.size == 0 then Sized(Pad(at, 4), r.at, r.next)
    else
      Sized(Pad(at, 4) + Charge2(optional, r.next, r.size) + r.size, r.at + Step2(optional, r.next, r.size), r.next)
  }

  /** An XCDRv1 member with a header, which `always` counts even for an empty body. */
  function CalcHeaded1(c: Config, id: nat, always: bool, v: Value, at: nat, next: NextInt): (r: Sized)
    requires !c.v2
    decreases v, 1
  {
    var r := Calc(c, v, 0, next);
    Sized(Pad(at, 4) + Charge1(id, always, r.size) + r.size, r.at, r.next)
  }

  /** Header bytes an XCDRv1 member is charged for a body of `size` bytes. */
  function Charge1(id: nat, always: bool, size: int): nat {
    if size == 0 && !always then 0 else if id > MAX_SHORT_ID || size > 0xFFFF then 12 else 4
  }
}
