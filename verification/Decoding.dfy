/**
 What a reader gets out of arbitrary bytes: the value its type asks for and the cursor after it,
 or an error. The reader's functor is a lookup in its own member list.
 */
module Decoding {
  import opened Layout
  import opened Schema
  import opened Encoding

  /** Cursor: index into the buffer, and distance from the alignment origin. */
  datatype Cur = Cur(off: nat, rel: nat)

  predicate Inside(cur: Cur, buf: seq<byte>) {
    cur.rel <= cur.off <= |buf|
  }

  datatype Res<+T> = Ok(value: T, cur: Cur) | Err

  /** Decoding only moves forward, stays inside, and in XCDRv2 keeps the origin. */
  predicate Advances<T>(c: Config, buf: seq<byte>, cur: Cur, r: Res<T>) {
    r.Ok? ==> Inside(r.cur, buf) && cur.off <= r.cur.off && (c.v2 ==> r.cur.off - r.cur.rel == cur.off - cur.rel)
  }

  const TWO_32: nat := 0x1_0000_0000

  // ---------------------------------------------------------------- primitives

  function DecScalar(c: Config, w: nat, a: nat, buf: seq<byte>, cur: Cur): (r: Res<nat>)
    requires IsAlign(a) && Inside(cur, buf)
    ensures r.Ok? ==> r.cur == Cur(cur.off + Pad(cur.rel, a) + w, cur.rel + Pad(cur.rel, a) + w) && r.cur.off <= |buf|
  {
    var at := cur.off + Pad(cur.rel, a);
    if at + w <= |buf| then
      Ok(FromBytes(c.little, buf[at..at + w]), Cur(cur.off + Pad(cur.rel, a) + w, cur.rel + Pad(cur.rel, a) + w))
    else Err
  }

  function DecU32(c: Config, buf: seq<byte>, cur: Cur): (r: Res<nat>)
    requires Inside(cur, buf)
    ensures r.Ok? ==> r.cur == Cur(cur.off + Pad(cur.rel, 4) + 4, cur.rel + Pad(cur.rel, 4) + 4) && r.cur.off <= |buf|
  {
    DecScalar(c, 4, 4, buf, cur)
  }

  function DecPrim(c: Config, k: Kind, buf: seq<byte>, cur: Cur): (r: Res<nat>)
    requires Inside(cur, buf)
    ensures Advances(c, buf, cur, r)
  {
    var r := DecScalar(c, Size(k), c.AlignOf(k), buf, cur);
    if r.Ok? && k == KBool && r.value > 1 then Err else r
  }

  /** Elements one after the other, each aligned on its own. */
  function DecElements(c: Config, k: Kind, n: nat, buf: seq<byte>, cur: Cur): (r: Res<seq<nat>>)
    requires Inside(cur, buf)
    ensures Advances(c, buf, cur, r)
    decreases n
  {
    if n == 0 then Ok([], cur)
    else
      match DecPrim(c, k, buf, cur)
      case Err => Err
      case Ok(x, cur1) =>
        match DecElements(c, k, n - 1, buf, cur1)
        case Err => Err
        case Ok(xs, cur2) => Ok([x] + xs, cur2)
  }

  /** Without the zero at the end, if there is one. */
  function Untrail(s: seq<byte>): seq<byte>
    requires s != []
  {
    if s[|s| - 1] == 0 then s[..|s| - 1] else s
  }

  /** A string: its length counts a terminating zero, which is dropped if it is there. */
  function DecStr(c: Config, buf: seq<byte>, cur: Cur): (r: Res<seq<byte>>)
    requires Inside(cur, buf)
    ensures Advances(c, buf, cur, r)
  {
    match DecU32(c, buf, cur)
    case Err => Err
    case Ok(n, cur1) =>
      if n == 0 then Ok([], cur1)
      else if cur1.off + n <= |buf| then
        Ok(Untrail(buf[cur1.off..cur1.off + n]), Cur(cur1.off + n, cur1.rel + n))
      else Err
  }

  /** A wide string: the number of its characters, which is doubled in 32 bits to test for room. */
  function DecWStr(c: Config, buf: seq<byte>, cur: Cur): (r: Res<seq<nat>>)
    requires Inside(cur, buf)
    ensures Advances(c, buf, cur, r)
  {
    match DecU32(c, buf, cur)
    case Err => Err
    case Ok(n, cur1) =>
      var bytes := n * 2 % TWO_32;
      if bytes == 0 then Ok([], cur1)
      else if |buf| - cur1.off < bytes then Err
      else
        match DecElements(c, K2, n, buf, cur1)
        case Err => Err
        case Ok(ns, cur2) => Ok(WUntrail(ns), cur2)
  }

  function DecSeqPrim(c: Config, k: Kind, buf: seq<byte>, cur: Cur): (r: Res<seq<nat>>)
    requires Inside(cur, buf)
    ensures Advances(c, buf, cur, r)
  {
    match DecU32(c, buf, cur)
    case Err => Err
    case Ok(n, cur1) => if |buf| - cur1.off < n then Err else DecElements(c, k, n, buf, cur1)
  }

  /** `jump`: forward if the buffer reaches that far, otherwise not at all. */
  function Jump(buf: seq<byte>, cur: Cur, n: nat): (r: Cur)
    requires Inside(cur, buf)
    ensures Inside(r, buf) && cur.off <= r.off && r.off - r.rel == cur.off - cur.rel
  {
    if cur.off + n <= |buf| then Cur(cur.off + n, cur.rel + n) else cur
  }

  // ---------------------------------------------------------------- member headers

  /** A member header: announced identifier, flag and body size, and the bytes the header itself takes. */
  datatype Header = Header(id: nat, must: bool, size: nat, len: nat)

  /** The body size an XCDRv2 length code and NEXTINT announce, in 32-bit arithmetic. */
  function CodedSize(code: nat, nextint: nat): nat {
    if code == 0 then 1
    else if code == 1 then 2
    else if code == 2 then 4
    else if code == 3 then 8
    else if code == 4 then nextint
    else (4 + nextint * (if code == 5 then 1 else if code == 6 then 4 else 8)) % TWO_32
  }

  /** An XCDRv2 header. A shared NEXTINT is read for its value and left for the body to read again. */
  function DecHeader2(c: Config, buf: seq<byte>, cur: Cur): (r: Res<Header>)
    requires Inside(cur, buf)
    ensures r.Ok? ==> r.value.len == 4 || r.value.len == 8
    ensures r.Ok? ==>
      && r.cur == Cur(cur.off + Pad(cur.rel, 4) + r.value.len, cur.rel + Pad(cur.rel, 4) + r.value.len)
      && Inside(r.cur, buf)
  {
    PadAfter4(cur.rel);
    match DecU32(c, buf, cur)
    case Err => Err
    case Ok(w, cur1) =>
      var must, code, id := w / 0x8000_0000 % 2 == 1, w / 0x1000_0000 % 8, w % 0x1000_0000;
      if code < 4 then Ok(Header(id, must, CodedSize(code, 0), 4), cur1)
      else
        match DecU32(c, buf, cur1)
        case Err => Err
        case Ok(n, cur2) =>
          if code == 4 then Ok(Header(id, must, CodedSize(code, n), 8), cur2)
          else Ok(Header(id, must, CodedSize(code, n), 4), cur1)
  }

  /** An XCDRv1 header: a member, whose body starts a new origin, or the sentinel. */
  datatype Parameter = Member(h: Header) | End

  function DecHeader1(c: Config, buf: seq<byte>, cur: Cur): (r: Res<Parameter>)
    requires Inside(cur, buf)
    ensures r.Ok? ==> Inside(r.cur, buf) && cur.off + 4 <= r.cur.off
  {
    match DecScalar(c, 2, 4, buf, cur)
    case Err => Err
    case Ok(w, cur1) =>
      var must, id := w / 0x4000 % 2 == 1, w % 0x4000;
      match DecScalar(c, 2, 2, buf, cur1)
      case Err => Err
      case Ok(size, cur2) =>
        if id < PID_EXTENDED then Ok(Member(Header(id, must, size, 4)), Cur(cur2.off, 0))
        else if id == PID_EXTENDED then
          if size != 8 then Err
          else
            match DecU32(c, buf, cur2)
            case Err => Err
            case Ok(mid, cur3) =>
              match DecU32(c, buf, cur3)
              case Err => Err
              case Ok(msize, cur4) => Ok(Member(Header(mid, must, msize, 12)), Cur(cur4.off, 0))
        else if id == PID_SENTINEL && size == 0 then Ok(End, cur2)
        else Err
  }

  // ---------------------------------------------------------------- values

  function Decode(c: Config, t: Type, buf: seq<byte>, cur: Cur): (r: Res<Value>)
    requires Inside(cur, buf)
    ensures Advances(c, buf, cur, r)
    decreases Height(t), 0, 1
  {
    match t
    case TPrim(k) =>
      (match DecPrim(c, k, buf, cur)
       case Err => Err
       case Ok(n, cur1) => Ok(Prim(k, n), cur1))
    case TStr =>
      (match DecStr(c, buf, cur)
       case Err => Err
       case Ok(s, cur1) => Ok(Str(s), cur1))
    case TWStr =>
      (match DecWStr(c, buf, cur)
       case Err => Err
       case Ok(s, cur1) => Ok(WStr(s), cur1))
    case TSeqPrim(k) =>
      (match DecSeqPrim(c, k, buf, cur)
       case Err => Err
       case Ok(ns, cur1) => Ok(SeqPrim(k, ns), cur1))
    case TSeq(e) => if c.v2 then DecSeq2(c, e, buf, cur) else DecSeq1(c, e, buf, cur)
    case TStruct(ext, fs) =>
      if ext == Mutable then
        match if c.v2 then DecMutable2(c, fs, buf, cur) else Loop1(c, fs, buf, cur, DefaultMembers(fs))
        case Err => Err
        case Ok(ms, cur1) => Ok(Struct(ext, ms), cur1)
      else
        match if c.v2 && ext == Appendable then DecDelimited(c, fs, buf, cur)
              else DecFields(c, fs, buf, cur, |buf|)
        case Err => Err
        case Ok(ms, cur1) => Ok(Struct(ext, ms), cur1)
  }

  /** XCDRv2 sequence of non-primitives: elements are read while the DHEADER extent lasts. */
  function DecSeq2(c: Config, e: Type, buf: seq<byte>, cur: Cur): (r: Res<Value>)
    requires c.v2 && Inside(cur, buf)
    ensures Advances(c, buf, cur, r)
    decreases Height(e) + 1, 0, 0
  {
    match DecU32(c, buf, cur)
    case Err => Err
    case Ok(dh, start) =>
      match DecU32(c, buf, start)
      case Err => Err
      case Ok(n, cur1) =>
        if n == 0 then Ok(Seq(e, INil), cur1)
        else
          match DecItems(c, e, n, buf, cur1, start.off + dh)
          case Err => Err
          case Ok(items, cur2) => if cur2.off == start.off + dh then Ok(Seq(e, items), cur2) else Err
  }

  /** XCDRv1 sequence of non-primitives: refused at once when fewer bytes than elements are left. */
  function DecSeq1(c: Config, e: Type, buf: seq<byte>, cur: Cur): (r: Res<Value>)
    requires !c.v2 && Inside(cur, buf)
    ensures Advances(c, buf, cur, r)
    decreases Height(e) + 1, 0, 0
  {
    match DecU32(c, buf, cur)
    case Err => Err
    case Ok(n, cur1) =>
      if |buf| - cur1.off < n then Err
      else
        match DecItems(c, e, n, buf, cur1, |buf| + 1)
        case Err => Err
        case Ok(items, cur2) => Ok(Seq(e, items), cur2)
  }

  /** Up to `n` elements, default ones from the position `stop` on. */
  function DecItems(c: Config, e: Type, n: nat, buf: seq<byte>, cur: Cur, stop: nat): (r: Res<Items>)
    requires Inside(cur, buf)
    ensures Advances(c, buf, cur, r)
    decreases Height(e), n, 0
  {
    if n == 0 || cur.off >= stop then Ok(DefaultItems(e, n), cur)
    else
      match Decode(c, e, buf, cur)
      case Err => Err
      case Ok(v, cur1) =>
        match DecItems(c, e, n - 1, buf, cur1, stop)
        case Err => Err
        case Ok(rest, cur2) => Ok(ICons(v, rest), cur2)
  }

  /** Members in declaration order, default ones from the position `stop` on. */
  function DecFields(c: Config, fs: Fields, buf: seq<byte>, cur: Cur, stop: nat): (r: Res<Members>)
    requires Inside(cur, buf)
    ensures Advances(c, buf, cur, r)
    decreases FieldsHeight(fs), 0, 1
  {
    match fs
    case FNil => Ok(MNil, cur)
    case FCons(id, must, opt, ty, rest) =>
      if cur.off >= stop then Ok(DefaultMembers(fs), cur)
      else
        match DecSlot(c, opt, ty, buf, cur)
        case Err => Err
        case Ok(slot, cur1) =>
          match DecFields(c, rest, buf, cur1, stop)
          case Err => Err
          case Ok(ms, cur2) => Ok(MCons(id, must, slot, ms), cur2)
  }

  /** One member of a final or appendable struct. */
  function DecSlot(c: Config, opt: bool, ty: Type, buf: seq<byte>, cur: Cur): (r: Res<Slot>)
    requires Inside(cur, buf)
    ensures Advances(c, buf, cur, r)
    decreases Height(ty), 0, 2
  {
    if !opt then
      match Decode(c, ty, buf, cur)
      case Err => Err
      case Ok(v, cur1) => Ok(Req(v), cur1)
    else if c.v2 then
      match DecPrim(c, KBool, buf, cur)
      case Err => Err
      case Ok(b, cur1) =>
        if b == 0 then Ok(Absent(ty), cur1)
        else
          match Decode(c, ty, buf, cur1)
          case Err => Err
          case Ok(v, cur2) => Ok(Present(v), cur2)
    else
      match DecHeader1(c, buf, cur)
      case Err => Err
      case Ok(h, cur1) =>
        if h.End? || h.h.size == 0 then Ok(Absent(ty), cur1)
        else
          match Decode(c, ty, buf, cur1)
          case Err => Err
          case Ok(v, cur2) => if cur2.off - cur1.off == h.h.size then Ok(Present(v), cur2) else Err
  }

  /** XCDRv2 appendable struct: members while the DHEADER extent lasts, then a jump to its end. */
  function DecDelimited(c: Config, fs: Fields, buf: seq<byte>, cur: Cur): (r: Res<Members>)
    requires c.v2 && Inside(cur, buf)
    ensures Advances(c, buf, cur, r)
    decreases FieldsHeight(fs), 0, 2
  {
    match DecU32(c, buf, cur)
    case Err => Err
    case Ok(dh, start) =>
      match DecFields(c, fs, buf, start, start.off + dh)
      case Err => Err
      case Ok(ms, cur1) =>
        // An overshoot makes the distance wrap to a huge one, for which the jump does nothing.
        Ok(ms, if cur1.off <= start.off + dh then Jump(buf, cur1, start.off + dh - cur1.off) else cur1)
  }

  /** XCDRv2 mutable struct: member rounds until the DHEADER extent is used up exactly. */
  function DecMutable2(c: Config, fs: Fields, buf: seq<byte>, cur: Cur): (r: Res<Members>)
    requires c.v2 && Inside(cur, buf)
    ensures Advances(c, buf, cur, r)
    decreases FieldsHeight(fs), |buf| + 1, 0
  {
    match DecU32(c, buf, cur)
    case Err => Err
    case Ok(dh, start) => Loop2(c, fs, buf, start, start.off + dh, DefaultMembers(fs))
  }

  function Loop2(c: Config, fs: Fields, buf: seq<byte>, cur: Cur, end: nat, acc: Members): (r: Res<Members>)
    requires c.v2 && Inside(cur, buf)
    ensures Advances(c, buf, cur, r)
    ensures r.Ok? ==> r.cur.off == end
    decreases FieldsHeight(fs), |buf| - cur.off, 1
  {
    if cur.off == end then Ok(acc, cur)
    else if cur.off > end then Err
    else
      match Round2(c, fs, buf, cur, acc)
      case Err => Err
      case Ok(acc1, cur1) => Loop2(c, fs, buf, cur1, end, acc1)
  }

  /** One round: header, then the known member or a jump over the unknown one, then the size check. */
  function Round2(c: Config, fs: Fields, buf: seq<byte>, cur: Cur, acc: Members): (r: Res<Members>)
    requires c.v2 && Inside(cur, buf)
    ensures Advances(c, buf, cur, r)
    ensures r.Ok? ==> cur.off + 5 <= r.cur.off
    decreases FieldsHeight(fs), |buf| - cur.off, 0
  {
    match DecHeader2(c, buf, cur)
    case Err => Err
    case Ok(h, cur1) =>
      match RoundBody(c, fs, buf, cur1, h, acc)
      case Err => Err
      case Ok(acc1, cur2) => if h.size > 0 && h.size == cur2.off - cur1.off then Ok(acc1, cur2) else Err
  }

  function RoundBody(c: Config, fs: Fields, buf: seq<byte>, cur: Cur, h: Header, acc: Members): (r: Res<Members>)
    requires Inside(cur, buf)
    ensures Advances(c, buf, cur, r)
    decreases FieldsHeight(fs), 0, 0
  {
    match FindField(fs, h.id)
    case None => if h.must then Err else Ok(acc, Jump(buf, cur, h.size))
    case Some(f) =>
      match Decode(c, f.ty, buf, cur)
      case Err => Err
      case Ok(v, cur1) => Ok(SetMember(acc, h.id, if f.opt then Present(v) else Req(v)), cur1)
  }

  /** XCDRv1 mutable struct: member rounds until the sentinel. */
  function Loop1(c: Config, fs: Fields, buf: seq<byte>, cur: Cur, acc: Members): (r: Res<Members>)
    requires !c.v2 && Inside(cur, buf)
    ensures Advances(c, buf, cur, r)
    decreases FieldsHeight(fs), |buf| - cur.off, 0
  {
    match DecHeader1(c, buf, cur)
    case Err => Err
    case Ok(h, cur1) =>
      if h.End? then Ok(acc, cur1)
      else
        match RoundBody(c, fs, buf, cur1, h.h, acc)
        case Err => Err
        case Ok(acc1, cur2) =>
          if h.h.size == cur2.off - cur1.off then Loop1(c, fs, buf, cur2, acc1) else Err
  }
}
