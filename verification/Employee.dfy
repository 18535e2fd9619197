/** The `Employee` topic type: an appendable struct with one string, as its generated support code handles it. */
module Employees {
  import opened Layout
  import opened Schema
  import opened Encoding
  import opened Decoding
  import opened Evolution
  import opened Results
  import opened FastBuffers
  import opened Patching
  import opened Sizes
  import opened Calculators
  import opened Cdrs
  import opened Serializer
  import opened Deserializer
  import opened EndToEnd

  const EMPLOYEE: Type := TStruct(Appendable, FCons(0, false, false, TStr, FNil))

  function EmployeeOf(text: seq<byte>): Value {
    Struct(Appendable, MCons(0, false, Req(Str(text)), MNil))
  }

  function FlagFor(v2: bool): Algorithm {
    if v2 then DelimitCdr2 else PlainCdr
  }

  class Payload {
    var data: seq<byte>
    var length: nat
    var little: bool

    constructor (data: seq<byte>)
      ensures this.data == data && length == 0
    {
      this.data, length, little := data, 0, true;
    }
  }

  // ---------------------------------------------------------------- layout and size

  /** Bytes of a message. */
  ghost function Extent(v2: bool, little: bool, text: seq<byte>): nat {
    4 + |Enc(Automatic(v2, little), EmployeeOf(text), 0).cells|
  }

  /** An employee is its string, in XCDRv2 behind a DHEADER. */
  lemma EmployeeCells(c: Config, text: seq<byte>, p: nat)
    ensures var s := Enc(c, Str(text), if c.v2 then p + Pad(p, 4) + 4 else p);
      Enc(c, EmployeeOf(text), p) == if c.v2 then Out(U32(c, |s.cells|, p) + s.cells, s.rel) else s
  {
    hide Pad, U32;
    var ms := MCons(0, false, Req(Str(text)), MNil);
    var q := if c.v2 then p + Pad(p, 4) + 4 else p;
    var s := Enc(c, Str(text), q);
    hide Enc;
    assert EncSlot(c, Appendable, 0, false, Req(Str(text)), q) == s;
    assert s.cells + [] == s.cells;
    assert EncMembers(c, Appendable, MNil, s.rel) == Out([], s.rel);
    assert EncMembers(c, Appendable, ms, q) == s;
    EmployeeStruct(c, ms, p);
  }

  lemma EmployeeStruct(c: Config, ms: Members, p: nat)
    ensures Enc(c, Struct(Appendable, ms), p)
         == if !c.v2 then EncMembers(c, Appendable, ms, p)
            else var b := EncMembers(c, Appendable, ms, p + Pad(p, 4) + 4); Out(U32(c, |b.cells|, p) + b.cells, b.rel)
  {
    hide EncMembers, Pad, U32;
  }

  /** A message holds the text up to its first zero byte, its length, a terminating zero and the headers. */
  lemma ExtentIs(v2: bool, little: bool, text: seq<byte>)
    ensures Extent(v2, little, text) == |CText(text, 0)| + if v2 then 13 else 9
  {
    hide CText;
    EmployeeCells(Automatic(v2, little), text, 0);
  }

  // ---------------------------------------------------------------- the support code

  /** Begins the type, writes the member, ends the type; fails exactly where the room ends first and cannot grow. */
  method SerializeEmployee(cdr: Cdr, text: seq<byte>) returns (ok: bool)
    requires Ready(cdr)
    modifies cdr, cdr.buffer
    ensures !cdr.buffer.internal ==> |cdr.buffer.bytes| == |old(cdr.buffer.bytes)|
    ensures var out := Enc(old(cdr.Cfg(AutoShort)), EmployeeOf(text), old(cdr.offset) - old(cdr.origin));
      Ended(cdr, ok, true, |out.cells|, out)
  {
    hide Pad, Enc, U32, Holds, Kept;
    EmployeeCells(cdr.Cfg(AutoShort), text, cdr.offset - cdr.origin);
    if cdr.v2 { ok := SerializeEmployee2(cdr, text); } else { ok := SerializeEmployee1(cdr, text); }
  }

  /** The one member: no header in either encoding. */
  method SerializeText(cdr: Cdr, text: seq<byte>) returns (ok: bool)
    requires Ready(cdr) && cdr.encoding == FlagFor(cdr.v2)
    modifies cdr, cdr.buffer
    ensures !cdr.buffer.internal ==> |cdr.buffer.bytes| == |old(cdr.buffer.bytes)|
    ensures var out := Enc(old(cdr.Cfg(AutoShort)), Str(text), old(cdr.offset) - old(cdr.origin));
      Ended(cdr, ok, true, |out.cells|, out)
  {
    hide Pad, Enc, Holds, Kept, Cap, Request;
    cdr.nextId := 0;
    var st := OpenPlain(cdr, 0, false, true, AutoShort);
    ok := cdr.SerializeString(text);
    if !ok { return; }
    KeptLonger(old(cdr.buffer.bytes), cdr.buffer.bytes, old(cdr.offset));
    ClosePlain(cdr, st);
  }

  method SerializeEmployee2(cdr: Cdr, text: seq<byte>) returns (ok: bool)
    requires cdr.v2 && Ready(cdr)
    modifies cdr, cdr.buffer
    ensures !cdr.buffer.internal ==> |cdr.buffer.bytes| == |old(cdr.buffer.bytes)|
    ensures var c, p := old(cdr.Cfg(AutoShort)), old(cdr.offset) - old(cdr.origin);
      var s := Enc(c, Str(text), p + Pad(p, 4) + 4);
      var cells := U32(c, |s.cells|, p) + s.cells;
      Ended(cdr, ok, true, |cells|, Out(cells, s.rel))
  {
    hide Pad, Enc, U32, Holds, Kept, Stamped, ToBytes;
    ghost var c, p, was, at := cdr.Cfg(AutoShort), cdr.offset - cdr.origin, cdr.buffer.bytes, cdr.offset;
    var st;
    st, ok := cdr.BeginType2(DelimitCdr2);
    if !ok { return; }
    ghost var b0, at0 := cdr.buffer.bytes, cdr.offset;
    ok := SerializeText(cdr, text);
    if !ok { return; }
    ghost var b1 := cdr.buffer.bytes;
    KeptTrans(was, b0, b1, at, at0);
    cdr.EndType2(st);
    CloseDheader(c, was, b1, cdr.buffer.bytes, at, p, Enc(c, Str(text), at0 - cdr.origin).cells);
  }

  method SerializeEmployee1(cdr: Cdr, text: seq<byte>) returns (ok: bool)
    requires !cdr.v2 && Ready(cdr)
    modifies cdr, cdr.buffer
    ensures !cdr.buffer.internal ==> |cdr.buffer.bytes| == |old(cdr.buffer.bytes)|
    ensures var out := Enc(old(cdr.Cfg(AutoShort)), Str(text), old(cdr.offset) - old(cdr.origin));
      Ended(cdr, ok, true, |out.cells|, out)
  {
    hide Pad, Enc, Holds, Kept, Patched;
    var st := cdr.BeginType1(PlainCdr);
    ok := SerializeText(cdr, text);
    if !ok { return; }
    ok := cdr.EndType1(st);
  }

  /** The four bytes a message opens with. */
  lemma Opening(buf: seq<byte>, v2: bool, little: bool)
    requires Holds(buf, 0, Raw(EncapsulationBytes(Encapsulation(FlagFor(v2), little, (0, 0)))))
    ensures |buf| >= 4 && buf[..4] == [0, (if v2 then 8 else 0) + (if little then 1 else 0), 0, 0]
  {
    hide Holds;
    EncapsulationLiterals(0, 0);
    HoldsRaw(buf, 0, EncapsulationBytes(Encapsulation(FlagFor(v2), little, (0, 0))));
  }

  /** `serialize`: succeeds exactly when the payload has room for the message, and then holds it. */
  method Serialize(text: seq<byte>, payload: Payload, v2: bool, hostLittle: bool) returns (ok: bool)
    modifies payload
    ensures |payload.data| == |old(payload.data)|
    ensures ok == (Extent(v2, hostLittle, text) <= |payload.data|)
    ensures ok ==> payload.length == Extent(v2, hostLittle, text) % TWO_32 && payload.little == hostLittle
    ensures ok ==> Carries(payload.data, FlagFor(v2), Automatic(v2, hostLittle), EmployeeOf(text))
    ensures var code := (if v2 then 8 else 0) + (if hostLittle then 1 else 0);
      ok ==> |payload.data| >= 4 && payload.data[..4] == [0, code, 0, 0]
  {
    hide Enc, Holds, Kept, Raw, Pad, EncapsulationBytes, CacheHolds;
    var buffer := new FastBuffer.User(payload.data);
    var cdr := new Cdr(buffer, hostLittle, hostLittle, v2);
    payload.little := cdr.little;
    ok := cdr.SetEncodingFlag(FlagFor(v2));
    ok := cdr.SerializeEncapsulation();
    if ok {
      ghost var mid := buffer.bytes;
      ok := SerializeEmployee(cdr, text);
      if ok {
        HoldsKept(mid, buffer.bytes, 4, 0, Raw(EncapsulationBytes(Encapsulation(FlagFor(v2), hostLittle, (0, 0)))));
        Opening(buffer.bytes, v2, hostLittle);
        payload.length := cdr.offset % TWO_32;
      }
    }
    payload.data := buffer.bytes;
  }

  /** Whatever bytes are read as an employee, the result is one. */
  lemma DecodedEmployee(c: Config, buf: seq<byte>, cur: Cur)
    requires Inside(cur, buf) && Decode(c, EMPLOYEE, buf, cur).Ok?
    ensures exists text :: Decode(c, EMPLOYEE, buf, cur).value == EmployeeOf(text)
  {
    hide DecStr, DecU32, Pad;
    var fs := FCons(0, false, false, TStr, FNil);
    var start, stop := cur, |buf|;
    if c.v2 {
      var dh := DecU32(c, buf, cur);
      start, stop := dh.cur, dh.cur.off + dh.value;
    }
    var ms := DecFields(c, fs, buf, start, stop);
    if start.off >= stop {
      assert ms.value == DefaultMembers(fs) == MCons(0, false, Req(Str([])), DefaultMembers(FNil));
      assert Decode(c, EMPLOYEE, buf, cur).value == EmployeeOf([]);
    } else {
      var s := DecStr(c, buf, start);
      assert DecSlot(c, false, TStr, buf, start) == Ok(Req(Str(s.value)), s.cur);
      assert Decode(c, EMPLOYEE, buf, cur).value == EmployeeOf(s.value);
    }
  }

  /** The byte order a message announces, or `otherwise` if it announces none. */
  ghost function Announced(buf: seq<byte>, otherwise: bool): bool {
    if |buf| < 4 then otherwise
    else
      match ParseEncapsulation(buf[0], buf[1], buf[2], buf[3])
      case None => otherwise
      case Some(e) => e.little
  }

  /** `deserialize`, from the used part of a payload. */
  method Deserialize(payload: Payload, hostLittle: bool) returns (r: Option<seq<byte>>)
    requires payload.length <= |payload.data|
    modifies payload`little
    ensures payload.little == Announced(payload.data[..payload.length], old(payload.little))
    ensures match Message(payload.data[..payload.length], EMPLOYEE)
      case Err => r == None
      case Ok(v, _) => r.Some? && v == EmployeeOf(r.value)
  {
    hide Decode, ParseEncapsulation;
    var buf := payload.data[..payload.length];
    var buffer := new FastBuffer.User(buf);
    var cdr := new Cdr(buffer, hostLittle, hostLittle, true);
    var ok := cdr.ReadEncapsulation();
    if !ok { return None; }
    payload.little := cdr.little;
    var v := DeserializeValue(cdr, EMPLOYEE);
    if v.None? { return None; }
    DecodedEmployee(Config(cdr.v2, cdr.little, AutoShort), buf, Cur(4, 0));
    r := Some(v.value.members.slot.v.text);
  }

  /** `calculate_serialized_size`: what the calculator says, and the encapsulation, in 32 bits. */
  method CalculateSerializedSize(text: seq<byte>, v2: bool) returns (n: nat)
    ensures n == (|text| + if v2 then 13 else 9) % TWO_32
  {
    var calculator := new Calculator(v2, true);
    var size, after := calculator.CalculateStruct(Appendable, MCons(0, false, Req(Str(text)), MNil), 0);
    assert size == |text| + if v2 then 9 else 5 by { CalculatedSize(v2, text); }
    n := (size % TWO_32 + 4) % TWO_32;
  }

  lemma CalculatedSize(v2: bool, text: seq<byte>)
    ensures Calc(Automatic(v2, true), EmployeeOf(text), 0, NoNext).size == |text| + if v2 then 9 else 5
  {
    var c, q := Automatic(v2, true), if v2 then 4 else 0;
    assert CalcSlot(c, Appendable, 0, Req(Str(text)), q, NoNext).size == 5 + |text|;
    assert CalcMembers(c, Appendable, MNil, 0, NoNext).size == 0;
    assert CalcMembers(c, Appendable, MCons(0, false, Req(Str(text)), MNil), q, NoNext).size == 5 + |text|;
  }

  // ---------------------------------------------------------------- end to end

  lemma {:induction false} CTextLength(text: seq<byte>)
    ensures |CText(text, 0)| <= |text|
    ensures |CText(text, 0)| == |text| <==> CText(text, 0) == text
    ensures CText(text, 0) == text <==> NulFree(Str(text))
  {
    ViewSame(Automatic(true, true), Str(text));
  }

  lemma MessageEmployee(data: seq<byte>, v2: bool, little: bool, text: seq<byte>)
    requires Carries(data, FlagFor(v2), Automatic(v2, little), EmployeeOf(text)) && Extent(v2, little, text) < TWO_32
    ensures Extent(v2, little, text) <= |data|
    ensures var r := Message(data[..Extent(v2, little, text)], EMPLOYEE); r.Ok? && r.value == EmployeeOf(CText(text, 0))
  {
    hide Enc, Holds, CText, Message, Raw;
    var c, n := Automatic(v2, little), Extent(v2, little, text);
    HoldsFits(data, 4, Enc(c, EmployeeOf(text), 0).cells);
    HoldsPrefix(data, n, 0, Raw(EncapsulationBytes(Encapsulation(FlagFor(v2), little, (0, 0)))));
    HoldsPrefix(data, n, 4, Enc(c, EmployeeOf(text), 0).cells);
    assert Writable(c, EmployeeOf(text)) && Reads(c, false, EMPLOYEE, EmployeeOf(text)) by { EmployeeInScope(c, text); }
    MessageRead(data[..n], FlagFor(v2), c, EmployeeOf(text), EMPLOYEE);
    EmployeeView(text);
  }

  lemma EmployeeInScope(c: Config, text: seq<byte>)
    ensures Writable(c, EmployeeOf(text)) && Reads(c, false, EMPLOYEE, EmployeeOf(text))
  {
    var ms := MCons(0, false, Req(Str(text)), MNil);
    assert WritableMembers(c, Appendable, MNil) && Writable(c, Str(text)) && WritableMembers(c, Appendable, ms);
    assert ReadsPlain(c, false, c.v2, FNil, MNil) && Reads(c, false, TStr, Str(text));
    assert ReadsPlain(c, false, c.v2, FCons(0, false, false, TStr, FNil), ms);
  }

  lemma EmployeeView(text: seq<byte>)
    ensures View(EMPLOYEE, EmployeeOf(text)) == EmployeeOf(CText(text, 0))
  {
    assert ViewPlain(FNil, MNil) == MNil;
    assert View(TStr, Str(text)) == Str(CText(text, 0));
  }

  /**
   For every text and both representations: a payload of the calculated size suffices exactly if the message is no
   longer than that size in 32 bits, which it is for every text below 2^32. Then its length is the message's, and a
   reader on any host obtains the text up to its first zero byte. That is the whole text, and below 2^32 the calculated
   size, exactly if it holds no zero byte.
   */
  method Exchange(text: seq<byte>, v2: bool, writerHost: bool, readerHost: bool)
      returns (ok: bool, size: nat, payload: Payload, r: Option<seq<byte>>)
    ensures size == |payload.data| && ok == (Extent(v2, writerHost, text) <= size)
    ensures |text| + 13 < TWO_32 ==> ok
    ensures ok ==> payload.length == Extent(v2, writerHost, text) && r == Some(CText(text, 0))
    ensures ok ==> (r == Some(text) <==> NulFree(Str(text)))
    ensures |text| + 13 < TWO_32 ==> (payload.length == size <==> NulFree(Str(text)))
  {
    hide Carries, Message, CText, NulFree, Extent;
    size := CalculateSerializedSize(text, v2);
    var block := Uninitialised(size);
    payload := new Payload(block);
    ok := Serialize(text, payload, v2, writerHost);
    ExtentIs(v2, writerHost, text);
    CTextLength(text);
    if !ok { return ok, size, payload, None; }
    MessageEmployee(payload.data, v2, writerHost, text);
    r := Deserialize(payload, readerHost);
  }
}
