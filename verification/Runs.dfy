/** Short runs after which the codec is not in the state one would expect. */
module Runs {
  import opened Layout
  import opened Schema
  import opened Encoding
  import opened Decoding
  import opened FastBuffers
  import opened Cdrs

  /** Saving a state, changing the order and restoring the state: the exchange is back, the order on record is not. */
  method RestoredOrder(host: bool) returns (cdr: Cdr)
    ensures cdr.Valid() && cdr.little != host && cdr.Order() == host && !cdr.OrderKept()
  {
    var buffer := new FastBuffer.User([]);
    cdr := new Cdr(buffer, host, host, true);
    var saved := cdr.GetState();
    cdr.ChangeEndianness(!host);
    cdr.SetState(saved);
  }

  /** An encapsulation in the other order that breaks off before its options. */
  method MisreadOrder(host: bool) returns (cdr: Cdr, ok: bool)
    ensures !ok && cdr.Valid() && cdr.little != host && cdr.Order() == host && !cdr.OrderKept()
  {
    var other: byte := if host then 0 else 1;
    var buffer := new FastBuffer.User([0, other]);
    cdr := new Cdr(buffer, host, host, true);
    assert cdr.OtherOrderAhead() && cdr.Ahead().None?;
    ok := cdr.ReadEncapsulation();
  }

  /** A count of 2^31 + 1 wide characters in front of one: the read fails, and the state before it is not restored. */
  method OverrunState(host: bool, a: byte, b: byte) returns (cdr: Cdr, r: Option<seq<nat>>, before: State)
    ensures r == None && cdr.Valid() && before.offset == 0 && cdr.GetState() != before
  {
    var buffer := new FastBuffer.User([1, 0, 0, 0x80, a, b]);
    cdr := new Cdr(buffer, host, true, true);
    before := cdr.GetState();
    OverrunAhead(cdr.Cfg(AutoShort), buffer.bytes, a, b);
    assert cdr.Overrun();
    r := cdr.ReadWString();
  }

  lemma OverrunAhead(c: Config, buf: seq<byte>, a: byte, b: byte)
    requires c.little && buf == [1, 0, 0, 0x80, a, b]
    ensures DecU32(c, buf, Cur(0, 0)) == Ok(0x8000_0001, Cur(4, 4)) && DecWStr(c, buf, Cur(0, 0)) == Err
  {
    hide DecElements;
    var s := buf[0..4];
    assert s == [1, 0, 0, 0x80];
    assert s[1..][1..] == [0, 0x80] && FromLittle([0x80]) == 0x80 && FromLittle([0, 0x80]) == 0x8000;
    assert FromLittle(s[1..]) == 0x80_0000;
    ElementsExtent(c, K2, 0x8000_0001, buf, Cur(4, 4));
  }
}
