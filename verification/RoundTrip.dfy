/** A reader gets back what was written, seen through its own type, and stops where the writer stopped. */
module RoundTrip {
  import opened Layout
  import opened Schema
  import opened Encoding
  import opened EncodingFacts
  import opened Decoding
  import opened Evolution

  // ---------------------------------------------------------------- XCDRv2 member headers

  lemma WordFields(must: bool, code: nat, id: nat)
    requires code < 8 && id < 0x1000_0000
    ensures var w := Word2(must, code, id);
      w < TWO_32 && (w / 0x8000_0000 % 2 == 1 <==> must) && w / 0x1000_0000 % 8 == code && w % 0x1000_0000 == id
  {
  }

  /** Reads the word that opens a header, and finds the cells behind it. */
  lemma ReadWord(c: Config, must: bool, code: nat, id: nat, rest: Cells, buf: seq<byte>, cur: Cur)
    requires Inside(cur, buf) && code < 8 && id < 0x1000_0000
    requires Holds(buf, cur.off, U32(c, Word2(must, code, id), cur.rel) + rest)
    ensures var n := Pad(cur.rel, 4) + 4;
      && DecU32(c, buf, cur) == Ok(Word2(must, code, id), Cur(cur.off + n, cur.rel + n))
      && Holds(buf, cur.off + n, rest)
  {
    hide Pad, Holds, U32, DecU32, Word2;
    WordFields(must, code, id);
    HoldsConcat(buf, cur.off, U32(c, Word2(must, code, id), cur.rel), rest);
    ReadU32(c, Word2(must, code, id), buf, cur);
  }

  lemma ReadShort(c: Config, id: nat, must: bool, size: nat, rest: Cells, buf: seq<byte>, cur: Cur)
    requires Inside(cur, buf) && id < 0x1000_0000 && ShortCode(size) < 4
    requires Holds(buf, cur.off, U32(c, Word2(must, ShortCode(size), id), cur.rel) + rest)
    ensures var n := Pad(cur.rel, 4) + 4;
      && DecHeader2(c, buf, cur) == Ok(Header(id, must, size, 4), Cur(cur.off + n, cur.rel + n))
      && Holds(buf, cur.off + n, rest)
  {
    hide Pad, Holds, U32, DecU32, Word2;
    WordFields(must, ShortCode(size), id);
    ReadWord(c, must, ShortCode(size), id, rest, buf, cur);
  }

  lemma ReadLong(c: Config, id: nat, must: bool, size: nat, rest: Cells, buf: seq<byte>, cur: Cur)
    requires Inside(cur, buf) && id < 0x1000_0000 && size < TWO_32
    requires Holds(buf, cur.off, U32(c, Word2(must, 4, id), cur.rel) + Num(c, size, 4) + rest)
    ensures var n := Pad(cur.rel, 4) + 8;
      && DecHeader2(c, buf, cur) == Ok(Header(id, must, size, 8), Cur(cur.off + n, cur.rel + n))
      && Holds(buf, cur.off + n, rest)
  {
    hide Pad, Holds, U32, Word2, Num, DecScalar;
    WordFields(must, 4, id);
    var w := U32(c, Word2(must, 4, id), cur.rel);
    assert w + Num(c, size, 4) + rest == w + (Num(c, size, 4) + rest);
    ReadWord(c, must, 4, id, Num(c, size, 4) + rest, buf, cur);
    var n := Pad(cur.rel, 4) + 4;
    var cur1 := Cur(cur.off + n, cur.rel + n);
    HoldsConcat(buf, cur1.off, Num(c, size, 4), rest);
    PadAfter4(cur.rel);
    Pow256Values();
    ReadNum(c, size, 4, 4, buf, cur1);
  }

  /** A shared NEXTINT announces exactly the length of the body it belongs to. */
  lemma ReadJoined(c: Config, id: nat, must: bool, v: Value, buf: seq<byte>, cur: Cur)
    requires c.v2 && Inside(cur, buf) && id < 0x1000_0000 && Next(v) != NoNext
    requires var body := Enc(c, v, cur.rel + Pad(cur.rel, 4) + 4).cells;
      |body| < TWO_32 && Holds(buf, cur.off, U32(c, Word2(must, LongCode(Next(v)), id), cur.rel) + body)
    ensures var n := Pad(cur.rel, 4) + 4;
      var body := Enc(c, v, cur.rel + n).cells;
      && DecHeader2(c, buf, cur) == Ok(Header(id, must, |body|, 4), Cur(cur.off + n, cur.rel + n))
      && Holds(buf, cur.off + n, body)
  {
    hide Pad, Holds, U32, Word2, Num, DecScalar, Enc;
    var code := LongCode(Next(v));
    var n := Pad(cur.rel, 4) + 4;
    var cur1 := Cur(cur.off + n, cur.rel + n);
    var body := Enc(c, v, cur1.rel).cells;
    WordFields(must, code, id);
    ReadWord(c, must, code, id, body, buf, cur);
    PadAfter4(cur.rel);
    var len, rest := NextIntSound(c, v, cur1.rel);
    HoldsConcat(buf, cur1.off, Num(c, len, 4), rest);
    Pow256Values();
    ReadNum(c, len, 4, 4, buf, cur1);
  }

  /** Whatever form the header took, the reader sees the identifier, the flag and the body's size. */
  lemma ReadHeaded2(c: Config, id: nat, must: bool, v: Value, buf: seq<byte>, cur: Cur) returns (h: Header, cur1: Cur)
    requires c.v2 && Inside(cur, buf) && id < 0x1000_0000
    requires var out := EncHeaded2(c, id, must, v, cur.rel);
      |out.cells| < TWO_32 && Holds(buf, cur.off, out.cells)
    ensures DecHeader2(c, buf, cur) == Ok(h, cur1) && Inside(cur1, buf)
    ensures h.id == id && h.must == must
    ensures h.size == |Enc(c, v, cur1.rel).cells| && Holds(buf, cur1.off, Enc(c, v, cur1.rel).cells)
    ensures After(cur1, Enc(c, v, cur1.rel)) == After(cur, EncHeaded2(c, id, must, v, cur.rel))
  {
    hide Pad, Holds, U32, Word2, Num, DecHeader2, Enc, LongCode;
    var q := cur.rel + Pad(cur.rel, 4);
    var size := |Enc(c, v, q + 4).cells|;
    match FormOf(c.sel, Next(v), size) {
      case Short =>
        ReadShort(c, id, must, size, Enc(c, v, q + 4).cells, buf, cur);
      case Joined =>
        ReadJoined(c, id, must, v, buf, cur);
      case Long =>
        EncShift(c, v, q + 4);
        ReadLong(c, id, must, size, Enc(c, v, q + 8).cells, buf, cur);
    }
    var r := DecHeader2(c, buf, cur);
    h, cur1 := r.value, r.cur;
  }

  // ---------------------------------------------------------------- XCDRv1 member headers

  lemma HalfFields(must: bool, id: nat)
    requires id < 0x4000
    ensures var w := Word1(must, id);
      w < 0x1_0000 && (w / 0x4000 % 2 == 1 <==> must) && w % 0x4000 == id
  {
  }

  lemma PadAfterHalf(p: nat)
    ensures Pad(p + Pad(p, 4) + 2, 2) == 0
  {
  }

  /** Reads the two 16-bit numbers that open every XCDRv1 header. */
  lemma ReadHalves(c: Config, w: nat, size: nat, rest: Cells, buf: seq<byte>, cur: Cur)
    requires Inside(cur, buf) && w < 0x1_0000 && size < 0x1_0000
    requires Holds(buf, cur.off, Gaps(Pad(cur.rel, 4)) + Num(c, w, 2) + Num(c, size, 2) + rest)
    ensures var n := Pad(cur.rel, 4);
      var cur1, cur2 := Cur(cur.off + n + 2, cur.rel + n + 2), Cur(cur.off + n + 4, cur.rel + n + 4);
      && Inside(cur2, buf)
      && DecScalar(c, 2, 4, buf, cur) == Ok(w, cur1)
      && DecScalar(c, 2, 2, buf, cur1) == Ok(size, cur2)
      && Holds(buf, cur2.off, rest)
  {
    hide Pad, Holds, Num, DecScalar;
    var n := Pad(cur.rel, 4);
    var cur1 := Cur(cur.off + n + 2, cur.rel + n + 2);
    var first := Scalar(c, w, 2, 4, cur.rel);
    assert Gaps(n) + Num(c, w, 2) + Num(c, size, 2) + rest == first + (Num(c, size, 2) + rest);
    HoldsConcat(buf, cur.off, first, Num(c, size, 2) + rest);
    HoldsConcat(buf, cur1.off, Num(c, size, 2), rest);
    Pow256Values();
    ReadScalar(c, w, 2, 4, buf, cur);
    PadAfterHalf(cur.rel);
    ReadNum(c, size, 2, 2, buf, cur1);
  }

  lemma ReadHeader1Short(c: Config, id: nat, must: bool, size: nat, rest: Cells, buf: seq<byte>, cur: Cur)
    requires Inside(cur, buf) && id <= MAX_SHORT_ID && size <= 0xFFFF
    requires Holds(buf, cur.off, Header1(c, id, must, size, false, cur.rel) + rest)
    ensures var at := cur.off + Pad(cur.rel, 4) + 4;
      && DecHeader1(c, buf, cur) == Ok(Member(Header(id, must, size, 4)), Cur(at, 0))
      && Holds(buf, at, rest)
  {
    hide Pad, Holds, Num, DecScalar, Word1;
    HalfFields(must, id);
    ReadHalves(c, Word1(must, id), size, rest, buf, cur);
  }

  lemma ReadHeader1Long(c: Config, id: nat, must: bool, size: nat, rest: Cells, buf: seq<byte>, cur: Cur)
    requires Inside(cur, buf) && id < TWO_32 && size < TWO_32
    requires Holds(buf, cur.off, Header1(c, id, must, size, true, cur.rel) + rest)
    ensures var at := cur.off + Pad(cur.rel, 4) + 12;
      && DecHeader1(c, buf, cur) == Ok(Member(Header(id, must, size, 12)), Cur(at, 0))
      && Holds(buf, at, rest)
  {
    hide Pad, Holds, Num, DecScalar, Word1;
    var n, w := Pad(cur.rel, 4), Word1(must, PID_EXTENDED);
    HalfFields(must, PID_EXTENDED);
    var tail := Num(c, id, 4) + (Num(c, size, 4) + rest);
    assert Header1(c, id, must, size, true, cur.rel) + rest == Gaps(n) + Num(c, w, 2) + Num(c, 8, 2) + tail;
    ReadHalves(c, w, 8, tail, buf, cur);
    var cur2 := Cur(cur.off + n + 4, cur.rel + n + 4);
    var cur3 := Cur(cur2.off + 4, cur2.rel + 4);
    HoldsConcat(buf, cur2.off, Num(c, id, 4), Num(c, size, 4) + rest);
    HoldsConcat(buf, cur3.off, Num(c, size, 4), rest);
    PadAfter4(cur.rel);
    Pow256Values();
    ReadNum(c, id, 4, 4, buf, cur2);
    ReadNum(c, size, 4, 4, buf, cur3);
  }

  lemma ReadHeader1(c: Config, id: nat, must: bool, size: nat, long: bool, rest: Cells, buf: seq<byte>, cur: Cur)
      returns (h: Header, cur1: Cur)
    requires Inside(cur, buf) && id < TWO_32 && size < TWO_32
    requires !long ==> id <= MAX_SHORT_ID && size <= 0xFFFF
    requires Holds(buf, cur.off, Header1(c, id, must, size, long, cur.rel) + rest)
    ensures DecHeader1(c, buf, cur) == Ok(Member(h), cur1) && h.id == id && h.must == must && h.size == size
    ensures cur1 == Cur(cur.off + |Header1(c, id, must, size, long, cur.rel)|, 0) && Holds(buf, cur1.off, rest)
  {
    hide Pad, Holds, DecHeader1, Header1;
    if long {
      ReadHeader1Long(c, id, must, size, rest, buf, cur);
      h, cur1 := Header(id, must, size, 12), Cur(cur.off + Pad(cur.rel, 4) + 12, 0);
    } else {
      ReadHeader1Short(c, id, must, size, rest, buf, cur);
      h, cur1 := Header(id, must, size, 4), Cur(cur.off + Pad(cur.rel, 4) + 4, 0);
    }
  }

  lemma ReadSentinel(c: Config, buf: seq<byte>, cur: Cur)
    requires Inside(cur, buf) && Holds(buf, cur.off, Sentinel(c, cur.rel))
    ensures var n := Pad(cur.rel, 4) + 4;
      DecHeader1(c, buf, cur) == Ok(End, Cur(cur.off + n, cur.rel + n))
  {
    hide Pad, Holds, Num, DecScalar, Word1;
    assert Sentinel(c, cur.rel) == Gaps(Pad(cur.rel, 4)) + Num(c, PID_SENTINEL, 2) + Num(c, 0, 2) + [];
    ReadHalves(c, PID_SENTINEL, 0, [], buf, cur);
  }
}
