/** Runs of writes into a buffer that grows on demand. */
module Growth {
  import opened Layout
  import opened Schema
  import opened Encoding
  import opened FastBuffers
  import opened Patching
  import opened Cdrs
  import opened Serializer

  /** One write: a leaf value, or an array without its length. */
  datatype Op = Leaf(v: Value) | Array(k: Kind, ns: seq<nat>)

  predicate Legal(op: Op) {
    op.Leaf? ==> (op.v.Prim? || op.v.Str? || op.v.SeqPrim? || (op.v.WStr? && |WText(op.v.chars)| < 0x8000_0000))
  }

  function OpCells(c: Config, op: Op, p: nat): Cells {
    match op
    case Leaf(v) => Enc(c, v, p).cells
    case Array(k, ns) => Elements(c, k, ns, p)
  }

  /** The most bytes the write asks room for at once. */
  function OpRequest(c: Config, op: Op, p: nat): nat {
    match op
    case Leaf(v) => Request(c, v, p)
    case Array(k, ns) => |Elements(c, k, ns, p)|
  }

  function RunCells(c: Config, ops: seq<Op>, p: nat): Cells {
    if ops == [] then []
    else
      var e := OpCells(c, ops[0], p);
      e + RunCells(c, ops[1..], p + |e|)
  }

  /** The largest request of a run. */
  function Largest(c: Config, ops: seq<Op>, p: nat): nat {
    if ops == [] then 0
    else Larger(OpRequest(c, ops[0], p), Largest(c, ops[1..], p + |OpCells(c, ops[0], p)|))
  }

  /** It is one of theirs. */
  lemma {:induction false} LargestAttained(c: Config, ops: seq<Op>, p: nat) returns (i: nat)
    requires ops != []
    ensures i < |ops| && Largest(c, ops, p) == OpRequest(c, ops[i], p + |RunCells(c, ops[..i], p)|)
    decreases |ops|
  {
    hide OpCells, OpRequest;
    var e := OpCells(c, ops[0], p);
    i := 0;
    assert RunCells(c, ops[..0], p) == [];
    if |ops| > 1 {
      var j := LargestAttained(c, ops[1..], p + |e|);
      if Largest(c, ops, p) != OpRequest(c, ops[0], p) {
        i := j + 1;
        assert ops[..i][0] == ops[0] && ops[..i][1..] == ops[1..][..j];
        assert RunCells(c, ops[..i], p) == e + RunCells(c, ops[1..][..j], p + |e|);
      }
    } else {
      assert Largest(c, ops[1..], p + |e|) == 0;
    }
  }

  /** The cells stand where the cursor was, all before them is kept, and the spare room has not grown out of bounds. */
  twostate predicate Written(cdr: Cdr, cells: Cells, request: nat)
    reads cdr, cdr.buffer
  {
    && cdr.Valid() && SettingsOf(cdr) == old(SettingsOf(cdr)) && cdr.origin == old(cdr.origin)
    && cdr.offset == old(cdr.offset) + |cells|
    && Kept(old(cdr.buffer.bytes), cdr.buffer.bytes, old(cdr.offset)) && Holds(cdr.buffer.bytes, old(cdr.offset), cells)
    && |cdr.buffer.bytes| - cdr.offset <= Cap(|old(cdr.buffer.bytes)| - old(cdr.offset), request)
  }

  method Write(cdr: Cdr, op: Op) returns (ok: bool)
    requires cdr.Valid() && cdr.buffer.internal && Legal(op)
    modifies cdr, cdr.buffer
    ensures ok && var c, p := old(cdr.Cfg(AutoShort)), old(cdr.offset) - old(cdr.origin);
      Written(cdr, OpCells(c, op, p), OpRequest(c, op, p))
  {
    hide Pad, Elements, Enc, Request, Holds, Kept, Cap, WText;
    match op
    case Array(k, ns) => ok := cdr.SerializeArray(k, ns);
    case Leaf(v) => ok := WriteLeaf(cdr, v);
  }

  method WriteLeaf(cdr: Cdr, v: Value) returns (ok: bool)
    requires cdr.Valid() && cdr.buffer.internal && Legal(Leaf(v))
    modifies cdr, cdr.buffer
    ensures ok && var c, p := old(cdr.Cfg(AutoShort)), old(cdr.offset) - old(cdr.origin);
      Written(cdr, Enc(c, v, p).cells, Request(c, v, p))
  {
    hide Pad, Enc, Request, Holds, Kept, Cap, WText, Written;
    match v
    case Prim(k, n) => ok := WriteNumber(cdr, k, n);
    case Str(text) => ok := WriteText(cdr, text);
    case WStr(chars) => ok := WriteWide(cdr, chars);
    case SeqPrim(k, ns) => ok := WriteSequence(cdr, k, ns);
  }

  method WriteText(cdr: Cdr, text: seq<byte>) returns (ok: bool)
    requires cdr.Valid() && cdr.buffer.internal
    modifies cdr, cdr.buffer
    ensures ok && var c, p := old(cdr.Cfg(AutoShort)), old(cdr.offset) - old(cdr.origin);
      Written(cdr, Enc(c, Str(text), p).cells, Request(c, Str(text), p))
  {
    hide Pad, Enc, Request, Holds, Kept, Cap;
    StrOut(cdr.Cfg(AutoShort), text, cdr.offset - cdr.origin);
    ok := cdr.SerializeString(text);
  }

  method WriteWide(cdr: Cdr, chars: seq<nat>) returns (ok: bool)
    requires cdr.Valid() && cdr.buffer.internal && |WText(chars)| < 0x8000_0000
    modifies cdr, cdr.buffer
    ensures ok && var c, p := old(cdr.Cfg(AutoShort)), old(cdr.offset) - old(cdr.origin);
      Written(cdr, Enc(c, WStr(chars), p).cells, Request(c, WStr(chars), p))
  {
    hide Pad, Enc, Request, Holds, Kept, Cap, WText, Elements;
    WStrOut(cdr.Cfg(AutoShort), chars, cdr.offset - cdr.origin);
    ok := cdr.SerializeWString(chars);
  }

  method WriteSequence(cdr: Cdr, k: Kind, ns: seq<nat>) returns (ok: bool)
    requires cdr.Valid() && cdr.buffer.internal
    modifies cdr, cdr.buffer
    ensures ok && var c, p := old(cdr.Cfg(AutoShort)), old(cdr.offset) - old(cdr.origin);
      Written(cdr, Enc(c, SeqPrim(k, ns), p).cells, Request(c, SeqPrim(k, ns), p))
  {
    hide Pad, Enc, Request, Holds, Kept, Cap, Elements;
    SeqPrimOut(cdr.Cfg(AutoShort), k, ns, cdr.offset - cdr.origin);
    ok := cdr.SerializeSeqPrim(k, ns);
  }

  method WriteNumber(cdr: Cdr, k: Kind, n: nat) returns (ok: bool)
    requires cdr.Valid() && cdr.buffer.internal
    modifies cdr, cdr.buffer
    ensures ok && var c, p := old(cdr.Cfg(AutoShort)), old(cdr.offset) - old(cdr.origin);
      Written(cdr, Enc(c, Prim(k, n), p).cells, Request(c, Prim(k, n), p))
  {
    hide Pad, Holds, Kept, Patched, Scalar, Cap, Enc;
    ghost var c, p := cdr.Cfg(AutoShort), cdr.offset - cdr.origin;
    PrimOut(c, k, n, p);
    ok := cdr.SerializePrim(k, n);
    WrotePrim(c, k, n, old(cdr.buffer.bytes), cdr.buffer.bytes, old(cdr.offset), p);
  }

  lemma CapWithin(spare: int, need: nat, bound: int)
    requires spare <= bound && need <= bound && BUFFER_START_LENGTH <= bound
    ensures Cap(spare, need) <= bound
  {
  }

  lemma RunNext(c: Config, ops: seq<Op>, i: nat, p: nat, done: Cells, all: Cells)
    requires i < |ops| && all == done + RunCells(c, ops[i..], p)
    ensures var e := OpCells(c, ops[i], p);
      && all == done + e + RunCells(c, ops[i + 1..], p + |e|)
      && Largest(c, ops[i..], p) == Larger(OpRequest(c, ops[i], p), Largest(c, ops[i + 1..], p + |e|))
  {
    hide OpCells, OpRequest, Larger;
    assert ops[i..][0] == ops[i] && ops[i..][1..] == ops[i + 1..];
    var e := OpCells(c, ops[i], p);
    assert done + (e + RunCells(c, ops[i + 1..], p + |e|)) == done + e + RunCells(c, ops[i + 1..], p + |e|);
  }

  /**
   Any run of writes into a growing buffer succeeds, leaves exactly its cells behind everything that was there
   before, and never leaves more spare room than the initial one, 200 bytes and the largest request.
   */
  method Run(cdr: Cdr, ops: seq<Op>) returns (ok: bool)
    requires cdr.Valid() && cdr.buffer.internal && forall i :: 0 <= i < |ops| ==> Legal(ops[i])
    modifies cdr, cdr.buffer
    ensures ok && cdr.Valid() && cdr.origin == old(cdr.origin)
    ensures var c, p := old(cdr.Cfg(AutoShort)), old(cdr.offset) - old(cdr.origin);
      && |cdr.buffer.bytes| - cdr.offset <= Cap(|old(cdr.buffer.bytes)| - old(cdr.offset), Largest(c, ops, p))
      && cdr.offset == old(cdr.offset) + |RunCells(c, ops, p)|
      && Kept(old(cdr.buffer.bytes), cdr.buffer.bytes, old(cdr.offset))
      && Holds(cdr.buffer.bytes, old(cdr.offset), RunCells(c, ops, p))
  {
    hide Holds, Kept, OpCells, OpRequest, RunCells, Largest, Cap, Larger, Legal;
    ghost var c, was, start := cdr.Cfg(AutoShort), cdr.buffer.bytes, cdr.offset;
    ghost var all, most := RunCells(c, ops, cdr.offset - cdr.origin), Largest(c, ops, cdr.offset - cdr.origin);
    ghost var bound := Cap(|cdr.buffer.bytes| - cdr.offset, most);
    ghost var done: Cells := [];
    ok := true;
    var i := 0;
    KeptSelf(was, start);
    BoundStart(|was| - start, most);
    assert ops[0..] == ops && [] + all == all;
    while i < |ops|
      invariant 0 <= i <= |ops| && ok && cdr.Valid() && SettingsOf(cdr) == old(SettingsOf(cdr)) && cdr.origin == old(cdr.origin)
      invariant cdr.offset == start + |done| && |cdr.buffer.bytes| - cdr.offset <= bound
      invariant Kept(was, cdr.buffer.bytes, start) && Holds(cdr.buffer.bytes, start, done)
      invariant all == done + RunCells(c, ops[i..], cdr.offset - cdr.origin)
      invariant Largest(c, ops[i..], cdr.offset - cdr.origin) <= bound
    {
      ghost var mid, p := cdr.buffer.bytes, cdr.offset - cdr.origin;
      RunNext(c, ops, i, p, done, all);
      ghost var e := OpCells(c, ops[i], p);
      LargerBound(OpRequest(c, ops[i], p), Largest(c, ops[i + 1..], p + |e|), bound);
      CapWithin(|mid| - cdr.offset, OpRequest(c, ops[i], p), bound);
      ok := Write(cdr, ops[i]);
      WroteOn(was, mid, cdr.buffer.bytes, start, done, e);
      done, i := done + e, i + 1;
    }
    assert RunCells(c, ops[i..], cdr.offset - cdr.origin) == [] by { NoRun(c, ops[i..], cdr.offset - cdr.origin); }
    assert done + [] == done;
  }

  lemma BoundStart(spare: int, most: nat)
    ensures spare <= Cap(spare, most) && most <= Cap(spare, most) && BUFFER_START_LENGTH <= Cap(spare, most)
  {
  }

  lemma LargerBound(a: nat, b: nat, bound: int)
    requires Larger(a, b) <= bound
    ensures a <= bound && b <= bound
  {
  }

  lemma NoRun(c: Config, ops: seq<Op>, p: nat)
    requires ops == []
    ensures RunCells(c, ops, p) == []
  {
  }
}
