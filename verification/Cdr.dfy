/** The encoder and decoder object. */
module Cdrs {
  import opened Layout
  import opened Schema
  import opened Encoding
  import opened EncodingFacts
  import opened Decoding
  import opened Evolution
  import opened FastBuffers
  import opened Patching

  /** The encoding algorithms, by the values of their encapsulation flags. */
  datatype Algorithm = PlainCdr | PlCdr | PlainCdr2 | DelimitCdr2 | PlCdr2

  /** The value of an algorithm's encapsulation flag. */
  function Code(a: Algorithm): (r: byte)
    ensures r % 2 == 0
  {
    match a
    case PlainCdr => 0x0
    case PlCdr => 0x2
    case PlainCdr2 => 0x6
    case DelimitCdr2 => 0x8
    case PlCdr2 => 0xA
  }

  predicate IsV2(a: Algorithm) {
    a == PlainCdr2 || a == DelimitCdr2 || a == PlCdr2
  }

  /** What an encapsulation says: the algorithm, the byte order and two option bytes. */
  datatype Encapsulation = Encapsulation(flag: Algorithm, little: bool, options: (byte, byte))

  function EncapsulationBytes(e: Encapsulation): (s: seq<byte>)
    ensures |s| == 4
  {
    [0, Code(e.flag) + (if e.little then 1 else 0), e.options.0, e.options.1]
  }

  function FlagOf(b: byte): Option<Algorithm> {
    if b == 0x0 then Some(PlainCdr)
    else if b == 0x2 then Some(PlCdr)
    else if b == 0x6 then Some(PlainCdr2)
    else if b == 0x8 then Some(DelimitCdr2)
    else if b == 0xA then Some(PlCdr2)
    else None
  }

  /** The encapsulation four bytes stand for, if they stand for one. */
  function ParseEncapsulation(dummy: byte, kind: byte, option0: byte, option1: byte): Option<Encapsulation> {
    var flag := FlagOf(kind - kind % 2);
    if dummy != 0 || flag == None then None
    else Some(Encapsulation(flag.value, kind % 2 == 1, (option0, option1)))
  }

  /** A reader recovers algorithm, order and options from every encapsulation, and accepts nothing else. */
  lemma EncapsulationRoundTrip(e: Encapsulation, a: byte, b: byte, d: byte, f: byte)
    ensures ParseEncapsulation(a, b, d, f) == Some(e) <==> EncapsulationBytes(e) == [a, b, d, f]
  {
    var s := EncapsulationBytes(e);
    if s == [a, b, d, f] {
      assert a == s[0] && b == s[1] && d == s[2] && f == s[3];
    }
    if ParseEncapsulation(a, b, d, f) == Some(e) {
      assert Code(e.flag) == b - b % 2;
    }
  }

  /** The second byte of an encapsulation: the algorithm, and 1 for little-endian. */
  lemma EncapsulationLiterals(x: byte, y: byte)
    ensures forall little :: EncapsulationBytes(Encapsulation(PlainCdr, little, (x, y))) == [0, if little then 0x1 else 0x0, x, y]
    ensures forall little :: EncapsulationBytes(Encapsulation(PlCdr, little, (x, y))) == [0, if little then 0x3 else 0x2, x, y]
    ensures forall little :: EncapsulationBytes(Encapsulation(PlainCdr2, little, (x, y))) == [0, if little then 0x7 else 0x6, x, y]
    ensures forall little :: EncapsulationBytes(Encapsulation(DelimitCdr2, little, (x, y))) == [0, if little then 0x9 else 0x8, x, y]
    ensures forall little :: EncapsulationBytes(Encapsulation(PlCdr2, little, (x, y))) == [0, if little then 0xB else 0xA, x, y]
  {
  }

  /** What a reader makes of it; nothing of other values, or of another first byte than 0. */
  lemma ParseLiterals(a: byte, b: byte, x: byte, y: byte)
    ensures ParseEncapsulation(a, b, x, y) ==
      if a != 0 then None
      else if b == 0x0 then Some(Encapsulation(PlainCdr, false, (x, y)))
      else if b == 0x1 then Some(Encapsulation(PlainCdr, true, (x, y)))
      else if b == 0x2 then Some(Encapsulation(PlCdr, false, (x, y)))
      else if b == 0x3 then Some(Encapsulation(PlCdr, true, (x, y)))
      else if b == 0x6 then Some(Encapsulation(PlainCdr2, false, (x, y)))
      else if b == 0x7 then Some(Encapsulation(PlainCdr2, true, (x, y)))
      else if b == 0x8 then Some(Encapsulation(DelimitCdr2, false, (x, y)))
      else if b == 0x9 then Some(Encapsulation(DelimitCdr2, true, (x, y)))
      else if b == 0xA then Some(Encapsulation(PlCdr2, false, (x, y)))
      else if b == 0xB then Some(Encapsulation(PlCdr2, true, (x, y)))
      else None
  {
  }

  const INVALID_ID: nat := 0xFFFF_FFFF

  /** A saved position, and what a member's or type's beginning leaves for its end. */
  datatype State = State(
    offset: nat, origin: nat, swap: bool, last: nat, nextId: nat,
    present: bool, must: bool, selection: HeaderSelection, longHeader: bool, previous: Algorithm)

  /** A state in which what the cache says is true. */
  predicate Saved(st: State) {
    st.origin <= st.offset && CacheHolds(st.last, st.offset - st.origin)
  }

  /** The host's bytes of a number, exchanged or not, are its bytes in the stream's order. */
  lemma SwappedBytes(host: bool, swap: bool, n: nat, w: nat)
    ensures (if swap then Reverse(ToBytes(host, n, w)) else ToBytes(host, n, w)) == ToBytes(host != swap, n, w)
  {
    ReverseTwice(LittleBytes(n, w));
  }

  class Cdr {
    const buffer: FastBuffer
    const hostLittle: bool
    var v2: bool
    var align64: nat
    var little: bool
    var swap: bool
    var flag: Algorithm
    var encoding: Algorithm
    var options: (byte, byte)
    var offset: nat
    var origin: nat
    var last: nat
    var nextId: nat
    var next: NextInt

    constructor (buffer: FastBuffer, hostLittle: bool, little: bool, v2: bool)
      ensures Valid() && this.buffer == buffer && this.hostLittle == hostLittle
      ensures this.little == little && this.v2 == v2 && Order() == little
      ensures offset == origin == last == 0 && nextId == INVALID_ID && next == NoNext && options == (0, 0)
      ensures flag == encoding == if v2 then PlainCdr2 else PlainCdr
    {
      this.buffer, this.hostLittle, this.little, this.v2 := buffer, hostLittle, little, v2;
      align64 := if v2 then 4 else 8;
      swap := little != hostLittle;
      flag := if v2 then PlainCdr2 else PlainCdr;
      encoding := if v2 then PlainCdr2 else PlainCdr;
      options := (0, 0);
      offset, origin, last, nextId, next := 0, 0, 0, INVALID_ID, NoNext;
    }

    ghost predicate Valid()
      reads this, buffer
    {
      && origin <= offset <= |buffer.bytes|
      && CacheHolds(last, offset - origin)
      && align64 == (if v2 then 4 else 8)
    }

    /** The byte order numbers are written in. */
    ghost function Order(): bool
      reads this
    {
      hostLittle != swap
    }

    ghost function Cfg(sel: HeaderSelection): Config
      reads this
    {
      Config(v2, Order(), sel)
    }

    ghost function Here(): (r: Cur)
      reads this
      requires origin <= offset
    {
      Cur(offset, offset - origin)
    }

    // -------------------------------------------------------------- positions

    function Alignment(a: nat): (r: nat)
      reads this, buffer
      requires Valid() && IsAlign(a)
      ensures r == Pad(offset - origin, a)
    {
      CachedPadIsPad(last, offset - origin, a);
      CachedPad(last, offset - origin, a)
    }

    method MakeAlignment(n: nat)
      modifies this`offset, this`last
      ensures offset == old(offset) + n && last == 0
    {
      offset, last := offset + n, 0;
    }

    method ResetAlignment()
      requires Valid()
      modifies this`origin, this`last
      ensures Valid() && origin == offset && last == 0
    {
      origin, last := offset, 0;
    }

    function GetState(): State
      reads this
    {
      State(offset, origin, swap, last, nextId, false, false, AutoShort, false, encoding)
    }

    method SetState(st: State)
      requires Valid() && Saved(st) && st.offset <= |buffer.bytes|
      modifies this`offset, this`origin, this`swap, this`last, this`nextId
      ensures Valid()
      ensures offset == st.offset && origin == st.origin && swap == st.swap && last == st.last && nextId == st.nextId
      ensures OrderKept() <==> st.swap == (little != hostLittle)
    {
      offset, origin, swap, last, nextId := st.offset, st.origin, st.swap, st.last, st.nextId;
    }

    /** Makes sure of `n` bytes behind the cursor, growing the buffer if it may. */
    method Room(n: nat) returns (ok: bool)
      requires Valid()
      modifies buffer
      ensures Valid() && old(buffer.bytes) <= buffer.bytes
      ensures ok == (buffer.internal || offset + n <= |old(buffer.bytes)|)
      ensures ok ==> offset + n <= |buffer.bytes|
      ensures offset + n <= |old(buffer.bytes)| || !buffer.internal ==> buffer.bytes == old(buffer.bytes)
      ensures ok ==> |buffer.bytes| - offset - n <= Cap(|old(buffer.bytes)| - offset, n)
      ensures buffer.generation == old(buffer.generation)
                                   + if buffer.internal && offset + n > |old(buffer.bytes)| then 1 else 0
    {
      if |buffer.bytes| - offset >= n {
        ok := true;
      } else {
        ok := buffer.Resize(n);
      }
    }

    method Jump(n: nat) returns (ok: bool)
      requires Valid()
      modifies this`offset, this`last, buffer
      ensures Valid() && old(buffer.bytes) <= buffer.bytes
      ensures ok == (buffer.internal || old(offset) + n <= |old(buffer.bytes)|)
      ensures if ok then offset == old(offset) + n && last == 0 else offset == old(offset) && last == old(last)
      ensures old(offset) + n <= |old(buffer.bytes)| || !buffer.internal ==> buffer.bytes == old(buffer.bytes)
      ensures buffer.generation == old(buffer.generation)
                                   + if buffer.internal && old(offset) + n > |old(buffer.bytes)| then 1 else 0
    {
      ok := Room(n);
      if ok {
        offset, last := offset + n, 0;
      }
    }

    /**
     A jump by `less` bytes short of 2^64, as a distance below zero becomes. A user's buffer does not reach that far. One of
     the codec's own takes it for a request to grow: its size wraps to a smaller one, and the cursor goes back.
     */
    method JumpBack(less: nat) returns (ok: bool)
      requires Valid() && 0 < less && origin + less <= offset
      modifies this`offset, this`last, buffer
      ensures Valid() && ok == buffer.internal
      ensures if ok then offset == old(offset) - less && last == 0 else offset == old(offset) && last == old(last)
      ensures buffer.bytes == if ok then old(buffer.bytes)[..|old(buffer.bytes)| - less] else old(buffer.bytes)
      ensures buffer.generation == old(buffer.generation) + if ok then 1 else 0
    {
      ok := buffer.Wrap(less);
      if ok { offset, last := offset - less, 0; }
    }

    // -------------------------------------------------------------- writing

    /** Copies bytes to the cursor and moves behind them. */
    method Copy(s: seq<byte>)
      requires Valid() && last <= 1 && offset + |s| <= |buffer.bytes|
      modifies this`offset, buffer`bytes
      ensures Valid() && offset == old(offset) + |s| && |buffer.bytes| == |old(buffer.bytes)|
      ensures Patched(old(buffer.bytes), buffer.bytes, old(offset), s)
    {
      var at, i := offset, 0;
      while i < |s|
        invariant 0 <= i <= |s| && offset == at + i && |buffer.bytes| == |old(buffer.bytes)|
        invariant forall j :: at <= j < at + i ==> buffer.bytes[j] == s[j - at]
        invariant forall j :: 0 <= j < |buffer.bytes| && !(at <= j < at + i) ==> buffer.bytes[j] == old(buffer.bytes)[j]
      {
        buffer.bytes := buffer.bytes[offset := s[i]];
        offset, i := offset + 1, i + 1;
      }
    }

    /** Writes the bytes of one number, exchanged if the stream's order is not the host's. */
    method Put(n: nat, w: nat)
      requires Valid() && last <= 1 && offset + w <= |buffer.bytes|
      modifies this`offset, buffer`bytes
      ensures Valid() && offset == old(offset) + w && |buffer.bytes| == |old(buffer.bytes)|
      ensures Patched(old(buffer.bytes), buffer.bytes, old(offset), ToBytes(Order(), n, w))
    {
      var host := ToBytes(hostLittle, n, w);
      SwappedBytes(hostLittle, swap, n, w);
      Copy(if swap then Reverse(host) else host);
    }

    /** One primitive, on its own alignment. */
    method SerializePrim(k: Kind, n: nat) returns (ok: bool)
      requires Valid()
      modifies this`offset, this`last, buffer
      ensures Valid()
      ensures var total := Pad(old(offset) - origin, Cfg(AutoShort).AlignOf(k)) + Size(k);
        && ok == (buffer.internal || old(offset) + total <= |old(buffer.bytes)|)
        && (old(offset) + total <= |old(buffer.bytes)| ==> |buffer.bytes| == |old(buffer.bytes)|)
        && (ok ==> |buffer.bytes| - offset <= Cap(|old(buffer.bytes)| - old(offset), total))
        && (ok ==> offset == old(offset) + total)
        && (ok ==> Patched(old(buffer.bytes), buffer.bytes, offset - Size(k), ToBytes(Order(), n, Size(k))))
      ensures !ok ==> offset == old(offset) && last == old(last) && buffer.bytes == old(buffer.bytes)
    {
      hide Pad, ToBytes, Cap, Patched, CacheHolds;
      PadOne(offset - origin);
      if Size(k) == 1 {
        ok := SerializeByte(n);
      } else {
        ok := SerializeWider(k, n);
      }
    }

    method SerializeByte(n: nat) returns (ok: bool)
      requires Valid()
      modifies this`offset, this`last, buffer
      ensures Valid() && ok == (buffer.internal || old(offset) + 1 <= |old(buffer.bytes)|)
      ensures old(offset) + 1 <= |old(buffer.bytes)| ==> |buffer.bytes| == |old(buffer.bytes)|
      ensures ok ==> |buffer.bytes| - offset <= Cap(|old(buffer.bytes)| - old(offset), 1) && offset == old(offset) + 1
      ensures ok ==> Patched(old(buffer.bytes), buffer.bytes, old(offset), ToBytes(Order(), n, 1))
      ensures !ok ==> offset == old(offset) && last == old(last) && buffer.bytes == old(buffer.bytes)
    {
      hide Pad, ToBytes, Cap;
      ok := Room(1);
      if ok {
        last := 1;
        Put(n, 1);
      }
    }

    /** One of more than one byte. */
    method SerializeWider(k: Kind, n: nat) returns (ok: bool)
      requires Valid() && Size(k) > 1
      modifies this`offset, this`last, buffer
      ensures Valid()
      ensures var total := Pad(old(offset) - origin, Cfg(AutoShort).AlignOf(k)) + Size(k);
        && ok == (buffer.internal || old(offset) + total <= |old(buffer.bytes)|)
        && (old(offset) + total <= |old(buffer.bytes)| ==> |buffer.bytes| == |old(buffer.bytes)|)
        && (ok ==> |buffer.bytes| - offset <= Cap(|old(buffer.bytes)| - old(offset), total))
        && (ok ==> offset == old(offset) + total)
        && (ok ==> Patched(old(buffer.bytes), buffer.bytes, offset - Size(k), ToBytes(Order(), n, Size(k))))
      ensures !ok ==> offset == old(offset) && last == old(last) && buffer.bytes == old(buffer.bytes)
    {
      hide Pad, ToBytes, Cap;
      var w := Size(k);
      var align := Alignment(if k == K8 then align64 else w);
      ok := Room(w + align);
      if ok {
        last := w;
        MakeAlignment(align);
        Put(n, w);
      }
    }

    /** The cells of `out` stand from `at` to the cursor, and nothing before them has changed. */
    ghost predicate Wrote(was: seq<byte>, at: nat, out: Out)
      reads this, buffer
      requires origin <= offset
    {
      && Kept(was, buffer.bytes, at) && Holds(buffer.bytes, at, out.cells)
      && offset == at + |out.cells| && offset - origin == out.rel
    }

    /** Writes the elements of an array one after the other, exchanged if need be. */
    method PutAll(ns: seq<nat>, w: nat)
      requires Valid() && last <= 1 && offset + |ns| * w <= |buffer.bytes|
      modifies this`offset, buffer`bytes
      ensures Valid() && offset == old(offset) + |ns| * w && |buffer.bytes| == |old(buffer.bytes)|
      ensures Patched(old(buffer.bytes), buffer.bytes, old(offset), Packed(Order(), ns, w))
    {
      hide ToBytes, Packed, Patched;
      var i := 0;
      PackedNone(Order(), ns, w, buffer.bytes, offset);
      while i < |ns|
        invariant 0 <= i <= |ns| && Valid() && |buffer.bytes| == |old(buffer.bytes)|
        invariant offset == old(offset) + |Packed(Order(), ns[..i], w)|
        invariant Patched(old(buffer.bytes), buffer.bytes, old(offset), Packed(Order(), ns[..i], w))
      {
        MulStep(i, |ns|, w);
        PackedSnoc(Order(), ns, i, w);
        ghost var before := buffer.bytes;
        Put(ns[i], w);
        PatchedSnoc(old(buffer.bytes), before, buffer.bytes, old(offset), Packed(Order(), ns[..i], w),
                    ToBytes(Order(), ns[i], w));
        i := i + 1;
      }
      assert ns[..i] == ns;
    }

    /** An array of primitives: one alignment, one test for room, one copy. */
    method SerializeArray(k: Kind, ns: seq<nat>) returns (ok: bool)
      requires Valid()
      modifies this`offset, this`last, buffer
      ensures Valid()
      ensures var es := Elements(Cfg(AutoShort), k, ns, old(offset) - origin);
        && ok == (buffer.internal || old(offset) + |es| <= |old(buffer.bytes)|)
        && (old(offset) + |es| <= |old(buffer.bytes)| ==> |buffer.bytes| == |old(buffer.bytes)|)
        && (ok ==> |buffer.bytes| - offset <= Cap(|old(buffer.bytes)| - old(offset), |es|))
        && (ok ==> Wrote(old(buffer.bytes), old(offset), Out(es, old(offset) - origin + |es|)))
      ensures !ok ==> offset == old(offset) && last == old(last) && buffer.bytes == old(buffer.bytes)
    {
      hide Pad, ToBytes, Elements, Packed, Holds, Patched, Raw, Kept, Cap;
      var w := Size(k);
      ghost var c, p := Cfg(AutoShort), offset - origin;
      if w > 1 && |ns| == 0 {
        SpareKept(|buffer.bytes| - offset);
        NoElements(c, k, p, buffer.bytes, offset);
        return true;
      }
      var align := if w == 1 then 0 else Alignment(if k == K8 then align64 else w);
      ArrayCells(c, k, ns, p);
      ok := Room(|ns| * w + align);
      if ok {
        last := w;
        if w > 1 { MakeAlignment(align); }
        ghost var grown := buffer.bytes;
        PutAll(ns, w);
        WroteArray(c, ns, w, old(buffer.bytes), grown, buffer.bytes, old(offset), align);
      }
    }

    method SerializeU32(n: nat) returns (ok: bool)
      requires Valid()
      modifies this`offset, this`last, buffer
      ensures Valid()
      ensures var cells := U32(Cfg(AutoShort), n, old(offset) - origin);
        && ok == (buffer.internal || old(offset) + |cells| <= |old(buffer.bytes)|)
        && (old(offset) + |cells| <= |old(buffer.bytes)| ==> |buffer.bytes| == |old(buffer.bytes)|)
        && (ok ==> |buffer.bytes| - offset <= Cap(|old(buffer.bytes)| - old(offset), |cells|))
        && (ok ==> Wrote(old(buffer.bytes), old(offset), Out(cells, old(offset) - origin + |cells|)))
      ensures !ok ==> offset == old(offset) && last == old(last) && buffer.bytes == old(buffer.bytes)
    {
      hide Pad, ToBytes, Holds, Patched, Kept, U32;
      ok := SerializePrim(K4, n);
      if ok {
        WroteScalar(Cfg(AutoShort), n, old(buffer.bytes), buffer.bytes, old(offset), old(offset) - origin);
      }
    }

    /** Bytes without alignment, as text and raw copies are written. */
    method Append(s: seq<byte>) returns (ok: bool)
      requires Valid()
      modifies this`offset, this`last, buffer
      ensures Valid()
      ensures ok == (buffer.internal || old(offset) + |s| <= |old(buffer.bytes)|)
      ensures old(offset) + |s| <= |old(buffer.bytes)| ==> |buffer.bytes| == |old(buffer.bytes)|
      ensures ok ==> |buffer.bytes| - offset <= Cap(|old(buffer.bytes)| - old(offset), |s|)
      ensures ok ==> Wrote(old(buffer.bytes), old(offset), Out(Raw(s), old(offset) - origin + |s|))
      ensures !ok ==> offset == old(offset) && buffer.bytes == old(buffer.bytes)
    {
      hide Holds, Patched, Raw;
      ok := Room(|s|);
      if ok {
        last := 1;
        ghost var grown := buffer.bytes;
        Copy(s);
        PatchedGrown(old(buffer.bytes), grown, buffer.bytes, old(offset), s);
        PatchedKept(old(buffer.bytes), buffer.bytes, old(offset), s);
      }
    }

    /** A string: its length with the terminating zero, then the bytes up to it. A failure leaves no trace. */
    method SerializeString(text: seq<byte>) returns (ok: bool)
      requires Valid()
      modifies this`offset, this`origin, this`swap, this`last, this`nextId, this`next, buffer
      ensures Valid() && swap == old(swap) && nextId == old(nextId)
      ensures var out := Enc(Cfg(AutoShort), Str(text), old(offset) - old(origin));
        && ok == (buffer.internal || old(offset) + |out.cells| <= |old(buffer.bytes)|)
        && (old(offset) + |out.cells| <= |old(buffer.bytes)| ==> |buffer.bytes| == |old(buffer.bytes)|)
        && (ok ==> |buffer.bytes| - offset
                   <= Cap(|old(buffer.bytes)| - old(offset), Request(Cfg(AutoShort), Str(text), old(offset) - old(origin))))
        && (ok ==> Wrote(old(buffer.bytes), old(offset), out) && next == Next1)
      ensures !ok ==> GetState() == old(GetState()) && next == old(next)
      ensures !buffer.internal ==> |buffer.bytes| == |old(buffer.bytes)|
    {
      hide Pad, Holds, Raw, Kept, CText, Enc, U32, Cap, Request, Larger;
      var before := GetState();
      var t := CText(text, 0) + [0];
      ghost var c, p := Cfg(AutoShort), offset - origin;
      StrOut(c, text, p);
      ok := SerializeU32(|t|);
      if !ok { return; }
      ghost var mid, spare := buffer.bytes, |buffer.bytes| - offset;
      ok := Append(t);
      if ok {
        CapTwice(|old(buffer.bytes)| - old(offset), spare, |buffer.bytes| - offset, |U32(c, |t|, p)|, |t|);
        WroteOn(old(buffer.bytes), mid, buffer.bytes, before.offset, U32(c, |t|, p), Raw(t));
        next := Next1;
      } else {
        SetState(before);
      }
    }

    /** Writes wide characters one by one, each with its own alignment and test, where there is room for all. */
    method PutWide(t: seq<nat>)
      requires Valid() && t != [] && Pad(offset - origin, 2) == 0 && offset + 2 * |t| <= |buffer.bytes|
      modifies this`offset, this`last, buffer
      ensures Valid() && |buffer.bytes| == |old(buffer.bytes)|
      ensures var es := Elements(Cfg(AutoShort), K2, t, old(offset) - origin);
        Wrote(old(buffer.bytes), old(offset), Out(es, old(offset) - origin + |es|))
    {
      hide Pad, ToBytes, Elements, Packed, Holds, Patched, Raw, Kept, Cap;
      ghost var c, at, was := Cfg(AutoShort), offset, buffer.bytes;
      ArrayCells(c, K2, t, offset - origin);
      PackedNone(Order(), t, 2, buffer.bytes, offset);
      var i := 0;
      while i < |t|
        invariant 0 <= i <= |t| && Valid() && |buffer.bytes| == |was| && offset == at + 2 * i
        invariant Pad(offset - origin, 2) == 0 && |Packed(Order(), t[..i], 2)| == 2 * i
        invariant Patched(was, buffer.bytes, at, Packed(Order(), t[..i], 2))
      {
        PackedSnoc(Order(), t, i, 2);
        ghost var before := buffer.bytes;
        EvenNext(offset - origin);
        var ok := SerializePrim(K2, t[i]);
        PatchedSnoc(was, before, buffer.bytes, at, Packed(Order(), t[..i], 2), ToBytes(Order(), t[i], 2));
        i := i + 1;
      }
      assert t[..i] == t;
      WroteArray(c, t, 2, was, was, buffer.bytes, at, 0);
    }

    /** One test for room for all wide characters, and then the characters. */
    method AppendWide(t: seq<nat>) returns (ok: bool)
      requires Valid() && t != [] && Pad(offset - origin, 2) == 0
      modifies this`offset, this`last, buffer
      ensures Valid()
      ensures var es := Elements(Cfg(AutoShort), K2, t, old(offset) - origin);
        && |es| == 2 * |t|
        && ok == (buffer.internal || old(offset) + |es| <= |old(buffer.bytes)|)
        && (old(offset) + |es| <= |old(buffer.bytes)| ==> |buffer.bytes| == |old(buffer.bytes)|)
        && (ok ==> |buffer.bytes| - offset <= Cap(|old(buffer.bytes)| - old(offset), |es|))
        && (ok ==> Wrote(old(buffer.bytes), old(offset), Out(es, old(offset) - origin + |es|)))
      ensures !ok ==> offset == old(offset) && buffer.bytes == old(buffer.bytes)
    {
      hide Pad, Holds, Kept, Elements, Cap;
      ghost var at := offset;
      ElementsPacked(Cfg(AutoShort), K2, t, offset - origin);
      ok := Room(2 * |t|);
      if ok {
        ghost var grown := buffer.bytes;
        PutWide(t);
        KeptGrown(old(buffer.bytes), grown, at);
        KeptTrans(old(buffer.bytes), grown, buffer.bytes, at, at);
      }
    }

    /**
     A wide string: the number of its characters, without a terminator, and 16 bits of each. The NEXTINT flag is left
     alone. A failure leaves no trace.
     */
    method SerializeWString(chars: seq<nat>) returns (ok: bool)
      requires Valid() && |WText(chars)| < 0x8000_0000
      modifies this`offset, this`origin, this`swap, this`last, this`nextId, buffer
      ensures Valid() && swap == old(swap) && nextId == old(nextId)
      ensures var out := Enc(Cfg(AutoShort), WStr(chars), old(offset) - old(origin));
        && ok == (buffer.internal || old(offset) + |out.cells| <= |old(buffer.bytes)|)
        && (old(offset) + |out.cells| <= |old(buffer.bytes)| ==> |buffer.bytes| == |old(buffer.bytes)|)
        && (ok ==> |buffer.bytes| - offset
                   <= Cap(|old(buffer.bytes)| - old(offset), Request(Cfg(AutoShort), WStr(chars), old(offset) - old(origin))))
        && (ok ==> Wrote(old(buffer.bytes), old(offset), out))
      ensures !ok ==> GetState() == old(GetState())
      ensures !buffer.internal ==> |buffer.bytes| == |old(buffer.bytes)|
    {
      hide Pad, Holds, Kept, Enc, U32, Elements, Cap, WText, Request, Larger;
      var before := GetState();
      var t := WText(chars);
      ghost var c, p := Cfg(AutoShort), offset - origin;
      WStrOut(c, chars, p);
      ok := SerializeU32(|t|);
      if ok && |t| == 0 { LargerZero(|U32(c, 0, p)|); }
      if !ok || |t| == 0 { return; }
      ghost var mid, at, spare := buffer.bytes, offset, |buffer.bytes| - offset;
      ok := AppendWide(t);
      if ok {
        ghost var es := Elements(c, K2, t, at - origin);
        CapTwice(|old(buffer.bytes)| - old(offset), spare, |buffer.bytes| - offset, |U32(c, |t|, p)|, |es|);
        WroteOn(old(buffer.bytes), mid, buffer.bytes, before.offset, U32(c, |t|, p), es);
      } else {
        SetState(before);
      }
    }

    /** A sequence of primitives: the count, then the elements. A failure leaves no trace. */
    method SerializeSeqPrim(k: Kind, ns: seq<nat>) returns (ok: bool)
      requires Valid()
      modifies this`offset, this`origin, this`swap, this`last, this`nextId, this`next, buffer
      ensures Valid() && swap == old(swap) && nextId == old(nextId)
      ensures var out := Enc(Cfg(AutoShort), SeqPrim(k, ns), old(offset) - old(origin));
        && ok == (buffer.internal || old(offset) + |out.cells| <= |old(buffer.bytes)|)
        && (old(offset) + |out.cells| <= |old(buffer.bytes)| ==> |buffer.bytes| == |old(buffer.bytes)|)
        && (ok ==> |buffer.bytes| - offset
                   <= Cap(|old(buffer.bytes)| - old(offset), Request(Cfg(AutoShort), SeqPrim(k, ns), old(offset) - old(origin))))
        && (ok ==> Wrote(old(buffer.bytes), old(offset), out))
        && (ok ==> next == if v2 then SeqNext(k) else old(next))
      ensures !ok ==> GetState() == old(GetState()) && next == old(next)
      ensures !buffer.internal ==> |buffer.bytes| == |old(buffer.bytes)|
    {
      hide Pad, Holds, Kept, Enc, U32, Elements, Cap, Request, Larger;
      var before := GetState();
      ghost var c, p := Cfg(AutoShort), offset - origin;
      SeqPrimOut(c, k, ns, p);
      ok := SerializeU32(|ns|);
      if !ok { return; }
      ghost var mid, at, spare := buffer.bytes, offset, |buffer.bytes| - offset;
      ok := SerializeArray(k, ns);
      if ok {
        CapTwice(|old(buffer.bytes)| - old(offset), spare, |buffer.bytes| - offset,
                 |U32(c, |ns|, p)|, |Elements(c, k, ns, at - origin)|);
        WroteOn(old(buffer.bytes), mid, buffer.bytes, before.offset, U32(c, |ns|, p), Elements(c, k, ns, at - origin));
        if v2 {
          next := SeqNext(k);
        }
      } else {
        SetState(before);
      }
    }

    // -------------------------------------------------------------- reading

    /** The outcome of a read, as the decoding function gives it. */
    ghost predicate Got<T>(d: Res<T>, r: Option<T>)
      reads this
    {
      match d
      case Err => r == None
      case Ok(x, cur) => r == Some(x) && origin <= offset && Here() == cur
    }

    /** Takes the bytes of one number from the cursor, exchanged if the stream's order is not the host's. */
    method Get(w: nat) returns (n: nat)
      requires Valid() && last <= 1 && offset + w <= |buffer.bytes|
      modifies this`offset
      ensures Valid() && offset == old(offset) + w
      ensures n == FromBytes(Order(), buffer.bytes[old(offset)..offset])
    {
      hide Pad, FromBytes, Reverse;
      var s := buffer.bytes[offset..offset + w];
      FromSwapped(hostLittle, swap, s);
      n := FromBytes(hostLittle, if swap then Reverse(s) else s);
      offset := offset + w;
    }

    method DeserializePrim(k: Kind) returns (r: Option<nat>)
      requires Valid()
      modifies this`offset, this`last
      ensures Valid() && Got(DecPrim(Cfg(AutoShort), k, buffer.bytes, old(Here())), r)
      ensures r == None && k != KBool ==> offset == old(offset) && last == old(last)
      ensures r.Some? && Size(k) > 1 ==> last == 0
    {
      hide Pad, FromBytes;
      if Size(k) > 1 {
        r := DeserializeWider(k);
      } else {
        PadOne(offset - origin);
        if |buffer.bytes| - offset < 1 { return None; }
        last := 1;
        var n := Get(1);
        r := if k == KBool && n > 1 then None else Some(n);
      }
    }

    /** One of more than one byte. */
    method DeserializeWider(k: Kind) returns (r: Option<nat>)
      requires Valid() && Size(k) > 1
      modifies this`offset, this`last
      ensures Valid() && Got(DecPrim(Cfg(AutoShort), k, buffer.bytes, old(Here())), r)
      ensures if r == None then offset == old(offset) && last == old(last) else last == 0
    {
      hide Pad, FromBytes;
      var w := Size(k);
      var align := Alignment(if k == K8 then align64 else w);
      if |buffer.bytes| - offset < w + align { return None; }
      last := w;
      MakeAlignment(align);
      var n := Get(w);
      r := Some(n);
    }

    /** Takes `n` elements from an aligned cursor, stopping at a boolean that is neither 0 nor 1. */
    method GetAll(k: Kind, n: nat) returns (r: Option<seq<nat>>)
      requires Valid() && last <= 1 && offset + n * Size(k) <= |buffer.bytes|
      requires Pad(offset - origin, Cfg(AutoShort).AlignOf(k)) == 0
      modifies this`offset
      ensures Valid() && Got(DecElements(Cfg(AutoShort), k, n, buffer.bytes, old(Here())), r)
      ensures r == None ==> k == KBool
    {
      hide Pad, FromBytes, DecElements, DecPrim;
      var w := Size(k);
      ghost var c, start := Cfg(AutoShort), Here();
      var xs, i := [], 0;
      PrependNone(DecElements(c, k, n, buffer.bytes, start));
      while i < n
        invariant 0 <= i <= n && Valid() && offset + (n - i) * w <= |buffer.bytes|
        invariant Pad(offset - origin, c.AlignOf(k)) == 0
        invariant DecElements(c, k, n, buffer.bytes, start) == Prepend(xs, DecElements(c, k, n - i, buffer.bytes, Here()))
      {
        assert (n - i) * w == (n - i - 1) * w + w;
        ghost var here := Here();
        var x := Get(w);
        DecNext(c, k, n - i, buffer.bytes, here, x);
        if k == KBool && x > 1 {
          return None;
        }
        PadStep(c, k, here.rel);
        PrependMore(xs, x, DecElements(c, k, n - i - 1, buffer.bytes, Here()));
        xs, i := xs + [x], i + 1;
      }
      ElementsNil(c, k, buffer.bytes, Here());
      assert xs + [] == xs;
      r := Some(xs);
    }

    /** An array of primitives: one alignment and one test for room, then the elements back to back. */
    method DeserializeArray(k: Kind, n: nat) returns (r: Option<seq<nat>>)
      requires Valid()
      modifies this`offset, this`last
      ensures Valid() && Got(DecElements(Cfg(AutoShort), k, n, buffer.bytes, old(Here())), r)
      ensures r == None && k != KBool ==> offset == old(offset) && last == old(last)
    {
      hide Pad, FromBytes, DecElements, DecPrim;
      var w := Size(k);
      ghost var c, start := Cfg(AutoShort), Here();
      ElementsExtent(c, k, n, buffer.bytes, start);
      if n == 0 && w > 1 {
        ElementsNil(c, k, buffer.bytes, start);
        return Some([]);
      }
      var align := if w == 1 then 0 else Alignment(if k == K8 then align64 else w);
      PadOne(offset - origin);
      if |buffer.bytes| - offset < n * w + align {
        return None;
      }
      r := TakeArray(k, n, align);
    }

    /** Past the padding, and then the elements. */
    method TakeArray(k: Kind, n: nat, align: nat) returns (r: Option<seq<nat>>)
      requires Valid() && (n > 0 || Size(k) == 1) && align == Pad(offset - origin, Cfg(AutoShort).AlignOf(k))
      requires offset + align + n * Size(k) <= |buffer.bytes|
      modifies this`offset, this`last
      ensures Valid() && Got(DecElements(Cfg(AutoShort), k, n, buffer.bytes, old(Here())), r)
      ensures r == None ==> k == KBool
    {
      hide Pad, FromBytes, DecElements, DecPrim;
      Aligned(Cfg(AutoShort), k, n, buffer.bytes, Here());
      PadOne(offset - origin);
      last := Size(k);
      if Size(k) > 1 { MakeAlignment(align); }
      r := GetAll(k, n);
    }

    method DeserializeU32() returns (r: Option<nat>)
      requires Valid()
      modifies this`offset, this`last
      ensures Valid() && Got(DecU32(Cfg(AutoShort), buffer.bytes, old(Here())), r)
      ensures r == None ==> offset == old(offset) && last == old(last)
      ensures r.Some? ==> last == 0
    {
      hide Pad, FromBytes;
      r := DeserializePrim(K4);
    }

    /** A string, without its terminating zero if it has one. A failure leaves no trace. */
    method ReadString() returns (r: Option<seq<byte>>)
      requires Valid()
      modifies this`offset, this`origin, this`swap, this`last, this`nextId
      ensures Valid() && swap == old(swap) && nextId == old(nextId)
      ensures Got(DecStr(Cfg(AutoShort), buffer.bytes, old(Here())), r)
      ensures r == None ==> GetState() == old(GetState())
    {
      hide Pad, DecU32, Untrail;
      var before := GetState();
      var n := DeserializeU32();
      if n == None { return None; }
      var length := n.value;
      if length == 0 {
        r := Some([]);
      } else if |buffer.bytes| - offset >= length {
        last := 1;
        r := Some(Untrail(buffer.bytes[offset..offset + length]));
        offset := offset + length;
      } else {
        SetState(before);
        r := None;
      }
    }

    /** Takes wide characters one by one, each with its own alignment and test. */
    method DeserializeWide(n: nat) returns (r: Option<seq<nat>>)
      requires Valid()
      modifies this`offset, this`last
      ensures Valid() && Got(DecElements(Cfg(AutoShort), K2, n, buffer.bytes, old(Here())), r)
      ensures old(offset) <= offset
    {
      hide Pad, FromBytes, DecElements, DecPrim;
      ghost var c, start := Cfg(AutoShort), Here();
      var xs, i := [], 0;
      PrependNone(DecElements(c, K2, n, buffer.bytes, start));
      while i < n
        invariant 0 <= i <= n && Valid() && old(offset) <= offset
        invariant DecElements(c, K2, n, buffer.bytes, start)
               == Prepend(xs, DecElements(c, K2, n - i, buffer.bytes, Here()))
      {
        DecFirst(c, K2, n - i, buffer.bytes, Here());
        ghost var here := Here();
        var x := DeserializePrim(K2);
        if x.None? { return None; }
        PrependMore(xs, x.value, DecElements(c, K2, n - i - 1, buffer.bytes, Here()));
        xs, i := xs + [x.value], i + 1;
      }
      ElementsNil(c, K2, buffer.bytes, Here());
      assert xs + [] == xs;
      r := Some(xs);
    }

    /**
     A count of wide characters lies ahead whose double, in 32 bits, is another number and not more than the bytes
     behind it.
     */
    ghost predicate Overrun()
      reads this, buffer
      requires Valid()
    {
      var n := DecU32(Cfg(AutoShort), buffer.bytes, Here());
      n.Ok? && n.value * 2 >= TWO_32 && 0 < n.value * 2 % TWO_32 <= |buffer.bytes| - n.cur.off
    }

    /**
     A wide string, without a zero at its end if it has one. The first character is read on a cached alignment. A
     failure leaves no trace unless the room was tested for another length than the one announced.
     */
    method ReadWString() returns (r: Option<seq<nat>>)
      requires Valid()
      modifies this`offset, this`origin, this`swap, this`last, this`nextId
      ensures Valid() && swap == old(swap) && nextId == old(nextId)
      ensures Got(DecWStr(Cfg(AutoShort), buffer.bytes, old(Here())), r)
      ensures r == None ==> (GetState() == old(GetState()) <==> !old(Overrun()))
    {
      hide Pad, DecU32, DecElements, WUntrail;
      var before := GetState();
      ghost var c, start := Cfg(AutoShort), Here();
      var n := DeserializeU32();
      if n == None { return None; }
      var bytes := n.value * 2 % TWO_32;
      if bytes == 0 { return Some([]); }
      if |buffer.bytes| - offset >= bytes {
        PadAfter4(start.rel);
        EvenAfter4(offset - origin);
        last := 2;
        WideFits(c, n.value, buffer.bytes, Here());
        var ns := DeserializeWide(n.value);
        if ns == None { return None; }
        r := Some(WUntrail(ns.value));
      } else {
        SetState(before);
        r := None;
      }
    }

    /** The same into memory of the caller's: only the count 0 is empty, and a zero at the end stays. */
    method DeserializeWChars() returns (r: Option<seq<nat>>)
      requires Valid()
      modifies this`offset, this`origin, this`swap, this`last, this`nextId
      ensures Valid() && swap == old(swap) && nextId == old(nextId)
      ensures var n := DecU32(Cfg(AutoShort), buffer.bytes, old(Here()));
        if n.Err? || |buffer.bytes| - n.cur.off < n.value * 2 % TWO_32
        then r == None && GetState() == old(GetState())
        else Got(DecElements(Cfg(AutoShort), K2, n.value, buffer.bytes, n.cur), r)
    {
      hide Pad, DecU32, DecElements;
      var before := GetState();
      ghost var c, start := Cfg(AutoShort), Here();
      var n := DeserializeU32();
      if n == None { return None; }
      if n.value == 0 {
        ElementsNil(c, K2, buffer.bytes, Here());
        return Some([]);
      }
      if |buffer.bytes| - offset >= n.value * 2 % TWO_32 {
        PadAfter4(start.rel);
        EvenAfter4(offset - origin);
        last := 2;
        r := DeserializeWide(n.value);
      } else {
        SetState(before);
        r := None;
      }
    }

    /** A sequence of primitives. Unless it fails on a bad boolean, a failure leaves no trace. */
    method DeserializeSeqPrim(k: Kind) returns (r: Option<seq<nat>>)
      requires Valid()
      modifies this`offset, this`origin, this`swap, this`last, this`nextId
      ensures Valid() && swap == old(swap) && nextId == old(nextId)
      ensures Got(DecSeqPrim(Cfg(AutoShort), k, buffer.bytes, old(Here())), r)
      ensures r == None && k != KBool ==> GetState() == old(GetState())
    {
      hide Pad, DecU32, DecElements;
      var before := GetState();
      ghost var c := Cfg(AutoShort);
      var n := DeserializeU32();
      if n == None { return None; }
      if n.value == 0 {
        ElementsNil(c, k, buffer.bytes, Here());
        r := Some([]);
      } else if |buffer.bytes| - offset < n.value {
        SetState(before);
        r := None;
      } else {
        r := DeserializeArray(k, n.value);
        if r == None && k != KBool {
          SetState(before);
        }
      }
    }

    // -------------------------------------------------------------- byte order and encapsulation

    /** Numbers are exchanged exactly when the chosen order is not the host's. */
    ghost predicate OrderKept()
      reads this
    {
      swap == (little != hostLittle)
    }

    method ChangeEndianness(toLittle: bool)
      modifies this`little, this`swap
      ensures little == toLittle && (old(OrderKept()) ==> OrderKept())
      ensures swap == (old(swap) != (old(little) != toLittle))
    {
      if little != toLittle {
        swap, little := !swap, toLittle;
      }
    }

    /** One number in an order of its own; the stream's order is back afterwards, failed or not. */
    method SerializePrimAs(k: Kind, n: nat, asLittle: bool) returns (ok: bool)
      requires Valid() && OrderKept()
      modifies this`offset, this`last, this`swap, buffer
      ensures Valid() && OrderKept() && swap == old(swap)
      ensures ok ==> offset == old(offset) + Pad(old(offset) - origin, Cfg(AutoShort).AlignOf(k)) + Size(k)
      ensures ok ==> Patched(old(buffer.bytes), buffer.bytes, offset - Size(k), ToBytes(asLittle, n, Size(k)))
      ensures !ok ==> offset == old(offset) && last == old(last) && buffer.bytes == old(buffer.bytes)
    {
      hide Pad, ToBytes, Patched;
      var aux := swap;
      swap := (swap && little == asLittle) || (!swap && little != asLittle);
      assert Order() == asLittle;
      ok := SerializePrim(k, n);
      swap := aux;
    }

    method DeserializePrimAs(k: Kind, asLittle: bool) returns (r: Option<nat>)
      requires Valid() && OrderKept()
      modifies this`offset, this`last, this`swap
      ensures Valid() && OrderKept() && swap == old(swap)
      ensures Got(DecPrim(Config(v2, asLittle, AutoShort), k, buffer.bytes, old(Here())), r)
    {
      hide Pad, DecPrim;
      var aux := swap;
      swap := (swap && little == asLittle) || (!swap && little != asLittle);
      assert Order() == asLittle;
      r := DeserializePrim(k);
      swap := aux;
    }

    /** Only before anything has been written or read. */
    method SetEncodingFlag(a: Algorithm) returns (ok: bool)
      modifies this`flag
      ensures ok == (offset == 0) && flag == if ok then a else old(flag)
    {
      ok := offset == 0;
      if ok { flag := a; }
    }

    method SerializeEncapsulation() returns (ok: bool)
      requires Valid() && nextId == INVALID_ID
      modifies this`offset, this`origin, this`swap, this`last, this`nextId, this`encoding, buffer
      ensures Valid() && swap == old(swap) && nextId == old(nextId)
      ensures ok == (buffer.internal || old(offset) + 4 <= |old(buffer.bytes)|)
      ensures old(offset) + 4 <= |old(buffer.bytes)| ==> |buffer.bytes| == |old(buffer.bytes)|
      ensures !buffer.internal ==> |buffer.bytes| == |old(buffer.bytes)|
      ensures ok ==> Kept(old(buffer.bytes), buffer.bytes, old(offset))
      ensures ok ==> Holds(buffer.bytes, old(offset), Raw(EncapsulationBytes(Encapsulation(flag, little, options))))
      ensures ok ==> offset == origin == old(offset) + 4 && last == 0 && encoding == flag
      ensures !ok ==> offset == old(offset) && origin == old(origin) && last == old(last)
    {
      hide Patched, Kept, Holds, Raw, Cap, Pad;
      var before := GetState();
      ghost var was := buffer.bytes;
      var kind := Code(flag) + (if little then 1 else 0);
      ok := Append([0]);
      if ok {
        ghost var mid := buffer.bytes;
        ok := Append([kind]);
        if ok {
          WroteOn(was, mid, buffer.bytes, before.offset, Raw([0]), Raw([kind]));
          encoding := flag;
          mid := buffer.bytes;
          ok := Append([options.0, options.1]);
          if ok {
            WroteOn(was, mid, buffer.bytes, before.offset, Raw([0]) + Raw([kind]), Raw([options.0, options.1]));
            FourBytes(0, kind, options.0, options.1);
          }
        }
      }
      if ok {
        ResetAlignment();
      } else {
        SetState(before);
      }
    }

    /** The encapsulation ahead, if four bytes that make one lie ahead. */
    ghost function Ahead(): Option<Encapsulation>
      reads this, buffer
    {
      if offset + 4 <= |buffer.bytes| then
        ParseEncapsulation(buffer.bytes[offset], buffer.bytes[offset + 1], buffer.bytes[offset + 2], buffer.bytes[offset + 3])
      else None
    }

    /** Whether the first two bytes ahead announce another byte order than the present one. */
    ghost predicate OtherOrderAhead()
      reads this, buffer
    {
      offset + 2 <= |buffer.bytes| && buffer.bytes[offset] == 0 && (buffer.bytes[offset + 1] % 2 == 1) != little
    }

    /**
     Takes version, algorithm, byte order and options from the encapsulation. A failure restores the position
     but not the byte order, so that the order invariant survives it only if the order ahead was the present one.
     */
    method ReadEncapsulation() returns (ok: bool)
      requires Valid()
      modifies this`offset, this`origin, this`swap, this`last, this`nextId,
               this`little, this`v2, this`align64, this`flag, this`encoding, this`options
      ensures Valid() && nextId == old(nextId) && ok == old(Ahead()).Some?
      ensures ok ==> Encapsulation(flag, little, options) == old(Ahead()).value && encoding == flag && v2 == IsV2(flag)
      ensures ok ==> offset == origin == old(offset) + 4 && last == 0 && (old(OrderKept()) ==> OrderKept())
      ensures !ok ==> GetState().(previous := old(encoding)) == old(GetState())
      ensures !ok && old(OrderKept()) ==> (OrderKept() <==> !old(OtherOrderAhead()))
    {
      var before := GetState();
      ok := TakeEncapsulation();
      if ok {
        ResetAlignment();
      } else {
        SetState(before);
      }
    }

    method TakeEncapsulation() returns (ok: bool)
      requires Valid()
      modifies this`offset, this`last, this`swap,
               this`little, this`v2, this`align64, this`flag, this`encoding, this`options
      ensures Valid() && ok == old(Ahead()).Some? && swap == (old(swap) != (little != old(little)))
      ensures ok ==> Encapsulation(flag, little, options) == old(Ahead()).value && encoding == flag && v2 == IsV2(flag)
      ensures ok ==> offset == old(offset) + 4
      ensures !ok ==> (little != old(little) <==> old(OtherOrderAhead()))
    {
      hide FlagOf, Pad;
      ok := false;
      var dummy := GetByte();
      if dummy == Some(0) {
        var kind := GetByte();
        if kind.Some? {
          ChangeEndianness(kind.value % 2 == 1);
          var a := FlagOf(kind.value - kind.value % 2);
          if a.Some? { ok := TakeOptions(a.value); }
        }
      }
    }

    /** Switches to an algorithm and its version, and takes the options. */
    method TakeOptions(a: Algorithm) returns (ok: bool)
      requires Valid()
      modifies this`offset, this`last, this`v2, this`align64, this`flag, this`encoding, this`options
      ensures Valid() && ok == (old(offset) + 2 <= |buffer.bytes|) && flag == encoding == a && v2 == IsV2(a)
      ensures ok ==> offset == old(offset) + 2
      ensures ok ==> options == (buffer.bytes[old(offset)], buffer.bytes[old(offset) + 1])
    {
      hide Pad;
      v2 := IsV2(a);
      align64 := if v2 then 4 else 8;
      flag, encoding := a, a;
      ok := |buffer.bytes| - offset >= 2;
      if ok {
        last := 1;
        options := (buffer.bytes[offset], buffer.bytes[offset + 1]);
        offset := offset + 2;
      }
    }

    method GetByte() returns (r: Option<byte>)
      requires Valid()
      modifies this`offset, this`last
      ensures Valid()
      ensures r == if old(offset) < |buffer.bytes| then Some(buffer.bytes[old(offset)]) else None
      ensures offset == old(offset) + if r.Some? then 1 else 0
    {
      hide Pad;
      if |buffer.bytes| - offset >= 1 {
        last := 1;
        r := Some(buffer.bytes[offset]);
        offset := offset + 1;
      } else {
        r := None;
      }
    }

    // -------------------------------------------------------------- patching and moving

    /** Overwrites the 4 bytes at an aligned cursor with a number and moves behind them. */
    method WriteWord(n: nat)
      requires Valid() && Pad(offset - origin, 4) == 0 && offset + 4 <= |buffer.bytes|
      modifies this`offset, this`last, buffer
      ensures Valid() && offset == old(offset) + 4 && |buffer.bytes| == |old(buffer.bytes)|
      ensures Patched(old(buffer.bytes), buffer.bytes, old(offset), ToBytes(Order(), n, 4))
    {
      hide Pad, ToBytes, Patched;
      var ok := SerializePrim(K4, n);
    }

    /** `memmove`. */
    method Move(to: nat, from: nat, n: nat)
      requires to + n <= |buffer.bytes| && from + n <= |buffer.bytes|
      modifies buffer`bytes
      ensures |buffer.bytes| == |old(buffer.bytes)|
      ensures Patched(old(buffer.bytes), buffer.bytes, to, old(buffer.bytes)[from..from + n])
    {
      buffer.bytes := buffer.bytes[..to] + buffer.bytes[from..from + n] + buffer.bytes[to + n..];
    }

    // -------------------------------------------------------------- XCDRv2 members

    /** Where a member begun in state `st` has its header: on the next multiple of 4. */
    ghost function HeaderAt(st: State): nat
      requires st.origin <= st.offset
    {
      st.offset + Pad(st.offset - st.origin, 4)
    }

    /** Allocates a header, short or long as selected, for a member of a mutable struct that is present. */
    method BeginMember2(id: nat, must: bool, present: bool, sel: HeaderSelection) returns (st: State, ok: bool)
      requires Valid() && v2
      modifies this`offset, this`last, this`nextId, buffer
      ensures Valid() && |old(buffer.bytes)| <= |buffer.bytes|
      ensures var headed, long := present && encoding == PlCdr2, AllocatesLong(sel);
        var n := if headed then Pad(old(offset) - origin, 4) + (if long then 8 else 4) else 0;
        && ok == (!headed || (id < 0x1000_0000 && (buffer.internal || old(offset) + n <= |old(buffer.bytes)|)))
        && (!buffer.internal || old(offset) + n <= |old(buffer.bytes)| ==> |buffer.bytes| == |old(buffer.bytes)|)
        && (!headed ==> buffer.bytes == old(buffer.bytes))
        && (ok ==> offset == old(offset) + n && nextId == INVALID_ID)
        && (ok ==> st == if headed
                         then old(GetState()).(present := true, must := must, nextId := id, selection := sel, longHeader := long)
                         else old(GetState()).(present := present, must := must, nextId := id))
      ensures ok ==> Kept(old(buffer.bytes), buffer.bytes, old(offset))
    {
      hide Pad, Holds, U32, Kept, Cap;
      st := GetState().(present := present, must := must, nextId := id);
      ok := true;
      KeptSelf(buffer.bytes, offset);
      if present && encoding == PlCdr2 {
        if id >= 0x1000_0000 { return st, false; }
        var long := AllocatesLong(sel);
        ok := AllocateWords(Word2(must, 0, id), long);
        if !ok { return; }
        st := st.(selection := sel, longHeader := long);
      }
      nextId := INVALID_ID;
    }

    /** One word, and a second one of 0 behind it if there is to be one. */
    method AllocateWords(word: nat, two: bool) returns (ok: bool)
      requires Valid()
      modifies this`offset, this`last, buffer
      ensures Valid() && |old(buffer.bytes)| <= |buffer.bytes|
      ensures var n := Pad(old(offset) - origin, 4) + if two then 8 else 4;
        && ok == (buffer.internal || old(offset) + n <= |old(buffer.bytes)|)
        && (!buffer.internal || old(offset) + n <= |old(buffer.bytes)| ==> |buffer.bytes| == |old(buffer.bytes)|)
        && (ok ==> offset == old(offset) + n)
      ensures ok ==> Kept(old(buffer.bytes), buffer.bytes, old(offset))
      ensures !ok && !two ==> offset == old(offset) && buffer.bytes == old(buffer.bytes)
    {
      hide Pad, Holds, U32, Kept, Cap;
      ghost var at, was := offset, buffer.bytes;
      ok := SerializeU32(word);
      if ok { KeptLonger(was, buffer.bytes, at); }
      if ok && two {
        ghost var mid := buffer.bytes;
        PadAfter4(at - origin);
        ok := SerializeU32(0);
        if ok {
          KeptTrans(was, mid, buffer.bytes, at, at + Pad(at - origin, 4) + 4);
          KeptLonger(mid, buffer.bytes, at + Pad(at - origin, 4) + 4);
        }
      }
    }

    /** Completes a header where it stands: `xcdr2_end_short_member_header`, and a long one whose NEXTINT is shared. */
    method StampWord(word: nat, ghost end: nat)
      requires Valid() && Pad(offset - origin, 4) == 0 && offset + 4 <= end <= |buffer.bytes|
      modifies this`offset, this`last, buffer
      ensures Valid() && offset == old(offset) + 4 && |buffer.bytes| == |old(buffer.bytes)|
      ensures Kept(old(buffer.bytes), buffer.bytes, old(offset))
      ensures Stamped(buffer.bytes, old(offset), ToBytes(Order(), word, 4), old(buffer.bytes)[old(offset) + 4..end])
    {
      hide Pad, ToBytes, Patched, Kept, Stamped;
      WriteWord(word);
      StampInPlace(old(buffer.bytes), buffer.bytes, old(offset), ToBytes(Order(), word, 4), end);
    }

    /** Completes a long header where it stands: `xcdr2_end_long_member_header` with a size of its own. */
    method StampLong(word: nat, size: nat, ghost end: nat)
      requires Valid() && Pad(offset - origin, 4) == 0 && offset + 8 <= end <= |buffer.bytes|
      modifies this`offset, this`last, buffer
      ensures Valid() && offset == old(offset) + 8 && |buffer.bytes| == |old(buffer.bytes)|
      ensures Kept(old(buffer.bytes), buffer.bytes, old(offset))
      ensures Stamped(buffer.bytes, old(offset), ToBytes(Order(), word, 4) + ToBytes(Order(), size, 4),
                      old(buffer.bytes)[old(offset) + 8..end])
    {
      hide Pad, ToBytes, Patched, Kept, Stamped;
      ghost var a, b := ToBytes(Order(), word, 4), ToBytes(Order(), size, 4);
      PadNext4(offset - origin);
      WriteWord(word);
      ghost var mid := buffer.bytes;
      WriteWord(size);
      PatchedSnoc(old(buffer.bytes), mid, buffer.bytes, old(offset), a, b);
      StampInPlace(old(buffer.bytes), buffer.bytes, old(offset), a + b, end);
    }

    /** Turns an allocated long header into a short one: `xcdr2_change_to_short_member_header`. */
    method ChangeToShort2(word: nat, size: nat)
      requires Valid() && Pad(offset - origin, 4) == 0 && offset + 8 + size <= |buffer.bytes|
      modifies this`offset, this`last, buffer
      ensures Valid() && offset == old(offset) + 4 && |buffer.bytes| == |old(buffer.bytes)|
      ensures Kept(old(buffer.bytes), buffer.bytes, old(offset))
      ensures Stamped(buffer.bytes, old(offset), ToBytes(Order(), word, 4),
                      old(buffer.bytes)[old(offset) + 8..old(offset) + 8 + size])
    {
      hide Pad, ToBytes, Patched, Kept, Stamped;
      ghost var w, at := ToBytes(Order(), word, 4), offset;
      WriteWord(word);
      ghost var mid := buffer.bytes;
      PatchedSlice(old(buffer.bytes), mid, at, w, at + 8, at + 8 + size);
      Move(offset, offset + 4, size);
      StampThenMove(old(buffer.bytes), mid, buffer.bytes, at, w, mid[at + 8..at + 8 + size]);
    }

    /** Joins an allocated long header with the length the body starts with: `xcdr2_shrink_to_long_member_header`. */
    method ShrinkToLong2(word: nat, end: nat)
      requires Valid() && Pad(offset - origin, 4) == 0 && offset + 8 <= end <= |buffer.bytes|
      modifies this`offset, this`last, buffer
      ensures Valid() && offset == old(offset) + 4 && |buffer.bytes| == |old(buffer.bytes)|
      ensures Kept(old(buffer.bytes), buffer.bytes, old(offset))
      ensures Stamped(buffer.bytes, old(offset), ToBytes(Order(), word, 4), old(buffer.bytes)[old(offset) + 8..end])
    {
      hide Pad, ToBytes, Patched, Kept, Stamped;
      ghost var w, at := ToBytes(Order(), word, 4), offset;
      Move(offset + 4, offset + 8, end - offset - 8);
      ghost var mid := buffer.bytes;
      WriteWord(word);
      StampMoved(old(buffer.bytes), mid, buffer.bytes, at, w, old(buffer.bytes)[at + 8..end]);
    }

    /**
     Turns an allocated short header into a long one: `xcdr2_change_to_long_member_header`. Where more than one byte is
     missing its guard passes and the body leaves the buffer.
     */
    method ChangeToLong2(word: nat, size: nat) returns (ok: bool)
      requires Valid() && Pad(offset - origin, 4) == 0 && offset + 7 + size <= |buffer.bytes|
      modifies this`offset, this`last, buffer
      ensures Valid() && |buffer.bytes| == |old(buffer.bytes)| && ok == (old(offset) + 8 + size <= |buffer.bytes|)
      ensures !ok ==> offset == old(offset) && buffer.bytes == old(buffer.bytes)
      ensures ok ==> offset == old(offset) + 8 && Kept(old(buffer.bytes), buffer.bytes, old(offset))
      ensures ok ==> Stamped(buffer.bytes, old(offset), ToBytes(Order(), word, 4) + ToBytes(Order(), size, 4),
                             old(buffer.bytes)[old(offset) + 4..old(offset) + 4 + size])
    {
      hide Pad, ToBytes, Patched, Kept, Stamped;
      GuardRight(|buffer.bytes| - offset, size, 7);
      ok := GuardPasses(|buffer.bytes| - offset, size, 7);
      if !ok { return; }
      ghost var a, b, at := ToBytes(Order(), word, 4), ToBytes(Order(), size, 4), offset;
      Move(offset + 8, offset + 4, size);
      ghost var moved := buffer.bytes;
      PadNext4(offset - origin);
      WriteWord(word);
      ghost var mid := buffer.bytes;
      WriteWord(size);
      PatchedSnoc(moved, mid, buffer.bytes, at, a, b);
      StampMoved(old(buffer.bytes), moved, buffer.bytes, at, a + b, old(buffer.bytes)[at + 4..at + 4 + size]);
    }

    /** Bytes of the body of a member begun in state `st`, whose header was allocated long or short. */
    ghost function BodySize(st: State, short: nat, long: nat): int
      reads this
      requires st.origin <= st.offset
    {
      offset - HeaderAt(st) - if st.longHeader then long else short
    }

    /** Whether a body of `size` bytes makes a short header a long one. */
    static predicate Stretches2(sel: HeaderSelection, next: NextInt, size: nat) {
      sel == AutoShort && next == NoNext && ShortCode(size) >= 4
    }

    /**
     Finishes an XCDRv2 member. In a mutable struct its header gets the form that size, flag and selection call for,
     the body moving by 4 where that form is not the allocated one. It fails if the header may only be short and that
     is not the form, or if one byte of room for a longer header is missing.
     */
    method EndMember2(st: State) returns (ok: bool)
      requires Valid() && v2 && Saved(st) && origin == st.origin && swap == st.swap
      requires st.present && encoding == PlCdr2 ==>
        && st.nextId < 0x1000_0000 && st.longHeader == AllocatesLong(st.selection)
        && BodySize(st, 4, 8) >= 0
        && (Stretches2(st.selection, next, BodySize(st, 4, 8)) ==> HeaderAt(st) + 7 + BodySize(st, 4, 8) <= |buffer.bytes|)
      modifies this`offset, this`origin, this`swap, this`last, this`nextId, this`next, buffer
      ensures Valid() && origin == old(origin) && swap == old(swap) && |buffer.bytes| == |old(buffer.bytes)|
      ensures ok ==> next == NoNext && nextId == INVALID_ID
      ensures !(st.present && encoding == PlCdr2) ==> ok && offset == old(offset) && buffer.bytes == old(buffer.bytes)
      ensures st.present && encoding == PlCdr2 ==>
        var at, size := HeaderAt(st), old(BodySize(st, 4, 8));
        var head := Finished2(Order(), st, size, old(next));
        && ok == Ends2(st.selection, old(next), size, |buffer.bytes| - at)
        && (ok ==> offset == at + |head| + size && Kept(old(buffer.bytes), buffer.bytes, at))
        && (ok ==> Stamped(buffer.bytes, at, head, old(buffer.bytes)[old(offset) - size..old(offset)]))
    {
      hide Pad, ToBytes, Kept, Stamped, Finished2;
      ok := true;
      if st.present && encoding == PlCdr2 {
        var end := offset;
        Rewind(st);
        if next == NoNext {
          ok := FinishSized2(st, end);
        } else {
          ok := FinishJoined2(st, end);
        }
        if !ok { return; }
      }
      nextId, next := INVALID_ID, NoNext;
    }

    /** Whether a member can be ended, with `room` bytes from its header on. */
    static predicate Ends2(sel: HeaderSelection, next: NextInt, size: nat, room: int) {
      && (sel == ShortOnly ==> FormOf(sel, next, size) == Short)
      && (Stretches2(sel, next, size) ==> 8 + size <= room)
    }

    /** Back to the header of a member begun in state `st`. */
    method Rewind(st: State)
      requires Valid() && Saved(st) && HeaderAt(st) <= |buffer.bytes|
      modifies this`offset, this`origin, this`swap, this`last, this`nextId
      ensures Valid() && offset == HeaderAt(st) && Pad(offset - origin, 4) == 0
      ensures origin == st.origin && swap == st.swap && nextId == st.nextId
    {
      hide Pad;
      SetState(st);
      PadAfter4(offset - origin);
      MakeAlignment(Alignment(4));
    }

    /** The header of a body whose size goes into the length code or into a NEXTINT of its own. */
    method FinishSized2(st: State, end: nat) returns (ok: bool)
      requires Valid() && Pad(offset - origin, 4) == 0 && end <= |buffer.bytes|
      requires st.longHeader == AllocatesLong(st.selection)
      requires var size := end - offset - if st.longHeader then 8 else 4;
        size >= 0 && (Stretches2(st.selection, NoNext, size) ==> offset + 7 + size <= |buffer.bytes|)
      modifies this`offset, this`last, buffer
      ensures Valid() && |buffer.bytes| == |old(buffer.bytes)|
      ensures var at, size := old(offset), end - old(offset) - if st.longHeader then 8 else 4;
        var head := Finished2(Order(), st, size, NoNext);
        && ok == Ends2(st.selection, NoNext, size, |buffer.bytes| - at)
        && (ok ==> offset == at + |head| + size && Kept(old(buffer.bytes), buffer.bytes, at))
        && (ok ==> Stamped(buffer.bytes, at, head, old(buffer.bytes)[end - size..end]))
    {
      hide Pad, ToBytes, Kept, Stamped, Word2;
      var id, must, sel := st.nextId, st.must, st.selection;
      var size := end - offset - if st.longHeader then 8 else 4;
      if ShortCode(size) >= 4 {
        if st.longHeader {
          // A size of 0 is not written: the second word of the header is left behind.
          if size > 0 {
            StampLong(Word2(must, 4, id), size, end);
          } else {
            StampEmpty(Word2(must, 4, id));
            assert old(buffer.bytes)[end - size..end] == [];
          }
        } else if sel == AutoShort {
          ok := ChangeToLong2(Word2(must, 4, id), size);
          if !ok { return; }
        } else {
          return false;
        }
      } else {
        if !st.longHeader { StampWord(Word2(must, ShortCode(size), id), end); }
        else if sel == AutoLong { ChangeToShort2(Word2(must, ShortCode(size), id), size); }
        else { StampLong(Word2(must, 4, id), size, end); }
      }
      ok := Jump(size);
    }

    /** Completes the first word of a header for no bytes. */
    method StampEmpty(word: nat)
      requires Valid() && Pad(offset - origin, 4) == 0 && offset + 4 <= |buffer.bytes|
      modifies this`offset, this`last, buffer
      ensures Valid() && offset == old(offset) + 4 && |buffer.bytes| == |old(buffer.bytes)|
      ensures Kept(old(buffer.bytes), buffer.bytes, old(offset))
      ensures Stamped(buffer.bytes, old(offset), ToBytes(Order(), word, 4), [])
    {
      hide Pad, ToBytes, Patched, Kept, Stamped;
      WriteWord(word);
      StampInPlace(old(buffer.bytes), buffer.bytes, old(offset), ToBytes(Order(), word, 4), old(offset) + 4);
      assert old(buffer.bytes)[old(offset) + 4..old(offset) + 4] == [];
    }

    /** The header of a body that starts with its own length, which serves as NEXTINT. */
    method FinishJoined2(st: State, end: nat) returns (ok: bool)
      requires Valid() && Pad(offset - origin, 4) == 0 && next != NoNext && end <= |buffer.bytes|
      requires st.longHeader == AllocatesLong(st.selection)
      requires offset + (if st.longHeader then 8 else 4) <= end
      modifies this`offset, this`last, buffer
      ensures Valid() && |buffer.bytes| == |old(buffer.bytes)|
      ensures var at, size := old(offset), end - old(offset) - if st.longHeader then 8 else 4;
        var head := Finished2(Order(), st, size, next);
        && ok == Ends2(st.selection, next, size, |buffer.bytes| - at)
        && (ok ==> offset == at + |head| + size && Kept(old(buffer.bytes), buffer.bytes, at))
        && (ok ==> Stamped(buffer.bytes, at, head, old(buffer.bytes)[end - size..end]))
    {
      hide Pad, ToBytes, Kept, Stamped, Word2;
      var word := Word2(st.must, LongCode(next), st.nextId);
      if st.longHeader {
        ShrinkToLong2(word, end);
        offset := end - 4;
      } else if st.selection == AutoShort {
        StampWord(word, end);
        offset := end;
      } else {
        return false;
      }
      last := 0;
      ok := true;
    }

    // -------------------------------------------------------------- XCDRv1 members

    method WriteHalf(n: nat)
      requires Valid() && Pad(offset - origin, 2) == 0 && offset + 2 <= |buffer.bytes|
      modifies this`offset, this`last, buffer
      ensures Valid() && offset == old(offset) + 2 && |buffer.bytes| == |old(buffer.bytes)|
      ensures Patched(old(buffer.bytes), buffer.bytes, old(offset), ToBytes(Order(), n, 2))
    {
      hide Pad, ToBytes, Patched;
      var ok := SerializePrim(K2, n);
    }

    /** Writes a whole header at an aligned cursor, as far as there is room or the buffer may grow. */
    method WriteHeader1(id: nat, must: bool, size: nat, long: bool) returns (ok: bool)
      requires Valid() && Pad(offset - origin, 4) == 0
      modifies this`offset, this`last, buffer
      ensures Valid() && |old(buffer.bytes)| <= |buffer.bytes| && origin <= offset
      ensures var n := if long then 12 else 4;
        && ok == (buffer.internal || old(offset) + n <= |old(buffer.bytes)|)
        && (!buffer.internal || old(offset) + n <= |old(buffer.bytes)| ==> |buffer.bytes| == |old(buffer.bytes)|)
        && (ok ==> offset == old(offset) + n)
      ensures ok ==> Patched(old(buffer.bytes), buffer.bytes, old(offset), Header1Bytes(Order(), id, must, size, long))
    {
      hide Pad, ToBytes, Patched, Word1;
      PadHalves(offset - origin);
      ghost var at, o := offset, Order();
      ok := WriteHalves(if long then Word1(must, PID_EXTENDED) else Word1(must, id), if long then 8 else size);
      if ok && long {
        ghost var mid := buffer.bytes;
        ghost var head := ToBytes(o, Word1(must, PID_EXTENDED), 2) + ToBytes(o, 8, 2);
        ok := WriteWords(id, size);
        if ok {
          PatchedSnoc(old(buffer.bytes), mid, buffer.bytes, at, head, ToBytes(o, id, 4) + ToBytes(o, size, 4));
          assert head + (ToBytes(o, id, 4) + ToBytes(o, size, 4)) == head + ToBytes(o, id, 4) + ToBytes(o, size, 4);
        }
      }
    }

    method WriteHalves(a: nat, b: nat) returns (ok: bool)
      requires Valid() && Pad(offset - origin, 4) == 0
      modifies this`offset, this`last, buffer
      ensures Valid() && |old(buffer.bytes)| <= |buffer.bytes| && origin <= offset
      ensures ok == (buffer.internal || old(offset) + 4 <= |old(buffer.bytes)|)
      ensures !buffer.internal || old(offset) + 4 <= |old(buffer.bytes)| ==> |buffer.bytes| == |old(buffer.bytes)|
      ensures ok ==> offset == old(offset) + 4
      ensures ok ==> Patched(old(buffer.bytes), buffer.bytes, old(offset), ToBytes(Order(), a, 2) + ToBytes(Order(), b, 2))
    {
      hide Pad, ToBytes, Patched, Cap;
      PadHalves(offset - origin);
      ok := SerializePrim(K2, a);
      if ok {
        ghost var mid := buffer.bytes;
        PatchedLonger(old(buffer.bytes), mid, old(offset), ToBytes(Order(), a, 2));
        ok := SerializePrim(K2, b);
        if ok {
          PatchedLonger(mid, buffer.bytes, old(offset) + 2, ToBytes(Order(), b, 2));
          PatchedSnoc(old(buffer.bytes), mid, buffer.bytes, old(offset), ToBytes(Order(), a, 2), ToBytes(Order(), b, 2));
        }
      }
    }

    method WriteWords(a: nat, b: nat) returns (ok: bool)
      requires Valid() && Pad(offset - origin, 4) == 0
      modifies this`offset, this`last, buffer
      ensures Valid() && |old(buffer.bytes)| <= |buffer.bytes| && origin <= offset
      ensures ok == (buffer.internal || old(offset) + 8 <= |old(buffer.bytes)|)
      ensures !buffer.internal || old(offset) + 8 <= |old(buffer.bytes)| ==> |buffer.bytes| == |old(buffer.bytes)|
      ensures ok ==> offset == old(offset) + 8
      ensures ok ==> Patched(old(buffer.bytes), buffer.bytes, old(offset), ToBytes(Order(), a, 4) + ToBytes(Order(), b, 4))
    {
      hide Pad, ToBytes, Patched, Cap;
      PadNext4(offset - origin);
      ok := SerializePrim(K4, a);
      if ok {
        ghost var mid := buffer.bytes;
        PatchedLonger(old(buffer.bytes), mid, old(offset), ToBytes(Order(), a, 4));
        ok := SerializePrim(K4, b);
        if ok {
          PatchedLonger(mid, buffer.bytes, old(offset) + 4, ToBytes(Order(), b, 4));
          PatchedSnoc(old(buffer.bytes), mid, buffer.bytes, old(offset), ToBytes(Order(), a, 4), ToBytes(Order(), b, 4));
        }
      }
    }

    /** Whether a member gets a header: every present one of a mutable struct, every optional one of a plain struct. */
    ghost predicate Headed1(optional: bool, present: bool)
      reads this
    {
      if optional then present || encoding != PlCdr else encoding == PlCdr
    }

    /**
     Allocates a header where one is due, and starts a new alignment origin behind it. The padding before the header is
     skipped without a test for room.
     */
    method BeginMember1(id: nat, must: bool, optional: bool, present: bool, sel: HeaderSelection)
        returns (st: State, ok: bool)
      requires Valid() && !v2
      requires Headed1(optional, present) ==> id < INVALID_ID && offset + Pad(offset - origin, 4) <= |buffer.bytes|
      modifies this`offset, this`origin, this`last, this`nextId, buffer
      ensures Valid() && |old(buffer.bytes)| <= |buffer.bytes|
      ensures var headed, long := Headed1(optional, present), AllocatesLong1(id, sel);
        var at := old(offset) + Pad(old(offset) - old(origin), 4);
        var n := if long then 12 else 4;
        && ok == (!headed || (!(id > MAX_SHORT_ID && sel == ShortOnly)
                              && (buffer.internal || at + n <= |old(buffer.bytes)|)))
        && (!buffer.internal || at + n <= |old(buffer.bytes)| ==> |buffer.bytes| == |old(buffer.bytes)|)
        && (!headed ==> offset == old(offset) && origin == old(origin) && buffer.bytes == old(buffer.bytes))
        && (!headed ==> st == old(GetState()).(present := present, must := must, nextId := id))
        && (ok && headed ==>
              && offset == origin == at + n
              && Patched(old(buffer.bytes), buffer.bytes, at, Header1Bytes(Order(), id, must, 0, long))
              && st == old(GetState()).(present := present, must := must, nextId := id, selection := sel, longHeader := long))
      ensures ok ==> nextId == INVALID_ID
      ensures Headed1(optional, present) && buffer.internal && sel == ShortOnly ==> (ok <==> id <= 0x3F00)
      ensures ok && Headed1(optional, present) && (sel == AutoShort || sel == ShortOnly) ==>
        offset == old(offset) + Pad(old(offset) - old(origin), 4) + if id <= 0x3F00 then 4 else 12
    {
      hide Pad, ToBytes, Patched, Header1Bytes;
      st := GetState().(present := present, must := must, nextId := id);
      ok := true;
      if if optional then present || encoding != PlCdr else encoding == PlCdr {
        if id > MAX_SHORT_ID && sel == ShortOnly { return st, false; }
        var long := AllocatesLong1(id, sel);
        PadAfter4(offset - origin);
        MakeAlignment(Alignment(4));
        ok := WriteHeader1(id, must, 0, long);
        if !ok { return; }
        ResetAlignment();
        st := st.(selection := sel, longHeader := long);
      }
      nextId := INVALID_ID;
    }

    /** The part of an allocated header that finishing it in place does not touch. */
    ghost predicate Allocated1(st: State)
      reads this, buffer
      requires st.origin <= st.offset
    {
      var at, head := HeaderAt(st), Fixed1(Order(), st.nextId, st.must, st.longHeader);
      at + |head| <= |buffer.bytes| && buffer.bytes[at..at + |head|] == head
    }

    /** Finishes a header where it stands: `xcdr1_end_short_member_header`, `xcdr1_end_long_member_header`. */
    method EndInPlace1(st: State, size: nat, end: nat)
      requires Valid() && st.origin <= st.offset && offset == HeaderAt(st) && Pad(offset - origin, 4) == 0
      requires Allocated1(st) && offset + (if st.longHeader then 12 else 4) + size == end <= |buffer.bytes|
      modifies this`offset, this`last, buffer
      ensures Valid() && offset == end - size && |buffer.bytes| == |old(buffer.bytes)|
      ensures Kept(old(buffer.bytes), buffer.bytes, old(offset))
      ensures Stamped(buffer.bytes, old(offset), Header1Bytes(Order(), st.nextId, st.must, size, st.longHeader),
                      old(buffer.bytes)[end - size..end])
    {
      hide Pad, ToBytes, Patched, Kept, Stamped, Word1;
      PadHalves(offset - origin);
      ghost var at, fixed := offset, Fixed1(Order(), st.nextId, st.must, st.longHeader);
      if st.longHeader {
        var jumped := Jump(8);
        WriteWord(size);
        StampTail(old(buffer.bytes), buffer.bytes, at, fixed, ToBytes(Order(), size, 4), end);
      } else {
        var jumped := Jump(2);
        WriteHalf(size);
        StampTail(old(buffer.bytes), buffer.bytes, at, fixed, ToBytes(Order(), size, 2), end);
      }
    }

    /** Turns an allocated long header into a short one: `xcdr1_change_to_short_member_header`. */
    method ChangeToShort1(id: nat, must: bool, size: nat)
      requires Valid() && Pad(offset - origin, 4) == 0 && offset + 12 + size <= |buffer.bytes|
      modifies this`offset, this`last, buffer
      ensures Valid() && offset == old(offset) + 4 && |buffer.bytes| == |old(buffer.bytes)|
      ensures Kept(old(buffer.bytes), buffer.bytes, old(offset))
      ensures Stamped(buffer.bytes, old(offset), Header1Bytes(Order(), id, must, size, false),
                      old(buffer.bytes)[old(offset) + 12..old(offset) + 12 + size])
    {
      hide Pad, ToBytes, Patched, Kept, Stamped, Header1Bytes;
      ghost var head, at := Header1Bytes(Order(), id, must, size, false), offset;
      var ok := WriteHeader1(id, must, size, false);
      ghost var mid := buffer.bytes;
      PatchedSlice(old(buffer.bytes), mid, at, head, at + 12, at + 12 + size);
      Move(offset, offset + 8, size);
      StampThenMove(old(buffer.bytes), mid, buffer.bytes, at, head, mid[at + 12..at + 12 + size]);
    }

    /**
     Turns an allocated short header into a long one: `xcdr1_change_to_long_member_header`, with the same kind of
     guard.
     */
    method ChangeToLong1(id: nat, must: bool, size: nat) returns (ok: bool)
      requires Valid() && Pad(offset - origin, 4) == 0 && offset + 11 + size <= |buffer.bytes|
      modifies this`offset, this`last, buffer
      ensures Valid() && |buffer.bytes| == |old(buffer.bytes)| && ok == (old(offset) + 12 + size <= |buffer.bytes|)
      ensures !ok ==> offset == old(offset) && buffer.bytes == old(buffer.bytes)
      ensures ok ==> offset == old(offset) + 12 && Kept(old(buffer.bytes), buffer.bytes, old(offset))
      ensures ok ==> Stamped(buffer.bytes, old(offset), Header1Bytes(Order(), id, must, size, true),
                             old(buffer.bytes)[old(offset) + 4..old(offset) + 4 + size])
    {
      hide Pad, ToBytes, Patched, Kept, Stamped, Header1Bytes;
      GuardRight(|buffer.bytes| - offset, size, 11);
      ok := GuardPasses(|buffer.bytes| - offset, size, 11);
      if !ok { return; }
      ghost var head, at := Header1Bytes(Order(), id, must, size, true), offset;
      Move(offset + 12, offset + 4, size);
      ghost var mid := buffer.bytes;
      ok := WriteHeader1(id, must, size, true);
      StampMoved(old(buffer.bytes), mid, buffer.bytes, at, head, old(buffer.bytes)[at + 4..at + 4 + size]);
    }

    /** Whether a body of `size` bytes makes a short header a long one. */
    static predicate Stretches1(id: nat, sel: HeaderSelection, size: nat) {
      sel == AutoShort && id <= MAX_SHORT_ID && size > 0xFFFF
    }

    /** Whether a member can be ended, with `room` bytes from its header on. */
    static predicate Ends1(id: nat, sel: HeaderSelection, size: nat, room: int) {
      !(sel == ShortOnly && size > 0xFFFF) && (Stretches1(id, sel, size) ==> 12 + size <= room)
    }

    /**
     Finishes an XCDRv1 member. A headed one that is present gets the header its identifier, size and selection call
     for, body and origin moving together by 8 where that is not the allocated one. The origin is not popped: the
     distance from it stays what the body left it at.
     */
    method EndMember1(st: State, optional: bool) returns (ok: bool)
      requires Valid() && !v2 && Saved(st) && swap == st.swap && (optional || st.present)
      requires Closes1(st, optional) ==>
        && st.longHeader == AllocatesLong1(st.nextId, st.selection)
        && !(st.nextId > MAX_SHORT_ID && st.selection == ShortOnly)
        && Allocated1(st) && BodySize(st, 4, 12) >= 0 && offset - BodySize(st, 4, 12) <= origin
        && (Stretches1(st.nextId, st.selection, BodySize(st, 4, 12)) ==>
              HeaderAt(st) + 11 + BodySize(st, 4, 12) <= |buffer.bytes|)
      modifies this`offset, this`origin, this`swap, this`last, this`nextId, buffer
      ensures Valid() && swap == old(swap) && |buffer.bytes| == |old(buffer.bytes)|
      ensures ok ==> nextId == INVALID_ID
      ensures !Closes1(st, optional) ==>
        ok && offset == old(offset) && origin == old(origin) && buffer.bytes == old(buffer.bytes)
      ensures Closes1(st, optional) ==>
        var at, size := HeaderAt(st), old(BodySize(st, 4, 12));
        var head := Header1Bytes(Order(), st.nextId, st.must, size, IsLong1(st.selection, st.nextId, size));
        && ok == Ends1(st.nextId, st.selection, size, |buffer.bytes| - at)
        && (ok ==> offset == at + |head| + size && offset - origin == old(offset) - old(origin))
        && (ok ==> Kept(old(buffer.bytes), buffer.bytes, at))
        && (ok ==> Stamped(buffer.bytes, at, head, old(buffer.bytes)[old(offset) - size..old(offset)]))
    {
      hide Pad, ToBytes, Kept, Stamped, Header1Bytes, Fixed1;
      ok := true;
      if if optional then st.present else encoding == PlCdr {
        var end, memberOrigin := offset, origin;
        Rewind(st);
        var shift;
        ok, shift := Finish1(st, end);
        if !ok { return; }
        origin := memberOrigin + shift;
      }
      nextId := INVALID_ID;
    }

    /** Whether ending a member has a header to finish. */
    ghost predicate Closes1(st: State, optional: bool)
      reads this
    {
      st.present && (optional || encoding == PlCdr)
    }

    /** Completes the header at the cursor; `shift` is how far the body moved. */
    method Finish1(st: State, end: nat) returns (ok: bool, shift: int)
      requires Valid() && st.origin <= st.offset && offset == HeaderAt(st) && Pad(offset - origin, 4) == 0
      requires st.longHeader == AllocatesLong1(st.nextId, st.selection)
      requires !(st.nextId > MAX_SHORT_ID && st.selection == ShortOnly)
      requires var size := end - offset - if st.longHeader then 12 else 4;
        && Allocated1(st) && size >= 0 && end <= |buffer.bytes|
        && (Stretches1(st.nextId, st.selection, size) ==> offset + 11 + size <= |buffer.bytes|)
      modifies this`offset, this`last, buffer
      ensures Valid() && |buffer.bytes| == |old(buffer.bytes)|
      ensures var at, size := old(offset), end - old(offset) - if st.longHeader then 12 else 4;
        var head := Header1Bytes(Order(), st.nextId, st.must, size, IsLong1(st.selection, st.nextId, size));
        && ok == Ends1(st.nextId, st.selection, size, |buffer.bytes| - at)
        && (ok ==> offset == at + |head| + size == end + shift && Kept(old(buffer.bytes), buffer.bytes, at) && last == 0)
        && (ok ==> Stamped(buffer.bytes, at, head, old(buffer.bytes)[end - size..end]))
    {
      hide Pad, ToBytes, Kept, Stamped, Header1Bytes, Fixed1;
      var id, must, sel := st.nextId, st.must, st.selection;
      var size := end - offset - if st.longHeader then 12 else 4;
      shift := 0;
      if size > 0xFFFF {
        if st.longHeader { EndInPlace1(st, size, end); }
        else if sel == AutoShort {
          ok := ChangeToLong1(id, must, size);
          if !ok { return; }
          shift := 8;
        }
        else { return false, 0; }
      } else {
        if !st.longHeader || sel == LongOnly || id > MAX_SHORT_ID { EndInPlace1(st, size, end); }
        else { ChangeToShort1(id, must, size); shift := -8; }
      }
      ok := Jump(size);
    }

    // -------------------------------------------------------------- types

    /** Starts a type; outside PLAIN_CDR2 it gets a DHEADER, filled in at its end. */
    method BeginType2(a: Algorithm) returns (st: State, ok: bool)
      requires Valid() && v2 && IsV2(a)
      modifies this`offset, this`last, this`next, this`encoding, buffer
      ensures Valid() && st == old(GetState()) && |old(buffer.bytes)| <= |buffer.bytes|
      ensures var n := if a == PlainCdr2 then 0 else Pad(old(offset) - origin, 4) + 4;
        && ok == (n == 0 || buffer.internal || old(offset) + n <= |old(buffer.bytes)|)
        && (!buffer.internal || old(offset) + n <= |old(buffer.bytes)| ==> |buffer.bytes| == |old(buffer.bytes)|)
        && (ok ==> offset == old(offset) + n)
      ensures ok ==> Kept(old(buffer.bytes), buffer.bytes, old(offset)) && next == NoNext && encoding == a
      ensures !ok ==> offset == old(offset) && buffer.bytes == old(buffer.bytes)
    {
      hide Pad, Kept;
      st := GetState();
      ok := true;
      KeptSelf(buffer.bytes, offset);
      if a != PlainCdr2 {
        ok := AllocateWords(0, false);
        if !ok { return; }
      }
      next, encoding := NoNext, a;
    }

    /** Ends a type: its DHEADER gets the number of bytes behind it, and nothing else changes. */
    method EndType2(st: State)
      requires Valid() && v2 && Saved(st) && origin == st.origin && swap == st.swap
      requires encoding != PlainCdr2 ==> HeaderAt(st) + 4 <= offset
      modifies this`offset, this`origin, this`swap, this`last, this`nextId, this`next, this`encoding, buffer
      ensures Valid() && offset == old(offset) && origin == old(origin) && swap == old(swap)
      ensures |buffer.bytes| == |old(buffer.bytes)| && encoding == st.previous
      ensures old(encoding) == PlainCdr2 ==> buffer.bytes == old(buffer.bytes) && next == old(next) && nextId == old(nextId)
      ensures old(encoding) != PlainCdr2 ==>
        var at := HeaderAt(st);
        && next == Next1 && nextId == st.nextId && Kept(old(buffer.bytes), buffer.bytes, at)
        && Stamped(buffer.bytes, at, ToBytes(Order(), offset - at - 4, 4), old(buffer.bytes)[at + 4..offset])
    {
      hide Pad, ToBytes, Kept, Stamped;
      if encoding != PlainCdr2 {
        var end := offset;
        Rewind(st);
        StampWord(end - offset - 4, end);
        var jumped := Jump(end - offset);
        next := Next1;
      }
      encoding := st.previous;
    }

    method BeginType1(a: Algorithm) returns (st: State)
      requires Valid() && !v2 && !IsV2(a)
      modifies this`encoding
      ensures Valid() && st == old(GetState()) && encoding == a
    {
      st := GetState();
      encoding := a;
    }

    /** Ends a type: a mutable one gets the sentinel, before which padding is skipped without a test for room. */
    method EndType1(st: State) returns (ok: bool)
      requires Valid() && !v2
      requires encoding == PlCdr ==> offset + Pad(offset - origin, 4) <= |buffer.bytes|
      modifies this`offset, this`last, this`encoding, buffer
      ensures Valid() && |old(buffer.bytes)| <= |buffer.bytes|
      ensures old(encoding) != PlCdr ==> ok && offset == old(offset) && buffer.bytes == old(buffer.bytes)
      ensures old(encoding) == PlCdr ==>
        var at := old(offset) + Pad(old(offset) - origin, 4);
        && ok == (buffer.internal || at + 4 <= |old(buffer.bytes)|)
        && (!buffer.internal || at + 4 <= |old(buffer.bytes)| ==> |buffer.bytes| == |old(buffer.bytes)|)
        && (ok ==> offset == at + 4)
        && (ok ==> Patched(old(buffer.bytes), buffer.bytes, at, ToBytes(Order(), PID_SENTINEL, 2) + ToBytes(Order(), 0, 2)))
      ensures ok ==> encoding == st.previous
    {
      hide Pad, ToBytes, Patched;
      ok := true;
      if encoding == PlCdr {
        PadAfter4(offset - origin);
        MakeAlignment(Alignment(4));
        ok := WriteHalves(PID_SENTINEL, 0);
        if !ok { return; }
      }
      encoding := st.previous;
    }

    /** A DHEADER for a sequence of non-primitives, in XCDRv2 only. */
    method AllocateDheader() returns (st: State, ok: bool)
      requires Valid()
      modifies this`offset, this`last, buffer
      ensures Valid() && st == old(GetState()) && |old(buffer.bytes)| <= |buffer.bytes|
      ensures var n := if v2 then Pad(old(offset) - origin, 4) + 4 else 0;
        && ok == (n == 0 || buffer.internal || old(offset) + n <= |old(buffer.bytes)|)
        && (!buffer.internal || old(offset) + n <= |old(buffer.bytes)| ==> |buffer.bytes| == |old(buffer.bytes)|)
        && (ok ==> offset == old(offset) + n)
      ensures ok ==> Kept(old(buffer.bytes), buffer.bytes, old(offset))
    {
      hide Pad, Kept;
      st := GetState();
      ok := true;
      KeptSelf(buffer.bytes, offset);
      if v2 { ok := AllocateWords(0, false); }
    }

    /** Fills that DHEADER in; the cursor is where it was. */
    method SetDheader(st: State)
      requires Valid() && Saved(st)
      requires v2 ==> origin == st.origin && swap == st.swap && HeaderAt(st) + 4 <= offset
      modifies this`offset, this`origin, this`swap, this`last, this`nextId, this`next, buffer
      ensures Valid() && GetState() == old(GetState()) && |buffer.bytes| == |old(buffer.bytes)|
      ensures !v2 ==> buffer.bytes == old(buffer.bytes) && next == old(next)
      ensures v2 ==>
        var at := HeaderAt(st);
        && next == Next1 && Kept(old(buffer.bytes), buffer.bytes, at)
        && Stamped(buffer.bytes, at, ToBytes(Order(), offset - at - 4, 4), old(buffer.bytes)[at + 4..offset])
    {
      hide Pad, ToBytes, Kept, Stamped;
      if v2 {
        var after := GetState();
        Rewind(st);
        StampWord(after.offset - offset - 4, after.offset);
        SetState(after);
        next := Next1;
      }
    }
  }

  /** What of a header does not depend on the size. */
  function Fixed1(little: bool, id: nat, must: bool, long: bool): (s: seq<byte>)
    ensures |s| == if long then 8 else 2
  {
    if long then ToBytes(little, Word1(must, PID_EXTENDED), 2) + ToBytes(little, 8, 2) + ToBytes(little, id, 4)
    else ToBytes(little, Word1(must, id), 2)
  }

  lemma PadHalves(p: nat)
    requires Pad(p, 4) == 0
    ensures Pad(p, 2) == 0 && Pad(p + 2, 2) == 0 && Pad(p + 4, 4) == 0 && Pad(p + 8, 4) == 0
  {
  }

  /** The bytes of an XCDRv1 member header. */
  function Header1Bytes(little: bool, id: nat, must: bool, size: nat, long: bool): (s: seq<byte>)
    ensures |s| == if long then 12 else 4
  {
    if long then
      ToBytes(little, Word1(must, PID_EXTENDED), 2) + ToBytes(little, 8, 2)
      + ToBytes(little, id, 4) + ToBytes(little, size, 4)
    else
      ToBytes(little, Word1(must, id), 2) + ToBytes(little, size, 2)
  }

  /** The bytes a member begun in state `st` ends up with for a header; of a long one for no bytes, half. */
  function Finished2(little: bool, st: State, size: nat, next: NextInt): (s: seq<byte>)
    ensures |s| == if FormOf(st.selection, next, size) == Long && !(size == 0 && st.longHeader) then 8 else 4
  {
    if size == 0 && st.longHeader && next == NoNext then ToBytes(little, Word2(st.must, 4, st.nextId), 4)
    else Header2Bytes(little, st.nextId, st.must, FormOf(st.selection, next, size), size, next)
  }

  /** Behind a header that was allocated long, no bytes leave the second word as it was allocated. */
  lemma FinishedEmpty(little: bool, st: State)
    requires st.longHeader && AllocatesLong(st.selection)
    ensures Finished2(little, st, 0, NoNext) == ToBytes(little, (if st.must then 0xC000_0000 else 0x4000_0000) + st.nextId, 4)
  {
    hide ToBytes;
  }

  lemma KeptSelf(buf: seq<byte>, at: nat)
    requires at <= |buf|
    ensures Kept(buf, buf, at) && Holds(buf, at, [])
  {
  }

  lemma KeptLonger(was: seq<byte>, now: seq<byte>, at: nat)
    requires Kept(was, now, at)
    ensures |was| <= |now|
  {
  }

  lemma PatchedLonger(was: seq<byte>, now: seq<byte>, at: nat, s: seq<byte>)
    requires Patched(was, now, at, s)
    ensures |was| <= |now| && at + |s| <= |now|
  {
  }

  /** The bytes of a finished XCDRv2 member header. */
  function Header2Bytes(little: bool, id: nat, must: bool, form: Form, size: nat, next: NextInt): (s: seq<byte>)
    ensures |s| == if form == Long then 8 else 4
  {
    match form
    case Short => ToBytes(little, Word2(must, ShortCode(size), id), 4)
    case Joined => ToBytes(little, Word2(must, LongCode(next), id), 4)
    case Long => ToBytes(little, Word2(must, 4, id), 4) + ToBytes(little, size, 4)
  }

  lemma PadNext4(p: nat)
    requires Pad(p, 4) == 0
    ensures Pad(p + 4, 4) == 0
  {
  }

  lemma FourBytes(a: byte, b: byte, d: byte, e: byte)
    ensures Raw([a]) + Raw([b]) + Raw([d, e]) == Raw([a, b, d, e])
  {
  }

  function Prepend(xs: seq<nat>, r: Res<seq<nat>>): Res<seq<nat>> {
    match r
    case Err => Err
    case Ok(ys, cur) => Ok(xs + ys, cur)
  }

  lemma PrependNone(r: Res<seq<nat>>)
    ensures Prepend([], r) == r
  {
    if r.Ok? {
      assert [] + r.value == r.value;
    }
  }

  lemma PrependMore(xs: seq<nat>, x: nat, r: Res<seq<nat>>)
    ensures Prepend(xs, Prepend([x], r)) == Prepend(xs + [x], r)
  {
    if r.Ok? {
      assert xs + ([x] + r.value) == xs + [x] + r.value;
    }
  }

  /** The first of the remaining elements, where no padding is due. */
  lemma DecNext(c: Config, k: Kind, n: nat, buf: seq<byte>, cur: Cur, x: nat)
    requires n > 0 && Inside(cur, buf) && Pad(cur.rel, c.AlignOf(k)) == 0 && cur.off + Size(k) <= |buf|
    requires x == FromBytes(c.little, buf[cur.off..cur.off + Size(k)])
    ensures var cur1 := Cur(cur.off + Size(k), cur.rel + Size(k));
      DecElements(c, k, n, buf, cur)
      == if k == KBool && x > 1 then Err else Prepend([x], DecElements(c, k, n - 1, buf, cur1))
  {
    hide Pad, FromBytes;
  }

  /** Where elements are read at all, they take their alignment once and their sizes. */
  lemma {:induction false} ElementsExtent(c: Config, k: Kind, n: nat, buf: seq<byte>, cur: Cur)
    requires Inside(cur, buf)
    ensures var r := DecElements(c, k, n, buf, cur);
      r.Ok? ==> r.cur.off == cur.off + if n == 0 then 0 else Pad(cur.rel, c.AlignOf(k)) + n * Size(k)
    decreases n
  {
    hide Pad, FromBytes;
    if n > 0 && DecElements(c, k, n, buf, cur).Ok? {
      var cur1 := DecPrim(c, k, buf, cur).cur;
      PadStep(c, k, cur.rel);
      ElementsExtent(c, k, n - 1, buf, cur1);
      assert (n - 1) * Size(k) + Size(k) == n * Size(k);
    }
  }

  /** Aligning first and reading then is reading. */
  lemma Aligned(c: Config, k: Kind, n: nat, buf: seq<byte>, cur: Cur)
    requires Inside(cur, buf) && cur.off + Pad(cur.rel, c.AlignOf(k)) + n * Size(k) <= |buf|
    ensures var pad := Pad(cur.rel, c.AlignOf(k));
      var first := Cur(cur.off + pad, cur.rel + pad);
      && Pad(first.rel, c.AlignOf(k)) == 0
      && (n > 0 || pad == 0 ==> DecElements(c, k, n, buf, cur) == DecElements(c, k, n, buf, first))
  {
    hide FromBytes;
    PadTwice(cur.rel, c.AlignOf(k));
    var pad := Pad(cur.rel, c.AlignOf(k));
    hide Pad;
    assert DecPrim(c, k, buf, cur) == DecPrim(c, k, buf, Cur(cur.off + pad, cur.rel + pad));
  }

  lemma PadTwice(p: nat, a: nat)
    requires IsAlign(a)
    ensures Pad(p + Pad(p, a), a) == 0
  {
  }

  /** The most bytes that writing a leaf asks room for at once. */
  function Request(c: Config, v: Value, p: nat): nat {
    match v
    case Prim(k, _) => Pad(p, c.AlignOf(k)) + Size(k)
    case Str(text) => Larger(Pad(p, 4) + 4, |CText(text, 0)| + 1)
    case WStr(chars) => Larger(Pad(p, 4) + 4, 2 * |WText(chars)|)
    case SeqPrim(k, ns) => Larger(Pad(p, 4) + 4, |Elements(c, k, ns, p + Pad(p, 4) + 4)|)
    case _ => 0
  }

  /** A string is asked for in two steps: the count, and then all the rest. */
  lemma RequestIs(c: Config, v: Value, p: nat)
    requires p % 4 == 0 && (v.Str? || v.WStr? || v.SeqPrim?)
    ensures var n := |Enc(c, v, p).cells| - 4;
      4 <= Request(c, v, p) && n <= Request(c, v, p) && (Request(c, v, p) == 4 || Request(c, v, p) == n)
  {
    hide Elements, WText, CText;
    if v.WStr? {
      ElementsPacked(c, K2, WText(v.chars), p + 4);
    }
  }

  lemma SeqPrimOut(c: Config, k: Kind, ns: seq<nat>, p: nat)
    ensures var n := U32(c, |ns|, p);
      var e := Elements(c, k, ns, p + |n|);
      && Enc(c, SeqPrim(k, ns), p) == Out(n + e, p + |n + e|)
      && Request(c, SeqPrim(k, ns), p) == Larger(|n|, |e|)
  {
    hide Pad, U32, Elements, Larger;
  }

  /** Cells written right behind cells extend them. */
  lemma WroteOn(was: seq<byte>, mid: seq<byte>, now: seq<byte>, at: nat, a: Cells, b: Cells)
    requires Kept(was, mid, at) && Holds(mid, at, a) && Kept(mid, now, at + |a|) && Holds(now, at + |a|, b)
    ensures Kept(was, now, at) && Holds(now, at, a + b)
  {
    HoldsKept(mid, now, at + |a|, at, a);
    HoldsBoth(now, at, a, b);
  }

  lemma WStrOut(c: Config, chars: seq<nat>, p: nat)
    ensures var n := U32(c, |WText(chars)|, p);
      var cells := n + Elements(c, K2, WText(chars), p + |n|);
      Enc(c, WStr(chars), p) == Out(cells, p + |cells|)
    ensures WText(chars) == [] ==> Enc(c, WStr(chars), p).cells == U32(c, 0, p)
    ensures Elements(c, K2, WText(chars), p + Pad(p, 4) + 4) == [] || WText(chars) != []
    ensures Pad(p + Pad(p, 4) + 4, 2) == 0
    ensures |Elements(c, K2, WText(chars), p + Pad(p, 4) + 4)| == 2 * |WText(chars)|
    ensures Request(c, WStr(chars), p) == Larger(Pad(p, 4) + 4, 2 * |WText(chars)|)
  {
    hide WText, U32, Larger;
    PadAfter4(p);
    EvenAfter4(p + Pad(p, 4) + 4);
    ElementsPacked(c, K2, WText(chars), p + Pad(p, 4) + 4);
    if WText(chars) == [] {
      NoWideElements(c, WText(chars), p + |U32(c, 0, p)|);
      assert U32(c, 0, p) + [] == U32(c, 0, p);
    }
  }

  lemma LargerZero(a: nat)
    ensures Larger(a, 0) == a
  {
  }

  lemma KeptGrown(was: seq<byte>, grown: seq<byte>, at: nat)
    requires was <= grown
    ensures Kept(was, grown, at)
  {
  }

  lemma EvenNext(p: nat)
    requires Pad(p, 2) == 0
    ensures Pad(p + 2, 2) == 0
  {
  }

  /** The first of the remaining elements, and the rest. */
  lemma DecFirst(c: Config, k: Kind, n: nat, buf: seq<byte>, cur: Cur)
    requires n > 0 && Inside(cur, buf)
    ensures var d := DecPrim(c, k, buf, cur);
      DecElements(c, k, n, buf, cur)
      == if d.Err? then Err else Prepend([d.value], DecElements(c, k, n - 1, buf, d.cur))
  {
    hide DecPrim;
  }

  /** Wide characters for which there is room are all read. */
  lemma {:induction false} WideFits(c: Config, n: nat, buf: seq<byte>, cur: Cur)
    requires Inside(cur, buf) && Pad(cur.rel, 2) == 0
    ensures cur.off + 2 * n <= |buf| ==> DecElements(c, K2, n, buf, cur).Ok?
    decreases n
  {
    hide Pad, FromBytes;
    if n > 0 && cur.off + 2 * n <= |buf| {
      EvenNext(cur.rel);
      WideFits(c, n - 1, buf, Cur(cur.off + 2, cur.rel + 2));
    }
  }

  lemma StrOut(c: Config, text: seq<byte>, p: nat)
    ensures var t := CText(text, 0) + [0];
      var n := U32(c, |t|, p);
      && Enc(c, Str(text), p) == Out(n + Raw(t), p + |n + Raw(t)|)
      && Request(c, Str(text), p) == Larger(|n|, |t|)
  {
    hide CText, U32, Pad, Larger;
    TextCells(CText(text, 0), U32(c, |CText(text, 0)| + 1, p));
  }

  /** A number just written, on its alignment, with everything before it kept. */
  lemma WroteScalar(c: Config, n: nat, was: seq<byte>, now: seq<byte>, at: nat, p: nat)
    requires Patched(was, now, at + Pad(p, 4), ToBytes(c.little, n, 4))
    ensures Kept(was, now, at) && Holds(now, at, U32(c, n, p))
  {
    PatchedKept(was, now, at + Pad(p, 4), ToBytes(c.little, n, 4));
    HoldsPadded(now, at, Pad(p, 4), Num(c, n, 4));
  }

  lemma TextCells(t: seq<byte>, n: Cells)
    ensures n + Raw(t + [0]) == n + Raw(t) + [B(0)]
  {
  }

  lemma {:induction false} MulStep(i: nat, n: nat, w: nat)
    requires i < n
    ensures i * w + w <= n * w
  {
    assert n * w == (n - 1) * w + w;
    if i < n - 1 {
      MulStep(i, n - 1, w);
    }
  }

  lemma PackedNone(little: bool, ns: seq<nat>, w: nat, buf: seq<byte>, at: nat)
    requires at <= |buf|
    ensures Packed(little, ns[..0], w) == [] && Patched(buf, buf, at, [])
  {
  }

  lemma PatchedGrown(was: seq<byte>, grown: seq<byte>, now: seq<byte>, at: nat, s: seq<byte>)
    requires was <= grown && Patched(grown, now, at, s)
    ensures Patched(was, now, at, s)
  {
  }

  lemma NoElements(c: Config, k: Kind, p: nat, buf: seq<byte>, at: nat)
    requires at <= |buf|
    ensures Elements(c, k, [], p) == [] && Holds(buf, at, []) && Kept(buf, buf, at)
  {
  }

  lemma WroteArray(c: Config, ns: seq<nat>, w: nat, was: seq<byte>, grown: seq<byte>, now: seq<byte>, at: nat, pad: nat)
    requires was <= grown && Patched(grown, now, at + pad, Packed(c.little, ns, w))
    ensures Kept(was, now, at) && Holds(now, at, Gaps(pad) + Raw(Packed(c.little, ns, w)))
  {
    hide Packed, Raw;
    PatchedGrown(was, grown, now, at + pad, Packed(c.little, ns, w));
    PatchedKept(was, now, at + pad, Packed(c.little, ns, w));
    HoldsPadded(now, at, pad, Raw(Packed(c.little, ns, w)));
  }

  lemma ArrayCells(c: Config, k: Kind, ns: seq<nat>, p: nat)
    requires ns != [] || Size(k) == 1
    ensures var pad := if Size(k) == 1 then 0 else Pad(p, c.AlignOf(k));
      Elements(c, k, ns, p) == Gaps(pad) + Raw(Packed(c.little, ns, Size(k)))
  {
    if ns == [] {
      NothingAfter(c, k, ns, p);
      NoGap(Raw(Packed(c.little, ns, Size(k))));
    } else {
      BulkIsElements(c, k, ns, p);
    }
  }

  lemma {:induction false} PackedSnoc(little: bool, ns: seq<nat>, i: nat, w: nat)
    requires i < |ns|
    ensures Packed(little, ns[..i + 1], w) == Packed(little, ns[..i], w) + ToBytes(little, ns[i], w)
    decreases i
  {
    hide ToBytes;
    if i == 0 {
      assert ns[..1] == [ns[0]] && ns[..0] == [];
      assert [ns[0]][1..] == [];
    } else {
      var t := ns[1..];
      PackedSnoc(little, t, i - 1, w);
      assert ns[..i + 1][1..] == t[..i] && ns[..i][1..] == t[..i - 1];
    }
  }

  lemma PatchedSnoc(was: seq<byte>, mid: seq<byte>, now: seq<byte>, at: nat, a: seq<byte>, b: seq<byte>)
    requires Patched(was, mid, at, a) && Patched(mid, now, at + |a|, b)
    ensures Patched(was, now, at, a + b)
  {
    assert now[at..at + |a|] == mid[at..at + |a|];
    assert now[at..at + |a + b|] == now[at..at + |a|] + now[at + |a|..at + |a| + |b|];
  }
}
