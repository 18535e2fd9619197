/** The buffer under the codec: the user's, of fixed size, or its own, which grows on demand. */
module FastBuffers {
  import opened Layout

  const BUFFER_START_LENGTH: nat := 200

  /** Bytes a growing buffer adds when `need` are missing. */
  function Increment(need: nat): (r: nat)
    ensures need <= r && 200 <= r
    ensures r == need || r == 200
  {
    if need > BUFFER_START_LENGTH then need else BUFFER_START_LENGTH
  }

  class FastBuffer {
    var bytes: seq<byte>
    var present: bool
    /** How often the memory has been reallocated. */
    var generation: nat
    const internal: bool

    /** A buffer of its own, empty until first used. */
    constructor Internal()
      ensures internal && !present && bytes == []
    {
      internal, present, generation := true, false, 0;
      bytes := [];
    }

    /** A user's buffer. */
    constructor User(data: seq<byte>)
      ensures !internal && present && bytes == data
    {
      internal, present, generation := false, true, 0;
      bytes := data;
    }

    /** Allocates a buffer of its own, once. */
    method Reserve(size: nat) returns (ok: bool)
      modifies this
      ensures ok == (internal && !old(present))
      ensures if ok then present && |bytes| == size else bytes == old(bytes) && present == old(present)
    {
      ok := internal && !present;
      if ok {
        var block := Uninitialised(size);
        bytes, present := block, true;
      }
    }

    /** Grows a buffer of its own; everything in it stays where it was. */
    method Resize(minInc: nat) returns (ok: bool)
      modifies this
      ensures ok == internal
      ensures old(bytes) <= bytes && |bytes| == |old(bytes)| + if ok then Increment(minInc) else 0
      ensures generation == old(generation) + if ok then 1 else 0
    {
      ok := internal;
      if internal {
        var block := Uninitialised(Increment(minInc));
        bytes, present, generation := bytes + block, true, generation + 1;
      }
    }

    /** Grows a buffer of its own by `less` bytes short of 2^64: the size wraps, and that many bytes are cut off. */
    method Wrap(less: nat) returns (ok: bool)
      requires 0 < less <= |bytes|
      modifies this
      ensures ok == internal
      ensures bytes == if ok then old(bytes)[..|old(bytes)| - less] else old(bytes)
      ensures generation == old(generation) + if ok then 1 else 0
    {
      ok := internal;
      if internal { bytes, generation := bytes[..|bytes| - less], generation + 1; }
    }
  }

  /** Memory with whatever was in it. */
  method Uninitialised(n: nat) returns (s: seq<byte>)
    ensures |s| == n
  {
    var zeros: seq<byte> := seq(n, _ => 0);
    assert |zeros| == n;
    s :| |s| == n;
  }

  // ---------------------------------------------------------------- iterators

  /** An iterator: the buffer it was made for and the position it stands on, both as addresses. */
  datatype Iterator = Iterator(buffer: int, position: int)

  function Index(it: Iterator): int { it.position - it.buffer }

  /** `<<`: move to another buffer, keeping the index. */
  function Rebase(it: Iterator, onto: Iterator): (r: Iterator)
    ensures r.buffer == onto.buffer && Index(r) == Index(it)
  {
    Iterator(onto.buffer, onto.buffer + (it.position - it.buffer))
  }

  /** `>>`: take over another iterator's index, staying in one's own buffer. */
  function Reposition(it: Iterator, from: Iterator): (r: Iterator)
    ensures r.buffer == it.buffer && Index(r) == Index(from)
  {
    Iterator(it.buffer, it.buffer + (from.position - from.buffer))
  }

  /**
   A state saved before a reallocation is still good after it: restoring it yields the index it was saved at,
   and distances between rebased iterators are what they were.
   */
  lemma SavedIndexSurvives(saved: Iterator, live: Iterator, moved: Iterator)
    ensures Index(Reposition(Rebase(live, moved), saved)) == Index(saved)
    ensures live.buffer == saved.buffer ==>
              Rebase(live, moved).position - Rebase(saved, moved).position == live.position - saved.position
  {
  }

  // ---------------------------------------------------------------- growth

  /** The most spare room a write of `need` bytes may leave where there were `spare` before it. */
  function Cap(spare: int, need: nat): int {
    var most := if spare > BUFFER_START_LENGTH then spare else BUFFER_START_LENGTH;
    if need > most then need else most
  }

  /** It is the largest of what was spare, 200 bytes and the request. */
  lemma CapIs(spare: int, need: nat)
    ensures spare <= Cap(spare, need) && 200 <= Cap(spare, need) && need <= Cap(spare, need)
    ensures Cap(spare, need) == spare || Cap(spare, need) == 200 || Cap(spare, need) == need
  {
  }

  lemma SpareKept(spare: int)
    ensures spare <= Cap(spare, 0)
  {
  }

  function Larger(a: nat, b: nat): nat { if a > b then a else b }

  /** Two requests, one after the other, leave no more than the larger of them might. */
  lemma CapTwice(spare: int, between: int, after: int, a: nat, b: nat)
    requires between <= Cap(spare, a) && after <= Cap(between, b)
    ensures after <= Cap(spare, Larger(a, b))
  {
  }
}
