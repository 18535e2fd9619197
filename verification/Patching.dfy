/** What writing, patching and moving bytes does to cells a buffer already holds. */
module Patching {
  import opened Layout
  import opened Schema
  import opened Encoding
  import opened EncodingFacts
  import opened Evolution

  /** `now` is `was`, possibly grown at the end, with `s` standing at `at`. */
  ghost predicate Patched(was: seq<byte>, now: seq<byte>, at: nat, s: seq<byte>) {
    && |was| <= |now| && at + |s| <= |now|
    && now[at..at + |s|] == s
    && forall i :: 0 <= i < |was| && !(at <= i < at + |s|) ==> now[i] == was[i]
  }

  /** `now` is `was`, possibly grown at the end, up to the position `upTo`. */
  ghost predicate Kept(was: seq<byte>, now: seq<byte>, upTo: nat) {
    |was| <= |now| && forall i :: 0 <= i < upTo && i < |was| ==> now[i] == was[i]
  }

  lemma PatchedKept(was: seq<byte>, now: seq<byte>, at: nat, s: seq<byte>)
    requires Patched(was, now, at, s)
    ensures Kept(was, now, at) && Holds(now, at, Raw(s))
  {
    HoldsRaw(now, at, s);
  }

  lemma KeptTrans(a: seq<byte>, b: seq<byte>, d: seq<byte>, upTo: nat, upTo': nat)
    requires Kept(a, b, upTo) && Kept(b, d, upTo') && upTo <= upTo'
    ensures Kept(a, d, upTo)
  {
  }

  /** Cells below the kept position are still held. */
  lemma HoldsKept(was: seq<byte>, now: seq<byte>, upTo: nat, at: nat, cells: Cells)
    requires Holds(was, at, cells) && Kept(was, now, upTo) && at + |cells| <= upTo
    ensures Holds(now, at, cells)
  {
  }

  /** Padding is held by anything of sufficient length. */
  lemma HoldsPadded(buf: seq<byte>, at: nat, pad: nat, cells: Cells)
    requires Holds(buf, at + pad, cells)
    ensures Holds(buf, at, Gaps(pad) + cells)
  {
    HoldsConcat(buf, at, Gaps(pad), cells);
  }

  lemma HoldsBoth(buf: seq<byte>, at: nat, a: Cells, b: Cells)
    requires Holds(buf, at, a) && Holds(buf, at + |a|, b)
    ensures Holds(buf, at, a + b)
  {
    HoldsConcat(buf, at, a, b);
  }

  /** The elements of an array, each in the stream's order, back to back. */
  function Packed(little: bool, ns: seq<nat>, w: nat): (s: seq<byte>)
    ensures |s| == |ns| * w
    decreases |ns|
  {
    if ns == [] then []
    else
      assert |ns[1..]| * w + w == |ns| * w;
      ToBytes(little, ns[0], w) + Packed(little, ns[1..], w)
  }

  /** Aligning once and copying everything is what aligning and writing each element in turn comes to. */
  lemma {:induction false} BulkIsElements(c: Config, k: Kind, ns: seq<nat>, p: nat)
    requires ns != []
    ensures Elements(c, k, ns, p) == Gaps(Pad(p, c.AlignOf(k))) + Raw(Packed(c.little, ns, Size(k)))
    decreases |ns|
  {
    hide Pad, ToBytes, Raw, Gaps;
    var w := Size(k);
    var pad, head, tail := Pad(p, c.AlignOf(k)), ToBytes(c.little, ns[0], w), Packed(c.little, ns[1..], w);
    RawConcat(pad, head, tail);
    if |ns| == 1 {
      NothingAfter(c, k, ns[1..], p + pad + w);
    } else {
      PadStep(c, k, p);
      BulkIsElements(c, k, ns[1..], p + pad + w);
      NoGap(Raw(tail));
    }
  }

  lemma RawConcat(pad: nat, head: seq<byte>, tail: seq<byte>)
    ensures Gaps(pad) + Raw(head) + Raw(tail) == Gaps(pad) + Raw(head + tail)
  {
    assert Raw(head) + Raw(tail) == Raw(head + tail);
    assert Gaps(pad) + Raw(head) + Raw(tail) == Gaps(pad) + (Raw(head) + Raw(tail));
  }

  lemma NoGap(cells: Cells)
    ensures Gaps(0) + cells == cells
  {
  }

  lemma NothingAfter(c: Config, k: Kind, ns: seq<nat>, p: nat)
    requires ns == []
    ensures Elements(c, k, ns, p) == Raw(Packed(c.little, ns, Size(k)))
  {
  }

  /** A header and, right behind it, a body stand at `at`. */
  ghost predicate Stamped(buf: seq<byte>, at: nat, head: seq<byte>, body: seq<byte>) {
    && at + |head| + |body| <= |buf|
    && buf[at..at + |head|] == head
    && buf[at + |head|..at + |head| + |body|] == body
  }

  /** A stretch clear of a patch is as it was. */
  lemma PatchedSlice(was: seq<byte>, now: seq<byte>, at: nat, s: seq<byte>, lo: nat, hi: nat)
    requires Patched(was, now, at, s) && lo <= hi <= |was| && (hi <= at || at + |s| <= lo)
    ensures now[lo..hi] == was[lo..hi]
  {
  }

  /** Overwriting a header leaves the body behind it. */
  lemma StampInPlace(was: seq<byte>, now: seq<byte>, at: nat, head: seq<byte>, end: nat)
    requires Patched(was, now, at, head) && at + |head| <= end <= |was|
    ensures Kept(was, now, at) && Stamped(now, at, head, was[at + |head|..end])
  {
    PatchedSlice(was, now, at, head, at + |head|, end);
  }

  /** Moving a body and then writing the header before it. */
  lemma StampMoved(was: seq<byte>, mid: seq<byte>, now: seq<byte>, at: nat, head: seq<byte>, body: seq<byte>)
    requires Patched(was, mid, at + |head|, body) && Patched(mid, now, at, head)
    ensures Kept(was, now, at) && Stamped(now, at, head, body)
  {
    PatchedSlice(mid, now, at, head, at + |head|, at + |head| + |body|);
  }

  /** Writing the header and then moving a body up to it. */
  lemma StampThenMove(was: seq<byte>, mid: seq<byte>, now: seq<byte>, at: nat, head: seq<byte>, body: seq<byte>)
    requires Patched(was, mid, at, head) && Patched(mid, now, at + |head|, body)
    ensures Kept(was, now, at) && Stamped(now, at, head, body)
  {
    PatchedSlice(mid, now, at + |head|, body, at, at + |head|);
  }

  /** Cells held by a body are held wherever the body is stamped. */
  lemma HoldsStamped(was: seq<byte>, from: nat, cells: Cells, now: seq<byte>, at: nat, head: seq<byte>)
    requires Holds(was, from, cells) && Stamped(now, at, head, was[from..from + |cells|])
    ensures Holds(now, at, Raw(head) + cells)
  {
    HoldsRaw(now, at, head);
    var body := was[from..from + |cells|];
    forall i | 0 <= i < |cells| && cells[i].B?
      ensures now[at + |head| + i] == cells[i].b
    {
      assert body[i] == was[from + i];
      assert now[at + |head|..at + |head| + |body|][i] == now[at + |head| + i];
    }
    HoldsBoth(now, at, Raw(head), cells);
  }

  /** Completing a header whose first part is already there. */
  lemma StampTail(was: seq<byte>, now: seq<byte>, at: nat, a: seq<byte>, b: seq<byte>, end: nat)
    requires at + |a| + |b| <= end <= |was| && was[at..at + |a|] == a && Patched(was, now, at + |a|, b)
    ensures Kept(was, now, at) && Stamped(now, at, a + b, was[at + |a| + |b|..end])
  {
    PatchedSlice(was, now, at + |a|, b, at, at + |a|);
    PatchedSlice(was, now, at + |a|, b, at + |a| + |b|, end);
    assert now[at..at + |a| + |b|] == now[at..at + |a|] + now[at + |a|..at + |a| + |b|];
  }
}
