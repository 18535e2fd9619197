/** Byte order and alignment arithmetic shared by the encoder, the decoder and the size calculator. */
module Layout {

  type byte = n: int | 0 <= n < 256

  /** The alignments the codec ever asks for. */
  predicate IsAlign(k: int) {
    k == 1 || k == 2 || k == 4 || k == 8
  }

  /** Distance from `p` up to the next multiple of `k`. */
  function Pad(p: nat, k: nat): (r: nat)
    requires IsAlign(k)
    ensures r < k
  {
    if k == 8 then (if p % 8 == 0 then 0 else 8 - p % 8)
    else if k == 4 then (if p % 4 == 0 then 0 else 4 - p % 4)
    else if k == 2 then p % 2
    else 0
  }

  /** The distance ends on a multiple; being below `k`, no shorter one does. */
  lemma PadAligns(p: nat, k: nat)
    requires IsAlign(k)
    ensures (p + Pad(p, k)) % k == 0
  {
    if k == 8 {
      assert (p + Pad(p, 8)) % 8 == 0;
    } else if k == 4 {
      assert (p + Pad(p, 4)) % 4 == 0;
    } else if k == 2 {
      assert (p + Pad(p, 2)) % 2 == 0;
    }
  }

  /** Every position is a multiple of 1. */
  lemma PadOne(p: nat)
    ensures Pad(p, 1) == 0
  {
  }

  /** After an aligned 4-byte item the next one needs no padding. */
  lemma PadAfter4(p: nat)
    ensures Pad(p + Pad(p, 4), 4) == 0 && Pad(p + Pad(p, 4) + 4, 4) == 0 && Pad(p + Pad(p, 4) + 8, 4) == 0
  {
  }

  /** The masked form the source computes: `(k - p % k) & (k - 1)`. */
  function MaskedPad(p: nat, k: nat): (r: nat)
    requires IsAlign(k)
  {
    (((k - p % k) as bv8) & ((k - 1) as bv8)) as nat
  }

  /** `last` is a size whose multiples the cursor is known to stand on; 0 means nothing is known. */
  predicate CacheHolds(last: nat, rel: nat) {
    last <= 1 || (IsAlign(last) && Pad(rel, last) == 0)
  }

  /** The cached form the source computes before every access. */
  function CachedPad(last: nat, rel: nat, k: nat): (r: nat)
    requires IsAlign(k)
  {
    if k > last then MaskedPad(rel, k) else 0
  }

  lemma MaskedPadIsPad(p: nat, k: nat)
    requires IsAlign(k)
    ensures MaskedPad(p, k) == Pad(p, k)
  {
    var r := p % k;
    if k == 8 {
      assert r == 0 || r == 1 || r == 2 || r == 3 || r == 4 || r == 5 || r == 6 || r == 7;
    } else if k == 4 {
      assert r == 0 || r == 1 || r == 2 || r == 3;
    } else if k == 2 {
      assert r == 0 || r == 1;
    }
  }

  /** The shortcut that skips the computation gives the answer of the full formula. */
  lemma CachedPadIsPad(last: nat, rel: nat, k: nat)
    requires IsAlign(k) && CacheHolds(last, rel)
    ensures CachedPad(last, rel, k) == Pad(rel, k)
  {
    MaskedPadIsPad(rel, k);
  }

  /** Aligning is monotone: a later start never ends up earlier. */
  lemma PadMonotone(p: nat, q: nat, k: nat)
    requires IsAlign(k) && p <= q
    ensures p + Pad(p, k) <= q + Pad(q, k)
  {
    var a, b := p + Pad(p, k), q + Pad(q, k);
    PadAligns(p, k);
    PadAligns(q, k);
    if k == 8 {
      MultiplesApart(a, b, 8);
    } else if k == 4 {
      MultiplesApart(a, b, 4);
    } else if k == 2 {
      MultiplesApart(a, b, 2);
    }
  }

  lemma MultiplesApart(a: nat, b: nat, k: nat)
    requires IsAlign(k) && a % k == 0 && b % k == 0 && a < b + k
    ensures a <= b
  {
    var i, j := a / k, b / k;
    if k == 8 {
      assert a == 8 * i && b == 8 * j;
    } else if k == 4 {
      assert a == 4 * i && b == 4 * j;
    } else if k == 2 {
      assert a == 2 * i && b == 2 * j;
    }
  }

  // ---------------------------------------------------------------- byte order

  function Pow256(w: nat): (r: nat)
    ensures r > 0
  {
    if w == 0 then 1 else 256 * Pow256(w - 1)
  }

  lemma Pow256Values()
    ensures Pow256(1) == 0x100 && Pow256(2) == 0x1_0000
    ensures Pow256(4) == 0x1_0000_0000 && Pow256(8) == 0x1_0000_0000_0000_0000
  {
    assert Pow256(2) == 256 * Pow256(1);
    assert Pow256(3) == 256 * Pow256(2);
    assert Pow256(4) == 256 * Pow256(3);
    assert Pow256(5) == 256 * Pow256(4);
    assert Pow256(6) == 256 * Pow256(5);
    assert Pow256(7) == 256 * Pow256(6);
    assert Pow256(8) == 256 * Pow256(7);
  }

  /** The low `w` bytes of `n`, least significant first. */
  function LittleBytes(n: nat, w: nat): (s: seq<byte>)
    ensures |s| == w
  {
    if w == 0 then [] else [n % 256] + LittleBytes(n / 256, w - 1)
  }

  function FromLittle(s: seq<byte>): nat {
    if s == [] then 0 else s[0] + 256 * FromLittle(s[1..])
  }

  function Reverse(s: seq<byte>): (r: seq<byte>)
    ensures |r| == |s|
    ensures forall i :: 0 <= i < |s| ==> r[i] == s[|s| - 1 - i]
  {
    if s == [] then [] else Reverse(s[1..]) + [s[0]]
  }

  lemma ReverseTwice(s: seq<byte>)
    ensures Reverse(Reverse(s)) == s
  {
  }

  /** The `w` bytes of `n` in the given order. */
  function ToBytes(little: bool, n: nat, w: nat): (s: seq<byte>)
    ensures |s| == w
  {
    if little then LittleBytes(n, w) else Reverse(LittleBytes(n, w))
  }

  function FromBytes(little: bool, s: seq<byte>): nat {
    if little then FromLittle(s) else FromLittle(Reverse(s))
  }

  /** Exchanging the bytes before reading them in the host's order reads them in the other order. */
  lemma FromSwapped(host: bool, swap: bool, s: seq<byte>)
    ensures FromBytes(host, if swap then Reverse(s) else s) == FromBytes(host != swap, s)
  {
    hide FromLittle, Reverse;
    ReverseTwice(s);
  }

  lemma {:induction false} LittleRoundTrip(n: nat, w: nat)
    requires n < Pow256(w)
    ensures FromLittle(LittleBytes(n, w)) == n
  {
    if w > 0 {
      LittleRoundTrip(n / 256, w - 1);
      assert LittleBytes(n, w)[1..] == LittleBytes(n / 256, w - 1);
    }
  }

  /** Reading back what was written in the same order gives the number, for every width. */
  lemma BytesRoundTrip(little: bool, n: nat, w: nat)
    requires n < Pow256(w)
    ensures FromBytes(little, ToBytes(little, n, w)) == n
  {
    LittleRoundTrip(n, w);
    ReverseTwice(LittleBytes(n, w));
  }

  // ---------------------------------------------------------------- unsigned subtraction

  const TWO_64: nat := 0x1_0000_0000_0000_0000

  /** The difference of two sizes as `size_t` has it. */
  function Minus64(a: nat, b: nat): nat
    requires b <= a + TWO_64
  {
    if b <= a then a - b else TWO_64 + a - b
  }

  /** The guard of a header made longer: more than `extra` bytes are left of `room` behind a body of `size` bytes. */
  predicate GuardPasses(room: nat, size: nat, extra: nat)
    requires size <= room && extra <= TWO_64
  {
    0 < Minus64(Minus64(room, size), extra)
  }

  /** It refuses when exactly one byte is missing and at no other time, so it is right unless more are. */
  lemma GuardRight(room: nat, size: nat, extra: nat)
    requires size <= room && extra < TWO_64
    ensures GuardPasses(room, size, extra) <==> room != size + extra
    ensures (GuardPasses(room, size, extra) <==> size + extra < room) <==> size + extra <= room
  {
  }
}
