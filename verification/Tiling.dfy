/** What a PL_CDR2 decoder has done to arbitrary bytes when it accepts them. */
module Tiling {
  import opened Layout
  import opened Schema
  import opened Encoding
  import opened Decoding

  /** One accepted member: its padding, its header and its body, back to back from `at`. */
  datatype Rounds = Done | More(at: nat, pad: nat, head: nat, size: nat, rest: Rounds)

  function Number(rs: Rounds): nat {
    match rs
    case Done => 0
    case More(_, _, _, _, rest) => 1 + Number(rest)
  }

  /** The rounds cover the bytes from `cur` to `end` without gap or overlap, each as its own header announces. */
  ghost predicate Tile(c: Config, buf: seq<byte>, cur: Cur, end: nat, rs: Rounds)
    decreases rs
  {
    match rs
    case Done => cur.off == end
    case More(at, pad, head, size, rest) =>
      && Inside(cur, buf) && at == cur.off && pad == Pad(cur.rel, 4) && (head == 4 || head == 8) && size > 0
      && (var h := DecHeader2(c, buf, cur); h.Ok? && h.value.size == size && h.value.len == head)
      && Tile(c, buf, Cur(cur.off + pad + head + size, cur.rel + pad + head + size), end, rest)
  }

  lemma {:induction false} RoundsTile(c: Config, fs: Fields, buf: seq<byte>, cur: Cur, end: nat, acc: Members)
      returns (rs: Rounds)
    requires c.v2 && Inside(cur, buf) && Loop2(c, fs, buf, cur, end, acc).Ok?
    ensures Tile(c, buf, cur, end, rs) && cur.off + 5 * Number(rs) <= end <= |buf|
    decreases |buf| - cur.off
  {
    hide Pad, RoundBody, DecHeader2;
    if cur.off == end {
      rs := Done;
    } else {
      var h := DecHeader2(c, buf, cur).value;
      var pad := Pad(cur.rel, 4);
      var r := Round2(c, fs, buf, cur, acc);
      assert r.cur == Cur(cur.off + pad + h.len + h.size, cur.rel + pad + h.len + h.size);
      var rest := RoundsTile(c, fs, buf, r.cur, end, r.value);
      rs := More(cur.off, pad, h.len, h.size, rest);
    }
  }

  /**
   Whatever the bytes, an accepted mutable struct is a DHEADER followed by exactly as many bytes as it announces,
   tiled by members of at least 5 bytes each, so that the decoder makes at most a fifth as many rounds.
   */
  lemma MutableTiles(c: Config, fs: Fields, buf: seq<byte>, cur: Cur) returns (dh: nat, rs: Rounds)
    requires c.v2 && Inside(cur, buf) && Decode(c, TStruct(Mutable, fs), buf, cur).Ok?
    ensures var start := Cur(cur.off + Pad(cur.rel, 4) + 4, cur.rel + Pad(cur.rel, 4) + 4);
      && DecU32(c, buf, cur) == Ok(dh, start)
      && Tile(c, buf, start, start.off + dh, rs) && 5 * Number(rs) <= dh
      && Decode(c, TStruct(Mutable, fs), buf, cur).cur.off == start.off + dh
  {
    hide Pad, Loop2, DecScalar;
    var r := DecU32(c, buf, cur);
    dh := r.value;
    rs := RoundsTile(c, fs, buf, r.cur, r.cur.off + dh, DefaultMembers(fs));
  }
}
