/**
  The interleaved mapping that slab metadata, log chunks and numa logs share:
  consecutive ids go to different lines, so that neighbouring allocations flush
  different cache lines and memory banks.
 */
module Interleave {

  const NBANKS := 6
  const LINE := 64     // bytes of a cache line

  lemma MulPos(x: nat, y: nat)
    ensures x > 0 && y > 0 ==> x * y > 0
  {
  }

  /** bid_to_mid, for `b` banks and lines of `n` slots. */
  function Map(id: nat, b: nat, n: nat): nat
    requires b > 0 && n > 0
  {
    MulPos(n, b);
    var nb := n * b;
    Join(id / nb, nb, id % b, n, id % nb / b)
  }

  /** The way back: the slot at place `q` of line `r` in a group belongs to the id `q * b + r` of that group. */
  function Unmap(slot: nat, b: nat, n: nat): nat
    requires b > 0 && n > 0
  {
    MulPos(n, b);
    var nb := n * b;
    Join(slot / nb, nb, slot % n, b, slot % nb / n)
  }

  /** Group `g` of size `nb`, then `x` steps of `d`, then `y`. */
  function Join(g: nat, nb: nat, x: nat, d: nat, y: nat): nat {
    g * nb + x * d + y
  }

  lemma DivMod(a: nat, q: nat, r: nat, d: nat)
    requires d > 0 && a == q * d + r && r < d
    ensures a / d == q && a % d == r
  {
    var k := a / d;
    assert a == k * d + a % d;
    if k < q { Gap(k, q, d); }
    if k > q { Gap(q, k, d); }
  }

  lemma Gap(x: nat, y: nat, d: nat)
    requires x < y
    ensures x * d + d <= y * d
  {
    MulMonotone(x + 1, y, d);
    assert (x + 1) * d == x * d + d;
  }

  lemma MulMonotone(x: nat, y: nat, d: nat)
    requires x <= y
    ensures x * d <= y * d
  {
    assert y * d - x * d == (y - x) * d;
  }

  /** A place `y < e` after `x < c` steps of `e` stays below `c * e`. */
  lemma Below(x: nat, c: nat, y: nat, e: nat)
    requires x < c && y < e
    ensures x * e + y < c * e
  {
    MulMonotone(x + 1, c, e);
    assert (x + 1) * e == x * e + e;
  }

  lemma Regroup(g: nat, c: nat, e: nat, x: nat)
    ensures g * (c * e) + x * e == (g * c + x) * e
  {
    calc {
      g * (c * e) + x * e;
      (g * c) * e + x * e;
      (g * c + x) * e;
    }
  }

  /** An id is a group, a place `q` within the line and a line `r`. */
  lemma Coordinates(id: nat, c: nat, e: nat) returns (g: nat, q: nat, r: nat)
    requires c > 0 && e > 0
    ensures q < c && r < e && id == Join(g, c * e, q, e, r) && q * e + r < c * e
    ensures c * e > 0 && id / (c * e) == g && id % e == r && id % (c * e) / e == q
  {
    MulPos(c, e);
    var nb := c * e;
    g := id / nb;
    var i := id % nb;
    assert id == g * nb + i;
    q, r := i / e, i % e;
    assert i == q * e + r;
    if q >= c { MulMonotone(c, q, e); assert false; }
    Regroup(g, c, e, q);
    DivMod(id, g * c + q, r, e);
  }

  /** Conversely the coordinates determine the quotients and remainders. */
  lemma Split(g: nat, c: nat, e: nat, q: nat, r: nat)
    requires q < c && r < e
    ensures c * e > 0
    ensures var id := Join(g, c * e, q, e, r); id / (c * e) == g && id % e == r && id % (c * e) / e == q && id / e == g * c + q
  {
    MulPos(c, e);
    var id := Join(g, c * e, q, e, r);
    Below(q, c, r, e);
    DivMod(id, g, q * e + r, c * e);
    DivMod(q * e + r, q, r, e);
    Regroup(g, c, e, q);
    DivMod(id, g * c + q, r, e);
  }

  /** The mapping swaps place and line. */
  lemma MapAt(id: nat, b: nat, n: nat) returns (g: nat, q: nat, r: nat)
    requires b > 0 && n > 0
    ensures q < n && r < b && id == Join(g, n * b, q, b, r) && Map(id, b, n) == Join(g, n * b, r, n, q)
  {
    hide Join;
    g, q, r := Coordinates(id, n, b);
  }

  lemma Commute(x: nat, y: nat)
    ensures x * y == y * x
  {
  }

  /** The mapping keeps each id in its group and can be undone. */
  lemma RoundTrip(id: nat, b: nat, n: nat)
    requires b > 0 && n > 0
    ensures Unmap(Map(id, b, n), b, n) == id
    ensures n * b > 0 && Map(id, b, n) / (n * b) == id / (n * b)
  {
    var g, q, r := MapAt(id, b, n);
    Split(g, b, n, r, q);
    Split(g, n, b, q, r);
    Commute(n, b);
  }

  /** And the other way round: every slot is some id's, so each group of slots is permuted. */
  lemma RoundTripBack(slot: nat, b: nat, n: nat)
    requires b > 0 && n > 0
    ensures Map(Unmap(slot, b, n), b, n) == slot
    ensures n * b > 0 && Unmap(slot, b, n) / (n * b) == slot / (n * b)
  {
    var g, r, q := Coordinates(slot, b, n);
    Commute(n, b);
    Split(g, n, b, q, r);
  }

  lemma Injective(x: nat, y: nat, b: nat, n: nat)
    requires b > 0 && n > 0 && Map(x, b, n) == Map(y, b, n)
    ensures x == y
  {
    RoundTrip(x, b, n);
    RoundTrip(y, b, n);
  }

  /** Any `b` consecutive ids fall on `b` different lines. */
  lemma DistinctLines(x: nat, y: nat, b: nat, n: nat)
    requires b > 0 && n > 0 && x < y < x + b
    ensures Map(x, b, n) / n != Map(y, b, n) / n
  {
    var gx, qx, rx := MapAt(x, b, n);
    var gy, qy, ry := MapAt(y, b, n);
    Commute(n, b);
    Split(gx, b, n, rx, qx);
    Split(gy, b, n, ry, qy);
    if gx * b + rx == gy * b + ry {
      DivMod(gx * b + rx, gx, rx, b);
      DivMod(gy * b + ry, gy, ry, b);
      SameLine(gx, n * b, qx, qy, b, rx);
    }
  }

  /** The first ids go one to a line, each further one beside the id a round of banks before it, and after a group the next begins alike. */
  lemma NextSlot(id: nat, b: nat, n: nat)
    requires b > 0 && n > 0
    ensures n * b > 0
    ensures id < b ==> Map(id, b, n) == id * n
    ensures b <= id < n * b ==> Map(id, b, n) == Map(id - b, b, n) + 1
    ensures id >= n * b ==> Map(id, b, n) == Map(id - n * b, b, n) + n * b
  {
    hide Map, Join;
    MulPos(n, b);
    if id < b {
      MapJoin(0, 0, id, b, n);
      JoinFirst(n * b, id, b, n);
    } else if id < n * b {
      BesideIt(id - b, b, n);
    } else {
      NextGroupOf(id - n * b, b, n);
    }
  }

  lemma BesideIt(id: nat, b: nat, n: nat)
    requires b > 0 && n > 0 && id + b < n * b
    ensures Map(id + b, b, n) == Map(id, b, n) + 1
  {
    hide Map;
    var g, q, r := MapAt(id, b, n);
    GroupZero(g, n * b, q * b + r);
    assert (q + 1) * b == q * b + b;
    FewerSteps(q + 1, n, b);
    MapJoin(0, q + 1, r, b, n);
  }

  lemma NextGroupOf(id: nat, b: nat, n: nat)
    requires b > 0 && n > 0
    ensures Map(id + n * b, b, n) == Map(id, b, n) + n * b
  {
    hide Map;
    var g, q, r := MapAt(id, b, n);
    assert (g + 1) * (n * b) == g * (n * b) + n * b;
    MapJoin(g + 1, q, r, b, n);
  }

  lemma JoinFirst(nb: nat, id: nat, b: nat, n: nat)
    ensures Join(0, nb, 0, b, id) == id && Join(0, nb, id, n, 0) == id * n
  {
  }

  lemma MapJoin(g: nat, q: nat, r: nat, b: nat, n: nat)
    requires q < n && r < b
    ensures Map(Join(g, n * b, q, b, r), b, n) == Join(g, n * b, r, n, q)
  {
    hide Join;
    Split(g, n, b, q, r);
  }

  lemma FewerSteps(x: nat, y: nat, d: nat)
    ensures x * d < y * d ==> x < y
  {
    if y <= x { MulMonotone(y, x, d); }
  }

  lemma GroupZero(g: nat, nb: nat, x: nat)
    ensures g * nb + x < nb ==> g == 0
  {
    if g > 0 { MulMonotone(1, g, nb); }
  }

  lemma SameLine(g: nat, nb: nat, qx: nat, qy: nat, b: nat, r: nat)
    ensures var x, y := Join(g, nb, qx, b, r), Join(g, nb, qy, b, r); x < y ==> x + b <= y
  {
    if qx < qy {
      MulMonotone(qx + 1, qy, b);
      assert (qx + 1) * b == qx * b + b;
    } else {
      MulMonotone(qy, qx, b);
    }
  }

  /** An id below a whole number of groups goes to a slot below it. */
  lemma Inside(id: nat, groups: nat, b: nat, n: nat)
    requires b > 0 && n > 0 && id < groups * (n * b)
    ensures Map(id, b, n) < groups * (n * b)
  {
    var g, q, r := MapAt(id, b, n);
    if g >= groups { MulMonotone(groups, g, n * b); assert false; }
    Below(r, b, q, n);
    Commute(n, b);
    Below(g, groups, r * n + q, n * b);
  }

  // ------------------------------------------------------------------ slab metadata

  function RoundUp(x: nat, m: nat): nat
    requires m > 0
  {
    (x + m - 1) / m * m
  }

  /** get_meta_size: whole groups of banks, in bytes. */
  function MetaSize(nbits: nat): nat {
    RoundUp((nbits + 7) / 8, LINE * NBANKS)
  }

  /** The groups set aside for `nbits` bits are no more than they need. */
  lemma MetaLeast(nbits: nat)
    ensures nbits <= 8 * MetaSize(nbits) < nbits + 8 * LINE * NBANKS && MetaSize(nbits) % (LINE * NBANKS) == 0
  {
    var bytes := (nbits + 7) / 8;
    var groups := (bytes + 383) / 384;
    assert bytes <= groups * 384 < bytes + 384 && nbits <= 8 * bytes < nbits + 8;
    DivMod(groups * 384, groups, 0, 384);
  }

  /** The metadata bits of a slab stay inside the space set aside for them. */
  lemma MetaInside(bid: nat, nbits: nat)
    requires bid < nbits
    ensures Map(bid, NBANKS, 512) / 8 < MetaSize(nbits)
  {
    var bytes := (nbits + 7) / 8;
    var groups := (bytes + 383) / 384;
    assert bytes <= groups * 384 && nbits <= 8 * bytes;
    Inside(bid, groups, NBANKS, 512);
  }

  // ------------------------------------------------------------------ numa log

  const NUMA_ENTRIES := 786432   // of 16 bytes, in a file of NBANKS * 512 * 4096

  /** A numa log file is a whole number of groups, so its slots are a permutation of its ids. */
  lemma NumaLogPermuted(id: nat)
    requires id < NUMA_ENTRIES
    ensures Map(id, NBANKS, 4) < NUMA_ENTRIES && Unmap(id, NBANKS, 4) < NUMA_ENTRIES
    ensures Map(Unmap(id, NBANKS, 4), NBANKS, 4) == id && Unmap(Map(id, NBANKS, 4), NBANKS, 4) == id
  {
    hide Map, Unmap;
    Inside(id, 32768, NBANKS, 4);
    RoundTrip(id, NBANKS, 4);
    RoundTripBack(id, NBANKS, 4);
    assert Unmap(id, NBANKS, 4) / 24 == id / 24;
  }

  // ------------------------------------------------------------------ log chunks

  const ITEMS := 126    // items a log chunk has room for
  const CLOSES := 100   // items after which count_to_index leaves the chunk

  /** count_to_index: a line counts as eight slots. */
  function LogIndex(count: nat): nat {
    Map(count, NBANKS, 8)
  }

  /** Six items to as many lines, and after a group of 48 the next two lines each. */
  lemma LogIndexSteps(count: nat)
    ensures count < NBANKS ==> LogIndex(count) == 8 * count
    ensures NBANKS <= count < 48 ==> LogIndex(count) == LogIndex(count - NBANKS) + 1
    ensures count >= 48 ==> LogIndex(count) == LogIndex(count - 48) + 48
  {
    hide Map;
    NextSlot(count, NBANKS, 8);
  }

  /** A chunk takes exactly the counts below 100: each has a slot of its own, and the next one is past the end. */
  lemma ChunkCloses(count: nat)
    ensures count <= CLOSES ==> (LogIndex(count) < ITEMS <==> count < CLOSES)
  {
    if count < 96 { Inside(count, 2, NBANKS, 8); }
  }
}
