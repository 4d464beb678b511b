/**
 Prefix sets: a route minus excluded prefixes, by recursive halving (`split_subtract_v4`, `_v6`).
 Addresses are integers below 2^W, with W = 32 or 128.
 */
module Cidr {
  import opened Arith

  datatype Prefix = Prefix(net: nat, len: nat)

  function Pow2(n: nat): (r: nat)
    ensures r > 0
  {
    if n == 0 then 1 else 2 * Pow2(n - 1)
  }

  /** The number of addresses in a block: what the complement of the prefix mask leaves. */
  function Size(W: nat, len: nat): (r: nat)
    requires len <= W
    ensures r > 0
  {
    Pow2(W - len)
  }

  /** The block of 2^(W - len) addresses that x is in. `x & mask == y & mask` means the same block. */
  function Block(W: nat, x: nat, len: nat): nat
    requires len <= W
  {
    hide *;
    QuotientNat(x, Size(W, len));
    x / Size(W, len)
  }

  lemma QuotientNat(x: nat, s: nat)
    requires s > 0
    ensures x / s >= 0 && x % s <= x
  {}

  /** `ip & mask` */
  function Network(W: nat, x: nat, len: nat): nat
    requires len <= W
  {
    hide *;
    QuotientNat(x, Size(W, len));
    x - x % Size(W, len)
  }

  predicate Valid(W: nat, p: Prefix) {
    p.len <= W && p.net < Pow2(W)
  }

  /** No host bits. */
  predicate Canonical(W: nat, p: Prefix)
    requires p.len <= W
  {
    p.net % Size(W, p.len) == 0
  }

  /** The addresses a prefix stands for. */
  predicate Covers(W: nat, p: Prefix, x: nat)
    requires p.len <= W
  {
    Block(W, x, p.len) == Block(W, p.net, p.len)
  }

  /** `prefix_contains_*` */
  predicate Contains(W: nat, outer: Prefix, inner: Prefix)
    requires outer.len <= W && inner.len <= W
  {
    outer.len <= inner.len && Network(W, outer.net, outer.len) == Network(W, inner.net, outer.len)
  }

  /** `v4_intersects`, `v6_intersects` */
  predicate Intersects(W: nat, e: Prefix, p: Prefix)
    requires e.len <= W && p.len <= W
  {
    var (coarse, fine) := if e.len <= p.len then (e, p) else (p, e);
    Network(W, fine.net, coarse.len) == Network(W, coarse.net, coarse.len)
  }

  /** Exclude lengths start at 1: for length 0 the shift of `prefix_contains_*` overflows. */
  predicate Excludes(W: nat, excludes: seq<Prefix>) {
    forall e | e in excludes :: 1 <= e.len <= W
  }

  /** `fully_excluded_*` */
  predicate FullyExcluded(W: nat, p: Prefix, excludes: seq<Prefix>)
    requires p.len <= W && Excludes(W, excludes)
  {
    exists i | 0 <= i < |excludes| :: excludes[i].len <= p.len && Contains(W, excludes[i], p)
  }

  predicate AnyIntersects(W: nat, p: Prefix, excludes: seq<Prefix>)
    requires p.len <= W && Excludes(W, excludes)
  {
    exists i | 0 <= i < |excludes| :: Intersects(W, excludes[i], p)
  }

  /** `x | bit` */
  function SetBit(x: nat, bit: nat): nat
    requires bit > 0
  {
    if x / bit % 2 == 1 then x else x + bit
  }

  function Left(p: Prefix): (r: Prefix)
    ensures r.len == p.len + 1
  {
    Prefix(p.net, p.len + 1)
  }

  function Right(W: nat, p: Prefix): (r: Prefix)
    requires p.len < W
    ensures r.len == p.len + 1
  {
    Prefix(Network(W, SetBit(p.net, Size(W, p.len + 1)), p.len + 1), p.len + 1)
  }

  /** What `split_subtract_*` pushes for one prefix. */
  function SplitSubtract(W: nat, p: Prefix, excludes: seq<Prefix>): seq<Prefix>
    requires p.len <= W && Excludes(W, excludes)
    decreases W - p.len
  {
    if FullyExcluded(W, p, excludes) then []
    else if p.len >= W then [p]
    else if !AnyIntersects(W, p, excludes) then [p]
    else SplitSubtract(W, Left(p), excludes) + SplitSubtract(W, Right(W, p), excludes)
  }

  // ---- Blocks ----

  lemma SameNetwork(W: nat, x: nat, y: nat, len: nat)
    requires len <= W
    ensures Network(W, x, len) == Network(W, y, len) <==> Block(W, x, len) == Block(W, y, len)
    ensures Network(W, x, len) % Size(W, len) == 0 && Block(W, Network(W, x, len), len) == Block(W, x, len)
  {
    var s := Size(W, len);
    assert x == x / s * s + x % s && y == y / s * s + y % s;
    DivUnique(x - x % s, s, x / s, 0);
    DivUnique(y - y % s, s, y / s, 0);
  }

  /** A block is made of the two blocks one bit longer. */
  lemma HalfBlock(W: nat, x: nat, len: nat)
    requires len < W
    ensures Block(W, x, len) == Block(W, x, len + 1) / 2
    ensures Size(W, len) == 2 * Size(W, len + 1)
  {
    var s := Size(W, len + 1);
    assert W - len == (W - (len + 1)) + 1;
    var (q, r) := (x / s, x % s);
    var (h, b) := (q / 2, q % 2);
    assert x == q * s + r && q == 2 * h + b;
    assert x == h * (2 * s) + (b * s + r);
    MulMonotone(b, 1, s);
    DivUnique(x, 2 * s, h, b * s + r);
  }

  /** Blocks are nested. */
  lemma {:induction false} Nested(W: nat, x: nat, y: nat, coarse: nat, fine: nat)
    requires coarse <= fine <= W && Block(W, x, fine) == Block(W, y, fine)
    ensures Block(W, x, coarse) == Block(W, y, coarse)
    decreases fine
  {
    if coarse < fine {
      HalfBlock(W, x, fine - 1);
      HalfBlock(W, y, fine - 1);
      Nested(W, x, y, coarse, fine - 1);
    }
  }

  /** Bit i of an address, counted from the last. */
  function Bit(x: nat, i: nat): nat {
    x / Pow2(i) % 2
  }

  /** A prefix covers the addresses whose first `len` bits are its own. */
  lemma {:induction false} CoversBits(W: nat, p: Prefix, x: nat)
    requires p.len <= W && p.net < Pow2(W) && x < Pow2(W)
    ensures Covers(W, p, x) <==> forall i | W - p.len <= i < W :: Bit(x, i) == Bit(p.net, i)
    decreases p.len
  {
    if p.len > 0 {
      var shorter := Prefix(p.net, p.len - 1);
      CoversBits(W, shorter, x);
      HalfBlock(W, x, shorter.len);
      HalfBlock(W, p.net, shorter.len);
      var i := W - p.len;
      assert Block(W, x, p.len) % 2 == Bit(x, i) && Block(W, p.net, p.len) % 2 == Bit(p.net, i);
      assert Block(W, x, p.len) == 2 * Block(W, x, shorter.len) + Bit(x, i);
      assert Block(W, p.net, p.len) == 2 * Block(W, p.net, shorter.len) + Bit(p.net, i);
    } else {
      DivUnique(x, Pow2(W), 0, x);
      DivUnique(p.net, Pow2(W), 0, p.net);
    }
  }

  /** Containment and intersection, in terms of blocks. */
  lemma ContainsIs(W: nat, outer: Prefix, inner: Prefix)
    requires outer.len <= W && inner.len <= W
    ensures Contains(W, outer, inner) <==> outer.len <= inner.len && Covers(W, outer, inner.net)
  {
    SameNetwork(W, outer.net, inner.net, outer.len);
  }

  lemma IntersectsIs(W: nat, e: Prefix, p: Prefix)
    requires e.len <= W && p.len <= W
    ensures Intersects(W, e, p) <==> if e.len <= p.len then Covers(W, e, p.net) else Covers(W, p, e.net)
  {
    SameNetwork(W, e.net, p.net, e.len);
    SameNetwork(W, e.net, p.net, p.len);
  }

  /** Prefixes meet in an address exactly when they intersect. */
  lemma MeetIntersects(W: nat, e: Prefix, p: Prefix, x: nat)
    requires e.len <= W && p.len <= W && Covers(W, e, x) && Covers(W, p, x)
    ensures Intersects(W, e, p)
  {
    IntersectsIs(W, e, p);
    if e.len <= p.len {
      Nested(W, x, p.net, e.len, p.len);
    } else {
      Nested(W, x, e.net, p.len, e.len);
    }
  }

  /** A prefix that contains another covers all its addresses. */
  lemma ContainsCovers(W: nat, outer: Prefix, inner: Prefix, x: nat)
    requires outer.len <= W && inner.len <= W && Contains(W, outer, inner) && Covers(W, inner, x)
    ensures Covers(W, outer, x)
  {
    ContainsIs(W, outer, inner);
    Nested(W, x, inner.net, outer.len, inner.len);
  }

  // ---- The two halves ----

  /** The right half is the odd block, whatever the host bits; the left is the block of the net itself. */
  lemma Halves(W: nat, p: Prefix)
    requires p.len < W
    ensures Block(W, Right(W, p).net, p.len + 1) == 2 * Block(W, p.net, p.len) + 1
    ensures Canonical(W, Right(W, p))
    ensures Block(W, p.net, p.len) == Block(W, p.net, p.len + 1) / 2
  {
    var s := Size(W, p.len + 1);
    HalfBlock(W, p.net, p.len);
    var (q, r) := (p.net / s, p.net % s);
    assert p.net == q * s + r;
    if q % 2 == 0 {
      assert p.net + s == (q + 1) * s + r;
      DivUnique(p.net + s, s, q + 1, r);
    }
    SameNetwork(W, SetBit(p.net, s), SetBit(p.net, s), p.len + 1);
  }

  /** Without host bits the left half is the even block. */
  lemma CanonicalLeft(W: nat, p: Prefix)
    requires p.len < W && Canonical(W, p)
    ensures Canonical(W, Left(p))
    ensures Block(W, p.net, p.len + 1) == 2 * Block(W, p.net, p.len)
    ensures Right(W, p).net == p.net + Size(W, p.len + 1)
  {
    HalfBlock(W, p.net, p.len);
    EvenBlock(p.net, Size(W, p.len + 1));
  }

  lemma EvenBlock(x: nat, s: nat)
    requires s > 0 && x % (2 * s) == 0
    ensures x % s == 0 && x / s == 2 * (x / (2 * s))
    ensures SetBit(x, s) == x + s && (x + s) % s == 0
  {
    var b := x / (2 * s);
    assert x == b * (2 * s) == (2 * b) * s;
    DivUnique(x, s, 2 * b, 0);
    assert x + s == (2 * b + 1) * s;
    DivUnique(x + s, s, 2 * b + 1, 0);
  }

  /** The addresses of a prefix are those of its even and its odd half. */
  lemma CoversHalves(W: nat, p: Prefix, x: nat)
    requires p.len < W
    ensures Covers(W, p, x) <==>
              Block(W, x, p.len + 1) == 2 * Block(W, p.net, p.len) || Covers(W, Right(W, p), x)
  {
    Halves(W, p);
    HalfBlock(W, x, p.len);
  }
}
