/** Subtraction of prefix sets is exact, disjoint, ascending and minimal. */
module CidrProperties {
  import opened Arith
  import opened Cidr

  /** All lengths make sense. */
  predicate Lengths(W: nat, out: seq<Prefix>) {
    forall q | q in out :: q.len <= W
  }

  ghost predicate Covered(W: nat, out: seq<Prefix>, x: nat)
    requires Lengths(W, out)
  {
    exists q :: q in out && Covers(W, q, x)
  }

  ghost predicate Excluded(W: nat, excludes: seq<Prefix>, x: nat)
    requires Excludes(W, excludes)
  {
    exists e :: e in excludes && Covers(W, e, x)
  }

  /** A piece of p: at least as long, inside its block. */
  predicate Inside(W: nat, p: Prefix, q: Prefix) {
    p.len <= q.len <= W && Covers(W, p, q.net)
  }

  lemma InsideTrans(W: nat, p: Prefix, half: Prefix, q: Prefix)
    requires Inside(W, p, half) && Inside(W, half, q)
    ensures Inside(W, p, q)
  {
    Nested(W, q.net, half.net, p.len, half.len);
  }

  lemma InsideCovers(W: nat, p: Prefix, q: Prefix, x: nat)
    requires Inside(W, p, q) && Covers(W, q, x)
    ensures Covers(W, p, x)
  {
    Nested(W, x, q.net, p.len, q.len);
  }

  lemma HalvesInside(W: nat, p: Prefix)
    requires p.len < W
    ensures Inside(W, p, Left(p)) && Inside(W, p, Right(W, p))
  {
    Halves(W, p);
    HalfBlock(W, Right(W, p).net, p.len);
  }

  /** Every output prefix lies inside the route. */
  lemma {:induction false} AllInside(W: nat, p: Prefix, excludes: seq<Prefix>)
    requires p.len <= W && Excludes(W, excludes)
    ensures Lengths(W, SplitSubtract(W, p, excludes))
    ensures forall q | q in SplitSubtract(W, p, excludes) :: Inside(W, p, q)
    decreases W - p.len
  {
    hide Block, Right, FullyExcluded, AnyIntersects;
    if p.len < W {
      AllInside(W, Left(p), excludes);
      AllInside(W, Right(W, p), excludes);
      HalvesInside(W, p);
      forall q | q in SplitSubtract(W, Left(p), excludes) + SplitSubtract(W, Right(W, p), excludes)
        ensures Inside(W, p, q)
      {
        hide Inside;
        if q in SplitSubtract(W, Left(p), excludes) {
          InsideTrans(W, p, Left(p), q);
        } else {
          InsideTrans(W, p, Right(W, p), q);
        }
      }
    }
  }

  /** A prefix that is kept as it is holds no excluded address. */
  lemma LeafIsClean(W: nat, p: Prefix, excludes: seq<Prefix>, x: nat)
    requires p.len <= W && Excludes(W, excludes) && !FullyExcluded(W, p, excludes)
    requires p.len == W || !AnyIntersects(W, p, excludes)
    requires Covers(W, p, x)
    ensures !Excluded(W, excludes, x)
  {
    hide Block;
    forall i | 0 <= i < |excludes| ensures !Covers(W, excludes[i], x) {
      ContainsIs(W, excludes[i], p);
      IntersectsIs(W, excludes[i], p);
      if Covers(W, excludes[i], x) {
        MeetIntersects(W, excludes[i], p, x);
      }
    }
  }

  /** Whatever the host bits, no excluded address is ever routed. */
  lemma {:induction false} NothingExcluded(W: nat, p: Prefix, excludes: seq<Prefix>, x: nat)
    requires p.len <= W && Excludes(W, excludes) && Lengths(W, SplitSubtract(W, p, excludes))
    requires Covered(W, SplitSubtract(W, p, excludes), x)
    ensures Covers(W, p, x) && !Excluded(W, excludes, x)
    decreases W - p.len
  {
    hide Covers, Right, FullyExcluded, AnyIntersects, Excluded, Inside;
    var q :| q in SplitSubtract(W, p, excludes) && Covers(W, q, x);
    AllInside(W, p, excludes);
    InsideCovers(W, p, q, x);
    if FullyExcluded(W, p, excludes) {
    } else if p.len >= W || !AnyIntersects(W, p, excludes) {
      LeafIsClean(W, p, excludes, x);
    } else {
      AllInside(W, Left(p), excludes);
      AllInside(W, Right(W, p), excludes);
      if q in SplitSubtract(W, Left(p), excludes) {
        NothingExcluded(W, Left(p), excludes, x);
      } else {
        NothingExcluded(W, Right(W, p), excludes, x);
      }
    }
  }

  lemma FullyExcludedIsExcluded(W: nat, p: Prefix, excludes: seq<Prefix>, x: nat)
    requires p.len <= W && Excludes(W, excludes) && FullyExcluded(W, p, excludes) && Covers(W, p, x)
    ensures Excluded(W, excludes, x)
  {
    hide Covers, Contains;
    var i :| 0 <= i < |excludes| && excludes[i].len <= p.len && Contains(W, excludes[i], p);
    ContainsCovers(W, excludes[i], p, x);
    assert excludes[i] in excludes;
  }

  /** Every address of the route that is not excluded is routed. */
  ghost predicate Complete(W: nat, p: Prefix, excludes: seq<Prefix>)
    requires p.len <= W && Excludes(W, excludes) && Lengths(W, SplitSubtract(W, p, excludes))
  {
    forall x: nat | Covers(W, p, x) && !Excluded(W, excludes, x) :: Covered(W, SplitSubtract(W, p, excludes), x)
  }

  lemma CoveredParts(W: nat, a: seq<Prefix>, b: seq<Prefix>, x: nat)
    requires Lengths(W, a) && Lengths(W, b)
    ensures Lengths(W, a + b) && (Covered(W, a + b, x) <==> Covered(W, a, x) || Covered(W, b, x))
  {
    hide Covers;
    if q :| q in a && Covers(W, q, x) {
      assert q in a + b;
    }
    if q :| q in b && Covers(W, q, x) {
      assert q in a + b;
    }
  }

  /** One address of the route. */
  lemma {:induction false} CanonicalCovers(W: nat, p: Prefix, excludes: seq<Prefix>, x: nat)
    requires p.len <= W && Excludes(W, excludes) && Lengths(W, SplitSubtract(W, p, excludes)) && Canonical(W, p)
    requires Covers(W, p, x) && !Excluded(W, excludes, x)
    ensures Covered(W, SplitSubtract(W, p, excludes), x)
    decreases W - p.len
  {
    hide Covers, Right, FullyExcluded, AnyIntersects, Excluded, Canonical, Covered;
    if FullyExcluded(W, p, excludes) {
      FullyExcludedIsExcluded(W, p, excludes, x);
    } else if p.len >= W || !AnyIntersects(W, p, excludes) {
      CoveredByItself(W, p, x);
    } else {
      AllInside(W, Left(p), excludes);
      AllInside(W, Right(W, p), excludes);
      CoveredParts(W, SplitSubtract(W, Left(p), excludes), SplitSubtract(W, Right(W, p), excludes), x);
      InOneHalf(W, p, x);
      if Covers(W, Left(p), x) {
        CanonicalCovers(W, Left(p), excludes, x);
      } else {
        CanonicalCovers(W, Right(W, p), excludes, x);
      }
    }
  }

  lemma CoveredByItself(W: nat, p: Prefix, x: nat)
    requires p.len <= W && Covers(W, p, x)
    ensures Lengths(W, [p]) && Covered(W, [p], x)
  {
    assert p in [p];
  }

  lemma InOneHalf(W: nat, p: Prefix, x: nat)
    requires p.len < W && Canonical(W, p)
    ensures Canonical(W, Left(p)) && Canonical(W, Right(W, p))
    ensures Covers(W, p, x) <==> Covers(W, Left(p), x) || Covers(W, Right(W, p), x)
    ensures !(Covers(W, Left(p), x) && Covers(W, Right(W, p), x))
  {
    hide Block, Right, Canonical;
    Halves(W, p);
    CanonicalLeft(W, p);
    CoversHalves(W, p, x);
  }

  /** Exactness: the addresses routed are the route's minus the excluded ones. */
  lemma SubtractionIsExact(W: nat, p: Prefix, excludes: seq<Prefix>, x: nat)
    requires p.len <= W && Excludes(W, excludes) && Canonical(W, p)
    ensures Lengths(W, SplitSubtract(W, p, excludes))
    ensures Covered(W, SplitSubtract(W, p, excludes), x) <==> Covers(W, p, x) && !Excluded(W, excludes, x)
  {
    hide Covers, SplitSubtract, Excluded, Covered, Canonical;
    AllInside(W, p, excludes);
    if Covered(W, SplitSubtract(W, p, excludes), x) {
      NothingExcluded(W, p, excludes, x);
    }
    if Covers(W, p, x) && !Excluded(W, excludes, x) {
      CanonicalCovers(W, p, excludes, x);
    }
  }

  // ---- Routes with host bits ----

  /** All addresses of the even half are excluded. */
  ghost predicate EvenHalfExcluded(W: nat, p: Prefix, excludes: seq<Prefix>)
    requires p.len < W && Excludes(W, excludes)
  {
    forall x: nat | InEvenHalf(W, p, x) :: Excluded(W, excludes, x)
  }

  /**
   Down the left spine, as long as the recursion splits: at the first set host bit the even half, which
   the recursion then never visits, must have been excluded anyway.
   */
  ghost predicate SpineIsClean(W: nat, p: Prefix, excludes: seq<Prefix>)
    requires p.len <= W && Excludes(W, excludes)
    decreases W - p.len
  {
    if FullyExcluded(W, p, excludes) || p.len >= W || !AnyIntersects(W, p, excludes) then true
    else if Block(W, p.net, p.len + 1) % 2 == 0 then SpineIsClean(W, Left(p), excludes)
    else EvenHalfExcluded(W, p, excludes)
  }

  predicate InEvenHalf(W: nat, p: Prefix, x: nat)
    requires p.len < W
  {
    Block(W, x, p.len + 1) == 2 * Block(W, p.net, p.len)
  }

  lemma HalfFacts(W: nat, p: Prefix, x: nat)
    requires p.len < W
    ensures Covers(W, p, x) <==> InEvenHalf(W, p, x) || Covers(W, Right(W, p), x)
    ensures !(InEvenHalf(W, p, x) && Covers(W, Right(W, p), x))
    ensures Block(W, p.net, p.len + 1) % 2 == 0 ==> (Covers(W, Left(p), x) <==> InEvenHalf(W, p, x))
    ensures Block(W, p.net, p.len + 1) % 2 == 1 ==> (Covers(W, Left(p), x) <==> Covers(W, Right(W, p), x))
  {
    hide Block, Right;
    Halves(W, p);
    CoversHalves(W, p, x);
  }

  /** The recursion splits at p. */
  predicate Splits(W: nat, p: Prefix, excludes: seq<Prefix>)
    requires p.len <= W && Excludes(W, excludes)
  {
    !FullyExcluded(W, p, excludes) && p.len < W && AnyIntersects(W, p, excludes)
  }

  /** What is covered after a split, seen from one address. */
  lemma SplitCovers(W: nat, p: Prefix, excludes: seq<Prefix>, x: nat)
    requires p.len <= W && Excludes(W, excludes) && Splits(W, p, excludes)
    ensures Lengths(W, SplitSubtract(W, p, excludes)) && Lengths(W, SplitSubtract(W, Left(p), excludes))
    ensures Lengths(W, SplitSubtract(W, Right(W, p), excludes))
    ensures Covered(W, SplitSubtract(W, p, excludes), x) <==>
              Covered(W, SplitSubtract(W, Left(p), excludes), x) || Covered(W, SplitSubtract(W, Right(W, p), excludes), x)
    ensures Covered(W, SplitSubtract(W, Left(p), excludes), x) ==> Covers(W, Left(p), x)
    ensures Covered(W, SplitSubtract(W, Right(W, p), excludes), x) ==> Covers(W, Right(W, p), x)
    ensures Covers(W, Right(W, p), x) && !Excluded(W, excludes, x) ==>
              Covered(W, SplitSubtract(W, Right(W, p), excludes), x)
  {
    hide Covers, Right, FullyExcluded, AnyIntersects, Excluded, Canonical, Covered;
    AllInside(W, p, excludes);
    AllInside(W, Left(p), excludes);
    AllInside(W, Right(W, p), excludes);
    Halves(W, p);
    CoveredParts(W, SplitSubtract(W, Left(p), excludes), SplitSubtract(W, Right(W, p), excludes), x);
    if Covered(W, SplitSubtract(W, Left(p), excludes), x) {
      NothingExcluded(W, Left(p), excludes, x);
    }
    SubtractionIsExact(W, Right(W, p), excludes, x);
  }

  lemma CompleteByLeft(W: nat, p: Prefix, excludes: seq<Prefix>)
    requires p.len < W && Excludes(W, excludes) && Splits(W, p, excludes)
    requires Block(W, p.net, p.len + 1) % 2 == 0
    requires Lengths(W, SplitSubtract(W, p, excludes)) && Lengths(W, SplitSubtract(W, Left(p), excludes))
    ensures Complete(W, p, excludes) <==> Complete(W, Left(p), excludes)
  {
    hide Covers, Right, Excluded, Covered, Block, SplitSubtract, InEvenHalf, Splits;
    forall x: nat
      ensures Complete(W, p, excludes) && Covers(W, Left(p), x) && !Excluded(W, excludes, x) ==>
                Covered(W, SplitSubtract(W, Left(p), excludes), x)
      ensures Complete(W, Left(p), excludes) && Covers(W, p, x) && !Excluded(W, excludes, x) ==>
                Covered(W, SplitSubtract(W, p, excludes), x)
    {
      HalfFacts(W, p, x);
      SplitCovers(W, p, excludes, x);
    }
  }

  lemma CompleteByEven(W: nat, p: Prefix, excludes: seq<Prefix>)
    requires p.len < W && Excludes(W, excludes) && Splits(W, p, excludes)
    requires Block(W, p.net, p.len + 1) % 2 == 1
    requires Lengths(W, SplitSubtract(W, p, excludes))
    ensures Complete(W, p, excludes) <==> EvenHalfExcluded(W, p, excludes)
  {
    hide Covers, Right, Excluded, Covered, SplitSubtract, Splits;
    forall x: nat
      ensures Complete(W, p, excludes) && InEvenHalf(W, p, x) ==> Excluded(W, excludes, x)
      ensures EvenHalfExcluded(W, p, excludes) && Covers(W, p, x) && !Excluded(W, excludes, x) ==>
                Covered(W, SplitSubtract(W, p, excludes), x)
    {
      HalfFacts(W, p, x);
      SplitCovers(W, p, excludes, x);
    }
  }

  /** For a route that is not canonical the result is complete exactly when its spine is clean. */
  lemma {:induction false} CompleteIff(W: nat, p: Prefix, excludes: seq<Prefix>)
    requires p.len <= W && Excludes(W, excludes)
    ensures Lengths(W, SplitSubtract(W, p, excludes))
    ensures Complete(W, p, excludes) <==> SpineIsClean(W, p, excludes)
    decreases W - p.len
  {
    hide Covers, Right, FullyExcluded, AnyIntersects, Excluded, Canonical, Covered, EvenHalfExcluded, Block;
    AllInside(W, p, excludes);
    if FullyExcluded(W, p, excludes) {
      forall x: nat | Covers(W, p, x) ensures Excluded(W, excludes, x) {
        FullyExcludedIsExcluded(W, p, excludes, x);
      }
    } else if p.len >= W || !AnyIntersects(W, p, excludes) {
      forall x: nat | Covers(W, p, x) ensures Covered(W, [p], x) {
        CoveredByItself(W, p, x);
      }
    } else {
      AllInside(W, Left(p), excludes);
      AllInside(W, Right(W, p), excludes);
      if Block(W, p.net, p.len + 1) % 2 == 0 {
        CompleteIff(W, Left(p), excludes);
        CompleteByLeft(W, p, excludes);
      } else {
        CompleteByEven(W, p, excludes);
      }
    }
  }

  // ---- Order ----

  /** Each prefix ends before the next begins. */
  predicate Ascending(W: nat, out: seq<Prefix>)
    requires Lengths(W, out)
  {
    forall i, j | 0 <= i < j < |out| :: out[i].net + Size(W, out[i].len) <= out[j].net
  }

  /** A canonical prefix is an interval. */
  lemma CanonicalInterval(W: nat, p: Prefix, x: nat)
    requires p.len <= W && Canonical(W, p)
    ensures Covers(W, p, x) <==> p.net <= x < p.net + Size(W, p.len)
  {
    var s := Size(W, p.len);
    var b := p.net / s;
    assert p.net == b * s && x == x / s * s + x % s;
    if p.net <= x < p.net + s {
      DivUnique(x, s, b, x - p.net);
    }
  }

  predicate Between(W: nat, lo: nat, hi: nat, q: Prefix) {
    q.len <= W && Canonical(W, q) && lo <= q.net && q.net + Size(W, q.len) <= hi
  }

  /** Prefixes that ascend have no address in common. */
  lemma AscendingDisjoint(W: nat, out: seq<Prefix>, i: nat, j: nat, x: nat)
    requires Lengths(W, out) && Ascending(W, out) && i < j < |out|
    requires Canonical(W, out[i]) && Canonical(W, out[j])
    ensures !(Covers(W, out[i], x) && Covers(W, out[j], x))
  {
    hide Covers, Canonical, Size;
    CanonicalInterval(W, out[i], x);
    CanonicalInterval(W, out[j], x);
  }

  /** For a canonical route the output is canonical, inside its interval, ascending, and disjoint. */
  lemma SubtractionAscends(W: nat, p: Prefix, excludes: seq<Prefix>)
    requires p.len <= W && Excludes(W, excludes) && Canonical(W, p)
    ensures var out := SplitSubtract(W, p, excludes);
            && Lengths(W, out) && Ascending(W, out)
            && (forall q | q in out :: Between(W, p.net, p.net + Size(W, p.len), q))
            && forall i, j, x: nat | 0 <= i < j < |out| :: !(Covers(W, out[i], x) && Covers(W, out[j], x))
  {
    hide Covers, Canonical, Size, SplitSubtract;
    IntervalsAscend(W, p, excludes);
    var out := SplitSubtract(W, p, excludes);
    forall i, j, x: nat | 0 <= i < j < |out| ensures !(Covers(W, out[i], x) && Covers(W, out[j], x)) {
      assert out[i] in out && out[j] in out;
      AscendingDisjoint(W, out, i, j, x);
    }
  }

  lemma {:induction false} IntervalsAscend(W: nat, p: Prefix, excludes: seq<Prefix>)
    requires p.len <= W && Excludes(W, excludes) && Canonical(W, p)
    ensures Lengths(W, SplitSubtract(W, p, excludes)) && Ascending(W, SplitSubtract(W, p, excludes))
    ensures forall q | q in SplitSubtract(W, p, excludes) :: Between(W, p.net, p.net + Size(W, p.len), q)
    decreases W - p.len
  {
    hide Covers, Right, FullyExcluded, AnyIntersects, Canonical, Size;
    AllInside(W, p, excludes);
    if Splits(W, p, excludes) {
      CanonicalLeft(W, p);
      Halves(W, p);
      HalfBlock(W, p.net, p.len);
      IntervalsAscend(W, Left(p), excludes);
      IntervalsAscend(W, Right(W, p), excludes);
      AscendingParts(W, SplitSubtract(W, Left(p), excludes), SplitSubtract(W, Right(W, p), excludes),
                     p.net, p.net + Size(W, p.len + 1), p.net + Size(W, p.len));
    }
  }

  lemma AscendingParts(W: nat, a: seq<Prefix>, b: seq<Prefix>, lo: nat, mid: nat, hi: nat)
    requires Lengths(W, a) && Lengths(W, b) && Ascending(W, a) && Ascending(W, b) && lo <= mid <= hi
    requires forall q | q in a :: Between(W, lo, mid, q)
    requires forall q | q in b :: Between(W, mid, hi, q)
    ensures Lengths(W, a + b) && Ascending(W, a + b)
    ensures forall q | q in a + b :: Between(W, lo, hi, q)
  {
    hide Size, Canonical;
    forall i, j | 0 <= i < j < |a + b| ensures (a + b)[i].net + Size(W, (a + b)[i].len) <= (a + b)[j].net {
      if j >= |a| {
        assert b[j - |a|] in b;
      }
      if i < |a| {
        assert a[i] in a;
      }
    }
  }

  // ---- Minimality ----

  /** Two prefixes that together are one shorter prefix. */
  predicate Siblings(W: nat, a: Prefix, b: Prefix) {
    && 0 < a.len == b.len <= W
    && Block(W, a.net, a.len - 1) == Block(W, b.net, a.len - 1)
    && Block(W, a.net, a.len) != Block(W, b.net, a.len)
  }

  /** Some address of a prefix that the recursion splits is excluded. */
  lemma SplitHasExcluded(W: nat, p: Prefix, excludes: seq<Prefix>) returns (x: nat)
    requires p.len <= W && Excludes(W, excludes) && Splits(W, p, excludes)
    ensures Covers(W, p, x) && Excluded(W, excludes, x)
  {
    hide Block;
    var i :| 0 <= i < |excludes| && Intersects(W, excludes[i], p);
    IntersectsIs(W, excludes[i], p);
    ContainsIs(W, excludes[i], p);
    x := excludes[i].net;
    assert excludes[i] in excludes && Covers(W, excludes[i], x);
  }

  /** Siblings from different halves are the two halves themselves. */
  lemma SiblingsAcross(W: nat, p: Prefix, a: Prefix, b: Prefix)
    requires p.len < W && Inside(W, Left(p), a) && Inside(W, Right(W, p), b) && Siblings(W, a, b) && Canonical(W, p)
    ensures a.len == p.len + 1
  {
    hide Block, Right, Canonical;
    if a.len > p.len + 1 {
      Nested(W, a.net, b.net, p.len + 1, a.len - 1);
      Halves(W, p);
      CanonicalLeft(W, p);
    }
  }

  /** A prefix inside one of its own length covers all of it. */
  lemma SameLengthCovers(W: nat, p: Prefix, q: Prefix, x: nat)
    requires Inside(W, p, q) && q.len == p.len && Covers(W, p, x)
    ensures Covers(W, q, x)
  {}

  /** No two output prefixes could have been one: that block would have been kept whole. */
  lemma {:induction false} SubtractionIsMinimal(W: nat, p: Prefix, excludes: seq<Prefix>, a: Prefix, b: Prefix)
    requires p.len <= W && Excludes(W, excludes) && Canonical(W, p)
    requires a in SplitSubtract(W, p, excludes) && b in SplitSubtract(W, p, excludes)
    ensures !Siblings(W, a, b)
    decreases W - p.len
  {
    hide Covers, Right, FullyExcluded, AnyIntersects, Canonical, Block, Siblings, Inside;
    if Splits(W, p, excludes) {
      var (l, r) := (SplitSubtract(W, Left(p), excludes), SplitSubtract(W, Right(W, p), excludes));
      Halves(W, p);
      CanonicalLeft(W, p);
      AllInside(W, Left(p), excludes);
      AllInside(W, Right(W, p), excludes);
      if a in l && b in l {
        SubtractionIsMinimal(W, Left(p), excludes, a, b);
      } else if a in r && b in r {
        SubtractionIsMinimal(W, Right(W, p), excludes, a, b);
      } else if Siblings(W, a, b) {
        var (c, d) := if a in l then (a, b) else (b, a);
        SiblingsSwap(W, a, b);
        SiblingsAcross(W, p, c, d);
        NotBothHalves(W, p, excludes, c, d);
      }
    } else {
      OneIsNoSibling(W, p);
    }
  }

  lemma SiblingsSwap(W: nat, a: Prefix, b: Prefix)
    requires Siblings(W, a, b)
    ensures Siblings(W, b, a) && a.len == b.len
  {}

  lemma OneIsNoSibling(W: nat, p: Prefix)
    ensures !Siblings(W, p, p)
  {}

  lemma NotBothHalves(W: nat, p: Prefix, excludes: seq<Prefix>, a: Prefix, b: Prefix)
    requires p.len <= W && Excludes(W, excludes) && Splits(W, p, excludes) && Canonical(W, p)
    requires Inside(W, Left(p), a) && Inside(W, Right(W, p), b) && a.len == p.len + 1 == b.len
    requires a in SplitSubtract(W, p, excludes)
    ensures b !in SplitSubtract(W, p, excludes)
  {
    hide Covers, Right, SplitSubtract, Excluded, Canonical, Inside;
    var x := SplitHasExcluded(W, p, excludes);
    InOneHalf(W, p, x);
    SubtractionIsExact(W, p, excludes, x);
    var out := SplitSubtract(W, p, excludes);
    if Covers(W, Left(p), x) {
      SameLengthCovers(W, Left(p), a, x);
    } else {
      SameLengthCovers(W, Right(W, p), b, x);
    }
  }

  // ---- Size ----

  /** The bits by which an exclude inside p is longer than p. */
  function Depth(W: nat, p: Prefix, e: Prefix): nat
    requires p.len <= W && e.len <= W
  {
    if e.len > p.len && Intersects(W, e, p) then e.len - p.len else 0
  }

  function Depths(W: nat, p: Prefix, excludes: seq<Prefix>): nat
    requires p.len <= W && Excludes(W, excludes)
  {
    if excludes == [] then 0
    else
      var last := |excludes| - 1;
      assert excludes[last] in excludes;
      Depths(W, p, excludes[..last]) + Depth(W, p, excludes[last])
  }

  /** Halving makes every exclude inside one bit shallower, and leaves it in one half. */
  lemma DepthHalves(W: nat, p: Prefix, e: Prefix)
    requires p.len < W && e.len <= W && Canonical(W, p) && !Contains(W, e, p)
    ensures Depth(W, Left(p), e) + Depth(W, Right(W, p), e) + (if Intersects(W, e, p) then 1 else 0) == Depth(W, p, e)
  {
    hide Covers, Right, Canonical, Intersects, Contains;
    ContainsIs(W, e, p);
    IntersectsIs(W, e, p);
    IntersectsIs(W, e, Left(p));
    IntersectsIs(W, e, Right(W, p));
    InOneHalf(W, p, e.net);
  }

  lemma {:induction false} DepthsHalve(W: nat, p: Prefix, excludes: seq<Prefix>)
    requires p.len < W && Excludes(W, excludes) && Canonical(W, p)
    requires forall i | 0 <= i < |excludes| :: !Contains(W, excludes[i], p)
    ensures Depths(W, Left(p), excludes) + Depths(W, Right(W, p), excludes)
            + (if AnyIntersects(W, p, excludes) then 1 else 0) <= Depths(W, p, excludes)
    decreases |excludes|
  {
    hide Depth, Right, Canonical, Intersects, Contains;
    if excludes != [] {
      var last := |excludes| - 1;
      DepthsHalve(W, p, excludes[..last]);
      DepthHalves(W, p, excludes[last]);
    }
  }

  /** One prefix, and one more for every bit of depth of an exclude inside. */
  lemma {:induction false} SubtractionIsSmall(W: nat, p: Prefix, excludes: seq<Prefix>)
    requires p.len <= W && Excludes(W, excludes) && Canonical(W, p)
    ensures |SplitSubtract(W, p, excludes)| <= 1 + Depths(W, p, excludes)
    decreases W - p.len
  {
    hide Depths, Right, Canonical, Intersects;
    if Splits(W, p, excludes) {
      Halves(W, p);
      CanonicalLeft(W, p);
      NoneContains(W, p, excludes);
      SubtractionIsSmall(W, Left(p), excludes);
      SubtractionIsSmall(W, Right(W, p), excludes);
      DepthsHalve(W, p, excludes);
    }
  }

  lemma NoneContains(W: nat, p: Prefix, excludes: seq<Prefix>)
    requires p.len <= W && Excludes(W, excludes) && !FullyExcluded(W, p, excludes)
    ensures forall i | 0 <= i < |excludes| :: !Contains(W, excludes[i], p)
  {}

  // ---- A route with host bits ----

  lemma HostBlocks()
    ensures Block(32, 0x8000_0000, 0) == 0 && Block(32, 0xc000_0000, 0) == 0
    ensures Block(32, 0x8000_0000, 1) == 1 && Block(32, 0, 1) == 0
    ensures Block(32, 0x8000_0000, 2) == 2 && Block(32, 0xc000_0000, 2) == 3 && Block(32, 0, 2) == 0
    ensures !Canonical(32, Prefix(0x8000_0000, 0))
  {
    BigSizes();
    hide Size, Pow2;
  }

  lemma HostBitsSplit()
    ensures var (p, excludes) := (Prefix(0x8000_0000, 0), [Prefix(0xc000_0000, 2)]);
            && Excludes(32, excludes) && Splits(32, p, excludes) && !Canonical(32, p)
            && Block(32, p.net, 1) % 2 == 1 && InEvenHalf(32, p, 0) && !Excluded(32, excludes, 0)
  {
    HostBlocks();
    hide Block, Canonical, Contains, Intersects;
    var (p, e) := (Prefix(0x8000_0000, 0), Prefix(0xc000_0000, 2));
    ContainsIs(32, e, p);
    IntersectsIs(32, e, p);
    assert [e][0] == e;
    assert Covers(32, p, e.net);
    assert !Covers(32, e, 0);
  }

  /** 128.0.0.0/0 without 192.0.0.0/2: address 0.0.0.0 is not excluded and yet not routed. */
  lemma HostBitsLoseRoutes()
    ensures var (p, excludes) := (Prefix(0x8000_0000, 0), [Prefix(0xc000_0000, 2)]);
            && Excludes(32, excludes) && Lengths(32, SplitSubtract(32, p, excludes))
            && !Canonical(32, p) && !Complete(32, p, excludes)
  {
    var (p, excludes) := (Prefix(0x8000_0000, 0), [Prefix(0xc000_0000, 2)]);
    HostBitsSplit();
    hide Size, Pow2, Block, Canonical, Complete, Excluded, InEvenHalf, SplitSubtract, FullyExcluded, AnyIntersects;
    CompleteIff(32, p, excludes);
    assert !EvenHalfExcluded(32, p, excludes);
  }

  lemma BigSizes()
    ensures Size(32, 0) == 0x1_0000_0000 && Size(32, 1) == 0x8000_0000 && Size(32, 2) == 0x4000_0000
  {
    assert Pow2(8) == 0x100;
    assert Pow2(16) == 0x1_0000 by { Pow2Add(8, 8); }
    assert Pow2(30) == 0x4000_0000 by { assert Pow2(14) == 0x4000; Pow2Add(16, 14); }
  }

  lemma {:induction false} Pow2Add(a: nat, b: nat)
    ensures Pow2(a + b) == Pow2(a) * Pow2(b)
  {
    if b > 0 {
      Pow2Add(a, b - 1);
      assert Pow2(a) * (2 * Pow2(b - 1)) == 2 * (Pow2(a) * Pow2(b - 1));
    }
  }
}
