/** Which user ids bypass the tunnel: merging, subtracting and complementing ranges of u32. */
module Uid {
  import opened Bytes

  const U32_MAX := 0xffff_ffff
  const UID_MAX := 0xffff_fffe

  /** Both ends included. */
  datatype Range = Range(lo: u32, hi: u32)

  predicate Has(r: Range, u: int) {
    r.lo <= u <= r.hi
  }

  predicate InRanges(rs: seq<Range>, u: int) {
    exists k | 0 <= k < |rs| :: Has(rs[k], u)
  }

  predicate Proper(rs: seq<Range>) {
    forall k | 0 <= k < |rs| :: rs[k].lo <= rs[k].hi
  }

  /** Ascending, with at least one number between neighbours. */
  predicate Gapped(rs: seq<Range>) {
    && Proper(rs)
    && forall i, j | 0 <= i < j < |rs| :: rs[i].hi + 1 < rs[j].lo
  }

  predicate Before(a: Range, b: Range) {
    a.lo < b.lo || (a.lo == b.lo && a.hi <= b.hi)
  }

  function SaturatingSucc(x: u32): u32 {
    if x == U32_MAX then x else x + 1
  }

  lemma InConcat(a: seq<Range>, b: seq<Range>, u: int)
    ensures InRanges(a + b, u) <==> InRanges(a, u) || InRanges(b, u)
  {
    if k :| 0 <= k < |a| && Has(a[k], u) {
      assert Has((a + b)[k], u);
    }
    if k :| 0 <= k < |b| && Has(b[k], u) {
      assert Has((a + b)[|a| + k], u);
    }
  }

  // ---- Sorting ----

  predicate Sorted(rs: seq<Range>) {
    forall i, j | 0 <= i < j < |rs| :: Before(rs[i], rs[j])
  }

  function Insert(r: Range, rs: seq<Range>): seq<Range> {
    if rs == [] || Before(r, rs[0]) then [r] + rs else [rs[0]] + Insert(r, rs[1..])
  }

  /** `sort_unstable` */
  function Sort(rs: seq<Range>): seq<Range> {
    if rs == [] then [] else Insert(rs[0], Sort(rs[1..]))
  }

  lemma {:induction false} InsertElements(r: Range, rs: seq<Range>)
    ensures multiset(Insert(r, rs)) == multiset(rs) + multiset{r}
  {
    if rs != [] && !Before(r, rs[0]) {
      InsertElements(r, rs[1..]);
      assert rs == [rs[0]] + rs[1..];
    }
  }

  lemma {:induction false} InsertSorted(r: Range, rs: seq<Range>)
    requires Sorted(rs)
    ensures Sorted(Insert(r, rs))
  {
    if rs != [] && !Before(r, rs[0]) {
      InsertSorted(r, rs[1..]);
      InsertElements(r, rs[1..]);
      var more := Insert(r, rs[1..]);
      forall k | 0 <= k < |more| ensures Before(rs[0], more[k]) {
        assert more[k] in multiset(more);
        assert more[k] == r || more[k] in rs[1..];
      }
    }
  }

  lemma {:induction false} SortIs(rs: seq<Range>)
    ensures Sorted(Sort(rs)) && multiset(Sort(rs)) == multiset(rs)
  {
    if rs != [] {
      SortIs(rs[1..]);
      InsertElements(rs[0], Sort(rs[1..]));
      InsertSorted(rs[0], Sort(rs[1..]));
      assert rs == [rs[0]] + rs[1..];
    }
  }

  lemma SortKeeps(rs: seq<Range>)
    ensures Sorted(Sort(rs)) && (Proper(rs) ==> Proper(Sort(rs)))
    ensures forall u :: InRanges(Sort(rs), u) <==> InRanges(rs, u)
  {
    SortIs(rs);
    SameElements(rs, Sort(rs));
    SameElements(Sort(rs), rs);
  }

  lemma SameElements(a: seq<Range>, b: seq<Range>)
    requires multiset(a) == multiset(b)
    ensures Proper(a) ==> Proper(b)
    ensures forall u | InRanges(a, u) :: InRanges(b, u)
  {
    forall k | 0 <= k < |b| ensures exists j :: 0 <= j < |a| && a[j] == b[k] {
      assert b[k] in multiset(b);
    }
    forall k | 0 <= k < |a| ensures exists j :: 0 <= j < |b| && b[j] == a[k] {
      assert a[k] in multiset(a);
    }
  }

  // ---- The three operations ----

  /** `merge_ranges`: the same numbers, in ranges that cannot be joined. */
  method MergeRanges(ranges: seq<Range>) returns (merged: seq<Range>)
    requires Proper(ranges)
    ensures Gapped(merged) && (merged == [] <==> ranges == [])
    ensures forall u :: InRanges(merged, u) <==> InRanges(ranges, u)
  {
    if ranges == [] {
      return ranges;
    }
    var sorted := Sort(ranges);
    SortedFacts(ranges);
    merged := [sorted[0]];
    MergeStart(sorted);
    for i := 1 to |sorted|
      invariant Merging(merged, sorted, i)
    {
      hide Merging, Sorted, Gapped, InRanges, Proper;
      MergeStep(merged, sorted, i);
      var last := |merged| - 1;
      var r := sorted[i];
      if r.lo <= SaturatingSucc(merged[last].hi) {
        var hi := if r.hi > merged[last].hi then r.hi else merged[last].hi;
        merged := merged[last := Range(merged[last].lo, hi)];
      } else {
        merged := merged + [r];
      }
    }
    assert sorted[..|sorted|] == sorted;
  }

  lemma SortedFacts(ranges: seq<Range>)
    requires Proper(ranges) && ranges != []
    ensures var sorted := Sort(ranges);
            && sorted != [] && Sorted(sorted) && Proper(sorted)
            && forall u :: InRanges(sorted, u) <==> InRanges(ranges, u)
  {
    SortIs(ranges);
    SortKeeps(ranges);
    assert |multiset(Sort(ranges))| == |multiset(ranges)|;
  }

  /** The first i ranges are merged; the last result starts no later than the last range read. */
  ghost predicate Merging(merged: seq<Range>, sorted: seq<Range>, i: nat) {
    && 0 < i <= |sorted| && merged != [] && Gapped(merged)
    && merged[|merged| - 1].lo <= sorted[i - 1].lo
    && forall u :: InRanges(merged, u) <==> InRanges(sorted[..i], u)
  }

  lemma MergeStart(sorted: seq<Range>)
    requires sorted != [] && Proper(sorted)
    ensures Merging([sorted[0]], sorted, 1)
  {
    assert sorted[..1] == [sorted[0]];
  }

  /** What one round of the loop makes of the ranges so far. */
  function Joined(merged: seq<Range>, r: Range): seq<Range>
    requires merged != []
  {
    var last := |merged| - 1;
    if r.lo <= SaturatingSucc(merged[last].hi) then
      merged[last := Range(merged[last].lo, if r.hi > merged[last].hi then r.hi else merged[last].hi)]
    else merged + [r]
  }

  lemma MergeStep(merged: seq<Range>, sorted: seq<Range>, i: nat)
    requires i < |sorted| && Sorted(sorted) && Proper(sorted) && Merging(merged, sorted, i)
    ensures merged != [] && Merging(Joined(merged, sorted[i]), sorted, i + 1)
  {
    var r := sorted[i];
    assert Before(sorted[i - 1], r);
    hide Sorted;
    if r.lo <= SaturatingSucc(merged[|merged| - 1].hi) {
      JoinLast(merged, r, Joined(merged, r));
    } else {
      InAppended(merged, r);
    }
    assert sorted[..i + 1] == sorted[..i] + [r];
    InAppended(sorted[..i], r);
  }

  lemma InAppended(rs: seq<Range>, r: Range)
    ensures forall u :: InRanges(rs + [r], u) <==> InRanges(rs, u) || Has(r, u)
  {
    forall u ensures InRanges(rs + [r], u) <==> InRanges(rs, u) || Has(r, u) {
      InConcat(rs, [r], u);
      assert Has([r][0], u) <==> Has(r, u);
    }
  }

  /** Growing the last range to take in one that starts inside it or right behind it. */
  lemma JoinLast(was: seq<Range>, r: Range, now: seq<Range>)
    requires was != [] && Proper(was) && r.lo <= r.hi
    requires var last := was[|was| - 1];
             && last.lo <= r.lo <= SaturatingSucc(last.hi)
             && now == was[|was| - 1 := Range(last.lo, if r.hi > last.hi then r.hi else last.hi)]
    ensures forall u :: InRanges(now, u) <==> InRanges(was, u) || Has(r, u)
  {
    var l := |was| - 1;
    forall u ensures InRanges(now, u) <==> InRanges(was, u) || Has(r, u) {
      assert Has(now[l], u) <==> Has(was[l], u) || Has(r, u);
      assert forall k | 0 <= k < l :: now[k] == was[k];
      if k :| 0 <= k < |was| && Has(was[k], u) {
        assert Has(now[k], u);
      }
    }
  }

  /** What one subtracted range leaves of one range. */
  function Remains(r: Range, s: Range): (out: seq<Range>)
    requires r.lo <= r.hi && s.lo <= s.hi
    ensures Gapped(out) && forall k | 0 <= k < |out| :: r.lo <= out[k].lo && out[k].hi <= r.hi
  {
    if s.hi < r.lo || s.lo > r.hi then [r]
    else (if r.lo < s.lo then [Range(r.lo, s.lo - 1)] else []) + (if r.hi > s.hi then [Range(s.hi + 1, r.hi)] else [])
  }

  lemma RemainsIs(r: Range, s: Range, u: int)
    requires r.lo <= r.hi && s.lo <= s.hi
    ensures InRanges(Remains(r, s), u) <==> Has(r, u) && !Has(s, u)
  {
    var out := Remains(r, s);
    if Has(r, u) && !Has(s, u) {
      if s.hi < r.lo || s.lo > r.hi || u < s.lo {
        assert Has(out[0], u);
      } else {
        assert Has(out[|out| - 1], u);
      }
    }
  }

  /** Appending pieces that start behind everything so far. */
  lemma GappedAppend(done: seq<Range>, more: seq<Range>, lo: int)
    requires Gapped(done) && Gapped(more)
    requires forall k | 0 <= k < |done| :: done[k].hi + 1 < lo
    requires forall k | 0 <= k < |more| :: lo <= more[k].lo
    ensures Gapped(done + more)
  {}

  /** `subtract_ranges`: of the numbers in `base`, those not in `sub`; gaps are kept. */
  method SubtractRanges(base: seq<Range>, sub: seq<Range>) returns (result: seq<Range>)
    requires Gapped(base) && Proper(sub)
    ensures Gapped(result)
    ensures forall u :: InRanges(result, u) <==> InRanges(base, u) && !InRanges(sub, u)
  {
    result := base;
    for i := 0 to |sub|
      invariant Gapped(result)
      invariant forall u :: InRanges(result, u) <==> InRanges(base, u) && !InRanges(sub[..i], u)
    {
      var s := sub[i];
      var next := SubtractOne(result, s);
      assert sub[..i + 1] == sub[..i] + [s];
      InAppended(sub[..i], s);
      result := next;
    }
    assert sub[..|sub|] == sub;
  }

  /** The inner loop of `subtract_ranges`. */
  method SubtractOne(ranges: seq<Range>, s: Range) returns (next: seq<Range>)
    requires Gapped(ranges) && s.lo <= s.hi
    ensures Gapped(next)
    ensures forall u :: InRanges(next, u) <==> InRanges(ranges, u) && !Has(s, u)
  {
    next := [];
    for i := 0 to |ranges|
      invariant Gapped(next)
      invariant forall u :: InRanges(next, u) <==> InRanges(ranges[..i], u) && !Has(s, u)
      invariant forall k, j | 0 <= k < |next| && i <= j < |ranges| :: next[k].hi + 1 < ranges[j].lo
    {
      var r := ranges[i];
      ghost var before := next;
      GappedAppend(next, Remains(r, s), r.lo);
      if s.hi < r.lo || s.lo > r.hi {
        next := next + [r];
      } else {
        if r.lo < s.lo {
          next := next + [Range(r.lo, s.lo - 1)];
        }
        if r.hi > s.hi {
          next := next + [Range(s.hi + 1, r.hi)];
        }
      }
      assert next == before + Remains(r, s);
      assert ranges[..i + 1] == ranges[..i] + [r];
      InAppended(ranges[..i], r);
      forall u ensures InRanges(next, u) <==> InRanges(ranges[..i + 1], u) && !Has(s, u) {
        InConcat(before, Remains(r, s), u);
        RemainsIs(r, s, u);
      }
    }
    assert ranges[..|ranges|] == ranges;
  }

  /** `complement_ranges`: the numbers from lo to hi that are in no range. */
  method ComplementRanges(ranges: seq<Range>, lo: u32, hi: u32) returns (result: seq<Range>)
    requires Gapped(ranges) && hi < U32_MAX
    requires forall k | 0 <= k < |ranges| :: lo <= ranges[k].lo <= hi + 1
    ensures Gapped(result)
    ensures forall u :: InRanges(result, u) <==> lo <= u <= hi && !InRanges(ranges, u)
  {
    result := [];
    var cur: u32 := lo;
    NoneAbove(ranges, 0);
    for i := 0 to |ranges|
      invariant lo <= cur && Gapped(result)
      invariant forall k | 0 <= k < |result| :: result[k].hi + 1 < cur || cur > hi
      invariant i < |ranges| ==> (i > 0 ==> cur < ranges[i].lo) && cur <= ranges[i].lo
      invariant if i > 0 then cur == SaturatingSucc(ranges[i - 1].hi) else cur == lo
      invariant Complements(result, ranges[..i], lo, cur, hi)
    {
      var r := ranges[i];
      ghost var (before, at) := (result, cur);
      if cur < r.lo {
        result := result + [Range(cur, r.lo - 1)];
      }
      cur := SaturatingSucc(r.hi);
      ComplementsMore(before, ranges, i, lo, at, hi, result, cur);
    }
    assert ranges[..|ranges|] == ranges;
    ghost var before := result;
    if cur <= hi {
      result := result + [Range(cur, hi)];
    }
    ComplementsAll(before, ranges, lo, cur, hi, result);
  }

  /** The ids from lo up to `cur` and no higher than hi that are in no range. */
  ghost predicate Complements(result: seq<Range>, ranges: seq<Range>, lo: u32, cur: u32, hi: u32) {
    forall u :: InRanges(result, u) <==> lo <= u < cur && u <= hi && !InRanges(ranges, u)
  }

  lemma ComplementsMore(before: seq<Range>, ranges: seq<Range>, i: nat, lo: u32, cur: u32, hi: u32,
                        result: seq<Range>, cur': u32)
    requires i < |ranges| && Gapped(ranges) && hi < U32_MAX && lo <= cur <= ranges[i].lo <= hi + 1
    requires Complements(before, ranges[..i], lo, cur, hi) && cur' == SaturatingSucc(ranges[i].hi)
    requires i > 0 ==> cur == SaturatingSucc(ranges[i - 1].hi)
    requires result == if cur < ranges[i].lo then before + [Range(cur, ranges[i].lo - 1)] else before
    ensures Complements(result, ranges[..i + 1], lo, cur', hi)
  {
    hide InRanges;
    var r := ranges[i];
    assert ranges[..i + 1] == ranges[..i] + [r];
    InAppended(ranges[..i], r);
    NoneAbove(ranges, i);
    if cur < r.lo {
      InAppended(before, Range(cur, r.lo - 1));
    }
  }

  lemma ComplementsAll(before: seq<Range>, ranges: seq<Range>, lo: u32, cur: u32, hi: u32, result: seq<Range>)
    requires Gapped(ranges) && Complements(before, ranges, lo, cur, hi) && lo <= cur && hi < U32_MAX
    requires if |ranges| > 0 then cur == SaturatingSucc(ranges[|ranges| - 1].hi) else cur == lo
    requires result == if cur <= hi then before + [Range(cur, hi)] else before
    ensures forall u :: InRanges(result, u) <==> lo <= u <= hi && !InRanges(ranges, u)
  {
    hide InRanges;
    NoneAbove(ranges, |ranges|);
    assert ranges[..|ranges|] == ranges;
    if cur <= hi {
      InAppended(before, Range(cur, hi));
    }
  }

  /** Ranges seen so far lie below the next one. */
  lemma NoneAbove(ranges: seq<Range>, i: nat)
    requires Gapped(ranges) && i <= |ranges|
    ensures i > 0 ==> forall u | u > ranges[i - 1].hi :: !InRanges(ranges[..i], u)
    ensures i < |ranges| ==> forall u | u >= ranges[i].lo :: !InRanges(ranges[..i], u)
    ensures i == 0 ==> forall u :: !InRanges(ranges[..i], u)
  {}

  // ---- The configuration ----

  /** Single ids and pairs as written; a pair whose ends are swapped is dropped by the parser. */
  datatype UidConfig = UidConfig(uids: seq<u32>, ranges: seq<(u32, u32)>)

  ghost predicate Named(c: UidConfig, u: int) {
    || (exists k | 0 <= k < |c.uids| :: c.uids[k] == u)
    || (exists k | 0 <= k < |c.ranges| :: c.ranges[k].0 <= u <= c.ranges[k].1)
  }

  /** `Vec::dedup` */
  function Dedup(rs: seq<Range>): seq<Range> {
    if |rs| < 2 then rs
    else if rs[0] == rs[1] then Dedup(rs[1..])
    else [rs[0]] + Dedup(rs[1..])
  }

  lemma {:induction false} DedupKeeps(rs: seq<Range>)
    ensures forall r :: r in Dedup(rs) <==> r in rs
  {
    if |rs| >= 2 {
      DedupKeeps(rs[1..]);
      assert rs == [rs[0]] + rs[1..];
      assert rs[1] in rs[1..];
    }
  }

  lemma SameRanges(a: seq<Range>, b: seq<Range>)
    requires forall r :: r in a <==> r in b
    ensures Proper(a) <==> Proper(b)
    ensures forall u :: InRanges(a, u) <==> InRanges(b, u)
  {
    forall k | 0 <= k < |a| ensures exists j :: 0 <= j < |b| && b[j] == a[k] {
      assert a[k] in b;
    }
    forall k | 0 <= k < |b| ensures exists j :: 0 <= j < |a| && a[j] == b[k] {
      assert b[k] in a;
    }
  }

  /** `merge_uid_list_and_ranges` */
  method MergeUidListAndRanges(c: UidConfig) returns (merged: seq<Range>)
    ensures Gapped(merged)
    ensures forall u :: InRanges(merged, u) <==> Named(c, u)
  {
    var out := [];
    for i := 0 to |c.uids|
      invariant Proper(out) && forall u :: InRanges(out, u) <==> Named(UidConfig(c.uids[..i], []), u)
    {
      InAppended(out, Range(c.uids[i], c.uids[i]));
      NamedOneMoreUid(c, i);
      out := out + [Range(c.uids[i], c.uids[i])];
    }
    assert c.uids[..|c.uids|] == c.uids;
    assert c.ranges[..0] == [];
    for i := 0 to |c.ranges|
      invariant Proper(out) && forall u :: InRanges(out, u) <==> Named(UidConfig(c.uids, c.ranges[..i]), u)
    {
      var (lo, hi) := c.ranges[i];
      NamedOneMoreRange(c, i);
      if lo <= hi {
        InAppended(out, Range(lo, hi));
        out := out + [Range(lo, hi)];
      }
    }
    assert c.ranges[..|c.ranges|] == c.ranges;
    SortKeeps(out);
    DedupKeeps(Sort(out));
    SameRanges(Sort(out), Dedup(Sort(out)));
    merged := MergeRanges(Dedup(Sort(out)));
  }

  lemma NamedOneMoreUid(c: UidConfig, i: nat)
    requires i < |c.uids|
    ensures forall u :: Named(UidConfig(c.uids[..i + 1], []), u) <==>
                          Named(UidConfig(c.uids[..i], []), u) || Has(Range(c.uids[i], c.uids[i]), u)
  {
    assert c.uids[..i + 1][i] == c.uids[i];
    assert forall k | 0 <= k < i :: c.uids[..i + 1][k] == c.uids[..i][k];
  }

  lemma NamedOneMoreRange(c: UidConfig, i: nat)
    requires i < |c.ranges|
    ensures forall u :: Named(UidConfig(c.uids, c.ranges[..i + 1]), u) <==>
                          Named(UidConfig(c.uids, c.ranges[..i]), u) || c.ranges[i].0 <= u <= c.ranges[i].1
  {
    var (some, more) := (c.ranges[..i], c.ranges[..i + 1]);
    assert more == some + [c.ranges[i]];
    forall u
      ensures Named(UidConfig(c.uids, more), u) <==>
                Named(UidConfig(c.uids, some), u) || c.ranges[i].0 <= u <= c.ranges[i].1
    {
      if k :| 0 <= k < |some| && some[k].0 <= u <= some[k].1 {
        assert more[k].0 <= u <= more[k].1;
      }
      if c.ranges[i].0 <= u <= c.ranges[i].1 {
        assert more[i].0 <= u <= more[i].1;
      }
    }
  }

  /**
   `build_excluded_uid_ranges`: with an include list everybody bypasses the tunnel who is not included,
   or included and excluded; without one, who is excluded.
   */
  method BuildExcludedUidRanges(included: UidConfig, excluded: UidConfig) returns (result: seq<Range>)
    ensures Gapped(result)
    ensures forall u | 0 <= u <= UID_MAX ::
              InRanges(result, u) <==>
                if exists v :: Named(included, v) then !(Named(included, u) && !Named(excluded, u)) else Named(excluded, u)
  {
    var inc := MergeUidListAndRanges(included);
    var exc := MergeUidListAndRanges(excluded);
    SomeoneNamed(inc);
    if inc == [] && exc == [] {
      return [];
    }
    if inc != [] {
      assert exists v :: Named(included, v);
      var kept := SubtractRanges(inc, exc);
      var rest := ComplementRanges(kept, 0, UID_MAX);
      result := MergeRanges(rest);
    } else {
      result := MergeRanges(exc);
    }
  }

  lemma SomeoneNamed(rs: seq<Range>)
    requires Proper(rs)
    ensures rs != [] <==> exists v :: InRanges(rs, v)
  {
    if rs != [] {
      assert Has(rs[0], rs[0].lo);
      assert InRanges(rs, rs[0].lo);
    }
  }
}
