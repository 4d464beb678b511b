/** The route set as it is built (`final_route_v4`, `_v6`): one list, pushed to by the recursion. */
module CidrRoutes {
  import opened Cidr
  import opened CidrProperties

  /** The output vector. */
  class PrefixList {
    var items: seq<Prefix>

    constructor ()
      ensures items == []
    {
      items := [];
    }

    method Push(p: Prefix)
      modifies this
      ensures items == old(items) + [p]
    {
      items := items + [p];
    }
  }

  /** `split_subtract_v4`, `split_subtract_v6` */
  method SplitSubtractInto(W: nat, net: nat, len: nat, excludes: seq<Prefix>, out: PrefixList)
    requires len <= W && Excludes(W, excludes)
    modifies out
    ensures out.items == old(out.items) + SplitSubtract(W, Prefix(net, len), excludes)
    decreases W - len
  {
    hide Right, FullyExcluded, AnyIntersects;
    var p := Prefix(net, len);
    if FullyExcluded(W, p, excludes) {
      return;
    }
    if len >= W {
      out.Push(p);
      return;
    }
    if !AnyIntersects(W, p, excludes) {
      out.Push(p);
      return;
    }
    var right := Right(W, p);
    SplitSubtractInto(W, net, len + 1, excludes, out);
    SplitSubtractInto(W, right.net, len + 1, excludes, out);
  }

  /** All routes minus all excludes. */
  function FinalRoutes(W: nat, routes: seq<Prefix>, excludes: seq<Prefix>): seq<Prefix>
    requires Lengths(W, routes) && Excludes(W, excludes)
  {
    if routes == [] then []
    else
      var last := |routes| - 1;
      assert routes[last] in routes;
      FinalRoutes(W, routes[..last], excludes) + SplitSubtract(W, routes[last], excludes)
  }

  /**
   `final_route_v4`, `final_route_v6`, on parsed routes and excludes: every address routed is in a route and in
   no exclude, and for routes without host bits every such address is routed.
   */
  method FinalRoute(W: nat, routes: seq<Prefix>, excludes: seq<Prefix>) returns (out: seq<Prefix>)
    requires Lengths(W, routes) && Excludes(W, excludes)
    ensures out == if excludes == [] then routes else FinalRoutes(W, routes, excludes)
    ensures Lengths(W, out)
    ensures forall x: nat | Covered(W, out, x) :: Covered(W, routes, x) && !Excluded(W, excludes, x)
    ensures NoHostBits(W, routes) ==>
              forall x: nat | Covered(W, routes, x) && !Excluded(W, excludes, x) :: Covered(W, out, x)
  {
    hide SplitSubtract, Covered;
    if excludes == [] {
      return routes;
    }
    var list := new PrefixList();
    for i := 0 to |routes|
      invariant list.items == FinalRoutes(W, routes[..i], excludes)
    {
      assert routes[..i + 1][..i] == routes[..i] && routes[i] in routes;
      SplitSubtractInto(W, routes[i].net, routes[i].len, excludes, list);
    }
    assert routes[..|routes|] == routes;
    out := list.items;
    FinalRoutesExact(W, routes, excludes, 0);
    forall x: nat
      ensures Covered(W, out, x) ==> Covered(W, routes, x) && !Excluded(W, excludes, x)
      ensures NoHostBits(W, routes) && Covered(W, routes, x) && !Excluded(W, excludes, x) ==> Covered(W, out, x)
    {
      FinalRoutesExact(W, routes, excludes, x);
    }
  }

  predicate NoHostBits(W: nat, routes: seq<Prefix>)
    requires Lengths(W, routes)
  {
    forall p | p in routes :: Canonical(W, p)
  }

  /** The set as a whole is exact: an address is routed iff some route has it and no exclude does. */
  lemma {:induction false} FinalRoutesExact(W: nat, routes: seq<Prefix>, excludes: seq<Prefix>, x: nat)
    requires Lengths(W, routes) && Excludes(W, excludes)
    ensures Lengths(W, FinalRoutes(W, routes, excludes))
    ensures Covered(W, FinalRoutes(W, routes, excludes), x) ==> Covered(W, routes, x) && !Excluded(W, excludes, x)
    ensures NoHostBits(W, routes) && Covered(W, routes, x) && !Excluded(W, excludes, x) ==>
              Covered(W, FinalRoutes(W, routes, excludes), x)
    decreases |routes|
  {
    hide Covers, SplitSubtract, Excluded, Canonical;
    if routes != [] {
      var last := |routes| - 1;
      var p := routes[last];
      FinalRoutesExact(W, routes[..last], excludes, x);
      AllInside(W, p, excludes);
      if Covered(W, SplitSubtract(W, p, excludes), x) {
        NothingExcluded(W, p, excludes, x);
      }
      if Canonical(W, p) {
        SubtractionIsExact(W, p, excludes, x);
      }
      CoveredParts(W, FinalRoutes(W, routes[..last], excludes), SplitSubtract(W, p, excludes), x);
      CoveredParts(W, routes[..last], [p], x);
      assert routes[..last] + [p] == routes;
      assert Covered(W, [p], x) <==> Covers(W, p, x) by {
        assert p in [p];
      }
    }
  }
}
