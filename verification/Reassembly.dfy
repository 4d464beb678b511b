/** Reassembly by section 3.2 of RFC 791 undoes fragmentation, in any order and at any depth. */
module Reassembly {
  import opened Arith
  import opened Bytes
  import opened Fragment

  /** What the procedure takes from a fragment: where its data goes, and whether more follows. */
  datatype Piece = Piece(at: nat, more: bool, data: seq<byte>)

  function PieceOf(f: Packet): Piece
    requires WellFormed(f)
  {
    Piece(Offset(f) * 8, More(f), Data(f))
  }

  function End(q: Piece): nat {
    q.at + |q.data|
  }

  /** The reassembly buffer: octets received so far, and the total length once the last part is in. */
  datatype Buffer = Buffer(octets: imap<nat, byte>, total: Option<nat>)

  /** Position k is in the piece. */
  predicate Holds(q: Piece, k: nat) {
    q.at <= k < End(q)
  }

  ghost function OctetsOf(q: Piece): imap<nat, byte> {
    imap k: nat | Holds(q, k) :: q.data[k - q.at]
  }

  /** The procedure over the pieces in their order of arrival; later octets overwrite earlier ones. */
  ghost function Reassemble(qs: seq<Piece>): Buffer {
    if qs == [] then Buffer(imap[], None)
    else
      var (b, q) := (Reassemble(qs[..|qs| - 1]), qs[|qs| - 1]);
      Buffer(b.octets + OctetsOf(q), if q.more then b.total else Some(End(q)))
  }

  /** q is a part of p. */
  predicate Part(q: Piece, p: Piece) {
    && p.at <= q.at && End(q) <= End(p)
    && q.data == p.data[q.at - p.at..q.at - p.at + |q.data|]
    && (!q.more ==> !p.more && End(q) == End(p))
  }

  predicate CoveredBy(qs: seq<Piece>, k: nat) {
    exists q :: q in qs && Holds(q, k)
  }

  predicate HasLast(qs: seq<Piece>) {
    exists q :: q in qs && !q.more
  }

  /** The pieces are parts of p, and together all of it. */
  ghost predicate Tiles(qs: seq<Piece>, p: Piece) {
    && (forall q | q in qs :: Part(q, p))
    && (forall k: nat | Holds(p, k) :: CoveredBy(qs, k))
    && (!p.more ==> HasLast(qs))
  }

  // ---- Order does not matter ----

  /** Position k of the buffer: filled when a piece covers it, and then with p's octet. */
  ghost predicate RightAt(octets: imap<nat, byte>, qs: seq<Piece>, p: Piece, k: nat) {
    && (k in octets <==> CoveredBy(qs, k))
    && (k in octets ==> Holds(p, k) && octets[k] == p.data[k - p.at])
  }

  /** The buffer holds exactly what the pieces cover, all of it octets of p. */
  ghost predicate FilledFrom(b: Buffer, qs: seq<Piece>, p: Piece) {
    && (forall k: nat :: RightAt(b.octets, qs, p, k))
    && b.total == if HasLast(qs) then Some(End(p)) else None
  }

  lemma {:induction false} ReassembleParts(qs: seq<Piece>, p: Piece)
    requires forall q | q in qs :: Part(q, p)
    ensures FilledFrom(Reassemble(qs), qs, p)
  {
    if qs == [] {
      assert !HasLast(qs);
    } else {
      var (rest, q) := (qs[..|qs| - 1], qs[|qs| - 1]);
      assert qs == rest + [q] && q in qs;
      ReassembleParts(rest, p);
      OneMorePiece(Reassemble(rest), rest, q, p);
    }
  }

  lemma OneMorePiece(b: Buffer, rest: seq<Piece>, q: Piece, p: Piece)
    requires FilledFrom(b, rest, p) && Part(q, p)
    ensures FilledFrom(Buffer(b.octets + OctetsOf(q), if q.more then b.total else Some(End(q))), rest + [q], p)
  {
    hide CoveredBy, HasLast, Part, OctetsOf, RightAt;
    forall k: nat ensures RightAt(b.octets + OctetsOf(q), rest + [q], p, k) {
      assert RightAt(b.octets, rest, p, k);
      OneMoreAt(b.octets, rest, q, p, k);
    }
    LastLast(rest, q);
    PartEnds(q, p);
  }

  lemma OneMoreAt(octets: imap<nat, byte>, rest: seq<Piece>, q: Piece, p: Piece, k: nat)
    requires RightAt(octets, rest, p, k) && Part(q, p)
    ensures RightAt(octets + OctetsOf(q), rest + [q], p, k)
  {
    hide CoveredBy, Part, OctetsOf;
    CoveredLast(rest, q, k);
    PartAt(q, p, k);
  }

  /** Each octet of a part is the whole's octet at the same position. */
  lemma PartAt(q: Piece, p: Piece, k: nat)
    requires Part(q, p)
    ensures k in OctetsOf(q) <==> Holds(q, k)
    ensures Holds(q, k) ==> Holds(p, k) && OctetsOf(q)[k] == p.data[k - p.at]
  {
    if Holds(q, k) {
      assert q.data[k - q.at] == p.data[q.at - p.at..q.at - p.at + |q.data|][k - q.at];
    }
  }

  lemma PartEnds(q: Piece, p: Piece)
    requires Part(q, p)
    ensures !q.more ==> !p.more && End(q) == End(p)
  {}

  lemma LastLast(rest: seq<Piece>, q: Piece)
    ensures HasLast(rest + [q]) <==> HasLast(rest) || !q.more
  {
    assert q in rest + [q];
    if HasLast(rest) {
      var r :| r in rest && !r.more;
      assert r in rest + [q];
    }
  }

  lemma CoveredLast(rest: seq<Piece>, q: Piece, k: nat)
    ensures CoveredBy(rest + [q], k) <==> CoveredBy(rest, k) || Holds(q, k)
  {
    if CoveredBy(rest, k) {
      var r :| r in rest && Holds(r, k);
      assert r in rest + [q];
    }
    assert q in rest + [q];
  }

  lemma OneTiles(p: Piece)
    ensures Tiles([p], p)
  {
    hide Part;
    assert p in [p] && forall q | q in [p] :: q == p;
    PartOfItself(p);
    forall k: nat | Holds(p, k) ensures CoveredBy([p], k) {
      assert p in [p];
    }
  }

  lemma PartOfItself(p: Piece)
    ensures Part(p, p)
  {
    assert p.data[0..|p.data|] == p.data;
  }

  lemma SameOctets(qs: seq<Piece>, p: Piece, k: nat)
    requires Tiles(qs, p)
    ensures CoveredBy(qs, k) <==> Holds(p, k)
  {}

  /** Pieces that tile p reassemble to what p alone would. */
  lemma TilesReassemble(qs: seq<Piece>, p: Piece)
    requires Tiles(qs, p)
    ensures Reassemble(qs) == Reassemble([p])
  {
    hide Part, HasLast, CoveredBy, RightAt, Reassemble;
    OneTiles(p);
    ReassembleParts(qs, p);
    ReassembleParts([p], p);
    var (a, b) := (Reassemble(qs), Reassemble([p]));
    forall k: nat ensures k in a.octets <==> k in b.octets
                  ensures k in a.octets ==> a.octets[k] == b.octets[k]
    {
      SameAt(qs, p, k, a.octets, b.octets);
    }
    LastIff(qs, p);
    LastIff([p], p);
    assert a.octets == b.octets;
  }

  lemma SameAt(qs: seq<Piece>, p: Piece, k: nat, a: imap<nat, byte>, b: imap<nat, byte>)
    requires Tiles(qs, p) && Tiles([p], p) && RightAt(a, qs, p, k) && RightAt(b, [p], p, k)
    ensures k in a <==> k in b
    ensures k in a ==> a[k] == b[k]
  {
    hide Tiles, CoveredBy;
    SameOctets(qs, p, k);
    SameOctets([p], p, k);
  }

  lemma LastIff(qs: seq<Piece>, p: Piece)
    requires Tiles(qs, p)
    ensures HasLast(qs) <==> !p.more
  {}

  lemma AnyOrderTiles(qs: seq<Piece>, order: seq<Piece>, p: Piece)
    requires Tiles(qs, p) && multiset(order) == multiset(qs)
    ensures Tiles(order, p)
  {
    assert forall q :: q in order <==> q in multiset(order);
    assert forall q :: q in qs <==> q in multiset(qs);
  }

  // ---- Fragments of fragments ----

  lemma PartTrans(r: Piece, q: Piece, p: Piece)
    requires Part(r, q) && Part(q, p)
    ensures Part(r, p)
  {
    var d := q.at - p.at;
    assert forall k | 0 <= k < |r.data| :: r.data[k] == q.data[r.at - q.at + k] == p.data[d + (r.at - q.at) + k];
  }

  function Flatten(groups: seq<seq<Piece>>): seq<Piece> {
    if groups == [] then [] else Flatten(groups[..|groups| - 1]) + groups[|groups| - 1]
  }

  lemma {:induction false} FlattenHas(groups: seq<seq<Piece>>, r: Piece)
    ensures r in Flatten(groups) <==> exists i :: 0 <= i < |groups| && r in groups[i]
  {
    if groups != [] {
      FlattenHas(groups[..|groups| - 1], r);
    }
  }

  /** Tilings of the pieces of a tiling tile the whole. */
  lemma NestedTiles(groups: seq<seq<Piece>>, qs: seq<Piece>, p: Piece)
    requires |groups| == |qs| && Tiles(qs, p)
    requires forall i | 0 <= i < |qs| :: Tiles(groups[i], qs[i])
    ensures Tiles(Flatten(groups), p)
  {
    hide Part, Flatten;
    var all := Flatten(groups);
    forall r | r in all ensures Part(r, p) {
      FlattenHas(groups, r);
      var i :| 0 <= i < |groups| && r in groups[i];
      PartTrans(r, qs[i], p);
    }
    forall k: nat | Holds(p, k) ensures CoveredBy(all, k) {
      var q :| q in qs && Holds(q, k);
      var i :| 0 <= i < |qs| && qs[i] == q;
      assert CoveredBy(groups[i], k);
      var r :| r in groups[i] && Holds(r, k);
      FlattenHas(groups, r);
    }
    if !p.more {
      var q :| q in qs && !q.more;
      var i :| 0 <= i < |qs| && qs[i] == q;
      var r :| r in groups[i] && !r.more;
      FlattenHas(groups, r);
    }
  }

  /** The first n octets, with more to follow, and a tiling of the rest. */
  lemma SplitTiles(first: Piece, rest: seq<Piece>, p: Piece, n: nat)
    requires n <= |p.data| && first == Piece(p.at, true, p.data[..n])
    requires Tiles(rest, Piece(p.at + n, p.more, p.data[n..]))
    ensures Tiles([first] + rest, p)
  {
    var (qs, tail) := ([first] + rest, Piece(p.at + n, p.more, p.data[n..]));
    assert Part(first, p);
    assert Part(Piece(p.at + n, p.more, p.data[n..]), p);
    forall q | q in qs ensures Part(q, p) {
      if q != first {
        assert q in rest;
        PartTrans(q, tail, p);
      }
    }
    forall k: nat | Holds(p, k) ensures CoveredBy(qs, k) {
      if k < p.at + n {
        assert first in qs;
      } else {
        assert CoveredBy(rest, k);
        var q :| q in rest && Holds(q, k);
        assert q in qs;
      }
    }
    if !p.more {
      var q :| q in rest && !q.more;
      assert q in qs;
    }
  }
}
