/** Fragments fit, and reassemble to the packet they came from, exactly when no offset wraps. */
module FragmentProperties {
  import opened Arith
  import opened Bytes
  import opened Fragment
  import opened Reassembly

  predicate AllWellFormed(fs: seq<Packet>) {
    forall f | f in fs :: WellFormed(f)
  }

  function Pieces(fs: seq<Packet>): (qs: seq<Piece>)
    requires AllWellFormed(fs)
    ensures |qs| == |fs|
    ensures forall k | 0 <= k < |fs| :: fs[k] in fs && qs[k] == PieceOf(fs[k])
  {
    seq(|fs|, k requires 0 <= k < |fs| => PieceOf(fs[k]))
  }

  lemma PiecesCons(f: Packet, fs: seq<Packet>)
    requires WellFormed(f) && AllWellFormed(fs)
    ensures AllWellFormed([f] + fs) && Pieces([f] + fs) == [PieceOf(f)] + Pieces(fs)
  {
    hide PieceOf, WellFormed;
  }

  /** A datagram no longer than the 16-bit length field allows. */
  predicate Datagram(pkt: Packet) {
    WellFormed(pkt) && |pkt| <= 0xffff
  }

  // ---- Size ----

  /** Every fragment fits the MTU, and all but the last carry a whole multiple of eight octets. */
  lemma {:induction false} FragmentsFit(pkt: Packet, size: nat, start: nat, mtu: nat)
    requires Datagram(pkt) && 0 < size && size % 8 == 0 && Ihl(pkt) + size <= mtu
    ensures var fs := FragmentsFrom(pkt, size, start);
            && AllWellFormed(fs)
            && (forall f | f in fs :: |f| <= mtu && Datagram(f) && Ihl(f) == Ihl(pkt) && U16At(f, 2) == |f|)
            && forall k | 0 <= k < |fs| - 1 :: |Data(fs[k])| == size
    decreases |Data(pkt)| - start
  {
    hide FragmentAt, SameHeader;
    if start < |Data(pkt)| {
      var end := Min(start + size, |Data(pkt)|);
      FragmentFields(pkt, start, end);
      FragmentsFit(pkt, size, end, mtu);
      var (f, rest) := (FragmentAt(pkt, start, end), FragmentsFrom(pkt, size, end));
      var fs := [f] + rest;
      forall k | 0 <= k < |fs| - 1 ensures |Data(fs[k])| == size {
        if k > 0 {
          assert fs[k] == rest[k - 1];
        }
      }
    }
  }

  lemma MaxDataFits(mtu: nat, ihl: nat)
    requires MaxData(mtu, ihl) > 0
    ensures MaxData(mtu, ihl) % 8 == 0 && ihl + MaxData(mtu, ihl) <= mtu < ihl + MaxData(mtu, ihl) + 8
  {}

  /**
   A packet is not fragmented exactly when its header is senseless, it has no data, or the MTU leaves no room
   for eight octets. Otherwise every fragment fits the MTU, and none in front of the last could carry eight
   octets more.
   */
  lemma FragmentsAreFull(pkt: Packet, mtu: nat)
    requires |pkt| <= 0xffff
    ensures Fragments(pkt, mtu) == None <==>
              |pkt| < 20 || pkt[0] % 16 < 5 || |pkt| <= pkt[0] % 16 * 4 || mtu < pkt[0] % 16 * 4 + 8
    ensures Fragments(pkt, mtu).Some? ==>
              var fs := Fragments(pkt, mtu).value;
              && |pkt| >= 20 && fs != [] && (forall f | f in fs :: FitsMtu(pkt, f, mtu))
              && forall k | 0 <= k < |fs| - 1 :: CarriesMost(pkt, fs[k], mtu)
  {
    NotNone(pkt, mtu);
    if Fragments(pkt, mtu).Some? {
      var size, fs := SomeAre(pkt, mtu);
      hide *;
      AllFull(pkt, fs, size, mtu);
    }
  }

  lemma SomeAre(pkt: Packet, mtu: nat) returns (size: nat, fs: seq<Packet>)
    requires |pkt| <= 0xffff && Fragments(pkt, mtu).Some?
    ensures fs == Fragments(pkt, mtu).value && AllWellFormed(fs)
    ensures |pkt| >= 20 && size % 8 == 0 && mtu < Ihl(pkt) + size + 8
    ensures forall f | f in fs :: |f| <= mtu && Datagram(f) && Ihl(f) == Ihl(pkt) && U16At(f, 2) == |f|
    ensures forall k | 0 <= k < |fs| - 1 :: |Data(fs[k])| == size
  {
    size := MaxData(mtu, Ihl(pkt));
    fs := FragmentsFrom(pkt, size, 0);
    hide FragmentsFrom, MaxData;
    MaxDataFits(mtu, Ihl(pkt));
    FragmentsFit(pkt, size, 0, mtu);
  }

  /** A whole fragment, header and length field included. */
  predicate FitsMtu(pkt: Packet, f: Packet, mtu: nat)
    requires |pkt| >= 20
  {
    20 <= pkt[0] % 16 * 4 < |f| <= mtu && f[0] % 16 == pkt[0] % 16 && (f[2] as int) * 256 + f[3] == |f|
  }

  predicate CarriesMost(pkt: Packet, f: Packet, mtu: nat)
    requires |pkt| >= 20
  {
    (|f| - pkt[0] % 16 * 4) % 8 == 0 && mtu < |f| + 8
  }

  lemma AllFull(pkt: Packet, fs: seq<Packet>, size: nat, mtu: nat)
    requires |pkt| >= 20 && AllWellFormed(fs) && size % 8 == 0 && mtu < Ihl(pkt) + size + 8
    requires forall f | f in fs :: |f| <= mtu && Datagram(f) && Ihl(f) == Ihl(pkt) && U16At(f, 2) == |f|
    requires forall k | 0 <= k < |fs| - 1 :: |Data(fs[k])| == size
    ensures forall f | f in fs :: FitsMtu(pkt, f, mtu)
    ensures forall k | 0 <= k < |fs| - 1 :: CarriesMost(pkt, fs[k], mtu)
  {
    hide Datagram, WellFormed, Ihl, U16At, Data, FitsMtu, CarriesMost;
    forall f | f in fs ensures FitsMtu(pkt, f, mtu) {
      DatagramFits(pkt, f, mtu);
    }
    forall k | 0 <= k < |fs| - 1 ensures CarriesMost(pkt, fs[k], mtu) {
      DatagramFull(pkt, fs[k], size, mtu);
    }
  }

  lemma DatagramFits(pkt: Packet, f: Packet, mtu: nat)
    requires |pkt| >= 20 && |f| <= mtu && Datagram(f) && Ihl(f) == Ihl(pkt) && U16At(f, 2) == |f|
    ensures FitsMtu(pkt, f, mtu)
  {}

  lemma DatagramFull(pkt: Packet, f: Packet, size: nat, mtu: nat)
    requires |pkt| >= 20 && Datagram(f) && Ihl(f) == Ihl(pkt) && |Data(f)| == size
    requires size % 8 == 0 && mtu < Ihl(pkt) + size + 8
    ensures CarriesMost(pkt, f, mtu)
  {}

  lemma NotNone(pkt: Packet, mtu: nat)
    ensures Fragments(pkt, mtu) == None <==>
              |pkt| < 20 || pkt[0] % 16 < 5 || |pkt| <= pkt[0] % 16 * 4 || mtu < pkt[0] % 16 * 4 + 8
    ensures Fragments(pkt, mtu) != None ==> FragmentsFrom(pkt, MaxData(mtu, Ihl(pkt)), 0) != []
  {
    hide FragmentsFrom, FragmentAt, MaxData;
    if |pkt| >= 20 {
      NoRoom(mtu, Ihl(pkt));
      if WellFormed(pkt) && MaxData(mtu, Ihl(pkt)) > 0 {
        FragmentsStep(pkt, MaxData(mtu, Ihl(pkt)), 0);
      }
    }
  }

  lemma NoRoom(mtu: nat, ihl: nat)
    ensures MaxData(mtu, ihl) == 0 <==> mtu < ihl + 8
  {}

  // ---- Reassembly ----

  /** Where the last fragment starts. */
  function LastStart(length: nat, size: nat, start: nat): (last: nat)
    requires start < length && size > 0
    ensures start <= last < length <= last + size
    decreases length - start
  {
    if start + size >= length then start else LastStart(length, size, start + size)
  }

  /** The part of the packet from `start` on. */
  function From(pkt: Packet, start: nat): Piece
    requires WellFormed(pkt) && start <= |Data(pkt)|
  {
    Piece(Offset(pkt) * 8 + start, More(pkt), Data(pkt)[start..])
  }

  /** The piece a fragment is, when its offset does not wrap. */
  lemma FragmentPiece(pkt: Packet, start: nat, end: nat)
    requires Datagram(pkt) && start < end <= |Data(pkt)| && start % 8 == 0 && Offset(pkt) + start / 8 < OFFSETS
    ensures var f := FragmentAt(pkt, start, end);
            && WellFormed(f)
            && PieceOf(f) == Piece(Offset(pkt) * 8 + start, More(pkt) || end < |Data(pkt)|, Data(pkt)[start..end])
  {
    hide FragmentAt, SameHeader;
    FragmentFields(pkt, start, end);
    InEighths(Offset(pkt), start);
  }

  lemma InEighths(offset: nat, start: nat)
    requires start % 8 == 0 && offset + start / 8 < OFFSETS
    ensures (offset + start / 8) % OFFSETS * 8 == offset * 8 + start
  {}

  lemma LastStartNext(length: nat, size: nat, start: nat)
    requires start + size < length && size > 0
    ensures LastStart(length, size, start) == LastStart(length, size, start + size)
  {}

  /** A fragment in front of the fragments of the rest. */
  lemma TilesFrom(pkt: Packet, start: nat, end: nat, f: Packet, rest: seq<Packet>)
    requires Datagram(pkt) && start < end < |Data(pkt)| && WellFormed(f) && AllWellFormed(rest)
    requires PieceOf(f) == Piece(Offset(pkt) * 8 + start, true, Data(pkt)[start..end])
    requires Tiles(Pieces(rest), From(pkt, end))
    ensures AllWellFormed([f] + rest) && Tiles(Pieces([f] + rest), From(pkt, start))
  {
    hide Tiles, Pieces, PieceOf, WellFormed, Offset;
    var data := Data(pkt);
    PiecesCons(f, rest);
    assert data[start..][..end - start] == data[start..end] && data[start..][end - start..] == data[end..];
    SplitTiles(PieceOf(f), Pieces(rest), From(pkt, start), end - start);
  }

  lemma OnlyTile(pkt: Packet, start: nat, f: Packet)
    requires Datagram(pkt) && start < |Data(pkt)| && WellFormed(f)
    requires PieceOf(f) == Piece(Offset(pkt) * 8 + start, More(pkt), Data(pkt)[start..|Data(pkt)|])
    ensures AllWellFormed([f]) && Tiles(Pieces([f]), From(pkt, start))
  {
    hide Tiles, Pieces, PieceOf, WellFormed;
    assert Data(pkt)[start..|Data(pkt)|] == Data(pkt)[start..];
    NoPieces();
    PiecesCons(f, []);
    assert [f] + [] == [f] && [PieceOf(f)] + [] == [PieceOf(f)];
    OneTiles(From(pkt, start));
  }

  lemma Earlier(offset: nat, start: nat, size: nat, last: nat)
    requires start <= last && start % 8 == 0 && size % 8 == 0 && offset + last / 8 < OFFSETS
    ensures offset + start / 8 < OFFSETS && (start + size) % 8 == 0
  {}

  lemma {:induction false} FragmentsTile(pkt: Packet, size: nat, start: nat)
    requires Datagram(pkt) && 0 < size && size % 8 == 0 && start % 8 == 0 && start < |Data(pkt)|
    requires Offset(pkt) + LastStart(|Data(pkt)|, size, start) / 8 < OFFSETS
    ensures AllWellFormed(FragmentsFrom(pkt, size, start))
    ensures Tiles(Pieces(FragmentsFrom(pkt, size, start)), From(pkt, start))
    decreases |Data(pkt)| - start
  {
    hide FragmentAt, Tiles, Pieces, LastStart, PieceOf, Offset;
    var length := |Data(pkt)|;
    var end := Min(start + size, length);
    var f := FragmentAt(pkt, start, end);
    Earlier(Offset(pkt), start, size, LastStart(length, size, start));
    FragmentPiece(pkt, start, end);
    if end == length {
      FragmentsStep(pkt, size, end);
      assert [f] + [] == [f];
      OnlyTile(pkt, start, f);
    } else {
      LastStartNext(length, size, start);
      FragmentsTile(pkt, size, end);
      TilesFrom(pkt, start, end, f, FragmentsFrom(pkt, size, end));
    }
  }

  lemma NoPieces()
    ensures AllWellFormed([]) && Pieces([]) == []
  {}

  lemma WholeIs(pkt: Packet)
    requires WellFormed(pkt)
    ensures From(pkt, 0) == PieceOf(pkt)
  {
    assert Data(pkt)[0..] == Data(pkt);
  }

  /** The last fragment is among the fragments. */
  lemma {:induction false} LastIsThere(pkt: Packet, size: nat, start: nat)
    requires Datagram(pkt) && size > 0 && start < |Data(pkt)|
    ensures var last := LastStart(|Data(pkt)|, size, start);
            FragmentAt(pkt, last, |Data(pkt)|) in FragmentsFrom(pkt, size, start)
    decreases |Data(pkt)| - start
  {
    hide FragmentAt;
    if start + size < |Data(pkt)| {
      LastIsThere(pkt, size, start + size);
    }
  }

  /** An offset that wraps sends the last fragment's data in front of the packet. */
  lemma WrappedIsMisplaced(pkt: Packet, start: nat)
    requires Datagram(pkt) && start < |Data(pkt)| && start % 8 == 0 && Offset(pkt) + start / 8 >= OFFSETS
    ensures var f := FragmentAt(pkt, start, |Data(pkt)|);
            WellFormed(f) && PieceOf(f).at < Offset(pkt) * 8 && |PieceOf(f).data| > 0
  {
    hide FragmentAt, SameHeader;
    FragmentFields(pkt, start, |Data(pkt)|);
  }

  lemma {:induction false} CoveredIsIn(qs: seq<Piece>, q: Piece, k: nat)
    requires q in qs && Holds(q, k)
    ensures k in Reassemble(qs).octets
  {
    var last := |qs| - 1;
    if q != qs[last] {
      assert q in qs[..last];
      CoveredIsIn(qs[..last], q, k);
    }
  }

  lemma {:induction false} LastStartAligned(length: nat, size: nat, start: nat)
    requires start < length && size > 0 && size % 8 == 0 && start % 8 == 0
    ensures LastStart(length, size, start) % 8 == 0
    decreases length - start
  {
    if start + size < length {
      LastStartAligned(length, size, start + size);
    }
  }

  /** The guard in closed form: the last fragment starts at the last multiple of the fragment size. */
  lemma {:induction false} LastStartIs(length: nat, size: nat, k: nat)
    requires size > 0 && k * size < length
    ensures LastStart(length, size, k * size) == (length - 1) / size * size
    decreases length - k * size
  {
    if k * size + size >= length {
      DivUnique(length - 1, size, k, length - 1 - k * size);
    } else {
      assert (k + 1) * size == k * size + size;
      LastStartIs(length, size, k + 1);
    }
  }

  /**
   Fragments reassemble, in any order of arrival, to what the packet alone would give: its offset, its
   more-fragments flag and its data. This holds exactly when the last fragment's offset fits 13 bits.
   */
  lemma FragmentsReassemble(pkt: Packet, mtu: nat, order: seq<Packet>)
    requires Datagram(pkt) && Fragments(pkt, mtu).Some? && multiset(order) == multiset(Fragments(pkt, mtu).value)
    ensures AllWellFormed(order)
    ensures Reassemble(Pieces(order)) == Reassemble([PieceOf(pkt)]) <==>
              Offset(pkt) + (|Data(pkt)| - 1) / MaxData(mtu, Ihl(pkt)) * MaxData(mtu, Ihl(pkt)) / 8 < OFFSETS
  {
    hide FragmentAt, Tiles, Pieces, MaxData, FragmentsFrom, SameHeader, LastStart, PieceOf, Reassemble, AllWellFormed,
         Fragments, Offset, FlagsFrag;
    FragmentsFacts(pkt, mtu);
    var size := MaxData(mtu, Ihl(pkt));
    var fs := FragmentsFrom(pkt, size, 0);
    var last := LastStart(|Data(pkt)|, size, 0);
    SameMembers(fs, order);
    SameWellFormed(fs, order);
    if Offset(pkt) + last / 8 < OFFSETS {
      FragmentsTile(pkt, size, 0);
      WholeIs(pkt);
      PiecesPermute(fs, order);
      AnyOrderTiles(Pieces(fs), Pieces(order), PieceOf(pkt));
      TilesReassemble(Pieces(order), PieceOf(pkt));
    } else {
      LastIsThere(pkt, size, 0);
      WrappedIsMisplaced(pkt, last);
      NotRestored(pkt, order, FragmentAt(pkt, last, |Data(pkt)|));
    }
  }

  lemma FragmentsFacts(pkt: Packet, mtu: nat)
    requires Datagram(pkt) && Fragments(pkt, mtu).Some?
    ensures var (size, length) := (MaxData(mtu, Ihl(pkt)), |Data(pkt)|);
            && WellFormed(pkt) && 0 < length && 0 < size && size % 8 == 0
            && Fragments(pkt, mtu).value == FragmentsFrom(pkt, size, 0) && AllWellFormed(FragmentsFrom(pkt, size, 0))
            && LastStart(length, size, 0) == (length - 1) / size * size && LastStart(length, size, 0) % 8 == 0
  {
    hide FragmentAt, FragmentsFrom, MaxData, LastStart;
    MaxDataFits(mtu, Ihl(pkt));
    FragmentsFit(pkt, MaxData(mtu, Ihl(pkt)), 0, mtu);
    LastStartIs(|Data(pkt)|, MaxData(mtu, Ihl(pkt)), 0);
    LastStartAligned(|Data(pkt)|, MaxData(mtu, Ihl(pkt)), 0);
  }

  lemma SameWellFormed(a: seq<Packet>, b: seq<Packet>)
    requires AllWellFormed(a) && forall f :: f in a <==> f in b
    ensures AllWellFormed(b)
  {}

  lemma NotRestored(pkt: Packet, order: seq<Packet>, f: Packet)
    requires Datagram(pkt) && AllWellFormed(order) && f in order && WellFormed(f)
    requires PieceOf(f).at < Offset(pkt) * 8 && |PieceOf(f).data| > 0
    ensures Reassemble(Pieces(order)) != Reassemble([PieceOf(pkt)])
  {
    hide Reassemble, WellFormed, Pieces;
    var i :| 0 <= i < |order| && order[i] == f;
    assert Pieces(order)[i] in Pieces(order);
    CoveredIsIn(Pieces(order), PieceOf(f), PieceOf(f).at);
    OneCovers(PieceOf(pkt), PieceOf(f).at);
  }

  /** A piece alone covers nothing in front of it. */
  lemma OneCovers(q: Piece, k: nat)
    requires k < q.at
    ensures k !in Reassemble([q]).octets
  {
    assert Reassemble([q][..0]).octets == imap[];
  }

  lemma SameMembers(a: seq<Packet>, b: seq<Packet>)
    requires multiset(a) == multiset(b)
    ensures forall f :: f in a <==> f in b
  {
    assert forall f :: f in a <==> f in multiset(a);
    assert forall f :: f in b <==> f in multiset(b);
  }

  lemma {:induction false} PiecesPermute(a: seq<Packet>, b: seq<Packet>)
    requires AllWellFormed(a) && AllWellFormed(b) && multiset(a) == multiset(b)
    ensures multiset(Pieces(a)) == multiset(Pieces(b))
    decreases |a|
  {
    hide Pieces, PieceOf, WellFormed;
    if a == [] {
      assert b == [] by {
        assert |multiset(b)| == 0;
      }
    } else {
      var last := |a| - 1;
      SameMembers(a, b);
      assert a[last] in a;
      var i :| 0 <= i < |b| && b[i] == a[last];
      SameWithout(a, b, i);
      assert a[last + 1..] == [] && a[..last] + [] == a[..last];
      PiecesRemove(a, last);
      PiecesRemove(b, i);
      PiecesPermute(a[..last], b[..i] + b[i + 1..]);
    }
  }

  lemma SameWithout(a: seq<Packet>, b: seq<Packet>, i: nat)
    requires multiset(a) == multiset(b) && a != [] && i < |b| && b[i] == a[|a| - 1]
    ensures multiset(a[..|a| - 1]) == multiset(b[..i] + b[i + 1..])
  {
    var (front, f, rest) := (a[..|a| - 1], b[i], b[..i] + b[i + 1..]);
    assert a == front + [f];
    assert b == b[..i] + [f] + b[i + 1..];
    assert multiset(front) == multiset(a) - multiset{f};
    assert multiset(rest) == multiset(b) - multiset{f};
  }

  lemma PiecesRemove(b: seq<Packet>, i: nat)
    requires AllWellFormed(b) && i < |b|
    ensures b[i] in b && AllWellFormed(b[..i] + b[i + 1..])
    ensures multiset(Pieces(b)) == multiset(Pieces(b[..i] + b[i + 1..])) + multiset{PieceOf(b[i])}
  {
    hide PieceOf, WellFormed, Pieces;
    var (head, f, tail) := (b[..i], b[i], b[i + 1..]);
    assert b == head + ([f] + tail);
    assert AllWellFormed(head) && AllWellFormed(tail) && AllWellFormed([f]);
    PiecesConcat(head, [f] + tail);
    PiecesCons(f, tail);
    PiecesConcat(head, tail);
    Regrouped(Pieces(head), PieceOf(f), Pieces(tail));
  }

  lemma Regrouped(a: seq<Piece>, q: Piece, c: seq<Piece>)
    ensures multiset(a + ([q] + c)) == multiset(a + c) + multiset{q}
  {}

  // ---- Fragmenting fragments again ----

  /** A whole datagram never wraps: it ends within 65536 octets. */
  lemma ShortNeverWraps(pkt: Packet, size: nat)
    requires Datagram(pkt) && size > 0 && Offset(pkt) * 8 + |Data(pkt)| <= 0x1_0000
    ensures Offset(pkt) + LastStart(|Data(pkt)|, size, 0) / 8 < OFFSETS
  {}

  lemma FragmentsOfTile(pkt: Packet, mtu: nat)
    requires Datagram(pkt) && Fragments(pkt, mtu).Some? && Offset(pkt) * 8 + |Data(pkt)| <= 0x1_0000
    ensures AllWellFormed(Fragments(pkt, mtu).value)
    ensures Tiles(Pieces(Fragments(pkt, mtu).value), PieceOf(pkt))
    ensures forall f | f in Fragments(pkt, mtu).value :: Datagram(f) && Ihl(f) == Ihl(pkt)
  {
    hide FragmentAt, Tiles, Pieces, MaxData, FragmentsFrom, SameHeader;
    var size := MaxData(mtu, Ihl(pkt));
    MaxDataFits(mtu, Ihl(pkt));
    FragmentsFit(pkt, size, 0, mtu);
    ShortNeverWraps(pkt, size);
    FragmentsTile(pkt, size, 0);
    WholeIs(pkt);
  }

  /** Each fragment fragmented again, or left as it is. */
  predicate Again(f: Packet, group: seq<Packet>, mtu: nat) {
    group == [f] || Fragments(f, mtu) == Some(group)
  }

  function Join(groups: seq<seq<Packet>>): seq<Packet> {
    if groups == [] then [] else Join(groups[..|groups| - 1]) + groups[|groups| - 1]
  }

  /** However the fragments are cut again at a smaller MTU, all the parts together are the packet. */
  lemma RefragmentsReassemble(pkt: Packet, mtu: nat, smaller: nat, groups: seq<seq<Packet>>, order: seq<Packet>)
    requires Datagram(pkt) && Fragments(pkt, mtu).Some? && Offset(pkt) * 8 + |Data(pkt)| <= 0x1_0000
    requires |groups| == |Fragments(pkt, mtu).value|
    requires forall i | 0 <= i < |groups| :: Again(Fragments(pkt, mtu).value[i], groups[i], smaller)
    requires multiset(order) == multiset(Join(groups))
    ensures AllWellFormed(order) && Reassemble(Pieces(order)) == Reassemble([PieceOf(pkt)])
  {
    hide FragmentAt, Tiles, Pieces, Fragments, Join;
    var fs := Fragments(pkt, mtu).value;
    FragmentsOfTile(pkt, mtu);
    var parts := seq(|groups|, i requires 0 <= i < |groups| => PiecesOrNone(groups[i]));
    forall i | 0 <= i < |fs| ensures AllWellFormed(groups[i]) && Tiles(parts[i], Pieces(fs)[i]) {
      GroupTiles(pkt, mtu, smaller, fs[i], groups[i]);
    }
    NestedTiles(parts, Pieces(fs), PieceOf(pkt));
    JoinPieces(groups, parts);
    SameMembers(Join(groups), order);
    PiecesPermute(Join(groups), order);
    AnyOrderTiles(Pieces(Join(groups)), Pieces(order), PieceOf(pkt));
    TilesReassemble(Pieces(order), PieceOf(pkt));
  }

  function PiecesOrNone(fs: seq<Packet>): seq<Piece> {
    if AllWellFormed(fs) then Pieces(fs) else []
  }

  /** A fragment ends where the packet does, or earlier. */
  lemma GroupTiles(pkt: Packet, mtu: nat, smaller: nat, f: Packet, group: seq<Packet>)
    requires Datagram(pkt) && Fragments(pkt, mtu).Some? && Offset(pkt) * 8 + |Data(pkt)| <= 0x1_0000
    requires f in Fragments(pkt, mtu).value && Again(f, group, smaller)
    ensures WellFormed(f) && AllWellFormed(group) && Tiles(PiecesOrNone(group), PieceOf(f))
  {
    hide FragmentAt, Pieces, Fragments;
    FragmentsOfTile(pkt, mtu);
    var fs := Fragments(pkt, mtu).value;
    var i :| 0 <= i < |fs| && fs[i] == f;
    assert Pieces(fs)[i] in Pieces(fs);
    assert Part(PieceOf(f), PieceOf(pkt));
    hide Tiles, Part;
    if group == [f] {
      PiecesCons(f, []);
      NoPieces();
      assert [f] + [] == [f];
      OneTiles(PieceOf(f));
    } else {
      FragmentsOfTile(f, smaller);
    }
  }

  lemma {:induction false} JoinPieces(groups: seq<seq<Packet>>, parts: seq<seq<Piece>>)
    requires |parts| == |groups|
    requires forall i | 0 <= i < |groups| :: AllWellFormed(groups[i]) && parts[i] == Pieces(groups[i])
    ensures AllWellFormed(Join(groups)) && Pieces(Join(groups)) == Flatten(parts)
  {
    hide Pieces;
    if groups == [] {
      NoPieces();
    } else {
      var last := |groups| - 1;
      JoinPieces(groups[..last], parts[..last]);
      PiecesConcat(Join(groups[..last]), groups[last]);
    }
  }

  lemma PiecesConcat(a: seq<Packet>, b: seq<Packet>)
    requires AllWellFormed(a) && AllWellFormed(b)
    ensures AllWellFormed(a + b) && Pieces(a + b) == Pieces(a) + Pieces(b)
  {
    hide PieceOf, WellFormed;
    assert AllWellFormed(a + b);
    assert forall k | 0 <= k < |a + b| :: (a + b)[k] == if k < |a| then a[k] else b[k - |a|];
  }
}
