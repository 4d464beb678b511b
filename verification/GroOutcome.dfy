/** When exactly `tcp_gro` merges a packet, gives it an item of its own, or passes it by. */
module GroOutcome {
  import opened Bytes
  import opened VirtioNet
  import opened Gro
  import opened GroItems
  import opened GroMerge
  import opened GroSteps
  import opened GroDecision

  /** The length of the two packets as one. */
  function MergedLength(arrival: TcpItem, item: TcpItem, bufs: seq<Buf>, offset: nat): int
    requires TcpItemFits(item, arrival, bufs, offset) && NewFits(arrival, bufs, offset)
  {
    |Pkt(bufs[item.bufsIndex], offset)| + |Pkt(bufs[arrival.bufsIndex], offset)| - item.iphLen - item.tcphLen
  }

  /**
   The item would take the packet, if the packet's checksum is right: the decision is to append and the item's
   buffer has room for both, or it is to prepend and the packet's buffer has; and the checksum of what is in the
   item's buffer has been found right, or is now.
   */
  predicate Willing(arrival: TcpItem, item: TcpItem, bufs: seq<Buf>, offset: nat)
    requires TcpItemFits(item, arrival, bufs, offset) && NewFits(arrival, bufs, offset)
  {
    && (match Answer(arrival, item, bufs, offset)
        case Unavailable => false
        case Append => bufs[item.bufsIndex].cap - offset >= MergedLength(arrival, item, bufs, offset)
        case Prepend =>
          !arrival.pshSet && bufs[arrival.bufsIndex].cap - offset >= MergedLength(arrival, item, bufs, offset))
    && ChecksumsHold(item.numMerged, Pkt(bufs[item.bufsIndex], offset), item.iphLen, 6, arrival.key.v6)
  }

  predicate RightChecksum(arrival: TcpItem, bufs: seq<Buf>, offset: nat)
    requires NewFits(arrival, bufs, offset)
  {
    ChecksumValid(Pkt(bufs[arrival.bufsIndex], offset), arrival.iphLen, 6, arrival.key.v6)
  }

  /** Merging two packets succeeds exactly for a willing item and a right checksum. */
  lemma CoalesceIff(arrival: TcpItem, item: TcpItem, bufs: seq<Buf>, offset: nat)
    requires TcpItemFits(item, arrival, bufs, offset) && NewFits(arrival, bufs, offset)
    requires arrival.tcphLen == item.tcphLen && Answer(arrival, item, bufs, offset) != Unavailable
    ensures var result := CoalesceTcp(Answer(arrival, item, bufs, offset), arrival, item, bufs, offset).0;
            && (result == Success <==> Willing(arrival, item, bufs, offset) && RightChecksum(arrival, bufs, offset))
            && (result == PktInvalidCsum <==>
                  Willing(arrival, item, bufs, offset) && !RightChecksum(arrival, bufs, offset))
  {
    hide ChecksumValid, Answer, WithPsh;
  }

  predicate SomeWilling(arrival: TcpItem, items: seq<TcpItem>, i: nat, bufs: seq<Buf>, offset: nat)
    requires i <= |items| && NewFits(arrival, bufs, offset)
    requires forall j | 0 <= j < i :: TcpItemFits(items[j], arrival, bufs, offset)
  {
    exists j | 0 <= j < i :: Willing(arrival, items[j], bufs, offset)
  }

  /** The outcome of the walk over a flow's items. */
  lemma {:induction false} WalkIff(arrival: TcpItem, items: seq<TcpItem>, i: nat, bufs: seq<Buf>, offset: nat)
    requires i <= |items| && NewFits(arrival, bufs, offset)
    requires forall j | 0 <= j < i :: TcpItemFits(items[j], arrival, bufs, offset)
    ensures Walk(arrival, items, i, bufs, offset).outcome
         == if !SomeWilling(arrival, items, i, bufs, offset) then TableInsert
            else if RightChecksum(arrival, bufs, offset) then Coalesced else Noop
    decreases i
  {
    hide Walk, Willing, RightChecksum, CoalesceTcp, TcpItemFits, Answer;
    WalkEnd(arrival, items, bufs, offset);
    if i > 0 {
      WalkOnce(arrival, items, i, bufs, offset);
      NotWilling(arrival, items[i - 1], bufs, offset);
      if Answer(arrival, items[i - 1], bufs, offset) != Unavailable {
        CoalesceIff(arrival, items[i - 1], bufs, offset);
      }
      var fewer := items[..i - 1] + items[i..];
      assert forall j | 0 <= j < i - 1 :: fewer[j] == items[j];
      WalkIff(arrival, items, i - 1, bufs, offset);
      WalkIff(arrival, fewer, i - 1, bufs, offset);
    }
  }

  lemma NotWilling(arrival: TcpItem, item: TcpItem, bufs: seq<Buf>, offset: nat)
    requires TcpItemFits(item, arrival, bufs, offset) && NewFits(arrival, bufs, offset)
    ensures Answer(arrival, item, bufs, offset) == Unavailable ==> !Willing(arrival, item, bufs, offset)
  {}

  /**
   `tcp_gro` on packet i: passed by if it is not a segment to merge, or if an item is willing but the packet's
   checksum wrong; merged if an item is willing and the checksum right; otherwise an item of its own.
   */
  lemma TcpOutcomeIff(s: State, offset: nat, i: nat, v6: bool)
    requires InPlace(s, offset, i) && i < |s.bufs| && |Pkt(s.bufs[i], offset)| >= IpHeaderLen(v6) + 20
    ensures var (pkt, outcome) := (Pkt(s.bufs[i], offset), TcpGro(s, offset, i, v6).0);
            match ParseTcp(pkt, i, v6)
            case None => outcome == Noop
            case Some(arrival) =>
              && NewFits(arrival, s.bufs, offset)
              && (forall item | item in Items(s.tcp, arrival.key) :: TcpItemFits(item, arrival, s.bufs, offset))
              && var willing := exists item | item in Items(s.tcp, arrival.key) :: Willing(arrival, item, s.bufs, offset);
                 outcome == if !willing then TableInsert
                            else if RightChecksum(arrival, s.bufs, offset) then Coalesced else Noop
  {
    hide ParseTcp, InPlace, Walk, Willing, RightChecksum;
    Headroom(s, offset, i);
    var pkt := Pkt(s.bufs[i], offset);
    if ParseTcp(pkt, i, v6).Some? {
      var arrival := ParseTcp(pkt, i, v6).value;
      ParsedFields(pkt, i, v6, arrival);
      FlowFits(s, offset, i, arrival);
      var items := Items(s.tcp, arrival.key);
      WalkIff(arrival, items, |items|, s.bufs, offset);
      forall item | item in items && Willing(arrival, item, s.bufs, offset)
        ensures SomeWilling(arrival, items, |items|, s.bufs, offset)
      {
        var j :| 0 <= j < |items| && items[j] == item;
        assert Willing(arrival, items[j], s.bufs, offset);
      }
    }
  }

  /** The decision to append and to prepend, from what the packets are, as `TcpDecisionIff` has it. */
  lemma WillingIff(arrival: TcpItem, item: TcpItem, bufs: seq<Buf>, offset: nat)
    requires TcpItemFits(item, arrival, bufs, offset) && NewFits(arrival, bufs, offset) && arrival.key == item.key
    requires TcpItemOk(item, Pkt(bufs[item.bufsIndex], offset)) && TcpItemOk(arrival, Pkt(bufs[arrival.bufsIndex], offset))
    ensures var (pkt, target) := (Pkt(bufs[arrival.bufsIndex], offset), Pkt(bufs[item.bufsIndex], offset));
            Willing(arrival, item, bufs, offset) <==>
              && Like(pkt, item.key.v6) == Like(target, item.key.v6)
              && (if Follows(arrival, item) then
                    && AllFull(item, target) && !item.pshSet && arrival.gsoSize <= item.gsoSize
                    && bufs[item.bufsIndex].cap - offset >= MergedLength(arrival, item, bufs, offset)
                  else
                    && Precedes(arrival, item) && !arrival.pshSet && arrival.gsoSize >= item.gsoSize
                    && (arrival.gsoSize > item.gsoSize ==> item.numMerged == 0)
                    && bufs[arrival.bufsIndex].cap - offset >= MergedLength(arrival, item, bufs, offset))
              && ChecksumsHold(item.numMerged, target, item.iphLen, 6, arrival.key.v6)
  {
    hide TcpItemOk, Like, Follows, Precedes, AllFull, TcpPacketsCanCoalesce, ChecksumsHold;
    TcpDecisionIff(Pkt(bufs[arrival.bufsIndex], offset), arrival, item, Pkt(bufs[item.bufsIndex], offset));
  }
}
