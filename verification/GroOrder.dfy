/**
 The order of a UDP flow through `handle_gro`, counting every packet of the flow: those merging takes and
 those it passes by because they have no data, wrong lengths, IP options or are fragments.
 */
module GroOrder {
  import opened Arith
  import opened Bytes
  import opened VirtioNet
  import opened Gro
  import opened GroItems
  import opened GroMerge
  import opened GroInvariant
  import opened GroSteps
  import opened GroFlow
  import opened GroRun
  import opened GroDecision
  import GroWire

  // ---- The flow of any UDP packet ----

  /** What `packet_is_gro_candidate` and `udp_gro` ask of a UDP packet before they look at the table. */
  predicate Regular(pkt: Packet)
    requires WireFlow(pkt, 17).Some?
  {
    GroWire.UdpTaken(pkt, WireFlow(pkt, 17).value.v6)
  }

  /** Of a flow's packets merging passes by exactly the irregular ones, or all if it may not merge UDP. */
  lemma PassedIff(pkt: Packet, gro: Flags, key: UdpFlowKey)
    requires WireFlow(pkt, 17) == Some(key)
    ensures InFlow(Describe(pkt, gro), UdpFlow(key))
    ensures Passed(Describe(pkt, gro), UdpFlow(key)) <==> !(gro.canUdp && Regular(pkt))
  {
    hide ChecksumValid;
  }

  // ---- Counting who is ahead of whom ----

  /** The number of datagrams merging takes. */
  function Taken(flow: seq<Desc>): nat {
    if flow == [] then 0
    else
      var last := |flow| - 1;
      Taken(flow[..last]) + if flow[last].Raw? then 0 else 1
  }

  /** The number of pairs of a datagram that merging takes and a later packet that it passes by. */
  function Ahead(flow: seq<Desc>): nat {
    if flow == [] then 0
    else
      var last := |flow| - 1;
      Ahead(flow[..last]) + if flow[last].Raw? then Taken(flow[..last]) else 0
  }

  lemma OneMore(flow: seq<Desc>, d: Desc)
    ensures Taken(flow + [d]) == Taken(flow) + if d.Raw? then 0 else 1
    ensures Ahead(flow + [d]) == Ahead(flow) + if d.Raw? then Taken(flow) else 0
  {
    assert (flow + [d])[..|flow|] == flow;
  }

  /** A datagram that goes in front of packets passed by gets ahead of each of them. */
  lemma {:induction false} Overtaking(front: seq<Desc>, d: Desc, behind: seq<Desc>)
    requires !d.Raw? && forall e | e in behind :: e.Raw?
    ensures Taken(front + [d] + behind) == Taken(front + behind) + 1
    ensures Ahead(front + [d] + behind) == Ahead(front + behind) + |behind|
    decreases |behind|
  {
    if behind == [] {
      assert front + [d] + behind == front + [d] && front + behind == front;
      OneMore(front, d);
    } else {
      var last := |behind| - 1;
      var (most, e) := (behind[..last], behind[last]);
      assert behind == most + [e];
      Overtaking(front, d, most);
      assert front + [d] + behind == (front + [d] + most) + [e] && front + behind == (front + most) + [e];
      OneMore(front + [d] + most, e);
      OneMore(front + most, e);
    }
  }

  // ---- One packet ----

  /** A packet that merging does not take has a buffer to itself, and stays there. */
  predicate RawsRight(contents: Contents, descs: seq<Desc>) {
    && |descs| <= |contents|
    && (forall b | |descs| <= b < |contents| :: contents[b] == [])
    && forall b | 0 <= b < |descs| ::
         if descs[b].Raw? then contents[b] == [descs[b]] else forall e | e in contents[b] :: !e.Raw?
  }

  lemma RawsStay(contents: Contents, contents': Contents, descs: seq<Desc>, spot: Spot, d: Desc)
    requires RawsRight(contents, descs) && PlacedAt(contents, contents', spot, |descs|, d)
    ensures RawsRight(contents', descs + [d])
  {
    MergedAreNoRaws(contents, contents', spot, |descs|, d);
    forall c | 0 <= c < |descs| && descs[c].Raw? ensures c != spot.buffer {
      assert descs[c] in contents[c];
    }
  }

  lemma MergedAreNoRaws(contents: Contents, contents': Contents, spot: Spot, i: nat, d: Desc)
    requires PlacedAt(contents, contents', spot, i, d)
    ensures spot.buffer < i ==> !d.Raw? && forall e | e in contents[spot.buffer] :: !e.Raw?
  {
    if spot.buffer < i {
      assert SameKey(contents[spot.buffer][0], d);
    }
  }

  /** A packet of the flow that is passed by lies between buffer b and the next packet. */
  predicate PassedSince(descs: seq<Desc>, b: nat, key: UdpFlowKey) {
    exists j | b < j < |descs| :: Passed(descs[j], UdpFlow(key))
  }

  /** Behind the newest item of a flow there are only packets passed by, each in its own place. */
  lemma BehindIs(contents: Contents, descs: seq<Desc>, b: nat, key: UdpFlowKey)
    requires RawsRight(contents, descs) && b < |contents|
    requires forall later | b < later < |contents| :: Without(contents[later], key)
    ensures FlowOf(Flat(contents[b + 1..]), UdpFlow(key)) != [] <==> PassedSince(descs, b, key)
    ensures forall e | e in FlowOf(Flat(contents[b + 1..]), UdpFlow(key)) :: e.Raw?
  {
    hide Flat, FlowOf, WireFlow;
    var tail := contents[b + 1..];
    FlowOfNone(Flat(tail), UdpFlow(key));
    forall d | d in Flat(tail) && InFlow(d, UdpFlow(key)) ensures d.Raw? && PassedSince(descs, b, key) {
      InFlat(tail, d);
      var c :| 0 <= c < |tail| && d in tail[c];
      assert tail[c] == contents[b + 1 + c];
      assert Passed(descs[b + 1 + c], UdpFlow(key));
    }
    if j :| b < j < |descs| && Passed(descs[j], UdpFlow(key)) {
      assert descs[j] in tail[j - b - 1];
      InFlat(tail, descs[j]);
    }
  }

  /** How the writes so far stand to the arrivals so far. */
  predicate Ordered(contents: Contents, descs: seq<Desc>, key: UdpFlowKey, overtaken: bool) {
    var (out, arrived) := (FlowOf(Flat(contents), UdpFlow(key)), FlowOf(descs, UdpFlow(key)));
    && Taken(out) == Taken(arrived)
    && if overtaken then Ahead(out) > Ahead(arrived) else out == arrived
  }

  /** The effect of one packet: it overtakes exactly if it is taken and something passed by lies between. */
  lemma StepOrdered(contents: Contents, contents': Contents, descs: seq<Desc>, spot: Spot, d: Desc, key: UdpFlowKey,
                    overtaken: bool)
    requires RawsRight(contents, descs) && PlacedAt(contents, contents', spot, |descs|, d)
    requires OfFlow(d, key) ==> forall later | spot.buffer < later < |contents| :: Without(contents[later], key)
    requires Ordered(contents, descs, key, overtaken)
    ensures Ordered(contents', descs + [d], key, overtaken || (OfFlow(d, key) && PassedSince(descs, spot.buffer, key)))
  {
    hide Flat, FlowOf, WireFlow, Taken, Ahead, RawsRight, PassedSince;
    var b := spot.buffer;
    var front, behind := PlacedFlow(contents, contents', spot, |descs|, d, UdpFlow(key));
    FlowOfConcat(descs, [d], UdpFlow(key));
    FlowOfOne(d, UdpFlow(key));
    var (out, arrived) := (front + behind, FlowOf(descs, UdpFlow(key)));
    if OfFlow(d, key) {
      BehindIs(contents, descs, b, key);
      Overtaking(front, d, behind);
      OneMore(arrived, d);
      if behind == [] {
        assert front + [d] + behind == out + [d];
      }
    } else if InFlow(d, UdpFlow(key)) {
      MergedAreNoRaws(contents, contents', spot, |descs|, d);
      EmptyBehind(contents, descs, b, key);
      assert out == front && front + [d] + behind == out + [d];
      OneMore(out, d);
      OneMore(arrived, d);
    } else {
      assert arrived + [] == arrived;
    }
  }

  lemma {:induction false} EmptyBehind(contents: Contents, descs: seq<Desc>, b: nat, key: UdpFlowKey)
    requires RawsRight(contents, descs) && b == |descs| < |contents|
    ensures FlowOf(Flat(contents[b + 1..]), UdpFlow(key)) == []
  {
    FlatOfNothing(contents[b + 1..]);
  }

  // ---- When a datagram joins an earlier buffer ----

  function Newest(s: State, key: UdpFlowKey): UdpItem
    requires Items(s.udp, key) != []
  {
    var items := Items(s.udp, key);
    items[|items| - 1]
  }

  /**
   Packet k joins the buffer of its flow's newest item: it is of the same class and no longer than the
   segments there, those are all full, there is room, and the checksums verify.
   */
  predicate Joins(s: State, offset: nat, k: nat, gro: Flags, key: UdpFlowKey) {
    && k < |s.bufs| && offset <= |s.bufs[k].bytes| && Items(s.udp, key) != []
    && var (pkt, item) := (Pkt(s.bufs[k], offset), Newest(s, key));
    && WireFlow(pkt, 17) == Some(key) && Regular(pkt) && gro.canUdp
    && UdpItemInPlace(item, key, s.bufs, offset, k)
    && var (own, size) := (s.bufs[item.bufsIndex], |pkt| - item.iphLen - UDP_HDR_LEN);
    && var target := Pkt(own, offset);
    && IpClass(pkt, key.v6) == IpClass(target, key.v6) && size <= item.gsoSize
    && |target| - item.iphLen - UDP_HDR_LEN == Times(item.numMerged + 1, item.gsoSize)
    && |target| + size <= own.cap - offset
    && (item.numMerged == 0 ==> ChecksumValid(target, item.iphLen, 17, key.v6))
    && ChecksumValid(pkt, item.iphLen, 17, key.v6)
  }

  lemma CandidateIff(pkt: Packet, gro: Flags, v6: bool, index: nat)
    ensures PacketIsGroCandidate(pkt, gro) == (if v6 then Udp6 else Udp4) && ParseUdp(pkt, index, v6).Some? <==>
              gro.canUdp && WireFlow(pkt, 17).Some? && WireFlow(pkt, 17).value.v6 == v6 && Regular(pkt)
    ensures PacketIsGroCandidate(pkt, gro) == (if v6 then Udp6 else Udp4) ==> WireFlow(pkt, 17) == Some(UdpKey(pkt, v6))
  {}

  lemma CoalesceSucceeds(arrival: UdpItem, item: UdpItem, bufs: seq<Buf>, offset: nat)
    requires item.bufsIndex < |bufs| && arrival.bufsIndex < |bufs|
    requires offset + item.iphLen + UDP_HDR_LEN <= |bufs[item.bufsIndex].bytes|
    requires offset + item.iphLen + UDP_HDR_LEN <= |bufs[arrival.bufsIndex].bytes|
    ensures var (own, pkt) := (bufs[item.bufsIndex], Pkt(bufs[arrival.bufsIndex], offset));
            CoalesceUdp(arrival, item, bufs, offset).0 == Success <==>
              && |Pkt(own, offset)| + (|pkt| - item.iphLen - UDP_HDR_LEN) <= own.cap - offset
              && (item.numMerged == 0 ==> ChecksumValid(Pkt(own, offset), item.iphLen, 17, arrival.key.v6))
              && ChecksumValid(pkt, item.iphLen, 17, arrival.key.v6)
  {
    hide ChecksumValid;
  }

  lemma ClassDecides(pkt: Packet, arrival: UdpItem, item: UdpItem, target: Packet)
    requires UdpItemOk(item, target) && UdpItemOk(arrival, pkt) && arrival.key == item.key
    ensures UdpPacketsCanCoalesce(pkt, arrival, item, target) == Append <==>
              && IpClass(pkt, item.key.v6) == IpClass(target, item.key.v6) && arrival.gsoSize <= item.gsoSize
              && |target| - item.iphLen - UDP_HDR_LEN == Times(item.numMerged + 1, item.gsoSize)
  {
    UdpDecisionIff(pkt, arrival, item, target);
    hide UdpPacketsCanCoalesce, IpClass, Times;
  }

  /** `udp_gro` merges a packet exactly when it joins. */
  lemma JoinsIff(s: State, contents: Contents, orig: seq<Buf>, offset: nat, gro: Flags, k: nat, v6: bool,
                 key: UdpFlowKey)
    requires Inv(s, contents, orig, offset, gro, k) && InPlace(s, offset, k) && k < |orig| && BufOk(s.bufs[k], offset)
    requires PacketIsGroCandidate(Pkt(s.bufs[k], offset), gro) == if v6 then Udp6 else Udp4
    requires |Pkt(s.bufs[k], offset)| >= IpHeaderLen(v6) + 8 && key == UdpKey(Pkt(s.bufs[k], offset), v6)
    ensures UdpGro(s, offset, k, v6).0 == Coalesced <==> Joins(s, offset, k, gro, key)
  {
    hide Inv, InPlace, ParseUdp, UdpPacketsCanCoalesce, CoalesceUdp, ChecksumValid, IpClass, Times, UdpItemOk, Regular,
         WireFlow, BufOk;
    InvBufs(s, contents, orig, offset, gro, k);
    Headroom(s, offset, k);
    var pkt := Pkt(s.bufs[k], offset);
    CandidateIff(pkt, gro, v6, k);
    var parsed := ParseUdp(pkt, k, v6);
    if parsed.Some? && Items(s.udp, key) != [] {
      var arrival := parsed.value;
      ParsedUdpFields(pkt, k, v6, arrival);
      NewUdpItemOk(pkt, gro, v6, arrival);
      NewestHolds(s, contents, orig, offset, gro, k, key);
      var item := Newest(s, key);
      ArrivalSize(arrival, pkt, v6);
      HeldItem(item, key, s.bufs, contents, offset, k);
      ClassDecides(pkt, arrival, item, Pkt(s.bufs[item.bufsIndex], offset));
      CoalesceSucceeds(arrival, item, s.bufs, offset);
      UdpGroIs(s, offset, k, v6, arrival, item);
    } else {
      UdpGroElse(s, offset, k, v6);
    }
  }

  lemma ArrivalSize(arrival: UdpItem, pkt: Packet, v6: bool)
    requires UdpItemOk(arrival, pkt) && arrival.key.v6 == v6 && arrival.numMerged == 0
    ensures arrival.gsoSize == |pkt| - IpHeaderLen(v6) - UDP_HDR_LEN
  {}

  lemma HeldItem(item: UdpItem, key: UdpFlowKey, bufs: seq<Buf>, contents: Contents, offset: nat, k: nat)
    requires UdpHolds(item, key, bufs, contents, offset, k)
    ensures UdpItemInPlace(item, key, bufs, offset, k) && UdpItemOk(item, Pkt(bufs[item.bufsIndex], offset))
  {}

  lemma UdpGroIs(s: State, offset: nat, k: nat, v6: bool, arrival: UdpItem, item: UdpItem)
    requires InPlace(s, offset, k) && k < |s.bufs| && |Pkt(s.bufs[k], offset)| >= IpHeaderLen(v6) + 8
    requires ParseUdp(Pkt(s.bufs[k], offset), k, v6) == Some(arrival) && Items(s.udp, arrival.key) != []
    requires item == Newest(s, arrival.key) && UdpItemInPlace(item, arrival.key, s.bufs, offset, k)
    requires arrival.iphLen == item.iphLen == IpHeaderLen(v6) && arrival.bufsIndex == k
    ensures UdpGro(s, offset, k, v6).0 == Coalesced <==>
              && UdpPacketsCanCoalesce(Pkt(s.bufs[k], offset), arrival, item, Pkt(s.bufs[item.bufsIndex], offset)) == Append
              && CoalesceUdp(arrival, item, s.bufs, offset).0 == Success
  {
    hide InPlace, ParseUdp, UdpPacketsCanCoalesce, CoalesceUdp;
  }

  lemma UdpGroElse(s: State, offset: nat, k: nat, v6: bool)
    requires InPlace(s, offset, k) && k < |s.bufs| && |Pkt(s.bufs[k], offset)| >= IpHeaderLen(v6) + 8
    ensures UdpGro(s, offset, k, v6).0 == Coalesced ==>
              && ParseUdp(Pkt(s.bufs[k], offset), k, v6).Some?
              && Items(s.udp, UdpKey(Pkt(s.bufs[k], offset), v6)) != []
  {
    hide InPlace, UdpPacketsCanCoalesce, CoalesceUdp, IpConsistent;
  }

  // ---- Over a whole batch ----

  /** Packet k of the flow joins a buffer that is written before packet j, which was there earlier. */
  predicate Overtakes(orig: seq<Buf>, offset: nat, gro: Flags, little: bool, key: UdpFlowKey, j: nat, k: nat)
    requires Ready(orig, offset) && j < |orig| && k < |orig|
  {
    var s := Run(orig, offset, gro, little, k);
    assert BufOk(orig[j], offset);
    && j < k && Passed(Describe(Pkt(orig[j], offset), gro), UdpFlow(key))
    && Joins(s, offset, k, gro, key) && Newest(s, key).bufsIndex < j
  }

  /** Of the first n packets one has overtaken. */
  ghost predicate Overtaken(orig: seq<Buf>, offset: nat, gro: Flags, little: bool, key: UdpFlowKey, n: nat)
    requires Ready(orig, offset) && n <= |orig|
  {
    exists j, k | 0 <= j < k < n :: Overtakes(orig, offset, gro, little, key, j, k)
  }

  /** Where packet k goes, and what that has to do with joining. */
  lemma PlaceIs(s: State, contents: Contents, orig: seq<Buf>, offset: nat, gro: Flags, k: nat, key: UdpFlowKey)
    requires Inv(s, contents, orig, offset, gro, k) && InPlace(s, offset, k) && k < |orig|
    ensures k < |s.bufs| && s.bufs[k] == orig[k] && offset <= |s.bufs[k].bytes|
    ensures OfFlow(Describe(Pkt(orig[k], offset), gro), key) && Joins(s, offset, k, gro, key) ==>
              && Place(s, offset, k, gro) == Spot(Newest(s, key).bufsIndex, false)
              && forall later | Newest(s, key).bufsIndex < later < |contents| :: Without(contents[later], key)
    ensures OfFlow(Describe(Pkt(orig[k], offset), gro), key) && !Joins(s, offset, k, gro, key) ==>
              Place(s, offset, k, gro) == Spot(k, false)
    ensures Joins(s, offset, k, gro, key) ==> OfFlow(Describe(Pkt(orig[k], offset), gro), key)
  {
    hide Inv, InPlace, Describe, UdpGro, BufOk, Joins;
    InvBufs(s, contents, orig, offset, gro, k);
    InvBufOk(s, contents, orig, offset, gro, k, k);
    var pkt := Pkt(orig[k], offset);
    JoinsOfFlow(s, offset, k, gro, key);
    if OfFlow(Describe(pkt, gro), key) {
      FlowIsCandidate(pkt, gro, key);
      JoinsIff(s, contents, orig, offset, gro, k, key.v6, key);
      if Joins(s, offset, k, gro, key) {
        NewestIsBehind(s, contents, orig, offset, gro, k, key);
      }
    }
  }

  lemma JoinsOfFlow(s: State, offset: nat, k: nat, gro: Flags, key: UdpFlowKey)
    requires k < |s.bufs| && offset <= |s.bufs[k].bytes|
    ensures Joins(s, offset, k, gro, key) ==>
              Items(s.udp, key) != [] && OfFlow(Describe(Pkt(s.bufs[k], offset), gro), key)
  {
    hide Describe, WireFlow, Regular;
    if Joins(s, offset, k, gro, key) {
      PassedIff(Pkt(s.bufs[k], offset), gro, key);
    }
  }

  lemma FlowIsCandidate(pkt: Packet, gro: Flags, key: UdpFlowKey)
    requires OfFlow(Describe(pkt, gro), key)
    ensures PacketIsGroCandidate(pkt, gro) == if key.v6 then Udp6 else Udp4
    ensures |pkt| >= IpHeaderLen(key.v6) + 8 && key == UdpKey(pkt, key.v6)
  {
    hide ChecksumValid;
  }

  lemma NewestIsBehind(s: State, contents: Contents, orig: seq<Buf>, offset: nat, gro: Flags, k: nat, key: UdpFlowKey)
    requires Inv(s, contents, orig, offset, gro, k) && Items(s.udp, key) != []
    ensures forall later | Newest(s, key).bufsIndex < later < |contents| :: Without(contents[later], key)
  {
    hide TcpTableOk, UdpHolds, BufOk, Owned, Plain;
    NewestIsLast(s, contents, offset, k, key, Newest(s, key).bufsIndex);
  }

  /** One round: the flow stays in order unless this packet overtakes. */
  lemma RoundOrdered(orig: seq<Buf>, offset: nat, gro: Flags, little: bool, n: nat, before: Contents, key: UdpFlowKey)
    returns (contents: Contents)
    requires Ready(orig, offset) && n < |orig|
    requires var descs := InDescs(orig, offset, gro, n);
             && Inv(Run(orig, offset, gro, little, n), before, orig, offset, gro, n) && RawsRight(before, descs)
             && Ordered(before, descs, key, Overtaken(orig, offset, gro, little, key, n))
    ensures var descs := InDescs(orig, offset, gro, n + 1);
            && Inv(Run(orig, offset, gro, little, n + 1), contents, orig, offset, gro, n + 1) && RawsRight(contents, descs)
            && Ordered(contents, descs, key, Overtaken(orig, offset, gro, little, key, n + 1))
  {
    hide Inv, InPlace, Describe, BufOk, Step, Place, Joins, RawsRight, Ordered, PlacedAt, Adds, WireFlow;
    RunInPlace(orig, offset, gro, little, n);
    var s := Run(orig, offset, gro, little, n);
    var descs := InDescs(orig, offset, gro, n);
    InDescsAt(orig, offset, gro, n);
    InDescsAt(orig, offset, gro, n + 1);
    contents := StepKeeps(s, before, orig, offset, gro, n, little);
    var d := Describe(Pkt(orig[n], offset), gro);
    assert InDescs(orig, offset, gro, n + 1) == descs + [d];
    var spot := Place(s, offset, n, gro);
    RawsStay(before, contents, descs, spot, d);
    PlaceIs(s, before, orig, offset, gro, n, key);
    OwnPlaceIsLast(before, descs, spot.buffer, n, key);
    StepOrdered(before, contents, descs, spot, d, key, Overtaken(orig, offset, gro, little, key, n));
    OvertakenOneMore(orig, offset, gro, little, key, n, spot.buffer, d, descs);
  }

  lemma OwnPlaceIsLast(contents: Contents, descs: seq<Desc>, b: nat, n: nat, key: UdpFlowKey)
    requires RawsRight(contents, descs) && |descs| == n
    ensures b == n ==> (forall later | b < later < |contents| :: Without(contents[later], key)) && !PassedSince(descs, b, key)
  {}

  lemma OvertakenOneMore(orig: seq<Buf>, offset: nat, gro: Flags, little: bool, key: UdpFlowKey, n: nat, b: nat,
                         d: Desc, descs: seq<Desc>)
    requires Ready(orig, offset) && n < |orig| && descs == InDescs(orig, offset, gro, n)
    requires offset <= |orig[n].bytes| && d == Describe(Pkt(orig[n], offset), gro)
    requires var s := Run(orig, offset, gro, little, n);
             && (Joins(s, offset, n, gro, key) ==> OfFlow(d, key))
             && (OfFlow(d, key) ==> b == if Joins(s, offset, n, gro, key) then Newest(s, key).bufsIndex else n)
    ensures Overtaken(orig, offset, gro, little, key, n + 1) <==>
              Overtaken(orig, offset, gro, little, key, n) || (OfFlow(d, key) && PassedSince(descs, b, key))
  {
    hide Describe, Joins, Run, OfFlow, Passed, BufOk, InDescs;
    InDescsAt(orig, offset, gro, n);
    var s := Run(orig, offset, gro, little, n);
    if j, k :| 0 <= j < k < n + 1 && Overtakes(orig, offset, gro, little, key, j, k) {
      if k == n {
        assert Passed(descs[j], UdpFlow(key));
      }
    }
    if OfFlow(d, key) && PassedSince(descs, b, key) {
      var j :| b < j < |descs| && Passed(descs[j], UdpFlow(key));
      assert Overtakes(orig, offset, gro, little, key, j, n);
    }
  }

  lemma {:induction false} RunOrdered(orig: seq<Buf>, offset: nat, gro: Flags, little: bool, n: nat, key: UdpFlowKey)
    returns (contents: Contents)
    requires Ready(orig, offset) && n <= |orig|
    ensures var descs := InDescs(orig, offset, gro, n);
            && Inv(Run(orig, offset, gro, little, n), contents, orig, offset, gro, n) && RawsRight(contents, descs)
            && Ordered(contents, descs, key, Overtaken(orig, offset, gro, little, key, n))
  {
    hide Inv, Describe, Step, Overtakes;
    if n == 0 {
      InvStart(orig, offset, gro);
      contents := seq(|orig|, b => []);
      FlatOfNothing(contents);
    } else {
      hide RawsRight, Ordered, InDescs, Run, Overtaken;
      var before := RunOrdered(orig, offset, gro, little, n - 1, key);
      contents := RoundOrdered(orig, offset, gro, little, n - 1, before, key);
    }
  }

  /**
   The packets of a UDP flow, all of them, come out in their order of arrival exactly when none that
   merging passes by lies between the buffer of an item and a later datagram that joins it.
   */
  lemma UdpOrderIff(orig: seq<Buf>, offset: nat, gro: Flags, little: bool, bufs': seq<Buf>, key: UdpFlowKey)
    requires Ready(orig, offset)
    requires AccountedTo(Run(orig, offset, gro, little, |orig|), bufs', offset, little)
    ensures var out := OutDescs(bufs', Run(orig, offset, gro, little, |orig|).toWrite, offset, little, gro);
            FlowOf(out, UdpFlow(key)) == FlowOf(InDescs(orig, offset, gro, |orig|), UdpFlow(key)) <==>
              forall j, k | 0 <= j < k < |orig| :: !Overtakes(orig, offset, gro, little, key, j, k)
  {
    hide TcpTableOk, UdpTableOk, AccountedTo, Run, OutOf, OutDescs, Flat, FlowOf, InDescs, Describe, Overtakes,
         RawsRight;
    var n := |orig|;
    var s := Run(orig, offset, gro, little, n);
    var contents := RunOrdered(orig, offset, gro, little, n, key);
    OutIs(s, contents, orig, offset, gro, bufs', little);
  }

  /** So a flow keeps its order when all its packets in the batch have data, right lengths and are whole. */
  lemma RegularFlowKeepsOrder(orig: seq<Buf>, offset: nat, gro: Flags, little: bool, bufs': seq<Buf>, key: UdpFlowKey)
    requires Ready(orig, offset)
    requires AccountedTo(Run(orig, offset, gro, little, |orig|), bufs', offset, little)
    requires forall j | 0 <= j < |orig| && offset <= |orig[j].bytes| && WireFlow(Pkt(orig[j], offset), 17) == Some(key) ::
               Regular(Pkt(orig[j], offset))
    ensures var out := OutDescs(bufs', Run(orig, offset, gro, little, |orig|).toWrite, offset, little, gro);
            FlowOf(out, UdpFlow(key)) == FlowOf(InDescs(orig, offset, gro, |orig|), UdpFlow(key))
  {
    hide AccountedTo, Run, OutDescs, FlowOf, InDescs, Describe, WireFlow, Regular, BufOk;
    UdpOrderIff(orig, offset, gro, little, bufs', key);
    forall j, k | 0 <= j < k < |orig| ensures !Overtakes(orig, offset, gro, little, key, j, k) {
      if Overtakes(orig, offset, gro, little, key, j, k) {
        InDescsAt(orig, offset, gro, |orig|);
        InFlowIff(Pkt(orig[j], offset), gro, UdpFlow(key));
        PassedIff(Pkt(orig[j], offset), gro, key);
        assert false;
      }
    }
  }
}
