/** When exactly two packets are merged, in terms of what the packets are rather than of header octets. */
module GroDecision {
  import opened Arith
  import opened Bytes
  import opened Gro
  import opened GroItems
  import opened GroMerge

  /** The length of the data an item's buffer holds when all its segments are full. */
  predicate AllFull(item: TcpItem, target: Packet)
    requires TcpItemOk(item, target)
  {
    |target| - HeadersLen(target, item.key.v6) == Times(item.numMerged + 1, item.gsoSize)
  }

  /** The arriving segment starts where the item ends. */
  predicate Follows(arrival: TcpItem, item: TcpItem) {
    arrival.sentSeq == ToU32(item.sentSeq + Times(item.numMerged + 1, item.gsoSize))
  }

  /** The arriving segment ends where the item starts. */
  predicate Precedes(arrival: TcpItem, item: TcpItem) {
    ToU32(arrival.sentSeq + arrival.gsoSize) == item.sentSeq
  }

  /** Of one flow, what segments have in common is class and options. */
  lemma AlikeIff(pkt: Packet, arrival: TcpItem, item: TcpItem, target: Packet)
    requires TcpItemOk(item, target) && TcpItemOk(arrival, pkt) && arrival.key == item.key
    ensures Like(pkt, item.key.v6) == Like(target, item.key.v6) <==>
              && arrival.tcphLen == item.tcphLen && IpHeadersCanCoalesce(pkt, target)
              && pkt[item.iphLen + 20..item.iphLen + arrival.tcphLen] == target[item.iphLen + 20..item.iphLen + item.tcphLen]
  {
    var v6 := item.key.v6;
    assert TcpOptions(pkt, v6) == pkt[item.iphLen + 20..item.iphLen + arrival.tcphLen];
    assert TcpOptions(target, v6) == target[item.iphLen + 20..item.iphLen + item.tcphLen];
    if Like(pkt, v6) == Like(target, v6) {
      LikeKey(pkt, target, v6);
      LikeCanCoalesce(pkt, target, v6);
      assert |TcpOptions(pkt, v6)| == |TcpOptions(target, v6)|;
    }
  }

  lemma FullIff(item: TcpItem, target: Packet)
    requires TcpItemOk(item, target)
    ensures (|target| - item.iphLen - item.tcphLen) % item.gsoSize == 0 <==> AllFull(item, target)
    ensures item.gsoSize + item.numMerged * item.gsoSize == Times(item.numMerged + 1, item.gsoSize)
  {
    OneMoreProduct(item.numMerged, item.gsoSize);
    MultipleOf(item.numMerged + 1, item.gsoSize);
    var length := |target| - HeadersLen(target, item.key.v6);
    if length % item.gsoSize == 0 {
      FullSegments(length, item.gsoSize, item.numMerged + 1);
    }
  }

  /** `tcp_packets_can_coalesce`: the answer in full, for any packet and any item of its flow. */
  lemma TcpDecisionIff(pkt: Packet, arrival: TcpItem, item: TcpItem, target: Packet)
    requires TcpItemOk(item, target) && TcpItemOk(arrival, pkt) && arrival.key == item.key
    ensures var can := TcpPacketsCanCoalesce(pkt, arrival, item, target);
            var alike := Like(pkt, item.key.v6) == Like(target, item.key.v6);
            && (can == Append <==>
                  alike && Follows(arrival, item) && AllFull(item, target) && !item.pshSet && arrival.gsoSize <= item.gsoSize)
            && (can == Prepend <==>
                  && alike && !Follows(arrival, item) && Precedes(arrival, item) && !arrival.pshSet
                  && arrival.gsoSize >= item.gsoSize && (arrival.gsoSize > item.gsoSize ==> item.numMerged == 0))
  {
    AlikeIff(pkt, arrival, item, target);
    FullIff(item, target);
    hide TcpShape, Like, ToU32, IpHeadersCanCoalesce, TcpKey, IpConsistent, HeadersLen;
  }

  /** `udp_packets_can_coalesce` */
  lemma UdpDecisionIff(pkt: Packet, arrival: UdpItem, item: UdpItem, target: Packet)
    requires UdpItemOk(item, target) && UdpItemOk(arrival, pkt) && arrival.key == item.key
    ensures UdpPacketsCanCoalesce(pkt, arrival, item, target) == Append <==>
              && UdpLike(pkt, item.key.v6) == UdpLike(target, item.key.v6) && arrival.gsoSize <= item.gsoSize
              && |target| - IpHeaderLen(item.key.v6) - UDP_HDR_LEN == Times(item.numMerged + 1, item.gsoSize)
  {
    var v6 := item.key.v6;
    MultipleOf(item.numMerged + 1, item.gsoSize);
    var length := |target| - IpHeaderLen(v6) - UDP_HDR_LEN;
    if length % item.gsoSize == 0 {
      FullSegments(length, item.gsoSize, item.numMerged + 1);
    }
    if v6 {
      assert IpClass(pkt, v6) == [pkt[0], pkt[1] / 16, pkt[7]] && IpClass(target, v6) == [target[0], target[1] / 16, target[7]];
    } else {
      assert IpClass(pkt, v6) == [pkt[1], pkt[6], pkt[8]] && IpClass(target, v6) == [target[1], target[6], target[8]];
    }
    assert IpHeadersCanCoalesce(pkt, target) <==> IpClass(pkt, v6) == IpClass(target, v6);
  }
}
