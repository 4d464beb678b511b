/** Merging two packets keeps the item invariant and concatenates what they stand for. */
module GroMerge {
  import opened Arith
  import opened Bytes
  import opened Checksum
  import opened VirtioNet
  import opened Gro
  import opened GroItems

  // ---- TCP ----

  /** A TCP packet that GRO accepts, apart from its length fields. */
  predicate TcpShape(pkt: Packet, v6: bool) {
    && IpHeaderLen(v6) + 20 <= |pkt| <= 0xffff
    && (if v6 then pkt[0] / 16 == 6 && pkt[6] == 6
        else pkt[0] == 0x45 && pkt[9] == 6 && pkt[6] / 0x20 % 2 == 0 && pkt[6] % 0x20 == 0 && pkt[7] == 0)
    && 20 <= TcpHeaderLen(pkt, v6) && IpHeaderLen(v6) + TcpHeaderLen(pkt, v6) < |pkt|
    && (pkt[IpHeaderLen(v6) + 13] == TCP_FLAG_ACK || pkt[IpHeaderLen(v6) + 13] == TCP_FLAG_ACK + TCP_FLAG_PSH)
  }

  function HeadersLen(pkt: Packet, v6: bool): nat
    requires TcpShape(pkt, v6)
  {
    IpHeaderLen(v6) + TcpHeaderLen(pkt, v6)
  }

  /** What all segments of a packet have in common when their checksums verify. */
  function Like(pkt: Packet, v6: bool): (d: Desc)
    requires TcpShape(pkt, v6)
    ensures d.TcpSegment?
  {
    TcpSegment(TcpKey(pkt, v6), IpClass(pkt, v6), TcpOptions(pkt, v6), 0, [], true)
  }

  /** The packet as one segment. */
  function AsSegment(pkt: Packet, v6: bool): Desc
    requires TcpShape(pkt, v6)
  {
    TcpSegment(TcpKey(pkt, v6), IpClass(pkt, v6), TcpOptions(pkt, v6), U32At(pkt, IpHeaderLen(v6) + 4),
               pkt[HeadersLen(pkt, v6)..], ChecksumValid(pkt, IpHeaderLen(v6), 6, v6))
  }

  /** A candidate goes to the table exactly when it has this shape and consistent lengths. */
  lemma ParsedShape(pkt: Packet, gro: Flags, v6: bool, index: nat)
    requires PacketIsGroCandidate(pkt, gro) == if v6 then Tcp6 else Tcp4
    ensures ParseTcp(pkt, index, v6).Some? <==> TcpShape(pkt, v6) && IpConsistent(pkt, v6)
    ensures ParseTcp(pkt, index, v6).Some? ==> Describe(pkt, gro) == AsSegment(pkt, v6)
  {}

  lemma DescribedShape(pkt: Packet, gro: Flags, v6: bool)
    requires TcpShape(pkt, v6) && IpConsistent(pkt, v6) && gro.canTcp
    ensures Describe(pkt, gro) == AsSegment(pkt, v6)
  {}

  lemma ParsedFields(pkt: Packet, index: nat, v6: bool, a: TcpItem)
    requires |pkt| >= IpHeaderLen(v6) + 20 && ParseTcp(pkt, index, v6) == Some(a)
    ensures a.bufsIndex == index && a.numMerged == 0 && a.key == TcpKey(pkt, v6) && a.iphLen == IpHeaderLen(v6)
    ensures a.key.v6 == v6 && a.gsoSize > 0 && a.tcphLen >= 20 && a.iphLen + a.tcphLen <= |pkt|
  {}

  /**
   The table invariant: the buffer starts with the headers of the item's first segment, and its
   payload of length L satisfies ceil(L / gsoSize) == numMerged + 1.
   */
  predicate TcpItemOk(item: TcpItem, pkt: Packet) {
    var v6 := item.key.v6;
    && TcpShape(pkt, v6) && item.key == TcpKey(pkt, v6)
    && item.iphLen == IpHeaderLen(v6) && item.tcphLen == TcpHeaderLen(pkt, v6)
    && item.sentSeq == U32At(pkt, item.iphLen + 4)
    && item.gsoSize > 0
    && Times(item.numMerged, item.gsoSize) < |pkt| - HeadersLen(pkt, v6) <= Times(item.numMerged + 1, item.gsoSize)
    && (item.numMerged == 0 ==> IpConsistent(pkt, v6) && item.gsoSize == |pkt| - HeadersLen(pkt, v6))
  }

  /** Merging has checked the checksums of all it merged. */
  predicate ChecksumsHold(numMerged: nat, pkt: Packet, iphLen: nat, protocol: byte, v6: bool)
    requires iphLen <= |pkt|
  {
    numMerged > 0 || ChecksumValid(pkt, iphLen, protocol, v6)
  }

  /** The original segments an item stands for. */
  function ItemSegments(item: TcpItem, pkt: Packet): seq<Desc>
    requires TcpItemOk(item, pkt)
  {
    var like := Like(pkt, item.key.v6);
    var verifies := ChecksumsHold(item.numMerged, pkt, item.iphLen, 6, item.key.v6);
    TcpSegments(like.(verifies := verifies), item.sentSeq, item.gsoSize, pkt[HeadersLen(pkt, item.key.v6)..])
  }

  /** Once merged, all of them verify. */
  lemma MergedSegments(item: TcpItem, pkt: Packet)
    requires TcpItemOk(item, pkt) && item.numMerged > 0
    ensures ItemSegments(item, pkt)
         == TcpSegments(Like(pkt, item.key.v6), item.sentSeq, item.gsoSize, pkt[HeadersLen(pkt, item.key.v6)..])
  {}

  lemma NewItemOk(pkt: Packet, gro: Flags, v6: bool, arrival: TcpItem)
    requires PacketIsGroCandidate(pkt, gro) == if v6 then Tcp6 else Tcp4
    requires ParseTcp(pkt, arrival.bufsIndex, v6) == Some(arrival)
    ensures TcpItemOk(arrival, pkt) && ItemSegments(arrival, pkt) == [Describe(pkt, gro)]
  {
    ParsedShape(pkt, gro, v6, arrival.bufsIndex);
  }

  /** An unmerged item is a plain packet. */
  lemma UnmergedItem(item: TcpItem, pkt: Packet, gro: Flags)
    requires TcpItemOk(item, pkt) && item.numMerged == 0 && gro.canTcp
    ensures ItemSegments(item, pkt) == [Describe(pkt, gro)]
  {
    DescribedShape(pkt, gro, item.key.v6);
  }

  /** Packets that may be merged agree on everything their segments have in common. */
  lemma CoalescibleAlike(pkt: Packet, arrival: TcpItem, item: TcpItem, target: Packet)
    requires TcpItemOk(item, target) && TcpItemOk(arrival, pkt) && arrival.key == item.key
    requires TcpPacketsCanCoalesce(pkt, arrival, item, target) != Unavailable
    ensures Like(pkt, item.key.v6) == Like(target, item.key.v6)
    ensures HeadersLen(pkt, item.key.v6) == HeadersLen(target, item.key.v6)
  {
    hide Times, ToU32, U32At, U16At, IpConsistent;
    var v6 := item.key.v6;
    assert IpHeadersCanCoalesce(pkt, target);
    if arrival.tcphLen == 20 {
      assert TcpOptions(pkt, v6) == [] == TcpOptions(target, v6);
    }
  }

  lemma LikeKey(a: Packet, b: Packet, v6: bool)
    requires TcpShape(a, v6) && TcpShape(b, v6) && Like(a, v6) == Like(b, v6)
    ensures TcpKey(a, v6) == TcpKey(b, v6) && IpClass(a, v6) == IpClass(b, v6) && TcpOptions(a, v6) == TcpOptions(b, v6)
  {}

  lemma LikeCanCoalesce(a: Packet, b: Packet, v6: bool)
    requires TcpShape(a, v6) && TcpShape(b, v6) && Like(a, v6) == Like(b, v6)
    ensures IpHeadersCanCoalesce(a, b)
  {
    LikeKey(a, b, v6);
    if v6 {
      assert IpClass(a, v6) == [a[0], a[1] / 16, a[7]] && IpClass(b, v6) == [b[0], b[1] / 16, b[7]];
    } else {
      assert IpClass(a, v6) == [a[1], a[6], a[8]] && IpClass(b, v6) == [b[1], b[6], b[8]];
    }
  }

  function Appended(target: Packet, pkt: Packet, headersLen: nat, flagsAt: nat, psh: bool): Packet
    requires flagsAt < headersLen <= |target| && headersLen <= |pkt|
  {
    (if psh then target[flagsAt := WithPsh(target[flagsAt])] else target) + pkt[headersLen..]
  }

  /** The decision to append: the item is made of full segments and the packet continues it. */
  lemma AppendMeans(pkt: Packet, arrival: TcpItem, item: TcpItem, target: Packet)
    requires TcpItemOk(item, target) && TcpItemOk(arrival, pkt) && arrival.key == item.key
    requires TcpPacketsCanCoalesce(pkt, arrival, item, target) == Append
    ensures var length := |target| - HeadersLen(target, item.key.v6);
            && length == Times(item.numMerged + 1, item.gsoSize)
            && arrival.sentSeq == ToU32(item.sentSeq + length)
    ensures !item.pshSet && arrival.gsoSize <= item.gsoSize
  {
    hide TcpPacketsCanCoalesce, TcpShape, IpConsistent, TcpKey;
    AppendDecision(pkt, arrival, item, target);
    FullSegments(|target| - HeadersLen(target, item.key.v6), item.gsoSize, item.numMerged + 1);
    OneMoreProduct(item.numMerged, item.gsoSize);
  }

  lemma OneMoreProduct(n: nat, d: nat)
    ensures d + n * d == Times(n + 1, d)
  {
    TimesIsProduct(n, d);
  }

  lemma AppendDecision(pkt: Packet, arrival: TcpItem, item: TcpItem, target: Packet)
    requires |pkt| >= arrival.iphLen + arrival.tcphLen && |target| >= item.iphLen + item.tcphLen
    requires arrival.iphLen == item.iphLen && item.gsoSize > 0
    requires TcpPacketsCanCoalesce(pkt, arrival, item, target) == Append
    ensures arrival.sentSeq == ToU32(item.sentSeq + (item.gsoSize + item.numMerged * item.gsoSize))
    ensures (|target| - item.iphLen - item.tcphLen) % item.gsoSize == 0
    ensures !item.pshSet && arrival.gsoSize <= item.gsoSize
  {
    hide ToU32;
  }

  /** The decision to prepend: the packet is one full segment that ends where the item starts. */
  lemma PrependMeans(pkt: Packet, arrival: TcpItem, item: TcpItem, target: Packet)
    requires TcpItemOk(item, target) && TcpItemOk(arrival, pkt) && arrival.key == item.key
    requires TcpPacketsCanCoalesce(pkt, arrival, item, target) == Prepend
    ensures ToU32(arrival.sentSeq + arrival.gsoSize) == item.sentSeq && !arrival.pshSet
    ensures arrival.gsoSize >= item.gsoSize && (arrival.gsoSize > item.gsoSize ==> item.numMerged == 0)
  {}

  /** An append adds the packet's segment at the end. */
  lemma AppendOk(pkt: Packet, arrival: TcpItem, item: TcpItem, target: Packet, merged: Packet, item': TcpItem)
    requires TcpItemOk(item, target) && TcpItemOk(arrival, pkt) && arrival.key == item.key && arrival.numMerged == 0
    requires TcpPacketsCanCoalesce(pkt, arrival, item, target) == Append
    requires merged == Appended(target, pkt, item.iphLen + item.tcphLen, item.iphLen + 13, arrival.pshSet)
    requires |merged| <= 0xffff && ChecksumsHold(0, pkt, item.iphLen, 6, item.key.v6)
    requires ChecksumsHold(item.numMerged, target, item.iphLen, 6, item.key.v6)
    requires item' == item.(numMerged := item.numMerged + 1, pshSet := item.pshSet || arrival.pshSet)
    ensures TcpItemOk(item', merged)
    ensures ItemSegments(item', merged) == ItemSegments(item, target) + [AsSegment(pkt, item.key.v6)]
  {
    hide TcpSegments, TcpPacketsCanCoalesce, IpConsistent, IpClass, TcpKey, TcpOptions, TcpHeaderLen, ChecksumValid,
         Appended, TcpShape;
    var v6 := item.key.v6;
    CoalescibleAlike(pkt, arrival, item, target);
    AppendMeans(pkt, arrival, item, target);
    var hl := HeadersLen(target, v6);
    var (payload, more) := (target[hl..], pkt[hl..]);
    HeadersFit(target, v6);
    HeadersFit(pkt, v6);
    AppendedIs(target, pkt, hl, item.iphLen + 13, arrival.pshSet, merged);
    AppendedHeaders(target, merged, v6, item.iphLen + 13);
    LikeKey(target, merged, v6);
    AppendSegment(Like(target, v6), item.sentSeq, item.gsoSize, payload, item.numMerged + 1, more);
  }

  lemma HeadersFit(pkt: Packet, v6: bool)
    requires TcpShape(pkt, v6)
    ensures IpHeaderLen(v6) + 20 <= HeadersLen(pkt, v6) < |pkt|
  {}

  lemma AppendedIs(target: Packet, pkt: Packet, hl: nat, flagsAt: nat, psh: bool, merged: Packet)
    requires flagsAt < hl <= |target| && hl <= |pkt| && merged == Appended(target, pkt, hl, flagsAt, psh)
    ensures |merged| == |target| + (|pkt| - hl) && merged[hl..] == target[hl..] + pkt[hl..]
    ensures forall k | 0 <= k < |target| && k != flagsAt :: merged[k] == target[k]
    ensures merged[flagsAt] == target[flagsAt] || merged[flagsAt] == WithPsh(target[flagsAt])
  {
    hide WithPsh;
  }

  /** Setting PSH and growing the payload keep the shape and what the segments have in common. */
  lemma AppendedHeaders(target: Packet, merged: Packet, v6: bool, flagsAt: nat)
    requires TcpShape(target, v6) && flagsAt == IpHeaderLen(v6) + 13 && |target| <= |merged| <= 0xffff
    requires forall k | 0 <= k < |target| && k != flagsAt :: merged[k] == target[k]
    requires merged[flagsAt] == target[flagsAt] || merged[flagsAt] == WithPsh(target[flagsAt])
    ensures TcpShape(merged, v6) && HeadersLen(merged, v6) == HeadersLen(target, v6)
    ensures Like(merged, v6) == Like(target, v6)
    ensures U32At(merged, IpHeaderLen(v6) + 4) == U32At(target, IpHeaderLen(v6) + 4)
  {
    var (off, size, hl) := (AddrOff(v6), AddrSize(v6), HeadersLen(target, v6));
    assert merged[off..off + size] == target[off..off + size];
    assert merged[off + size..off + 2 * size] == target[off + size..off + 2 * size];
    assert merged[IpHeaderLen(v6) + 20..hl] == target[IpHeaderLen(v6) + 20..hl];
  }

  /** A prepend adds the packet's segment at the front, under the packet's own headers. */
  lemma PrependOk(pkt: Packet, arrival: TcpItem, item: TcpItem, target: Packet, merged: Packet, item': TcpItem)
    requires TcpItemOk(item, target) && TcpItemOk(arrival, pkt) && arrival.key == item.key && arrival.numMerged == 0
    requires TcpPacketsCanCoalesce(pkt, arrival, item, target) == Prepend
    requires merged == pkt + target[item.iphLen + item.tcphLen..] && |merged| <= 0xffff
    requires ChecksumsHold(0, pkt, item.iphLen, 6, item.key.v6)
    requires ChecksumsHold(item.numMerged, target, item.iphLen, 6, item.key.v6)
    requires item' == item.(numMerged := item.numMerged + 1, sentSeq := arrival.sentSeq,
                            gsoSize := if arrival.gsoSize > item.gsoSize then arrival.gsoSize else item.gsoSize)
    ensures TcpItemOk(item', merged)
    ensures ItemSegments(item', merged) == [AsSegment(pkt, item.key.v6)] + ItemSegments(item, target)
  {
    hide TcpSegments, TcpPacketsCanCoalesce, IpConsistent, IpClass, TcpKey, TcpOptions, TcpHeaderLen, ChecksumValid, U32At,
         TcpShape;
    var v6 := item.key.v6;
    CoalescibleAlike(pkt, arrival, item, target);
    HeadersFit(target, v6);
    HeadersFit(pkt, v6);
    PrependMeans(pkt, arrival, item, target);
    var hl := HeadersLen(pkt, v6);
    var (first, payload) := (pkt[hl..], target[hl..]);
    AppendedHeaders(pkt, merged, v6, item.iphLen + 13);
    LikeKey(pkt, merged, v6);
    assert merged[hl..] == first + payload;
    assert item'.gsoSize == arrival.gsoSize == |first|;
    PrependSegment(Like(pkt, v6), arrival.sentSeq, item'.gsoSize, first, payload);
    SameSingle(Like(pkt, v6), item.sentSeq, item.gsoSize, item'.gsoSize, payload, item.numMerged);
  }

  /** A single segment stays single under a larger segment size. */
  lemma SameSingle(like: Desc, seqNum: u32, size: nat, larger: nat, payload: seq<byte>, merged: nat)
    requires like.TcpSegment? && 0 < size <= larger && |payload| > 0
    requires size < larger ==> merged == 0
    requires |payload| <= Times(merged + 1, size)
    ensures TcpSegments(like, seqNum, size, payload) == TcpSegments(like, seqNum, larger, payload)
    ensures |payload| <= Times(merged + 1, larger)
  {}

  // ---- UDP ----

  predicate UdpShape(pkt: Packet, v6: bool) {
    && IpHeaderLen(v6) + UDP_HDR_LEN < |pkt| <= 0xffff
    && (if v6 then pkt[0] / 16 == 6 && pkt[6] == 17
        else pkt[0] == 0x45 && pkt[9] == 17 && pkt[6] / 0x20 % 2 == 0 && pkt[6] % 0x20 == 0 && pkt[7] == 0)
  }

  function UdpLike(pkt: Packet, v6: bool): (d: Desc)
    requires UdpShape(pkt, v6)
    ensures d.UdpDatagram?
  {
    UdpDatagram(UdpKey(pkt, v6), IpClass(pkt, v6), [], true)
  }

  function AsDatagram(pkt: Packet, v6: bool): Desc
    requires UdpShape(pkt, v6)
  {
    UdpDatagram(UdpKey(pkt, v6), IpClass(pkt, v6), pkt[IpHeaderLen(v6) + UDP_HDR_LEN..],
                ChecksumValid(pkt, IpHeaderLen(v6), 17, v6))
  }

  lemma ParsedUdpShape(pkt: Packet, gro: Flags, v6: bool, index: nat)
    requires PacketIsGroCandidate(pkt, gro) == if v6 then Udp6 else Udp4
    ensures ParseUdp(pkt, index, v6).Some? <==> UdpShape(pkt, v6) && IpConsistent(pkt, v6)
    ensures ParseUdp(pkt, index, v6).Some? ==> Describe(pkt, gro) == AsDatagram(pkt, v6)
  {}

  lemma DescribedUdpShape(pkt: Packet, gro: Flags, v6: bool)
    requires UdpShape(pkt, v6) && IpConsistent(pkt, v6) && gro.canUdp
    ensures Describe(pkt, gro) == AsDatagram(pkt, v6)
  {}

  predicate UdpItemOk(item: UdpItem, pkt: Packet) {
    var v6 := item.key.v6;
    && UdpShape(pkt, v6) && item.key == UdpKey(pkt, v6) && item.iphLen == IpHeaderLen(v6) && item.gsoSize > 0
    && (var length := |pkt| - item.iphLen - UDP_HDR_LEN;
        && Times(item.numMerged, item.gsoSize) < length <= Times(item.numMerged + 1, item.gsoSize)
        && (item.numMerged == 0 ==> IpConsistent(pkt, v6) && item.gsoSize == length))
  }

  function ItemDatagrams(item: UdpItem, pkt: Packet): seq<Desc>
    requires UdpItemOk(item, pkt)
  {
    var like := UdpLike(pkt, item.key.v6);
    var verifies := ChecksumsHold(item.numMerged, pkt, item.iphLen, 17, item.key.v6);
    UdpDatagrams(like.(udpVerifies := verifies), item.gsoSize, pkt[item.iphLen + UDP_HDR_LEN..])
  }

  lemma MergedDatagrams(item: UdpItem, pkt: Packet)
    requires UdpItemOk(item, pkt) && item.numMerged > 0
    ensures ItemDatagrams(item, pkt)
         == UdpDatagrams(UdpLike(pkt, item.key.v6), item.gsoSize, pkt[item.iphLen + UDP_HDR_LEN..])
  {}

  lemma NewUdpItemOk(pkt: Packet, gro: Flags, v6: bool, arrival: UdpItem)
    requires PacketIsGroCandidate(pkt, gro) == if v6 then Udp6 else Udp4
    requires ParseUdp(pkt, arrival.bufsIndex, v6) == Some(arrival)
    ensures UdpItemOk(arrival, pkt) && ItemDatagrams(arrival, pkt) == [Describe(pkt, gro)]
  {
    ParsedUdpShape(pkt, gro, v6, arrival.bufsIndex);
  }

  lemma UdpAppendDecision(pkt: Packet, arrival: UdpItem, item: UdpItem, target: Packet)
    requires UdpItemOk(item, target) && UdpItemOk(arrival, pkt) && arrival.key == item.key
    requires UdpPacketsCanCoalesce(pkt, arrival, item, target) == Append
    ensures (|target| - item.iphLen - UDP_HDR_LEN) % item.gsoSize == 0 && arrival.gsoSize <= item.gsoSize
    ensures UdpLike(pkt, item.key.v6) == UdpLike(target, item.key.v6)
  {
    hide Times;
    assert IpHeadersCanCoalesce(pkt, target);
  }

  lemma UdpAppendedHeaders(target: Packet, merged: Packet, v6: bool)
    requires UdpShape(target, v6) && |target| <= |merged| <= 0xffff && merged[..|target|] == target
    ensures UdpShape(merged, v6) && UdpLike(merged, v6) == UdpLike(target, v6)
  {
    assert forall k | 0 <= k < |target| :: merged[k] == merged[..|target|][k];
    var (off, size) := (AddrOff(v6), AddrSize(v6));
    assert merged[off..off + size] == target[off..off + size];
    assert merged[off + size..off + 2 * size] == target[off + size..off + 2 * size];
  }

  /** A UDP append adds the datagram at the end. */
  lemma UdpAppendOk(pkt: Packet, arrival: UdpItem, item: UdpItem, target: Packet, merged: Packet, item': UdpItem)
    requires UdpItemOk(item, target) && UdpItemOk(arrival, pkt) && arrival.key == item.key && arrival.numMerged == 0
    requires UdpPacketsCanCoalesce(pkt, arrival, item, target) == Append
    requires merged == target + pkt[item.iphLen + UDP_HDR_LEN..] && |merged| <= 0xffff
    requires ChecksumsHold(0, pkt, item.iphLen, 17, item.key.v6)
    requires ChecksumsHold(item.numMerged, target, item.iphLen, 17, item.key.v6)
    requires item' == item.(numMerged := item.numMerged + 1)
    ensures UdpItemOk(item', merged)
    ensures ItemDatagrams(item', merged) == ItemDatagrams(item, target) + [AsDatagram(pkt, item.key.v6)]
  {
    hide UdpDatagrams, UdpPacketsCanCoalesce, IpConsistent, IpClass, ChecksumValid;
    var v6 := item.key.v6;
    UdpAppendDecision(pkt, arrival, item, target);
    var hl := item.iphLen + UDP_HDR_LEN;
    var (payload, more) := (target[hl..], pkt[hl..]);
    FullSegments(|payload|, item.gsoSize, item.numMerged + 1);
    UdpAppendedHeaders(target, merged, v6);
    assert merged[hl..] == payload + more;
    AppendDatagram(UdpLike(target, v6), item.gsoSize, payload, item.numMerged + 1, more);
  }
}
