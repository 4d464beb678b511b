/** `handle_gro` as it runs: buffers and flow tables changed in place, tied to the specification. */
module GroProcedure {
  import opened Bytes
  import opened VirtioNet
  import opened Gro
  import opened GroMerge
  import opened GroInvariant
  import opened GroSteps
  import opened GroAccount
  import opened GroRun
  import Checksum

  datatype GroError = InvalidOffset

  class TcpGroTable {
    var itemsByFlow: TcpTable

    constructor ()
      ensures itemsByFlow == map[]
    {
      itemsByFlow := map[];
    }

    method Reset()
      modifies this
      ensures itemsByFlow == map[]
    {
      itemsByFlow := map[];
    }

    method Push(item: TcpItem)
      modifies this
      ensures itemsByFlow == old(itemsByFlow)[item.key := Items(old(itemsByFlow), item.key) + [item]]
    {
      itemsByFlow := itemsByFlow[item.key := Items(itemsByFlow, item.key) + [item]];
    }
  }

  class UdpGroTable {
    var itemsByFlow: UdpTable

    constructor ()
      ensures itemsByFlow == map[]
    {
      itemsByFlow := map[];
    }

    method Reset()
      modifies this
      ensures itemsByFlow == map[]
    {
      itemsByFlow := map[];
    }

    method Push(item: UdpItem)
      modifies this
      ensures itemsByFlow == old(itemsByFlow)[item.key := Items(old(itemsByFlow), item.key) + [item]]
    {
      itemsByFlow := itemsByFlow[item.key := Items(itemsByFlow, item.key) + [item]];
    }
  }

  // ---- Merging ----

  /** `checksum_valid` */
  method CheckTransport(pkt: Packet, iphLen: nat, protocol: byte, v6: bool) returns (ok: bool)
    requires iphLen <= |pkt| <= 131072
    ensures ok == ChecksumValid(pkt, iphLen, protocol, v6)
  {
    var (off, size) := (AddrOff(v6), AddrSize(v6));
    if |pkt| < off + size * 2 {
      return false;
    }
    var psum := Checksum.PseudoHeader(protocol, pkt[off..off + size], pkt[off + size..off + 2 * size],
                                      ToU16(|pkt| - iphLen));
    var sum := Checksum.Sum(pkt[iphLen..], psum);
    ok := Checksum.Complement(sum) == 0;
  }

  /** `resize(len + more, 0)` within the capacity, then a copy into the new octets. */
  method Extend(b: Buf, more: seq<byte>) returns (r: Buf)
    ensures r == b.(bytes := b.bytes + more)
  {
    var resized := b.bytes + seq(|more|, k => 0);
    r := b.(bytes := PutSlice(resized, |b.bytes|, more));
    assert r.bytes == b.bytes + more;
  }

  /** The slots in use are filled with packets that fit their buffers. */
  predicate Fitted(bufs: seq<Buf>, offset: nat) {
    forall b | 0 <= b < |bufs| :: BufOk(bufs[b], offset)
  }

  /** Both packets' checksums, the item's only before its first merge. */
  method CheckBoth(arrival: TcpItem, item: TcpItem, target: Packet, pkt: Packet)
    returns (r: CoalesceResult)
    requires item.iphLen <= |target| <= 0xffff && item.iphLen <= |pkt| <= 0xffff
    ensures r == (if item.numMerged == 0 && !ChecksumValid(target, item.iphLen, 6, arrival.key.v6) then ItemInvalidCsum
                  else if !ChecksumValid(pkt, item.iphLen, 6, arrival.key.v6) then PktInvalidCsum
                  else Success)
  {
    hide ChecksumValid;
    if item.numMerged == 0 {
      var ok := CheckTransport(target, item.iphLen, 6, arrival.key.v6);
      if !ok {
        return ItemInvalidCsum;
      }
    }
    var ok := CheckTransport(pkt, item.iphLen, 6, arrival.key.v6);
    r := if ok then Success else PktInvalidCsum;
  }

  /** `coalesce_tcp_packets` on the first n buffers. */
  method CoalesceTcpPackets(mode: CanCoalesce, arrival: TcpItem, item: TcpItem, bufs: array<Buf>, offset: nat,
                            ghost n: nat)
    returns (r: CoalesceResult, item': TcpItem)
    requires item.bufsIndex < n <= bufs.Length && arrival.bufsIndex < n && Fitted(bufs[..n], offset)
    requires offset + item.iphLen + item.tcphLen <= |bufs[item.bufsIndex].bytes|
    requires offset + item.iphLen + item.tcphLen <= |bufs[arrival.bufsIndex].bytes|
    requires item.tcphLen >= 20
    modifies bufs
    ensures (r, item', bufs[..n]) == CoalesceTcp(mode, arrival, item, old(bufs[..n]), offset)
    ensures bufs[n..] == old(bufs[n..])
  {
    hide ChecksumValid, WithPsh;
    ghost var was := bufs[..n];
    item' := item;
    var headersLen := item.iphLen + item.tcphLen;
    var (at, other) := (item.bufsIndex, arrival.bufsIndex);
    assert BufOk(bufs[..n][at], offset) && BufOk(bufs[..n][other], offset);
    var pkt := bufs[other].bytes[offset..];
    var coalescedLen := |bufs[at].bytes| - offset + |pkt| - headersLen;
    var into := if mode == Prepend then other else at;
    if bufs[into].cap - offset < coalescedLen {
      return InsufficientCap, item;
    }
    if mode == Prepend && arrival.pshSet {
      return PshEnding, item;
    }
    r := CheckBoth(arrival, item, bufs[at].bytes[offset..], pkt);
    if r != Success {
      return;
    }
    if mode == Prepend {
      item' := item'.(sentSeq := arrival.sentSeq);
      var merged := Extend(bufs[other], bufs[at].bytes[offset + headersLen..]);
      bufs[other] := merged;
      bufs[at], bufs[other] := bufs[other], bufs[at];
      assert bufs[..n] == was[other := was[at]][at := merged];
    } else {
      if arrival.pshSet {
        item' := item'.(pshSet := true);
        var flagsAt := offset + item.iphLen + 13;
        bufs[at] := bufs[at].(bytes := bufs[at].bytes[flagsAt := WithPsh(bufs[at].bytes[flagsAt])]);
      }
      var merged := Extend(bufs[at], pkt[headersLen..]);
      bufs[at] := merged;
      assert bufs[..n] == was[at := merged];
    }
    if arrival.gsoSize > item.gsoSize {
      item' := item'.(gsoSize := arrival.gsoSize);
    }
    item' := item'.(numMerged := item.numMerged + 1);
  }

  /** `coalesce_udp_packets` on the first n buffers. */
  method CoalesceUdpPackets(arrival: UdpItem, item: UdpItem, bufs: array<Buf>, offset: nat, ghost n: nat)
    returns (r: CoalesceResult, item': UdpItem)
    requires item.bufsIndex < n <= bufs.Length && arrival.bufsIndex < n && Fitted(bufs[..n], offset)
    requires offset + item.iphLen + UDP_HDR_LEN <= |bufs[item.bufsIndex].bytes|
    requires offset + item.iphLen + UDP_HDR_LEN <= |bufs[arrival.bufsIndex].bytes|
    modifies bufs
    ensures (r, item', bufs[..n]) == CoalesceUdp(arrival, item, old(bufs[..n]), offset)
    ensures bufs[n..] == old(bufs[n..])
  {
    hide ChecksumValid;
    item' := item;
    var headersLen := item.iphLen + UDP_HDR_LEN;
    var at := item.bufsIndex;
    assert BufOk(bufs[..n][at], offset) && BufOk(bufs[..n][arrival.bufsIndex], offset);
    var pkt := bufs[arrival.bufsIndex].bytes[offset..];
    if bufs[at].cap - offset < |bufs[at].bytes| - offset + |pkt| - headersLen {
      return InsufficientCap, item;
    }
    if item.numMerged == 0 {
      var ok := CheckTransport(bufs[at].bytes[offset..], item.iphLen, 17, arrival.key.v6);
      if !ok {
        return ItemInvalidCsum, item;
      }
    }
    var ok := CheckTransport(pkt, item.iphLen, 17, arrival.key.v6);
    if !ok {
      return PktInvalidCsum, item;
    }
    var merged := Extend(bufs[at], pkt[headersLen..]);
    bufs[at] := merged;
    item' := item'.(numMerged := item.numMerged + 1);
    r := Success;
  }

  // ---- One packet ----

  lemma OnlySuccessMerges(mode: CanCoalesce, arrival: TcpItem, item: TcpItem, bufs: seq<Buf>, offset: nat)
    requires item.bufsIndex < |bufs| && arrival.bufsIndex < |bufs|
    requires offset + item.iphLen + item.tcphLen <= |bufs[item.bufsIndex].bytes|
    requires offset + item.iphLen + item.tcphLen <= |bufs[arrival.bufsIndex].bytes|
    requires item.tcphLen >= 20
    ensures var (r, item', bufs') := CoalesceTcp(mode, arrival, item, bufs, offset);
            r != Success ==> bufs' == bufs
  {}

  /** The backward loop of `tcp_gro` over the items of a flow. */
  method WalkItems(arrival: TcpItem, flow: seq<TcpItem>, bufs: array<Buf>, offset: nat, ghost n: nat)
    returns (outcome: GroResult, items: seq<TcpItem>)
    requires n <= bufs.Length && Fitted(bufs[..n], offset) && NewFits(arrival, bufs[..n], offset)
    requires forall k | 0 <= k < |flow| :: TcpItemFits(flow[k], arrival, bufs[..n], offset)
    modifies bufs
    ensures WalkResult(outcome, items, bufs[..n]) == Walk(arrival, flow, |flow|, old(bufs[..n]), offset)
    ensures bufs[n..] == old(bufs[n..])
  {
    hide TcpPacketsCanCoalesce, CoalesceTcp, BufOk;
    items := flow;
    var i := |items|;
    while i > 0
      invariant 0 <= i <= |items| && bufs[..] == old(bufs[..])
      invariant forall k | 0 <= k < i :: TcpItemFits(items[k], arrival, bufs[..n], offset)
      invariant Walk(arrival, items, i, bufs[..n], offset) == Walk(arrival, flow, |flow|, old(bufs[..n]), offset)
    {
      i := i - 1;
      var item := items[i];
      assert TcpItemFits(item, arrival, bufs[..n], offset);
      var can := TcpPacketsCanCoalesce(bufs[arrival.bufsIndex].bytes[offset..], arrival, item,
                                       bufs[item.bufsIndex].bytes[offset..]);
      if can != Unavailable {
        CanCoalesceSameHeaders(bufs[arrival.bufsIndex].bytes[offset..], arrival, item,
                               bufs[item.bufsIndex].bytes[offset..]);
        OnlySuccessMerges(can, arrival, item, bufs[..n], offset);
        var result, item' := CoalesceTcpPackets(can, arrival, item, bufs, offset, n);
        match result {
          case Success =>
            items := items[i := item'];
            return Coalesced, items;
          case ItemInvalidCsum =>
            items := items[..i] + items[i + 1..];
          case PktInvalidCsum =>
            return Noop, items;
          case _ =>
        }
      }
    }
    outcome := TableInsert;
  }

  /** The array, the tables and the write list are the state s; later slots are not yet looked at. */
  ghost predicate Mirrors(bufs: array<Buf>, tcp: TcpGroTable, udp: UdpGroTable, s: State)
    reads bufs, tcp, udp
  {
    && |s.bufs| <= bufs.Length && bufs[..|s.bufs|] == s.bufs
    && tcp.itemsByFlow == s.tcp && udp.itemsByFlow == s.udp
  }

  /** `tcp_gro` */
  method TcpGroRound(bufs: array<Buf>, offset: nat, i: nat, tcp: TcpGroTable, udp: UdpGroTable, v6: bool,
                     ghost s: State)
    returns (result: GroResult, ghost s': State)
    requires Mirrors(bufs, tcp, udp, s) && InPlace(s, offset, i) && i < |s.bufs| && Fitted(s.bufs, offset)
    requires |Pkt(s.bufs[i], offset)| >= IpHeaderLen(v6) + 20
    modifies bufs, tcp
    ensures (result, s') == TcpGro(s, offset, i, v6)
    ensures Mirrors(bufs, tcp, udp, s') && bufs[|s.bufs|..] == old(bufs[|s.bufs|..])
  {
    hide ParseTcp, Walk, InPlace, BufOk;
    s' := TcpGro(s, offset, i, v6).1;
    ghost var n := |s.bufs|;
    assert bufs[i] == s.bufs[i];
    Headroom(s, offset, i);
    var parsed := ParseTcp(bufs[i].bytes[offset..], i, v6);
    if parsed.None? {
      return Noop, s';
    }
    var arrival := parsed.value;
    ParsedFields(Pkt(s.bufs[i], offset), i, v6, arrival);
    FlowFits(s, offset, i, arrival);
    var flow := Items(tcp.itemsByFlow, arrival.key);
    var outcome, items := WalkItems(arrival, flow, bufs, offset, n);
    tcp.itemsByFlow := tcp.itemsByFlow[arrival.key := items];
    if outcome == TableInsert {
      tcp.Push(arrival);
    }
    result := outcome;
  }

  /** `udp_gro` */
  method UdpGroRound(bufs: array<Buf>, offset: nat, i: nat, tcp: TcpGroTable, udp: UdpGroTable, v6: bool,
                     ghost s: State)
    returns (result: GroResult, ghost s': State)
    requires Mirrors(bufs, tcp, udp, s) && InPlace(s, offset, i) && i < |s.bufs| && Fitted(s.bufs, offset)
    requires |Pkt(s.bufs[i], offset)| >= IpHeaderLen(v6) + 8
    modifies bufs, udp
    ensures (result, s') == UdpGro(s, offset, i, v6)
    ensures Mirrors(bufs, tcp, udp, s') && bufs[|s.bufs|..] == old(bufs[|s.bufs|..])
  {
    hide ParseUdp, UdpPacketsCanCoalesce, CoalesceUdp, BufOk;
    s' := UdpGro(s, offset, i, v6).1;
    ghost var n := |s.bufs|;
    assert bufs[i] == s.bufs[i];
    var pkt := bufs[i].bytes[offset..];
    var parsed := ParseUdp(pkt, i, v6);
    if parsed.None? {
      return Noop, s';
    }
    var arrival := parsed.value;
    ParsedUdpFields(pkt, i, v6, arrival);
    var items := Items(udp.itemsByFlow, arrival.key);
    if items != [] {
      var last := |items| - 1;
      var item := items[last];
      assert UdpItemInPlace(s.udp[arrival.key][last], arrival.key, s.bufs, offset, i);
      if UdpPacketsCanCoalesce(pkt, arrival, item, bufs[item.bufsIndex].bytes[offset..]) == Append {
        var r, item' := CoalesceUdpPackets(arrival, item, bufs, offset, n);
        OnlyUdpSuccessMerges(arrival, item, s.bufs, offset);
        if r == Success {
          udp.itemsByFlow := udp.itemsByFlow[arrival.key := items[last := item']];
          return Coalesced, s';
        }
      }
    }
    udp.Push(arrival);
    result := TableInsert;
  }

  lemma OnlyUdpSuccessMerges(arrival: UdpItem, item: UdpItem, bufs: seq<Buf>, offset: nat)
    requires item.bufsIndex < |bufs| && arrival.bufsIndex < |bufs|
    requires offset + item.iphLen + UDP_HDR_LEN <= |bufs[item.bufsIndex].bytes|
    requires offset + item.iphLen + UDP_HDR_LEN <= |bufs[arrival.bufsIndex].bytes|
    ensures var (r, item', bufs') := CoalesceUdp(arrival, item, bufs, offset);
            r != Success ==> bufs' == bufs
  {}

  lemma GroKeepsOthers(s: State, offset: nat, i: nat, v6: bool)
    requires InPlace(s, offset, i) && i < |s.bufs|
    ensures |Pkt(s.bufs[i], offset)| >= IpHeaderLen(v6) + 20 ==>
              var (r, s') := TcpGro(s, offset, i, v6);
              s'.toWrite == s.toWrite && |s'.bufs| == |s.bufs| && (r == Noop ==> s'.bufs == s.bufs)
    ensures |Pkt(s.bufs[i], offset)| >= IpHeaderLen(v6) + 8 ==>
              var (r, s') := UdpGro(s, offset, i, v6);
              s'.toWrite == s.toWrite && |s'.bufs| == |s.bufs| && (r == Noop ==> s'.bufs == s.bufs)
  {
    hide ParseTcp, ParseUdp, UdpPacketsCanCoalesce;
    if |Pkt(s.bufs[i], offset)| >= IpHeaderLen(v6) + 20 {
      var parsed := ParseTcp(Pkt(s.bufs[i], offset), i, v6);
      if parsed.Some? {
        ParsedFields(Pkt(s.bufs[i], offset), i, v6, parsed.value);
        FlowFits(s, offset, i, parsed.value);
      }
    }
  }

  /** One round of the loop of `handle_gro`. */
  method Round(bufs: array<Buf>, offset: nat, i: nat, tcp: TcpGroTable, udp: UdpGroTable, gro: Flags, little: bool,
               toWrite: seq<nat>, ghost s: State)
    returns (toWrite': seq<nat>)
    requires Mirrors(bufs, tcp, udp, s) && InPlace(s, offset, i) && i < |s.bufs| && Fitted(s.bufs, offset)
    requires toWrite == s.toWrite
    modifies bufs, tcp, udp
    ensures var s' := Step(s, offset, i, gro, little);
            Mirrors(bufs, tcp, udp, s') && toWrite' == s'.toWrite && |s'.bufs| == |s.bufs|
    ensures bufs[|s.bufs|..] == old(bufs[|s.bufs|..])
  {
    hide InPlace, TcpGro, UdpGro, BufOk, Encode, WithHeader, ChecksumValid;
    ghost var s' := s;
    var result := Noop;
    assert bufs[i] == s.bufs[i];
    Headroom(s, offset, i);
    GroKeepsOthers(s, offset, i, false);
    GroKeepsOthers(s, offset, i, true);
    match PacketIsGroCandidate(bufs[i].bytes[offset..], gro) {
      case Tcp4 => result, s' := TcpGroRound(bufs, offset, i, tcp, udp, false, s);
      case Tcp6 => result, s' := TcpGroRound(bufs, offset, i, tcp, udp, true, s);
      case Udp4 => result, s' := UdpGroRound(bufs, offset, i, tcp, udp, false, s);
      case Udp6 => result, s' := UdpGroRound(bufs, offset, i, tcp, udp, true, s);
      case NotCandidate =>
    }
    toWrite' := toWrite;
    match result {
      case Noop =>
        assert bufs[i] == s.bufs[i];
        bufs[i] := WithHeader(bufs[i], offset, EMPTY, little);
        toWrite' := toWrite' + [i];
      case TableInsert =>
        toWrite' := toWrite' + [i];
      case Coalesced =>
    }
  }

  // ---- Accounting ----

  /** What one accounting round needs of its item. */
  predicate TcpAccountable(item: TcpItem, bufs: seq<Buf>, offset: nat) {
    && item.bufsIndex < |bufs| && HDR_LEN <= offset
    && offset + IpHeaderLen(item.key.v6) <= |bufs[item.bufsIndex].bytes| <= offset + 0xffff
    && item.iphLen == IpHeaderLen(item.key.v6) && item.tcphLen <= 60
  }

  predicate UdpAccountable(item: UdpItem, bufs: seq<Buf>, offset: nat) {
    && item.bufsIndex < |bufs| && HDR_LEN <= offset
    && offset + IpHeaderLen(item.key.v6) + UDP_HDR_LEN <= |bufs[item.bufsIndex].bytes| <= offset + 0xffff
    && item.iphLen == IpHeaderLen(item.key.v6)
  }

  /** The IP length fields of `apply_*_coalesce_accounting`. */
  method FixIpLength(pkt: Packet, v6: bool) returns (r: Packet)
    requires IpHeaderLen(v6) <= |pkt|
    ensures r == WithIpLength(pkt, v6)
  {
    hide Checksum.WordSum, Checksum.Fold, Checksum.Complement;
    r := pkt;
    if v6 {
      r := PutU16(r, 4, ToU16(|r| - 40));
    } else {
      r := PutU16(r, 10, 0);
      r := PutU16(r, 2, ToU16(|r|));
      var sum := Checksum.Sum(r[..20], 0);
      r := PutU16(r, 10, Checksum.Complement(sum));
    }
  }

  /** The pseudo header sum, folded once more by `checksum(&[], psum)`. */
  method StorePseudoSum(pkt: Packet, v6: bool, protocol: byte, csumAt: nat) returns (r: Packet)
    requires IpHeaderLen(v6) <= |pkt|
    ensures r == WithPseudoSum(pkt, v6, protocol, csumAt)
  {
    var (off, size) := (AddrOff(v6), AddrSize(v6));
    var psum := Checksum.PseudoHeader(protocol, pkt[off..off + size], pkt[off + size..off + 2 * size],
                                      ToU16(|pkt| - IpHeaderLen(v6)));
    var sum := Checksum.Sum([], psum);
    Checksum.FoldIsUnique(psum, psum, 0);
    r := if csumAt + 2 <= |pkt| then PutU16(pkt, csumAt, sum) else pkt;
  }

  /** One round of `apply_tcp_coalesce_accounting`. */
  method AccountTcpItem(item: TcpItem, bufs: array<Buf>, offset: nat, little: bool)
    requires TcpAccountable(item, bufs[..], offset)
    modifies bufs
    ensures bufs[..] == old(bufs[..])[item.bufsIndex := AccountTcp(item, old(bufs[item.bufsIndex]), offset, little)]
  {
    hide Encode, WithIpLength, WithPseudoSum;
    var b := bufs[item.bufsIndex];
    if item.numMerged > 0 {
      bufs[item.bufsIndex] := WithHeader(b, offset, TcpGsoHeader(item), little);
      var pkt := FixIpLength(b.bytes[offset..], item.key.v6);
      pkt := StorePseudoSum(pkt, item.key.v6, 6, item.iphLen + CSUM_OFFSET_TCP);
      bufs[item.bufsIndex] := WithPkt(bufs[item.bufsIndex], offset, pkt);
    } else {
      bufs[item.bufsIndex] := WithHeader(b, offset, EMPTY, little);
    }
  }

  /** One round of `apply_udp_coalesce_accounting`. */
  method AccountUdpItem(item: UdpItem, bufs: array<Buf>, offset: nat, little: bool)
    requires UdpAccountable(item, bufs[..], offset)
    modifies bufs
    ensures bufs[..] == old(bufs[..])[item.bufsIndex := AccountUdp(item, old(bufs[item.bufsIndex]), offset, little)]
  {
    hide Encode, WithIpLength, WithPseudoSum;
    var b := bufs[item.bufsIndex];
    if item.numMerged > 0 {
      bufs[item.bufsIndex] := WithHeader(b, offset, UdpGsoHeader(item), little);
      var pkt := FixIpLength(b.bytes[offset..], item.key.v6);
      pkt := PutU16(pkt, item.iphLen + 4, ToU16(|pkt| - item.iphLen));
      pkt := StorePseudoSum(pkt, item.key.v6, 17, item.iphLen + CSUM_OFFSET_UDP);
      bufs[item.bufsIndex] := WithPkt(bufs[item.bufsIndex], offset, pkt);
    } else {
      bufs[item.bufsIndex] := WithHeader(b, offset, EMPTY, little);
    }
  }

  /** No two TCP items share a buffer. */
  ghost predicate TcpApart(tcp: TcpTable) {
    && (forall key | key in tcp :: Distinct(tcp[key]))
    && forall k1, k2, a, b | k1 in tcp && k2 in tcp && a in tcp[k1] && b in tcp[k2] && a.bufsIndex == b.bufsIndex :: k1 == k2
  }

  ghost predicate UdpApart(udp: UdpTable) {
    && (forall key | key in udp :: UdpDistinct(udp[key]))
    && forall k1, k2, a, b | k1 in udp && k2 in udp && a in udp[k1] && b in udp[k2] && a.bufsIndex == b.bufsIndex :: k1 == k2
  }

  predicate NamedBy(items: seq<TcpItem>, b: nat) {
    exists k | 0 <= k < |items| :: items[k].bufsIndex == b
  }

  predicate UdpNamedBy(items: seq<UdpItem>, b: nat) {
    exists k | 0 <= k < |items| :: items[k].bufsIndex == b
  }

  /** The inner loop: one flow. */
  method AccountTcpFlow(items: seq<TcpItem>, bufs: array<Buf>, offset: nat, little: bool)
    requires Distinct(items) && forall item | item in items :: TcpAccountable(item, bufs[..], offset)
    modifies bufs
    ensures forall item | item in items :: TcpWritten(item, old(bufs[..]), bufs[..], offset, little)
    ensures forall b | 0 <= b < bufs.Length && !NamedBy(items, b) :: bufs[b] == old(bufs[b])
  {
    hide AccountTcp;
    for j := 0 to |items|
      invariant forall k | 0 <= k < j :: TcpWritten(items[k], old(bufs[..]), bufs[..], offset, little)
      invariant forall b | 0 <= b < bufs.Length && !NamedBy(items[..j], b) :: bufs[b] == old(bufs[b])
    {
      assert items[j] in items;
      assert !NamedBy(items[..j], items[j].bufsIndex);
      assert bufs[items[j].bufsIndex] == old(bufs[..])[items[j].bufsIndex];
      AccountTcpItem(items[j], bufs, offset, little);
      forall b | 0 <= b < bufs.Length && !NamedBy(items[..j + 1], b) ensures bufs[b] == old(bufs[b]) {
        assert items[..j + 1][j] == items[j];
        assert forall k | 0 <= k < j :: items[..j + 1][k] == items[..j][k];
      }
    }
    assert items[..|items|] == items;
  }

  method AccountUdpFlow(items: seq<UdpItem>, bufs: array<Buf>, offset: nat, little: bool)
    requires UdpDistinct(items) && forall item | item in items :: UdpAccountable(item, bufs[..], offset)
    modifies bufs
    ensures forall item | item in items :: UdpWritten(item, old(bufs[..]), bufs[..], offset, little)
    ensures forall b | 0 <= b < bufs.Length && !UdpNamedBy(items, b) :: bufs[b] == old(bufs[b])
  {
    hide AccountUdp;
    for j := 0 to |items|
      invariant forall k | 0 <= k < j :: UdpWritten(items[k], old(bufs[..]), bufs[..], offset, little)
      invariant forall b | 0 <= b < bufs.Length && !UdpNamedBy(items[..j], b) :: bufs[b] == old(bufs[b])
    {
      assert items[j] in items;
      assert !UdpNamedBy(items[..j], items[j].bufsIndex);
      assert bufs[items[j].bufsIndex] == old(bufs[..])[items[j].bufsIndex];
      AccountUdpItem(items[j], bufs, offset, little);
      forall b | 0 <= b < bufs.Length && !UdpNamedBy(items[..j + 1], b) ensures bufs[b] == old(bufs[b]) {
        assert items[..j + 1][j] == items[j];
        assert forall k | 0 <= k < j :: items[..j + 1][k] == items[..j][k];
      }
    }
    assert items[..|items|] == items;
  }

  ghost predicate TcpOwned(tcp: TcpTable, keys: set<TcpFlowKey>, b: nat) {
    exists key, item :: key in keys && key in tcp && item in tcp[key] && item.bufsIndex == b
  }

  /** The flows in keys have been accounted for, and nothing else has changed. */
  ghost predicate TcpDone(tcp: TcpTable, keys: set<TcpFlowKey>, was: seq<Buf>, now: seq<Buf>, offset: nat,
                          little: bool) {
    && |now| == |was|
    && (forall key, item | key in keys && key in tcp && item in tcp[key] :: TcpWritten(item, was, now, offset, little))
    && forall b | 0 <= b < |was| && !TcpOwned(tcp, keys, b) :: now[b] == was[b]
  }

  lemma TcpFlowPending(tcp: TcpTable, keys: set<TcpFlowKey>, key: TcpFlowKey, was: seq<Buf>, now: seq<Buf>,
                       offset: nat, little: bool)
    requires TcpApart(tcp) && key in tcp && key !in keys && TcpDone(tcp, keys, was, now, offset, little)
    requires forall item | item in tcp[key] :: TcpAccountable(item, was, offset)
    ensures forall item | item in tcp[key] ::
              TcpAccountable(item, now, offset) && now[item.bufsIndex] == was[item.bufsIndex]
  {
    hide TcpWritten, Distinct;
    forall item | item in tcp[key]
      ensures TcpAccountable(item, now, offset) && now[item.bufsIndex] == was[item.bufsIndex]
    {
      assert TcpAccountable(item, was, offset);
      assert !TcpOwned(tcp, keys, item.bufsIndex);
    }
  }

  lemma TcpFlowDone(tcp: TcpTable, keys: set<TcpFlowKey>, key: TcpFlowKey, was: seq<Buf>, before: seq<Buf>,
                    now: seq<Buf>, offset: nat, little: bool)
    requires TcpApart(tcp) && key in tcp && key !in keys && TcpDone(tcp, keys, was, before, offset, little)
    requires |now| == |was| && forall item | item in tcp[key] :: TcpWritten(item, before, now, offset, little)
    requires forall item | item in tcp[key] :: item.bufsIndex < |was| && before[item.bufsIndex] == was[item.bufsIndex]
    requires forall b | 0 <= b < |was| && !NamedBy(tcp[key], b) :: now[b] == before[b]
    ensures TcpDone(tcp, keys + {key}, was, now, offset, little)
  {
    hide AccountTcp, Distinct;
    var more := keys + {key};
    forall k, item | k in more && k in tcp && item in tcp[k] ensures TcpWritten(item, was, now, offset, little) {
      if k != key {
        assert TcpWritten(item, was, before, offset, little);
        assert !NamedBy(tcp[key], item.bufsIndex);
      }
    }
    forall b | 0 <= b < |was| && !TcpOwned(tcp, more, b) ensures now[b] == was[b] {
      assert !TcpOwned(tcp, keys, b);
      assert !NamedBy(tcp[key], b);
    }
  }

  /** `apply_tcp_coalesce_accounting`: flows in whatever order the map yields them. */
  method ApplyTcpAccounting(table: TcpGroTable, bufs: array<Buf>, offset: nat, little: bool)
    requires TcpApart(table.itemsByFlow)
    requires forall key, item | key in table.itemsByFlow && item in table.itemsByFlow[key] ::
               TcpAccountable(item, bufs[..], offset)
    modifies bufs
    ensures TcpDone(table.itemsByFlow, table.itemsByFlow.Keys, old(bufs[..]), bufs[..], offset, little)
  {
    hide TcpWritten, TcpAccountable, TcpDone;
    ghost var was := bufs[..];
    var tcp := table.itemsByFlow;
    var rest := tcp.Keys;
    ghost var done: set<TcpFlowKey> := {};
    TcpNothingDone(tcp, was, offset, little);
    while rest != {}
      invariant rest !! done && rest + done == tcp.Keys
      invariant TcpDone(tcp, done, was, bufs[..], offset, little)
      decreases |rest|
    {
      var key :| key in rest;
      ghost var before := bufs[..];
      TcpFlowPending(tcp, done, key, was, before, offset, little);
      AccountTcpFlow(tcp[key], bufs, offset, little);
      TcpFlowFrame(tcp[key], before, bufs[..], was, offset);
      TcpFlowDone(tcp, done, key, was, before, bufs[..], offset, little);
      rest := rest - {key};
      done := done + {key};
    }
    assert done == tcp.Keys;
  }

  lemma TcpNothingDone(tcp: TcpTable, was: seq<Buf>, offset: nat, little: bool)
    ensures TcpDone(tcp, {}, was, was, offset, little)
  {}

  lemma TcpFlowFrame(items: seq<TcpItem>, before: seq<Buf>, now: seq<Buf>, was: seq<Buf>, offset: nat)
    requires |before| == |now| == |was| && forall item | item in items :: TcpAccountable(item, before, offset)
    ensures forall item | item in items :: item.bufsIndex < |was|
  {}

  ghost predicate UdpOwned(udp: UdpTable, keys: set<UdpFlowKey>, b: nat) {
    exists key, item :: key in keys && key in udp && item in udp[key] && item.bufsIndex == b
  }

  ghost predicate UdpDone(udp: UdpTable, keys: set<UdpFlowKey>, was: seq<Buf>, now: seq<Buf>, offset: nat,
                          little: bool) {
    && |now| == |was|
    && (forall key, item | key in keys && key in udp && item in udp[key] :: UdpWritten(item, was, now, offset, little))
    && forall b | 0 <= b < |was| && !UdpOwned(udp, keys, b) :: now[b] == was[b]
  }

  lemma UdpFlowPending(udp: UdpTable, keys: set<UdpFlowKey>, key: UdpFlowKey, was: seq<Buf>, now: seq<Buf>,
                       offset: nat, little: bool)
    requires UdpApart(udp) && key in udp && key !in keys && UdpDone(udp, keys, was, now, offset, little)
    requires forall item | item in udp[key] :: UdpAccountable(item, was, offset)
    ensures forall item | item in udp[key] ::
              UdpAccountable(item, now, offset) && now[item.bufsIndex] == was[item.bufsIndex]
  {
    hide UdpWritten, UdpDistinct;
    forall item | item in udp[key]
      ensures UdpAccountable(item, now, offset) && now[item.bufsIndex] == was[item.bufsIndex]
    {
      assert UdpAccountable(item, was, offset);
      assert !UdpOwned(udp, keys, item.bufsIndex);
    }
  }

  lemma UdpFlowDone(udp: UdpTable, keys: set<UdpFlowKey>, key: UdpFlowKey, was: seq<Buf>, before: seq<Buf>,
                    now: seq<Buf>, offset: nat, little: bool)
    requires UdpApart(udp) && key in udp && key !in keys && UdpDone(udp, keys, was, before, offset, little)
    requires |now| == |was| && forall item | item in udp[key] :: UdpWritten(item, before, now, offset, little)
    requires forall item | item in udp[key] :: item.bufsIndex < |was| && before[item.bufsIndex] == was[item.bufsIndex]
    requires forall b | 0 <= b < |was| && !UdpNamedBy(udp[key], b) :: now[b] == before[b]
    ensures UdpDone(udp, keys + {key}, was, now, offset, little)
  {
    hide AccountUdp, UdpDistinct;
    var more := keys + {key};
    forall k, item | k in more && k in udp && item in udp[k] ensures UdpWritten(item, was, now, offset, little) {
      if k != key {
        assert UdpWritten(item, was, before, offset, little);
        assert !UdpNamedBy(udp[key], item.bufsIndex);
      }
    }
    forall b | 0 <= b < |was| && !UdpOwned(udp, more, b) ensures now[b] == was[b] {
      assert !UdpOwned(udp, keys, b);
      assert !UdpNamedBy(udp[key], b);
    }
  }

  /** `apply_udp_coalesce_accounting`. */
  method ApplyUdpAccounting(table: UdpGroTable, bufs: array<Buf>, offset: nat, little: bool)
    requires UdpApart(table.itemsByFlow)
    requires forall key, item | key in table.itemsByFlow && item in table.itemsByFlow[key] ::
               UdpAccountable(item, bufs[..], offset)
    modifies bufs
    ensures UdpDone(table.itemsByFlow, table.itemsByFlow.Keys, old(bufs[..]), bufs[..], offset, little)
  {
    hide UdpWritten, UdpAccountable, UdpDone;
    ghost var was := bufs[..];
    var udp := table.itemsByFlow;
    var rest := udp.Keys;
    ghost var done: set<UdpFlowKey> := {};
    UdpNothingDone(udp, was, offset, little);
    while rest != {}
      invariant rest !! done && rest + done == udp.Keys
      invariant UdpDone(udp, done, was, bufs[..], offset, little)
      decreases |rest|
    {
      var key :| key in rest;
      ghost var before := bufs[..];
      UdpFlowPending(udp, done, key, was, before, offset, little);
      AccountUdpFlow(udp[key], bufs, offset, little);
      UdpFlowFrame(udp[key], before, bufs[..], was, offset);
      UdpFlowDone(udp, done, key, was, before, bufs[..], offset, little);
      rest := rest - {key};
      done := done + {key};
    }
    assert done == udp.Keys;
  }

  lemma UdpNothingDone(udp: UdpTable, was: seq<Buf>, offset: nat, little: bool)
    ensures UdpDone(udp, {}, was, was, offset, little)
  {}

  lemma UdpFlowFrame(items: seq<UdpItem>, before: seq<Buf>, now: seq<Buf>, was: seq<Buf>, offset: nat)
    requires |before| == |now| == |was| && forall item | item in items :: UdpAccountable(item, before, offset)
    ensures forall item | item in items :: item.bufsIndex < |was|
  {}
}
