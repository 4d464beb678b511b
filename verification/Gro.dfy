/** Merging small packets into offloaded ones (`handle_gro`): decisions and specification. */
module Gro {
  import opened Bytes
  import opened Checksum
  import opened VirtioNet
  import GsoSplit

  const TCP_FLAG_PSH := 0x08
  const TCP_FLAG_ACK := 0x10
  const UDP_HDR_LEN := 8
  const CSUM_OFFSET_TCP := 16
  const CSUM_OFFSET_UDP := 6

  /** A `Vec<u8>`: its contents and the capacity that `resize` may use without moving. */
  datatype Buf = Buf(bytes: seq<byte>, cap: nat)

  datatype Candidate = NotCandidate | Tcp4 | Tcp6 | Udp4 | Udp6

  /** `GroDisablementFlags`, as what is still allowed. */
  datatype Flags = Flags(canTcp: bool, canUdp: bool)

  datatype TcpFlowKey = TcpFlowKey(
    srcAddr: seq<byte>, dstAddr: seq<byte>, srcPort: u16, dstPort: u16, rxAck: u32, v6: bool)

  datatype UdpFlowKey = UdpFlowKey(srcAddr: seq<byte>, dstAddr: seq<byte>, srcPort: u16, dstPort: u16, v6: bool)

  datatype TcpItem = TcpItem(
    key: TcpFlowKey, sentSeq: u32, bufsIndex: nat, numMerged: nat, gsoSize: u16, iphLen: nat, tcphLen: nat,
    pshSet: bool)

  datatype UdpItem = UdpItem(key: UdpFlowKey, bufsIndex: nat, numMerged: nat, gsoSize: u16, iphLen: nat)

  datatype CanCoalesce = Prepend | Unavailable | Append

  datatype CoalesceResult = InsufficientCap | PshEnding | ItemInvalidCsum | PktInvalidCsum | Success

  datatype GroResult = Noop | TableInsert | Coalesced

  type TcpTable = map<TcpFlowKey, seq<TcpItem>>
  type UdpTable = map<UdpFlowKey, seq<UdpItem>>

  // ---- Classification ----

  function PacketIsGroCandidate(b: Packet, gro: Flags): Candidate {
    if |b| < 28 then NotCandidate
    else if b[0] / 16 == 4 then
      if b[0] % 16 != 5 then NotCandidate
      else if b[9] == 6 && |b| >= 40 && gro.canTcp then Tcp4
      else if b[9] == 17 && gro.canUdp then Udp4
      else NotCandidate
    else if b[0] / 16 == 6 then
      if b[6] == 6 && |b| >= 60 && gro.canTcp then Tcp6
      else if b[6] == 17 && |b| >= 48 && gro.canUdp then Udp6
      else NotCandidate
    else NotCandidate
  }

  /** The IP length field agrees with the buffer, and an IPv4 packet is no fragment. */
  predicate IpConsistent(pkt: Packet, v6: bool)
    requires |pkt| >= IpHeaderLen(v6)
  {
    if v6 then U16At(pkt, 4) == |pkt| - 40
    else U16At(pkt, 2) == |pkt| && pkt[6] / 0x20 % 2 == 0 && pkt[6] % 0x20 == 0 && pkt[7] == 0
  }

  function TcpKey(pkt: Packet, v6: bool): TcpFlowKey
    requires |pkt| >= IpHeaderLen(v6) + 20
  {
    var iph := IpHeaderLen(v6);
    var (off, size) := (AddrOff(v6), AddrSize(v6));
    TcpFlowKey(pkt[off..off + size], pkt[off + size..off + 2 * size],
               U16At(pkt, iph), U16At(pkt, iph + 2), U32At(pkt, iph + 8), v6)
  }

  function UdpKey(pkt: Packet, v6: bool): UdpFlowKey
    requires |pkt| >= IpHeaderLen(v6) + 8
  {
    var iph := IpHeaderLen(v6);
    var (off, size) := (AddrOff(v6), AddrSize(v6));
    UdpFlowKey(pkt[off..off + size], pkt[off + size..off + 2 * size], U16At(pkt, iph), U16At(pkt, iph + 2), v6)
  }

  function TcpHeaderLen(pkt: Packet, v6: bool): nat
    requires |pkt| >= IpHeaderLen(v6) + 20
  {
    pkt[IpHeaderLen(v6) + 12] / 16 * 4
  }

  /** The item `tcp_gro` would insert for a packet; `None` where it answers Noop before the table. */
  function ParseTcp(pkt: Packet, index: nat, v6: bool): Option<TcpItem>
    requires |pkt| >= IpHeaderLen(v6) + 20
  {
    var iph := IpHeaderLen(v6);
    var tcph := TcpHeaderLen(pkt, v6);
    var flags := pkt[iph + 13];
    if |pkt| > 0xffff || !IpConsistent(pkt, v6) || tcph < 20 || |pkt| < iph + tcph then None
    else if flags != TCP_FLAG_ACK && flags != TCP_FLAG_ACK + TCP_FLAG_PSH then None
    else if |pkt| - tcph - iph < 1 then None
    else Some(TcpItem(TcpKey(pkt, v6), U32At(pkt, iph + 4), index, 0, |pkt| - tcph - iph, iph, tcph,
                      flags != TCP_FLAG_ACK))
  }

  function ParseUdp(pkt: Packet, index: nat, v6: bool): Option<UdpItem>
    requires |pkt| >= IpHeaderLen(v6) + 8
  {
    var iph := IpHeaderLen(v6);
    if |pkt| > 0xffff || !IpConsistent(pkt, v6) || |pkt| - UDP_HDR_LEN - iph < 1 then None
    else Some(UdpItem(UdpKey(pkt, v6), index, 0, |pkt| - UDP_HDR_LEN - iph, iph))
  }

  // ---- Whether two packets can be merged ----

  predicate IpHeadersCanCoalesce(a: Packet, b: Packet) {
    && |a| >= 9 && |b| >= 9
    && if a[0] / 16 == 6 then a[0] == b[0] && a[1] / 16 == b[1] / 16 && a[7] == b[7]
       else a[1] == b[1] && a[6] / 0x20 == b[6] / 0x20 && a[8] == b[8]
  }

  /** `arrival` is the parsed incoming packet `pkt`; `target` is the packet in the item's buffer. */
  function TcpPacketsCanCoalesce(pkt: Packet, arrival: TcpItem, item: TcpItem, target: Packet): CanCoalesce
    requires |pkt| >= arrival.iphLen + arrival.tcphLen && |target| >= item.iphLen + item.tcphLen
    requires arrival.iphLen == item.iphLen && item.gsoSize > 0
  {
    if arrival.tcphLen != item.tcphLen then Unavailable
    else if arrival.tcphLen > 20
            && pkt[arrival.iphLen + 20..arrival.iphLen + arrival.tcphLen]
               != target[item.iphLen + 20..item.iphLen + arrival.tcphLen]
    then Unavailable
    else if !IpHeadersCanCoalesce(pkt, target) then Unavailable
    else if arrival.sentSeq == ToU32(item.sentSeq + (item.gsoSize + item.numMerged * item.gsoSize)) then
      if item.pshSet then Unavailable
      else if (|target| - arrival.iphLen - arrival.tcphLen) % item.gsoSize != 0 then Unavailable
      else if arrival.gsoSize > item.gsoSize then Unavailable
      else Append
    else if ToU32(arrival.sentSeq + arrival.gsoSize) == item.sentSeq then
      if arrival.pshSet then Unavailable
      else if arrival.gsoSize < item.gsoSize then Unavailable
      else if arrival.gsoSize > item.gsoSize && item.numMerged > 0 then Unavailable
      else Prepend
    else Unavailable
  }

  function UdpPacketsCanCoalesce(pkt: Packet, arrival: UdpItem, item: UdpItem, target: Packet): CanCoalesce
    requires |target| >= arrival.iphLen + UDP_HDR_LEN && item.gsoSize > 0
  {
    if !IpHeadersCanCoalesce(pkt, target) then Unavailable
    else if (|target| - arrival.iphLen - UDP_HDR_LEN) % item.gsoSize != 0 then Unavailable
    else if arrival.gsoSize > item.gsoSize then Unavailable
    else Append
  }

  predicate ChecksumValid(pkt: Packet, iphLen: nat, protocol: byte, v6: bool)
    requires iphLen <= |pkt|
  {
    var (off, size) := (AddrOff(v6), AddrSize(v6));
    && |pkt| >= off + size * 2
    && var psum := Fold(PseudoSum(protocol, pkt[off..off + size], pkt[off + size..off + 2 * size],
                                  ToU16(|pkt| - iphLen)));
       Verifies(psum + WordSum(pkt[iphLen..]))
  }

  // ---- Merging ----

  /** The packet part of a buffer: what follows the `offset` octets of headroom. */
  function Pkt(b: Buf, offset: nat): Packet
    requires offset <= |b.bytes|
  {
    b.bytes[offset..]
  }

  /** `|= PSH` */
  function WithPsh(flags: byte): byte {
    if flags / 8 % 2 == 1 then flags else flags + TCP_FLAG_PSH
  }

  /** `coalesce_tcp_packets`: the outcome, the updated item and the updated buffers. */
  function CoalesceTcp(mode: CanCoalesce, arrival: TcpItem, item: TcpItem, bufs: seq<Buf>, offset: nat)
    : (CoalesceResult, TcpItem, seq<Buf>)
    requires item.bufsIndex < |bufs| && arrival.bufsIndex < |bufs|
    requires offset + item.iphLen + item.tcphLen <= |bufs[item.bufsIndex].bytes|
    requires offset + item.iphLen + item.tcphLen <= |bufs[arrival.bufsIndex].bytes|
    requires item.tcphLen >= 20
  {
    var v6 := arrival.key.v6;
    var headersLen := item.iphLen + item.tcphLen;
    var (own, other) := (bufs[item.bufsIndex], bufs[arrival.bufsIndex]);
    var pkt := Pkt(other, offset);
    var coalescedLen := |own.bytes| - offset + |pkt| - headersLen;
    var grown := item.(numMerged := item.numMerged + 1,
                       gsoSize := if arrival.gsoSize > item.gsoSize then arrival.gsoSize else item.gsoSize);
    if mode == Prepend then
      if other.cap - offset < coalescedLen then (InsufficientCap, item, bufs)
      else if arrival.pshSet then (PshEnding, item, bufs)
      else if item.numMerged == 0 && !ChecksumValid(Pkt(own, offset), item.iphLen, 6, v6) then
        (ItemInvalidCsum, item, bufs)
      else if !ChecksumValid(pkt, item.iphLen, 6, v6) then (PktInvalidCsum, item, bufs)
      else
        var merged := other.(bytes := other.bytes + own.bytes[offset + headersLen..]);
        (Success, grown.(sentSeq := arrival.sentSeq), bufs[arrival.bufsIndex := own][item.bufsIndex := merged])
    else
      if own.cap - offset < coalescedLen then (InsufficientCap, item, bufs)
      else if item.numMerged == 0 && !ChecksumValid(Pkt(own, offset), item.iphLen, 6, v6) then
        (ItemInvalidCsum, item, bufs)
      else if !ChecksumValid(pkt, item.iphLen, 6, v6) then (PktInvalidCsum, item, bufs)
      else
        var flagsAt := offset + item.iphLen + 13;
        var flagged := if arrival.pshSet then own.bytes[flagsAt := WithPsh(own.bytes[flagsAt])] else own.bytes;
        (Success, grown.(pshSet := item.pshSet || arrival.pshSet),
         bufs[item.bufsIndex := own.(bytes := flagged + pkt[headersLen..])])
  }

  /** `coalesce_udp_packets`: the packet of `arrival` goes behind the item's. */
  function CoalesceUdp(arrival: UdpItem, item: UdpItem, bufs: seq<Buf>, offset: nat)
    : (CoalesceResult, UdpItem, seq<Buf>)
    requires item.bufsIndex < |bufs| && arrival.bufsIndex < |bufs|
    requires offset + item.iphLen + UDP_HDR_LEN <= |bufs[item.bufsIndex].bytes|
    requires offset + item.iphLen + UDP_HDR_LEN <= |bufs[arrival.bufsIndex].bytes|
  {
    var v6 := arrival.key.v6;
    var headersLen := item.iphLen + UDP_HDR_LEN;
    var own := bufs[item.bufsIndex];
    var pkt := Pkt(bufs[arrival.bufsIndex], offset);
    if own.cap - offset < |own.bytes| - offset + |pkt| - headersLen then (InsufficientCap, item, bufs)
    else if item.numMerged == 0 && !ChecksumValid(Pkt(own, offset), item.iphLen, 17, v6) then
      (ItemInvalidCsum, item, bufs)
    else if !ChecksumValid(pkt, item.iphLen, 17, v6) then (PktInvalidCsum, item, bufs)
    else (Success, item.(numMerged := item.numMerged + 1),
          bufs[item.bufsIndex := own.(bytes := own.bytes + pkt[headersLen..])])
  }

  // ---- The tables ----

  /** What a table item must satisfy for the merging code not to panic. */
  predicate TcpItemFits(item: TcpItem, arrival: TcpItem, bufs: seq<Buf>, offset: nat) {
    && item.bufsIndex < |bufs| && item.bufsIndex != arrival.bufsIndex
    && item.gsoSize > 0 && item.tcphLen >= 20
    && item.iphLen == arrival.iphLen
    && offset + item.iphLen + item.tcphLen <= |bufs[item.bufsIndex].bytes|
  }

  predicate NewFits(arrival: TcpItem, bufs: seq<Buf>, offset: nat) {
    arrival.bufsIndex < |bufs| && offset + arrival.iphLen + arrival.tcphLen <= |bufs[arrival.bufsIndex].bytes|
  }

  datatype WalkResult = WalkResult(outcome: GroResult, items: seq<TcpItem>, bufs: seq<Buf>)

  /**
   The backward walk over the items of a flow, from position `i - 1` down. `TableInsert` means that
   no item took the packet, `Noop` that the packet's checksum is wrong.
   */
  function Walk(arrival: TcpItem, items: seq<TcpItem>, i: nat, bufs: seq<Buf>, offset: nat): (r: WalkResult)
    requires i <= |items| && NewFits(arrival, bufs, offset)
    requires forall k | 0 <= k < i :: TcpItemFits(items[k], arrival, bufs, offset)
    ensures |r.bufs| == |bufs| && (r.outcome != Coalesced ==> r.bufs == bufs)
    decreases i
  {
    if i == 0 then WalkResult(TableInsert, items, bufs)
    else
      var item := items[i - 1];
      assert TcpItemFits(item, arrival, bufs, offset);
      var can := TcpPacketsCanCoalesce(Pkt(bufs[arrival.bufsIndex], offset), arrival, item,
                                       Pkt(bufs[item.bufsIndex], offset));
      if can == Unavailable then Walk(arrival, items, i - 1, bufs, offset)
      else
        var (result, item', bufs') := CoalesceTcp(can, arrival, item, bufs, offset);
        match result
        case Success => WalkResult(Coalesced, items[i - 1 := item'], bufs')
        case ItemInvalidCsum => Walk(arrival, items[..i - 1] + items[i..], i - 1, bufs, offset)
        case PktInvalidCsum => WalkResult(Noop, items, bufs)
        case _ => Walk(arrival, items, i - 1, bufs, offset)
  }

  // ---- One packet ----

  /** Buffers, flow tables and the indices to write, as `handle_gro` carries them along. */
  datatype State = State(bufs: seq<Buf>, tcp: TcpTable, udp: UdpTable, toWrite: seq<nat>)

  function Items<K, I>(table: map<K, seq<I>>, key: K): seq<I> {
    if key in table then table[key] else []
  }

  predicate TcpItemInPlace(item: TcpItem, key: TcpFlowKey, bufs: seq<Buf>, offset: nat, i: nat) {
    && item.key == key && item.bufsIndex < i && item.bufsIndex < |bufs|
    && item.gsoSize > 0 && item.tcphLen >= 20 && item.iphLen == IpHeaderLen(key.v6)
    && offset + item.iphLen + item.tcphLen <= |bufs[item.bufsIndex].bytes|
  }

  predicate UdpItemInPlace(item: UdpItem, key: UdpFlowKey, bufs: seq<Buf>, offset: nat, i: nat) {
    && item.key == key && item.bufsIndex < i && item.bufsIndex < |bufs|
    && item.gsoSize > 0 && item.iphLen == IpHeaderLen(key.v6)
    && offset + item.iphLen + UDP_HDR_LEN <= |bufs[item.bufsIndex].bytes|
  }

  /** After `i` packets the tables name earlier buffers that still hold whole headers. */
  predicate InPlace(s: State, offset: nat, i: nat) {
    && i <= |s.bufs| && HDR_LEN <= offset
    && (forall b | 0 <= b < |s.bufs| :: offset <= |s.bufs[b].bytes|)
    && (forall key, k | key in s.tcp && 0 <= k < |s.tcp[key]| :: TcpItemInPlace(s.tcp[key][k], key, s.bufs, offset, i))
    && (forall key | key in s.udp :: s.udp[key] != [])
    && (forall key, k | key in s.udp && 0 <= k < |s.udp[key]| :: UdpItemInPlace(s.udp[key][k], key, s.bufs, offset, i))
  }

  lemma Headroom(s: State, offset: nat, i: nat)
    requires InPlace(s, offset, i) && i < |s.bufs|
    ensures HDR_LEN <= offset <= |s.bufs[i].bytes|
  {}

  lemma FlowFits(s: State, offset: nat, i: nat, arrival: TcpItem)
    requires InPlace(s, offset, i) && arrival.bufsIndex == i && arrival.iphLen == IpHeaderLen(arrival.key.v6)
    ensures var items := Items(s.tcp, arrival.key);
            forall k | 0 <= k < |items| :: TcpItemFits(items[k], arrival, s.bufs, offset)
  {
    var items := Items(s.tcp, arrival.key);
    forall k | 0 <= k < |items| ensures TcpItemFits(items[k], arrival, s.bufs, offset) {
      assert TcpItemInPlace(s.tcp[arrival.key][k], arrival.key, s.bufs, offset, i);
    }
  }

  /** `tcp_gro` */
  function TcpGro(s: State, offset: nat, i: nat, v6: bool): (GroResult, State)
    requires InPlace(s, offset, i) && i < |s.bufs|
    requires |Pkt(s.bufs[i], offset)| >= IpHeaderLen(v6) + 20
  {
    match ParseTcp(Pkt(s.bufs[i], offset), i, v6)
    case None => (Noop, s)
    case Some(arrival) =>
      FlowFits(s, offset, i, arrival);
      var items := Items(s.tcp, arrival.key);
      var walk := Walk(arrival, items, |items|, s.bufs, offset);
      var kept := s.(bufs := walk.bufs, tcp := s.tcp[arrival.key := walk.items]);
      match walk.outcome
      case Coalesced => (Coalesced, kept)
      case Noop => (Noop, kept)
      case TableInsert => (TableInsert, kept.(tcp := s.tcp[arrival.key := walk.items + [arrival]]))
  }

  /** `udp_gro` */
  function UdpGro(s: State, offset: nat, i: nat, v6: bool): (GroResult, State)
    requires InPlace(s, offset, i) && i < |s.bufs|
    requires |Pkt(s.bufs[i], offset)| >= IpHeaderLen(v6) + 8
  {
    var pkt := Pkt(s.bufs[i], offset);
    match ParseUdp(pkt, i, v6)
    case None => (Noop, s)
    case Some(arrival) =>
      var items := Items(s.udp, arrival.key);
      var inserted := s.(udp := s.udp[arrival.key := items + [arrival]]);
      if items == [] then (TableInsert, inserted)
      else
        var last := |items| - 1;
        var item := items[last];
        assert UdpItemInPlace(s.udp[arrival.key][last], arrival.key, s.bufs, offset, i);
        if UdpPacketsCanCoalesce(pkt, arrival, item, Pkt(s.bufs[item.bufsIndex], offset)) != Append then
          (TableInsert, inserted)
        else
          var (result, item', bufs') := CoalesceUdp(arrival, item, s.bufs, offset);
          if result == Success then
            (Coalesced, s.(bufs := bufs', udp := s.udp[arrival.key := items[last := item']]))
          else (TableInsert, inserted)
  }

  /** A zeroed `virtio_net_hdr` in front of the packet. */
  function WithHeader(b: Buf, offset: nat, header: Header, little: bool): (r: Buf)
    requires HDR_LEN <= offset <= |b.bytes|
    ensures |r.bytes| == |b.bytes| && r.cap == b.cap
    ensures Pkt(r, offset) == Pkt(b, offset)
    ensures r.bytes[offset - HDR_LEN..offset] == Encode(header, little)
  {
    b.(bytes := b.bytes[..offset - HDR_LEN] + Encode(header, little) + b.bytes[offset..])
  }

  /** One round of the loop of `handle_gro`. */
  function Step(s: State, offset: nat, i: nat, gro: Flags, little: bool): State
    requires InPlace(s, offset, i) && i < |s.bufs|
  {
    var (result, s') := match PacketIsGroCandidate(Pkt(s.bufs[i], offset), gro)
                        case Tcp4 => TcpGro(s, offset, i, false)
                        case Tcp6 => TcpGro(s, offset, i, true)
                        case Udp4 => UdpGro(s, offset, i, false)
                        case Udp6 => UdpGro(s, offset, i, true)
                        case NotCandidate => (Noop, s);
    match result
    case Noop =>
      s'.(bufs := s'.bufs[i := WithHeader(s'.bufs[i], offset, EMPTY, little)], toWrite := s'.toWrite + [i])
    case TableInsert => s'.(toWrite := s'.toWrite + [i])
    case Coalesced => s'
  }
}
