/**
 What the packet in an item's buffer stands for: the list of original segments that splitting it
 again must give back, and how appending and prepending extend that list.
 */
module GroItems {
  import opened Arith
  import opened Bytes
  import opened Checksum
  import opened VirtioNet
  import opened Gro

  /**
   A packet as its receiver sees it. Left out are the fields an offloaded packet has only once (IPv4
   ID, IPv6 flow label, TCP window, urgent pointer, reserved bits and PSH) and those that follow from
   the rest: lengths, and of a checksum all but whether it verifies.
   */
  datatype Desc =
    | TcpSegment(
        key: TcpFlowKey, ipClass: seq<byte>, options: seq<byte>, seqNum: u32, payload: seq<byte>, verifies: bool)
    | UdpDatagram(udpKey: UdpFlowKey, udpClass: seq<byte>, data: seq<byte>, udpVerifies: bool)
    | Raw(packet: Packet)

  /** TOS, DF and TTL; for IPv6 version, traffic class and hop limit. */
  function IpClass(pkt: Packet, v6: bool): seq<byte>
    requires |pkt| >= IpHeaderLen(v6)
  {
    if v6 then [pkt[0], pkt[1] / 16, pkt[7]] else [pkt[1], pkt[6], pkt[8]]
  }

  function TcpOptions(pkt: Packet, v6: bool): seq<byte>
    requires |pkt| >= IpHeaderLen(v6) + 20 && TcpHeaderLen(pkt, v6) >= 20
    requires |pkt| >= IpHeaderLen(v6) + TcpHeaderLen(pkt, v6)
  {
    pkt[IpHeaderLen(v6) + 20..IpHeaderLen(v6) + TcpHeaderLen(pkt, v6)]
  }

  function Describe(pkt: Packet, gro: Flags): Desc {
    match PacketIsGroCandidate(pkt, gro)
    case Tcp4 => DescribeTcp(pkt, false)
    case Tcp6 => DescribeTcp(pkt, true)
    case Udp4 => DescribeUdp(pkt, false)
    case Udp6 => DescribeUdp(pkt, true)
    case NotCandidate => Raw(pkt)
  }

  function DescribeTcp(pkt: Packet, v6: bool): Desc
    requires |pkt| >= IpHeaderLen(v6) + 20
  {
    match ParseTcp(pkt, 0, v6)
    case None => Raw(pkt)
    case Some(p) =>
      TcpSegment(p.key, IpClass(pkt, v6), TcpOptions(pkt, v6), p.sentSeq, pkt[p.iphLen + p.tcphLen..],
                 ChecksumValid(pkt, p.iphLen, 6, v6))
  }

  function DescribeUdp(pkt: Packet, v6: bool): Desc
    requires |pkt| >= IpHeaderLen(v6) + 8
  {
    match ParseUdp(pkt, 0, v6)
    case None => Raw(pkt)
    case Some(p) =>
      UdpDatagram(p.key, IpClass(pkt, v6), pkt[p.iphLen + UDP_HDR_LEN..], ChecksumValid(pkt, p.iphLen, 17, v6))
  }

  // ---- Segments of a payload ----

  /** The segments of `payload` cut every `size` octets, numbered from `seqNum`. */
  function TcpSegments(like: Desc, seqNum: u32, size: nat, payload: seq<byte>): (r: seq<Desc>)
    requires like.TcpSegment? && size > 0
    ensures r != []
    decreases |payload|
  {
    if |payload| <= size then [like.(seqNum := seqNum, payload := payload)]
    else [like.(seqNum := seqNum, payload := payload[..size])]
         + TcpSegments(like, ToU32(seqNum + size), size, payload[size..])
  }

  function UdpDatagrams(like: Desc, size: nat, payload: seq<byte>): (r: seq<Desc>)
    requires like.UdpDatagram? && size > 0
    ensures r != []
    decreases |payload|
  {
    if |payload| <= size then [like.(data := payload)]
    else [like.(data := payload[..size])] + UdpDatagrams(like, size, payload[size..])
  }

  lemma SeqAdvance(seqNum: u32, size: nat, more: nat)
    ensures ToU32(ToU32(seqNum + size) + more) == ToU32(seqNum + size + more)
  {
    var x := seqNum + size;
    assert x == ToU32(x) + 0x1_0000_0000 * (x / 0x1_0000_0000);
  }

  /** Behind n full segments a last, possibly shorter, one is the next segment. */
  lemma {:induction false} AppendSegment(like: Desc, seqNum: u32, size: nat, payload: seq<byte>, n: nat,
                                         more: seq<byte>)
    requires like.TcpSegment? && size > 0 && n > 0 && |payload| == Times(n, size) && 0 < |more| <= size
    ensures TcpSegments(like, seqNum, size, payload + more)
         == TcpSegments(like, seqNum, size, payload)
            + [like.(seqNum := ToU32(seqNum + |payload|), payload := more)]
    decreases n
  {
    assert (payload + more)[..size] == payload[..size];
    assert (payload + more)[size..] == payload[size..] + more;
    if n == 1 {
      assert payload[..size] == payload && payload[size..] + more == more;
    } else {
      AppendSegment(like, ToU32(seqNum + size), size, payload[size..], n - 1, more);
      SeqAdvance(seqNum, size, |payload| - size);
    }
  }

  lemma {:induction false} AppendDatagram(like: Desc, size: nat, payload: seq<byte>, n: nat, more: seq<byte>)
    requires like.UdpDatagram? && size > 0 && n > 0 && |payload| == Times(n, size) && 0 < |more| <= size
    ensures UdpDatagrams(like, size, payload + more) == UdpDatagrams(like, size, payload) + [like.(data := more)]
    decreases n
  {
    assert (payload + more)[..size] == payload[..size];
    assert (payload + more)[size..] == payload[size..] + more;
    if n == 1 {
      assert payload[..size] == payload && payload[size..] + more == more;
    } else {
      AppendDatagram(like, size, payload[size..], n - 1, more);
    }
  }

  /** In front of a payload a full segment is the previous segment. */
  lemma PrependSegment(like: Desc, seqNum: u32, size: nat, first: seq<byte>, payload: seq<byte>)
    requires like.TcpSegment? && size == |first| > 0 && |payload| > 0
    ensures TcpSegments(like, seqNum, size, first + payload)
         == [like.(seqNum := seqNum, payload := first)] + TcpSegments(like, ToU32(seqNum + size), size, payload)
  {
    assert (first + payload)[..size] == first && (first + payload)[size..] == payload;
  }

  /** A multiple of `size` between n - 1 and n full segments is exactly n full segments. */
  lemma FullSegments(length: nat, size: nat, n: nat)
    requires size > 0 && n > 0 && Times(n - 1, size) < length <= Times(n, size) && length % size == 0
    ensures length == Times(n, size)
  {
    TimesIsProduct(n, size);
    TimesIsProduct(n - 1, size);
    var q := length / size;
    assert length == q * size;
    if q < n {
      MulMonotone(q, n - 1, size);
    } else if q > n {
      MulMonotone(n + 1, q, size);
    }
  }
}
