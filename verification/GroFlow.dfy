/** The packets of one UDP flow or TCP connection, in a list of packets and in the buffers that will be written. */
module GroFlow {
  import opened Bytes
  import opened VirtioNet
  import opened Gro
  import opened GroItems
  import opened GroInvariant
  import opened GroSteps
  import Wire

  /**
   The addresses and ports of a UDP (17) or TCP (6) packet, read where they are, whether merging takes the packet
   or not.
   */
  function WireFlow(pkt: Packet, protocol: byte): Option<UdpFlowKey> {
    if |pkt| >= 28 && pkt[0] / 16 == 4 && pkt[9] == protocol then
      var iph := pkt[0] % 16 * 4;
      if iph < 20 || |pkt| < iph + UDP_HDR_LEN then None
      else Some(UdpFlowKey(pkt[12..16], pkt[16..20], Wire.Word(pkt, iph), Wire.Word(pkt, iph + 2), false))
    else if |pkt| >= 48 && pkt[0] / 16 == 6 && pkt[6] == protocol then
      Some(UdpFlowKey(pkt[8..24], pkt[24..40], Wire.Word(pkt, 40), Wire.Word(pkt, 42), true))
    else None
  }

  /** A UDP flow, or a TCP connection in one direction: its addresses and ports. */
  datatype Flow = UdpFlow(key: UdpFlowKey) | TcpConnection(ends: UdpFlowKey)

  /** TCP merging keeps apart what differs in the acknowledgement number; the connection is the rest. */
  function Ends(key: TcpFlowKey): UdpFlowKey {
    UdpFlowKey(key.srcAddr, key.dstAddr, key.srcPort, key.dstPort, key.v6)
  }

  function Protocol(flow: Flow): byte {
    if flow.UdpFlow? then 17 else 6
  }

  /** A packet of the flow that merging passes by. */
  predicate Passed(d: Desc, flow: Flow) {
    d.Raw? && WireFlow(d.packet, Protocol(flow)) == Some(if flow.UdpFlow? then flow.key else flow.ends)
  }

  predicate InFlow(d: Desc, flow: Flow) {
    || Passed(d, flow)
    || match flow
       case UdpFlow(key) => OfFlow(d, key)
       case TcpConnection(ends) => d.TcpSegment? && Ends(d.key) == ends
  }

  function FlowOf(descs: seq<Desc>, flow: Flow): seq<Desc> {
    if descs == [] then []
    else (if InFlow(descs[0], flow) then [descs[0]] else []) + FlowOf(descs[1..], flow)
  }

  /** What is of one table entry is of one flow. */
  lemma SameKeySameFlow(e: Desc, d: Desc, flow: Flow)
    requires SameKey(e, d)
    ensures InFlow(e, flow) <==> InFlow(d, flow)
  {}

  /** What merging takes it reads where `WireFlow` does. */
  lemma TcpFlowIs(pkt: Packet, v6: bool)
    requires |pkt| >= IpHeaderLen(v6) + 20 && ParseTcp(pkt, 0, v6).Some?
    requires if v6 then pkt[0] / 16 == 6 && pkt[6] == 6 else pkt[0] == 0x45 && pkt[9] == 6
    ensures WireFlow(pkt, 6) == Some(Ends(ParseTcp(pkt, 0, v6).value.key)) && WireFlow(pkt, 17) == None
  {
    hide IpConsistent, U32At, TcpHeaderLen;
    Wire.SameWords(pkt, IpHeaderLen(v6));
    Wire.SameWords(pkt, IpHeaderLen(v6) + 2);
    hide U16At, Wire.Word;
  }

  lemma UdpFlowIs(pkt: Packet, v6: bool)
    requires |pkt| >= IpHeaderLen(v6) + 8 && ParseUdp(pkt, 0, v6).Some?
    requires if v6 then pkt[0] / 16 == 6 && pkt[6] == 17 else pkt[0] == 0x45 && pkt[9] == 17
    ensures WireFlow(pkt, 17) == Some(ParseUdp(pkt, 0, v6).value.key) && WireFlow(pkt, 6) == None
  {
    hide IpConsistent;
    Wire.SameWords(pkt, IpHeaderLen(v6));
    Wire.SameWords(pkt, IpHeaderLen(v6) + 2);
    hide U16At, Wire.Word;
  }

  lemma DescribedFlow(pkt: Packet, gro: Flags)
    ensures var d := Describe(pkt, gro);
            && (d.Raw? ==> d.packet == pkt)
            && (d.TcpSegment? ==> WireFlow(pkt, 6) == Some(Ends(d.key)) && WireFlow(pkt, 17) == None)
            && (d.UdpDatagram? ==> WireFlow(pkt, 17) == Some(d.udpKey) && WireFlow(pkt, 6) == None)
  {
    hide ChecksumValid, ParseTcp, ParseUdp, WireFlow;
    match PacketIsGroCandidate(pkt, gro)
    case Tcp4 => if ParseTcp(pkt, 0, false).Some? { TcpFlowIs(pkt, false); }
    case Tcp6 => if ParseTcp(pkt, 0, true).Some? { TcpFlowIs(pkt, true); }
    case Udp4 => if ParseUdp(pkt, 0, false).Some? { UdpFlowIs(pkt, false); }
    case Udp6 => if ParseUdp(pkt, 0, true).Some? { UdpFlowIs(pkt, true); }
    case NotCandidate =>
  }

  /** The flow's packets are those with its addresses and ports. */
  lemma InFlowIff(pkt: Packet, gro: Flags, flow: Flow)
    ensures InFlow(Describe(pkt, gro), flow) <==>
              WireFlow(pkt, Protocol(flow)) == Some(if flow.UdpFlow? then flow.key else flow.ends)
  {
    hide Describe, WireFlow;
    DescribedFlow(pkt, gro);
  }

  lemma {:induction false} FlowOfConcat(a: seq<Desc>, b: seq<Desc>, flow: Flow)
    ensures FlowOf(a + b, flow) == FlowOf(a, flow) + FlowOf(b, flow)
    decreases |a|
  {
    hide InFlow;
    if a == [] {
      assert a + b == b;
    } else {
      assert (a + b)[1..] == a[1..] + b;
      FlowOfConcat(a[1..], b, flow);
      Regroup(if InFlow(a[0], flow) then [a[0]] else [], FlowOf(a[1..], flow), FlowOf(b, flow));
    }
  }

  lemma FlowOfOne(d: Desc, flow: Flow)
    ensures FlowOf([d], flow) == if InFlow(d, flow) then [d] else []
  {
    hide InFlow;
    assert FlowOf([d][1..], flow) == [];
  }

  lemma {:induction false} FlowOfNone(descs: seq<Desc>, flow: Flow)
    ensures FlowOf(descs, flow) == [] <==> forall d | d in descs :: !InFlow(d, flow)
    ensures forall d | d in FlowOf(descs, flow) :: d in descs && InFlow(d, flow)
    decreases |descs|
  {
    hide InFlow;
    if descs != [] {
      FlowOfNone(descs[1..], flow);
      assert forall d | d in descs :: d == descs[0] || d in descs[1..];
    }
  }

  lemma {:induction false} InFlat(contents: Contents, d: Desc)
    ensures d in Flat(contents) <==> exists b | 0 <= b < |contents| :: d in contents[b]
    decreases |contents|
  {
    if contents != [] {
      InFlat(contents[1..], d);
      if d in Flat(contents[1..]) {
        var b :| 0 <= b < |contents[1..]| && d in contents[1..][b];
        assert d in contents[b + 1];
      }
      if b :| 0 <= b < |contents| && d in contents[b] && b > 0 {
        assert d in contents[1..][b - 1];
      }
    }
  }

  /** A packet gets in front of what is behind its spot, and behind the rest. */
  lemma PlacedFlow(contents: Contents, contents': Contents, spot: Spot, i: nat, d: Desc, flow: Flow)
    returns (front: seq<Desc>, behind: seq<Desc>)
    requires PlacedAt(contents, contents', spot, i, d)
    ensures front + behind == FlowOf(Flat(contents), flow)
    ensures behind == (if spot.front then FlowOf(contents[spot.buffer], flow) else [])
                      + FlowOf(Flat(contents[spot.buffer + 1..]), flow)
    ensures FlowOf(Flat(contents'), flow) == if InFlow(d, flow) then front + [d] + behind else front + behind
  {
    hide Flat, FlowOf, WireFlow, SameKey, InFlow;
    var b := spot.buffer;
    FlatAt(contents, b);
    FlatAt(contents', b);
    assert contents'[..b] == contents[..b] && contents'[b + 1..] == contents[b + 1..];
    FlowOfThree(Flat(contents[..b]), contents[b], Flat(contents[b + 1..]), flow);
    FlowOfThree(Flat(contents[..b]), contents'[b], Flat(contents[b + 1..]), flow);
    FlowOfOne(d, flow);
    var (head, tail) := (FlowOf(Flat(contents[..b]), flow), FlowOf(Flat(contents[b + 1..]), flow));
    var (mid, one) := (FlowOf(contents[b], flow), FlowOf([d], flow));
    if spot.front {
      FlowOfConcat([d], contents[b], flow);
      front, behind := head, mid + tail;
      Regroup(head, mid, tail);
      Regroup(head, one + mid, tail);
      Regroup(one, mid, tail);
      Regroup(head, one, behind);
      assert one == [] ==> one + behind == behind;
    } else {
      FlowOfConcat(contents[b], [d], flow);
      front, behind := head + mid, tail;
      Regroup(head, mid, one);
      assert one == [] ==> front + one == front;
    }
  }

  lemma FlowOfThree(a: seq<Desc>, b: seq<Desc>, c: seq<Desc>, flow: Flow)
    ensures FlowOf(a + b + c, flow) == FlowOf(a, flow) + FlowOf(b, flow) + FlowOf(c, flow)
  {
    hide FlowOf;
    FlowOfConcat(a + b, c, flow);
    FlowOfConcat(a, b, flow);
  }
}
