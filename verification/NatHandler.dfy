/** `handle_tcp_v4` and `handle_tcp_v6`: which packets are translated, and to what. */
module NatHandler {
  import opened Bytes
  import opened NatTable
  import opened NatRewrite
  import opened NatProperties
  import opened MssOption
  import Wire

  /** The addresses of one IP version and the listener ports. */
  datatype Config = Config(
    server: Option<seq<byte>>, client: Option<seq<byte>>, loopback: seq<seq<byte>>,
    tcpPort: u16, dnsTcpPort: Option<u16>, mss: Option<u16>, dnsHijack: bool)

  predicate ValidConfig(c: Config, v6: bool) {
    && (c.server.Some? ==> |c.server.value| == AddrSize(v6))
    && (c.client.Some? ==> |c.client.value| == AddrSize(v6))
    && forall lb | lb in c.loopback :: |lb| == AddrSize(v6)
  }

  /** Not unspecified, not broadcast, not multicast; class E stays in. */
  predicate IsGlobalUnicastV4(a: seq<byte>)
    requires |a| == 4
  {
    a != [0, 0, 0, 0] && a != [255, 255, 255, 255] && !(224 <= a[0] < 240)
  }

  /** Not unspecified, not loopback, not link-local, not multicast. */
  predicate IsGlobalUnicastV6(a: seq<byte>)
    requires |a| == 16
  {
    && !((forall k | 0 <= k < 15 :: a[k] == 0) && a[15] <= 1)
    && !(a[0] == 0xfe && a[1] / 0x40 == 2)
    && a[0] != 0xff
  }

  predicate IsGlobalUnicast(a: seq<byte>, v6: bool)
    requires |a| == AddrSize(v6)
  {
    if v6 then IsGlobalUnicastV6(a) else IsGlobalUnicastV4(a)
  }

  /** The listener port a connection is redirected to. */
  function EffectivePort(c: Config, dstPort: u16): u16 {
    if c.dnsHijack && dstPort == 53 && c.dnsTcpPort.Some? then c.dnsTcpPort.value else c.tcpPort
  }

  // ---- The verdicts, from the octets of the packet ----

  /** The NAT is configured for this IP version and there is a TCP header. */
  predicate Usable(c: Config, raw: Packet, off: nat) {
    c.server.Some? && c.client.Some? && off + 20 <= |raw|
  }

  /** It comes from one of the listeners. */
  predicate FromListener(c: Config, raw: Packet, v6: bool, off: nat)
    requires IpHeaderLen(v6) <= off && off + 20 <= |raw|
  {
    && c.server == Some(Wire.Source(raw, v6))
    && (Wire.Word(raw, off) == c.tcpPort || (c.dnsTcpPort.Some? && Wire.Word(raw, off) == c.dnsTcpPort.value))
  }

  /**
   Its destination is not 0.0.0.0, 224.0.0.0/4 or 255.255.255.255; for IPv6 not ::, ::1, fe80::/10 or
   ff00::/8.
   */
  predicate ToUnicast(raw: Packet, v6: bool)
    requires IpHeaderLen(v6) <= |raw|
  {
    if v6 then
      var (first, last) := (Wire.Word(raw, 24), raw[39]);
      first < 0xff00 && !(0xfe80 <= first < 0xfec0) && !(last < 2 && forall k | 24 <= k < 39 :: raw[k] == 0)
    else
      var n := Wire.DoubleWord(raw, 16);
      0 < n < 0xe000_0000 || 0xf000_0000 <= n < 0xffff_ffff
  }

  predicate ToLoopback(c: Config, raw: Packet, v6: bool)
    requires IpHeaderLen(v6) <= |raw|
  {
    exists i | 0 <= i < |c.loopback| :: c.loopback[i] == Wire.Destination(raw, v6)
  }

  lemma GlobalUnicastIff(raw: Packet, v6: bool)
    requires IpHeaderLen(v6) <= |raw|
    ensures IsGlobalUnicast(Dst(raw, v6), v6) <==> ToUnicast(raw, v6)
  {
    var d := Dst(raw, v6);
    assert forall k | 0 <= k < |d| :: d[k] == raw[(if v6 then 24 else 16) + k];
    if v6 {
      assert (forall k | 24 <= k < 39 :: raw[k] == 0) <==> forall k | 0 <= k < 15 :: d[k] == 0 by {
        assert forall k | 24 <= k < 39 :: raw[k] == d[k - 24];
      }
    } else {
      assert d == [d[0], d[1], d[2], d[3]];
    }
  }

  /** What is written back to the device for a flow of the table, in the reply direction. */
  function ReplyPacket(c: Config, raw: Packet, v6: bool, off: nat, flow: Flow): Option<Packet>
    requires Fits(raw, v6, off)
  {
    var (from, to) := (flow.destination, flow.source);
    if |from.ip| != AddrSize(v6) || |to.ip| != AddrSize(v6) then None
    else Some(Rewritten(raw, v6, off, Endpoints(from.ip, to.ip, Some((from.port, to.port))), c.mss))
  }

  function ForwardPacket(c: Config, raw: Packet, v6: bool, off: nat, natPort: u16): Packet
    requires Fits(raw, v6, off) && ValidConfig(c, v6) && c.server.Some? && c.client.Some?
  {
    var port := EffectivePort(c, U16At(raw, off + 2));
    Rewritten(raw, v6, off, Endpoints(c.client.value, c.server.value, Some((natPort, port))), c.mss)
  }

  function ReflectPacket(c: Config, raw: Packet, v6: bool, off: nat, loopback: seq<byte>): Packet
    requires Fits(raw, v6, off) && |loopback| == AddrSize(v6)
  {
    Rewritten(raw, v6, off, Endpoints(loopback, Src(raw, v6), None), c.mss)
  }

  // ---- The packets written, as their receivers read them ----

  /** Only endpoints, checksums and an MSS above the configured one have changed, and the packet is valid. */
  ghost predicate Sound(c: Config, raw: Packet, out: Packet, v6: bool, off: nat)
    requires Fits(raw, v6, off) && Fits(out, v6, off)
  {
    && OnlyTranslated(raw, out, v6, off) && MssRight(raw, out, off, c.mss)
    && TcpVerifies(out, v6, off) && (!v6 ==> IpVerifies(out, off))
  }

  /** From (client, NAT port) to the listener: the DNS listener for port 53 if there is one and it hijacks. */
  ghost predicate Delivered(c: Config, raw: Packet, out: Packet, v6: bool, off: nat, natPort: u16)
    requires Fits(raw, v6, off) && c.server.Some? && c.client.Some?
  {
    && Fits(out, v6, off) && Sound(c, raw, out, v6, off)
    && Wire.Source(out, v6) == c.client.value && Wire.Destination(out, v6) == c.server.value
    && Wire.Word(out, off) == natPort
    && (c.dnsHijack && Wire.Word(raw, off + 2) == 53 && c.dnsTcpPort.Some? ==>
          Wire.Word(out, off + 2) == c.dnsTcpPort.value)
    && (!c.dnsHijack || Wire.Word(raw, off + 2) != 53 || c.dnsTcpPort.None? ==> Wire.Word(out, off + 2) == c.tcpPort)
  }

  /** From the connection's destination to its source. */
  ghost predicate Returned(c: Config, raw: Packet, out: Packet, v6: bool, off: nat, flow: Flow)
    requires Fits(raw, v6, off)
  {
    Fits(out, v6, off) && Sound(c, raw, out, v6, off) && FlowOf(out, v6, off) == Flow(flow.destination, flow.source)
  }

  /** The addresses swapped, the ports as they were. */
  ghost predicate Mirrored(c: Config, raw: Packet, out: Packet, v6: bool, off: nat)
    requires Fits(raw, v6, off)
  {
    && Fits(out, v6, off) && Sound(c, raw, out, v6, off)
    && Wire.Source(out, v6) == Wire.Destination(raw, v6) && Wire.Destination(out, v6) == Wire.Source(raw, v6)
    && Wire.Word(out, off) == Wire.Word(raw, off) && Wire.Word(out, off + 2) == Wire.Word(raw, off + 2)
  }

  lemma ForwardIsDelivered(c: Config, raw: Packet, v6: bool, off: nat, natPort: u16)
    requires ValidConfig(c, v6) && Fits(raw, v6, off) && c.server.Some? && c.client.Some?
    ensures Delivered(c, raw, ForwardPacket(c, raw, v6, off, natPort), v6, off, natPort)
  {
    hide Rewritten, TcpVerifies, IpVerifies, OnlyTranslated, MssRight, Wire.Word, U16At;
    Wire.SameWords(raw, off + 2);
    var port := EffectivePort(c, U16At(raw, off + 2));
    RewrittenIsValid(raw, v6, off, Endpoints(c.client.value, c.server.value, Some((natPort, port))), c.mss);
  }

  lemma ReplyIsReturned(c: Config, raw: Packet, v6: bool, off: nat, flow: Flow)
    requires Fits(raw, v6, off)
    ensures var out := ReplyPacket(c, raw, v6, off, flow);
            && (out.Some? <==> |flow.source.ip| == |flow.destination.ip| == if v6 then 16 else 4)
            && (out.Some? ==> Returned(c, raw, out.value, v6, off, flow))
  {
    hide Rewritten, TcpVerifies, IpVerifies, OnlyTranslated, MssRight, Wire.Word;
    var (from, to) := (flow.destination, flow.source);
    if |from.ip| == |to.ip| == AddrSize(v6) {
      RewrittenIsValid(raw, v6, off, Endpoints(from.ip, to.ip, Some((from.port, to.port))), c.mss);
    }
  }

  lemma ReflectIsMirrored(c: Config, raw: Packet, v6: bool, off: nat)
    requires Fits(raw, v6, off)
    ensures |Wire.Destination(raw, v6)| == AddrSize(v6)
    ensures Mirrored(c, raw, ReflectPacket(c, raw, v6, off, Wire.Destination(raw, v6)), v6, off)
  {
    hide Rewritten, TcpVerifies, IpVerifies, OnlyTranslated, MssRight, Wire.Word;
    Wire.SameAddresses(raw, v6);
    var lb := Wire.Destination(raw, v6);
    RewrittenIsValid(raw, v6, off, Endpoints(lb, Src(raw, v6), None), c.mss);
    SamePorts(raw, ReflectPacket(c, raw, v6, off, lb), off);
  }

  lemma SamePorts(a: Packet, b: Packet, off: nat)
    requires off + 4 <= |a| && off + 4 <= |b| && a[off..off + 4] == b[off..off + 4]
    ensures Wire.Word(a, off) == Wire.Word(b, off) && Wire.Word(a, off + 2) == Wire.Word(b, off + 2)
  {
    assert a[off] == a[off..off + 4][0] && a[off + 1] == a[off..off + 4][1];
    assert a[off + 2] == a[off..off + 4][2] && a[off + 3] == a[off..off + 4][3];
    assert b[off] == b[off..off + 4][0] && b[off + 1] == b[off..off + 4][1];
    assert b[off + 2] == b[off..off + 4][2] && b[off + 3] == b[off..off + 4][3];
  }

  // ---- The handler ----

  /**
   The packet written and the table left behind, for every packet: translated back when it comes from a
   listener and its port stands for a session of this IP version; mirrored when it goes to a loopback
   address; delivered to a listener when it goes to any other unicast address, unless its flow is new and
   no port is free; and dropped otherwise.
   */
  ghost predicate Handled(c: Config, raw: Packet, v6: bool, off: nat, t: Table, t': Table, out: Option<Packet>)
    requires IpHeaderLen(v6) <= off <= |raw| && (!v6 ==> off == raw[0] % 16 * 4)
  {
    if !Usable(c, raw, off) then out == None && t' == t
    else if FromListener(c, raw, v6, off) then
      && t' == t
      && var p := Wire.Word(raw, off + 2);
         if p in t.portMap && SameVersion(t.portMap[p], v6) then
           out.Some? && Returned(c, raw, out.value, v6, off, t.portMap[p])
         else out == None
    else if !ToUnicast(raw, v6) then out == None && t' == t
    else if ToLoopback(c, raw, v6) then t' == t && out.Some? && Mirrored(c, raw, out.value, v6, off)
    else
      var flow := FlowOf(raw, v6, off);
      if flow !in t.addrMap && Exhausted(t.portMap.Keys) then out == None && t' == t
      else
        && flow in t'.addrMap && out.Some? && Delivered(c, raw, out.value, v6, off, t'.addrMap[flow])
        && if flow in t.addrMap then t' == t
           else t'.addrMap[flow] !in t.portMap && t' == Insert(t, flow, t'.addrMap[flow])
  }

  /** Both addresses are of this IP version. */
  predicate SameVersion(flow: Flow, v6: bool) {
    |flow.source.ip| == |flow.destination.ip| == if v6 then 16 else 4
  }

  /** The packet goes to a listener if a port can be had. */
  predicate Forwards(c: Config, raw: Packet, v6: bool, off: nat)
    requires IpHeaderLen(v6) <= off <= |raw|
  {
    Usable(c, raw, off) && !FromListener(c, raw, v6, off) && ToUnicast(raw, v6) && !ToLoopback(c, raw, v6)
  }

  /**
   `handle_tcp_v4` and `handle_tcp_v6` on a packet whose TCP header starts at `off`, as `process_ipv4`
   and `process_ipv6` pass it on.
   */
  method HandleTcp(c: Config, raw: Packet, v6: bool, off: nat, table: TcpNat, now: int) returns (out: Option<Packet>)
    requires ValidConfig(c, v6) && table.Valid() && |raw| <= MAX_PACKET
    requires IpHeaderLen(v6) <= off <= |raw| && (!v6 ==> off == raw[0] % 16 * 4)
    modifies table, table.portMap.Values
    ensures table.Valid() && fresh(table.portMap.Values - old(table.portMap.Values))
    ensures Handled(c, raw, v6, off, old(table.Contents()), table.Contents(), out)
  {
    hide Rewritten, Exhausted, IsGlobalUnicast, Inverse, ToUnicast, Returned, Mirrored, Delivered, Wire.Word, U16At;
    out := None;
    if c.server.None? || c.client.None? {
      return;
    }
    if |raw| - off < 20 {
      return;
    }
    var (src, dst) := (Src(raw, v6), Dst(raw, v6));
    var (sport, dport) := (U16At(raw, off), U16At(raw, off + 2));
    Wire.SameAddresses(raw, v6);
    Wire.SameWords(raw, off);
    Wire.SameWords(raw, off + 2);
    GlobalUnicastIff(raw, v6);
    var effective := if c.dnsHijack && dport == 53 then
                       match c.dnsTcpPort
                       case Some(p) => p
                       case None => c.tcpPort
                     else c.tcpPort;
    if src == c.server.value && (sport == c.tcpPort || c.dnsTcpPort == Some(sport)) {
      ghost var t := table.Contents();
      var found := table.LookupBack(dport, now);
      if found.Some? {
        assert t.portMap[dport] == found.value;
        ReplyIsReturned(c, raw, v6, off, found.value);
        var (from, to) := (found.value.destination, found.value.source);
        if |from.ip| != AddrSize(v6) || |to.ip| != AddrSize(v6) {
          return;
        }
        var pkt := Rewrite(raw, v6, off, Endpoints(from.ip, to.ip, Some((from.port, to.port))), c.mss);
        out := Some(pkt);
      }
      return;
    }
    if !IsGlobalUnicast(dst, v6) {
      return;
    }
    if dst in c.loopback {
      ReflectIsMirrored(c, raw, v6, off);
      var pkt := Rewrite(raw, v6, off, Endpoints(dst, src, None), c.mss);
      out := Some(pkt);
      return;
    }
    var flow := Flow(SocketAddr(src, sport), SocketAddr(dst, dport));
    out := ForwardTcp(c, raw, v6, off, flow, effective, table, now);
  }

  /** The end of the handler: a NAT port for the flow, and the packet from there to the listener. */
  method ForwardTcp(c: Config, raw: Packet, v6: bool, off: nat, flow: Flow, port: u16, table: TcpNat, now: int)
    returns (out: Option<Packet>)
    requires ValidConfig(c, v6) && c.server.Some? && c.client.Some? && table.Valid() && |raw| <= MAX_PACKET
    requires Fits(raw, v6, off) && port == EffectivePort(c, U16At(raw, off + 2))
    modifies table, table.portMap.Values
    ensures table.Valid() && fresh(table.portMap.Values - old(table.portMap.Values))
    ensures var (t, t') := (old(table.Contents()), table.Contents());
            if flow !in t.addrMap && Exhausted(t.portMap.Keys) then out == None && t' == t
            else
              && flow in t'.addrMap && out.Some? && Delivered(c, raw, out.value, v6, off, t'.addrMap[flow])
              && if flow in t.addrMap then t' == t
                 else t'.addrMap[flow] !in t.portMap && t' == Insert(t, flow, t'.addrMap[flow])
  {
    hide Rewritten, Exhausted, Inverse, Delivered, FirstFree;
    ghost var (cursor, taken) := (table.portIndex, table.portMap.Keys);
    assert table.Contents().portMap.Keys == taken;
    var natPort := table.LookupOrInsert(flow, now);
    if natPort.None? {
      return None;
    }
    InTable(table, natPort.value);
    if flow !in old(table.addrMap) {
      FirstFreeIsFree(cursor, taken, natPort.value);
    }
    ForwardIsDelivered(c, raw, v6, off, natPort.value);
    var e := Endpoints(c.client.value, c.server.value, Some((natPort.value, port)));
    var pkt := Rewrite(raw, v6, off, e, c.mss);
    out := Some(pkt);
  }

  lemma FirstFreeIsFree(cursor: u16, taken: set<u16>, p: u16)
    requires FirstFree(cursor, taken, p)
    ensures p !in taken
  {}

  lemma InTable(table: TcpNat, p: u16)
    requires table.Valid() && p in table.portMap
    ensures table.portMap[p].flow in table.addrMap && table.addrMap[table.portMap[p].flow] == p
  {
    assert p in table.Contents().portMap;
  }

  /** `accept_loop`: the target of the connection a peer port stands for. */
  method AcceptTarget(peerPort: u16, table: TcpNat, now: int) returns (target: Option<SocketAddr>)
    requires table.Valid()
    modifies table.portMap.Values
    ensures target == if peerPort in table.portMap then Some(table.portMap[peerPort].flow.destination) else None
  {
    var found := table.LookupBack(peerPort, now);
    target := if found.Some? then Some(found.value.destination) else None;
  }

  // ---- Transparency ----

  /**
   There and back: an answer with the endpoints of the delivered packet reversed is recognised as coming
   from a listener, also from the DNS listener, and what is written for it, by a table that still has the
   session, goes from the original destination to the original source.
   */
  lemma ReplyIsTransparent(c: Config, raw: Packet, v6: bool, off: nat, natPort: u16, sent: Packet,
                           answer: Packet, off': nat, t: Table, t': Table, out: Option<Packet>)
    requires Fits(raw, v6, off) && Forwards(c, raw, v6, off) && Delivered(c, raw, sent, v6, off, natPort)
    requires Fits(answer, v6, off')
    requires var flow := FlowOf(sent, v6, off); FlowOf(answer, v6, off') == Flow(flow.destination, flow.source)
    requires natPort in t.portMap && t.portMap[natPort] == FlowOf(raw, v6, off)
    requires Handled(c, answer, v6, off', t, t', out)
    ensures t' == t && out.Some? && Returned(c, answer, out.value, v6, off', FlowOf(raw, v6, off))
  {
    hide Sound, ToUnicast, Wire.Word;
  }
}
