/** One connection through the NAT and back, with any traffic of other connections in between. */
module NatEndToEnd {
  import opened Bytes
  import opened NatTable
  import opened NatRewrite
  import opened NatProperties
  import opened NatHandler
  import Wire

  /** What else may happen to the table: packets of either IP version, lookups, answers of listeners. */
  datatype Event =
    | Packets(c: Config, raw: Packet, v6: bool, off: nat, now: int)
    | Lookup(flow: Flow, now: int)
    | Back(port: u16, now: int)

  /** What the packet loop guarantees of the packets it hands on. */
  predicate ValidEvent(e: Event) {
    match e
    case Packets(c, raw, v6, off, _) =>
      && ValidConfig(c, v6) && |raw| <= MAX_PACKET && IpHeaderLen(v6) <= off <= |raw|
      && (!v6 ==> off == raw[0] % 16 * 4)
    case _ => true
  }

  /** Every session of the one table is in the other. */
  ghost predicate Kept(t: Table, t': Table) {
    && (forall p | p in t.portMap :: p in t'.portMap && t'.portMap[p] == t.portMap[p])
    && forall flow | flow in t.addrMap :: flow in t'.addrMap && t'.addrMap[flow] == t.addrMap[flow]
  }

  lemma InsertKeeps(t: Table, flow: Flow, p: u16)
    requires flow !in t.addrMap && p !in t.portMap
    ensures Kept(t, Insert(t, flow, p))
  {}

  lemma KeptOn(a: Table, b: Table, c: Table)
    requires Kept(a, b) && Kept(b, c)
    ensures Kept(a, c)
  {}

  /** A packet adds at most its own session. */
  lemma HandledKeeps(c: Config, raw: Packet, v6: bool, off: nat, t: Table, t': Table, out: Option<Packet>)
    requires IpHeaderLen(v6) <= off <= |raw| && (!v6 ==> off == raw[0] % 16 * 4)
    requires Handled(c, raw, v6, off, t, t', out)
    ensures Kept(t, t')
  {
    hide Exhausted, Returned, Mirrored, Delivered, ToUnicast, FromListener;
    if t' != t {
      var flow := FlowOf(raw, v6, off);
      InsertKeeps(t, flow, t'.addrMap[flow]);
    }
  }

  method OneEvent(e: Event, table: TcpNat)
    requires ValidEvent(e) && table.Valid()
    modifies table, table.portMap.Values
    ensures table.Valid() && Kept(old(table.Contents()), table.Contents())
    ensures fresh(table.portMap.Values - old(table.portMap.Values))
  {
    hide Exhausted, FirstFree, Handled, Inverse;
    ghost var before := table.Contents();
    match e {
      case Packets(c, raw, v6, off, now) =>
        var out := HandleTcp(c, raw, v6, off, table, now);
        HandledKeeps(c, raw, v6, off, before, table.Contents(), out);
      case Lookup(flow, now) =>
        ghost var (cursor, taken) := (table.portIndex, table.portMap.Keys);
        var port := table.LookupOrInsert(flow, now);
        if table.Contents() != before {
          FirstFreeIsFree(cursor, taken, port.value);
          InsertKeeps(before, flow, port.value);
        }
      case Back(port, now) =>
        var found := table.LookupBack(port, now);
    }
  }

  /** Any amount of other traffic leaves every session of the table where it is. */
  method Traffic(events: seq<Event>, table: TcpNat)
    requires table.Valid() && forall e | e in events :: ValidEvent(e)
    modifies table, table.portMap.Values
    ensures table.Valid() && Kept(old(table.Contents()), table.Contents())
    ensures fresh(table.portMap.Values - old(table.portMap.Values))
  {
    hide ValidEvent, Inverse;
    ghost var before := table.Contents();
    for i := 0 to |events|
      invariant table.Valid() && Kept(before, table.Contents())
      invariant fresh(table.portMap.Values - old(table.portMap.Values))
    {
      ghost var mid := table.Contents();
      OneEvent(events[i], table);
      KeptOn(before, mid, table.Contents());
    }
  }

  /** The listener answers from where the packet went to where it came from. */
  ghost predicate Answers(listener: Packet -> Packet, v6: bool, off: nat, off': nat) {
    forall pkt: Packet | Fits(pkt, v6, off) ::
      && |listener(pkt)| <= MAX_PACKET && Fits(listener(pkt), v6, off')
      && var flow := FlowOf(pkt, v6, off);
         FlowOf(listener(pkt), v6, off') == Flow(flow.destination, flow.source)
  }

  lemma Forwarded(c: Config, raw: Packet, v6: bool, off: nat, t: Table, t': Table, out: Option<Packet>)
    requires Fits(raw, v6, off) && Forwards(c, raw, v6, off) && Handled(c, raw, v6, off, t, t', out)
    ensures c.server.Some? && c.client.Some?
    ensures var flow := FlowOf(raw, v6, off);
            if flow !in t.addrMap && Exhausted(t.portMap.Keys) then out == None
            else flow in t'.addrMap && out.Some? && Delivered(c, raw, out.value, v6, off, t'.addrMap[flow])
  {
    hide Exhausted, Delivered, ToUnicast, ToLoopback, FromListener;
  }

  lemma NatPortIs(c: Config, raw: Packet, out: Packet, v6: bool, off: nat, natPort: u16)
    requires Fits(raw, v6, off) && c.server.Some? && c.client.Some? && Delivered(c, raw, out, v6, off, natPort)
    ensures Fits(out, v6, off) && U16At(out, off) == natPort
  {
    hide Sound;
    Wire.SameWords(out, off);
  }

  /** On the way there: the packet is sent on, other traffic follows, the listener accepts. */
  method Arrives(c: Config, raw: Packet, v6: bool, off: nat, table: TcpNat, now: int, meanwhile: seq<Event>)
    returns (sent: Option<Packet>, target: Option<SocketAddr>, ghost natPort: u16)
    requires ValidConfig(c, v6) && table.Valid() && |raw| <= MAX_PACKET && Fits(raw, v6, off)
    requires Forwards(c, raw, v6, off) && forall e | e in meanwhile :: ValidEvent(e)
    modifies table, table.portMap.Values
    ensures table.Valid() && fresh(table.portMap.Values - old(table.portMap.Values))
    ensures sent.None? ==> FlowOf(raw, v6, off) !in old(table.addrMap) && Exhausted(old(table.portMap).Keys)
    ensures sent.Some? ==>
              && Delivered(c, raw, sent.value, v6, off, natPort)
              && natPort in table.portMap && table.portMap[natPort].flow == FlowOf(raw, v6, off)
              && target == Some(FlowOf(raw, v6, off).destination)
  {
    hide Exhausted, Inverse, Delivered, Forwards, Handled, ValidEvent, Wire.Word, Kept, FlowOf;
    ghost var flow := FlowOf(raw, v6, off);
    target, natPort := None, 0;
    ghost var before := table.Contents();
    assert before.portMap.Keys == table.portMap.Keys;
    sent := HandleTcp(c, raw, v6, off, table, now);
    Forwarded(c, raw, v6, off, before, table.Contents(), sent);
    if sent.None? {
      return;
    }
    natPort := table.addrMap[flow];
    ghost var t := table.Contents();
    HasPort(table, flow);
    Traffic(meanwhile, table);
    StillThere(table, t, flow, natPort);
    NatPortIs(c, raw, sent.value, v6, off, natPort);
    target := AcceptTarget(U16At(sent.value, off), table, now);
  }

  /**
   A connection's packet goes through the NAT to a listener, other traffic follows, the accept loop asks
   whom the peer port stands for, more traffic follows, and the listener's answer goes back. Unless the
   port range was exhausted, the accept loop gets the connection's true destination, also when the
   connection was redirected to the DNS listener, and the answer arrives as one from that destination.
   */
  method ThereAndBack(c: Config, raw: Packet, v6: bool, off: nat, table: TcpNat, now: int,
                      listener: Packet -> Packet, off': nat, meanwhile: seq<Event>, later: seq<Event>)
    returns (sent: Option<Packet>, target: Option<SocketAddr>, back: Option<Packet>, ghost natPort: u16)
    requires ValidConfig(c, v6) && table.Valid() && |raw| <= MAX_PACKET && Fits(raw, v6, off)
    requires Forwards(c, raw, v6, off) && Answers(listener, v6, off, off')
    requires forall e | e in meanwhile + later :: ValidEvent(e)
    modifies table, table.portMap.Values
    ensures table.Valid()
    ensures sent.None? ==> FlowOf(raw, v6, off) !in old(table.addrMap) && Exhausted(old(table.portMap).Keys)
    ensures sent.Some? ==>
              var flow := FlowOf(raw, v6, off);
              && Delivered(c, raw, sent.value, v6, off, natPort)
              && target == Some(flow.destination)
              && Fits(listener(sent.value), v6, off')
              && back.Some? && Returned(c, listener(sent.value), back.value, v6, off', flow)
  {
    hide Exhausted, Inverse, Forwards, Handled, Sound, ToUnicast, ToLoopback, FromListener, Returned, Mirrored, ValidEvent,
         Wire.Word;
    back := None;
    assert forall e | e in meanwhile :: e in meanwhile + later;
    assert forall e | e in later :: e in meanwhile + later;
    sent, target, natPort := Arrives(c, raw, v6, off, table, now, meanwhile);
    if sent.None? {
      return;
    }
    ghost var (t, flow) := (table.Contents(), FlowOf(raw, v6, off));
    Traffic(later, table);
    StillThere(table, t, flow, natPort);
    var answer := listener(sent.value);
    ghost var before := table.Contents();
    back := HandleTcp(c, answer, v6, off', table, now);
    ReplyIsTransparent(c, raw, v6, off, natPort, sent.value, answer, off', before, table.Contents(), back);
  }

  lemma HasPort(table: TcpNat, flow: Flow)
    requires table.Valid() && flow in table.addrMap
    ensures table.addrMap[flow] in table.portMap && table.portMap[table.addrMap[flow]].flow == flow
  {
    assert flow in table.Contents().addrMap;
  }

  lemma StillThere(table: TcpNat, t: Table, flow: Flow, p: u16)
    requires Kept(t, table.Contents()) && p in t.portMap && t.portMap[p] == flow
    ensures p in table.portMap && table.portMap[p].flow == flow
  {
    assert p in table.Contents().portMap;
  }
}
