/** The TCP NAT table: two maps that must stay mutually inverse, and the wrapping port cursor. */
module NatTable {
  import opened Bytes

  const NAT_PORT_START := 10000
  const NAT_PORT_END := 65535
  const NAT_PORTS := 55536

  datatype SocketAddr = SocketAddr(ip: seq<byte>, port: u16)

  /** (source, destination) of a connection. */
  datatype Flow = Flow(source: SocketAddr, destination: SocketAddr)

  /** Both maps, as values. */
  datatype Table = Table(addrMap: map<Flow, u16>, portMap: map<u16, Flow>)

  predicate InRange(p: u16) {
    NAT_PORT_START <= p <= NAT_PORT_END
  }

  /** Each map is the inverse of the other. */
  ghost predicate Inverse(t: Table) {
    && (forall flow | flow in t.addrMap :: t.addrMap[flow] in t.portMap && t.portMap[t.addrMap[flow]] == flow)
    && forall p | p in t.portMap :: t.portMap[p] in t.addrMap && t.addrMap[t.portMap[p]] == p
  }

  // ---- The order in which ports are probed ----

  /** Where a cursor outside the range starts over. */
  function Normal(cursor: u16): u16 {
    if InRange(cursor) then cursor else NAT_PORT_START
  }

  /** The k-th port from the cursor on, wrapping round the range. */
  function Cyclic(cursor: u16, k: nat): (p: u16)
    ensures InRange(p)
  {
    NAT_PORT_START + (Normal(cursor) - NAT_PORT_START + k) % NAT_PORTS
  }

  /** p is the first port not taken, in cyclic order. */
  ghost predicate FirstFree(cursor: u16, taken: set<u16>, p: u16) {
    && p !in taken
    && exists k: nat :: k < NAT_PORTS && p == Cyclic(cursor, k) && forall j: nat | j < k :: Cyclic(cursor, j) in taken
  }

  ghost predicate Exhausted(taken: set<u16>) {
    forall p: u16 | InRange(p) :: p in taken
  }

  /** The steps at which a port is probed. */
  function Turn(cursor: u16, p: u16): (k: nat)
    requires InRange(p)
    ensures k < NAT_PORTS
  {
    (p - Normal(cursor)) % NAT_PORTS
  }

  /** One round of probing visits every port exactly once, from every cursor value. */
  lemma CyclicVisitsOnce(cursor: u16, p: u16)
    requires InRange(p)
    ensures Cyclic(cursor, Turn(cursor, p)) == p
    ensures forall k: nat | k < NAT_PORTS && Cyclic(cursor, k) == p :: k == Turn(cursor, p)
  {}

  /** Ports are probed upwards from the cursor, and behind the last comes the first. */
  lemma CyclicSteps(cursor: u16, k: nat)
    ensures Cyclic(cursor, 0) == if 10000 <= cursor then cursor else 10000
    ensures Cyclic(cursor, k + 1) == if Cyclic(cursor, k) == 65535 then 10000 else Cyclic(cursor, k) + 1
  {
    var x := Normal(cursor) - NAT_PORT_START + k;
    assert (x + 1) % NAT_PORTS == if x % NAT_PORTS == NAT_PORTS - 1 then 0 else x % NAT_PORTS + 1;
  }

  /** So the probe fails only when the range is full, and its answer is unique. */
  lemma FirstFreeOrExhausted(cursor: u16, taken: set<u16>)
    ensures Exhausted(taken) <==> forall k: nat | k < NAT_PORTS :: Cyclic(cursor, k) in taken
    ensures Exhausted(taken) ==> forall p: u16 :: !FirstFree(cursor, taken, p)
  {
    if forall k: nat | k < NAT_PORTS :: Cyclic(cursor, k) in taken {
      forall p: u16 | InRange(p) ensures p in taken {
        CyclicVisitsOnce(cursor, p);
      }
    }
  }

  lemma FirstFreeIsUnique(cursor: u16, taken: set<u16>, p: u16, q: u16)
    requires FirstFree(cursor, taken, p) && FirstFree(cursor, taken, q)
    ensures p == q
  {
    var j: nat :| j < NAT_PORTS && p == Cyclic(cursor, j) && forall i: nat | i < j :: Cyclic(cursor, i) in taken;
    var k: nat :| k < NAT_PORTS && q == Cyclic(cursor, k) && forall i: nat | i < k :: Cyclic(cursor, i) in taken;
  }

  /** Conversely some port is found whenever one is free. */
  lemma {:induction false} FirstFreeFrom(cursor: u16, taken: set<u16>, k: nat, n: nat) returns (p: u16)
    requires k <= n < NAT_PORTS && Cyclic(cursor, n) !in taken
    requires forall j: nat | j < k :: Cyclic(cursor, j) in taken
    ensures FirstFree(cursor, taken, p)
    decreases n - k
  {
    if k == n || Cyclic(cursor, k) !in taken {
      p := Cyclic(cursor, k);
    } else {
      p := FirstFreeFrom(cursor, taken, k + 1, n);
    }
  }

  lemma FirstFreeExists(cursor: u16, taken: set<u16>) returns (p: u16)
    requires !Exhausted(taken)
    ensures FirstFree(cursor, taken, p)
  {
    FirstFreeOrExhausted(cursor, taken);
    var n: nat :| n < NAT_PORTS && Cyclic(cursor, n) !in taken;
    p := FirstFreeFrom(cursor, taken, 0, n);
  }

  // ---- Updates of the two maps ----

  function Insert(t: Table, flow: Flow, p: u16): Table {
    Table(t.addrMap[flow := p], t.portMap[p := flow])
  }

  /** Both entries of each pair removed. */
  function Remove(t: Table, ports: set<u16>): Table
    requires Inverse(t)
  {
    Table(map flow | flow in t.addrMap && t.addrMap[flow] !in ports :: t.addrMap[flow],
          map p | p in t.portMap && p !in ports :: t.portMap[p])
  }

  lemma InsertKeepsInverse(t: Table, flow: Flow, p: u16)
    requires Inverse(t) && flow !in t.addrMap && p !in t.portMap
    ensures Inverse(Insert(t, flow, p))
  {}

  lemma RemoveKeepsInverse(t: Table, ports: set<u16>)
    requires Inverse(t)
    ensures Inverse(Remove(t, ports))
  {}

  /** Removing one more pair from what is left. */
  lemma RemoveOneMore(t: Table, gone: set<u16>, p: u16)
    requires Inverse(t) && p in t.portMap && p !in gone
    ensures Remove(t, gone + {p})
         == Table(Remove(t, gone).addrMap - {t.portMap[p]}, Remove(t, gone).portMap - {p})
  {
    var (r, s) := (Remove(t, gone + {p}), Remove(t, gone));
    forall flow ensures flow in r.addrMap <==> flow in s.addrMap && flow != t.portMap[p] {}
    assert r.addrMap == s.addrMap - {t.portMap[p]};
    assert r.portMap == s.portMap - {p};
  }

  lemma RemoveFacts(t: Table, gone: set<u16>)
    requires Inverse(t)
    ensures gone == {} ==> Remove(t, gone) == t
    ensures Remove(t, gone).portMap.Keys == t.portMap.Keys - gone
    ensures forall p | p in t.portMap && p !in gone :: Remove(t, gone).portMap[p] == t.portMap[p]
  {}

  // ---- The table as an object ----

  /** One NAT session; `lastActive` is in milliseconds. */
  class Entry {
    const flow: Flow
    var lastActive: int

    constructor (flow: Flow, now: int)
      ensures this.flow == flow && lastActive == now
    {
      this.flow := flow;
      lastActive := now;
    }

    /** Refresh at most once a second. */
    method Touch(now: int)
      modifies this
      ensures lastActive == if now - old(lastActive) > 1000 then now else old(lastActive)
    {
      if now - lastActive > 1000 {
        lastActive := now;
      }
    }
  }

  class TcpNat {
    var portIndex: u16
    var addrMap: map<Flow, u16>
    var portMap: map<u16, Entry>

    ghost function Contents(): Table
      reads this
    {
      Table(addrMap, map p | p in portMap :: portMap[p].flow)
    }

    ghost predicate Valid()
      reads this
    {
      Inverse(Contents()) && forall p | p in portMap :: InRange(p)
    }

    constructor ()
      ensures Valid() && Contents() == Table(map[], map[]) && portIndex == NAT_PORT_START
    {
      portIndex := NAT_PORT_START;
      addrMap := map[];
      portMap := map[];
    }

    static lemma CyclicStart(cursor: u16)
      ensures Cyclic(cursor, 0) == Normal(cursor)
    {}

    /** The cursor, advanced past the probed port, stands for the next port in cyclic order. */
    static lemma CursorAdvances(start: u16, i: nat, cursor: u16)
      requires Normal(cursor) == Cyclic(start, i)
      ensures Normal(ToU16(Cyclic(start, i) as int + 1)) == Cyclic(start, i + 1)
    {}

    /** `allocate_port_locked` */
    method AllocatePortLocked() returns (r: Option<u16>)
      modifies this`portIndex
      ensures r.None? <==> Exhausted(portMap.Keys)
      ensures r.Some? ==> FirstFree(old(portIndex), portMap.Keys, r.value)
      ensures portIndex == ToU16((if r.Some? then r.value else Cyclic(old(portIndex), NAT_PORTS - 1)) + 1)
    {
      FirstFreeOrExhausted(portIndex, portMap.Keys);
      CyclicStart(portIndex);
      hide Cyclic, Exhausted;
      ghost var start := portIndex;
      for i := 0 to NAT_PORTS
        invariant Normal(portIndex) == Cyclic(start, i)
        invariant forall j: nat | j < i :: Cyclic(start, j) in portMap.Keys
        invariant i > 0 ==> portIndex == ToU16(Cyclic(start, i - 1) + 1)
      {
        ghost var before := portIndex;
        var p := portIndex;
        portIndex := ToU16(portIndex as int + 1);
        if !(NAT_PORT_START <= p <= NAT_PORT_END) {
          portIndex := ToU16(NAT_PORT_START + 1);
          p := NAT_PORT_START;
        }
        assert p == Cyclic(start, i);
        CursorAdvances(start, i, before);
        if p !in portMap {
          return Some(p);
        }
      }
      r := None;
    }

    /** The fast path: the entry is there and is refreshed. */
    method Refresh(flow: Flow, port: u16, now: int)
      requires Valid() && flow in addrMap && addrMap[flow] == port
      modifies portMap.Values
      ensures Valid() && port in portMap && portMap[port].flow == flow
      ensures forall p | p in portMap ::
                portMap[p].lastActive == if flow == portMap[p].flow && now - old(portMap[p].lastActive) > 1000 then now
                                         else old(portMap[p].lastActive)
    {
      assert port in Contents().portMap;
      DistinctEntries(port);
      SameFlowSamePort(port);
      portMap[port].Touch(now);
    }

    /** `lookup_or_insert`, without other tasks in between. */
    method LookupOrInsert(flow: Flow, now: int) returns (r: Option<u16>)
      requires Valid()
      modifies this, portMap.Values
      ensures Valid()
      ensures flow in old(addrMap) ==> r == Some(old(addrMap[flow])) && Contents() == old(Contents())
      ensures flow !in old(addrMap) ==>
                if Exhausted(old(portMap).Keys) then r == None && Contents() == old(Contents())
                else r.Some? && FirstFree(old(portIndex), old(portMap).Keys, r.value)
                     && Contents() == Insert(old(Contents()), flow, r.value)
      ensures r.Some? ==> r.value in portMap && portMap[r.value].flow == flow
      ensures forall p | p in old(portMap) ::
                && p in portMap && portMap[p] == old(portMap[p])
                && portMap[p].lastActive == if flow == portMap[p].flow && now - old(portMap[p].lastActive) > 1000 then now
                                            else old(portMap[p].lastActive)
      ensures r.Some? && r.value !in old(portMap) ==> fresh(portMap[r.value]) && portMap[r.value].lastActive == now
      ensures fresh(portMap.Values - old(portMap.Values))
    {
      hide Exhausted, Inverse;
      if flow in addrMap {
        var port := addrMap[flow];
        Refresh(flow, port, now);
        return Some(port);
      }
      r := AllocatePortLocked();
      if r.Some? {
        assert InRange(r.value) && r.value !in portMap;
        Add(flow, r.value, now);
      } else {
        NotInTable(flow);
      }
    }

    lemma NotInTable(flow: Flow)
      requires Valid() && flow !in addrMap
      ensures forall p | p in portMap :: portMap[p].flow != flow
    {
      assert forall p | p in portMap :: Contents().portMap[p] in addrMap;
    }

    /** Both inserts of the slow path. */
    method Add(flow: Flow, port: u16, now: int)
      requires Valid() && flow !in addrMap && port !in portMap && InRange(port)
      modifies this`addrMap, this`portMap
      ensures Valid() && Contents() == Insert(old(Contents()), flow, port)
      ensures addrMap == old(addrMap)[flow := port] && portMap.Keys == old(portMap).Keys + {port}
      ensures forall p | p in old(portMap) :: portMap[p] == old(portMap)[p] && portMap[p].flow != flow
      ensures fresh(portMap[port]) && portMap[port].flow == flow && portMap[port].lastActive == now
    {
      NotInTable(flow);
      InsertKeepsInverse(Contents(), flow, port);
      ghost var before := Contents();
      var entry := new Entry(flow, now);
      portMap := portMap[port := entry];
      addrMap := addrMap[flow := port];
      assert Contents() == Insert(before, flow, port);
    }

    /** `lookup_back` */
    method LookupBack(port: u16, now: int) returns (r: Option<Flow>)
      requires Valid()
      modifies portMap.Values
      ensures r == if port in portMap then Some(portMap[port].flow) else None
      ensures forall p | p in portMap ::
                portMap[p].lastActive == if p == port && now - old(portMap[p].lastActive) > 1000 then now
                                         else old(portMap[p].lastActive)
    {
      if port !in portMap {
        return None;
      }
      DistinctEntries(port);
      portMap[port].Touch(now);
      r := Some(portMap[port].flow);
    }

    /** Inverse maps cannot share an entry between two ports. */
    lemma DistinctEntries(port: u16)
      requires Valid() && port in portMap
      ensures forall p | p in portMap && portMap[p] == portMap[port] :: p == port
    {
      assert forall p | p in portMap :: addrMap[Contents().portMap[p]] == p;
    }

    lemma SameFlowSamePort(port: u16)
      requires Valid() && port in portMap
      ensures forall p | p in portMap && portMap[p].flow == portMap[port].flow :: p == port
    {
      assert forall p | p in portMap :: addrMap[Contents().portMap[p]] == p;
    }

    /** `gc`, without other tasks in between: exactly the idle sessions go, from both maps. */
    method Gc(timeout: int, now: int)
      requires Valid()
      modifies this`addrMap, this`portMap
      ensures Valid()
      ensures Contents() == Remove(old(Contents()), set p | p in old(portMap) && now - old(portMap[p].lastActive) > timeout)
    {
      hide Remove, Inverse;
      ghost var before := Contents();
      var expired := set p | p in portMap && now - portMap[p].lastActive > timeout;
      var rest := expired;
      RemoveFacts(before, {});
      assert expired - rest == {};
      assert expired == set p | p in old(portMap) && now - old(portMap[p].lastActive) > timeout;
      while rest != {}
        invariant rest <= expired
        invariant Contents() == Remove(before, expired - rest)
        invariant forall p | p in portMap :: p in old(portMap) && portMap[p] == old(portMap)[p]
        decreases |rest|
      {
        var p :| p in rest;
        ghost var left := Contents();
        RemoveFacts(before, expired - rest);
        assert p in left.portMap && left.portMap[p] == before.portMap[p];
        RemoveOneMore(before, expired - rest, p);
        Unset(p);
        assert expired - (rest - {p}) == expired - rest + {p};
        rest := rest - {p};
      }
      assert expired - {} == expired;
      RemoveKeepsInverse(before, expired);
      RemoveFacts(before, expired);
    }

    /** Both removals of one pair. */
    method Unset(p: u16)
      requires p in portMap
      modifies this`addrMap, this`portMap
      ensures Contents() == Table(old(Contents()).addrMap - {old(portMap[p].flow)}, old(Contents()).portMap - {p})
      ensures portMap == old(portMap) - {p}
    {
      var flow := portMap[p].flow;
      portMap := portMap - {p};
      addrMap := addrMap - {flow};
    }
  }
}
