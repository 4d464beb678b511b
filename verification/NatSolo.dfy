/** A task of the NAT table that nobody interrupts does what the table's methods say. */
module NatSolo {
  import opened Bytes
  import opened NatTable
  import opened NatSystem

  /** Steps of one task only. */
  ghost predicate Solo(trace: seq<Sys>, arcs: seq<nat>, t: Tid) {
    && |trace| == |arcs| + 1 && t in trace[0].tasks
    && forall k | 0 <= k < |arcs| :: t in trace[k].tasks && TaskNext(trace[k], t, arcs[k], trace[k + 1])
  }

  predicate Unlocked(s: Sys) {
    s.addrLock == RwLock({}, None) == s.portLock
  }

  /** Only the tables, the cursor and the timestamps may differ, and t is done. */
  predicate Finished(s: Sys, t: Tid, answer: Pc, s': Sys) {
    && s'.tasks == s.tasks[t := answer] && s'.gc == s.gc && s'.now == s.now && s'.timeout == s.timeout
    && Unlocked(s')
  }

  predicate SameMaps(s: Sys, s': Sys) {
    s'.addrMap == s.addrMap && s'.portMap == s.portMap
  }

  /** The timestamp of a port's session is now, if it was more than a second old; no other changes. */
  predicate Refreshed(s: Sys, p: u16, s': Sys)
    requires p in s.portMap
  {
    && s'.active.Keys == s.active.Keys
    && forall a | a in s.active ::
         s'.active[a] == if a == s.portMap[p].arc && s.now - s.active[a] > 1000 then s.now else s.active[a]
  }

  /** What `lookup_or_insert` comes to. */
  ghost predicate LookedUp(s: Sys, t: Tid, flow: Flow, s': Sys) {
    if flow in s.addrMap then
      && s.addrMap[flow] in s.portMap && Finished(s, t, Done(Some(flow), Some(s.addrMap[flow])), s')
      && SameMaps(s, s') && s'.cursor == s.cursor && Refreshed(s, s.addrMap[flow], s')
    else if Exhausted(s.portMap.Keys) then
      && Finished(s, t, Done(Some(flow), None), s') && SameMaps(s, s') && s'.active == s.active
      && s'.cursor == (Cyclic(s.cursor, NAT_PORTS - 1) + 1) % 65536
    else
      exists p: u16, arc: nat ::
        && FirstFree(s.cursor, s.portMap.Keys, p) && arc !in s.active
        && Finished(s, t, Done(Some(flow), Some(p)), s')
        && s'.addrMap == s.addrMap[flow := p] && s'.portMap == s.portMap[p := Slot(flow, arc)]
        && s'.active == s.active[arc := s.now] && s'.cursor == (p + 1) % 65536
  }

  /** What `lookup_back` comes to. */
  predicate LookedBack(s: Sys, t: Tid, port: u16, s': Sys) {
    && SameMaps(s, s') && s'.cursor == s.cursor
    && if port in s.portMap then
         Finished(s, t, Done(Some(s.portMap[port].flow), None), s') && Refreshed(s, port, s')
       else Finished(s, t, Done(None, None), s') && s'.active == s.active
  }

  /** A step of t, as long as it has no answer. */
  lemma StepOf(trace: seq<Sys>, arcs: seq<nat>, t: Tid, k: nat)
    requires Solo(trace, arcs, t) && k < |trace| && t in trace[k].tasks
    requires !trace[k].tasks[t].Done? && trace[|trace| - 1].tasks.Keys == trace[0].tasks.Keys
    requires t in trace[|trace| - 1].tasks && trace[|trace| - 1].tasks[t].Done?
    ensures k < |arcs| && TaskNext(trace[k], t, arcs[k], trace[k + 1]) && t in trace[k + 1].tasks
  {
    hide FirstFree, Exhausted;
  }

  lemma {:induction false} TasksStay(trace: seq<Sys>, arcs: seq<nat>, t: Tid, k: nat)
    requires Solo(trace, arcs, t) && k < |trace|
    ensures trace[k].tasks.Keys == trace[0].tasks.Keys
  {
    if k > 0 {
      TasksStay(trace, arcs, t, k - 1);
      assert TaskNext(trace[k - 1], t, arcs[k - 1], trace[k]);
    }
  }

  /** A task that has its answer takes no more steps. */
  lemma DoneIsLast(trace: seq<Sys>, arcs: seq<nat>, t: Tid, k: nat)
    requires Solo(trace, arcs, t) && k < |trace| && t in trace[k].tasks && trace[k].tasks[t].Done?
    ensures k == |arcs|
  {
    if k < |arcs| {
      DoneStays(trace[k], t, arcs[k], trace[k + 1]);
    }
  }

  lemma DoneStays(s: Sys, t: Tid, arc: nat, s': Sys)
    requires t in s.tasks && TaskNext(s, t, arc, s')
    ensures !s.tasks[t].Done?
  {}

  /** The first two steps: a look under the read lock. */
  lemma FirstLook(s: Sys, t: Tid, flow: Flow, arc: nat, s1: Sys, arc1: nat, s2: Sys)
    requires Unlocked(s) && t in s.tasks && s.tasks[t] == Lookup(flow)
    requires TaskNext(s, t, arc, s1) && t in s1.tasks && TaskNext(s1, t, arc1, s2)
    ensures if flow in s.addrMap then
              s2 == Go(s, t, FoundPort(flow, s.addrMap[flow])).(addrLock := RwLock({Task(t)}, None))
            else s2 == Go(s, t, Missed(flow))
  {
    hide FirstFree, Exhausted;
    assert s1 == Go(s, t, AddrRead(flow)).(addrLock := RwLock({Task(t)}, None));
    assert s.tasks[t := AddrRead(flow)][t := Missed(flow)] == s.tasks[t := Missed(flow)];
  }

  lemma Hit(s: Sys, t: Tid, flow: Flow, s2: Sys, arc2: nat, s3: Sys, arc3: nat, s4: Sys)
    requires Unlocked(s) && t in s.tasks && flow in s.addrMap && s.addrMap[flow] in s.portMap
    requires s2 == Go(s, t, FoundPort(flow, s.addrMap[flow])).(addrLock := RwLock({Task(t)}, None))
    requires TaskNext(s2, t, arc2, s3) && t in s3.tasks && TaskNext(s3, t, arc3, s4)
    ensures LookedUp(s, t, flow, s4)
  {
    hide FirstFree, Exhausted;
    var port := s.addrMap[flow];
    assert s3.tasks == s.tasks[t := BothRead(flow, port)];
    assert s4.tasks == s.tasks[t := Done(Some(flow), Some(port))];
  }

  /** Three steps to both write locks, the table unchanged. */
  lemma ToBothLocks(s: Sys, t: Tid, flow: Flow, s2: Sys, arc2: nat, s3: Sys, arc3: nat, s4: Sys, arc4: nat, s5: Sys)
    requires Unlocked(s) && t in s.tasks && flow !in s.addrMap && s2 == Go(s, t, Missed(flow))
    requires TaskNext(s2, t, arc2, s3) && t in s3.tasks && TaskNext(s3, t, arc3, s4)
    requires t in s4.tasks && TaskNext(s4, t, arc4, s5)
    ensures var mine := RwLock({}, Some(Task(t)));
            s5 == Go(s, t, BothWrite(flow)).(addrLock := mine, portLock := mine)
  {
    hide FirstFree, Exhausted;
    assert s3 == Go(s, t, AddrWrite(flow)).(addrLock := RwLock({}, Some(Task(t))));
    assert s4 == Go(s, t, Absent(flow)).(addrLock := RwLock({}, Some(Task(t))));
  }

  lemma Full(s: Sys, t: Tid, flow: Flow, s5: Sys, arc5: nat, s6: Sys)
    requires Unlocked(s) && t in s.tasks && flow !in s.addrMap && Exhausted(s.portMap.Keys)
    requires var mine := RwLock({}, Some(Task(t)));
             s5 == Go(s, t, BothWrite(flow)).(addrLock := mine, portLock := mine)
    requires TaskNext(s5, t, arc5, s6)
    ensures LookedUp(s, t, flow, s6) && t in s6.tasks && s6.tasks[t].Done?
  {
    hide FirstFree, Exhausted, Cyclic;
  }

  lemma Inserted(s: Sys, t: Tid, flow: Flow, s5: Sys, arc5: nat, s6: Sys, arc6: nat, s7: Sys)
    requires Unlocked(s) && t in s.tasks && flow !in s.addrMap && !Exhausted(s.portMap.Keys)
    requires var mine := RwLock({}, Some(Task(t)));
             s5 == Go(s, t, BothWrite(flow)).(addrLock := mine, portLock := mine)
    requires TaskNext(s5, t, arc5, s6) && t in s6.tasks && TaskNext(s6, t, arc6, s7)
    ensures LookedUp(s, t, flow, s7)
  {
    hide FirstFree, Exhausted, Cyclic;
    var p := s6.tasks[t].port;
    assert FirstFree(s.cursor, s.portMap.Keys, p) && arc5 !in s.active;
    assert s7.tasks == s.tasks[t := Done(Some(flow), Some(p))];
  }

  /**
   `lookup_or_insert` as one operation: the session's port with its timestamp refreshed, or the first free port
   from the cursor on in both maps, or None with both maps as they were when the range is full.
   */
  lemma LookupAlone(trace: seq<Sys>, arcs: seq<nat>, t: Tid, flow: Flow)
    requires Solo(trace, arcs, t) && Inv(trace[0]) && Unlocked(trace[0]) && trace[0].tasks[t] == Lookup(flow)
    requires t in trace[|arcs|].tasks && trace[|arcs|].tasks[t].Done?
    ensures LookedUp(trace[0], t, flow, trace[|arcs|])
  {
    hide LookedUp, TaskNext, Inv, Unlocked, Exhausted;
    TasksStay(trace, arcs, t, |arcs|);
    StepOf(trace, arcs, t, 0);
    var s := trace[0];
    AfterLookup(s, t, flow, arcs[0], trace[1]);
    StepOf(trace, arcs, t, 1);
    FirstLook(s, t, flow, arcs[0], trace[1], arcs[1], trace[2]);
    if flow in s.addrMap {
      PortIsThere(s, flow);
      StepOf(trace, arcs, t, 2);
      AfterFound(trace[2], t, flow, s.addrMap[flow], arcs[2], trace[3]);
      StepOf(trace, arcs, t, 3);
      Hit(s, t, flow, trace[2], arcs[2], trace[3], arcs[3], trace[4]);
      LookedUpIsDone(s, t, flow, trace[4]);
      DoneIsLast(trace, arcs, t, 4);
    } else {
      MissAlone(trace, arcs, t, flow);
    }
  }

  lemma MissAlone(trace: seq<Sys>, arcs: seq<nat>, t: Tid, flow: Flow)
    requires Solo(trace, arcs, t) && Unlocked(trace[0]) && flow !in trace[0].addrMap
    requires 2 <= |arcs| && trace[2] == Go(trace[0], t, Missed(flow))
    requires trace[|arcs|].tasks.Keys == trace[0].tasks.Keys && trace[|arcs|].tasks[t].Done?
    ensures LookedUp(trace[0], t, flow, trace[|arcs|])
  {
    hide LookedUp, TaskNext, Unlocked, Exhausted;
    var s := trace[0];
    StepOf(trace, arcs, t, 2);
    AfterMissed(s, trace[2], t, flow, arcs[2], trace[3]);
    StepOf(trace, arcs, t, 3);
    AfterWrite(s, trace[3], t, flow, arcs[3], trace[4]);
    StepOf(trace, arcs, t, 4);
    ToBothLocks(s, t, flow, trace[2], arcs[2], trace[3], arcs[3], trace[4], arcs[4], trace[5]);
    StepOf(trace, arcs, t, 5);
    if Exhausted(s.portMap.Keys) {
      Full(s, t, flow, trace[5], arcs[5], trace[6]);
      DoneIsLast(trace, arcs, t, 6);
    } else {
      AfterInsert(s, trace[5], t, flow, arcs[5], trace[6]);
      StepOf(trace, arcs, t, 6);
      Inserted(s, t, flow, trace[5], arcs[5], trace[6], arcs[6], trace[7]);
      LookedUpIsDone(s, t, flow, trace[7]);
      DoneIsLast(trace, arcs, t, 7);
    }
  }

  lemma AfterLookup(s: Sys, t: Tid, flow: Flow, arc: nat, s1: Sys)
    requires t in s.tasks && s.tasks[t] == Lookup(flow) && TaskNext(s, t, arc, s1)
    ensures t in s1.tasks && s1.tasks[t] == AddrRead(flow)
  {
    hide FirstFree, Exhausted;
  }

  lemma AfterFound(s: Sys, t: Tid, flow: Flow, port: u16, arc: nat, s1: Sys)
    requires t in s.tasks && s.tasks[t] == FoundPort(flow, port) && TaskNext(s, t, arc, s1)
    ensures t in s1.tasks && s1.tasks[t] == BothRead(flow, port)
  {
    hide FirstFree, Exhausted;
  }

  lemma AfterMissed(s: Sys, s2: Sys, t: Tid, flow: Flow, arc: nat, s3: Sys)
    requires s2 == Go(s, t, Missed(flow)) && TaskNext(s2, t, arc, s3)
    ensures t in s3.tasks && s3.tasks[t] == AddrWrite(flow) && s3.addrMap == s.addrMap
  {
    hide FirstFree, Exhausted;
  }

  lemma AfterWrite(s: Sys, s3: Sys, t: Tid, flow: Flow, arc: nat, s4: Sys)
    requires t in s3.tasks && s3.tasks[t] == AddrWrite(flow) && s3.addrMap == s.addrMap && flow !in s.addrMap
    requires TaskNext(s3, t, arc, s4)
    ensures t in s4.tasks && s4.tasks[t] == Absent(flow)
  {
    hide FirstFree, Exhausted;
  }

  lemma AfterInsert(s: Sys, s5: Sys, t: Tid, flow: Flow, arc: nat, s6: Sys)
    requires t in s5.tasks && s5.tasks[t] == BothWrite(flow) && s5.portMap == s.portMap
    requires !Exhausted(s.portMap.Keys) && TaskNext(s5, t, arc, s6)
    ensures t in s6.tasks && s6.tasks[t].PortInserted?
  {
    hide FirstFree, Exhausted;
  }

  lemma LookedUpIsDone(s: Sys, t: Tid, flow: Flow, s': Sys)
    requires LookedUp(s, t, flow, s')
    ensures t in s'.tasks && s'.tasks[t].Done?
  {
    hide Exhausted, FirstFree;
  }

  lemma PortIsThere(s: Sys, flow: Flow)
    requires Inv(s) && Unlocked(s) && flow in s.addrMap
    ensures s.addrMap[flow] in s.portMap && s.portMap[s.addrMap[flow]].flow == flow
  {}

  /** `lookup_back` as one operation: the session behind a port, its timestamp refreshed. */
  lemma BackAlone(trace: seq<Sys>, arcs: seq<nat>, t: Tid, port: u16)
    requires Solo(trace, arcs, t) && Unlocked(trace[0]) && trace[0].tasks[t] == Back(port)
    requires t in trace[|arcs|].tasks && trace[|arcs|].tasks[t].Done?
    ensures LookedBack(trace[0], t, port, trace[|arcs|])
  {
    hide LookedBack, TaskNext, Unlocked;
    TasksStay(trace, arcs, t, |arcs|);
    var s := trace[0];
    StepOf(trace, arcs, t, 0);
    AfterBack(s, t, port, arcs[0], trace[1]);
    StepOf(trace, arcs, t, 1);
    BackLook(s, t, port, trace[1], arcs[1], trace[2]);
    if port in s.portMap {
      StepOf(trace, arcs, t, 2);
      BackTouch(s, t, port, trace[2], arcs[2], trace[3]);
      DoneIsLast(trace, arcs, t, 3);
    } else {
      DoneIsLast(trace, arcs, t, 2);
    }
  }

  lemma AfterBack(s: Sys, t: Tid, port: u16, arc: nat, s1: Sys)
    requires Unlocked(s) && t in s.tasks && s.tasks[t] == Back(port) && TaskNext(s, t, arc, s1)
    ensures s1 == Go(s, t, BackRead(port)).(portLock := RwLock({Task(t)}, None))
  {
    hide FirstFree, Exhausted;
  }

  lemma BackLook(s: Sys, t: Tid, port: u16, s1: Sys, arc: nat, s2: Sys)
    requires Unlocked(s) && t in s.tasks && s1 == Go(s, t, BackRead(port)).(portLock := RwLock({Task(t)}, None))
    requires TaskNext(s1, t, arc, s2)
    ensures port in s.portMap ==> s2 == Go(s, t, BackFound(s.portMap[port].flow, s.portMap[port].arc))
    ensures port !in s.portMap ==> s2 == Go(s, t, Done(None, None)) && LookedBack(s, t, port, s2)
  {
    hide FirstFree, Exhausted;
    assert s2.tasks == s.tasks[t := s2.tasks[t]];
  }

  lemma BackTouch(s: Sys, t: Tid, port: u16, s2: Sys, arc: nat, s3: Sys)
    requires Unlocked(s) && t in s.tasks && port in s.portMap
    requires s2 == Go(s, t, BackFound(s.portMap[port].flow, s.portMap[port].arc)) && TaskNext(s2, t, arc, s3)
    ensures LookedBack(s, t, port, s3) && t in s3.tasks && s3.tasks[t].Done?
  {
    hide FirstFree, Exhausted;
    assert s3.tasks == s.tasks[t := s3.tasks[t]];
  }
}
