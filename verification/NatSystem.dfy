/**
 The NAT table under concurrency: tasks inside `lookup_or_insert` and `lookup_back`, one garbage
 collector, and the two read-write locks, interleaved step by step.
 */
module NatSystem {
  import opened Bytes
  import opened NatTable

  type Tid = nat

  /** Where a task stands; it holds the locks its constructor names. */
  datatype Pc =
    // lookup_or_insert
    | Lookup(flow: Flow)
    | AddrRead(flow: Flow)
    | FoundPort(flow: Flow, port: u16)    // still holds the addr_map read lock
    | BothRead(flow: Flow, port: u16)
    | Missed(flow: Flow)
    | AddrWrite(flow: Flow)
    | Absent(flow: Flow)                  // still holds the addr_map write lock
    | BothWrite(flow: Flow)
    | PortInserted(flow: Flow, port: u16) // both write locks, port_map already changed
    // lookup_back
    | Back(port: u16)
    | BackRead(port: u16)
    | BackFound(flow: Flow, arc: nat)     // no lock, an Arc of the entry
    | Done(query: Option<Flow>, result: Option<u16>)

  datatype GcPc =
    | GcIdle
    | GcClock(start: int)                                         // the time is taken, no lock yet
    | GcScan(start: int, todo: set<u16>, expired: map<u16, Flow>) // port_map read lock
    | GcWant(expired: map<u16, Flow>)
    | GcAddrWrite(expired: map<u16, Flow>)
    | GcRemove(rest: map<u16, Flow>)                              // both write locks
    | GcHalf(rest: map<u16, Flow>, port: u16, flow: Flow)         // port_map entry gone, addr_map entry not yet

  datatype Owner = Task(t: Tid) | Collector

  datatype RwLock = RwLock(readers: set<Owner>, writer: Option<Owner>)

  /** A slot of `port_map`: the session and the Arc that carries its timestamp. */
  datatype Slot = Slot(flow: Flow, arc: nat)

  datatype Sys = Sys(
    addrMap: map<Flow, u16>, portMap: map<u16, Slot>, cursor: u16,
    addrLock: RwLock, portLock: RwLock,
    tasks: map<Tid, Pc>, gc: GcPc,
    active: map<nat, int>, now: int, timeout: int)

  function Contents(s: Sys): Table {
    Table(s.addrMap, map p | p in s.portMap :: s.portMap[p].flow)
  }

  predicate Free(l: RwLock) {
    l.readers == {} && l.writer == None
  }

  function Acquired(l: RwLock, o: Owner): RwLock {
    l.(readers := l.readers + {o})
  }

  function Released(l: RwLock, o: Owner): RwLock {
    RwLock(l.readers - {o}, if l.writer == Some(o) then None else l.writer)
  }

  function Locked(l: RwLock, o: Owner): RwLock {
    l.(writer := Some(o))
  }

  /** Refresh at most once a second. */
  function Touched(active: map<nat, int>, arc: nat, now: int): map<nat, int> {
    if arc in active && now - active[arc] > 1000 then active[arc := now] else active
  }

  function Idle(s: Sys, p: u16, start: int): bool
    requires p in s.portMap
  {
    s.portMap[p].arc in s.active && start - s.active[s.portMap[p].arc] > s.timeout
  }

  // ---- Steps ----

  datatype Step =
    | Spawn(t: Tid, pc: Pc)
    | TaskStep(t: Tid, arc: nat)
    | GcStart
    | GcExamine(p: u16)
    | GcStep
    | GcTake(p: u16)
    | Tick(later: int)

  function Go(s: Sys, t: Tid, pc: Pc): Sys {
    s.(tasks := s.tasks[t := pc])
  }

  /** One step of a task. `arc` names a newly allocated entry. */
  ghost predicate TaskNext(s: Sys, t: Tid, arc: nat, s': Sys)
    requires t in s.tasks
  {
    var me := Task(t);
    match s.tasks[t]
    case Lookup(flow) =>
      s.addrLock.writer == None && s' == Go(s, t, AddrRead(flow)).(addrLock := Acquired(s.addrLock, me))
    case AddrRead(flow) =>
      if flow in s.addrMap then s' == Go(s, t, FoundPort(flow, s.addrMap[flow]))
      else s' == Go(s, t, Missed(flow)).(addrLock := Released(s.addrLock, me))
    case FoundPort(flow, port) =>
      s.portLock.writer == None && s' == Go(s, t, BothRead(flow, port)).(portLock := Acquired(s.portLock, me))
    case BothRead(flow, port) =>
      s' == Go(s, t, Done(Some(flow), Some(port))).(
              addrLock := Released(s.addrLock, me), portLock := Released(s.portLock, me),
              active := if port in s.portMap then Touched(s.active, s.portMap[port].arc, s.now) else s.active)
    case Missed(flow) =>
      Free(s.addrLock) && s' == Go(s, t, AddrWrite(flow)).(addrLock := Locked(s.addrLock, me))
    case AddrWrite(flow) =>
      if flow in s.addrMap then
        s' == Go(s, t, Done(Some(flow), Some(s.addrMap[flow]))).(addrLock := Released(s.addrLock, me))
      else s' == Go(s, t, Absent(flow))
    case Absent(flow) =>
      Free(s.portLock) && s' == Go(s, t, BothWrite(flow)).(portLock := Locked(s.portLock, me))
    case BothWrite(flow) =>
      if Exhausted(s.portMap.Keys) then
        && s' == Go(s, t, Done(Some(flow), None)).(
              addrLock := Released(s.addrLock, me), portLock := Released(s.portLock, me),
              cursor := ToU16(Cyclic(s.cursor, NAT_PORTS - 1) + 1))
      else
        && s'.tasks.Keys == s.tasks.Keys && s'.tasks[t].PortInserted?
        && var p := s'.tasks[t].port;
           && FirstFree(s.cursor, s.portMap.Keys, p) && arc !in s.active
           && s' == Go(s, t, PortInserted(flow, p)).(
                 portMap := s.portMap[p := Slot(flow, arc)], active := s.active[arc := s.now], cursor := ToU16(p + 1))
    case PortInserted(flow, port) =>
      s' == Go(s, t, Done(Some(flow), Some(port))).(
              addrMap := s.addrMap[flow := port],
              addrLock := Released(s.addrLock, me), portLock := Released(s.portLock, me))
    case Back(port) =>
      s.portLock.writer == None && s' == Go(s, t, BackRead(port)).(portLock := Acquired(s.portLock, me))
    case BackRead(port) =>
      var pc := if port in s.portMap then BackFound(s.portMap[port].flow, s.portMap[port].arc) else Done(None, None);
      s' == Go(s, t, pc).(portLock := Released(s.portLock, me))
    case BackFound(flow, arc) =>
      s' == Go(s, t, Done(Some(flow), None)).(active := Touched(s.active, arc, s.now))
    case Done(_, _) => false
  }

  ghost predicate GcStartNext(s: Sys, s': Sys) {
    s.gc.GcIdle? && s' == s.(gc := GcClock(s.now))
  }

  /** The filter looks at one entry; its timestamp may change under the read lock, the maps may not. */
  ghost predicate GcExamineNext(s: Sys, p: u16, s': Sys) {
    && s.gc.GcScan? && p in s.gc.todo && p in s.portMap
    && s' == s.(gc := s.gc.(todo := s.gc.todo - {p},
                            expired := if Idle(s, p, s.gc.start) then s.gc.expired[p := s.portMap[p].flow]
                                       else s.gc.expired))
  }

  ghost predicate GcNext(s: Sys, s': Sys) {
    match s.gc
    case GcIdle => false
    case GcClock(start) =>
      && s.portLock.writer == None
      && s' == s.(gc := GcScan(start, s.portMap.Keys, map[]), portLock := Acquired(s.portLock, Collector))
    case GcScan(_, todo, expired) =>
      && todo == {}
      && s' == s.(gc := if expired == map[] then GcIdle else GcWant(expired), portLock := Released(s.portLock, Collector))
    case GcWant(expired) =>
      Free(s.addrLock) && s' == s.(gc := GcAddrWrite(expired), addrLock := Locked(s.addrLock, Collector))
    case GcAddrWrite(expired) =>
      Free(s.portLock) && s' == s.(gc := GcRemove(expired), portLock := Locked(s.portLock, Collector))
    case GcRemove(rest) =>
      && rest == map[]
      && s' == s.(gc := GcIdle, addrLock := Released(s.addrLock, Collector), portLock := Released(s.portLock, Collector))
    case GcHalf(rest, port, flow) =>
      s' == s.(gc := GcRemove(rest), addrMap := s.addrMap - {flow})
  }

  /** The removal loop takes the next pair of its list. */
  ghost predicate GcTakeNext(s: Sys, p: u16, s': Sys) {
    && s.gc.GcRemove? && p in s.gc.rest
    && s' == s.(gc := GcHalf(s.gc.rest - {p}, p, s.gc.rest[p]), portMap := s.portMap - {p})
  }

  ghost predicate Next(s: Sys, step: Step, s': Sys) {
    match step
    case Spawn(t, pc) => t !in s.tasks && (pc.Lookup? || pc.Back?) && s' == Go(s, t, pc)
    case TaskStep(t, arc) => t in s.tasks && TaskNext(s, t, arc, s')
    case GcStart => GcStartNext(s, s')
    case GcExamine(p) => GcExamineNext(s, p, s')
    case GcStep => GcNext(s, s')
    case GcTake(p) => GcTakeNext(s, p, s')
    case Tick(later) => later >= s.now && s' == s.(now := later)
  }

  ghost predicate Init(s: Sys) {
    && s.addrMap == map[] && s.portMap == map[] && s.cursor == NAT_PORT_START
    && s.addrLock == RwLock({}, None) == s.portLock
    && s.tasks == map[] && s.gc == GcIdle && s.active == map[] && s.timeout >= 0
  }

  /** A finite run: every state follows from the one before. */
  ghost predicate Run(trace: seq<Sys>, steps: seq<Step>) {
    && |trace| == |steps| + 1 && Init(trace[0])
    && forall i | 0 <= i < |steps| :: Next(trace[i], steps[i], trace[i + 1])
  }

  // ---- Invariant ----

  predicate ReadsAddr(pc: Pc) {
    pc.AddrRead? || pc.FoundPort? || pc.BothRead?
  }

  predicate WritesAddr(pc: Pc) {
    pc.AddrWrite? || pc.Absent? || pc.BothWrite? || pc.PortInserted?
  }

  predicate ReadsPort(pc: Pc) {
    pc.BothRead? || pc.BackRead?
  }

  predicate WritesPort(pc: Pc) {
    pc.BothWrite? || pc.PortInserted?
  }

  predicate ExclusiveLock(l: RwLock) {
    l.writer.Some? ==> l.readers == {}
  }

  /** The lock words say who is where. */
  ghost predicate LocksRight(s: Sys) {
    && ExclusiveLock(s.addrLock) && ExclusiveLock(s.portLock)
    && (forall t | t in s.tasks ::
          && (Task(t) in s.addrLock.readers <==> ReadsAddr(s.tasks[t]))
          && (s.addrLock.writer == Some(Task(t)) <==> WritesAddr(s.tasks[t]))
          && (Task(t) in s.portLock.readers <==> ReadsPort(s.tasks[t]))
          && (s.portLock.writer == Some(Task(t)) <==> WritesPort(s.tasks[t])))
    && Collector !in s.addrLock.readers
    && (Collector in s.portLock.readers <==> s.gc.GcScan?)
    && (s.addrLock.writer == Some(Collector) <==> s.gc.GcAddrWrite? || s.gc.GcRemove? || s.gc.GcHalf?)
    && (s.portLock.writer == Some(Collector) <==> s.gc.GcRemove? || s.gc.GcHalf?)
    && (forall t | t !in s.tasks ::
          && Task(t) !in s.addrLock.readers && Task(t) !in s.portLock.readers
          && s.addrLock.writer != Some(Task(t)) && s.portLock.writer != Some(Task(t)))
  }

  /** The task that has changed `port_map` and not yet `addr_map`. */
  predicate Inserting(s: Sys, p: u16, flow: Flow) {
    && s.portLock.writer.Some? && s.portLock.writer.value.Task? && s.portLock.writer.value.t in s.tasks
    && s.tasks[s.portLock.writer.value.t] == PortInserted(flow, p)
  }

  /** Each map is the inverse of the other, but for a pair that a lock holder has half changed. */
  ghost predicate MapsRight(s: Sys) {
    && (forall flow | flow in s.addrMap ::
          || (s.addrMap[flow] in s.portMap && s.portMap[s.addrMap[flow]].flow == flow)
          || (s.gc.GcHalf? && s.gc.flow == flow && s.gc.port == s.addrMap[flow] && s.gc.port !in s.portMap))
    && (forall p | p in s.portMap ::
          || (s.portMap[p].flow in s.addrMap && s.addrMap[s.portMap[p].flow] == p)
          || (Inserting(s, p, s.portMap[p].flow) && s.portMap[p].flow !in s.addrMap))
    && forall p | p in s.portMap :: InRange(p)
  }

  /** What a task has read is still so while it holds the lock. */
  ghost predicate TaskRight(s: Sys, pc: Pc) {
    match pc
    case FoundPort(flow, port) => flow in s.addrMap && s.addrMap[flow] == port
    case BothRead(flow, port) => flow in s.addrMap && s.addrMap[flow] == port
    case Absent(flow) => flow !in s.addrMap
    case BothWrite(flow) => flow !in s.addrMap
    case PortInserted(flow, port) => flow !in s.addrMap && port in s.portMap && s.portMap[port].flow == flow
    case _ => true
  }

  ghost predicate TasksRight(s: Sys) {
    forall t | t in s.tasks :: TaskRight(s, s.tasks[t])
  }

  /** The pairs of a snapshot. */
  function Snapshot(gc: GcPc): map<u16, Flow> {
    match gc
    case GcIdle => map[]
    case GcClock(_) => map[]
    case GcScan(_, _, expired) => expired
    case GcWant(expired) => expired
    case GcAddrWrite(expired) => expired
    case GcRemove(rest) => rest
    case GcHalf(rest, _, _) => rest
  }

  /** A live pair: both maps agree on it. */
  predicate Live(s: Sys, p: u16, flow: Flow) {
    && p in s.portMap && s.portMap[p].flow == flow
    && flow in s.addrMap && s.addrMap[flow] == p
  }

  /** However stale, the snapshot names live pairs. */
  ghost predicate SnapshotLive(s: Sys) {
    && (forall p | p in Snapshot(s.gc) :: Live(s, p, Snapshot(s.gc)[p]))
    && (s.gc.GcScan? ==> s.gc.todo <= s.portMap.Keys)
    && (s.gc.GcHalf? ==> s.gc.flow in s.addrMap && s.addrMap[s.gc.flow] == s.gc.port && s.gc.port !in s.portMap)
  }

  ghost predicate Inv(s: Sys) {
    LocksRight(s) && MapsRight(s) && SnapshotLive(s) && TasksRight(s)
  }

  // ---- Preservation ----

  lemma ReaderKeepsLocks(s: Sys, t: Tid, arc: nat, s': Sys)
    requires LocksRight(s) && t in s.tasks && TaskNext(s, t, arc, s')
    requires var pc := s.tasks[t]; pc.Lookup? || pc.AddrRead? || pc.FoundPort? || pc.BothRead?
    ensures LocksRight(s')
  {
    hide LocksRight, TaskNext;
    if s.tasks[t].Lookup? || s.tasks[t].FoundPort? {
      ReadLockKeepsLocks(s, t, arc, s');
    } else {
      ReadDoneKeepsLocks(s, t, arc, s');
    }
  }

  lemma ReadLockKeepsLocks(s: Sys, t: Tid, arc: nat, s': Sys)
    requires LocksRight(s) && t in s.tasks && TaskNext(s, t, arc, s')
    requires s.tasks[t].Lookup? || s.tasks[t].FoundPort?
    ensures LocksRight(s')
  {
    hide MapsRight, SnapshotLive, TaskRight, FirstFree, Exhausted, Touched, Cyclic, ToU16;
  }

  lemma ReadDoneKeepsLocks(s: Sys, t: Tid, arc: nat, s': Sys)
    requires LocksRight(s) && t in s.tasks && TaskNext(s, t, arc, s')
    requires s.tasks[t].AddrRead? || s.tasks[t].BothRead?
    ensures LocksRight(s')
  {
    hide MapsRight, SnapshotLive, TaskRight, FirstFree, Exhausted, Touched, Cyclic, ToU16;
  }

  lemma ReaderKeepsMaps(s: Sys, t: Tid, arc: nat, s': Sys)
    requires LocksRight(s) && MapsRight(s) && TasksRight(s) && t in s.tasks && TaskNext(s, t, arc, s')
    requires var pc := s.tasks[t]; pc.Lookup? || pc.AddrRead? || pc.FoundPort? || pc.BothRead?
    ensures MapsRight(s')
  {
    hide Exhausted, SnapshotLive;
  }

  lemma ReaderKeepsSnapshot(s: Sys, t: Tid, arc: nat, s': Sys)
    requires Inv(s) && t in s.tasks && TaskNext(s, t, arc, s')
    requires var pc := s.tasks[t]; pc.Lookup? || pc.AddrRead? || pc.FoundPort? || pc.BothRead?
    ensures SnapshotLive(s')
  {
    hide Exhausted;
  }

  lemma ReaderKeepsTasks(s: Sys, t: Tid, arc: nat, s': Sys)
    requires LocksRight(s) && TasksRight(s) && t in s.tasks && TaskNext(s, t, arc, s')
    requires var pc := s.tasks[t]; pc.Lookup? || pc.AddrRead? || pc.FoundPort? || pc.BothRead?
    ensures TasksRight(s')
  {
    hide Exhausted;
  }

  lemma BackKeepsLocks(s: Sys, t: Tid, arc: nat, s': Sys)
    requires LocksRight(s) && t in s.tasks && TaskNext(s, t, arc, s')
    requires var pc := s.tasks[t]; pc.Back? || pc.BackRead? || pc.BackFound? || pc.Done?
    ensures LocksRight(s')
  {
    hide MapsRight, SnapshotLive, TaskRight, FirstFree, Exhausted, Touched, Cyclic, ToU16;
  }

  lemma BackKeepsMaps(s: Sys, t: Tid, arc: nat, s': Sys)
    requires LocksRight(s) && MapsRight(s) && TasksRight(s) && t in s.tasks && TaskNext(s, t, arc, s')
    requires var pc := s.tasks[t]; pc.Back? || pc.BackRead? || pc.BackFound? || pc.Done?
    ensures MapsRight(s')
  {
    hide Exhausted, SnapshotLive;
  }

  lemma BackKeepsSnapshot(s: Sys, t: Tid, arc: nat, s': Sys)
    requires Inv(s) && t in s.tasks && TaskNext(s, t, arc, s')
    requires var pc := s.tasks[t]; pc.Back? || pc.BackRead? || pc.BackFound? || pc.Done?
    ensures SnapshotLive(s')
  {
    hide Exhausted;
  }

  lemma BackKeepsTasks(s: Sys, t: Tid, arc: nat, s': Sys)
    requires LocksRight(s) && TasksRight(s) && t in s.tasks && TaskNext(s, t, arc, s')
    requires var pc := s.tasks[t]; pc.Back? || pc.BackRead? || pc.BackFound? || pc.Done?
    ensures TasksRight(s')
  {
    hide Exhausted;
  }

  lemma WriterKeepsLocks(s: Sys, t: Tid, arc: nat, s': Sys)
    requires LocksRight(s) && t in s.tasks && TaskNext(s, t, arc, s')
    requires var pc := s.tasks[t]; pc.Missed? || pc.AddrWrite? || pc.Absent?
    ensures LocksRight(s')
  {
    hide MapsRight, SnapshotLive, TaskRight, FirstFree, Exhausted, Touched, Cyclic, ToU16;
  }

  lemma WriterKeepsMaps(s: Sys, t: Tid, arc: nat, s': Sys)
    requires LocksRight(s) && MapsRight(s) && TasksRight(s) && t in s.tasks && TaskNext(s, t, arc, s')
    requires var pc := s.tasks[t]; pc.Missed? || pc.AddrWrite? || pc.Absent?
    ensures MapsRight(s')
  {
    hide Exhausted, SnapshotLive;
  }

  lemma WriterKeepsSnapshot(s: Sys, t: Tid, arc: nat, s': Sys)
    requires Inv(s) && t in s.tasks && TaskNext(s, t, arc, s')
    requires var pc := s.tasks[t]; pc.Missed? || pc.AddrWrite? || pc.Absent?
    ensures SnapshotLive(s')
  {
    hide Exhausted;
  }

  lemma WriterKeepsTasks(s: Sys, t: Tid, arc: nat, s': Sys)
    requires LocksRight(s) && TasksRight(s) && t in s.tasks && TaskNext(s, t, arc, s')
    requires var pc := s.tasks[t]; pc.Missed? || pc.AddrWrite? || pc.Absent?
    ensures TasksRight(s')
  {
    hide Exhausted;
  }

  lemma InsertKeepsLocks(s: Sys, t: Tid, arc: nat, s': Sys)
    requires LocksRight(s) && t in s.tasks && TaskNext(s, t, arc, s')
    requires var pc := s.tasks[t]; pc.BothWrite? || pc.PortInserted?
    ensures LocksRight(s')
  {
    hide MapsRight, SnapshotLive, TaskRight, FirstFree, Exhausted, Touched, Cyclic, ToU16;
  }

  lemma InsertKeepsMaps(s: Sys, t: Tid, arc: nat, s': Sys)
    requires LocksRight(s) && MapsRight(s) && TasksRight(s) && t in s.tasks && TaskNext(s, t, arc, s')
    requires var pc := s.tasks[t]; pc.BothWrite? || pc.PortInserted?
    ensures MapsRight(s')
  {
    hide MapsRight, LocksRight, TasksRight, TaskNext;
    if s.tasks[t].BothWrite? {
      PutPortKeepsMaps(s, t, arc, s');
    } else {
      PutAddrKeepsMaps(s, t, arc, s');
    }
  }

  lemma PutPortKeepsMaps(s: Sys, t: Tid, arc: nat, s': Sys)
    requires LocksRight(s) && MapsRight(s) && TasksRight(s) && t in s.tasks && TaskNext(s, t, arc, s')
    requires s.tasks[t].BothWrite?
    ensures MapsRight(s')
  {
    hide Exhausted, SnapshotLive, Touched, Cyclic, ToU16;
  }

  lemma PutAddrKeepsMaps(s: Sys, t: Tid, arc: nat, s': Sys)
    requires LocksRight(s) && MapsRight(s) && TasksRight(s) && t in s.tasks && TaskNext(s, t, arc, s')
    requires s.tasks[t].PortInserted?
    ensures MapsRight(s')
  {
    hide Exhausted, SnapshotLive, FirstFree, Touched;
  }

  lemma InsertKeepsSnapshot(s: Sys, t: Tid, arc: nat, s': Sys)
    requires Inv(s) && t in s.tasks && TaskNext(s, t, arc, s')
    requires var pc := s.tasks[t]; pc.BothWrite? || pc.PortInserted?
    ensures SnapshotLive(s')
  {
    hide Exhausted;
  }

  lemma InsertKeepsTasks(s: Sys, t: Tid, arc: nat, s': Sys)
    requires LocksRight(s) && TasksRight(s) && t in s.tasks && TaskNext(s, t, arc, s')
    requires var pc := s.tasks[t]; pc.BothWrite? || pc.PortInserted?
    ensures TasksRight(s')
  {
    hide Exhausted;
  }

  /** A snapshot that shrinks or moves on stays live while its pairs do. */
  lemma SnapshotStays(s: Sys, s': Sys)
    requires SnapshotLive(s) && forall p | p in Snapshot(s'.gc) ::
               && p in Snapshot(s.gc) && Snapshot(s'.gc)[p] == Snapshot(s.gc)[p]
               && (Live(s, p, Snapshot(s.gc)[p]) ==> Live(s', p, Snapshot(s.gc)[p]))
    ensures forall p | p in Snapshot(s'.gc) :: Live(s', p, Snapshot(s'.gc)[p])
  {
    hide Live;
  }

  lemma GcStartKeeps(s: Sys, s': Sys)
    requires Inv(s) && GcStartNext(s, s')
    ensures Inv(s')
  {
    SnapshotStays(s, s');
  }

  lemma GcKeepsMaps(s: Sys, s': Sys)
    requires Inv(s) && !s.gc.GcHalf? && GcNext(s, s')
    ensures MapsRight(s') && TasksRight(s')
  {
    hide LocksRight, SnapshotLive;
  }

  lemma GcKeepsSnapshot(s: Sys, s': Sys)
    requires Inv(s) && !s.gc.GcHalf? && GcNext(s, s')
    ensures SnapshotLive(s')
  {
    hide LocksRight, MapsRight, TaskRight;
    SnapshotStays(s, s');
  }

  lemma GcKeepsLocks(s: Sys, s': Sys)
    requires Inv(s) && !s.gc.GcHalf? && GcNext(s, s')
    ensures LocksRight(s')
  {
    hide MapsRight, SnapshotLive, TaskRight;
  }

  lemma GcOtherKeeps(s: Sys, s': Sys)
    requires Inv(s) && !s.gc.GcHalf? && GcNext(s, s')
    ensures Inv(s')
  {
    hide LocksRight, MapsRight, SnapshotLive, TaskRight, GcNext;
    GcKeepsMaps(s, s');
    GcKeepsSnapshot(s, s');
    GcKeepsLocks(s, s');
  }

  lemma GcExamineKeeps(s: Sys, p: u16, s': Sys)
    requires Inv(s) && GcExamineNext(s, p, s')
    ensures Inv(s')
  {
    hide Idle;
    forall q | q in Snapshot(s'.gc) ensures Live(s', q, Snapshot(s'.gc)[q]) {
      if q in Snapshot(s.gc) && Snapshot(s'.gc)[q] == Snapshot(s.gc)[q] {
        assert Live(s, q, Snapshot(s.gc)[q]);
      } else {
        assert q == p && !Inserting(s, p, s.portMap[p].flow);
      }
    }
  }

  lemma GcTakeKeeps(s: Sys, p: u16, s': Sys)
    requires Inv(s) && GcTakeNext(s, p, s')
    ensures Inv(s')
  {
    assert p in Snapshot(s.gc);
    assert Live(s, p, s.gc.rest[p]);
    SnapshotStays(s, s');
  }

  lemma GcHalfKeeps(s: Sys, s': Sys)
    requires Inv(s) && s.gc.GcHalf? && GcNext(s, s')
    ensures Inv(s')
  {
    SnapshotStays(s, s');
  }

  lemma SpawnKeeps(s: Sys, t: Tid, pc: Pc, s': Sys)
    requires Inv(s) && t !in s.tasks && (pc.Lookup? || pc.Back?) && s' == Go(s, t, pc)
    ensures Inv(s')
  {
    SnapshotStays(s, s');
  }

  lemma TickKeeps(s: Sys, later: int, s': Sys)
    requires Inv(s) && s' == s.(now := later)
    ensures Inv(s')
  {
    SnapshotStays(s, s');
  }

  lemma TaskKeeps(s: Sys, t: Tid, arc: nat, s': Sys)
    requires Inv(s) && t in s.tasks && TaskNext(s, t, arc, s')
    ensures Inv(s')
  {
    hide LocksRight, MapsRight, SnapshotLive, TaskRight, TaskNext;
    var pc := s.tasks[t];
    if pc.Lookup? || pc.AddrRead? || pc.FoundPort? || pc.BothRead? {
      ReaderKeepsLocks(s, t, arc, s');
      ReaderKeepsMaps(s, t, arc, s');
      ReaderKeepsSnapshot(s, t, arc, s');
      ReaderKeepsTasks(s, t, arc, s');
    } else if pc.Back? || pc.BackRead? || pc.BackFound? || pc.Done? {
      BackKeepsLocks(s, t, arc, s');
      BackKeepsMaps(s, t, arc, s');
      BackKeepsSnapshot(s, t, arc, s');
      BackKeepsTasks(s, t, arc, s');
    } else if pc.Missed? || pc.AddrWrite? || pc.Absent? {
      WriterKeepsLocks(s, t, arc, s');
      WriterKeepsMaps(s, t, arc, s');
      WriterKeepsSnapshot(s, t, arc, s');
      WriterKeepsTasks(s, t, arc, s');
    } else {
      InsertKeepsLocks(s, t, arc, s');
      InsertKeepsMaps(s, t, arc, s');
      InsertKeepsSnapshot(s, t, arc, s');
      InsertKeepsTasks(s, t, arc, s');
    }
  }

  lemma StepKeeps(s: Sys, step: Step, s': Sys)
    requires Inv(s) && Next(s, step, s')
    ensures Inv(s')
  {
    hide Inv, TaskNext, GcStartNext, GcExamineNext, GcNext, GcTakeNext;
    match step
    case TaskStep(t, arc) => TaskKeeps(s, t, arc, s');
    case GcExamine(p) => GcExamineKeeps(s, p, s');
    case GcTake(p) => GcTakeKeeps(s, p, s');
    case GcStart => GcStartKeeps(s, s');
    case GcStep => if s.gc.GcHalf? { GcHalfKeeps(s, s'); } else { GcOtherKeeps(s, s'); }
    case Spawn(t, pc) => SpawnKeeps(s, t, pc, s');
    case Tick(later) => TickKeeps(s, later, s');
  }

  // ---- Safety over whole runs ----

  lemma {:induction false} RunKeeps(trace: seq<Sys>, steps: seq<Step>, i: nat)
    requires Run(trace, steps) && i < |trace|
    ensures Inv(trace[i])
  {
    if i > 0 {
      hide Inv, Next;
      RunKeeps(trace, steps, i - 1);
      StepKeeps(trace[i - 1], steps[i - 1], trace[i]);
    }
  }

  /**
   In every interleaving: whenever neither write lock is held, each map is the inverse of the other;
   no flow ever holds two ports; and what a garbage collector is about to remove is still a live pair,
   however stale its snapshot.
   */
  lemma MapsStayInverse(trace: seq<Sys>, steps: seq<Step>, i: nat)
    requires Run(trace, steps) && i < |trace|
    ensures var s := trace[i];
            && (s.addrLock.writer == None && s.portLock.writer == None ==> Inverse(Contents(s)))
            && (forall p, q | p in s.portMap && q in s.portMap && s.portMap[p].flow == s.portMap[q].flow :: p == q)
            && (forall p | p in Snapshot(s.gc) :: Live(s, p, Snapshot(s.gc)[p]))
  {
    RunKeeps(trace, steps, i);
    var s := trace[i];
    if s.addrLock.writer == None && s.portLock.writer == None {
      forall flow | flow in s.addrMap ensures s.addrMap[flow] in s.portMap && s.portMap[s.addrMap[flow]].flow == flow {
        assert !s.gc.GcHalf?;
      }
      assert Inverse(Contents(s));
    }
  }

  lemma FoundIsLive(s: Sys, flow: Flow, port: u16)
    requires Inv(s) && flow in s.addrMap && s.addrMap[flow] == port && !s.gc.GcHalf?
    ensures Live(s, port, flow)
  {}

  lemma BackIsLive(s: Sys, port: u16)
    requires Inv(s) && port in s.portMap && s.portLock.writer == None
    ensures Live(s, port, s.portMap[port].flow)
  {}

  lemma NotHalf(s: Sys, t: Tid)
    requires Inv(s) && t in s.tasks && (s.tasks[t].AddrWrite? || s.tasks[t].BothRead? || s.tasks[t].BackRead?)
    ensures !s.gc.GcHalf?
    ensures s.tasks[t].BackRead? ==> s.portLock.writer == None
  {}

  /** Whatever a lookup answers is a live pair at that moment, and it gives up only when the range is full. */
  lemma AnswersAreLive(s: Sys, t: Tid, arc: nat, s': Sys)
    requires Inv(s) && t in s.tasks && TaskNext(s, t, arc, s')
    ensures t in s'.tasks
    ensures forall flow, p | s'.tasks[t] == Done(Some(flow), Some(p)) :: Live(s', p, flow)
    ensures forall flow | s'.tasks[t] == Done(Some(flow), None) && !s.tasks[t].BackFound? :: Exhausted(s.portMap.Keys)
    ensures s'.tasks[t].BackFound? && s.tasks[t].BackRead? ==> Live(s', s.tasks[t].port, s'.tasks[t].flow)
  {
    hide FirstFree, Exhausted, SnapshotLive, MapsRight, LocksRight, ExclusiveLock, Touched, Acquired, Released, Locked,
         Free, Cyclic, ToU16;
    var pc := s.tasks[t];
    if pc.BothRead? || pc.AddrWrite? || pc.BackRead? {
      NotHalf(s, t);
    }
    if pc.BothRead? {
      FoundIsLive(s, pc.flow, pc.port);
    } else if pc.AddrWrite? && pc.flow in s.addrMap {
      FoundIsLive(s, pc.flow, s.addrMap[pc.flow]);
    } else if pc.BackRead? && pc.port in s.portMap {
      BackIsLive(s, pc.port);
    }
  }

  /** A flow keeps its port for as long as it is in the table. */
  /** What a task does to the flows: it adds its own. */
  lemma TaskAddsFlow(s: Sys, t: Tid, arc: nat, s': Sys)
    requires t in s.tasks && TaskNext(s, t, arc, s')
    ensures var pc := s.tasks[t];
            s'.addrMap == if pc.PortInserted? then s.addrMap[pc.flow := pc.port] else s.addrMap
  {
    hide FirstFree, Exhausted, Touched, Acquired, Released, Locked, Free, Cyclic, ToU16;
  }

  lemma PortIsStable(s: Sys, step: Step, s': Sys, flow: Flow)
    requires Inv(s) && Next(s, step, s') && flow in s.addrMap && flow in s'.addrMap
    ensures s'.addrMap[flow] == s.addrMap[flow]
  {
    hide SnapshotLive, MapsRight, LocksRight, TaskNext, Idle, Acquired, Released, Locked, Free;
    if step.TaskStep? {
      TaskAddsFlow(s, step.t, step.arc, s');
      assert TaskRight(s, s.tasks[step.t]);
    }
  }

  lemma RunAt(trace: seq<Sys>, steps: seq<Step>, i: nat)
    requires Run(trace, steps) && i < |steps|
    ensures Inv(trace[i]) && Next(trace[i], steps[i], trace[i + 1])
  {
    hide Inv, Next;
    RunKeeps(trace, steps, i);
  }

  predicate Throughout(trace: seq<Sys>, i: nat, j: nat, flow: Flow) {
    i <= j < |trace| && forall k | i <= k <= j :: flow in trace[k].addrMap
  }

  /** So do two lookups at different times, if no garbage collector took the flow out in between. */
  lemma {:induction false} SamePortThroughout(trace: seq<Sys>, steps: seq<Step>, i: nat, j: nat, flow: Flow)
    requires Run(trace, steps) && Throughout(trace, i, j, flow)
    ensures trace[j].addrMap[flow] == trace[i].addrMap[flow]
    decreases j
  {
    hide *;
    ThroughoutLength(trace, i, j, flow);
    if i < j {
      RunLength(trace, steps);
      ThroughoutAt(trace, i, j, flow);
      RunAt(trace, steps, j - 1);
      SamePortThroughout(trace, steps, i, j - 1, flow);
      PortIsStable(trace[j - 1], steps[j - 1], trace[j], flow);
    }
  }

  lemma ThroughoutLength(trace: seq<Sys>, i: nat, j: nat, flow: Flow)
    requires Throughout(trace, i, j, flow)
    ensures i <= j < |trace|
  {}

  lemma ThroughoutAt(trace: seq<Sys>, i: nat, j: nat, flow: Flow)
    requires Throughout(trace, i, j, flow) && i < j
    ensures Throughout(trace, i, j - 1, flow) && j < |trace|
    ensures flow in trace[i].addrMap && flow in trace[j - 1].addrMap && flow in trace[j].addrMap
  {}

  lemma RunLength(trace: seq<Sys>, steps: seq<Step>)
    requires Run(trace, steps)
    ensures |trace| == |steps| + 1
  {
    hide Next, Init;
  }

  /** What a task does to the ports: it takes one that was free. */
  lemma TaskAddsPort(s: Sys, t: Tid, arc: nat, s': Sys)
    requires t in s.tasks && TaskNext(s, t, arc, s')
    ensures forall p | p in s.portMap :: p in s'.portMap && s'.portMap[p] == s.portMap[p]
  {
    hide Exhausted, Touched, Acquired, Released, Locked, Free, Cyclic, ToU16;
  }

  lemma TaskKeepsLive(s: Sys, t: Tid, arc: nat, s': Sys, p: u16, flow: Flow)
    requires Inv(s) && t in s.tasks && TaskNext(s, t, arc, s') && Live(s, p, flow)
    ensures Live(s', p, flow)
  {
    hide TaskNext, LocksRight, MapsRight, SnapshotLive;
    TaskAddsFlow(s, t, arc, s');
    TaskAddsPort(s, t, arc, s');
    assert TaskRight(s, s.tasks[t]);
  }

  /** Only the collector takes a live pair out, and only one that its snapshot names. */
  lemma OnlyTheCollectorRemoves(s: Sys, step: Step, s': Sys, p: u16, flow: Flow)
    requires Inv(s) && Next(s, step, s') && Live(s, p, flow) && step != GcTake(p)
    ensures Live(s', p, flow)
  {
    hide TaskNext, LocksRight, MapsRight, TaskRight, Idle;
    if step.TaskStep? {
      TaskKeepsLive(s, step.t, step.arc, s', p, flow);
    }
  }

  /** So a session's port leads back to it throughout, whatever else is inserted or looked up. */
  lemma {:induction false} LiveUntilCollected(trace: seq<Sys>, steps: seq<Step>, i: nat, j: nat, p: u16, flow: Flow)
    requires Run(trace, steps) && i <= j < |trace| && Live(trace[i], p, flow)
    requires forall k | i <= k < j :: steps[k] != GcTake(p)
    ensures Live(trace[j], p, flow)
    decreases j
  {
    RunLength(trace, steps);
    hide *;
    if i < j {
      LiveUntilCollected(trace, steps, i, j - 1, p, flow);
      RunAt(trace, steps, j - 1);
      OnlyTheCollectorRemoves(trace[j - 1], steps[j - 1], trace[j], p, flow);
    }
  }

  // ---- No deadlock ----

  lemma {:induction false} AboveAll(keys: set<nat>) returns (m: nat)
    ensures forall k | k in keys :: k < m
    decreases |keys|
  {
    m := 0;
    if keys != {} {
      var k :| k in keys;
      m := AboveAll(keys - {k});
      if m <= k {
        m := k + 1;
      }
      assert forall j | j in keys :: j == k || j in keys - {k};
    }
  }

  ghost predicate Unfinished(s: Sys) {
    !s.gc.GcIdle? || exists t :: t in s.tasks && !s.tasks[t].Done?
  }

  /** A task that does not wait for a lock can go on. */
  lemma TaskGoesOn(s: Sys, t: Tid) returns (arc: nat, s': Sys)
    requires t in s.tasks && !s.tasks[t].Done?
    requires s.tasks[t].Lookup? ==> s.addrLock.writer == None
    requires s.tasks[t].FoundPort? || s.tasks[t].Back? ==> s.portLock.writer == None
    requires s.tasks[t].Missed? ==> Free(s.addrLock)
    requires s.tasks[t].Absent? ==> Free(s.portLock)
    ensures TaskNext(s, t, arc, s')
  {
    hide Exhausted, FirstFree;
    var me := Task(t);
    arc := AboveAll(s.active.Keys);
    match s.tasks[t]
    case Lookup(flow) => s' := Go(s, t, AddrRead(flow)).(addrLock := Acquired(s.addrLock, me));
    case AddrRead(flow) =>
      s' := if flow in s.addrMap then Go(s, t, FoundPort(flow, s.addrMap[flow]))
            else Go(s, t, Missed(flow)).(addrLock := Released(s.addrLock, me));
    case FoundPort(flow, port) => s' := Go(s, t, BothRead(flow, port)).(portLock := Acquired(s.portLock, me));
    case BothRead(flow, port) =>
      s' := Go(s, t, Done(Some(flow), Some(port))).(
        addrLock := Released(s.addrLock, me), portLock := Released(s.portLock, me),
        active := if port in s.portMap then Touched(s.active, s.portMap[port].arc, s.now) else s.active);
    case Missed(flow) => s' := Go(s, t, AddrWrite(flow)).(addrLock := Locked(s.addrLock, me));
    case AddrWrite(flow) =>
      s' := if flow in s.addrMap then
              Go(s, t, Done(Some(flow), Some(s.addrMap[flow]))).(addrLock := Released(s.addrLock, me))
            else Go(s, t, Absent(flow));
    case Absent(flow) => s' := Go(s, t, BothWrite(flow)).(portLock := Locked(s.portLock, me));
    case BothWrite(flow) =>
      if Exhausted(s.portMap.Keys) {
        s' := Go(s, t, Done(Some(flow), None)).(
          addrLock := Released(s.addrLock, me), portLock := Released(s.portLock, me),
          cursor := ToU16(Cyclic(s.cursor, NAT_PORTS - 1) + 1));
      } else {
        var p := FirstFreeExists(s.cursor, s.portMap.Keys);
        s' := Go(s, t, PortInserted(flow, p)).(
          portMap := s.portMap[p := Slot(flow, arc)], active := s.active[arc := s.now], cursor := ToU16(p as int + 1));
        assert s'.tasks.Keys == s.tasks.Keys;
      }
    case PortInserted(flow, port) =>
      s' := Go(s, t, Done(Some(flow), Some(port))).(
        addrMap := s.addrMap[flow := port],
        addrLock := Released(s.addrLock, me), portLock := Released(s.portLock, me));
    case Back(port) => s' := Go(s, t, BackRead(port)).(portLock := Acquired(s.portLock, me));
    case BackRead(port) =>
      var pc := if port in s.portMap then BackFound(s.portMap[port].flow, s.portMap[port].arc) else Done(None, None);
      s' := Go(s, t, pc).(portLock := Released(s.portLock, me));
    case BackFound(flow, entry) => s' := Go(s, t, Done(Some(flow), None)).(active := Touched(s.active, entry, s.now));
  }

  /** A collector that does not wait for a lock can go on. */
  lemma CollectorGoesOn(s: Sys) returns (step: Step, s': Sys)
    requires !s.gc.GcIdle? && (s.gc.GcScan? ==> s.gc.todo <= s.portMap.Keys)
    requires s.gc.GcClock? ==> s.portLock.writer == None
    requires s.gc.GcWant? ==> Free(s.addrLock)
    requires s.gc.GcAddrWrite? ==> Free(s.portLock)
    ensures !step.Spawn? && !step.Tick? && Next(s, step, s')
  {
    step := GcStep;
    match s.gc
    case GcClock(start) =>
      s' := s.(gc := GcScan(start, s.portMap.Keys, map[]), portLock := Acquired(s.portLock, Collector));
    case GcScan(start, todo, expired) =>
      if todo == {} {
        s' := s.(gc := if expired == map[] then GcIdle else GcWant(expired), portLock := Released(s.portLock, Collector));
      } else {
        var p :| p in todo;
        step := GcExamine(p);
        s' := s.(gc := s.gc.(todo := todo - {p}, expired := if Idle(s, p, start) then expired[p := s.portMap[p].flow]
                                                            else expired));
      }
    case GcWant(expired) => s' := s.(gc := GcAddrWrite(expired), addrLock := Locked(s.addrLock, Collector));
    case GcAddrWrite(expired) => s' := s.(gc := GcRemove(expired), portLock := Locked(s.portLock, Collector));
    case GcRemove(rest) =>
      if rest == map[] {
        s' := s.(gc := GcIdle, addrLock := Released(s.addrLock, Collector), portLock := Released(s.portLock, Collector));
      } else {
        var p :| p in rest;
        step := GcTake(p);
        s' := s.(gc := GcHalf(rest - {p}, p, rest[p]), portMap := s.portMap - {p});
      }
    case GcHalf(rest, port, flow) => s' := s.(gc := GcRemove(rest), addrMap := s.addrMap - {flow});
  }

  /** Who can move: a holder of the port lock, else a holder of the address lock, else anyone. */
  ghost predicate CanMove(s: Sys, o: Owner) {
    match o
    case Task(t) =>
      && t in s.tasks && !s.tasks[t].Done?
      && (s.tasks[t].Lookup? ==> s.addrLock.writer == None)
      && (s.tasks[t].FoundPort? || s.tasks[t].Back? ==> s.portLock.writer == None)
      && (s.tasks[t].Missed? ==> Free(s.addrLock)) && (s.tasks[t].Absent? ==> Free(s.portLock))
    case Collector =>
      && !s.gc.GcIdle? && (s.gc.GcClock? ==> s.portLock.writer == None)
      && (s.gc.GcWant? ==> Free(s.addrLock)) && (s.gc.GcAddrWrite? ==> Free(s.portLock))
  }

  lemma SomeoneCanMove(s: Sys) returns (o: Owner)
    requires Inv(s) && Unfinished(s)
    ensures CanMove(s, o)
  {
    hide MapsRight, SnapshotLive, TaskRight;
    if s.portLock.writer.Some? {
      o := s.portLock.writer.value;
    } else if s.portLock.readers != {} {
      o :| o in s.portLock.readers;
    } else if s.addrLock.writer.Some? {
      o := s.addrLock.writer.value;
    } else if s.addrLock.readers != {} {
      o :| o in s.addrLock.readers;
    } else if !s.gc.GcIdle? {
      o := Collector;
    } else {
      var t :| t in s.tasks && !s.tasks[t].Done?;
      o := Task(t);
    }
  }

  /** The lock order leaves no deadlock: as long as anything is unfinished, some task or the collector can step. */
  lemma NoDeadlock(trace: seq<Sys>, steps: seq<Step>, i: nat) returns (step: Step, s': Sys)
    requires Run(trace, steps) && i < |trace| && Unfinished(trace[i])
    ensures !step.Spawn? && !step.Tick? && Next(trace[i], step, s')
  {
    RunKeeps(trace, steps, i);
    hide LocksRight, MapsRight, TaskRight, Run, TaskNext, Live;
    var s := trace[i];
    var o := SomeoneCanMove(s);
    match o
    case Task(t) =>
      var arc;
      arc, s' := TaskGoesOn(s, t);
      step := TaskStep(t, arc);
    case Collector => step, s' := CollectorGoesOn(s);
  }
}
