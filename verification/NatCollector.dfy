/**
 The garbage collector under concurrency: which sessions a round removes, and what a refresh after the
 collector's snapshot is worth.
 */
module NatCollector {
  import opened Bytes
  import opened NatTable
  import opened NatSystem

  /** From state i to state j the collector is in one and the same round. */
  predicate InRound(trace: seq<Sys>, i: nat, j: nat) {
    i <= j < |trace| && forall k | i <= k <= j :: !trace[k].gc.GcIdle?
  }

  /** The filter has looked at p in this round. */
  predicate Examined(gc: GcPc, p: u16) {
    !gc.GcIdle? && !gc.GcClock? && (gc.GcScan? ==> p !in gc.todo)
  }

  predicate Undecided(s: Sys) {
    s.gc.GcScan? ==> s.gc.todo <= s.portMap.Keys && s.gc.todo !! s.gc.expired.Keys
  }

  // ---- One step ----

  lemma TaskKeepsSlot(s: Sys, t: Tid, arc: nat, s': Sys, p: u16)
    requires t in s.tasks && TaskNext(s, t, arc, s') && p in s.portMap
    ensures p in s'.portMap && s'.portMap[p] == s.portMap[p]
  {
    hide Touched, Exhausted;
  }

  /** Tasks leave the collector and the clock alone, and take nothing out. */
  lemma TaskLeaves(s: Sys, t: Tid, arc: nat, s': Sys)
    requires t in s.tasks && TaskNext(s, t, arc, s')
    ensures s'.gc == s.gc && s'.now == s.now && s'.timeout == s.timeout && s.portMap.Keys <= s'.portMap.Keys
  {
    forall p | p in s.portMap ensures p in s'.portMap {
      TaskKeepsSlot(s, t, arc, s', p);
    }
    hide TaskNext;
    var pc := s.tasks[t];
    if pc.Lookup? || pc.AddrRead? || pc.FoundPort? || pc.BothRead? || pc.Missed? || pc.AddrWrite? {
      LookupLeavesClock(s, t, arc, s');
    } else {
      OtherLeavesClock(s, t, arc, s');
    }
  }

  lemma LookupLeavesClock(s: Sys, t: Tid, arc: nat, s': Sys)
    requires t in s.tasks && TaskNext(s, t, arc, s')
    requires var pc := s.tasks[t];
             pc.Lookup? || pc.AddrRead? || pc.FoundPort? || pc.BothRead? || pc.Missed? || pc.AddrWrite?
    ensures s'.gc == s.gc && s'.now == s.now && s'.timeout == s.timeout
  {
    hide Touched, Exhausted, FirstFree, Acquired, Released, Locked, Free, Cyclic, ToU16;
  }

  lemma OtherLeavesClock(s: Sys, t: Tid, arc: nat, s': Sys)
    requires t in s.tasks && TaskNext(s, t, arc, s')
    requires var pc := s.tasks[t];
             || pc.Absent? || pc.BothWrite? || pc.PortInserted?
             || pc.Back? || pc.BackRead? || pc.BackFound? || pc.Done?
    ensures s'.gc == s.gc && s'.now == s.now && s'.timeout == s.timeout
  {
    hide Touched, Exhausted, FirstFree, Acquired, Released, Locked, Free, Cyclic, ToU16;
  }

  lemma UndecidedKept(s: Sys, step: Step, s': Sys)
    requires Inv(s) && Undecided(s) && Next(s, step, s')
    ensures Undecided(s')
  {
    hide Inv, TaskNext, Idle, Acquired, Released, Locked, Free;
    if step.TaskStep? {
      TaskLeaves(s, step.t, step.arc, s');
    }
  }

  /** What the filter has decided about p stands until p is taken. */
  lemma DecisionStands(s: Sys, step: Step, s': Sys, p: u16)
    requires Next(s, step, s') && Examined(s.gc, p) && !s'.gc.GcIdle?
    ensures Examined(s'.gc, p)
    ensures p in Snapshot(s'.gc) <==> p in Snapshot(s.gc) && step != GcTake(p)
  {
    hide TaskNext, Idle;
    if step.TaskStep? {
      TaskLeaves(s, step.t, step.arc, s');
    }
  }

  lemma DecidedNow(s: Sys, s': Sys, p: u16)
    requires Undecided(s) && GcExamineNext(s, p, s')
    ensures Examined(s'.gc, p) && (p in Snapshot(s'.gc) <==> Idle(s, p, s.gc.start))
  {
    hide Idle;
  }

  /** Nothing but its examination brings a port into the snapshot. */
  lemma EntersSnapshot(s: Sys, step: Step, s': Sys, p: u16)
    requires Undecided(s) && Next(s, step, s') && p in Snapshot(s'.gc)
    ensures !s.gc.GcIdle? && !s'.gc.GcIdle?
    ensures p in Snapshot(s.gc) || (step == GcExamine(p) && GcExamineNext(s, p, s') && Idle(s, p, s.gc.start))
  {
    hide TaskNext, Idle;
    if step.TaskStep? {
      TaskLeaves(s, step.t, step.arc, s');
    }
  }

  /** A session keeps its slot, and its timestamp keeps its place, until it is taken. */
  lemma SlotStays(s: Sys, step: Step, s': Sys, p: u16)
    requires Next(s, step, s') && p in s.portMap && step != GcTake(p)
    ensures p in s'.portMap && s'.portMap[p] == s.portMap[p]
  {
    hide TaskNext, Idle;
    if step.TaskStep? {
      TaskKeepsSlot(s, step.t, step.arc, s', p);
    }
  }

  /** The step refreshes the timestamp: a lookup on its way out whose session is more than a second old. */
  predicate Touches(s: Sys, step: Step, arc: nat) {
    && step.TaskStep? && step.t in s.tasks && arc in s.active && s.now - s.active[arc] > 1000
    && match s.tasks[step.t]
       case BothRead(_, port) => port in s.portMap && s.portMap[port].arc == arc
       case BackFound(_, found) => found == arc
       case _ => false
  }

  lemma TaskTimestamp(s: Sys, t: Tid, entry: nat, s': Sys, arc: nat)
    requires t in s.tasks && TaskNext(s, t, entry, s') && arc in s.active
    ensures s'.active.Keys >= s.active.Keys
    ensures s'.active[arc] == if Touches(s, TaskStep(t, entry), arc) then s.now else s.active[arc]
  {
    hide Exhausted, FirstFree;
  }

  lemma Timestamp(s: Sys, step: Step, s': Sys, arc: nat)
    requires Next(s, step, s') && arc in s.active
    ensures arc in s'.active && s'.active[arc] == if Touches(s, step, arc) then s.now else s.active[arc]
  {
    hide TaskNext, Idle;
    if step.TaskStep? {
      TaskTimestamp(s, step.t, step.arc, s', arc);
    }
  }

  /** The collector's clock reading is in the past. */
  predicate ClockRight(s: Sys) {
    && s.timeout >= 0
    && (s.gc.GcClock? ==> s.gc.start <= s.now) && (s.gc.GcScan? ==> s.gc.start <= s.now)
  }

  lemma ClockKept(s: Sys, step: Step, s': Sys)
    requires ClockRight(s) && Next(s, step, s')
    ensures ClockRight(s') && s'.now >= s.now && s'.timeout == s.timeout
  {
    hide TaskNext, Idle;
    if step.TaskStep? {
      TaskLeaves(s, step.t, step.arc, s');
    }
  }

  // ---- Whole runs ----

  lemma {:induction false} RunRight(trace: seq<Sys>, steps: seq<Step>, i: nat)
    requires Run(trace, steps) && i < |trace|
    ensures Inv(trace[i]) && Undecided(trace[i]) && ClockRight(trace[i])
  {
    hide Inv, Next, Undecided, ClockRight, Init;
    RunKeeps(trace, steps, i);
    if i == 0 {
      StartRight(trace[0]);
    } else {
      RunRight(trace, steps, i - 1);
      UndecidedKept(trace[i - 1], steps[i - 1], trace[i]);
      ClockKept(trace[i - 1], steps[i - 1], trace[i]);
    }
  }

  lemma StartRight(s: Sys)
    requires Init(s)
    ensures Undecided(s) && ClockRight(s)
  {}

  lemma {:induction false} TimeGoesOn(trace: seq<Sys>, steps: seq<Step>, i: nat, j: nat)
    requires Run(trace, steps) && i <= j < |trace|
    ensures trace[i].now <= trace[j].now && trace[i].timeout == trace[j].timeout >= 0
    decreases j
  {
    hide Inv, Next, Undecided;
    RunRight(trace, steps, j);
    if i < j {
      TimeGoesOn(trace, steps, i, j - 1);
      RunRight(trace, steps, j - 1);
      ClockKept(trace[j - 1], steps[j - 1], trace[j]);
    }
  }

  /** The filter looks at p in step e, and the session is idle as of the round's clock reading. */
  ghost predicate FoundIdle(trace: seq<Sys>, steps: seq<Step>, e: nat, p: u16) {
    && e < |steps| < |trace| && steps[e] == GcExamine(p) && trace[e].gc.GcScan? && p in trace[e].portMap
    && var (was, arc) := (trace[e].active, trace[e].portMap[p].arc);
       arc in was && trace[e].gc.start - was[arc] > trace[e].timeout
  }

  lemma FoundIdleIs(trace: seq<Sys>, steps: seq<Step>, e: nat, p: u16)
    requires e < |steps| < |trace| && steps[e] == GcExamine(p) && trace[e].gc.GcScan? && p in trace[e].portMap
    ensures FoundIdle(trace, steps, e, p) <==> Idle(trace[e], p, trace[e].gc.start)
  {}

  lemma {:induction false} DecidedUntilTaken(trace: seq<Sys>, steps: seq<Step>, e: nat, k: nat, p: u16)
    requires Run(trace, steps) && e < k && InRound(trace, e, k) && steps[e] == GcExamine(p)
    ensures Examined(trace[k].gc, p)
    ensures p in Snapshot(trace[k].gc) <==>
              FoundIdle(trace, steps, e, p) && forall j | e < j < k :: steps[j] != GcTake(p)
    decreases k
  {
    hide Inv, Undecided, ClockRight, TaskNext, GcNext, GcTakeNext, Idle, Examined;
    if k == e + 1 {
      RunRight(trace, steps, e);
      DecidedNow(trace[e], trace[k], p);
      FoundIdleIs(trace, steps, e, p);
    } else {
      DecidedUntilTaken(trace, steps, e, k - 1, p);
      DecisionStands(trace[k - 1], steps[k - 1], trace[k], p);
    }
  }

  /**
   A round that gets as far as removing takes a session exactly when the session was idle, as of the
   round's clock reading, at the moment the filter looked at it.
   */
  lemma TakenIff(trace: seq<Sys>, steps: seq<Step>, e: nat, m: nat, p: u16)
    requires Run(trace, steps) && e < m < |steps| && InRound(trace, e, m) && steps[e] == GcExamine(p)
    requires trace[m].gc == GcRemove(map[])
    ensures (exists j | e < j < m :: steps[j] == GcTake(p)) <==> FoundIdle(trace, steps, e, p)
  {
    hide Next, FoundIdle;
    DecidedUntilTaken(trace, steps, e, m, p);
    forall j | e < j < m && steps[j] == GcTake(p) ensures FoundIdle(trace, steps, e, p) {
      DecidedUntilTaken(trace, steps, e, j, p);
      TakesFromSnapshot(trace, steps, j, p);
    }
  }

  /** Between steps a and b the filter looks at p. */
  ghost predicate LookedAt(steps: seq<Step>, a: nat, b: nat, p: u16) {
    exists e | a <= e < b && e < |steps| :: steps[e] == GcExamine(p)
  }

  lemma RoundStep(s: Sys, step: Step, s': Sys)
    requires Next(s, step, s') && !s.gc.GcIdle? && !s'.gc.GcIdle?
    ensures match s.gc
            case GcClock(start) =>
              s'.gc == s.gc || (step == GcStep && s'.gc == GcScan(start, s.portMap.Keys, map[]))
            case GcScan(start, todo, _) =>
              if s'.gc.GcScan? then
                s'.gc.start == start && forall p | p in todo :: p in s'.gc.todo || step == GcExamine(p)
              else todo == {} && !s'.gc.GcClock?
            case _ => !s'.gc.GcClock? && !s'.gc.GcScan?
  {
    hide TaskNext, Idle;
    if step.TaskStep? {
      TaskLeaves(s, step.t, step.arc, s');
    }
  }

  /**
   A whole round up to state m. Its clock is read when it starts; once it has the lock, in step l, every session
   then in the table is still to be looked at or has been, and before the round goes on all have been.
   */
  lemma {:induction false} RoundIs(trace: seq<Sys>, steps: seq<Step>, g: nat, m: nat) returns (l: nat)
    requires Run(trace, steps) && g < m <= |steps| && steps[g] == GcStart && InRound(trace, g + 1, m)
    ensures trace[m].gc.GcClock? ==> trace[m].gc.start == trace[g].now
    ensures !trace[m].gc.GcClock? ==> g < l < m && steps[l] == GcStep && trace[l].gc == GcClock(trace[g].now)
    ensures trace[m].gc.GcScan? ==> trace[m].gc.start == trace[g].now
    ensures !trace[m].gc.GcClock? ==>
              forall p | p in trace[l].portMap ::
                LookedAt(steps, l, m, p) || (trace[m].gc.GcScan? && p in trace[m].gc.todo)
    decreases m
  {
    hide Next, Inv;
    if m == g + 1 {
      Starts(trace[g], trace[m]);
      l := g;
    } else {
      l := RoundIs(trace, steps, g, m - 1);
      RoundStep(trace[m - 1], steps[m - 1], trace[m]);
      if trace[m - 1].gc.GcClock? {
        l := m - 1;
      }
      forall p | !trace[m].gc.GcClock? && p in trace[l].portMap
        ensures LookedAt(steps, l, m, p) || (trace[m].gc.GcScan? && p in trace[m].gc.todo)
      {
        if trace[m - 1].gc.GcScan? && p in trace[m - 1].gc.todo {
          assert (trace[m].gc.GcScan? && p in trace[m].gc.todo) || steps[m - 1] == GcExamine(p);
        }
      }
    }
  }

  lemma Starts(s: Sys, s': Sys)
    requires Next(s, GcStart, s')
    ensures s'.gc == GcClock(s.now)
  {}

  lemma TakesFromSnapshot(trace: seq<Sys>, steps: seq<Step>, j: nat, p: u16)
    requires Run(trace, steps) && j < |steps| && steps[j] == GcTake(p)
    ensures p in Snapshot(trace[j].gc) && p in trace[j].portMap && !trace[j].gc.GcIdle?
  {
    RunKeeps(trace, steps, j);
    hide LocksRight, MapsRight, TaskRight;
    assert Next(trace[j], steps[j], trace[j + 1]);
  }

  /** Since step e of this round the snapshot names p. */
  ghost predicate NamedSince(trace: seq<Sys>, steps: seq<Step>, e: nat, k: nat, p: u16) {
    && FoundIdle(trace, steps, e, p) && e < k && InRound(trace, e, k) && k <= |steps|
    && forall j | e < j < k :: steps[j] != GcTake(p)
  }

  lemma {:induction false} SnapshotWasExamined(trace: seq<Sys>, steps: seq<Step>, k: nat, p: u16) returns (e: nat)
    requires Run(trace, steps) && k < |trace| && p in Snapshot(trace[k].gc)
    ensures NamedSince(trace, steps, e, k, p)
  {
    hide Inv, Undecided, ClockRight, TaskNext, GcNext, Idle;
    assert k > 0;
    RunRight(trace, steps, k - 1);
    EntersSnapshot(trace[k - 1], steps[k - 1], trace[k], p);
    if p in Snapshot(trace[k - 1].gc) {
      e := SnapshotWasExamined(trace, steps, k - 1, p);
      StillNamed(trace, steps, e, k, p);
    } else {
      e := k - 1;
      FoundIdleIs(trace, steps, e, p);
    }
  }

  lemma StillNamed(trace: seq<Sys>, steps: seq<Step>, e: nat, k: nat, p: u16)
    requires Run(trace, steps) && 0 < k < |trace| && NamedSince(trace, steps, e, k - 1, p) && p in Snapshot(trace[k].gc)
    ensures NamedSince(trace, steps, e, k, p)
  {
    hide Next, Idle;
    assert !trace[k].gc.GcIdle?;
    DecidedUntilTaken(trace, steps, e, k, p);
  }

  lemma {:induction false} SlotThroughout(trace: seq<Sys>, steps: seq<Step>, i: nat, j: nat, p: u16)
    requires Run(trace, steps) && i <= j < |trace| && p in trace[i].portMap
    requires forall k | i <= k < j :: steps[k] != GcTake(p)
    ensures p in trace[j].portMap && trace[j].portMap[p] == trace[i].portMap[p]
    decreases j
  {
    hide Next;
    if i < j {
      SlotThroughout(trace, steps, i, j - 1, p);
      SlotStays(trace[j - 1], steps[j - 1], trace[j], p);
    }
  }

  /** From step e on, no step before j has refreshed the timestamp within `timeout` of `at`. */
  predicate LeftAlone(trace: seq<Sys>, steps: seq<Step>, e: nat, j: nat, arc: nat, at: int, timeout: int)
    requires j < |trace| == |steps| + 1
  {
    forall k | e <= k < j && Touches(trace[k], steps[k], arc) :: at - trace[k].now > timeout
  }

  lemma {:induction false} StaleUnlessTouched(trace: seq<Sys>, steps: seq<Step>, e: nat, j: nat, arc: nat, at: int)
    requires Run(trace, steps) && e <= j < |trace| == |steps| + 1
    requires arc in trace[e].active && at - trace[e].active[arc] > trace[e].timeout
    ensures arc in trace[j].active
    ensures at - trace[j].active[arc] > trace[e].timeout <==> LeftAlone(trace, steps, e, j, arc, at, trace[e].timeout)
    decreases j
  {
    hide Next, Touches;
    if e < j {
      StaleUnlessTouched(trace, steps, e, j - 1, arc, at);
      Timestamp(trace[j - 1], steps[j - 1], trace[j], arc);
      forall k | e <= k < j ensures trace[k].now <= trace[j - 1].now {
        TimeGoesOn(trace, steps, k, j - 1);
      }
    }
  }

  /**
   What a snapshot costs. Every session the collector takes was found idle by its filter earlier in the
   same round. When it is taken it is no longer idle, as of the round's own clock reading, exactly when
   it has been refreshed since; and as of the time of the removal exactly when that was less than a
   timeout ago.
   */
  lemma RemovedThoughActiveIff(trace: seq<Sys>, steps: seq<Step>, j: nat, p: u16) returns (e: nat)
    requires Run(trace, steps) && j < |steps| && steps[j] == GcTake(p)
    ensures FoundIdle(trace, steps, e, p) && e < j && InRound(trace, e, j)
    ensures p in trace[j].portMap && trace[j].portMap[p] == trace[e].portMap[p]
    ensures !Idle(trace[j], p, trace[e].gc.start) <==>
              exists k | e < k < j :: Touches(trace[k], steps[k], trace[e].portMap[p].arc)
    ensures !Idle(trace[j], p, trace[j].now) <==>
              exists k | e < k < j :: Touches(trace[k], steps[k], trace[e].portMap[p].arc)
                                      && trace[j].now - trace[k].now <= trace[j].timeout
  {
    hide Next, Touches, Inv, Undecided;
    TakesFromSnapshot(trace, steps, j, p);
    e := SnapshotWasExamined(trace, steps, j, p);
    SlotThroughout(trace, steps, e, j, p);
    var (arc, start) := (trace[e].portMap[p].arc, trace[e].gc.start);
    RunRight(trace, steps, e);
    TimeGoesOn(trace, steps, e, j);
    StaleUnlessTouched(trace, steps, e, j, arc, start);
    StaleUnlessTouched(trace, steps, e, j, arc, trace[j].now);
    assert !Touches(trace[e], steps[e], arc) by {
      NotTouched(trace[e], p, arc);
    }
    forall k | e <= k < j ensures start <= trace[k].now {
      TimeGoesOn(trace, steps, e, k);
    }
    TouchedSince(trace, steps, e, j, arc, start);
    TouchedSince(trace, steps, e, j, arc, trace[j].now);
  }

  lemma NotTouched(s: Sys, p: u16, arc: nat)
    ensures !Touches(s, GcExamine(p), arc)
  {}

  lemma TouchedSince(trace: seq<Sys>, steps: seq<Step>, e: nat, j: nat, arc: nat, at: int)
    requires e < j < |trace| == |steps| + 1 && !Touches(trace[e], steps[e], arc)
    ensures !LeftAlone(trace, steps, e, j, arc, at, trace[e].timeout) <==>
              exists k | e < k < j :: Touches(trace[k], steps[k], arc) && at - trace[k].now <= trace[e].timeout
  {
    hide Touches;
  }

  // ---- A run in which it happens ----

  ghost predicate Reachable(s: Sys) {
    exists trace, steps :: Run(trace, steps) && trace[|trace| - 1] == s
  }

  /** A step before any removal: the collector has at most its snapshot. */
  predicate Quiet(s: Sys, step: Step) {
    !step.GcTake? && (step.GcStep? ==> s.gc.GcClock? || s.gc.GcScan? || s.gc.GcWant?)
  }

  ghost predicate QuietlyReachable(s: Sys) {
    exists trace, steps :: Run(trace, steps) && trace[|trace| - 1] == s
                           && forall i | 0 <= i < |steps| :: Quiet(trace[i], steps[i])
  }

  lemma QuietStart(s: Sys)
    requires Init(s)
    ensures QuietlyReachable(s)
  {
    var trace, steps: seq<Step> := [s], [];
    assert Run(trace, steps);
  }

  lemma OneLonger(trace: seq<Sys>, steps: seq<Step>, step: Step, s': Sys)
    requires Run(trace, steps) && Next(trace[|trace| - 1], step, s')
    ensures Run(trace + [s'], steps + [step])
  {
    hide Next, Init;
    var (longer, more) := (trace + [s'], steps + [step]);
    forall i | 0 <= i < |more| ensures Next(longer[i], more[i], longer[i + 1]) {
      if i < |steps| {
        assert Next(trace[i], steps[i], trace[i + 1]);
      }
    }
  }

  lemma QuietStep(s: Sys, step: Step, s': Sys)
    requires QuietlyReachable(s) && Next(s, step, s') && Quiet(s, step)
    ensures QuietlyReachable(s')
  {
    hide Next, Init, Quiet;
    var trace, steps :| Run(trace, steps) && trace[|trace| - 1] == s
                        && forall i | 0 <= i < |steps| :: Quiet(trace[i], steps[i]);
    OneLonger(trace, steps, step, s');
    var (longer, more) := (trace + [s'], steps + [step]);
    assert forall i | 0 <= i < |more| :: Quiet(longer[i], more[i]);
  }

  lemma QuietIsReachable(s: Sys)
    requires QuietlyReachable(s)
    ensures Reachable(s)
  {
    hide Run;
  }

  lemma ReachStep(s: Sys, step: Step, s': Sys)
    requires Reachable(s) && Next(s, step, s')
    ensures Reachable(s')
  {
    hide Next, Init;
    var trace, steps :| Run(trace, steps) && trace[|trace| - 1] == s;
    OneLonger(trace, steps, step, s');
  }

  lemma TaskReach(s: Sys, t: Tid, arc: nat, s': Sys)
    requires QuietlyReachable(s) && t in s.tasks && TaskNext(s, t, arc, s')
    ensures QuietlyReachable(s')
  {
    hide QuietlyReachable, TaskNext;
    QuietStep(s, TaskStep(t, arc), s');
  }

  function Empty(timeout: int): Sys {
    Sys(map[], map[], NAT_PORT_START, RwLock({}, None), RwLock({}, None), map[], GcIdle, map[], 0, timeout)
  }

  const P := NAT_PORT_START

  /** One session, at port 10000, nobody about. */
  function One(flow: Flow, timeout: int, tasks: map<Tid, Pc>, gc: GcPc, since: int, now: int): Sys {
    Sys(map[flow := P], map[P := Slot(flow, 0)], P + 1, RwLock({}, None), RwLock({}, None), tasks, gc,
        map[0 := since], now, timeout)
  }

  lemma FirstPort()
    ensures !Exhausted({}) && FirstFree(NAT_PORT_START, {}, P)
  {
    assert InRange(P) && P !in {};
    assert P == Cyclic(NAT_PORT_START, 0);
  }

  /** A first lookup up to the double check. */
  lemma LooksUp(flow: Flow, timeout: int) returns (s: Sys)
    requires timeout >= 0
    ensures QuietlyReachable(s)
    ensures s == Empty(timeout).(tasks := map[0 := AddrWrite(flow)], addrLock := RwLock({}, Some(Task(0))))
  {
    hide QuietlyReachable;
    var a := Empty(timeout);
    QuietStart(a);
    var b := Go(a, 0, Lookup(flow));
    QuietStep(a, Spawn(0, Lookup(flow)), b);
    var c := Go(b, 0, AddrRead(flow)).(addrLock := Acquired(b.addrLock, Task(0)));
    TaskReach(b, 0, 0, c);
    var d := Go(c, 0, Missed(flow)).(addrLock := Released(c.addrLock, Task(0)));
    TaskReach(c, 0, 0, d);
    assert d.addrLock.readers == {};
    s := Go(d, 0, AddrWrite(flow)).(addrLock := Locked(d.addrLock, Task(0)));
    TaskReach(d, 0, 0, s);
    assert s.tasks == map[0 := AddrWrite(flow)];
  }

  lemma Inserts(flow: Flow, timeout: int) returns (s: Sys)
    requires timeout >= 0
    ensures QuietlyReachable(s) && s == One(flow, timeout, map[0 := Done(Some(flow), Some(P))], GcIdle, 0, 0)
  {
    hide QuietlyReachable, FirstFree, Exhausted;
    var d := LooksUp(flow, timeout);
    var e := Go(d, 0, Absent(flow));
    TaskReach(d, 0, 0, e);
    var f := Go(e, 0, BothWrite(flow)).(portLock := Locked(e.portLock, Task(0)));
    TaskReach(e, 0, 0, f);
    FirstPort();
    assert f.portMap.Keys == {};
    var g := Go(f, 0, PortInserted(flow, P)).(
      portMap := f.portMap[P := Slot(flow, 0)], active := f.active[0 := f.now], cursor := P + 1);
    TaskReach(f, 0, 0, g);
    s := Go(g, 0, Done(Some(flow), Some(P))).(
      addrMap := g.addrMap[flow := P],
      addrLock := Released(g.addrLock, Task(0)), portLock := Released(g.portLock, Task(0)));
    TaskReach(g, 0, 0, s);
    assert s.tasks == map[0 := Done(Some(flow), Some(P))];
  }

  /** A session left alone for longer than the timeout gets into the snapshot. */
  lemma GetsNamed(flow: Flow, timeout: int) returns (s: Sys)
    requires timeout >= 0
    ensures QuietlyReachable(s)
    ensures s == One(flow, timeout, map[0 := Done(Some(flow), Some(P))], GcWant(map[P := flow]), 0, timeout + 2000)
  {
    hide QuietlyReachable;
    var a := Inserts(flow, timeout);
    var now := timeout + 2000;
    var b := a.(now := now);
    QuietStep(a, Tick(now), b);
    var c := b.(gc := GcClock(now));
    QuietStep(b, GcStart, c);
    var d := c.(gc := GcScan(now, {P}, map[]), portLock := Acquired(c.portLock, Collector));
    assert c.portMap.Keys == {P};
    QuietStep(c, GcStep, d);
    var e := d.(gc := GcScan(now, {}, map[P := flow]));
    assert {P} - {P} == {} && map[][P := flow] == map[P := flow];
    QuietStep(d, GcExamine(P), e);
    assert e.gc.todo == {} && e.gc.expired != map[] by {
      assert P in e.gc.expired;
    }
    s := e.(gc := GcWant(map[P := flow]), portLock := Released(e.portLock, Collector));
    QuietStep(e, GcStep, s);
    assert s.portLock.readers == {};
  }

  /** Meanwhile a packet of it comes back: `lookup_back` refreshes it. */
  lemma GetsRefreshed(flow: Flow, timeout: int) returns (s: Sys)
    requires timeout >= 0
    ensures QuietlyReachable(s) && s.gc == GcWant(map[P := flow]) && Free(s.addrLock) && Free(s.portLock)
    ensures s == One(flow, timeout, s.tasks, s.gc, timeout + 2000, timeout + 2000)
  {
    hide QuietlyReachable;
    var a := GetsNamed(flow, timeout);
    var b := Go(a, 1, Back(P));
    QuietStep(a, Spawn(1, Back(P)), b);
    var c := Go(b, 1, BackRead(P)).(portLock := Acquired(b.portLock, Task(1)));
    TaskReach(b, 1, 0, c);
    var d := Go(c, 1, BackFound(flow, 0)).(portLock := Released(c.portLock, Task(1)));
    TaskReach(c, 1, 0, d);
    s := Go(d, 1, Done(Some(flow), None)).(active := Touched(d.active, 0, d.now));
    TaskReach(d, 1, 0, s);
    assert s.portLock.readers == {} && s.active == map[0 := timeout + 2000];
  }

  /**
   Refreshing a session after the collector's snapshot does not save it: a run from the start in which
   the collector takes a session at the very moment it was last active, and both maps lose it.
   */
  lemma RefreshedAndRemoved(flow: Flow, timeout: int) returns (before: Sys, after: Sys, end: Sys)
    requires timeout >= 0
    ensures Reachable(before) && Next(before, GcTake(P), after) && Reachable(end)
    ensures Live(before, P, flow) && before.active == map[before.portMap[P].arc := before.now]
    ensures end.portMap == map[] && end.addrMap == map[]
  {
    hide Reachable;
    var a := GetsRefreshed(flow, timeout);
    QuietIsReachable(a);
    var expired := map[P := flow];
    var b := a.(gc := GcAddrWrite(expired), addrLock := Locked(a.addrLock, Collector));
    ReachStep(a, GcStep, b);
    before := b.(gc := GcRemove(expired), portLock := Locked(b.portLock, Collector));
    ReachStep(b, GcStep, before);
    after := before.(gc := GcHalf(expired - {P}, P, flow), portMap := before.portMap - {P});
    ReachStep(before, GcTake(P), after);
    end := after.(gc := GcRemove(expired - {P}), addrMap := after.addrMap - {flow});
    ReachStep(after, GcStep, end);
    assert end.portMap == map[] && end.addrMap == map[];
  }
}
