/**
 `TcpNat::clear` beside the other tasks. It empties the two maps under one lock after the other, and may
 come between a collector's snapshot and its removal; either may leave the maps at odds for good.
 */
module NatClear {
  import opened Bytes
  import opened NatTable
  import opened NatSystem
  import opened NatCollector

  /** `clearing`: addr_map has been emptied, port_map not yet. */
  datatype State = State(base: Sys, clearing: bool)

  /** The collector's removal is one step here: it holds both write locks throughout. */
  datatype ClearStep = Other(step: Step) | RemoveAll | ClearAddr | ClearPort

  function Expired(s: Sys): map<u16, Flow> {
    Snapshot(s.gc)
  }

  /** The removal loop from both write locks to their release. */
  function Removed(s: Sys): Sys {
    s.(gc := GcIdle, addrLock := Released(s.addrLock, Collector),
       addrMap := s.addrMap - Expired(s).Values, portMap := s.portMap - Expired(s).Keys)
  }

  /** The base system's own steps from one state to another. */
  ghost predicate Leads(s: Sys, trace: seq<Sys>, steps: seq<Step>, end: Sys) {
    && |trace| == |steps| + 1 && trace[0] == s && trace[|trace| - 1] == end
    && forall i | 0 <= i < |steps| :: Next(trace[i], steps[i], trace[i + 1])
  }

  lemma LeadsFrom(s: Sys, step: Step, mid: Sys, trace: seq<Sys>, steps: seq<Step>, end: Sys)
    requires Next(s, step, mid) && Leads(mid, trace, steps, end)
    ensures Leads(s, [s] + trace, [step] + steps, end)
  {
    hide Next;
    forall i | 0 <= i < |steps| + 1 ensures Next(([s] + trace)[i], ([step] + steps)[i], ([s] + trace)[i + 1]) {
      if i > 0 {
        assert Next(trace[i - 1], steps[i - 1], trace[i]);
      }
    }
  }

  /** Both locks held, `rest` still to go: what the loop comes to. */
  function AfterLoop(s: Sys, rest: map<u16, Flow>): Sys {
    s.(gc := GcIdle, addrLock := Released(s.addrLock, Collector), portLock := Released(s.portLock, Collector),
       addrMap := s.addrMap - rest.Values, portMap := s.portMap - rest.Keys)
  }

  lemma {:induction false} LoopEnds(s: Sys, rest: map<u16, Flow>) returns (trace: seq<Sys>, steps: seq<Step>)
    requires s.gc == GcRemove(rest)
    ensures Leads(s, trace, steps, AfterLoop(s, rest))
    decreases |rest|
  {
    hide Next, Leads;
    if rest == map[] {
      LoopStops(s);
      trace, steps := [s, AfterLoop(s, map[])], [GcStep];
    } else {
      var p :| p in rest;
      var a, b := OneRemoved(s, rest, p);
      var less := rest - {p};
      assert |less| < |rest| by {
        assert less.Keys == rest.Keys - {p} && |less| == |less.Keys| && |rest| == |rest.Keys|;
      }
      trace, steps := LoopEnds(b, less);
      SameEnd(s, rest, p, b);
      LeadsFrom(a, GcStep, b, trace, steps, AfterLoop(s, rest));
      trace, steps := [a] + trace, [GcStep] + steps;
      LeadsFrom(s, GcTake(p), a, trace, steps, AfterLoop(s, rest));
      trace, steps := [s] + trace, [GcTake(p)] + steps;
    }
  }

  lemma LoopStops(s: Sys)
    requires s.gc == GcRemove(map[])
    ensures Leads(s, [s, AfterLoop(s, map[])], [GcStep], AfterLoop(s, map[]))
  {
    var none: map<u16, Flow> := map[];
    assert s.addrMap - none.Values == s.addrMap && s.portMap - none.Keys == s.portMap;
  }

  lemma OneRemoved(s: Sys, rest: map<u16, Flow>, p: u16) returns (a: Sys, b: Sys)
    requires s.gc == GcRemove(rest) && p in rest
    ensures Next(s, GcTake(p), a) && Next(a, GcStep, b)
    ensures b == s.(gc := GcRemove(rest - {p}), addrMap := s.addrMap - {rest[p]}, portMap := s.portMap - {p})
  {
    a := s.(gc := GcHalf(rest - {p}, p, rest[p]), portMap := s.portMap - {p});
    b := a.(gc := GcRemove(rest - {p}), addrMap := a.addrMap - {rest[p]});
  }

  lemma SameEnd(s: Sys, rest: map<u16, Flow>, p: u16, b: Sys)
    requires p in rest
    requires b == s.(gc := GcRemove(rest - {p}), addrMap := s.addrMap - {rest[p]}, portMap := s.portMap - {p})
    ensures AfterLoop(b, rest - {p}) == AfterLoop(s, rest)
  {
    var less := rest - {p};
    forall flow ensures flow in rest.Values <==> flow == rest[p] || flow in less.Values {
      if flow in rest.Values && flow != rest[p] {
        var q :| q in rest && rest[q] == flow;
        assert q in less && less[q] == flow;
      } else if flow in less.Values {
        var q :| q in less && less[q] == flow;
        assert q in rest && rest[q] == flow;
      }
    }
    assert b.addrMap - less.Values == s.addrMap - rest.Values;
    assert b.portMap - less.Keys == s.portMap - rest.Keys;
  }

  /** `RemoveAll` is what the collector's steps come to once it has both locks. */
  lemma RemovedIsLoop(s: Sys) returns (trace: seq<Sys>, steps: seq<Step>)
    requires s.gc.GcAddrWrite? && Free(s.portLock)
    ensures Leads(s, trace, steps, Removed(s))
  {
    hide Leads;
    var locked := s.(gc := GcRemove(s.gc.expired), portLock := Locked(s.portLock, Collector));
    assert Next(s, GcStep, locked);
    trace, steps := LoopEnds(locked, s.gc.expired);
    assert AfterLoop(locked, s.gc.expired) == Removed(s) by {
      assert Released(locked.portLock, Collector) == s.portLock;
    }
    LeadsFrom(s, GcStep, locked, trace, steps, Removed(s));
    trace, steps := [s] + trace, [GcStep] + steps;
  }

  ghost predicate ClearNext(c: State, step: ClearStep, c': State) {
    match step
    case Other(step) =>
      && !step.GcTake? && (step.GcStep? ==> c.base.gc.GcClock? || c.base.gc.GcScan? || c.base.gc.GcWant?)
      && Next(c.base, step, c'.base) && c'.clearing == c.clearing
    case RemoveAll =>
      c.base.gc.GcAddrWrite? && Free(c.base.portLock) && c' == c.(base := Removed(c.base))
    case ClearAddr =>
      !c.clearing && Free(c.base.addrLock) && c' == State(c.base.(addrMap := map[]), true)
    case ClearPort =>
      c.clearing && Free(c.base.portLock) && c' == State(c.base.(portMap := map[]), false)
  }

  ghost predicate ClearRun(trace: seq<State>, steps: seq<ClearStep>) {
    && |trace| == |steps| + 1 && Init(trace[0].base) && !trace[0].clearing
    && forall i | 0 <= i < |steps| :: ClearNext(trace[i], steps[i], trace[i + 1])
  }

  /**
   A step that keeps the maps each other's inverse. The second half of a clear finds addr_map still empty;
   a removal names the port of a session exactly when it names its flow.
   */
  predicate Good(c: State, step: ClearStep) {
    match step
    case Other(_) => true
    case RemoveAll => c.clearing || Matches(c.base)
    case ClearAddr => true
    case ClearPort => c.base.addrMap == map[]
  }

  predicate Matches(s: Sys) {
    forall p | p in s.portMap :: p in Expired(s).Keys <==> s.portMap[p].flow in Expired(s).Values
  }

  // ---- One step ----

  /** Steps of the collector that change no map. */
  lemma CollectorLocks(s: Sys, step: Step, s': Sys)
    requires LocksRight(s) && Next(s, step, s') && !step.TaskStep? && !step.GcTake?
    requires step.GcStep? ==> s.gc.GcClock? || s.gc.GcScan? || s.gc.GcWant?
    ensures LocksRight(s') && s'.addrMap == s.addrMap && s'.portMap == s.portMap
  {
    hide Idle, TaskNext;
  }

  lemma CollectorTasks(s: Sys, step: Step, s': Sys)
    requires LocksRight(s) && TasksRight(s) && Next(s, step, s') && !step.TaskStep? && !step.GcTake?
    requires step.GcStep? ==> s.gc.GcClock? || s.gc.GcScan? || s.gc.GcWant?
    ensures TasksRight(s')
  {
    hide Idle, TaskNext, LocksRight;
  }

  lemma CollectorMaps(s: Sys, step: Step, s': Sys)
    requires LocksRight(s) && MapsRight(s) && Next(s, step, s') && !step.TaskStep? && !step.GcTake?
    requires step.GcStep? ==> s.gc.GcClock? || s.gc.GcScan? || s.gc.GcWant?
    ensures MapsRight(s')
  {
    hide Idle, TaskNext;
  }

  lemma TaskLocks(s: Sys, t: Tid, arc: nat, s': Sys)
    requires LocksRight(s) && TasksRight(s) && t in s.tasks && TaskNext(s, t, arc, s')
    ensures LocksRight(s') && TasksRight(s') && (MapsRight(s) ==> MapsRight(s'))
  {
    hide LocksRight, MapsRight, TasksRight, TaskNext;
    var pc := s.tasks[t];
    if pc.Lookup? || pc.AddrRead? || pc.FoundPort? || pc.BothRead? {
      ReaderKeepsLocks(s, t, arc, s');
      ReaderKeepsTasks(s, t, arc, s');
      if MapsRight(s) { ReaderKeepsMaps(s, t, arc, s'); }
    } else if pc.Back? || pc.BackRead? || pc.BackFound? || pc.Done? {
      BackKeepsLocks(s, t, arc, s');
      BackKeepsTasks(s, t, arc, s');
      if MapsRight(s) { BackKeepsMaps(s, t, arc, s'); }
    } else if pc.Missed? || pc.AddrWrite? || pc.Absent? {
      WriterKeepsLocks(s, t, arc, s');
      WriterKeepsTasks(s, t, arc, s');
      if MapsRight(s) { WriterKeepsMaps(s, t, arc, s'); }
    } else {
      InsertKeepsLocks(s, t, arc, s');
      InsertKeepsTasks(s, t, arc, s');
      if MapsRight(s) { InsertKeepsMaps(s, t, arc, s'); }
    }
  }

  lemma RemovedLocks(s: Sys)
    requires LocksRight(s) && TasksRight(s) && s.gc.GcAddrWrite? && Free(s.portLock)
    ensures LocksRight(Removed(s)) && TasksRight(Removed(s))
  {}

  /** Of inverse maps a removal leaves inverse maps exactly when it takes whole pairs. */
  lemma RemovedMapsIff(s: Sys)
    requires LocksRight(s) && TasksRight(s) && MapsRight(s) && s.gc.GcAddrWrite? && Free(s.portLock)
    ensures MapsRight(Removed(s)) <==> Matches(s)
  {
    hide LocksRight, TasksRight;
    var s' := Removed(s);
    if MapsRight(s') {
      forall p | p in s.portMap ensures p in Expired(s).Keys <==> s.portMap[p].flow in Expired(s).Values {
        var flow := s.portMap[p].flow;
        assert flow in s.addrMap && s.addrMap[flow] == p;
        if p !in Expired(s).Keys {
          assert p in s'.portMap;
        } else {
          assert flow in s'.addrMap ==> false;
        }
      }
    }
  }

  lemma ClearedAddr(s: Sys)
    requires LocksRight(s) && TasksRight(s) && Free(s.addrLock)
    ensures var s' := s.(addrMap := map[]); LocksRight(s') && TasksRight(s')
  {}

  lemma ClearedPort(s: Sys)
    requires LocksRight(s) && TasksRight(s) && Free(s.portLock) && !s.gc.GcHalf?
    ensures var s' := s.(portMap := map[]);
            LocksRight(s') && TasksRight(s') && (MapsRight(s') <==> s.addrMap == map[])
  {
    var s' := s.(portMap := map[]);
    if s.addrMap != map[] {
      var flow :| flow in s.addrMap;
      assert s'.addrMap[flow] !in s'.portMap;
    }
  }

  /** Locks and tasks are right whatever happens, and so is where the collector stands. */
  ghost predicate Steady(c: State) {
    LocksRight(c.base) && TasksRight(c.base) && !c.base.gc.GcRemove? && !c.base.gc.GcHalf?
  }

  lemma StepSteady(c: State, step: ClearStep, c': State)
    requires Steady(c) && ClearNext(c, step, c')
    ensures Steady(c')
  {
    hide LocksRight, TasksRight, TaskNext, Idle;
    match step
    case Other(base) =>
      if base.TaskStep? {
        TaskLocks(c.base, base.t, base.arc, c'.base);
        TaskLeaves(c.base, base.t, base.arc, c'.base);
      } else {
        CollectorLocks(c.base, base, c'.base);
        CollectorTasks(c.base, base, c'.base);
      }
    case RemoveAll => RemovedLocks(c.base);
    case ClearAddr => ClearedAddr(c.base);
    case ClearPort => ClearedPort(c.base);
  }

  /** Outside a clear, a step keeps right maps right exactly when it is good. */
  lemma StepRightIff(c: State, step: ClearStep, c': State)
    requires Steady(c) && ClearNext(c, step, c') && !c'.clearing && (c.clearing || MapsRight(c.base))
    ensures MapsRight(c'.base) <==> Good(c, step)
  {
    hide LocksRight, TasksRight, MapsRight, TaskNext, Matches;
    match step
    case Other(base) =>
      if base.TaskStep? {
        TaskLocks(c.base, base.t, base.arc, c'.base);
      } else {
        CollectorMaps(c.base, base, c'.base);
      }
    case RemoveAll => RemovedMapsIff(c.base);
    case ClearAddr =>
    case ClearPort => ClearedPort(c.base);
  }

  // ---- Whole runs ----

  lemma {:induction false} RunSteady(trace: seq<State>, steps: seq<ClearStep>, i: nat)
    requires ClearRun(trace, steps) && i < |trace|
    ensures Steady(trace[i])
  {
    if i > 0 {
      hide ClearNext, Steady;
      RunSteady(trace, steps, i - 1);
      StepSteady(trace[i - 1], steps[i - 1], trace[i]);
    }
  }

  lemma StartRightMaps(s: Sys)
    requires Init(s)
    ensures MapsRight(s)
  {}

  lemma {:induction false} GoodSoFar(trace: seq<State>, steps: seq<ClearStep>, i: nat)
    requires ClearRun(trace, steps) && i < |trace| && forall k | 0 <= k < i :: Good(trace[k], steps[k])
    ensures !trace[i].clearing ==> MapsRight(trace[i].base)
  {
    hide ClearNext, Steady, Good, MapsRight, Init;
    if i == 0 {
      StartRightMaps(trace[0].base);
    } else {
      GoodSoFar(trace, steps, i - 1);
      RunSteady(trace, steps, i - 1);
      if !trace[i].clearing {
        StepRightIff(trace[i - 1], steps[i - 1], trace[i]);
      }
    }
  }

  /**
   With clears: the maps are each other's inverse at every moment outside a clear, but for the pair a lock
   holder is inserting, exactly when every clear's second half found addr_map still empty and every
   removal named whole sessions.
   */
  lemma RightIffAllGood(trace: seq<State>, steps: seq<ClearStep>)
    requires ClearRun(trace, steps)
    ensures (forall i | 0 <= i < |trace| && !trace[i].clearing :: MapsRight(trace[i].base))
            <==> forall k | 0 <= k < |steps| :: Good(trace[k], steps[k])
  {
    hide ClearNext, Steady, Good, MapsRight, Init;
    if forall k | 0 <= k < |steps| :: Good(trace[k], steps[k]) {
      forall i | 0 <= i < |trace| && !trace[i].clearing ensures MapsRight(trace[i].base) {
        GoodSoFar(trace, steps, i);
      }
    }
    if forall i | 0 <= i < |trace| && !trace[i].clearing :: MapsRight(trace[i].base) {
      forall k | 0 <= k < |steps| ensures Good(trace[k], steps[k]) {
        RunSteady(trace, steps, k);
        if trace[k + 1].clearing {
          StaysClearing(trace[k], steps[k], trace[k + 1]);
        } else {
          StepRightIff(trace[k], steps[k], trace[k + 1]);
        }
      }
    }
  }

  lemma StaysClearing(c: State, step: ClearStep, c': State)
    requires ClearNext(c, step, c') && c'.clearing
    ensures Good(c, step)
  {
    hide Matches, Next;
  }

  /** And then nobody who holds no lock, or only a read lock, sees them at odds. */
  lemma RightIsInverse(s: Sys)
    requires MapsRight(s) && !s.gc.GcHalf? && s.portLock.writer == None
    ensures Inverse(Contents(s))
  {}

  // ---- Whose fault it is ----

  /** No clear takes a step in states a to k. */
  predicate NoClear(steps: seq<ClearStep>, a: nat, k: nat) {
    a <= k <= |steps| && forall j | a <= j < k :: !steps[j].ClearAddr? && !steps[j].ClearPort?
  }

  lemma RoundStarts(c: State, step: ClearStep, c': State)
    requires Steady(c) && MapsRight(c.base) && !c.clearing && step == Other(GcStart) && ClearNext(c, step, c')
    ensures Inv(c'.base) && !c'.clearing && c'.base.gc.GcClock?
  {
    CollectorMaps(c.base, GcStart, c'.base);
    StepSteady(c, step, c');
    hide LocksRight, MapsRight, TasksRight;
  }

  lemma RoundGoesOn(c: State, step: ClearStep, c': State)
    requires Inv(c.base) && !c.clearing && ClearNext(c, step, c') && step.Other?
    ensures Inv(c'.base) && !c'.clearing
  {
    hide Inv, Next;
    NatSystem.StepKeeps(c.base, step.step, c'.base);
  }

  lemma {:induction false} RoundKeeps(trace: seq<State>, steps: seq<ClearStep>, a: nat, k: nat)
    requires ClearRun(trace, steps) && a < k < |trace| && steps[a] == Other(GcStart) && !trace[a].clearing
    requires MapsRight(trace[a].base) && NoClear(steps, a, k) && forall j | a < j <= k :: !trace[j].base.gc.GcIdle?
    ensures Inv(trace[k].base) && !trace[k].clearing
    decreases k
  {
    hide Inv, Next, Init, MapsRight, LocksRight, TasksRight;
    RunSteady(trace, steps, k - 1);
    if k == a + 1 {
      RoundStarts(trace[a], steps[a], trace[k]);
    } else {
      RoundKeeps(trace, steps, a, k - 1);
      EndsRound(trace[k - 1], steps[k - 1], trace[k]);
      RoundGoesOn(trace[k - 1], steps[k - 1], trace[k]);
    }
  }

  lemma EndsRound(c: State, step: ClearStep, c': State)
    requires ClearNext(c, step, c')
    ensures step.RemoveAll? ==> c'.base.gc.GcIdle?
  {
    hide Next;
  }

  lemma LiveMatches(s: Sys)
    requires Inv(s) && s.gc.GcAddrWrite? && Free(s.portLock)
    ensures Matches(s)
  {
    hide LocksRight, TasksRight;
    forall p | p in s.portMap ensures p in Expired(s).Keys <==> s.portMap[p].flow in Expired(s).Values {
      if s.portMap[p].flow in Expired(s).Values {
        var q :| q in Expired(s) && Expired(s)[q] == s.portMap[p].flow;
        assert Live(s, q, Expired(s)[q]);
      }
    }
  }

  /**
   A removal is at odds with the table only through a clear in its own round: a clear that was under way
   when the round began, or a step of one since.
   */
  lemma BadRemovalNeedsClear(trace: seq<State>, steps: seq<ClearStep>, a: nat, k: nat)
    requires ClearRun(trace, steps) && a < k < |steps| && steps[a] == Other(GcStart) && steps[k] == RemoveAll
    requires MapsRight(trace[a].base) && forall j | a < j <= k :: !trace[j].base.gc.GcIdle?
    requires !Good(trace[k], steps[k])
    ensures trace[a].clearing || !NoClear(steps, a, k)
  {
    hide Inv, Next, Init, MapsRight, LocksRight, TasksRight, Matches;
    if !trace[a].clearing && NoClear(steps, a, k) {
      RoundKeeps(trace, steps, a, k);
      assert ClearNext(trace[k], steps[k], trace[k + 1]);
      LiveMatches(trace[k].base);
      assert false;
    }
  }

  // ---- A run that goes wrong ----

  ghost predicate ClearReachable(c: State) {
    exists trace, steps :: ClearRun(trace, steps) && trace[|trace| - 1] == c
  }

  /** A run up to a snapshot is a run here too. */
  lemma Lift(s: Sys)
    requires QuietlyReachable(s)
    ensures ClearReachable(State(s, false))
  {
    hide Next, Init;
    var trace, steps :| Run(trace, steps) && trace[|trace| - 1] == s
                        && forall i | 0 <= i < |steps| :: Quiet(trace[i], steps[i]);
    var states := seq(|trace|, i requires 0 <= i < |trace| => State(trace[i], false));
    var moves := seq(|steps|, i requires 0 <= i < |steps| => Other(steps[i]));
    forall i | 0 <= i < |moves| ensures ClearNext(states[i], moves[i], states[i + 1]) {
      assert Next(trace[i], steps[i], trace[i + 1]) && Quiet(trace[i], steps[i]);
    }
    assert ClearRun(states, moves);
  }

  lemma MoveReach(c: State, step: ClearStep, c': State)
    requires ClearReachable(c) && ClearNext(c, step, c')
    ensures ClearReachable(c')
  {
    hide ClearNext, Init;
    var trace, steps :| ClearRun(trace, steps) && trace[|trace| - 1] == c;
    var (longer, more) := (trace + [c'], steps + [step]);
    forall i | 0 <= i < |more| ensures ClearNext(longer[i], more[i], longer[i + 1]) {
      if i < |steps| {
        assert ClearNext(trace[i], steps[i], trace[i + 1]);
      }
    }
    assert ClearRun(longer, more);
  }

  lemma LookupReach(s: Sys, s': Sys)
    requires ClearReachable(State(s, false)) && 1 in s.tasks && TaskNext(s, 1, 1, s')
    ensures ClearReachable(State(s', false))
  {
    hide ClearReachable, TaskNext;
    MoveReach(State(s, false), Other(TaskStep(1, 1)), State(s', false));
  }

  /** The table is cleared while the collector waits with a snapshot that names its only session. */
  lemma GetsCleared(flow: Flow, timeout: int) returns (s: Sys)
    requires timeout >= 0
    ensures ClearReachable(State(s, false)) && s.tasks == map[0 := Done(Some(flow), Some(P))]
    ensures s == Empty(timeout).(cursor := P + 1, tasks := s.tasks, gc := GcWant(map[P := flow]), active := map[0 := 0],
                                 now := timeout + 2000)
  {
    hide ClearReachable, QuietlyReachable;
    var a := GetsNamed(flow, timeout);
    Lift(a);
    var b := a.(addrMap := map[]);
    MoveReach(State(a, false), ClearAddr, State(b, true));
    s := b.(portMap := map[]);
    MoveReach(State(b, true), ClearPort, State(s, false));
  }

  /** The connection's next packet looks it up again. */
  lemma LooksUpAgain(flow: Flow, timeout: int) returns (s: Sys)
    requires timeout >= 0
    ensures ClearReachable(State(s, false)) && 1 in s.tasks && s.tasks[1] == BothWrite(flow)
    ensures s.addrMap == map[] && s.portMap == map[] && s.cursor == P + 1 && 1 !in s.active
    ensures s.addrLock == RwLock({}, Some(Task(1))) == s.portLock && s.gc == GcWant(map[P := flow])
  {
    hide ClearReachable;
    var a := GetsCleared(flow, timeout);
    var b := Go(a, 1, Lookup(flow));
    MoveReach(State(a, false), Other(Spawn(1, Lookup(flow))), State(b, false));
    var c := Go(b, 1, AddrRead(flow)).(addrLock := Acquired(b.addrLock, Task(1)));
    LookupReach(b, c);
    var d := Go(c, 1, Missed(flow)).(addrLock := Released(c.addrLock, Task(1)));
    LookupReach(c, d);
    assert d.addrLock.readers == {};
    var e := Go(d, 1, AddrWrite(flow)).(addrLock := Locked(d.addrLock, Task(1)));
    LookupReach(d, e);
    var f := Go(e, 1, Absent(flow));
    LookupReach(e, f);
    s := Go(f, 1, BothWrite(flow)).(portLock := Locked(f.portLock, Task(1)));
    LookupReach(f, s);
  }

  lemma SecondPort()
    ensures !Exhausted({}) && FirstFree(P + 1, {}, P + 1)
  {
    assert InRange(P) && P !in {};
    assert P + 1 == Cyclic(P + 1, 0);
  }

  /** It gets the next port. */
  lemma GetsNextPort(flow: Flow, timeout: int) returns (s: Sys)
    requires timeout >= 0
    ensures ClearReachable(State(s, false)) && s.gc == GcWant(map[P := flow]) && Free(s.addrLock) && Free(s.portLock)
    ensures s.addrMap == map[flow := P + 1] && s.portMap == map[P + 1 := Slot(flow, 1)]
  {
    hide ClearReachable, FirstFree, Exhausted;
    var a := LooksUpAgain(flow, timeout);
    SecondPort();
    assert a.portMap.Keys == {};
    var b := Go(a, 1, PortInserted(flow, P + 1)).(
      portMap := a.portMap[P + 1 := Slot(flow, 1)], active := a.active[1 := a.now], cursor := P + 2);
    assert b.tasks.Keys == a.tasks.Keys;
    LookupReach(a, b);
    s := Go(b, 1, Done(Some(flow), Some(P + 1))).(
      addrMap := b.addrMap[flow := P + 1],
      addrLock := Released(b.addrLock, Task(1)), portLock := Released(b.portLock, Task(1)));
    LookupReach(b, s);
  }

  /**
   A run from the empty table: the collector takes its snapshot, the table is cleared, the connection comes
   back at another port, and the removal takes its new entry out of addr_map alone. No lock is held, and the
   maps are at odds.
   */
  lemma ClearedAndTorn(flow: Flow, timeout: int) returns (end: Sys)
    requires timeout >= 0
    ensures ClearReachable(State(end, false)) && Free(end.addrLock) && Free(end.portLock) && end.gc.GcIdle?
    ensures end.addrMap == map[] && end.portMap == map[P + 1 := Slot(flow, 1)] && !Inverse(Contents(end))
  {
    hide ClearReachable;
    var a := GetsNextPort(flow, timeout);
    var b := a.(gc := GcAddrWrite(map[P := flow]), addrLock := Locked(a.addrLock, Collector));
    MoveReach(State(a, false), Other(GcStep), State(b, false));
    end := Removed(b);
    MoveReach(State(b, false), RemoveAll, State(end, false));
    assert flow in map[P := flow].Values by {
      assert map[P := flow][P] == flow;
    }
    assert end.addrMap == map[];
    assert end.portMap == map[P + 1 := Slot(flow, 1)];
    assert P + 1 in Contents(end).portMap;
  }
}
