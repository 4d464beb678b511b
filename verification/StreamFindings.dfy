/**
 Where one stream falls short: EOF reported with data in the buffer, and a close wakeup that is lost.
 Both have a run that shows them and the exact condition under which they happen.
 */
module StreamFindings {
  import opened Bytes
  import opened Stream
  import opened StreamProgress

  // ---- When EOF is reported ----

  /** The poll is at a flag test that will report EOF. */
  predicate ReportsEof(s: Sys) {
    (s.poll.ReadFlagSocket? && s.flags.socketClosed) || (s.poll.ReadFlagClosed? && s.flags.readClosed)
  }

  predicate AtFlags(p: Poll) {
    p.ReadFlagSocket? || p.ReadFlagClosed?
  }

  /** The poll at its flag tests at i found the buffer empty at r. */
  predicate RetestedEmpty(trace: seq<Sys>, steps: seq<Step>, r: nat, i: nat) {
    && r < i < |trace| == |steps| + 1
    && trace[r].poll.ReadRetest? && trace[r].inbound.buf == [] && steps[r].App? && steps[r].step.Continue?
    && forall k | r < k <= i :: AtFlags(trace[k].poll)
  }

  /** The stack stores received bytes. */
  predicate Stores(s: Sys, step: Step) {
    step.OfStack? && s.stack.Receiving? && CanRecv(s.socket) && !Full(s.inbound.buf, s.capacity)
  }

  /** Between the retest and the report only the stack touches the buffer. */
  lemma StepAtFlags(s: Sys, step: Step, s': Sys)
    requires Next(s, step, s') && AtFlags(s.poll) && AtFlags(s'.poll)
    ensures if Stores(s, step) then |s'.inbound.buf| > |s.inbound.buf| else s'.inbound.buf == s.inbound.buf
  {
    hide Wake, Register, Polled, CanSend, MayRecv, MaySend, SocketMovesOn, Full, Hand, Accept;
  }

  lemma StepIntoFlags(s: Sys, step: Step, s': Sys)
    requires Next(s, step, s') && AtFlags(s'.poll) && !AtFlags(s.poll)
    ensures s.poll.ReadRetest? && s.inbound.buf == [] && s'.inbound == s.inbound && step.App? && step.step.Continue?
  {
    hide Wake, Register, Polled, CanSend, MayRecv, MaySend, SocketMovesOn, Hand, Accept;
  }

  /** Every poll at its flag tests has retested the buffer. */
  lemma {:induction false} RetestBefore(trace: seq<Sys>, steps: seq<Step>, i: nat) returns (r: nat)
    requires Run(trace, steps) && i < |trace| && AtFlags(trace[i].poll)
    ensures RetestedEmpty(trace, steps, r, i) && trace[r + 1].inbound == trace[r].inbound
  {
    hide Next;
    assert i > 0;
    if AtFlags(trace[i - 1].poll) {
      r := RetestBefore(trace, steps, i - 1);
    } else {
      StepIntoFlags(trace[i - 1], steps[i - 1], trace[i]);
      r := i - 1;
    }
  }

  /** At the flag tests the buffer holds what was stored since the retest. */
  lemma {:induction false} StoredSinceRetest(trace: seq<Sys>, steps: seq<Step>, r: nat, i: nat)
    requires Run(trace, steps) && RetestedEmpty(trace, steps, r, i) && trace[r + 1].inbound == trace[r].inbound
    ensures trace[i].inbound.buf == [] <==> forall k | r < k < i :: !Stores(trace[k], steps[k])
    decreases i
  {
    hide Next, Stores;
    if i > r + 1 {
      StoredSinceRetest(trace, steps, r, i - 1);
      StepAtFlags(trace[i - 1], steps[i - 1], trace[i]);
    }
  }

  /** A flag that is set at the flag tests stays set, and then nothing is stored. */
  lemma {:induction false} FlagsStay(trace: seq<Sys>, steps: seq<Step>, k: nat, i: nat)
    requires Run(trace, steps) && k <= i < |trace|
    ensures trace[k].flags.socketClosed ==> trace[i].flags.socketClosed
    ensures trace[k].flags.readClosed ==> trace[i].flags.readClosed
    decreases i
  {
    hide AppNext, StackNext;
    if k < i {
      FlagsStay(trace, steps, k, i - 1);
      FlagStays(trace[i - 1], steps[i - 1], trace[i]);
    }
  }

  lemma FlagStays(s: Sys, step: Step, s': Sys)
    requires Next(s, step, s')
    ensures s.flags.socketClosed ==> s'.flags.socketClosed
    ensures s.flags.readClosed ==> s'.flags.readClosed
  {
    hide AppNext, StackNext;
    match step
    case App(a) => AppLeaves(s, a, s');
    case OfStack(n, k') => StackFlags(s, n, k', s');
  }

  lemma NothingStored(s: Sys, step: Step)
    requires FlagsRight(s) && AtFlags(s.poll) && (s.flags.socketClosed || s.flags.readClosed)
    ensures !Stores(s, step)
  {}

  /**
   EOF comes after all the data exactly when the stack stored nothing between the poll's retest and its
   flag tests. That needs no more than a close flag that was set at the retest: an early EOF has found
   both flags clear there, and bytes and then a flag were stored since.
   */
  lemma EofAfterDataIff(trace: seq<Sys>, steps: seq<Step>, i: nat) returns (r: nat)
    requires Run(trace, steps) && i < |trace| && ReportsEof(trace[i])
    ensures RetestedEmpty(trace, steps, r, i)
    ensures trace[i].inbound.delivered == trace[i].inbound.arrived <==>
              forall k | r < k < i :: !Stores(trace[k], steps[k])
    ensures trace[r].flags.socketClosed || trace[r].flags.readClosed ==>
              trace[i].inbound.delivered == trace[i].inbound.arrived
    ensures trace[i].inbound.delivered != trace[i].inbound.arrived ==>
              exists k | r < k < i ::
                Stores(trace[k], steps[k]) && !trace[k].flags.socketClosed && !trace[k].flags.readClosed
  {
    hide Next, Stores, FlagsRight, DrainRight, ReaderRight, WriterRight, CloseRight;
    r := RetestBefore(trace, steps, i);
    StoredSinceRetest(trace, steps, r, i);
    forall k | r < k < i ensures Stores(trace[k], steps[k]) ==>
                                   !trace[r].flags.socketClosed && !trace[r].flags.readClosed
                                   && !trace[k].flags.socketClosed && !trace[k].flags.readClosed
    {
      RunFlags(trace, steps, k);
      FlagsStay(trace, steps, r, k);
      if trace[k].flags.socketClosed || trace[k].flags.readClosed {
        NothingStored(trace[k], steps[k]);
      }
    }
    RunKeeps(trace, steps, i);
    var b := trace[i].inbound;
    if b.buf == [] {
      assert b.delivered + [] == b.delivered;
    }
  }

  // ---- A sleep for good ----

  lemma ClosingWakes(s: Sys, step: Step, s': Sys)
    requires CloseRight(s) && CloseRight(s') && Next(s, step, s') && Waiting(s.writer) && Waiting(s'.writer)
    requires s.flags.writeClosed ==> WillWakeClosedWriter(s.stack)
    ensures s'.flags.writeClosed ==> WillWakeClosedWriter(s'.stack) && s'.writer.registered
  {
    hide CanRecv, CanSend, MayRecv, SocketMovesOn, Full, Hand, Accept, Receive, Deliver;
  }

  /** A writer that slept before write_closed was set is about to be woken when it is set. */
  lemma {:induction false} ClosedWriterIsWoken(trace: seq<Sys>, steps: seq<Step>, i: nat, j: nat)
    requires Run(trace, steps) && i <= j < |trace| && !trace[i].flags.writeClosed
    requires forall k | i <= k <= j :: Waiting(trace[k].writer)
    ensures trace[j].flags.writeClosed ==> WillWakeClosedWriter(trace[j].stack) && trace[j].writer.registered
    decreases j
  {
    hide Next, BytesRight, DrainRight, ReaderRight, WriterRight, CloseRight;
    if i < j {
      ClosedWriterIsWoken(trace, steps, i, j - 1);
      RunKeeps(trace, steps, j - 1);
      RunKeeps(trace, steps, j);
      ClosingWakes(trace[j - 1], steps[j - 1], trace[j]);
    }
  }

  /** A call of the application's that a sleeping writer task makes only once something else wakes it. */
  predicate WriteCall(step: Step) {
    step.App? && (step.step.StartWrite? || step.step.StartShutdown? || step.step.StartDrop?)
  }

  /** The retest of a write that finds the buffer full and has not been notified. */
  predicate FallsAsleep(s: Sys, step: Step) {
    s.poll.WriteRetest? && step.App? && step.step.Continue? && Full(s.outbound.buf, s.capacity) && !s.writer.notified
  }

  /** Whoever still sleeps when the socket is removed is woken with it. */
  lemma RemovalWakes(s: Sys, n: nat, k': Socket, s': Sys)
    requires CloseRight(s) && StackNext(s, n, k', s') && s'.stack.Removed?
    ensures !Waiting(s'.writer)
  {
    hide StackNext;
    LastWake(s, n, k', s');
  }

  /** The socket is removed by the step that wakes the writer. */
  lemma LastWake(s: Sys, n: nat, k': Socket, s': Sys)
    requires StackNext(s, n, k', s') && s'.stack.Removed?
    ensures s.stack.WakeRemovedWrite? && s'.writer == Wake(s.writer)
  {
    hide Wake, CanRecv, CanSend, MayRecv, MaySend, SocketMovesOn, Full, Receive, Hand;
  }

  lemma OnlyTheStackRemoves(s: Sys, step: Step, s': Sys)
    requires Next(s, step, s')
    ensures s'.stack.Removed? && !s.stack.Removed? ==> step.OfStack?
    ensures s.stack.Removed? ==> s'.stack.Removed? && step.App?
  {
    hide Wake, Register, Polled, CanRecv, CanSend, MayRecv, MaySend, SocketMovesOn, Full, Hand, Accept, Receive,
         Deliver;
  }

  /** After the removal a writer falls asleep only at a retest, and wakes only for a call of its own. */
  lemma AfterRemoval(s: Sys, step: AppStep, s': Sys)
    requires CloseRight(s) && AppNext(s, step, s') && s.stack.Removed?
    ensures Waiting(s'.writer) <==> FallsAsleep(s, App(step)) || (Waiting(s.writer) && !WriteCall(App(step)))
  {
    hide Accept, Deliver, Full;
  }

  /** From step k to state j the writer sleeps, on a socket that was gone before. */
  predicate SleptSince(trace: seq<Sys>, steps: seq<Step>, k: nat, j: nat) {
    && k < j < |trace| == |steps| + 1 && trace[k].stack.Removed? && FallsAsleep(trace[k], steps[k])
    && forall m | k < m < j :: !WriteCall(steps[m])
  }

  lemma {:induction false} StaysRemoved(trace: seq<Sys>, steps: seq<Step>, k: nat, j: nat)
    requires Run(trace, steps) && k <= j < |trace| && trace[k].stack.Removed?
    ensures trace[j].stack.Removed?
    decreases j
  {
    hide Next;
    if k < j {
      StaysRemoved(trace, steps, k, j - 1);
      OnlyTheStackRemoves(trace[j - 1], steps[j - 1], trace[j]);
    }
  }

  lemma {:induction false} SleepsRemovedIff(trace: seq<Sys>, steps: seq<Step>, j: nat)
    requires Run(trace, steps) && j < |trace| && trace[j].stack.Removed?
    ensures Waiting(trace[j].writer) <==> exists k: nat :: SleptSince(trace, steps, k, j)
    decreases j
  {
    hide AppNext, StackNext, BytesRight, DrainRight, ReaderRight, WriterRight, CloseRight, FallsAsleep, WriteCall;
    assert j > 0;
    var (s, step, s') := (trace[j - 1], steps[j - 1], trace[j]);
    RunKeeps(trace, steps, j - 1);
    OnlyTheStackRemoves(s, step, s');
    if s.stack.Removed? {
      SleepsRemovedIff(trace, steps, j - 1);
      AfterRemoval(s, step.step, s');
      SleptOneMore(trace, steps, j - 1, j);
    } else {
      RemovalWakes(s, step.n, step.socket, s');
      if k: nat :| SleptSince(trace, steps, k, j) {
        StaysRemoved(trace, steps, k, j - 1);
      }
    }
  }

  lemma SleptOneMore(trace: seq<Sys>, steps: seq<Step>, i: nat, j: nat)
    requires j == i + 1 < |trace| == |steps| + 1 && trace[i].stack.Removed?
    ensures (exists k: nat :: SleptSince(trace, steps, k, j)) <==>
              FallsAsleep(trace[i], steps[i])
              || ((exists k: nat :: SleptSince(trace, steps, k, i)) && !WriteCall(steps[i]))
  {
    hide FallsAsleep, WriteCall;
    if FallsAsleep(trace[i], steps[i]) {
      assert SleptSince(trace, steps, i, j);
    }
    if k: nat :| SleptSince(trace, steps, k, j) {
      assert k < i ==> SleptSince(trace, steps, k, i) && !WriteCall(steps[i]);
    }
    if k: nat :| SleptSince(trace, steps, k, i) {
      assert !WriteCall(steps[i]) ==> SleptSince(trace, steps, k, j);
    }
  }

  /** Any way to go on from a state. */
  ghost predicate GoesOn(s: Sys, trace: seq<Sys>, steps: seq<Step>) {
    && |trace| == |steps| + 1 && trace[0] == s
    && forall i | 0 <= i < |steps| :: Next(trace[i], steps[i], trace[i + 1])
  }

  /** The writer sleeps, and however the run goes on, nothing but a call of the application's own ends it. */
  ghost predicate SleepsForGood(s: Sys) {
    forall trace: seq<Sys>, steps: seq<Step> |
      GoesOn(s, trace, steps) && (forall i | 0 <= i < |steps| :: !WriteCall(steps[i])) ::
      Waiting(trace[|trace| - 1].writer)
  }

  lemma {:induction false} RemovedSleepLasts(s: Sys, trace: seq<Sys>, steps: seq<Step>, i: nat)
    requires Inv(s) && s.stack.Removed? && Waiting(s.writer) && GoesOn(s, trace, steps) && i < |trace|
    requires forall k | 0 <= k < |steps| :: !WriteCall(steps[k])
    ensures Inv(trace[i]) && trace[i].stack.Removed? && Waiting(trace[i].writer)
  {
    hide AppNext, StackNext, BytesRight, DrainRight, ReaderRight, WriterRight, CloseRight, WriteCall, FallsAsleep;
    if i > 0 {
      RemovedSleepLasts(s, trace, steps, i - 1);
      OnlyTheStackRemoves(trace[i - 1], steps[i - 1], trace[i]);
      AfterRemoval(trace[i - 1], steps[i - 1].step, trace[i]);
      StepKeeps(trace[i - 1], steps[i - 1], trace[i]);
    }
  }

  function Rounds(s: Sys): nat {
    if s.stack.Between? then 1 else if s.socket.active then 2 else 0
  }

  lemma ComesNearer(s: Sys)
    requires !s.stack.Removed?
    ensures var s' := OneOn(s);
            || Rounds(s') < Rounds(s)
            || (Rounds(s') == Rounds(s) && Rank(s'.stack) > Rank(s.stack))
            || (Rounds(s') == Rounds(s) && Rank(s'.stack) == Rank(s.stack) && Left(s') < Left(s))
  {
    StackCanStep(s);
    if InPass(s.stack) {
      StackAdvances(s, 1, s.socket.(active := false), OneOn(s));
    }
    hide StackNext, Wake, MayRecv, MaySend, Full, CanRecv, CanSend;
  }

  /** Until the removal a run may always go on to wake the writer. */
  lemma {:induction false} MayBeWoken(s: Sys) returns (trace: seq<Sys>, steps: seq<Step>)
    requires Inv(s) && !s.stack.Removed?
    ensures GoesOn(s, trace, steps) && (forall i | 0 <= i < |steps| :: !WriteCall(steps[i]))
    ensures !Waiting(trace[|trace| - 1].writer)
    decreases Rounds(s), 18 - Rank(s.stack), Left(s)
  {
    hide StackNext, OneOn, BytesRight, DrainRight, ReaderRight, WriterRight, CloseRight, Rounds, Left;
    var s' := OneOn(s);
    var step := OfStack(1, s.socket.(active := false));
    StackCanStep(s);
    ComesNearer(s);
    StepKeeps(s, step, s');
    if s'.stack.Removed? {
      RemovalWakes(s, 1, step.socket, s');
      trace, steps := [s, s'], [step];
    } else {
      var rest, more := MayBeWoken(s');
      trace, steps := [s] + rest, [step] + more;
      forall i | 0 <= i < |steps| ensures Next(trace[i], steps[i], trace[i + 1]) && !WriteCall(steps[i]) {
        if i > 0 {
          assert Next(rest[i - 1], more[i - 1], rest[i]) && !WriteCall(more[i - 1]);
        }
      }
    }
  }

  lemma {:induction false} SleepsForGoodHere(s: Sys)
    requires Inv(s)
    ensures SleepsForGood(s) <==> Waiting(s.writer) && s.stack.Removed?
  {
    hide Inv, Next;
    if SleepsForGood(s) {
      assert GoesOn(s, [s], []);
      if !s.stack.Removed? {
        var trace, steps := MayBeWoken(s);
        assert false;
      }
    } else if Waiting(s.writer) && s.stack.Removed? {
      var trace: seq<Sys>, steps: seq<Step> :|
        GoesOn(s, trace, steps) && (forall i | 0 <= i < |steps| :: !WriteCall(steps[i]))
        && !Waiting(trace[|trace| - 1].writer);
      RemovedSleepLasts(s, trace, steps, |trace| - 1);
      assert false;
    }
  }

  /**
   In any run, the writer sleeps for good exactly when its retest, unnotified, found the buffer full on a
   socket that had already been removed, and the application has made no call on its write half since.
   */
  lemma SleepsForGoodIff(trace: seq<Sys>, steps: seq<Step>, j: nat)
    requires Run(trace, steps) && j < |trace|
    ensures SleepsForGood(trace[j]) <==> exists k: nat :: SleptSince(trace, steps, k, j)
  {
    hide Next, Inv, SleepsForGood;
    RunKeeps(trace, steps, j);
    SleepsForGoodHere(trace[j]);
    if trace[j].stack.Removed? {
      SleepsRemovedIff(trace, steps, j);
    } else if k: nat :| SleptSince(trace, steps, k, j) {
      StaysRemoved(trace, steps, k, j);
    }
  }

  // ---- Two runs that do go wrong ----

  ghost predicate Reachable(s: Sys) {
    exists trace, steps :: Run(trace, steps) && trace[|trace| - 1] == s
  }

  lemma ReachStart(s: Sys)
    requires Init(s)
    ensures Reachable(s)
  {
    var trace, steps: seq<Step> := [s], [];
    assert Run(trace, steps);
  }

  lemma ReachStep(s: Sys, step: Step, s': Sys)
    requires Reachable(s) && Next(s, step, s')
    ensures Reachable(s')
  {
    hide Next, Init;
    var trace, steps :| Run(trace, steps) && trace[|trace| - 1] == s;
    var (longer, more) := (trace + [s'], steps + [step]);
    forall i | 0 <= i < |more| ensures Next(longer[i], more[i], longer[i + 1]) {
      if i < |steps| {
        assert Next(trace[i], steps[i], trace[i + 1]);
      }
    }
    assert Run(longer, more);
  }

  lemma ReachInv(s: Sys)
    requires Reachable(s)
    ensures Inv(s)
  {
    hide Inv, Next;
    var trace, steps :| Run(trace, steps) && trace[|trace| - 1] == s;
    RunKeeps(trace, steps, |trace| - 1);
  }

  function Fresh(k: Socket): Sys {
    Sys(Inbound([], [], []), Outbound([], [], []), 2, Waiter(false, false, false), Waiter(false, false, false),
        Flags(false, false, false, false, false), NoPoll, Between, k, false)
  }

  lemma ContinueReach(s: Sys, s': Sys)
    requires Reachable(s) && AppContinue(s, 1, s')
    ensures Reachable(s')
  {
    hide Reachable, AppContinue;
    ReachStep(s, App(Continue(1)), s');
  }

  lemma StackReach(s: Sys, k': Socket, s': Sys)
    requires Reachable(s) && StackNext(s, 1, k', s')
    ensures Reachable(s')
  {
    hide Reachable, StackNext;
    ReachStep(s, OfStack(1, k'), s');
  }

  /** A read up to the flag tests, with nothing there. */
  lemma ReadUpToFlags() returns (s: Sys)
    ensures Reachable(s) && s.poll == ReadFlagSocket && s.reader == Waiter(true, false, false)
    ensures s == Fresh(Socket([], 0, true, false, false, true)).(poll := s.poll, reader := s.reader)
  {
    hide Reachable;
    var a := Fresh(Socket([], 0, true, false, false, true));
    ReachStart(a);
    var b := a.(poll := ReadTest, reader := Polled(a.reader));
    ReachStep(a, App(StartRead), b);
    var c := b.(poll := ReadRegister);
    ContinueReach(b, c);
    var d := c.(poll := ReadRetest, reader := Register(c.reader));
    ContinueReach(c, d);
    s := d.(poll := ReadFlagSocket);
    ContinueReach(d, s);
  }

  /**
   EOF with data in the buffer: between the retest and the flag tests the stack stores the last bytes
   and sets the close flag.
   */
  lemma EofBeforeData() returns (s: Sys)
    ensures Reachable(s) && ReportsEof(s) && s.inbound.buf == [7] && s.inbound.delivered == []
  {
    hide Reachable;
    var a := ReadUpToFlags();
    var k := Socket([7], 0, true, true, false, true);
    var b := a.(socket := k, stack := Receiving(false));
    StackReach(a, k, b);
    var c := b.(stack := Receiving(true), inbound := Receive(b.inbound, [7]), socket := k.(rx := []));
    assert b.socket.rx[..1] == [7] && b.socket.rx[1..] == [];
    StackReach(b, k, c);
    var d := c.(stack := WakeRead);
    StackReach(c, k, d);
    var e := d.(stack := Sending(false), reader := Wake(d.reader));
    StackReach(d, k, e);
    var f := e.(stack := CheckRead);
    StackReach(e, k, f);
    var g := f.(stack := WakeReadClosed, flags := f.flags.(readClosed := true));
    StackReach(f, k, g);
    s := g.(poll := ReadFlagClosed);
    ContinueReach(g, s);
    assert s.inbound.buf == [] + [7];
  }

  /** A write that fills the buffer. */
  lemma WriteFills() returns (s: Sys)
    ensures Reachable(s)
    ensures s == Fresh(Socket([], 0, true, false, false, true)).(outbound := Outbound([7], [7], []))
  {
    hide Reachable;
    var a := Fresh(Socket([], 0, true, false, false, true));
    ReachStart(a);
    var b := a.(poll := WriteFlagClosed([7]), writer := Polled(a.writer));
    ReachStep(a, App(StartWrite([7])), b);
    var c := b.(poll := WriteFlagShutdown([7]));
    ContinueReach(b, c);
    var d := c.(poll := WriteTest([7]));
    ContinueReach(c, d);
    var e := d.(poll := WritePut([7], 1));
    ContinueReach(d, e);
    s := e.(poll := NoPoll, outbound := Outbound([7], [7], []));
    assert [7][..1] == [7] && [] + [7] == [7];
    ContinueReach(e, s);
  }

  /** The next write passes the flag tests while the socket dies. */
  lemma WritePassesFlags() returns (s: Sys)
    ensures Reachable(s) && s.poll == WriteTest([8]) && s.stack == CheckWrite
    ensures s.writer == Waiter(false, false, false) && s.outbound.buf == [7] && s.capacity == 2
    ensures s.socket == Socket([], 0, true, false, true, false) && s.flags == Flags(false, false, false, false, false)
  {
    hide Reachable;
    var a := WriteFills();
    var k := Socket([], 0, true, false, true, false);
    var b := a.(socket := k, stack := Receiving(false));
    StackReach(a, k, b);
    var c := b.(stack := Sending(false));
    StackReach(b, k, c);
    var d := c.(stack := CheckRead);
    StackReach(c, k, d);
    var e := d.(stack := CheckShutdown);
    StackReach(d, k, e);
    var f := e.(stack := CheckWrite);
    StackReach(e, k, f);
    var g := f.(poll := WriteFlagClosed([8]), writer := Polled(f.writer));
    ReachStep(f, App(StartWrite([8])), g);
    var h := g.(poll := WriteFlagShutdown([8]));
    ContinueReach(g, h);
    s := h.(poll := WriteTest([8]));
    ContinueReach(h, s);
  }

  /** The rest of the first loop: write_closed, and a wake that finds nobody. */
  lemma StackCloses(a: Sys) returns (s: Sys)
    requires Reachable(a) && a.stack == CheckWrite && a.writer == Waiter(false, false, false)
    requires a.socket == Socket([], 0, true, false, true, false) && !a.flags.writeClosed && !a.flags.socketDropped
    ensures Reachable(s) && s == a.(stack := SetSocketClosed, flags := a.flags.(writeClosed := true))
  {
    hide Reachable;
    var k := a.socket;
    var b := a.(stack := WakeWriteClosed, flags := a.flags.(writeClosed := true));
    StackReach(a, k, b);
    var c := b.(stack := CheckDropped);
    StackReach(b, k, c);
    var d := c.(stack := CheckActive);
    StackReach(c, k, d);
    s := d.(stack := SetSocketClosed);
    StackReach(d, k, s);
  }

  /** The removal: both flags, both wakes, and the socket is gone. */
  lemma StackRemoves(a: Sys) returns (s: Sys)
    requires Reachable(a) && a.stack == SetSocketClosed && a.writer == Waiter(false, false, false)
    ensures Reachable(s) && s.stack == Removed && s.flags.writeClosed && s.writer == a.writer
    ensures s.poll == a.poll && s.outbound == a.outbound && s.capacity == a.capacity
  {
    hide Reachable;
    var k := a.socket;
    var f := a.(stack := SetWriteClosed, flags := a.flags.(socketClosed := true));
    StackReach(a, k, f);
    var g := f.(stack := WakeRemovedRead, flags := f.flags.(writeClosed := true));
    StackReach(f, k, g);
    var h := g.(stack := WakeRemovedWrite, reader := Wake(g.reader));
    StackReach(g, k, h);
    s := h.(stack := Removed, writer := Wake(h.writer));
    StackReach(h, k, s);
  }

  /**
   The wakeup for `write_closed` can be lost: a writer that tested the flags before they were set goes
   to sleep after the last wake, on a full buffer of a socket that is gone.
   */
  lemma WriteCloseIsMissed() returns (s: Sys)
    ensures Reachable(s) && SleepsForGood(s)
  {
    hide Reachable;
    var a := WritePassesFlags();
    var closing := StackCloses(a);
    var b := StackRemoves(closing);
    var c := b.(poll := WriteRegister([8]));
    ContinueReach(b, c);
    var d := c.(poll := WriteRetest([8]), writer := Register(c.writer));
    ContinueReach(c, d);
    s := d.(poll := NoPoll, writer := d.writer.(asleep := true));
    ContinueReach(d, s);
    hide SleepsForGood, AppContinue;
    ReachInv(s);
    SleepsForGoodHere(s);
  }
}
