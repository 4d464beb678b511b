/**
 What one pass over the socket achieves, and what one poll of the application does: the other half of
 `Stream`, whose properties say only what never happens.
 */
module StreamProgress {
  import opened Bytes
  import opened Stream

  // ---- A pass ----

  /** The stations of a pass, in order. */
  function Rank(k: Stack): nat {
    match k
    case Receiving(_) => 0
    case WakeRead => 1
    case Sending(_) => 2
    case WakeWrite => 3
    case CheckRead => 4
    case WakeReadClosed => 5
    case CheckShutdown => 6
    case CheckDrained => 7
    case CheckWrite => 8
    case WakeWriteClosed => 9
    case CheckDropped => 10
    case Flushing => 11
    case CheckFlushed => 12
    case CheckActive => 13
    case SetSocketClosed => 14
    case SetWriteClosed => 15
    case WakeRemovedRead => 16
    case WakeRemovedWrite => 17
    case Between => 18
    case Removed => 18
  }

  /** The part of the socket's state that a pass leaves as `iface.poll` left it. */
  predicate SameState(k: Socket, k': Socket) {
    k'.pastHandshake == k.pastHandshake && k'.recvDone == k.recvDone && k'.active == k.active
  }

  predicate FlagsGrow(f: Flags, f': Flags) {
    && (f.socketDropped ==> f'.socketDropped) && (f.readClosed ==> f'.readClosed)
    && (f.writeClosed ==> f'.writeClosed) && (f.writeShutdown ==> f'.writeShutdown)
    && (f.socketClosed ==> f'.socketClosed)
  }

  /** Bytes were stored for the application since the pass began in a. */
  predicate Stored(a: Sys, s: Sys) {
    |s.inbound.arrived| > |a.inbound.arrived|
  }

  predicate HandedOn(a: Sys, s: Sys) {
    |s.outbound.handed| > |a.outbound.handed|
  }

  /** The receive side of a pass that began in a. */
  predicate ReceiveRight(a: Sys, s: Sys) {
    && s.capacity == a.capacity
    && s.inbound.arrived + s.socket.rx == a.inbound.arrived + a.socket.rx
    && |s.inbound.arrived| >= |a.inbound.arrived|
    && (!Stored(a, s) ==> |s.inbound.buf| <= |a.inbound.buf|)
    && (s.stack.Receiving? ==> (s.stack.notify <==> Stored(a, s)))
    && (Rank(s.stack) > 0 && a.socket.rx != [] && !Full(a.inbound.buf, a.capacity) ==> Stored(a, s))
    && (Rank(s.stack) > 4 && a.socket.pastHandshake && a.socket.recvDone && s.socket.rx == [] ==> s.flags.readClosed)
  }

  /** The send side. */
  predicate SendRight(a: Sys, s: Sys) {
    && |s.outbound.handed| >= |a.outbound.handed|
    && (Rank(s.stack) < 2 ==> !HandedOn(a, s))
    && (s.stack.Sending? ==> (s.stack.notify <==> HandedOn(a, s)))
    && (Rank(s.stack) < 3 && !HandedOn(a, s) ==>
          s.socket.room == a.socket.room && (a.outbound.buf != [] ==> s.outbound.buf != []))
    && (Rank(s.stack) > 2 && MaySend(a.socket) && a.socket.room > 0 && a.outbound.buf != [] ==> HandedOn(a, s))
  }

  /** The two ways the send half is closed. */
  predicate CloseDone(a: Sys, s: Sys) {
    && (a.socket.sendDone ==> s.socket.sendDone) && (a.closed ==> s.closed)
    && (Rank(s.stack) < 8 ==> s.socket.sendDone == a.socket.sendDone && s.closed == a.closed)
    && (s.closed && !a.closed ==> s.socket.sendDone)
    && (s.stack.CheckDrained? ==> s.flags.writeShutdown)
    && (s.stack.Flushing? || s.stack.CheckFlushed? ==> s.flags.socketDropped)
    && (a.flags.writeShutdown && Rank(s.stack) == 7 ==> s.stack.CheckDrained?)
    && (7 < Rank(s.stack) < 11 && a.flags.writeShutdown && MaySend(a.socket) ==> s.closed || s.outbound.buf != [])
    && (Rank(s.stack) > 12 && a.flags.writeShutdown && MaySend(a.socket) ==> s.closed || s.outbound.buf != [])
    && (Rank(s.stack) > 12 && a.flags.socketDropped ==> s.closed || s.outbound.buf != [])
    && (a.flags.writeShutdown || a.flags.socketDropped ==> s.outbound.accepted == a.outbound.accepted)
    && (Rank(s.stack) > 8 && a.socket.pastHandshake && a.socket.sendDone ==> s.flags.writeClosed)
  }

  /** The end. */
  predicate EndRight(a: Sys, s: Sys) {
    && (13 < Rank(s.stack) < 18 || s.stack.Removed? ==> !a.socket.active)
    && (s.stack.Between? ==> a.socket.active)
    && (s.stack.Removed? ==> s.flags.socketClosed && s.flags.writeClosed)
    && (14 < Rank(s.stack) < 18 ==> s.flags.socketClosed)
    && (15 < Rank(s.stack) < 18 ==> s.flags.writeClosed)
  }

  predicate PassRight(a: Sys, s: Sys) {
    && SameState(a.socket, s.socket) && FlagsGrow(a.flags, s.flags)
    && ReceiveRight(a, s) && SendRight(a, s) && CloseDone(a, s) && EndRight(a, s)
  }

  predicate InPass(k: Stack) {
    !k.Between? && !k.Removed?
  }

  lemma PassBegins(a: Sys)
    requires a.stack == Receiving(false)
    ensures PassRight(a, a)
  {}

  // Steps of the application.

  lemma AppReceiveKept(a: Sys, s: Sys, step: AppStep, s': Sys)
    requires ReceiveRight(a, s) && AppNext(s, step, s')
    ensures ReceiveRight(a, s')
  {
    hide Wake, Register, Polled, Full, Accept;
  }

  lemma AppSendKept(a: Sys, s: Sys, step: AppStep, s': Sys)
    requires SendRight(a, s) && AppNext(s, step, s')
    ensures SendRight(a, s')
  {
    hide Wake, Register, Polled, Full, Deliver, MaySend;
  }

  /** After a shutdown or a drop no write puts bytes in. */
  lemma AppAcceptsNone(s: Sys, step: AppStep, s': Sys)
    requires DrainRight(s) && AppNext(s, step, s') && (s.flags.writeShutdown || s.flags.socketDropped)
    ensures s'.outbound == s.outbound
  {
    hide Wake, Register, Polled, Full, Deliver, Accept, Space;
  }

  lemma AppLeaves(s: Sys, step: AppStep, s': Sys)
    requires AppNext(s, step, s')
    ensures s'.socket == s.socket && s'.stack == s.stack && s'.closed == s.closed && s'.capacity == s.capacity
    ensures FlagsGrow(s.flags, s'.flags)
    ensures s'.flags.socketClosed == s.flags.socketClosed
    ensures |s'.outbound.buf| >= |s.outbound.buf|
  {
    hide Wake, Register, Polled, Full, Deliver, Space;
  }

  lemma AppCloseKept(a: Sys, s: Sys, step: AppStep, s': Sys)
    requires CloseDone(a, s) && FlagsGrow(a.flags, s.flags) && DrainRight(s) && AppNext(s, step, s')
    ensures CloseDone(a, s')
  {
    hide AppNext, MaySend, DrainRight;
    AppLeaves(s, step, s');
    if s.flags.writeShutdown || s.flags.socketDropped {
      AppAcceptsNone(s, step, s');
    }
  }

  lemma AppPassKept(a: Sys, s: Sys, step: AppStep, s': Sys)
    requires PassRight(a, s) && DrainRight(s) && AppNext(s, step, s')
    ensures PassRight(a, s')
  {
    hide AppNext, ReceiveRight, SendRight, CloseDone, DrainRight;
    AppLeaves(s, step, s');
    AppReceiveKept(a, s, step, s');
    AppSendKept(a, s, step, s');
    AppCloseKept(a, s, step, s');
  }

  // Steps of the stack.

  lemma MovedOver(arrived: seq<byte>, rx: seq<byte>, n: nat)
    requires n <= |rx|
    ensures arrived + rx[..n] + rx[n..] == arrived + rx
  {}

  lemma ReceiveKeepsReceive(a: Sys, s: Sys, n: nat, s': Sys)
    requires ReceiveRight(a, s) && SameState(a.socket, s.socket) && ReceiveNext(s, n, s')
    ensures ReceiveRight(a, s')
  {
    hide Wake, CanSend, MaySend, Hand;
    if s.stack.Receiving? && n <= |s.socket.rx| {
      MovedOver(s.inbound.arrived, s.socket.rx, n);
    }
  }

  lemma ReceiveKeepsSend(a: Sys, s: Sys, n: nat, s': Sys)
    requires SendRight(a, s) && SameState(a.socket, s.socket) && ReceiveNext(s, n, s')
    requires Rank(s.stack) < 8 ==> s.socket.sendDone == a.socket.sendDone
    ensures SendRight(a, s')
  {
    hide Wake, CanRecv, MayRecv, Receive, Full;
  }

  lemma ReceiveKeepsClose(a: Sys, s: Sys, n: nat, s': Sys)
    requires CloseDone(a, s) && SameState(a.socket, s.socket) && FlagsGrow(a.flags, s.flags) && ReceiveNext(s, n, s')
    ensures CloseDone(a, s')
  {
    hide Wake, CanRecv, MayRecv, Receive, Full;
  }

  lemma ReceiveKeepsEnd(a: Sys, s: Sys, n: nat, s': Sys)
    requires EndRight(a, s) && SameState(a.socket, s.socket) && FlagsGrow(a.flags, s.flags) && ReceiveNext(s, n, s')
    ensures EndRight(a, s') && SameState(a.socket, s'.socket) && FlagsGrow(a.flags, s'.flags)
  {
    hide Wake, CanRecv, CanSend, MaySend, MayRecv, Receive, Hand, Full;
  }

  lemma ReceivePart(a: Sys, s: Sys, n: nat, s': Sys)
    requires PassRight(a, s) && ReceiveNext(s, n, s')
    ensures PassRight(a, s')
  {
    hide ReceiveNext, ReceiveRight, SendRight, EndRight;
    ReceiveKeepsReceive(a, s, n, s');
    ReceiveKeepsSend(a, s, n, s');
    ReceiveKeepsClose(a, s, n, s');
    ReceiveKeepsEnd(a, s, n, s');
  }

  lemma SendKeepsReceive(a: Sys, s: Sys, n: nat, s': Sys)
    requires ReceiveRight(a, s) && SameState(a.socket, s.socket) && SendNext(s, n, s')
    ensures ReceiveRight(a, s')
  {
    hide Wake, CanSend, MaySend, Hand, Full;
  }

  lemma SendKeepsSend(a: Sys, s: Sys, n: nat, s': Sys)
    requires SendRight(a, s) && SameState(a.socket, s.socket) && SendNext(s, n, s')
    requires Rank(s.stack) < 8 ==> s.socket.sendDone == a.socket.sendDone
    ensures SendRight(a, s')
  {
    hide Wake, CanRecv, MayRecv, Receive, Full;
  }

  lemma SendKeepsClose(a: Sys, s: Sys, n: nat, s': Sys)
    requires CloseDone(a, s) && SameState(a.socket, s.socket) && FlagsGrow(a.flags, s.flags) && SendNext(s, n, s')
    ensures CloseDone(a, s')
  {
    hide Wake, CanRecv, MayRecv, Receive, Full;
  }

  lemma SendKeepsEnd(a: Sys, s: Sys, n: nat, s': Sys)
    requires EndRight(a, s) && SameState(a.socket, s.socket) && FlagsGrow(a.flags, s.flags) && SendNext(s, n, s')
    ensures EndRight(a, s') && SameState(a.socket, s'.socket) && FlagsGrow(a.flags, s'.flags)
  {
    hide Wake, CanRecv, CanSend, MaySend, MayRecv, Receive, Hand, Full;
  }

  lemma SendPart(a: Sys, s: Sys, n: nat, s': Sys)
    requires PassRight(a, s) && SendNext(s, n, s')
    ensures PassRight(a, s')
  {
    hide SendNext, ReceiveRight, SendRight, EndRight;
    SendKeepsReceive(a, s, n, s');
    SendKeepsSend(a, s, n, s');
    SendKeepsClose(a, s, n, s');
    SendKeepsEnd(a, s, n, s');
  }

  lemma CheckKeepsReceive(a: Sys, s: Sys, s': Sys)
    requires ReceiveRight(a, s) && SameState(a.socket, s.socket) && CheckNext(s, s')
    ensures ReceiveRight(a, s')
  {
    hide Wake, CanSend, MaySend, Hand, Full;
  }

  lemma CheckKeepsSend(a: Sys, s: Sys, s': Sys)
    requires SendRight(a, s) && SameState(a.socket, s.socket) && CheckNext(s, s')
    requires Rank(s.stack) < 8 ==> s.socket.sendDone == a.socket.sendDone
    ensures SendRight(a, s')
  {
    hide Wake, CanRecv, MayRecv, Receive, Full;
  }

  lemma CheckKeepsClose(a: Sys, s: Sys, s': Sys)
    requires CloseDone(a, s) && SameState(a.socket, s.socket) && FlagsGrow(a.flags, s.flags) && CheckNext(s, s')
    ensures CloseDone(a, s')
  {
    hide Wake, CanRecv, MayRecv, Receive, Full;
  }

  lemma CheckKeepsEnd(a: Sys, s: Sys, s': Sys)
    requires EndRight(a, s) && SameState(a.socket, s.socket) && FlagsGrow(a.flags, s.flags) && CheckNext(s, s')
    ensures EndRight(a, s') && SameState(a.socket, s'.socket) && FlagsGrow(a.flags, s'.flags)
  {
    hide Wake, CanRecv, CanSend, MaySend, MayRecv, Receive, Hand, Full;
  }

  lemma CheckPart(a: Sys, s: Sys, s': Sys)
    requires PassRight(a, s) && CheckNext(s, s')
    ensures PassRight(a, s')
  {
    hide CheckNext, ReceiveRight, SendRight, EndRight;
    CheckKeepsReceive(a, s, s');
    CheckKeepsSend(a, s, s');
    CheckKeepsClose(a, s, s');
    CheckKeepsEnd(a, s, s');
  }

  lemma DropKeepsReceive(a: Sys, s: Sys, n: nat, s': Sys)
    requires ReceiveRight(a, s) && SameState(a.socket, s.socket) && DropNext(s, n, s')
    ensures ReceiveRight(a, s')
  {
    hide Wake, CanSend, MaySend, Hand, Full;
  }

  lemma DropKeepsSend(a: Sys, s: Sys, n: nat, s': Sys)
    requires SendRight(a, s) && SameState(a.socket, s.socket) && DropNext(s, n, s')
    requires Rank(s.stack) < 8 ==> s.socket.sendDone == a.socket.sendDone
    ensures SendRight(a, s')
  {
    hide Wake, CanRecv, MayRecv, Receive, Full;
  }

  lemma DropKeepsClose(a: Sys, s: Sys, n: nat, s': Sys)
    requires CloseDone(a, s) && SameState(a.socket, s.socket) && FlagsGrow(a.flags, s.flags) && DropNext(s, n, s')
    ensures CloseDone(a, s')
  {
    hide Wake, CanRecv, MayRecv, Receive, Full;
  }

  lemma DropKeepsEnd(a: Sys, s: Sys, n: nat, s': Sys)
    requires EndRight(a, s) && SameState(a.socket, s.socket) && FlagsGrow(a.flags, s.flags) && DropNext(s, n, s')
    ensures EndRight(a, s') && SameState(a.socket, s'.socket) && FlagsGrow(a.flags, s'.flags)
  {
    hide Wake, CanRecv, CanSend, MaySend, MayRecv, Receive, Hand, Full;
  }

  lemma DropPart(a: Sys, s: Sys, n: nat, s': Sys)
    requires PassRight(a, s) && DropNext(s, n, s')
    ensures PassRight(a, s')
  {
    hide DropNext, ReceiveRight, SendRight, EndRight;
    DropKeepsReceive(a, s, n, s');
    DropKeepsSend(a, s, n, s');
    DropKeepsClose(a, s, n, s');
    DropKeepsEnd(a, s, n, s');
  }

  lemma EndKeepsReceive(a: Sys, s: Sys, s': Sys)
    requires ReceiveRight(a, s) && SameState(a.socket, s.socket) && EndNext(s, s')
    ensures ReceiveRight(a, s')
  {
    hide Wake, CanSend, MaySend, Hand, Full;
  }

  lemma EndKeepsSend(a: Sys, s: Sys, s': Sys)
    requires SendRight(a, s) && SameState(a.socket, s.socket) && EndNext(s, s')
    requires Rank(s.stack) < 8 ==> s.socket.sendDone == a.socket.sendDone
    ensures SendRight(a, s')
  {
    hide Wake, CanRecv, MayRecv, Receive, Full;
  }

  lemma EndKeepsClose(a: Sys, s: Sys, s': Sys)
    requires CloseDone(a, s) && SameState(a.socket, s.socket) && FlagsGrow(a.flags, s.flags) && EndNext(s, s')
    ensures CloseDone(a, s')
  {
    hide Wake, CanRecv, MayRecv, Receive, Full;
  }

  lemma EndKeepsEnd(a: Sys, s: Sys, s': Sys)
    requires EndRight(a, s) && SameState(a.socket, s.socket) && FlagsGrow(a.flags, s.flags) && EndNext(s, s')
    ensures EndRight(a, s') && SameState(a.socket, s'.socket) && FlagsGrow(a.flags, s'.flags)
  {
    hide Wake, CanRecv, CanSend, MaySend, MayRecv, Receive, Hand, Full;
  }

  lemma EndPart(a: Sys, s: Sys, s': Sys)
    requires PassRight(a, s) && EndNext(s, s')
    ensures PassRight(a, s')
  {
    hide EndNext, ReceiveRight, SendRight, EndRight;
    EndKeepsReceive(a, s, s');
    EndKeepsSend(a, s, s');
    EndKeepsClose(a, s, s');
    EndKeepsEnd(a, s, s');
  }

  lemma StackPassKept(a: Sys, s: Sys, n: nat, k': Socket, s': Sys)
    requires PassRight(a, s) && StackNext(s, n, k', s') && InPass(s.stack)
    ensures PassRight(a, s')
  {
    hide PassRight, ReceiveNext, SendNext, CheckNext, DropNext, EndNext;
    if ReceiveNext(s, n, s') {
      ReceivePart(a, s, n, s');
    } else if SendNext(s, n, s') {
      SendPart(a, s, n, s');
    } else if CheckNext(s, s') {
      CheckPart(a, s, s');
    } else if DropNext(s, n, s') {
      DropPart(a, s, n, s');
    } else {
      EndPart(a, s, s');
    }
  }

  // ---- Over runs ----

  /** The pass that began with the stack's step from state i, up to state j. */
  predicate PassUpTo(trace: seq<Sys>, steps: seq<Step>, i: nat, j: nat) {
    && i < j < |trace| == |steps| + 1 && trace[i].stack.Between? && steps[i].OfStack?
    && forall k | i < k < j :: InPass(trace[k].stack)
  }

  lemma {:induction false} PassKeeps(trace: seq<Sys>, steps: seq<Step>, i: nat, j: nat)
    requires Run(trace, steps) && PassUpTo(trace, steps, i, j)
    ensures PassRight(trace[i + 1], trace[j])
    decreases j
  {
    hide PassRight, AppNext, StackNext, BytesRight, DrainRight, ReaderRight, WriterRight, CloseRight;
    if j == i + 1 {
      Begins(trace[i], steps[i], trace[j]);
      PassBegins(trace[j]);
    } else {
      PassKeeps(trace, steps, i, j - 1);
      RunKeeps(trace, steps, j - 1);
      match steps[j - 1]
      case App(step) => AppPassKept(trace[i + 1], trace[j - 1], step, trace[j]);
      case OfStack(n, k') => StackPassKept(trace[i + 1], trace[j - 1], n, k', trace[j]);
    }
  }

  lemma Begins(s: Sys, step: Step, s': Sys)
    requires Next(s, step, s') && s.stack.Between? && step.OfStack?
    ensures s'.stack == Receiving(false) && s'.inbound == s.inbound && s'.outbound == s.outbound
    ensures s'.flags == s.flags && s'.closed == s.closed && s'.capacity == s.capacity
  {
    hide SocketMovesOn;
  }

  /**
   What a pass does, `a` being the state behind `iface.poll` and `b` the end. Of the bytes that arrived, what is
   not yet stored is still in the socket, and with space something was stored. With room something was handed
   on. The peer's FIN behind the last byte is reported, and so is a closed send half. After a shutdown or a drop
   the send half is closed unless bytes are left, which a socket that can send has then made fewer; and
   exactly an inactive socket is removed, with both flags set.
   */
  lemma PassDoes(trace: seq<Sys>, steps: seq<Step>, i: nat, j: nat)
    requires Run(trace, steps) && PassUpTo(trace, steps, i, j) && !InPass(trace[j].stack)
    ensures var (a, b) := (trace[i + 1], trace[j]);
            && b.inbound.arrived + b.socket.rx == a.inbound.arrived + a.socket.rx
            && (a.socket.rx != [] && |a.inbound.buf| + 1 < a.capacity ==>
                  |b.inbound.arrived| > |a.inbound.arrived|)
            && (a.outbound.buf != [] && CanSend(a.socket) ==> |b.outbound.handed| > |a.outbound.handed|)
            && (a.socket.pastHandshake && a.socket.recvDone && b.socket.rx == [] ==> b.flags.readClosed)
            && (a.socket.pastHandshake && a.socket.sendDone ==> b.flags.writeClosed)
            && (b.stack.Removed? <==> !a.socket.active)
            && (b.stack.Removed? ==> b.flags.socketClosed && b.flags.writeClosed)
    ensures var (a, b) := (trace[i + 1], trace[j]);
            && (a.flags.socketDropped ==> b.closed || b.outbound.buf != [])
            && (a.flags.writeShutdown && MaySend(a.socket) ==>
                  && (b.closed || b.outbound.buf != [])
                  && (a.socket.room > 0 ==> b.closed || |b.outbound.buf| < |a.outbound.buf|))
  {
    hide Next, ReaderRight, WriterRight, CloseRight, DrainRight, Inv;
    PassKeeps(trace, steps, i, j);
    RunKeeps(trace, steps, i + 1);
    RunKeeps(trace, steps, j);
    BytesOf(trace[i + 1]);
    BytesOf(trace[j]);
  }

  lemma BytesOf(s: Sys)
    requires Inv(s)
    ensures s.outbound.accepted == s.outbound.handed + s.outbound.buf
  {
    hide DrainRight, ReaderRight, WriterRight, CloseRight;
  }

  /** A shutdown seen by the pass, with nothing left to hand on, closes the send half at once. */
  lemma {:induction false} ShutdownCloses(trace: seq<Sys>, steps: seq<Step>, i: nat, j: nat)
    requires Run(trace, steps) && i < j < |trace|
    requires trace[i].stack.CheckShutdown? && trace[i].flags.writeShutdown
    requires trace[i].outbound.buf == [] && MaySend(trace[i].socket)
    requires forall k | i <= k < j :: trace[k].stack.CheckShutdown? || trace[k].stack.CheckDrained?
    ensures trace[j].flags.writeShutdown && trace[j].outbound.buf == []
    ensures trace[j].stack.CheckShutdown? || trace[j].stack.CheckDrained? ==> MaySend(trace[j].socket)
    ensures trace[j].stack.CheckWrite? ==> trace[j].closed && trace[j].socket.sendDone
    decreases j
  {
    hide AppNext, StackNext, BytesRight, DrainRight, ReaderRight, WriterRight, CloseRight, MaySend;
    if i < j - 1 {
      ShutdownCloses(trace, steps, i, j - 1);
    }
    RunKeeps(trace, steps, j - 1);
    match steps[j - 1]
    case App(step) =>
      AppLeaves(trace[j - 1], step, trace[j]);
      AppAcceptsNone(trace[j - 1], step, trace[j]);
    case OfStack(n, k') => ShutdownStep(trace[j - 1], n, k', trace[j]);
  }

  lemma ShutdownStep(s: Sys, n: nat, k': Socket, s': Sys)
    requires StackNext(s, n, k', s') && (s.stack.CheckShutdown? || s.stack.CheckDrained?)
    requires s.flags.writeShutdown && s.outbound.buf == [] && MaySend(s.socket)
    ensures s'.flags.writeShutdown && s'.outbound.buf == []
    ensures if s.stack.CheckShutdown? then s'.stack.CheckDrained? && s'.socket == s.socket
            else s'.stack.CheckWrite? && s'.closed && s'.socket.sendDone
  {
    hide MaySend, Wake;
  }

  /** A drop seen by the pass closes it unless bytes are left that the socket does not take. */
  lemma {:induction false} DropCloses(trace: seq<Sys>, steps: seq<Step>, i: nat, j: nat)
    requires Run(trace, steps) && i < j < |trace| && trace[i].stack.CheckDropped? && trace[i].flags.socketDropped
    requires forall k | i <= k < j ::
               trace[k].stack.CheckDropped? || trace[k].stack.Flushing? || trace[k].stack.CheckFlushed?
    ensures trace[j].flags.socketDropped
    ensures trace[j].stack.CheckFlushed? ==> trace[j].outbound.buf == [] || !CanSend(trace[j].socket)
    ensures trace[j].stack.CheckActive? ==>
              if trace[j].outbound.buf == [] then trace[j].closed && trace[j].socket.sendDone
              else !CanSend(trace[j].socket)
    ensures trace[j].stack.CheckDropped? || trace[j].stack.Flushing? || trace[j].stack.CheckFlushed?
            || trace[j].stack.CheckActive?
    decreases j
  {
    hide AppNext, StackNext, BytesRight, DrainRight, ReaderRight, WriterRight, CloseRight, CanSend;
    if i < j - 1 {
      DropCloses(trace, steps, i, j - 1);
    }
    RunKeeps(trace, steps, j - 1);
    match steps[j - 1]
    case App(step) =>
      AppLeaves(trace[j - 1], step, trace[j]);
      AppAcceptsNone(trace[j - 1], step, trace[j]);
    case OfStack(n, k') => DropStep(trace[j - 1], n, k', trace[j]);
  }

  lemma DropStep(s: Sys, n: nat, k': Socket, s': Sys)
    requires StackNext(s, n, k', s') && (s.stack.CheckDropped? || s.stack.Flushing? || s.stack.CheckFlushed?)
    requires s.flags.socketDropped && (s.stack.CheckFlushed? ==> s.outbound.buf == [] || !CanSend(s.socket))
    ensures s'.flags.socketDropped
    ensures s'.stack.CheckFlushed? ==> s'.outbound.buf == [] || !CanSend(s'.socket)
    ensures s'.stack.CheckActive? ==>
              if s'.outbound.buf == [] then s'.closed && s'.socket.sendDone else !CanSend(s'.socket)
    ensures s'.stack.Flushing? || s'.stack.CheckFlushed? || s'.stack.CheckActive?
  {
    hide Wake;
  }

  // ---- Passes end ----

  /** What the loops of a pass use up. */
  function Left(s: Sys): nat {
    |s.socket.rx| + s.socket.room
  }

  /** Every step of the stack inside a pass goes on to a later station or uses something up. */
  lemma StackAdvances(s: Sys, n: nat, k': Socket, s': Sys)
    requires StackNext(s, n, k', s') && InPass(s.stack)
    ensures Left(s') <= Left(s) && Rank(s'.stack) >= Rank(s.stack)
    ensures Rank(s'.stack) > Rank(s.stack) || Left(s') < Left(s)
  {
    hide ReceiveNext, SendNext, CheckNext, DropNext, EndNext, Left;
    if ReceiveNext(s, n, s') || SendNext(s, n, s') || DropNext(s, n, s') {
      LoopsAdvance(s, n, s');
    } else {
      TestsAdvance(s, s');
    }
  }

  lemma LoopsAdvance(s: Sys, n: nat, s': Sys)
    requires ReceiveNext(s, n, s') || SendNext(s, n, s') || DropNext(s, n, s')
    ensures Left(s') <= Left(s) && Rank(s'.stack) >= Rank(s.stack)
    ensures Rank(s'.stack) > Rank(s.stack) || Left(s') < Left(s)
  {
    hide Wake, CanSend, MayRecv, Full, Receive, Hand;
  }

  lemma TestsAdvance(s: Sys, s': Sys)
    requires CheckNext(s, s') || EndNext(s, s')
    ensures Left(s') == Left(s) && Rank(s'.stack) > Rank(s.stack)
  {
    hide Wake, CanRecv, MaySend, MayRecv;
  }

  /** One byte moves into the socket. */
  function Moved(s: Sys, stack: Stack): Sys
    requires s.outbound.buf != [] && s.socket.room > 0
  {
    s.(stack := stack, outbound := Hand(s.outbound, 1), socket := s.socket.(room := s.socket.room - 1))
  }

  /** One way the pass may go on, towards the removal. */
  function OneOn(s: Sys): Sys
    requires !s.stack.Removed?
  {
    match s.stack
    case Between => s.(socket := s.socket.(active := false), stack := Receiving(false))
    case Receiving(notify) =>
      if CanRecv(s.socket) && !Full(s.inbound.buf, s.capacity) then
        s.(stack := Receiving(true), inbound := Receive(s.inbound, s.socket.rx[..1]),
                 socket := s.socket.(rx := s.socket.rx[1..]))
      else
        s.(stack := if notify then WakeRead else Sending(false))
    case WakeRead => s.(stack := Sending(false), reader := Wake(s.reader))
    case Sending(notify) =>
      if CanSend(s.socket) && s.outbound.buf != [] then
        Moved(s, Sending(true))
      else
        s.(stack := if notify then WakeWrite else CheckRead)
    case WakeWrite => s.(stack := CheckRead, writer := Wake(s.writer))
    case CheckRead =>
      if s.socket.pastHandshake && !MayRecv(s.socket) && !CanRecv(s.socket) && !s.flags.readClosed then
        s.(stack := WakeReadClosed, flags := s.flags.(readClosed := true))
      else
        s.(stack := CheckShutdown)
    case WakeReadClosed => s.(stack := CheckShutdown, reader := Wake(s.reader))
    case CheckShutdown => s.(stack := if s.flags.writeShutdown then CheckDrained else CheckWrite)
    case CheckDrained =>
      (if s.outbound.buf == [] && MaySend(s.socket) then Close(s) else s).(stack := CheckWrite)
    case CheckWrite =>
      if s.socket.pastHandshake && !MaySend(s.socket) && !s.flags.writeClosed then
        s.(stack := WakeWriteClosed, flags := s.flags.(writeClosed := true))
      else
        s.(stack := CheckDropped)
    case WakeWriteClosed => s.(stack := CheckDropped, writer := Wake(s.writer))
    case CheckDropped => s.(stack := if s.flags.socketDropped then Flushing else CheckActive)
    case Flushing =>
      if CanSend(s.socket) && s.outbound.buf != [] then
        Moved(s, Flushing)
      else
        s.(stack := CheckFlushed)
    case CheckFlushed => (if s.outbound.buf == [] then Close(s) else s).(stack := CheckActive)
    case CheckActive => s.(stack := if s.socket.active then Between else SetSocketClosed)
    case SetSocketClosed => s.(stack := SetWriteClosed, flags := s.flags.(socketClosed := true))
    case SetWriteClosed => s.(stack := WakeRemovedRead, flags := s.flags.(writeClosed := true))
    case WakeRemovedRead => s.(stack := WakeRemovedWrite, reader := Wake(s.reader))
    case WakeRemovedWrite => s.(stack := Removed, writer := Wake(s.writer))
  }

  lemma MovingGoesOn(s: Sys)
    requires Moving(s.stack)
    ensures StackNext(s, 1, s.socket.(active := false), OneOn(s))
  {
    hide Wake, MayRecv;
  }

  lemma CheckingGoesOn(s: Sys)
    requires !s.stack.Removed? && !Moving(s.stack)
    ensures StackNext(s, 1, s.socket.(active := false), OneOn(s))
  {
    hide Wake, MayRecv, CanRecv, CanSend, MaySend, Full, SocketMovesOn, Hand, Receive;
  }

  /** Until the socket is removed the stack can always step. */
  lemma StackCanStep(s: Sys)
    requires !s.stack.Removed?
    ensures StackNext(s, 1, s.socket.(active := false), OneOn(s))
  {
    hide StackNext, OneOn, Moving;
    if Moving(s.stack) {
      MovingGoesOn(s);
    } else {
      CheckingGoesOn(s);
    }
  }

  // ---- Every close has its cause ----

  /** Without a drop the close flags are set only when nothing more can come in or go out. */
  predicate FlagsRight(s: Sys) {
    && (s.flags.socketClosed ==> Removing(s.stack))
    && (Removing(s.stack) || s.stack.SetSocketClosed? ==> !s.socket.active)
    && (s.flags.readClosed ==> (Dropping(s.poll) && !s.poll.DropRead?) || PeerFinished(s.socket))
    && (s.flags.writeClosed ==>
          || (Dropping(s.poll) && !s.poll.DropRead? && !s.poll.DropWrite?)
          || Finished(s.socket) || Removing(s.stack))
    && (s.closed ==> s.socket.sendDone)
  }

  /** The peer's FIN, behind the last byte. */
  predicate PeerFinished(k: Socket) {
    k.pastHandshake && k.recvDone && k.rx == []
  }

  predicate Finished(k: Socket) {
    k.pastHandshake && k.sendDone
  }

  /** The application sets close flags only on a drop. */
  lemma AppFlags(s: Sys, step: AppStep, s': Sys)
    requires AppNext(s, step, s')
    ensures s'.flags.readClosed <==> s.flags.readClosed || (s.poll.DropRead? && step.Continue?)
    ensures s'.flags.writeClosed <==> s.flags.writeClosed || (s.poll.DropWrite? && step.Continue?)
  {
    hide Wake, Register, Polled, Full, Deliver, Accept;
  }

  /** A drop goes on to its end. */
  lemma DropGoesOn(s: Sys, step: AppStep, s': Sys)
    requires AppNext(s, step, s') && Dropping(s.poll)
    ensures step.Continue? && Dropping(s'.poll) && !s'.poll.DropRead?
    ensures s'.poll.DropWrite? <==> s.poll.DropRead?
  {
    hide Wake, Register, Polled, Full, Deliver, Accept;
  }

  lemma AppFlagsKept(s: Sys, step: AppStep, s': Sys)
    requires FlagsRight(s) && AppNext(s, step, s')
    ensures FlagsRight(s')
  {
    hide AppNext;
    AppLeaves(s, step, s');
    AppFlags(s, step, s');
    if Dropping(s.poll) {
      DropGoesOn(s, step, s');
    }
  }

  /** What has come in stays in until the stack takes it, and after the end nothing comes in. */
  lemma StackLeavesApp(s: Sys, n: nat, k': Socket, s': Sys)
    requires StackNext(s, n, k', s')
    ensures s'.poll == s.poll
  {
    hide Wake, CanRecv, CanSend, MayRecv, MaySend, Full, Receive, Hand, SocketMovesOn;
  }

  lemma StackSocket(s: Sys, n: nat, k': Socket, s': Sys)
    requires StackNext(s, n, k', s')
    ensures SocketGoesOn(s.socket, s'.socket)
  {
    hide Wake, CanSend, MaySend, MayRecv, Full, Receive, Hand;
  }

  predicate SocketGoesOn(k: Socket, k': Socket) {
    && (PeerFinished(k) ==> PeerFinished(k')) && (Finished(k) ==> Finished(k'))
    && (!k.active ==> !k'.active)
  }

  lemma StackFlags(s: Sys, n: nat, k': Socket, s': Sys)
    requires StackNext(s, n, k', s')
    ensures s'.flags.socketClosed <==> s.flags.socketClosed || s.stack.SetSocketClosed?
    ensures s.flags.readClosed ==> s'.flags.readClosed
    ensures s'.flags.readClosed && !s.flags.readClosed ==> PeerFinished(s'.socket)
  {
    hide Wake, CanSend, MaySend, Full, Receive, Hand;
  }

  lemma StackWriteFlags(s: Sys, n: nat, k': Socket, s': Sys)
    requires StackNext(s, n, k', s')
    ensures s'.flags.writeClosed && !s.flags.writeClosed ==> Finished(s'.socket) || s'.stack.WakeRemovedRead?
  {
    hide Wake, CanSend, CanRecv, MayRecv, Full, Receive, Hand, SocketMovesOn;
  }

  lemma StackCloses(s: Sys, n: nat, k': Socket, s': Sys)
    requires StackNext(s, n, k', s')
    ensures s.socket.sendDone ==> s'.socket.sendDone
    ensures s'.closed && !s.closed ==> s'.socket.sendDone
  {
    hide Wake, CanSend, CanRecv, MayRecv, MaySend, Full, Receive, Hand;
  }

  predicate Removing(stack: Stack) {
    stack.SetWriteClosed? || stack.WakeRemovedRead? || stack.WakeRemovedWrite? || stack.Removed?
  }

  lemma RemovalGoesOn(s: Sys, n: nat, k': Socket, s': Sys)
    requires StackNext(s, n, k', s')
    ensures Removing(s'.stack) <==> Removing(s.stack) || s.stack.SetSocketClosed?
  {
    hide ReceiveNext, SendNext, CheckNext, DropNext, EndNext, SocketMovesOn;
    if EndNext(s, s') {
      RemovalAtEnd(s, s');
    } else if CheckNext(s, s') {
      ChecksRemoveNot(s, s');
    } else if ReceiveNext(s, n, s') || SendNext(s, n, s') || DropNext(s, n, s') {
      LoopsRemoveNot(s, n, s');
    }
  }

  lemma RemovalAtEnd(s: Sys, s': Sys)
    requires EndNext(s, s')
    ensures Removing(s'.stack) <==> Removing(s.stack) || s.stack.SetSocketClosed?
  {
    hide Wake;
  }

  lemma ChecksRemoveNot(s: Sys, s': Sys)
    requires CheckNext(s, s')
    ensures !Removing(s.stack) && !s.stack.SetSocketClosed? && !Removing(s'.stack)
  {
    hide Wake, CanRecv, MayRecv, MaySend;
  }

  lemma LoopsRemoveNot(s: Sys, n: nat, s': Sys)
    requires ReceiveNext(s, n, s') || SendNext(s, n, s') || DropNext(s, n, s')
    ensures !Removing(s.stack) && !s.stack.SetSocketClosed? && !Removing(s'.stack)
  {
    hide Wake, CanRecv, CanSend, Full, Receive, Hand;
  }

  lemma RemovalStarts(s: Sys, n: nat, k': Socket, s': Sys)
    requires StackNext(s, n, k', s') && s'.stack.SetSocketClosed?
    ensures !s'.socket.active
  {
    hide Wake, CanRecv, CanSend, MayRecv, MaySend, SocketMovesOn, Full, Receive, Hand;
  }

  lemma StackFlagsKept(s: Sys, n: nat, k': Socket, s': Sys)
    requires FlagsRight(s) && StackNext(s, n, k', s')
    ensures FlagsRight(s')
  {
    hide StackNext, Dropping;
    StackLeavesApp(s, n, k', s');
    StackSocket(s, n, k', s');
    StackFlags(s, n, k', s');
    StackWriteFlags(s, n, k', s');
    StackCloses(s, n, k', s');
    RemovalGoesOn(s, n, k', s');
    if s'.stack.SetSocketClosed? {
      RemovalStarts(s, n, k', s');
    }
  }

  lemma {:induction false} RunFlags(trace: seq<Sys>, steps: seq<Step>, i: nat)
    requires Run(trace, steps) && i < |trace|
    ensures FlagsRight(trace[i])
  {
    if i > 0 {
      hide FlagsRight, AppNext, StackNext;
      RunFlags(trace, steps, i - 1);
      var (s, s') := (trace[i - 1], trace[i]);
      match steps[i - 1]
      case App(a) => AppFlagsKept(s, a, s');
      case OfStack(n, k') => StackFlagsKept(s, n, k', s');
    }
  }

  /**
   In every run: the peer's FIN is reported only when it is there, with no byte left in front of it, or after a
   drop; a write fails only when the send half is closed, the socket inactive, or after a drop; only an inactive
   socket is removed; and a closed socket has sent its FIN.
   */
  lemma ClosesHaveCauses(trace: seq<Sys>, steps: seq<Step>, i: nat)
    requires Run(trace, steps) && i < |trace|
    ensures var s := trace[i];
            && (s.flags.readClosed ==>
                  s.flags.socketDropped || (s.socket.pastHandshake && s.socket.recvDone && s.socket.rx == []))
            && (s.flags.writeClosed ==>
                  || s.flags.socketDropped || (s.socket.pastHandshake && s.socket.sendDone)
                  || !s.socket.active)
            && (s.flags.socketClosed || s.stack.Removed? ==> !s.socket.active)
            && (s.closed ==> s.socket.sendDone)
  {
    hide Next, BytesRight, ReaderRight, WriterRight, CloseRight;
    RunFlags(trace, steps, i);
    RunKeeps(trace, steps, i);
  }

  // ---- A poll of the application ----

  /** A `poll_read` from its call at i to its return at j. */
  predicate ReadPoll(trace: seq<Sys>, steps: seq<Step>, i: nat, j: nat) {
    && i < j < |trace| == |steps| + 1 && steps[i] == App(StartRead)
    && forall k | i < k < j :: Reading(trace[k].poll)
  }

  /** How a `poll_read` stands that was called in state a. */
  predicate ReadRight(a: Sys, s: Sys, emptySeen: bool) {
    && Reading(s.poll) && s.inbound.delivered == a.inbound.delivered && !s.reader.asleep
    && (a.inbound.buf != [] ==> s.inbound.buf != [])
    && (s.poll.ReadTake? ==> s.inbound.buf != [])
    && (!s.poll.ReadTest? && !s.poll.ReadTake? ==> emptySeen)
    && (a.inbound.buf != [] ==> s.poll.ReadTest? || s.poll.ReadTake?)
    && FlagsGrow(a.flags, s.flags)
    && (s.poll.ReadFlagClosed? ==> !a.flags.socketClosed)
  }

  lemma AppReadKept(a: Sys, s: Sys, seen: bool, step: AppStep, s': Sys)
    requires ReadRight(a, s, seen) && AppNext(s, step, s') && Reading(s'.poll)
    ensures ReadRight(a, s', seen || s.inbound.buf == [])
  {
    hide Wake, Accept, Full;
  }

  lemma StackReadKept(a: Sys, s: Sys, seen: bool, n: nat, k': Socket, s': Sys)
    requires ReadRight(a, s, seen) && StackNext(s, n, k', s')
    ensures ReadRight(a, s', seen)
  {
    StackLeavesRead(s, n, k', s');
    hide StackNext;
  }

  /** The stack only adds to the receive buffer, and puts nobody to sleep. */
  lemma StackLeavesRead(s: Sys, n: nat, k': Socket, s': Sys)
    requires StackNext(s, n, k', s')
    ensures s'.poll == s.poll && s'.inbound.delivered == s.inbound.delivered && s'.reader.asleep == s.reader.asleep
    ensures s.inbound.buf <= s'.inbound.buf && FlagsGrow(s.flags, s'.flags)
  {
    hide StackNext;
    StackLeavesApp(s, n, k', s');
    StackInbound(s, n, k', s');
    StackKeepsFlags(s, n, k', s');
  }

  lemma StackInbound(s: Sys, n: nat, k': Socket, s': Sys)
    requires StackNext(s, n, k', s')
    ensures s'.inbound.delivered == s.inbound.delivered && s.inbound.buf <= s'.inbound.buf
    ensures s'.reader.asleep == s.reader.asleep
  {
    hide CanRecv, CanSend, MayRecv, MaySend, SocketMovesOn, Full, Hand;
  }

  lemma StackKeepsFlags(s: Sys, n: nat, k': Socket, s': Sys)
    requires StackNext(s, n, k', s')
    ensures FlagsGrow(s.flags, s'.flags)
  {
    hide Wake, CanRecv, CanSend, MayRecv, MaySend, SocketMovesOn, Full, Receive, Hand;
  }

  predicate EmptySeen(trace: seq<Sys>, i: nat, j: nat) {
    exists k | i < k < j < |trace| :: trace[k].inbound.buf == []
  }

  lemma {:induction false} ReadSoFar(trace: seq<Sys>, steps: seq<Step>, i: nat, j: nat)
    requires Run(trace, steps) && ReadPoll(trace, steps, i, j) && Reading(trace[j].poll)
    ensures ReadRight(trace[i], trace[j], EmptySeen(trace, i, j))
    decreases j
  {
    hide ReadRight, StackNext;
    if j == i + 1 {
      ReadBegins(trace[i], trace[j], EmptySeen(trace, i, j));
    } else {
      ReadSoFar(trace, steps, i, j - 1);
      var seen := EmptySeen(trace, i, j - 1);
      match steps[j - 1]
      case App(step) =>
        AppReadKept(trace[i], trace[j - 1], seen, step, trace[j]);
        SeenOneMore(trace, i, j);
      case OfStack(n, k') =>
        StackReadKept(trace[i], trace[j - 1], seen, n, k', trace[j]);
        SeenOneMore(trace, i, j);
        ReadMoreSeen(trace[i], trace[j], seen, EmptySeen(trace, i, j));
    }
  }

  lemma SeenOneMore(trace: seq<Sys>, i: nat, j: nat)
    requires i + 1 < j < |trace|
    ensures EmptySeen(trace, i, j) <==> EmptySeen(trace, i, j - 1) || trace[j - 1].inbound.buf == []
  {}

  lemma ReadMoreSeen(a: Sys, s: Sys, seen: bool, more: bool)
    requires ReadRight(a, s, seen) && (seen ==> more)
    ensures ReadRight(a, s, more)
  {}

  lemma ReadBegins(a: Sys, s: Sys, seen: bool)
    requires AppNext(a, StartRead, s)
    ensures ReadRight(a, s, seen)
  {}

  /**
   What a `poll_read` answers. With data at the call it delivers the first of it, as much as there is room for.
   If it delivers nothing it saw the buffer empty; then it falls asleep exactly when the last close flag it
   tests is clear too, so never when one was set at the call.
   */
  lemma ReadAnswers(trace: seq<Sys>, steps: seq<Step>, i: nat, j: nat)
    requires Run(trace, steps) && ReadPoll(trace, steps, i, j) && trace[j].poll.NoPoll?
    ensures i + 1 < j
    ensures var (a, s, b) := (trace[i], trace[j - 1], trace[j]);
            && (a.inbound.buf != [] ==> s.poll.ReadTake?)
            && (s.poll.ReadTake? ==>
                  && s.inbound.buf != []
                  && b.inbound.delivered == a.inbound.delivered + s.inbound.buf[..Min(s.poll.room, |s.inbound.buf|)]
                  && b.inbound.buf == s.inbound.buf[Min(s.poll.room, |s.inbound.buf|)..])
            && (!s.poll.ReadTake? ==> b.inbound.delivered == a.inbound.delivered && EmptySeen(trace, i, j))
            && (b.reader.asleep <==> s.poll.ReadFlagClosed? && !s.flags.readClosed)
            && (b.reader.asleep ==> !a.flags.socketClosed && !a.flags.readClosed)
  {
    hide StackNext, Next, ReadRight;
    if j == i + 1 {
      ReadStarts(trace[i], steps[i], trace[j]);
      assert false;
    } else {
      ReadSoFar(trace, steps, i, j - 1);
      ReadEnds(trace[i], trace[j - 1], EmptySeen(trace, i, j - 1), steps[j - 1], trace[j]);
      SeenOneMore(trace, i, j);
    }
  }

  lemma ReadStarts(s: Sys, step: Step, s': Sys)
    requires Next(s, step, s') && step == App(StartRead)
    ensures !s'.poll.NoPoll?
  {}

  lemma ReadEnds(a: Sys, s: Sys, seen: bool, step: Step, b: Sys)
    requires ReadRight(a, s, seen) && Next(s, step, b) && b.poll.NoPoll?
    ensures a.inbound.buf != [] ==> s.poll.ReadTake?
    ensures s.poll.ReadTake? ==>
              && s.inbound.buf != []
              && b.inbound.delivered == a.inbound.delivered + s.inbound.buf[..Min(s.poll.room, |s.inbound.buf|)]
              && b.inbound.buf == s.inbound.buf[Min(s.poll.room, |s.inbound.buf|)..]
    ensures !s.poll.ReadTake? ==> b.inbound.delivered == a.inbound.delivered && seen
    ensures b.reader.asleep <==> s.poll.ReadFlagClosed? && !s.flags.readClosed
    ensures b.reader.asleep ==> !a.flags.socketClosed && !a.flags.readClosed
  {
    hide StackNext, Accept, Full;
    if step.OfStack? {
      StackLeavesRead(s, step.n, step.socket, b);
    }
  }

  /** A `poll_write` of these bytes from its call at i to its return at j. */
  predicate WritePoll(trace: seq<Sys>, steps: seq<Step>, i: nat, j: nat, data: seq<byte>) {
    && i < j < |trace| == |steps| + 1 && steps[i] == App(StartWrite(data))
    && forall k | i < k < j :: Writing(trace[k].poll)
  }

  predicate Refuses(f: Flags) {
    f.writeClosed || f.writeShutdown
  }

  /** How a `poll_write` stands that was called in state a. */
  predicate WriteRight(a: Sys, s: Sys, data: seq<byte>, fullSeen: bool) {
    && Writing(s.poll) && s.poll.data == data && s.capacity == a.capacity
    && s.outbound.accepted == a.outbound.accepted && !s.writer.asleep && FlagsGrow(a.flags, s.flags)
    && |s.outbound.buf| <= |a.outbound.buf|
    && (s.poll.WriteFlagShutdown? || MayAccept(s.poll) ==> !a.flags.writeClosed)
    && (MayAccept(s.poll) ==> !a.flags.writeShutdown)
    && (s.poll.WriteRegister? || s.poll.WriteRetest? ==> fullSeen && Full(a.outbound.buf, a.capacity))
    && (s.poll.WritePut? ==>
          s.poll.space > 0 && Space(a.outbound.buf, a.capacity) <= s.poll.space <= Space(s.outbound.buf, s.capacity))
  }

  lemma AppWriteKept(a: Sys, s: Sys, data: seq<byte>, seen: bool, step: AppStep, s': Sys)
    requires WriteRight(a, s, data, seen) && AppNext(s, step, s') && Writing(s'.poll)
    ensures WriteRight(a, s', data, seen || Full(s.outbound.buf, s.capacity))
  {
    hide Wake, Deliver;
  }

  lemma StackLeavesWrite(s: Sys, n: nat, k': Socket, s': Sys)
    requires StackNext(s, n, k', s')
    ensures s'.poll == s.poll && s'.capacity == s.capacity && s'.writer.asleep == s.writer.asleep
    ensures s'.outbound.accepted == s.outbound.accepted && |s'.outbound.buf| <= |s.outbound.buf|
  {
    hide CanRecv, CanSend, MayRecv, MaySend, SocketMovesOn, Full, Receive;
  }

  lemma StackWriteKept(a: Sys, s: Sys, data: seq<byte>, seen: bool, n: nat, k': Socket, s': Sys)
    requires WriteRight(a, s, data, seen) && StackNext(s, n, k', s')
    ensures WriteRight(a, s', data, seen)
  {
    hide StackNext;
    StackLeavesWrite(s, n, k', s');
    StackKeepsFlags(s, n, k', s');
  }

  predicate FullSeen(trace: seq<Sys>, i: nat, j: nat) {
    exists k | i < k < j < |trace| :: Full(trace[k].outbound.buf, trace[k].capacity)
  }

  lemma FullOneMore(trace: seq<Sys>, i: nat, j: nat)
    requires i + 1 < j < |trace|
    ensures FullSeen(trace, i, j) <==>
              FullSeen(trace, i, j - 1) || Full(trace[j - 1].outbound.buf, trace[j - 1].capacity)
  {
    hide Full;
  }

  lemma WriteMoreSeen(a: Sys, s: Sys, data: seq<byte>, seen: bool, more: bool)
    requires WriteRight(a, s, data, seen) && (seen ==> more)
    ensures WriteRight(a, s, data, more)
  {}

  lemma WriteBegins(a: Sys, s: Sys, data: seq<byte>, seen: bool)
    requires AppNext(a, StartWrite(data), s)
    ensures WriteRight(a, s, data, seen)
  {}

  lemma {:induction false} WriteSoFar(trace: seq<Sys>, steps: seq<Step>, i: nat, j: nat, data: seq<byte>)
    requires Run(trace, steps) && WritePoll(trace, steps, i, j, data) && Writing(trace[j].poll)
    ensures WriteRight(trace[i], trace[j], data, FullSeen(trace, i, j))
    decreases j
  {
    hide WriteRight, StackNext, FullSeen, Full;
    if j == i + 1 {
      WriteBegins(trace[i], trace[j], data, FullSeen(trace, i, j));
    } else {
      WriteSoFar(trace, steps, i, j - 1, data);
      var seen := FullSeen(trace, i, j - 1);
      FullOneMore(trace, i, j);
      match steps[j - 1]
      case App(step) => AppWriteKept(trace[i], trace[j - 1], data, seen, step, trace[j]);
      case OfStack(n, k') =>
        StackWriteKept(trace[i], trace[j - 1], data, seen, n, k', trace[j]);
        WriteMoreSeen(trace[i], trace[j], data, seen, FullSeen(trace, i, j));
    }
  }

  /** How much a `poll_write` took, and how it ended. */
  predicate WriteAnswer(a: Sys, s: Sys, b: Sys, data: seq<byte>, n: nat, fullSeen: bool) {
    && n <= |data| && b.outbound.accepted == a.outbound.accepted + data[..n]
    && (Refuses(a.flags) ==> n == 0)
    && (!Refuses(s.flags) ==> n >= Min(|data|, a.capacity - 1 - |a.outbound.buf|))
    && (n == 0 && data != [] ==> b.writer.asleep || Refuses(s.flags))
    && (b.writer.asleep ==> n == 0 && fullSeen && !Refuses(a.flags) && |s.outbound.buf| + 1 >= s.capacity)
  }

  lemma WriteEnds(a: Sys, s: Sys, data: seq<byte>, seen: bool, step: Step, b: Sys) returns (n: nat)
    requires WriteRight(a, s, data, seen) && Next(s, step, b) && b.poll.NoPoll?
    ensures WriteAnswer(a, s, b, data, n, seen)
  {
    hide StackNext, Deliver;
    if step.OfStack? {
      StackLeavesWrite(s, step.n, step.socket, b);
      assert false;
    }
    n := if s.poll.WritePut? then step.step.n else 0;
    assert a.outbound.accepted + [] == a.outbound.accepted;
  }

  lemma WriteStarts(s: Sys, step: Step, s': Sys, data: seq<byte>)
    requires Next(s, step, s') && step == App(StartWrite(data))
    ensures !s'.poll.NoPoll?
  {}

  /**
   What a `poll_write` answers. It takes the first n bytes: none if one of its flags was set at the call, all that
   fit if neither is set by the end and the buffer was not full at the call; and none of any bytes at all only
   if it refuses or falls asleep, which needs a buffer it found full twice.
   */
  lemma WriteAnswers(trace: seq<Sys>, steps: seq<Step>, i: nat, j: nat, data: seq<byte>) returns (n: nat)
    requires Run(trace, steps) && WritePoll(trace, steps, i, j, data) && trace[j].poll.NoPoll?
    ensures i + 1 < j && WriteAnswer(trace[i], trace[j - 1], trace[j], data, n, FullSeen(trace, i, j - 1))
  {
    hide StackNext, Next, WriteRight, WriteAnswer, FullSeen;
    if j == i + 1 {
      WriteStarts(trace[i], steps[i], trace[j], data);
      assert false;
    } else {
      WriteSoFar(trace, steps, i, j - 1, data);
      n := WriteEnds(trace[i], trace[j - 1], data, FullSeen(trace, i, j - 1), steps[j - 1], trace[j]);
    }
  }

  // ---- Shutdown and drop ----

  /** The stores of `poll_shutdown` and of a drop, as far as they have got. */
  predicate StoresRight(s: Sys) {
    && (s.poll.ShutdownWake? ==> s.flags.writeShutdown)
    && (Dropping(s.poll) && !s.poll.DropRead? ==> s.flags.readClosed)
    && (Dropping(s.poll) && !s.poll.DropRead? && !s.poll.DropWrite? ==> s.flags.writeClosed)
  }

  lemma AppStoresKept(s: Sys, step: AppStep, s': Sys)
    requires StoresRight(s) && AppNext(s, step, s')
    ensures StoresRight(s')
  {
    hide Wake, Register, Polled, Full, Deliver, Accept, Space;
  }

  lemma {:induction false} RunStores(trace: seq<Sys>, steps: seq<Step>, i: nat)
    requires Run(trace, steps) && i < |trace|
    ensures StoresRight(trace[i])
  {
    hide AppNext, StackNext;
    if i > 0 {
      RunStores(trace, steps, i - 1);
      match steps[i - 1]
      case App(step) => AppStoresKept(trace[i - 1], step, trace[i]);
      case OfStack(n, k') =>
        StackLeavesApp(trace[i - 1], n, k', trace[i]);
        StackKeepsFlags(trace[i - 1], n, k', trace[i]);
    }
  }

  predicate ShuttingDown(p: Poll) {
    p.ShutdownStore? || p.ShutdownWake?
  }

  lemma ShutdownOrder(s: Sys, step: Step, s': Sys)
    requires Next(s, step, s')
    ensures step == App(StartShutdown) ==> s'.poll.ShutdownStore?
    ensures ShuttingDown(s.poll) && s'.poll.NoPoll? ==> s.poll.ShutdownWake? && s'.flags.writeShutdown == s.flags.writeShutdown
  {
    hide StackNext, Wake, Register, Polled, Full, Deliver, Accept, Space;
    if step.OfStack? {
      StackLeavesApp(s, step.n, step.socket, s');
    }
  }

  /** When `poll_shutdown` returns, the stack can see it; a drop leaves all three flags of the application set. */
  lemma ShutdownAndDrop(trace: seq<Sys>, steps: seq<Step>, i: nat, j: nat)
    requires Run(trace, steps) && i < j < |trace|
    ensures steps[i] == App(StartShutdown) && trace[j].poll.NoPoll?
            && (forall k | i < k < j :: ShuttingDown(trace[k].poll)) ==>
              trace[j].flags.writeShutdown
    ensures trace[j].poll.Dropped? ==>
              trace[j].flags.socketDropped && trace[j].flags.readClosed && trace[j].flags.writeClosed
  {
    hide Next, BytesRight, ReaderRight, WriterRight, CloseRight;
    RunStores(trace, steps, j - 1);
    RunStores(trace, steps, j);
    RunKeeps(trace, steps, j);
    ShutdownOrder(trace[i], steps[i], trace[i + 1]);
    ShutdownOrder(trace[j - 1], steps[j - 1], trace[j]);
  }
}
