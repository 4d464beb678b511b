/**
 One TCP stream between the application side (`poll_read`, `poll_write`, `poll_shutdown`, `Drop`) and
 the stack side (the per-socket part of `poll_sockets`), in every interleaving of their atomic steps.

 The two byte rings are the queues they refine. The application polls under exclusive access, so at
 most one poll is in progress; its read half and its write half may sleep independently.
 */
module Stream {
  import opened Bytes

  /** A task's view of its waker: registered with the stream, asleep, and notified since its last poll. */
  datatype Waiter = Waiter(registered: bool, asleep: bool, notified: bool)

  /** The poll in progress. */
  datatype Poll =
    | NoPoll
    | ReadTest | ReadRegister | ReadRetest
    | ReadFlagSocket | ReadFlagClosed
    | ReadTake(room: nat)
    | WriteFlagClosed(data: seq<byte>) | WriteFlagShutdown(data: seq<byte>)
    | WriteTest(data: seq<byte>) | WriteRegister(data: seq<byte>) | WriteRetest(data: seq<byte>)
    | WritePut(data: seq<byte>, space: nat)
    | ShutdownStore | ShutdownWake
    | DropSocket | DropRead | DropWrite | DropWakeRead | DropWakeWrite | Dropped

  /** Where the pass over the socket stands. */
  datatype Stack =
    | Between
    | Receiving(notify: bool) | WakeRead
    | Sending(notify: bool) | WakeWrite
    | CheckRead | WakeReadClosed
    | CheckShutdown | CheckDrained
    | CheckWrite | WakeWriteClosed
    | CheckDropped | Flushing | CheckFlushed
    | CheckActive
    | SetSocketClosed | SetWriteClosed | WakeRemovedRead | WakeRemovedWrite
    | Removed

  /** The smoltcp socket: bytes that arrived, room for bytes to send, and its state. */
  datatype Socket = Socket(
    rx: seq<byte>, room: nat, pastHandshake: bool, recvDone: bool, sendDone: bool, active: bool)

  /** The receive buffer, with everything that ever entered and left it. */
  datatype Inbound = Inbound(buf: seq<byte>, arrived: seq<byte>, delivered: seq<byte>)

  /** The send buffer, likewise. */
  datatype Outbound = Outbound(buf: seq<byte>, accepted: seq<byte>, handed: seq<byte>)

  datatype Flags = Flags(
    socketDropped: bool, socketClosed: bool, readClosed: bool, writeClosed: bool, writeShutdown: bool)

  /** `closed`: socket.close() has been called. */
  datatype Sys = Sys(
    inbound: Inbound, outbound: Outbound, capacity: nat, reader: Waiter, writer: Waiter, flags: Flags,
    poll: Poll, stack: Stack, socket: Socket, closed: bool)

  function Receive(b: Inbound, bytes: seq<byte>): Inbound {
    b.(buf := b.buf + bytes, arrived := b.arrived + bytes)
  }

  function Deliver(b: Inbound, n: nat): Inbound
    requires n <= |b.buf|
  {
    b.(buf := b.buf[n..], delivered := b.delivered + b.buf[..n])
  }

  function Accept(b: Outbound, bytes: seq<byte>): Outbound {
    b.(buf := b.buf + bytes, accepted := b.accepted + bytes)
  }

  function Hand(b: Outbound, n: nat): Outbound
    requires n <= |b.buf|
  {
    b.(buf := b.buf[n..], handed := b.handed + b.buf[..n])
  }

  predicate CanRecv(k: Socket) {
    k.rx != []
  }

  /** Not during the handshake; with bytes left also after the peer's FIN. */
  predicate MayRecv(k: Socket) {
    (k.pastHandshake && !k.recvDone) || k.rx != []
  }

  predicate MaySend(k: Socket) {
    k.pastHandshake && !k.sendDone
  }

  predicate CanSend(k: Socket) {
    MaySend(k) && k.room > 0
  }

  predicate Full(buf: seq<byte>, capacity: nat) {
    |buf| + 1 >= capacity
  }

  /** What still fits, one byte of the ring staying free. */
  function Space(buf: seq<byte>, capacity: nat): nat {
    if Full(buf, capacity) then 0 else capacity - 1 - |buf|
  }

  /** `AtomicWaker::wake`: takes a registered waker, else does nothing. */
  function Wake(w: Waiter): Waiter {
    if w.registered then Waiter(false, w.asleep, true) else w
  }

  function Register(w: Waiter): Waiter {
    w.(registered := true)
  }

  /** A poll begins: what woke the task is used up. */
  function Polled(w: Waiter): Waiter {
    w.(asleep := false, notified := false)
  }

  /** Asleep, and nothing has woken the task. */
  predicate Waiting(w: Waiter) {
    w.asleep && !w.notified
  }

  // ---- The application's steps ----

  datatype AppStep =
    | StartRead
    | StartWrite(data: seq<byte>)
    | StartShutdown
    | StartDrop
    | Continue(n: nat)

  predicate AppContinue(s: Sys, n: nat, s': Sys) {
    match s.poll
    case NoPoll => false
    // poll_read
    case ReadTest => s' == s.(poll := if s.inbound.buf == [] then ReadRegister else ReadTake(n))
    case ReadRegister => s' == s.(poll := ReadRetest, reader := Register(s.reader))
    case ReadRetest => s' == s.(poll := if s.inbound.buf == [] then ReadFlagSocket else ReadTake(n))
    case ReadFlagSocket => s' == s.(poll := if s.flags.socketClosed then NoPoll else ReadFlagClosed)
    case ReadFlagClosed =>
      s' == if s.flags.readClosed then s.(poll := NoPoll)
            else s.(poll := NoPoll, reader := s.reader.(asleep := true))
    case ReadTake(room) =>
      s' == s.(poll := NoPoll, inbound := Deliver(s.inbound, Min(room, |s.inbound.buf|)))
    // poll_write
    case WriteFlagClosed(data) => s' == s.(poll := if s.flags.writeClosed then NoPoll else WriteFlagShutdown(data))
    case WriteFlagShutdown(data) => s' == s.(poll := if s.flags.writeShutdown then NoPoll else WriteTest(data))
    case WriteTest(data) =>
      s' == s.(poll := if Full(s.outbound.buf, s.capacity) then WriteRegister(data)
                       else WritePut(data, Space(s.outbound.buf, s.capacity)))
    case WriteRegister(data) => s' == s.(poll := WriteRetest(data), writer := Register(s.writer))
    case WriteRetest(data) =>
      s' == if Full(s.outbound.buf, s.capacity) then
              s.(poll := NoPoll, writer := s.writer.(asleep := true))
            else s.(poll := WritePut(data, Space(s.outbound.buf, s.capacity)))
    case WritePut(data, space) =>
      // as much as fits, the read position being loaded somewhere since the test
      && Min(|data|, space) <= n <= Min(|data|, Space(s.outbound.buf, s.capacity))
      && s' == s.(poll := NoPoll, outbound := Accept(s.outbound, data[..n]))
    // poll_shutdown
    case ShutdownStore => s' == s.(poll := ShutdownWake, flags := s.flags.(writeShutdown := true))
    case ShutdownWake => s' == s.(poll := NoPoll, writer := Wake(s.writer))
    // Drop
    case DropSocket => s' == s.(poll := DropRead, flags := s.flags.(socketDropped := true))
    case DropRead => s' == s.(poll := DropWrite, flags := s.flags.(readClosed := true))
    case DropWrite => s' == s.(poll := DropWakeRead, flags := s.flags.(writeClosed := true))
    case DropWakeRead => s' == s.(poll := DropWakeWrite, reader := Wake(s.reader))
    case DropWakeWrite => s' == s.(poll := Dropped, writer := Wake(s.writer))
    case Dropped => false
  }

  predicate AppNext(s: Sys, step: AppStep, s': Sys) {
    match step
    case StartRead => s.poll.NoPoll? && s' == s.(poll := ReadTest, reader := Polled(s.reader))
    case StartWrite(data) => s.poll.NoPoll? && s' == s.(poll := WriteFlagClosed(data), writer := Polled(s.writer))
    case StartShutdown => s.poll.NoPoll? && s' == s.(poll := ShutdownStore, writer := Polled(s.writer))
    case StartDrop =>
      s.poll.NoPoll? && s' == s.(poll := DropSocket, reader := Polled(s.reader), writer := Polled(s.writer))
    case Continue(n) => AppContinue(s, n, s')
  }

  // ---- The stack's steps ----

  /** `iface.poll`: bytes arrive, room changes, the state only moves on. */
  predicate SocketMovesOn(k: Socket, k': Socket) {
    && k.rx <= k'.rx && (k.recvDone ==> k'.rx == k.rx)
    && (k.pastHandshake ==> k'.pastHandshake) && (k.recvDone ==> k'.recvDone)
    && (k.sendDone ==> k'.sendDone) && (!k.active ==> !k'.active)
  }

  /** One round of a loop that moves bytes from the send buffer into the socket. */
  predicate MovesOut(s: Sys, n: nat, stack: Stack, s': Sys) {
    && 0 < n <= |s.outbound.buf| && n <= s.socket.room
    && s' == s.(stack := stack, outbound := Hand(s.outbound, n), socket := s.socket.(room := s.socket.room - n))
  }

  function Close(s: Sys): Sys {
    s.(socket := s.socket.(sendDone := true), closed := true)
  }

  /** The receive loop: what arrived goes into the receive buffer. `n` is a number of bytes moved. */
  predicate ReceiveNext(s: Sys, n: nat, s': Sys) {
    match s.stack
    case Receiving(notify) =>
      if CanRecv(s.socket) && !Full(s.inbound.buf, s.capacity) then
        && 0 < n <= |s.socket.rx| && |s.inbound.buf| + n < s.capacity
        && s' == s.(stack := Receiving(true), inbound := Receive(s.inbound, s.socket.rx[..n]),
                    socket := s.socket.(rx := s.socket.rx[n..]))
      else s' == s.(stack := if notify then WakeRead else Sending(false))
    case WakeRead => s' == s.(stack := Sending(false), reader := Wake(s.reader))
    case _ => false
  }

  /** The send loop. */
  predicate SendNext(s: Sys, n: nat, s': Sys) {
    match s.stack
    case Sending(notify) =>
      if CanSend(s.socket) && s.outbound.buf != [] then MovesOut(s, n, Sending(true), s')
      else s' == s.(stack := if notify then WakeWrite else CheckRead)
    case WakeWrite => s' == s.(stack := CheckRead, writer := Wake(s.writer))
    case _ => false
  }

  /** The close tests of the first loop. */
  predicate CheckNext(s: Sys, s': Sys) {
    match s.stack
    case CheckRead =>
      if s.socket.pastHandshake && !MayRecv(s.socket) && !CanRecv(s.socket) && !s.flags.readClosed then
        s' == s.(stack := WakeReadClosed, flags := s.flags.(readClosed := true))
      else s' == s.(stack := CheckShutdown)
    case WakeReadClosed => s' == s.(stack := CheckShutdown, reader := Wake(s.reader))
    case CheckShutdown => s' == s.(stack := if s.flags.writeShutdown then CheckDrained else CheckWrite)
    case CheckDrained =>
      s' == (if s.outbound.buf == [] && MaySend(s.socket) then Close(s) else s).(stack := CheckWrite)
    case CheckWrite =>
      if s.socket.pastHandshake && !MaySend(s.socket) && !s.flags.writeClosed then
        s' == s.(stack := WakeWriteClosed, flags := s.flags.(writeClosed := true))
      else s' == s.(stack := CheckDropped)
    case WakeWriteClosed => s' == s.(stack := CheckDropped, writer := Wake(s.writer))
    case _ => false
  }

  /** The second loop, for a stream that was dropped. */
  predicate DropNext(s: Sys, n: nat, s': Sys) {
    match s.stack
    case CheckDropped => s' == s.(stack := if s.flags.socketDropped then Flushing else CheckActive)
    case Flushing =>
      if CanSend(s.socket) && s.outbound.buf != [] then MovesOut(s, n, Flushing, s')
      else s' == s.(stack := CheckFlushed)
    case CheckFlushed => s' == (if s.outbound.buf == [] then Close(s) else s).(stack := CheckActive)
    case _ => false
  }

  /** The end of the pass: the socket stays, or is removed. */
  predicate EndNext(s: Sys, s': Sys) {
    match s.stack
    case CheckActive => s' == s.(stack := if s.socket.active then Between else SetSocketClosed)
    case SetSocketClosed => s' == s.(stack := SetWriteClosed, flags := s.flags.(socketClosed := true))
    case SetWriteClosed => s' == s.(stack := WakeRemovedRead, flags := s.flags.(writeClosed := true))
    case WakeRemovedRead => s' == s.(stack := WakeRemovedWrite, reader := Wake(s.reader))
    case WakeRemovedWrite => s' == s.(stack := Removed, writer := Wake(s.writer))
    case _ => false
  }

  /** One step of the stack; `k'` is the socket after `iface.poll`. */
  predicate StackNext(s: Sys, n: nat, k': Socket, s': Sys) {
    || (s.stack.Between? && SocketMovesOn(s.socket, k') && s' == s.(socket := k', stack := Receiving(false)))
    || ReceiveNext(s, n, s')
    || SendNext(s, n, s')
    || CheckNext(s, s')
    || DropNext(s, n, s')
    || EndNext(s, s')
  }

  datatype Step = App(step: AppStep) | OfStack(n: nat, socket: Socket)

  predicate Next(s: Sys, step: Step, s': Sys) {
    match step
    case App(a) => AppNext(s, a, s')
    case OfStack(n, k') => StackNext(s, n, k', s')
  }

  predicate Init(s: Sys) {
    && s.inbound == Inbound([], [], []) && s.outbound == Outbound([], [], []) && s.capacity >= 2
    && s.reader == Waiter(false, false, false) == s.writer
    && s.flags == Flags(false, false, false, false, false)
    && s.poll.NoPoll? && s.stack.Between? && !s.closed
  }

  ghost predicate Run(trace: seq<Sys>, steps: seq<Step>) {
    && |trace| == |steps| + 1 && Init(trace[0])
    && forall i | 0 <= i < |steps| :: Next(trace[i], steps[i], trace[i + 1])
  }

  // ---- Groups of steps ----

  /** A step of poll_read. */
  predicate OfRead(s: Sys, step: AppStep) {
    match step
    case StartRead => true
    case Continue(_) =>
      s.poll.ReadTest? || s.poll.ReadRegister? || s.poll.ReadRetest? || s.poll.ReadFlagSocket?
      || s.poll.ReadFlagClosed? || s.poll.ReadTake?
    case _ => false
  }

  /** The steps of the pass that move bytes or look at the receive side. */
  predicate Moving(k: Stack) {
    || k.Between? || k.Receiving? || k.WakeRead? || k.Sending? || k.WakeWrite? || k.Flushing?
    || k.CheckRead? || k.WakeReadClosed?
  }

  // ---- Bytes ----

  /** Nothing is lost, duplicated or reordered in either direction. */
  predicate InboundRight(b: Inbound) {
    b.arrived == b.delivered + b.buf
  }

  predicate OutboundRight(b: Outbound) {
    b.accepted == b.handed + b.buf
  }

  lemma BuffersKept(i: Inbound, o: Outbound, n: nat, bytes: seq<byte>)
    ensures InboundRight(i) ==> InboundRight(Receive(i, bytes))
    ensures InboundRight(i) && n <= |i.buf| ==> InboundRight(Deliver(i, n))
    ensures OutboundRight(o) ==> OutboundRight(Accept(o, bytes))
    ensures OutboundRight(o) && n <= |o.buf| ==> OutboundRight(Hand(o, n))
  {
    if n <= |i.buf| {
      assert i.buf == i.buf[..n] + i.buf[n..];
    }
    if n <= |o.buf| {
      assert o.buf == o.buf[..n] + o.buf[n..];
    }
  }

  predicate BytesRight(s: Sys) {
    && InboundRight(s.inbound) && OutboundRight(s.outbound)
    && s.capacity >= 2 && |s.inbound.buf| < s.capacity && |s.outbound.buf| < s.capacity
  }

  lemma AppBytesKept(s: Sys, step: AppStep, s': Sys)
    requires BytesRight(s) && AppNext(s, step, s')
    ensures BytesRight(s')
  {
    hide Wake, Register, Polled, InboundRight, OutboundRight;
    if step.Continue? && s.poll.ReadTake? {
      BuffersKept(s.inbound, s.outbound, Min(s.poll.room, |s.inbound.buf|), []);
    } else if step.Continue? && s.poll.WritePut? && step.n <= |s.poll.data| {
      BuffersKept(s.inbound, s.outbound, 0, s.poll.data[..step.n]);
    }
  }

  lemma StackBytesKept(s: Sys, n: nat, k': Socket, s': Sys)
    requires BytesRight(s) && StackNext(s, n, k', s')
    ensures BytesRight(s')
  {
    hide Wake, CanRecv, CanSend, MayRecv, MaySend, SocketMovesOn, Full, InboundRight, OutboundRight;
    BuffersKept(s.inbound, s.outbound, n, []);
    if n <= |s.socket.rx| {
      BuffersKept(s.inbound, s.outbound, n, s.socket.rx[..n]);
    }
  }

  // ---- Drain before FIN ----

  /** A `poll_write` that has passed the flag tests. */
  predicate MayAccept(p: Poll) {
    p.WriteTest? || p.WriteRegister? || p.WriteRetest? || p.WritePut?
  }

  predicate Dropping(p: Poll) {
    p.DropRead? || p.DropWrite? || p.DropWakeRead? || p.DropWakeWrite? || p.Dropped?
  }

  predicate DrainRight(s: Sys) {
    && (s.flags.writeShutdown ==> !MayAccept(s.poll))
    && (s.flags.socketDropped <==> Dropping(s.poll))
    && (s.stack.CheckDrained? ==> s.flags.writeShutdown)
    && (s.stack.Flushing? || s.stack.CheckFlushed? ==> s.flags.socketDropped)
    && (s.closed ==> s.outbound.buf == [] && (s.flags.writeShutdown || s.flags.socketDropped))
  }

  lemma ReadDrainKept(s: Sys, step: AppStep, s': Sys)
    requires DrainRight(s) && AppNext(s, step, s') && OfRead(s, step)
    ensures DrainRight(s')
  {
    hide Wake, Register, Polled, Deliver, Full;
  }

  lemma OtherDrainKept(s: Sys, step: AppStep, s': Sys)
    requires DrainRight(s) && AppNext(s, step, s') && !OfRead(s, step)
    ensures DrainRight(s')
  {
    hide Wake, Register, Polled, Deliver, Full;
  }

  lemma MoveDrainKept(s: Sys, n: nat, k': Socket, s': Sys)
    requires DrainRight(s) && StackNext(s, n, k', s') && Moving(s.stack)
    ensures DrainRight(s')
  {
    hide Wake, CanRecv, CanSend, MayRecv, MaySend, SocketMovesOn, Full, Receive;
  }

  lemma FlagDrainKept(s: Sys, n: nat, k': Socket, s': Sys)
    requires DrainRight(s) && StackNext(s, n, k', s') && !Moving(s.stack)
    ensures DrainRight(s')
  {
    hide Wake, CanRecv, CanSend, MayRecv, MaySend, SocketMovesOn, Full, Receive;
  }

  // ---- Wakeups ----

  /** The pass is on its way to wake the reader. */
  predicate WillWakeReader(k: Stack) {
    k == Receiving(true) || k.WakeRead? || k.WakeReadClosed? || k.SetWriteClosed? || k.WakeRemovedRead?
  }

  predicate WillWakeWriter(k: Stack) {
    k == Sending(true) || k.WakeWrite?
  }

  predicate Reading(p: Poll) {
    p.ReadTest? || p.ReadRegister? || p.ReadRetest? || p.ReadFlagSocket? || p.ReadFlagClosed? || p.ReadTake?
  }

  predicate Writing(p: Poll) {
    p.WriteFlagClosed? || p.WriteFlagShutdown? || MayAccept(p)
  }

  /** A sleeping reader has nothing to see, or the pass in progress will wake it. */
  predicate ReaderRight(s: Sys) {
    && (Reading(s.poll) || s.poll.DropSocket? || Dropping(s.poll) ==> !s.reader.asleep)
    && (s.poll.ReadRetest? || s.poll.ReadFlagSocket? || s.poll.ReadFlagClosed? || Waiting(s.reader) ==>
          s.reader.registered || s.reader.notified)
    && (!WillWakeReader(s.stack) && !s.reader.notified ==>
          && (s.poll.ReadFlagSocket? || s.poll.ReadFlagClosed? || s.reader.asleep ==> s.inbound.buf == [])
          && (s.poll.ReadFlagClosed? || s.reader.asleep ==> !s.flags.socketClosed)
          && (s.reader.asleep ==> !s.flags.readClosed))
  }

  lemma ReadReaderKept(s: Sys, step: AppStep, s': Sys)
    requires ReaderRight(s) && AppNext(s, step, s') && OfRead(s, step)
    ensures ReaderRight(s')
  {
    hide Accept, Full;
  }

  lemma OtherReaderKept(s: Sys, step: AppStep, s': Sys)
    requires ReaderRight(s) && AppNext(s, step, s') && !OfRead(s, step)
    ensures ReaderRight(s')
  {
    hide Accept, Full;
  }

  lemma MoveReaderKept(s: Sys, n: nat, k': Socket, s': Sys)
    requires ReaderRight(s) && StackNext(s, n, k', s') && Moving(s.stack)
    ensures ReaderRight(s')
  {
    hide CanSend, MaySend, MayRecv, SocketMovesOn, Full, Hand;
  }

  lemma FlagReaderKept(s: Sys, n: nat, k': Socket, s': Sys)
    requires ReaderRight(s) && StackNext(s, n, k', s') && !Moving(s.stack)
    ensures ReaderRight(s')
  {
    hide CanSend, MaySend, MayRecv, SocketMovesOn, Full, Hand;
  }

  /** A sleeping writer has no space, or the pass in progress will wake it. */
  predicate WriterRight(s: Sys) {
    && (Writing(s.poll) || s.poll.DropSocket? || Dropping(s.poll) ==> !s.writer.asleep)
    && (s.stack.Flushing? ==> Dropping(s.poll))
    && (s.poll.WriteRetest? || Waiting(s.writer) ==> s.writer.registered || s.writer.notified)
    && (!WillWakeWriter(s.stack) && !s.writer.notified && s.writer.asleep ==> Full(s.outbound.buf, s.capacity))
  }

  lemma ReadWriterKept(s: Sys, step: AppStep, s': Sys)
    requires WriterRight(s) && DrainRight(s) && AppNext(s, step, s') && OfRead(s, step)
    ensures WriterRight(s')
  {
    hide Deliver, DrainRight;
  }

  lemma OtherWriterKept(s: Sys, step: AppStep, s': Sys)
    requires WriterRight(s) && DrainRight(s) && AppNext(s, step, s') && !OfRead(s, step)
    ensures WriterRight(s')
  {
    hide Deliver, DrainRight;
  }

  lemma MoveWriterKept(s: Sys, n: nat, k': Socket, s': Sys)
    requires WriterRight(s) && DrainRight(s) && StackNext(s, n, k', s') && Moving(s.stack)
    ensures WriterRight(s')
  {
    hide CanRecv, MaySend, MayRecv, SocketMovesOn, Receive;
  }

  lemma FlagWriterKept(s: Sys, n: nat, k': Socket, s': Sys)
    requires WriterRight(s) && DrainRight(s) && StackNext(s, n, k', s') && !Moving(s.stack)
    ensures WriterRight(s')
  {
    hide CanRecv, MaySend, MayRecv, SocketMovesOn, Receive;
  }

  predicate WillWakeClosedWriter(k: Stack) {
    k.WakeWriteClosed? || k.WakeRemovedRead? || k.WakeRemovedWrite?
  }

  /** While it polls the writer is awake; while it sleeps unnotified its waker is registered. */
  predicate CloseRight(s: Sys) {
    && (s.poll.DropSocket? || Dropping(s.poll) || Writing(s.poll) || s.poll.ShutdownStore? || s.poll.ShutdownWake? ==>
          !s.writer.asleep)
    && (s.poll.WriteRetest? || Waiting(s.writer) ==> s.writer.registered || s.writer.notified)
    && (s.stack.WakeRemovedRead? || s.stack.WakeRemovedWrite? || s.stack.Removed? ==> s.flags.writeClosed)
  }

  lemma ReadCloseKept(s: Sys, step: AppStep, s': Sys)
    requires CloseRight(s) && AppNext(s, step, s') && OfRead(s, step)
    ensures CloseRight(s')
  {
    hide Deliver, Accept, Full;
  }

  lemma OtherCloseKept(s: Sys, step: AppStep, s': Sys)
    requires CloseRight(s) && AppNext(s, step, s') && !OfRead(s, step)
    ensures CloseRight(s')
  {
    hide Deliver, Accept, Full;
  }

  lemma MoveCloseKept(s: Sys, n: nat, k': Socket, s': Sys)
    requires CloseRight(s) && StackNext(s, n, k', s') && Moving(s.stack)
    ensures CloseRight(s')
  {
    hide CanRecv, CanSend, MaySend, MayRecv, SocketMovesOn, Receive, Hand, Full;
  }

  lemma FlagCloseKept(s: Sys, n: nat, k': Socket, s': Sys)
    requires CloseRight(s) && StackNext(s, n, k', s') && !Moving(s.stack)
    ensures CloseRight(s')
  {
    hide CanRecv, CanSend, MaySend, MayRecv, SocketMovesOn, Receive, Hand, Full;
  }

  // ---- Over whole runs ----

  predicate Inv(s: Sys) {
    BytesRight(s) && DrainRight(s) && ReaderRight(s) && WriterRight(s) && CloseRight(s)
  }

  lemma StepKeeps(s: Sys, step: Step, s': Sys)
    requires Inv(s) && Next(s, step, s')
    ensures Inv(s')
  {
    hide BytesRight, DrainRight, ReaderRight, WriterRight, CloseRight, AppNext, StackNext;
    match step
    case App(a) =>
      AppBytesKept(s, a, s');
      if OfRead(s, a) {
        ReadDrainKept(s, a, s');
        ReadReaderKept(s, a, s');
        ReadWriterKept(s, a, s');
        ReadCloseKept(s, a, s');
      } else {
        OtherDrainKept(s, a, s');
        OtherReaderKept(s, a, s');
        OtherWriterKept(s, a, s');
        OtherCloseKept(s, a, s');
      }
    case OfStack(n, k') =>
      StackBytesKept(s, n, k', s');
      if Moving(s.stack) {
        MoveDrainKept(s, n, k', s');
        MoveReaderKept(s, n, k', s');
        MoveWriterKept(s, n, k', s');
        MoveCloseKept(s, n, k', s');
      } else {
        FlagDrainKept(s, n, k', s');
        FlagReaderKept(s, n, k', s');
        FlagWriterKept(s, n, k', s');
        FlagCloseKept(s, n, k', s');
      }
  }

  lemma {:induction false} RunKeeps(trace: seq<Sys>, steps: seq<Step>, i: nat)
    requires Run(trace, steps) && i < |trace|
    ensures Inv(trace[i])
  {
    if i > 0 {
      hide Inv, Next;
      RunKeeps(trace, steps, i - 1);
      StepKeeps(trace[i - 1], steps[i - 1], trace[i]);
    }
  }

  /** In both directions the bytes taken out are the first bytes put in, in order. */
  lemma StreamsAreFifo(trace: seq<Sys>, steps: seq<Step>, i: nat)
    requires Run(trace, steps) && i < |trace|
    ensures trace[i].inbound.delivered <= trace[i].inbound.arrived
    ensures trace[i].outbound.handed <= trace[i].outbound.accepted
  {
    hide DrainRight, ReaderRight, WriterRight, CloseRight, Next;
    RunKeeps(trace, steps, i);
  }

  /**
   Drain before FIN: when the socket's send half is closed, on the shutdown path or the drop path, every
   byte ever accepted has been handed to the socket, and no byte is accepted afterwards.
   */
  lemma {:induction false} DrainBeforeFin(trace: seq<Sys>, steps: seq<Step>, i: nat, j: nat)
    requires Run(trace, steps) && i <= j < |trace| && trace[i].closed
    ensures trace[i].outbound.handed == trace[i].outbound.accepted
    ensures trace[j].closed && trace[j].outbound == trace[i].outbound
    decreases j
  {
    hide Next, ReaderRight, WriterRight, CloseRight;
    RunKeeps(trace, steps, i);
    if i < j {
      DrainBeforeFin(trace, steps, i, j - 1);
      RunKeeps(trace, steps, j - 1);
      RunKeeps(trace, steps, j);
      ClosedStays(trace[j - 1], steps[j - 1], trace[j]);
    }
  }

  lemma ClosedStays(s: Sys, step: Step, s': Sys)
    requires DrainRight(s) && DrainRight(s') && s.closed && Next(s, step, s')
    ensures s'.closed && s'.outbound == s.outbound
  {
    hide AppNext, StackNext, DrainRight;
    match step
    case App(a) => AppClosedStays(s, a, s');
    case OfStack(n, k') => StackClosedStays(s, n, k', s');
  }

  lemma AppClosedStays(s: Sys, step: AppStep, s': Sys)
    requires DrainRight(s) && DrainRight(s') && s.closed && AppNext(s, step, s')
    ensures s'.closed && s'.outbound == s.outbound
  {
    hide Wake, Register, Polled, Deliver;
  }

  lemma StackClosedStays(s: Sys, n: nat, k': Socket, s': Sys)
    requires DrainRight(s) && DrainRight(s') && s.closed && StackNext(s, n, k', s')
    ensures s'.closed && s'.outbound == s.outbound
  {
    hide Wake, CanRecv, MayRecv, SocketMovesOn, Receive;
  }

  /**
   No lost wakeup for a reader: while it sleeps unnotified, it has no data and no close flag to see, or
   the pass in progress is on its way to wake it.
   */
  lemma ReaderIsWoken(trace: seq<Sys>, steps: seq<Step>, i: nat)
    requires Run(trace, steps) && i < |trace|
    ensures var s := trace[i];
            Waiting(s.reader) && (s.inbound.buf != [] || s.flags.readClosed || s.flags.socketClosed) ==>
              WillWakeReader(s.stack) && s.reader.registered
  {
    hide BytesRight, DrainRight, WriterRight, CloseRight, Next;
    RunKeeps(trace, steps, i);
  }

  /** Likewise for a writer and free space. */
  lemma WriterIsWoken(trace: seq<Sys>, steps: seq<Step>, i: nat)
    requires Run(trace, steps) && i < |trace|
    ensures var s := trace[i];
            Waiting(s.writer) && !Full(s.outbound.buf, s.capacity) ==> WillWakeWriter(s.stack) && s.writer.registered
  {
    hide BytesRight, DrainRight, ReaderRight, CloseRight, Next;
    RunKeeps(trace, steps, i);
  }

  /** How many more steps of the pass until the wake, at most. */
  function StepsToWake(s: Sys): nat {
    match s.stack
    case Receiving(_) => |s.socket.rx| + 2
    case SetWriteClosed => 2
    case Sending(_) => |s.outbound.buf| + 2
    case _ => 1
  }

  /** And the way is short: every step of the pass wakes the reader or brings the wake nearer. */
  lemma ReaderWakeComes(s: Sys, n: nat, k': Socket, s': Sys)
    requires StackNext(s, n, k', s') && WillWakeReader(s.stack) && s.reader.registered && Waiting(s.reader)
    ensures !Waiting(s'.reader)
            || (WillWakeReader(s'.stack) && s'.reader == s.reader && StepsToWake(s') < StepsToWake(s))
  {
    hide CanSend, MaySend, MayRecv, SocketMovesOn, Full;
  }

  lemma WriterWakeComes(s: Sys, n: nat, k': Socket, s': Sys)
    requires StackNext(s, n, k', s') && WillWakeWriter(s.stack) && s.writer.registered && Waiting(s.writer)
    ensures !Waiting(s'.writer)
            || (WillWakeWriter(s'.stack) && s'.writer == s.writer && StepsToWake(s') < StepsToWake(s))
  {
    hide CanRecv, MaySend, MayRecv, SocketMovesOn, Full;
  }
}
