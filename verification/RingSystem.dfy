/**
 The byte ring under concurrency: one producer inside `enqueue_slice` and one consumer inside
 `dequeue_slice`, each split into its loads, its byte-wise copy and its store, in any interleaving.
 The other side's position may be stale by the time it is used.
 */
module RingSystem {
  import opened Arith
  import opened Bytes

  /** Where the producer stands; `seen` is the read position it loaded. */
  datatype Producer =
    | PIdle
    | PLoaded(data: seq<byte>)
    | PCopying(data: seq<byte>, seen: nat, n: nat, done: nat)

  datatype Consumer =
    | CIdle
    | CLoaded(room: nat)
    | CCopying(seen: nat, n: nat, got: seq<byte>)

  /** The shared ring and both sides. `sent` and `received` record what was published by the stores. */
  datatype Sys = Sys(
    ring: seq<byte>, writePos: nat, readPos: nat, producer: Producer, consumer: Consumer,
    sent: seq<byte>, received: seq<byte>)

  /** Free space as the producer computes it from a loaded read position. */
  function Space(capacity: nat, writePos: nat, readPos: nat): int {
    if readPos <= writePos then capacity - writePos + readPos - 1 else readPos - writePos - 1
  }

  /** Data available as the consumer computes it from a loaded write position. */
  function Available(capacity: nat, writePos: nat, readPos: nat): int {
    if writePos >= readPos then writePos - readPos else capacity - readPos + writePos
  }

  datatype Step =
    | Enqueue(data: seq<byte>)  // load of the producer's own position
    | LoadRead                  // load of the other side's
    | CopyIn
    | StoreWrite
    | Dequeue(room: nat)
    | LoadWrite
    | CopyOut
    | StoreRead

  predicate Next(s: Sys, step: Step, s': Sys)
    requires |s.ring| > 0
  {
    var c := |s.ring|;
    match step
    case Enqueue(data) => s.producer.PIdle? && s' == s.(producer := PLoaded(data))
    case LoadRead =>
      && s.producer.PLoaded?
      && var n := Min(|s.producer.data|, Space(c, s.writePos, s.readPos));
         && n >= 0 // the subtraction does not underflow
         && s' == s.(producer := if n == 0 then PIdle else PCopying(s.producer.data, s.readPos, n, 0))
    case CopyIn =>
      && s.producer.PCopying? && s.producer.done < s.producer.n <= |s.producer.data|
      && s' == s.(ring := s.ring[(s.writePos + s.producer.done) % c := s.producer.data[s.producer.done]],
                  producer := s.producer.(done := s.producer.done + 1))
    case StoreWrite =>
      && s.producer.PCopying? && s.producer.done == s.producer.n <= |s.producer.data|
      && s' == s.(writePos := (s.writePos + s.producer.n) % c, producer := PIdle,
                  sent := s.sent + s.producer.data[..s.producer.n])
    case Dequeue(room) => s.consumer.CIdle? && s' == s.(consumer := CLoaded(room))
    case LoadWrite =>
      && s.consumer.CLoaded?
      && var n := Min(s.consumer.room, Available(c, s.writePos, s.readPos));
         && n >= 0
         && s' == s.(consumer := if n == 0 then CIdle else CCopying(s.writePos, n, []))
    case CopyOut =>
      && s.consumer.CCopying? && |s.consumer.got| < s.consumer.n
      && s' == s.(consumer := s.consumer.(got := s.consumer.got + [s.ring[(s.readPos + |s.consumer.got|) % c]]))
    case StoreRead =>
      && s.consumer.CCopying? && |s.consumer.got| == s.consumer.n
      && s' == s.(readPos := (s.readPos + s.consumer.n) % c, consumer := CIdle,
                  received := s.received + s.consumer.got)
  }

  predicate Init(s: Sys) {
    && |s.ring| > 0 && s.writePos == 0 == s.readPos && s.producer == PIdle && s.consumer == CIdle
    && s.sent == [] == s.received
  }

  ghost predicate Run(trace: seq<Sys>, steps: seq<Step>) {
    && |trace| == |steps| + 1 && Init(trace[0])
    && forall i | 0 <= i < |steps| :: |trace[i].ring| > 0 && Next(trace[i], steps[i], trace[i + 1])
  }

  // ---- Invariant ----

  /** Positions are the counts of bytes sent and received, modulo the capacity. */
  predicate PositionsRight(s: Sys) {
    var c := |s.ring|;
    && c > 0 && s.writePos == |s.sent| % c && s.readPos == |s.received| % c
    && |s.received| <= |s.sent| < |s.received| + c
  }

  /** Everything between the positions is there. */
  predicate HeldRight(s: Sys) {
    && |s.ring| > 0
    && forall k | |s.received| <= k < |s.sent| :: s.ring[k % |s.ring|] == s.sent[k]
  }

  /** What the producer writes fits behind what is held, even by the stale read position. */
  predicate ProducerRight(s: Sys) {
    match s.producer
    case PCopying(data, _, n, done) =>
      && |s.ring| > 0 && done <= n <= |data| && |s.sent| + n < |s.received| + |s.ring|
      && forall k | 0 <= k < done :: s.ring[(|s.sent| + k) % |s.ring|] == data[k]
    case _ => true
  }

  predicate ConsumerRight(s: Sys) {
    match s.consumer
    case CCopying(_, n, got) =>
      && |got| <= n && |s.received| + n <= |s.sent|
      && got == s.sent[|s.received|..|s.received| + |got|]
    case _ => true
  }

  /** The bytes received are the first bytes sent. */
  predicate Fifo(s: Sys) {
    |s.received| <= |s.sent| && s.received == s.sent[..|s.received|]
  }

  predicate Inv(s: Sys) {
    PositionsRight(s) && HeldRight(s) && ProducerRight(s) && ConsumerRight(s) && Fifo(s)
  }

  // ---- Arithmetic of the positions ----

  /** The space computed from loaded positions is the true one at the time of the load. */
  lemma SpaceRight(sent: nat, received: nat, c: nat)
    requires received <= sent < received + c
    ensures Space(c, sent % c, received % c) == received + c - 1 - sent
    ensures Available(c, sent % c, received % c) == sent - received
  {
    RingDistance(received, sent, c);
  }

  /** Slots less than a round apart are different slots. */
  lemma DifferentSlots(x: nat, y: nat, c: nat)
    requires x < y < x + c
    ensures x % c != y % c
  {
    if x % c == y % c {
      SameResidue(x, y, c);
    }
  }

  // ---- Steps ----

  lemma LoadReadKeeps(s: Sys, s': Sys)
    requires Inv(s) && Next(s, LoadRead, s')
    ensures Inv(s')
  {
    SpaceRight(|s.sent|, |s.received|, |s.ring|);
  }

  lemma LoadWriteKeeps(s: Sys, s': Sys)
    requires Inv(s) && Next(s, LoadWrite, s')
    ensures Inv(s')
  {
    SpaceRight(|s.sent|, |s.received|, |s.ring|);
  }

  /** A byte copied in lands outside everything held and everything copied so far. */
  lemma CopyInKeeps(s: Sys, s': Sys)
    requires Inv(s) && Next(s, CopyIn, s')
    ensures Inv(s')
  {
    var (c, w, done) := (|s.ring|, |s.sent|, s.producer.done);
    ModAdd(w, done, c);
    forall k | |s.received| <= k < w ensures s'.ring[k % c] == s.sent[k] {
      DifferentSlots(k, w + done, c);
    }
    forall k | 0 <= k < done ensures s'.ring[(w + k) % c] == s.producer.data[k] {
      DifferentSlots(w + k, w + done, c);
    }
  }

  lemma StoreWriteKeeps(s: Sys, s': Sys)
    requires Inv(s) && Next(s, StoreWrite, s')
    ensures Inv(s')
  {
    ModAdd(|s.sent|, s.producer.n, |s.ring|);
    forall k | |s'.received| <= k < |s'.sent| ensures s'.ring[k % |s.ring|] == s'.sent[k] {
      if k >= |s.sent| {
        assert k == |s.sent| + (k - |s.sent|);
      }
    }
  }

  lemma CopyOutKeeps(s: Sys, s': Sys)
    requires Inv(s) && Next(s, CopyOut, s')
    ensures Inv(s')
  {
    ModAdd(|s.received|, |s.consumer.got|, |s.ring|);
  }

  lemma StoreReadKeeps(s: Sys, s': Sys)
    requires Inv(s) && Next(s, StoreRead, s')
    ensures Inv(s')
  {
    ModAdd(|s.received|, s.consumer.n, |s.ring|);
    var n := |s.received| + s.consumer.n;
    assert s.sent[..n] == s.sent[..|s.received|] + s.sent[|s.received|..n];
  }

  lemma StepKeeps(s: Sys, step: Step, s': Sys)
    requires Inv(s) && Next(s, step, s')
    ensures Inv(s') && |s'.ring| == |s.ring|
  {
    match step
    case Enqueue(_) =>
    case LoadRead => LoadReadKeeps(s, s');
    case CopyIn => CopyInKeeps(s, s');
    case StoreWrite => StoreWriteKeeps(s, s');
    case Dequeue(_) =>
    case LoadWrite => LoadWriteKeeps(s, s');
    case CopyOut => CopyOutKeeps(s, s');
    case StoreRead => StoreReadKeeps(s, s');
  }

  // ---- Over whole runs ----

  lemma {:induction false} RunKeeps(trace: seq<Sys>, steps: seq<Step>, i: nat)
    requires Run(trace, steps) && i < |trace|
    ensures Inv(trace[i]) && |trace[i].ring| == |trace[0].ring|
  {
    hide Inv, Next;
    if i == 0 {
      InitInv(trace[0]);
    } else {
      RunKeeps(trace, steps, i - 1);
      StepKeeps(trace[i - 1], steps[i - 1], trace[i]);
    }
  }

  lemma InitInv(s: Sys)
    requires Init(s)
    ensures Inv(s)
  {
    DivUnique(0, |s.ring|, 0, 0);
  }

  /** The slot k places on from a position. */
  function Slot(pos: nat, k: nat, c: nat): nat
    requires c > 0
  {
    (pos + k) % c
  }

  /** No slot is among those being written and those being read. */
  predicate RegionsApart(s: Sys) {
    s.producer.PCopying? && s.consumer.CCopying? && |s.ring| > 0 ==>
      forall j, k | 0 <= j < s.producer.n && 0 <= k < s.consumer.n ::
        Slot(s.writePos, j, |s.ring|) != Slot(s.readPos, k, |s.ring|)
  }

  lemma InvRegionsApart(s: Sys)
    requires Inv(s)
    ensures RegionsApart(s)
  {
    if s.producer.PCopying? && s.consumer.CCopying? {
      var c := |s.ring|;
      var (w, r) := (|s.sent|, |s.received|);
      forall j, k | 0 <= j < s.producer.n && 0 <= k < s.consumer.n
        ensures Slot(s.writePos, j, c) != Slot(s.readPos, k, c)
      {
        ModAdd(w, j, c);
        ModAdd(r, k, c);
        DifferentSlots(r + k, w + j, c);
      }
    }
  }

  /**
   In every interleaving: the bytes received are the first bytes sent, at most capacity - 1 are held,
   and no slot is read and written at the same time.
   */
  lemma RingIsFifo(trace: seq<Sys>, steps: seq<Step>, i: nat)
    requires Run(trace, steps) && i < |trace|
    ensures var s := trace[i];
            && s.received <= s.sent
            && |s.sent| - |s.received| <= |trace[0].ring| - 1
            && RegionsApart(s)
  {
    hide HeldRight, ProducerRight, ConsumerRight, RegionsApart, Next;
    RunKeeps(trace, steps, i);
    InvRegionsApart(trace[i]);
  }

  /** What an unbounded queue would hold. */
  function Queue(s: Sys): seq<byte>
    requires |s.received| <= |s.sent|
  {
    s.sent[|s.received|..]
  }

  /** Each step is a step of an unbounded queue: an append, a removal from the front, or nothing. */
  lemma StepIsQueueStep(s: Sys, step: Step, s': Sys)
    requires Inv(s) && Next(s, step, s')
    ensures |s'.received| <= |s'.sent|
    ensures match step
            case StoreWrite =>
              s.producer.PCopying? && s.producer.n <= |s.producer.data|
              && Queue(s') == Queue(s) + s.producer.data[..s.producer.n]
            case StoreRead =>
              s.consumer.CCopying? && |s.consumer.got| <= |Queue(s)|
              && s.consumer.got == Queue(s)[..|s.consumer.got|] && Queue(s') == Queue(s)[|s.consumer.got|..]
            case _ => Queue(s') == Queue(s)
  {
    StepKeeps(s, step, s');
  }

  /** The computed sizes never underflow, so a loaded side can always go on. */
  lemma LoadsGoOn(s: Sys)
    requires Inv(s)
    ensures 0 <= Space(|s.ring|, s.writePos, s.readPos) < |s.ring|
    ensures 0 <= Available(|s.ring|, s.writePos, s.readPos) < |s.ring|
  {
    SpaceRight(|s.sent|, |s.received|, |s.ring|);
  }

  /** `is_empty` and `is_full` are exact at the moment of their loads. */
  lemma EmptyAndFull(s: Sys)
    requires Inv(s)
    ensures s.readPos == s.writePos <==> Queue(s) == []
    ensures (s.writePos + 1) % |s.ring| == s.readPos <==> |Queue(s)| == |s.ring| - 1
  {
    var (c, w, r) := (|s.ring|, |s.sent|, |s.received|);
    ModAdd(w, 1, c);
    if s.readPos == s.writePos {
      SameResidue(r, w, c);
    }
    if (w + 1) % c == s.readPos && w + 1 < r + c {
      if w + 1 > r {
        DifferentSlots(r, w + 1, c);
      }
    } else if w + 1 == r + c {
      ModAdd(r, c, c);
      DivUnique(r % c + c, c, 1, r % c);
    }
  }

  /** An answer stays good until the side that asked acts: data does not vanish, nor does space. */
  lemma AnswersStay(s: Sys, step: Step, s': Sys)
    requires Inv(s) && Next(s, step, s')
    ensures !step.StoreRead? ==> |s'.received| <= |s'.sent| && |Queue(s')| >= |Queue(s)|
    ensures !step.StoreWrite? ==> |s'.received| <= |s'.sent| && |Queue(s')| <= |Queue(s)|
  {
    StepIsQueueStep(s, step, s');
  }

  // ---- Whole calls ----

  /** The size a call settles on is the one the queue leaves, at the moment it loads the other side's position. */
  lemma LoadsAreExact(s: Sys, step: Step, s': Sys)
    requires Inv(s) && Next(s, step, s')
    ensures step.LoadRead? ==>
              var n := Min(|s.producer.data|, |s.ring| - 1 - |Queue(s)|);
              s' == s.(producer := if n == 0 then PIdle else PCopying(s.producer.data, s.readPos, n, 0))
    ensures step.LoadWrite? ==>
              var n := Min(s.consumer.room, |Queue(s)|);
              s' == s.(consumer := if n == 0 then CIdle else CCopying(s.writePos, n, []))
  {
    SpaceRight(|s.sent|, |s.received|, |s.ring|);
  }

  predicate ByProducer(step: Step) {
    step.Enqueue? || step.LoadRead? || step.CopyIn? || step.StoreWrite?
  }

  /** The producer's and the consumer's steps until their calls return. */
  function ProducerSteps(p: Producer): int {
    match p
    case PIdle => 0
    case PLoaded(data) => |data| + 2
    case PCopying(_, _, n, done) => n - done + 1
  }

  function ConsumerSteps(k: Consumer): int {
    match k
    case CIdle => 0
    case CLoaded(room) => room + 2
    case CCopying(_, n, got) => n - |got| + 1
  }

  /** The step a side inside a call takes next. */
  function ProducerStep(p: Producer): Step {
    match p
    case PIdle => Enqueue([])
    case PLoaded(_) => LoadRead
    case PCopying(_, _, n, done) => if done < n then CopyIn else StoreWrite
  }

  function ConsumerStep(k: Consumer): Step {
    match k
    case CIdle => Dequeue(0)
    case CLoaded(_) => LoadWrite
    case CCopying(_, n, got) => if |got| < n then CopyOut else StoreRead
  }

  /** Neither side ever waits for the other: a call can take its next step, and only so many. */
  lemma CallsGoOn(s: Sys) returns (p: Sys, k: Sys)
    requires Inv(s)
    ensures Next(s, ProducerStep(s.producer), p) && Next(s, ConsumerStep(s.consumer), k)
    ensures !s.producer.PIdle? ==> 0 <= ProducerSteps(p.producer) < ProducerSteps(s.producer)
    ensures !s.consumer.CIdle? ==> 0 <= ConsumerSteps(k.consumer) < ConsumerSteps(s.consumer)
  {
    p := ProducerGoesOn(s);
    k := ConsumerGoesOn(s);
  }

  /** What a side inside a call needs for its next step. */
  lemma CallFacts(s: Sys)
    requires Inv(s)
    ensures |s.ring| > 0
    ensures Space(|s.ring|, s.writePos, s.readPos) >= 0 && Available(|s.ring|, s.writePos, s.readPos) >= 0
    ensures s.producer.PCopying? ==> s.producer.done <= s.producer.n <= |s.producer.data|
    ensures s.consumer.CCopying? ==> |s.consumer.got| <= s.consumer.n
  {
    SpaceRight(|s.sent|, |s.received|, |s.ring|);
  }

  lemma SlotInside(at: nat, c: nat)
    requires c > 0
    ensures 0 <= at % c < c
  {}

  lemma ProducerGoesOn(s: Sys) returns (p: Sys)
    requires Inv(s)
    ensures Next(s, ProducerStep(s.producer), p)
    ensures !s.producer.PIdle? ==> 0 <= ProducerSteps(p.producer) < ProducerSteps(s.producer)
  {
    hide Inv, Space;
    CallFacts(s);
    var c := |s.ring|;
    match s.producer
    case PIdle => p := s.(producer := PLoaded([]));
    case PLoaded(data) =>
      var n := Min(|data|, Space(c, s.writePos, s.readPos));
      p := s.(producer := if n == 0 then PIdle else PCopying(data, s.readPos, n, 0));
    case PCopying(data, _, n, done) =>
      if done < n {
        SlotInside(s.writePos + done, c);
        p := s.(ring := s.ring[(s.writePos + done) % c := data[done]], producer := s.producer.(done := done + 1));
      } else {
        SlotInside(s.writePos + n, c);
        p := s.(writePos := (s.writePos + n) % c, producer := PIdle, sent := s.sent + data[..n]);
      }
  }

  lemma ConsumerGoesOn(s: Sys) returns (k: Sys)
    requires Inv(s)
    ensures Next(s, ConsumerStep(s.consumer), k)
    ensures !s.consumer.CIdle? ==> 0 <= ConsumerSteps(k.consumer) < ConsumerSteps(s.consumer)
  {
    hide Inv, Available;
    CallFacts(s);
    var c := |s.ring|;
    match s.consumer
    case CIdle => k := s.(consumer := CLoaded(0));
    case CLoaded(room) =>
      var n := Min(room, Available(c, s.writePos, s.readPos));
      k := s.(consumer := if n == 0 then CIdle else CCopying(s.writePos, n, []));
    case CCopying(_, n, got) =>
      if |got| < n {
        SlotInside(s.readPos + |got|, c);
        k := s.(consumer := s.consumer.(got := got + [s.ring[(s.readPos + |got|) % c]]));
      } else {
        SlotInside(s.readPos + n, c);
        k := s.(readPos := (s.readPos + n) % c, consumer := CIdle, received := s.received + got);
      }
  }

  /** While one side takes its steps the other's call stays as it is. */
  lemma SidesApart(s: Sys, step: Step, s': Sys)
    requires |s.ring| > 0 && Next(s, step, s')
    ensures ByProducer(step) ==> s'.consumer == s.consumer && s'.received == s.received
    ensures !ByProducer(step) ==> s'.producer == s.producer && s'.sent == s.sent
  {}

  /** The producer is still copying what it settled on at its load in state `from`. */
  predicate StillWriting(from: Sys, s: Sys)
    requires from.producer.PLoaded? && |from.received| <= |from.sent|
  {
    && s.sent == from.sent && s.producer.PCopying? && s.producer.data == from.producer.data
    && s.producer.n == Min(|from.producer.data|, |from.ring| - 1 - |Queue(from)|)
  }

  predicate StillReading(from: Sys, s: Sys)
    requires from.consumer.CLoaded? && |from.received| <= |from.sent|
  {
    && s.received == from.received && s.consumer.CCopying?
    && s.consumer.n == Min(from.consumer.room, |Queue(from)|)
  }

  /**
   Whatever the consumer does meanwhile, a call of `enqueue_slice` does what it would do alone at the moment of
   its load: it adds as much of the data as there is space for then, all at once with its store.
   */
  lemma {:induction false} EnqueueIsAtomic(trace: seq<Sys>, steps: seq<Step>, i: nat, j: nat)
    requires Run(trace, steps) && i < j <= |steps| && steps[i] == LoadRead
    requires forall m | i < m < j :: !steps[m].StoreWrite?
    ensures trace[i].producer.PLoaded? && |trace[i].received| <= |trace[i].sent|
    ensures var n := Min(|trace[i].producer.data|, |trace[i].ring| - 1 - |Queue(trace[i])|);
            && 0 <= n <= |trace[i].producer.data|
            && (n == 0 ==> trace[i + 1].producer == PIdle && trace[i + 1].sent == trace[i].sent)
            && (n > 0 ==> StillWriting(trace[i], trace[j]))
            && (n > 0 && j < |steps| && steps[j] == StoreWrite ==>
                  && trace[j + 1].sent == trace[i].sent + trace[i].producer.data[..n]
                  && trace[j + 1].producer == PIdle)
    decreases j - i
  {
    hide HeldRight, ProducerRight, ConsumerRight;
    RunKeeps(trace, steps, i);
    assert Next(trace[i], steps[i], trace[i + 1]);
    LoadsAreExact(trace[i], steps[i], trace[i + 1]);
    if j > i + 1 {
      EnqueueIsAtomic(trace, steps, i, j - 1);
      assert Next(trace[j - 1], steps[j - 1], trace[j]);
      SidesApart(trace[j - 1], steps[j - 1], trace[j]);
    }
    if j < |steps| {
      assert Next(trace[j], steps[j], trace[j + 1]);
    }
  }

  /** Likewise `dequeue_slice`: it takes the oldest bytes there are at its load, as many as there is room for. */
  lemma {:induction false} DequeueIsAtomic(trace: seq<Sys>, steps: seq<Step>, i: nat, j: nat)
    requires Run(trace, steps) && i < j <= |steps| && steps[i] == LoadWrite
    requires forall m | i < m < j :: !steps[m].StoreRead?
    ensures trace[i].consumer.CLoaded? && |trace[i].received| <= |trace[i].sent|
    ensures var n := Min(trace[i].consumer.room, |Queue(trace[i])|);
            && 0 <= n <= |Queue(trace[i])|
            && (n == 0 ==> trace[i + 1].consumer == CIdle && trace[i + 1].received == trace[i].received)
            && (n > 0 ==> StillReading(trace[i], trace[j]))
            && (n > 0 && j < |steps| && steps[j] == StoreRead ==>
                  && trace[j + 1].received == trace[i].received + Queue(trace[i])[..n]
                  && trace[j + 1].consumer == CIdle)
    decreases j - i
  {
    hide HeldRight, ProducerRight, ConsumerRight;
    RunKeeps(trace, steps, i);
    assert Next(trace[i], steps[i], trace[i + 1]);
    LoadsAreExact(trace[i], steps[i], trace[i + 1]);
    if j > i + 1 {
      DequeueIsAtomic(trace, steps, i, j - 1);
      assert Next(trace[j - 1], steps[j - 1], trace[j]);
      SidesApart(trace[j - 1], steps[j - 1], trace[j]);
    }
    if j < |steps| && trace[i].consumer.room > 0 && Queue(trace[i]) != [] && steps[j] == StoreRead {
      TakenIsOldest(trace, steps, i, j);
    }
  }

  /** What was sent stays sent, so the oldest bytes at a load are what the copy gets. */
  lemma TakenIsOldest(trace: seq<Sys>, steps: seq<Step>, i: nat, j: nat)
    requires Run(trace, steps) && i < j < |steps| && steps[j] == StoreRead
    requires trace[i].consumer.CLoaded? && |trace[i].received| <= |trace[i].sent| && StillReading(trace[i], trace[j])
    ensures var n := Min(trace[i].consumer.room, |Queue(trace[i])|);
            && trace[j + 1].consumer == CIdle
            && trace[j + 1].received == trace[i].received + Queue(trace[i])[..n]
  {
    RunKeeps(trace, steps, j);
    SentGrows(trace, steps, i, j);
    assert Next(trace[j], steps[j], trace[j + 1]);
    OldestOf(trace[i], trace[j]);
    hide Inv, Run, HeldRight, ProducerRight, ConsumerRight;
  }

  lemma OldestOf(from: Sys, s: Sys)
    requires Inv(s) && from.consumer.CLoaded? && |from.received| <= |from.sent| && StillReading(from, s)
    requires from.sent <= s.sent && |s.consumer.got| == s.consumer.n
    ensures s.consumer.got == Queue(from)[..s.consumer.n]
  {}

  lemma {:induction false} SentGrows(trace: seq<Sys>, steps: seq<Step>, i: nat, j: nat)
    requires Run(trace, steps) && i <= j <= |steps|
    ensures trace[i].sent <= trace[j].sent
    decreases j - i
  {
    if i < j {
      SentGrows(trace, steps, i, j - 1);
      assert Next(trace[j - 1], steps[j - 1], trace[j]);
    }
  }
}
