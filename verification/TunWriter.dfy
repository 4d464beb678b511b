/** The framing writer: every packet behind ten zero octets, across partial writes, Pending and errors. */
module TunWriter {
  import opened Bytes
  import opened VirtioNet

  datatype Poll<+T> = Pending | Ready(value: T)

  datatype IoError = IoError(code: int)

  type WriteResult = Poll<Result<nat, IoError>>

  /** The three ways a flush can end. */
  datatype Flush = Flushed | FlushFailed(e: IoError) | FlushPending

  /** What the device answers to one write: it takes at least one octet, fails, or is not ready. */
  datatype Answer = Takes(n: nat) | Fails(e: IoError) | NotReady

  /** The device behind the writer. Its answers are not the writer's choice; when they run out it is not ready. */
  class Device {
    var stream: seq<byte>
    var answers: seq<Answer>

    ghost predicate Valid()
      reads this
    {
      forall k | 0 <= k < |answers| :: answers[k].Takes? ==> answers[k].n > 0
    }

    constructor (answers: seq<Answer>)
      requires forall k | 0 <= k < |answers| :: answers[k].Takes? ==> answers[k].n > 0
      ensures Valid() && stream == []
    {
      stream, this.answers := [], answers;
    }

    method PollWrite(data: seq<byte>) returns (r: WriteResult)
      requires Valid() && data != []
      modifies this
      ensures Valid()
      ensures r == NextAnswer(old(answers), |data|) && answers == Later(old(answers))
      ensures match r
              case Ready(Ok(n)) => 0 < n <= |data| && stream == old(stream) + data[..n]
              case _ => stream == old(stream)
    {
      if answers == [] {
        return Pending;
      }
      var answer := answers[0];
      answers := answers[1..];
      match answer {
        case Takes(n) =>
          var k := Min(n, |data|);
          stream := stream + data[..k];
          r := Ready(Ok(k));
        case Fails(e) => r := Ready(Err(e));
        case NotReady => r := Pending;
      }
    }
  }

  /** What one write of `length` octets gets. */
  function NextAnswer(answers: seq<Answer>, length: nat): WriteResult {
    if answers == [] then Pending
    else
      match answers[0]
      case Takes(n) => Ready(Ok(Min(n, length)))
      case Fails(e) => Ready(Err(e))
      case NotReady => Pending
  }

  function Later(answers: seq<Answer>): seq<Answer> {
    if answers == [] then [] else answers[1..]
  }

  /** How writing `length` octets ends when it goes on until they are out, the device is not ready, or it fails. */
  datatype Fed = Fed(end: Flush, written: nat, rest: seq<Answer>)

  function Feed(answers: seq<Answer>, length: nat): (f: Fed)
    ensures f.written <= length && (f.end == Flushed <==> f.written == length)
    decreases |answers|
  {
    if length == 0 then Fed(Flushed, 0, answers)
    else
      match NextAnswer(answers, length)
      case Pending => Fed(FlushPending, 0, Later(answers))
      case Ready(Err(e)) => Fed(FlushFailed(e), 0, Later(answers))
      case Ready(Ok(n)) =>
        var more := Feed(Later(answers), length - n);
        more.(written := n + more.written)
  }

  /** The octets that the device takes in its first k answers. */
  function Taken(answers: seq<Answer>, k: nat): nat
    requires k <= |answers| && forall i | 0 <= i < k :: answers[i].Takes?
  {
    if k == 0 then 0 else Taken(answers, k - 1) + answers[k - 1].n
  }

  /** Everything gets out exactly when the device takes as much before it first fails or is not ready. */
  lemma {:induction false} FlushedIff(answers: seq<Answer>, length: nat)
    ensures Feed(answers, length).end == Flushed <==>
              exists k: nat :: TakesAll(answers, k) && Taken(answers, k) >= length
    decreases |answers|
  {
    if length == 0 {
      assert TakesAll(answers, 0) && Taken(answers, 0) >= 0;
    } else if answers != [] && answers[0].Takes? {
      var n := Min(answers[0].n, length);
      FlushedIff(answers[1..], length - n);
      if k: nat :| TakesAll(answers[1..], k) && Taken(answers[1..], k) >= length - n {
        TakenFirst(answers, k + 1);
        assert TakesAll(answers, k + 1) && Taken(answers, k + 1) >= length;
      }
      if k: nat :| TakesAll(answers, k) && Taken(answers, k) >= length {
        assert k > 0;
        TakenFirst(answers, k);
        assert TakesAll(answers[1..], k - 1) && Taken(answers[1..], k - 1) >= length - n;
      }
    } else {
      forall k: nat | TakesAll(answers, k) ensures Taken(answers, k) < length {
        TakesNothing(answers, k);
      }
    }
  }

  lemma TakesNothing(answers: seq<Answer>, k: nat)
    requires TakesAll(answers, k) && (answers == [] || !answers[0].Takes?)
    ensures k == 0
  {}

  /** Writing `length` octets has come to `at` of them, with these answers left. */
  ghost predicate Sofar(all: seq<Answer>, length: nat, at: nat, answers: seq<Answer>) {
    at <= length
    && Feed(all, length) == (var more := Feed(answers, length - at); more.(written := at + more.written))
  }

  lemma SofarNothing(all: seq<Answer>, length: nat)
    ensures Sofar(all, length, 0, all)
  {}

  lemma SofarMore(all: seq<Answer>, length: nat, at: nat, answers: seq<Answer>, n: nat)
    requires Sofar(all, length, at, answers) && at < length
    requires NextAnswer(answers, length - at) == Ready(Ok(n)) && at + n <= length
    ensures Sofar(all, length, at + n, Later(answers))
  {}

  lemma SofarStops(all: seq<Answer>, length: nat, at: nat, answers: seq<Answer>)
    requires Sofar(all, length, at, answers) && at < length
    ensures match NextAnswer(answers, length - at)
            case Pending => Feed(all, length) == Fed(FlushPending, at, Later(answers))
            case Ready(Err(e)) => Feed(all, length) == Fed(FlushFailed(e), at, Later(answers))
            case Ready(Ok(n)) => true
  {}

  lemma SofarAll(all: seq<Answer>, length: nat, answers: seq<Answer>)
    requires Sofar(all, length, length, answers)
    ensures Feed(all, length) == Fed(Flushed, length, answers)
  {}

  predicate TakesAll(answers: seq<Answer>, k: nat) {
    k <= |answers| && forall i | 0 <= i < k :: answers[i].Takes?
  }

  lemma {:induction false} TakenFirst(answers: seq<Answer>, k: nat)
    requires 0 < k && TakesAll(answers, k)
    ensures TakesAll(answers[1..], k - 1) && Taken(answers, k) == answers[0].n + Taken(answers[1..], k - 1)
    decreases k
  {
    if k > 1 {
      TakenFirst(answers, k - 1);
    }
  }

  function Frame(packet: Packet): seq<byte> {
    Zeros(HDR_LEN) + packet
  }

  function Frames(packets: seq<Packet>): seq<byte> {
    if packets == [] then [] else Frames(packets[..|packets| - 1]) + Frame(packets[|packets| - 1])
  }

  lemma FramesMore(packets: seq<Packet>, p: Packet)
    ensures Frames(packets + [p]) == Frames(packets) + Frame(p)
  {
    assert (packets + [p])[..|packets|] == packets;
  }

  /** The writer as its callers can account for it: the staged packet and the complete frames. */
  datatype Book = Book(staged: Option<Packet>, complete: seq<Packet>)

  /** The frames one call completes before it comes to its own packet. */
  function Earlier(b: Book, data: Packet): seq<Packet> {
    if b.staged.Some? && b.staged.value != data then [b.staged.value] else []
  }

  /** Octets written behind others of the same buffer. */
  lemma WrittenOn(before: seq<byte>, buf: seq<byte>, start: nat, at: nat, n: nat)
    requires start <= at && at + n <= |buf|
    ensures before + buf[start..at] + buf[at..][..n] == before + buf[start..at + n]
  {
    assert buf[start..at] + buf[at..][..n] == buf[start..at + n];
  }

  /** What one `poll_write` may do to the book. */
  predicate Call(b: Book, data: Packet, r: WriteResult, b': Book) {
    match r
    case Ready(Ok(n)) =>
      n == |data| && b' == Book(None, b.complete + Earlier(b, data) + if data == [] then [] else [data])
    case _ =>
      || (b.staged.Some? && b' == b)
      || (data != [] && b' == Book(Some(data), b.complete + Earlier(b, data)))
  }

  /** The staged frame was for the same octets. */
  lemma CallSame(b: Book, data: Packet, b': Book)
    requires b.staged == Some(data) && data != [] && b' == Book(None, b.complete + [data])
    ensures Call(b, data, Ready(Ok(|data|)), b')
  {
    assert b.complete + [] + [data] == b.complete + [data];
  }

  lemma CallEmpty(b: Book, b': Book)
    requires b' == Book(None, b.complete + Earlier(b, []))
    ensures Call(b, [], Ready(Ok(0)), b')
  {
    assert b.complete + Earlier(b, []) + [] == b.complete + Earlier(b, []);
  }

  function AnswerOf(end: Flush, length: nat): WriteResult {
    match end
    case Flushed => Ready(Ok(length))
    case FlushFailed(e) => Ready(Err(e))
    case FlushPending => Pending
  }

  /**
   What `poll_write` answers: first whatever is left of a staged frame has to get out; if that was the frame of
   this packet, or there is no packet, that is all; otherwise its own frame, of ten octets more, has to.
   */
  function Outcome(staged: Option<Packet>, left: nat, data: Packet, answers: seq<Answer>): WriteResult {
    var first := if staged.Some? then Feed(answers, left) else Fed(Flushed, 0, answers);
    if first.end != Flushed then AnswerOf(first.end, 0)
    else if staged == Some(data) || data == [] then Ready(Ok(|data|))
    else AnswerOf(Feed(first.rest, 10 + |data|).end, |data|)
  }

  class LinuxTunWriter {
    const device: Device
    const vnetHdr: bool
    var writeBuf: seq<byte>
    var writePos: nat
    var writeTotal: nat
    /** The packets whose frames are complete on the device. */
    ghost var complete: seq<Packet>

    /** The stream is complete frames and a proper prefix of the staged one. */
    ghost predicate Valid()
      reads this, device
    {
      && device.Valid()
      && (vnetHdr ==>
            && device.stream == Frames(complete) + writeBuf[..Min(writePos, |writeBuf|)]
            && if writeBuf == [] then writePos == 0 == writeTotal
               else writePos < |writeBuf| && |writeBuf| > HDR_LEN && writeBuf == Frame(writeBuf[HDR_LEN..])
                    && writeTotal == |writeBuf| - HDR_LEN)
    }

    /** The packet that is staged and not yet completely written. */
    ghost function Staged(): Option<Packet>
      reads this
    {
      if |writeBuf| <= HDR_LEN then None else Some(writeBuf[HDR_LEN..])
    }

    ghost function Account(): Book
      reads this
    {
      Book(Staged(), complete)
    }

    constructor (device: Device, vnetHdr: bool)
      requires device.Valid() && device.stream == []
      ensures Valid() && this.device == device && this.vnetHdr == vnetHdr
      ensures Account() == Book(None, [])
    {
      this.device, this.vnetHdr := device, vnetHdr;
      writeBuf, writePos, writeTotal := [], 0, 0;
      complete := [];
    }

    /** `flush_staged`: writes until everything is out, the device is not ready, or it fails. */
    method FlushStaged() returns (r: Flush)
      requires device.Valid() && writePos <= |writeBuf|
      modifies this`writePos, device
      ensures device.Valid() && old(writePos) <= writePos <= |writeBuf|
      ensures device.stream == old(device.stream) + writeBuf[old(writePos)..writePos]
      ensures Fed(r, writePos - old(writePos), device.answers)
           == Feed(old(device.answers), |writeBuf| - old(writePos))
      ensures r == Flushed <==> writePos == |writeBuf|
    {
      hide Feed, Sofar, NextAnswer, Later;
      ghost var (start, before, answers) := (writePos, device.stream, device.answers);
      ghost var length := |writeBuf| - start;
      SofarNothing(answers, length);
      assert writeBuf[start..start] == [] && before + [] == before;
      while writePos < |writeBuf|
        invariant device.Valid() && start <= writePos <= |writeBuf|
        invariant device.stream == before + writeBuf[start..writePos]
        invariant Sofar(answers, length, writePos - start, device.answers)
        decreases |writeBuf| - writePos
      {
        SofarStops(answers, length, writePos - start, device.answers);
        ghost var (at, was) := (writePos, device.answers);
        var polled := device.PollWrite(writeBuf[writePos..]);
        match polled {
          case Ready(Ok(n)) =>
            WrittenOn(before, writeBuf, start, at, n);
            SofarMore(answers, length, at - start, was, n);
            writePos := writePos + n;
          case Ready(Err(e)) => return FlushFailed(e);
          case Pending => return FlushPending;
        }
      }
      SofarAll(answers, length, device.answers);
      r := Flushed;
    }

    /** Stages a packet behind its zero header. */
    method Stage(data: Packet)
      requires vnetHdr && Valid() && writeBuf == [] && data != []
      modifies this`writeBuf, this`writePos, this`writeTotal
      ensures Valid() && Staged() == Some(data) && writeBuf == Frame(data) && writePos == 0
    {
      writeBuf := Zeros(HDR_LEN);
      writeBuf := writeBuf + data;
      writePos := 0;
      writeTotal := |data|;
      assert writeBuf[HDR_LEN..] == data;
    }

    /** Tries to write out what is staged and, when that succeeds, forgets it. */
    method Drain() returns (r: Flush, total: nat)
      requires vnetHdr && Valid() && writeBuf != []
      modifies this`writeBuf, this`writePos, this`writeTotal, this`complete, device
      ensures Valid()
      ensures r == Feed(old(device.answers), |old(writeBuf)| - old(writePos)).end
      ensures device.answers == Feed(old(device.answers), |old(writeBuf)| - old(writePos)).rest
      ensures if r == Flushed then
                writeBuf == [] && complete == old(complete) + [old(Staged()).value] && total == old(writeTotal)
              else writeBuf == old(writeBuf) && complete == old(complete)
    {
      hide Frames, Frame, Feed;
      ghost var (packet, was, at) := (writeBuf[HDR_LEN..], complete, writePos);
      assert device.stream == Frames(was) + writeBuf[..at];
      r := FlushStaged();
      total := writeTotal;
      WrittenOn(Frames(was), writeBuf, 0, at, writePos - at);
      assert writeBuf[at..][..writePos - at] == writeBuf[at..writePos];
      if r == Flushed {
        assert writeBuf[..writePos] == Frame(packet);
        FramesMore(was, packet);
        complete := complete + [packet];
        writeBuf := [];
        writePos := 0;
        writeTotal := 0;
        assert device.stream == Frames(complete) + [];
      }
    }

    /** How many octets of the staged frame are still to be written. */
    ghost function StillStaged(): nat
      reads this
    {
      if writePos <= |writeBuf| then |writeBuf| - writePos else 0
    }

    /**
     `poll_write`. A non-empty Ok answers for exactly one frame of its packet, either written now or
     staged by an earlier call for the same octets; any other packet left staged is completed first.
     The answer is the one the device's answers lead to.
     */
    method PollWrite(data: Packet) returns (r: WriteResult)
      requires vnetHdr && Valid()
      modifies this, device
      ensures Valid()
      ensures Call(old(Account()), data, r, Account())
      ensures r == Outcome(old(Staged()), old(StillStaged()), data, old(device.answers))
    {
      hide Frames, Frame, Feed;
      ghost var was := Account();
      StagedFacts();
      if writePos < |writeBuf| {
        var same := writeTotal == |data| && |writeBuf| >= HDR_LEN && data == writeBuf[HDR_LEN..];
        var flushed, total := Drain();
        match flushed {
          case Flushed =>
            assert Account() == Book(None, was.complete + [was.staged.value]);
            if same {
              CallSame(was, data, Account());
              return Ready(Ok(total));
            }
          case FlushFailed(e) => return Ready(Err(e));
          case FlushPending => return Pending;
        }
      }
      assert Account() == Book(None, was.complete + Earlier(was, data)) by {
        assert was.complete + [] == was.complete;
      }
      if data == [] {
        CallEmpty(was, Account());
        return Ready(Ok(0));
      }
      Stage(data);
      var flushed, total := Drain();
      assert was.complete + Earlier(was, data) + [data] == was.complete + (Earlier(was, data) + [data]);
      match flushed {
        case Flushed => r := Ready(Ok(total));
        case FlushFailed(e) => r := Ready(Err(e));
        case FlushPending => r := Pending;
      }
    }

    lemma StagedFacts()
      requires vnetHdr && Valid()
      ensures writePos < |writeBuf| <==> Staged().Some?
      ensures writePos < |writeBuf| <==> writeBuf != []
      ensures Staged().Some? ==> Staged().value == writeBuf[HDR_LEN..] != [] && writeTotal == |Staged().value|
    {}

    /** Without `virtio_net_hdr` the writer passes data through. */
    method PassThrough(data: Packet) returns (r: WriteResult)
      requires !vnetHdr && Valid() && data != []
      modifies device
      ensures Valid()
      ensures r == NextAnswer(old(device.answers), |data|)
      ensures match r
              case Ready(Ok(n)) => 0 < n <= |data| && device.stream == old(device.stream) + data[..n]
              case _ => device.stream == old(device.stream)
    {
      r := device.PollWrite(data);
    }
  }

  // ---- Over whole runs ----

  /** A run of calls from an empty book. */
  ghost predicate Calls(books: seq<Book>, data: seq<Packet>, results: seq<WriteResult>) {
    && |books| == |data| + 1 == |results| + 1 && books[0] == Book(None, [])
    && forall i | 0 <= i < |data| :: Call(books[i], data[i], results[i], books[i + 1])
  }

  /** The packets for which the first n calls answered Ok. */
  function Reported(data: seq<Packet>, results: seq<WriteResult>, n: nat): seq<Packet>
    requires n <= |data| == |results|
  {
    if n == 0 then []
    else
      Reported(data, results, n - 1)
      + if results[n - 1].Ready? && results[n - 1].value.Ok? && data[n - 1] != [] then [data[n - 1]] else []
  }

  /** a can be had from b by leaving elements out. */
  predicate IsSubsequence(a: seq<Packet>, b: seq<Packet>)
    decreases |b|
  {
    || a == []
    || (b != []
        && (IsSubsequence(a, b[..|b| - 1])
            || (a[|a| - 1] == b[|b| - 1] && IsSubsequence(a[..|a| - 1], b[..|b| - 1]))))
  }

  lemma SubsequenceMore(a: seq<Packet>, b: seq<Packet>, p: Packet)
    requires IsSubsequence(a, b)
    ensures IsSubsequence(a, b + [p]) && IsSubsequence(a + [p], b + [p])
  {
    assert (b + [p])[..|b|] == b && (a + [p])[..|a|] == a;
  }

  /** The reported packets are among the frames, in order, and every frame is of a given packet. */
  predicate Answered(reported: seq<Packet>, b: Book, given: seq<Packet>) {
    && IsSubsequence(reported, b.complete) && (b.staged.Some? ==> b.staged.value in given)
    && forall p | p in b.complete :: p in given
  }

  lemma EarlierAnswered(reported: seq<Packet>, b: Book, given: seq<Packet>, d: Packet)
    requires Answered(reported, b, given)
    ensures Answered(reported, Book(None, b.complete + Earlier(b, d)), given)
  {
    hide IsSubsequence;
    if Earlier(b, d) == [] {
      assert b.complete + [] == b.complete;
    } else {
      SubsequenceMore(reported, b.complete, b.staged.value);
    }
  }

  /** An Ok reports one more packet, whose frame is the newest. */
  lemma OkAnswered(reported: seq<Packet>, b: Book, given: seq<Packet>, d: Packet, b': Book)
    requires Answered(reported, b, given) && Call(b, d, Ready(Ok(|d|)), b')
    ensures Answered(reported + if d == [] then [] else [d], b', given + [d])
  {
    hide IsSubsequence;
    EarlierAnswered(reported, b, given, d);
    var before := b.complete + Earlier(b, d);
    if d == [] {
      assert reported + [] == reported && before + [] == before;
    } else {
      SubsequenceMore(reported, before, d);
    }
  }

  lemma ElseAnswered(reported: seq<Packet>, b: Book, given: seq<Packet>, d: Packet, r: WriteResult, b': Book)
    requires Answered(reported, b, given) && Call(b, d, r, b') && !(r.Ready? && r.value.Ok?)
    ensures Answered(reported, b', given + [d])
  {
    hide IsSubsequence;
    EarlierAnswered(reported, b, given, d);
  }

  /**
   Each non-empty Ok answers for a frame of its own: the packets reported are among the frames on the
   device in that order, and every frame is a packet that some call was given.
   */
  lemma {:induction false} EachOkIsOneFrame(books: seq<Book>, data: seq<Packet>, results: seq<WriteResult>, n: nat)
    requires Calls(books, data, results) && n <= |data|
    ensures Answered(Reported(data, results, n), books[n], data[..n])
  {
    hide Answered, Call;
    if n == 0 {
      NothingReported();
    } else {
      EachOkIsOneFrame(books, data, results, n - 1);
      var (b, d, r, sofar) := (books[n - 1], data[n - 1], results[n - 1], Reported(data, results, n - 1));
      assert Call(b, d, r, books[n]);
      assert data[..n] == data[..n - 1] + [d];
      if r.Ready? && r.value.Ok? {
        OkIsWhole(b, d, r, books[n]);
        OkAnswered(sofar, b, data[..n - 1], d, books[n]);
      } else {
        assert sofar + [] == sofar;
        ElseAnswered(sofar, b, data[..n - 1], d, r, books[n]);
      }
    }
  }

  lemma OkIsWhole(b: Book, d: Packet, r: WriteResult, b': Book)
    requires Call(b, d, r, b') && r.Ready? && r.value.Ok?
    ensures r == Ready(Ok(|d|))
  {}

  lemma NothingReported()
    ensures Answered([], Book(None, []), [])
  {}
}
