/** The batch half of the writer (`do_batch_write`): headroom, GRO, and the writes that follow. */
module BatchWrite {
  import opened Bytes
  import opened VirtioNet
  import opened Gro
  import opened GroInvariant
  import opened GroRun
  import opened GroProcedure
  import opened GroBatch
  import opened GroFindings
  import opened TunWriter

  /** The octets a batch puts on the device: frames, or bare packets without `virtio_net_hdr`. */
  function Wire(packets: seq<Packet>, vnetHdr: bool): seq<byte> {
    if packets == [] then []
    else
      var last := |packets| - 1;
      Wire(packets[..last], vnetHdr) + if vnetHdr then Frame(packets[last]) else packets[last]
  }

  /** A packet in a buffer of its own, as the batch allocates it. */
  function Allocated(p: Packet): Buf {
    Buf(Zeros(HDR_LEN) + p, HDR_LEN + |p|)
  }

  lemma AllocatedOk(p: Packet)
    requires |p| <= 0xffff
    ensures BufOk(Allocated(p), HDR_LEN) && Allocated(p).bytes == Frame(p)
  {}

  lemma {:induction false} UpToAt(n: nat, i: nat)
    requires i < n
    ensures |UpTo(n)| == n && UpTo(n)[i] == i
  {
    if n == 1 {
      assert UpTo(1) == [0];
    } else if i < n - 1 {
      UpToAt(n - 1, i);
    } else {
      UpToAt(n - 1, n - 2);
    }
  }

  lemma WireNothing(vnetHdr: bool)
    ensures Wire([], vnetHdr) == []
  {}

  lemma WireOneMore(packets: seq<Packet>, i: nat, vnetHdr: bool)
    requires i < |packets|
    ensures Wire(packets[..i + 1], vnetHdr)
         == Wire(packets[..i], vnetHdr) + if vnetHdr then Frame(packets[i]) else packets[i]
  {
    assert packets[..i + 1][..i] == packets[..i];
  }

  /** What was written first is a prefix of the whole. */
  lemma {:induction false} WirePrefix(packets: seq<Packet>, i: nat, vnetHdr: bool)
    requires i <= |packets|
    ensures Wire(packets[..i], vnetHdr) <= Wire(packets, vnetHdr)
    decreases |packets| - i
  {
    if i == |packets| {
      assert packets[..i] == packets;
    } else {
      WirePrefix(packets, i + 1, vnetHdr);
      WireOneMore(packets, i, vnetHdr);
    }
  }

  /** What is left of the device's answers for a caller that waits while it is not ready. */
  function Readies(answers: seq<Answer>): seq<Answer> {
    if answers == [] then []
    else (if answers[0] == NotReady then [] else [answers[0]]) + Readies(answers[1..])
  }

  lemma ReadiesOf(answers: seq<Answer>, length: nat)
    ensures answers == [] ==> Later(Readies(answers)) == Readies(answers) && NextAnswer(Readies(answers), length) == Pending
    ensures answers != [] ==> |Later(answers)| < |answers|
    ensures answers != [] && NextAnswer(answers, length) == Pending ==> Readies(answers) == Readies(Later(answers))
    ensures answers != [] && NextAnswer(answers, length) != Pending ==>
              && NextAnswer(Readies(answers), length) == NextAnswer(answers, length)
              && Later(Readies(answers)) == Readies(Later(answers))
  {}

  /** How a batch ends: the frames that are out, and how much of the next. */
  datatype Batch = Batch(end: Flush, frames: nat, part: nat, rest: seq<Answer>)

  function FeedFrames(answers: seq<Answer>, frames: seq<seq<byte>>): (b: Batch)
    ensures b.frames <= |frames| && (b.end == Flushed <==> b.frames == |frames|)
    ensures if b.end == Flushed then b.part == 0 else b.part < |frames[b.frames]|
  {
    if frames == [] then Batch(Flushed, 0, 0, answers)
    else
      var last := |frames| - 1;
      var b := FeedFrames(answers, frames[..last]);
      if b.end != Flushed then b
      else
        var f := Feed(b.rest, |frames[last]|);
        if f.end == Flushed then Batch(Flushed, last + 1, 0, f.rest) else Batch(f.end, last, f.written, f.rest)
  }

  /** The writes of a batch: a frame for each packet, or the packet itself without `virtio_net_hdr`. */
  function Writes(packets: seq<Packet>, vnetHdr: bool): (w: seq<seq<byte>>)
    ensures |w| == |packets|
    ensures forall i | 0 <= i < |w| :: w[i] == if vnetHdr then Frame(packets[i]) else packets[i]
  {
    seq(|packets|, i requires 0 <= i < |packets| => if vnetHdr then Frame(packets[i]) else packets[i])
  }

  lemma FeedNoFrames(answers: seq<Answer>, frames: seq<seq<byte>>)
    ensures FeedFrames(answers, frames[..0]) == Batch(Flushed, 0, 0, answers)
  {}

  lemma FeedOneMore(answers: seq<Answer>, frames: seq<seq<byte>>, i: nat, left: seq<Answer>)
    requires i < |frames| && FeedFrames(answers, frames[..i]) == Batch(Flushed, i, 0, left)
    ensures var f := Feed(left, |frames[i]|);
            FeedFrames(answers, frames[..i + 1])
            == if f.end == Flushed then Batch(Flushed, i + 1, 0, f.rest) else Batch(f.end, i, f.written, f.rest)
  {
    hide Feed;
    assert frames[..i + 1][..i] == frames[..i];
  }

  /** A batch that has failed goes on no further. */
  lemma {:induction false} FeedStops(answers: seq<Answer>, frames: seq<seq<byte>>, i: nat)
    requires i <= |frames| && FeedFrames(answers, frames[..i]).end != Flushed
    ensures FeedFrames(answers, frames) == FeedFrames(answers, frames[..i])
    decreases |frames| - i
  {
    hide Feed;
    if i == |frames| {
      assert frames[..i] == frames;
    } else {
      assert frames[..i + 1][..i] == frames[..i];
      FeedStops(answers, frames, i + 1);
    }
  }

  /** How a batch ends and what the device then has, by its answers alone. */
  ghost predicate Ends(packets: seq<Packet>, vnetHdr: bool, answers: seq<Answer>, r: Flush, written: nat,
                       rest: seq<Answer>, before: seq<byte>, stream: seq<byte>)
  {
    var b := FeedFrames(answers, Writes(packets, vnetHdr));
    && Batch(r, written, b.part, rest) == b
    && stream == before + Wire(packets[..written], vnetHdr)
                 + if r == Flushed then [] else Writes(packets, vnetHdr)[written][..b.part]
  }

  class BatchWriter {
    const device: Device
    const vnetHdr: bool
    const little: bool
    const gro: Flags
    const tcpTable: TcpGroTable
    const udpTable: UdpGroTable

    constructor (device: Device, vnetHdr: bool, gro: Flags, little: bool)
      ensures this.device == device && this.vnetHdr == vnetHdr && this.gro == gro && this.little == little
      ensures fresh(tcpTable) && fresh(udpTable)
    {
      this.device, this.vnetHdr, this.gro, this.little := device, vnetHdr, gro, little;
      tcpTable := new TcpGroTable();
      udpTable := new UdpGroTable();
    }

    /** `write_all` waits for a device that is not ready; it stays with one that never will be again. */
    method WriteAll(data: seq<byte>) returns (r: Flush, ghost sent: nat)
      requires device.Valid()
      modifies device
      ensures device.Valid() && sent <= |data| && device.stream == old(device.stream) + data[..sent]
      ensures Fed(r, sent, Readies(device.answers)) == Feed(Readies(old(device.answers)), |data|)
    {
      hide Feed, Sofar, NextAnswer, Later, Readies;
      ghost var (before, answers) := (device.stream, Readies(device.answers));
      var at := 0;
      SofarNothing(answers, |data|);
      assert data[0..0] == [] && before + [] == before;
      while at < |data|
        invariant 0 <= at <= |data| && device.Valid()
        invariant device.stream == before + data[0..at]
        invariant Sofar(answers, |data|, at, Readies(device.answers))
        decreases |device.answers|, |data| - at
      {
        ghost var was := device.answers;
        ReadiesOf(was, |data| - at);
        SofarStops(answers, |data|, at, Readies(was));
        if device.answers == [] {
          assert data[0..at] == data[..at];
          return FlushPending, at;
        }
        var polled := device.PollWrite(data[at..]);
        match polled {
          case Ready(Ok(n)) =>
            WrittenOn(before, data, 0, at, n);
            SofarMore(answers, |data|, at, Readies(was), n);
            at := at + n;
          case Ready(Err(e)) =>
            assert data[0..at] == data[..at];
            return FlushFailed(e), at;
          case Pending =>
        }
      }
      SofarAll(answers, |data|, Readies(device.answers));
      assert data[0..|data|] == data[..|data|];
      r, sent := Flushed, |data|;
    }

    /** `handle_gro` on freshly allocated buffers leaves them and their order alone. */
    method Prepare(packets: seq<Packet>) returns (bufs: array<Buf>, toWrite: seq<nat>)
      requires packets != [] && forall p | p in packets :: |p| <= 0xffff
      modifies tcpTable, udpTable
      ensures fresh(bufs) && bufs.Length == |packets| && toWrite == UpTo(|packets|)
      ensures forall i | 0 <= i < |packets| :: bufs[i].bytes == Frame(packets[i])
    {
      hide BufOk, Frame, Run, AccountedTo, Passing, UpTo, Exact, GroRun.Ready, Unmerged;
      bufs := new Buf[|packets|](i requires 0 <= i < |packets| => Allocated(packets[i]));
      ghost var orig := bufs[..];
      AllAllocated(packets, orig);
      tcpTable.Reset();
      udpTable.Reset();
      var r;
      r, toWrite := HandleGro(bufs, HDR_LEN, tcpTable, udpTable, gro, little);
      assert orig[..|packets|] == orig;
      ExactCapacityNeverMerges(orig, HDR_LEN, gro, little, |packets|);
      ExactCapacityWritesAsIs(orig, HDR_LEN, gro, little, bufs[..]);
      assert forall i | 0 <= i < |packets| :: bufs[i] == bufs[..][i];
    }

    static lemma AllAllocated(packets: seq<Packet>, orig: seq<Buf>)
      requires packets != [] && |orig| == |packets| && forall p | p in packets :: |p| <= 0xffff
      requires forall i | 0 <= i < |packets| :: orig[i] == Allocated(packets[i])
      ensures GroRun.Ready(orig, HDR_LEN) && Exact(orig) && Passing(orig, HDR_LEN) == |orig|
      ensures forall i | 0 <= i < |packets| :: BufOk(orig[i], HDR_LEN) && orig[i].bytes == Frame(packets[i])
    {
      hide BufOk, Frame;
      forall i | 0 <= i < |packets| ensures BufOk(orig[i], HDR_LEN) && orig[i].bytes == Frame(packets[i]) {
        assert packets[i] in packets;
        AllocatedOk(packets[i]);
      }
    }

    /**
     `do_batch_write`: the device has a frame for every packet it took, in order, and as much of the next as it
     took; how far that is depends on its answers alone. The buffers being exact, nothing is merged on the way.
     */
    method DoBatchWrite(packets: seq<Packet>) returns (r: Flush, written: nat)
      requires device.Valid() && (vnetHdr ==> forall p | p in packets :: |p| <= 0xffff)
      modifies device, tcpTable, udpTable
      ensures device.Valid()
      ensures Ends(packets, vnetHdr, Readies(old(device.answers)), r, written, Readies(device.answers),
                   old(device.stream), device.stream)
      ensures r == Flushed ==> device.stream == old(device.stream) + Wire(packets, vnetHdr) && written == |packets|
      ensures exists sent :: sent <= Wire(packets, vnetHdr) && device.stream == old(device.stream) + sent
    {
      hide UpTo, Frame, Wire, Feed, FeedFrames, Readies, Ends;
      ghost var (before, answers, all) := (device.stream, Readies(device.answers), Writes(packets, vnetHdr));
      WireNothing(vnetHdr);
      FeedNoFrames(answers, all);
      written := 0;
      assert packets[..0] == [] && before + [] == before;
      if packets == [] {
        AllOut(packets, vnetHdr, answers, answers, before);
        return Flushed, 0;
      }
      var bufs, toWrite := new Buf[0], [];
      if vnetHdr {
        bufs, toWrite := Prepare(packets);
      }
      for i := 0 to |packets|
        invariant device.Valid() && written == i
        invariant device.stream == before + Wire(packets[..i], vnetHdr)
        invariant FeedFrames(answers, all[..i]) == Batch(Flushed, i, 0, Readies(device.answers))
        invariant vnetHdr ==> bufs.Length == |packets|
        invariant vnetHdr ==> forall b | 0 <= b < |packets| :: bufs[b].bytes == Frame(packets[b])
      {
        if vnetHdr {
          UpToAt(|packets|, i);
        }
        var octets := if vnetHdr then bufs[toWrite[i]].bytes else packets[i];
        r := WriteNext(packets, i, octets, before, answers);
        if r != Flushed {
          return;
        }
        written := written + 1;
      }
      AllOut(packets, vnetHdr, answers, Readies(device.answers), before);
      assert packets[..|packets|] == packets;
      r := Flushed;
    }

    /** One round of the loop. */
    method WriteNext(packets: seq<Packet>, i: nat, octets: seq<byte>, ghost before: seq<byte>,
                     ghost answers: seq<Answer>)
      returns (r: Flush)
      requires device.Valid() && i < |packets| && octets == Writes(packets, vnetHdr)[i]
      requires device.stream == before + Wire(packets[..i], vnetHdr)
      requires FeedFrames(answers, Writes(packets, vnetHdr)[..i]) == Batch(Flushed, i, 0, Readies(device.answers))
      modifies device
      ensures device.Valid()
      ensures r == Flushed ==>
                && device.stream == before + Wire(packets[..i + 1], vnetHdr)
                && FeedFrames(answers, Writes(packets, vnetHdr)[..i + 1])
                   == Batch(Flushed, i + 1, 0, Readies(device.answers))
      ensures r != Flushed ==>
                && Ends(packets, vnetHdr, answers, r, i, Readies(device.answers), before, device.stream)
                && exists sent :: sent <= Wire(packets, vnetHdr) && device.stream == before + sent
    {
      hide Frame, Wire, Feed, FeedFrames, Readies, Ends, Writes;
      FeedOneMore(answers, Writes(packets, vnetHdr), i, Readies(device.answers));
      ghost var was := Readies(device.answers);
      ghost var sent;
      r, sent := WriteAll(octets);
      WritesAt(packets, vnetHdr, i);
      WireOneMore(packets, i, vnetHdr);
      if r == Flushed {
        FeedAll(was, octets);
        AllSent(octets, sent);
        Regroup(before, Wire(packets[..i], vnetHdr), octets);
      } else {
        StopsAt(packets, vnetHdr, answers, i, was, before);
        PartlySent(packets, i, vnetHdr, octets, sent, before, device.stream);
      }
    }

    static lemma FeedAll(answers: seq<Answer>, octets: seq<byte>)
      ensures Feed(answers, |octets|).end == Flushed ==> Feed(answers, |octets|).written == |octets|
    {}

    static lemma WritesAt(packets: seq<Packet>, vnetHdr: bool, i: nat)
      requires i < |packets|
      ensures |Writes(packets, vnetHdr)| == |packets|
      ensures Writes(packets, vnetHdr)[i] == if vnetHdr then Frame(packets[i]) else packets[i]
    {}

    static lemma AllOut(packets: seq<Packet>, vnetHdr: bool, answers: seq<Answer>, rest: seq<Answer>, before: seq<byte>)
      requires FeedFrames(answers, Writes(packets, vnetHdr)[..|packets|]) == Batch(Flushed, |packets|, 0, rest)
      ensures Ends(packets, vnetHdr, answers, Flushed, |packets|, rest, before,
                   before + Wire(packets[..|packets|], vnetHdr))
    {
      hide FeedFrames, Wire, Frame;
      var all := Writes(packets, vnetHdr);
      assert all[..|packets|] == all;
    }

    static lemma StopsAt(packets: seq<Packet>, vnetHdr: bool, answers: seq<Answer>, i: nat, was: seq<Answer>,
                         before: seq<byte>)
      requires i < |packets|
      requires FeedFrames(answers, Writes(packets, vnetHdr)[..i]) == Batch(Flushed, i, 0, was)
      requires Feed(was, |Writes(packets, vnetHdr)[i]|).end != Flushed
      ensures var f := Feed(was, |Writes(packets, vnetHdr)[i]|);
              Ends(packets, vnetHdr, answers, f.end, i, f.rest, before,
                   before + Wire(packets[..i], vnetHdr) + Writes(packets, vnetHdr)[i][..f.written])
    {
      hide FeedFrames, Wire, Frame, Feed;
      var all := Writes(packets, vnetHdr);
      FeedOneMore(answers, all, i, was);
      FeedStops(answers, all, i + 1);
    }

    static lemma AllSent(octets: seq<byte>, sent: nat)
      requires sent == |octets|
      ensures octets[..sent] == octets
    {}

    static lemma Regroup(a: seq<byte>, b: seq<byte>, c: seq<byte>)
      ensures (a + b) + c == a + (b + c)
    {}

    static lemma PartlySent(packets: seq<Packet>, i: nat, vnetHdr: bool, octets: seq<byte>, k: nat,
                            before: seq<byte>, stream: seq<byte>)
      requires i < |packets| && octets == (if vnetHdr then Frame(packets[i]) else packets[i]) && k <= |octets|
      requires stream == before + Wire(packets[..i], vnetHdr) + octets[..k]
      ensures exists sent :: sent <= Wire(packets, vnetHdr) && stream == before + sent
    {
      hide Frame, Wire;
      var sent := Wire(packets[..i], vnetHdr) + octets[..k];
      WireOneMore(packets, i, vnetHdr);
      WirePrefix(packets, i + 1, vnetHdr);
      assert sent <= Wire(packets[..i + 1], vnetHdr);
      assert before + Wire(packets[..i], vnetHdr) + octets[..k] == before + sent;
    }
  }
}
