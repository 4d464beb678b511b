/** The batching reader: strips `virtio_net_hdr`, splits GSO reads, and queues what does not fit. */
module TunReader {
  import opened Bytes
  import opened VirtioNet
  import GsoSplit
  import GsoProperties

  const IDEAL_BATCH_SIZE := 128
  const READ_BUF := 65610

  datatype ReadError = Device(code: int) | UnsupportedGso | SplitFailed(e: GsoSplit.Error)

  /** The packets one device read stands for. */
  function ExpandRead(raw: seq<byte>, vnetHdr: bool, little: bool): Result<seq<Packet>, ReadError>
    requires Readable(raw, vnetHdr, little)
  {
    if raw == [] then Ok([])
    else if !vnetHdr || |raw| <= HDR_LEN then Ok([raw])
    else
      var pkt := raw[HDR_LEN..];
      match Decode(raw[..HDR_LEN], little)
      case None => Err(UnsupportedGso) // cannot be: the slice has ten octets
      case Some(h) =>
        if h.gsoType == GSO_NONE then Ok([pkt])
        else
          match ToOptions(h)
          case None => Err(UnsupportedGso)
          case Some(o) =>
            match GsoSplit.Split(pkt, o, IDEAL_BATCH_SIZE)
            case Err(e) => Err(SplitFailed(e))
            case Ok(all) => Ok(all)
  }

  /** A read that fits the buffer and whose GSO header does not make `gso_split` panic. */
  predicate Readable(raw: seq<byte>, vnetHdr: bool, little: bool) {
    && |raw| <= READ_BUF
    && (vnetHdr && |raw| > HDR_LEN ==>
          match ToOptions(Decode(raw[..HDR_LEN], little).value)
          case None => true
          case Some(o) => GsoSplit.NoPanic(raw[HDR_LEN..], o, IDEAL_BATCH_SIZE))
  }

  // ---- The same from the octets of the read ----

  /** A 16-bit field of the header in front of the packet. */
  function Field(raw: seq<byte>, at: nat, little: bool): nat
    requires at + 2 <= |raw|
  {
    if little then raw[at] + (raw[at + 1] as int) * 256 else (raw[at] as int) * 256 + raw[at + 1]
  }

  predicate IsGsoType(kind: byte) {
    kind == 1 || kind == 3 || kind == 5
  }

  function GsoOf(raw: seq<byte>, little: bool): GsoOptions
    requires |raw| >= 10 && IsGsoType(raw[1])
  {
    GsoOptions(if raw[1] == 1 then TcpV4 else if raw[1] == 3 then TcpV6 else UdpL4,
               Field(raw, 2, little), Field(raw, 6, little), Field(raw, 8, little), Field(raw, 4, little),
               raw[0] % 2 == 1)
  }

  /**
   What a read is: without a header, or too short for one, itself; behind a header of type 0 the packet; behind a
   GSO header what `gso_split` makes of the packet in 128 buffers, with all its data in order; else an error.
   */
  predicate ReadMeans(raw: seq<byte>, vnetHdr: bool, little: bool, packets: Result<seq<Packet>, ReadError>)
    requires Readable(raw, vnetHdr, little)
  {
    if raw == [] then packets == Ok([])
    else if !vnetHdr || |raw| <= 10 then packets == Ok([raw])
    else if raw[1] == 0 then packets == Ok([raw[10..]])
    else if !IsGsoType(raw[1]) then packets == Err(UnsupportedGso)
    else
      && GsoSplit.NoPanic(raw[10..], GsoOf(raw, little), 128)
      && match GsoSplit.Split(raw[10..], GsoOf(raw, little), 128)
         case Err(e) => packets == Err(SplitFailed(e))
         case Ok(all) => packets == Ok(all) && DataInOrder(raw, little, all)
  }

  /** The data behind the headers, unless the header puts the checksum among the data. */
  predicate DataInOrder(raw: seq<byte>, little: bool, all: seq<Packet>)
    requires |raw| >= 10
  {
    var hdrLen := Field(raw, 2, little);
    Field(raw, 6, little) + Field(raw, 8, little) + 2 <= hdrLen ==>
      && 10 + hdrLen <= |raw| && (forall s | s in all :: hdrLen <= |s|)
      && GsoProperties.Payloads(all, hdrLen) == raw[10 + hdrLen..]
  }

  /** `ExpandRead` is that. */
  lemma ExpandMeans(raw: seq<byte>, vnetHdr: bool, little: bool)
    requires Readable(raw, vnetHdr, little)
    ensures ReadMeans(raw, vnetHdr, little, ExpandRead(raw, vnetHdr, little))
  {
    hide GsoSplit.Split, GsoSplit.NoPanic, GsoProperties.Payloads;
    if vnetHdr && |raw| > 10 && IsGsoType(raw[1]) {
      var o := GsoOf(raw, little);
      assert ToOptions(Decode(raw[..10], little).value) == Some(o);
      if GsoSplit.Split(raw[10..], o, 128).Ok? && GsoSplit.CsumAt(o) + 2 <= o.hdrLen {
        GsoProperties.DataKept(raw[10..], o, 128);
        assert raw[10..][o.hdrLen..] == raw[10 + o.hdrLen..];
      }
    }
  }

  type DeviceRead = Result<seq<byte>, int>

  /** The device: a sequence of reads still to come. */
  class Source {
    var inputs: seq<DeviceRead>
    const vnetHdr: bool
    const little: bool

    ghost predicate Valid()
      reads this
    {
      forall k | 0 <= k < |inputs| :: inputs[k].Ok? ==> Readable(inputs[k].value, vnetHdr, little)
    }

    constructor (inputs: seq<DeviceRead>, vnetHdr: bool, little: bool)
      requires forall k | 0 <= k < |inputs| :: inputs[k].Ok? ==> Readable(inputs[k].value, vnetHdr, little)
      ensures Valid() && this.inputs == inputs && this.vnetHdr == vnetHdr && this.little == little
    {
      this.inputs, this.vnetHdr, this.little := inputs, vnetHdr, little;
    }

    /** One read; an exhausted source reads nothing. */
    method Read() returns (r: DeviceRead)
      requires Valid()
      modifies this
      ensures Valid()
      ensures r.Ok? ==> Readable(r.value, vnetHdr, little)
      ensures if old(inputs) == [] then r == Ok([]) && inputs == []
              else r == old(inputs[0]) && inputs == old(inputs[1..])
    {
      if inputs == [] {
        return Ok([]);
      }
      r := inputs[0];
      inputs := inputs[1..];
    }
  }

  /** Everything a number of reads stand for, in order. */
  function ExpandAll(seen: seq<seq<byte>>, vnetHdr: bool, little: bool): seq<Packet>
    requires forall raw | raw in seen :: Readable(raw, vnetHdr, little)
  {
    if seen == [] then []
    else
      var last := seen[|seen| - 1];
      ExpandAll(seen[..|seen| - 1], vnetHdr, little)
      + match ExpandRead(last, vnetHdr, little) case Ok(all) => all case Err(_) => []
  }

  lemma ExpandOneMore(seen: seq<seq<byte>>, raw: seq<byte>, vnetHdr: bool, little: bool)
    requires forall r | r in seen + [raw] :: Readable(r, vnetHdr, little)
    requires forall r | r in seen :: Readable(r, vnetHdr, little)
    requires ExpandRead(raw, vnetHdr, little).Ok?
    ensures ExpandAll(seen + [raw], vnetHdr, little)
         == ExpandAll(seen, vnetHdr, little) + ExpandRead(raw, vnetHdr, little).value
  {
    assert (seen + [raw])[..|seen|] == seen;
  }

  class LinuxTunReader {
    const source: Source
    const gsoOutBufs: array<Packet>
    const gsoSizes: array<nat>
    var pendingSegments: seq<Packet>
    var pendingIdx: nat
    /** Everything handed to the caller, and the device reads so far. */
    ghost var returned: seq<Packet>
    ghost var seen: seq<seq<byte>>

    ghost predicate Shape()
      reads this, source
    {
      && source.Valid() && gsoOutBufs.Length == IDEAL_BATCH_SIZE == gsoSizes.Length
      && pendingIdx <= |pendingSegments|
    }

    ghost function Queue(): seq<Packet>
      reads this
    {
      if pendingIdx <= |pendingSegments| then pendingSegments[pendingIdx..] else []
    }

    /**
     Nothing dropped, duplicated or reordered: what was returned, followed by the queue, is the in-order
     expansion of all device reads.
     */
    ghost predicate Valid()
      reads this, source
    {
      && Shape()
      && (forall raw | raw in seen :: Readable(raw, source.vnetHdr, source.little))
      && returned + Queue() == ExpandAll(seen, source.vnetHdr, source.little)
    }

    constructor (source: Source)
      requires source.Valid()
      ensures Valid() && this.source == source && returned == [] && seen == []
      ensures fresh(gsoOutBufs) && fresh(gsoSizes)
    {
      this.source := source;
      gsoOutBufs := new Packet[IDEAL_BATCH_SIZE](_ => []);
      gsoSizes := new nat[IDEAL_BATCH_SIZE](_ => 0);
      pendingSegments, pendingIdx := [], 0;
      returned, seen := [], [];
    }

    /** The loop that moves queued segments into the caller's buffers, up to `batch` of them in all. */
    method TakePending(start: seq<Packet>, batch: nat) returns (result: seq<Packet>)
      requires pendingIdx <= |pendingSegments| && |start| <= batch
      modifies this`pendingSegments, this`pendingIdx
      ensures pendingIdx <= |pendingSegments|
      ensures start <= result && |result| <= batch
      ensures result + Queue() == start + old(Queue())
      ensures Queue() == [] || |result| == batch
    {
      ghost var (was, from) := (pendingSegments, pendingIdx);
      result := start;
      while pendingIdx < |pendingSegments| && |result| < batch
        invariant from <= pendingIdx <= |pendingSegments| == |was|
        invariant forall k | pendingIdx <= k < |was| :: pendingSegments[k] == was[k]
        invariant |result| <= batch && result == start + was[from..pendingIdx]
        decreases |pendingSegments| - pendingIdx
      {
        var seg := pendingSegments[pendingIdx];
        pendingSegments := pendingSegments[pendingIdx := []];
        result := result + [seg];
        pendingIdx := pendingIdx + 1;
      }
      assert pendingSegments[pendingIdx..] == was[pendingIdx..];
      assert was[from..] == was[from..pendingIdx] + was[pendingIdx..];
    }

    /** Splits a GSO read into the pending queue. */
    method QueueSegments(pkt: Packet, o: GsoOptions) returns (error: Option<ReadError>)
      requires gsoOutBufs.Length == IDEAL_BATCH_SIZE == gsoSizes.Length && |pkt| <= READ_BUF
      requires GsoSplit.NoPanic(pkt, o, IDEAL_BATCH_SIZE)
      modifies this`pendingSegments, this`pendingIdx, gsoOutBufs, gsoSizes
      ensures match GsoSplit.Split(pkt, o, IDEAL_BATCH_SIZE)
              case Err(e) =>
                error == Some(SplitFailed(e)) && pendingSegments == old(pendingSegments) && pendingIdx == old(pendingIdx)
              case Ok(all) => error == None && pendingSegments == all && pendingIdx == 0
    {
      hide GsoSplit.Split, GsoSplit.NoPanic;
      for i := 0 to gsoOutBufs.Length
        invariant pendingSegments == old(pendingSegments) && pendingIdx == old(pendingIdx)
      {
        gsoOutBufs[i] := [];
      }
      var count := GsoSplit.SplitInto(pkt, o, gsoOutBufs, gsoSizes);
      if count.Err? {
        return Some(SplitFailed(count.error));
      }
      pendingSegments := [];
      pendingIdx := 0;
      ghost var all := GsoSplit.Split(pkt, o, IDEAL_BATCH_SIZE).value;
      for i := 0 to count.value
        invariant pendingSegments == all[..i] && pendingIdx == 0
        invariant forall k | i <= k < |all| :: gsoOutBufs[k] == all[k]
      {
        pendingSegments := pendingSegments + [gsoOutBufs[i]];
        gsoOutBufs[i] := [];
      }
      error := None;
    }

    static lemma Regroup(a: seq<Packet>, out: seq<Packet>, queue: seq<Packet>, queued: seq<Packet>, all: seq<Packet>)
      requires out + queue == queued + all
      ensures (a + out) + queue == (a + queued) + all
    {
      assert (a + out) + queue == a + (out + queue);
      assert (a + queued) + all == a + (queued + all);
    }

    /** What the next device read gives. */
    ghost function NextRead(): DeviceRead
      reads source
    {
      if source.inputs == [] then Ok([]) else source.inputs[0]
    }

    ghost function LaterReads(): seq<DeviceRead>
      reads source
    {
      if source.inputs == [] then [] else source.inputs[1..]
    }

    /** The call fails: it reads, and the read or its expansion fails. */
    ghost predicate WillFail(batch: nat)
      reads this, source
      requires Shape()
    {
      && |Queue()| < batch
      && (NextRead().Err? || ExpandRead(NextRead().value, source.vnetHdr, source.little).Err?)
    }

    /** The packets now returned and queued are those queued before and what the read means. */
    twostate predicate Answers(new r: Result<seq<Packet>, ReadError>)
      reads this, source
    {
      && old(NextRead()).Ok? && Readable(old(NextRead()).value, source.vnetHdr, source.little)
      && match r
         case Err(e) => ReadMeans(old(NextRead()).value, source.vnetHdr, source.little, Err(e))
         case Ok(out) =>
           exists packets ::
             && ReadMeans(old(NextRead()).value, source.vnetHdr, source.little, Ok(packets))
             && out + Queue() == old(Queue()) + packets
    }

    /**
     `do_batch_read` into `batch` buffers. Without an error it keeps the account above; an error loses
     exactly the segments that were still queued.
     */
    method DoBatchRead(batch: nat) returns (r: Result<seq<Packet>, ReadError>)
      requires Valid()
      modifies this, source, gsoOutBufs, gsoSizes
      ensures Shape() && (r.Err? <==> old(WillFail(batch)))
      ensures r.Ok? ==> Valid() && |r.value| <= batch && returned == old(returned) + r.value
      ensures r.Ok? ==>
                if |old(Queue())| >= batch then seen == old(seen) && source.inputs == old(source.inputs)
                else old(NextRead()).Ok? && seen == old(seen) + [old(NextRead()).value]
                     && source.inputs == old(LaterReads())
      ensures r.Ok? ==> Queue() == [] || |r.value| == batch
      ensures r.Err? ==> returned == old(returned) && seen == old(seen) && Queue() == []
      ensures |old(Queue())| >= batch ==> r.Ok? && r.value + Queue() == old(Queue())
      ensures |old(Queue())| < batch ==>
                if old(NextRead()).Err? then r == Err(Device(old(NextRead()).error)) else Answers(r)
    {
      hide ExpandRead, Readable, ExpandAll, ReadMeans;
      ghost var queued := Queue();
      var result := TakePending([], batch);
      assert result + Queue() == queued;
      if |result| >= batch {
        Deliver(result);
        return Ok(result);
      }
      assert Queue() == [] && result + [] == result;
      var input := source.Read();
      if input.Err? {
        return Err(Device(input.error));
      }
      ExpandMeans(input.value, source.vnetHdr, source.little);
      var more := Consume(input.value, result, batch);
      if more.Err? {
        return Err(more.error);
      }
      Record(input.value, result, more.value);
      r := Ok(more.value);
    }

    /** Bookkeeping: the caller has the packets. */
    ghost method Deliver(result: seq<Packet>)
      requires Shape() && (forall raw | raw in seen :: Readable(raw, source.vnetHdr, source.little))
      requires returned + (result + Queue()) == ExpandAll(seen, source.vnetHdr, source.little)
      modifies this`returned
      ensures Valid() && returned == old(returned) + result
    {
      hide Readable, ExpandAll;
      assert returned + (result + Queue()) == returned + result + Queue();
      returned := returned + result;
    }

    /** Bookkeeping: one more device read, whose packets went to the caller and into the queue. */
    ghost method Record(raw: seq<byte>, queued: seq<Packet>, out: seq<Packet>)
      requires Shape() && (forall r | r in seen :: Readable(r, source.vnetHdr, source.little))
      requires Readable(raw, source.vnetHdr, source.little) && ExpandRead(raw, source.vnetHdr, source.little).Ok?
      requires returned + queued == ExpandAll(seen, source.vnetHdr, source.little)
      requires out + Queue() == queued + ExpandRead(raw, source.vnetHdr, source.little).value
      modifies this`returned, this`seen
      ensures Valid() && returned == old(returned) + out && seen == old(seen) + [raw]
    {
      hide Readable, ExpandAll, ExpandRead;
      ExpandOneMore(seen, raw, source.vnetHdr, source.little);
      Regroup(returned, out, Queue(), queued, ExpandRead(raw, source.vnetHdr, source.little).value);
      seen := seen + [raw];
      returned := returned + out;
    }

    /** The rest of `do_batch_read`, behind the device read; `result` has room. */
    method Consume(raw: seq<byte>, result: seq<Packet>, batch: nat) returns (r: Result<seq<Packet>, ReadError>)
      requires Shape() && Queue() == [] && |result| < batch && Readable(raw, source.vnetHdr, source.little)
      modifies this`pendingSegments, this`pendingIdx, gsoOutBufs, gsoSizes
      ensures Shape()
      ensures match ExpandRead(raw, source.vnetHdr, source.little)
              case Err(e) => r == Err(e) && Queue() == []
              case Ok(all) =>
                && r.Ok? && |r.value| <= batch && r.value + Queue() == result + all
                && (Queue() == [] || |r.value| == batch)
    {
      hide GsoSplit.Split, GsoSplit.NoPanic;
      if |raw| == 0 {
        return Ok(result);
      }
      if source.vnetHdr && |raw| > HDR_LEN {
        var h := Decode(raw[..HDR_LEN], source.little).value;
        var pkt := raw[HDR_LEN..];
        if h.gsoType != GSO_NONE {
          var options := ToOptions(h);
          if options.None? {
            return Err(UnsupportedGso);
          }
          var error := QueueSegments(pkt, options.value);
          if error.Some? {
            return Err(error.value);
          }
          var filled := TakePending(result, batch);
          r := Ok(filled);
        } else {
          r := Ok(result + [pkt]);
        }
      } else {
        r := Ok(result + [raw]);
      }
    }
  }
}
