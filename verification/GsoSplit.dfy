/** Cutting one offloaded packet into wire segments (`gso_split`). */
module GsoSplit {
  import opened Bytes
  import opened Checksum
  import opened VirtioNet

  const TCP_FLAGS_OFFSET := 13

  datatype Error =
    | ChecksumOutsidePacket
    | ShorterThanHeaders
    | NoOutputBuffers
    | HeadersEndBeforeTransport
    | TooShortForTcp
    | TooManySegments

  function Version(input: Packet): nat
    requires |input| > 0
  {
    input[0] / 16
  }

  function Protocol(t: GsoType): byte {
    if t.UdpL4? then 17 else 6
  }

  function CsumAt(o: GsoOptions): nat {
    o.csumStart + o.csumOffset
  }

  /** `&= !(FIN | PSH)` */
  function ClearFinPsh(flags: byte): byte {
    flags - flags % 2 - (flags / 8 % 2) * 8
  }

  function SrcAddr(p: Packet): seq<byte>
    requires |p| > 0 && AddrOff(Version(p) != 4) + 2 * AddrSize(Version(p) != 4) <= |p|
  {
    var v6 := Version(p) != 4;
    p[AddrOff(v6)..AddrOff(v6) + AddrSize(v6)]
  }

  function DstAddr(p: Packet): seq<byte>
    requires |p| > 0 && AddrOff(Version(p) != 4) + 2 * AddrSize(Version(p) != 4) <= |p|
  {
    var v6 := Version(p) != 4;
    p[AddrOff(v6) + AddrSize(v6)..AddrOff(v6) + 2 * AddrSize(v6)]
  }

  /** All the fields the segment loop touches lie inside the copied headers, and its u16 sums fit. */
  predicate HeadersInside(input: Packet, o: GsoOptions) {
    && |input| > 0
    && AddrOff(Version(input) != 4) + 2 * AddrSize(Version(input) != 4) <= o.hdrLen
    && o.csumStart + (if Protocol(o.gsoType) == 6 then 20 else 8) <= o.hdrLen
    && CsumAt(o) + 2 <= o.hdrLen
    && o.hdrLen + o.gsoSize <= 0xffff
  }

  /** What the kernel puts in a GSO header: an even header layout with the checksum in its place. */
  predicate StandardLayout(input: Packet, o: GsoOptions) {
    && HeadersInside(input, o)
    && !o.gsoType.NoGso?
    && o.csumStart % 2 == 0
    && o.csumStart >= (if Version(input) == 4 then 20 else 40)
    && o.csumOffset == (if o.gsoType.UdpL4? then 6 else 16)
    && (o.gsoType.UdpL4? ==> o.hdrLen == o.csumStart + 8)
    && o.gsoSize > 0
  }

  // ---- Specification ----

  /** The unsegmented path: complete the checksum whose partial sum is in the field. */
  function Single(input: Packet, o: GsoOptions): Packet
    requires CsumAt(o) + 2 <= |input|
  {
    if !o.needsCsum then input
    else
      var zeroed := PutU16(input, CsumAt(o), 0);
      PutU16(zeroed, CsumAt(o), Complement(Fold(U16At(input, CsumAt(o)) + WordSum(zeroed[o.csumStart..]))))
  }

  function SegmentEnd(input: Packet, o: GsoOptions, at: nat): nat {
    Min(at + o.gsoSize, |input|)
  }

  function IpFields(v4: bool): nat {
    if v4 then 12 else 6
  }

  predicate TransportFits(o: GsoOptions, length: nat, last: bool) {
    if Protocol(o.gsoType) == 6 then
      o.csumStart + 8 <= length && (last || o.csumStart + TCP_FLAGS_OFFSET < length)
    else o.csumStart + 6 <= length
  }

  /** The round for the data at `at` writes inside the segment it builds; the program panics otherwise. */
  predicate RoundFits(input: Packet, o: GsoOptions, at: nat)
    requires 0 < |input| && at <= |input|
  {
    var end := SegmentEnd(input, o, at);
    var length := o.hdrLen + (end - at);
    && IpFields(Version(input) == 4) <= length && CsumAt(o) + 2 <= length
    && TransportFits(o, length, end == |input|)
  }

  /** All rounds do that the loop gets to before the output buffers run out. */
  predicate LoopFits(input: Packet, o: GsoOptions, at: nat, index: nat, slots: nat)
    requires index <= slots
    decreases slots - index
  {
    at >= |input| || index == slots
    || (RoundFits(input, o, at) && LoopFits(input, o, at + o.gsoSize, index + 1, slots))
  }

  /** What the loop relies on: headers and addresses inside the packet. */
  predicate Preparable(input: Packet, o: GsoOptions) {
    && 0 < |input| && o.csumStart <= o.hdrLen <= |input|
    && AddrOff(Version(input) != 4) + 2 * AddrSize(Version(input) != 4) <= |input|
    && (Protocol(o.gsoType) == 6 ==> o.csumStart + 20 <= |input|)
  }

  /** IPv4: advance the ID, rewrite total length and header checksum. IPv6: payload length. */
  function WithIp(out: Packet, o: GsoOptions, v4: bool, index: nat): (r: Packet)
    requires IpFields(v4) <= |out| && o.csumStart <= |out|
    ensures |r| == |out|
  {
    if v4 then
      var numbered := if index > 0 then PutU16(out, 4, ToU16(U16At(out, 4) + index)) else out;
      var sized := PutU16(PutU16(numbered, 10, 0), 2, ToU16(|out|));
      PutU16(sized, 10, Complement(Fold(WordSum(sized[..o.csumStart]))))
    else
      PutU16(out, 4, ToU16(|out| - o.csumStart))
  }

  /** TCP: sequence number, and FIN/PSH only on the last segment. UDP: length. */
  function WithTransport(out: Packet, o: GsoOptions, firstSeq: u32, index: nat, last: bool): (r: Packet)
    requires TransportFits(o, |out|, last)
    ensures |r| == |out|
  {
    if Protocol(o.gsoType) == 6 then
      var sequenced := PutU32(out, o.csumStart + 4, ToU32(firstSeq + o.gsoSize * index));
      if last then sequenced
      else sequenced[o.csumStart + TCP_FLAGS_OFFSET := ClearFinPsh(sequenced[o.csumStart + TCP_FLAGS_OFFSET])]
    else
      PutU16(out, o.csumStart + 4, ToU16(|out| - o.csumStart))
  }

  /** The transport checksum over the pseudo header sum `base` (computed with length 0) and the length. */
  function WithChecksum(out: Packet, o: GsoOptions, base: u16): (r: Packet)
    requires o.csumStart <= |out| && CsumAt(o) + 2 <= |out|
    ensures |r| == |out|
  {
    var zeroed := PutU16(out, CsumAt(o), 0);
    var initial := Fold(base + ToU16(|out| - o.csumStart));
    PutU16(zeroed, CsumAt(o), Complement(Fold(initial + WordSum(zeroed[o.csumStart..]))))
  }

  function FirstSeq(input: Packet, o: GsoOptions): u32
    requires Preparable(input, o)
  {
    if Protocol(o.gsoType) == 6 then U32At(input, o.csumStart + 4) else 0
  }

  function PseudoBase(input: Packet, o: GsoOptions): u16
    requires Preparable(input, o)
  {
    Fold(PseudoSum(Protocol(o.gsoType), SrcAddr(input), DstAddr(input), 0))
  }

  /** Segment number `index`, whose data starts at `at`: headers first, then the data is copied over. */
  function Segment(input: Packet, o: GsoOptions, at: nat, index: nat): (r: Packet)
    requires Preparable(input, o) && o.hdrLen <= at <= |input| && RoundFits(input, o, at)
    ensures |r| == o.hdrLen + SegmentEnd(input, o, at) - at
  {
    var end := SegmentEnd(input, o, at);
    var ip := WithIp(input[..o.hdrLen] + Zeros(end - at), o, Version(input) == 4, index);
    var transport := WithTransport(ip, o, FirstSeq(input, o), index, end == |input|);
    WithChecksum(transport[..o.hdrLen] + input[at..end], o, PseudoBase(input, o))
  }

  /** Segments `index`, `index + 1`, ... for the data from `at` on. */
  function Segments(input: Packet, o: GsoOptions, at: nat, index: nat): seq<Packet>
    requires HeadersInside(input, o) && o.hdrLen <= |input| && o.gsoSize > 0 && o.hdrLen <= at
    decreases |input| - at
  {
    if at >= |input| then []
    else [Segment(input, o, at, index)] + Segments(input, o, at + o.gsoSize, index + 1)
  }

  /** The same with output buffers running out at `slots`, also for a segment size of zero. */
  function SegmentsWithin(input: Packet, o: GsoOptions, at: nat, index: nat, slots: nat): (r: Option<seq<Packet>>)
    requires Preparable(input, o) && o.hdrLen <= at && index <= slots && LoopFits(input, o, at, index, slots)
    decreases slots - index
  {
    hide RoundFits, Preparable, Segment;
    if at >= |input| then Some([])
    else if index == slots then None
    else
      Prefixed([Segment(input, o, at, index)], SegmentsWithin(input, o, at + o.gsoSize, index + 1, slots))
  }

  function Prefixed(done: seq<Packet>, rest: Option<seq<Packet>>): Option<seq<Packet>> {
    if rest.None? then None else Some(done + rest.value)
  }

  lemma PrefixedTwice(done: seq<Packet>, next: Packet, rest: Option<seq<Packet>>)
    ensures Prefixed(done, Prefixed([next], rest)) == Prefixed(done + [next], rest)
  {
    assert rest.Some? ==> done + ([next] + rest.value) == (done + [next]) + rest.value;
  }

  /** One round of the loop, seen from the result. */
  lemma SegmentsWithinStep(
      input: Packet, o: GsoOptions, at: nat, index: nat, slots: nat, done: seq<Packet>, segment: Packet,
      rest: Option<seq<Packet>>)
    requires Preparable(input, o) && o.hdrLen <= at < |input| && index < slots
    requires LoopFits(input, o, at + o.gsoSize, index + 1, slots)
    requires rest == SegmentsWithin(input, o, at + o.gsoSize, index + 1, slots)
    requires LoopFits(input, o, at, index, slots) && RoundFits(input, o, at)
    requires segment == Segment(input, o, at, index)
    ensures Prefixed(done, SegmentsWithin(input, o, at, index, slots)) == Prefixed(done + [segment], rest)
  {
    hide Segment;
    PrefixedTwice(done, segment, rest);
  }

  /** The end of the loop, seen from the result. */
  lemma SegmentsWithinEnd(input: Packet, o: GsoOptions, at: nat, index: nat, slots: nat, done: seq<Packet>)
    requires Preparable(input, o) && o.hdrLen <= at && index <= slots && LoopFits(input, o, at, index, slots)
    ensures at >= |input| ==> Prefixed(done, SegmentsWithin(input, o, at, index, slots)) == Some(done)
    ensures at < |input| && index == slots ==> Prefixed(done, SegmentsWithin(input, o, at, index, slots)).None?
  {
    assert done + [] == done;
  }

  /** The unsegmented path is taken for short data, never for data of at least one full segment. */
  predicate IsSingle(input: Packet, o: GsoOptions) {
    o.gsoType.NoGso? || |input| - o.hdrLen < o.gsoSize
  }

  /** The checks of `gso_split` in front of its segment loop all pass. */
  predicate ReachesLoop(input: Packet, o: GsoOptions) {
    && CsumAt(o) + 1 < |input| && o.hdrLen <= |input| && !IsSingle(input, o) && o.csumStart <= o.hdrLen
    && (Protocol(o.gsoType) == 6 ==> o.csumStart + 20 <= |input|)
  }

  /** `gso_split` does not panic: addresses and header fields are where the loop indexes. */
  predicate NoPanic(input: Packet, o: GsoOptions, slots: nat) {
    ReachesLoop(input, o) ==> Preparable(input, o) && LoopFits(input, o, o.hdrLen, 0, slots)
  }

  /** The result of `gso_split` with `slots` output buffers. */
  function Split(input: Packet, o: GsoOptions, slots: nat): Result<seq<Packet>, Error>
    requires NoPanic(input, o, slots)
  {
    if CsumAt(o) + 1 >= |input| then Err(ChecksumOutsidePacket)
    else if |input| < o.hdrLen then Err(ShorterThanHeaders)
    else if IsSingle(input, o) then
      if slots == 0 then Err(NoOutputBuffers) else Ok([Single(input, o)])
    else if o.hdrLen < o.csumStart then Err(HeadersEndBeforeTransport)
    else if Protocol(o.gsoType) == 6 && |input| < o.csumStart + 20 then Err(TooShortForTcp)
    else
      match SegmentsWithin(input, o, o.hdrLen, 0, slots)
      case None => Err(TooManySegments)
      case Some(all) => Ok(all)
  }

  // ---- The procedure ----

  /** The IP header edits of one loop round. */
  method FixIp(segment: Packet, o: GsoOptions, v4: bool, index: nat) returns (out: Packet)
    requires IpFields(v4) <= |segment| <= 131072 && o.csumStart <= |segment|
    ensures out == WithIp(segment, o, v4, index)
  {
    out := segment;
    if v4 {
      if index > 0 {
        out := PutU16(out, 4, ToU16(U16At(out, 4) + index));
      }
      out := PutU16(out, 10, 0);
      out := PutU16(out, 2, ToU16(|out|));
      var sum := Checksum.Sum(out[..o.csumStart], 0);
      out := PutU16(out, 10, Complement(sum));
    } else {
      out := PutU16(out, 4, ToU16(|out| - o.csumStart));
    }
  }

  /** The transport header edits of one loop round. */
  method FixTransport(segment: Packet, o: GsoOptions, firstSeq: u32, index: nat, last: bool) returns (out: Packet)
    requires TransportFits(o, |segment|, last)
    ensures out == WithTransport(segment, o, firstSeq, index, last)
  {
    if Protocol(o.gsoType) == 6 {
      out := PutU32(segment, o.csumStart + 4, ToU32(firstSeq + o.gsoSize * index));
      if !last {
        var at := o.csumStart + TCP_FLAGS_OFFSET;
        out := out[at := ClearFinPsh(out[at])];
      }
    } else {
      out := PutU16(segment, o.csumStart + 4, ToU16(|segment| - o.csumStart));
    }
  }

  /** The transport checksum of one loop round. */
  method FixChecksum(segment: Packet, o: GsoOptions, base: u16) returns (out: Packet)
    requires o.csumStart <= |segment| <= 131072 && CsumAt(o) + 2 <= |segment|
    ensures out == WithChecksum(segment, o, base)
  {
    var csumAt := o.csumStart + o.csumOffset;
    out := PutU16(segment, csumAt, 0);
    var initial := Checksum.Combine(base, ToU16(|out| - o.csumStart));
    var sum := Checksum.Sum(out[o.csumStart..], initial);
    out := PutU16(out, csumAt, Complement(sum));
  }

  /** One round of the segment loop. */
  method BuildSegment(input: Packet, o: GsoOptions, at: nat, index: nat, firstSeq: u32, base: u16)
    returns (out: Packet)
    requires Preparable(input, o) && o.hdrLen <= at <= |input| && RoundFits(input, o, at)
    requires firstSeq == FirstSeq(input, o) && base == PseudoBase(input, o)
    ensures out == Segment(input, o, at, index)
  {
    hide WithIp, WithTransport, WithChecksum, FirstSeq, PseudoBase;
    var end := Min(at + o.gsoSize, |input|);
    out := FixIp(input[..o.hdrLen] + Zeros(end - at), o, Version(input) == 4, index);
    out := FixTransport(out, o, firstSeq, index, end == |input|);
    out := out[..o.hdrLen] + input[at..end];
    out := FixChecksum(out, o, base);
  }

  /** The copy of an unsegmented packet. */
  method CopySingle(input: Packet, o: GsoOptions) returns (pkt: Packet)
    requires CsumAt(o) + 2 <= |input| <= 131072
    ensures pkt == Single(input, o)
  {
    var csumAt := o.csumStart + o.csumOffset;
    pkt := input;
    if o.needsCsum {
      var initial := U16At(pkt, csumAt);
      pkt := PutU16(pkt, csumAt, 0);
      var sum := Checksum.Sum(pkt[o.csumStart..], initial);
      pkt := PutU16(pkt, csumAt, Complement(sum));
    }
  }

  /** The first buffers and sizes hold `done`; the other buffers are as before. */
  predicate Holds(bufs: seq<Packet>, sizes: seq<nat>, before: seq<Packet>, done: seq<Packet>) {
    && |done| <= |bufs| == |before| && |bufs| <= |sizes|
    && bufs == done + before[|done|..]
    && forall k | 0 <= k < |done| :: sizes[k] == |done[k]|
  }

  lemma HoldsOneMore(bufs: seq<Packet>, sizes: seq<nat>, before: seq<Packet>, done: seq<Packet>, next: Packet)
    requires Holds(bufs, sizes, before, done) && |done| < |bufs|
    ensures Holds(bufs[|done| := next], sizes[|done| := |next|], before, done + [next])
  {}

  lemma SplitLoopStart(whole: Option<seq<Packet>>, bufs: seq<Packet>, sizes: seq<nat>)
    requires |bufs| <= |sizes|
    ensures whole == Prefixed([], whole) && Holds(bufs, sizes, bufs, [])
  {
    assert whole.Some? ==> [] + whole.value == whole.value;
    assert [] + bufs[0..] == bufs;
  }

  /** What the loop computes once: the first sequence number and the pseudo header sum. */
  method Prepare(input: Packet, o: GsoOptions) returns (firstSeq: u32, base: u16)
    requires Preparable(input, o)
    ensures firstSeq == FirstSeq(input, o) && base == PseudoBase(input, o)
  {
    firstSeq := if Protocol(o.gsoType) == 6 then U32At(input, o.csumStart + 4) else 0;
    base := Checksum.PseudoHeader(Protocol(o.gsoType), SrcAddr(input), DstAddr(input), 0);
  }

  lemma RoundIs(input: Packet, o: GsoOptions, at: nat, index: nat, slots: nat)
    requires Preparable(input, o) && at < |input| && index < slots && LoopFits(input, o, at, index, slots)
    ensures RoundFits(input, o, at) && LoopFits(input, o, at + o.gsoSize, index + 1, slots)
    ensures 0 < |input| && o.hdrLen <= |input|
  {}

  /** The segment loop. */
  method SplitLoop(input: Packet, o: GsoOptions, outBufs: array<Packet>, sizes: array<nat>)
    returns (r: Result<nat, Error>)
    requires Preparable(input, o) && LoopFits(input, o, o.hdrLen, 0, outBufs.Length)
    requires sizes.Length >= outBufs.Length
    modifies outBufs, sizes
    ensures match SegmentsWithin(input, o, o.hdrLen, 0, outBufs.Length)
            case None => r == Err(TooManySegments)
            case Some(all) => r == Ok(|all|) && Holds(outBufs[..], sizes[..], old(outBufs[..]), all)
  {
    hide *;
    var firstSeq, base := Prepare(input, o);
    ghost var before, done := outBufs[..], [];
    ghost var whole := SegmentsWithin(input, o, o.hdrLen, 0, outBufs.Length);
    SplitLoopStart(whole, outBufs[..], sizes[..]);
    var at, i := o.hdrLen, 0;
    while at < |input|
      invariant o.hdrLen <= at && i == |done| <= outBufs.Length && LoopFits(input, o, at, i, outBufs.Length)
      invariant whole == Prefixed(done, SegmentsWithin(input, o, at, i, outBufs.Length))
      invariant Holds(outBufs[..], sizes[..], before, done)
      decreases outBufs.Length - i
    {
      if i >= outBufs.Length {
        SegmentsWithinEnd(input, o, at, i, outBufs.Length, done);
        return Err(TooManySegments);
      }
      RoundIs(input, o, at, i, outBufs.Length);
      var segment := BuildSegment(input, o, at, i, firstSeq, base);
      HoldsOneMore(outBufs[..], sizes[..], before, done, segment);
      outBufs[i] := segment;
      sizes[i] := |segment|;
      SegmentsWithinStep(input, o, at, i, outBufs.Length, done, segment,
                         SegmentsWithin(input, o, at + o.gsoSize, i + 1, outBufs.Length));
      done := done + [segment];
      at := at + o.gsoSize;
      i := i + 1;
    }
    SegmentsWithinEnd(input, o, at, i, outBufs.Length, done);
    r := Ok(i);
  }

  /** `gso_split`: the segments replace the first output buffers, their lengths the first sizes. */
  method SplitInto(input: Packet, o: GsoOptions, outBufs: array<Packet>, sizes: array<nat>)
    returns (r: Result<nat, Error>)
    requires NoPanic(input, o, outBufs.Length)
    requires sizes.Length >= outBufs.Length
    requires |input| <= 131072 // the reader's buffer holds 65610 octets
    modifies outBufs, sizes
    ensures match Split(input, o, outBufs.Length)
            case Err(e) => r == Err(e)
            case Ok(all) => r == Ok(|all|) && Holds(outBufs[..], sizes[..], old(outBufs[..]), all)
  {
    if o.csumStart + o.csumOffset + 1 >= |input| {
      return Err(ChecksumOutsidePacket);
    }
    if |input| < o.hdrLen {
      return Err(ShorterThanHeaders);
    }
    if o.gsoType.NoGso? || |input| - o.hdrLen < o.gsoSize {
      if outBufs.Length == 0 {
        return Err(NoOutputBuffers);
      }
      var pkt := CopySingle(input, o);
      outBufs[0] := pkt;
      sizes[0] := |input|;
      return Ok(1);
    }
    if o.hdrLen < o.csumStart {
      return Err(HeadersEndBeforeTransport);
    }
    if Protocol(o.gsoType) == 6 && |input| < o.csumStart + 20 {
      return Err(TooShortForTcp);
    }
    r := SplitLoop(input, o, outBufs, sizes);
  }
}
