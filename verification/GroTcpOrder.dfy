/**
 The order of a TCP connection through `handle_gro`, counting every packet of it: segments of any
 acknowledgement number and the packets that merging passes by.
 */
module GroTcpOrder {
  import opened Bytes
  import opened VirtioNet
  import opened Gro
  import opened GroItems
  import opened GroMerge
  import opened GroInvariant
  import opened GroSteps
  import opened GroFlow
  import opened GroRun

  // ---- One packet ----

  /** What a buffer stands for is of the flow of the packet that first had the buffer. */
  predicate OneFlowEach(contents: Contents, descs: seq<Desc>, flow: Flow) {
    && |descs| <= |contents|
    && (forall b | |descs| <= b < |contents| :: contents[b] == [])
    && forall b, e | 0 <= b < |descs| && e in contents[b] :: InFlow(e, flow) <==> InFlow(descs[b], flow)
  }

  lemma OneFlowStays(contents: Contents, contents': Contents, spot: Spot, descs: seq<Desc>, d: Desc, flow: Flow)
    requires OneFlowEach(contents, descs, flow) && PlacedAt(contents, contents', spot, |descs|, d)
    ensures OneFlowEach(contents', descs + [d], flow)
  {
    hide InFlow, SameKey;
    if spot.buffer < |descs| {
      assert SameKey(contents[spot.buffer][0], d);
      SameKeySameFlow(contents[spot.buffer][0], d, flow);
    }
  }

  /** A packet that takes this spot gets in front of one of the flow. */
  predicate Ahead(spot: Spot, toWrite: seq<nat>, descs: seq<Desc>, flow: Flow) {
    spot.front || exists j | spot.buffer < j < |descs| :: j in toWrite && InFlow(descs[j], flow)
  }

  lemma {:induction false} WrittenIff(contents: Contents, i: nat)
    requires i <= |contents|
    ensures forall j: nat :: j in Written(contents, i) <==> j < i && contents[j] != []
  {
    if i > 0 {
      WrittenIff(contents, i - 1);
    }
  }

  lemma AheadIff(contents: Contents, contents': Contents, spot: Spot, descs: seq<Desc>, d: Desc, flow: Flow)
    requires OneFlowEach(contents, descs, flow) && PlacedAt(contents, contents', spot, |descs|, d) && InFlow(d, flow)
    ensures Ahead(spot, Written(contents, |descs|), descs, flow) <==>
              (if spot.front then FlowOf(contents[spot.buffer], flow) else [])
              + FlowOf(Flat(contents[spot.buffer + 1..]), flow) != []
  {
    hide InFlow, SameKey, FlowOf, Flat, Written;
    WrittenIff(contents, |descs|);
    var (b, tail) := (spot.buffer, contents[spot.buffer + 1..]);
    if spot.front {
      assert SameKey(contents[b][0], d);
      SameKeySameFlow(contents[b][0], d, flow);
      FlowOfNone(contents[b], flow);
    } else {
      FlowOfNone(Flat(tail), flow);
      TailIff(contents, b, descs, flow);
    }
  }

  lemma TailIff(contents: Contents, b: nat, descs: seq<Desc>, flow: Flow)
    requires OneFlowEach(contents, descs, flow) && b < |contents|
    ensures (exists d | d in Flat(contents[b + 1..]) :: InFlow(d, flow)) <==>
              exists j | b < j < |descs| :: contents[j] != [] && InFlow(descs[j], flow)
  {
    hide InFlow, Flat;
    var tail := contents[b + 1..];
    if d :| d in Flat(tail) && InFlow(d, flow) {
      InFlat(tail, d);
      var c :| 0 <= c < |tail| && d in tail[c];
      assert contents[b + 1 + c] == tail[c] != [];
    }
    if j :| b < j < |descs| && contents[j] != [] && InFlow(descs[j], flow) {
      assert contents[j] == tail[j - b - 1] && contents[j][0] in contents[j];
      InFlat(tail, contents[j][0]);
    }
  }

  predicate Kept(contents: Contents, descs: seq<Desc>, flow: Flow) {
    FlowOf(Flat(contents), flow) == FlowOf(descs, flow)
  }

  /** The order stays unless the packet gets ahead; if it does, and has no twin, the order is lost. */
  lemma StepOrder(contents: Contents, contents': Contents, spot: Spot, descs: seq<Desc>, d: Desc, flow: Flow)
    requires OneFlowEach(contents, descs, flow) && PlacedAt(contents, contents', spot, |descs|, d)
    requires multiset(Flat(contents)) == multiset(descs)
    ensures !InFlow(d, flow) ==> (Kept(contents', descs + [d], flow) <==> Kept(contents, descs, flow))
    ensures InFlow(d, flow) ==>
              var ahead := Ahead(spot, Written(contents, |descs|), descs, flow);
              && (Kept(contents, descs, flow) && !ahead ==> Kept(contents', descs + [d], flow))
              && (d !in descs && Kept(contents', descs + [d], flow) ==> Kept(contents, descs, flow) && !ahead)
  {
    hide InFlow, SameKey, FlowOf, Flat, Written, OneFlowEach, PlacedAt, Ahead;
    var front, behind := PlacedFlow(contents, contents', spot, |descs|, d, flow);
    FlowOfConcat(descs, [d], flow);
    FlowOfOne(d, flow);
    var arrived := FlowOf(descs, flow);
    assert arrived + [] == arrived;
    if InFlow(d, flow) {
      AheadIff(contents, contents', spot, descs, d, flow);
      if behind == [] {
        assert front + [d] + behind == front + [d] && front + behind == front;
        assert front == (front + [d])[..|front|] && arrived == (arrived + [d])[..|arrived|];
      } else if front + [d] + behind == arrived + [d] {
        var all := front + [d] + behind;
        assert behind[|behind| - 1] == all[|all| - 1] == d;
        assert d in front + behind;
        FlowOfNone(Flat(contents), flow);
        assert d in multiset(Flat(contents));
      }
    }
  }

  // ---- Over a whole batch ----

  /** Packet k of the flow is put in front of an earlier one: of the buffer it joins, or of a later buffer. */
  ghost predicate GetsAhead(orig: seq<Buf>, offset: nat, gro: Flags, little: bool, flow: Flow, k: nat)
    requires Ready(orig, offset) && k < |orig|
  {
    RunInPlace(orig, offset, gro, little, k);
    var s := Run(orig, offset, gro, little, k);
    var descs := InDescs(orig, offset, gro, k + 1);
    && |descs| == k + 1 && InFlow(descs[k], flow)
    && Ahead(Place(s, offset, k, gro), s.toWrite, descs[..k], flow)
  }

  /** No packet of the flow is like an earlier packet. */
  predicate NoTwins(descs: seq<Desc>, flow: Flow) {
    forall j, k | 0 <= j < k < |descs| && InFlow(descs[k], flow) :: descs[j] != descs[k]
  }

  ghost predicate SomeAhead(orig: seq<Buf>, offset: nat, gro: Flags, little: bool, flow: Flow, n: nat)
    requires Ready(orig, offset) && n <= |orig|
  {
    exists k | 0 <= k < n :: GetsAhead(orig, offset, gro, little, flow, k)
  }

  /** The buffers, and how the flow's order in them depends on whether a packet got ahead. */
  predicate Tracks(contents: Contents, descs: seq<Desc>, flow: Flow, ahead: bool) {
    && OneFlowEach(contents, descs, flow) && multiset(Flat(contents)) == multiset(descs)
    && (!ahead ==> Kept(contents, descs, flow))
    && (NoTwins(descs, flow) && Kept(contents, descs, flow) ==> !ahead)
  }

  lemma StepTracks(contents: Contents, contents': Contents, spot: Spot, descs: seq<Desc>, d: Desc, flow: Flow,
                   ahead: bool)
    requires Tracks(contents, descs, flow, ahead) && PlacedAt(contents, contents', spot, |descs|, d)
    requires Adds(contents, contents', d)
    ensures |descs| <= |contents|
    ensures Tracks(contents', descs + [d], flow,
                   ahead || (InFlow(d, flow) && Ahead(spot, Written(contents, |descs|), descs, flow)))
  {
    AddsOne(contents, contents', d);
    hide InFlow, Flat, UdpOf, Written, PlacedAt, Ahead, Kept, NoTwins, Adds;
    OneFlowStays(contents, contents', spot, descs, d, flow);
    StepOrder(contents, contents', spot, descs, d, flow);
    TwinsOneMore(descs, d, flow);
  }

  lemma AddsOne(contents: Contents, contents': Contents, d: Desc)
    requires Adds(contents, contents', d)
    ensures multiset(Flat(contents')) == multiset(Flat(contents)) + multiset{d}
  {
    hide Flat, UdpOf;
  }

  lemma TwinsOneMore(descs: seq<Desc>, d: Desc, flow: Flow)
    ensures NoTwins(descs + [d], flow) <==> NoTwins(descs, flow) && (InFlow(d, flow) ==> d !in descs)
  {
    hide InFlow;
    if NoTwins(descs + [d], flow) {
      forall j, k | 0 <= j < k < |descs| && InFlow(descs[k], flow) ensures descs[j] != descs[k] {
        assert (descs + [d])[j] == descs[j] && (descs + [d])[k] == descs[k];
      }
    }
    if InFlow(d, flow) && d in descs {
      var j :| 0 <= j < |descs| && descs[j] == d;
      assert (descs + [d])[j] == d == (descs + [d])[|descs|];
    }
  }

  lemma WritesAre(s: State, contents: Contents, orig: seq<Buf>, offset: nat, gro: Flags, n: nat)
    requires Inv(s, contents, orig, offset, gro, n)
    ensures n <= |contents| && s.toWrite == Written(contents, n)
  {
    hide TcpTableOk, UdpTableOk, BufOk, Plain;
  }

  lemma RoundTracked(orig: seq<Buf>, offset: nat, gro: Flags, little: bool, flow: Flow, n: nat, before: Contents)
    returns (contents: Contents)
    requires Ready(orig, offset) && n < |orig|
    requires Inv(Run(orig, offset, gro, little, n), before, orig, offset, gro, n)
    requires Tracks(before, InDescs(orig, offset, gro, n), flow, SomeAhead(orig, offset, gro, little, flow, n))
    ensures Inv(Run(orig, offset, gro, little, n + 1), contents, orig, offset, gro, n + 1)
    ensures Tracks(contents, InDescs(orig, offset, gro, n + 1), flow,
                   SomeAhead(orig, offset, gro, little, flow, n + 1))
  {
    hide Inv, InPlace, Describe, Step, Place, PlacedAt, Ahead, Tracks, Adds, GetsAhead, InFlow, BufOk, Written;
    RunOneMore(orig, offset, gro, little, n);
    InDescsAt(orig, offset, gro, n);
    InDescsAt(orig, offset, gro, n + 1);
    var s := Run(orig, offset, gro, little, n);
    var (descs, d) := (InDescs(orig, offset, gro, n), Describe(Pkt(orig[n], offset), gro));
    assert InDescs(orig, offset, gro, n + 1) == descs + [d];
    contents := StepKeeps(s, before, orig, offset, gro, n, little);
    StepTracks(before, contents, Place(s, offset, n, gro), descs, d, flow,
               SomeAhead(orig, offset, gro, little, flow, n));
    WritesAre(s, before, orig, offset, gro, n);
    GetsAheadIs(orig, offset, gro, little, flow, n, descs, d);
  }

  lemma GetsAheadIs(orig: seq<Buf>, offset: nat, gro: Flags, little: bool, flow: Flow, k: nat, descs: seq<Desc>, d: Desc)
    requires Ready(orig, offset) && k < |orig| && |descs| == k && InDescs(orig, offset, gro, k + 1) == descs + [d]
    requires InPlace(Run(orig, offset, gro, little, k), offset, k) && |Run(orig, offset, gro, little, k).bufs| == |orig|
    ensures var s := Run(orig, offset, gro, little, k);
            GetsAhead(orig, offset, gro, little, flow, k) <==>
              InFlow(d, flow) && Ahead(Place(s, offset, k, gro), s.toWrite, descs, flow)
  {
    hide InPlace, InFlow, Ahead, Place, Run, InDescs, BufOk;
    assert (descs + [d])[..k] == descs && (descs + [d])[k] == d;
  }

  lemma StartTracked(orig: seq<Buf>, offset: nat, gro: Flags, little: bool, flow: Flow)
    returns (contents: Contents)
    requires Ready(orig, offset)
    ensures Inv(Run(orig, offset, gro, little, 0), contents, orig, offset, gro, 0)
    ensures Tracks(contents, InDescs(orig, offset, gro, 0), flow, SomeAhead(orig, offset, gro, little, flow, 0))
  {
    hide Inv, GetsAhead, InFlow, Describe, BufOk;
    InvStart(orig, offset, gro);
    contents := seq(|orig|, b => []);
    FlatOfNothing(contents);
    RunStart(orig, offset, gro, little);
  }

  lemma {:induction false} RunTracked(orig: seq<Buf>, offset: nat, gro: Flags, little: bool, flow: Flow, n: nat)
    returns (contents: Contents)
    requires Ready(orig, offset) && n <= |orig|
    ensures Inv(Run(orig, offset, gro, little, n), contents, orig, offset, gro, n)
    ensures Tracks(contents, InDescs(orig, offset, gro, n), flow, SomeAhead(orig, offset, gro, little, flow, n))
  {
    hide Inv, GetsAhead, Tracks, Describe, Run, InDescs, SomeAhead;
    if n == 0 {
      contents := StartTracked(orig, offset, gro, little, flow);
    } else {
      var before := RunTracked(orig, offset, gro, little, flow, n - 1);
      contents := RoundTracked(orig, offset, gro, little, flow, n - 1, before);
    }
  }

  /**
   All packets of a connection come out in their order of arrival if none gets ahead; and if no two of
   them are alike, only if.
   */
  lemma ConnectionOrderIff(orig: seq<Buf>, offset: nat, gro: Flags, little: bool, bufs': seq<Buf>, flow: Flow)
    requires Ready(orig, offset)
    requires AccountedTo(Run(orig, offset, gro, little, |orig|), bufs', offset, little)
    ensures var (arrived, out) := (InDescs(orig, offset, gro, |orig|),
                                   OutDescs(bufs', Run(orig, offset, gro, little, |orig|).toWrite, offset, little, gro));
            && ((forall k | 0 <= k < |orig| :: !GetsAhead(orig, offset, gro, little, flow, k)) ==>
                  FlowOf(out, flow) == FlowOf(arrived, flow))
            && (NoTwins(arrived, flow) && FlowOf(out, flow) == FlowOf(arrived, flow) ==>
                  forall k | 0 <= k < |orig| :: !GetsAhead(orig, offset, gro, little, flow, k))
  {
    hide Inv, AccountedTo, Run, OutDescs, Flat, FlowOf, InDescs, GetsAhead, OneFlowEach, NoTwins;
    var contents := RunTracked(orig, offset, gro, little, flow, |orig|);
    OutIs(Run(orig, offset, gro, little, |orig|), contents, orig, offset, gro, bufs', little);
  }

  // ---- A connection whose segments arrive in sequence ----

  /** How far behind `base` a sequence number is. */
  function Distance(base: u32, seqNum: u32): nat {
    ToU32(seqNum - base)
  }

  /** Segments with data, each behind the one before it, with gaps or without, less than 2^32 octets from `base`. */
  predicate InSequence(descs: seq<Desc>, base: u32) {
    && (forall d | d in descs :: d.TcpSegment? && Distance(base, d.seqNum) + |d.payload| < 0x1_0000_0000)
    && forall i, j | 0 <= i < j < |descs| ::
         Distance(base, descs[i].seqNum) + |descs[i].payload| <= Distance(base, descs[j].seqNum)
  }

  predicate WithData(descs: seq<Desc>) {
    forall d | d in descs :: d.TcpSegment? && |d.payload| > 0
  }

  lemma Beyond(base: u32, seqNum: u32, length: nat)
    requires Distance(base, seqNum) + length < 0x1_0000_0000
    ensures Distance(base, ToU32(seqNum + length)) == Distance(base, seqNum) + length
  {}

  /** Of segments in sequence a further one continues only the last, and precedes none. */
  lemma OnlyTheLast(descs: seq<Desc>, d: Desc, base: u32, x: nat)
    requires InSequence(descs + [d], base) && WithData(descs + [d]) && x < |descs|
    ensures d.TcpSegment? && descs[x].TcpSegment?
    ensures d.seqNum == ToU32(descs[x].seqNum + |descs[x].payload|) ==> x == |descs| - 1
    ensures ToU32(d.seqNum + |d.payload|) != descs[x].seqNum
  {
    hide ToU32, Distance;
    var all := descs + [d];
    assert all[|descs|] == d && all[x] == descs[x] && all[x] in all && d in all;
    Beyond(base, descs[x].seqNum, |descs[x].payload|);
    Beyond(base, d.seqNum, |d.payload|);
    if x < |descs| - 1 {
      assert all[x + 1] == descs[x + 1] && all[x + 1] in all;
    }
  }

  /** The ends of the segments of a payload. */
  lemma {:induction false} SegmentEnds(like: Desc, seqNum: u32, size: nat, payload: seq<byte>)
    requires like.TcpSegment? && size > 0 && |payload| > 0
    ensures var r := TcpSegments(like, seqNum, size, payload);
            && WithData(r) && r[0].seqNum == seqNum
            && ToU32(r[|r| - 1].seqNum + |r[|r| - 1].payload|) == ToU32(seqNum + |payload|)
    decreases |payload|
  {
    if |payload| > size {
      SegmentEnds(like, ToU32(seqNum + size), size, payload[size..]);
      SeqAdvance(seqNum, size, |payload| - size);
    }
  }

  lemma ItemEnds(item: TcpItem, pkt: Packet)
    requires TcpItemOk(item, pkt)
    ensures var r := ItemSegments(item, pkt);
            && r != [] && WithData(r) && r[0].seqNum == item.sentSeq
            && ToU32(r[|r| - 1].seqNum + |r[|r| - 1].payload|)
               == ToU32(item.sentSeq + (|pkt| - HeadersLen(pkt, item.key.v6)))
  {
    hide TcpSegments;
    var like := Like(pkt, item.key.v6);
    var verifies := ChecksumsHold(item.numMerged, pkt, item.iphLen, 6, item.key.v6);
    SegmentEnds(like.(verifies := verifies), item.sentSeq, item.gsoSize, pkt[HeadersLen(pkt, item.key.v6)..]);
  }

  /** A segment that joins a buffer precedes the first segment there or continues the last. */
  predicate Adjoins(segments: seq<Desc>, d: Desc, front: bool) {
    && segments != [] && WithData(segments) && WithData([d])
    && var (first, last) := (segments[0], segments[|segments| - 1]);
       if front then ToU32(d.seqNum + |d.payload|) == first.seqNum
       else d.seqNum == ToU32(last.seqNum + |last.payload|)
  }

  lemma TakerAdjoins(arrival: TcpItem, pkt: Packet, item: TcpItem, target: Packet)
    requires TcpItemOk(item, target) && TcpItemOk(arrival, pkt) && arrival.key == item.key && arrival.numMerged == 0
    requires TcpPacketsCanCoalesce(pkt, arrival, item, target) != Unavailable
    ensures Adjoins(ItemSegments(item, target), AsSegment(pkt, item.key.v6),
                    TcpPacketsCanCoalesce(pkt, arrival, item, target) == Prepend)
  {
    hide ItemSegments, TcpPacketsCanCoalesce, IpConsistent, TcpKey, IpClass, ChecksumValid, TcpOptions;
    ItemEnds(item, target);
    if TcpPacketsCanCoalesce(pkt, arrival, item, target) == Prepend {
      PrependMeans(pkt, arrival, item, target);
    } else {
      AppendMeans(pkt, arrival, item, target);
    }
  }

  /** So does the packet whose place is not its own buffer. */
  lemma PlaceAdjoins(s: State, contents: Contents, orig: seq<Buf>, offset: nat, gro: Flags, k: nat)
    requires Inv(s, contents, orig, offset, gro, k) && InPlace(s, offset, k) && k < |orig| && offset <= |orig[k].bytes|
    requires k < |s.bufs| && Describe(Pkt(orig[k], offset), gro).TcpSegment?
    requires Place(s, offset, k, gro) != Spot(k, false)
    ensures var spot := Place(s, offset, k, gro);
            && spot.buffer < |contents|
            && Adjoins(contents[spot.buffer], Describe(Pkt(orig[k], offset), gro), spot.front)
  {
    hide Inv, InPlace, Describe, Adjoins, TcpPlace, UdpPlace;
    InvBufs(s, contents, orig, offset, gro, k);
    var pkt := Pkt(orig[k], offset);
    SegmentIsCandidate(pkt, gro);
    match PacketIsGroCandidate(pkt, gro)
    case Tcp4 => TcpPlaceAdjoins(s, contents, orig, offset, gro, k, false);
    case Tcp6 => TcpPlaceAdjoins(s, contents, orig, offset, gro, k, true);
  }

  lemma SegmentIsCandidate(pkt: Packet, gro: Flags)
    requires Describe(pkt, gro).TcpSegment?
    ensures PacketIsGroCandidate(pkt, gro) == Tcp4 || PacketIsGroCandidate(pkt, gro) == Tcp6
  {
    hide ChecksumValid;
  }

  lemma TcpPlaceAdjoins(s: State, contents: Contents, orig: seq<Buf>, offset: nat, gro: Flags, k: nat, v6: bool)
    requires Inv(s, contents, orig, offset, gro, k) && InPlace(s, offset, k)
    requires k < |orig| == |s.bufs| && s.bufs[k] == orig[k] && offset <= |orig[k].bytes|
    requires PacketIsGroCandidate(Pkt(orig[k], offset), gro) == if v6 then Tcp6 else Tcp4
    requires |Pkt(orig[k], offset)| >= IpHeaderLen(v6) + 20 && TcpPlace(s, offset, k, v6) != Spot(k, false)
    ensures var spot := TcpPlace(s, offset, k, v6);
            && spot.buffer < |contents|
            && Adjoins(contents[spot.buffer], Describe(Pkt(orig[k], offset), gro), spot.front)
  {
    hide InPlace, Describe, Adjoins, ParseTcp, Taker, PacketIsGroCandidate, TcpItemOk, ItemSegments, AsSegment, TcpShape,
         TcpPacketsCanCoalesce, IpConsistent, UdpTableOk, BufOk, Owned, Plain, Written;
    var pkt := Pkt(orig[k], offset);
    var arrival := ParseTcp(pkt, k, v6).value;
    ParsedFields(pkt, k, v6, arrival);
    ParsedShape(pkt, gro, v6, k);
    NewItemOk(pkt, gro, v6, arrival);
    FlowFits(s, offset, k, arrival);
    var item := Taker(arrival, Items(s.tcp, arrival.key), s.bufs, offset).value;
    assert TcpHolds(item, arrival.key, s.bufs, contents, offset, k);
    TakerAdjoins(arrival, pkt, item, Pkt(s.bufs[item.bufsIndex], offset));
  }

  lemma {:induction false} FlowOfAll(descs: seq<Desc>, flow: Flow)
    requires forall d | d in descs :: InFlow(d, flow)
    ensures FlowOf(descs, flow) == descs
    decreases |descs|
  {
    hide InFlow;
    if descs != [] {
      FlowOfAll(descs[1..], flow);
    }
  }

  /** A buffer's packets lie in the flow between those of earlier and those of later buffers. */
  lemma FlowAround(contents: Contents, b: nat, flow: Flow) returns (head: seq<Desc>)
    requires b < |contents|
    ensures FlowOf(Flat(contents), flow)
         == head + FlowOf(contents[b], flow) + FlowOf(Flat(contents[b + 1..]), flow)
  {
    hide Flat, FlowOf;
    FlatAt(contents, b);
    head := FlowOf(Flat(contents[..b]), flow);
    FlowOfThree(Flat(contents[..b]), contents[b], Flat(contents[b + 1..]), flow);
  }

  /** In sequence, what joins a buffer joins the last one of its flow, at the end. */
  lemma InSequenceAtEnd(contents: Contents, contents': Contents, spot: Spot, descs: seq<Desc>, d: Desc, flow: Flow,
                        base: u32)
    requires OneFlowEach(contents, descs, flow) && PlacedAt(contents, contents', spot, |descs|, d)
    requires Kept(contents, descs, flow) && InFlow(d, flow)
    requires InSequence(FlowOf(descs, flow) + [d], base) && WithData(FlowOf(descs, flow) + [d])
    requires spot != Spot(|descs|, false) ==> Adjoins(contents[spot.buffer], d, spot.front)
    ensures !Ahead(spot, Written(contents, |descs|), descs, flow)
  {
    hide InFlow, Flat, FlowOf, Ahead, Written, InSequence, WithData, ToU32;
    var b := spot.buffer;
    AheadIff(contents, contents', spot, descs, d, flow);
    if b == |descs| {
      FlatOfNothing(contents[b + 1..]);
      FlowOfNone(Flat(contents[b + 1..]), flow);
    } else {
      forall e | e in contents[b] ensures InFlow(e, flow) {
        SameKeySameFlow(e, d, flow);
      }
      FlowOfAll(contents[b], flow);
      var all := FlowOf(descs, flow);
      var head := FlowAround(contents, b, flow);
      JoinsAtEnd(head, contents[b], FlowOf(Flat(contents[b + 1..]), flow), d, spot.front, base);
    }
  }

  lemma JoinsAtEnd(head: seq<Desc>, mid: seq<Desc>, tail: seq<Desc>, d: Desc, front: bool, base: u32)
    requires InSequence(head + mid + tail + [d], base) && WithData(head + mid + tail + [d])
    requires Adjoins(mid, d, front)
    ensures !front && tail == []
  {
    hide InSequence, WithData, ToU32;
    var all := head + mid + tail;
    var x := if front then |head| else |head| + |mid| - 1;
    assert all[x] == mid[x - |head|];
    OnlyTheLast(all, d, base, x);
  }

  lemma {:induction false} InSequenceNoneAhead(orig: seq<Buf>, offset: nat, gro: Flags, little: bool, flow: Flow,
                                               base: u32, n: nat)
    requires Ready(orig, offset) && n <= |orig|
    requires InSequence(FlowOf(InDescs(orig, offset, gro, n), flow), base)
    ensures !SomeAhead(orig, offset, gro, little, flow, n)
  {
    hide Inv, Describe, Run, GetsAhead, InFlow, InDescs, FlowOf, BufOk;
    if n > 0 {
      var k := n - 1;
      InDescsAt(orig, offset, gro, k);
      InDescsAt(orig, offset, gro, n);
      var (descs, d) := (InDescs(orig, offset, gro, k), Describe(Pkt(orig[k], offset), gro));
      assert InDescs(orig, offset, gro, n) == descs + [d];
      FlowOfConcat(descs, [d], flow);
      FlowOfOne(d, flow);
      InSequencePrefix(FlowOf(descs, flow), FlowOf([d], flow), base);
      InSequenceNoneAhead(orig, offset, gro, little, flow, base, k);
      if InFlow(d, flow) {
        NextInSequence(orig, offset, gro, little, flow, base, k, descs, d);
      } else {
        NotItsFlow(orig, offset, gro, little, flow, k);
      }
    }
  }

  lemma InSequencePrefix(descs: seq<Desc>, more: seq<Desc>, base: u32)
    requires InSequence(descs + more, base)
    ensures InSequence(descs, base)
  {
    var all := descs + more;
    assert forall i | 0 <= i < |descs| :: all[i] == descs[i];
    assert forall d | d in descs :: d in all;
  }

  lemma NotItsFlow(orig: seq<Buf>, offset: nat, gro: Flags, little: bool, flow: Flow, k: nat)
    requires Ready(orig, offset) && k < |orig|
    requires |InDescs(orig, offset, gro, k + 1)| == k + 1 && !InFlow(InDescs(orig, offset, gro, k + 1)[k], flow)
    ensures !GetsAhead(orig, offset, gro, little, flow, k)
  {
    hide Run, InFlow, InDescs, BufOk, Ahead, Place;
  }

  lemma NextInSequence(orig: seq<Buf>, offset: nat, gro: Flags, little: bool, flow: Flow, base: u32, k: nat,
                       descs: seq<Desc>, d: Desc)
    requires Ready(orig, offset) && k < |orig| && offset <= |orig[k].bytes|
    requires descs == InDescs(orig, offset, gro, k) && d == Describe(Pkt(orig[k], offset), gro)
    requires InDescs(orig, offset, gro, k + 1) == descs + [d] && |descs| == k && InFlow(d, flow)
    requires !SomeAhead(orig, offset, gro, little, flow, k)
    requires InSequence(FlowOf(descs, flow) + [d], base)
    ensures !GetsAhead(orig, offset, gro, little, flow, k)
  {
    hide Inv, InPlace, Describe, Run, GetsAhead, InFlow, InDescs, FlowOf, Flat, Kept, NoTwins, OneFlowEach, PlacedAt, Adds,
         Place, Step, Ahead, Adjoins, Written, BufOk, SomeAhead;
    var s := Run(orig, offset, gro, little, k);
    RunOneMore(orig, offset, gro, little, k);
    var before := RunTracked(orig, offset, gro, little, flow, k);
    var contents := StepKeeps(s, before, orig, offset, gro, k, little);
    InvBufs(s, before, orig, offset, gro, k);
    FlowOfConcat(descs, [d], flow);
    FlowOfOne(d, flow);
    FlowHasData(orig, offset, gro, k + 1, flow, base);
    assert d in FlowOf(descs, flow) + [d];
    if Place(s, offset, k, gro) != Spot(k, false) {
      PlaceAdjoins(s, before, orig, offset, gro, k);
    }
    InSequenceAtEnd(before, contents, Place(s, offset, k, gro), descs, d, flow, base);
    WritesAre(s, before, orig, offset, gro, k);
    GetsAheadIs(orig, offset, gro, little, flow, k, descs, d);
  }

  lemma FlowHasData(orig: seq<Buf>, offset: nat, gro: Flags, n: nat, flow: Flow, base: u32)
    requires Ready(orig, offset) && n <= |orig| && InSequence(FlowOf(InDescs(orig, offset, gro, n), flow), base)
    ensures WithData(FlowOf(InDescs(orig, offset, gro, n), flow))
  {
    hide Describe, FlowOf, InFlow, InDescs, Distance, BufOk;
    var descs := InDescs(orig, offset, gro, n);
    InDescsAt(orig, offset, gro, n);
    FlowOfNone(descs, flow);
    forall d | d in FlowOf(descs, flow) ensures d.TcpSegment? && |d.payload| > 0 {
      var j :| 0 <= j < n && descs[j] == d;
      SegmentHasData(Pkt(orig[j], offset), gro);
    }
  }

  lemma SegmentHasData(pkt: Packet, gro: Flags)
    requires Describe(pkt, gro).TcpSegment?
    ensures |Describe(pkt, gro).payload| > 0
  {
    hide ChecksumValid;
  }

  /**
   The segments of a connection that arrive in sequence come out in that order, whatever else is in the batch: all
   of the connection's packets are segments merging takes, with any acknowledgement numbers and flags, with gaps
   or without.
   */
  lemma InSequenceKeepsOrder(orig: seq<Buf>, offset: nat, gro: Flags, little: bool, bufs': seq<Buf>,
                             ends: UdpFlowKey, base: u32)
    requires Ready(orig, offset)
    requires AccountedTo(Run(orig, offset, gro, little, |orig|), bufs', offset, little)
    requires InSequence(FlowOf(InDescs(orig, offset, gro, |orig|), TcpConnection(ends)), base)
    ensures var out := OutDescs(bufs', Run(orig, offset, gro, little, |orig|).toWrite, offset, little, gro);
            FlowOf(out, TcpConnection(ends)) == FlowOf(InDescs(orig, offset, gro, |orig|), TcpConnection(ends))
  {
    hide AccountedTo, Run, OutDescs, FlowOf, InDescs, GetsAhead, NoTwins, InSequence;
    InSequenceNoneAhead(orig, offset, gro, little, TcpConnection(ends), base, |orig|);
    ConnectionOrderIff(orig, offset, gro, little, bufs', TcpConnection(ends));
  }
}
