/** Two consequences of the merging rules: nothing merges at exact capacity, and a batch in which order is lost. */
module GroFindings {
  import opened Bytes
  import opened Checksum
  import opened VirtioNet
  import opened Gro
  import opened GroItems
  import opened GroMerge
  import opened GroInvariant
  import opened GroSteps
  import opened GroRun
  import opened GroProcedure
  import opened GroBatch
  import opened GroFlow
  import opened GroOrder
  import opened GroTcpOrder

  // ---- Exact capacity ----

  /** Buffers as `do_batch_write` allocates them: no room behind the packet. */
  predicate Exact(bufs: seq<Buf>) {
    forall b | 0 <= b < |bufs| :: bufs[b].cap == |bufs[b].bytes|
  }

  /** The buffer of an item has data behind its headers. */
  predicate HasData(item: TcpItem, bufs: seq<Buf>, offset: nat) {
    item.bufsIndex < |bufs| && offset + item.iphLen + item.tcphLen < |bufs[item.bufsIndex].bytes|
  }

  lemma NoRoom(mode: CanCoalesce, arrival: TcpItem, item: TcpItem, bufs: seq<Buf>, offset: nat)
    requires Exact(bufs) && HasData(item, bufs, offset) && HasData(arrival, bufs, offset)
    requires item.iphLen == arrival.iphLen && item.tcphLen == arrival.tcphLen >= 20
    ensures CoalesceTcp(mode, arrival, item, bufs, offset) == (InsufficientCap, item, bufs)
  {
    hide ChecksumValid;
  }

  lemma {:induction false} WalkFindsNoRoom(arrival: TcpItem, items: seq<TcpItem>, i: nat, bufs: seq<Buf>, offset: nat)
    requires i <= |items| && NewFits(arrival, bufs, offset) && Exact(bufs) && HasData(arrival, bufs, offset)
    requires forall k | 0 <= k < i :: TcpItemFits(items[k], arrival, bufs, offset) && HasData(items[k], bufs, offset)
    ensures Walk(arrival, items, i, bufs, offset) == WalkResult(TableInsert, items, bufs)
    decreases i
  {
    hide TcpPacketsCanCoalesce, CoalesceTcp, ChecksumValid;
    if i > 0 {
      var item := items[i - 1];
      assert TcpItemFits(item, arrival, bufs, offset);
      var (pkt, target) := (Pkt(bufs[arrival.bufsIndex], offset), Pkt(bufs[item.bufsIndex], offset));
      CanCoalesceSameHeaders(pkt, arrival, item, target);
      var can := TcpPacketsCanCoalesce(pkt, arrival, item, target);
      if can != Unavailable {
        NoRoom(can, arrival, item, bufs, offset);
      }
      WalkFindsNoRoom(arrival, items, i - 1, bufs, offset);
    }
  }

  function UpTo(n: nat): seq<nat> {
    if n == 0 then [] else UpTo(n - 1) + [n - 1]
  }

  lemma ItemHasData(item: TcpItem, key: TcpFlowKey, bufs: seq<Buf>, contents: Contents, offset: nat, n: nat)
    requires TcpHolds(item, key, bufs, contents, offset, n)
    ensures HasData(item, bufs, offset)
  {}

  /** No table item has taken a second packet. */
  ghost predicate Unmerged(s: State) {
    && (forall key, item | key in s.tcp && item in s.tcp[key] :: item.numMerged == 0)
    && (forall key, item | key in s.udp && item in s.udp[key] :: item.numMerged == 0)
  }

  /** A round cannot merge: the packet is written at its own index, its buffer as it was. */
  lemma TcpNoMerge(s: State, contents: Contents, orig: seq<Buf>, offset: nat, gro: Flags, i: nat, v6: bool)
    requires Inv(s, contents, orig, offset, gro, i) && i < |orig| && Exact(s.bufs) && InPlace(s, offset, i)
    requires |Pkt(s.bufs[i], offset)| >= IpHeaderLen(v6) + 20
    ensures var (r, s') := TcpGro(s, offset, i, v6);
            r != Coalesced && s'.bufs == s.bufs && s'.toWrite == s.toWrite && (Unmerged(s) ==> Unmerged(s'))
  {
    hide ParseTcp, InPlace, Walk, TcpHolds, UdpTableOk, Describe, Written, BufOk, UdpGro;
    Headroom(s, offset, i);
    var pkt := Pkt(s.bufs[i], offset);
    var parsed := ParseTcp(pkt, i, v6);
    if parsed.Some? {
      var arrival := parsed.value;
      ParsedFields(pkt, i, v6, arrival);
      ParsedData(pkt, i, v6, arrival);
      FlowFits(s, offset, i, arrival);
      var items := Items(s.tcp, arrival.key);
      forall k | 0 <= k < |items| ensures HasData(items[k], s.bufs, offset) {
        assert items[k] in s.tcp[arrival.key];
        ItemHasData(items[k], arrival.key, s.bufs, contents, offset, i);
      }
      WalkFindsNoRoom(arrival, items, |items|, s.bufs, offset);
    }
  }

  lemma ParsedData(pkt: Packet, index: nat, v6: bool, a: TcpItem)
    requires |pkt| >= IpHeaderLen(v6) + 20 && ParseTcp(pkt, index, v6) == Some(a)
    ensures a.iphLen + a.tcphLen < |pkt|
  {}

  lemma UdpNoMerge(s: State, contents: Contents, orig: seq<Buf>, offset: nat, gro: Flags, i: nat, v6: bool)
    requires Inv(s, contents, orig, offset, gro, i) && i < |orig| && Exact(s.bufs) && InPlace(s, offset, i)
    requires |Pkt(s.bufs[i], offset)| >= IpHeaderLen(v6) + 8
    ensures var (r, s') := UdpGro(s, offset, i, v6);
            r != Coalesced && s'.bufs == s.bufs && s'.toWrite == s.toWrite && (Unmerged(s) ==> Unmerged(s'))
  {
    hide UdpPacketsCanCoalesce, ChecksumValid, TcpTableOk, Describe, Written, BufOk, UdpHolds;
  }

  /** The empty header is the zeroed headroom that is already there. */
  lemma BlankHeader(b: Buf, offset: nat, little: bool)
    requires BufOk(b, offset)
    ensures WithHeader(b, offset, EMPTY, little) == b
  {
    assert Encode(EMPTY, little) == [0, 0, 0, 0, 0, 0, 0, 0, 0, 0];
    assert b.bytes[offset - HDR_LEN..offset] == [0, 0, 0, 0, 0, 0, 0, 0, 0, 0];
    assert b.bytes == b.bytes[..offset - HDR_LEN] + b.bytes[offset - HDR_LEN..offset] + b.bytes[offset..];
  }

  lemma StepWithoutMerge(s: State, contents: Contents, orig: seq<Buf>, offset: nat, gro: Flags, i: nat, little: bool)
    requires Inv(s, contents, orig, offset, gro, i) && i < |orig| == |s.bufs| && Exact(s.bufs) && InPlace(s, offset, i)
    requires BufOk(s.bufs[i], offset)
    ensures var s' := Step(s, offset, i, gro, little);
            s'.bufs == s.bufs && s'.toWrite == s.toWrite + [i] && (Unmerged(s) ==> Unmerged(s'))
  {
    hide Inv, TcpGro, UdpGro, InPlace, BufOk, WithHeader, Encode;
    Headroom(s, offset, i);
    BlankHeader(s.bufs[i], offset, little);
    match PacketIsGroCandidate(Pkt(s.bufs[i], offset), gro)
    case Tcp4 => TcpNoMerge(s, contents, orig, offset, gro, i, false);
    case Tcp6 => TcpNoMerge(s, contents, orig, offset, gro, i, true);
    case Udp4 => UdpNoMerge(s, contents, orig, offset, gro, i, false);
    case Udp6 => UdpNoMerge(s, contents, orig, offset, gro, i, true);
    case NotCandidate =>
  }

  /**
   With buffers of exact capacity `handle_gro` merges nothing: every packet is written at its own
   index, as it came.
   */
  lemma {:induction false} ExactCapacityNeverMerges(orig: seq<Buf>, offset: nat, gro: Flags, little: bool, n: nat)
    requires Ready(orig, offset) && n <= |orig| && Exact(orig)
    ensures Run(orig, offset, gro, little, n).bufs == orig
    ensures Run(orig, offset, gro, little, n).toWrite == UpTo(n)
    ensures Unmerged(Run(orig, offset, gro, little, n))
  {
    hide Inv, Step, InPlace, BufOk;
    if n > 0 {
      ExactCapacityNeverMerges(orig, offset, gro, little, n - 1);
      var contents := RunKeeps(orig, offset, gro, little, n - 1);
      RunInPlace(orig, offset, gro, little, n - 1);
      assert BufOk(orig[n - 1], offset);
      StepWithoutMerge(Run(orig, offset, gro, little, n - 1), contents, orig, offset, gro, n - 1, little);
    }
  }

  /** Nor does accounting change anything then: the buffers are written as they came. */
  lemma ExactCapacityWritesAsIs(orig: seq<Buf>, offset: nat, gro: Flags, little: bool, bufs': seq<Buf>)
    requires Ready(orig, offset) && Exact(orig)
    requires AccountedTo(Run(orig, offset, gro, little, |orig|), bufs', offset, little)
    ensures bufs' == orig
  {
    hide BufOk, Run;
    ExactCapacityNeverMerges(orig, offset, gro, little, |orig|);
    var s := Run(orig, offset, gro, little, |orig|);
    forall b | 0 <= b < |orig| ensures bufs'[b] == orig[b] {
      assert BufOk(orig[b], offset);
      BlankHeader(orig[b], offset, little);
      if Owned(s, b) {
        if key, item :| key in s.tcp && item in s.tcp[key] && item.bufsIndex == b {
          assert TcpWritten(item, s.bufs, bufs', offset, little);
        } else {
          var key, item :| key in s.udp && item in s.udp[key] && item.bufsIndex == b;
          assert UdpWritten(item, s.bufs, bufs', offset, little);
        }
      }
    }
  }

  // ---- A datagram without data is overtaken ----

  /** UDP from 1.1.1.1 port 7 to 2.2.2.2 port 9 with a right checksum. */
  function Datagram(sum: u16, data: seq<byte>): Packet
    requires |data| <= 1
  {
    [0x45, 0, 0, 28 + |data|, 0, 0, 0, 0, 64, 17, 0, 0, 1, 1, 1, 1, 2, 2, 2, 2,
     0, 7, 0, 9, 0, 8 + |data|, sum / 0x100, sum % 0x100] + data
  }

  const HEADROOM: seq<byte> := [0, 0, 0, 0, 0, 0, 0, 0, 0, 0]

  function InBuffer(pkt: Packet): Buf {
    Buf(HEADROOM + pkt, 70)
  }

  function Three(): seq<Buf> {
    [InBuffer(Datagram(0xf4c6, [5])), InBuffer(Datagram(0xf9c8, [])), InBuffer(Datagram(0xf3c6, [6]))]
  }

  const ITEM := UdpItem(UdpFlowKey([1, 1, 1, 1], [2, 2, 2, 2], 7, 9, false), 0, 0, 1, 20)

  const BOTH := Flags(true, true)

  lemma WordSumOfNine(x: seq<byte>)
    requires |x| == 9
    ensures WordSum(x) == U16At(x, 0) + U16At(x, 2) + U16At(x, 4) + U16At(x, 6) + (x[8] as int) * 0x100
  {
    hide U16At, WordSum;
    WordSumStart(x, 0);
    WordSumStep(x, 0);
    WordSumStep(x, 2);
    WordSumStep(x, 4);
    WordSumStep(x, 6);
    WordSumEnd(x, 8);
  }

  lemma DatagramChecks(sum: u16, data: seq<byte>)
    requires |data| == 1 && sum + (data[0] as int) * 0x100 == 0xf9c6
    ensures ChecksumValid(Datagram(sum, data), 20, 17, false)
  {
    var d := Datagram(sum, data);
    assert d[12..16] == [1, 1, 1, 1] && d[16..20] == [2, 2, 2, 2];
    assert WordSum([1, 1, 1, 1]) == 0x0202 && WordSum([2, 2, 2, 2]) == 0x0404;
    var t := d[20..];
    assert t == [0, 7, 0, 9, 0, 9, sum / 0x100, sum % 0x100] + data;
    WordSumOfNine(t);
    assert WordSum(t) == 7 + 9 + 9 + 0xf9c6;
  }

  lemma InsertFirstUdp(s: State, offset: nat, i: nat, arrival: UdpItem, gro: Flags, little: bool)
    requires InPlace(s, offset, i) && i < |s.bufs| && |Pkt(s.bufs[i], offset)| >= 28
    requires PacketIsGroCandidate(Pkt(s.bufs[i], offset), gro) == Udp4
    requires ParseUdp(Pkt(s.bufs[i], offset), i, false) == Some(arrival) && arrival.key !in s.udp
    ensures Step(s, offset, i, gro, little)
         == s.(udp := s.udp[arrival.key := [arrival]], toWrite := s.toWrite + [i])
  {
    hide ParseUdp, InPlace;
    assert [] + [arrival] == [arrival];
  }

  lemma SkipUdp(s: State, offset: nat, i: nat, gro: Flags, little: bool)
    requires InPlace(s, offset, i) && i < |s.bufs| && |Pkt(s.bufs[i], offset)| >= 28 && BufOk(s.bufs[i], offset)
    requires PacketIsGroCandidate(Pkt(s.bufs[i], offset), gro) == Udp4
    requires ParseUdp(Pkt(s.bufs[i], offset), i, false) == None
    ensures Step(s, offset, i, gro, little) == s.(toWrite := s.toWrite + [i])
  {
    hide ParseUdp, InPlace, WithHeader, Encode;
    BlankHeader(s.bufs[i], offset, little);
  }

  lemma AppendUdp(s: State, offset: nat, i: nat, arrival: UdpItem, item: UdpItem, gro: Flags, little: bool)
    requires InPlace(s, offset, i) && i < |s.bufs| && |Pkt(s.bufs[i], offset)| >= 28
    requires PacketIsGroCandidate(Pkt(s.bufs[i], offset), gro) == Udp4
    requires ParseUdp(Pkt(s.bufs[i], offset), i, false) == Some(arrival)
    requires arrival.key in s.udp && s.udp[arrival.key] == [item]
    requires UdpItemInPlace(item, arrival.key, s.bufs, offset, i)
    requires var (own, pkt) := (s.bufs[item.bufsIndex], Pkt(s.bufs[i], offset));
             && UdpPacketsCanCoalesce(pkt, arrival, item, Pkt(own, offset)) == Append
             && item.iphLen == 20 && own.cap - offset >= |own.bytes| - offset + |pkt| - 28
             && ChecksumValid(Pkt(own, offset), 20, 17, false) && ChecksumValid(pkt, 20, 17, false)
    ensures Step(s, offset, i, gro, little).toWrite == s.toWrite
    ensures var own := s.bufs[item.bufsIndex];
            Step(s, offset, i, gro, little).bufs
            == s.bufs[item.bufsIndex := own.(bytes := own.bytes + Pkt(s.bufs[i], offset)[28..])]
  {
    hide InPlace, ChecksumValid, UdpPacketsCanCoalesce, IpConsistent;
    Headroom(s, offset, i);
    ParsedUdpFields(Pkt(s.bufs[i], offset), i, false, arrival);
  }

  lemma ThreeParts(little: bool)
    ensures Ready(Three(), 10)
    ensures forall b | 0 <= b < 3 :: Pkt(Three()[b], 10) == Three()[b].bytes[10..]
    ensures Pkt(Three()[0], 10) == Datagram(0xf4c6, [5]) && Pkt(Three()[1], 10) == Datagram(0xf9c8, [])
    ensures Pkt(Three()[2], 10) == Datagram(0xf3c6, [6])
  {}

  /** The datagrams as the program parses them. */
  lemma DatagramParses(sum: u16, data: seq<byte>, index: nat)
    requires |data| <= 1
    ensures |Datagram(sum, data)| == 28 + |data| && UdpKey(Datagram(sum, data), false) == ITEM.key
    ensures ParseUdp(Datagram(sum, data), index, false) == if data == [] then None else Some(ITEM.(bufsIndex := index))
  {
    var d := Datagram(sum, data);
    assert d[12..16] == [1, 1, 1, 1] && d[16..20] == [2, 2, 2, 2];
  }

  lemma DatagramIsCandidate(sum: u16, data: seq<byte>)
    requires |data| <= 1
    ensures PacketIsGroCandidate(Datagram(sum, data), BOTH) == Udp4
  {}

  lemma DatagramsMerge(sum: u16, sum': u16, x: byte, x': byte)
    ensures UdpPacketsCanCoalesce(Datagram(sum', [x']), ITEM.(bufsIndex := 2), ITEM, Datagram(sum, [x])) == Append
    ensures Datagram(sum', [x'])[28..] == [x']
  {}

  /**
   Order is kept among the datagrams GRO takes, not around one it passes by: of three datagrams of one
   flow, the second without data, the third is merged into the buffer of the first, which is written
   before the second.
   */
  lemma EmptyDatagramIsOvertaken(little: bool)
    ensures Ready(Three(), 10)
    ensures var s := Run(Three(), 10, BOTH, little, 3);
            && |s.bufs| == 3 && s.toWrite == [0, 1]
            && s.bufs[0].bytes == HEADROOM + Datagram(0xf4c6, [5]) + [6]
            && s.bufs[1].bytes == HEADROOM + Datagram(0xf9c8, [])
    ensures Overtakes(Three(), 10, BOTH, little, ITEM.key, 1, 2)
  {
    hide Run, Step, InPlace, ParseUdp, ChecksumValid, UdpPacketsCanCoalesce, BufOk, PacketIsGroCandidate, Datagram,
         UdpKey, Joins, Passed, Describe;
    ThreeParts(little);
    DatagramParses(0xf4c6, [5], 0);
    DatagramParses(0xf9c8, [], 1);
    DatagramParses(0xf3c6, [6], 2);
    DatagramIsCandidate(0xf4c6, [5]);
    DatagramIsCandidate(0xf9c8, []);
    DatagramIsCandidate(0xf3c6, [6]);
    DatagramsMerge(0xf4c6, 0xf3c6, 5, 6);
    var o := Three();
    RunStart(o, 10, BOTH, little);
    RunOneMore(o, 10, BOTH, little, 0);
    var s0 := State(o, map[], map[], []);
    InsertFirstUdp(s0, 10, 0, ITEM, BOTH, little);
    var s1 := s0.(udp := map[ITEM.key := [ITEM]], toWrite := [0]);
    assert Step(s0, 10, 0, BOTH, little) == s1;
    RunOneMore(o, 10, BOTH, little, 1);
    assert BufOk(o[1], 10);
    SkipUdp(s1, 10, 1, BOTH, little);
    var s2 := s1.(toWrite := [0, 1]);
    assert Step(s1, 10, 1, BOTH, little) == s2;
    RunOneMore(o, 10, BOTH, little, 2);
    DatagramChecks(0xf4c6, [5]);
    DatagramChecks(0xf3c6, [6]);
    assert UdpItemInPlace(ITEM, ITEM.key, o, 10, 2);
    AppendUdp(s2, 10, 2, ITEM.(bufsIndex := 2), ITEM, BOTH, little);
    ThirdJoins(s2);
    DatagramFlow(0xf9c8, []);
    PassedIff(Datagram(0xf9c8, []), BOTH, ITEM.key);
  }

  lemma ThirdJoins(s: State)
    requires s.bufs == Three() && s.udp == map[ITEM.key := [ITEM]]
    ensures Joins(s, 10, 2, BOTH, ITEM.key) && Newest(s, ITEM.key) == ITEM
  {
    hide ChecksumValid, Datagram, WireFlow, Regular, Three;
    ThreeParts(true);
    DatagramParses(0xf4c6, [5], 0);
    DatagramParses(0xf3c6, [6], 2);
    DatagramFlow(0xf3c6, [6]);
    DatagramChecks(0xf4c6, [5]);
    DatagramChecks(0xf3c6, [6]);
    assert |Three()| == 3 && UdpItemInPlace(ITEM, ITEM.key, s.bufs, 10, 2) && s.bufs[0].cap == 70 by {
      ThreeInPlace();
    }
    assert IpClass(Datagram(0xf4c6, [5]), false) == IpClass(Datagram(0xf3c6, [6]), false) by {
      DatagramClass(0xf4c6, [5]);
      DatagramClass(0xf3c6, [6]);
    }
  }

  lemma ThreeInPlace()
    ensures |Three()| == 3 && UdpItemInPlace(ITEM, ITEM.key, Three(), 10, 2) && Three()[0].cap == 70
  {}

  lemma DatagramClass(sum: u16, data: seq<byte>)
    requires |data| <= 1
    ensures IpClass(Datagram(sum, data), false) == [0, 0, 64]
  {}

  lemma DatagramFlow(sum: u16, data: seq<byte>)
    requires |data| <= 1
    ensures WireFlow(Datagram(sum, data), 17) == Some(ITEM.key)
    ensures Regular(Datagram(sum, data)) <==> data != []
  {
    var d := Datagram(sum, data);
    assert d[12..16] == [1, 1, 1, 1] && d[16..20] == [2, 2, 2, 2];
  }

  // ---- A bare acknowledgement is overtaken ----

  function IpPart(length: byte): Packet {
    [0x45, 0, 0, length, 0, 0, 0, 0, 64, 6, 0, 0, 1, 1, 1, 1, 2, 2, 2, 2]
  }

  function TcpPart(sum: u16, seqNum: byte): Packet {
    [0, 7, 0, 9, 0, 0, 0, seqNum, 0, 0, 0, 1, 0x50, TCP_FLAG_ACK, 0, 0, sum / 0x100, sum % 0x100, 0, 0]
  }

  /** TCP from 1.1.1.1 port 7 to 2.2.2.2 port 9 with ACK set. */
  function Segment(sum: u16, seqNum: byte, data: seq<byte>): Packet
    requires |data| <= 1
  {
    IpPart(40 + |data|) + TcpPart(sum, seqNum) + data
  }

  lemma SegmentOctets(sum: u16, seqNum: byte, data: seq<byte>)
    requires |data| <= 1
    ensures var d := Segment(sum, seqNum, data);
            && |d| == 40 + |data| && d[20..] == TcpPart(sum, seqNum) + data && d[40..] == data
            && d[12..16] == [1, 1, 1, 1] && d[16..20] == [2, 2, 2, 2]
            && (forall k | 0 <= k < 20 :: d[k] == IpPart(40 + |data|)[k])
            && forall k | 20 <= k < 40 :: d[k] == TcpPart(sum, seqNum)[k - 20]
  {
    var (ip, tcp) := (IpPart(40 + |data|), TcpPart(sum, seqNum));
    var d := Segment(sum, seqNum, data);
    assert d == ip + (tcp + data) && d == (ip + tcp) + data;
    assert d[12..16] == ip[12..16] == [1, 1, 1, 1] && d[16..20] == ip[16..20] == [2, 2, 2, 2];
  }

  const FIRST := Segment(0xa4bc, 1, [5])
  const BARE := Segment(0xa9bc, 2, [])
  const NEXT := Segment(0xa3bb, 2, [6])

  const SEGMENT := TcpItem(TcpFlowKey([1, 1, 1, 1], [2, 2, 2, 2], 7, 9, 1, false), 1, 0, 0, 1, 20, 20, false)

  function Exchange(): seq<Buf> {
    [InBuffer(FIRST), InBuffer(BARE), InBuffer(NEXT)]
  }

  lemma ExchangeParts()
    ensures |Exchange()| == 3 && (forall b | 0 <= b < 3 :: Exchange()[b].cap == 70 && |Exchange()[b].bytes| >= 50)
    ensures Pkt(Exchange()[0], 10) == FIRST && Pkt(Exchange()[1], 10) == BARE && Pkt(Exchange()[2], 10) == NEXT
    ensures Ready(Exchange(), 10)
  {
    hide Segment;
    SegmentOctets(0xa4bc, 1, [5]);
    SegmentOctets(0xa9bc, 2, []);
    SegmentOctets(0xa3bb, 2, [6]);
  }

  lemma SegmentParses(sum: u16, seqNum: byte, data: seq<byte>, index: nat)
    requires |data| <= 1
    ensures |Segment(sum, seqNum, data)| == 40 + |data| && Segment(sum, seqNum, data)[40..] == data
    ensures PacketIsGroCandidate(Segment(sum, seqNum, data), BOTH) == Tcp4
    ensures ParseTcp(Segment(sum, seqNum, data), index, false)
         == if data == [] then None else Some(SEGMENT.(sentSeq := seqNum, bufsIndex := index))
    ensures WireFlow(Segment(sum, seqNum, data), 6) == Some(Ends(SEGMENT.key))
  {
    hide Segment;
    SegmentOctets(sum, seqNum, data);
  }

  lemma WordSumOfTwentyOne(x: seq<byte>)
    requires |x| == 21
    ensures WordSum(x) == U16At(x, 0) + U16At(x, 2) + U16At(x, 4) + U16At(x, 6) + U16At(x, 8) + U16At(x, 10)
                          + U16At(x, 12) + U16At(x, 14) + U16At(x, 16) + U16At(x, 18) + (x[20] as int) * 0x100
  {
    hide U16At, WordSum;
    WordSumStart(x, 0);
    FiveWords(x, 0);
    FiveWords(x, 10);
    WordSumEnd(x, 20);
  }

  lemma SegmentChecks(sum: u16, seqNum: byte, data: seq<byte>)
    requires |data| == 1 && sum + seqNum + (data[0] as int) * 0x100 == 0xa9bd
    ensures ChecksumValid(Segment(sum, seqNum, data), 20, 6, false)
  {
    hide Segment;
    SegmentOctets(sum, seqNum, data);
    assert WordSum([1, 1, 1, 1]) == 0x0202 && WordSum([2, 2, 2, 2]) == 0x0404;
    var t := TcpPart(sum, seqNum) + data;
    WordSumOfTwentyOne(t);
    assert WordSum(t) == 7 + 9 + seqNum + 1 + 0x5010 + sum + (data[0] as int) * 0x100;
  }

  lemma InsertFirstTcp(s: State, offset: nat, i: nat, arrival: TcpItem, gro: Flags, little: bool)
    requires InPlace(s, offset, i) && i < |s.bufs| && |Pkt(s.bufs[i], offset)| >= 40
    requires PacketIsGroCandidate(Pkt(s.bufs[i], offset), gro) == Tcp4
    requires ParseTcp(Pkt(s.bufs[i], offset), i, false) == Some(arrival) && arrival.key !in s.tcp
    ensures Step(s, offset, i, gro, little)
         == s.(tcp := s.tcp[arrival.key := [arrival]], toWrite := s.toWrite + [i])
  {
    hide ParseTcp, InPlace;
    Headroom(s, offset, i);
    ParsedFields(Pkt(s.bufs[i], offset), i, false, arrival);
    assert [] + [arrival] == [arrival];
    assert s.tcp[arrival.key := []][arrival.key := [arrival]] == s.tcp[arrival.key := [arrival]];
  }

  lemma SkipTcp(s: State, offset: nat, i: nat, gro: Flags, little: bool)
    requires InPlace(s, offset, i) && i < |s.bufs| && |Pkt(s.bufs[i], offset)| >= 40 && BufOk(s.bufs[i], offset)
    requires PacketIsGroCandidate(Pkt(s.bufs[i], offset), gro) == Tcp4
    requires ParseTcp(Pkt(s.bufs[i], offset), i, false) == None
    ensures Step(s, offset, i, gro, little) == s.(toWrite := s.toWrite + [i])
  {
    hide ParseTcp, InPlace, WithHeader, Encode;
    BlankHeader(s.bufs[i], offset, little);
  }

  lemma NextFollows(index: nat)
    ensures |FIRST| == 41 && |NEXT| == 41
    ensures TcpPacketsCanCoalesce(NEXT, SEGMENT.(sentSeq := 2, bufsIndex := index), SEGMENT, FIRST) == Append
  {
    SegmentOctets(0xa4bc, 1, [5]);
    SegmentOctets(0xa3bb, 2, [6]);
    hide Segment;
  }

  /** The item of the first segment takes the third packet. */
  lemma ThirdIsTaken(s: State)
    requires s.bufs == Exchange() && s.tcp == map[SEGMENT.key := [SEGMENT]] && InPlace(s, 10, 2)
    ensures Place(s, 10, 2, BOTH) == Spot(0, false)
  {
    hide Segment, ChecksumValid, ParseTcp, TcpPacketsCanCoalesce, PacketIsGroCandidate, InPlace, Exchange;
    ExchangeParts();
    SegmentParses(0xa3bb, 2, [6], 2);
    SegmentChecks(0xa4bc, 1, [5]);
    SegmentChecks(0xa3bb, 2, [6]);
    NextFollows(2);
    var arrival := SEGMENT.(sentSeq := 2, bufsIndex := 2);
    FlowFits(s, 10, 2, arrival);
    assert Takes(arrival, SEGMENT, s.bufs, 10);
  }

  /**
   Of three packets of one TCP connection, the second a bare acknowledgement, the third is merged into the
   buffer of the first, which is written before the second.
   */
  lemma BareAckIsOvertaken(little: bool)
    ensures Ready(Exchange(), 10) && |Exchange()| == 3
    ensures GetsAhead(Exchange(), 10, BOTH, little, TcpConnection(Ends(SEGMENT.key)), 2)
  {
    hide Run, Step, InPlace, ParseTcp, BufOk, PacketIsGroCandidate, Segment, Describe, InFlow, Place, Exchange,
         GetsAhead;
    ExchangeParts();
    SegmentParses(0xa4bc, 1, [5], 0);
    SegmentParses(0xa9bc, 2, [], 1);
    SegmentParses(0xa3bb, 2, [6], 2);
    var (o, flow) := (Exchange(), TcpConnection(Ends(SEGMENT.key)));
    RunStart(o, 10, BOTH, little);
    RunOneMore(o, 10, BOTH, little, 0);
    var s0 := State(o, map[], map[], []);
    InsertFirstTcp(s0, 10, 0, SEGMENT, BOTH, little);
    var s1 := s0.(tcp := map[SEGMENT.key := [SEGMENT]], toWrite := [0]);
    assert Step(s0, 10, 0, BOTH, little) == s1;
    RunOneMore(o, 10, BOTH, little, 1);
    assert BufOk(o[1], 10);
    SkipTcp(s1, 10, 1, BOTH, little);
    var s2 := s1.(toWrite := [0, 1]);
    assert Step(s1, 10, 1, BOTH, little) == s2;
    RunOneMore(o, 10, BOTH, little, 2);
    ThirdIsTaken(s2);
    InDescsAt(o, 10, BOTH, 3);
    InDescsAt(o, 10, BOTH, 2);
    InFlowIff(BARE, BOTH, flow);
    InFlowIff(NEXT, BOTH, flow);
    var descs := InDescs(o, 10, BOTH, 2);
    assert InDescs(o, 10, BOTH, 3) == descs + [Describe(NEXT, BOTH)];
    GetsAheadIs(o, 10, BOTH, little, flow, 2, descs, Describe(NEXT, BOTH));
    assert 1 in s2.toWrite && InFlow(descs[1], flow);
  }
}
