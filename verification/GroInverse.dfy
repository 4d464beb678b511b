/**
 The other direction of the offload round trip: the segments of a kernel GSO packet, merged again,
 are the packet itself, octet for octet, behind the same `virtio_net_hdr`.
 */
module GroInverse {
  import opened Arith
  import opened Bytes
  import opened Checksum
  import opened VirtioNet
  import opened GsoSplit
  import opened GsoProperties
  import Wire
  import opened Gro
  import opened GroItems
  import opened GroMerge
  import opened GroInvariant
  import opened GroSteps
  import opened GroAccount
  import opened GroRun

  /** An offloaded TCP packet and the segment size of the header in front of it. */
  datatype Gso = Gso(pkt: Packet, v6: bool, size: u16)

  /**
   What the kernel sends: flags ACK or ACK|PSH, exact IP lengths, an IPv4 header checksum in its
   canonical form, the pseudo header sum in the TCP checksum field, and at least two segments.
   */
  predicate KernelGso(g: Gso) {
    && TcpShape(g.pkt, g.v6) && g.size > 0 && HeadersLen(g.pkt, g.v6) + g.size < |g.pkt|
    && (if g.v6 then U16At(g.pkt, 4) == |g.pkt| - 40
        else U16At(g.pkt, 2) == |g.pkt|
             && U16At(g.pkt, 10) == Complement(Fold(WordSum(PutU16(g.pkt, 10, 0)[..20]))))
    && var (off, z) := (AddrOff(g.v6), AddrSize(g.v6));
       U16At(g.pkt, IpHeaderLen(g.v6) + 16)
       == Fold(PseudoSum(6, g.pkt[off..off + z], g.pkt[off + z..off + 2 * z], |g.pkt| - IpHeaderLen(g.v6)))
  }

  function Hl(g: Gso): nat
    requires KernelGso(g)
  {
    HeadersLen(g.pkt, g.v6)
  }

  /** The header the kernel puts in front of it. */
  function KernelHeader(g: Gso): Header
    requires KernelGso(g)
  {
    Header(F_NEEDS_CSUM, if g.v6 then GSO_TCPV6 else GSO_TCPV4, HeadersLen(g.pkt, g.v6), g.size, IpHeaderLen(g.v6),
           CSUM_OFFSET_TCP)
  }

  function Opt(g: Gso): GsoOptions
    requires KernelGso(g)
  {
    TcpGsoOptions(g.v6, HeadersLen(g.pkt, g.v6), g.size)
  }

  function Start(g: Gso, k: nat): nat
    requires KernelGso(g)
  {
    Hl(g) + Times(k, g.size)
  }

  predicate Psh(pkt: Packet, v6: bool)
    requires |pkt| >= IpHeaderLen(v6) + 20
  {
    pkt[IpHeaderLen(v6) + 13] != TCP_FLAG_ACK
  }

  /** Everything merging looks at in segment k. */
  predicate IsSegment(g: Gso, k: nat, s: Packet)
    requires KernelGso(g) && Start(g, k) < |g.pkt|
  {
    var end := Min(Start(g, k + 1), |g.pkt|);
    && TcpShape(s, g.v6) && IpConsistent(s, g.v6) && HeadersLen(s, g.v6) == Hl(g) && Like(s, g.v6) == Like(g.pkt, g.v6)
    && U32At(s, IpHeaderLen(g.v6) + 4) == ToU32(U32At(g.pkt, IpHeaderLen(g.v6) + 4) + g.size * k)
    && s[Hl(g)..] == g.pkt[Start(g, k)..end]
    && (Psh(s, g.v6) <==> Psh(g.pkt, g.v6) && end == |g.pkt|)
    && ChecksumValid(s, IpHeaderLen(g.v6), 6, g.v6)
  }

  lemma LayoutOk(g: Gso)
    requires KernelGso(g)
    ensures TcpShape(g.pkt, g.v6) && g.size > 0 && IpHeaderLen(g.v6) + 20 <= Hl(g) && Hl(g) + g.size < |g.pkt| <= 0xffff
    ensures StandardLayout(g.pkt, Opt(g)) && Opt(g).hdrLen == Hl(g) && Opt(g).gsoSize == g.size
  {
    TcpLayout(g.pkt, g.v6, g.size);
  }

  lemma SegmentIs(g: Gso, k: nat, s: Packet)
    requires KernelGso(g) && Start(g, k) < |g.pkt|
    requires StandardLayout(g.pkt, Opt(g)) && s == Segment(g.pkt, Opt(g), Start(g, k), k)
    ensures IsSegment(g, k, s)
  {
    hide Segment, Like, U32At, ToU32, ChecksumValid, TransportVerifies, IpHeaderRight, SameHeaders, StandardLayout,
         KernelGso;
    LayoutOk(g);
    SegmentShape(g.pkt, g.v6, Opt(g), Start(g, k), k, s);
    SegmentIsValid(g.pkt, Opt(g), Start(g, k), k, s);
    SegmentChecks(s, g.v6, Opt(g));
  }

  // ---- The packet in the first buffer while segments are appended ----

  /** The first segment's headers, PSH once the last segment is in, and the data of k segments. */
  function Partial(g: Gso, first: Packet, k: nat): Packet
    requires KernelGso(g) && |first| >= Hl(g)
  {
    var end := Min(Start(g, k), |g.pkt|);
    var flagsAt := IpHeaderLen(g.v6) + 13;
    LayoutOk(g);
    var headers := if end == |g.pkt| && Psh(g.pkt, g.v6) then first[flagsAt := WithPsh(first[flagsAt])] else first;
    headers[..Hl(g)] + g.pkt[Hl(g)..end]
  }

  /** The table item after k segments. */
  function ItemAfter(g: Gso, k: nat): TcpItem
    requires KernelGso(g) && k > 0
  {
    var iph := IpHeaderLen(g.v6);
    LayoutOk(g);
    TcpItem(TcpKey(g.pkt, g.v6), U32At(g.pkt, iph + 4), 0, k - 1, g.size, iph, Hl(g) - iph,
            Start(g, k) >= |g.pkt| && Psh(g.pkt, g.v6))
  }

  /** Segment k as `tcp_gro` parses it. */
  function ArrivalOf(g: Gso, k: nat): TcpItem
    requires KernelGso(g) && Start(g, k) < |g.pkt|
  {
    var iph := IpHeaderLen(g.v6);
    LayoutOk(g);
    TcpItem(TcpKey(g.pkt, g.v6), ToU32(U32At(g.pkt, iph + 4) + g.size * k), k, 0,
            Min(Start(g, k + 1), |g.pkt|) - Start(g, k), iph, Hl(g) - iph,
            Start(g, k + 1) >= |g.pkt| && Psh(g.pkt, g.v6))
  }

  lemma SegmentParses(g: Gso, k: nat, s: Packet, gro: Flags)
    requires KernelGso(g) && Start(g, k) < |g.pkt| && IsSegment(g, k, s) && gro.canTcp
    ensures PacketIsGroCandidate(s, gro) == if g.v6 then Tcp6 else Tcp4
    ensures |s| >= IpHeaderLen(g.v6) + 20 && ParseTcp(s, k, g.v6) == Some(ArrivalOf(g, k))
  {
    hide KernelGso, U32At, ToU32, ChecksumValid, Like, IpClass, TcpOptions, TcpKey, U16At;
    LayoutOk(g);
    assert |s| - Hl(g) == |s[Hl(g)..]|;
    LikeKey(s, g.pkt, g.v6);
  }

  /** The partial packet is a TCP packet like the original. */
  lemma PartialShape(g: Gso, first: Packet, k: nat)
    requires KernelGso(g) && IsSegment(g, 0, first) && k > 0
    ensures var m := Partial(g, first, k);
            && TcpShape(m, g.v6) && HeadersLen(m, g.v6) == Hl(g) && Like(m, g.v6) == Like(g.pkt, g.v6)
            && |m| == Min(Start(g, k), |g.pkt|)
            && m[Hl(g)..] == g.pkt[Hl(g)..Min(Start(g, k), |g.pkt|)]
  {
    hide KernelGso, U32At, ToU32, ChecksumValid, Like, WithPsh;
    LayoutOk(g);
    TimesMonotone(1, k, g.size);
    assert Times(1, g.size) == g.size;
    var flagsAt := IpHeaderLen(g.v6) + 13;
    var m := Partial(g, first, k);
    var both := TCP_FLAG_ACK + TCP_FLAG_PSH;
    assert WithPsh(TCP_FLAG_ACK) == both && WithPsh(both) == both by {
      PshIsSet();
    }
    assert SameTcpHeaders(first, m, g.v6, Hl(g));
    SameTcpHeadersShape(first, m, g.v6);
  }

  lemma PshIsSet()
    ensures WithPsh(TCP_FLAG_ACK) == TCP_FLAG_ACK + TCP_FLAG_PSH
    ensures WithPsh(TCP_FLAG_ACK + TCP_FLAG_PSH) == TCP_FLAG_ACK + TCP_FLAG_PSH
  {}

  /** The conditions under which `tcp_packets_can_coalesce` answers Append. */
  lemma AppendConditions(pkt: Packet, arrival: TcpItem, item: TcpItem, target: Packet)
    requires |pkt| >= arrival.iphLen + arrival.tcphLen && |target| >= item.iphLen + item.tcphLen
    requires arrival.iphLen == item.iphLen && item.gsoSize > 0 && arrival.tcphLen == item.tcphLen >= 20
    requires pkt[item.iphLen + 20..item.iphLen + item.tcphLen] == target[item.iphLen + 20..item.iphLen + item.tcphLen]
    requires IpHeadersCanCoalesce(pkt, target) && !item.pshSet && arrival.gsoSize <= item.gsoSize
    requires arrival.sentSeq == ToU32(item.sentSeq + (item.gsoSize + item.numMerged * item.gsoSize))
    requires (|target| - item.iphLen - item.tcphLen) % item.gsoSize == 0
    ensures TcpPacketsCanCoalesce(pkt, arrival, item, target) == Append
  {
    hide ToU32, IpHeadersCanCoalesce;
  }

  /** The next segment starts where the merged ones end. */
  lemma NextSeq(g: Gso, k: nat)
    requires KernelGso(g) && k > 0 && Start(g, k) < |g.pkt|
    ensures ArrivalOf(g, k).sentSeq
         == ToU32(ItemAfter(g, k).sentSeq + (g.size + ItemAfter(g, k).numMerged * g.size))
  {
    hide KernelGso, U32At, ToU32;
    assert g.size + (k - 1) * g.size == g.size * k;
  }

  lemma OptionsAgree(a: Packet, b: Packet, v6: bool, hl: nat)
    requires TcpShape(a, v6) && TcpShape(b, v6) && Like(a, v6) == Like(b, v6)
    requires HeadersLen(a, v6) == hl == HeadersLen(b, v6)
    ensures IpHeaderLen(v6) + 20 <= hl <= |a| && hl <= |b|
    ensures a[IpHeaderLen(v6) + 20..hl] == b[IpHeaderLen(v6) + 20..hl]
  {
    LikeKey(a, b, v6);
    assert TcpOptions(a, v6) == a[IpHeaderLen(v6) + 20..hl] && TcpOptions(b, v6) == b[IpHeaderLen(v6) + 20..hl];
  }

  lemma SegmentLike(g: Gso, k: nat, s: Packet)
    requires KernelGso(g) && Start(g, k) < |g.pkt| && IsSegment(g, k, s)
    ensures TcpShape(g.pkt, g.v6) && TcpShape(s, g.v6) && HeadersLen(s, g.v6) == Hl(g)
    ensures Like(s, g.v6) == Like(g.pkt, g.v6)
  {
    hide KernelGso, ChecksumValid;
    LayoutOk(g);
  }

  /** Segment k continues the partial packet of k segments. */
  lemma AppendChosen(g: Gso, first: Packet, k: nat, s: Packet)
    requires KernelGso(g) && Start(g, 0) < |g.pkt| && IsSegment(g, 0, first) && k > 0
    requires Start(g, k) < |g.pkt| && IsSegment(g, k, s)
    requires |first| >= Hl(g) && |Partial(g, first, k)| >= Hl(g) && |s| >= Hl(g) && IpHeaderLen(g.v6) <= Hl(g)
    ensures TcpPacketsCanCoalesce(s, ArrivalOf(g, k), ItemAfter(g, k), Partial(g, first, k)) == Append
  {
    hide KernelGso, U32At, ToU32, IsSegment, Like, Partial, IpHeadersCanCoalesce, TcpShape, TcpPacketsCanCoalesce,
         HeadersLen, StandardLayout, TcpKey, Opt, Psh;
    var m := Partial(g, first, k);
    LayoutOk(g);
    SegmentLike(g, k, s);
    PartialShape(g, first, k);
    OptionsAgree(s, m, g.v6, Hl(g));
    LikeCanCoalesce(s, m, g.v6);
    MultipleOf(k, g.size);
    NextSeq(g, k);
    AppendConditions(s, ArrivalOf(g, k), ItemAfter(g, k), m);
  }

  /** The partial packet of one segment is the segment. */
  lemma PartialOfOne(g: Gso, first: Packet)
    requires KernelGso(g) && IsSegment(g, 0, first) && |first| >= Hl(g)
    ensures Partial(g, first, 1) == first
  {
    hide KernelGso, U32At, ToU32, ChecksumValid, Like, TcpShape;
    LayoutOk(g);
    assert Times(1, g.size) == g.size;
    assert first[..Hl(g)] + first[Hl(g)..] == first;
  }

  lemma PartialOneMore(g: Gso, first: Packet, k: nat, s: Packet)
    requires KernelGso(g) && IsSegment(g, 0, first) && k > 0 && Start(g, k) < |g.pkt| && IsSegment(g, k, s)
    requires |first| >= Hl(g) && |s| >= Hl(g) && |Partial(g, first, k)| >= Hl(g) && IpHeaderLen(g.v6) + 20 <= Hl(g)
    ensures Partial(g, first, k + 1)
         == Appended(Partial(g, first, k), s, Hl(g), IpHeaderLen(g.v6) + 13, Psh(s, g.v6))
  {
    hide KernelGso, U32At, ToU32, ChecksumValid, Like, TcpShape, WithPsh;
    LayoutOk(g);
    var (hl, at, end) := (Hl(g), IpHeaderLen(g.v6) + 13, Min(Start(g, k + 1), |g.pkt|));
    Extended(first, hl, at, Psh(s, g.v6), g.pkt[hl..Start(g, k)], s);
    assert g.pkt[hl..Start(g, k)] + g.pkt[Start(g, k)..end] == g.pkt[hl..end];
  }

  /** Appending to headers and data: the flags change in the headers, the data grows. */
  lemma Extended(first: Packet, hl: nat, at: nat, psh: bool, data: seq<byte>, s: Packet)
    requires at < hl <= |first| && hl <= |s|
    ensures Appended(first[..hl] + data, s, hl, at, psh)
         == (if psh then first[at := WithPsh(first[at])] else first)[..hl] + (data + s[hl..])
  {
    hide WithPsh;
    assert (first[..hl] + data)[at] == first[at];
  }

  /** After k segments: one buffer to write, one table item. */
  ghost predicate Merging(s: State, orig: seq<Buf>, offset: nat, g: Gso, first: Packet, k: nat)
    requires KernelGso(g) && |first| >= Hl(g)
  {
    && 0 < k <= |orig| == |s.bufs| && offset <= |orig[0].bytes|
    && s.toWrite == [0] && s.udp == map[]
    && s.tcp == map[ItemAfter(g, k).key := [ItemAfter(g, k)]]
    && s.bufs[0] == Buf(orig[0].bytes[..offset] + Partial(g, first, k), orig[0].cap)
    && forall b | 1 <= b < |orig| :: s.bufs[b] == orig[b]
  }

  /** The buffers hold the segments, and the first has room for all of them. */
  predicate Batch(orig: seq<Buf>, offset: nat, g: Gso)
    requires KernelGso(g)
  {
    && Ready(orig, offset) && |orig| > 1
    && Start(g, |orig| - 1) < |g.pkt| <= Start(g, |orig|)
    && (forall b | 0 <= b < |orig| :: Start(g, b) < |g.pkt| && IsSegment(g, b, Pkt(orig[b], offset)))
    && orig[0].cap >= offset + |g.pkt|
  }

  /** A round whose packet is a TCP candidate. */
  lemma TcpStep(s: State, offset: nat, i: nat, gro: Flags, little: bool, v6: bool)
    requires InPlace(s, offset, i) && i < |s.bufs|
    requires PacketIsGroCandidate(Pkt(s.bufs[i], offset), gro) == if v6 then Tcp6 else Tcp4
    ensures |Pkt(s.bufs[i], offset)| >= IpHeaderLen(v6) + 20
    ensures var (r, s') := TcpGro(s, offset, i, v6);
            r == TableInsert ==> Step(s, offset, i, gro, little) == s'.(toWrite := s'.toWrite + [i])
    ensures var (r, s') := TcpGro(s, offset, i, v6);
            r == Coalesced ==> Step(s, offset, i, gro, little) == s'
  {
    hide InPlace, TcpGro, UdpGro, Encode, WithHeader;
  }

  /** The first packet of a flow becomes its item. */
  lemma InsertFirst(s: State, offset: nat, i: nat, v6: bool, arrival: TcpItem)
    requires InPlace(s, offset, i) && i < |s.bufs| && |Pkt(s.bufs[i], offset)| >= IpHeaderLen(v6) + 20
    requires ParseTcp(Pkt(s.bufs[i], offset), i, v6) == Some(arrival) && arrival.key !in s.tcp
    ensures TcpGro(s, offset, i, v6) == (TableInsert, s.(tcp := s.tcp[arrival.key := [arrival]]))
  {
    hide ParseTcp, InPlace;
    assert offset <= |s.bufs[i].bytes| by {
      Headroom(s, offset, i);
    }
    ParsedFields(Pkt(s.bufs[i], offset), i, v6, arrival);
    FlowFits(s, offset, i, arrival);
    assert [] + [arrival] == [arrival];
  }

  lemma FirstStep(orig: seq<Buf>, offset: nat, g: Gso, gro: Flags, little: bool)
    requires KernelGso(g) && Batch(orig, offset, g) && gro.canTcp
    requires InPlace(State(orig, map[], map[], []), offset, 0)
    ensures |Pkt(orig[0], offset)| >= Hl(g)
    ensures Merging(Step(State(orig, map[], map[], []), offset, 0, gro, little), orig, offset, g, Pkt(orig[0], offset), 1)
  {
    hide KernelGso, IsSegment, ParseTcp, Partial, InPlace, Step, TcpGro, ItemAfter, ArrivalOf, PacketIsGroCandidate;
    var first := Pkt(orig[0], offset);
    SegmentLong(g, 0, first);
    SegmentParses(g, 0, first, gro);
    PartialOfOne(g, first);
    FirstItem(g);
    var s := State(orig, map[], map[], []);
    TcpStep(s, offset, 0, gro, little, g.v6);
    InsertFirst(s, offset, 0, g.v6, ArrivalOf(g, 0));
    assert orig[0].bytes[..offset] + orig[0].bytes[offset..] == orig[0].bytes;
    assert map[][ItemAfter(g, 1).key := [ItemAfter(g, 1)]] == map[ItemAfter(g, 1).key := [ItemAfter(g, 1)]];
    assert s.toWrite + [0] == [0];
  }

  lemma SegmentLong(g: Gso, k: nat, s: Packet)
    requires KernelGso(g) && Start(g, k) < |g.pkt| && IsSegment(g, k, s)
    ensures |s| >= Hl(g) >= IpHeaderLen(g.v6) + 20
  {
    hide KernelGso, ChecksumValid;
    LayoutOk(g);
  }

  lemma FirstItem(g: Gso)
    requires KernelGso(g) && Start(g, 0) < |g.pkt|
    ensures ArrivalOf(g, 0) == ItemAfter(g, 1)
  {
    LayoutOk(g);
    assert Times(1, g.size) == g.size;
  }

  /** All checks of an append pass, and `grown` is the item's buffer with the packet behind it. */
  predicate Appends(bufs: seq<Buf>, offset: nat, arrival: TcpItem, item: TcpItem, grown: Buf) {
    && TcpItemFits(item, arrival, bufs, offset) && NewFits(arrival, bufs, offset)
    && arrival.tcphLen == item.tcphLen && arrival.gsoSize <= item.gsoSize
    && var (own, pkt) := (bufs[item.bufsIndex], Pkt(bufs[arrival.bufsIndex], offset));
       var hl := item.iphLen + item.tcphLen;
       && TcpPacketsCanCoalesce(pkt, arrival, item, Pkt(own, offset)) == Append
       && own.cap - offset >= |own.bytes| - offset + |pkt| - hl
       && (item.numMerged == 0 ==> ChecksumValid(Pkt(own, offset), item.iphLen, 6, arrival.key.v6))
       && ChecksumValid(pkt, item.iphLen, 6, arrival.key.v6)
       && grown == own.(bytes := own.bytes[..offset]
                                 + Appended(Pkt(own, offset), pkt, hl, item.iphLen + 13, arrival.pshSet))
  }

  function Grown(item: TcpItem, arrival: TcpItem): TcpItem {
    item.(numMerged := item.numMerged + 1, pshSet := item.pshSet || arrival.pshSet)
  }

  lemma GrownBytes(own: Buf, pkt: Packet, offset: nat, hl: nat, flagsAt: nat, psh: bool)
    requires offset + hl <= |own.bytes| && flagsAt < hl <= |pkt|
    ensures own.bytes[..offset] + Appended(Pkt(own, offset), pkt, hl, flagsAt, psh)
         == (if psh then own.bytes[offset + flagsAt := WithPsh(own.bytes[offset + flagsAt])] else own.bytes) + pkt[hl..]
  {
    hide WithPsh;
    assert own.bytes == own.bytes[..offset] + own.bytes[offset..];
    var flags := WithPsh(own.bytes[offset + flagsAt]);
    assert own.bytes[offset + flagsAt := flags] == own.bytes[..offset] + own.bytes[offset..][flagsAt := flags];
  }

  lemma AppendSucceeds(bufs: seq<Buf>, offset: nat, arrival: TcpItem, item: TcpItem, grown: Buf)
    requires Appends(bufs, offset, arrival, item, grown)
    ensures CoalesceTcp(Append, arrival, item, bufs, offset)
         == (Success, Grown(item, arrival), bufs[item.bufsIndex := grown])
  {
    hide TcpPacketsCanCoalesce, ChecksumValid, WithPsh, Appended;
    GrownBytes(bufs[item.bufsIndex], Pkt(bufs[arrival.bufsIndex], offset), offset, item.iphLen + item.tcphLen,
               item.iphLen + 13, arrival.pshSet);
  }

  lemma WalkAppends(bufs: seq<Buf>, offset: nat, arrival: TcpItem, item: TcpItem, grown: Buf)
    requires Appends(bufs, offset, arrival, item, grown)
    ensures Walk(arrival, [item], 1, bufs, offset)
         == WalkResult(Coalesced, [Grown(item, arrival)], bufs[item.bufsIndex := grown])
  {
    hide TcpPacketsCanCoalesce, ChecksumValid, WithPsh, Appended, CoalesceTcp;
    AppendSucceeds(bufs, offset, arrival, item, grown);
    assert [item][0 := Grown(item, arrival)] == [Grown(item, arrival)];
  }

  /** An append into the only item of a flow. */
  lemma AppendOnly(s: State, offset: nat, i: nat, v6: bool, arrival: TcpItem, item: TcpItem, grown: Buf)
    requires InPlace(s, offset, i) && i < |s.bufs| && |Pkt(s.bufs[i], offset)| >= IpHeaderLen(v6) + 20
    requires ParseTcp(Pkt(s.bufs[i], offset), i, v6) == Some(arrival)
    requires arrival.key in s.tcp && s.tcp[arrival.key] == [item]
    requires Appends(s.bufs, offset, arrival, item, grown)
    ensures TcpGro(s, offset, i, v6)
         == (Coalesced, s.(bufs := s.bufs[item.bufsIndex := grown],
                           tcp := s.tcp[arrival.key := [Grown(item, arrival)]]))
  {
    hide ParseTcp, InPlace, Appends, Walk;
    Headroom(s, offset, i);
    ParsedFields(Pkt(s.bufs[i], offset), i, v6, arrival);
    FlowFits(s, offset, i, arrival);
    WalkAppends(s.bufs, offset, arrival, item, grown);
  }

  lemma NextItem(g: Gso, k: nat)
    requires KernelGso(g) && k > 0 && Start(g, k) < |g.pkt|
    ensures ArrivalOf(g, k).key == ItemAfter(g, k).key == ItemAfter(g, k + 1).key
    ensures ItemAfter(g, k + 1)
         == ItemAfter(g, k).(numMerged := ItemAfter(g, k).numMerged + 1,
                             pshSet := ItemAfter(g, k).pshSet || ArrivalOf(g, k).pshSet)
    ensures ArrivalOf(g, k).gsoSize <= g.size
  {
    hide KernelGso, U32At, ToU32;
  }

  lemma Checked(g: Gso, k: nat, s: Packet)
    requires KernelGso(g) && Start(g, k) < |g.pkt| && IsSegment(g, k, s)
    ensures |s| >= IpHeaderLen(g.v6) + 20 && ChecksumValid(s, IpHeaderLen(g.v6), 6, g.v6)
    ensures |s| == Hl(g) + Min(Start(g, k + 1), |g.pkt|) - Start(g, k)
    ensures Psh(s, g.v6) <==> ArrivalOf(g, k).pshSet
  {
    hide KernelGso, ChecksumValid, U32At, ToU32;
    assert |s[Hl(g)..]| == |g.pkt[Start(g, k)..Min(Start(g, k + 1), |g.pkt|)]|;
  }

  /** Every check passes for the next segment. */
  lemma NextAppends(s: State, orig: seq<Buf>, offset: nat, g: Gso, k: nat, grown: Buf)
    requires KernelGso(g) && Batch(orig, offset, g) && 0 < k < |orig|
    requires |Pkt(orig[0], offset)| >= Hl(g) && Merging(s, orig, offset, g, Pkt(orig[0], offset), k)
    requires grown == Buf(orig[0].bytes[..offset] + Partial(g, Pkt(orig[0], offset), k + 1), orig[0].cap)
    ensures Appends(s.bufs, offset, ArrivalOf(g, k), ItemAfter(g, k), grown)
  {
    hide KernelGso, IsSegment, ChecksumValid, Partial, Psh, TcpPacketsCanCoalesce, Opt, StandardLayout, Appended,
         HeadersLen, Like, TcpShape;
    var (first, next) := (Pkt(orig[0], offset), Pkt(orig[k], offset));
    LayoutOk(g);
    SegmentLong(g, k, next);
    Checked(g, k, next);
    PartialShape(g, first, k);
    PartialOneMore(g, first, k, next);
    AppendChosen(g, first, k, next);
    NextItem(g, k);
    if k == 1 {
      PartialOfOne(g, first);
      Checked(g, 0, first);
    }
    assert Pkt(s.bufs[0], offset) == Partial(g, first, k);
    assert Pkt(s.bufs[k], offset) == next;
  }

  lemma NextStep(s: State, orig: seq<Buf>, offset: nat, g: Gso, gro: Flags, little: bool, k: nat)
    requires KernelGso(g) && Batch(orig, offset, g) && gro.canTcp && 0 < k < |orig|
    requires |Pkt(orig[0], offset)| >= Hl(g) && Merging(s, orig, offset, g, Pkt(orig[0], offset), k)
    requires InPlace(s, offset, k)
    ensures Merging(Step(s, offset, k, gro, little), orig, offset, g, Pkt(orig[0], offset), k + 1)
  {
    hide KernelGso, IsSegment, ParseTcp, InPlace, Step, TcpGro, PacketIsGroCandidate, Partial, Appends;
    var next := Pkt(orig[k], offset);
    SegmentParses(g, k, next, gro);
    NextItem(g, k);
    TcpStep(s, offset, k, gro, little, g.v6);
    var grown := Buf(orig[0].bytes[..offset] + Partial(g, Pkt(orig[0], offset), k + 1), orig[0].cap);
    NextAppends(s, orig, offset, g, k, grown);
    AppendOnly(s, offset, k, g.v6, ArrivalOf(g, k), ItemAfter(g, k), grown);
  }

  lemma {:induction false} AllSteps(orig: seq<Buf>, offset: nat, g: Gso, gro: Flags, little: bool, n: nat)
    requires KernelGso(g) && Batch(orig, offset, g) && gro.canTcp && 0 < n <= |orig|
    ensures |Pkt(orig[0], offset)| >= Hl(g)
    ensures Merging(Run(orig, offset, gro, little, n), orig, offset, g, Pkt(orig[0], offset), n)
  {
    hide *;
    BatchReady(orig, offset, g);
    RunUnrolls(orig, offset, gro, little, n);
    if n == 1 {
      FirstStep(orig, offset, g, gro, little);
    } else {
      AllSteps(orig, offset, g, gro, little, n - 1);
      NextStep(Run(orig, offset, gro, little, n - 1), orig, offset, g, gro, little, n - 1);
    }
  }

  lemma BatchReady(orig: seq<Buf>, offset: nat, g: Gso)
    requires KernelGso(g) && Batch(orig, offset, g)
    ensures Ready(orig, offset) && |orig| > 1 && offset <= |orig[0].bytes|
  {
    hide KernelGso, IsSegment;
  }

  lemma RunUnrolls(orig: seq<Buf>, offset: nat, gro: Flags, little: bool, n: nat)
    requires Ready(orig, offset) && 0 < n <= |orig|
    ensures var before := Run(orig, offset, gro, little, n - 1);
            && InPlace(before, offset, n - 1) && |before.bufs| == |orig|
            && Run(orig, offset, gro, little, n) == Step(before, offset, n - 1, gro, little)
            && (n == 1 ==> before == State(orig, map[], map[], []))
  {
    hide InPlace, Step;
    RunInPlace(orig, offset, gro, little, n - 1);
  }

  // ---- Accounting restores the rest ----

  /** The octets accounting rewrites: IP length and header checksum, TCP checksum. */
  predicate Rewritten(v6: bool, k: int) {
    || (if v6 then 4 <= k <= 5 else 2 <= k <= 3 || 10 <= k <= 11)
    || IpHeaderLen(v6) + 16 <= k <= IpHeaderLen(v6) + 17
  }

  predicate AgreeElsewhere(a: Packet, b: Packet, v6: bool) {
    |a| == |b| && forall k | 0 <= k < |a| && !Rewritten(v6, k) :: a[k] == b[k]
  }

  lemma SizedAgree(a: Packet, b: Packet)
    requires AgreeElsewhere(a, b, false) && 40 <= |a|
    ensures PutU16(PutU16(a, 10, 0), 2, ToU16(|a|))[..20] == PutU16(PutU16(b, 10, 0), 2, ToU16(|a|))[..20]
  {}

  lemma IpLengthAgrees(a: Packet, b: Packet, v6: bool)
    requires AgreeElsewhere(a, b, v6) && IpHeaderLen(v6) + 20 <= |a|
    ensures var (x, y) := (WithIpLength(a, v6), WithIpLength(b, v6));
            |x| == |y| && forall k | 0 <= k < |x| && !(IpHeaderLen(v6) + 16 <= k <= IpHeaderLen(v6) + 17) :: x[k] == y[k]
  {
    hide Fold, WordSum, Complement, ToU16;
    if !v6 {
      SizedAgree(a, b);
    }
  }

  /** Accounting forgets what was in the fields it rewrites. */
  lemma AccountedAgrees(a: Packet, b: Packet, v6: bool)
    requires AgreeElsewhere(a, b, v6) && IpHeaderLen(v6) + 20 <= |a|
    ensures TcpAccounted(a, v6) == TcpAccounted(b, v6)
  {
    hide Fold, PseudoSum, ToU16, WithIpLength;
    IpLengthAgrees(a, b, v6);
    var (x, y) := (WithIpLength(a, v6), WithIpLength(b, v6));
    var (off, z) := (AddrOff(v6), AddrSize(v6));
    assert x[off..off + z] == y[off..off + z] && x[off + z..off + 2 * z] == y[off + z..off + 2 * z];
  }

  lemma PutSame(b: seq<byte>, at: nat)
    requires at + 2 <= |b|
    ensures PutU16(b, at, U16At(b, at)) == b
  {}

  lemma PutOver(b: seq<byte>, at: nat, v: u16)
    requires at + 2 <= |b|
    ensures PutU16(PutU16(b, at, v), at, U16At(b, at)) == b
  {}

  lemma PutElsewhere(b: seq<byte>, at: nat, v: u16, other: nat)
    requires at + 2 <= |b| && other + 2 <= at
    ensures U16At(PutU16(b, at, v), other) == U16At(b, other)
  {}

  lemma KernelIpLength(g: Gso)
    requires KernelGso(g)
    ensures WithIpLength(g.pkt, g.v6) == g.pkt
  {
    hide Fold, WordSum, Complement, PseudoSum, TcpHeaderLen, TcpOptions, TcpShape, U16At, PutU16;
    if g.v6 {
      PutSame(g.pkt, 4);
    } else {
      var zeroed := PutU16(g.pkt, 10, 0);
      PutElsewhere(g.pkt, 10, 0, 2);
      assert U16At(zeroed, 2) == ToU16(|g.pkt|);
      PutSame(zeroed, 2);
      PutOver(g.pkt, 10, 0);
    }
  }

  /** A kernel packet is already accounted for. */
  lemma KernelIsAccounted(g: Gso)
    requires KernelGso(g)
    ensures TcpAccounted(g.pkt, g.v6) == g.pkt
  {
    hide Fold, WordSum, Complement, PseudoSum, TcpHeaderLen, WithIpLength, U16At, PutU16;
    KernelIpLength(g);
    PutSame(g.pkt, IpHeaderLen(g.v6) + 16);
  }

  lemma SameWord(a: Packet, b: Packet, at: nat)
    requires at + 2 <= |a| && at + 2 <= |b| && Wire.Word(a, at) == Wire.Word(b, at)
    ensures a[at] == b[at] && a[at + 1] == b[at + 1]
  {}

  lemma SameLong(a: Packet, b: Packet, at: nat)
    requires at + 4 <= |a| && at + 4 <= |b| && Wire.DoubleWord(a, at) == Wire.DoubleWord(b, at)
    ensures forall k | at <= k < at + 4 :: a[k] == b[k]
  {
    hide Wire.Word, Wire.DoubleWord;
    Wire.TwoWords(a, at);
    Wire.TwoWords(b, at);
    SameWord(a, b, at);
    SameWord(a, b, at + 2);
  }

  /** The first segment has the original's headers, but for lengths, checksums and PSH. */
  lemma FirstAgrees(g: Gso, first: Packet)
    requires KernelGso(g) && StandardLayout(g.pkt, Opt(g))
    requires Hl(g) <= |g.pkt| && first == Segment(g.pkt, Opt(g), Hl(g), 0)
    ensures |first| >= Hl(g) >= IpHeaderLen(g.v6) + 20
    ensures forall k | 0 <= k < Hl(g) && !Rewritten(g.v6, k) && k != IpHeaderLen(g.v6) + 13 :: first[k] == g.pkt[k]
    ensures first[IpHeaderLen(g.v6) + 13] == TCP_FLAG_ACK
  {
    hide Segment, Wire.Word, Wire.DoubleWord, TransportVerifies, KernelGso, Verifies, WordSum, Fold, TcpHeaderLen;
    LayoutOk(g);
    SegmentIsValid(g.pkt, Opt(g), Hl(g), 0, first);
    SameLong(first, g.pkt, IpHeaderLen(g.v6) + 4);
    if !g.v6 {
      SameWord(first, g.pkt, 4);
    }
  }

  lemma PartialComplete(g: Gso, first: Packet, m: nat)
    requires KernelGso(g) && |first| >= Hl(g) && Start(g, m) >= |g.pkt|
    requires IpHeaderLen(g.v6) + 20 <= Hl(g) <= |g.pkt|
    requires forall k | 0 <= k < Hl(g) && !Rewritten(g.v6, k) && k != IpHeaderLen(g.v6) + 13 :: first[k] == g.pkt[k]
    requires first[IpHeaderLen(g.v6) + 13] == TCP_FLAG_ACK
    ensures AgreeElsewhere(Partial(g, first, m), g.pkt, g.v6)
  {
    hide KernelGso, WithPsh;
    LayoutOk(g);
    PshIsSet();
  }

  /** Segments in buffers are such a batch. */
  lemma BatchOfSegments(orig: seq<Buf>, offset: nat, g: Gso)
    requires KernelGso(g) && Ready(orig, offset)
    requires StandardLayout(g.pkt, Opt(g)) && Opt(g).hdrLen == Hl(g) <= |g.pkt|
    requires var all := Segments(g.pkt, Opt(g), Hl(g), 0);
             |orig| == |all| && forall b | 0 <= b < |orig| :: Pkt(orig[b], offset) == all[b]
    requires |orig| > 0 && orig[0].cap >= offset + |g.pkt|
    ensures Batch(orig, offset, g)
  {
    hide KernelGso, IsSegment, Segment, Segments, Opt, StandardLayout;
    LayoutOk(g);
    SegmentsTile(g.pkt, Opt(g), Hl(g), 0);
    assert Times(1, g.size) == g.size;
    forall b | 0 <= b < |orig| ensures Start(g, b) < |g.pkt| && IsSegment(g, b, Pkt(orig[b], offset)) {
      SegmentsNth(g.pkt, Opt(g), Hl(g), 0, b, Start(g, b));
      SegmentIs(g, b, Pkt(orig[b], offset));
    }
  }

  lemma SplitOfKernel(g: Gso, slots: nat, all: seq<Packet>)
    requires KernelGso(g) && NoPanic(g.pkt, Opt(g), slots) && Split(g.pkt, Opt(g), slots) == Ok(all)
    ensures StandardLayout(g.pkt, Opt(g)) && all == Segments(g.pkt, Opt(g), Hl(g), 0)
  {
    hide Segment, KernelGso;
    LayoutOk(g);
    SegmentsWithinIff(g.pkt, Opt(g), Hl(g), 0, slots);
  }

  /** The written buffer of a finished merge. */
  lemma MergedIsKernel(g: Gso, first: Packet, m: nat, b: Buf, offset: nat, little: bool)
    requires KernelGso(g) && m > 1 && |first| >= Hl(g) && HDR_LEN <= offset && offset + IpHeaderLen(g.v6) <= |b.bytes|
    requires Pkt(b, offset) == Partial(g, first, m) && AgreeElsewhere(Partial(g, first, m), g.pkt, g.v6)
    requires IpHeaderLen(g.v6) + 20 <= |g.pkt| && ItemAfter(g, m).iphLen + ItemAfter(g, m).tcphLen == Hl(g) <= 0xffff
    ensures var b' := AccountTcp(ItemAfter(g, m), b, offset, little);
            && offset <= |b'.bytes| && Pkt(b', offset) == g.pkt
            && b'.bytes[offset - HDR_LEN..offset] == Encode(KernelHeader(g), little)
  {
    hide KernelGso, Partial, TcpAccounted, Encode, AccountTcp, AgreeElsewhere;
    AccountTcpParts(ItemAfter(g, m), b, offset, little);
    AgreeSize(Partial(g, first, m), g.pkt, g.v6);
    AccountedAgrees(Partial(g, first, m), g.pkt, g.v6);
    KernelIsAccounted(g);
  }

  lemma AgreeSize(a: Packet, b: Packet, v6: bool)
    requires AgreeElsewhere(a, b, v6)
    ensures |a| == |b|
  {}

  /**
   `handle_gro` undoes `gso_split`: the segments of a kernel packet, fed in order into buffers of
   which the first has room, are written as one buffer that equals the packet octet for octet, behind
   the header it came with.
   */
  lemma GsoGroIdentity(g: Gso, slots: nat, all: seq<Packet>, orig: seq<Buf>, offset: nat, gro: Flags, little: bool,
                       bufs': seq<Buf>)
    requires KernelGso(g) && NoPanic(g.pkt, Opt(g), slots) && Split(g.pkt, Opt(g), slots) == Ok(all)
    requires Ready(orig, offset) && gro.canTcp
    requires |orig| == |all| && forall b | 0 <= b < |orig| :: Pkt(orig[b], offset) == all[b]
    requires forall b | 0 <= b < |orig| :: orig[b].cap >= offset + |g.pkt|
    requires AccountedTo(Run(orig, offset, gro, little, |orig|), bufs', offset, little)
    ensures ToOptions(KernelHeader(g)) == Some(Opt(g))
    ensures Run(orig, offset, gro, little, |orig|).toWrite == [0]
    ensures |bufs'| > 0 && offset <= |bufs'[0].bytes| && Pkt(bufs'[0], offset) == g.pkt
    ensures bufs'[0].bytes[offset - HDR_LEN..offset] == Encode(KernelHeader(g), little)
  {
    hide KernelGso, Split, Segments, Run, Batch, Partial, StandardLayout, AccountTcp, Encode, AgreeElsewhere, Rewritten,
         NoPanic, Segment;
    LayoutOk(g);
    SplitOfKernel(g, slots, all);
    KernelSegments(g);
    BatchOfSegments(orig, offset, g);
    BatchReady(orig, offset, g);
    SegmentsNth(g.pkt, Opt(g), Hl(g), 0, 0, Hl(g));
    var (m, first) := (|orig|, Pkt(orig[0], offset));
    AllSteps(orig, offset, g, gro, little, m);
    FirstAgrees(g, first);
    BatchComplete(orig, offset, g);
    PartialComplete(g, first, m);
    AgreeSize(Partial(g, first, m), g.pkt, g.v6);
    var s := Run(orig, offset, gro, little, m);
    var item := ItemAfter(g, m);
    assert Pkt(s.bufs[0], offset) == Partial(g, first, m);
    MergedIsKernel(g, first, m, s.bufs[0], offset, little);
    assert item.key in s.tcp && item in s.tcp[item.key];
    assert TcpWritten(item, s.bufs, bufs', offset, little);
  }

  lemma KernelSegments(g: Gso)
    requires KernelGso(g) && StandardLayout(g.pkt, Opt(g))
    ensures |Segments(g.pkt, Opt(g), Hl(g), 0)| > 0
  {
    hide Segment, KernelGso;
    LayoutOk(g);
    SegmentsTile(g.pkt, Opt(g), Hl(g), 0);
  }

  lemma BatchComplete(orig: seq<Buf>, offset: nat, g: Gso)
    requires KernelGso(g) && Batch(orig, offset, g)
    ensures Start(g, |orig|) >= |g.pkt|
  {
    hide KernelGso, IsSegment, Ready;
  }
}
