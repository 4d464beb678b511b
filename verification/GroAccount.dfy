/**
 The end of `handle_gro`: headers, lengths and pseudo header sums of merged packets. Splitting such a
 packet by the header in front of it gives back the segments the item stands for.
 */
module GroAccount {
  import opened Arith
  import opened Bytes
  import opened Checksum
  import opened VirtioNet
  import opened GsoSplit
  import opened GsoProperties
  import opened Gro
  import opened GroItems
  import opened GroMerge
  import opened GroInvariant
  import Wire

  // ---- What accounting writes ----

  /** IPv4 total length and header checksum; IPv6 payload length. */
  function WithIpLength(pkt: Packet, v6: bool): (r: Packet)
    requires |pkt| >= IpHeaderLen(v6)
    ensures |r| == |pkt|
  {
    if v6 then PutU16(pkt, 4, ToU16(|pkt| - 40))
    else
      var sized := PutU16(PutU16(pkt, 10, 0), 2, ToU16(|pkt|));
      PutU16(sized, 10, Complement(Fold(WordSum(sized[..20]))))
  }

  /** The pseudo header sum in the transport checksum field, for the receiver to complete. */
  function WithPseudoSum(pkt: Packet, v6: bool, protocol: byte, csumAt: nat): (r: Packet)
    requires |pkt| >= IpHeaderLen(v6)
    ensures |r| == |pkt|
  {
    var (off, size) := (AddrOff(v6), AddrSize(v6));
    var sum := Fold(PseudoSum(protocol, pkt[off..off + size], pkt[off + size..off + 2 * size],
                              ToU16(|pkt| - IpHeaderLen(v6))));
    if csumAt + 2 <= |pkt| then PutU16(pkt, csumAt, sum) else pkt
  }

  function TcpAccounted(pkt: Packet, v6: bool): (r: Packet)
    requires |pkt| >= IpHeaderLen(v6)
    ensures |r| == |pkt|
  {
    WithPseudoSum(WithIpLength(pkt, v6), v6, 6, IpHeaderLen(v6) + CSUM_OFFSET_TCP)
  }

  function UdpAccounted(pkt: Packet, v6: bool): (r: Packet)
    requires |pkt| >= IpHeaderLen(v6) + UDP_HDR_LEN
    ensures |r| == |pkt|
  {
    var iph := IpHeaderLen(v6);
    WithPseudoSum(PutU16(WithIpLength(pkt, v6), iph + 4, ToU16(|pkt| - iph)), v6, 17, iph + CSUM_OFFSET_UDP)
  }

  function TcpGsoHeader(item: TcpItem): Header
    requires item.iphLen + item.tcphLen <= 0xffff
  {
    Header(F_NEEDS_CSUM, if item.key.v6 then GSO_TCPV6 else GSO_TCPV4, item.iphLen + item.tcphLen, item.gsoSize,
           item.iphLen, CSUM_OFFSET_TCP)
  }

  function UdpGsoHeader(item: UdpItem): Header
    requires item.iphLen + UDP_HDR_LEN <= 0xffff
  {
    Header(F_NEEDS_CSUM, GSO_UDP_L4, item.iphLen + UDP_HDR_LEN, item.gsoSize, item.iphLen, CSUM_OFFSET_UDP)
  }

  function WithPkt(b: Buf, offset: nat, pkt: Packet): (r: Buf)
    requires offset <= |b.bytes|
    ensures offset <= |r.bytes| && Pkt(r, offset) == pkt && r.bytes[..offset] == b.bytes[..offset] && r.cap == b.cap
  {
    b.(bytes := b.bytes[..offset] + pkt)
  }

  /** One round of `apply_tcp_coalesce_accounting`. */
  function AccountTcp(item: TcpItem, b: Buf, offset: nat, little: bool): Buf
    requires HDR_LEN <= offset && offset + IpHeaderLen(item.key.v6) <= |b.bytes|
    requires item.iphLen + item.tcphLen <= 0xffff
  {
    if item.numMerged == 0 then WithHeader(b, offset, EMPTY, little)
    else WithPkt(WithHeader(b, offset, TcpGsoHeader(item), little), offset,
                 TcpAccounted(Pkt(b, offset), item.key.v6))
  }

  /** One round of `apply_udp_coalesce_accounting`. */
  function AccountUdp(item: UdpItem, b: Buf, offset: nat, little: bool): Buf
    requires HDR_LEN <= offset && offset + IpHeaderLen(item.key.v6) + UDP_HDR_LEN <= |b.bytes|
    requires item.iphLen + UDP_HDR_LEN <= 0xffff
  {
    if item.numMerged == 0 then WithHeader(b, offset, EMPTY, little)
    else WithPkt(WithHeader(b, offset, UdpGsoHeader(item), little), offset,
                 UdpAccounted(Pkt(b, offset), item.key.v6))
  }

  // ---- What the receiver makes of a written buffer ----

  /** The packets behind a written buffer, split by the header in front of it as `gso_split` does. */
  function Expand(b: Buf, offset: nat, little: bool): seq<Packet>
    requires HDR_LEN <= offset <= |b.bytes|
  {
    var pkt := Pkt(b, offset);
    var h := Decode(b.bytes[offset - HDR_LEN..offset], little).value;
    if h.gsoType == GSO_NONE then [pkt]
    else
      match ToOptions(h)
      case None => []
      case Some(o) => SplitAll(pkt, o)
  }

  function SplitAll(pkt: Packet, o: GsoOptions): seq<Packet> {
    if !NoPanic(pkt, o, |pkt|) then []
    else
      match Split(pkt, o, |pkt|)
      case Err(_) => []
      case Ok(all) => all
  }

  function DescribeAll(packets: seq<Packet>, gro: Flags): seq<Desc> {
    if packets == [] then [] else [Describe(packets[0], gro)] + DescribeAll(packets[1..], gro)
  }

  lemma DescribeCons(s: Packet, rest: seq<Packet>, gro: Flags)
    ensures DescribeAll([s] + rest, gro) == [Describe(s, gro)] + DescribeAll(rest, gro) && DescribeAll([], gro) == []
  {
    hide Describe;
    assert ([s] + rest)[1..] == rest;
  }

  // ---- Accounting changes only lengths and checksums ----

  lemma TcpAccountedShape(pkt: Packet, v6: bool)
    requires TcpShape(pkt, v6)
    ensures var r := TcpAccounted(pkt, v6);
            && TcpShape(r, v6) && HeadersLen(r, v6) == HeadersLen(pkt, v6) && Like(r, v6) == Like(pkt, v6)
            && U32At(r, IpHeaderLen(v6) + 4) == U32At(pkt, IpHeaderLen(v6) + 4)
            && r[HeadersLen(pkt, v6)..] == pkt[HeadersLen(pkt, v6)..]
  {
    hide Fold, WordSum, PseudoSum, Complement, Like, TcpShape, WithIpLength;
    ShapeFacts(pkt, v6);
    var r := TcpAccounted(pkt, v6);
    AccountedTouches(pkt, v6);
    assert SameTcpHeaders(pkt, r, v6, HeadersLen(pkt, v6));
    SameTcpHeadersShape(pkt, r, v6);
    var hl := HeadersLen(pkt, v6);
    assert r[hl..] == pkt[hl..];
  }

  lemma ShapeFacts(pkt: Packet, v6: bool)
    requires TcpShape(pkt, v6)
    ensures IpHeaderLen(v6) + 20 <= HeadersLen(pkt, v6) < |pkt| <= 0xffff
    ensures pkt[IpHeaderLen(v6) + 13] == TCP_FLAG_ACK || pkt[IpHeaderLen(v6) + 13] == TCP_FLAG_ACK + TCP_FLAG_PSH
  {}

  lemma AccountedTouches(pkt: Packet, v6: bool)
    requires |pkt| >= IpHeaderLen(v6)
    ensures OnlyIp(pkt, WithIpLength(pkt, v6), !v6)
  {
    hide Fold, WordSum, Complement;
  }

  // ---- Splitting a merged TCP packet ----

  function TcpGsoOptions(v6: bool, hl: u16, size: u16): GsoOptions {
    GsoOptions(if v6 then TcpV6 else TcpV4, hl, IpHeaderLen(v6), CSUM_OFFSET_TCP, size, true)
  }

  lemma TcpLayout(pkt: Packet, v6: bool, size: u16)
    requires TcpShape(pkt, v6) && 0 < size && HeadersLen(pkt, v6) + size <= 0xffff
    ensures StandardLayout(pkt, TcpGsoOptions(v6, HeadersLen(pkt, v6), size))
  {}

  /** Two TCP packets with the same headers apart from lengths, sequence number, PSH and checksums. */
  predicate SameTcpHeaders(pkt: Packet, s: Packet, v6: bool, hl: nat) {
    var iph := IpHeaderLen(v6);
    && iph + 20 <= hl <= |pkt| && hl <= |s|
    && forall k | 0 <= k < hl && !IpRewrites(!v6, k) && !(iph + 4 <= k <= iph + 7) && k != iph + 13
                  && k != iph + 16 && k != iph + 17 :: s[k] == pkt[k]
  }

  lemma SameTcpHeadersShape(pkt: Packet, s: Packet, v6: bool)
    requires TcpShape(pkt, v6) && SameTcpHeaders(pkt, s, v6, HeadersLen(pkt, v6))
    requires HeadersLen(pkt, v6) < |s| <= 0xffff
    requires s[IpHeaderLen(v6) + 13] == TCP_FLAG_ACK || s[IpHeaderLen(v6) + 13] == TCP_FLAG_ACK + TCP_FLAG_PSH
    ensures TcpShape(s, v6) && HeadersLen(s, v6) == HeadersLen(pkt, v6) && Like(s, v6) == Like(pkt, v6)
  {
    var (iph, hl) := (IpHeaderLen(v6), HeadersLen(pkt, v6));
    assert s[0] == pkt[0] && s[iph + 12] == pkt[iph + 12];
    var (off, z) := (AddrOff(v6), AddrSize(v6));
    assert s[off..off + z] == pkt[off..off + z] && s[off + z..off + 2 * z] == pkt[off + z..off + 2 * z];
    assert s[iph + 20..hl] == pkt[iph + 20..hl];
  }

  /** The receiver's check accepts what `gso_split` computed. */
  lemma SegmentChecks(s: Packet, v6: bool, o: GsoOptions)
    requires IpHeaderLen(v6) <= |s| <= 0xffff && (Version(s) == 4 <==> !v6)
    requires o.csumStart == IpHeaderLen(v6) && TransportVerifies(s, o)
    ensures ChecksumValid(s, IpHeaderLen(v6), Protocol(o.gsoType), v6)
  {
    hide Fold, WordSum, TransportVerifies;
    VerifiesByParts(s, o);
    var (off, z) := (AddrOff(v6), AddrSize(v6));
    FoldAbsorbs(WordSum(s[IpHeaderLen(v6)..]),
                PseudoSum(Protocol(o.gsoType), s[off..off + z], s[off + z..off + 2 * z], |s| - IpHeaderLen(v6)));
  }

  lemma SegmentHeaders(pkt: Packet, v6: bool, o: GsoOptions, at: nat, index: nat, s: Packet)
    requires TcpShape(pkt, v6) && o == TcpGsoOptions(v6, HeadersLen(pkt, v6), o.gsoSize) && StandardLayout(pkt, o)
    requires o.hdrLen <= at < |pkt| && s == Segment(pkt, o, at, index)
    ensures |s| == o.hdrLen + (SegmentEnd(pkt, o, at) - at) && s[o.hdrLen..] == pkt[at..SegmentEnd(pkt, o, at)]
    ensures SameTcpHeaders(pkt, s, v6, o.hdrLen)
    ensures s[IpHeaderLen(v6) + 13] == TCP_FLAG_ACK || s[IpHeaderLen(v6) + 13] == TCP_FLAG_ACK + TCP_FLAG_PSH
    ensures U32At(s, IpHeaderLen(v6) + 4) == ToU32(U32At(pkt, IpHeaderLen(v6) + 4) + o.gsoSize * index)
    ensures if v6 then U16At(s, 4) == |s| - 40 else U16At(s, 2) == |s|
  {
    hide Segment, TransportVerifies, IpHeaderRight, TransportHeaderRight, Verifies, WordSum, Fold, U32At, U16At, ToU32;
    SegmentIsValid(pkt, o, at, index, s);
    SegmentNumbers(pkt, v6, o, index, s, SegmentEnd(pkt, o, at) == |pkt|);
  }

  lemma SegmentNumbers(pkt: Packet, v6: bool, o: GsoOptions, index: nat, s: Packet, last: bool)
    requires TcpShape(pkt, v6) && o == TcpGsoOptions(v6, HeadersLen(pkt, v6), o.gsoSize) && StandardLayout(pkt, o)
    requires |s| >= o.hdrLen && IpHeaderRight(pkt, s, o, index) && TransportHeaderRight(pkt, s, o, index, last)
    ensures s[IpHeaderLen(v6) + 13] == TCP_FLAG_ACK || s[IpHeaderLen(v6) + 13] == TCP_FLAG_ACK + TCP_FLAG_PSH
    ensures U32At(s, IpHeaderLen(v6) + 4) == ToU32(U32At(pkt, IpHeaderLen(v6) + 4) + o.gsoSize * index)
    ensures if v6 then U16At(s, 4) == |s| - 40 else U16At(s, 2) == |s|
  {
    hide Verifies, WordSum, U32At, U16At, Wire.Word, Wire.DoubleWord;
    Wire.SameWords(s, IpHeaderLen(v6) + 4);
    Wire.SameWords(pkt, IpHeaderLen(v6) + 4);
    Wire.SameWords(s, if v6 then 4 else 2);
    FlagsKeepAck(pkt[IpHeaderLen(v6) + 13], s[IpHeaderLen(v6) + 13], last);
  }

  lemma FlagsKeepAck(was: byte, now: byte, last: bool)
    requires FlagsRight(was, now, last) && (was == TCP_FLAG_ACK || was == TCP_FLAG_ACK + TCP_FLAG_PSH)
    ensures now == TCP_FLAG_ACK || now == TCP_FLAG_ACK + TCP_FLAG_PSH
  {}

  lemma SegmentAccepted(pkt: Packet, v6: bool, o: GsoOptions, at: nat, index: nat, s: Packet)
    requires StandardLayout(pkt, o) && o.csumStart == IpHeaderLen(v6) && (Version(pkt) == 4 <==> !v6)
    requires o.hdrLen <= at < |pkt| && s == Segment(pkt, o, at, index)
    ensures |s| >= IpHeaderLen(v6) && ChecksumValid(s, IpHeaderLen(v6), Protocol(o.gsoType), v6)
  {
    hide Segment, TransportVerifies, ChecksumValid, Verifies, WordSum, Fold, U32At, ToU32, IpHeaderRight,
         TransportHeaderRight, SameHeaders;
    SegmentIsValid(pkt, o, at, index, s);
    SegmentChecks(s, v6, o);
  }

  /** A segment of a TCP packet is a TCP packet with the same flow, class and options. */
  lemma SegmentShape(pkt: Packet, v6: bool, o: GsoOptions, at: nat, index: nat, s: Packet)
    requires TcpShape(pkt, v6) && o == TcpGsoOptions(v6, HeadersLen(pkt, v6), o.gsoSize) && StandardLayout(pkt, o)
    requires o.hdrLen <= at < |pkt| && s == Segment(pkt, o, at, index)
    ensures TcpShape(s, v6) && IpConsistent(s, v6) && HeadersLen(s, v6) == o.hdrLen
    ensures Like(s, v6) == Like(pkt, v6)
    ensures U32At(s, IpHeaderLen(v6) + 4) == ToU32(U32At(pkt, IpHeaderLen(v6) + 4) + o.gsoSize * index)
    ensures s[o.hdrLen..] == pkt[at..SegmentEnd(pkt, o, at)]
    ensures ChecksumValid(s, IpHeaderLen(v6), 6, v6)
  {
    hide Segment, Like, U32At, ToU32, ChecksumValid;
    SegmentHeaders(pkt, v6, o, at, index, s);
    SameTcpHeadersShape(pkt, s, v6);
    SegmentAccepted(pkt, v6, o, at, index, s);
    assert !v6 ==> s[6] == pkt[6] && s[7] == pkt[7];
  }

  lemma DescribeSegment(s: Packet, gro: Flags, v6: bool)
    requires TcpShape(s, v6) && IpConsistent(s, v6) && gro.canTcp && ChecksumValid(s, IpHeaderLen(v6), 6, v6)
    ensures Describe(s, gro) == AsOneSegment(Like(s, v6), U32At(s, IpHeaderLen(v6) + 4), s[HeadersLen(s, v6)..])
  {
    DescribedShape(s, gro, v6);
  }

  function AsOneSegment(like: Desc, seqNum: u32, payload: seq<byte>): Desc
    requires like.TcpSegment?
  {
    like.(seqNum := seqNum, payload := payload)
  }

  lemma {:induction false} SegmentsDescribed(pkt: Packet, v6: bool, o: GsoOptions, at: nat, index: nat, gro: Flags,
                                             first: u32)
    requires TcpShape(pkt, v6) && o == TcpGsoOptions(v6, HeadersLen(pkt, v6), o.gsoSize) && StandardLayout(pkt, o)
    requires o.hdrLen <= at < |pkt| && gro.canTcp && first == U32At(pkt, IpHeaderLen(v6) + 4)
    ensures DescribeAll(Segments(pkt, o, at, index), gro)
         == TcpSegments(Like(pkt, v6), ToU32(first + o.gsoSize * index), o.gsoSize, pkt[at..])
    decreases |pkt| - at
  {
    hide Segment, Describe, Like, TcpShape, U32At, ToU32, ChecksumValid, IpConsistent, HeadersLen, TcpHeaderLen,
         StandardLayout, HeadersInside, IpHeaderLen, DescribeAll, TcpSegments;
    LayoutFacts(pkt, o);
    var s := Segment(pkt, o, at, index);
    SegmentShape(pkt, v6, o, at, index, s);
    DescribeSegment(s, gro, v6);
    var rest := Segments(pkt, o, at + o.gsoSize, index + 1);
    DescribeCons(s, rest, gro);
    if at + o.gsoSize < |pkt| {
      SegmentsDescribed(pkt, v6, o, at + o.gsoSize, index + 1, gro, first);
      SeqAdvance(first, o.gsoSize * index, o.gsoSize);
      NextProduct(o.gsoSize, index);
      CutOff(Like(pkt, v6), ToU32(first + o.gsoSize * index), o.gsoSize, pkt, at);
    } else {
      assert rest == [];
      CutOff(Like(pkt, v6), ToU32(first + o.gsoSize * index), o.gsoSize, pkt, at);
    }
  }

  /** The segments of the data from `at` on: one, and those of the rest. */
  lemma CutOff(like: Desc, seqNum: u32, size: nat, pkt: Packet, at: nat)
    requires like.TcpSegment? && size > 0 && at < |pkt|
    ensures TcpSegments(like, seqNum, size, pkt[at..])
         == if at + size < |pkt| then
              [AsOneSegment(like, seqNum, pkt[at..at + size])]
              + TcpSegments(like, ToU32(seqNum + size), size, pkt[at + size..])
            else [AsOneSegment(like, seqNum, pkt[at..|pkt|])]
  {
    assert pkt[at..|pkt|] == pkt[at..];
    if at + size < |pkt| {
      assert pkt[at..][..size] == pkt[at..at + size] && pkt[at..][size..] == pkt[at + size..];
    }
  }

  lemma LayoutFacts(pkt: Packet, o: GsoOptions)
    requires StandardLayout(pkt, o)
    ensures HeadersInside(pkt, o) && o.gsoSize > 0
  {}

  lemma NextProduct(size: nat, index: nat)
    ensures size * index + size == size * (index + 1) && size * index >= 0
  {}

  lemma {:induction false} TimesAtLeast(k: nat, d: nat)
    requires d > 0
    ensures k <= Times(k, d)
  {
    if k > 0 {
      TimesAtLeast(k - 1, d);
    }
  }

  /** With a buffer slot for every octet the split of a GSO packet never runs out of buffers. */
  lemma SplitAllIs(pkt: Packet, o: GsoOptions)
    requires StandardLayout(pkt, o) && o.hdrLen + o.gsoSize <= |pkt|
    ensures SplitAll(pkt, o) == Segments(pkt, o, o.hdrLen, 0)
  {
    hide Segment, Segments, Payloads;
    SegmentsWithinIff(pkt, o, o.hdrLen, 0, |pkt|);
    SegmentsTile(pkt, o, o.hdrLen, 0);
    TimesAtLeast(|Segments(pkt, o, o.hdrLen, 0)| - 1, o.gsoSize);
  }

  lemma HeaderInFront(b: Buf, offset: nat, h: Header, little: bool)
    requires HDR_LEN <= offset <= |b.bytes| && b.bytes[offset - HDR_LEN..offset] == Encode(h, little)
    ensures Decode(b.bytes[offset - HDR_LEN..offset], little) == Some(h)
  {
    DecodeEncode(h, [], little);
    assert Encode(h, little) + [] == Encode(h, little);
  }

  lemma ItemSizes(item: TcpItem, pkt: Packet)
    requires TcpItemOk(item, pkt) && item.numMerged > 0
    ensures HeadersLen(pkt, item.key.v6) == item.iphLen + item.tcphLen
    ensures item.iphLen + item.tcphLen + item.gsoSize < |pkt| <= 0xffff
  {
    TimesMonotone(1, item.numMerged, item.gsoSize);
    assert Times(1, item.gsoSize) == item.gsoSize;
  }

  /** Splitting a merged TCP packet by its header gives exactly the segments merged into it. */
  lemma ExpandMergedTcp(item: TcpItem, b: Buf, offset: nat, little: bool, gro: Flags)
    requires BufOk(b, offset) && TcpItemOk(item, Pkt(b, offset)) && item.numMerged > 0 && gro.canTcp
    requires offset + IpHeaderLen(item.key.v6) <= |b.bytes| && item.iphLen + item.tcphLen <= 0xffff
    ensures var b' := AccountTcp(item, b, offset, little);
            && offset <= |b'.bytes|
            && DescribeAll(Expand(b', offset, little), gro) == ItemSegments(item, Pkt(b, offset))
  {
    hide TcpAccounted, Segment, Segments, Like, TcpShape, TcpItemOk, Encode, SplitAll, U32At, ToU32, AccountTcp, Expand,
         TcpSegments, Describe, DescribeAll, StandardLayout;
    var v6 := item.key.v6;
    var pkt := Pkt(b, offset);
    ItemSizes(item, pkt);
    ItemFacts(item, pkt);
    MergedSegments(item, pkt);
    TcpAccountedShape(pkt, v6);
    var pkt' := TcpAccounted(pkt, v6);
    var b' := AccountTcp(item, b, offset, little);
    var o := TcpGsoOptions(v6, item.iphLen + item.tcphLen, item.gsoSize);
    AccountTcpParts(item, b, offset, little);
    ExpandGso(b', offset, TcpGsoHeader(item), o, little);
    TcpLayout(pkt', v6, item.gsoSize);
    SplitAllIs(pkt', o);
    SegmentsDescribed(pkt', v6, o, o.hdrLen, 0, gro, item.sentSeq);
    ToU32Same(item.sentSeq, o.gsoSize);
  }

  lemma AccountTcpParts(item: TcpItem, b: Buf, offset: nat, little: bool)
    requires HDR_LEN <= offset && offset + IpHeaderLen(item.key.v6) <= |b.bytes|
    requires item.iphLen + item.tcphLen <= 0xffff && item.numMerged > 0
    ensures var b' := AccountTcp(item, b, offset, little);
            && offset <= |b'.bytes| && Pkt(b', offset) == TcpAccounted(Pkt(b, offset), item.key.v6)
            && b'.bytes[offset - HDR_LEN..offset] == Encode(TcpGsoHeader(item), little)
  {
    hide TcpAccounted, Encode;
    FrontKept(WithHeader(b, offset, TcpGsoHeader(item), little), AccountTcp(item, b, offset, little), offset);
  }

  lemma ExpandGso(b: Buf, offset: nat, h: Header, o: GsoOptions, little: bool)
    requires HDR_LEN <= offset <= |b.bytes| && b.bytes[offset - HDR_LEN..offset] == Encode(h, little)
    requires ToOptions(h) == Some(o) && h.gsoType != GSO_NONE
    ensures Expand(b, offset, little) == SplitAll(Pkt(b, offset), o)
  {
    hide SplitAll, Encode, Decode, ToOptions;
    HeaderInFront(b, offset, h, little);
  }

  lemma ToU32Same(x: u32, size: nat)
    ensures ToU32(x + size * 0) == x
  {}

  lemma FrontKept(a: Buf, b: Buf, offset: nat)
    requires HDR_LEN <= offset <= |a.bytes| && offset <= |b.bytes| && b.bytes[..offset] == a.bytes[..offset]
    ensures b.bytes[offset - HDR_LEN..offset] == a.bytes[offset - HDR_LEN..offset]
  {
    assert b.bytes[offset - HDR_LEN..offset] == b.bytes[..offset][offset - HDR_LEN..];
    assert a.bytes[offset - HDR_LEN..offset] == a.bytes[..offset][offset - HDR_LEN..];
  }

  lemma ItemFacts(item: TcpItem, pkt: Packet)
    requires TcpItemOk(item, pkt)
    ensures TcpShape(pkt, item.key.v6) && item.sentSeq == U32At(pkt, IpHeaderLen(item.key.v6) + 4) && item.gsoSize > 0
    ensures item.iphLen == IpHeaderLen(item.key.v6)
  {}

  /** A buffer with a zeroed header stands for the packet in it. */
  lemma ExpandBlank(b: Buf, offset: nat, little: bool, gro: Flags)
    requires HDR_LEN <= offset <= |b.bytes| && forall k | offset - HDR_LEN <= k < offset :: b.bytes[k] == 0
    ensures DescribeAll(Expand(b, offset, little), gro) == [Describe(Pkt(b, offset), gro)]
  {
    hide Describe;
    var front := b.bytes[offset - HDR_LEN..offset];
    assert front[1] == 0;
    assert DescribeAll([Pkt(b, offset)], gro) == [Describe(Pkt(b, offset), gro)] + DescribeAll([], gro);
  }

  // ---- Splitting a merged UDP packet ----

  function UdpGsoOptions(v6: bool, size: u16): GsoOptions {
    GsoOptions(UdpL4, IpHeaderLen(v6) + UDP_HDR_LEN, IpHeaderLen(v6), CSUM_OFFSET_UDP, size, true)
  }

  /** The IP headers agree apart from lengths, ID and checksum, the UDP ports agree. */
  predicate SameUdpHeaders(pkt: Packet, s: Packet, v6: bool) {
    var hl := IpHeaderLen(v6) + UDP_HDR_LEN;
    && hl <= |pkt| && hl <= |s|
    && forall k | 0 <= k < hl - 4 && !IpRewrites(!v6, k) :: s[k] == pkt[k]
  }

  lemma SameUdpHeadersShape(pkt: Packet, s: Packet, v6: bool)
    requires UdpShape(pkt, v6) && SameUdpHeaders(pkt, s, v6) && IpHeaderLen(v6) + UDP_HDR_LEN < |s| <= 0xffff
    ensures UdpShape(s, v6) && UdpLike(s, v6) == UdpLike(pkt, v6)
  {
    var (off, z) := (AddrOff(v6), AddrSize(v6));
    assert s[off..off + z] == pkt[off..off + z] && s[off + z..off + 2 * z] == pkt[off + z..off + 2 * z];
  }

  lemma UdpAccountedShape(pkt: Packet, v6: bool)
    requires UdpShape(pkt, v6)
    ensures var r := UdpAccounted(pkt, v6);
            var hl := IpHeaderLen(v6) + UDP_HDR_LEN;
            UdpShape(r, v6) && UdpLike(r, v6) == UdpLike(pkt, v6) && r[hl..] == pkt[hl..]
  {
    hide Fold, WordSum, PseudoSum, Complement, UdpLike, WithIpLength;
    var r := UdpAccounted(pkt, v6);
    AccountedTouches(pkt, v6);
    assert SameUdpHeaders(pkt, r, v6);
    SameUdpHeadersShape(pkt, r, v6);
    var hl := IpHeaderLen(v6) + UDP_HDR_LEN;
    assert r[hl..] == pkt[hl..];
  }

  lemma UdpLayout(pkt: Packet, v6: bool, size: u16)
    requires UdpShape(pkt, v6) && 0 < size && IpHeaderLen(v6) + UDP_HDR_LEN + size <= 0xffff
    ensures StandardLayout(pkt, UdpGsoOptions(v6, size))
  {}

  lemma UdpSegmentHeaders(pkt: Packet, v6: bool, o: GsoOptions, at: nat, index: nat, s: Packet)
    requires UdpShape(pkt, v6) && o == UdpGsoOptions(v6, o.gsoSize) && StandardLayout(pkt, o)
    requires o.hdrLen <= at < |pkt| && s == Segment(pkt, o, at, index)
    ensures |s| == o.hdrLen + (SegmentEnd(pkt, o, at) - at) && s[o.hdrLen..] == pkt[at..SegmentEnd(pkt, o, at)]
    ensures SameUdpHeaders(pkt, s, v6)
    ensures if v6 then U16At(s, 4) == |s| - 40 else U16At(s, 2) == |s|
  {
    hide Segment, TransportVerifies, Verifies, WordSum, Fold, U32At, ToU32;
    SegmentIsValid(pkt, o, at, index, s);
  }

  lemma DescribeUdpSegment(pkt: Packet, v6: bool, o: GsoOptions, at: nat, index: nat, s: Packet, gro: Flags)
    requires UdpShape(pkt, v6) && o == UdpGsoOptions(v6, o.gsoSize) && StandardLayout(pkt, o) && gro.canUdp
    requires o.hdrLen <= at < |pkt| && s == Segment(pkt, o, at, index)
    ensures Describe(s, gro) == AsOneDatagram(UdpLike(pkt, v6), pkt[at..SegmentEnd(pkt, o, at)])
  {
    hide Segment, ChecksumValid;
    UdpSegmentHeaders(pkt, v6, o, at, index, s);
    SameUdpHeadersShape(pkt, s, v6);
    SegmentAccepted(pkt, v6, o, at, index, s);
    assert !v6 ==> s[6] == pkt[6] && s[7] == pkt[7];
    DescribedUdpShape(s, gro, v6);
  }

  function AsOneDatagram(like: Desc, data: seq<byte>): Desc
    requires like.UdpDatagram?
  {
    like.(data := data)
  }

  lemma {:induction false} DatagramsDescribed(pkt: Packet, v6: bool, o: GsoOptions, at: nat, index: nat, gro: Flags)
    requires UdpShape(pkt, v6) && o == UdpGsoOptions(v6, o.gsoSize) && StandardLayout(pkt, o)
    requires o.hdrLen <= at < |pkt| && gro.canUdp
    ensures DescribeAll(Segments(pkt, o, at, index), gro) == UdpDatagrams(UdpLike(pkt, v6), o.gsoSize, pkt[at..])
    decreases |pkt| - at
  {
    hide Segment, Describe, UdpLike, UdpShape, DescribeAll;
    var s := Segment(pkt, o, at, index);
    DescribeUdpSegment(pkt, v6, o, at, index, s, gro);
    var rest := Segments(pkt, o, at + o.gsoSize, index + 1);
    DescribeCons(s, rest, gro);
    if at + o.gsoSize < |pkt| {
      DatagramsDescribed(pkt, v6, o, at + o.gsoSize, index + 1, gro);
      assert pkt[at..][..o.gsoSize] == pkt[at..at + o.gsoSize];
      assert pkt[at..][o.gsoSize..] == pkt[at + o.gsoSize..];
    } else {
      assert rest == [] && pkt[at..|pkt|] == pkt[at..];
    }
  }

  lemma UdpItemSizes(item: UdpItem, pkt: Packet)
    requires UdpItemOk(item, pkt) && item.numMerged > 0
    ensures UdpShape(pkt, item.key.v6) && item.iphLen == IpHeaderLen(item.key.v6) && item.gsoSize > 0
    ensures item.iphLen + UDP_HDR_LEN + item.gsoSize < |pkt| <= 0xffff
  {
    TimesMonotone(1, item.numMerged, item.gsoSize);
    assert Times(1, item.gsoSize) == item.gsoSize;
  }

  lemma AccountUdpParts(item: UdpItem, b: Buf, offset: nat, little: bool)
    requires HDR_LEN <= offset && offset + IpHeaderLen(item.key.v6) + UDP_HDR_LEN <= |b.bytes|
    requires item.iphLen + UDP_HDR_LEN <= 0xffff && item.numMerged > 0
    ensures var b' := AccountUdp(item, b, offset, little);
            && offset <= |b'.bytes| && Pkt(b', offset) == UdpAccounted(Pkt(b, offset), item.key.v6)
            && b'.bytes[offset - HDR_LEN..offset] == Encode(UdpGsoHeader(item), little)
  {
    hide UdpAccounted, Encode;
    FrontKept(WithHeader(b, offset, UdpGsoHeader(item), little), AccountUdp(item, b, offset, little), offset);
  }

  /** Splitting a merged UDP packet by its header gives exactly the datagrams merged into it, in order. */
  lemma ExpandMergedUdp(item: UdpItem, b: Buf, offset: nat, little: bool, gro: Flags)
    requires BufOk(b, offset) && UdpItemOk(item, Pkt(b, offset)) && item.numMerged > 0 && gro.canUdp
    requires offset + IpHeaderLen(item.key.v6) + UDP_HDR_LEN <= |b.bytes| && item.iphLen + UDP_HDR_LEN <= 0xffff
    ensures var b' := AccountUdp(item, b, offset, little);
            && offset <= |b'.bytes|
            && DescribeAll(Expand(b', offset, little), gro) == ItemDatagrams(item, Pkt(b, offset))
  {
    hide UdpAccounted, Segment, Segments, UdpLike, UdpShape, UdpItemOk, Encode, SplitAll, AccountUdp, Expand,
         UdpDatagrams, Describe, DescribeAll, StandardLayout;
    var v6 := item.key.v6;
    var pkt := Pkt(b, offset);
    UdpItemSizes(item, pkt);
    MergedDatagrams(item, pkt);
    UdpAccountedShape(pkt, v6);
    var pkt' := UdpAccounted(pkt, v6);
    var b' := AccountUdp(item, b, offset, little);
    var o := UdpGsoOptions(v6, item.gsoSize);
    AccountUdpParts(item, b, offset, little);
    ExpandGso(b', offset, UdpGsoHeader(item), o, little);
    UdpLayout(pkt', v6, item.gsoSize);
    SplitAllIs(pkt', o);
    DatagramsDescribed(pkt', v6, o, o.hdrLen, 0, gro);
  }
}
