/**
 Merging as the receiver of the packets sees it: every packet read from its own octets, without the parser and the
 flow keys of the program.
 */
module GroWire {
  import opened Bytes
  import opened Checksum
  import opened VirtioNet
  import opened Gro
  import opened GroItems
  import opened GroInvariant
  import opened GroSteps
  import opened GroAccount
  import opened GroRun
  import GsoProperties
  import Wire

  /**
   A packet as read: a TCP segment or a UDP datagram with what an offloaded packet has for each of them, or, if
   merging does not take it, all of its octets. `right` is the receiver's verdict on its checksum.
   */
  datatype Reading =
    | TcpReading(
        v6: bool, source: seq<byte>, destination: seq<byte>, srcPort: nat, dstPort: nat, ack: nat,
        ipClass: seq<byte>, options: seq<byte>, seqNum: nat, data: seq<byte>, right: bool)
    | UdpReading(
        v6: bool, source: seq<byte>, destination: seq<byte>, srcPort: nat, dstPort: nat,
        ipClass: seq<byte>, data: seq<byte>, right: bool)
    | WholePacket(packet: Packet)

  /** No options, no fragment, and a length field that is right. */
  predicate PlainIp(pkt: Packet, v6: bool, protocol: nat) {
    if v6 then |pkt| >= 48 && pkt[0] / 16 == 6 && pkt[6] == protocol && Wire.Word(pkt, 4) == |pkt| - 40
    else && |pkt| >= 28 && pkt[0] == 0x45 && pkt[9] == protocol && Wire.Word(pkt, 2) == |pkt|
         && pkt[6] / 32 % 2 == 0 && pkt[6] % 32 == 0 && pkt[7] == 0
  }

  function Start(v6: bool): nat {
    if v6 then 40 else 20
  }

  /** A TCP segment with data, its flags ACK or ACK and PSH. */
  predicate TcpTaken(pkt: Packet, v6: bool) {
    var t := Start(v6);
    && t + 20 <= |pkt| <= 65535 && PlainIp(pkt, v6, 6)
    && pkt[t + 12] / 16 >= 5 && t + pkt[t + 12] / 16 * 4 < |pkt|
    && (pkt[t + 13] == 0x10 || pkt[t + 13] == 0x18)
  }

  /** A UDP datagram with data. */
  predicate UdpTaken(pkt: Packet, v6: bool) {
    Start(v6) + 8 < |pkt| <= 65535 && PlainIp(pkt, v6, 17)
  }

  /** TOS, DF and TTL; for IPv6 version, traffic class and hop limit. */
  function ClassOf(pkt: Packet, v6: bool): seq<byte>
    requires |pkt| >= Start(v6)
  {
    if v6 then [pkt[0], pkt[1] / 16, pkt[7]] else [pkt[1], pkt[6], pkt[8]]
  }

  function ReadTcp(pkt: Packet, v6: bool): Reading
    requires TcpTaken(pkt, v6)
  {
    var t := Start(v6);
    var h := t + pkt[t + 12] / 16 * 4;
    TcpReading(v6, Wire.Source(pkt, v6), Wire.Destination(pkt, v6), Wire.Word(pkt, t), Wire.Word(pkt, t + 2),
               Wire.DoubleWord(pkt, t + 8), ClassOf(pkt, v6), pkt[t + 20..h], Wire.DoubleWord(pkt, t + 4), pkt[h..],
               Wire.ChecksumRight(pkt, v6, 6, t))
  }

  function ReadUdp(pkt: Packet, v6: bool): Reading
    requires UdpTaken(pkt, v6)
  {
    var t := Start(v6);
    UdpReading(v6, Wire.Source(pkt, v6), Wire.Destination(pkt, v6), Wire.Word(pkt, t), Wire.Word(pkt, t + 2),
               ClassOf(pkt, v6), pkt[t + 8..], Wire.ChecksumRight(pkt, v6, 17, t))
  }

  function Read(pkt: Packet, gro: Flags): Reading {
    if gro.canTcp && TcpTaken(pkt, false) then ReadTcp(pkt, false)
    else if gro.canTcp && TcpTaken(pkt, true) then ReadTcp(pkt, true)
    else if gro.canUdp && UdpTaken(pkt, false) then ReadUdp(pkt, false)
    else if gro.canUdp && UdpTaken(pkt, true) then ReadUdp(pkt, true)
    else WholePacket(pkt)
  }

  /** The reading that a description stands for. */
  function FromDesc(d: Desc): Reading {
    match d
    case TcpSegment(key, ipClass, options, seqNum, payload, verifies) =>
      TcpReading(key.v6, key.srcAddr, key.dstAddr, key.srcPort, key.dstPort, key.rxAck, ipClass, options, seqNum,
                 payload, verifies)
    case UdpDatagram(key, ipClass, data, verifies) =>
      UdpReading(key.v6, key.srcAddr, key.dstAddr, key.srcPort, key.dstPort, ipClass, data, verifies)
    case Raw(packet) => WholePacket(packet)
  }

  // ---- The program's parser reads the same ----

  lemma CandidateIs(pkt: Packet, gro: Flags)
    ensures gro.canTcp && TcpTaken(pkt, false) <==>
              PacketIsGroCandidate(pkt, gro) == Tcp4 && ParseTcp(pkt, 0, false).Some?
    ensures gro.canTcp && TcpTaken(pkt, true) <==>
              PacketIsGroCandidate(pkt, gro) == Tcp6 && ParseTcp(pkt, 0, true).Some?
    ensures gro.canUdp && UdpTaken(pkt, false) <==>
              PacketIsGroCandidate(pkt, gro) == Udp4 && ParseUdp(pkt, 0, false).Some?
    ensures gro.canUdp && UdpTaken(pkt, true) <==>
              PacketIsGroCandidate(pkt, gro) == Udp6 && ParseUdp(pkt, 0, true).Some?
  {}

  lemma ChecksumIs(pkt: Packet, v6: bool, protocol: byte)
    requires Start(v6) <= |pkt| <= 65535
    ensures ChecksumValid(pkt, IpHeaderLen(v6), protocol, v6) <==> Wire.ChecksumRight(pkt, v6, protocol, Start(v6))
  {
    hide WordSum, Verifies, Fold, Wire.ChecksumRight;
    var (off, size, n) := (AddrOff(v6), AddrSize(v6), |pkt| - Start(v6));
    Wire.SameTest(pkt, v6, protocol, Start(v6), n);
    var pseudo := PseudoSum(protocol, pkt[off..off + size], pkt[off + size..off + 2 * size], n);
    SameVerdict(pseudo, WordSum(pkt[Start(v6)..]));
  }

  lemma SameVerdict(pseudo: nat, words: nat)
    ensures Verifies(Fold(pseudo) + words) <==> Verifies(pseudo + words)
  {
    hide Fold;
    FoldAbsorbs(words, pseudo);
  }

  lemma TcpReadIs(pkt: Packet, v6: bool)
    requires |pkt| >= IpHeaderLen(v6) + 20 && ParseTcp(pkt, 0, v6).Some? && TcpTaken(pkt, v6)
    ensures ReadTcp(pkt, v6) == FromDesc(DescribeTcp(pkt, v6))
  {
    hide Wire.ChecksumRight, ChecksumValid, U16At, U32At, Wire.Word, Wire.DoubleWord, IpConsistent, PlainIp;
    ChecksumIs(pkt, v6, 6);
    Wire.SameAddresses(pkt, v6);
    Wire.SameWords(pkt, Start(v6));
    Wire.SameWords(pkt, Start(v6) + 2);
    Wire.SameWords(pkt, Start(v6) + 4);
    Wire.SameWords(pkt, Start(v6) + 8);
  }

  lemma UdpReadIs(pkt: Packet, v6: bool)
    requires |pkt| >= IpHeaderLen(v6) + 8 && ParseUdp(pkt, 0, v6).Some? && UdpTaken(pkt, v6)
    ensures ReadUdp(pkt, v6) == FromDesc(DescribeUdp(pkt, v6))
  {
    hide Wire.ChecksumRight, ChecksumValid, U16At, U32At, Wire.Word, Wire.DoubleWord, IpConsistent, PlainIp;
    ChecksumIs(pkt, v6, 17);
    Wire.SameAddresses(pkt, v6);
    Wire.SameWords(pkt, Start(v6));
    Wire.SameWords(pkt, Start(v6) + 2);
  }

  /** A description is the reading of its packet: the program's parser takes and reads packets exactly so. */
  lemma ReadIs(pkt: Packet, gro: Flags)
    ensures Read(pkt, gro) == FromDesc(Describe(pkt, gro))
  {
    hide ReadTcp, ReadUdp, DescribeTcp, DescribeUdp, TcpTaken, UdpTaken, ParseTcp, ParseUdp, FromDesc;
    CandidateIs(pkt, gro);
    TakenOnce(pkt, gro);
    RawIs(pkt);
    match PacketIsGroCandidate(pkt, gro)
    case Tcp4 => ParsedOrRaw(pkt, false);
    case Tcp6 => ParsedOrRaw(pkt, true);
    case Udp4 => ParsedOrRawUdp(pkt, false);
    case Udp6 => ParsedOrRawUdp(pkt, true);
    case NotCandidate =>
  }

  lemma TakenOnce(pkt: Packet, gro: Flags)
    ensures PacketIsGroCandidate(pkt, gro) == Tcp4 || PacketIsGroCandidate(pkt, gro) == Udp4 ==> |pkt| >= 28
    ensures PacketIsGroCandidate(pkt, gro) == Tcp4 ==> |pkt| >= 40
    ensures PacketIsGroCandidate(pkt, gro) == Tcp6 ==> |pkt| >= 60
    ensures PacketIsGroCandidate(pkt, gro) == Udp6 ==> |pkt| >= 48
  {}

  lemma RawIs(pkt: Packet)
    ensures FromDesc(Raw(pkt)) == WholePacket(pkt)
  {}

  lemma ParsedOrRaw(pkt: Packet, v6: bool)
    requires |pkt| >= IpHeaderLen(v6) + 20 && (ParseTcp(pkt, 0, v6).Some? <==> TcpTaken(pkt, v6))
    ensures if TcpTaken(pkt, v6) then ReadTcp(pkt, v6) == FromDesc(DescribeTcp(pkt, v6))
            else DescribeTcp(pkt, v6) == Raw(pkt)
  {
    hide ReadTcp, FromDesc, ParseTcp, ChecksumValid, TcpTaken;
    if TcpTaken(pkt, v6) {
      TcpReadIs(pkt, v6);
    }
  }

  lemma ParsedOrRawUdp(pkt: Packet, v6: bool)
    requires |pkt| >= IpHeaderLen(v6) + 8 && (ParseUdp(pkt, 0, v6).Some? <==> UdpTaken(pkt, v6))
    ensures if UdpTaken(pkt, v6) then ReadUdp(pkt, v6) == FromDesc(DescribeUdp(pkt, v6))
            else DescribeUdp(pkt, v6) == Raw(pkt)
  {
    hide ReadUdp, FromDesc, ParseUdp, ChecksumValid, UdpTaken;
    if UdpTaken(pkt, v6) {
      UdpReadIs(pkt, v6);
    }
  }

  /** One table entry for two TCP packets: the same addresses, ports and acknowledgement number on the wire. */
  lemma TcpKeyIff(a: Packet, b: Packet, v6: bool, v6': bool)
    requires |a| >= Start(v6) + 20 && |b| >= Start(v6') + 20
    ensures TcpKey(a, v6) == TcpKey(b, v6') <==>
              && v6 == v6' && Wire.Source(a, v6) == Wire.Source(b, v6) && Wire.Destination(a, v6) == Wire.Destination(b, v6)
              && a[Start(v6)..Start(v6) + 4] == b[Start(v6)..Start(v6) + 4]
              && a[Start(v6) + 8..Start(v6) + 12] == b[Start(v6) + 8..Start(v6) + 12]
  {
    hide U16At, U32At;
    SameWordIff(a, b, Start(v6), Start(v6'));
    SameWordIff(a, b, Start(v6) + 2, Start(v6') + 2);
    SameLongIff(a, b, Start(v6) + 8, Start(v6') + 8);
    FourOctets(a, b, Start(v6), Start(v6'));
    FourOctets(a, b, Start(v6) + 8, Start(v6') + 8);
  }

  lemma UdpKeyIff(a: Packet, b: Packet, v6: bool, v6': bool)
    requires |a| >= Start(v6) + 8 && |b| >= Start(v6') + 8
    ensures UdpKey(a, v6) == UdpKey(b, v6') <==>
              && v6 == v6' && Wire.Source(a, v6) == Wire.Source(b, v6) && Wire.Destination(a, v6) == Wire.Destination(b, v6)
              && a[Start(v6)..Start(v6) + 4] == b[Start(v6)..Start(v6) + 4]
  {
    hide U16At;
    SameWordIff(a, b, Start(v6), Start(v6'));
    SameWordIff(a, b, Start(v6) + 2, Start(v6') + 2);
    FourOctets(a, b, Start(v6), Start(v6'));
  }

  lemma SameWordIff(a: Packet, b: Packet, at: nat, at': nat)
    requires at + 2 <= |a| && at' + 2 <= |b|
    ensures U16At(a, at) == U16At(b, at') <==> a[at] == b[at'] && a[at + 1] == b[at' + 1]
  {}

  lemma SameLongIff(a: Packet, b: Packet, at: nat, at': nat)
    requires at + 4 <= |a| && at' + 4 <= |b|
    ensures U32At(a, at) == U32At(b, at') <==>
              && a[at] == b[at'] && a[at + 1] == b[at' + 1] && a[at + 2] == b[at' + 2] && a[at + 3] == b[at' + 3]
  {
    hide U16At;
    SameWordIff(a, b, at, at');
    SameWordIff(a, b, at + 2, at' + 2);
  }

  lemma FourOctets(a: Packet, b: Packet, at: nat, at': nat)
    requires at + 4 <= |a| && at' + 4 <= |b|
    ensures a[at..at + 4] == b[at'..at' + 4] <==>
              && a[at] == b[at'] && a[at + 1] == b[at' + 1] && a[at + 2] == b[at' + 2] && a[at + 3] == b[at' + 3]
  {
    if a[at..at + 4] == b[at'..at' + 4] {
      assert a[at] == a[at..at + 4][0] && a[at + 1] == a[at..at + 4][1];
      assert a[at + 2] == a[at..at + 4][2] && a[at + 3] == a[at..at + 4][3];
      assert b[at'] == b[at'..at' + 4][0] && b[at' + 1] == b[at'..at' + 4][1];
      assert b[at' + 2] == b[at'..at' + 4][2] && b[at' + 3] == b[at'..at' + 4][3];
    }
  }

  // ---- What accounting writes ----

  /** Lengths of the IP header are right and an IPv4 header checksum verifies. */
  predicate IpLengthRight(pkt: Packet, v6: bool)
    requires |pkt| >= Start(v6)
  {
    if v6 then Wire.Word(pkt, 4) == |pkt| - 40
    else Wire.Word(pkt, 2) == |pkt| && Verifies(WordSum(pkt[..20]))
  }

  /** The octets of lengths and checksums. */
  predicate Accounts(v6: bool, k: int, csumAt: nat, lengthAt: Option<nat>) {
    || (if v6 then 4 <= k < 6 else 2 <= k < 4 || 10 <= k < 12)
    || csumAt <= k < csumAt + 2
    || (lengthAt.Some? && lengthAt.value <= k < lengthAt.value + 2)
  }

  /**
   A merged packet as it is written: right lengths, the pseudo header sum of the whole in the checksum field, for
   the kernel to complete, and everything else as it was.
   */
  predicate AccountedRight(pkt: Packet, r: Packet, v6: bool, protocol: nat, csumAt: nat, lengthAt: Option<nat>)
    requires Start(v6) <= |pkt| && csumAt + 2 <= |pkt| && (lengthAt.Some? ==> lengthAt.value + 2 <= |pkt|)
  {
    && |r| == |pkt| && IpLengthRight(r, v6)
    && Wire.Word(r, csumAt) == Fold(Wire.Pseudo(pkt, v6, protocol, |pkt| - Start(v6)))
    && (lengthAt.Some? ==> Wire.Word(r, lengthAt.value) == |pkt| - Start(v6))
    && forall k | 0 <= k < |pkt| && !Accounts(v6, k, csumAt, lengthAt) :: r[k] == pkt[k]
  }

  lemma IpLengthIs(pkt: Packet, v6: bool)
    requires Start(v6) <= |pkt| <= 65535
    ensures var r := WithIpLength(pkt, v6);
            && IpLengthRight(r, v6)
            && forall k | 0 <= k < |pkt| && !(if v6 then 4 <= k < 6 else 2 <= k < 4 || 10 <= k < 12) :: r[k] == pkt[k]
  {
    hide Fold, WordSum, Verifies, Wire.Word, U16At;
    var r := WithIpLength(pkt, v6);
    Wire.SameWords(r, if v6 then 4 else 2);
    if !v6 {
      var sized := PutU16(PutU16(pkt, 10, 0), 2, ToU16(|pkt|));
      KeepsWord(PutU16(pkt, 10, 0), 2, 10, ToU16(|pkt|));
      KeepsWord(sized, 10, 2, Complement(Fold(WordSum(sized[..20]))));
      assert sized[0..20] == sized[..20] && r[0..20] == r[..20];
      GsoProperties.StoredInRegion(sized, 0, 20, 10, 0, r);
    }
  }

  lemma KeepsWord(b: Packet, at: nat, other: nat, v: u16)
    requires at + 2 <= |b| && other + 2 <= |b| && (at + 2 <= other || other + 2 <= at)
    ensures U16At(PutU16(b, at, v), other) == U16At(b, other)
  {}

  lemma PseudoSumIs(pkt: Packet, v6: bool, protocol: byte, csumAt: nat)
    requires Start(v6) <= |pkt| <= 65535 && Start(v6) <= csumAt && csumAt + 2 <= |pkt|
    ensures var r := WithPseudoSum(pkt, v6, protocol, csumAt);
            && Wire.Word(r, csumAt) == Fold(Wire.Pseudo(pkt, v6, protocol, |pkt| - Start(v6)))
            && forall k | 0 <= k < |pkt| && !(csumAt <= k < csumAt + 2) :: r[k] == pkt[k]
  {
    hide Fold, WordSum, Wire.Word, U16At;
    Wire.SameAddresses(pkt, v6);
    Wire.SameWords(WithPseudoSum(pkt, v6, protocol, csumAt), csumAt);
  }

  /** Lengths and pseudo header sums go by addresses, which accounting leaves alone. */
  lemma SamePseudo(a: Packet, b: Packet, v6: bool, protocol: nat)
    requires |a| == |b| >= Start(v6) && forall k | Start(v6) - (if v6 then 32 else 8) <= k < Start(v6) :: a[k] == b[k]
    ensures Wire.Pseudo(a, v6, protocol, |a| - Start(v6)) == Wire.Pseudo(b, v6, protocol, |b| - Start(v6))
  {
    hide WordSum;
    assert Wire.Source(a, v6) == Wire.Source(b, v6) && Wire.Destination(a, v6) == Wire.Destination(b, v6);
  }

  lemma SameIpLength(a: Packet, b: Packet, v6: bool)
    requires |a| == |b| >= Start(v6) && a[..Start(v6)] == b[..Start(v6)] && IpLengthRight(a, v6)
    ensures IpLengthRight(b, v6)
  {
    hide WordSum, Verifies;
    var at := if v6 then 4 else 2;
    assert a[at] == a[..Start(v6)][at] == b[at] && a[at + 1] == a[..Start(v6)][at + 1] == b[at + 1];
  }

  /** `apply_tcp_coalesce_accounting` on the packet of one merged item. */
  lemma TcpAccountedIs(pkt: Packet, v6: bool)
    requires Start(v6) + 20 <= |pkt| <= 65535
    ensures AccountedRight(pkt, TcpAccounted(pkt, v6), v6, 6, Start(v6) + 16, None)
  {
    hide Fold, WordSum, Wire.Pseudo, Wire.Word, IpLengthRight, WithIpLength, WithPseudoSum;
    var mid := WithIpLength(pkt, v6);
    var r := TcpAccounted(pkt, v6);
    IpLengthIs(pkt, v6);
    PseudoSumIs(mid, v6, 6, Start(v6) + 16);
    SamePseudo(pkt, mid, v6, 6);
    assert mid[..Start(v6)] == r[..Start(v6)];
    SameIpLength(mid, r, v6);
  }

  /** `apply_udp_coalesce_accounting`, which also writes the UDP length. */
  lemma UdpAccountedIs(pkt: Packet, v6: bool)
    requires Start(v6) + 8 <= |pkt| <= 65535
    ensures AccountedRight(pkt, UdpAccounted(pkt, v6), v6, 17, Start(v6) + 6, Some(Start(v6) + 4))
  {
    hide Fold, WordSum, Wire.Pseudo, Wire.Word, IpLengthRight, WithIpLength, WithPseudoSum, U16At;
    var first := WithIpLength(pkt, v6);
    var mid := PutU16(first, Start(v6) + 4, |pkt| - Start(v6));
    var r := UdpAccounted(pkt, v6);
    IpLengthIs(pkt, v6);
    Wire.SameWords(mid, Start(v6) + 4);
    PseudoSumIs(mid, v6, 17, Start(v6) + 6);
    SamePseudo(pkt, mid, v6, 17);
    SameWordAt(mid, r, Start(v6) + 4);
    assert first[..Start(v6)] == r[..Start(v6)];
    SameIpLength(first, r, v6);
  }

  lemma SameWordAt(a: Packet, b: Packet, at: nat)
    requires at + 2 <= |a| == |b| && a[at] == b[at] && a[at + 1] == b[at + 1]
    ensures Wire.Word(a, at) == Wire.Word(b, at)
  {}

  // ---- A whole batch ----

  function ReadAll(packets: seq<Packet>, gro: Flags): seq<Reading> {
    if packets == [] then [] else [Read(packets[0], gro)] + ReadAll(packets[1..], gro)
  }

  function FromDescs(descs: seq<Desc>): seq<Reading> {
    if descs == [] then [] else [FromDesc(descs[0])] + FromDescs(descs[1..])
  }

  lemma {:induction false} ReadAllIs(packets: seq<Packet>, gro: Flags)
    ensures ReadAll(packets, gro) == FromDescs(DescribeAll(packets, gro))
    decreases |packets|
  {
    hide Read, FromDesc, Describe;
    if packets != [] {
      ReadIs(packets[0], gro);
      ReadAllIs(packets[1..], gro);
      assert DescribeAll(packets, gro)[1..] == DescribeAll(packets[1..], gro);
    }
  }

  /** The packets the receiver gets out of the written buffers, in the order of the writes. */
  function PacketsOut(bufs: seq<Buf>, toWrite: seq<nat>, offset: nat, little: bool): seq<Packet> {
    if toWrite == [] then []
    else
      var last := |toWrite| - 1;
      PacketsOut(bufs, toWrite[..last], offset, little) + PacketsOf(bufs, toWrite[last], offset, little)
  }

  function PacketsOf(bufs: seq<Buf>, b: nat, offset: nat, little: bool): seq<Packet> {
    if b < |bufs| && HDR_LEN <= offset <= |bufs[b].bytes| then Expand(bufs[b], offset, little) else []
  }

  function PacketsIn(orig: seq<Buf>, offset: nat, n: nat): seq<Packet>
    requires Ready(orig, offset) && n <= |orig|
  {
    if n == 0 then []
    else
      assert BufOk(orig[n - 1], offset);
      PacketsIn(orig, offset, n - 1) + [Pkt(orig[n - 1], offset)]
  }

  lemma {:induction false} DescribeConcat(a: seq<Packet>, b: seq<Packet>, gro: Flags)
    ensures DescribeAll(a + b, gro) == DescribeAll(a, gro) + DescribeAll(b, gro)
    decreases |a|
  {
    hide Describe;
    if a == [] {
      assert a + b == b;
    } else {
      assert (a + b)[1..] == a[1..] + b;
      DescribeConcat(a[1..], b, gro);
      Regroup([Describe(a[0], gro)], DescribeAll(a[1..], gro), DescribeAll(b, gro));
    }
  }

  lemma {:induction false} OutIsDescribed(bufs: seq<Buf>, toWrite: seq<nat>, offset: nat, little: bool, gro: Flags)
    ensures OutDescs(bufs, toWrite, offset, little, gro) == DescribeAll(PacketsOut(bufs, toWrite, offset, little), gro)
    decreases |toWrite|
  {
    hide Expand, DescribeAll;
    if toWrite == [] {
      DescribeNone(gro);
    } else {
      var last := |toWrite| - 1;
      OutIsDescribed(bufs, toWrite[..last], offset, little, gro);
      DescribeConcat(PacketsOut(bufs, toWrite[..last], offset, little), PacketsOf(bufs, toWrite[last], offset, little), gro);
      DescribeNone(gro);
    }
  }

  lemma DescribeNone(gro: Flags)
    ensures DescribeAll([], gro) == []
  {}

  lemma {:induction false} InIsDescribed(orig: seq<Buf>, offset: nat, gro: Flags, n: nat)
    requires Ready(orig, offset) && n <= |orig|
    ensures InDescs(orig, offset, gro, n) == DescribeAll(PacketsIn(orig, offset, n), gro)
  {
    hide Describe;
    if n > 0 {
      assert BufOk(orig[n - 1], offset);
      InIsDescribed(orig, offset, gro, n - 1);
      var p := Pkt(orig[n - 1], offset);
      DescribeConcat(PacketsIn(orig, offset, n - 1), [p], gro);
      DescribeCons(p, [], gro);
      assert [p] + [] == [p];
    }
  }

  lemma {:induction false} FromConcat(a: seq<Desc>, b: seq<Desc>)
    ensures FromDescs(a + b) == FromDescs(a) + FromDescs(b)
    decreases |a|
  {
    hide FromDesc;
    if a == [] {
      assert a + b == b;
    } else {
      assert (a + b)[1..] == a[1..] + b;
      FromConcat(a[1..], b);
    }
  }

  lemma FromOne(d: Desc)
    ensures FromDescs([d]) == [FromDesc(d)]
  {
    hide FromDesc;
    assert FromDescs([d][1..]) == [];
  }

  /** The same descriptions in another order give the same readings in another order. */
  lemma {:induction false} SameReadings(a: seq<Desc>, b: seq<Desc>)
    requires multiset(a) == multiset(b)
    ensures multiset(FromDescs(a)) == multiset(FromDescs(b))
    decreases |a|
  {
    hide FromDescs, FromDesc;
    if a == [] {
      assert b == [] by {
        assert |multiset(b)| == 0;
      }
    } else {
      assert a[0] in multiset(b);
      var i :| 0 <= i < |b| && b[i] == a[0];
      OneLess(a, b, i);
      SameReadings(a[1..], b[..i] + b[i + 1..]);
      ReadingsLess(a, 0);
      assert a[..0] + a[1..] == a[1..];
      ReadingsLess(b, i);
    }
  }

  lemma OneLess(a: seq<Desc>, b: seq<Desc>, i: nat)
    requires a != [] && multiset(a) == multiset(b) && i < |b| && b[i] == a[0]
    ensures multiset(a[1..]) == multiset(b[..i] + b[i + 1..])
  {
    assert a == [a[0]] + a[1..];
    assert b == b[..i] + [b[i]] + b[i + 1..];
    assert multiset(a[1..]) == multiset(a) - multiset{a[0]};
    assert multiset(b[..i] + b[i + 1..]) == multiset(b) - multiset{b[i]};
  }

  lemma ReadingsLess(a: seq<Desc>, i: nat)
    requires i < |a|
    ensures multiset(FromDescs(a)) == multiset(FromDescs(a[..i] + a[i + 1..])) + multiset{FromDesc(a[i])}
  {
    hide FromDescs, FromDesc;
    assert a == a[..i] + ([a[i]] + a[i + 1..]);
    FromConcat(a[..i], [a[i]] + a[i + 1..]);
    FromConcat([a[i]], a[i + 1..]);
    FromOne(a[i]);
    FromConcat(a[..i], a[i + 1..]);
  }

  /** The readings of one UDP flow, in order. */
  function UdpReadings(readings: seq<Reading>, key: UdpFlowKey): seq<Reading> {
    if readings == [] then []
    else (if OfUdp(readings[0], key) then [readings[0]] else []) + UdpReadings(readings[1..], key)
  }

  predicate OfUdp(r: Reading, key: UdpFlowKey) {
    && r.UdpReading? && r.v6 == key.v6 && r.source == key.srcAddr && r.destination == key.dstAddr
    && r.srcPort == key.srcPort && r.dstPort == key.dstPort
  }

  lemma {:induction false} UdpReadingsAre(descs: seq<Desc>, key: UdpFlowKey)
    ensures UdpReadings(FromDescs(descs), key) == FromDescs(UdpOf(descs, key))
    decreases |descs|
  {
    hide FromDesc, OfUdp, OfFlow;
    if descs != [] {
      UdpReadingsAre(descs[1..], key);
      assert FromDescs(descs)[1..] == FromDescs(descs[1..]);
      OfUdpIff(descs[0], key);
      FromConcat(if OfFlow(descs[0], key) then [descs[0]] else [], UdpOf(descs[1..], key));
      FromOne(descs[0]);
    }
  }

  lemma OfUdpIff(d: Desc, key: UdpFlowKey)
    ensures OfUdp(FromDesc(d), key) <==> OfFlow(d, key)
  {}

  /**
   The offload round trip on the wire: whatever comes in, in buffers with zeroed header octets and up to 65535 octets
   of room, the receiver reads every packet exactly once, with its addresses, ports, acknowledgement number, class,
   options, sequence number, data and checksum verdict, and the datagrams merged of each UDP flow in their order.
   */
  lemma RoundTrip(orig: seq<Buf>, offset: nat, gro: Flags, little: bool, bufs': seq<Buf>)
    requires Ready(orig, offset)
    requires AccountedTo(Run(orig, offset, gro, little, |orig|), bufs', offset, little)
    ensures var toWrite := Run(orig, offset, gro, little, |orig|).toWrite;
            var out := ReadAll(PacketsOut(bufs', toWrite, offset, little), gro);
            var came := ReadAll(PacketsIn(orig, offset, |orig|), gro);
            && multiset(out) == multiset(came)
            && forall key :: UdpReadings(out, key) == UdpReadings(came, key)
  {
    hide AccountedTo, Run, OutDescs, InDescs, ReadAll, FromDescs, PacketsOut, PacketsIn, DescribeAll, UdpReadings, UdpOf;
    var toWrite := Run(orig, offset, gro, little, |orig|).toWrite;
    var (out, came) := (PacketsOut(bufs', toWrite, offset, little), PacketsIn(orig, offset, |orig|));
    GroRoundTrip(orig, offset, gro, little, bufs');
    OutIsDescribed(bufs', toWrite, offset, little, gro);
    InIsDescribed(orig, offset, gro, |orig|);
    ReadAllIs(out, gro);
    ReadAllIs(came, gro);
    SameReadings(DescribeAll(out, gro), DescribeAll(came, gro));
    forall key ensures UdpReadings(ReadAll(out, gro), key) == UdpReadings(ReadAll(came, gro), key) {
      UdpReadingsAre(DescribeAll(out, gro), key);
      UdpReadingsAre(DescribeAll(came, gro), key);
    }
  }
}
