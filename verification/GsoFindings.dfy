/** A segment whose computed UDP checksum is zero, and is stored as zero. */
module GsoFindings {
  import opened Bytes
  import opened Checksum
  import opened VirtioNet
  import opened GsoSplit
  import opened GsoProperties

  function Address(last: byte): seq<byte> {
    [0, 0, 0, 0, 0, 0, 0, 0, 0, 0, 0, 0, 0, 0, 0, last]
  }

  const UDP_TAIL: seq<byte> := [0, 7, 0, 9, 0, 12, 0, 0, 0xff, 0xc7, 5, 6]

  /** UDP over IPv6 from ::1 port 7 to ::2 port 9, four octets of data. */
  const OFFLOADED: Packet := [0x60, 0, 0, 0, 0, 12, 17, 64] + Address(1) + Address(2) + UDP_TAIL

  /** To be cut after two octets. */
  const OPTIONS := GsoOptions(UdpL4, 48, 40, 6, 2, true)

  lemma OffloadedParts()
    ensures |OFFLOADED| == 52 && Version(OFFLOADED) == 6 && StandardLayout(OFFLOADED, OPTIONS)
    ensures SrcAddr(OFFLOADED) == Address(1) && DstAddr(OFFLOADED) == Address(2)
    ensures OFFLOADED[40..44] == [0, 7, 0, 9] && OFFLOADED[48..50] == [0xff, 0xc7]
    ensures SegmentEnd(OFFLOADED, OPTIONS, 48) == 50
  {
    var x := OFFLOADED;
    assert x[8..24] == Address(1) && x[24..40] == Address(2) && x[40..] == UDP_TAIL;
    assert x[40..44] == UDP_TAIL[..4] && x[48..50] == UDP_TAIL[8..10];
  }

  lemma AddressSum(last: byte)
    ensures WordSum(Address(last)) == last
  {
    var x := Address(last);
    WordSumStart(x, 0);
    FiveWords(x, 0);
    WordSumStep(x, 10);
    WordSumStep(x, 12);
    WordSumStep(x, 14);
    WordSumEnd(x, 16);
  }

  lemma SegmentTail(s: Packet)
    requires |s| == 50 && s[40..44] == [0, 7, 0, 9] && U16At(s, 44) == 10 && s[48..50] == [0xff, 0xc7]
    ensures WordSum(PutU16(s, 46, 0)[40..]) == 7 + 9 + 10 + 0xffc7
  {
    var x := PutU16(s, 46, 0);
    assert x[40] == s[40..44][0] && x[41] == s[40..44][1] && x[42] == s[40..44][2] && x[43] == s[40..44][3];
    assert x[48] == s[48..50][0] && x[49] == s[48..50][1];
    FiveWords(x, 40);
    WordSumEnd(x, 50);
  }

  lemma FirstSegment(s: Packet)
    requires |OFFLOADED| == 52 && StandardLayout(OFFLOADED, OPTIONS) && s == Segment(OFFLOADED, OPTIONS, 48, 0)
    ensures |s| == 50 && s[40..44] == [0, 7, 0, 9] && U16At(s, 44) == 10 && s[48..50] == [0xff, 0xc7]
    ensures Version(s) == 6 && SrcAddr(s) == Address(1) && DstAddr(s) == Address(2)
  {
    hide Segment, IpHeaderRight, TransportVerifies, StandardLayout;
    OffloadedParts();
    SegmentIsValid(OFFLOADED, OPTIONS, 48, 0, s);
    assert s[48..50] == s[48..];
    assert s[40..44] == OFFLOADED[40..44];
  }

  /** The first segment's checksum adds up to all ones, and its complement, zero, is what is stored. */
  lemma UdpChecksumIsZero()
    ensures StandardLayout(OFFLOADED, OPTIONS) && 48 < |OFFLOADED|
    ensures U16At(Segment(OFFLOADED, OPTIONS, 48, 0), 46) == 0
  {
    hide Segment, StandardLayout, WordSum, Fold, SrcAddr, DstAddr;
    OffloadedParts();
    var s := Segment(OFFLOADED, OPTIONS, 48, 0);
    FirstSegment(s);
    SegmentUncheckedIff(OFFLOADED, OPTIONS, 48, 0, s);
    SegmentTail(s);
    AddressSum(1);
    AddressSum(2);
    assert UncheckedSum(s, OPTIONS) == 0xffff;
  }
}
