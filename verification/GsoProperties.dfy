/** What `gso_split` promises of its output: every segment is a valid packet, and none is lost. */
module GsoProperties {
  import opened Arith
  import opened Bytes
  import opened Checksum
  import opened VirtioNet
  import opened GsoSplit
  import Wire

  // ---- Which octets each step rewrites ----

  predicate IpRewrites(v4: bool, k: int) {
    4 <= k <= 5 || (v4 && (2 <= k <= 3 || 10 <= k <= 11))
  }

  predicate ChecksumRewrites(o: GsoOptions, k: int) {
    CsumAt(o) <= k <= CsumAt(o) + 1
  }

  predicate TransportRewrites(o: GsoOptions, k: int) {
    o.csumStart + 4 <= k <= o.csumStart + 5
    || (Protocol(o.gsoType) == 6 && (o.csumStart + 6 <= k <= o.csumStart + 7 || k == o.csumStart + TCP_FLAGS_OFFSET))
  }

  predicate OnlyIp(a: Packet, b: Packet, v4: bool) {
    |a| == |b| && forall k | 0 <= k < |a| && !IpRewrites(v4, k) :: a[k] == b[k]
  }

  predicate OnlyTransport(a: Packet, b: Packet, o: GsoOptions) {
    |a| == |b| && forall k | 0 <= k < |a| && !TransportRewrites(o, k) :: a[k] == b[k]
  }

  predicate OnlyChecksum(a: Packet, b: Packet, o: GsoOptions) {
    |a| == |b| && forall k | 0 <= k < |a| && !ChecksumRewrites(o, k) :: a[k] == b[k]
  }

  /** Headers agree outside every field that a segment gets of its own. */
  predicate SameHeaders(input: Packet, s: Packet, o: GsoOptions)
    requires |input| >= o.hdrLen > 0 && |s| >= o.hdrLen
  {
    forall k | 0 <= k < o.hdrLen && !IpRewrites(Version(input) == 4, k) && !TransportRewrites(o, k)
               && !ChecksumRewrites(o, k) :: s[k] == input[k]
  }

  // ---- The steps ----

  /** A zeroed field overwritten with the complement of the folded sum makes its region verify. */
  lemma StoredInRegion(zeroed: Packet, lo: nat, hi: nat, at: nat, initial: nat, out: Packet)
    requires lo <= at && at + 2 <= hi <= |zeroed| && (at - lo) % 2 == 0 && U16At(zeroed, at) == 0
    requires out == PutU16(zeroed, at, Complement(Fold(initial + WordSum(zeroed[lo..hi]))))
    ensures Verifies(initial + WordSum(out[lo..hi]))
  {
    var stored := Complement(Fold(initial + WordSum(zeroed[lo..hi])));
    assert out[lo..hi] == PutU16(zeroed[lo..hi], at - lo, stored);
    WordSumPut(zeroed[lo..hi], at - lo, stored);
    ComplementVerifies(initial + WordSum(zeroed[lo..hi]));
  }

  lemma IpStep(out: Packet, o: GsoOptions, v4: bool, index: nat, r: Packet)
    requires 40 <= o.csumStart || (v4 && 20 <= o.csumStart)
    requires o.csumStart <= o.hdrLen <= |out| <= 0xffff && r == WithIp(out, o, v4, index)
    ensures OnlyIp(out, r, v4)
    ensures v4 ==> U16At(r, 2) == |out| && U16At(r, 4) == ToU16(U16At(out, 4) + index)
    ensures v4 ==> Verifies(WordSum(r[..o.csumStart]))
    ensures !v4 ==> U16At(r, 4) == |out| - o.csumStart
  {
    hide Verifies, Fold, WordSum;
    if v4 {
      var numbered := if index > 0 then PutU16(out, 4, ToU16(U16At(out, 4) + index)) else out;
      var sized := PutU16(PutU16(numbered, 10, 0), 2, ToU16(|out|));
      assert U16At(sized, 10) == 0 && U16At(sized, 4) == ToU16(U16At(out, 4) + index);
      assert sized[0..o.csumStart] == sized[..o.csumStart] && r[0..o.csumStart] == r[..o.csumStart];
      StoredInRegion(sized, 0, o.csumStart, 10, 0, r);
    }
  }

  lemma TransportStep(out: Packet, o: GsoOptions, firstSeq: u32, index: nat, last: bool, r: Packet)
    requires o.csumStart + (if Protocol(o.gsoType) == 6 then 20 else 8) <= o.hdrLen <= |out| <= 0xffff
    requires r == WithTransport(out, o, firstSeq, index, last)
    ensures OnlyTransport(out, r, o)
    ensures Protocol(o.gsoType) == 6 ==> U32At(r, o.csumStart + 4) == ToU32(firstSeq + o.gsoSize * index)
    ensures Protocol(o.gsoType) == 6 ==>
              var at := o.csumStart + TCP_FLAGS_OFFSET;
              r[at] == if last then out[at] else ClearFinPsh(out[at])
    ensures Protocol(o.gsoType) == 17 ==> U16At(r, o.csumStart + 4) == |out| - o.csumStart
  {}

  /** Folding the pseudo header in pieces gives the sum over the whole of it. */
  lemma PiecesFold(pseudo: nat, len: u16, words: nat)
    ensures Fold(Fold(Fold(pseudo) + len) + words) == Fold(pseudo + len + words)
  {
    FoldAbsorbs(len, pseudo);
    FoldAbsorbs(words, pseudo + len);
  }

  lemma ChecksumStep(out: Packet, o: GsoOptions, pseudo: nat, r: Packet)
    requires o.csumStart <= o.hdrLen <= |out| <= 0xffff && CsumAt(o) + 2 <= |out| && o.csumOffset % 2 == 0
    requires r == WithChecksum(out, o, Fold(pseudo))
    ensures OnlyChecksum(out, r, o)
    ensures Verifies(pseudo + (|out| - o.csumStart) + WordSum(r[o.csumStart..]))
  {
    hide Verifies, Fold, WordSum;
    var zeroed := PutU16(out, CsumAt(o), 0);
    assert zeroed[o.csumStart..|out|] == zeroed[o.csumStart..] && r[o.csumStart..|out|] == r[o.csumStart..];
    PiecesFold(pseudo, |out| - o.csumStart, WordSum(zeroed[o.csumStart..]));
    StoredInRegion(zeroed, o.csumStart, |out|, CsumAt(o), pseudo + (|out| - o.csumStart), r);
  }

  // ---- One segment ----

  /** The octets of a packet under the edits of the three steps. */
  predicate Steps(input: Packet, o: GsoOptions, raw: Packet, ip: Packet, transport: Packet, filled: Packet, s: Packet) {
    && StandardLayout(input, o) && o.hdrLen <= |input|
    && o.hdrLen <= |raw| <= 0xffff && raw[..o.hdrLen] == input[..o.hdrLen]
    && OnlyIp(raw, ip, Version(input) == 4) && OnlyTransport(ip, transport, o)
    && |filled| == |transport| && filled[..o.hdrLen] == transport[..o.hdrLen] && OnlyChecksum(filled, s, o)
  }

  lemma StepsKeep(input: Packet, o: GsoOptions, raw: Packet, ip: Packet, transport: Packet, filled: Packet, s: Packet)
    requires Steps(input, o, raw, ip, transport, filled, s)
    ensures s[o.hdrLen..] == filled[o.hdrLen..] && SameHeaders(input, s, o)
    ensures s[..o.csumStart] == ip[..o.csumStart]
    ensures forall k | 0 <= k < o.hdrLen && !ChecksumRewrites(o, k) :: s[k] == transport[k]
  {
    assert forall k | 0 <= k < o.hdrLen :: raw[k] == raw[..o.hdrLen][k] == input[k];
    assert forall k | 0 <= k < o.hdrLen :: filled[k] == filled[..o.hdrLen][k] == transport[k];
  }

  lemma SameHeadersSameAddresses(input: Packet, o: GsoOptions, s: Packet)
    requires StandardLayout(input, o) && o.hdrLen <= |input| && o.hdrLen <= |s| && SameHeaders(input, s, o)
    ensures Version(s) == Version(input) && SrcAddr(s) == SrcAddr(input) && DstAddr(s) == DstAddr(input)
  {
    assert s[0] == input[0];
    var v4 := Version(input) == 4;
    var a, n := AddrOff(!v4), AddrSize(!v4);
    assert forall k | a <= k < a + 2 * n :: s[k] == input[k];
    assert s[a..a + n] == input[a..a + n] && s[a + n..a + 2 * n] == input[a + n..a + 2 * n];
  }

  /** The fields of a segment's IP header in the program's terms. */
  predicate IpFieldsSet(input: Packet, s: Packet, o: GsoOptions, index: nat)
    requires |input| >= 20 && |s| >= 20 && |s| >= o.csumStart
  {
    if Version(input) == 4 then
      && U16At(s, 2) == |s|
      && U16At(s, 4) == ToU16(U16At(input, 4) + index)
      && Verifies(WordSum(s[..o.csumStart]))
    else
      U16At(s, 4) == |s| - o.csumStart
  }

  predicate TransportFieldsSet(input: Packet, s: Packet, o: GsoOptions, index: nat, last: bool)
    requires HeadersInside(input, o) && o.hdrLen <= |input| && o.hdrLen <= |s|
  {
    if Protocol(o.gsoType) == 6 then
      && U32At(s, o.csumStart + 4) == ToU32(U32At(input, o.csumStart + 4) + o.gsoSize * index)
      && var flags := input[o.csumStart + TCP_FLAGS_OFFSET];
         s[o.csumStart + TCP_FLAGS_OFFSET] == if last then flags else ClearFinPsh(flags)
    else
      U16At(s, o.csumStart + 4) == |s| - o.csumStart
  }

  /** The IP header of a segment: its own length and ID, and a header checksum that verifies. */
  predicate IpHeaderRight(input: Packet, s: Packet, o: GsoOptions, index: nat)
    requires |input| >= 20 && |s| >= 20 && |s| >= o.csumStart
  {
    if input[0] / 16 == 4 then
      && Wire.Word(s, 2) == |s|
      && Wire.Word(s, 4) == (Wire.Word(input, 4) + index) % 65536
      && Verifies(WordSum(s[..o.csumStart]))
    else
      Wire.Word(s, 4) == |s| - o.csumStart
  }

  /** FIN (bit 0) and PSH (bit 3) are on the last segment only; all other flags are on every one. */
  predicate FlagsRight(was: byte, now: byte, last: bool) {
    if last then now == was
    else now % 2 == 0 && now / 8 % 2 == 0 && now / 2 % 4 == was / 2 % 4 && now / 16 == was / 16
  }

  /** TCP: the advanced sequence number and the flags. UDP: its own length. */
  predicate TransportHeaderRight(input: Packet, s: Packet, o: GsoOptions, index: nat, last: bool)
    requires StandardLayout(input, o) && o.hdrLen <= |input| && o.hdrLen <= |s|
  {
    if o.gsoType.UdpL4? then
      Wire.Word(s, o.csumStart + 4) == |s| - o.csumStart
    else
      && Wire.DoubleWord(s, o.csumStart + 4)
         == (Wire.DoubleWord(input, o.csumStart + 4) + o.gsoSize * index) % 0x1_0000_0000
      && FlagsRight(input[o.csumStart + 13], s[o.csumStart + 13], last)
  }

  lemma FlagsAre(flags: byte)
    ensures FlagsRight(flags, ClearFinPsh(flags), false)
  {
    hide *;
    var digits := Digits(flags / 8 / 2, flags / 8 % 2, flags % 8 / 2, flags % 8 % 2);
    HasDigits(flags);
    DigitsOf(digits, flags);
    DigitsOf(digits.(psh := 0, fin := 0), 16 * digits.high + 2 * digits.middle);
    FlagsByDigits(flags, digits);
  }

  /** The upper four flags, PSH, the two between, and FIN. */
  datatype Digits = Digits(high: nat, psh: nat, middle: nat, fin: nat)

  lemma HasDigits(flags: nat)
    ensures var (h, p, m, f) := (flags / 8 / 2, flags / 8 % 2, flags % 8 / 2, flags % 8 % 2);
            flags == 16 * h + 8 * p + 2 * m + f && p < 2 && m < 4 && f < 2
  {
    var (q, r) := (flags / 8, flags % 8);
    assert flags == 8 * q + r && q == 2 * (q / 2) + q % 2 && r == 2 * (r / 2) + r % 2;
  }

  lemma DigitsOf(d: Digits, flags: nat)
    requires flags == 16 * d.high + 8 * d.psh + 2 * d.middle + d.fin && d.psh < 2 && d.middle < 4 && d.fin < 2
    ensures flags / 16 == d.high && flags / 8 % 2 == d.psh && flags / 2 % 4 == d.middle && flags % 2 == d.fin
  {
    hide *;
    var q := 2 * d.high + d.psh;
    DivUnique(flags, 16, d.high, 8 * d.psh + 2 * d.middle + d.fin);
    DivUnique(flags, 8, q, 2 * d.middle + d.fin);
    DivUnique(q, 2, d.high, d.psh);
    DivUnique(flags, 2, 4 * q + d.middle, d.fin);
    DivUnique(4 * q + d.middle, 4, q, d.middle);
  }

  lemma FlagsByDigits(flags: byte, d: Digits)
    requires flags == 16 * d.high + 8 * d.psh + 2 * d.middle + d.fin
    requires flags / 16 == d.high && flags / 8 % 2 == d.psh && flags / 2 % 4 == d.middle && flags % 2 == d.fin
    requires var now := 16 * d.high + 2 * d.middle;
             now / 16 == d.high && now / 8 % 2 == 0 && now / 2 % 4 == d.middle && now % 2 == 0
    ensures FlagsRight(flags, ClearFinPsh(flags), false)
  {
    assert ClearFinPsh(flags) == 16 * d.high + 2 * d.middle;
  }

  /** The transport checksum verifies over the pseudo header of the segment itself. */
  predicate TransportVerifies(s: Packet, o: GsoOptions)
    requires 0 < |s| <= 0xffff && |s| >= (if s[0] / 16 == 4 then 20 else 40) && o.csumStart <= |s|
  {
    Wire.ChecksumRight(s, s[0] / 16 != 4, if o.gsoType.UdpL4? then 17 else 6, o.csumStart)
  }

  /** In the program's terms. */
  lemma VerifiesByParts(s: Packet, o: GsoOptions)
    requires 0 < |s| <= 0xffff && |s| >= (if s[0] / 16 == 4 then 20 else 40) && o.csumStart <= |s|
    ensures AddrOff(Version(s) != 4) + 2 * AddrSize(Version(s) != 4) <= |s|
    ensures TransportVerifies(s, o) <==>
              Verifies(PseudoSum(Protocol(o.gsoType), SrcAddr(s), DstAddr(s), |s| - o.csumStart)
                       + WordSum(s[o.csumStart..]))
  {
    hide WordSum, Verifies, Wire.ChecksumRight;
    Wire.SameTest(s, s[0] / 16 != 4, Protocol(o.gsoType), o.csumStart, |s| - o.csumStart);
  }

  /**
   Every segment is a valid packet on its own, although the pseudo header sum was computed once,
   with length 0, and combined with each segment's length.
   */
  lemma SegmentIsValid(input: Packet, o: GsoOptions, at: nat, index: nat, s: Packet)
    requires StandardLayout(input, o) && o.hdrLen <= at < |input| && s == Segment(input, o, at, index)
    ensures var end := SegmentEnd(input, o, at);
            |s| == o.hdrLen + (end - at) && s[o.hdrLen..] == input[at..end]
    ensures SameHeaders(input, s, o)
    ensures Version(s) == Version(input) && SrcAddr(s) == SrcAddr(input) && DstAddr(s) == DstAddr(input)
    ensures IpHeaderRight(input, s, o, index)
    ensures TransportHeaderRight(input, s, o, index, SegmentEnd(input, o, at) == |input|)
    ensures TransportVerifies(s, o)
  {
    hide WithIp, WithTransport, WithChecksum, Segment, Fold, WordSum, Verifies, PutU16, U16At;
    var end := SegmentEnd(input, o, at);
    var raw := input[..o.hdrLen] + Zeros(end - at);
    var ip := WithIp(raw, o, Version(input) == 4, index);
    var transport := WithTransport(ip, o, FirstSeq(input, o), index, end == |input|);
    var filled := transport[..o.hdrLen] + input[at..end];
    SegmentUnfolds(input, o, at, index);
    IpStep(raw, o, Version(input) == 4, index, ip);
    TransportStep(ip, o, FirstSeq(input, o), index, end == |input|, transport);
    ChecksumStep(filled, o, PseudoSum(Protocol(o.gsoType), SrcAddr(input), DstAddr(input), 0), s);
    RawHeaders(input, o, raw, ip, index, transport, end == |input|);
    SegmentFields(input, o, raw, ip, transport, filled, s, index, end == |input|);
    AsReceived(input, o, s, index, end == |input|);
  }

  /** What the receiver reads. */
  lemma AsReceived(input: Packet, o: GsoOptions, s: Packet, index: nat, last: bool)
    requires StandardLayout(input, o) && o.hdrLen <= |input| && o.hdrLen <= |s| <= 0xffff
    requires Version(s) == Version(input) && SrcAddr(s) == SrcAddr(input) && DstAddr(s) == DstAddr(input)
    requires IpFieldsSet(input, s, o, index) && TransportFieldsSet(input, s, o, index, last)
    requires Verifies(PseudoSum(Protocol(o.gsoType), SrcAddr(input), DstAddr(input), 0) + (|s| - o.csumStart)
                      + WordSum(s[o.csumStart..]))
    ensures IpHeaderRight(input, s, o, index) && TransportHeaderRight(input, s, o, index, last)
    ensures TransportVerifies(s, o)
  {
    hide IpFieldsSet, TransportFieldsSet, IpHeaderRight, TransportHeaderRight, TransportVerifies, WordSum, Verifies,
         SrcAddr, DstAddr;
    IpAsReceived(input, o, s, index);
    TransportAsReceived(input, o, s, index, last);
    VerifiesByParts(s, o);
  }

  lemma IpAsReceived(input: Packet, o: GsoOptions, s: Packet, index: nat)
    requires |input| >= 20 && |s| >= 20 && |s| >= o.csumStart && IpFieldsSet(input, s, o, index)
    ensures IpHeaderRight(input, s, o, index)
  {
    hide WordSum, Verifies, U16At, Wire.Word;
    Wire.SameWords(s, 2);
    Wire.SameWords(s, 4);
    Wire.SameWords(input, 4);
  }

  lemma TransportAsReceived(input: Packet, o: GsoOptions, s: Packet, index: nat, last: bool)
    requires StandardLayout(input, o) && o.hdrLen <= |input| && o.hdrLen <= |s|
    requires TransportFieldsSet(input, s, o, index, last)
    ensures TransportHeaderRight(input, s, o, index, last)
  {
    hide U16At, U32At, Wire.Word, Wire.DoubleWord, ClearFinPsh, FlagsRight;
    Wire.SameWords(s, o.csumStart + 4);
    Wire.SameWords(input, o.csumStart + 4);
    if !o.gsoType.UdpL4? {
      FlagsAre(input[o.csumStart + TCP_FLAGS_OFFSET]);
      FlagsSame(input[o.csumStart + TCP_FLAGS_OFFSET]);
    }
  }

  lemma FlagsSame(flags: byte)
    ensures FlagsRight(flags, flags, true)
  {}

  lemma SegmentUnfolds(input: Packet, o: GsoOptions, at: nat, index: nat)
    requires HeadersInside(input, o) && o.hdrLen <= at <= |input|
    ensures var end := SegmentEnd(input, o, at);
            var ip := WithIp(input[..o.hdrLen] + Zeros(end - at), o, Version(input) == 4, index);
            var transport := WithTransport(ip, o, FirstSeq(input, o), index, end == |input|);
            var filled := transport[..o.hdrLen] + input[at..end];
            Segment(input, o, at, index) == WithChecksum(filled, o, PseudoBase(input, o))
  {}

  /** The facts of the steps, stated for the input they started from. */
  lemma RawHeaders(input: Packet, o: GsoOptions, raw: Packet, ip: Packet, index: nat, transport: Packet, last: bool)
    requires StandardLayout(input, o) && o.hdrLen <= |input| && o.hdrLen <= |raw|
    requires raw[..o.hdrLen] == input[..o.hdrLen]
    requires OnlyIp(raw, ip, Version(input) == 4) && OnlyTransport(ip, transport, o)
    requires IpFieldsSet(raw, ip, o, index)
    requires Protocol(o.gsoType) == 6 ==>
               var at := o.csumStart + TCP_FLAGS_OFFSET;
               && U32At(transport, o.csumStart + 4) == ToU32(FirstSeq(input, o) + o.gsoSize * index)
               && transport[at] == if last then ip[at] else ClearFinPsh(ip[at])
    requires Protocol(o.gsoType) == 17 ==> U16At(transport, o.csumStart + 4) == |transport| - o.csumStart
    ensures IpFieldsSet(input, ip, o, index)
    ensures TransportFieldsSet(input, transport, o, index, last)
  {
    hide Fold, WordSum, Verifies;
    assert forall k | 0 <= k < o.hdrLen :: raw[k] == raw[..o.hdrLen][k] == input[k];
  }

  /** What the steps establish survives the later steps. */
  lemma SegmentFields(input: Packet, o: GsoOptions, raw: Packet, ip: Packet, transport: Packet, filled: Packet,
                      s: Packet, index: nat, last: bool)
    requires Steps(input, o, raw, ip, transport, filled, s)
    requires IpFieldsSet(input, ip, o, index)
    requires TransportFieldsSet(input, transport, o, index, last)
    ensures s[o.hdrLen..] == filled[o.hdrLen..] && SameHeaders(input, s, o)
    ensures Version(s) == Version(input) && SrcAddr(s) == SrcAddr(input) && DstAddr(s) == DstAddr(input)
    ensures IpFieldsSet(input, s, o, index)
    ensures TransportFieldsSet(input, s, o, index, last)
  {
    hide Fold, WordSum, Verifies;
    StepsKeep(input, o, raw, ip, transport, filled, s);
    SameHeadersSameAddresses(input, o, s);
    assert forall k | 0 <= k < 20 :: s[k] == s[..o.csumStart][k] == ip[k];
  }

  // ---- All segments ----

  /** The data octets of the segments, in order. */
  function Payloads(segments: seq<Packet>, hdrLen: nat): seq<byte>
    requires forall s | s in segments :: hdrLen <= |s|
  {
    if segments == [] then [] else segments[0][hdrLen..] + Payloads(segments[1..], hdrLen)
  }

  lemma NoPayloads(hdrLen: nat)
    ensures Payloads([], hdrLen) == []
  {}

  lemma PayloadsCons(s: Packet, rest: seq<Packet>, hdrLen: nat)
    requires hdrLen <= |s| && forall r | r in rest :: hdrLen <= |r|
    ensures Payloads([s] + rest, hdrLen) == s[hdrLen..] + Payloads(rest, hdrLen)
  {
    assert ([s] + rest)[1..] == rest;
  }

  /** The segments carry the whole data, and their number is the data length over their size, rounded up. */
  lemma {:induction false} SegmentsTile(input: Packet, o: GsoOptions, at: nat, index: nat)
    requires StandardLayout(input, o) && o.hdrLen <= at <= |input|
    ensures var all := Segments(input, o, at, index);
            && (forall s | s in all :: o.hdrLen <= |s|)
            && Payloads(all, o.hdrLen) == input[at..]
            && if at == |input| then all == []
               else |all| > 0 && Times(|all| - 1, o.gsoSize) < |input| - at <= Times(|all|, o.gsoSize)
    decreases |input| - at
  {
    hide Segment, SrcAddr, DstAddr, SameHeaders, IpHeaderRight, TransportHeaderRight, TransportVerifies, Payloads;
    NoPayloads(o.hdrLen);
    if at < |input| {
      var s := Segment(input, o, at, index);
      var end := SegmentEnd(input, o, at);
      SegmentIsValid(input, o, at, index, s);
      SegmentsTile(input, o, end, index + 1);
      var rest := Segments(input, o, end, index + 1);
      PayloadsCons(s, rest, o.hdrLen);
      assert input[at..] == input[at..end] + input[end..];
      if at + o.gsoSize >= |input| {
        assert Segments(input, o, at, index) == [s] + rest;
      }
    } else {
      assert input[at..] == [];
    }
  }

  /** The segment of that number, whose data starts there. */
  predicate IsNth(input: Packet, o: GsoOptions, start: nat, index: nat, segment: Packet)
    requires HeadersInside(input, o)
  {
    o.hdrLen <= start < |input| && segment == Segment(input, o, start, index)
  }

  /** Segment k starts k segment sizes in. */
  lemma {:induction false} SegmentsNth(input: Packet, o: GsoOptions, at: nat, index: nat, k: nat, start: nat)
    requires HeadersInside(input, o) && o.hdrLen <= |input| && o.gsoSize > 0 && o.hdrLen <= at
    requires k < |Segments(input, o, at, index)|
    requires start == at + Times(k, o.gsoSize)
    ensures IsNth(input, o, start, index + k, Segments(input, o, at, index)[k])
    decreases k
  {
    hide Segment;
    if k > 0 {
      SegmentsNth(input, o, at + o.gsoSize, index + 1, k - 1, start);
    }
  }

  /** With a real segment size the loop fails exactly when the buffers run out. */
  lemma {:induction false} SegmentsWithinIff(input: Packet, o: GsoOptions, at: nat, index: nat, slots: nat)
    requires HeadersInside(input, o) && o.hdrLen <= |input| && o.gsoSize > 0 && o.hdrLen <= at && index <= slots
    ensures LoopFits(input, o, at, index, slots)
    ensures var all := Segments(input, o, at, index);
            SegmentsWithin(input, o, at, index, slots) == if index + |all| <= slots then Some(all) else None
    decreases slots - index
  {
    hide Segment;
    if at < |input| && index < slots {
      SegmentsWithinIff(input, o, at + o.gsoSize, index + 1, slots);
    }
  }

  /**
   `gso_split` on a kernel GSO packet of at least one full segment: it succeeds exactly when the
   buffers suffice, its segments carry the whole data in order, and each is a valid packet.
   */
  lemma SplitIsComplete(input: Packet, o: GsoOptions, slots: nat)
    requires StandardLayout(input, o) && o.hdrLen + o.gsoSize <= |input|
    ensures NoPanic(input, o, slots)
    ensures Split(input, o, slots).Ok? <==> (|input| - o.hdrLen + o.gsoSize - 1) / o.gsoSize <= slots
    ensures Split(input, o, slots).Ok? ==>
              var all := Split(input, o, slots).value;
              && |all| == (|input| - o.hdrLen + o.gsoSize - 1) / o.gsoSize
              && (forall s | s in all :: o.hdrLen <= |s|)
              && Payloads(all, o.hdrLen) == input[o.hdrLen..]
              && forall k | 0 <= k < |all| :: SegmentRight(input, o, all, k)
  {
    hide Segment, Segments, Payloads, SegmentRight;
    SegmentsWithinIff(input, o, o.hdrLen, 0, slots);
    SegmentsTile(input, o, o.hdrLen, 0);
    var all := Segments(input, o, o.hdrLen, 0);
    TimesIsProduct(|all|, o.gsoSize);
    TimesIsProduct(|all| - 1, o.gsoSize);
    CeilIs(|input| - o.hdrLen, o.gsoSize, |all|);
    forall k | 0 <= k < |all|
      ensures SegmentRight(input, o, all, k)
    {
      NthIsValid(input, o, k);
    }
  }

  /** Segment k of `all` has its place in the data and valid headers. */
  predicate SegmentRight(input: Packet, o: GsoOptions, all: seq<Packet>, k: nat)
    requires StandardLayout(input, o) && o.hdrLen <= |input| && k < |all|
  {
    && |all[k]| == o.hdrLen + (if k < |all| - 1 then o.gsoSize else |input| - o.hdrLen - Times(k, o.gsoSize))
    && o.hdrLen <= |all[k]| <= 0xffff
    && SameHeaders(input, all[k], o)
    && IpHeaderRight(input, all[k], o, k)
    && TransportHeaderRight(input, all[k], o, k, k == |all| - 1)
    && TransportVerifies(all[k], o)
  }

  lemma NthIsValid(input: Packet, o: GsoOptions, k: nat)
    requires StandardLayout(input, o) && o.hdrLen <= |input| && k < |Segments(input, o, o.hdrLen, 0)|
    ensures SegmentRight(input, o, Segments(input, o, o.hdrLen, 0), k)
  {
    hide Segment, IpHeaderRight, TransportHeaderRight, TransportVerifies, SameHeaders, Segments, Payloads;
    var all := Segments(input, o, o.hdrLen, 0);
    var start := o.hdrLen + Times(k, o.gsoSize);
    SegmentsNth(input, o, o.hdrLen, 0, k, start);
    SegmentsTile(input, o, o.hdrLen, 0);
    SegmentIsValid(input, o, start, k, all[k]);
    if k < |all| - 1 {
      TimesMonotone(k + 1, |all| - 1, o.gsoSize);
    }
  }

  /** The unsegmented path completes a checksum that holds the pseudo header sum. */
  lemma SingleVerifies(input: Packet, o: GsoOptions)
    requires StandardLayout(input, o) && o.hdrLen <= |input| <= 0xffff && o.needsCsum
    requires U16At(input, CsumAt(o))
          == Fold(PseudoSum(Protocol(o.gsoType), SrcAddr(input), DstAddr(input), |input| - o.csumStart))
    ensures OnlyChecksum(input, Single(input, o), o)
    ensures TransportVerifies(Single(input, o), o)
  {
    hide Fold, WordSum, Verifies;
    var pseudo := PseudoSum(Protocol(o.gsoType), SrcAddr(input), DstAddr(input), |input| - o.csumStart);
    var zeroed := PutU16(input, CsumAt(o), 0);
    var r := Single(input, o);
    assert zeroed[o.csumStart..|input|] == zeroed[o.csumStart..] && r[o.csumStart..|r|] == r[o.csumStart..];
    SameHeadersSameAddresses(input, o, r);
    FoldAbsorbs(WordSum(zeroed[o.csumStart..]), pseudo);
    StoredInRegion(zeroed, o.csumStart, |input|, CsumAt(o), pseudo, r);
    VerifiesByParts(r, o);
  }

  // ---- A checksum of zero ----

  /** What the receiver sums of a packet, with a checksum field of zero. */
  function UncheckedSum(s: Packet, o: GsoOptions): nat
    requires |s| > 0 && AddrOff(Version(s) != 4) + 2 * AddrSize(Version(s) != 4) <= |s|
    requires o.csumStart <= |s| && CsumAt(o) + 2 <= |s|
  {
    PseudoSum(Protocol(o.gsoType), SrcAddr(s), DstAddr(s), |s| - o.csumStart)
    + WordSum(PutU16(s, CsumAt(o), 0)[o.csumStart..])
  }

  lemma ZeroStoredIff(out: Packet, o: GsoOptions, pseudo: nat, r: Packet)
    requires o.csumStart <= |out| <= 0xffff && CsumAt(o) + 2 <= |out| && r == WithChecksum(out, o, Fold(pseudo))
    ensures U16At(r, CsumAt(o)) == 0 <==>
              var sum := pseudo + (|out| - o.csumStart) + WordSum(PutU16(r, CsumAt(o), 0)[o.csumStart..]);
              sum > 0 && sum % 0xffff == 0
  {
    hide WordSum, Fold;
    var zeroed := PutU16(out, CsumAt(o), 0);
    assert PutU16(r, CsumAt(o), 0) == zeroed;
    var words := WordSum(zeroed[o.csumStart..]);
    PiecesFold(pseudo, |out| - o.csumStart, words);
    AllOnesIff(pseudo + (|out| - o.csumStart) + words);
  }

  lemma AllOnesIff(sum: nat)
    ensures Complement(Fold(sum)) == 0 <==> sum > 0 && sum % 0xffff == 0
  {}

  /**
   The checksum field of a segment is stored as 0, which for UDP means "no checksum" (RFC 768) and is
   not allowed over IPv6 (section 8.1 of RFC 8200), exactly when the sum over the rest of the segment
   is a multiple of 65535.
   */
  lemma SegmentUncheckedIff(input: Packet, o: GsoOptions, at: nat, index: nat, s: Packet)
    requires StandardLayout(input, o) && o.hdrLen <= at < |input| && s == Segment(input, o, at, index)
    ensures Version(s) == Version(input) && AddrOff(Version(s) != 4) + 2 * AddrSize(Version(s) != 4) <= |s|
    ensures U16At(s, CsumAt(o)) == 0 <==> UncheckedSum(s, o) > 0 && UncheckedSum(s, o) % 0xffff == 0
  {
    hide WithIp, WithTransport, WithChecksum, Segment, Fold, WordSum, PutU16, U16At, IpHeaderRight,
         TransportHeaderRight, TransportVerifies, SameHeaders;
    SegmentIsValid(input, o, at, index, s);
    SegmentUnfolds(input, o, at, index);
    var end := SegmentEnd(input, o, at);
    var ip := WithIp(input[..o.hdrLen] + Zeros(end - at), o, Version(input) == 4, index);
    var transport := WithTransport(ip, o, FirstSeq(input, o), index, end == |input|);
    var filled := transport[..o.hdrLen] + input[at..end];
    ZeroStoredIff(filled, o, PseudoSum(Protocol(o.gsoType), SrcAddr(input), DstAddr(input), 0), s);
  }

  /** Likewise for the packet that is not segmented. */
  lemma SingleUncheckedIff(input: Packet, o: GsoOptions)
    requires StandardLayout(input, o) && o.hdrLen <= |input| <= 0xffff && o.needsCsum
    requires U16At(input, CsumAt(o))
          == Fold(PseudoSum(Protocol(o.gsoType), SrcAddr(input), DstAddr(input), |input| - o.csumStart))
    ensures U16At(Single(input, o), CsumAt(o)) == 0 <==>
              UncheckedSum(input, o) > 0 && UncheckedSum(input, o) % 0xffff == 0
  {
    hide Fold, WordSum;
    var words := WordSum(PutU16(input, CsumAt(o), 0)[o.csumStart..]);
    FoldAbsorbs(words, PseudoSum(Protocol(o.gsoType), SrcAddr(input), DstAddr(input), |input| - o.csumStart));
    AllOnesIff(UncheckedSum(input, o));
  }

  // ---- When it succeeds ----

  /** The loop ends within the buffers exactly when they have room for the data. */
  lemma {:induction false} WithinIff(input: Packet, o: GsoOptions, at: nat, index: nat, slots: nat)
    requires Preparable(input, o) && o.hdrLen <= at && index <= slots && LoopFits(input, o, at, index, slots)
    ensures SegmentsWithin(input, o, at, index, slots).Some? <==> |input| - at <= Times(slots - index, o.gsoSize)
    decreases slots - index
  {
    hide Preparable, RoundFits, Segment;
    if at < |input| && index < slots {
      RoundIs(input, o, at, index, slots);
      WithinIff(input, o, at + o.gsoSize, index + 1, slots);
    }
  }

  /** `gso_split` on any header that does not make it panic: exactly when it succeeds. */
  lemma SucceedsIff(input: Packet, o: GsoOptions, slots: nat)
    requires NoPanic(input, o, slots)
    ensures Split(input, o, slots).Ok? <==>
              && o.csumStart + o.csumOffset + 2 <= |input| && o.hdrLen <= |input|
              && if o.gsoType.NoGso? || |input| - o.hdrLen < o.gsoSize then slots > 0
                 else && o.csumStart <= o.hdrLen && (!o.gsoType.UdpL4? ==> o.csumStart + 20 <= |input|)
                      && |input| - o.hdrLen <= Times(slots, o.gsoSize)
  {
    hide Preparable, LoopFits, SegmentsWithin, Single;
    if ReachesLoop(input, o) {
      WithinIff(input, o, o.hdrLen, 0, slots);
    }
  }

  /** And with which error it fails otherwise: the first test that does not pass. */
  lemma FailsWith(input: Packet, o: GsoOptions, slots: nat)
    requires NoPanic(input, o, slots)
    ensures var whole := o.csumStart + o.csumOffset + 2 <= |input|;
            var single := o.gsoType.NoGso? || |input| - o.hdrLen < o.gsoSize;
            var reaches := whole && o.hdrLen <= |input| && !single;
            var short := !o.gsoType.UdpL4? && |input| < o.csumStart + 20;
            && (Split(input, o, slots) == Err(ChecksumOutsidePacket) <==> !whole)
            && (Split(input, o, slots) == Err(ShorterThanHeaders) <==> whole && |input| < o.hdrLen)
            && (Split(input, o, slots) == Err(NoOutputBuffers) <==>
                  whole && o.hdrLen <= |input| && single && slots == 0)
            && (Split(input, o, slots) == Err(HeadersEndBeforeTransport) <==> reaches && o.hdrLen < o.csumStart)
            && (Split(input, o, slots) == Err(TooShortForTcp) <==> reaches && o.csumStart <= o.hdrLen && short)
            && (Split(input, o, slots) == Err(TooManySegments) <==>
                  && reaches && o.csumStart <= o.hdrLen && !short
                  && |input| - o.hdrLen > Times(slots, o.gsoSize))
  {
    hide Preparable, LoopFits, SegmentsWithin, Single;
    if ReachesLoop(input, o) {
      WithinIff(input, o, o.hdrLen, 0, slots);
    }
  }

  /**
   Without segmentation, or with less data than a segment takes, the packet comes out alone: as it was, but for the
   checksum if that was asked for, which then completes the sum that was in its field.
   */
  lemma SingleIs(input: Packet, o: GsoOptions, slots: nat)
    requires CsumAt(o) + 2 <= |input| && o.hdrLen <= |input| && slots > 0
    requires o.gsoType.NoGso? || |input| - o.hdrLen < o.gsoSize
    ensures NoPanic(input, o, slots) && Split(input, o, slots) == Ok([Single(input, o)])
    ensures var s := Single(input, o);
            && |s| == |input| && OnlyChecksum(input, s, o) && (!o.needsCsum ==> s == input)
            && (o.needsCsum && o.csumOffset % 2 == 0 ==>
                  Verifies(Wire.Word(input, CsumAt(o)) + WordSum(s[o.csumStart..])))
  {
    hide Fold, WordSum, Verifies;
    var r := Single(input, o);
    if o.needsCsum && o.csumOffset % 2 == 0 {
      var zeroed := PutU16(input, CsumAt(o), 0);
      assert zeroed[o.csumStart..|input|] == zeroed[o.csumStart..] && r[o.csumStart..|r|] == r[o.csumStart..];
      StoredInRegion(zeroed, o.csumStart, |input|, CsumAt(o), U16At(input, CsumAt(o)), r);
      Wire.SameWords(input, CsumAt(o));
    }
  }

  // ---- The data, under any header ----

  lemma SegmentData(input: Packet, o: GsoOptions, at: nat, index: nat)
    requires Preparable(input, o) && o.hdrLen <= at <= |input| && RoundFits(input, o, at) && CsumAt(o) + 2 <= o.hdrLen
    ensures var s := Segment(input, o, at, index);
            o.hdrLen <= |s| && s[o.hdrLen..] == input[at..SegmentEnd(input, o, at)]
  {
    hide WithIp, WithTransport, Complement, Fold, WordSum, Preparable, RoundFits, PseudoBase, FirstSeq;
    var front := SegmentIsChecked(input, o, at, index);
  }

  lemma SegmentIsChecked(input: Packet, o: GsoOptions, at: nat, index: nat) returns (front: Packet)
    requires Preparable(input, o) && o.hdrLen <= at <= |input| && RoundFits(input, o, at) && CsumAt(o) + 2 <= o.hdrLen
    ensures |front| == o.hdrLen
    ensures Segment(input, o, at, index)
         == WithChecksum(front + input[at..SegmentEnd(input, o, at)], o, PseudoBase(input, o))
  {
    hide WithChecksum, Preparable;
    var end := SegmentEnd(input, o, at);
    var ip := WithIp(input[..o.hdrLen] + Zeros(end - at), o, Version(input) == 4, index);
    front := WithTransport(ip, o, FirstSeq(input, o), index, end == |input|)[..o.hdrLen];
  }

  lemma {:induction false} WithinData(input: Packet, o: GsoOptions, at: nat, index: nat, slots: nat)
    requires Preparable(input, o) && o.hdrLen <= at <= |input| && index <= slots
    requires LoopFits(input, o, at, index, slots) && CsumAt(o) + 2 <= o.hdrLen
    requires SegmentsWithin(input, o, at, index, slots).Some?
    ensures var all := SegmentsWithin(input, o, at, index, slots).value;
            (forall s | s in all :: o.hdrLen <= |s|) && Payloads(all, o.hdrLen) == input[at..]
    decreases slots - index
  {
    hide Preparable, RoundFits, Segment, Payloads;
    NoPayloads(o.hdrLen);
    if at < |input| && index < slots {
      RoundIs(input, o, at, index, slots);
      SegmentData(input, o, at, index);
      var end := SegmentEnd(input, o, at);
      assert input[at..] == input[at..end] + input[end..];
      if at + o.gsoSize <= |input| {
        WithinData(input, o, at + o.gsoSize, index + 1, slots);
        PayloadsCons(Segment(input, o, at, index), SegmentsWithin(input, o, end, index + 1, slots).value, o.hdrLen);
      } else {
        PayloadsCons(Segment(input, o, at, index), [], o.hdrLen);
      }
    }
  }

  /** Whatever the header says, the data comes out whole and in order, unless it puts the checksum inside the data. */
  lemma DataKept(input: Packet, o: GsoOptions, slots: nat)
    requires NoPanic(input, o, slots) && Split(input, o, slots).Ok? && CsumAt(o) + 2 <= o.hdrLen
    ensures o.hdrLen <= |input|
    ensures var all := Split(input, o, slots).value;
            (forall s | s in all :: o.hdrLen <= |s|) && Payloads(all, o.hdrLen) == input[o.hdrLen..]
  {
    hide Preparable, LoopFits, SegmentsWithin, Payloads, Fold, WordSum, Complement;
    if ReachesLoop(input, o) {
      WithinData(input, o, o.hdrLen, 0, slots);
    } else {
      var s := Single(input, o);
      NoPayloads(o.hdrLen);
      PayloadsCons(s, [], o.hdrLen);
      assert [s] + [] == [s];
      assert s[o.hdrLen..] == input[o.hdrLen..];
    }
  }
}
