/** What the NAT does to packets: address and port rewriting, MSS clamping, checksums. */
module NatRewrite {
  import opened Bytes
  import opened Checksum

  const IPPROTO_TCP := 6
  const TCP_MIN_HEADER_LEN := 20
  const TCP_OPT_EOL := 0
  const TCP_OPT_NOP := 1
  const TCP_OPT_MSS := 2
  const TCP_OPT_MSS_LEN := 4

  /** The longest IPv6 packet without jumbogram; the 32-bit accumulators hold its sums. */
  const MAX_PACKET := 65575

  function Src(pkt: Packet, v6: bool): seq<byte>
    requires IpHeaderLen(v6) <= |pkt|
  {
    pkt[AddrOff(v6)..AddrOff(v6) + AddrSize(v6)]
  }

  function Dst(pkt: Packet, v6: bool): seq<byte>
    requires IpHeaderLen(v6) <= |pkt|
  {
    pkt[AddrOff(v6) + AddrSize(v6)..AddrOff(v6) + 2 * AddrSize(v6)]
  }

  // ---- MSS ----

  /** Where the value of the MSS option stands, if the walk over the options reaches one. */
  function MssAt(options: seq<byte>, i: nat): (at: Option<nat>)
    ensures at.Some? ==> i + 2 <= at.value && at.value + 2 <= |options|
    decreases |options| - i
  {
    if i >= |options| || options[i] == TCP_OPT_EOL then None
    else if options[i] == TCP_OPT_NOP then MssAt(options, i + 1)
    else if options[i] == TCP_OPT_MSS then
      if i + 4 > |options| || options[i + 1] != TCP_OPT_MSS_LEN then None else Some(i + 2)
    else if i + 2 > |options| || options[i + 1] < 2 || i + options[i + 1] > |options| then None
    else MssAt(options, i + options[i + 1])
  }

  /** The position of the MSS value in a SYN packet. */
  function SynMss(pkt: Packet, off: nat): (at: Option<nat>)
    ensures at.Some? ==> off + 22 <= at.value && at.value + 2 <= |pkt|
  {
    if |pkt| < off + TCP_MIN_HEADER_LEN + 4 then None
    else
      var data := pkt[off + 12] / 16 * 4;
      if data < TCP_MIN_HEADER_LEN || off + data > |pkt| || pkt[off + 13] / 2 % 2 == 0 then None
      else
        match MssAt(pkt[off + TCP_MIN_HEADER_LEN..off + data], 0)
        case None => None
        case Some(k) => Some(off + TCP_MIN_HEADER_LEN + k)
  }

  function Clamped(pkt: Packet, off: nat, max: u16): (r: Packet)
    ensures |r| == |pkt|
  {
    match SynMss(pkt, off)
    case None => pkt
    case Some(at) => if U16At(pkt, at) <= max then pkt else PutU16(pkt, at, max)
  }

  /** Changing the value of the option found does not change where the walk finds it. */
  lemma {:induction false} MssAtStays(options: seq<byte>, options': seq<byte>, i: nat)
    requires |options'| == |options| && MssAt(options, i).Some?
    requires forall k | 0 <= k < MssAt(options, i).value :: options'[k] == options[k]
    ensures MssAt(options', i) == MssAt(options, i)
    decreases |options| - i
  {
    if options[i] == TCP_OPT_NOP {
      MssAtStays(options, options', i + 1);
    } else if options[i] != TCP_OPT_MSS {
      MssAtStays(options, options', i + options[i + 1]);
    }
  }

  /** Clamping bounds the announced MSS, keeps it where it is and touches nothing else. */
  lemma ClampedMss(pkt: Packet, off: nat, max: u16)
    ensures var r := Clamped(pkt, off, max);
            && SynMss(r, off) == SynMss(pkt, off)
            && (SynMss(pkt, off).None? ==> r == pkt)
            && (SynMss(pkt, off).Some? ==>
                  var at := SynMss(pkt, off).value;
                  && U16At(r, at) == Min(U16At(pkt, at), max)
                  && forall k | 0 <= k < |pkt| && k != at && k != at + 1 :: r[k] == pkt[k])
  {
    var r := Clamped(pkt, off, max);
    if SynMss(pkt, off).Some? {
      var data := pkt[off + 12] / 16 * 4;
      MssAtStays(pkt[off + 20..off + data], r[off + 20..off + data], 0);
    }
  }

  /** Two octets, the high one first. */
  method StoreU16(pkt: array<byte>, at: nat, v: u16)
    requires at + 2 <= pkt.Length
    modifies pkt
    ensures pkt[..] == PutU16(old(pkt[..]), at, v)
  {
    pkt[at] := v / 0x100;
    pkt[at + 1] := v % 0x100;
  }

  /** The MSS option: lowered if it is above `max`. */
  method ClampOption(pkt: array<byte>, at: nat, max: u16) returns (changed: bool)
    requires at + 2 <= pkt.Length
    modifies pkt
    ensures changed <==> U16At(old(pkt[..]), at) > max
    ensures pkt[..] == if changed then PutU16(old(pkt[..]), at, max) else old(pkt[..])
  {
    var current := U16At([pkt[at], pkt[at + 1]], 0);
    if current <= max {
      return false;
    }
    StoreU16(pkt, at, max);
    return true;
  }

  lemma ClampedIs(pkt: Packet, off: nat, max: u16, at: nat)
    requires SynMss(pkt, off) == Some(at)
    ensures Clamped(pkt, off, max) == if U16At(pkt, at) > max then PutU16(pkt, at, max) else pkt
    ensures U16At(pkt, at) > max ==> PutU16(pkt, at, max) != pkt
  {
    hide SynMss;
    assert U16At(PutU16(pkt, at, max), at) == max;
  }

  /** `clamp_tcp_mss` */
  method ClampTcpMss(pkt: array<byte>, off: nat, max: u16) returns (changed: bool)
    modifies pkt
    ensures pkt[..] == Clamped(old(pkt[..]), off, max)
    ensures changed <==> pkt[..] != old(pkt[..])
  {
    if pkt.Length < off + TCP_MIN_HEADER_LEN + 4 {
      return false;
    }
    var data := pkt[off + 12] / 16 * 4;
    if data < TCP_MIN_HEADER_LEN || off + data > pkt.Length {
      return false;
    }
    if pkt[off + 13] / 2 % 2 == 0 {
      return false;
    }
    var base := off + TCP_MIN_HEADER_LEN;
    var length := data - TCP_MIN_HEADER_LEN;
    ghost var options := pkt[base..off + data];
    var i := 0;
    while i < length
      invariant 0 <= i && pkt[..] == old(pkt[..])
      invariant MssAt(options, i) == MssAt(options, 0)
      decreases length - i
    {
      assert options[i] == pkt[base + i];
      if pkt[base + i] == TCP_OPT_EOL {
        return false;
      } else if pkt[base + i] == TCP_OPT_NOP {
        i := i + 1;
      } else if pkt[base + i] == TCP_OPT_MSS {
        if i + 4 > length || pkt[base + i + 1] != TCP_OPT_MSS_LEN {
          return false;
        }
        assert options[i + 1] == pkt[base + i + 1];
        var at := base + i + 2;
        assert SynMss(pkt[..], off) == Some(at);
        ClampedIs(pkt[..], off, max, at);
        changed := ClampOption(pkt, at, max);
        return;
      } else {
        if i + 2 > length {
          return false;
        }
        var optLen := pkt[base + i + 1];
        assert options[i + 1] == optLen;
        if optLen < 2 || i + optLen > length {
          return false;
        }
        i := i + optLen;
      }
    }
    changed := false;
  }

  // ---- Checksums ----

  /** The length as the pseudo header sums it: one word for IPv4, two for IPv6. */
  function PseudoLength(v6: bool, n: nat): nat {
    if v6 then n / 0x1_0000 % 0x1_0000 + n % 0x1_0000 else ToU16(n)
  }

  function PseudoOf(pkt: Packet, v6: bool, off: nat): nat
    requires IpHeaderLen(v6) <= off <= |pkt|
  {
    PseudoSum(IPPROTO_TCP, Src(pkt, v6), Dst(pkt, v6), PseudoLength(v6, |pkt| - off))
  }

  function WithTcpChecksum(pkt: Packet, v6: bool, off: nat): (r: Packet)
    requires IpHeaderLen(v6) <= off && off + 18 <= |pkt|
    ensures |r| == |pkt|
  {
    var zeroed := PutU16(pkt, off + 16, 0);
    PutU16(zeroed, off + 16, Complement(Fold(PseudoOf(pkt, v6, off) + WordSum(zeroed[off..]))))
  }

  /** `recompute_ipv4_checksum`; a header length that makes no sense leaves the packet alone. */
  function WithIpChecksum(pkt: Packet): (r: Packet)
    ensures |r| == |pkt|
  {
    if |pkt| < 20 || pkt[0] % 16 * 4 < 20 || |pkt| < pkt[0] % 16 * 4 then pkt
    else
      var zeroed := PutU16(pkt, 10, 0);
      PutU16(zeroed, 10, Complement(Fold(WordSum(zeroed[..pkt[0] % 16 * 4]))))
  }

  /** The word loop of the checksum functions, from a start value that leaves room. */
  method AddData(data: seq<byte>, start: u32) returns (sum: u32)
    requires start + 0xffff * ((|data| + 1) / 2) < 0x1_0000_0000
    ensures sum == start + WordSum(data)
  {
    hide WordSum;
    WordSumBound(data);
    WordSumStart(data, 0);
    sum := start;
    var i := 0;
    while i + 1 < |data|
      invariant 0 <= i <= |data|
      invariant sum + WordSum(data[i..]) == start + WordSum(data)
    {
      WordSumStep(data, i);
      sum := sum + U16At(data, i);
      i := i + 2;
    }
    WordSumEnd(data, i);
    if i < |data| {
      sum := sum + (data[i] as int) * 0x100;
    }
  }

  lemma WordSumConcat3(a: seq<byte>, b: seq<byte>, c: seq<byte>)
    requires |a| % 2 == 0 && |b| % 2 == 0
    ensures WordSum(a + b + c) == WordSum(a) + WordSum(b) + WordSum(c)
  {
    hide WordSum;
    WordSumConcat(a + b, c);
    WordSumConcat(a, b);
  }

  lemma WordSumOfFour(x: seq<byte>)
    requires |x| == 4
    ensures WordSum(x) == U16At(x, 0) + U16At(x, 2)
  {
    hide U16At;
    WordSumStart(x, 0);
    WordSumStep(x, 0);
    WordSumStep(x, 2);
    WordSumEnd(x, 4);
  }

  /** `checksum_with_pseudo_v4`: the pseudo header is laid out as octets first. */
  method ChecksumWithPseudoV4(src: seq<byte>, dst: seq<byte>, protocol: byte, data: seq<byte>) returns (r: u16)
    requires |src| == 4 == |dst| && |data| <= MAX_PACKET
    ensures r == Complement(Fold(PseudoSum(protocol, src, dst, ToU16(|data|)) + WordSum(data)))
  {
    var length := ToU16(|data|);
    var tail := [0, protocol, length / 0x100, length % 0x100];
    WordSumOfFour(tail);
    WordSumConcat3(src, dst, tail);
    WordSumBound(src + dst + tail);
    var sum := AddData(src + dst + tail, 0);
    sum := AddData(data, sum);
    var folded := Checksum.FoldLoop(sum);
    r := Complement(folded);
  }

  /** `checksum_with_pseudo_v6` */
  method ChecksumWithPseudoV6(src: seq<byte>, dst: seq<byte>, protocol: byte, data: seq<byte>) returns (r: u16)
    requires |src| == 16 == |dst| && |data| <= MAX_PACKET
    ensures r == Complement(Fold(PseudoSum(protocol, src, dst, PseudoLength(true, |data|)) + WordSum(data)))
  {
    var a := Checksum.AddWords(src);
    var b := Checksum.AddWords(dst);
    var sum: u32 := a + b + |data| / 0x1_0000 % 0x1_0000 + |data| % 0x1_0000 + protocol;
    sum := AddData(data, sum);
    var folded := Checksum.FoldLoop(sum);
    r := Complement(folded);
  }

  /** `recompute_tcp_checksum_v4` and `_v6` */
  method RecomputeTcpChecksum(pkt: array<byte>, v6: bool, off: nat)
    requires IpHeaderLen(v6) <= off && off + 18 <= pkt.Length <= MAX_PACKET
    modifies pkt
    ensures pkt[..] == WithTcpChecksum(old(pkt[..]), v6, off)
  {
    hide PseudoSum, WordSum, Fold, Complement, PutU16;
    ghost var was := pkt[..];
    var size := AddrSize(v6);
    var src := pkt[AddrOff(v6)..AddrOff(v6) + size];
    var dst := pkt[AddrOff(v6) + size..AddrOff(v6) + 2 * size];
    assert src == Src(was, v6) && dst == Dst(was, v6);
    StoreU16(pkt, off + 16, 0);
    ghost var zeroed := pkt[..];
    assert pkt[off..] == zeroed[off..];
    var sum;
    if v6 {
      sum := ChecksumWithPseudoV6(src, dst, IPPROTO_TCP, pkt[off..]);
    } else {
      sum := ChecksumWithPseudoV4(src, dst, IPPROTO_TCP, pkt[off..]);
    }
    assert sum == Complement(Fold(PseudoOf(was, v6, off) + WordSum(zeroed[off..])));
    StoreU16(pkt, off + 16, sum);
  }

  /** `recompute_ipv4_checksum` */
  method RecomputeIpv4Checksum(pkt: array<byte>)
    modifies pkt
    ensures pkt[..] == WithIpChecksum(old(pkt[..]))
  {
    if pkt.Length < 20 {
      return;
    }
    var ihl := pkt[0] % 16 * 4;
    if ihl < 20 || pkt.Length < ihl {
      return;
    }
    ghost var was := pkt[..];
    StoreU16(pkt, 10, 0);
    assert pkt[..ihl] == PutU16(was, 10, 0)[..ihl];
    var sum := Checksum.InternetChecksum(pkt[..ihl]);
    StoreU16(pkt, 10, sum);
  }

  // ---- Rewriting ----

  /** New endpoints; the reflect path leaves the ports alone. */
  datatype Endpoints = Endpoints(src: seq<byte>, dst: seq<byte>, ports: Option<(u16, u16)>)

  predicate Fits(raw: Packet, v6: bool, off: nat) {
    && IpHeaderLen(v6) <= off && off + 20 <= |raw|
    && (!v6 ==> off == raw[0] % 16 * 4)
  }

  function WithEndpoints(raw: Packet, v6: bool, off: nat, e: Endpoints): (r: Packet)
    requires Fits(raw, v6, off) && |e.src| == AddrSize(v6) == |e.dst|
    ensures |r| == |raw|
  {
    var addressed := PutSlice(PutSlice(raw, AddrOff(v6), e.src), AddrOff(v6) + AddrSize(v6), e.dst);
    match e.ports
    case None => addressed
    case Some((sport, dport)) => PutU16(PutU16(addressed, off, sport), off + 2, dport)
  }

  function WithMss(pkt: Packet, off: nat, mss: Option<u16>): (r: Packet)
    ensures |r| == |pkt|
  {
    match mss
    case None => pkt
    case Some(max) => Clamped(pkt, off, max)
  }

  /** The packet written back to the device. */
  function Rewritten(raw: Packet, v6: bool, off: nat, e: Endpoints, mss: Option<u16>): (r: Packet)
    requires Fits(raw, v6, off) && |e.src| == AddrSize(v6) == |e.dst|
    ensures |r| == |raw|
  {
    var summed := WithTcpChecksum(WithMss(WithEndpoints(raw, v6, off, e), off, mss), v6, off);
    if v6 then summed else WithIpChecksum(summed)
  }

  method Rewrite(raw: Packet, v6: bool, off: nat, e: Endpoints, mss: Option<u16>) returns (out: Packet)
    requires Fits(raw, v6, off) && |e.src| == AddrSize(v6) == |e.dst| && |raw| <= MAX_PACKET
    ensures out == Rewritten(raw, v6, off, e, mss)
  {
    hide Clamped, WithTcpChecksum, WithIpChecksum;
    var pkt := new byte[|raw|](i requires 0 <= i < |raw| => raw[i]);
    var size := AddrSize(v6);
    ghost var addressed := PutSlice(PutSlice(raw, AddrOff(v6), e.src), AddrOff(v6) + AddrSize(v6), e.dst);
    forall k | 0 <= k < size {
      pkt[AddrOff(v6) + k] := e.src[k];
    }
    forall k | 0 <= k < size {
      pkt[AddrOff(v6) + size + k] := e.dst[k];
    }
    assert pkt[..] == addressed;
    match e.ports {
      case None =>
      case Some((sport, dport)) =>
        pkt[off], pkt[off + 1] := sport / 0x100, sport % 0x100;
        pkt[off + 2], pkt[off + 3] := dport / 0x100, dport % 0x100;
        assert pkt[..] == PutU16(PutU16(addressed, off, sport), off + 2, dport);
    }
    assert pkt[..] == WithEndpoints(raw, v6, off, e);
    if mss.Some? {
      var _ := ClampTcpMss(pkt, off, mss.value);
    }
    RecomputeTcpChecksum(pkt, v6, off);
    if !v6 {
      RecomputeIpv4Checksum(pkt);
    }
    out := pkt[..];
  }
}
