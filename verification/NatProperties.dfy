/** The NAT end to end: rewritten packets are valid, and translation there and back is transparent. */
module NatProperties {
  import opened Bytes
  import opened Checksum
  import GsoProperties
  import Wire
  import opened NatTable
  import opened NatRewrite
  import opened MssOption

  // ---- What rewriting changes ----

  function SrcPort(pkt: Packet, off: nat): u16
    requires off + 4 <= |pkt|
  {
    U16At(pkt, off)
  }

  function DstPort(pkt: Packet, off: nat): u16
    requires off + 4 <= |pkt|
  {
    U16At(pkt, off + 2)
  }

  function FlowOf(pkt: Packet, v6: bool, off: nat): Flow
    requires Fits(pkt, v6, off)
  {
    Flow(SocketAddr(Wire.Source(pkt, v6), Wire.Word(pkt, off)),
         SocketAddr(Wire.Destination(pkt, v6), Wire.Word(pkt, off + 2)))
  }

  /** Addresses and ports. */
  predicate InEndpoints(v6: bool, off: nat, k: int) {
    (if v6 then 8 <= k < 40 else 12 <= k < 20) || off <= k < off + 4
  }

  predicate InChecksums(v6: bool, off: nat, k: int) {
    off + 16 <= k < off + 18 || (!v6 && 10 <= k < 12)
  }

  function Addressed(raw: Packet, v6: bool, src: seq<byte>, dst: seq<byte>): (r: Packet)
    requires IpHeaderLen(v6) <= |raw| && |src| == AddrSize(v6) == |dst|
    ensures |r| == |raw|
  {
    PutSlice(PutSlice(raw, AddrOff(v6), src), AddrOff(v6) + AddrSize(v6), dst)
  }

  lemma AddressAt(raw: Packet, v6: bool, src: seq<byte>, dst: seq<byte>, k: nat)
    requires IpHeaderLen(v6) <= |raw| && |src| == AddrSize(v6) == |dst| && k < |raw|
    ensures Addressed(raw, v6, src, dst)[k]
         == if AddrOff(v6) <= k < AddrOff(v6) + |src| then src[k - AddrOff(v6)]
            else if AddrOff(v6) + |src| <= k < AddrOff(v6) + 2 * |src| then dst[k - AddrOff(v6) - |src|]
            else raw[k]
  {
    hide PutSlice;
    SliceAt(raw, AddrOff(v6), src, k);
    SliceAt(PutSlice(raw, AddrOff(v6), src), AddrOff(v6) + |src|, dst, k);
  }

  lemma AddressesWritten(raw: Packet, v6: bool, src: seq<byte>, dst: seq<byte>)
    requires IpHeaderLen(v6) <= |raw| && |src| == AddrSize(v6) == |dst|
    ensures var r := Addressed(raw, v6, src, dst);
            && Src(r, v6) == src && Dst(r, v6) == dst
            && forall k | 0 <= k < |raw| && !(AddrOff(v6) <= k < AddrOff(v6) + 2 * AddrSize(v6)) :: r[k] == raw[k]
  {
    hide Addressed;
    forall k | 0 <= k < |raw|
      ensures Addressed(raw, v6, src, dst)[k]
           == if AddrOff(v6) <= k < AddrOff(v6) + |src| then src[k - AddrOff(v6)]
              else if AddrOff(v6) + |src| <= k < AddrOff(v6) + 2 * |src| then dst[k - AddrOff(v6) - |src|]
              else raw[k]
    {
      AddressAt(raw, v6, src, dst, k);
    }
  }

  lemma PortsWritten(pkt: Packet, off: nat, sport: u16, dport: u16)
    requires off + 4 <= |pkt|
    ensures var r := PutU16(PutU16(pkt, off, sport), off + 2, dport);
            && SrcPort(r, off) == sport && DstPort(r, off) == dport
            && forall k | 0 <= k < |pkt| && !(off <= k < off + 4) :: r[k] == pkt[k]
  {}

  lemma EndpointsWritten(raw: Packet, v6: bool, off: nat, e: Endpoints)
    requires Fits(raw, v6, off) && |e.src| == AddrSize(v6) == |e.dst|
    ensures var r := WithEndpoints(raw, v6, off, e);
            && Src(r, v6) == e.src && Dst(r, v6) == e.dst
            && (e.ports.Some? ==> SrcPort(r, off) == e.ports.value.0 && DstPort(r, off) == e.ports.value.1)
            && (e.ports.None? ==> r[off..off + 4] == raw[off..off + 4])
            && forall k | 0 <= k < |raw| && !InEndpoints(v6, off, k) :: r[k] == raw[k]
  {
    hide PutSlice, U16At;
    var two := Addressed(raw, v6, e.src, e.dst);
    AddressesWritten(raw, v6, e.src, e.dst);
    var r := WithEndpoints(raw, v6, off, e);
    if e.ports.Some? {
      PortsWritten(two, off, e.ports.value.0, e.ports.value.1);
      assert Src(r, v6) == Src(two, v6) && Dst(r, v6) == Dst(two, v6);
    }
  }

  /** Where a packet carries an MSS value that clamping may lower. */
  predicate InMss(pkt: Packet, off: nat, k: int) {
    SynMss(pkt, off).Some? && SynMss(pkt, off).value <= k < SynMss(pkt, off).value + 2
  }

  predicate TcpVerifies(pkt: Packet, v6: bool, off: nat)
    requires IpHeaderLen(v6) <= off <= |pkt|
  {
    Wire.ChecksumRight(pkt, v6, 6, off)
  }

  /** In the program's terms. */
  lemma TcpVerifiesIs(pkt: Packet, v6: bool, off: nat)
    requires IpHeaderLen(v6) <= off <= |pkt|
    ensures TcpVerifies(pkt, v6, off) <==> Verifies(PseudoOf(pkt, v6, off) + WordSum(pkt[off..]))
  {
    hide WordSum, Verifies, Wire.ChecksumRight;
    Wire.SameTest(pkt, v6, 6, off, PseudoLength(v6, |pkt| - off));
  }

  predicate IpVerifies(pkt: Packet, off: nat)
    requires off <= |pkt|
  {
    Verifies(WordSum(pkt[..off]))
  }

  lemma TcpChecksumStored(pkt: Packet, v6: bool, off: nat)
    requires IpHeaderLen(v6) <= off && off + 18 <= |pkt|
    ensures var r := WithTcpChecksum(pkt, v6, off);
            && TcpVerifies(r, v6, off)
            && forall k | 0 <= k < |pkt| && !(off + 16 <= k < off + 18) :: r[k] == pkt[k]
  {
    hide Fold, WordSum, Verifies;
    var zeroed := PutU16(pkt, off + 16, 0);
    var r := WithTcpChecksum(pkt, v6, off);
    assert zeroed[off..|zeroed|] == zeroed[off..] && r[off..|r|] == r[off..];
    GsoProperties.StoredInRegion(zeroed, off, |pkt|, off + 16, PseudoOf(pkt, v6, off), r);
    assert Src(r, v6) == Src(pkt, v6) && Dst(r, v6) == Dst(pkt, v6);
    TcpVerifiesIs(r, v6, off);
  }

  lemma IpChecksumStored(pkt: Packet, off: nat)
    requires Fits(pkt, false, off)
    ensures var r := WithIpChecksum(pkt);
            && IpVerifies(r, off)
            && forall k | 0 <= k < |pkt| && !(10 <= k < 12) :: r[k] == pkt[k]
  {
    hide Fold, WordSum, Verifies;
    var zeroed := PutU16(pkt, 10, 0);
    var r := WithIpChecksum(pkt);
    assert zeroed[0..off] == zeroed[..off] && r[0..off] == r[..off];
    GsoProperties.StoredInRegion(zeroed, 0, off, 10, 0, r);
  }

  lemma SameForTcp(a: Packet, b: Packet, off: nat)
    requires |a| == |b| && Fits(a, false, off) && forall k | 0 <= k < |a| && !(10 <= k < 12) :: a[k] == b[k]
    ensures TcpVerifies(a, false, off) ==> TcpVerifies(b, false, off)
  {
    hide WordSum;
    assert a[12..16] == b[12..16] && a[16..20] == b[16..20] && a[off..] == b[off..];
  }

  /** Everything but endpoints, checksums and an MSS value comes through as it was. */
  predicate OnlyTranslated(raw: Packet, out: Packet, v6: bool, off: nat) {
    && |out| == |raw|
    && forall k | 0 <= k < |raw| && !InEndpoints(v6, off, k) && !InChecksums(v6, off, k) && !InMss(raw, off, k) ::
         out[k] == raw[k]
  }

  predicate HasEndpoints(pkt: Packet, v6: bool, off: nat, e: Endpoints)
    requires Fits(pkt, v6, off)
  {
    && Wire.Source(pkt, v6) == e.src && Wire.Destination(pkt, v6) == e.dst
    && (e.ports.Some? ==>
          Wire.Word(pkt, off) == e.ports.value.0 && Wire.Word(pkt, off + 2) == e.ports.value.1)
  }

  lemma SynMssDepends(a: Packet, b: Packet, off: nat)
    requires |a| == |b| && forall k | off + 12 <= k < |a| && !(off + 14 <= k < off + 20) :: a[k] == b[k]
    ensures SynMss(a, off) == SynMss(b, off)
  {
    if |a| >= off + 24 && off + a[off + 12] / 16 * 4 <= |a| && a[off + 12] / 16 * 4 >= 20 {
      var data := a[off + 12] / 16 * 4;
      assert a[off + 20..off + data] == b[off + 20..off + data];
    }
  }

  /** The rewriting before checksums. */
  lemma TranslatedBody(raw: Packet, v6: bool, off: nat, e: Endpoints, mss: Option<u16>, body: Packet)
    requires Fits(raw, v6, off) && |e.src| == AddrSize(v6) == |e.dst|
    requires body == WithMss(WithEndpoints(raw, v6, off, e), off, mss)
    ensures |body| == |raw| && Fits(body, v6, off) && HasEndpoints(body, v6, off, e)
    ensures forall k | 0 <= k < |raw| && !InEndpoints(v6, off, k) && !InMss(raw, off, k) :: body[k] == raw[k]
    ensures e.ports.None? ==> body[off..off + 4] == raw[off..off + 4]
  {
    hide SynMss, Clamped, WithEndpoints;
    var r := WithEndpoints(raw, v6, off, e);
    EndpointsWritten(raw, v6, off, e);
    SynMssDepends(raw, r, off);
    if mss.Some? {
      ClampedMss(r, off, mss.value);
      assert forall k | 0 <= k < off + 20 :: body[k] == r[k];
      assert Src(body, v6) == Src(r, v6) && Dst(body, v6) == Dst(r, v6);
      assert body[off..off + 4] == r[off..off + 4];
    }
  }

  /**
   A rewritten packet has the new endpoints, is otherwise the old one, and verifies under the
   checksums of section 3.1 of RFC 791 and section 3.1 of RFC 9293.
   */
  lemma RewrittenIsValid(raw: Packet, v6: bool, off: nat, e: Endpoints, mss: Option<u16>)
    requires Fits(raw, v6, off) && |e.src| == AddrSize(v6) == |e.dst|
    ensures var out := Rewritten(raw, v6, off, e, mss);
            && Fits(out, v6, off) && HasEndpoints(out, v6, off, e) && OnlyTranslated(raw, out, v6, off)
            && TcpVerifies(out, v6, off) && (!v6 ==> IpVerifies(out, off))
            && (e.ports.None? ==> out[off..off + 4] == raw[off..off + 4])
            && MssRight(raw, out, off, mss)
  {
    hide SynMss, WithMss, WithEndpoints, WithTcpChecksum, WithIpChecksum, TcpVerifies, IpVerifies, MssRight;
    var body := WithMss(WithEndpoints(raw, v6, off, e), off, mss);
    TranslatedBody(raw, v6, off, e, mss, body);
    TcpChecksumStored(body, v6, off);
    var summed := WithTcpChecksum(body, v6, off);
    if !v6 {
      IpChecksumStored(summed, off);
      SameForTcp(summed, WithIpChecksum(summed), off);
    }
    ChecksumsKeep(body, Rewritten(raw, v6, off, e, mss), v6, off);
    MssWritten(raw, v6, off, e, mss, Rewritten(raw, v6, off, e, mss));
  }

  /** Clamping is not undone by the checksums behind it. */
  lemma MssWritten(raw: Packet, v6: bool, off: nat, e: Endpoints, mss: Option<u16>, out: Packet)
    requires Fits(raw, v6, off) && |e.src| == AddrSize(v6) == |e.dst| && |out| == |raw|
    requires var body := WithMss(WithEndpoints(raw, v6, off, e), off, mss);
             |body| == |raw| && forall k | 0 <= k < |raw| && !InChecksums(v6, off, k) :: out[k] == body[k]
    ensures MssRight(raw, out, off, mss)
  {
    hide SynMss, Clamped, WithEndpoints, Announces, U16At, Wire.Word;
    var r := WithEndpoints(raw, v6, off, e);
    var body := WithMss(r, off, mss);
    EndpointsWritten(raw, v6, off, e);
    SynMssDepends(raw, r, off);
    if mss.Some? {
      ClampedMss(r, off, mss.value);
    }
    SynMssDepends(body, out, off);
    forall at: nat | Announces(raw, off, at) && at + 2 <= |raw|
      ensures Announces(out, off, at)
      ensures Wire.Word(out, at)
           == if mss.Some? && mss.value < Wire.Word(raw, at) then mss.value else Wire.Word(raw, at)
    {
      SynMssIff(raw, off, at);
      SynMssIff(out, off, at);
      Wire.SameWords(raw, at);
      Wire.SameWords(body, at);
      SameWordAt(raw, r, at);
      SameWordAt(body, out, at);
    }
  }

  lemma SameWordAt(a: Packet, b: Packet, at: nat)
    requires at + 2 <= |a| == |b| && a[at] == b[at] && a[at + 1] == b[at + 1]
    ensures Wire.Word(a, at) == Wire.Word(b, at) && U16At(a, at) == U16At(b, at)
  {}

  /** Filling in checksums keeps addresses and ports. */
  lemma ChecksumsKeep(body: Packet, out: Packet, v6: bool, off: nat)
    requires Fits(body, v6, off) && |out| == |body|
    requires forall k | 0 <= k < |body| && !InChecksums(v6, off, k) :: out[k] == body[k]
    ensures Fits(out, v6, off) && Src(out, v6) == Src(body, v6) && Dst(out, v6) == Dst(body, v6)
    ensures out[off..off + 4] == body[off..off + 4]
    ensures SrcPort(out, off) == SrcPort(body, off) && DstPort(out, off) == DstPort(body, off)
  {
    assert out[0] == body[0];
    assert forall k | AddrOff(v6) <= k < AddrOff(v6) + 2 * AddrSize(v6) :: out[k] == body[k];
    assert forall k | off <= k < off + 4 :: out[k] == body[k];
  }

  // ---- What the receiver makes of octets behind the packet ----

  /** Where the packet ends by its IP header. */
  function IpEnd(pkt: Packet, v6: bool): nat
    requires IpHeaderLen(v6) <= |pkt|
  {
    if v6 then 40 + Wire.Word(pkt, 4) else Wire.Word(pkt, 2)
  }

  /** The receiver takes the TCP length from the IP header. */
  predicate ReceiverAccepts(pkt: Packet, v6: bool, off: nat)
    requires IpHeaderLen(v6) <= off <= |pkt| && off <= IpEnd(pkt, v6) <= |pkt|
  {
    TcpVerifies(pkt[..IpEnd(pkt, v6)], v6, off)
  }

  /** The words from octet k on; behind an odd number of octets the first of them is a low octet. */
  function WordsFrom(x: seq<byte>, k: nat): nat
    requires k <= |x|
  {
    if k % 2 == 1 && k < |x| then x[k] + WordSum(x[k + 1..]) else WordSum(x[k..])
  }

  lemma {:induction false} WordsSplit(x: seq<byte>, k: nat)
    requires k <= |x|
    ensures WordSum(x) == WordSum(x[..k]) + WordsFrom(x, k)
    decreases k
  {
    if k == 0 {
      assert x[0..] == x;
    } else if k == 1 {
      if |x| == 1 {
        assert x[..1] == x && x[1..] == [];
      }
    } else {
      WordsSplit(x[2..], k - 2);
      assert x[2..][..k - 2] == x[..k][2..] && x[2..][k - 2..] == x[k..];
      assert k < |x| ==> x[2..][k - 2 + 1..] == x[k + 1..];
    }
  }

  /** How much the code's sum over the whole buffer exceeds the receiver's, up to whole turns of 65535. */
  function Excess(raw: Packet, v6: bool, off: nat): int
    requires IpHeaderLen(v6) <= off <= |raw| && off <= IpEnd(raw, v6) <= |raw|
  {
    var end := IpEnd(raw, v6);
    PseudoLength(v6, |raw| - off) - PseudoLength(v6, end - off) + WordsFrom(raw[off..], end - off)
  }

  lemma SameTail(raw: Packet, out: Packet, v6: bool, off: nat)
    requires OnlyTranslated(raw, out, v6, off) && IpHeaderLen(v6) <= off <= |raw|
    requires off + 20 <= IpEnd(raw, v6) <= |raw|
    requires SynMss(raw, off).Some? ==> SynMss(raw, off).value + 2 <= IpEnd(raw, v6)
    ensures IpEnd(out, v6) == IpEnd(raw, v6) && Excess(out, v6, off) == Excess(raw, v6, off)
  {
    hide WordSum, SynMss;
    var end := IpEnd(raw, v6);
    assert IpEnd(out, v6) == end;
    var (a, b) := (raw[off..], out[off..]);
    assert a[end - off..] == raw[end..] == out[end..] == b[end - off..];
    if end < |raw| {
      assert a[end - off + 1..] == raw[end + 1..] == out[end + 1..] == b[end - off + 1..];
      assert a[end - off] == b[end - off];
    }
  }

  /**
   The rewriting sums the whole buffer. With octets behind the end that the IP header gives, a receiver
   accepts the TCP checksum exactly when these octets, with the difference in length, add up to a
   multiple of 65535; without any it does.
   */
  lemma ReceiverAcceptsIff(raw: Packet, v6: bool, off: nat, e: Endpoints, mss: Option<u16>)
    requires Fits(raw, v6, off) && |e.src| == AddrSize(v6) == |e.dst|
    requires off + 20 <= IpEnd(raw, v6) <= |raw|
    requires SynMss(raw, off).Some? ==> SynMss(raw, off).value + 2 <= IpEnd(raw, v6)
    ensures var out := Rewritten(raw, v6, off, e, mss);
            && |out| == |raw| && IpEnd(out, v6) == IpEnd(raw, v6)
            && (ReceiverAccepts(out, v6, off) <==> Excess(raw, v6, off) % 0xffff == 0)
    ensures IpEnd(raw, v6) == |raw| ==> Excess(raw, v6, off) == 0
  {
    hide Rewritten, WordSum, SynMss, OnlyTranslated, TcpVerifies, ReceiverAccepts, HasEndpoints, IpVerifies, IpEnd, Excess;
    var out := Rewritten(raw, v6, off, e, mss);
    RewrittenIsValid(raw, v6, off, e, mss);
    OnlyLength(raw, out, v6, off);
    SameTail(raw, out, v6, off);
    AcceptsIff(out, v6, off);
    NoTail(raw, v6, off);
  }

  /** The same of any packet that verifies over the whole buffer. */
  lemma AcceptsIff(out: Packet, v6: bool, off: nat)
    requires IpHeaderLen(v6) <= off <= |out| && off <= IpEnd(out, v6) <= |out| && TcpVerifies(out, v6, off)
    ensures ReceiverAccepts(out, v6, off) <==> Excess(out, v6, off) % 0xffff == 0
  {
    hide WordSum, Verifies, PseudoLength, WordsFrom, IpEnd, TcpVerifies;
    var end := IpEnd(out, v6);
    TcpVerifiesIs(out, v6, off);
    TcpVerifiesIs(out[..end], v6, off);
    assert Src(out[..end], v6) == Src(out, v6) && Dst(out[..end], v6) == Dst(out, v6);
    assert out[..end][off..] == out[off..end];
    WordsSplit(out[off..], end - off);
    assert out[off..][..end - off] == out[off..end];
    var whole := PseudoOf(out, v6, off) + WordSum(out[off..]);
    var mine := PseudoSum(IPPROTO_TCP, Src(out, v6), Dst(out, v6), PseudoLength(v6, end - off)) + WordSum(out[off..end]);
    assert whole == mine + Excess(out, v6, off) && mine > 0;
    VerifiesIff(whole);
    VerifiesIff(mine);
    SameRemainder(whole, mine, Excess(out, v6, off));
  }

  lemma SameRemainder(whole: nat, mine: nat, excess: int)
    requires whole == mine + excess && whole % 0xffff == 0
    ensures mine % 0xffff == 0 <==> excess % 0xffff == 0
  {}

  lemma OnlyLength(raw: Packet, out: Packet, v6: bool, off: nat)
    requires OnlyTranslated(raw, out, v6, off)
    ensures |out| == |raw|
  {
    hide SynMss;
  }

  lemma NoTail(raw: Packet, v6: bool, off: nat)
    requires IpHeaderLen(v6) <= off <= |raw| && off <= IpEnd(raw, v6) <= |raw|
    ensures IpEnd(raw, v6) == |raw| ==> Excess(raw, v6, off) == 0
  {}
}
