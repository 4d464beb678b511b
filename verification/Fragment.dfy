/** IPv4 fragmentation (`fragment_ipv4_packet`) and the reassembly of section 3.2 of RFC 791. */
module Fragment {
  import opened Arith
  import opened Bytes
  import opened Checksum

  const MF := 0x2000
  const OFFSETS := 0x2000 // 13 bits of fragment offset

  function Ihl(pkt: Packet): nat
    requires |pkt| >= 20
  {
    pkt[0] % 16 * 4
  }

  /** The header is whole and there is data behind it. */
  predicate WellFormed(pkt: Packet) {
    |pkt| >= 20 && 20 <= Ihl(pkt) < |pkt|
  }

  function FlagsFrag(pkt: Packet): u16
    requires |pkt| >= 20
  {
    U16At(pkt, 6)
  }

  /** The fragment offset, in units of eight octets. */
  function Offset(pkt: Packet): nat
    requires |pkt| >= 20
  {
    FlagsFrag(pkt) % OFFSETS
  }

  predicate More(pkt: Packet)
    requires |pkt| >= 20
  {
    FlagsFrag(pkt) / MF % 2 == 1
  }

  function Data(pkt: Packet): seq<byte>
    requires WellFormed(pkt)
  {
    pkt[Ihl(pkt)..]
  }

  /** `mtu.saturating_sub(ihl) & !7` */
  function MaxData(mtu: nat, ihl: nat): nat {
    (if mtu > ihl then mtu - ihl else 0) / 8 * 8
  }

  /** Flags and offset of a fragment; the offset wraps at 13 bits. */
  function FragmentBits(flagsFrag: u16, start: nat, last: bool): u16 {
    var reserved := flagsFrag / 0x4000 * 0x4000;
    var more := if flagsFrag / MF % 2 == 1 || !last then MF else 0;
    reserved + more + (flagsFrag % OFFSETS + ToU16(start) / 8) % OFFSETS
  }

  /** The fragment header: bits, length, and a header checksum that is complemented twice. */
  function WithHeader(frag: Packet, ihl: nat, bits: u16): (r: Packet)
    requires 20 <= ihl <= |frag|
    ensures |r| == |frag|
  {
    var sized := PutU16(PutU16(PutU16(frag, 6, bits), 2, ToU16(|frag|)), 10, 0);
    PutU16(sized, 10, Complement(Complement(Fold(WordSum(sized[..ihl])))))
  }

  function FragmentAt(pkt: Packet, start: nat, end: nat): Packet
    requires WellFormed(pkt) && start < end <= |Data(pkt)|
  {
    WithHeader(pkt[..Ihl(pkt)] + Data(pkt)[start..end], Ihl(pkt),
               FragmentBits(FlagsFrag(pkt), start, end == |Data(pkt)|))
  }

  function FragmentsFrom(pkt: Packet, size: nat, start: nat): seq<Packet>
    requires WellFormed(pkt) && size > 0
    decreases |Data(pkt)| - start
  {
    if start >= |Data(pkt)| then []
    else
      var end := Min(start + size, |Data(pkt)|);
      [FragmentAt(pkt, start, end)] + FragmentsFrom(pkt, size, end)
  }

  function Fragments(pkt: Packet, mtu: nat): Option<seq<Packet>> {
    if !WellFormed(pkt) || MaxData(mtu, Ihl(pkt)) == 0 then None
    else Some(FragmentsFrom(pkt, MaxData(mtu, Ihl(pkt)), 0))
  }

  /** `fragment_ipv4_packet` */
  method FragmentIpv4Packet(pkt: Packet, mtu: nat) returns (r: Option<seq<Packet>>)
    requires |pkt| <= 131072
    ensures r == Fragments(pkt, mtu)
  {
    if |pkt| < 20 {
      return None;
    }
    var ihl := pkt[0] % 16 * 4;
    if ihl < 20 || ihl >= |pkt| {
      return None;
    }
    var payload := pkt[ihl..];
    var maxData := (if mtu > ihl then mtu - ihl else 0) / 8 * 8;
    if maxData == 0 {
      return None;
    }
    var fragments := FragmentLoop(pkt, ihl, maxData);
    r := Some(fragments);
  }

  method FragmentLoop(pkt: Packet, ihl: nat, size: nat) returns (fragments: seq<Packet>)
    requires WellFormed(pkt) && ihl == Ihl(pkt) && size > 0 && |pkt| <= 131072
    ensures fragments == FragmentsFrom(pkt, size, 0)
  {
    fragments := [];
    var start := 0;
    var length := |pkt| - ihl;
    assert length == |Data(pkt)|;
    hide FragmentsFrom, FragmentAt, WellFormed, Ihl;
    while start < length
      invariant 0 <= start <= length == |Data(pkt)|
      invariant fragments + FragmentsFrom(pkt, size, start) == FragmentsFrom(pkt, size, 0)
    {
      var end := Min(start + size, length);
      var frag := BuildFragment(pkt, ihl, start, end);
      FragmentsStep(pkt, size, start);
      Regroup(fragments, frag, FragmentsFrom(pkt, size, end));
      fragments := fragments + [frag];
      start := end;
    }
    FragmentsStep(pkt, size, start);
    assert fragments + [] == fragments;
  }

  lemma FragmentsStep(pkt: Packet, size: nat, start: nat)
    requires WellFormed(pkt) && size > 0
    ensures start >= |Data(pkt)| ==> FragmentsFrom(pkt, size, start) == []
    ensures start < |Data(pkt)| ==>
              var end := Min(start + size, |Data(pkt)|);
              FragmentsFrom(pkt, size, start) == [FragmentAt(pkt, start, end)] + FragmentsFrom(pkt, size, end)
  {
    hide FragmentAt;
  }

  lemma Regroup(done: seq<Packet>, frag: Packet, rest: seq<Packet>)
    ensures done + ([frag] + rest) == (done + [frag]) + rest
  {}

  /** One round of the loop. */
  method BuildFragment(pkt: Packet, ihl: nat, start: nat, end: nat) returns (frag: Packet)
    requires WellFormed(pkt) && ihl == Ihl(pkt) && start < end <= |Data(pkt)| && |pkt| <= 131072
    ensures frag == FragmentAt(pkt, start, end)
  {
    hide WordSum, Fold, PutU16, Complement, ToU16;
    var payload := pkt[ihl..];
    frag := pkt[..ihl] + payload[start..end];
    var more := pkt[6] / 0x20 % 2 == 1;
    var flags := U16At(pkt, 6) / 0x4000 * 0x4000;
    if more || end < |payload| {
      flags := flags + MF;
    }
    var offset := U16At(pkt, 6) % OFFSETS + ToU16(start) / 8;
    assert flags + offset % OFFSETS == FragmentBits(FlagsFrag(pkt), start, end == |Data(pkt)|);
    frag := PutU16(frag, 6, flags + offset % OFFSETS);
    frag := PutU16(frag, 2, ToU16(|frag|));
    frag := PutU16(frag, 10, 0);
    var sum := Checksum.InternetChecksum(frag[..ihl]);
    frag := PutU16(frag, 10, Complement(sum));
  }

  // ---- One fragment ----

  /** The rest of the header is the packet's own. */
  predicate SameHeader(pkt: Packet, frag: Packet, ihl: nat)
    requires 20 <= ihl <= |pkt| && ihl <= |frag|
  {
    forall k | 0 <= k < ihl && !(2 <= k <= 3) && !(6 <= k <= 7) && !(10 <= k <= 11) :: frag[k] == pkt[k]
  }

  lemma FragmentFields(pkt: Packet, start: nat, end: nat)
    requires WellFormed(pkt) && start < end <= |Data(pkt)| && |pkt| <= 0xffff
    ensures var f := FragmentAt(pkt, start, end);
            && WellFormed(f) && Ihl(f) == Ihl(pkt) && SameHeader(pkt, f, Ihl(pkt))
            && Data(f) == Data(pkt)[start..end]
            && U16At(f, 2) == |f|
            && FlagsFrag(f) / 0x4000 == FlagsFrag(pkt) / 0x4000
            && (More(f) <==> More(pkt) || end < |Data(pkt)|)
            && Offset(f) == (Offset(pkt) + start / 8) % OFFSETS
  {
    hide WordSum, Fold;
    var ihl := Ihl(pkt);
    var raw := pkt[..ihl] + Data(pkt)[start..end];
    var bits := FragmentBits(FlagsFrag(pkt), start, end == |Data(pkt)|);
    var f := FragmentAt(pkt, start, end);
    assert f[0] == raw[0] == pkt[0];
    assert U16At(f, 6) == bits && U16At(f, 2) == |raw|;
    assert f[ihl..] == raw[ihl..] == Data(pkt)[start..end];
    BitsAre(FlagsFrag(pkt), start, end == |Data(pkt)|);
  }

  lemma BitsAre(flagsFrag: u16, start: nat, last: bool)
    requires start <= 0xffff
    ensures var bits := FragmentBits(flagsFrag, start, last);
            && bits / 0x4000 == flagsFrag / 0x4000
            && bits % OFFSETS == (flagsFrag % OFFSETS + start / 8) % OFFSETS
            && (bits / MF % 2 == 1 <==> flagsFrag / MF % 2 == 1 || !last)
  {}

  /** The packet's header with the length and bits a fragment gets, and no checksum. */
  function BlankHeader(pkt: Packet, start: nat, end: nat): (h: seq<byte>)
    requires WellFormed(pkt) && start < end <= |Data(pkt)|
    ensures |h| == Ihl(pkt)
  {
    var bits := FragmentBits(FlagsFrag(pkt), start, end == |Data(pkt)|);
    PutU16(PutU16(PutU16(pkt[..Ihl(pkt)], 6, bits), 2, ToU16(Ihl(pkt) + end - start)), 10, 0)
  }

  /**
   The header of the fragment from `start` to `end` verifies exactly when the words of the packet's own
   header, with the fragment's length and bits and without a checksum, add up to a multiple of 65535.
   */
  lemma ChecksumIff(pkt: Packet, start: nat, end: nat)
    requires WellFormed(pkt) && start < end <= |Data(pkt)|
    ensures Verifies(WordSum(FragmentAt(pkt, start, end)[..Ihl(pkt)]))
            <==> WordSum(BlankHeader(pkt, start, end)) % 0xffff == 0
  {
    hide WordSum, Fold, FragmentBits, Verifies;
    var ihl := Ihl(pkt);
    var bits := FragmentBits(FlagsFrag(pkt), start, end == |Data(pkt)|);
    var raw := pkt[..ihl] + Data(pkt)[start..end];
    var h := BlankHeader(pkt, start, end);
    BlankIsSized(pkt, start, end, raw, bits);
    HeaderSum(raw, ihl, bits, h);
    NotAllZero(h);
  }

  lemma BlankIsSized(pkt: Packet, start: nat, end: nat, raw: Packet, bits: u16)
    requires WellFormed(pkt) && start < end <= |Data(pkt)| && raw == pkt[..Ihl(pkt)] + Data(pkt)[start..end]
    requires bits == FragmentBits(FlagsFrag(pkt), start, end == |Data(pkt)|)
    ensures PutU16(PutU16(PutU16(raw, 6, bits), 2, ToU16(|raw|)), 10, 0)[..Ihl(pkt)] == BlankHeader(pkt, start, end)
    ensures BlankHeader(pkt, start, end)[0] > 0
  {
    hide FragmentBits;
    assert |raw| == Ihl(pkt) + end - start;
    assert raw[..Ihl(pkt)] == pkt[..Ihl(pkt)];
  }

  /** The header sum of a fragment: twice the sum of the header without a checksum, in effect. */
  lemma HeaderSum(frag: Packet, ihl: nat, bits: u16, h: seq<byte>)
    requires 20 <= ihl <= |frag|
    requires h == PutU16(PutU16(PutU16(frag, 6, bits), 2, ToU16(|frag|)), 10, 0)[..ihl]
    ensures Verifies(WordSum(WithHeader(frag, ihl, bits)[..ihl])) <==> WordSum(h) > 0 && WordSum(h) % 0xffff == 0
  {
    hide WordSum, Fold, Verifies;
    var s := WordSum(h);
    assert U16At(h, 10) == 0;
    assert WithHeader(frag, ihl, bits)[..ihl] == PutU16(h, 10, Fold(s));
    WordSumPut(h, 10, Fold(s));
    DoubledVerifies(s);
  }

  lemma NotAllZero(h: seq<byte>)
    requires |h| >= 20 && h[0] > 0
    ensures WordSum(h) > 0
  {}

  lemma DoubledVerifies(s: nat)
    ensures Verifies(s + Fold(s)) <==> s > 0 && s % 0xffff == 0
  {
    VerifiesIff(s + Fold(s));
    var carries := FoldCarries(s);
  }
}
