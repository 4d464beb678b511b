/**
 Packets as a receiver reads them: the octet positions of section 3.1 of RFC 791, section 3 of RFC 8200,
 section 3.1 of RFC 9293 and RFC 768, written out. The properties are stated in these terms, the program's
 own accessors in `Bytes`.
 */
module Wire {
  import opened Bytes
  import opened Checksum

  /** Two octets as a number, the high one first. */
  function Word(pkt: Packet, at: nat): (w: nat)
    requires at + 2 <= |pkt|
    ensures w < 65536
  {
    (pkt[at] as int) * 256 + pkt[at + 1]
  }

  function DoubleWord(pkt: Packet, at: nat): (w: nat)
    requires at + 4 <= |pkt|
    ensures w < 0x1_0000_0000
  {
    (pkt[at] as int) * 16777216 + (pkt[at + 1] as int) * 65536 + (pkt[at + 2] as int) * 256 + pkt[at + 3]
  }

  function Source(pkt: Packet, v6: bool): seq<byte>
    requires |pkt| >= if v6 then 40 else 20
  {
    if v6 then pkt[8..24] else pkt[12..16]
  }

  function Destination(pkt: Packet, v6: bool): seq<byte>
    requires |pkt| >= if v6 then 40 else 20
  {
    if v6 then pkt[24..40] else pkt[16..20]
  }

  /** The sum over the pseudo header: the length is one word for IPv4, two for IPv6. */
  function Pseudo(pkt: Packet, v6: bool, protocol: nat, length: nat): nat
    requires |pkt| >= if v6 then 40 else 20
  {
    WordSum(Source(pkt, v6)) + WordSum(Destination(pkt, v6)) + protocol
    + (if v6 then length / 65536 % 65536 + length % 65536 else length % 65536)
  }

  /** The receiver's test of a TCP (6) or UDP (17) packet whose transport header starts at `at`. */
  predicate ChecksumRight(pkt: Packet, v6: bool, protocol: nat, at: nat)
    requires at <= |pkt| && |pkt| >= if v6 then 40 else 20
  {
    var sum := Pseudo(pkt, v6, protocol, |pkt| - at) + WordSum(pkt[at..]);
    sum > 0 && sum % 65535 == 0
  }

  lemma TwoWords(pkt: Packet, at: nat)
    requires at + 4 <= |pkt|
    ensures DoubleWord(pkt, at) == 65536 * Word(pkt, at) + Word(pkt, at + 2)
  {}

  /** The program's accessors read the same. */
  lemma SameWords(pkt: Packet, at: nat)
    requires at + 2 <= |pkt|
    ensures U16At(pkt, at) == Word(pkt, at)
    ensures at + 4 <= |pkt| ==> U32At(pkt, at) == DoubleWord(pkt, at)
  {}

  lemma SameAddresses(pkt: Packet, v6: bool)
    requires |pkt| >= if v6 then 40 else 20
    ensures var (off, size) := (AddrOff(v6), AddrSize(v6));
            pkt[off..off + size] == Source(pkt, v6) && pkt[off + size..off + 2 * size] == Destination(pkt, v6)
  {}

  /** The program's test, by folding, is the receiver's. */
  lemma SameTest(pkt: Packet, v6: bool, protocol: byte, at: nat, length: nat)
    requires at <= |pkt| && |pkt| >= if v6 then 40 else 20
    requires length == if v6 then (|pkt| - at) / 65536 % 65536 + (|pkt| - at) % 65536 else (|pkt| - at) % 65536
    ensures var (off, size) := (AddrOff(v6), AddrSize(v6));
            var sum := PseudoSum(protocol, pkt[off..off + size], pkt[off + size..off + 2 * size], length);
            Verifies(sum + WordSum(pkt[at..])) <==> ChecksumRight(pkt, v6, protocol, at)
  {
    hide WordSum, Verifies;
    SameAddresses(pkt, v6);
    VerifiesIff(Pseudo(pkt, v6, protocol, |pkt| - at) + WordSum(pkt[at..]));
  }
}
