/** Two packets that fragmentation does not bring through. */
module FragmentFindings {
  import opened Bytes
  import opened Checksum
  import opened Fragment
  import opened FragmentProperties
  import opened Reassembly

  /** UDP from 1.1.1.1 to 2.2.2.2 with no options and the header checksum `sum`. */
  function Plain(sum: u16): Packet {
    PlainHead(sum) + [0, 7, 0, 9, 0, 8, 0, 0]
  }

  function PlainHead(sum: u16): seq<byte> {
    [0x45, 0, 0, 28, 0, 0, 0, 0, 64, 17, sum / 0x100, sum % 0x100, 1, 1, 1, 1, 2, 2, 2, 2]
  }

  const PLAIN := Plain(0x74cc)

  lemma PlainSum(sum: u16)
    ensures WordSum(Plain(sum)[..20]) == 0x8b33 + sum
  {
    var x := PlainHead(sum);
    assert Plain(sum)[..20] == x;
    WordSumOfTwenty(x);
    assert U16At(x, 0) == 0x4500 && U16At(x, 2) == 28 && U16At(x, 4) == 0 && U16At(x, 6) == 0 && U16At(x, 8) == 0x4011;
    assert U16At(x, 10) == sum && U16At(x, 12) == U16At(x, 14) == 0x0101 && U16At(x, 16) == U16At(x, 18) == 0x0202;
  }

  lemma WordSumOfTwenty(x: seq<byte>)
    requires |x| == 20
    ensures WordSum(x) == U16At(x, 0) + U16At(x, 2) + U16At(x, 4) + U16At(x, 6) + U16At(x, 8)
                          + U16At(x, 10) + U16At(x, 12) + U16At(x, 14) + U16At(x, 16) + U16At(x, 18)
  {
    hide U16At, WordSum;
    WordSumStart(x, 0);
    FiveWords(x, 0);
    FiveWords(x, 10);
    WordSumEnd(x, 20);
  }

  lemma PlainParts()
    ensures WellFormed(PLAIN) && Ihl(PLAIN) == 20 && |Data(PLAIN)| == 8 && MaxData(28, 20) == 8
    ensures PLAIN[..20] + Data(PLAIN)[0..8] == PLAIN && FragmentBits(FlagsFrag(PLAIN), 0, true) == 0
    ensures BlankHeader(PLAIN, 0, 8) == Plain(0)[..20]
  {}

  /** The fragment of a packet whose header verifies has a header that does not. */
  lemma PlainFragmentFails()
    ensures Verifies(WordSum(PLAIN[..20]))
    ensures Fragments(PLAIN, 28).Some? && |Fragments(PLAIN, 28).value| == 1
    ensures var f := Fragments(PLAIN, 28).value[0];
            WellFormed(f) && Ihl(f) == 20 && Data(f) == Data(PLAIN) && !Verifies(WordSum(f[..20]))
  {
    hide WordSum, Fold, Verifies, PutU16, FragmentBits, MaxData, FragmentsFrom, WithHeader;
    PlainSum(0x74cc);
    PlainParts();
    VerifiesIff(WordSum(PLAIN[..20]));
    FragmentsStep(PLAIN, 8, 0);
    FragmentsStep(PLAIN, 8, 8);
    FragmentFields(PLAIN, 0, 8);
    PlainHeader(FragmentAt(PLAIN, 0, 8));
  }

  lemma PlainHeader(f: Packet)
    requires f == FragmentAt(PLAIN, 0, 8)
    ensures |f| == 28 && !Verifies(WordSum(f[..20]))
  {
    hide WordSum, Fold, Verifies, FragmentBits, MaxData, FragmentsFrom, WithHeader;
    PlainSum(0);
    PlainParts();
    ChecksumIff(PLAIN, 0, 8);
  }

  /** A fragment at the last offset there is, with data past the end of any datagram. */
  const LATE: Packet := [
    0x45, 0, 0, 36, 0, 0, 0x1f, 0xff, 64, 17, 0, 0, 1, 1, 1, 1, 2, 2, 2, 2,
    0, 1, 2, 3, 4, 5, 6, 7, 8, 9, 10, 11, 12, 13, 14, 15]

  lemma LateParts()
    ensures Datagram(LATE) && Offset(LATE) == 8191 && Ihl(LATE) == 20 && |Data(LATE)| == 16
    ensures MaxData(28, 20) == 8
  {}

  /** Its second fragment wraps to offset 0, so that no order of arrival restores it. */
  lemma LateFragmentIsMisplaced(fragments: seq<Packet>, order: seq<Packet>)
    requires Fragments(LATE, 28) == Some(fragments) && multiset(order) == multiset(fragments)
    ensures Datagram(LATE) && AllWellFormed(order)
    ensures Reassemble(Pieces(order)) != Reassemble([PieceOf(LATE)])
  {
    hide Reassemble, Pieces, Fragments;
    LateParts();
    FragmentsReassemble(LATE, 28, order);
  }
}
