/** A read sequence that ends with a segment lost. */
module ReaderFindings {
  import opened Bytes
  import opened VirtioNet
  import GsoProperties
  import GsoSplit
  import opened TunReader

  /** A UDP packet of two octets of data, behind a header that cuts it after each octet. */
  const UDP_OFFLOADED: Packet := [
    0x45, 0, 0, 30, 0, 0, 0, 0, 64, 17, 0, 0, 1, 1, 1, 1, 2, 2, 2, 2, 0, 7, 0, 9, 0, 10, 0, 0, 5, 6]

  const UDP_HEADER := Header(F_NEEDS_CSUM, GSO_UDP_L4, 28, 1, 20, 6)

  const UDP_OPTIONS := GsoOptions(UdpL4, 28, 20, 6, 1, true)

  function OffloadedRead(little: bool): seq<byte> {
    Encode(UDP_HEADER, little) + UDP_OFFLOADED
  }

  lemma OffloadedLayout()
    ensures |UDP_OFFLOADED| == 30 && GsoSplit.StandardLayout(UDP_OFFLOADED, UDP_OPTIONS)
    ensures ToOptions(UDP_HEADER) == Some(UDP_OPTIONS)
  {}

  lemma OffloadedParts(little: bool)
    ensures var raw := OffloadedRead(little);
            && |raw| == 40 && raw[HDR_LEN..] == UDP_OFFLOADED && Decode(raw[..HDR_LEN], little) == Some(UDP_HEADER)
  {
    hide Encode, Decode;
    DecodeEncode(UDP_HEADER, [], little);
    var front := Encode(UDP_HEADER, little);
    assert front + [] == front && OffloadedRead(little)[..HDR_LEN] == front;
    assert |UDP_OFFLOADED| == 30;
  }

  predicate IsTwo(raw: seq<byte>, little: bool) {
    && Readable(raw, true, little) && ExpandRead(raw, true, little).Ok?
    && |ExpandRead(raw, true, little).value| == 2
  }

  /** The read stands for two packets, of which only the first was returned. */
  predicate FirstOfTwo(raw: seq<byte>, little: bool, returned: seq<Packet>) {
    IsTwo(raw, little) && returned == [ExpandRead(raw, true, little).value[0]]
  }

  /** The read stands for two datagrams. */
  lemma OffloadedIsTwo(little: bool)
    ensures IsTwo(OffloadedRead(little), little)
  {
    hide Encode, Decode, ToOptions, GsoSplit.StandardLayout, GsoSplit.Segment, GsoSplit.Split, GsoSplit.NoPanic;
    OffloadedParts(little);
    OffloadedLayout();
    TwoSegments();
  }

  lemma TwoSegments()
    ensures GsoSplit.NoPanic(UDP_OFFLOADED, UDP_OPTIONS, IDEAL_BATCH_SIZE)
    ensures GsoSplit.Split(UDP_OFFLOADED, UDP_OPTIONS, IDEAL_BATCH_SIZE).Ok?
    ensures |GsoSplit.Split(UDP_OFFLOADED, UDP_OPTIONS, IDEAL_BATCH_SIZE).value| == 2
  {
    hide GsoSplit.Segment, GsoSplit.NoPanic;
    OffloadedLayout();
    GsoProperties.SplitIsComplete(UDP_OFFLOADED, UDP_OPTIONS, IDEAL_BATCH_SIZE);
  }

  /** Of the packets of one read, one is returned: it is the first, and the other is queued. */
  lemma OneReturned(raw: seq<byte>, little: bool, returned: seq<Packet>, queue: seq<Packet>)
    requires IsTwo(raw, little) && |returned| == 1
    requires returned + queue == ExpandAll([raw], true, little)
    ensures FirstOfTwo(raw, little, returned) && |queue| == 1
  {
    hide ExpandRead, Readable;
    assert [] + [raw] == [raw];
    ExpandOneMore([], raw, true, little);
    var all := ExpandRead(raw, true, little).value;
    assert returned[0] == (returned + queue)[0] == all[0];
  }

  lemma SomethingRead(raw: seq<byte>, little: bool)
    requires IsTwo(raw, little)
    ensures Readable(raw, true, little) && ExpandAll([raw], true, little) != []
  {
    hide ExpandRead, Readable;
    assert [] + [raw] == [raw];
    ExpandOneMore([], raw, true, little);
  }

  lemma ExpandNone(little: bool)
    ensures ExpandAll([], true, little) == []
  {}

  lemma IsReadable(raw: seq<byte>, little: bool)
    requires IsTwo(raw, little)
    ensures Readable(raw, true, little) && ExpandRead(raw, true, little).Ok?
  {}

  /**
   A batch of one takes the first of two datagrams and leaves the other in the queue. The next call
   finds the device failing: the queued datagram is gone, and no later call can return it.
   */
  method QueuedSegmentIsLost(little: bool, code: int)
    returns (reader: LinuxTunReader, first: Result<seq<Packet>, ReadError>, second: Result<seq<Packet>, ReadError>)
    ensures reader.seen == [OffloadedRead(little)] && FirstOfTwo(OffloadedRead(little), little, reader.returned)
    ensures first == Ok(reader.returned) && second.Err? && reader.Queue() == []
  {
    hide ExpandRead, Readable, OffloadedRead, IsTwo, FirstOfTwo, ExpandAll;
    OffloadedIsTwo(little);
    var raw := OffloadedRead(little);
    IsReadable(raw, little);
    var source := new Source([Ok(raw), Err(code)], true, little);
    reader := new LinuxTunReader(source);
    ExpandNone(little);
    assert [] + reader.Queue() == [];
    assert reader.NextRead() == Ok(raw);
    first := reader.DoBatchRead(1);
    assert reader.seen == [] + [raw] == [raw] && reader.returned == [] + first.value == first.value;
    SomethingRead(raw, little);
    assert |first.value| == 1;
    OneReturned(raw, little, reader.returned, reader.Queue());
    second := reader.DoBatchRead(2);
  }
}
