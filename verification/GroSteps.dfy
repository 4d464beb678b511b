/** Each round of `handle_gro` keeps the invariant and accounts for exactly the packet it looked at. */
module GroSteps {
  import opened Bytes
  import opened VirtioNet
  import opened Gro
  import opened GroItems
  import opened GroMerge
  import opened GroInvariant

  // ---- Everything that will be written, in order ----

  function Flat(contents: Contents): seq<Desc> {
    if contents == [] then [] else contents[0] + Flat(contents[1..])
  }

  /** The datagrams of one flow, in order. */
  function UdpOf(descs: seq<Desc>, key: UdpFlowKey): seq<Desc> {
    if descs == [] then []
    else (if OfFlow(descs[0], key) then [descs[0]] else []) + UdpOf(descs[1..], key)
  }

  /** One more packet: the segments are one more, and its flow has it at the end. */
  ghost predicate Adds(contents: Contents, contents': Contents, d: Desc) {
    && multiset(Flat(contents')) == multiset(Flat(contents)) + multiset{d}
    && forall key :: UdpOf(Flat(contents'), key) == UdpOf(Flat(contents), key) + UdpOf([d], key)
  }

  /** Where a packet goes: the buffer that stands for it afterwards, and whether it is first there. */
  datatype Spot = Spot(buffer: nat, front: bool)

  /** Of one table entry. */
  predicate SameKey(e: Desc, d: Desc) {
    || (e.TcpSegment? && d.TcpSegment? && e.key == d.key)
    || (e.UdpDatagram? && d.UdpDatagram? && e.udpKey == d.udpKey)
  }

  /** Packet i, described by d, went to its own buffer or to one that stands for packets of its flow. */
  predicate PlacedAt(contents: Contents, contents': Contents, spot: Spot, i: nat, d: Desc) {
    var b := spot.buffer;
    && b <= i < |contents| == |contents'| && contents' == contents[b := contents'[b]]
    && contents'[b] == (if spot.front then [d] + contents[b] else contents[b] + [d])
    && (spot.front ==> d.TcpSegment? && b < i)
    && if b == i then contents[i] == [] else contents[b] != [] && forall e | e in contents[b] :: SameKey(e, d)
  }

  lemma {:induction false} FlatAt(contents: Contents, b: nat)
    requires b < |contents|
    ensures Flat(contents) == Flat(contents[..b]) + contents[b] + Flat(contents[b + 1..])
    decreases b
  {
    if b == 0 {
      assert Flat(contents[..0]) + contents[0] == contents[0];
    } else {
      FlatAt(contents[1..], b - 1);
      assert contents[1..][..b - 1] == contents[..b][1..] && contents[1..][b..] == contents[b + 1..];
      var (head, mid, tail) := (Flat(contents[1..][..b - 1]), contents[b], Flat(contents[b + 1..]));
      assert contents[0] + ((head + mid) + tail) == ((contents[0] + head) + mid) + tail;
    }
  }

  lemma Regroup(a: seq<Desc>, b: seq<Desc>, c: seq<Desc>)
    ensures (a + b) + c == a + (b + c)
  {}

  lemma {:induction false} UdpOfConcat(a: seq<Desc>, b: seq<Desc>, key: UdpFlowKey)
    ensures UdpOf(a + b, key) == UdpOf(a, key) + UdpOf(b, key)
    decreases |a|
  {
    if a == [] {
      assert a + b == b;
    } else {
      assert (a + b)[1..] == a[1..] + b;
      UdpOfConcat(a[1..], b, key);
      Regroup(if OfFlow(a[0], key) then [a[0]] else [], UdpOf(a[1..], key), UdpOf(b, key));
    }
  }

  lemma {:induction false} UdpOfWithout(contents: Contents, key: UdpFlowKey)
    requires forall b | 0 <= b < |contents| :: Without(contents[b], key)
    ensures UdpOf(Flat(contents), key) == []
    decreases |contents|
  {
    if contents != [] {
      UdpOfWithout(contents[1..], key);
      UdpOfConcat(contents[0], Flat(contents[1..]), key);
      UdpOfNone(contents[0], key);
    }
  }

  lemma {:induction false} UdpOfNone(descs: seq<Desc>, key: UdpFlowKey)
    requires Without(descs, key)
    ensures UdpOf(descs, key) == []
    decreases |descs|
  {
    if descs != [] {
      UdpOfNone(descs[1..], key);
    }
  }

  /** Extending one buffer adds one packet, in flow order if no later buffer holds its flow. */
  lemma AddsAt(contents: Contents, b: nat, v: seq<Desc>, d: Desc)
    requires b < |contents|
    requires v == contents[b] + [d] || (v == [d] + contents[b] && !d.UdpDatagram?)
    requires forall key, later | OfFlow(d, key) && b < later < |contents| :: Without(contents[later], key)
    ensures Adds(contents, contents[b := v], d)
  {
    hide Flat, UdpOf, Without;
    var contents' := contents[b := v];
    FlatAt(contents, b);
    FlatAt(contents', b);
    assert contents'[..b] == contents[..b] && contents'[b + 1..] == contents[b + 1..];
    var (head, tail) := (Flat(contents[..b]), Flat(contents[b + 1..]));
    assert multiset(v) == multiset(contents[b]) + multiset{d};
    forall key ensures UdpOf(Flat(contents'), key) == UdpOf(Flat(contents), key) + UdpOf([d], key) {
      if OfFlow(d, key) {
        UdpOfWithout(contents[b + 1..], key);
      }
      AddsForKey(head, contents[b], v, tail, d, key);
    }
  }

  lemma AddsForKey(head: seq<Desc>, was: seq<Desc>, v: seq<Desc>, tail: seq<Desc>, d: Desc, key: UdpFlowKey)
    requires v == was + [d] || (v == [d] + was && !OfFlow(d, key))
    requires OfFlow(d, key) ==> UdpOf(tail, key) == []
    ensures UdpOf(head + v + tail, key) == UdpOf(head + was + tail, key) + UdpOf([d], key)
  {
    hide UdpOf;
    UdpOfConcat(head + was, tail, key);
    UdpOfConcat(head, was, key);
    UdpOfConcat(head + v, tail, key);
    UdpOfConcat(head, v, key);
    var (front, mid, end, one) := (UdpOf(head, key), UdpOf(was, key), UdpOf(tail, key), UdpOf([d], key));
    if v == was + [d] {
      UdpOfConcat(was, [d], key);
      Regroup(front, mid, one);
    } else {
      UdpOfConcat([d], was, key);
    }
    UdpOfOne(d, key);
    if OfFlow(d, key) {
      assert front + (mid + one) + [] == front + (mid + one) && front + mid + [] == front + mid;
    } else {
      assert mid + [] == mid && [] + mid == mid && front + mid + end + [] == front + mid + end;
    }
  }

  lemma UdpOfOne(d: Desc, key: UdpFlowKey)
    ensures UdpOf([d], key) == if OfFlow(d, key) then [d] else []
  {
    assert UdpOf([d][1..], key) == [];
  }

  // ---- The walk over the items of a flow ----

  lemma PrunedOne(items: seq<TcpItem>, j: nat)
    requires j < |items| && items[j].numMerged == 0
    ensures Pruned(items, items[..j] + items[j + 1..])
  {
    var kept := items[..j] + items[j + 1..];
    forall item | item in items ensures item in kept || item.numMerged == 0 {
      var p :| 0 <= p < |items| && items[p] == item;
      if p < j {
        assert kept[p] == item;
      } else if p > j {
        assert kept[p - 1] == item;
      }
    }
  }

  lemma PrunedNone(items: seq<TcpItem>)
    ensures Pruned(items, items)
  {}

  lemma PrunedTwice(items: seq<TcpItem>, fewer: seq<TcpItem>, kept: seq<TcpItem>)
    requires Pruned(items, fewer) && Pruned(fewer, kept)
    ensures Pruned(items, kept)
  {}

  lemma OnlyUnmergedDropped(mode: CanCoalesce, arrival: TcpItem, item: TcpItem, bufs: seq<Buf>, offset: nat)
    requires TcpItemFits(item, arrival, bufs, offset) && NewFits(arrival, bufs, offset)
    requires arrival.tcphLen == item.tcphLen
    ensures CoalesceTcp(mode, arrival, item, bufs, offset).0 == ItemInvalidCsum ==> item.numMerged == 0
  {
    hide ChecksumValid, WithPsh;
  }

  /** What the decision says of the packet and an item. */
  function Answer(arrival: TcpItem, item: TcpItem, bufs: seq<Buf>, offset: nat): CanCoalesce
    requires TcpItemFits(item, arrival, bufs, offset) && NewFits(arrival, bufs, offset)
  {
    TcpPacketsCanCoalesce(Pkt(bufs[arrival.bufsIndex], offset), arrival, item, Pkt(bufs[item.bufsIndex], offset))
  }

  /** The item can take the packet, has the room, and neither PSH nor a wrong checksum forbids it. */
  predicate Takes(arrival: TcpItem, item: TcpItem, bufs: seq<Buf>, offset: nat)
    requires TcpItemFits(item, arrival, bufs, offset) && NewFits(arrival, bufs, offset)
  {
    var can := Answer(arrival, item, bufs, offset);
    && can != Unavailable && arrival.tcphLen == item.tcphLen
    && CoalesceTcp(can, arrival, item, bufs, offset).0 == Success
  }

  /** The newest item that takes the packet. */
  function Taker(arrival: TcpItem, items: seq<TcpItem>, bufs: seq<Buf>, offset: nat): (r: Option<TcpItem>)
    requires NewFits(arrival, bufs, offset)
    requires forall j | 0 <= j < |items| :: TcpItemFits(items[j], arrival, bufs, offset)
    ensures r.Some? ==> r.value in items && TcpItemFits(r.value, arrival, bufs, offset) && Takes(arrival, r.value, bufs, offset)
  {
    if items == [] then None
    else
      var last := |items| - 1;
      assert TcpItemFits(items[last], arrival, bufs, offset);
      if Takes(arrival, items[last], bufs, offset) then Some(items[last])
      else Taker(arrival, items[..last], bufs, offset)
  }

  /** No item takes a packet whose checksum is wrong. */
  lemma {:induction false} NoTaker(arrival: TcpItem, items: seq<TcpItem>, bufs: seq<Buf>, offset: nat)
    requires NewFits(arrival, bufs, offset)
    requires forall j | 0 <= j < |items| :: TcpItemFits(items[j], arrival, bufs, offset)
    requires !ChecksumValid(Pkt(bufs[arrival.bufsIndex], offset), arrival.iphLen, 6, arrival.key.v6)
    ensures Taker(arrival, items, bufs, offset) == None
  {
    hide ChecksumValid, Answer;
    if items != [] {
      assert TcpItemFits(items[|items| - 1], arrival, bufs, offset);
      NoTaker(arrival, items[..|items| - 1], bufs, offset);
    }
  }

  lemma WrongChecksum(mode: CanCoalesce, arrival: TcpItem, item: TcpItem, bufs: seq<Buf>, offset: nat)
    requires TcpItemFits(item, arrival, bufs, offset) && NewFits(arrival, bufs, offset)
    requires arrival.tcphLen == item.tcphLen
    ensures CoalesceTcp(mode, arrival, item, bufs, offset).0 == PktInvalidCsum ==>
              !ChecksumValid(Pkt(bufs[arrival.bufsIndex], offset), arrival.iphLen, 6, arrival.key.v6)
  {
    hide ChecksumValid, WithPsh;
  }

  /** The taker among the first i items, one item at a time. */
  lemma TakerOnce(arrival: TcpItem, items: seq<TcpItem>, i: nat, bufs: seq<Buf>, offset: nat)
    requires 0 < i <= |items| && NewFits(arrival, bufs, offset)
    requires forall j | 0 <= j < i :: TcpItemFits(items[j], arrival, bufs, offset)
    requires TcpItemFits(items[i - 1], arrival, bufs, offset)
    ensures items[..i][..i - 1] == items[..i - 1] && (items[..i - 1] + items[i..])[..i - 1] == items[..i - 1]
    ensures Taker(arrival, items[..i], bufs, offset) ==
              if Takes(arrival, items[i - 1], bufs, offset) then Some(items[i - 1])
              else Taker(arrival, items[..i - 1], bufs, offset)
    ensures var can := Answer(arrival, items[i - 1], bufs, offset);
            can != Unavailable ==>
              && arrival.tcphLen == items[i - 1].tcphLen
              && var result := CoalesceTcp(can, arrival, items[i - 1], bufs, offset).0;
                 && (Takes(arrival, items[i - 1], bufs, offset) <==> result == Success)
                 && (result == PktInvalidCsum ==> Taker(arrival, items[..i], bufs, offset) == None)
    ensures Answer(arrival, items[i - 1], bufs, offset) == Unavailable ==> !Takes(arrival, items[i - 1], bufs, offset)
  {
    hide TcpPacketsCanCoalesce, CoalesceTcp, ChecksumValid;
    var item := items[i - 1];
    assert items[..i][..i - 1] == items[..i - 1];
    CanCoalesceSameHeaders(Pkt(bufs[arrival.bufsIndex], offset), arrival, item, Pkt(bufs[item.bufsIndex], offset));
    var can := Answer(arrival, item, bufs, offset);
    if can != Unavailable {
      WrongChecksum(can, arrival, item, bufs, offset);
      if CoalesceTcp(can, arrival, item, bufs, offset).0 == PktInvalidCsum {
        NoTaker(arrival, items[..i], bufs, offset);
      }
    }
  }

  /**
   The walk drops unmerged items with wrong checksums, and either merges the packet with the newest
   item that takes it or leaves all buffers alone.
   */
  lemma {:induction false} WalkIs(arrival: TcpItem, items: seq<TcpItem>, i: nat, bufs: seq<Buf>, offset: nat)
    returns (kept: seq<TcpItem>, k: nat)
    requires i <= |items| && NewFits(arrival, bufs, offset)
    requires forall j | 0 <= j < i :: TcpItemFits(items[j], arrival, bufs, offset)
    ensures Pruned(items, kept)
    ensures |items[..i]| == i && forall j | 0 <= j < i :: TcpItemFits(items[..i][j], arrival, bufs, offset)
    ensures var walk := Walk(arrival, items, i, bufs, offset);
            && (walk.outcome == Coalesced ==> k < |kept|)
            && Taker(arrival, items[..i], bufs, offset) == if walk.outcome == Coalesced then Some(kept[k]) else None
    ensures var walk := Walk(arrival, items, i, bufs, offset);
            if walk.outcome == Coalesced then
              && k < |kept| && TcpItemFits(kept[k], arrival, bufs, offset)
              && var can := Answer(arrival, kept[k], bufs, offset);
                 && can != Unavailable && arrival.tcphLen == kept[k].tcphLen
                 && |walk.items| == |kept| && walk.items == kept[k := walk.items[k]]
                 && CoalesceTcp(can, arrival, kept[k], bufs, offset) == (Success, walk.items[k], walk.bufs)
            else walk.items == kept && walk.bufs == bufs
    decreases i
  {
    hide *;
    PrunedNone(items);
    kept, k := items, 0;
    WalkEnd(arrival, items, bufs, offset);
    assert forall j | 0 <= j < i :: items[..i][j] == items[j];
    if i > 0 {
      WalkOnce(arrival, items, i, bufs, offset);
      TakerOnce(arrival, items, i, bufs, offset);
      var item := items[i - 1];
      var can := Answer(arrival, item, bufs, offset);
      if can == Unavailable {
        kept, k := WalkIs(arrival, items, i - 1, bufs, offset);
      } else {
        var result := CoalesceTcp(can, arrival, item, bufs, offset).0;
        if result == Success {
          k := i - 1;
        } else if result == ItemInvalidCsum {
          PrunedOne(items, i - 1);
          kept, k := WalkIs(arrival, items[..i - 1] + items[i..], i - 1, bufs, offset);
          PrunedTwice(items, items[..i - 1] + items[i..], kept);
        } else if result != PktInvalidCsum {
          kept, k := WalkIs(arrival, items, i - 1, bufs, offset);
        }
      }
    }
  }

  lemma WalkEnd(arrival: TcpItem, items: seq<TcpItem>, bufs: seq<Buf>, offset: nat)
    requires NewFits(arrival, bufs, offset)
    ensures Walk(arrival, items, 0, bufs, offset) == WalkResult(TableInsert, items, bufs)
    ensures Taker(arrival, items[..0], bufs, offset) == None
  {}

  /** One step of the walk. */
  lemma WalkOnce(arrival: TcpItem, items: seq<TcpItem>, i: nat, bufs: seq<Buf>, offset: nat)
    requires 0 < i <= |items| && NewFits(arrival, bufs, offset)
    requires forall j | 0 <= j < i :: TcpItemFits(items[j], arrival, bufs, offset)
    ensures arrival.bufsIndex < |bufs| && offset + arrival.iphLen + arrival.tcphLen <= |bufs[arrival.bufsIndex].bytes|
    ensures forall j | 0 <= j < i - 1 :: (items[..i - 1] + items[i..])[j] == items[j]
    ensures var item := items[i - 1];
            && TcpItemFits(item, arrival, bufs, offset) && item.bufsIndex < |bufs|
            && arrival.iphLen == item.iphLen && item.tcphLen >= 20
            && offset + item.iphLen + item.tcphLen <= |bufs[item.bufsIndex].bytes|
            && var can := Answer(arrival, item, bufs, offset);
               (can == Unavailable ==>
                  Walk(arrival, items, i, bufs, offset) == Walk(arrival, items, i - 1, bufs, offset))
               && (can != Unavailable ==>
                     && arrival.tcphLen == item.tcphLen
                     && var (result, item', bufs') := CoalesceTcp(can, arrival, item, bufs, offset);
                        && (result == ItemInvalidCsum ==> item.numMerged == 0)
                        && Walk(arrival, items, i, bufs, offset)
                           == match result
                              case Success => WalkResult(Coalesced, items[i - 1 := item'], bufs')
                              case ItemInvalidCsum => Walk(arrival, items[..i - 1] + items[i..], i - 1, bufs, offset)
                              case PktInvalidCsum => WalkResult(Noop, items, bufs)
                              case _ => Walk(arrival, items, i - 1, bufs, offset))
  {
    hide TcpPacketsCanCoalesce, CoalesceTcp;
    var item := items[i - 1];
    CanCoalesceSameHeaders(Pkt(bufs[arrival.bufsIndex], offset), arrival, item, Pkt(bufs[item.bufsIndex], offset));
    var can := Answer(arrival, item, bufs, offset);
    if can != Unavailable {
      OnlyUnmergedDropped(can, arrival, item, bufs, offset);
    }
  }

  lemma CanCoalesceSameHeaders(pkt: Packet, arrival: TcpItem, item: TcpItem, target: Packet)
    requires |pkt| >= arrival.iphLen + arrival.tcphLen && |target| >= item.iphLen + item.tcphLen
    requires arrival.iphLen == item.iphLen && item.gsoSize > 0
    ensures TcpPacketsCanCoalesce(pkt, arrival, item, target) != Unavailable ==> arrival.tcphLen == item.tcphLen
  {}

  // ---- TCP ----

  lemma {:induction false} AllSegments(like: Desc, seqNum: u32, size: nat, payload: seq<byte>)
    requires like.TcpSegment? && size > 0
    ensures forall d | d in TcpSegments(like, seqNum, size, payload) :: d.TcpSegment? && d.key == like.key
    decreases |payload|
  {
    if |payload| > size {
      AllSegments(like, ToU32(seqNum + size), size, payload[size..]);
    }
  }

  /** What a successful append and a successful prepend do to the buffers. */
  lemma AppendSuccess(arrival: TcpItem, item: TcpItem, bufs: seq<Buf>, offset: nat, item': TcpItem, bufs': seq<Buf>)
    requires TcpItemFits(item, arrival, bufs, offset) && NewFits(arrival, bufs, offset)
    requires arrival.tcphLen == item.tcphLen
    requires CoalesceTcp(Append, arrival, item, bufs, offset) == (Success, item', bufs')
    requires arrival.gsoSize <= item.gsoSize
    ensures ChecksumsHold(item.numMerged, Pkt(bufs[item.bufsIndex], offset), item.iphLen, 6, arrival.key.v6)
    ensures ChecksumsHold(0, Pkt(bufs[arrival.bufsIndex], offset), item.iphLen, 6, arrival.key.v6)
    ensures item' == item.(numMerged := item.numMerged + 1, pshSet := item.pshSet || arrival.pshSet)
    ensures var own := bufs[item.bufsIndex];
            var pkt := Pkt(bufs[arrival.bufsIndex], offset);
            var hl := item.iphLen + item.tcphLen;
            var at := offset + item.iphLen + 13;
            && own.cap - offset >= |own.bytes| - offset + |pkt| - hl
            && bufs' == bufs[item.bufsIndex := own.(bytes :=
                 (if arrival.pshSet then own.bytes[at := WithPsh(own.bytes[at])] else own.bytes) + pkt[hl..])]
  {
    hide ChecksumValid, WithPsh;
  }

  lemma PrependSuccess(arrival: TcpItem, item: TcpItem, bufs: seq<Buf>, offset: nat, item': TcpItem, bufs': seq<Buf>)
    requires TcpItemFits(item, arrival, bufs, offset) && NewFits(arrival, bufs, offset)
    requires arrival.tcphLen == item.tcphLen
    requires CoalesceTcp(Prepend, arrival, item, bufs, offset) == (Success, item', bufs')
    ensures ChecksumsHold(item.numMerged, Pkt(bufs[item.bufsIndex], offset), item.iphLen, 6, arrival.key.v6)
    ensures ChecksumsHold(0, Pkt(bufs[arrival.bufsIndex], offset), item.iphLen, 6, arrival.key.v6)
    ensures item' == item.(numMerged := item.numMerged + 1, sentSeq := arrival.sentSeq,
                           gsoSize := if arrival.gsoSize > item.gsoSize then arrival.gsoSize else item.gsoSize)
    ensures var (own, other) := (bufs[item.bufsIndex], bufs[arrival.bufsIndex]);
            var hl := item.iphLen + item.tcphLen;
            && other.cap - offset >= |own.bytes| - offset + (|other.bytes| - offset) - hl
            && bufs' == bufs[arrival.bufsIndex := own][item.bufsIndex :=
                 other.(bytes := other.bytes + own.bytes[offset + hl..])]
  {
    hide ChecksumValid;
  }

  /** The arriving packet i and a table item that may take it. */
  predicate Mergeable(bufs: seq<Buf>, contents: Contents, offset: nat, i: nat, arrival: TcpItem, item: TcpItem) {
    && (forall b | 0 <= b < |bufs| :: BufOk(bufs[b], offset)) && i < |bufs| == |contents|
    && arrival.bufsIndex == i && BufOk(bufs[i], offset)
    && TcpItemOk(arrival, Pkt(bufs[i], offset)) && arrival.numMerged == 0
    && TcpHolds(item, arrival.key, bufs, contents, offset, i)
    && TcpItemFits(item, arrival, bufs, offset) && NewFits(arrival, bufs, offset)
    && arrival.tcphLen == item.tcphLen
  }

  /** The item now also stands for packet i, at one end of its segments. */
  predicate MergedInto(bufs: seq<Buf>, contents: Contents, offset: nat, i: nat, arrival: TcpItem, item: TcpItem,
                       item': TcpItem, bufs': seq<Buf>)
    requires Mergeable(bufs, contents, offset, i, arrival, item)
  {
    && item'.bufsIndex == item.bufsIndex && MergedBufs(bufs, bufs', offset, item.bufsIndex, i)
    && TcpItemInPlace(item', arrival.key, bufs', offset, i + 1)
    && TcpItemOk(item', Pkt(bufs'[item.bufsIndex], offset))
    && var now := ItemSegments(item', Pkt(bufs'[item.bufsIndex], offset));
       var d := AsSegment(Pkt(bufs[i], offset), arrival.key.v6);
       now == if Answer(arrival, item, bufs, offset) == Prepend then [d] + contents[item.bufsIndex]
              else contents[item.bufsIndex] + [d]
  }

  lemma AppendedTcpPacket(bufs: seq<Buf>, contents: Contents, offset: nat, i: nat,
                          arrival: TcpItem, item: TcpItem, item': TcpItem, bufs': seq<Buf>)
    requires Mergeable(bufs, contents, offset, i, arrival, item)
    requires TcpPacketsCanCoalesce(Pkt(bufs[i], offset), arrival, item, Pkt(bufs[item.bufsIndex], offset)) == Append
    requires CoalesceTcp(Append, arrival, item, bufs, offset) == (Success, item', bufs')
    ensures MergedInto(bufs, contents, offset, i, arrival, item, item', bufs')
  {
    hide ItemSegments, TcpPacketsCanCoalesce, CoalesceTcp, TcpShape, AsSegment, TcpItemOk, WithPsh, Appended, ChecksumsHold,
         BufOk, HeadersLen;
    var (own, other) := (bufs[item.bufsIndex], bufs[i]);
    var (target, pkt) := (Pkt(own, offset), Pkt(other, offset));
    AppendMeans(pkt, arrival, item, target);
    AppendSuccess(arrival, item, bufs, offset, item', bufs');
    var merged := bufs'[item.bufsIndex];
    AppendedBuf(own, pkt, offset, item.iphLen + item.tcphLen, item.iphLen + 13, arrival.pshSet, merged);
    AppendOk(pkt, arrival, item, target, Pkt(merged, offset), item');
  }

  lemma PrependedTcpPacket(bufs: seq<Buf>, contents: Contents, offset: nat, i: nat,
                           arrival: TcpItem, item: TcpItem, item': TcpItem, bufs': seq<Buf>)
    requires Mergeable(bufs, contents, offset, i, arrival, item)
    requires TcpPacketsCanCoalesce(Pkt(bufs[i], offset), arrival, item, Pkt(bufs[item.bufsIndex], offset)) == Prepend
    requires CoalesceTcp(Prepend, arrival, item, bufs, offset) == (Success, item', bufs')
    ensures MergedInto(bufs, contents, offset, i, arrival, item, item', bufs')
  {
    hide ItemSegments, TcpPacketsCanCoalesce, CoalesceTcp, TcpShape, AsSegment, TcpItemOk, ChecksumsHold, BufOk, HeadersLen;
    var (own, other) := (bufs[item.bufsIndex], bufs[i]);
    var (target, pkt) := (Pkt(own, offset), Pkt(other, offset));
    PrependMeans(pkt, arrival, item, target);
    PrependSuccess(arrival, item, bufs, offset, item', bufs');
    var merged := bufs'[item.bufsIndex];
    PrependedBuf(other, own, offset, item.iphLen + item.tcphLen, merged);
    PrependOk(pkt, arrival, item, target, Pkt(merged, offset), item');
  }

  /** A successful merge, seen from the packets in the buffers. */
  lemma MergedTcpPacket(bufs: seq<Buf>, contents: Contents, offset: nat, i: nat,
                        arrival: TcpItem, item: TcpItem, item': TcpItem, bufs': seq<Buf>)
    requires Mergeable(bufs, contents, offset, i, arrival, item)
    requires var can := TcpPacketsCanCoalesce(Pkt(bufs[i], offset), arrival, item, Pkt(bufs[item.bufsIndex], offset));
             && can != Unavailable
             && CoalesceTcp(can, arrival, item, bufs, offset) == (Success, item', bufs')
    ensures MergedInto(bufs, contents, offset, i, arrival, item, item', bufs')
  {
    hide MergedInto, TcpPacketsCanCoalesce, CoalesceTcp;
    if TcpPacketsCanCoalesce(Pkt(bufs[i], offset), arrival, item, Pkt(bufs[item.bufsIndex], offset)) == Append {
      AppendedTcpPacket(bufs, contents, offset, i, arrival, item, item', bufs');
    } else {
      PrependedTcpPacket(bufs, contents, offset, i, arrival, item, item', bufs');
    }
  }

  lemma AppendedBuf(own: Buf, pkt: Packet, offset: nat, hl: nat, flagsAt: nat, psh: bool, merged: Buf)
    requires BufOk(own, offset) && offset + hl <= |own.bytes| && hl <= |pkt| && flagsAt < hl
    requires own.cap - offset >= |own.bytes| - offset + |pkt| - hl
    requires var at := offset + flagsAt;
             merged == own.(bytes := (if psh then own.bytes[at := WithPsh(own.bytes[at])] else own.bytes) + pkt[hl..])
    ensures BufOk(merged, offset) && Pkt(merged, offset) == Appended(Pkt(own, offset), pkt, hl, flagsAt, psh)
  {}

  lemma PrependedBuf(other: Buf, own: Buf, offset: nat, hl: nat, merged: Buf)
    requires BufOk(other, offset) && BufOk(own, offset) && offset + hl <= |own.bytes| && offset + hl <= |other.bytes|
    requires other.cap - offset >= |own.bytes| - offset + (|other.bytes| - offset) - hl
    requires merged == other.(bytes := other.bytes + own.bytes[offset + hl..])
    ensures BufOk(merged, offset) && Pkt(merged, offset) == Pkt(other, offset) + Pkt(own, offset)[hl..]
  {}

  // ---- One round ----

  /** The empty header is the zeroed headroom. */
  lemma EmptyHeader(b: Buf, offset: nat, little: bool)
    requires BufOk(b, offset)
    ensures BufOk(WithHeader(b, offset, EMPTY, little), offset)
    ensures Pkt(WithHeader(b, offset, EMPTY, little), offset) == Pkt(b, offset)
  {
    var r := WithHeader(b, offset, EMPTY, little);
    assert Encode(EMPTY, little) == [0, 0, 0, 0, 0, 0, 0, 0, 0, 0];
    forall k | offset - HDR_LEN <= k < offset ensures r.bytes[k] == 0 {
      assert r.bytes[offset - HDR_LEN..offset][k - (offset - HDR_LEN)] == 0;
    }
  }

  lemma OwnBufferAdds(contents: Contents, i: nat, d: Desc)
    requires i < |contents| && forall b | i <= b < |contents| :: contents[b] == []
    ensures Adds(contents, contents[i := [d]], d) && PlacedAt(contents, contents[i := [d]], Spot(i, false), i, d)
  {
    AddsAt(contents, i, [d], d);
  }

  /** The state the loop carries on with, after recording the outcome. */
  function Recorded(result: GroResult, s: State, offset: nat, i: nat, little: bool): State
    requires i < |s.bufs| && HDR_LEN <= offset <= |s.bufs[i].bytes|
  {
    match result
    case Noop => s.(bufs := s.bufs[i := WithHeader(s.bufs[i], offset, EMPTY, little)], toWrite := s.toWrite + [i])
    case TableInsert => s.(toWrite := s.toWrite + [i])
    case Coalesced => s
  }

  /** A packet outside both tables is written as it is. */
  lemma NoopKeeps(s: State, contents: Contents, orig: seq<Buf>, offset: nat, gro: Flags, i: nat, little: bool)
    returns (contents': Contents)
    requires Inv(s, contents, orig, offset, gro, i) && i < |orig| && BufOk(s.bufs[i], offset)
    requires !Describe(Pkt(orig[i], offset), gro).UdpDatagram?
    ensures Inv(Recorded(Noop, s, offset, i, little), contents', orig, offset, gro, i + 1)
    ensures Adds(contents, contents', Describe(Pkt(orig[i], offset), gro))
    ensures PlacedAt(contents, contents', Spot(i, false), i, Describe(Pkt(orig[i], offset), gro))
  {
    hide TcpTableOk, UdpTableOk, Describe, Adds, PlacedAt, Owned, Plain;
    var d := Describe(Pkt(orig[i], offset), gro);
    contents' := contents[i := [d]];
    EmptyHeader(s.bufs[i], offset, little);
    var s' := Recorded(Noop, s, offset, i, little);
    PlainInv(s, contents, orig, offset, gro, i, s'.bufs[i], s', contents');
    OwnBufferAdds(contents, i, d);
  }

  lemma EarlierBuffers(s: State, contents: Contents, offset: nat, i: nat, key: TcpFlowKey)
    requires TcpTableOk(s, contents, offset, i)
    ensures forall item | item in Items(s.tcp, key) :: item.bufsIndex != i
  {
    hide TcpItemOk, ItemSegments;
    forall item | item in Items(s.tcp, key) ensures item.bufsIndex != i {
      assert TcpHolds(item, key, s.bufs, contents, offset, i);
    }
  }

  lemma ArrivalHolds(bufs: seq<Buf>, contents: Contents, offset: nat, gro: Flags, i: nat, v6: bool, arrival: TcpItem)
    requires i < |bufs| == |contents| && offset <= |bufs[i].bytes|
    requires PacketIsGroCandidate(Pkt(bufs[i], offset), gro) == if v6 then Tcp6 else Tcp4
    requires |Pkt(bufs[i], offset)| >= IpHeaderLen(v6) + 20 && ParseTcp(Pkt(bufs[i], offset), i, v6) == Some(arrival)
    requires contents[i] == [Describe(Pkt(bufs[i], offset), gro)]
    ensures arrival.bufsIndex == i && TcpHolds(arrival, arrival.key, bufs, contents, offset, i + 1)
    ensures !Describe(Pkt(bufs[i], offset), gro).UdpDatagram?
  {
    hide TcpItemOk, ItemSegments, Describe, ParseTcp, PacketIsGroCandidate, TcpShape, IpConsistent;
    var pkt := Pkt(bufs[i], offset);
    ParsedShape(pkt, gro, v6, i);
    ParsedFields(pkt, i, v6, arrival);
    NewItemOk(pkt, gro, v6, arrival);
  }

  /** A TCP packet no item took becomes an item of its own. */
  lemma TcpInsertKeeps(s: State, contents: Contents, orig: seq<Buf>, offset: nat, gro: Flags, i: nat,
                       v6: bool, arrival: TcpItem, s': State)
    returns (contents': Contents)
    requires gro.canTcp
    requires Inv(s, contents, orig, offset, gro, i) && i < |orig| && BufOk(s.bufs[i], offset)
    requires PacketIsGroCandidate(Pkt(orig[i], offset), gro) == if v6 then Tcp6 else Tcp4
    requires |Pkt(orig[i], offset)| >= IpHeaderLen(v6) + 20
    requires ParseTcp(Pkt(orig[i], offset), i, v6) == Some(arrival)
    requires s' == s.(tcp := s.tcp[arrival.key := Items(s.tcp, arrival.key) + [arrival]], toWrite := s.toWrite + [i])
    ensures Inv(s', contents', orig, offset, gro, i + 1)
    ensures Adds(contents, contents', Describe(Pkt(orig[i], offset), gro))
    ensures PlacedAt(contents, contents', Spot(i, false), i, Describe(Pkt(orig[i], offset), gro))
  {
    hide Inv, TcpHolds, Describe, Adds, PlacedAt, ParseTcp, PacketIsGroCandidate, BufOk;
    InvBufs(s, contents, orig, offset, gro, i);
    InvBufOk(s, contents, orig, offset, gro, i, i);
    var d := Describe(Pkt(orig[i], offset), gro);
    contents' := contents[i := [d]];
    ArrivalHolds(s.bufs, contents', offset, gro, i, v6, arrival);
    var mid := s.(toWrite := s.toWrite + [i]);
    assert mid.bufs == s.bufs[i := s.bufs[i]];
    PlainInv(s, contents, orig, offset, gro, i, s.bufs[i], mid, contents');
    InvEarlier(s, contents, orig, offset, gro, i, arrival.key);
    TcpInsertedInv(mid, contents', orig, offset, gro, i + 1, arrival, s');
    OwnBufferAdds(contents, i, d);
  }

  lemma InvEarlier(s: State, contents: Contents, orig: seq<Buf>, offset: nat, gro: Flags, i: nat, key: TcpFlowKey)
    requires Inv(s, contents, orig, offset, gro, i)
    ensures forall b | i <= b < |contents| :: contents[b] == []
    ensures forall item | item in Items(s.tcp, key) :: item.bufsIndex != i
  {
    hide TcpTableOk, UdpTableOk, Owned, Plain, BufOk;
    EarlierBuffers(s, contents, offset, i, key);
  }

  /** A TCP packet is merged into an item of its flow. */
  lemma TcpMergeKeeps(s: State, contents: Contents, orig: seq<Buf>, offset: nat, gro: Flags, i: nat,
                      v6: bool, arrival: TcpItem, k: nat, item': TcpItem, s': State)
    returns (contents': Contents)
    requires Inv(s, contents, orig, offset, gro, i) && i < |orig| && BufOk(s.bufs[i], offset)
    requires PacketIsGroCandidate(Pkt(orig[i], offset), gro) == if v6 then Tcp6 else Tcp4
    requires |Pkt(orig[i], offset)| >= IpHeaderLen(v6) + 20
    requires ParseTcp(Pkt(orig[i], offset), i, v6) == Some(arrival)
    requires arrival.key in s.tcp && k < |s.tcp[arrival.key]|
    requires TcpItemFits(s.tcp[arrival.key][k], arrival, s.bufs, offset) && NewFits(arrival, s.bufs, offset)
    requires var item := s.tcp[arrival.key][k];
             var can := Answer(arrival, item, s.bufs, offset);
             && can != Unavailable && arrival.tcphLen == item.tcphLen
             && CoalesceTcp(can, arrival, item, s.bufs, offset) == (Success, item', s'.bufs)
    requires s' == s.(bufs := s'.bufs, tcp := s.tcp[arrival.key := s.tcp[arrival.key][k := item']])
    ensures Inv(s', contents', orig, offset, gro, i + 1)
    ensures Adds(contents, contents', Describe(Pkt(orig[i], offset), gro))
    ensures var item := s.tcp[arrival.key][k];
            var spot := Spot(item.bufsIndex, Answer(arrival, item, s.bufs, offset) == Prepend);
            PlacedAt(contents, contents', spot, i, Describe(Pkt(orig[i], offset), gro))
  {
    hide TcpItemOk, ItemSegments, Describe, Adds, Owned, Plain, UdpTableOk, UdpHolds, ParseTcp, PacketIsGroCandidate,
         TcpPacketsCanCoalesce, CoalesceTcp, TcpShape, AsSegment;
    var item := s.tcp[arrival.key][k];
    var pkt := Pkt(orig[i], offset);
    var d := Describe(pkt, gro);
    assert item in s.tcp[arrival.key] && TcpHolds(item, arrival.key, s.bufs, contents, offset, i);
    ParsedShape(pkt, gro, v6, i);
    ParsedFields(pkt, i, v6, arrival);
    NewItemOk(pkt, gro, v6, arrival);
    MergedTcpPacket(s.bufs, contents, offset, i, arrival, item, item', s'.bufs);
    var v := ItemSegments(item', Pkt(s'.bufs[item.bufsIndex], offset));
    contents' := contents[item.bufsIndex := v];
    ItemIsSegments(item', Pkt(s'.bufs[item.bufsIndex], offset));
    ItemIsSegments(item, Pkt(s.bufs[item.bufsIndex], offset));
    TcpMergedInv(s, contents, orig, offset, gro, i, arrival.key, k, item', s', contents');
    SegmentIsTcp(pkt, v6);
    AddsAt(contents, item.bufsIndex, v, d);
  }

  lemma ItemIsSegments(item: TcpItem, pkt: Packet)
    requires TcpItemOk(item, pkt)
    ensures ItemSegments(item, pkt) != []
    ensures forall d | d in ItemSegments(item, pkt) :: d.TcpSegment? && d.key == item.key
  {
    var like := Like(pkt, item.key.v6);
    var verifies := ChecksumsHold(item.numMerged, pkt, item.iphLen, 6, item.key.v6);
    AllSegments(like.(verifies := verifies), item.sentSeq, item.gsoSize, pkt[HeadersLen(pkt, item.key.v6)..]);
  }

  lemma {:induction false} AllDatagrams(like: Desc, size: nat, payload: seq<byte>)
    requires like.UdpDatagram? && size > 0
    ensures forall d | d in UdpDatagrams(like, size, payload) :: d.UdpDatagram? && d.udpKey == like.udpKey
    decreases |payload|
  {
    if |payload| > size {
      AllDatagrams(like, size, payload[size..]);
    }
  }

  lemma ItemIsDatagrams(item: UdpItem, pkt: Packet)
    requires UdpItemOk(item, pkt)
    ensures ItemDatagrams(item, pkt) != []
    ensures forall d | d in ItemDatagrams(item, pkt) :: d.UdpDatagram? && d.udpKey == item.key
  {
    var like := UdpLike(pkt, item.key.v6);
    var verifies := ChecksumsHold(item.numMerged, pkt, item.iphLen, 17, item.key.v6);
    AllDatagrams(like.(udpVerifies := verifies), item.gsoSize, pkt[item.iphLen + UDP_HDR_LEN..]);
  }

  lemma SegmentIsTcp(pkt: Packet, v6: bool)
    requires TcpShape(pkt, v6)
    ensures AsSegment(pkt, v6).TcpSegment? && AsSegment(pkt, v6).key == TcpKey(pkt, v6)
  {}

  // ---- UDP ----

  lemma ParsedUdpFields(pkt: Packet, index: nat, v6: bool, a: UdpItem)
    requires |pkt| >= IpHeaderLen(v6) + 8 && ParseUdp(pkt, index, v6) == Some(a)
    ensures a.bufsIndex == index && a.numMerged == 0 && a.key.v6 == v6 && a.iphLen == IpHeaderLen(v6)
    ensures a.gsoSize > 0 && a.iphLen + UDP_HDR_LEN <= |pkt| && a.key == UdpKey(pkt, v6)
  {}

  lemma DatagramOfFlow(pkt: Packet, v6: bool)
    requires UdpShape(pkt, v6)
    ensures OfFlow(AsDatagram(pkt, v6), UdpKey(pkt, v6))
  {}

  /** A UDP packet the newest item did not take becomes an item of its own. */
  lemma UdpInsertKeeps(s: State, contents: Contents, orig: seq<Buf>, offset: nat, gro: Flags, i: nat,
                       v6: bool, arrival: UdpItem, s': State)
    returns (contents': Contents)
    requires gro.canUdp
    requires Inv(s, contents, orig, offset, gro, i) && i < |orig| && BufOk(s.bufs[i], offset)
    requires PacketIsGroCandidate(Pkt(orig[i], offset), gro) == if v6 then Udp6 else Udp4
    requires |Pkt(orig[i], offset)| >= IpHeaderLen(v6) + 8
    requires ParseUdp(Pkt(orig[i], offset), i, v6) == Some(arrival)
    requires s' == s.(udp := s.udp[arrival.key := Items(s.udp, arrival.key) + [arrival]], toWrite := s.toWrite + [i])
    ensures Inv(s', contents', orig, offset, gro, i + 1)
    ensures Adds(contents, contents', Describe(Pkt(orig[i], offset), gro))
    ensures PlacedAt(contents, contents', Spot(i, false), i, Describe(Pkt(orig[i], offset), gro))
  {
    hide UdpItemOk, ItemDatagrams, Describe, Adds, PlacedAt, Owned, Plain, TcpTableOk, UdpTableOk, ParseUdp,
         PacketIsGroCandidate, UdpShape, AsDatagram, OfFlow;
    var pkt := Pkt(orig[i], offset);
    var d := Describe(pkt, gro);
    contents' := contents[i := [d]];
    ParsedUdpShape(pkt, gro, v6, i);
    ParsedUdpFields(pkt, i, v6, arrival);
    DatagramOfFlow(pkt, v6);
    NewUdpItemOk(pkt, gro, v6, arrival);
    UdpInsertedInv(s, contents, orig, offset, gro, i, arrival, s', contents');
    OwnBufferAdds(contents, i, d);
  }

  lemma UdpSuccess(arrival: UdpItem, item: UdpItem, bufs: seq<Buf>, offset: nat, item': UdpItem, bufs': seq<Buf>)
    requires item.bufsIndex < |bufs| && arrival.bufsIndex < |bufs|
    requires offset + item.iphLen + UDP_HDR_LEN <= |bufs[item.bufsIndex].bytes|
    requires offset + item.iphLen + UDP_HDR_LEN <= |bufs[arrival.bufsIndex].bytes|
    requires CoalesceUdp(arrival, item, bufs, offset) == (Success, item', bufs')
    ensures ChecksumsHold(item.numMerged, Pkt(bufs[item.bufsIndex], offset), item.iphLen, 17, arrival.key.v6)
    ensures ChecksumsHold(0, Pkt(bufs[arrival.bufsIndex], offset), item.iphLen, 17, arrival.key.v6)
    ensures item' == item.(numMerged := item.numMerged + 1)
    ensures var own := bufs[item.bufsIndex];
            var pkt := Pkt(bufs[arrival.bufsIndex], offset);
            var hl := item.iphLen + UDP_HDR_LEN;
            && own.cap - offset >= |own.bytes| - offset + |pkt| - hl
            && bufs' == bufs[item.bufsIndex := own.(bytes := own.bytes + pkt[hl..])]
  {
    hide ChecksumValid;
  }

  lemma UdpAppendedBuf(own: Buf, pkt: Packet, offset: nat, hl: nat, merged: Buf)
    requires BufOk(own, offset) && offset + hl <= |own.bytes| && hl <= |pkt|
    requires own.cap - offset >= |own.bytes| - offset + |pkt| - hl
    requires merged == own.(bytes := own.bytes + pkt[hl..])
    ensures BufOk(merged, offset) && Pkt(merged, offset) == Pkt(own, offset) + pkt[hl..]
  {}

  /** A UDP packet is merged into the newest item of its flow. */
  lemma UdpMergeKeeps(s: State, contents: Contents, orig: seq<Buf>, offset: nat, gro: Flags, i: nat,
                      v6: bool, arrival: UdpItem, item: UdpItem, item': UdpItem, s': State)
    returns (contents': Contents)
    requires Inv(s, contents, orig, offset, gro, i) && i < |orig| && BufOk(s.bufs[i], offset)
    requires PacketIsGroCandidate(Pkt(orig[i], offset), gro) == if v6 then Udp6 else Udp4
    requires |Pkt(orig[i], offset)| >= IpHeaderLen(v6) + 8
    requires ParseUdp(Pkt(orig[i], offset), i, v6) == Some(arrival)
    requires arrival.key in s.udp && s.udp[arrival.key] != [] && item == s.udp[arrival.key][|s.udp[arrival.key]| - 1]
    requires UdpHolds(item, arrival.key, s.bufs, contents, offset, i)
    requires UdpPacketsCanCoalesce(Pkt(s.bufs[i], offset), arrival, item, Pkt(s.bufs[item.bufsIndex], offset)) == Append
    requires arrival.bufsIndex < |s.bufs| && offset + item.iphLen + UDP_HDR_LEN <= |s.bufs[arrival.bufsIndex].bytes|
    requires CoalesceUdp(arrival, item, s.bufs, offset) == (Success, item', s'.bufs)
    requires var items := s.udp[arrival.key];
             s' == s.(bufs := s'.bufs, udp := s.udp[arrival.key := items[|items| - 1 := item']])
    ensures Inv(s', contents', orig, offset, gro, i + 1)
    ensures Adds(contents, contents', Describe(Pkt(orig[i], offset), gro))
    ensures PlacedAt(contents, contents', Spot(item.bufsIndex, false), i, Describe(Pkt(orig[i], offset), gro))
  {
    hide UdpItemOk, ItemDatagrams, Describe, Adds, Owned, Plain, TcpTableOk, UdpTableOk, ParseUdp, PacketIsGroCandidate,
         UdpShape, AsDatagram, OfFlow, UdpPacketsCanCoalesce, CoalesceUdp;
    var pkt := Pkt(orig[i], offset);
    var d := Describe(pkt, gro);
    ParsedUdpShape(pkt, gro, v6, i);
    ParsedUdpFields(pkt, i, v6, arrival);
    DatagramOfFlow(pkt, v6);
    NewUdpItemOk(pkt, gro, v6, arrival);
    UdpSuccess(arrival, item, s.bufs, offset, item', s'.bufs);
    var b := item.bufsIndex;
    assert BufOk(s.bufs[b], offset);
    UdpAppendedBuf(s.bufs[b], pkt, offset, item.iphLen + UDP_HDR_LEN, s'.bufs[b]);
    UdpAppendOk(pkt, arrival, item, Pkt(s.bufs[b], offset), Pkt(s'.bufs[b], offset), item');
    ItemIsDatagrams(item, Pkt(s.bufs[b], offset));
    contents' := contents[b := contents[b] + [d]];
    UdpMergedInv(s, contents, orig, offset, gro, i, arrival.key, item', d, s', contents');
    NewestIsLast(s, contents, offset, i, arrival.key, b);
    OnlyItsFlow(d, arrival.key);
    AddsAt(contents, b, contents[b] + [d], d);
  }

  lemma OnlyItsFlow(d: Desc, key: UdpFlowKey)
    requires OfFlow(d, key)
    ensures forall other | OfFlow(d, other) :: other == key
  {}

  lemma NewestIsLast(s: State, contents: Contents, offset: nat, i: nat, key: UdpFlowKey, b: nat)
    requires UdpTableOk(s, contents, offset, i) && key in s.udp && s.udp[key] != []
    requires b == s.udp[key][|s.udp[key]| - 1].bufsIndex
    ensures forall later | b < later < |contents| :: Without(contents[later], key)
  {
    hide UdpHolds;
  }

  // ---- Any packet ----

  lemma PutTwice<K, V>(m: map<K, V>, k: K, a: V, b: V)
    ensures m[k := a][k := b] == m[k := b]
  {}

  /** Where TCP packet i goes: behind or in front of what the item that takes it has, or to its own buffer. */
  function TcpPlace(s: State, offset: nat, i: nat, v6: bool): Spot
    requires InPlace(s, offset, i) && i < |s.bufs|
    requires |Pkt(s.bufs[i], offset)| >= IpHeaderLen(v6) + 20
  {
    match ParseTcp(Pkt(s.bufs[i], offset), i, v6)
    case None => Spot(i, false)
    case Some(arrival) =>
      FlowFits(s, offset, i, arrival);
      match Taker(arrival, Items(s.tcp, arrival.key), s.bufs, offset)
      case None => Spot(i, false)
      case Some(item) => Spot(item.bufsIndex, Answer(arrival, item, s.bufs, offset) == Prepend)
  }

  lemma TcpGroSkips(s: State, offset: nat, i: nat, v6: bool)
    requires InPlace(s, offset, i) && i < |s.bufs| && |Pkt(s.bufs[i], offset)| >= IpHeaderLen(v6) + 20
    requires ParseTcp(Pkt(s.bufs[i], offset), i, v6).None?
    ensures TcpGro(s, offset, i, v6) == (Noop, s) && TcpPlace(s, offset, i, v6) == Spot(i, false)
  {
    hide ParseTcp, InPlace;
  }

  /** The result and the place after the walk. */
  lemma TcpGroWalks(s: State, offset: nat, i: nat, v6: bool, arrival: TcpItem)
    requires InPlace(s, offset, i) && i < |s.bufs| && |Pkt(s.bufs[i], offset)| >= IpHeaderLen(v6) + 20
    requires ParseTcp(Pkt(s.bufs[i], offset), i, v6) == Some(arrival) && NewFits(arrival, s.bufs, offset)
    requires var items := Items(s.tcp, arrival.key);
             forall j | 0 <= j < |items| :: TcpItemFits(items[j], arrival, s.bufs, offset)
    ensures var items := Items(s.tcp, arrival.key);
            var walk := Walk(arrival, items, |items|, s.bufs, offset);
            var taker := Taker(arrival, items, s.bufs, offset);
            && TcpPlace(s, offset, i, v6) == (if taker.None? then Spot(i, false)
                 else Spot(taker.value.bufsIndex, Answer(arrival, taker.value, s.bufs, offset) == Prepend))
            && var kept := s.(bufs := walk.bufs, tcp := s.tcp[arrival.key := walk.items]);
               TcpGro(s, offset, i, v6)
               == if walk.outcome == TableInsert then
                    (TableInsert, kept.(tcp := s.tcp[arrival.key := walk.items + [arrival]]))
                  else (walk.outcome, kept)
  {
    hide ParseTcp, InPlace, Walk, Taker, Answer, TcpItemFits;
  }

  /** `tcp_gro`, with its outcome recorded, keeps the invariant. */
  lemma TcpGroKeeps(s: State, contents: Contents, orig: seq<Buf>, offset: nat, gro: Flags, i: nat, little: bool,
                    v6: bool)
    returns (contents': Contents)
    requires Inv(s, contents, orig, offset, gro, i) && InPlace(s, offset, i) && i < |orig| && BufOk(s.bufs[i], offset)
    requires PacketIsGroCandidate(Pkt(orig[i], offset), gro) == if v6 then Tcp6 else Tcp4
    requires |Pkt(orig[i], offset)| >= IpHeaderLen(v6) + 20 && gro.canTcp
    ensures var (result, s') := TcpGro(s, offset, i, v6);
            && |s'.bufs| == |orig| && offset <= |s'.bufs[i].bytes|
            && Inv(Recorded(result, s', offset, i, little), contents', orig, offset, gro, i + 1)
    ensures Adds(contents, contents', Describe(Pkt(orig[i], offset), gro))
    ensures PlacedAt(contents, contents', TcpPlace(s, offset, i, v6), i, Describe(Pkt(orig[i], offset), gro))
  {
    hide Inv, Adds, PlacedAt, Describe, PacketIsGroCandidate, ParseTcp, Walk, TcpPacketsCanCoalesce, CoalesceTcp, BufOk,
         InPlace, Pruned, Encode, WithHeader, TcpShape, IpConsistent, Answer, Taker, Takes, TcpGro, TcpPlace;
    InvBufs(s, contents, orig, offset, gro, i);
    InvBufOk(s, contents, orig, offset, gro, i, i);
    var pkt := Pkt(orig[i], offset);
    ParsedShape(pkt, gro, v6, i);
    match ParseTcp(pkt, i, v6)
    case None =>
      TcpGroSkips(s, offset, i, v6);
      DescribesRaw(pkt, gro, v6, i);
      contents' := NoopKeeps(s, contents, orig, offset, gro, i, little);
    case Some(arrival) =>
      ParsedFields(pkt, i, v6, arrival);
      FlowFits(s, offset, i, arrival);
      var items := Items(s.tcp, arrival.key);
      var walk := Walk(arrival, items, |items|, s.bufs, offset);
      var kept, k := WalkIs(arrival, items, |items|, s.bufs, offset);
      assert items[..|items|] == items;
      TcpGroWalks(s, offset, i, v6, arrival);
      var pruned := s.(tcp := s.tcp[arrival.key := kept]);
      PrunedInv(s, contents, orig, offset, gro, i, arrival.key, kept, pruned);
      SegmentDescribed(pkt, gro, v6, i);
      match walk.outcome
      case Coalesced =>
        var s' := s.(bufs := walk.bufs, tcp := s.tcp[arrival.key := walk.items]);
        PutTwice(s.tcp, arrival.key, kept, walk.items);
        assert s' == pruned.(bufs := s'.bufs, tcp := pruned.tcp[arrival.key := kept[k := walk.items[k]]]);
        contents' := TcpMergeKeeps(pruned, contents, orig, offset, gro, i, v6, arrival, k, walk.items[k], s');
        InvBufOk(s', contents', orig, offset, gro, i + 1, i);
      case Noop =>
        contents' := NoopKeeps(pruned, contents, orig, offset, gro, i, little);
      case TableInsert =>
        var s' := s.(tcp := s.tcp[arrival.key := kept + [arrival]], toWrite := s.toWrite + [i]);
        PutTwice(s.tcp, arrival.key, kept, kept + [arrival]);
        assert s' == pruned.(tcp := pruned.tcp[arrival.key := Items(pruned.tcp, arrival.key) + [arrival]],
                             toWrite := pruned.toWrite + [i]);
        contents' := TcpInsertKeeps(pruned, contents, orig, offset, gro, i, v6, arrival, s');
  }

  lemma InvBufs(s: State, contents: Contents, orig: seq<Buf>, offset: nat, gro: Flags, i: nat)
    requires Inv(s, contents, orig, offset, gro, i)
    ensures |s.bufs| == |orig| == |contents| && i <= |orig|
    ensures forall b | i <= b < |orig| :: s.bufs[b] == orig[b]
  {
    hide TcpTableOk, UdpTableOk;
  }

  lemma InvBufOk(s: State, contents: Contents, orig: seq<Buf>, offset: nat, gro: Flags, n: nat, b: nat)
    requires Inv(s, contents, orig, offset, gro, n) && b < |orig|
    ensures |s.bufs| == |orig| && BufOk(s.bufs[b], offset) && offset <= |s.bufs[b].bytes|
  {
    hide TcpTableOk, UdpTableOk;
  }

  /** A candidate that is not accepted is described by itself; an accepted one is not a datagram. */
  lemma DescribesRaw(pkt: Packet, gro: Flags, v6: bool, index: nat)
    requires PacketIsGroCandidate(pkt, gro) == if v6 then Tcp6 else Tcp4
    requires ParseTcp(pkt, index, v6).None?
    ensures Describe(pkt, gro) == Raw(pkt)
  {}

  lemma SegmentDescribed(pkt: Packet, gro: Flags, v6: bool, index: nat)
    requires PacketIsGroCandidate(pkt, gro) == if v6 then Tcp6 else Tcp4
    ensures !Describe(pkt, gro).UdpDatagram? && (ParseTcp(pkt, index, v6).Some? ==> Describe(pkt, gro).TcpSegment?)
  {}

  /** The buffer that stands for UDP packet i afterwards. */
  function UdpPlace(s: State, offset: nat, i: nat, v6: bool): Spot
    requires InPlace(s, offset, i) && i < |s.bufs|
    requires |Pkt(s.bufs[i], offset)| >= IpHeaderLen(v6) + 8
  {
    if UdpGro(s, offset, i, v6).0 == Coalesced then
      var items := Items(s.udp, UdpKey(Pkt(s.bufs[i], offset), v6));
      Spot(if items == [] then i else items[|items| - 1].bufsIndex, false)
    else Spot(i, false)
  }

  function Place(s: State, offset: nat, i: nat, gro: Flags): Spot
    requires InPlace(s, offset, i) && i < |s.bufs|
  {
    match PacketIsGroCandidate(Pkt(s.bufs[i], offset), gro)
    case Tcp4 => TcpPlace(s, offset, i, false)
    case Tcp6 => TcpPlace(s, offset, i, true)
    case Udp4 => UdpPlace(s, offset, i, false)
    case Udp6 => UdpPlace(s, offset, i, true)
    case NotCandidate => Spot(i, false)
  }

  /** `udp_gro`, with its outcome recorded, keeps the invariant. */
  lemma UdpGroKeeps(s: State, contents: Contents, orig: seq<Buf>, offset: nat, gro: Flags, i: nat, little: bool,
                    v6: bool)
    returns (contents': Contents)
    requires gro.canUdp
    requires Inv(s, contents, orig, offset, gro, i) && InPlace(s, offset, i) && i < |orig| && BufOk(s.bufs[i], offset)
    requires PacketIsGroCandidate(Pkt(orig[i], offset), gro) == if v6 then Udp6 else Udp4
    requires |Pkt(orig[i], offset)| >= IpHeaderLen(v6) + 8
    ensures var (result, s') := UdpGro(s, offset, i, v6);
            && |s'.bufs| == |orig| && offset <= |s'.bufs[i].bytes|
            && Inv(Recorded(result, s', offset, i, little), contents', orig, offset, gro, i + 1)
    ensures Adds(contents, contents', Describe(Pkt(orig[i], offset), gro))
    ensures PlacedAt(contents, contents', UdpPlace(s, offset, i, v6), i, Describe(Pkt(orig[i], offset), gro))
  {
    hide Inv, Adds, PlacedAt, Describe, PacketIsGroCandidate, ParseUdp, UdpPacketsCanCoalesce, CoalesceUdp, BufOk,
         UdpItemOk,
         ItemDatagrams;
    InvBufs(s, contents, orig, offset, gro, i);
    InvBufOk(s, contents, orig, offset, gro, i, i);
    var pkt := Pkt(orig[i], offset);
    match ParseUdp(pkt, i, v6)
    case None =>
      DescribesRawUdp(pkt, gro, v6, i);
      contents' := NoopKeeps(s, contents, orig, offset, gro, i, little);
    case Some(arrival) =>
      ParsedUdpFields(pkt, i, v6, arrival);
      var items := Items(s.udp, arrival.key);
      var (result, s') := UdpGro(s, offset, i, v6);
      if result == TableInsert {
        contents' := UdpInsertKeeps(s, contents, orig, offset, gro, i, v6, arrival, s'.(toWrite := s.toWrite + [i]));
      } else {
        var item := items[|items| - 1];
        NewestHolds(s, contents, orig, offset, gro, i, arrival.key);
        var (_, item', _) := CoalesceUdp(arrival, item, s.bufs, offset);
        contents' := UdpMergeKeeps(s, contents, orig, offset, gro, i, v6, arrival, item, item', s');
        InvBufOk(s', contents', orig, offset, gro, i + 1, i);
      }
  }

  lemma NewestHolds(s: State, contents: Contents, orig: seq<Buf>, offset: nat, gro: Flags, i: nat, key: UdpFlowKey)
    requires Inv(s, contents, orig, offset, gro, i) && key in s.udp
    ensures s.udp[key] != [] && UdpHolds(s.udp[key][|s.udp[key]| - 1], key, s.bufs, contents, offset, i)
  {
    hide TcpTableOk, UdpHolds;
    assert s.udp[key][|s.udp[key]| - 1] in s.udp[key];
  }

  lemma DescribesRawUdp(pkt: Packet, gro: Flags, v6: bool, index: nat)
    requires PacketIsGroCandidate(pkt, gro) == if v6 then Udp6 else Udp4
    requires ParseUdp(pkt, index, v6).None?
    ensures Describe(pkt, gro) == Raw(pkt)
  {}

  /** Every round of the loop keeps the invariant and accounts for its packet. */
  lemma StepKeeps(s: State, contents: Contents, orig: seq<Buf>, offset: nat, gro: Flags, i: nat, little: bool)
    returns (contents': Contents)
    requires Inv(s, contents, orig, offset, gro, i) && InPlace(s, offset, i) && i < |orig|
    ensures Inv(Step(s, offset, i, gro, little), contents', orig, offset, gro, i + 1)
    ensures offset <= |orig[i].bytes| && Adds(contents, contents', Describe(Pkt(orig[i], offset), gro))
    ensures PlacedAt(contents, contents', Place(s, offset, i, gro), i, Describe(Pkt(orig[i], offset), gro))
  {
    hide Inv, Adds, PlacedAt, Describe, TcpGro, UdpGro, InPlace, TcpPlace, UdpPlace;
    InvBufs(s, contents, orig, offset, gro, i);
    InvBufOk(s, contents, orig, offset, gro, i, i);
    var pkt := Pkt(orig[i], offset);
    match PacketIsGroCandidate(pkt, gro)
    case Tcp4 => contents' := TcpGroKeeps(s, contents, orig, offset, gro, i, little, false);
    case Tcp6 => contents' := TcpGroKeeps(s, contents, orig, offset, gro, i, little, true);
    case Udp4 => contents' := UdpGroKeeps(s, contents, orig, offset, gro, i, little, false);
    case Udp6 => contents' := UdpGroKeeps(s, contents, orig, offset, gro, i, little, true);
    case NotCandidate =>
      NotCandidateIsRaw(pkt, gro);
      contents' := NoopKeeps(s, contents, orig, offset, gro, i, little);
  }

  lemma NotCandidateIsRaw(pkt: Packet, gro: Flags)
    requires PacketIsGroCandidate(pkt, gro) == NotCandidate
    ensures Describe(pkt, gro) == Raw(pkt)
  {}
}
