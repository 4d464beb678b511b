/**
 The invariant of the `handle_gro` loop: every segment seen so far is accounted for in exactly one
 buffer that will be written. `contents[b]` lists what buffer b stands for, and is empty for buffers
 that are not written.
 */
module GroInvariant {
  import opened Arith
  import opened Bytes
  import opened VirtioNet
  import opened Gro
  import opened GroItems
  import opened GroMerge

  /** Room and headroom as the batch writer prepares them: zeroed header octets, capacity for 65535. */
  predicate BufOk(b: Buf, offset: nat) {
    && HDR_LEN <= offset <= |b.bytes| <= b.cap <= offset + 0xffff
    && forall k | offset - HDR_LEN <= k < offset :: b.bytes[k] == 0
  }

  type Contents = seq<seq<Desc>>

  /** The indices below i that will be written, in order. */
  function Written(contents: Contents, i: nat): seq<nat>
    requires i <= |contents|
  {
    if i == 0 then [] else Written(contents, i - 1) + if contents[i - 1] == [] then [] else [i - 1]
  }

  predicate TcpHolds(item: TcpItem, key: TcpFlowKey, bufs: seq<Buf>, contents: Contents, offset: nat, i: nat) {
    && |contents| == |bufs|
    && TcpItemInPlace(item, key, bufs, offset, i)
    && TcpItemOk(item, Pkt(bufs[item.bufsIndex], offset))
    && contents[item.bufsIndex] == ItemSegments(item, Pkt(bufs[item.bufsIndex], offset))
  }

  predicate UdpHolds(item: UdpItem, key: UdpFlowKey, bufs: seq<Buf>, contents: Contents, offset: nat, i: nat) {
    && |contents| == |bufs|
    && UdpItemInPlace(item, key, bufs, offset, i)
    && UdpItemOk(item, Pkt(bufs[item.bufsIndex], offset))
    && contents[item.bufsIndex] == ItemDatagrams(item, Pkt(bufs[item.bufsIndex], offset))
  }

  predicate Distinct(items: seq<TcpItem>) {
    forall j, k | 0 <= j < k < |items| :: items[j].bufsIndex != items[k].bufsIndex
  }

  predicate UdpDistinct(items: seq<UdpItem>) {
    forall j, k | 0 <= j < k < |items| :: items[j].bufsIndex != items[k].bufsIndex
  }

  /** The buffer is an untouched packet and nothing else. */
  predicate Plain(b: Buf, descs: seq<Desc>, offset: nat, gro: Flags)
    requires offset <= |b.bytes|
  {
    descs == [Describe(Pkt(b, offset), gro)]
  }

  ghost predicate Owned(s: State, b: nat) {
    || (exists key, item :: key in s.tcp && item in s.tcp[key] && item.bufsIndex == b)
    || (exists key, item :: key in s.udp && item in s.udp[key] && item.bufsIndex == b)
  }

  predicate OfFlow(d: Desc, key: UdpFlowKey) {
    d.UdpDatagram? && d.udpKey == key
  }

  /** No datagram of the flow. */
  predicate Without(descs: seq<Desc>, key: UdpFlowKey) {
    forall d | d in descs :: !OfFlow(d, key)
  }

  ghost predicate TcpTableOk(s: State, contents: Contents, offset: nat, i: nat) {
    forall key | key in s.tcp ::
      && Distinct(s.tcp[key])
      && forall item | item in s.tcp[key] :: TcpHolds(item, key, s.bufs, contents, offset, i)
  }

  /** No buffer behind the newest item of a flow holds a datagram of it. */
  ghost predicate UdpNewest(udp: UdpTable, contents: Contents) {
    forall key, b | key in udp && udp[key] != [] && udp[key][|udp[key]| - 1].bufsIndex < b < |contents| ::
      Without(contents[b], key)
  }

  ghost predicate UdpTableOk(s: State, contents: Contents, offset: nat, i: nat) {
    && UdpNewest(s.udp, contents)
    && forall key | key in s.udp ::
         && s.udp[key] != [] && UdpDistinct(s.udp[key])
         && forall item | item in s.udp[key] :: UdpHolds(item, key, s.bufs, contents, offset, i)
  }

  ghost predicate Inv(s: State, contents: Contents, orig: seq<Buf>, offset: nat, gro: Flags, i: nat) {
    && i <= |orig| == |s.bufs| == |contents|
    && (forall b | 0 <= b < |s.bufs| :: BufOk(s.bufs[b], offset))
    && (forall b | i <= b < |s.bufs| :: s.bufs[b] == orig[b] && contents[b] == [])
    && s.toWrite == Written(contents, i)
    && (gro.canTcp || s.tcp == map[]) && (gro.canUdp || s.udp == map[])
    && TcpTableOk(s, contents, offset, i)
    && UdpTableOk(s, contents, offset, i)
    && forall b | 0 <= b < |s.bufs| && contents[b] != [] && !Plain(s.bufs[b], contents[b], offset, gro) :: Owned(s, b)
  }

  /** The invariant includes what the step needs not to panic. */
  lemma InvInPlace(s: State, contents: Contents, orig: seq<Buf>, offset: nat, gro: Flags, i: nat)
    requires Inv(s, contents, orig, offset, gro, i) && HDR_LEN <= offset
    ensures InPlace(s, offset, i)
  {
    hide TcpItemOk, UdpItemOk, ItemSegments, ItemDatagrams;
    forall key, k | key in s.tcp && 0 <= k < |s.tcp[key]|
      ensures TcpItemInPlace(s.tcp[key][k], key, s.bufs, offset, i)
    {
      assert s.tcp[key][k] in s.tcp[key];
      assert TcpHolds(s.tcp[key][k], key, s.bufs, contents, offset, i);
    }
    forall key, k | key in s.udp && 0 <= k < |s.udp[key]|
      ensures UdpItemInPlace(s.udp[key][k], key, s.bufs, offset, i)
    {
      assert s.udp[key][k] in s.udp[key];
      assert UdpHolds(s.udp[key][k], key, s.bufs, contents, offset, i);
    }
    assert forall b | 0 <= b < |s.bufs| :: BufOk(s.bufs[b], offset);
  }

  lemma InvStart(orig: seq<Buf>, offset: nat, gro: Flags)
    requires forall b | 0 <= b < |orig| :: BufOk(orig[b], offset)
    ensures Inv(State(orig, map[], map[], []), seq(|orig|, b => []), orig, offset, gro, 0)
  {}

  // ---- A buffer belongs to one flow ----

  lemma OneTcpFlow(a: TcpItem, b: TcpItem, pkt: Packet)
    requires TcpItemOk(a, pkt) && TcpItemOk(b, pkt)
    ensures a.key == b.key
  {}

  lemma OneUdpFlow(a: UdpItem, b: UdpItem, pkt: Packet)
    requires UdpItemOk(a, pkt) && UdpItemOk(b, pkt)
    ensures a.key == b.key
  {}

  lemma NotBothProtocols(a: TcpItem, b: UdpItem, pkt: Packet)
    requires TcpItemOk(a, pkt)
    ensures !UdpItemOk(b, pkt)
  {}

  // ---- Frames: what stays true of items whose buffer is not touched ----

  /** Later buffers and contents agree with earlier ones at b. */
  predicate SameAt(bufs: seq<Buf>, contents: Contents, bufs': seq<Buf>, contents': Contents, b: nat) {
    && |bufs| == |contents| == |bufs'| == |contents'|
    && b < |bufs| && bufs'[b] == bufs[b] && contents'[b] == contents[b]
  }

  lemma WrittenFrame(contents: Contents, contents': Contents, i: nat)
    requires i <= |contents| == |contents'|
    requires forall b | 0 <= b < i :: contents[b] == [] <==> contents'[b] == []
    ensures Written(contents, i) == Written(contents', i)
  {}

  // ---- The three kinds of steps ----

  /**
   A packet that gets a buffer of its own: inserted into a table or written as it is. Items of one
   flow may have been dropped from the TCP table, if they were unmerged.
   */
  predicate Pruned(items: seq<TcpItem>, kept: seq<TcpItem>) {
    && (forall item | item in kept :: item in items)
    && (forall item | item in items :: item in kept || item.numMerged == 0)
    && (Distinct(items) ==> Distinct(kept))
  }

  lemma PrunedInv(s: State, contents: Contents, orig: seq<Buf>, offset: nat, gro: Flags, i: nat,
                  key: TcpFlowKey, kept: seq<TcpItem>, s': State)
    requires Inv(s, contents, orig, offset, gro, i) && gro.canTcp
    requires Pruned(Items(s.tcp, key), kept) && s' == s.(tcp := s.tcp[key := kept])
    ensures Inv(s', contents, orig, offset, gro, i)
  {
    hide TcpItemOk, UdpItemOk, ItemSegments, ItemDatagrams, TcpItemInPlace, UdpItemInPlace, Describe, Written;
    assert forall b | 0 <= b < |s.bufs| :: BufOk(s.bufs[b], offset);
    forall b | 0 <= b < |s.bufs| && contents[b] != [] && !Plain(s'.bufs[b], contents[b], offset, gro)
      ensures Owned(s', b)
    {
      assert Owned(s, b);
      if k, item :| k in s.tcp && item in s.tcp[k] && item.bufsIndex == b {
        assert TcpHolds(item, k, s.bufs, contents, offset, i);
        if item.numMerged == 0 {
          UnmergedItem(item, Pkt(s.bufs[b], offset), gro);
        }
        assert k in s'.tcp && item in s'.tcp[k];
      } else {
        var k, item :| k in s.udp && item in s.udp[k] && item.bufsIndex == b;
        assert k in s'.udp && item in s'.udp[k];
      }
    }
  }

  lemma WrittenOneMore(contents: Contents, i: nat, descs: seq<Desc>)
    requires i < |contents| && descs != []
    ensures Written(contents[i := descs], i + 1) == Written(contents, i) + [i]
  {
    WrittenFrame(contents, contents[i := descs], i);
  }

  /** An item whose buffer is untouched still holds it. */
  lemma TcpFrame(s: State, contents: Contents, offset: nat, i: nat, bufs': seq<Buf>, contents': Contents,
                 key: TcpFlowKey, item: TcpItem)
    requires TcpHolds(item, key, s.bufs, contents, offset, i)
    requires SameAt(s.bufs, contents, bufs', contents', item.bufsIndex)
    ensures TcpHolds(item, key, bufs', contents', offset, i + 1)
  {
    hide TcpItemOk, ItemSegments;
  }

  lemma UdpFrame(s: State, contents: Contents, offset: nat, i: nat, bufs': seq<Buf>, contents': Contents,
                 key: UdpFlowKey, item: UdpItem)
    requires UdpHolds(item, key, s.bufs, contents, offset, i)
    requires SameAt(s.bufs, contents, bufs', contents', item.bufsIndex)
    ensures UdpHolds(item, key, bufs', contents', offset, i + 1)
  {
    hide UdpItemOk, ItemDatagrams;
  }

  /** Buffers and contents from i on are new, those before are as they were. */
  predicate SameBefore(s: State, contents: Contents, s': State, contents': Contents, i: nat) {
    && |s.bufs| == |contents| == |s'.bufs| == |contents'|
    && forall b | 0 <= b < |s.bufs| && b != i :: s'.bufs[b] == s.bufs[b] && contents'[b] == contents[b]
  }

  lemma TcpTableFrame(s: State, contents: Contents, offset: nat, i: nat, s': State, contents': Contents)
    requires TcpTableOk(s, contents, offset, i) && s'.tcp == s.tcp && SameBefore(s, contents, s', contents', i)
    ensures TcpTableOk(s', contents', offset, i + 1)
  {
    hide TcpItemOk, ItemSegments;
    forall key, item | key in s.tcp && item in s.tcp[key]
      ensures TcpHolds(item, key, s'.bufs, contents', offset, i + 1)
    {
      TcpFrame(s, contents, offset, i, s'.bufs, contents', key, item);
    }
  }

  lemma UdpTableFrame(s: State, contents: Contents, offset: nat, i: nat, s': State, contents': Contents)
    requires UdpTableOk(s, contents, offset, i) && s'.udp == s.udp && SameBefore(s, contents, s', contents', i)
    requires i < |contents'| && forall key | key in s.udp :: Without(contents'[i], key)
    ensures UdpTableOk(s', contents', offset, i + 1)
  {
    hide UdpHolds, Without;
    forall key, item | key in s.udp && item in s.udp[key]
      ensures UdpHolds(item, key, s'.bufs, contents', offset, i + 1)
    {
      UdpHoldsFrameOne(s, contents, offset, i, s', contents', key, item);
    }
  }

  lemma UdpHoldsFrameOne(s: State, contents: Contents, offset: nat, i: nat, s': State, contents': Contents,
                         key: UdpFlowKey, item: UdpItem)
    requires UdpTableOk(s, contents, offset, i) && SameBefore(s, contents, s', contents', i)
    requires key in s.udp && item in s.udp[key]
    ensures UdpHolds(item, key, s'.bufs, contents', offset, i + 1) && item.bufsIndex != i
  {
    hide UdpItemOk, ItemDatagrams, Without;
    assert UdpHolds(item, key, s.bufs, contents, offset, i);
    UdpFrame(s, contents, offset, i, s'.bufs, contents', key, item);
  }

  /** Packet i goes out by itself, possibly with its header octets rewritten. */
  lemma PlainInv(s: State, contents: Contents, orig: seq<Buf>, offset: nat, gro: Flags, i: nat, b: Buf,
                 s': State, contents': Contents)
    requires Inv(s, contents, orig, offset, gro, i) && i < |orig|
    requires BufOk(b, offset) && Pkt(b, offset) == Pkt(orig[i], offset)
    requires contents' == contents[i := [Describe(Pkt(orig[i], offset), gro)]]
    requires s' == s.(bufs := s.bufs[i := b], toWrite := s.toWrite + [i])
    requires !Describe(Pkt(orig[i], offset), gro).UdpDatagram?
    ensures Inv(s', contents', orig, offset, gro, i + 1)
  {
    hide TcpTableOk, UdpTableOk, Describe, Written, BufOk, Owned;
    WrittenOneMore(contents, i, contents'[i]);
    TcpTableFrame(s, contents, offset, i, s', contents');
    UdpTableFrame(s, contents, offset, i, s', contents');
    OwnedKept(s, s');
    PlainKept(s, contents, orig, offset, gro, i, s', contents', i);
  }

  /** Ownership depends on the tables only. */
  lemma OwnedKept(s: State, s': State)
    requires s'.tcp == s.tcp && s'.udp == s.udp
    ensures forall b | Owned(s, b) :: Owned(s', b)
  {}

  lemma PlainKept(s: State, contents: Contents, orig: seq<Buf>, offset: nat, gro: Flags, i: nat,
                  s': State, contents': Contents, changed: nat)
    requires Inv(s, contents, orig, offset, gro, i)
    requires |s'.bufs| == |contents'| == |s.bufs| && forall b | 0 <= b < |s.bufs| :: BufOk(s'.bufs[b], offset)
    requires forall b | 0 <= b < |s.bufs| && b != changed :: s'.bufs[b] == s.bufs[b] && contents'[b] == contents[b]
    requires forall b | Owned(s, b) :: Owned(s', b)
    ensures forall b | 0 <= b < |s.bufs| && b != changed && contents'[b] != []
                       && !Plain(s'.bufs[b], contents'[b], offset, gro) :: Owned(s', b)
  {
    hide TcpTableOk, UdpTableOk, Describe, Owned;
  }

  /** The packet just given a buffer becomes the newest item of its TCP flow. */
  lemma TcpInsertedInv(s: State, contents: Contents, orig: seq<Buf>, offset: nat, gro: Flags, n: nat,
                       arrival: TcpItem, s': State)
    requires Inv(s, contents, orig, offset, gro, n) && gro.canTcp
    requires TcpHolds(arrival, arrival.key, s.bufs, contents, offset, n)
    requires forall item | item in Items(s.tcp, arrival.key) :: item.bufsIndex != arrival.bufsIndex
    requires s' == s.(tcp := s.tcp[arrival.key := Items(s.tcp, arrival.key) + [arrival]])
    ensures Inv(s', contents, orig, offset, gro, n)
  {
    hide TcpHolds, UdpHolds, Describe, Written, BufOk;
    forall b | Owned(s, b) ensures Owned(s', b) {
      if key, item :| key in s.tcp && item in s.tcp[key] && item.bufsIndex == b {
        assert key in s'.tcp && item in s'.tcp[key];
      } else {
        var key, item :| key in s.udp && item in s.udp[key] && item.bufsIndex == b;
        assert key in s'.udp && item in s'.udp[key];
      }
    }
    var items := s'.tcp[arrival.key];
    assert forall j | 0 <= j < |items| - 1 :: items[j] in Items(s.tcp, arrival.key);
  }

  /** Packet i becomes the newest item of its UDP flow. */
  lemma UdpInsertedInv(s: State, contents: Contents, orig: seq<Buf>, offset: nat, gro: Flags, i: nat,
                       arrival: UdpItem, s': State, contents': Contents)
    requires Inv(s, contents, orig, offset, gro, i) && i < |orig| && arrival.bufsIndex == i && gro.canUdp
    requires UdpHolds(arrival, arrival.key, s.bufs, contents', offset, i + 1)
    requires contents' == contents[i := [Describe(Pkt(orig[i], offset), gro)]]
    requires OfFlow(Describe(Pkt(orig[i], offset), gro), arrival.key)
    requires s' == s.(udp := s.udp[arrival.key := Items(s.udp, arrival.key) + [arrival]], toWrite := s.toWrite + [i])
    ensures Inv(s', contents', orig, offset, gro, i + 1)
  {
    hide TcpTableOk, UdpTableOk, Describe, Written, BufOk, Owned, UdpHolds;
    WrittenOneMore(contents, i, contents'[i]);
    TcpTableFrame(s, contents, offset, i, s', contents');
    UdpInsertedTable(s, contents, offset, i, arrival, s', contents');
    assert forall item | item in Items(s.udp, arrival.key) :: item in s'.udp[arrival.key];
    UdpGrows(s, s', arrival.key);
    PlainKept(s, contents, orig, offset, gro, i, s', contents', i);
  }

  lemma UdpInsertedTable(s: State, contents: Contents, offset: nat, i: nat, arrival: UdpItem,
                         s': State, contents': Contents)
    requires UdpTableOk(s, contents, offset, i) && i < |contents| == |s.bufs| == |contents'| && arrival.bufsIndex == i
    requires forall b | i <= b < |contents| :: contents[b] == []
    requires UdpHolds(arrival, arrival.key, s.bufs, contents', offset, i + 1)
    requires contents' == contents[i := contents'[i]] && |contents'[i]| == 1 && OfFlow(contents'[i][0], arrival.key)
    requires s'.bufs == s.bufs && s'.udp == s.udp[arrival.key := Items(s.udp, arrival.key) + [arrival]]
    ensures UdpTableOk(s', contents', offset, i + 1)
  {
    hide UdpHolds, UdpNewest;
    var items := s'.udp[arrival.key];
    forall j | 0 <= j < |items| - 1 ensures items[j].bufsIndex != i {
      assert items[j] in Items(s.udp, arrival.key);
      UdpHoldsFrameOne(s, contents, offset, i, s', contents', arrival.key, items[j]);
    }
    UdpInsertedWithout(s.udp, contents, i, arrival.key, items, contents');
    assert s'.udp == s.udp[arrival.key := items];
    forall key | key in s'.udp ensures s'.udp[key] != [] && UdpDistinct(s'.udp[key]) {
      assert key != arrival.key ==> key in s.udp;
    }
    forall key, item | key in s'.udp && item in s'.udp[key]
      ensures UdpHolds(item, key, s'.bufs, contents', offset, i + 1)
    {
      if key == arrival.key && item == arrival {
        assert UdpHolds(arrival, arrival.key, s.bufs, contents', offset, i + 1);
      } else {
        assert key in s.udp && item in s.udp[key];
        UdpHoldsFrameOne(s, contents, offset, i, s', contents', key, item);
      }
    }
  }

  lemma UdpInsertedWithout(udp: UdpTable, contents: Contents, i: nat, key: UdpFlowKey, items: seq<UdpItem>,
                           contents': Contents)
    requires |contents| == |contents'| && i < |contents| && items != [] && items[|items| - 1].bufsIndex == i
    requires forall b | i <= b < |contents| :: contents[b] == []
    requires UdpNewest(udp, contents)
    requires contents' == contents[i := contents'[i]] && |contents'[i]| == 1 && OfFlow(contents'[i][0], key)
    ensures UdpNewest(udp[key := items], contents')
  {}

  /** Adding to a flow keeps every buffer owned. */
  lemma UdpGrows(s: State, s': State, key: UdpFlowKey)
    requires s'.tcp == s.tcp && key in s'.udp && s'.udp == s.udp[key := s'.udp[key]]
    requires forall item | item in Items(s.udp, key) ::
               exists item' :: item' in s'.udp[key] && item'.bufsIndex == item.bufsIndex
    ensures forall b | Owned(s, b) :: Owned(s', b)
  {
    forall b | Owned(s, b) ensures Owned(s', b) {
      if k, item :| k in s.tcp && item in s.tcp[k] && item.bufsIndex == b {
        assert k in s'.tcp && item in s'.tcp[k];
      } else {
        var k, item :| k in s.udp && item in s.udp[k] && item.bufsIndex == b;
        if k == key {
          var item' :| item' in s'.udp[key] && item'.bufsIndex == item.bufsIndex;
        } else {
          assert k in s'.udp && item in s'.udp[k];
        }
      }
    }
  }

  lemma TcpGrows(s: State, s': State, key: TcpFlowKey)
    requires s'.udp == s.udp && key in s'.tcp && s'.tcp == s.tcp[key := s'.tcp[key]]
    requires forall item | item in Items(s.tcp, key) ::
               exists item' :: item' in s'.tcp[key] && item'.bufsIndex == item.bufsIndex
    ensures forall b | Owned(s, b) :: Owned(s', b)
  {
    forall b | Owned(s, b) ensures Owned(s', b) {
      if k, item :| k in s.tcp && item in s.tcp[k] && item.bufsIndex == b {
        if k == key {
          var item' :| item' in s'.tcp[key] && item'.bufsIndex == item.bufsIndex;
        } else {
          assert k in s'.tcp && item in s'.tcp[k];
        }
      } else {
        var k, item :| k in s.udp && item in s.udp[k] && item.bufsIndex == b;
        assert k in s'.udp && item in s'.udp[k];
      }
    }
  }

  /** The buffers of a merge: only the item's and the packet's own are touched. */
  predicate MergedBufs(bufs: seq<Buf>, bufs': seq<Buf>, offset: nat, target: nat, i: nat) {
    && |bufs| == |bufs'|
    && (forall b | 0 <= b < |bufs'| :: BufOk(bufs'[b], offset))
    && forall b | 0 <= b < |bufs| && b != target && b != i :: bufs'[b] == bufs[b]
  }

  /** Packet i is merged into item k of its TCP flow. */
  lemma TcpMergedInv(s: State, contents: Contents, orig: seq<Buf>, offset: nat, gro: Flags, i: nat,
                     key: TcpFlowKey, k: nat, item': TcpItem, s': State, contents': Contents)
    requires Inv(s, contents, orig, offset, gro, i) && i < |orig| && key in s.tcp && k < |s.tcp[key]|
    requires item'.bufsIndex == s.tcp[key][k].bufsIndex
    requires MergedBufs(s.bufs, s'.bufs, offset, item'.bufsIndex, i)
    requires item'.bufsIndex < |contents| == |contents'|
    requires contents' == contents[item'.bufsIndex := contents'[item'.bufsIndex]]
    requires TcpHolds(item', key, s'.bufs, contents', offset, i + 1)
    requires contents'[item'.bufsIndex] != [] && forall d | d in contents'[item'.bufsIndex] :: d.TcpSegment?
    requires s' == s.(bufs := s'.bufs, tcp := s.tcp[key := s.tcp[key][k := item']])
    ensures Inv(s', contents', orig, offset, gro, i + 1)
  {
    hide TcpHolds, TcpTableOk, UdpTableOk, UdpHolds, ItemSegments, Describe, Written, BufOk, Owned, Plain;
    var target := item'.bufsIndex;
    var item := s.tcp[key][k];
    HeldTcp(s, contents, offset, i, key, k);
    WrittenFrame(contents, contents', i);
    WrittenSkip(contents', i);
    TcpMergedTable(s, contents, offset, i, key, k, item', s', contents');
    UdpBesideTcp(s, contents, offset, i, key, item, s', contents');
    SameIndices(s.tcp[key], k, item');
    TcpGrows(s, s', key);
    MergedPlain(s, contents, orig, offset, gro, i, s', contents', target);
    OwnsTcp(s', key, item');
  }

  lemma HeldTcp(s: State, contents: Contents, offset: nat, i: nat, key: TcpFlowKey, k: nat)
    requires TcpTableOk(s, contents, offset, i) && key in s.tcp && k < |s.tcp[key]|
    ensures TcpHolds(s.tcp[key][k], key, s.bufs, contents, offset, i)
    ensures s.tcp[key][k].bufsIndex < i && s.tcp[key][k].bufsIndex < |contents|
    ensures contents[s.tcp[key][k].bufsIndex] != []
  {
    hide TcpItemOk, ItemSegments;
    var item := s.tcp[key][k];
    assert item in s.tcp[key];
    NonEmptyItem(item, Pkt(s.bufs[item.bufsIndex], offset));
  }

  lemma SameIndices(items: seq<TcpItem>, k: nat, item': TcpItem)
    requires k < |items| && item'.bufsIndex == items[k].bufsIndex
    ensures item' in items[k := item']
    ensures forall was | was in items :: exists now :: now in items[k := item'] && now.bufsIndex == was.bufsIndex
  {
    var items' := items[k := item'];
    assert items'[k] in items';
    forall was | was in items ensures exists now :: now in items' && now.bufsIndex == was.bufsIndex {
      var j :| 0 <= j < |items| && items[j] == was;
      assert items'[j] in items';
    }
  }

  lemma OwnsTcp(s: State, key: TcpFlowKey, item: TcpItem)
    requires key in s.tcp && item in s.tcp[key]
    ensures Owned(s, item.bufsIndex)
  {}

  lemma TcpMergedTable(s: State, contents: Contents, offset: nat, i: nat, key: TcpFlowKey, k: nat, item': TcpItem,
                       s': State, contents': Contents)
    requires TcpTableOk(s, contents, offset, i) && key in s.tcp && k < |s.tcp[key]|
    requires SameButMerged(s, contents, s', contents', s.tcp[key][k].bufsIndex, i)
    requires item'.bufsIndex == s.tcp[key][k].bufsIndex && TcpHolds(item', key, s'.bufs, contents', offset, i + 1)
    requires s'.tcp == s.tcp[key := s.tcp[key][k := item']]
    ensures TcpTableOk(s', contents', offset, i + 1)
  {
    hide TcpHolds;
    TcpOthersHold(s, contents, offset, i, key, k, s', contents');
  }

  /** Items other than the merged one live in other buffers. */
  lemma TcpOthersHold(s: State, contents: Contents, offset: nat, i: nat, key: TcpFlowKey, k: nat,
                      s': State, contents': Contents)
    requires TcpTableOk(s, contents, offset, i) && key in s.tcp && k < |s.tcp[key]|
    requires SameButMerged(s, contents, s', contents', s.tcp[key][k].bufsIndex, i)
    ensures forall key', j | key' in s.tcp && 0 <= j < |s.tcp[key']| && (key' != key || j != k) ::
              TcpHolds(s.tcp[key'][j], key', s'.bufs, contents', offset, i + 1)
  {
    hide TcpItemOk, ItemSegments;
    var item := s.tcp[key][k];
    assert item in s.tcp[key] && TcpHolds(item, key, s.bufs, contents, offset, i);
    forall key', j | key' in s.tcp && 0 <= j < |s.tcp[key']| && (key' != key || j != k)
      ensures TcpHolds(s.tcp[key'][j], key', s'.bufs, contents', offset, i + 1)
    {
      var other := s.tcp[key'][j];
      assert other in s.tcp[key'] && TcpHolds(other, key', s.bufs, contents, offset, i);
      if other.bufsIndex == item.bufsIndex {
        OneTcpFlow(other, item, Pkt(s.bufs[item.bufsIndex], offset));
      }
      TcpFrame(s, contents, offset, i, s'.bufs, contents', key', other);
    }
  }

  /** All buffers but the item's and the packet's own, and all contents but the item's, are unchanged. */
  predicate SameButMerged(s: State, contents: Contents, s': State, contents': Contents, target: nat, i: nat) {
    && |s.bufs| == |contents| == |s'.bufs| == |contents'|
    && (forall b | 0 <= b < |s.bufs| && b != target && b != i :: s'.bufs[b] == s.bufs[b])
    && forall b | 0 <= b < |s.bufs| && b != target :: contents'[b] == contents[b]
  }

  /** UDP items live in other buffers than a TCP item. */
  lemma UdpBesideTcp(s: State, contents: Contents, offset: nat, i: nat, key: TcpFlowKey, item: TcpItem,
                     s': State, contents': Contents)
    requires UdpTableOk(s, contents, offset, i) && TcpHolds(item, key, s.bufs, contents, offset, i)
    requires SameButMerged(s, contents, s', contents', item.bufsIndex, i) && s'.udp == s.udp
    requires forall d | d in contents'[item.bufsIndex] :: d.TcpSegment?
    ensures UdpTableOk(s', contents', offset, i + 1)
  {
    hide TcpItemOk, UdpItemOk, ItemSegments, ItemDatagrams;
    forall key', other | key' in s.udp && other in s.udp[key']
      ensures UdpHolds(other, key', s'.bufs, contents', offset, i + 1)
    {
      assert UdpHolds(other, key', s.bufs, contents, offset, i);
      if other.bufsIndex == item.bufsIndex {
        NotBothProtocols(item, other, Pkt(s.bufs[item.bufsIndex], offset));
      }
      UdpFrame(s, contents, offset, i, s'.bufs, contents', key', other);
    }
    hide UdpHolds;
  }

  lemma NonEmptyItem(item: TcpItem, pkt: Packet)
    requires TcpItemOk(item, pkt)
    ensures ItemSegments(item, pkt) != []
  {}

  lemma WrittenSkip(contents: Contents, i: nat)
    requires i < |contents| && contents[i] == []
    ensures Written(contents, i + 1) == Written(contents, i)
  {}

  /** Buffers that are neither the target nor the packet's own stay plain or owned. */
  lemma MergedPlain(s: State, contents: Contents, orig: seq<Buf>, offset: nat, gro: Flags, i: nat,
                    s': State, contents': Contents, target: nat)
    requires Inv(s, contents, orig, offset, gro, i) && i < |orig|
    requires MergedBufs(s.bufs, s'.bufs, offset, target, i) && target < |contents|
    requires |contents'| == |contents| && contents' == contents[target := contents'[target]] && contents[i] == []
    requires target != i
    requires forall b | Owned(s, b) :: Owned(s', b)
    ensures forall b | 0 <= b < |s'.bufs| && b != target && contents'[b] != []
                       && !Plain(s'.bufs[b], contents'[b], offset, gro) :: Owned(s', b)
  {
    hide TcpTableOk, UdpTableOk, Describe, Owned;
  }

  /** Packet i is merged into the newest item of its UDP flow. */
  lemma UdpMergedInv(s: State, contents: Contents, orig: seq<Buf>, offset: nat, gro: Flags, i: nat,
                     key: UdpFlowKey, item': UdpItem, d: Desc, s': State, contents': Contents)
    requires Inv(s, contents, orig, offset, gro, i) && i < |orig| && key in s.udp
    requires item'.bufsIndex == s.udp[key][|s.udp[key]| - 1].bufsIndex
    requires MergedBufs(s.bufs, s'.bufs, offset, item'.bufsIndex, i) && s'.bufs[i] == s.bufs[i]
    requires item'.bufsIndex < |contents|
    requires contents' == contents[item'.bufsIndex := contents[item'.bufsIndex] + [d]] && OfFlow(d, key)
    requires UdpHolds(item', key, s'.bufs, contents', offset, i + 1)
    requires s' == s.(bufs := s'.bufs, udp := s.udp[key := s.udp[key][|s.udp[key]| - 1 := item']])
    ensures Inv(s', contents', orig, offset, gro, i + 1)
  {
    hide TcpHolds, TcpTableOk, UdpTableOk, UdpHolds, ItemDatagrams, Describe, Written, BufOk, Owned, Plain;
    var target := item'.bufsIndex;
    HeldUdp(s, contents, offset, i, key);
    var item := s.udp[key][|s.udp[key]| - 1];
    WrittenFrame(contents, contents', i);
    WrittenSkip(contents', i);
    UdpMergedTable(s, contents, offset, i, key, item', d, s', contents');
    TcpBesideUdp(s, contents, offset, i, key, item, s', contents');
    SameUdpIndices(s.udp[key], item');
    UdpGrows(s, s', key);
    MergedPlain(s, contents, orig, offset, gro, i, s', contents', target);
    OwnsUdp(s', key, item');
  }

  lemma HeldUdp(s: State, contents: Contents, offset: nat, i: nat, key: UdpFlowKey)
    requires UdpTableOk(s, contents, offset, i) && key in s.udp
    ensures s.udp[key] != []
    ensures var item := s.udp[key][|s.udp[key]| - 1];
            && UdpHolds(item, key, s.bufs, contents, offset, i)
            && item.bufsIndex < i && item.bufsIndex < |contents| && contents[item.bufsIndex] != []
  {
    hide UdpItemOk, ItemDatagrams, UdpNewest;
    var item := s.udp[key][|s.udp[key]| - 1];
    assert item in s.udp[key];
    NonEmptyUdpItem(item, Pkt(s.bufs[item.bufsIndex], offset));
  }

  lemma SameUdpIndices(items: seq<UdpItem>, item': UdpItem)
    requires items != [] && item'.bufsIndex == items[|items| - 1].bufsIndex
    ensures forall was | was in items ::
              exists now :: now in items[|items| - 1 := item'] && now.bufsIndex == was.bufsIndex
  {
    var items' := items[|items| - 1 := item'];
    forall was | was in items ensures exists now :: now in items' && now.bufsIndex == was.bufsIndex {
      var j :| 0 <= j < |items| && items[j] == was;
      assert items'[j] in items';
    }
  }

  lemma OwnsUdp(s: State, key: UdpFlowKey, item: UdpItem)
    requires key in s.udp && s.udp[key] != [] && s.udp[key][|s.udp[key]| - 1] == item
    ensures Owned(s, item.bufsIndex)
  {
    assert item in s.udp[key];
  }

  lemma NonEmptyUdpItem(item: UdpItem, pkt: Packet)
    requires UdpItemOk(item, pkt)
    ensures ItemDatagrams(item, pkt) != []
  {}

  lemma UdpMergedTable(s: State, contents: Contents, offset: nat, i: nat, key: UdpFlowKey, item': UdpItem, d: Desc,
                       s': State, contents': Contents)
    requires UdpTableOk(s, contents, offset, i) && key in s.udp
    requires item'.bufsIndex == s.udp[key][|s.udp[key]| - 1].bufsIndex < |contents| == |s.bufs| == |s'.bufs|
    requires forall b | 0 <= b < |s.bufs| && b != item'.bufsIndex :: s'.bufs[b] == s.bufs[b]
    requires contents' == contents[item'.bufsIndex := contents[item'.bufsIndex] + [d]] && OfFlow(d, key)
    requires UdpHolds(item', key, s'.bufs, contents', offset, i + 1)
    requires s'.udp == s.udp[key := s.udp[key][|s.udp[key]| - 1 := item']]
    ensures UdpTableOk(s', contents', offset, i + 1)
  {
    hide UdpHolds, UdpNewest;
    UdpOthersHold(s, contents, offset, i, key, item'.bufsIndex, s', contents');
    UdpNewestStays(s.udp, contents, key, item', d, s'.udp, contents');
  }

  /** The newest item took the datagram: still nothing of its flow is behind it. */
  lemma UdpNewestStays(udp: UdpTable, contents: Contents, key: UdpFlowKey, item': UdpItem, d: Desc,
                       udp': UdpTable, contents': Contents)
    requires UdpNewest(udp, contents) && key in udp && udp[key] != [] && OfFlow(d, key)
    requires item'.bufsIndex == udp[key][|udp[key]| - 1].bufsIndex < |contents|
    requires contents' == contents[item'.bufsIndex := contents[item'.bufsIndex] + [d]]
    requires udp' == udp[key := udp[key][|udp[key]| - 1 := item']]
    ensures UdpNewest(udp', contents')
  {}

  /** Items other than the newest of the flow live in other buffers. */
  lemma UdpOthersHold(s: State, contents: Contents, offset: nat, i: nat, key: UdpFlowKey, target: nat,
                      s': State, contents': Contents)
    requires UdpTableOk(s, contents, offset, i) && key in s.udp
    requires target == s.udp[key][|s.udp[key]| - 1].bufsIndex
    requires SameBefore(s, contents, s', contents', target)
    ensures forall key', j | key' in s.udp && 0 <= j < |s.udp[key']| && (key' != key || j != |s.udp[key]| - 1) ::
              UdpHolds(s.udp[key'][j], key', s'.bufs, contents', offset, i + 1)
  {
    hide UdpItemOk, ItemDatagrams, Without;
    var k := |s.udp[key]| - 1;
    assert s.udp[key][k] in s.udp[key] && UdpHolds(s.udp[key][k], key, s.bufs, contents, offset, i);
    forall key', j | key' in s.udp && 0 <= j < |s.udp[key']| && (key' != key || j != k)
      ensures UdpHolds(s.udp[key'][j], key', s'.bufs, contents', offset, i + 1)
    {
      var other := s.udp[key'][j];
      assert other in s.udp[key'] && UdpHolds(other, key', s.bufs, contents, offset, i);
      if other.bufsIndex == target {
        OneUdpFlow(other, s.udp[key][k], Pkt(s.bufs[target], offset));
      }
      UdpFrame(s, contents, offset, i, s'.bufs, contents', key', other);
    }
  }

  /** TCP items live in other buffers than a UDP item. */
  lemma TcpBesideUdp(s: State, contents: Contents, offset: nat, i: nat, key: UdpFlowKey, item: UdpItem,
                     s': State, contents': Contents)
    requires TcpTableOk(s, contents, offset, i) && UdpHolds(item, key, s.bufs, contents, offset, i)
    requires SameBefore(s, contents, s', contents', item.bufsIndex) && s'.tcp == s.tcp
    ensures TcpTableOk(s', contents', offset, i + 1)
  {
    hide TcpItemOk, UdpItemOk, ItemSegments, ItemDatagrams;
    forall key', other | key' in s.tcp && other in s.tcp[key']
      ensures TcpHolds(other, key', s'.bufs, contents', offset, i + 1)
    {
      assert TcpHolds(other, key', s.bufs, contents, offset, i);
      if other.bufsIndex == item.bufsIndex {
        NotBothProtocols(other, item, Pkt(s.bufs[item.bufsIndex], offset));
      }
      TcpFrame(s, contents, offset, i, s'.bufs, contents', key', other);
    }
  }
}
