/**
 The whole of `handle_gro`: what is written stands for exactly the packets that came in, and the datagrams
 merged of every UDP flow are in their order.
 */
module GroRun {
  import opened Bytes
  import opened VirtioNet
  import opened Gro
  import opened GroItems
  import opened GroMerge
  import opened GroInvariant
  import opened GroSteps
  import opened GroAccount

  predicate Ready(orig: seq<Buf>, offset: nat) {
    HDR_LEN <= offset && forall b | 0 <= b < |orig| :: BufOk(orig[b], offset)
  }

  /** Buffers, tables and write list after the first n packets. */
  function Run(orig: seq<Buf>, offset: nat, gro: Flags, little: bool, n: nat): State
    requires Ready(orig, offset) && n <= |orig|
    decreases n, 0
  {
    hide *;
    if n == 0 then State(orig, map[], map[], [])
    else
      RunInPlace(orig, offset, gro, little, n - 1);
      Step(Run(orig, offset, gro, little, n - 1), offset, n - 1, gro, little)
  }

  /** What the first n packets are, in order of arrival. */
  function InDescs(orig: seq<Buf>, offset: nat, gro: Flags, n: nat): seq<Desc>
    requires Ready(orig, offset) && n <= |orig|
  {
    if n == 0 then []
    else
      assert BufOk(orig[n - 1], offset);
      InDescs(orig, offset, gro, n - 1) + [Describe(Pkt(orig[n - 1], offset), gro)]
  }

  lemma {:induction false} InDescsAt(orig: seq<Buf>, offset: nat, gro: Flags, n: nat)
    requires Ready(orig, offset) && n <= |orig|
    ensures |InDescs(orig, offset, gro, n)| == n
    ensures forall j | 0 <= j < n ::
              offset <= |orig[j].bytes| && InDescs(orig, offset, gro, n)[j] == Describe(Pkt(orig[j], offset), gro)
  {
    hide Describe;
    if n > 0 {
      assert BufOk(orig[n - 1], offset);
      InDescsAt(orig, offset, gro, n - 1);
    }
  }

  /** The written buffers stand for the packets seen. */
  ghost predicate Accounts(contents: Contents, descs: seq<Desc>) {
    && multiset(Flat(contents)) == multiset(descs)
    && forall key :: UdpOf(Flat(contents), key) == UdpOf(descs, key)
  }

  lemma RunInPlace(orig: seq<Buf>, offset: nat, gro: Flags, little: bool, n: nat)
    requires Ready(orig, offset) && n <= |orig|
    ensures InPlace(Run(orig, offset, gro, little, n), offset, n)
    ensures |Run(orig, offset, gro, little, n).bufs| == |orig|
    decreases n, 2
  {
    hide TcpTableOk, UdpTableOk, InPlace, Run;
    var contents := RunKeeps(orig, offset, gro, little, n);
    InvInPlace(Run(orig, offset, gro, little, n), contents, orig, offset, gro, n);
  }

  lemma RunStart(orig: seq<Buf>, offset: nat, gro: Flags, little: bool)
    requires Ready(orig, offset)
    ensures Run(orig, offset, gro, little, 0) == State(orig, map[], map[], [])
  {}

  lemma RunOneMore(orig: seq<Buf>, offset: nat, gro: Flags, little: bool, n: nat)
    requires Ready(orig, offset) && n < |orig|
    ensures InPlace(Run(orig, offset, gro, little, n), offset, n) && |Run(orig, offset, gro, little, n).bufs| == |orig|
    ensures Run(orig, offset, gro, little, n + 1) == Step(Run(orig, offset, gro, little, n), offset, n, gro, little)
  {
    hide InPlace, Step;
    RunInPlace(orig, offset, gro, little, n);
  }

  /** The invariant holds after any number of packets. */
  lemma {:induction false} RunKeeps(orig: seq<Buf>, offset: nat, gro: Flags, little: bool, n: nat)
    returns (contents: Contents)
    requires Ready(orig, offset) && n <= |orig|
    ensures Inv(Run(orig, offset, gro, little, n), contents, orig, offset, gro, n)
    ensures Accounts(contents, InDescs(orig, offset, gro, n))
    decreases n, 1
  {
    hide Inv, Adds, Step, Describe, InPlace;
    if n == 0 {
      InvStart(orig, offset, gro);
      contents := seq(|orig|, b => []);
      FlatOfNothing(contents);
    } else {
      var before := RunKeeps(orig, offset, gro, little, n - 1);
      RunInPlace(orig, offset, gro, little, n - 1);
      contents := StepKeeps(Run(orig, offset, gro, little, n - 1), before, orig, offset, gro, n - 1, little);
      AccountsOneMore(before, contents, InDescs(orig, offset, gro, n - 1), Describe(Pkt(orig[n - 1], offset), gro));
    }
  }

  lemma {:induction false} FlatOfNothing(contents: Contents)
    requires forall b | 0 <= b < |contents| :: contents[b] == []
    ensures Flat(contents) == []
    decreases |contents|
  {
    if contents != [] {
      FlatOfNothing(contents[1..]);
    }
  }

  lemma AccountsOneMore(before: Contents, contents: Contents, descs: seq<Desc>, d: Desc)
    requires Accounts(before, descs) && Adds(before, contents, d)
    ensures Accounts(contents, descs + [d])
  {
    hide Flat, UdpOf;
    forall key ensures UdpOf(Flat(contents), key) == UdpOf(descs + [d], key) {
      UdpOfConcat(descs, [d], key);
    }
  }

  // ---- After accounting ----

  predicate TcpWritten(item: TcpItem, bufs: seq<Buf>, bufs': seq<Buf>, offset: nat, little: bool) {
    && item.bufsIndex < |bufs| == |bufs'|
    && HDR_LEN <= offset && offset + IpHeaderLen(item.key.v6) <= |bufs[item.bufsIndex].bytes|
    && item.iphLen + item.tcphLen <= 0xffff
    && bufs'[item.bufsIndex] == AccountTcp(item, bufs[item.bufsIndex], offset, little)
  }

  predicate UdpWritten(item: UdpItem, bufs: seq<Buf>, bufs': seq<Buf>, offset: nat, little: bool) {
    && item.bufsIndex < |bufs| == |bufs'|
    && HDR_LEN <= offset && offset + IpHeaderLen(item.key.v6) + UDP_HDR_LEN <= |bufs[item.bufsIndex].bytes|
    && item.iphLen + UDP_HDR_LEN <= 0xffff
    && bufs'[item.bufsIndex] == AccountUdp(item, bufs[item.bufsIndex], offset, little)
  }

  /** Both accounting loops have run; the order in which a hash map yields its items does not show. */
  ghost predicate AccountedTo(s: State, bufs': seq<Buf>, offset: nat, little: bool) {
    && |bufs'| == |s.bufs|
    && (forall key, item | key in s.tcp && item in s.tcp[key] :: TcpWritten(item, s.bufs, bufs', offset, little))
    && (forall key, item | key in s.udp && item in s.udp[key] :: UdpWritten(item, s.bufs, bufs', offset, little))
    && forall b | 0 <= b < |s.bufs| && !Owned(s, b) :: bufs'[b] == s.bufs[b]
  }

  /** The packets the receiver gets out of buffer b. */
  function OutOf(bufs: seq<Buf>, b: nat, offset: nat, little: bool, gro: Flags): seq<Desc> {
    if b < |bufs| && HDR_LEN <= offset <= |bufs[b].bytes| then DescribeAll(Expand(bufs[b], offset, little), gro) else []
  }

  /** The packets the receiver gets, in the order of the writes. */
  function OutDescs(bufs: seq<Buf>, toWrite: seq<nat>, offset: nat, little: bool, gro: Flags): seq<Desc> {
    if toWrite == [] then []
    else
      var last := |toWrite| - 1;
      OutDescs(bufs, toWrite[..last], offset, little, gro) + OutOf(bufs, toWrite[last], offset, little, gro)
  }

  lemma TcpOut(item: TcpItem, key: TcpFlowKey, s: State, contents: Contents, bufs': seq<Buf>, offset: nat, n: nat,
               little: bool, gro: Flags)
    requires TcpHolds(item, key, s.bufs, contents, offset, n) && BufOk(s.bufs[item.bufsIndex], offset) && gro.canTcp
    requires TcpWritten(item, s.bufs, bufs', offset, little)
    ensures OutOf(bufs', item.bufsIndex, offset, little, gro) == contents[item.bufsIndex]
  {
    hide Expand, TcpItemOk, ItemSegments, Describe, DescribeAll;
    var b := s.bufs[item.bufsIndex];
    if item.numMerged > 0 {
      hide AccountTcp;
      ExpandMergedTcp(item, b, offset, little, gro);
    } else {
      EmptyHeader(b, offset, little);
      ExpandBlank(bufs'[item.bufsIndex], offset, little, gro);
      UnmergedItem(item, Pkt(b, offset), gro);
    }
  }

  lemma UdpOut(item: UdpItem, key: UdpFlowKey, s: State, contents: Contents, bufs': seq<Buf>, offset: nat, n: nat,
               little: bool, gro: Flags)
    requires UdpHolds(item, key, s.bufs, contents, offset, n) && BufOk(s.bufs[item.bufsIndex], offset) && gro.canUdp
    requires UdpWritten(item, s.bufs, bufs', offset, little)
    ensures OutOf(bufs', item.bufsIndex, offset, little, gro) == contents[item.bufsIndex]
  {
    hide Expand, UdpItemOk, ItemDatagrams, Describe, DescribeAll;
    var b := s.bufs[item.bufsIndex];
    if item.numMerged > 0 {
      hide AccountUdp;
      ExpandMergedUdp(item, b, offset, little, gro);
    } else {
      EmptyHeader(b, offset, little);
      ExpandBlank(bufs'[item.bufsIndex], offset, little, gro);
      UnmergedUdpItem(item, Pkt(b, offset), gro);
    }
  }

  lemma UnmergedUdpItem(item: UdpItem, pkt: Packet, gro: Flags)
    requires UdpItemOk(item, pkt) && item.numMerged == 0 && gro.canUdp
    ensures ItemDatagrams(item, pkt) == [Describe(pkt, gro)]
  {
    DescribedUdpShape(pkt, gro, item.key.v6);
  }

  /** Every written buffer expands to what it stands for. */
  lemma WrittenExpands(s: State, contents: Contents, orig: seq<Buf>, offset: nat, gro: Flags, n: nat,
                       bufs': seq<Buf>, little: bool, b: nat)
    requires Inv(s, contents, orig, offset, gro, n) && HDR_LEN <= offset && AccountedTo(s, bufs', offset, little)
    requires b < |contents| && contents[b] != []
    ensures OutOf(bufs', b, offset, little, gro) == contents[b]
  {
    hide OutOf, TcpHolds, UdpHolds, TcpWritten, UdpWritten, Describe, Written;
    assert BufOk(s.bufs[b], offset);
    if Owned(s, b) {
      if key, item :| key in s.tcp && item in s.tcp[key] && item.bufsIndex == b {
        TcpOut(item, key, s, contents, bufs', offset, n, little, gro);
      } else {
        var key, item :| key in s.udp && item in s.udp[key] && item.bufsIndex == b;
        UdpOut(item, key, s, contents, bufs', offset, n, little, gro);
      }
    } else {
      PlainOut(s.bufs[b], bufs', b, offset, little, gro);
    }
  }

  lemma PlainOut(buf: Buf, bufs': seq<Buf>, b: nat, offset: nat, little: bool, gro: Flags)
    requires BufOk(buf, offset) && b < |bufs'| && bufs'[b] == buf
    ensures OutOf(bufs', b, offset, little, gro) == [Describe(Pkt(buf, offset), gro)]
  {
    hide Expand, Describe, DescribeAll;
    ExpandBlank(buf, offset, little, gro);
  }

  /** The writes, in order, are all contents, in order. */
  lemma {:induction false} OutIsFlat(contents: Contents, i: nat, bufs': seq<Buf>, offset: nat, little: bool, gro: Flags)
    requires i <= |contents|
    requires forall b | 0 <= b < |contents| && contents[b] != [] :: OutOf(bufs', b, offset, little, gro) == contents[b]
    ensures OutDescs(bufs', Written(contents, i), offset, little, gro) == Flat(contents[..i])
    decreases i
  {
    hide OutOf, Flat;
    if i == 0 {
      FlatOfNothing([]);
      assert contents[..0] == [];
    } else {
      OutIsFlat(contents, i - 1, bufs', offset, little, gro);
      FlatLast(contents[..i]);
      assert contents[..i][..i - 1] == contents[..i - 1];
      assert contents[..i][i - 1] == contents[i - 1];
      var before := Written(contents, i - 1);
      if contents[i - 1] == [] {
        assert Flat(contents[..i - 1]) + [] == Flat(contents[..i - 1]);
        assert Written(contents, i) == before;
      } else {
        assert (before + [i - 1])[..|before|] == before;
      }
    }
  }

  lemma FlatLast(contents: Contents)
    requires contents != []
    ensures Flat(contents) == Flat(contents[..|contents| - 1]) + contents[|contents| - 1]
  {
    FlatAt(contents, |contents| - 1);
    assert contents[|contents|..] == [];
  }

  /** What the receiver gets, in order, is what the buffers stand for, in order. */
  lemma OutIs(s: State, contents: Contents, orig: seq<Buf>, offset: nat, gro: Flags, bufs': seq<Buf>, little: bool)
    requires Inv(s, contents, orig, offset, gro, |orig|) && HDR_LEN <= offset
    requires AccountedTo(s, bufs', offset, little)
    ensures OutDescs(bufs', s.toWrite, offset, little, gro) == Flat(contents)
  {
    hide TcpTableOk, UdpTableOk, AccountedTo, OutOf, OutDescs, Flat;
    forall b | 0 <= b < |contents| && contents[b] != [] ensures OutOf(bufs', b, offset, little, gro) == contents[b] {
      WrittenExpands(s, contents, orig, offset, gro, |orig|, bufs', little, b);
    }
    OutIsFlat(contents, |orig|, bufs', offset, little, gro);
    assert contents[..|orig|] == contents;
  }

  /**
   The offload round trip, for every batch and every buffer capacity up to a packet length of 65535:
   splitting the written buffers yields every incoming TCP segment and UDP datagram exactly once, all
   other packets unchanged, and the datagrams of each flow in their order of arrival.
   */
  lemma GroRoundTrip(orig: seq<Buf>, offset: nat, gro: Flags, little: bool, bufs': seq<Buf>)
    requires Ready(orig, offset)
    requires AccountedTo(Run(orig, offset, gro, little, |orig|), bufs', offset, little)
    ensures var out := OutDescs(bufs', Run(orig, offset, gro, little, |orig|).toWrite, offset, little, gro);
            && multiset(out) == multiset(InDescs(orig, offset, gro, |orig|))
            && forall key :: UdpOf(out, key) == UdpOf(InDescs(orig, offset, gro, |orig|), key)
  {
    hide TcpTableOk, UdpTableOk, AccountedTo, Run, OutOf, OutDescs, Flat, UdpOf, InDescs, Describe;
    var n := |orig|;
    var s := Run(orig, offset, gro, little, n);
    var contents := RunKeeps(orig, offset, gro, little, n);
    OutIs(s, contents, orig, offset, gro, bufs', little);
  }
}
