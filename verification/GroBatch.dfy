/** `handle_gro` as a whole: the batch loop, both accounting passes and the error path. */
module GroBatch {
  import opened Bytes
  import opened VirtioNet
  import opened Gro
  import opened GroItems
  import opened GroMerge
  import opened GroInvariant
  import opened GroSteps
  import opened GroRun
  import opened GroProcedure

  /** No two items of either protocol share a buffer, and every item names a whole packet. */
  ghost predicate Separate(s: State, offset: nat) {
    && TcpApart(s.tcp) && UdpApart(s.udp)
    && (forall key, item | key in s.tcp && item in s.tcp[key] :: TcpAccountable(item, s.bufs, offset))
    && (forall key, item | key in s.udp && item in s.udp[key] :: UdpAccountable(item, s.bufs, offset))
    && forall b | TcpOwned(s.tcp, s.tcp.Keys, b) :: !UdpOwned(s.udp, s.udp.Keys, b)
  }

  lemma TcpItemSeparate(item: TcpItem, key: TcpFlowKey, s: State, contents: Contents, offset: nat, n: nat)
    requires TcpHolds(item, key, s.bufs, contents, offset, n) && BufOk(s.bufs[item.bufsIndex], offset)
    ensures TcpAccountable(item, s.bufs, offset)
  {}

  lemma UdpItemSeparate(item: UdpItem, key: UdpFlowKey, s: State, contents: Contents, offset: nat, n: nat)
    requires UdpHolds(item, key, s.bufs, contents, offset, n) && BufOk(s.bufs[item.bufsIndex], offset)
    ensures UdpAccountable(item, s.bufs, offset)
  {}

  lemma TcpSharedBuffer(a: TcpItem, k1: TcpFlowKey, b: TcpItem, k2: TcpFlowKey, s: State, contents: Contents,
                        offset: nat, n: nat)
    requires TcpHolds(a, k1, s.bufs, contents, offset, n) && TcpHolds(b, k2, s.bufs, contents, offset, n)
    requires a.bufsIndex == b.bufsIndex
    ensures k1 == k2
  {
    hide TcpItemOk;
    OneTcpFlow(a, b, Pkt(s.bufs[a.bufsIndex], offset));
  }

  lemma UdpSharedBuffer(a: UdpItem, k1: UdpFlowKey, b: UdpItem, k2: UdpFlowKey, s: State, contents: Contents,
                        offset: nat, n: nat)
    requires UdpHolds(a, k1, s.bufs, contents, offset, n) && UdpHolds(b, k2, s.bufs, contents, offset, n)
    requires a.bufsIndex == b.bufsIndex
    ensures k1 == k2
  {
    hide UdpItemOk;
    OneUdpFlow(a, b, Pkt(s.bufs[a.bufsIndex], offset));
  }

  lemma ProtocolsApart(a: TcpItem, k1: TcpFlowKey, b: UdpItem, k2: UdpFlowKey, s: State, contents: Contents,
                       offset: nat, n: nat)
    requires TcpHolds(a, k1, s.bufs, contents, offset, n) && UdpHolds(b, k2, s.bufs, contents, offset, n)
    ensures a.bufsIndex != b.bufsIndex
  {
    hide TcpItemOk, UdpItemOk;
    NotBothProtocols(a, b, Pkt(s.bufs[a.bufsIndex], offset));
  }

  lemma InvSeparate(s: State, contents: Contents, orig: seq<Buf>, offset: nat, gro: Flags, n: nat)
    requires Inv(s, contents, orig, offset, gro, n)
    ensures Separate(s, offset)
  {
    hide TcpHolds, UdpHolds, BufOk, Written, Describe, Owned, UdpNewest, Distinct, UdpDistinct, TcpAccountable,
         UdpAccountable;
    forall key, item | key in s.tcp && item in s.tcp[key] ensures TcpAccountable(item, s.bufs, offset) {
      TcpItemIndex(item, key, s.bufs, contents, offset, n);
      TcpItemSeparate(item, key, s, contents, offset, n);
    }
    forall key, item | key in s.udp && item in s.udp[key] ensures UdpAccountable(item, s.bufs, offset) {
      UdpItemIndex(item, key, s.bufs, contents, offset, n);
      UdpItemSeparate(item, key, s, contents, offset, n);
    }
    forall k1, k2, a, b | k1 in s.tcp && k2 in s.tcp && a in s.tcp[k1] && b in s.tcp[k2] && a.bufsIndex == b.bufsIndex
      ensures k1 == k2
    {
      TcpSharedBuffer(a, k1, b, k2, s, contents, offset, n);
    }
    forall k1, k2, a, b | k1 in s.udp && k2 in s.udp && a in s.udp[k1] && b in s.udp[k2] && a.bufsIndex == b.bufsIndex
      ensures k1 == k2
    {
      UdpSharedBuffer(a, k1, b, k2, s, contents, offset, n);
    }
    forall b | TcpOwned(s.tcp, s.tcp.Keys, b) ensures !UdpOwned(s.udp, s.udp.Keys, b) {
      var k1, a :| k1 in s.tcp && a in s.tcp[k1] && a.bufsIndex == b;
      forall k2, c | k2 in s.udp && c in s.udp[k2] ensures c.bufsIndex != b {
        ProtocolsApart(a, k1, c, k2, s, contents, offset, n);
      }
    }
  }

  lemma TcpItemIndex(item: TcpItem, key: TcpFlowKey, bufs: seq<Buf>, contents: Contents, offset: nat, n: nat)
    requires TcpHolds(item, key, bufs, contents, offset, n)
    ensures item.bufsIndex < |bufs|
  {}

  lemma UdpItemIndex(item: UdpItem, key: UdpFlowKey, bufs: seq<Buf>, contents: Contents, offset: nat, n: nat)
    requires UdpHolds(item, key, bufs, contents, offset, n)
    ensures item.bufsIndex < |bufs|
  {}

  lemma UdpStillAccountable(s: State, mid: seq<Buf>, offset: nat, little: bool)
    requires Separate(s, offset) && TcpDone(s.tcp, s.tcp.Keys, s.bufs, mid, offset, little)
    ensures forall key, item | key in s.udp && item in s.udp[key] ::
              UdpAccountable(item, mid, offset) && mid[item.bufsIndex] == s.bufs[item.bufsIndex]
  {
    hide TcpWritten, TcpAccountable, TcpApart, UdpApart;
    forall key, item | key in s.udp && item in s.udp[key]
      ensures UdpAccountable(item, mid, offset) && mid[item.bufsIndex] == s.bufs[item.bufsIndex]
    {
      assert UdpAccountable(item, s.bufs, offset);
      assert UdpOwned(s.udp, s.udp.Keys, item.bufsIndex);
    }
  }

  /** The two passes touch different buffers, so together they account for every item. */
  lemma BothPasses(s: State, mid: seq<Buf>, end: seq<Buf>, offset: nat, little: bool)
    requires Separate(s, offset) && TcpDone(s.tcp, s.tcp.Keys, s.bufs, mid, offset, little)
    requires UdpDone(s.udp, s.udp.Keys, mid, end, offset, little)
    ensures AccountedTo(s, end, offset, little)
  {
    hide TcpApart, UdpApart;
    UdpStillAccountable(s, mid, offset, little);
    forall key, item | key in s.tcp && item in s.tcp[key] ensures TcpWritten(item, s.bufs, end, offset, little) {
      assert TcpWritten(item, s.bufs, mid, offset, little);
      assert TcpOwned(s.tcp, s.tcp.Keys, item.bufsIndex);
    }
    forall key, item | key in s.udp && item in s.udp[key] ensures UdpWritten(item, s.bufs, end, offset, little) {
      assert UdpWritten(item, mid, end, offset, little);
    }
    forall b | 0 <= b < |s.bufs| && !Owned(s, b) ensures end[b] == s.bufs[b] {
      assert !TcpOwned(s.tcp, s.tcp.Keys, b) && !UdpOwned(s.udp, s.udp.Keys, b);
    }
  }

  lemma RunFacts(orig: seq<Buf>, offset: nat, gro: Flags, little: bool, n: nat)
    requires Ready(orig, offset) && n <= |orig|
    ensures var s := Run(orig, offset, gro, little, n);
            InPlace(s, offset, n) && |s.bufs| == |orig| && Fitted(s.bufs, offset) && Separate(s, offset)
            && forall b | n <= b < |orig| :: s.bufs[b] == orig[b]
  {
    hide TcpTableOk, UdpTableOk, InPlace, Run, Separate, BufOk;
    var contents := RunKeeps(orig, offset, gro, little, n);
    RunInPlace(orig, offset, gro, little, n);
    InvSeparate(Run(orig, offset, gro, little, n), contents, orig, offset, gro, n);
  }

  /** How many leading packets pass the offset check. */
  function Passing(bufs: seq<Buf>, offset: nat): (n: nat)
    ensures n <= |bufs|
    ensures n > 0 ==> HDR_LEN <= offset
    ensures forall b | 0 <= b < n :: offset <= |bufs[b].bytes|
    ensures n < |bufs| ==> offset < HDR_LEN || offset > |bufs[n].bytes|
  {
    if bufs == [] || offset < HDR_LEN || offset > |bufs[0].bytes| then 0 else 1 + Passing(bufs[1..], offset)
  }

  lemma NothingSeparate(s: State, offset: nat)
    requires s.tcp == map[] && s.udp == map[]
    ensures Separate(s, offset)
  {}

  lemma SeparateParts(s: State, offset: nat)
    requires Separate(s, offset)
    ensures TcpApart(s.tcp) && UdpApart(s.udp)
    ensures forall key, item | key in s.tcp && item in s.tcp[key] :: TcpAccountable(item, s.bufs, offset)
  {
    hide TcpApart, UdpApart, TcpAccountable, UdpAccountable;
  }

  /**
   `handle_gro`. A packet shorter than the offset stops it with an error; the packets before it have
   then been taken in but not accounted for.
   */
  method HandleGro(bufs: array<Buf>, offset: nat, tcp: TcpGroTable, udp: UdpGroTable, gro: Flags, little: bool)
    returns (r: Result<(), GroError>, toWrite: seq<nat>)
    requires tcp.itemsByFlow == map[] && udp.itemsByFlow == map[]
    requires forall b | 0 <= b < bufs.Length && HDR_LEN <= offset <= |bufs[b].bytes| :: BufOk(bufs[b], offset)
    modifies bufs, tcp, udp
    ensures var n := Passing(old(bufs[..]), offset);
            && (r.Ok? <==> n == bufs.Length)
            && (n == 0 ==> bufs[..] == old(bufs[..]) && toWrite == [])
            && (n > 0 ==> Ready(old(bufs[..])[..n], offset)
                          && var s := Run(old(bufs[..])[..n], offset, gro, little, n);
                             && tcp.itemsByFlow == s.tcp && udp.itemsByFlow == s.udp && toWrite == s.toWrite
                             && if n == bufs.Length then AccountedTo(s, bufs[..], offset, little)
                                else bufs[..] == s.bufs + old(bufs[n..]))
  {
    hide Run, Step, InPlace, Separate, BufOk, AccountedTo, TcpDone, UdpDone, TcpApart, UdpApart, TcpAccountable,
         UdpAccountable, TcpOwned, UdpOwned;
    ghost var orig, n := bufs[..], Passing(bufs[..], offset);
    ghost var batch := orig[..n];
    ghost var s := State(batch, map[], map[], []);
    toWrite := [];
    if n > 0 {
      RunStart(batch, offset, gro, little);
    }
    for i := 0 to bufs.Length
      invariant i <= n && |s.bufs| == n && bufs[n..] == orig[n..]
      invariant Mirrors(bufs, tcp, udp, s) && toWrite == s.toWrite
      invariant if n > 0 then s == Run(batch, offset, gro, little, i) else s == State([], map[], map[], [])
    {
      if i < n {
        RunFacts(batch, offset, gro, little, i);
        assert bufs[i] == s.bufs[i] == batch[i];
      } else {
        assert bufs[i] == bufs[n..][0] == orig[n];
      }
      if offset < HDR_LEN || offset > |bufs[i].bytes| {
        assert bufs[..] == bufs[..n] + bufs[n..];
        return Err(InvalidOffset), toWrite;
      }
      RunOneMore(batch, offset, gro, little, i);
      toWrite := Round(bufs, offset, i, tcp, udp, gro, little, toWrite, s);
      s := Step(s, offset, i, gro, little);
    }
    if n > 0 {
      RunFacts(batch, offset, gro, little, n);
    } else {
      NothingSeparate(s, offset);
    }
    assert bufs[..] == s.bufs;
    SeparateParts(s, offset);
    ApplyTcpAccounting(tcp, bufs, offset, little);
    ghost var mid := bufs[..];
    UdpStillAccountable(s, mid, offset, little);
    ApplyUdpAccounting(udp, bufs, offset, little);
    BothPasses(s, mid, bufs[..], offset, little);
    r := Ok(());
  }
}
