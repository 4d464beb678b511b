/**
 `poll_write` and `do_batch_write` on one device. The batch does not look at the staging buffer, so it may
 come between two parts of a staged frame.
 */
module SharedDevice {
  import opened Bytes
  import opened VirtioNet
  import opened TunWriter
  import opened BatchWrite

  /** An octet on the device and the number of the frame it belongs to. */
  type Mark = (nat, byte)

  function Marked(id: nat, octets: seq<byte>): (m: seq<Mark>)
    ensures |m| == |octets| && forall k | 0 <= k < |m| :: m[k] == (id, octets[k])
  {
    seq(|octets|, k requires 0 <= k < |octets| => (id, octets[k]))
  }

  function Octets(marks: seq<Mark>): (b: seq<byte>)
    ensures |b| == |marks| && forall k | 0 <= k < |b| :: b[k] == marks[k].1
  {
    seq(|marks|, k requires 0 <= k < |marks| => marks[k].1)
  }

  /** The frames of a batch, numbered from 1. */
  function BatchMarks(packets: seq<Packet>): seq<Mark> {
    if packets == [] then []
    else
      var last := |packets| - 1;
      BatchMarks(packets[..last]) + Marked(|packets|, Frame(packets[last]))
  }

  /** No frame is interrupted by another. */
  predicate Whole(marks: seq<Mark>) {
    forall i, j, k | 0 <= i < j < k < |marks| && marks[i].0 == marks[k].0 :: marks[j].0 == marks[i].0
  }

  /** What is on the device when a batch comes after `at` octets of a staged frame. */
  function Mixed(staged: seq<byte>, at: nat, packets: seq<Packet>): seq<Mark>
    requires at <= |staged|
  {
    Marked(0, staged[..at]) + BatchMarks(packets) + Marked(0, staged[at..])
  }

  lemma {:induction false} BatchMarksAre(packets: seq<Packet>)
    ensures Octets(BatchMarks(packets)) == Wire(packets, true)
    ensures forall m | m in BatchMarks(packets) :: 0 < m.0 <= |packets|
    ensures packets != [] ==> BatchMarks(packets) != []
    ensures Whole(BatchMarks(packets))
  {
    hide Octets, Marked, Whole;
    if packets == [] {
      NoOctets();
    } else {
      var last := |packets| - 1;
      BatchMarksAre(packets[..last]);
      var (front, end) := (BatchMarks(packets[..last]), Marked(|packets|, Frame(packets[last])));
      OctetsOfMore(front, |packets|, Frame(packets[last]));
      assert forall i | 0 <= i < |front| :: front[i] in front;
      WholeMore(front, |packets|, Frame(packets[last]));
    }
  }

  lemma NoOctets()
    ensures Octets([]) == [] && Whole([])
  {}

  lemma OctetsOfMore(front: seq<Mark>, id: nat, frame: seq<byte>)
    ensures Octets(front + Marked(id, frame)) == Octets(front) + frame
  {}

  lemma WholeMore(front: seq<Mark>, id: nat, frame: seq<byte>)
    requires Whole(front) && forall i | 0 <= i < |front| :: front[i].0 < id
    ensures Whole(front + Marked(id, frame))
  {
    var all := front + Marked(id, frame);
    assert forall i | 0 <= i < |all| :: if i < |front| then all[i] == front[i] else all[i].0 == id;
  }

  /** The frames stay whole exactly when nothing of the staged one was out, or all of it, or there is no batch. */
  lemma WholeIff(staged: seq<byte>, at: nat, packets: seq<Packet>)
    requires at <= |staged|
    ensures Whole(Mixed(staged, at, packets)) <==> at == 0 || at == |staged| || packets == []
  {
    hide BatchMarks;
    BatchMarksAre(packets);
    var (a, b, c) := (Marked(0, staged[..at]), BatchMarks(packets), Marked(0, staged[at..]));
    var all := Mixed(staged, at, packets);
    forall i | 0 <= i < |all|
      ensures i < at ==> all[i].0 == 0
      ensures at <= i < at + |b| ==> all[i] == b[i - at] && all[i].0 > 0
      ensures at + |b| <= i ==> all[i].0 == 0
    {
      if at <= i < at + |b| {
        assert b[i - at] in b;
      }
    }
    if 0 < at < |staged| && packets != [] {
      assert all[0].0 == all[|all| - 1].0 && all[at].0 != all[0].0;
    } else if packets == [] {
      assert BatchMarks([]) == [] by {
        NoMarks();
      }
    }
  }

  lemma NoMarks()
    ensures BatchMarks([]) == []
  {}

  /**
   A batch while the writer may have a frame staged, and the writer's flush behind it. When both succeed the
   device has the frame's first part, the batch, and the rest: whole frames exactly when nothing of the
   staged frame was out before.
   */
  method BatchWhileStaged(writer: LinuxTunWriter, batch: BatchWriter, packets: seq<Packet>)
    returns (r: Flush, written: nat, flushed: Flush)
    requires writer.vnetHdr && batch.vnetHdr && writer.Valid() && writer.device == batch.device
    requires forall p | p in packets :: |p| <= 0xffff
    modifies writer`writePos, batch.device, batch.tcpTable, batch.udpTable
    ensures r == Flushed && flushed == Flushed ==>
              var mixed := Mixed(old(writer.writeBuf), old(writer.writePos), packets);
              && batch.device.stream == Frames(old(writer.complete)) + Octets(mixed)
              && (Whole(mixed) <==> old(writer.writePos) == 0 || packets == [])
  {
    hide Frames, Wire, Frame, Mixed, Whole, BatchMarks;
    ghost var (staged, at, complete) := (writer.writeBuf, writer.writePos, writer.complete);
    PartOut(writer);
    r, written := batch.DoBatchWrite(packets);
    flushed := writer.FlushStaged();
    if r == Flushed && flushed == Flushed {
      WholeIff(staged, at, packets);
      MixedOctets(staged, at, packets);
      Regroup(Frames(complete), staged[..at], Wire(packets, true), staged[at..]);
    }
  }

  lemma PartOut(writer: LinuxTunWriter)
    requires writer.vnetHdr && writer.Valid()
    ensures writer.writePos <= |writer.writeBuf| && (writer.writePos == |writer.writeBuf| ==> writer.writePos == 0)
    ensures writer.device.stream == Frames(writer.complete) + writer.writeBuf[..writer.writePos]
  {
    hide Frames;
  }

  lemma MixedOctets(staged: seq<byte>, at: nat, packets: seq<Packet>)
    requires at <= |staged|
    ensures Octets(Mixed(staged, at, packets)) == staged[..at] + Wire(packets, true) + staged[at..]
  {
    BatchMarksAre(packets);
    hide Wire, BatchMarks, Whole;
    var (a, b, c) := (Marked(0, staged[..at]), BatchMarks(packets), Marked(0, staged[at..]));
    assert Octets(a + b + c) == Octets(a) + Octets(b) + Octets(c);
    assert Octets(a) == staged[..at] && Octets(c) == staged[at..];
  }

  lemma Regroup(a: seq<byte>, b: seq<byte>, c: seq<byte>, d: seq<byte>)
    ensures ((a + b) + c) + d == a + (b + c + d)
  {}
}
