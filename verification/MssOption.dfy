/** Where a SYN packet carries its MSS, by the layout of TCP options in section 3.2 of RFC 9293. */
module MssOption {
  import opened Bytes
  import opened NatRewrite
  import Wire

  /** An option in front of the MSS: no-operation, or one with a kind, a length and data. */
  datatype TcpOption = Nop | Other(kind: byte, data: seq<byte>)

  /** Neither end of list, no-operation nor MSS, and short enough for its length octet. */
  predicate WellFormed(o: TcpOption) {
    o.Other? ==> o.kind > 2 && |o.data| <= 253
  }

  function Octets(o: TcpOption): seq<byte>
    requires WellFormed(o)
  {
    if o.Nop? then [1] else [o.kind, 2 + |o.data|] + o.data
  }

  function AllOctets(front: seq<TcpOption>): seq<byte>
    requires forall o | o in front :: WellFormed(o)
  {
    if front == [] then [] else Octets(front[0]) + AllOctets(front[1..])
  }

  /** Behind whole other options there is the MSS option, kind 2 and length 4, and its value. */
  predicate Leads(options: seq<byte>, i: nat, front: seq<TcpOption>, at: nat) {
    && i <= at && at + 2 <= |options| && (forall o | o in front :: WellFormed(o))
    && options[i..at] == AllOctets(front) + [2, 4]
  }

  lemma {:induction false} FoundHasFront(options: seq<byte>, i: nat) returns (front: seq<TcpOption>)
    requires i <= |options| && MssAt(options, i).Some?
    ensures Leads(options, i, front, MssAt(options, i).value)
    decreases |options| - i
  {
    hide Leads, Octets, MssAt;
    var at := MssAt(options, i).value;
    MssAtIs(options, i);
    if options[i] == TCP_OPT_MSS {
      front := [];
      NothingInFront(options, i);
    } else {
      var o := if options[i] == TCP_OPT_NOP then Nop else Other(options[i], options[i + 2..i + options[i + 1]]);
      var next := i + if options[i] == TCP_OPT_NOP then 1 else options[i + 1];
      OptionOctets(options, i, next, o);
      var rest := FoundHasFront(options, next);
      front := [o] + rest;
      OneMoreOption(options, i, next, o, rest, at);
    }
  }

  lemma MssAtIs(options: seq<byte>, i: nat)
    requires i <= |options| && MssAt(options, i).Some?
    ensures i < |options| && options[i] != TCP_OPT_EOL
    ensures options[i] == TCP_OPT_MSS ==>
              i + 4 <= |options| && options[i + 1] == TCP_OPT_MSS_LEN && MssAt(options, i) == Some(i + 2)
    ensures options[i] == TCP_OPT_NOP ==> MssAt(options, i) == MssAt(options, i + 1)
    ensures options[i] != TCP_OPT_MSS && options[i] != TCP_OPT_NOP ==>
              && i + 2 <= |options| && options[i + 1] >= 2 && i + options[i + 1] <= |options|
              && MssAt(options, i) == MssAt(options, i + options[i + 1])
  {}

  lemma NothingInFront(options: seq<byte>, i: nat)
    requires i + 4 <= |options| && options[i] == 2 && options[i + 1] == 4
    ensures Leads(options, i, [], i + 2)
  {
    assert options[i..i + 2] == [2, 4] == [] + [2, 4];
  }

  lemma OptionOctets(options: seq<byte>, i: nat, next: nat, o: TcpOption)
    requires i < next <= |options|
    requires if o.Nop? then options[i] == 1 && next == i + 1
             else && i + 2 <= next && options[i] == o.kind && options[i + 1] == next - i && o.kind > 2
                  && o.data == options[i + 2..next]
    ensures WellFormed(o) && options[i..next] == Octets(o)
  {}

  lemma OneMoreOption(options: seq<byte>, i: nat, next: nat, o: TcpOption, rest: seq<TcpOption>, at: nat)
    requires i <= next <= |options| && WellFormed(o) && options[i..next] == Octets(o) && Leads(options, next, rest, at)
    ensures Leads(options, i, [o] + rest, at)
  {
    hide Octets;
    assert ([o] + rest)[1..] == rest;
    assert options[i..at] == options[i..next] + options[next..at];
    assert Octets(o) + (AllOctets(rest) + [2, 4]) == (Octets(o) + AllOctets(rest)) + [2, 4];
  }

  lemma {:induction false} FrontIsPassed(options: seq<byte>, i: nat, front: seq<TcpOption>, at: nat)
    requires Leads(options, i, front, at)
    ensures MssAt(options, i) == Some(at)
    decreases |front|
  {
    hide Octets, MssAt;
    if front == [] {
      AtTheMss(options, i, at);
    } else {
      var (o, rest) := (front[0], front[1..]);
      var (first, slice) := (Octets(o), options[i..at]);
      var next := i + |first|;
      Regroup(first, AllOctets(rest), [2, 4]);
      assert slice == first + (AllOctets(rest) + [2, 4]);
      assert slice[..|first|] == first;
      assert options[next..at] == slice[|first|..] == AllOctets(rest) + [2, 4];
      FrontIsPassed(options, next, rest, at);
      OptionIsPassed(options, i, o, slice);
    }
  }

  lemma Regroup(a: seq<byte>, b: seq<byte>, c: seq<byte>)
    ensures (a + b) + c == a + (b + c)
  {}

  lemma AtTheMss(options: seq<byte>, i: nat, at: nat)
    requires i <= at && at + 2 <= |options| && options[i..at] == [] + [2, 4]
    ensures MssAt(options, i) == Some(at)
  {
    var slice := options[i..at];
    assert |slice| == 2 && slice[0] == 2 && slice[1] == 4;
    assert options[i] == slice[0] && options[i + 1] == slice[1];
  }

  lemma OptionIsPassed(options: seq<byte>, i: nat, o: TcpOption, slice: seq<byte>)
    requires WellFormed(o) && i + |slice| <= |options| && options[i..i + |slice|] == slice
    requires |Octets(o)| <= |slice| && slice[..|Octets(o)|] == Octets(o)
    ensures i + |Octets(o)| <= |options| && MssAt(options, i) == MssAt(options, i + |Octets(o)|)
  {
    var first := Octets(o);
    assert options[i] == slice[0] == slice[..|first|][0];
    if o.Other? {
      assert options[i + 1] == slice[1] == slice[..|first|][1];
    }
  }

  ghost predicate HasMssAt(options: seq<byte>, at: nat) {
    exists front :: Leads(options, 0, front, at)
  }

  lemma FoundIff(options: seq<byte>, at: nat)
    ensures MssAt(options, 0) == Some(at) <==> HasMssAt(options, at)
  {
    hide Leads;
    if MssAt(options, 0) == Some(at) {
      var front := FoundHasFront(options, 0);
    }
    if front :| Leads(options, 0, front, at) {
      FrontIsPassed(options, 0, front, at);
    }
  }

  /** The MSS value of a SYN packet with its TCP header at `off` is at `at`. */
  ghost predicate Announces(pkt: Packet, off: nat, at: nat) {
    && |pkt| >= off + 24 && pkt[off + 12] / 16 >= 5 && off + pkt[off + 12] / 16 * 4 <= |pkt|
    && pkt[off + 13] / 2 % 2 == 1 // SYN
    && off + 20 <= at && at + 2 <= off + pkt[off + 12] / 16 * 4
    && HasMssAt(pkt[off + 20..off + pkt[off + 12] / 16 * 4], at - off - 20)
  }

  /** The walk finds exactly that. */
  lemma SynMssIff(pkt: Packet, off: nat, at: nat)
    ensures SynMss(pkt, off) == Some(at) <==> Announces(pkt, off, at)
  {
    hide HasMssAt, MssAt;
    if |pkt| >= off + 24 && pkt[off + 12] / 16 >= 5 && off + pkt[off + 12] / 16 * 4 <= |pkt| && at >= off + 20 {
      FoundIff(pkt[off + 20..off + pkt[off + 12] / 16 * 4], at - off - 20);
    }
  }

  /** An announced MSS above `mss` is lowered to it, any other kept. */
  ghost predicate MssRight(was: Packet, now: Packet, off: nat, mss: Option<u16>) {
    |now| == |was|
    && forall at: nat | Announces(was, off, at) && at + 2 <= |was| ::
         && Announces(now, off, at)
         && Wire.Word(now, at) == if mss.Some? && mss.value < Wire.Word(was, at) then mss.value else Wire.Word(was, at)
  }
}
