/** Octets, big-endian fields, in-place writes and the fixed IP headers, shared by the packet modules. */
module Bytes {
  type byte = x: int | 0 <= x < 0x100
  type u16 = x: int | 0 <= x < 0x1_0000
  type u32 = x: int | 0 <= x < 0x1_0000_0000
  type Packet = seq<byte>

  datatype Result<+T, +E> = Ok(value: T) | Err(error: E)

  datatype Option<+T> = None | Some(value: T)

  /** A cast `as u16`: the value modulo 2^16. */
  function ToU16(x: int): u16 {
    x % 0x1_0000
  }

  /** u32 arithmetic that wraps. */
  function ToU32(x: int): u32 {
    x % 0x1_0000_0000
  }

  function U16At(b: seq<byte>, at: nat): u16
    requires at + 2 <= |b|
  {
    (b[at] as int) * 0x100 + b[at + 1]
  }

  function U32At(b: seq<byte>, at: nat): u32
    requires at + 4 <= |b|
  {
    (U16At(b, at) as int) * 0x1_0000 + U16At(b, at + 2)
  }

  function PutU16(b: seq<byte>, at: nat, v: u16): (r: seq<byte>)
    requires at + 2 <= |b|
    ensures |r| == |b| && U16At(r, at) == v
    ensures forall k | 0 <= k < |b| && k != at && k != at + 1 :: r[k] == b[k]
  {
    b[at := v / 0x100][at + 1 := v % 0x100]
  }

  function PutU32(b: seq<byte>, at: nat, v: u32): (r: seq<byte>)
    requires at + 4 <= |b|
    ensures |r| == |b| && U32At(r, at) == v
    ensures forall k | 0 <= k < |b| && !(at <= k < at + 4) :: r[k] == b[k]
  {
    PutU16(PutU16(b, at, v / 0x1_0000), at + 2, v % 0x1_0000)
  }

  /** `b[at..at+|v|].copy_from_slice(v)` */
  function PutSlice(b: seq<byte>, at: nat, v: seq<byte>): (r: seq<byte>)
    requires at + |v| <= |b|
    ensures |r| == |b| && r[at..at + |v|] == v
    ensures r[..at] == b[..at] && r[at + |v|..] == b[at + |v|..]
  {
    b[..at] + v + b[at + |v|..]
  }

  function Zeros(n: nat): seq<byte> {
    seq(n, k => 0)
  }

  function Min(a: int, b: int): (r: int)
    ensures r <= a && r <= b && (r == a || r == b)
  {
    if a <= b then a else b
  }

  lemma SliceAt(b: seq<byte>, at: nat, v: seq<byte>, k: nat)
    requires at + |v| <= |b| && k < |b|
    ensures PutSlice(b, at, v)[k] == if at <= k < at + |v| then v[k - at] else b[k]
  {}

  // ---- IP headers ----

  /** An IP header without options or extension headers. */
  function IpHeaderLen(v6: bool): nat {
    if v6 then 40 else 20
  }

  /** Where the source address starts; the destination address follows it. */
  function AddrOff(v6: bool): nat {
    if v6 then 8 else 12
  }

  function AddrSize(v6: bool): nat {
    if v6 then 16 else 4
  }
}
