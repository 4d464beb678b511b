/** The 10-octet `virtio_net_hdr` in front of every packet, in the byte order of the host. */
module VirtioNet {
  import opened Bytes

  const HDR_LEN := 10
  const F_NEEDS_CSUM := 1
  const GSO_NONE := 0
  const GSO_TCPV4 := 1
  const GSO_TCPV6 := 3
  const GSO_UDP_L4 := 5

  datatype Header = Header(flags: byte, gsoType: byte, hdrLen: u16, gsoSize: u16, csumStart: u16, csumOffset: u16)

  datatype GsoType = NoGso | TcpV4 | TcpV6 | UdpL4

  datatype GsoOptions = GsoOptions(
    gsoType: GsoType, hdrLen: u16, csumStart: u16, csumOffset: u16, gsoSize: u16, needsCsum: bool)

  const EMPTY := Header(0, GSO_NONE, 0, 0, 0, 0)

  /** The two octets of a u16 in host order. */
  function Native(v: u16, little: bool): seq<byte> {
    if little then [v % 0x100, v / 0x100] else [v / 0x100, v % 0x100]
  }

  function FromNative(b: seq<byte>, at: nat, little: bool): u16
    requires at + 2 <= |b|
  {
    if little then (b[at + 1] as int) * 0x100 + b[at] else (b[at] as int) * 0x100 + b[at + 1]
  }

  /** `VirtioNetHdr::encode` into the octets in front of a packet. */
  function Encode(h: Header, little: bool): (b: seq<byte>)
    ensures |b| == HDR_LEN
  {
    [h.flags, h.gsoType] + Native(h.hdrLen, little) + Native(h.gsoSize, little)
    + Native(h.csumStart, little) + Native(h.csumOffset, little)
  }

  /** `VirtioNetHdr::decode`; `None` is the UnexpectedEof error. */
  function Decode(b: seq<byte>, little: bool): Option<Header> {
    if |b| < HDR_LEN then None
    else Some(Header(b[0], b[1], FromNative(b, 2, little), FromNative(b, 4, little),
                     FromNative(b, 6, little), FromNative(b, 8, little)))
  }

  /** The codec is a bijection between headers and 10 octets, whatever follows them. */
  lemma DecodeEncode(h: Header, rest: seq<byte>, little: bool)
    ensures Decode(Encode(h, little) + rest, little) == Some(h)
  {
    var b := Encode(h, little) + rest;
    assert b[0] == h.flags && b[1] == h.gsoType;
    assert b[2..4] == Native(h.hdrLen, little) && b[4..6] == Native(h.gsoSize, little);
    assert b[6..8] == Native(h.csumStart, little) && b[8..10] == Native(h.csumOffset, little);
    assert forall k | 0 <= k < 2 :: b[2 + k] == b[2..4][k] && b[4 + k] == b[4..6][k]
                                    && b[6 + k] == b[6..8][k] && b[8 + k] == b[8..10][k];
  }

  lemma NativeFromNative(b: seq<byte>, at: nat, little: bool)
    requires at + 2 <= |b|
    ensures Native(FromNative(b, at, little), little) == [b[at], b[at + 1]]
  {}

  lemma EncodeDecode(b: seq<byte>, little: bool)
    requires |b| == HDR_LEN
    ensures Encode(Decode(b, little).value, little) == b
  {
    NativeFromNative(b, 2, little);
    NativeFromNative(b, 4, little);
    NativeFromNative(b, 6, little);
    NativeFromNative(b, 8, little);
    assert b == [b[0], b[1]] + [b[2], b[3]] + [b[4], b[5]] + [b[6], b[7]] + [b[8], b[9]];
  }

  /** `to_gso_options`; `None` is the "unsupported gsoType" error. */
  function ToOptions(h: Header): Option<GsoOptions> {
    var kind := if h.gsoType == GSO_NONE then Some(NoGso)
                else if h.gsoType == GSO_TCPV4 then Some(TcpV4)
                else if h.gsoType == GSO_TCPV6 then Some(TcpV6)
                else if h.gsoType == GSO_UDP_L4 then Some(UdpL4)
                else None;
    match kind
    case None => None
    case Some(t) =>
      Some(GsoOptions(t, h.hdrLen, h.csumStart, h.csumOffset, h.gsoSize, h.flags % 2 == F_NEEDS_CSUM))
  }

  /**
   The layout of `virtio_net_hdr`: flags, type, then four 16-bit fields in host order, header length,
   segment size, checksum start and checksum offset.
   */
  lemma HeaderLayout(h: Header, little: bool)
    ensures var b := Encode(h, little);
            var low := if little then 0 else 1; // where the low octet of a field is
            && |b| == 10 && b[0] == h.flags && b[1] == h.gsoType
            && (b[2 + low] as int) + 256 * (b[3 - low] as int) == h.hdrLen
            && (b[4 + low] as int) + 256 * (b[5 - low] as int) == h.gsoSize
            && (b[6 + low] as int) + 256 * (b[7 - low] as int) == h.csumStart
            && (b[8 + low] as int) + 256 * (b[9 - low] as int) == h.csumOffset
  {
    hide Native;
    NativeIs(h.hdrLen, little);
    NativeIs(h.gsoSize, little);
    NativeIs(h.csumStart, little);
    NativeIs(h.csumOffset, little);
  }

  lemma NativeIs(v: u16, little: bool)
    ensures var (b, low) := (Native(v, little), if little then 0 else 1);
            |b| == 2 && (b[low] as int) + 256 * (b[1 - low] as int) == v
  {}

  /** Types 0, 1, 3 and 5 are understood, and no other; flag bit 0 asks for a checksum. */
  lemma OptionsIff(h: Header)
    ensures ToOptions(h).Some? <==> h.gsoType == 0 || h.gsoType == 1 || h.gsoType == 3 || h.gsoType == 5
    ensures ToOptions(h).Some? ==>
              var o := ToOptions(h).value;
              && (o.gsoType.NoGso? <==> h.gsoType == 0) && (o.gsoType.TcpV4? <==> h.gsoType == 1)
              && (o.gsoType.TcpV6? <==> h.gsoType == 3) && (o.gsoType.UdpL4? <==> h.gsoType == 5)
              && o.hdrLen == h.hdrLen && o.gsoSize == h.gsoSize
              && o.csumStart == h.csumStart && o.csumOffset == h.csumOffset
              && (o.needsCsum <==> h.flags % 2 == 1)
  {}
}
