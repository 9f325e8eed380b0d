/** The frame views of `src/net/mod.rs`: the Ethernet header, a `Layer3`
    chosen by the Ethernet type, a `Layer4` chosen by the IP protocol, and
    the bytes that remain; and `ChecksumLayer`, which hands the IPv4
    addresses, the protocol and the remaining bytes to the checksum
    engine. */
module Layers {
  import opened Wire
  import opened Checksum
  import Ethernet
  import Ipv4
  import Tcp
  import Udp

  /** `branch_value=0x0800` (RFC 894). */
  const Ipv4EtherType: U16 := 0x0800
  /** `branch_value=6` and `branch_value=17`. */
  const TcpProtocol: Byte := 6
  const UdpProtocol: Byte := 17

  datatype Layer3 = Ipv4(ipv4: Ipv4.Ipv4Header) | Unknown

  datatype Layer4 = Tcp(tcp: Tcp.TcpHeader) | Udp(udp: Udp.UdpHeader) | Unknown

  /** `std::net::IpAddr`; only the `V4` variant is ever built here. */
  datatype IpAddr = V4(octets: seq<Byte>)

  // ---------------------------------------------------------------------
  // Layer3
  // ---------------------------------------------------------------------

  /** `Layer3` decoded on the branch `layer12.type`: the IPv4 header for
      0x0800, whose failure fails the whole decode; `Unknown`, which consumes
      nothing, for any other type. */
  function DecodeLayer3(etherType: U16, b: seq<Byte>): (r: Option<(Layer3, seq<Byte>)>)
    ensures r.None? <==> etherType == Ipv4EtherType && Ipv4.Decode(b).None?
    ensures r.Some? ==> (r.value.0.Ipv4? <==> etherType == Ipv4EtherType)
    ensures r.Some? && r.value.0.Unknown? ==> r.value.1 == b
  {
    if etherType == Ipv4EtherType then
      match Ipv4.Decode(b)
      case None => None
      case Some((h, rest)) => Some((Ipv4(h), rest))
    else Some((Layer3.Unknown, b))
  }

  /** `Layer3::get_protocol`. */
  function GetProtocol(l: Layer3): (r: Option<Byte>)
    ensures r.Some? <==> l.Ipv4?
  {
    match l
    case Ipv4(h) => Some(h.protocol)
    case Unknown => None
  }

  /** `Layer3::get_src`. */
  function GetSrc(l: Layer3): (r: Option<IpAddr>)
    ensures r.Some? <==> l.Ipv4?
  {
    match l
    case Ipv4(h) => Some(V4(h.src))
    case Unknown => None
  }

  /** `Layer3::get_dst`. */
  function GetDst(l: Layer3): (r: Option<IpAddr>)
    ensures r.Some? <==> l.Ipv4?
  {
    match l
    case Ipv4(h) => Some(V4(h.dst))
    case Unknown => None
  }

  /** `Layer3::get_src_vec`: the octets of `get_src`. */
  function GetSrcVec(l: Layer3): (r: Option<seq<Byte>>)
    ensures r.Some? <==> GetSrc(l).Some?
    ensures r.Some? ==> r.value == GetSrc(l).value.octets
  {
    match l
    case Ipv4(h) => Some(h.src)
    case Unknown => None
  }

  /** `Layer3::get_dst_vec`: the octets of `get_dst`. */
  function GetDstVec(l: Layer3): (r: Option<seq<Byte>>)
    ensures r.Some? <==> GetDst(l).Some?
    ensures r.Some? ==> r.value == GetDst(l).value.octets
  {
    match l
    case Ipv4(h) => Some(h.dst)
    case Unknown => None
  }

  /** A decoded IPv4 `Layer3` yields both addresses as exactly four octets,
      the octets at bytes 12-15 and 16-19 of its header. */
  lemma DecodedAddressesAreFourOctets(etherType: U16, b: seq<Byte>)
    requires DecodeLayer3(etherType, b).Some? && DecodeLayer3(etherType, b).value.0.Ipv4?
    ensures GetSrcVec(DecodeLayer3(etherType, b).value.0) == Some(b[12..16])
    ensures GetDstVec(DecodeLayer3(etherType, b).value.0) == Some(b[16..20])
  {
  }

  // ---------------------------------------------------------------------
  // Layer4
  // ---------------------------------------------------------------------

  /** `Layer4` decoded on the branch `layer3.get_protocol().unwrap_or_default()`:
      a TCP header for 6, a UDP header for 17, `Unknown` (consuming nothing)
      for any other value. */
  function DecodeLayer4(protocol: Byte, b: seq<Byte>): (r: Option<(Layer4, seq<Byte>)>)
    ensures r.None? <==> (protocol == TcpProtocol && Tcp.Decode(b).None?) || (protocol == UdpProtocol && Udp.Decode(b).None?)
    ensures r.Some? ==> (r.value.0.Tcp? <==> protocol == TcpProtocol) && (r.value.0.Udp? <==> protocol == UdpProtocol)
    ensures r.Some? && r.value.0.Unknown? ==> r.value.1 == b
  {
    if protocol == TcpProtocol then
      match Tcp.Decode(b)
      case None => None
      case Some((h, rest)) => Some((Tcp(h), rest))
    else if protocol == UdpProtocol then
      match Udp.Decode(b)
      case None => None
      case Some((h, rest)) => Some((Udp(h), rest))
    else Some((Layer4.Unknown, b))
  }

  /** `Layer4::get_sport`. */
  function GetSport(l: Layer4): (r: Option<U16>)
    ensures r.Some? <==> !l.Unknown?
  {
    match l
    case Tcp(h) => Some(h.sport)
    case Udp(h) => Some(h.sport)
    case Unknown => None
  }

  /** `Layer4::get_dport`. */
  function GetDport(l: Layer4): (r: Option<U16>)
    ensures r.Some? <==> !l.Unknown?
  {
    match l
    case Tcp(h) => Some(h.dport)
    case Udp(h) => Some(h.dport)
    case Unknown => None
  }

  /** `Layer4::get_tcp_flags`. */
  function GetTcpFlags(l: Layer4): (r: Option<U16>)
    ensures r.Some? <==> l.Tcp?
  {
    match l
    case Tcp(h) => Some(h.flags)
    case _ => None
  }

  /** Ports sit in the first two words of both headers; the flags of a
      decoded TCP header are its 12 low bits. */
  lemma DecodedPortsAndFlags(protocol: Byte, b: seq<Byte>)
    requires DecodeLayer4(protocol, b).Some? && !DecodeLayer4(protocol, b).value.0.Unknown?
    ensures GetSport(DecodeLayer4(protocol, b).value.0) == Some(Be16(b[0], b[1]))
    ensures GetDport(DecodeLayer4(protocol, b).value.0) == Some(Be16(b[2], b[3]))
    ensures protocol == TcpProtocol ==>
      GetTcpFlags(DecodeLayer4(protocol, b).value.0) == Some(Be16(b[12], b[13]) % 0x1000)
  {
  }

  // ---------------------------------------------------------------------
  // Layer and ChecksumLayer
  // ---------------------------------------------------------------------

  /** `Layer`: every byte after the `Layer4` header is `remain`. */
  datatype Layer = Layer(layer12: Ethernet.EthernetHeader, layer3: Layer3, layer4: Layer4, remain: seq<Byte>)

  /** `ChecksumLayer`: every byte after the `Layer3` header is `remain`. */
  datatype ChecksumLayer = ChecksumLayer(layer12: Ethernet.EthernetHeader, layer3: Layer3, remain: seq<Byte>)

  /** `unwrap_or_default()` of an `Option<u8>`. */
  function ProtocolOrDefault(p: Option<Byte>): (r: Byte)
    ensures p.Some? ==> r == p.value
    ensures p.None? ==> r == 0
  {
    match p
    case Some(v) => v
    case None => 0
  }

  /** `jppe::decode_borrow::<Layer>`: the Ethernet and Layer3 headers as in
      `ChecksumLayer`, then the Layer4 header, selected by the protocol or 0,
      out of what `ChecksumLayer` leaves in `remain`. */
  function DecodeLayer(b: seq<Byte>): (r: Option<Layer>)
    ensures r.Some? ==> DecodeChecksumLayer(b).Some?
    ensures DecodeChecksumLayer(b).Some? ==>
      var c := DecodeChecksumLayer(b).value;
      match DecodeLayer4(ProtocolOrDefault(GetProtocol(c.layer3)), c.remain)
      case None => r.None?
      case Some((l4, rest)) => r == Some(Layer(c.layer12, c.layer3, l4, rest))
  {
    match Ethernet.Decode(b)
    case None => None
    case Some((eth, r1)) =>
      match DecodeLayer3(eth.etherType, r1)
      case None => None
      case Some((l3, r2)) =>
        match DecodeLayer4(ProtocolOrDefault(GetProtocol(l3)), r2)
        case None => None
        case Some((l4, r3)) => Some(Layer(eth, l3, l4, r3))
  }

  /** `jppe::decode_borrow::<ChecksumLayer>`: fails exactly when the frame
      is shorter than an Ethernet header or, for type 0x0800, holds no whole
      IPv4 header after it. */
  function DecodeChecksumLayer(b: seq<Byte>): (r: Option<ChecksumLayer>)
    ensures r.Some? <==>
      |b| >= Ethernet.HeaderLength &&
      (Be16(b[12], b[13]) == Ipv4EtherType ==> Ipv4.Decode(b[Ethernet.HeaderLength..]).Some?)
    ensures r.Some? ==> (r.value.layer3.Ipv4? <==> Be16(b[12], b[13]) == Ipv4EtherType)
  {
    match Ethernet.Decode(b)
    case None => None
    case Some((eth, r1)) =>
      match DecodeLayer3(eth.etherType, r1)
      case None => None
      case Some((l3, r2)) => Some(ChecksumLayer(eth, l3, r2))
  }

  /** An `Unknown` Layer3 has no protocol, so the default 0 selects an
      `Unknown` Layer4 and everything after the Ethernet header remains. */
  lemma UnknownLayer3HasUnknownLayer4(b: seq<Byte>)
    requires DecodeLayer(b).Some? && DecodeLayer(b).value.layer3.Unknown?
    ensures DecodeLayer(b).value.layer4.Unknown?
    ensures DecodeLayer(b).value.remain == b[Ethernet.HeaderLength..]
  {
  }

  /** `ChecksumLayer` decodes exactly when the frame holds an Ethernet header
      and, for type 0x0800, a whole IPv4 header after it. `remain` is every
      byte after that header: it is not cut at the IPv4 total length, so
      link-layer padding is part of it. */
  lemma ChecksumLayerRemain(b: seq<Byte>)
    ensures DecodeChecksumLayer(b).Some? <==>
      |b| >= Ethernet.HeaderLength &&
      (Be16(b[12], b[13]) == Ipv4EtherType ==> Ipv4.Decode(b[Ethernet.HeaderLength..]).Some?)
    ensures DecodeChecksumLayer(b).Some? && DecodeChecksumLayer(b).value.layer3.Ipv4? ==>
      DecodeChecksumLayer(b).value.remain == b[Ethernet.HeaderLength + DecodeChecksumLayer(b).value.layer3.ipv4.headerLength..]
    ensures DecodeChecksumLayer(b).Some? && DecodeChecksumLayer(b).value.layer3.Unknown? ==>
      DecodeChecksumLayer(b).value.remain == b[Ethernet.HeaderLength..]
  {
    if |b| >= Ethernet.HeaderLength {
      var r1 := b[Ethernet.HeaderLength..];
      if DecodeChecksumLayer(b).Some? && DecodeChecksumLayer(b).value.layer3.Ipv4? {
        var hl := DecodeChecksumLayer(b).value.layer3.ipv4.headerLength;
        assert r1[hl..] == b[Ethernet.HeaderLength + hl..];
      }
    }
  }

  /** The pseudo-header and segment `ChecksumLayer` hands to `CheckSum`: the
      source and destination octets, the protocol and `remain`. */
  function Segment(c: ChecksumLayer): (r: Option<CheckSum>)
    ensures r.Some? <==> c.layer3.Ipv4?
  {
    match (GetSrcVec(c.layer3), GetDstVec(c.layer3), GetProtocol(c.layer3))
    case (Some(src), Some(dst), Some(protocol)) => Some(CheckSum(src, dst, protocol, c.remain))
    case _ => None
  }

  /** `ChecksumLayer::checksum`: `None` exactly when Layer3 is not IPv4;
      for IPv4, `Some` for every protocol (not only 6 and 17), computed over
      `remain` with the header's addresses and protocol. */
  function LayerChecksum(c: ChecksumLayer): (r: Option<U16>)
    ensures r.Some? <==> c.layer3.Ipv4?
    ensures r.Some? ==> r.value == ChecksumOf(CheckSum(c.layer3.ipv4.src, c.layer3.ipv4.dst, c.layer3.ipv4.protocol, c.remain))
  {
    match Segment(c)
    case Some(cs) => Some(ChecksumOf(cs))
    case None => None
  }

  /** `ChecksumLayer::verify`: false when Layer3 is not IPv4, otherwise
      `CheckSum::verify` over `remain`. */
  predicate LayerVerify(c: ChecksumLayer)
    ensures LayerVerify(c) ==> c.layer3.Ipv4?
    ensures c.layer3.Ipv4? ==>
      (LayerVerify(c) <==> Verifies(CheckSum(c.layer3.ipv4.src, c.layer3.ipv4.dst, c.layer3.ipv4.protocol, c.remain)))
  {
    match Segment(c)
    case Some(cs) => Verifies(cs)
    case None => false
  }

  // ---------------------------------------------------------------------
  // Encoding a ChecksumLayer, and the checksum patch of the test
  // ---------------------------------------------------------------------

  /** The values a decoded `ChecksumLayer` can hold. */
  predicate WellFormed(c: ChecksumLayer) {
    && Ethernet.WellFormed(c.layer12)
    && (c.layer3.Ipv4? <==> c.layer12.etherType == Ipv4EtherType)
    && (c.layer3.Ipv4? ==> Ipv4.WellFormed(c.layer3.ipv4))
  }

  /** `BorrowByteEncode` of a `ChecksumLayer`: the headers, then `remain`. */
  function EncodeChecksumLayer(c: ChecksumLayer): (r: seq<Byte>)
    requires WellFormed(c)
    ensures |r| == Ethernet.HeaderLength + (if c.layer3.Ipv4? then c.layer3.ipv4.headerLength else 0) + |c.remain|
  {
    Ethernet.Encode(c.layer12)
    + (match c.layer3 case Ipv4(h) => Ipv4.Encode(h) case Unknown => [])
    + c.remain
  }

  lemma ChecksumLayerDecodeEncode(c: ChecksumLayer)
    requires WellFormed(c)
    ensures DecodeChecksumLayer(EncodeChecksumLayer(c)) == Some(c)
  {
    var l3 := match c.layer3 case Ipv4(h) => Ipv4.Encode(h) case Unknown => [];
    assert EncodeChecksumLayer(c) == Ethernet.Encode(c.layer12) + (l3 + c.remain);
    Ethernet.DecodeEncode(c.layer12, l3 + c.remain);
    if c.layer3.Ipv4? {
      Ipv4.DecodeEncode(c.layer3.ipv4, c.remain);
    } else {
      assert l3 + c.remain == c.remain;
    }
  }

  lemma ChecksumLayerEncodeDecode(b: seq<Byte>)
    requires DecodeChecksumLayer(b).Some?
    ensures WellFormed(DecodeChecksumLayer(b).value)
    ensures EncodeChecksumLayer(DecodeChecksumLayer(b).value) == b
  {
    var c := DecodeChecksumLayer(b).value;
    Ethernet.EncodeDecode(b);
    var r1 := b[Ethernet.HeaderLength..];
    if c.layer3.Ipv4? {
      Ipv4.EncodeDecode(r1);
    }
  }

  /** Where the test of `src/net/mod.rs` (and the write tool) puts the
      checksum: after a 14-byte Ethernet header and a 20-byte IPv4 header,
      at the field offset of the protocol. */
  function ChecksumPatchOffset(protocol: Byte): (r: Option<nat>)
    ensures r.Some? <==> FieldOffset(protocol).Some?
    ensures r.Some? ==> r.value == Ethernet.HeaderLength + Ipv4.MinHeaderLength + FieldOffset(protocol).value
  {
    if protocol == UdpProtocol then Some(14 + 20 + 6)
    else if protocol == TcpProtocol then Some(14 + 20 + 16)
    else None
  }

  /** Writing `checksum()` into a frame changes only `remain`, in the
      checksum field, when the IPv4 header has no options. */
  lemma PatchChangesOnlyRemain(b: seq<Byte>, v: U16)
    requires DecodeChecksumLayer(b).Some? && DecodeChecksumLayer(b).value.layer3.Ipv4?
    requires DecodeChecksumLayer(b).value.layer3.ipv4.headerLength == Ipv4.MinHeaderLength
    requires ChecksumPatchOffset(DecodeChecksumLayer(b).value.layer3.ipv4.protocol).Some?
    requires ChecksumPatchOffset(DecodeChecksumLayer(b).value.layer3.ipv4.protocol).value + 2 <= |b|
    ensures var c := DecodeChecksumLayer(b).value;
      var off := FieldOffset(c.layer3.ipv4.protocol).value;
      off + 2 <= |c.remain| &&
      DecodeChecksumLayer(PutBe16(b, ChecksumPatchOffset(c.layer3.ipv4.protocol).value, v)) ==
        Some(c.(remain := PutBe16(c.remain, off, v)))
  {
    var c := DecodeChecksumLayer(b).value;
    var off := FieldOffset(c.layer3.ipv4.protocol).value;
    ChecksumLayerEncodeDecode(b);
    var prefix := Ethernet.Encode(c.layer12) + Ipv4.Encode(c.layer3.ipv4);
    assert b == prefix + c.remain;
    PutBe16Append(prefix, c.remain, off, v);
    var c2 := c.(remain := PutBe16(c.remain, off, v));
    assert EncodeChecksumLayer(c2) == prefix + c2.remain;
    ChecksumLayerDecodeEncode(c2);
  }

  /** The test of `src/net/mod.rs`, for every frame: writing `checksum()`
      big-endian at byte 40 (UDP) or 50 (TCP) of a frame with an option-less
      IPv4 header makes the re-decoded frame verify. */
  lemma PatchedFrameVerifies(b: seq<Byte>)
    requires DecodeChecksumLayer(b).Some? && DecodeChecksumLayer(b).value.layer3.Ipv4?
    requires DecodeChecksumLayer(b).value.layer3.ipv4.headerLength == Ipv4.MinHeaderLength
    requires ChecksumPatchOffset(DecodeChecksumLayer(b).value.layer3.ipv4.protocol).Some?
    requires ChecksumPatchOffset(DecodeChecksumLayer(b).value.layer3.ipv4.protocol).value + 2 <= |b| < 0x1_0000
    ensures var c := DecodeChecksumLayer(b).value;
      var patched := PutBe16(b, ChecksumPatchOffset(c.layer3.ipv4.protocol).value, LayerChecksum(c).value);
      DecodeChecksumLayer(patched).Some? && LayerVerify(DecodeChecksumLayer(patched).value)
  {
    var c := DecodeChecksumLayer(b).value;
    var h := c.layer3.ipv4;
    var v := LayerChecksum(c).value;
    PatchChangesOnlyRemain(b, v);
    ChecksumLayerRemain(b);
    ChecksumRoundTrip(CheckSum(h.src, h.dst, h.protocol, c.remain));
  }

  /** Writing a big-endian word at bytes 16-17 of a frame that decodes with
      an IPv4 header changes its total length and nothing else. */
  lemma TotalLengthPatchChangesOnlyTotalLength(b: seq<Byte>, v: U16)
    requires DecodeChecksumLayer(b).Some? && DecodeChecksumLayer(b).value.layer3.Ipv4?
    ensures Ethernet.HeaderLength + 4 <= |b|
    ensures var c := DecodeChecksumLayer(b).value;
      DecodeChecksumLayer(PutBe16(b, Ethernet.HeaderLength + 2, v)) ==
        Some(c.(layer3 := Layer3.Ipv4(c.layer3.ipv4.(totalLength := v))))
  {
    var c := DecodeChecksumLayer(b).value;
    var h := c.layer3.ipv4;
    ChecksumLayerEncodeDecode(b);
    var eth, ip := Ethernet.Encode(c.layer12), Ipv4.Encode(h);
    assert b == eth + (ip + c.remain);
    PutBe16Append(eth, ip + c.remain, 2, v);
    PutBe16Prefix(ip, c.remain, 2, v);
    Ipv4.EncodeTotalLength(h, v);
    var c2 := c.(layer3 := Layer3.Ipv4(h.(totalLength := v)));
    assert EncodeChecksumLayer(c2) == eth + (Ipv4.Encode(h.(totalLength := v)) + c.remain);
    ChecksumLayerDecodeEncode(c2);
  }

  /** The IPv4 total length of a frame is the big-endian word at bytes
      16-17. */
  lemma TotalLengthWord(b: seq<Byte>)
    requires DecodeChecksumLayer(b).Some? && DecodeChecksumLayer(b).value.layer3.Ipv4?
    ensures |b| >= Ethernet.HeaderLength + 4
    ensures Be16(b[16], b[17]) == DecodeChecksumLayer(b).value.layer3.ipv4.totalLength
  {
    var r1 := b[Ethernet.HeaderLength..];
    assert r1[2] == b[16] && r1[3] == b[17];
  }
}
