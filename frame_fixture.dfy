/** The frame of the test in `src/net/mod.rs`: 70 bytes holding an Ethernet
    header, an IPv4 header without options and a UDP datagram (a DNS query)
    whose checksum field holds 0x85ef where the checksum is 0x85ed. The test
    decodes it, sees that it does not verify, writes `checksum()` at bytes
    40-41 and sees that it then verifies. The datagram's sums are taken as
    in `ChecksumVectors`. */
module FrameFixture {
  import opened Wire
  import opened Checksum
  import opened ChecksumVectors
  import Ethernet
  import Ipv4
  import opened Layers

  function EthernetBytes(): seq<Byte> {
    [0x00, 0xc0, 0x9f, 0x32, 0x41, 0x8c, 0x00, 0xe0, 0x18, 0xb1, 0x0c, 0xad, 0x08, 0x00]
  }

  function Ipv4Bytes(): seq<Byte> {
    [0x45, 0x00, 0x00, 0x38, 0x00, 0x00, 0x40, 0x00, 0x40, 0x11] +
    [0x65, 0x47, 0xc0, 0xa8, 0xaa, 0x08, 0xc0, 0xa8, 0xaa, 0x14]
  }

  /** The input of `test_layer_encode_and_decode`. */
  function Frame(): seq<Byte> {
    EthernetBytes() + Ipv4Bytes() + DnsSegment()
  }

  function FrameEthernet(): Ethernet.EthernetHeader {
    Ethernet.EthernetHeader([0x00, 0xc0, 0x9f, 0x32, 0x41, 0x8c], [0x00, 0xe0, 0x18, 0xb1, 0x0c, 0xad], 0x0800)
  }

  /** Version 4, 20-byte header, total length 56, "don't fragment", TTL 64,
      protocol 17, header checksum 0x6547, 192.168.170.8 to 192.168.170.20. */
  function FrameIpv4(): Ipv4.Ipv4Header {
    Ipv4.Ipv4Header(4, 20, 0, 0x38, 0, 2, 0, 0x40, 17, 0x6547,
                    [0xc0, 0xa8, 0xaa, 0x08], [0xc0, 0xa8, 0xaa, 0x14], [])
  }

  function FrameLayer(): ChecksumLayer {
    ChecksumLayer(FrameEthernet(), Layer3.Ipv4(FrameIpv4()), DnsSegment())
  }

  // The UDP datagram of the frame

  function DnsHead(): seq<Byte> {
    [0x80, 0x1b, 0x00, 0x35, 0x00, 0x24]
  }

  function DnsField(): seq<Byte> {
    [0x85, 0xef]
  }

  function DnsRest0(): seq<Byte> {
    [0x10, 0x32, 0x01, 0x00, 0x00, 0x01, 0x00, 0x00]
  }

  function DnsRest1(): seq<Byte> {
    [0x00, 0x00, 0x00, 0x00, 0x06, 0x67, 0x6f, 0x6f]
  }

  function DnsRest2(): seq<Byte> {
    [0x67, 0x6c, 0x65, 0x03, 0x63, 0x6f, 0x6d, 0x00]
  }

  function DnsRest3(): seq<Byte> {
    [0x00, 0x10, 0x00, 0x01]
  }

  function DnsRest(): seq<Byte> {
    DnsRest0() + (DnsRest1() + (DnsRest2() + DnsRest3()))
  }

  function DnsSegment(): seq<Byte> {
    DnsHead() + DnsField() + DnsRest()
  }

  predicate IsDnsVector(cs: CheckSum) {
    && cs.srcIp == [0xc0, 0xa8, 0xaa, 0x08] && cs.dstIp == [0xc0, 0xa8, 0xaa, 0x14]
    && cs.protocol == 17 && cs.input == DnsSegment()
  }

  lemma DnsHeadSum()
    ensures WordSum(DnsHead()) == 0x8074
  {

  }

  lemma DnsFieldSum()
    ensures WordSum(DnsField()) == 0x85ef
  {

  }

  lemma DnsRest0Sum()
    ensures WordSum(DnsRest0()) == 0x1133
  {
    WordSumOfEight(DnsRest0());
  }

  lemma DnsRest1Sum()
    ensures WordSum(DnsRest1()) == 0x75d6
  {
    WordSumOfEight(DnsRest1());
  }

  lemma DnsRest2Sum()
    ensures WordSum(DnsRest2()) == 0x19cde
  {
    WordSumOfEight(DnsRest2());
  }

  lemma DnsRest3Sum()
    ensures TailSum(DnsRest3()) == 0x11
  {

  }

  lemma DnsRestSum()
    ensures TailSum(DnsRest()) == 0x223f8
  {
    TailSumAppend(DnsRest0(), DnsRest1() + (DnsRest2() + DnsRest3()));
    TailSumAppend(DnsRest1(), DnsRest2() + DnsRest3());
    TailSumAppend(DnsRest2(), DnsRest3());
    DnsRest0Sum();
    DnsRest1Sum();
    DnsRest2Sum();
    DnsRest3Sum();
  }

  lemma DnsLayout(cs: CheckSum)
    requires IsDnsVector(cs)
    ensures PseudoHeaderSum(cs) == 0x2d5a1
    ensures FirstInput(cs) == DnsHead() && LastInput(cs) == DnsRest()
  {
    AddressWordSum(cs.srcIp);
    AddressWordSum(cs.dstIp);
    SlicesAroundField(cs, DnsHead(), DnsField(), DnsRest());
  }

  lemma DnsFirstSum(cs: CheckSum)
    requires FirstInput(cs) == DnsHead()
    ensures WordSum(FirstInput(cs)) == 0x8074
  {
    DnsHeadSum();
  }

  lemma DnsLastSum(cs: CheckSum)
    requires LastInput(cs) == DnsRest()
    ensures TailSum(LastInput(cs)) == 0x223f8
  {
    DnsRestSum();
  }

  lemma DnsWholeSum(cs: CheckSum)
    requires cs.input == DnsSegment()
    ensures TailSum(cs.input) == 0x32a5b
  {
    DnsHeadSum();
    DnsFieldSum();
    DnsRestSum();
    SegmentSum(cs.input, DnsHead(), DnsField(), DnsRest(), 3);
  }

  lemma DnsFolds()
    ensures EndAroundCarry(0x57a0d) == 0x7a12 && EndAroundCarry(0x5fffc) == 0x2
  {
  }

  /** The segment of the UDP datagram of the frame: it does not verify, and its checksum is 0x85ed. */
  lemma DnsQuerySegment(cs: CheckSum)
    requires IsDnsVector(cs)
    ensures !Verifies(cs) && ChecksumOf(cs) == 0x85ed
  {
    DnsLayout(cs);
    DnsFirstSum(cs);
    DnsLastSum(cs);
    DnsWholeSum(cs);
    DnsFolds();
    ResultsFromSums(cs, 0x2d5a1, 0x8074, 0x223f8, 0x32a5b, 0x57a0d, 0x5fffc);
  }

  lemma EthernetBytesEncodeHeader()
    ensures Ethernet.WellFormed(FrameEthernet()) && Ethernet.Encode(FrameEthernet()) == EthernetBytes()
  {
  }

  lemma Ipv4BytesEncodeHeader()
    ensures Ipv4.WellFormed(FrameIpv4()) && Ipv4.Encode(FrameIpv4()) == Ipv4Bytes()
  {
  }

  /** The frame decodes into its two headers, with the UDP datagram as
      `remain`. */
  lemma FrameDecodes()
    ensures DecodeChecksumLayer(Frame()) == Some(FrameLayer())
  {
    EthernetBytesEncodeHeader();
    Ipv4BytesEncodeHeader();
    assert EncodeChecksumLayer(FrameLayer()) == Frame();
    ChecksumLayerDecodeEncode(FrameLayer());
  }

  /** `assert_eq!(value.verify(), false)`, and `checksum()` is 0x85ed. */
  lemma FrameDoesNotVerify()
    ensures DecodeChecksumLayer(Frame()).Some?
    ensures !LayerVerify(DecodeChecksumLayer(Frame()).value)
    ensures LayerChecksum(DecodeChecksumLayer(Frame()).value) == Some(0x85ed)
  {
    FrameDecodes();
    DnsQuerySegment(CheckSum(FrameIpv4().src, FrameIpv4().dst, 17, DnsSegment()));
  }

  lemma FrameChecksum()
    ensures |Frame()| == 70
    ensures DecodeChecksumLayer(Frame()) == Some(FrameLayer())
    ensures LayerChecksum(FrameLayer()) == Some(0x85ed)
  {
    FrameDecodes();
    DnsQuerySegment(CheckSum(FrameIpv4().src, FrameIpv4().dst, 17, DnsSegment()));
  }

  /** `assert_eq!(value.verify(), true)` after `checksum()` is written
      big-endian at bytes 40-41. */
  lemma PatchedFrameVerifiesAfterPatch()
    ensures var patched := PutBe16(Frame(), 40, 0x85ed);
      DecodeChecksumLayer(patched).Some? && LayerVerify(DecodeChecksumLayer(patched).value)
  {
    FrameChecksum();
    PatchedFrameVerifies(Frame());
  }
}
