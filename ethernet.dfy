/** `EthernetHeader` of `src/net/ethernet.rs`: a fixed 14-byte layout
    declared field by field. The fields are read in declaration order, so the
    first six bytes become `smac` and the next six `dmac` (the reverse of the
    destination-first order of IEEE 802.3 clause 3.2); the type is a
    big-endian `u16`. `_mark` is a `PhantomData` and takes no bytes. */
module Ethernet {
  import opened Wire

  const HeaderLength: nat := 14

  datatype EthernetHeader = EthernetHeader(smac: seq<Byte>, dmac: seq<Byte>, etherType: U16)

  /** Both `MacAddress` fields hold six octets. */
  predicate WellFormed(h: EthernetHeader) {
    |h.smac| == 6 && |h.dmac| == 6
  }

  /** Decoding takes exactly 14 bytes and fails on anything shorter. */
  function Decode(b: seq<Byte>): (r: Option<(EthernetHeader, seq<Byte>)>)
    ensures r.Some? <==> |b| >= HeaderLength
    ensures r.Some? ==> WellFormed(r.value.0) && r.value.1 == b[HeaderLength..]
  {
    if |b| < HeaderLength then None
    else Some((EthernetHeader(b[..6], b[6..12], Be16(b[12], b[13])), b[HeaderLength..]))
  }

  function Encode(h: EthernetHeader): (r: seq<Byte>)
    requires WellFormed(h)
    ensures |r| == HeaderLength
  {
    h.smac + h.dmac + ToBe16(h.etherType)
  }

  /** Decoding an encoded header gives the header back and leaves what
      follows it untouched. */
  lemma DecodeEncode(h: EthernetHeader, rest: seq<Byte>)
    requires WellFormed(h)
    ensures Decode(Encode(h) + rest) == Some((h, rest))
  {
    var b := Encode(h) + rest;
    assert b[..6] == h.smac && b[6..12] == h.dmac;
    assert b[12..14] == ToBe16(h.etherType);
    assert b[HeaderLength..] == rest;
  }

  /** Encoding a decoded header reproduces exactly the bytes it consumed. */
  lemma EncodeDecode(b: seq<Byte>)
    requires Decode(b).Some?
    ensures Encode(Decode(b).value.0) + Decode(b).value.1 == b
  {
    var h := Decode(b).value.0;
    Be16Injective(b[12], b[13]);
    assert Encode(h) == b[..HeaderLength];
  }
}
