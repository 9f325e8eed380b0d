/** `UdpHeader` of `src/net/udp.rs`: four big-endian `u16` words (RFC 768).
    `length` is kept as it is on the wire: it is not compared with the
    buffer and does not bound any payload. `_mark` takes no bytes. */
module Udp {
  import opened Wire
  import opened Checksum

  const HeaderLength: nat := 8

  /** Where the checksum word starts, the offset `CheckSum::checksum` skips
      for protocol 17. */
  const ChecksumOffset: nat := 6

  datatype UdpHeader = UdpHeader(sport: U16, dport: U16, length: U16, checksum: U16)

  /** Decoding takes exactly 8 bytes and fails on anything shorter. */
  function Decode(b: seq<Byte>): (r: Option<(UdpHeader, seq<Byte>)>)
    ensures r.Some? <==> |b| >= HeaderLength
    ensures r.Some? ==> r.value.1 == b[HeaderLength..]
  {
    if |b| < HeaderLength then None
    else Some((UdpHeader(Be16(b[0], b[1]), Be16(b[2], b[3]), Be16(b[4], b[5]), Be16(b[6], b[7])), b[HeaderLength..]))
  }

  function Encode(h: UdpHeader): (r: seq<Byte>)
    ensures |r| == HeaderLength
  {
    ToBe16(h.sport) + ToBe16(h.dport) + ToBe16(h.length) + ToBe16(h.checksum)
  }

  /** Decoding an encoded header gives the header back, whatever its `length`
      field says, and leaves what follows it untouched. */
  lemma DecodeEncode(h: UdpHeader, rest: seq<Byte>)
    ensures Decode(Encode(h) + rest) == Some((h, rest))
  {
    var b := Encode(h) + rest;
    assert b[0..2] == ToBe16(h.sport) && b[2..4] == ToBe16(h.dport);
    assert b[4..6] == ToBe16(h.length) && b[6..8] == ToBe16(h.checksum);
  }

  /** Encoding a decoded header reproduces exactly the 8 bytes it consumed. */
  lemma EncodeDecode(b: seq<Byte>)
    requires Decode(b).Some?
    ensures Encode(Decode(b).value.0) + Decode(b).value.1 == b
  {
    Be16Injective(b[0], b[1]);
    Be16Injective(b[2], b[3]);
    Be16Injective(b[4], b[5]);
    Be16Injective(b[6], b[7]);
    assert Encode(Decode(b).value.0) == b[..HeaderLength];
  }

  /** The header's checksum word is the field `CheckSum::checksum` leaves
      out for protocol 17: rewriting it does not change the checksum. */
  lemma ChecksumSkipsChecksumWord(cs: CheckSum, v: U16)
    requires cs.protocol == 17 && Decode(cs.input).Some?
    ensures ChecksumOf(cs.(input := Encode(Decode(cs.input).value.0.(checksum := v)) + Decode(cs.input).value.1)) ==
      ChecksumOf(cs)
  {
    var (h, rest) := Decode(cs.input).value;
    var other := cs.(input := Encode(h.(checksum := v)) + rest);
    EncodeDecode(cs.input);
    assert FieldOffset(17) == Some(ChecksumOffset);
    forall i | 0 <= i < |cs.input| && (i < ChecksumOffset || i >= ChecksumOffset + 2)
      ensures other.input[i] == cs.input[i]
    {
      if i >= HeaderLength {
        assert other.input[i] == rest[i - HeaderLength];
      }
    }
    ChecksumIgnoresField(cs, other);
  }
}
