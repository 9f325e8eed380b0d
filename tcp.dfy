/** `TcpHeader` of `src/net/tcp.rs` (RFC 793 section 3.1), declared field by
    field. The word at bytes 12-13 is read twice (`untake`): its top nibble,
    times four, is `header_length` (the data offset in bytes) and its low
    12 bits are `flags`. `options` takes `header_length - 20` bytes. */
module Tcp {
  import opened Wire
  import opened Checksum

  /** The header without options. */
  const MinHeaderLength: nat := 20

  /** Where the checksum word starts, the offset `CheckSum::checksum` skips
      for protocol 6. */
  const ChecksumOffset: nat := 16

  datatype TcpHeader = TcpHeader(
    sport: U16, dport: U16, sequence: U32, ack: U32, headerLength: U16,
    flags: U16, window: U16, checksum: U16, urgentPointer: U16,
    options: seq<Byte>)

  /** `bits_start=0xf000` then `value_decode="header_length * 4"`. */
  function HeaderLengthOf(word: U16): (r: nat)
    ensures r % 4 == 0 && r <= 60
  {
    (word / 0x1000) * 4
  }

  /** The values a decoded header can hold, which `Encode` packs back. */
  predicate WellFormed(h: TcpHeader) {
    && h.headerLength % 4 == 0 && MinHeaderLength <= h.headerLength <= 60
    && h.flags < 0x1000
    && |h.options| == h.headerLength - MinHeaderLength
  }

  /** Decoding fails when the buffer is shorter than the fixed 20 bytes, when
      the data offset is below 5 (the options length `header_length - 20`
      would be negative) and when the buffer is shorter than `header_length`;
      otherwise it consumes exactly `header_length` bytes. */
  function Decode(b: seq<Byte>): (r: Option<(TcpHeader, seq<Byte>)>)
    ensures r.Some? <==> |b| >= MinHeaderLength && MinHeaderLength <= HeaderLengthOf(Be16(b[12], b[13])) <= |b|
    ensures r.Some? ==> && WellFormed(r.value.0)
                        && r.value.0.headerLength == HeaderLengthOf(Be16(b[12], b[13]))
                        && r.value.1 == b[r.value.0.headerLength..]
  {
    if |b| < MinHeaderLength then None
    else
      var word := Be16(b[12], b[13]);
      var hl := HeaderLengthOf(word);
      if hl < MinHeaderLength || |b| < hl then None
      else
        Some((TcpHeader(Be16(b[0], b[1]), Be16(b[2], b[3]), Be32(b[4..8]), Be32(b[8..12]),
                        hl, word % 0x1000, Be16(b[14], b[15]), Be16(b[16], b[17]),
                        Be16(b[18], b[19]), b[20..hl]),
              b[hl..]))
  }

  function Encode(h: TcpHeader): (r: seq<Byte>)
    requires WellFormed(h)
    ensures |r| == h.headerLength
  {
    ToBe16(h.sport) + ToBe16(h.dport) + ToBe32(h.sequence) + ToBe32(h.ack)
    + ToBe16(h.headerLength / 4 * 0x1000 + h.flags)
    + ToBe16(h.window) + ToBe16(h.checksum) + ToBe16(h.urgentPointer)
    + h.options
  }

  /** The data offset and the flags share one word without overlapping. */
  lemma OffsetWordSplits(hl: U16, flags: U16)
    requires hl % 4 == 0 && hl <= 60 && flags < 0x1000
    ensures HeaderLengthOf(hl / 4 * 0x1000 + flags) == hl
    ensures (hl / 4 * 0x1000 + flags) % 0x1000 == flags
  {
  }

  /** Decoding an encoded header gives the header back and leaves what
      follows it untouched. */
  lemma DecodeEncode(h: TcpHeader, rest: seq<Byte>)
    requires WellFormed(h)
    ensures Decode(Encode(h) + rest) == Some((h, rest))
  {
    var b := Encode(h) + rest;
    var word := h.headerLength / 4 * 0x1000 + h.flags;
    OffsetWordSplits(h.headerLength, h.flags);
    assert b[0..2] == ToBe16(h.sport) && b[2..4] == ToBe16(h.dport);
    assert b[4..8] == ToBe32(h.sequence) && b[8..12] == ToBe32(h.ack);
    assert b[12..14] == ToBe16(word);
    assert b[14..16] == ToBe16(h.window) && b[16..18] == ToBe16(h.checksum);
    assert b[18..20] == ToBe16(h.urgentPointer);
    assert b[20..h.headerLength] == h.options;
    assert b[h.headerLength..] == rest;
  }

  /** Encoding a decoded header reproduces exactly the `header_length` bytes
      it consumed. */
  lemma EncodeDecode(b: seq<Byte>)
    requires Decode(b).Some?
    ensures Encode(Decode(b).value.0) + Decode(b).value.1 == b
  {
    var h := Decode(b).value.0;
    var hl := h.headerLength;
    Be16Injective(b[0], b[1]);
    Be16Injective(b[2], b[3]);
    Be32Injective(b[4..8]);
    Be32Injective(b[8..12]);
    Be16Injective(b[12], b[13]);
    Be16Injective(b[14], b[15]);
    Be16Injective(b[16], b[17]);
    Be16Injective(b[18], b[19]);
    var e := Encode(h);
    assert e[..12] == b[..12];
    assert e[12..20] == b[12..20];
    assert e[20..hl] == b[20..hl];
    assert e == b[..hl];
  }

  /** The header's checksum word is the field `CheckSum::checksum` leaves
      out for protocol 6: rewriting it does not change the checksum. */
  lemma ChecksumSkipsChecksumWord(cs: CheckSum, v: U16)
    requires cs.protocol == 6 && Decode(cs.input).Some?
    ensures ChecksumOf(cs.(input := Encode(Decode(cs.input).value.0.(checksum := v)) + Decode(cs.input).value.1)) ==
      ChecksumOf(cs)
  {
    var (h, rest) := Decode(cs.input).value;
    var other := cs.(input := Encode(h.(checksum := v)) + rest);
    EncodeDecode(cs.input);
    assert FieldOffset(6) == Some(ChecksumOffset);
    forall i | 0 <= i < |cs.input| && (i < ChecksumOffset || i >= ChecksumOffset + 2)
      ensures other.input[i] == cs.input[i]
    {
      if i >= h.headerLength {
        assert other.input[i] == rest[i - h.headerLength];
      } else if i >= 20 {
        assert other.input[i] == h.options[i - 20];
      }
    }
    ChecksumIgnoresField(cs, other);
  }
}
