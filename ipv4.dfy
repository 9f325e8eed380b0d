/** `Ipv4Header` of `src/net/ipv4.rs` (RFC 791 section 3.1), declared field
    by field. Byte 0 is read twice (`untake`): its high nibble is `version`
    and its low nibble, times four, is `header_length`. The word at bytes 6-7
    is likewise split into `flags` (top three bits) and `fragment_offset`
    (low 13 bits). Masked fields are right-aligned. `options` takes
    `header_length - 20` bytes. */
module Ipv4 {
  import opened Wire

  /** The header without options. */
  const MinHeaderLength: nat := 20

  datatype Ipv4Header = Ipv4Header(
    version: Byte, headerLength: Byte, tos: Byte, totalLength: U16,
    identification: U16, flags: U16, fragmentOffset: U16, ttl: Byte,
    protocol: Byte, checksum: U16, src: seq<Byte>, dst: seq<Byte>,
    options: seq<Byte>)

  /** `bits=0x0f` then `value_decode="header_length << 2"`. */
  function HeaderLengthOf(b0: Byte): (r: nat)
    ensures r % 4 == 0 && r <= 60
  {
    (b0 % 0x10) * 4
  }

  /** The values a decoded header can hold, which `Encode` packs back. */
  predicate WellFormed(h: Ipv4Header) {
    && h.version < 0x10
    && h.headerLength % 4 == 0 && MinHeaderLength <= h.headerLength <= 60
    && h.flags < 0x8 && h.fragmentOffset < 0x2000
    && |h.src| == 4 && |h.dst| == 4
    && |h.options| == h.headerLength - MinHeaderLength
  }

  /** Decoding fails when the buffer is shorter than the fixed 20 bytes, when
      the length nibble is below 5 (the options length `header_length - 20`
      would be negative) and when the buffer is shorter than
      `header_length`; otherwise it consumes exactly `header_length` bytes. */
  function Decode(b: seq<Byte>): (r: Option<(Ipv4Header, seq<Byte>)>)
    ensures r.Some? <==> |b| >= MinHeaderLength && MinHeaderLength <= HeaderLengthOf(b[0]) <= |b|
    ensures r.Some? ==> && WellFormed(r.value.0)
                        && r.value.0.headerLength == HeaderLengthOf(b[0])
                        && r.value.1 == b[r.value.0.headerLength..]
  {
    if |b| < MinHeaderLength then None
    else
      var hl := HeaderLengthOf(b[0]);
      if hl < MinHeaderLength || |b| < hl then None
      else
        var word := Be16(b[6], b[7]);
        Some((Ipv4Header(b[0] / 0x10, hl, b[1], Be16(b[2], b[3]), Be16(b[4], b[5]),
                         word / 0x2000, word % 0x2000, b[8], b[9], Be16(b[10], b[11]),
                         b[12..16], b[16..20], b[20..hl]),
              b[hl..]))
  }

  function Encode(h: Ipv4Header): (r: seq<Byte>)
    requires WellFormed(h)
    ensures |r| == h.headerLength
  {
    [h.version * 0x10 + h.headerLength / 4, h.tos]
    + ToBe16(h.totalLength) + ToBe16(h.identification)
    + ToBe16(h.flags * 0x2000 + h.fragmentOffset)
    + [h.ttl, h.protocol] + ToBe16(h.checksum)
    + h.src + h.dst + h.options
  }

  /** Version and header length share byte 0; flags and fragment offset
      share the word at bytes 6-7; neither pair overlaps. */
  lemma SharedFieldsSplit(h: Ipv4Header)
    requires WellFormed(h)
    ensures var b0 := h.version * 0x10 + h.headerLength / 4;
      b0 / 0x10 == h.version && HeaderLengthOf(b0) == h.headerLength
    ensures var word := h.flags * 0x2000 + h.fragmentOffset;
      word / 0x2000 == h.flags && word % 0x2000 == h.fragmentOffset
  {
  }

  /** Decoding an encoded header gives the header back and leaves what
      follows it untouched. */
  lemma DecodeEncode(h: Ipv4Header, rest: seq<Byte>)
    requires WellFormed(h)
    ensures Decode(Encode(h) + rest) == Some((h, rest))
  {
    var e := Encode(h);
    var b := e + rest;
    var word := h.flags * 0x2000 + h.fragmentOffset;
    SharedFieldsSplit(h);
    assert b[0] == h.version * 0x10 + h.headerLength / 4 && b[1] == h.tos;
    assert b[2..4] == ToBe16(h.totalLength) && b[4..6] == ToBe16(h.identification);
    assert b[6..8] == ToBe16(word);
    assert b[8] == h.ttl && b[9] == h.protocol && b[10..12] == ToBe16(h.checksum);
    assert b[12..16] == h.src && b[16..20] == h.dst;
    assert b[20..h.headerLength] == h.options;
    assert b[h.headerLength..] == rest;
  }

  /** Byte 0 and the word at bytes 6-7 are rebuilt from the fields they
      were split into. */
  lemma SharedFieldsJoin(b0: Byte, word: U16)
    ensures (b0 / 0x10) * 0x10 + HeaderLengthOf(b0) / 4 == b0
    ensures (word / 0x2000) * 0x2000 + word % 0x2000 == word
  {
  }

  /** A header whose every field matches its bytes in `b` encodes to the
      first `header_length` bytes of `b`. */
  lemma EncodeMatchingFields(h: Ipv4Header, b: seq<Byte>)
    requires WellFormed(h) && h.headerLength <= |b|
    requires h.version * 0x10 + h.headerLength / 4 == b[0] && h.tos == b[1]
    requires ToBe16(h.totalLength) == b[2..4] && ToBe16(h.identification) == b[4..6]
    requires ToBe16(h.flags * 0x2000 + h.fragmentOffset) == b[6..8]
    requires h.ttl == b[8] && h.protocol == b[9] && ToBe16(h.checksum) == b[10..12]
    requires h.src == b[12..16] && h.dst == b[16..20] && h.options == b[20..h.headerLength]
    ensures Encode(h) == b[..h.headerLength]
  {
    assert [b[0], b[1]] == b[..2];
    assert [b[8], b[9]] == b[8..10];
    assert b[..h.headerLength] == b[..2] + b[2..4] + b[4..6] + b[6..8] + b[8..10] + b[10..12]
      + b[12..16] + b[16..20] + b[20..h.headerLength];
  }

  /** Encoding a decoded header reproduces exactly the `header_length` bytes
      it consumed. */
  lemma EncodeDecode(b: seq<Byte>)
    requires Decode(b).Some?
    ensures Encode(Decode(b).value.0) + Decode(b).value.1 == b
  {
    var h := Decode(b).value.0;
    SharedFieldsJoin(b[0], Be16(b[6], b[7]));
    Be16Injective(b[2], b[3]);
    Be16Injective(b[4], b[5]);
    Be16Injective(b[6], b[7]);
    Be16Injective(b[10], b[11]);
    EncodeMatchingFields(h, b);
  }

  /** The total length sits alone in bytes 2-3 of the encoding. */
  lemma EncodeTotalLength(h: Ipv4Header, v: U16)
    requires WellFormed(h)
    ensures Encode(h.(totalLength := v)) == PutBe16(Encode(h), 2, v)
  {
  }
}
