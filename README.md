# libpcap-rs packet core in Dafny

This project models the packet-decoding and checksum core of `libpcap-rs`:

- The Internet checksum engine `CheckSum`. It is the RFC 1071 one's-complement sum over the TCP/UDP pseudo-header and the segment (section 3.1 of RFC 793, RFC 768).
- The declarative header layouts: Ethernet, IPv4, TCP and UDP.
- The layer views `Layer3`, `Layer4`, `Layer` and `ChecksumLayer`.
- The in-place patch that the `write` tool applies to a payload before writing it. The tool writes the UDP or TCP checksum and the IPv4 total length.

Files and modules:

- `wire.dfy` (`Wire`): bytes, `u16`/`u32` and the big-endian conversions.
- `checksum.dfy` (`Checksum`): `checksum` and `verify` as specification functions. Their loops are methods proved against those functions. The module also proves the round trip: writing `checksum()` into the field makes `verify()` true.
- `checksum_vectors.dfy` (`ChecksumVectors`): the three test vectors of `src/net/checksum.rs`. Each segment is split into short literal pieces whose word sums are added up.
- `ethernet.dfy`, `ipv4.dfy`, `tcp.dfy`, `udp.dfy`: each header is a `Decode` to `Option<(Header, rest)>` and an `Encode`, with both round trips. `Decode` follows the `jppe` field attributes.
  - Masked sub-fields are right-aligned.
  - `untake` fields view one word twice.
  - Options take `header_length - 20` bytes.
- `layers.dfy` (`Layers`): dispatch on ether type and IP protocol, the getters, the frame views, and `ChecksumLayer::checksum`/`verify`. It also covers encoding a `ChecksumLayer` and the checksum patch of the test in `src/net/mod.rs`. The patch is proved for every frame with an option-less IPv4 header carrying protocol 6 or 17, whose checksum field lies inside the frame, and that is under 64 KiB.
- `frame_fixture.dfy` (`FrameFixture`): the 70-byte DNS frame of that test.
- `pcap_write.dfy` (`PcapWrite`): the mode choice of `write_pcap`, and the patch as a specification function `Patch` over a list of byte stores. `PatchPayload` is a method that performs the patch in place on an `array`. `Patch` is the corrected patch: it stores as total length the low 16 bits of the number of bytes after the Ethernet header, where the source stores 0 (see "## Findings").
- `pcap_fixture.dfy` (`PcapFixture`): `write_pcap` on the test frame.

## Model

| member | source | states |
|---|---|---|
| Wire.Be16 | src/net/ipv4.rs:12 | `u16::from_be_bytes` of two bytes, behind every 16-bit header field; `ToBe16` is its inverse and `Be16Injective` shows the word determines both bytes |
| Wire.Be32 | src/net/tcp.rs:8-9 | `u32::from_be_bytes` of four bytes, behind `seq` and `ack`; `ToBe32` is its inverse and `Be32Injective` shows the value determines all four bytes |
| Wire.ToBe32 | src/net/tcp.rs:8-9 | `u32::to_be_bytes` gives four bytes whose big-endian value is the input |
| Wire.ToBe16 | src/cli/libpcap_write.rs:43 | `u16::to_be_bytes` gives two bytes whose big-endian value is the input |
| Wire.Be16Injective | src/net/udp.rs:7-10 | re-encoding the big-endian word of two bytes gives those two bytes back |
| Wire.Be32Injective | src/net/tcp.rs:8-9 | re-encoding the big-endian `u32` of four bytes gives those four bytes back |
| Wire.PutBe16 | src/cli/libpcap_write.rs:46-47 | writing a word big-endian at an index sets exactly those two bytes to it and keeps the length and every other byte |
| Checksum.New | src/net/checksum.rs:12-19 | `CheckSum::new`: no addresses and protocol 0; what it sums is `NewChecksumCoversLengthOnly` |
| Checksum.WordSum | src/net/checksum.rs:43 | the `array_chunks` fold of big-endian words; its laws are `WordSumAppend`, `WordSumDropsOddByte` and `WordSumBound` |
| Checksum.TailSum | src/net/checksum.rs:51-64 | the even/odd branch: an odd last byte adds `byte << 8`; its laws are `OddTailIsZeroPadded`, `TailSumAppend` and `TailSumBound` |
| Checksum.FieldOffset | src/net/checksum.rs:34-41 | a checksum field exists exactly for protocols 6 and 17, and it is a word-aligned word inside the minimum header of its protocol (16 of TCP's 20 bytes, 6 of UDP's 8) |
| Checksum.FirstInput | src/net/checksum.rs:34-41 | the bytes before the field: a prefix of the input of length 16 (TCP) or 6 (UDP), and empty for another protocol or a shorter input |
| Checksum.LastInput | src/net/checksum.rs:34-41 | the bytes after the field: the suffix after byte 18 (TCP) or 8 (UDP), and empty for another protocol or a shorter input |
| Checksum.ChecksumAccumulator | src/net/checksum.rs:43-64 | the `u32` `value` of `checksum()` before the carry fold: the pseudo-header, the words before the field and the tail after it, wrapped modulo 2^32; `AccumulatorFitsU32` shows it does not wrap for 4-byte addresses and segments under 64 KiB, and `PatchedAccumulator` relates it to the accumulator of `verify` |
| Checksum.VerifyAccumulator | src/net/checksum.rs:76-89 | the `u32` `value` of `verify()` before the carry fold: the pseudo-header and the whole segment, wrapped modulo 2^32; bounded by `AccumulatorFitsU32` |
| Checksum.PseudoHeaderSum | src/net/checksum.rs:43-47 | the pseudo-header words shared by `checksum` and `verify`: both addresses, the protocol and the whole input length; `AddressWordSum` states what an IPv4 address adds |
| Checksum.ChecksumOf | src/net/checksum.rs:66-70 | `!value as u16` of the folded sum; the method `Checksum` computes it and `ChecksumIgnoresField` and `ChecksumRoundTrip` state what it promises |
| Checksum.Verifies | src/net/checksum.rs:91-95 | `!value as u16 == 0` of the folded sum; the method `Verify` computes it and `VerifiesIffSumIsMinusZero` characterises it |
| Checksum.WordSumAppend | src/net/checksum.rs:43 | the `array_chunks` word sum of a concatenation whose first part has even length is the sum of the parts' word sums |
| Checksum.WordSumDropsOddByte | src/net/checksum.rs:57-61 | `array_chunks` ignores a trailing odd byte |
| Checksum.OddTailIsZeroPadded | src/net/checksum.rs:51-64 | an even slice contributes its words; an odd slice contributes the words of the slice padded on the right with a zero byte |
| Checksum.TailSumAppend | src/net/checksum.rs:51-64 | the even/odd tail sum of a slice that starts on a word boundary splits into the word sum of the prefix and the tail sum of the rest |
| Checksum.WordSumBound | src/net/checksum.rs:43 | each word adds at most 0xffff |
| Checksum.TailSumBound | src/net/checksum.rs:82-89 | with the padded odd byte, each started word adds at most 0xffff |
| Checksum.AddressWordSum | src/net/checksum.rs:43-44 | a 4-byte address contributes its two big-endian words |
| Checksum.EndAroundCarry | src/net/checksum.rs:66-68 | the folded value keeps the sum modulo 0xffff and is zero only when the sum is zero |
| Checksum.CarryStep | src/net/checksum.rs:66-67 | one fold step strictly decreases a value above 0xffff and keeps it modulo 0xffff |
| Checksum.FoldCarries | src/net/checksum.rs:66-68 | the carry-fold loop terminates and returns the end-around-carry fold of the accumulator |
| Checksum.Checksum | src/net/checksum.rs:30-71 | `checksum()` returns the complement of the folded pseudo-header plus segment sum, with the checksum field left out |
| Checksum.Verify | src/net/checksum.rs:73-96 | `verify()` returns whether the complement of the folded sum of the pseudo-header and the whole segment is zero |
| Checksum.NewChecksumCoversLengthOnly | src/net/checksum.rs:12-19 | a `CheckSum::new` value has no addresses and protocol 0, so only the input length is summed |
| Checksum.ChecksumSumsPseudoHeaderOnly | src/net/checksum.rs:31-47 | for a protocol other than 6 or 17, or an input too short for `get(..16)`/`get(..6)`, only the pseudo-header is summed and no call fails |
| Checksum.ChecksumIgnoresField | src/net/checksum.rs:34-41 | two segments that differ only in the checksum field (bytes 16-17 for TCP, 6-7 for UDP) have the same `checksum()` |
| Checksum.VerifiesIffSumIsMinusZero | src/net/checksum.rs:91-95 | `verify()` holds exactly when the `u32` sum is non-zero and a multiple of 0xffff, so that it folds to 0xffff |
| Checksum.AccumulatorFitsU32 | src/net/checksum.rs:43-64 | for 4-byte addresses and a segment under 64 KiB, neither `u32` accumulator wraps |
| Checksum.TailSumAroundField | src/net/checksum.rs:53-55 | the sum of a segment with two bytes written at an even offset is the sum of the bytes around them plus their word |
| Checksum.FoldOfMinusZero | src/net/checksum.rs:91-95 | a non-zero multiple of 0xffff folds to 0xffff |
| Checksum.ComplementCompletesSum | src/net/checksum.rs:70 | adding the complement of the folded sum to the sum makes it fold to 0xffff |
| Checksum.PatchedSum | src/net/checksum.rs:73-89 | after `v` is written into the field, `verify`'s sum is `checksum`'s sum plus `v` |
| Checksum.PatchedAccumulator | src/net/checksum.rs:43-64 | the same holds for the `u32` accumulators when no accumulator wraps |
| Checksum.ChecksumRoundTrip | src/net/checksum.rs:30-96 | writing `checksum()` big-endian into the field of a TCP or UDP segment long enough to hold it makes `verify()` true |
| ChecksumVectors.ResultsFromSums | src/net/checksum.rs:43-70 | once the partial sums are known and stay below 2^32, `checksum()` and `verify()` follow from them |
| ChecksumVectors.SegmentSum | src/net/checksum.rs:82-89 | a segment split into head, field and rest sums as the three parts |
| ChecksumVectors.WordSumOfEight | src/net/checksum.rs:43 | an 8-byte slice sums its four big-endian words |
| ChecksumVectors.TcpEvenVector | src/net/checksum.rs:105-119 | the TCP test segment verifies and its checksum is 0x6256 |
| ChecksumVectors.UdpEvenVector | src/net/checksum.rs:122-141 | the even-length UDP test segment verifies and its checksum is 0x0ab1 |
| ChecksumVectors.UdpOddVector | src/net/checksum.rs:144-161 | the 69-byte UDP test segment verifies and its checksum is 0x5c93 |
| Ethernet.Decode | src/net/ethernet.rs:7-11 | decoding succeeds exactly on 14 or more bytes, gives 6-byte addresses (source first) and leaves everything after byte 14 |
| Ethernet.Encode | src/net/ethernet.rs:7-11 | the encoding is 14 bytes: smac, dmac, then the big-endian type; the round trips follow |
| Ethernet.DecodeEncode | src/net/ethernet.rs:7-11 | decoding an encoded header gives it back with the rest untouched |
| Ethernet.EncodeDecode | src/net/ethernet.rs:7-11 | encoding a decoded header reproduces the 14 consumed bytes |
| Ipv4.HeaderLengthOf | src/net/ipv4.rs:9-10 | `(byte0 & 0x0f) << 2` is a multiple of 4 of at most 60 |
| Ipv4.Decode | src/net/ipv4.rs:5-24 | decoding succeeds exactly when there are 20 bytes, the length nibble is at least 5 and the buffer holds `header_length` bytes; it then consumes exactly `header_length` bytes and yields a well-formed header |
| Ipv4.Encode | src/net/ipv4.rs:5-24 | the encoding of a well-formed header is `header_length` bytes long; the round trips follow |
| Ipv4.SharedFieldsSplit | src/net/ipv4.rs:7-17 | version and header length share byte 0, and flags and fragment offset share the word at bytes 6-7, without overlapping |
| Ipv4.SharedFieldsJoin | src/net/ipv4.rs:7-17 | byte 0 and the word at bytes 6-7 are rebuilt from the fields they split into |
| Ipv4.EncodeMatchingFields | src/net/ipv4.rs:11-24 | the fixed offsets: a header whose fields match the bytes at 1, 2-3, 4-5, 8, 9, 10-11, 12-15, 16-19 and 20.. encodes to those bytes |
| Ipv4.DecodeEncode | src/net/ipv4.rs:5-24 | decoding an encoded header gives it back with the rest untouched |
| Ipv4.EncodeDecode | src/net/ipv4.rs:5-24 | encoding a decoded header reproduces exactly the `header_length` consumed bytes |
| Ipv4.EncodeTotalLength | src/net/ipv4.rs:12 | the total length occupies bytes 2-3 of the header alone |
| Tcp.OffsetWordSplits | src/net/tcp.rs:10-13 | the word at bytes 12-13 built from `header_length / 4` in its top 4 bits and `flags` in its low 12 gives both fields back |
| Tcp.HeaderLengthOf | src/net/tcp.rs:10-11 | the data offset times 4 is a multiple of 4 of at most 60 |
| Tcp.Decode | src/net/tcp.rs:4-18 | decoding succeeds exactly when there are 20 bytes, the data offset is at least 5 and the buffer holds `header_length` bytes; it then consumes exactly `header_length` bytes |
| Tcp.Encode | src/net/tcp.rs:4-18 | the encoding of a well-formed header is `header_length` bytes long; the round trips follow |
| Tcp.DecodeEncode | src/net/tcp.rs:4-18 | decoding an encoded header gives it back with the rest untouched |
| Tcp.EncodeDecode | src/net/tcp.rs:4-18 | encoding a decoded header reproduces exactly the consumed bytes |
| Tcp.ChecksumSkipsChecksumWord | src/net/tcp.rs:15 | the header's checksum word is the field `checksum()` leaves out for protocol 6, so rewriting it does not change the checksum |
| Udp.Decode | src/net/udp.rs:5-11 | decoding succeeds exactly on 8 or more bytes and consumes exactly 8 |
| Udp.Encode | src/net/udp.rs:5-11 | the header is 8 bytes |
| Udp.DecodeEncode | src/net/udp.rs:5-11 | decoding an encoded header gives it back, whatever its `length` says |
| Udp.EncodeDecode | src/net/udp.rs:5-11 | encoding a decoded header reproduces the 8 consumed bytes |
| Udp.ChecksumSkipsChecksumWord | src/net/udp.rs:10 | the header's checksum word is the field `checksum()` leaves out for protocol 17, so rewriting it does not change the checksum |
| Layers.DecodeLayer3 | src/net/mod.rs:58-64 | Layer3 is `Ipv4` exactly for ether type 0x0800 and fails only when that IPv4 decode fails; `Unknown` consumes nothing |
| Layers.GetProtocol | src/net/mod.rs:68-73 | the protocol is present exactly for `Ipv4` |
| Layers.GetSrc | src/net/mod.rs:75-80 | the source address is present exactly for `Ipv4` |
| Layers.GetDst | src/net/mod.rs:82-87 | the destination address is present exactly for `Ipv4` |
| Layers.GetSrcVec | src/net/mod.rs:89-94 | the source octets are present exactly when `get_src` is, and equal its octets |
| Layers.GetDstVec | src/net/mod.rs:96-101 | the destination octets are present exactly when `get_dst` is, and equal its octets |
| Layers.DecodedAddressesAreFourOctets | src/net/mod.rs:89-101 | the octets returned are bytes 12-15 and 16-19 of the IPv4 header |
| Layers.ProtocolOrDefault | src/net/mod.rs:147 | `unwrap_or_default()`: the protocol when there is one, and 0 otherwise; `UnknownLayer3HasUnknownLayer4` draws the consequence |
| Layers.DecodeLayer4 | src/net/mod.rs:105-113 | Layer4 is `Tcp` for 6 and `Udp` for 17, fails only when that header's decode fails, and is otherwise `Unknown` consuming nothing |
| Layers.GetSport | src/net/mod.rs:117-123 | the source port is present exactly for `Tcp` and `Udp` |
| Layers.GetDport | src/net/mod.rs:125-131 | the destination port is present exactly for `Tcp` and `Udp` |
| Layers.GetTcpFlags | src/net/mod.rs:133-138 | the flags are present exactly for `Tcp` |
| Layers.DecodedPortsAndFlags | src/net/mod.rs:116-139 | the ports are the first two big-endian words of the segment, and TCP flags are the low 12 bits of the word at bytes 12-13 |
| Layers.UnknownLayer3HasUnknownLayer4 | src/net/mod.rs:142-150 | with `unwrap_or_default`, an `Unknown` Layer3 always gives an `Unknown` Layer4, and `remain` is everything after the Ethernet header |
| Layers.ChecksumLayerRemain | src/net/mod.rs:18-26 | a `ChecksumLayer` decodes exactly when the Ethernet and (for 0x0800) IPv4 headers do; `remain` is every byte after the Layer3 header, not bounded by the total length |
| Layers.DecodeChecksumLayer | src/net/mod.rs:18-26 | `decode_borrow::<ChecksumLayer>` fails exactly when the frame is shorter than 14 bytes or, for type 0x0800, holds no whole IPv4 header after them; Layer3 is `Ipv4` exactly for type 0x0800 |
| Layers.DecodeLayer | src/net/mod.rs:142-150 | `Layer` decodes the Ethernet and Layer3 headers as `ChecksumLayer` does, then Layer4 out of that `remain`, tagged by the protocol or 0, and fails exactly when that Layer4 decode fails |
| Layers.EncodeChecksumLayer | src/net/mod.rs:18-26 | the encoding is the 14 Ethernet bytes, the IPv4 header's `header_length` bytes and `remain`; round trips in `ChecksumLayerDecodeEncode` and `ChecksumLayerEncodeDecode` |
| Layers.TotalLengthWord | src/net/ipv4.rs:12 | the IPv4 total length of a decoded frame is the big-endian word at bytes 16-17 |
| Layers.Segment | src/net/mod.rs:30-37 | the pseudo-header and segment are present exactly for `Ipv4` |
| Layers.LayerChecksum | src/net/mod.rs:30-40 | `checksum()` is present exactly for `Ipv4`, for every protocol, and is the engine's checksum over `remain` |
| Layers.LayerVerify | src/net/mod.rs:42-54 | `verify()` is false for non-IPv4 frames and otherwise is the engine's `verify` over `remain` |
| Layers.ChecksumLayerDecodeEncode | src/net/mod.rs:18-26 | decoding an encoded `ChecksumLayer` gives it back |
| Layers.ChecksumLayerEncodeDecode | src/net/mod.rs:18-26 | a decoded `ChecksumLayer` is well formed and encodes back to the frame |
| Layers.ChecksumPatchOffset | src/net/mod.rs:172-178 | the patch offset exists exactly for protocols 6 and 17 and is 14 + 20 plus the field offset the engine skips |
| Layers.PatchChangesOnlyRemain | src/net/mod.rs:168-183 | with an option-less IPv4 header, writing a word at the patch offset changes only the checksum field of `remain` in the re-decoded frame |
| Layers.PatchedFrameVerifies | src/net/mod.rs:165-184 | for every frame under 0x1_0000 bytes with an option-less IPv4 header carrying UDP or TCP whose checksum field lies inside the frame, writing `checksum()` at byte 40 (UDP) or 50 (TCP) makes the re-decoded frame verify |
| Layers.TotalLengthPatchChangesOnlyTotalLength | src/cli/libpcap_write.rs:58-59 | writing a word at bytes 16-17 of an IPv4 frame changes only its total length in the re-decoded frame |
| FrameFixture.FrameDecodes | src/net/mod.rs:159-165 | the 70-byte test frame decodes to its Ethernet header, IPv4 header and DNS datagram |
| FrameFixture.FrameDoesNotVerify | src/net/mod.rs:165-166 | the test frame does not verify, and its checksum is 0x85ed |
| FrameFixture.FrameChecksum | src/net/mod.rs:159-169 | the test frame is 70 bytes long, decodes, and its checksum is 0x85ed |
| FrameFixture.PatchedFrameVerifiesAfterPatch | src/net/mod.rs:168-184 | after 0x85ed is written at bytes 40-41 the frame decodes and verifies |
| PcapWrite.TotalLengthBytesAsWritten | src/cli/libpcap_write.rs:56-59 | as written: the two bytes stored are the top 16 bits of the 64-bit `usize` `remain.len() + 20` |
| PcapWrite.TotalLengthAsWrittenIsZero | src/cli/libpcap_write.rs:56-59 | as written, for every `remain` shorter than 2^48 - 20 bytes, the two bytes stored are `[0, 0]` |
| PcapWrite.ChecksumStores | src/cli/libpcap_write.rs:42-53 | two stores exactly when there is a checksum and the protocol is 17 or 6, at bytes 40-41 or 50-51, whose big-endian word is the checksum; none otherwise |
| PcapWrite.LengthStores | src/cli/libpcap_write.rs:55-59 | with `--total_length`, two stores at bytes 16-17 whose big-endian word is the corrected total length; none without it |
| PcapWrite.Patch | src/cli/libpcap_write.rs:37-61 | the corrected patch (see "## Findings") keeps the payload length and panics only with `--checksum`; its effect is stated by `PatchTouchesOnlyItsFields`, `PatchPanicsIff`, `OtherProtocolWritesNoChecksum` and `PatchMakesFrameVerify` |
| PcapWrite.ChooseMode | src/cli/libpcap_write.rs:33 | the explicit mode wins; otherwise "a" exactly when the output exists and "w" exactly when it does not |
| PcapWrite.TotalLengthBytes | src/cli/libpcap_write.rs:55-59 | the corrected total length: two bytes whose big-endian value is `remain.len() + 20` modulo 2^16 |
| PcapWrite.ApplyStores | src/cli/libpcap_write.rs:45-59 | index stores keep the payload length and succeed exactly when every index is in range |
| PcapWrite.ApplyStoresFrame | src/cli/libpcap_write.rs:36-61 | a byte that no store names keeps its value, even when a later store panics |
| PcapWrite.PatchTouchesOnlyItsFields | src/cli/libpcap_write.rs:36-61 | bytes 16-17 change only with `--total_length`, and bytes 40-41 or 50-51 only for UDP or TCP over IPv4; every other byte keeps its value; without `--checksum` nothing changes, and a failed decode panics with nothing changed |
| PcapWrite.StoresFrame | src/cli/libpcap_write.rs:42-60 | a byte named by neither the checksum stores of the frame's protocol nor, with `--total_length`, the length stores keeps its value |
| PcapWrite.OtherProtocolWritesNoChecksum | src/cli/libpcap_write.rs:42-53 | a frame that is not IPv4, or whose protocol is neither 6 nor 17, gets no checksum bytes (though `checksum()` is present for every IPv4 frame); only the total length stores are made |
| PcapWrite.StoresPanicIff | src/cli/libpcap_write.rs:42-60 | the stores panic exactly when the UDP/TCP checksum field or bytes 16-17 are past the end |
| PcapWrite.PatchPanicsIff | src/cli/libpcap_write.rs:38-60 | on a decoded payload the patch panics exactly when, for an IPv4 frame carrying protocol 6 or 17, the checksum field is past the end, or when `--total_length` is set and the payload is under 18 bytes |
| PcapWrite.ApplyWordStores | src/cli/libpcap_write.rs:46-47 | two index stores of a word's big-endian bytes write that word |
| PcapWrite.StoresAreTwoWords | src/cli/libpcap_write.rs:42-60 | the corrected patch (see "## Findings"): when they fit, the stores write the checksum at its field and then the total length at bytes 16-17 |
| PcapWrite.PatchIsTwoWords | src/cli/libpcap_write.rs:38-60 | the corrected patch (see "## Findings"): for UDP/TCP over an option-less IPv4 header the patch succeeds, writing `checksum()` at its field and then the number of bytes after the Ethernet header at bytes 16-17 |
| PcapWrite.PatchMakesFrameVerify | src/cli/libpcap_write.rs:36-61 | the corrected patch (see "## Findings"), on UDP or TCP over an option-less IPv4 header with the field inside a frame under 64 KiB: the patched frame decodes and verifies, only the checksum field of `remain` changes, and the total length becomes the number of bytes after the Ethernet header (trailing link-layer padding included) with `--total_length` or stays as it was without it |
| PcapWrite.PatchKeepsCorrectTotalLength | src/cli/libpcap_write.rs:55-60 | the corrected patch (see "## Findings"): a frame whose total length is already right is patched the same with or without `--total_length` |
| PcapWrite.TotalLengthAsWrittenIsWrong | src/cli/libpcap_write.rs:56-59 | as written, every IPv4 frame under 2^48 bytes gets total length 0, never the length of its datagram |
| PcapWrite.StoreByte | src/cli/libpcap_write.rs:46 | one indexed store: it panics past the end and otherwise changes only that byte |
| PcapWrite.PatchChecksum | src/cli/libpcap_write.rs:42-53 | the checksum stores, performed in place, do what the store list says |
| PcapWrite.PatchTotalLength | src/cli/libpcap_write.rs:55-60 | the total length stores, performed in place, do what the store list says |
| PcapWrite.PatchPayload | src/cli/libpcap_write.rs:36-61 | the in-place patch leaves the array and the outcome exactly as `Patch` of the old contents says |
| PcapFixture.WriteToolPatchesFrame | src/cli/libpcap_write.rs:36-61 | the corrected patch (see "## Findings") on the test frame of `src/net/mod.rs` produces the frame that test builds by hand: checksum 0x85ed at bytes 40-41, total length unchanged; the tool as written would store 0 there |
| PcapFixture.FrameTotalLengthAsWritten | src/cli/libpcap_write.rs:56-59 | on the test frame, whose total length is 56, the bytes written as the total length are `[0, 0]` |

## Left out

- I/O is not modelled:
  - `LibPcap::open`, `write` and `write_timestamp`;
  - `hex::decode` of the payload argument (the model starts from the decoded bytes);
  - command-line parsing;
  - the clock.
- The rest of the repository is outside this model: the capture, read and merge tools, the libpcap FFI wrapper, the path walk, time helpers and error types. It is I/O or foreign code.
- The `jppe` derive macros are not modelled as code. Only the layouts their field attributes state are modelled.
- Ipv4.Decode and Tcp.Decode model a length nibble (or data offset) below 5 as a decode failure. The source computes `header_length - 20` inside `jppe`, which is not visible.
- Checksum.ChecksumAccumulator models the `u32` accumulator as the exact sum modulo 2^32. That is release-build wrap-around; a debug build would panic on overflow instead.
- Checksum.ChecksumRoundTrip holds for 4-byte addresses and segments under 64 KiB, where no accumulator wraps. The source's tests use such segments.
- PcapWrite.Patch and `PatchPayload` use the fixed offsets of the source: 40-41, 50-51 and 16-17. These are right only for an option-less IPv4 header. For a longer header the model writes where the source writes. The proved properties assume header length 20.
- PcapWrite.Patch writes bytes 16-17 for every decoded frame with `--total_length`, as the source does, even when Layer3 is not IPv4.
- PcapWrite.Patch does not update the IPv4 header checksum, and neither does the source.
- PcapWrite.Patch, and with it `PatchPayload`, `PatchTotalLength`, `LengthStores`, `StoresAreTwoWords`, `PatchIsTwoWords`, `PatchMakesFrameVerify`, `PatchKeepsCorrectTotalLength`, `PatchTouchesOnlyItsFields`, `PatchPanicsIff`, `StoresPanicIff`, `StoresFrame`, `OtherProtocolWritesNoChecksum` and `PcapFixture.WriteToolPatchesFrame`, store the corrected total length of the finding below, the low 16 bits of `remain.len() + 20`. The source stores the top 16 bits of the 64-bit `usize`, which are 0. That as-written value is `PcapWrite.TotalLengthBytesAsWritten`, with `TotalLengthAsWrittenIsWrong` and `PcapFixture.FrameTotalLengthAsWritten`. Where the patch succeeds or panics, and which bytes it may change, is the same either way.
- PcapWrite.ChooseMode returns the mode string. What `LibPcap::open` does with it is I/O.
- PcapWrite.TotalLengthBytes: the corrected total length counts every byte after the Ethernet header, as `remain.len() + 20` does. A frame with trailing link-layer padding (a 60-byte minimum Ethernet frame carrying a 29-byte UDP datagram over IPv4) gets 46, not 29. The proved patch lemmas state the value as `|p| - 14`, not as the length of the IPv4 datagram.
- PcapWrite.TotalLengthBytesAsWritten wraps `remain.len() + 20` modulo 2^64, as release-build `usize` arithmetic does; a debug build would panic instead.
- The test frame of `src/net/mod.rs` is 70 bytes long, as the source writes it. It carries a 36-byte UDP datagram.

## Findings

| source | as written | input that shows it | evidently intended | confidence | as-written member | corrected member |
|---|---|---|---|---|---|---|
| src/cli/libpcap_write.rs:56-59 | `(length + 20).to_be_bytes()` on a 64-bit `usize` gives 8 bytes, and indices 0 and 1 are its two most significant bytes, so the IPv4 total length is overwritten with 0 | the test frame of `src/net/mod.rs`: its 36-byte `remain` gives 56, and bytes 16-17 become `[0, 0]` instead of `[0x00, 0x38]` | the low 16 bits, i.e. `(length + 20) as u16` big-endian: the number of bytes after the Ethernet header, which is the IPv4 datagram length when the frame has no trailing padding | not executed | PcapWrite.TotalLengthBytesAsWritten (shown by PcapWrite.TotalLengthAsWrittenIsWrong and PcapFixture.FrameTotalLengthAsWritten) | PcapWrite.TotalLengthBytes (proved in PcapWrite.PatchMakesFrameVerify and PcapFixture.WriteToolPatchesFrame) |
