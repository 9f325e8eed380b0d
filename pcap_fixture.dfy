/** `write_pcap` on the frame of the test in `src/net/mod.rs`. */
module PcapFixture {
  import opened Wire
  import opened FrameFixture
  import opened PcapWrite

  /** With the defaults `--checksum` and `--total_length`, the corrected
      patch (the total length as the low 16 bits, `TotalLengthBytes`) turns
      the test frame into the frame the test builds by hand: the UDP
      checksum becomes 0x85ed and the total length stays 0x38. As written,
      the tool would put 0 there instead (`FrameTotalLengthAsWritten`). */
  lemma WriteToolPatchesFrame()
    ensures Patch(Frame(), true, true) == (Patched, PutBe16(Frame(), 40, 0x85ed))
  {
    FrameChecksum();
    PatchKeepsCorrectTotalLength(Frame());
    PatchIsTwoWords(Frame(), false);
  }

  /** The total length as written on the test frame: the 56 bytes of its
      IPv4 datagram, which the frame holds, are overwritten with 0. */
  lemma FrameTotalLengthAsWritten()
    ensures FrameIpv4().totalLength == |Frame()| - 14 == 56
    ensures TotalLengthBytesAsWritten(|FrameLayer().remain|) == [0, 0]
  {
    FrameChecksum();
    TotalLengthAsWrittenIsWrong(Frame());
  }
}
