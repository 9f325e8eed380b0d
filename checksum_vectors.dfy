/** The three literal vectors of the tests in `src/net/checksum.rs`. Each
    segment already carries its checksum in its checksum field, so `verify`
    holds and `checksum` reproduces the field. A segment is kept as the bytes
    before the field, the field, and the bytes after it (in pieces of at most
    8 bytes); each piece is summed 8 bytes at a time, and the vector follows
    from those sums. */
module ChecksumVectors {
  import opened Wire
  import opened Checksum

  /** The two slices `checksum` sums when the field sits between them. */
  lemma SlicesAroundField(cs: CheckSum, head: seq<Byte>, field: seq<Byte>, rest: seq<Byte>)
    requires FieldOffset(cs.protocol) == Some(|head|) && |field| == 2
    requires cs.input == head + field + rest
    ensures FirstInput(cs) == head && LastInput(cs) == rest
  {
    assert cs.input[..|head|] == head;
    assert cs.input[|head| + 2..] == rest;
  }

  /** The results of `checksum` and `verify` from the sums of the
      pseudo-header, of the slices around the field and of the whole segment,
      when neither accumulator wraps. */
  lemma ResultsFromSums(cs: CheckSum, p: nat, h: nat, r: nat, t: nat, a: nat, v: nat)
    requires PseudoHeaderSum(cs) == p && WordSum(FirstInput(cs)) == h && TailSum(LastInput(cs)) == r
    requires TailSum(cs.input) == t
    requires p + h + r == a < 0x1_0000_0000 && p + t == v < 0x1_0000_0000
    ensures ChecksumOf(cs) == 0xffff - EndAroundCarry(a)
    ensures Verifies(cs) <==> EndAroundCarry(v) == 0xffff
  {
    assert WrapU32(a) == a && WrapU32(v) == v;
  }

  /** The sum of a whole segment from the sums of its pieces. */
  lemma SegmentSum(s: seq<Byte>, head: seq<Byte>, field: seq<Byte>, rest: seq<Byte>, half: nat)
    requires s == head + field + rest && |head| == 2 * half && |field| == 2
    ensures TailSum(s) == WordSum(head) + WordSum(field) + TailSum(rest)
  {
    WordSumAppend(head, field);
    TailSumAppend(head + field, rest);
  }

  /** Eight bytes are four words. */
  lemma WordSumOfEight(s: seq<Byte>)
    requires |s| == 8
    ensures WordSum(s) == Be16(s[0], s[1]) + Be16(s[2], s[3]) + Be16(s[4], s[5]) + Be16(s[6], s[7])
  {
    var t2, t4, t6 := s[2..], s[4..], s[6..];
    assert t2[2..] == t4 && t4[2..] == t6 && t6[2..] == [];
    assert WordSum(t6) == Be16(s[6], s[7]);
    assert WordSum(t4) == Be16(s[4], s[5]) + WordSum(t6);
    assert WordSum(t2) == Be16(s[2], s[3]) + WordSum(t4);
  }

  // The 32-byte TCP segment of even length

  function TcpHead0(): seq<Byte> {
    [0x0c, 0x0a, 0x01, 0xf6, 0x48, 0x3c, 0xbe, 0x86]
  }

  function TcpHead1(): seq<Byte> {
    [0x7a, 0x8a, 0xa5, 0x17, 0x50, 0x18, 0xfa, 0xf0]
  }

  function TcpHead(): seq<Byte> {
    TcpHead0() + TcpHead1()
  }

  function TcpField(): seq<Byte> {
    [0x62, 0x56]
  }

  function TcpRest0(): seq<Byte> {
    [0x00, 0x00, 0x00, 0x01, 0x00, 0x00, 0x00, 0x06]
  }

  function TcpRest1(): seq<Byte> {
    [0x0a, 0x01, 0x00, 0x00, 0x00, 0x01]
  }

  function TcpRest(): seq<Byte> {
    TcpRest0() + TcpRest1()
  }

  function TcpSegment(): seq<Byte> {
    TcpHead() + TcpField() + TcpRest()
  }

  predicate IsTcpVector(cs: CheckSum) {
    && cs.srcIp == [0x0a, 0x00, 0x00, 0x09] && cs.dstIp == [0x0a, 0x00, 0x00, 0x03]
    && cs.protocol == 6 && cs.input == TcpSegment()
  }

  lemma TcpHead0Sum()
    ensures WordSum(TcpHead0()) == 0x114c2
  {
    WordSumOfEight(TcpHead0());
  }

  lemma TcpHead1Sum()
    ensures WordSum(TcpHead1()) == 0x26aa9
  {
    WordSumOfEight(TcpHead1());
  }

  lemma TcpHeadSum()
    ensures WordSum(TcpHead()) == 0x37f6b
  {
    WordSumAppend(TcpHead0(), TcpHead1());
    TcpHead0Sum();
    TcpHead1Sum();
  }

  lemma TcpFieldSum()
    ensures WordSum(TcpField()) == 0x6256
  {

  }

  lemma TcpRest0Sum()
    ensures WordSum(TcpRest0()) == 0x7
  {
    WordSumOfEight(TcpRest0());
  }

  lemma TcpRest1Sum()
    ensures TailSum(TcpRest1()) == 0xa02
  {

  }

  lemma TcpRestSum()
    ensures TailSum(TcpRest()) == 0xa09
  {
    TailSumAppend(TcpRest0(), TcpRest1());
    TcpRest0Sum();
    TcpRest1Sum();
  }

  lemma TcpLayout(cs: CheckSum)
    requires IsTcpVector(cs)
    ensures PseudoHeaderSum(cs) == 0x1432
    ensures FirstInput(cs) == TcpHead() && LastInput(cs) == TcpRest()
  {
    AddressWordSum(cs.srcIp);
    AddressWordSum(cs.dstIp);
    SlicesAroundField(cs, TcpHead(), TcpField(), TcpRest());
  }

  lemma TcpFirstSum(cs: CheckSum)
    requires FirstInput(cs) == TcpHead()
    ensures WordSum(FirstInput(cs)) == 0x37f6b
  {
    TcpHeadSum();
  }

  lemma TcpLastSum(cs: CheckSum)
    requires LastInput(cs) == TcpRest()
    ensures TailSum(LastInput(cs)) == 0xa09
  {
    TcpRestSum();
  }

  lemma TcpWholeSum(cs: CheckSum)
    requires cs.input == TcpSegment()
    ensures TailSum(cs.input) == 0x3ebca
  {
    TcpHeadSum();
    TcpFieldSum();
    TcpRestSum();
    SegmentSum(cs.input, TcpHead(), TcpField(), TcpRest(), 8);
  }

  lemma TcpFolds()
    ensures EndAroundCarry(0x39da6) == 0x9da9 && EndAroundCarry(0x3fffc) == 0xffff
  {
  }

  /** The test vector for the 32-byte TCP segment of even length: it verifies and its checksum is 0x6256. */
  lemma TcpEvenVector(cs: CheckSum)
    requires IsTcpVector(cs)
    ensures Verifies(cs) && ChecksumOf(cs) == 0x6256
  {
    TcpLayout(cs);
    TcpFirstSum(cs);
    TcpLastSum(cs);
    TcpWholeSum(cs);
    TcpFolds();
    ResultsFromSums(cs, 0x1432, 0x37f6b, 0xa09, 0x3ebca, 0x39da6, 0x3fffc);
  }

  // The 92-byte UDP segment of even length

  function UdpEvenHead(): seq<Byte> {
    [0x04, 0x43, 0xba, 0xe3, 0x00, 0x5c]
  }

  function UdpEvenField(): seq<Byte> {
    [0x0a, 0xb1]
  }

  function UdpEvenRest0(): seq<Byte> {
    [0x00, 0xf8, 0x04, 0x83, 0x00, 0x00, 0x00, 0x00]
  }

  function UdpEvenRest1(): seq<Byte> {
    [0x00, 0x00, 0x00, 0x54, 0x00, 0x00, 0x00, 0x00]
  }

  function UdpEvenRest2(): seq<Byte> {
    [0x00, 0x00, 0x00, 0x00, 0x00, 0x00, 0x00, 0x00]
  }

  function UdpEvenRest3(): seq<Byte> {
    [0x04, 0x4c, 0x00, 0x29, 0x00, 0x00, 0x01, 0x02]
  }

  function UdpEvenRest4(): seq<Byte> {
    [0x03, 0x04, 0x05, 0x06, 0x07, 0x08, 0x01, 0x02]
  }

  function UdpEvenRest5(): seq<Byte> {
    [0x03, 0x04, 0x00, 0x50, 0x60, 0x70, 0x80, 0x10]
  }

  function UdpEvenRest6(): seq<Byte> {
    [0x23, 0x04, 0x05, 0x06, 0x07, 0x00, 0x80, 0x01]
  }

  function UdpEvenRest7(): seq<Byte> {
    [0x02, 0x03, 0x04, 0x05, 0x06, 0x07, 0x08, 0x01]
  }

  function UdpEvenRest8(): seq<Byte> {
    [0x01, 0x02, 0x03, 0x04, 0x05, 0x06, 0x07, 0x08]
  }

  function UdpEvenRest9(): seq<Byte> {
    [0x01, 0x02, 0x03, 0x04, 0x05, 0x06, 0x07, 0x08]
  }

  function UdpEvenRest10(): seq<Byte> {
    [0x01, 0x02, 0x03, 0x04]
  }

  function UdpEvenRest(): seq<Byte> {
    UdpEvenRest0() + (UdpEvenRest1() + (UdpEvenRest2() + (UdpEvenRest3() + (UdpEvenRest4() + (UdpEvenRest5() + (UdpEvenRest6() + (UdpEvenRest7() + (UdpEvenRest8() + (UdpEvenRest9() + UdpEvenRest10())))))))))
  }

  function UdpEvenSegment(): seq<Byte> {
    UdpEvenHead() + UdpEvenField() + UdpEvenRest()
  }

  predicate IsUdpEvenVector(cs: CheckSum) {
    && cs.srcIp == [0xda, 0x55, 0x70, 0x8a] && cs.dstIp == [0x01, 0x02, 0x03, 0x04]
    && cs.protocol == 17 && cs.input == UdpEvenSegment()
  }

  lemma UdpEvenHeadSum()
    ensures WordSum(UdpEvenHead()) == 0xbf82
  {

  }

  lemma UdpEvenFieldSum()
    ensures WordSum(UdpEvenField()) == 0xab1
  {

  }

  lemma UdpEvenRest0Sum()
    ensures WordSum(UdpEvenRest0()) == 0x57b
  {
    WordSumOfEight(UdpEvenRest0());
  }

  lemma UdpEvenRest1Sum()
    ensures WordSum(UdpEvenRest1()) == 0x54
  {
    WordSumOfEight(UdpEvenRest1());
  }

  lemma UdpEvenRest2Sum()
    ensures WordSum(UdpEvenRest2()) == 0x0
  {
    WordSumOfEight(UdpEvenRest2());
  }

  lemma UdpEvenRest3Sum()
    ensures WordSum(UdpEvenRest3()) == 0x577
  {
    WordSumOfEight(UdpEvenRest3());
  }

  lemma UdpEvenRest4Sum()
    ensures WordSum(UdpEvenRest4()) == 0x1014
  {
    WordSumOfEight(UdpEvenRest4());
  }

  lemma UdpEvenRest5Sum()
    ensures WordSum(UdpEvenRest5()) == 0xe3d4
  {
    WordSumOfEight(UdpEvenRest5());
  }

  lemma UdpEvenRest6Sum()
    ensures WordSum(UdpEvenRest6()) == 0xaf0b
  {
    WordSumOfEight(UdpEvenRest6());
  }

  lemma UdpEvenRest7Sum()
    ensures WordSum(UdpEvenRest7()) == 0x1410
  {
    WordSumOfEight(UdpEvenRest7());
  }

  lemma UdpEvenRest8Sum()
    ensures WordSum(UdpEvenRest8()) == 0x1014
  {
    WordSumOfEight(UdpEvenRest8());
  }

  lemma UdpEvenRest9Sum()
    ensures WordSum(UdpEvenRest9()) == 0x1014
  {
    WordSumOfEight(UdpEvenRest9());
  }

  lemma UdpEvenRest10Sum()
    ensures TailSum(UdpEvenRest10()) == 0x406
  {

  }

  lemma UdpEvenRestSum()
    ensures TailSum(UdpEvenRest()) == 0x1e677
  {
    TailSumAppend(UdpEvenRest0(), UdpEvenRest1() + (UdpEvenRest2() + (UdpEvenRest3() + (UdpEvenRest4() + (UdpEvenRest5() + (UdpEvenRest6() + (UdpEvenRest7() + (UdpEvenRest8() + (UdpEvenRest9() + UdpEvenRest10())))))))));
    TailSumAppend(UdpEvenRest1(), UdpEvenRest2() + (UdpEvenRest3() + (UdpEvenRest4() + (UdpEvenRest5() + (UdpEvenRest6() + (UdpEvenRest7() + (UdpEvenRest8() + (UdpEvenRest9() + UdpEvenRest10()))))))));
    TailSumAppend(UdpEvenRest2(), UdpEvenRest3() + (UdpEvenRest4() + (UdpEvenRest5() + (UdpEvenRest6() + (UdpEvenRest7() + (UdpEvenRest8() + (UdpEvenRest9() + UdpEvenRest10())))))));
    TailSumAppend(UdpEvenRest3(), UdpEvenRest4() + (UdpEvenRest5() + (UdpEvenRest6() + (UdpEvenRest7() + (UdpEvenRest8() + (UdpEvenRest9() + UdpEvenRest10()))))));
    TailSumAppend(UdpEvenRest4(), UdpEvenRest5() + (UdpEvenRest6() + (UdpEvenRest7() + (UdpEvenRest8() + (UdpEvenRest9() + UdpEvenRest10())))));
    TailSumAppend(UdpEvenRest5(), UdpEvenRest6() + (UdpEvenRest7() + (UdpEvenRest8() + (UdpEvenRest9() + UdpEvenRest10()))));
    TailSumAppend(UdpEvenRest6(), UdpEvenRest7() + (UdpEvenRest8() + (UdpEvenRest9() + UdpEvenRest10())));
    TailSumAppend(UdpEvenRest7(), UdpEvenRest8() + (UdpEvenRest9() + UdpEvenRest10()));
    TailSumAppend(UdpEvenRest8(), UdpEvenRest9() + UdpEvenRest10());
    TailSumAppend(UdpEvenRest9(), UdpEvenRest10());
    UdpEvenRest0Sum();
    UdpEvenRest1Sum();
    UdpEvenRest2Sum();
    UdpEvenRest3Sum();
    UdpEvenRest4Sum();
    UdpEvenRest5Sum();
    UdpEvenRest6Sum();
    UdpEvenRest7Sum();
    UdpEvenRest8Sum();
    UdpEvenRest9Sum();
    UdpEvenRest10Sum();
  }

  lemma UdpEvenLayout(cs: CheckSum)
    requires IsUdpEvenVector(cs)
    ensures PseudoHeaderSum(cs) == 0x14f52
    ensures FirstInput(cs) == UdpEvenHead() && LastInput(cs) == UdpEvenRest()
  {
    AddressWordSum(cs.srcIp);
    AddressWordSum(cs.dstIp);
    SlicesAroundField(cs, UdpEvenHead(), UdpEvenField(), UdpEvenRest());
  }

  lemma UdpEvenFirstSum(cs: CheckSum)
    requires FirstInput(cs) == UdpEvenHead()
    ensures WordSum(FirstInput(cs)) == 0xbf82
  {
    UdpEvenHeadSum();
  }

  lemma UdpEvenLastSum(cs: CheckSum)
    requires LastInput(cs) == UdpEvenRest()
    ensures TailSum(LastInput(cs)) == 0x1e677
  {
    UdpEvenRestSum();
  }

  lemma UdpEvenWholeSum(cs: CheckSum)
    requires cs.input == UdpEvenSegment()
    ensures TailSum(cs.input) == 0x2b0aa
  {
    UdpEvenHeadSum();
    UdpEvenFieldSum();
    UdpEvenRestSum();
    SegmentSum(cs.input, UdpEvenHead(), UdpEvenField(), UdpEvenRest(), 3);
  }

  lemma UdpEvenFolds()
    ensures EndAroundCarry(0x3f54b) == 0xf54e && EndAroundCarry(0x3fffc) == 0xffff
  {
  }

  /** The test vector for the 92-byte UDP segment of even length: it verifies and its checksum is 0x0ab1. */
  lemma UdpEvenVector(cs: CheckSum)
    requires IsUdpEvenVector(cs)
    ensures Verifies(cs) && ChecksumOf(cs) == 0x0ab1
  {
    UdpEvenLayout(cs);
    UdpEvenFirstSum(cs);
    UdpEvenLastSum(cs);
    UdpEvenWholeSum(cs);
    UdpEvenFolds();
    ResultsFromSums(cs, 0x14f52, 0xbf82, 0x1e677, 0x2b0aa, 0x3f54b, 0x3fffc);
  }

  // The 69-byte UDP segment of odd length

  function UdpOddHead(): seq<Byte> {
    [0x48, 0x4b, 0x48, 0x4b, 0x00, 0x45]
  }

  function UdpOddField(): seq<Byte> {
    [0x5c, 0x93]
  }

  function UdpOddRest0(): seq<Byte> {
    [0xfa, 0xce, 0x00, 0x2b, 0x00, 0x02, 0x17, 0x62]
  }

  function UdpOddRest1(): seq<Byte> {
    [0x00, 0x01, 0x8b, 0xd4, 0x54, 0x80, 0x01, 0x00]
  }

  function UdpOddRest2(): seq<Byte> {
    [0x03, 0x01, 0x00, 0x00, 0x00, 0x00, 0x00, 0x53]
  }

  function UdpOddRest3(): seq<Byte> {
    [0x00, 0x00, 0x00, 0x00, 0x00, 0x00, 0x00, 0x00]
  }

  function UdpOddRest4(): seq<Byte> {
    [0x00, 0x04, 0x00, 0x00, 0x00, 0x00, 0x00, 0x00]
  }

  function UdpOddRest5(): seq<Byte> {
    [0x89, 0x00, 0x80, 0x17, 0xe3, 0x00, 0x19, 0x00]
  }

  function UdpOddRest6(): seq<Byte> {
    [0x21, 0x00, 0x00, 0x03, 0xe8, 0x00, 0x00, 0x00]
  }

  function UdpOddRest7(): seq<Byte> {
    [0x00, 0x00, 0x00, 0xc5, 0xf8]
  }

  function UdpOddRest(): seq<Byte> {
    UdpOddRest0() + (UdpOddRest1() + (UdpOddRest2() + (UdpOddRest3() + (UdpOddRest4() + (UdpOddRest5() + (UdpOddRest6() + UdpOddRest7()))))))
  }

  function UdpOddSegment(): seq<Byte> {
    UdpOddHead() + UdpOddField() + UdpOddRest()
  }

  predicate IsUdpOddVector(cs: CheckSum) {
    && cs.srcIp == [0x0a, 0x04, 0x00, 0x06] && cs.dstIp == [0x0a, 0x04, 0x00, 0x3e]
    && cs.protocol == 17 && cs.input == UdpOddSegment()
  }

  lemma UdpOddHeadSum()
    ensures WordSum(UdpOddHead()) == 0x90db
  {

  }

  lemma UdpOddFieldSum()
    ensures WordSum(UdpOddField()) == 0x5c93
  {

  }

  lemma UdpOddRest0Sum()
    ensures WordSum(UdpOddRest0()) == 0x1125d
  {
    WordSumOfEight(UdpOddRest0());
  }

  lemma UdpOddRest1Sum()
    ensures WordSum(UdpOddRest1()) == 0xe155
  {
    WordSumOfEight(UdpOddRest1());
  }

  lemma UdpOddRest2Sum()
    ensures WordSum(UdpOddRest2()) == 0x354
  {
    WordSumOfEight(UdpOddRest2());
  }

  lemma UdpOddRest3Sum()
    ensures WordSum(UdpOddRest3()) == 0x0
  {
    WordSumOfEight(UdpOddRest3());
  }

  lemma UdpOddRest4Sum()
    ensures WordSum(UdpOddRest4()) == 0x4
  {
    WordSumOfEight(UdpOddRest4());
  }

  lemma UdpOddRest5Sum()
    ensures WordSum(UdpOddRest5()) == 0x20517
  {
    WordSumOfEight(UdpOddRest5());
  }

  lemma UdpOddRest6Sum()
    ensures WordSum(UdpOddRest6()) == 0x10903
  {
    WordSumOfEight(UdpOddRest6());
  }

  lemma UdpOddRest7Sum()
    ensures TailSum(UdpOddRest7()) == 0xf8c5
  {
    var c0: seq<Byte> := UdpOddRest7();
    assert c0[..4] == [0x00, 0x00, 0x00, 0xc5];
    assert WordSum([0x00, 0x00, 0x00, 0xc5]) == 0xc5;
  }

  lemma UdpOddRestSum()
    ensures TailSum(UdpOddRest()) == 0x5fde9
  {
    TailSumAppend(UdpOddRest0(), UdpOddRest1() + (UdpOddRest2() + (UdpOddRest3() + (UdpOddRest4() + (UdpOddRest5() + (UdpOddRest6() + UdpOddRest7()))))));
    TailSumAppend(UdpOddRest1(), UdpOddRest2() + (UdpOddRest3() + (UdpOddRest4() + (UdpOddRest5() + (UdpOddRest6() + UdpOddRest7())))));
    TailSumAppend(UdpOddRest2(), UdpOddRest3() + (UdpOddRest4() + (UdpOddRest5() + (UdpOddRest6() + UdpOddRest7()))));
    TailSumAppend(UdpOddRest3(), UdpOddRest4() + (UdpOddRest5() + (UdpOddRest6() + UdpOddRest7())));
    TailSumAppend(UdpOddRest4(), UdpOddRest5() + (UdpOddRest6() + UdpOddRest7()));
    TailSumAppend(UdpOddRest5(), UdpOddRest6() + UdpOddRest7());
    TailSumAppend(UdpOddRest6(), UdpOddRest7());
    UdpOddRest0Sum();
    UdpOddRest1Sum();
    UdpOddRest2Sum();
    UdpOddRest3Sum();
    UdpOddRest4Sum();
    UdpOddRest5Sum();
    UdpOddRest6Sum();
    UdpOddRest7Sum();
  }

  lemma UdpOddLayout(cs: CheckSum)
    requires IsUdpOddVector(cs)
    ensures PseudoHeaderSum(cs) == 0x14a2
    ensures FirstInput(cs) == UdpOddHead() && LastInput(cs) == UdpOddRest()
  {
    AddressWordSum(cs.srcIp);
    AddressWordSum(cs.dstIp);
    SlicesAroundField(cs, UdpOddHead(), UdpOddField(), UdpOddRest());
  }

  lemma UdpOddFirstSum(cs: CheckSum)
    requires FirstInput(cs) == UdpOddHead()
    ensures WordSum(FirstInput(cs)) == 0x90db
  {
    UdpOddHeadSum();
  }

  lemma UdpOddLastSum(cs: CheckSum)
    requires LastInput(cs) == UdpOddRest()
    ensures TailSum(LastInput(cs)) == 0x5fde9
  {
    UdpOddRestSum();
  }

  lemma UdpOddWholeSum(cs: CheckSum)
    requires cs.input == UdpOddSegment()
    ensures TailSum(cs.input) == 0x6eb57
  {
    UdpOddHeadSum();
    UdpOddFieldSum();
    UdpOddRestSum();
    SegmentSum(cs.input, UdpOddHead(), UdpOddField(), UdpOddRest(), 3);
  }

  lemma UdpOddFolds()
    ensures EndAroundCarry(0x6a366) == 0xa36c && EndAroundCarry(0x6fff9) == 0xffff
  {
  }

  /** The test vector for the 69-byte UDP segment of odd length: it verifies and its checksum is 0x5c93. */
  lemma UdpOddVector(cs: CheckSum)
    requires IsUdpOddVector(cs)
    ensures Verifies(cs) && ChecksumOf(cs) == 0x5c93
  {
    UdpOddLayout(cs);
    UdpOddFirstSum(cs);
    UdpOddLastSum(cs);
    UdpOddWholeSum(cs);
    UdpOddFolds();
    ResultsFromSums(cs, 0x14a2, 0x90db, 0x5fde9, 0x6eb57, 0x6a366, 0x6fff9);
  }

}
