/** The Internet checksum engine of `src/net/checksum.rs`: the RFC 1071
    one's-complement sum of 16-bit words over the TCP/UDP pseudo-header
    (source address, destination address, protocol, segment length) followed
    by the segment itself.

    The source accumulates into a `u32`; the model sums over `nat` and wraps
    the total once with `WrapU32`, which equals wrapping after every `+=`
    because addition modulo 2^32 is associative. `AccumulatorFitsU32` shows
    that no wrap happens for IPv4 addresses and segments below 64 KiB. */
module Checksum {
  import opened Wire

  /** `CheckSum { src_ip, dst_ip, protocol, input }`; the datatype
      constructor is `CheckSum::new_tcp_or_udp`. */
  datatype CheckSum = CheckSum(srcIp: seq<Byte>, dstIp: seq<Byte>, protocol: Byte, input: seq<Byte>)

  /** `CheckSum::new`: no addresses and protocol 0. */
  function New(input: seq<Byte>): CheckSum {
    CheckSum([], [], 0, input)
  }

  // ---------------------------------------------------------------------
  // Word sums
  // ---------------------------------------------------------------------

  /** `array_chunks::<2>().map(u16::from_be_bytes).fold(0, +)`: the sum of the
      big-endian 16-bit words of `s`; an odd last byte is not a whole chunk and
      is dropped. */
  function WordSum(s: seq<Byte>): nat {
    if |s| < 2 then 0 else Be16(s[0], s[1]) + WordSum(s[2..])
  }

  /** The even/odd branch of `checksum` and `verify`: an even-length slice is
      summed word by word; an odd-length one sums its whole words and then
      adds its last byte shifted into the high half (`(byte << 8) | 0`). */
  function TailSum(s: seq<Byte>): nat {
    if |s| % 2 == 0 then WordSum(s) else WordSum(s[..|s| - 1]) + (s[|s| - 1] as int) * 0x100
  }

  lemma {:induction false} WordSumAppend(a: seq<Byte>, b: seq<Byte>)
    requires |a| % 2 == 0
    ensures WordSum(a + b) == WordSum(a) + WordSum(b)
    decreases |a|
  {
    if |a| != 0 {
      assert (a + b)[2..] == a[2..] + b;
      WordSumAppend(a[2..], b);
    } else {
      assert a + b == b;
    }
  }

  lemma {:induction false} WordSumDropsOddByte(s: seq<Byte>)
    requires |s| % 2 == 1
    ensures WordSum(s) == WordSum(s[..|s| - 1])
    decreases |s|
  {
    if |s| > 1 {
      assert s[..|s| - 1][2..] == s[2..][..|s| - 3];
      WordSumDropsOddByte(s[2..]);
    }
  }

  /** An odd tail is padded on the right with a zero byte (RFC 793 section
      3.1): summing it is summing its zero-padded words. */
  lemma {:induction false} OddTailIsZeroPadded(s: seq<Byte>)
    ensures |s| % 2 == 0 ==> TailSum(s) == WordSum(s)
    ensures |s| % 2 == 1 ==> TailSum(s) == WordSum(s + [0])
  {
    if |s| % 2 == 1 {
      var init, last := s[..|s| - 1], s[|s| - 1];
      assert s + [0] == init + [last, 0];
      WordSumAppend(init, [last, 0]);
      assert WordSum([last, 0]) == (last as int) * 0x100 by {
        assert [last, 0][2..] == [];
      }
    }
  }

  /** A slice that starts on a word boundary keeps its own odd-byte padding. */
  lemma {:induction false} TailSumAppend(a: seq<Byte>, b: seq<Byte>)
    requires |a| % 2 == 0
    ensures TailSum(a + b) == WordSum(a) + TailSum(b)
  {
    OddTailIsZeroPadded(b);
    OddTailIsZeroPadded(a + b);
    if |b| % 2 == 0 {
      WordSumAppend(a, b);
    } else {
      assert a + b + [0] == a + (b + [0]);
      WordSumAppend(a, b + [0]);
    }
  }

  /** Each whole word is worth at most 0xffff. */
  lemma {:induction false} WordSumBound(s: seq<Byte>)
    ensures WordSum(s) <= 0xffff * (|s| / 2)
    decreases |s|
  {
    if |s| >= 2 {
      WordSumBound(s[2..]);
    }
  }

  /** Every byte of `s`, padded or not, sits in a word worth at most 0xffff. */
  lemma {:induction false} TailSumBound(s: seq<Byte>)
    ensures TailSum(s) <= 0xffff * ((|s| + 1) / 2)
  {
    OddTailIsZeroPadded(s);
    if |s| % 2 == 0 {
      WordSumBound(s);
    } else {
      WordSumBound(s + [0]);
    }
  }

  // ---------------------------------------------------------------------
  // The sums of `checksum` and `verify`
  // ---------------------------------------------------------------------

  /** Where the 2-byte checksum field starts in the segment: byte 16 of a TCP
      header (RFC 793 section 3.1), byte 6 of a UDP header (RFC 768). */
  function FieldOffset(protocol: Byte): (r: Option<nat>)
    ensures r.Some? <==> protocol == 6 || protocol == 17
    ensures r.Some? ==> r.value % 2 == 0 && r.value + 2 <= (if protocol == 6 then 20 else 8)
  {
    if protocol == 6 then Some(16) else if protocol == 17 then Some(6) else None
  }

  /** `input.get(..off).unwrap_or_else(|| &[])`: the bytes before the field,
      none for another protocol or an input shorter than `off`. */
  function FirstInput(cs: CheckSum): (r: seq<Byte>)
    ensures |r| <= |cs.input| && r == cs.input[..|r|]
    ensures r != [] ==> FieldOffset(cs.protocol) == Some(|r|)
    ensures FieldOffset(cs.protocol).Some? && |cs.input| >= FieldOffset(cs.protocol).value ==>
      |r| == FieldOffset(cs.protocol).value
  {
    match FieldOffset(cs.protocol)
    case None => []
    case Some(off) => if |cs.input| >= off then cs.input[..off] else []
  }

  /** `input.get(off + 2..).unwrap_or_else(|| &[])`: the bytes after the
      field, none for another protocol or an input shorter than `off + 2`. */
  function LastInput(cs: CheckSum): (r: seq<Byte>)
    ensures |r| <= |cs.input| && r == cs.input[|cs.input| - |r|..]
    ensures r != [] ==> FieldOffset(cs.protocol).Some? && |r| == |cs.input| - FieldOffset(cs.protocol).value - 2
    ensures FieldOffset(cs.protocol).Some? && |cs.input| >= FieldOffset(cs.protocol).value + 2 ==>
      |r| == |cs.input| - FieldOffset(cs.protocol).value - 2
  {
    match FieldOffset(cs.protocol)
    case None => []
    case Some(off) => if |cs.input| >= off + 2 then cs.input[off + 2..] else []
  }

  /** The pseudo-header contribution shared by `checksum` and `verify`: the
      words of both addresses, the protocol as the word `0 protocol`, and the
      length of the whole segment. */
  function PseudoHeaderSum(cs: CheckSum): nat {
    WordSum(cs.srcIp) + WordSum(cs.dstIp) + cs.protocol + |cs.input|
  }

  /** An IPv4 address contributes its two 16-bit words. */
  lemma AddressWordSum(ip: seq<Byte>)
    requires |ip| == 4
    ensures WordSum(ip) == Be16(ip[0], ip[1]) + Be16(ip[2], ip[3])
  {
    var low := ip[2..];
    assert low[2..] == [];
    assert WordSum(low) == Be16(low[0], low[1]);
  }

  /** The `u32` accumulator keeps the low 32 bits of the sum. */
  function WrapU32(n: nat): U32 {
    n % 0x1_0000_0000
  }

  /** `value` in `checksum` before the carry fold: the checksum field is left out. */
  function ChecksumAccumulator(cs: CheckSum): U32 {
    WrapU32(PseudoHeaderSum(cs) + WordSum(FirstInput(cs)) + TailSum(LastInput(cs)))
  }

  /** `value` in `verify` before the carry fold: the whole segment is summed. */
  function VerifyAccumulator(cs: CheckSum): U32 {
    WrapU32(PseudoHeaderSum(cs) + TailSum(cs.input))
  }

  // ---------------------------------------------------------------------
  // End-around carry
  // ---------------------------------------------------------------------

  /** What the loop `while value >> 16 != 0 { value = (value >> 16) + (value & 0xffff) }`
      leaves: since 0x10000 is 1 modulo 0xffff, folding keeps the value modulo
      0xffff, and a non-zero value never folds to zero. */
  function EndAroundCarry(v: nat): (r: U16)
    ensures r % 0xffff == v % 0xffff
    ensures r == 0 <==> v == 0
  {
    if v == 0 then 0 else 1 + (v - 1) % 0xffff
  }

  lemma CarryStep(v: nat)
    requires v >= 0x1_0000
    ensures v / 0x1_0000 + v % 0x1_0000 < v
    ensures (v / 0x1_0000 + v % 0x1_0000) % 0xffff == v % 0xffff
  {
    var q, m := v / 0x1_0000, v % 0x1_0000;
    assert v == (q + m) + q * 0xffff;
  }

  lemma ResidueInRange(r: nat, v: nat)
    requires 1 <= r <= 0xffff && v >= 1
    requires r % 0xffff == v % 0xffff
    ensures r == 1 + (v - 1) % 0xffff
  {
    assert (r - 1) % 0xffff == (v - 1) % 0xffff;
  }

  /** The carry-fold loop of `checksum` and `verify` (lines 66-68 and 91-93). */
  method FoldCarries(value: U32) returns (r: U16)
    ensures r == EndAroundCarry(value)
  {
    var v: int := value;
    while v / 0x1_0000 != 0
      invariant 0 <= v < 0x1_0000_0000
      invariant v % 0xffff == value % 0xffff
      invariant v == 0 <==> value == 0
      decreases v
    {
      CarryStep(v);
      v := v / 0x1_0000 + v % 0x1_0000;
    }
    if v != 0 {
      ResidueInRange(v, value);
    }
    r := v;
  }

  // ---------------------------------------------------------------------
  // checksum() and verify()
  // ---------------------------------------------------------------------

  /** The value `checksum` returns: `!value as u16` of the folded sum. */
  function ChecksumOf(cs: CheckSum): U16 {
    0xffff - EndAroundCarry(ChecksumAccumulator(cs))
  }

  /** What `verify` returns: `!value as u16 == 0` of the folded sum. */
  predicate Verifies(cs: CheckSum) {
    0xffff - EndAroundCarry(VerifyAccumulator(cs)) == 0
  }

  /** `CheckSum::checksum`. */
  method Checksum(cs: CheckSum) returns (r: U16)
    ensures r == ChecksumOf(cs)
  {
    var first, last := FirstInput(cs), LastInput(cs);
    var value := WrapU32(PseudoHeaderSum(cs) + WordSum(first) + TailSum(last));
    var folded := FoldCarries(value);
    r := 0xffff - folded;
  }

  /** `CheckSum::verify`. */
  method Verify(cs: CheckSum) returns (ok: bool)
    ensures ok == Verifies(cs)
  {
    var value := WrapU32(PseudoHeaderSum(cs) + TailSum(cs.input));
    var folded := FoldCarries(value);
    ok := 0xffff - folded == 0;
  }

  // ---------------------------------------------------------------------
  // Properties
  // ---------------------------------------------------------------------

  /** `CheckSum::new` has no addresses and no protocol, so neither part of the
      segment is summed: only its length reaches the checksum. */
  lemma NewChecksumCoversLengthOnly(input: seq<Byte>)
    ensures ChecksumOf(New(input)) == 0xffff - EndAroundCarry(WrapU32(|input|))
  {
  }

  /** For a protocol other than TCP or UDP, or a segment too short for
      `get(..16)` / `get(..6)`, both split slices are empty and only the
      pseudo-header (segment length included) is summed. */
  lemma ChecksumSumsPseudoHeaderOnly(cs: CheckSum)
    requires || (cs.protocol != 6 && cs.protocol != 17)
             || (cs.protocol == 6 && |cs.input| < 16)
             || (cs.protocol == 17 && |cs.input| < 6)
    ensures ChecksumOf(cs) == 0xffff - EndAroundCarry(WrapU32(PseudoHeaderSum(cs)))
  {
  }

  /** `checksum` leaves the checksum field out of the sum: two segments that
      differ only in the two field bytes get the same checksum. */
  lemma ChecksumIgnoresField(cs: CheckSum, other: CheckSum)
    requires FieldOffset(cs.protocol).Some?
    requires other.srcIp == cs.srcIp && other.dstIp == cs.dstIp && other.protocol == cs.protocol
    requires |other.input| == |cs.input|
    requires forall i :: 0 <= i < |cs.input| && (i < FieldOffset(cs.protocol).value || i >= FieldOffset(cs.protocol).value + 2) ==>
      other.input[i] == cs.input[i]
    ensures ChecksumOf(other) == ChecksumOf(cs)
  {
    var off := FieldOffset(cs.protocol).value;
    if |cs.input| >= off {
      assert FirstInput(other) == FirstInput(cs);
    }
    if |cs.input| >= off + 2 {
      assert LastInput(other) == LastInput(cs);
    }
  }

  /** RFC 1071: `verify` holds exactly when the one's-complement sum of the
      pseudo-header and the whole segment is "minus zero", i.e. the wrapped
      accumulator is a non-zero multiple of 0xffff. */
  lemma VerifiesIffSumIsMinusZero(cs: CheckSum)
    ensures Verifies(cs) <==> VerifyAccumulator(cs) != 0 && VerifyAccumulator(cs) % 0xffff == 0
  {
    var v := VerifyAccumulator(cs);
    var r := EndAroundCarry(v);
    if v != 0 && v % 0xffff == 0 {
      assert 1 <= r <= 0xffff && r % 0xffff == 0;
    }
  }

  /** With IPv4 addresses and a segment shorter than 64 KiB the `u32`
      accumulators of `checksum` and `verify` never wrap. */
  lemma AccumulatorFitsU32(cs: CheckSum)
    requires |cs.srcIp| == 4 && |cs.dstIp| == 4 && |cs.input| < 0x1_0000
    ensures ChecksumAccumulator(cs) == PseudoHeaderSum(cs) + WordSum(FirstInput(cs)) + TailSum(LastInput(cs))
    ensures VerifyAccumulator(cs) == PseudoHeaderSum(cs) + TailSum(cs.input)
  {
    var pseudo := PseudoHeaderSum(cs);
    AddressWordSum(cs.srcIp);
    AddressWordSum(cs.dstIp);
    assert pseudo <= 4 * 0xffff + 0xff + 0xffff;
    TailSumBound(cs.input);
    var h := (|cs.input| + 1) / 2;
    assert h <= 0x8000;
    assert TailSum(cs.input) <= 0xffff * 0x8000;
    var first, last := FirstInput(cs), LastInput(cs);
    TailSumBound(last);
    assert |first| <= 16 && |last| < 0x1_0000;
    var hl := (|last| + 1) / 2;
    assert hl <= 0x8000;
    WordSumBound(first);
    assert WordSum(first) <= 0xffff * 8;
    assert TailSum(last) <= 0xffff * 0x8000;
  }

  /** Each `u16` word of `s[..k] + [hi, lo] + s[k + 2..]` is a word of the
      original except the one at `k`. */
  lemma {:induction false} TailSumAroundField(s: seq<Byte>, k: nat, hi: Byte, lo: Byte)
    requires k % 2 == 0 && k + 2 <= |s|
    ensures TailSum(s[..k] + [hi, lo] + s[k + 2..]) == WordSum(s[..k]) + Be16(hi, lo) + TailSum(s[k + 2..])
  {
    var first, last := s[..k], s[k + 2..];
    var t := first + [hi, lo] + last;
    var padded := if |last| % 2 == 0 then last else last + [0];
    OddTailIsZeroPadded(last);
    OddTailIsZeroPadded(t);
    assert (if |t| % 2 == 0 then t else t + [0]) == first + ([hi, lo] + padded);
    WordSumAppend(first, [hi, lo] + padded);
    WordSumAppend([hi, lo], padded);
    assert WordSum([hi, lo]) == Be16(hi, lo) by {
      assert [hi, lo][2..] == [];
    }
  }

  /** A non-zero fold that is a multiple of 0xffff is all ones. */
  lemma FoldOfMinusZero(v: nat)
    requires v != 0 && v % 0xffff == 0
    ensures EndAroundCarry(v) == 0xffff
  {
  }

  /** RFC 1071 section 1: adding the complement of the folded sum to the sum
      gives "minus zero", which folds to all ones. */
  lemma ComplementCompletesSum(before: nat)
    ensures EndAroundCarry(before + (0xffff - EndAroundCarry(before))) == 0xffff
  {
    var e := EndAroundCarry(before);
    var after := before + (0xffff - e);
    assert after % 0xffff == 0 by {
      assert after == (before - e) + 0xffff;
      assert (before - e) % 0xffff == 0;
    }
    FoldOfMinusZero(after);
  }

  /** Writing `v` into the field of `cs` turns `verify`'s sum into
      `checksum`'s sum plus `v`. */
  lemma PatchedSum(cs: CheckSum, v: U16)
    requires FieldOffset(cs.protocol).Some?
    requires |cs.input| >= FieldOffset(cs.protocol).value + 2
    ensures var patched := cs.(input := PutBe16(cs.input, FieldOffset(cs.protocol).value, v));
      PseudoHeaderSum(patched) + TailSum(patched.input) ==
      PseudoHeaderSum(cs) + WordSum(FirstInput(cs)) + TailSum(LastInput(cs)) + v
  {
    var off := FieldOffset(cs.protocol).value;
    var hi, lo := v / 0x100, v % 0x100;
    var t := PutBe16(cs.input, off, v);
    var first, last := cs.input[..off], cs.input[off + 2..];
    assert FirstInput(cs) == first && LastInput(cs) == last;
    assert t[..off] == first && t[off + 2..] == last;
    assert t == first + [hi, lo] + last by {
      assert t == t[..off] + [hi, lo] + t[off + 2..];
    }
    TailSumAroundField(t, off, hi, lo);
  }

  /** Once no accumulator wraps, `verify`'s accumulator after writing `v`
      into the field is `checksum`'s accumulator plus `v`. */
  lemma PatchedAccumulator(cs: CheckSum, v: U16)
    requires FieldOffset(cs.protocol).Some?
    requires |cs.input| >= FieldOffset(cs.protocol).value + 2
    requires |cs.srcIp| == 4 && |cs.dstIp| == 4 && |cs.input| < 0x1_0000
    ensures VerifyAccumulator(cs.(input := PutBe16(cs.input, FieldOffset(cs.protocol).value, v))) ==
      ChecksumAccumulator(cs) + v
  {
    PatchedSum(cs, v);
    AccumulatorFitsU32(cs);
    AccumulatorFitsU32(cs.(input := PutBe16(cs.input, FieldOffset(cs.protocol).value, v)));
  }

  /** The round trip the tests rely on: writing `checksum()` big-endian into
      the checksum field of a TCP (at least 18 bytes) or UDP (at least 8 bytes)
      segment makes `verify()` true. */
  lemma ChecksumRoundTrip(cs: CheckSum)
    requires FieldOffset(cs.protocol).Some?
    requires |cs.input| >= FieldOffset(cs.protocol).value + 2
    requires |cs.srcIp| == 4 && |cs.dstIp| == 4 && |cs.input| < 0x1_0000
    ensures Verifies(cs.(input := PutBe16(cs.input, FieldOffset(cs.protocol).value, ChecksumOf(cs))))
  {
    var before, c := ChecksumAccumulator(cs), ChecksumOf(cs);
    var patched := cs.(input := PutBe16(cs.input, FieldOffset(cs.protocol).value, c));
    PatchedAccumulator(cs, c);
    ComplementCompletesSum(before);
    assert VerifyAccumulator(patched) == before + (0xffff - EndAroundCarry(before));
  }
}
