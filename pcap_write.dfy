/** The in-place part of `write_pcap` in `src/cli/libpcap_write.rs`: the
    choice of the file mode, and the patch of the decoded payload before it
    is written. With `--checksum` (the default) the payload is decoded as a
    `ChecksumLayer`; for an IPv4 frame its UDP or TCP checksum is written
    big-endian at byte 40 or 50, and with `--total_length` (the default)
    bytes 16-17, the IPv4 total length, are written. Every offset assumes a
    14-byte Ethernet header and a 20-byte IPv4 header. A failed decode or an
    index past the end of the payload panics.

    The bytes lines 56-59 store at 16-17 are always 0
    (`TotalLengthBytesAsWritten`); `Patch`, `PatchPayload` and every lemma
    about them store the corrected value, the low 16 bits of the datagram
    length (`TotalLengthBytes`). */
module PcapWrite {
  import opened Wire
  import opened Checksum
  import Ethernet
  import Ipv4
  import opened Layers

  /** Line 33: the explicit `--mode`, otherwise append to an existing output
      file and write a new one. */
  function ChooseMode(mode: Option<string>, outputExists: bool): (r: string)
    ensures mode.Some? ==> r == mode.value
    ensures mode.None? ==> (r == "a" <==> outputExists) && (r == "w" <==> !outputExists)
  {
    match mode
    case Some(m) => m
    case None => if outputExists then "a" else "w"
  }

  /** Whether `write_pcap` goes on to write the payload or panics first. */
  datatype Outcome = Patched | Panicked

  // ---------------------------------------------------------------------
  // The IPv4 total length
  // ---------------------------------------------------------------------

  const TotalLengthOffset: nat := 14 + 2

  /** `usize` on a 64-bit target. */
  const UsizeModulus: nat := 0x1_0000_0000_0000_0000

  /** Lines 56-59 as written: the first two bytes of the 8-byte big-endian
      `usize` encoding of `length + 20`, i.e. its two most significant
      bytes. */
  function TotalLengthBytesAsWritten(length: nat): (r: seq<Byte>)
    ensures |r| == 2
    ensures Be16(r[0], r[1]) == ((length + 20) % UsizeModulus) / 0x1_0000_0000_0000
  {
    var n := (length + 20) % UsizeModulus;
    [n / 0x1_0000_0000_0000_00, (n / 0x1_0000_0000_0000) % 0x100]
  }

  /** The two bytes as written are zero for every payload shorter than
      2^48 bytes, so the IPv4 total length is always overwritten with 0. */
  lemma TotalLengthAsWrittenIsZero(length: nat)
    requires length + 20 < 0x1_0000_0000_0000
    ensures TotalLengthBytesAsWritten(length) == [0, 0]
  {
  }

  /** What lines 56-59 evidently mean: 20 header bytes plus what follows
      them, as a big-endian `u16`. */
  function TotalLengthBytes(length: nat): (r: seq<Byte>)
    ensures |r| == 2 && Be16(r[0], r[1]) == (length + 20) % 0x1_0000
  {
    ToBe16((length + 20) % 0x1_0000)
  }

  // ---------------------------------------------------------------------
  // The patch as a list of byte stores
  // ---------------------------------------------------------------------

  /** `payload[i] = v`, in the order the source performs them. */
  datatype Store = Store(at: nat, value: Byte)

  /** The stores of lines 42-53, given the protocol and the checksum of the
      decoded payload (both present exactly for IPv4): the big-endian
      checksum at the field of UDP or TCP, none otherwise. */
  function ChecksumStores(protocol: Option<Byte>, sum: Option<U16>): (r: seq<Store>)
    ensures |r| == 0 || |r| == 2
    ensures |r| == 2 <==> sum.Some? && protocol.Some? && ChecksumPatchOffset(protocol.value).Some?
    ensures |r| == 2 ==> && r[0].at == ChecksumPatchOffset(protocol.value).value && r[1].at == r[0].at + 1
                         && Be16(r[0].value, r[1].value) == sum.value
  {
    match (protocol, sum)
    case (Some(protocol), Some(sum)) =>
      if protocol == UdpProtocol || protocol == TcpProtocol then
        var at := ChecksumPatchOffset(protocol).value;
        [Store(at, ToBe16(sum)[0]), Store(at + 1, ToBe16(sum)[1])]
      else []
    case _ => []
  }

  /** The stores of lines 55-60, whatever Layer3 is; `length` is the length
      of `remain` before any store. */
  function LengthStores(length: nat, totalLength: bool): (r: seq<Store>)
    ensures |r| == if totalLength then 2 else 0
    ensures totalLength ==> && r[0].at == TotalLengthOffset && r[1].at == TotalLengthOffset + 1
                            && Be16(r[0].value, r[1].value) == (length + 20) % 0x1_0000
  {
    var lengthBytes := TotalLengthBytes(length);
    if totalLength then [Store(TotalLengthOffset, lengthBytes[0]), Store(TotalLengthOffset + 1, lengthBytes[1])] else []
  }

  /** Performs the stores in order; the first index past the end panics and
      leaves the earlier stores done. */
  function ApplyStores(p: seq<Byte>, stores: seq<Store>): (r: (Outcome, seq<Byte>))
    ensures |r.1| == |p|
    ensures r.0 == Patched <==> forall k :: 0 <= k < |stores| ==> stores[k].at < |p|
    decreases |stores|
  {
    if stores == [] then (Patched, p)
    else if stores[0].at >= |p| then (Panicked, p)
    else ApplyStores(p[stores[0].at := stores[0].value], stores[1..])
  }

  /** The whole patch of lines 37-61 on the decoded payload `p`. */
  function Patch(p: seq<Byte>, checksum: bool, totalLength: bool): (r: (Outcome, seq<Byte>))
    ensures |r.1| == |p|
    ensures r.0 == Panicked ==> checksum
  {
    if !checksum then (Patched, p)
    else match DecodeChecksumLayer(p)
      case None => (Panicked, p)
      case Some(c) => ApplyStores(p, ChecksumStores(GetProtocol(c.layer3), LayerChecksum(c)) + LengthStores(|c.remain|, totalLength))
  }

  /** Two stores of a big-endian word, ahead of `later`, are `PutBe16`. */
  lemma ApplyWordStores(p: seq<Byte>, at: nat, v: U16, later: seq<Store>)
    requires at + 2 <= |p|
    ensures ApplyStores(p, [Store(at, ToBe16(v)[0]), Store(at + 1, ToBe16(v)[1])] + later) ==
      ApplyStores(PutBe16(p, at, v), later)
  {
    var stores := [Store(at, ToBe16(v)[0]), Store(at + 1, ToBe16(v)[1])] + later;
    assert stores[1..][1..] == later;
  }

  /** A byte that no store names keeps its value. */
  lemma {:induction false} ApplyStoresFrame(p: seq<Byte>, stores: seq<Store>, i: nat)
    requires i < |p|
    requires forall k :: 0 <= k < |stores| ==> stores[k].at != i
    ensures ApplyStores(p, stores).1[i] == p[i]
    decreases |stores|
  {
    if stores != [] && stores[0].at < |p| {
      var p1 := p[stores[0].at := stores[0].value];
      assert forall k :: 0 <= k < |stores[1..]| ==> stores[1..][k].at == stores[k + 1].at;
      ApplyStoresFrame(p1, stores[1..], i);
    }
  }

  /** Whether the checksum stores for `protocol` (present exactly for IPv4)
      name byte `i`: 40-41 for UDP, 50-51 for TCP, none otherwise. */
  predicate ChecksumIndex(protocol: Option<Byte>, i: nat) {
    && protocol.Some? && ChecksumPatchOffset(protocol.value).Some?
    && (i == ChecksumPatchOffset(protocol.value).value || i == ChecksumPatchOffset(protocol.value).value + 1)
  }

  /** A byte that neither the checksum stores nor the total length stores
      name keeps its value. */
  lemma StoresFrame(p: seq<Byte>, protocol: Option<Byte>, sum: Option<U16>, length: nat, totalLength: bool, i: nat)
    requires i < |p|
    requires !ChecksumIndex(protocol, i)
    requires totalLength ==> i != TotalLengthOffset && i != TotalLengthOffset + 1
    ensures ApplyStores(p, ChecksumStores(protocol, sum) + LengthStores(length, totalLength)).1[i] == p[i]
  {
    ApplyStoresFrame(p, ChecksumStores(protocol, sum) + LengthStores(length, totalLength), i);
  }

  /** The patch writes bytes 16-17 only with `--total_length`, and bytes
      40-41 or 50-51 only for UDP or TCP over IPv4; every other byte of the
      payload is left as it was. Without `--checksum`, or when decoding
      fails, nothing changes. */
  lemma PatchTouchesOnlyItsFields(p: seq<Byte>, checksum: bool, totalLength: bool, i: nat)
    requires i < |p|
    requires totalLength ==> i != TotalLengthOffset && i != TotalLengthOffset + 1
    requires checksum && DecodeChecksumLayer(p).Some? ==> !ChecksumIndex(GetProtocol(DecodeChecksumLayer(p).value.layer3), i)
    ensures Patch(p, checksum, totalLength).1[i] == p[i]
    ensures !checksum || DecodeChecksumLayer(p).None? ==> Patch(p, checksum, totalLength) == (if checksum then Panicked else Patched, p)
  {
    if checksum && DecodeChecksumLayer(p).Some? {
      var c := DecodeChecksumLayer(p).value;
      StoresFrame(p, GetProtocol(c.layer3), LayerChecksum(c), |c.remain|, totalLength, i);
    }
  }

  /** Lines 42-53: a frame that is not IPv4, or carries neither UDP nor TCP,
      gets no checksum bytes, though `checksum()` is present for every IPv4
      frame; only the total length stores remain. */
  lemma OtherProtocolWritesNoChecksum(p: seq<Byte>, totalLength: bool)
    requires DecodeChecksumLayer(p).Some?
    requires var protocol := GetProtocol(DecodeChecksumLayer(p).value.layer3);
      protocol.None? || ChecksumPatchOffset(protocol.value).None?
    ensures Patch(p, true, totalLength) == ApplyStores(p, LengthStores(|DecodeChecksumLayer(p).value.remain|, totalLength))
  {
    var c := DecodeChecksumLayer(p).value;
    assert ChecksumStores(GetProtocol(c.layer3), LayerChecksum(c)) == [];
    assert [] + LengthStores(|c.remain|, totalLength) == LengthStores(|c.remain|, totalLength);
  }

  /** The stores fail exactly when one of them is past the end: the
      checksum field of UDP or TCP, or bytes 16-17. */
  lemma StoresPanicIff(p: seq<Byte>, protocol: Option<Byte>, sum: Option<U16>, length: nat, totalLength: bool)
    ensures ApplyStores(p, ChecksumStores(protocol, sum) + LengthStores(length, totalLength)).0 == Panicked <==>
      (protocol.Some? && sum.Some? && ChecksumPatchOffset(protocol.value).Some? && |p| < ChecksumPatchOffset(protocol.value).value + 2) ||
      (totalLength && |p| < TotalLengthOffset + 2)
  {
    TwoWordStoresPanicIff(p, ChecksumStores(protocol, sum), LengthStores(length, totalLength));
  }

  /** Stores that come as word pairs, lower byte first, panic exactly when
      the upper byte of a pair is past the end. */
  lemma TwoWordStoresPanicIff(p: seq<Byte>, first: seq<Store>, second: seq<Store>)
    requires |first| == 0 || (|first| == 2 && first[0].at < first[1].at)
    requires |second| == 0 || (|second| == 2 && second[0].at < second[1].at)
    ensures ApplyStores(p, first + second).0 == Panicked <==>
      (|first| == 2 && |p| <= first[1].at) || (|second| == 2 && |p| <= second[1].at)
  {
    TwoWordStoresFit(|p|, first, second);
  }

  /** Every store of two word pairs is below `n` exactly when the upper byte
      of each pair is. */
  lemma TwoWordStoresFit(n: nat, first: seq<Store>, second: seq<Store>)
    requires |first| == 0 || (|first| == 2 && first[0].at < first[1].at)
    requires |second| == 0 || (|second| == 2 && second[0].at < second[1].at)
    ensures (forall k :: 0 <= k < |first + second| ==> (first + second)[k].at < n) <==>
      (|first| == 2 ==> first[1].at < n) && (|second| == 2 ==> second[1].at < n)
  {
    var stores := first + second;
    if |first| == 2 && n <= first[1].at {
      assert stores[1] == first[1];
    } else if |second| == 2 && n <= second[1].at {
      assert stores[|stores| - 1] == second[1];
    } else {
      forall k | 0 <= k < |stores|
        ensures stores[k].at < n
      {
        if k < |first| {
          assert stores[k] == first[k];
        } else {
          assert stores[k] == second[k - |first|];
        }
      }
    }
  }

  /** The patch panics exactly when a store it makes is past the end: the
      checksum field of a UDP or TCP datagram over IPv4, or bytes 16-17,
      which are written whatever the frame holds. */
  lemma PatchPanicsIff(p: seq<Byte>, totalLength: bool)
    requires DecodeChecksumLayer(p).Some?
    ensures var protocol := GetProtocol(DecodeChecksumLayer(p).value.layer3);
      Patch(p, true, totalLength).0 == Panicked <==>
        (protocol.Some? && ChecksumPatchOffset(protocol.value).Some? && |p| < ChecksumPatchOffset(protocol.value).value + 2) ||
        (totalLength && |p| < TotalLengthOffset + 2)
  {
    var c := DecodeChecksumLayer(p).value;
    StoresPanicIff(p, GetProtocol(c.layer3), LayerChecksum(c), |c.remain|, totalLength);
  }

  /** When every store fits, the checksum stores of UDP or TCP and the
      total length stores are two big-endian words. */
  lemma StoresAreTwoWords(p: seq<Byte>, protocol: Byte, sum: U16, length: nat, totalLength: bool)
    requires ChecksumPatchOffset(protocol).Some? && ChecksumPatchOffset(protocol).value + 2 <= |p|
    ensures var p1 := PutBe16(p, ChecksumPatchOffset(protocol).value, sum);
      ApplyStores(p, ChecksumStores(Some(protocol), Some(sum)) + LengthStores(length, totalLength)) ==
        (Patched, if totalLength then PutBe16(p1, TotalLengthOffset, (length + 20) % 0x1_0000) else p1)
  {
    var at := ChecksumPatchOffset(protocol).value;
    var later := LengthStores(length, totalLength);
    ChecksumStoresAreWord(protocol, sum);
    ApplyWordStores(p, at, sum, later);
    if totalLength {
      var word := LengthStoresAreWord(length);
      ApplyWordStores(PutBe16(p, at, sum), TotalLengthOffset, word, []);
    }
  }

  /** The checksum stores of UDP or TCP are the big-endian checksum. */
  lemma ChecksumStoresAreWord(protocol: Byte, sum: U16)
    requires ChecksumPatchOffset(protocol).Some?
    ensures var at := ChecksumPatchOffset(protocol).value;
      ChecksumStores(Some(protocol), Some(sum)) == [Store(at, ToBe16(sum)[0]), Store(at + 1, ToBe16(sum)[1])]
  {
  }

  /** The total length stores are the big-endian corrected total length. */
  lemma LengthStoresAreWord(length: nat) returns (word: U16)
    ensures word == (length + 20) % 0x1_0000
    ensures LengthStores(length, true) == [Store(TotalLengthOffset, ToBe16(word)[0]), Store(TotalLengthOffset + 1, ToBe16(word)[1])] + []
  {
    word := (length + 20) % 0x1_0000;
  }

  /** For a UDP or TCP datagram over an IPv4 header without options, the
      patch is two big-endian words: the checksum at its field, then the
      number of bytes after the Ethernet header at bytes 16-17 (the IPv4
      datagram and any link-layer padding after it). */
  lemma PatchIsTwoWords(p: seq<Byte>, totalLength: bool)
    requires DecodeChecksumLayer(p).Some? && DecodeChecksumLayer(p).value.layer3.Ipv4?
    requires DecodeChecksumLayer(p).value.layer3.ipv4.headerLength == Ipv4.MinHeaderLength
    requires ChecksumPatchOffset(DecodeChecksumLayer(p).value.layer3.ipv4.protocol).Some?
    requires ChecksumPatchOffset(DecodeChecksumLayer(p).value.layer3.ipv4.protocol).value + 2 <= |p| < 0x1_0000
    ensures var c := DecodeChecksumLayer(p).value;
      var p1 := PutBe16(p, ChecksumPatchOffset(c.layer3.ipv4.protocol).value, LayerChecksum(c).value);
      Patch(p, true, totalLength) ==
        (Patched, if totalLength then PutBe16(p1, TotalLengthOffset, |p| - Ethernet.HeaderLength) else p1)
  {
    var c := DecodeChecksumLayer(p).value;
    var protocol, sum, length := c.layer3.ipv4.protocol, LayerChecksum(c).value, |c.remain|;
    assert GetProtocol(c.layer3) == Some(protocol) && LayerChecksum(c) == Some(sum);
    ChecksumLayerRemain(p);
    assert length + 20 == |p| - Ethernet.HeaderLength;
    SmallLengthWord(length);
    StoresAreTwoWords(p, protocol, sum, length, totalLength);
  }

  /** A length that fits 16 bits is its own low 16 bits. */
  lemma SmallLengthWord(length: nat)
    requires length + 20 < 0x1_0000
    ensures (length + 20) % 0x1_0000 == length + 20
  {
  }

  /** The point of the write tool: for a UDP or TCP datagram over an IPv4
      header without options, the patch succeeds, the re-decoded frame
      verifies, only the checksum field of `remain` changes, and with
      `--total_length` the IPv4 total length becomes the number of bytes
      after the Ethernet header, padding included. */
  lemma PatchMakesFrameVerify(p: seq<Byte>, totalLength: bool)
    requires DecodeChecksumLayer(p).Some? && DecodeChecksumLayer(p).value.layer3.Ipv4?
    requires DecodeChecksumLayer(p).value.layer3.ipv4.headerLength == Ipv4.MinHeaderLength
    requires ChecksumPatchOffset(DecodeChecksumLayer(p).value.layer3.ipv4.protocol).Some?
    requires ChecksumPatchOffset(DecodeChecksumLayer(p).value.layer3.ipv4.protocol).value + 2 <= |p| < 0x1_0000
    ensures var c := DecodeChecksumLayer(p).value;
      var r := Patch(p, true, totalLength);
      var d := DecodeChecksumLayer(r.1);
      && r.0 == Patched
      && d.Some? && LayerVerify(d.value)
      && d.value.remain == PutBe16(c.remain, FieldOffset(c.layer3.ipv4.protocol).value, LayerChecksum(c).value)
      && d.value.layer3.Ipv4?
      && d.value.layer3.ipv4.totalLength == if totalLength then |p| - Ethernet.HeaderLength else c.layer3.ipv4.totalLength
  {
    var c := DecodeChecksumLayer(p).value;
    var at := ChecksumPatchOffset(c.layer3.ipv4.protocol).value;
    var sum := LayerChecksum(c).value;
    PatchIsTwoWords(p, totalLength);
    PatchedFrameVerifies(p);
    PatchChangesOnlyRemain(p, sum);
    if totalLength {
      TotalLengthPatchChangesOnlyTotalLength(PutBe16(p, at, sum), |p| - Ethernet.HeaderLength);
    }
  }

  /** A frame whose total length is already right is patched the same
      with or without `--total_length`. */
  lemma PatchKeepsCorrectTotalLength(p: seq<Byte>)
    requires DecodeChecksumLayer(p).Some? && DecodeChecksumLayer(p).value.layer3.Ipv4?
    requires DecodeChecksumLayer(p).value.layer3.ipv4.headerLength == Ipv4.MinHeaderLength
    requires ChecksumPatchOffset(DecodeChecksumLayer(p).value.layer3.ipv4.protocol).Some?
    requires ChecksumPatchOffset(DecodeChecksumLayer(p).value.layer3.ipv4.protocol).value + 2 <= |p| < 0x1_0000
    requires DecodeChecksumLayer(p).value.layer3.ipv4.totalLength == |p| - Ethernet.HeaderLength
    ensures Patch(p, true, true) == Patch(p, true, false)
  {
    var c := DecodeChecksumLayer(p).value;
    PatchIsTwoWords(p, true);
    PatchIsTwoWords(p, false);
    TotalLengthWord(p);
    RewriteKeepsWord(p, ChecksumPatchOffset(c.layer3.ipv4.protocol).value, LayerChecksum(c).value, |p| - Ethernet.HeaderLength);
  }

  /** Writing back the total length a payload already holds, after another
      word, changes nothing. */
  lemma RewriteKeepsWord(p: seq<Byte>, at: nat, v: U16, length: U16)
    requires TotalLengthOffset + 2 <= at && at + 2 <= |p|
    requires Be16(p[TotalLengthOffset], p[TotalLengthOffset + 1]) == length
    ensures PutBe16(PutBe16(p, at, v), TotalLengthOffset, length) == PutBe16(p, at, v)
  {
    PutBe16Unchanged(p, at, v, TotalLengthOffset);
    PutBe16Same(PutBe16(p, at, v), TotalLengthOffset);
  }

  /** The total length as written: for every frame shorter than 2^48 bytes
      that decodes with an IPv4 header, the stores of lines 58-59 put 0 in
      the total length, which is never the length of the IPv4 datagram (at
      least its 20 header bytes). */
  lemma TotalLengthAsWrittenIsWrong(p: seq<Byte>)
    requires DecodeChecksumLayer(p).Some? && DecodeChecksumLayer(p).value.layer3.Ipv4?
    requires |p| < 0x1_0000_0000_0000
    ensures var c := DecodeChecksumLayer(p).value;
      var w := TotalLengthBytesAsWritten(|c.remain|);
      var d := DecodeChecksumLayer(PutBe16(p, TotalLengthOffset, Be16(w[0], w[1])));
      && w == [0, 0]
      && d.Some? && d.value.layer3.Ipv4? && d.value.layer3.ipv4.totalLength == 0
      && |c.remain| + 20 >= Ipv4.MinHeaderLength > 0
  {
    var c := DecodeChecksumLayer(p).value;
    ChecksumLayerRemain(p);
    TotalLengthAsWrittenIsZero(|c.remain|);
    TotalLengthPatchChangesOnlyTotalLength(p, 0);
  }

  // ---------------------------------------------------------------------
  // The method
  // ---------------------------------------------------------------------

  /** One indexed store into the payload, the first of the `pending`
      stores: panics past the end. */
  method StoreByte(payload: array<Byte>, ghost pending: seq<Store>, at: nat, value: Byte) returns (ok: bool)
    requires pending != [] && pending[0] == Store(at, value)
    modifies payload
    ensures ok <==> at < payload.Length
    ensures payload[..] == if ok then old(payload[..])[at := value] else old(payload[..])
    ensures ApplyStores(old(payload[..]), pending) ==
      if ok then ApplyStores(payload[..], pending[1..]) else (Panicked, payload[..])
  {
    if at >= payload.Length {
      return false;
    }
    payload[at] := value;
    ok := true;
  }

  /** Lines 42-53: the checksum stores, ahead of the `later` ones. */
  method PatchChecksum(payload: array<Byte>, protocol: Option<Byte>, sum: Option<U16>, ghost later: seq<Store>) returns (ok: bool)
    modifies payload
    ensures ApplyStores(old(payload[..]), ChecksumStores(protocol, sum) + later) ==
      if ok then ApplyStores(payload[..], later) else (Panicked, payload[..])
  {
    ghost var pending := ChecksumStores(protocol, sum) + later;
    ok := true;
    if protocol.Some? && sum.Some? && (protocol.value == UdpProtocol || protocol.value == TcpProtocol) {
      var bytes := ToBe16(sum.value);
      var at := ChecksumPatchOffset(protocol.value).value;
      ok := StoreByte(payload, pending, at, bytes[0]);
      if !ok {
        return;
      }
      pending := pending[1..];
      ok := StoreByte(payload, pending, at + 1, bytes[1]);
      if !ok {
        return;
      }
      pending := pending[1..];
    }
    assert pending == later;
  }

  /** Lines 55-60: the total length stores. */
  method PatchTotalLength(payload: array<Byte>, length: nat, totalLength: bool) returns (ok: bool)
    modifies payload
    ensures ApplyStores(old(payload[..]), LengthStores(length, totalLength)) == (if ok then Patched else Panicked, payload[..])
  {
    ghost var pending := LengthStores(length, totalLength);
    ok := true;
    if totalLength {
      var lengthBytes := TotalLengthBytes(length);
      ok := StoreByte(payload, pending, TotalLengthOffset, lengthBytes[0]);
      if !ok {
        return;
      }
      pending := pending[1..];
      ok := StoreByte(payload, pending, TotalLengthOffset + 1, lengthBytes[1]);
      if !ok {
        return;
      }
      pending := pending[1..];
    }
    assert pending == [];
  }

  /** `write_pcap` from the decoded payload up to the write: patches
      `payload` in place. The length of `remain` is taken and the checksum
      computed before any byte is stored. */
  method PatchPayload(payload: array<Byte>, checksum: bool, totalLength: bool) returns (outcome: Outcome)
    modifies payload
    ensures (outcome, payload[..]) == Patch(old(payload[..]), checksum, totalLength)
  {
    if !checksum {
      return Patched;
    }
    var decoded := DecodeChecksumLayer(payload[..]);
    if decoded.None? {
      return Panicked;
    }
    var layer := decoded.value;
    var length := |layer.remain|;
    var protocol, sum := GetProtocol(layer.layer3), LayerChecksum(layer);
    var ok := PatchChecksum(payload, protocol, sum, LengthStores(length, totalLength));
    if !ok {
      return Panicked;
    }
    ok := PatchTotalLength(payload, length, totalLength);
    outcome := if ok then Patched else Panicked;
  }
}
