/** Fixed-width unsigned integers as they appear on the wire, and the
    big-endian (network order) conversions every header of the model uses. */
module Wire {

  type Byte = b: int | 0 <= b < 0x100
  type U16 = v: int | 0 <= v < 0x1_0000
  type U32 = v: int | 0 <= v < 0x1_0000_0000

  datatype Option<+T> = None | Some(value: T)

  /** The value of the big-endian 16-bit word `hi lo`. */
  function Be16(hi: Byte, lo: Byte): U16 {
    (hi as int) * 0x100 + lo
  }

  /** `u16::to_be_bytes`: most significant byte first. */
  function ToBe16(v: U16): (r: seq<Byte>)
    ensures |r| == 2 && Be16(r[0], r[1]) == v
  {
    [v / 0x100, v % 0x100]
  }

  lemma Be16Injective(hi: Byte, lo: Byte)
    ensures ToBe16(Be16(hi, lo)) == [hi, lo]
  {
  }

  /** The value of the big-endian 32-bit word starting at `s[0]`. */
  function Be32(s: seq<Byte>): U32
    requires |s| >= 4
  {
    Be16(s[0], s[1]) * 0x1_0000 + Be16(s[2], s[3])
  }

  /** `u32::to_be_bytes`: most significant byte first. */
  function ToBe32(v: U32): (r: seq<Byte>)
    ensures |r| == 4 && Be32(r) == v
  {
    ToBe16(v / 0x1_0000) + ToBe16(v % 0x1_0000)
  }

  lemma Be32Injective(s: seq<Byte>)
    requires |s| == 4
    ensures ToBe32(Be32(s)) == s
  {
    var hi, lo := Be16(s[0], s[1]), Be16(s[2], s[3]);
    assert Be32(s) / 0x1_0000 == hi && Be32(s) % 0x1_0000 == lo;
    Be16Injective(s[0], s[1]);
    Be16Injective(s[2], s[3]);
    assert s == [s[0], s[1]] + [s[2], s[3]];
  }

  /** `s` with the big-endian bytes of `v` written at `at` and `at + 1`. */
  function PutBe16(s: seq<Byte>, at: nat, v: U16): (r: seq<Byte>)
    requires at + 2 <= |s|
    ensures |r| == |s| && Be16(r[at], r[at + 1]) == v
    ensures forall i :: 0 <= i < |s| && i != at && i != at + 1 ==> r[i] == s[i]
  {
    s[at := v / 0x100][at + 1 := v % 0x100]
  }

  /** Writing past a prefix leaves the prefix alone. */
  lemma PutBe16Append(a: seq<Byte>, s: seq<Byte>, at: nat, v: U16)
    requires at + 2 <= |s|
    ensures PutBe16(a + s, |a| + at, v) == a + PutBe16(s, at, v)
  {
  }

  /** Writing inside a prefix leaves what follows it alone. */
  lemma PutBe16Prefix(s: seq<Byte>, t: seq<Byte>, at: nat, v: U16)
    requires at + 2 <= |s|
    ensures PutBe16(s + t, at, v) == PutBe16(s, at, v) + t
  {
  }

  /** Writing a word where it already stands changes nothing. */
  lemma PutBe16Same(s: seq<Byte>, at: nat)
    requires at + 2 <= |s|
    ensures PutBe16(s, at, Be16(s[at], s[at + 1])) == s
  {
    Be16Injective(s[at], s[at + 1]);
  }

  /** Writing a word leaves the word at another, disjoint place alone. */
  lemma PutBe16Unchanged(s: seq<Byte>, at: nat, v: U16, other: nat)
    requires at + 2 <= |s| && other + 2 <= |s|
    requires other + 2 <= at || at + 2 <= other
    ensures Be16(PutBe16(s, at, v)[other], PutBe16(s, at, v)[other + 1]) == Be16(s[other], s[other + 1])
  {
  }
}
