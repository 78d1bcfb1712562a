/** Bytes, 16- and 32-bit words, and the host byte order that the C code sees through
    `memcpy`, `htons` and `ntohl`. */
module Bytes {

  type Byte = x: int | 0 <= x < 0x100

  type Word16 = x: int | 0 <= x < 0x1_0000

  type Word32 = x: int | 0 <= x < 0x1_0000_0000

  /** The byte order of the machine the program runs on. */
  datatype Host = LittleEndian | BigEndian

  function Zeros(n: nat): (s: seq<Byte>)
    ensures |s| == n
  {
    seq(n, _ => 0)
  }

  lemma SliceOfSlice<T>(s: seq<T>, lo: nat, hi: nat, i: nat, j: nat)
    requires lo <= hi <= |s| && i <= j <= hi - lo
    ensures s[lo..hi][i..j] == s[lo + i..lo + j]
  {
    assert s[lo..hi] == s[lo..][..hi - lo];
  }

  lemma SliceOfMiddle<T>(a: seq<T>, b: seq<T>, c: seq<T>, i: nat, j: nat)
    requires |a| <= i <= j <= |a| + |b|
    ensures (a + b + c)[i..j] == b[i - |a|..j - |a|]
  {
    assert a + b + c == a + (b + c);
    assert (a + (b + c))[i..j] == (b + c)[i - |a|..j - |a|];
  }

  function Swap16(v: Word16): Word16 {
    v % 0x100 * 0x100 + v / 0x100
  }

  /** The number two bytes denote in network order. */
  function Be16(hi: Byte, lo: Byte): Word16 {
    0x100 * hi as int + lo as int
  }

  /** A 16-bit load and store through a pointer, in host order. */
  function Load16(h: Host, b0: Byte, b1: Byte): Word16 {
    match h
    case LittleEndian => Be16(b1, b0)
    case BigEndian => Be16(b0, b1)
  }

  function Store16(h: Host, v: Word16): (s: seq<Byte>)
    ensures |s| == 2
  {
    match h
    case LittleEndian => [v % 0x100, v / 0x100]
    case BigEndian => [v / 0x100, v % 0x100]
  }

  /** `htons`; it is its own inverse, so it is `ntohs` as well. */
  function Htons(h: Host, v: Word16): Word16 {
    match h
    case LittleEndian => Swap16(v)
    case BigEndian => v
  }

  /** The number four bytes denote in network order. */
  function Be32(s: seq<Byte>): Word32
    requires |s| == 4
  {
    0x1_0000 * Be16(s[0], s[1]) + Be16(s[2], s[3])
  }

  /** The number in a piece of memory. */
  function Decode(host: Host, s: seq<Byte>): nat {
    if s == [] then 0
    else match host
      case LittleEndian => s[0] + 0x100 * Decode(host, s[1..])
      case BigEndian => s[|s| - 1] + 0x100 * Decode(host, s[..|s| - 1])
  }

  function Load32(h: Host, s: seq<Byte>): Word32
    requires |s| == 4
  {
    DecodeFour(h, s[0], s[1], s[2], s[3]);
    assert s == [s[0], s[1], s[2], s[3]];
    Decode(h, s)
  }

  lemma DecodeFour(h: Host, a: Byte, b: Byte, c: Byte, d: Byte)
    ensures Decode(h, [a, b, c, d]) == if h == BigEndian then Be32([a, b, c, d]) else Be32([d, c, b, a])
  {
    var s := [a, b, c, d];
    match h
    case LittleEndian =>
      assert s[1..][1..] == s[2..] && s[2..][1..] == s[3..] && s[3..][1..] == [];
      assert Decode(h, s[3..]) == s[3];
      assert Decode(h, s[2..]) == s[2] + 0x100 * Decode(h, s[3..]);
      assert Decode(h, s[1..]) == s[1] + 0x100 * Decode(h, s[2..]);
    case BigEndian =>
      assert s[..3][..2] == s[..2] && s[..2][..1] == s[..1] && s[..1][..0] == [];
      assert Decode(h, s[..1]) == s[0];
      assert Decode(h, s[..2]) == s[1] + 0x100 * Decode(h, s[..1]);
      assert Decode(h, s[..3]) == s[2] + 0x100 * Decode(h, s[..2]);
  }

  function Ntohl(h: Host, v: Word32): Word32 {
    match h
    case LittleEndian =>
      v % 0x100 * 0x100_0000 + v / 0x100 % 0x100 * 0x1_0000 + v / 0x1_0000 % 0x100 * 0x100 + v / 0x100_0000
    case BigEndian => v
  }

  /** Loading a word and calling `ntohl` reads network order on either host. */
  lemma NtohlOfLoad(h: Host, s: seq<Byte>)
    requires |s| == 4
    ensures Ntohl(h, Load32(h, s)) == Decode(BigEndian, s)
  {
    assert s == [s[0], s[1], s[2], s[3]];
    DecodeFour(h, s[0], s[1], s[2], s[3]);
    DecodeFour(BigEndian, s[0], s[1], s[2], s[3]);
    if h == LittleEndian {
      Digits(s[0], s[1], s[2], s[3], Load32(h, s));
    }
  }

  lemma SplitByte(q: nat, r: Byte)
    ensures (0x100 * q + r) / 0x100 == q && (0x100 * q + r) % 0x100 == r
  {
  }

  lemma SplitWord(q: nat, r: Word16)
    ensures (0x1_0000 * q + r) / 0x1_0000 == q
  {
  }

  lemma SplitTop(q: nat, r: nat)
    requires r < 0x100_0000
    ensures (0x100_0000 * q + r) / 0x100_0000 == q
  {
  }

  lemma Digits(a: Byte, b: Byte, c: Byte, d: Byte, v: nat)
    requires v == 0x100_0000 * d as int + 0x1_0000 * c as int + 0x100 * b as int + a as int
    ensures v % 0x100 == a && v / 0x100 % 0x100 == b && v / 0x1_0000 % 0x100 == c && v / 0x100_0000 == d
  {
    SplitByte(0x1_0000 * d as int + 0x100 * c as int + b, a);
    SplitByte(0x100 * d as int + c, b);
    SplitByte(d, c);
    SplitWord(0x100 * d as int + c, 0x100 * b as int + a);
    SplitTop(d, 0x1_0000 * c as int + 0x100 * b as int + a);
  }

  /** Storing `htons(v)` writes network order on either host. */
  lemma StoreOfHtons(h: Host, v: Word16)
    ensures Store16(h, Htons(h, v)) == [v / 0x100, v % 0x100]
  {
  }

  /** `ntohs` of a loaded word reads network order on either host. */
  lemma NtohsOfLoad(h: Host, b0: Byte, b1: Byte)
    ensures Htons(h, Load16(h, b0, b1)) == Be16(b0, b1)
  {
  }
}
