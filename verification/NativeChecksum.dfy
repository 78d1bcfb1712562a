/** `icmp_checksum`: native-order words, two folds, no byte swap. */
module NativeChecksum {
  import opened Bytes
  import opened OnesComplement
  import opened InternetChecksum

  /** The sum of the 16-bit words of `s` as the host loads them. */
  function NativeSum(host: Host, s: seq<Byte>): nat
    requires |s| % 2 == 0
  {
    if |s| == 0 then 0 else Load16(host, s[0], s[1]) + NativeSum(host, s[2..])
  }

  /** The two folds of `icmp_checksum`, cut to 16 bits. */
  function TwoFolds(sum: nat): Word16 {
    var once := sum / 0x1_0000 + sum % 0x1_0000;
    (once + once / 0x1_0000) % 0x1_0000
  }

  /** What `icmp_checksum` returns for the bytes it reads. */
  function IcmpValue(host: Host, s: seq<Byte>): Word16
    requires |s| % 2 == 0
  {
    0xFFFF - TwoFolds(NativeSum(host, s) % TWO_TO_THE_64)
  }

  lemma NormSmall(n: nat)
    requires n <= 0x1_FFFE
    ensures Norm(n) == if n <= 0xFFFF then n else n - 0xFFFF
  {
  }

  /** Two folds suffice for every sum below 2^32 + 0xFFFF. */
  lemma TwoFoldsSuffice(sum: nat)
    requires sum < TWO_TO_THE_32 + 0xFFFF
    ensures TwoFolds(sum) == Norm(sum)
  {
    hide Norm;
    var hi, lo := sum / 0x1_0000, sum % 0x1_0000;
    assert sum == hi + lo + 0xFFFF * hi;
    DropMultiple(hi + lo, hi);
    NormSame(hi + lo, sum);
    assert hi + lo <= 0x1_FFFE;
    NormSmall(hi + lo);
  }

  lemma {:induction false} NativeSumAppend(host: Host, s: seq<Byte>, t: seq<Byte>)
    requires |s| % 2 == 0 && |t| % 2 == 0
    ensures NativeSum(host, s + t) == NativeSum(host, s) + NativeSum(host, t)
  {
    if |s| == 0 {
      assert s + t == t;
    } else {
      assert (s + t)[2..] == s[2..] + t;
      NativeSumAppend(host, s[2..], t);
    }
  }

  lemma {:induction false} NativeSumBound(host: Host, s: seq<Byte>)
    requires |s| % 2 == 0
    ensures NativeSum(host, s) <= |s| / 2 * 0xFFFF
  {
    if |s| > 0 {
      NativeSumBound(host, s[2..]);
    }
  }

  lemma NoNativeWords(host: Host, s: seq<Byte>)
    ensures |s| == 0 ==> NativeSum(host, s) == 0 && WordSum(s) == 0
  {
  }

  lemma FirstWord(host: Host, s: seq<Byte>)
    requires |s| >= 2 && |s| % 2 == 0
    ensures NativeSum(host, s) == Load16(host, s[0], s[1]) + NativeSum(host, s[2..])
    ensures WordSum(s) == Be16(s[0], s[1]) + WordSum(s[2..])
  {
  }

  /** On a big-endian host the words are the network's. */
  lemma {:induction false} NativeBigEndian(s: seq<Byte>)
    requires |s| % 2 == 0
    ensures NativeSum(BigEndian, s) == WordSum(s)
  {
    hide NativeSum, WordSum, Be16;
    NoNativeWords(BigEndian, s);
    if |s| > 0 {
      FirstWord(BigEndian, s);
      NativeBigEndian(s[2..]);
    }
  }

  /** The residue of the sum with the bytes of every word swapped, zero for zero only. */
  ghost predicate SwappedSum(native: nat, sum: nat) {
    native % 0xFFFF == (0x100 * sum) % 0xFFFF && (native == 0 <==> sum == 0)
  }

  lemma NothingSwapped()
    ensures SwappedSum(0, 0)
  {
  }

  /** On a little-endian host all words are swapped, and so is the sum (byte order
      independence, section 2(B) of RFC 1071). */
  lemma {:induction false} NativeLittleEndian(s: seq<Byte>)
    requires |s| % 2 == 0
    ensures SwappedSum(NativeSum(LittleEndian, s), WordSum(s))
  {
    hide NativeSum, WordSum, Be16, SwappedSum;
    NothingSwapped();
    NoNativeWords(LittleEndian, s);
    if |s| > 0 {
      FirstWord(LittleEndian, s);
      NativeLittleEndian(s[2..]);
      SwappedWord(s[0], s[1], NativeSum(LittleEndian, s[2..]), WordSum(s[2..]));
    }
  }

  lemma SwappedWord(a: Byte, b: Byte, native: nat, sum: nat)
    requires SwappedSum(native, sum)
    ensures SwappedSum(Be16(b, a) + native, Be16(a, b) + sum)
  {
    SwappedResidue(a, b, native, sum);
  }

  lemma SwappedResidue(a: int, b: int, native: int, sum: int)
    requires native % 0xFFFF == (0x100 * sum) % 0xFFFF
    ensures (0x100 * b + a + native) % 0xFFFF == (0x100 * (0x100 * a + b + sum)) % 0xFFFF
  {
    var k := native / 0xFFFF - 0x100 * sum / 0xFFFF;
    assert native == 0x100 * sum + 0xFFFF * k;
    assert 0x100 * b + a + native == 0x100 * (0x100 * a + b + sum) + 0xFFFF * (k - a);
    DropMultiple(0x100 * (0x100 * a + b + sum), k - a);
  }

  /** Up to 65538 words `icmp_checksum` stores the RFC 1071 checksum, on either host. */
  lemma IcmpIsRfc(host: Host, s: seq<Byte>)
    requires |s| % 2 == 0 && |s| <= 2 * 65538
    ensures IcmpValue(host, s) == Htons(host, RfcChecksum(s))
  {
    hide NativeSum, WordSum, OnesSum, Norm, TwoFolds, Htons;
    NativeSumBound(host, s);
    var native := NativeSum(host, s);
    assert native < TWO_TO_THE_32 + 0xFFFF;
    assert native % TWO_TO_THE_64 == native;
    TwoFoldsSuffice(native);
    NormOfNative(host, s);
  }

  /** On a buffer of at most 65538 words the two functions leave the same bytes in memory, unless
      all the data is zero. */
  lemma SameAsIpChecksum(host: Host, s: seq<Byte>)
    requires |s| % 2 == 0 && |s| <= 2 * 65538
    ensures Store16(host, IcmpValue(host, s)) == Store16(host, Htons(host, Checksum(s))) <==>
            exists i :: 0 <= i < |s| && s[i] != 0
  {
    hide IcmpValue, OnesSum;
    IcmpIsRfc(host, s);
    AgreesWithRfc(s);
    StoreOfHtons(host, RfcChecksum(s));
    StoreOfHtons(host, Checksum(s));
    SameDigits(RfcChecksum(s), Checksum(s));
  }

  lemma SameDigits(v: Word16, w: Word16)
    ensures [v / 0x100, v % 0x100] == [w / 0x100, w % 0x100] <==> v == w
  {
    if v / 0x100 == w / 0x100 && v % 0x100 == w % 0x100 {
      assert v == 0x100 * (v / 0x100) + v % 0x100;
    }
    var x, y := [v / 0x100, v % 0x100], [w / 0x100, w % 0x100];
    assert x == y ==> x[0] == y[0] && x[1] == y[1];
  }

  lemma NormOfNative(host: Host, s: seq<Byte>)
    requires |s| % 2 == 0
    ensures 0xFFFF - Norm(NativeSum(host, s)) == Htons(host, RfcChecksum(s))
  {
    hide Norm, OnesSum, NativeSum, WordSum;
    OnesSumIsNorm(s);
    var x := Norm(WordSum(s));
    if host == LittleEndian {
      NormResidue(WordSum(s));
      Scale(x, WordSum(s));
      SwapResidue(x);
      NativeLittleEndian(s);
      NormUnique(NativeSum(host, s), Swap16(x));
      SwapOfComplement(x);
    } else {
      NativeBigEndian(s);
    }
  }

  lemma SwapOfComplement(x: Word16)
    ensures Swap16(0xFFFF - x) == 0xFFFF - Swap16(x)
  {
    var hi, lo := x / 0x100, x % 0x100;
    SplitByte(0xFF - hi, 0xFF - lo);
    assert 0xFFFF - x == 0x100 * (0xFF - hi) + (0xFF - lo);
  }

  /** The two folds are right for all buffers of a size exactly when it is at most 65538 words. */
  lemma TwoFoldsLimit(host: Host, words: nat)
    ensures (forall s: seq<Byte> | |s| == 2 * words :: IcmpValue(host, s) == Htons(host, RfcChecksum(s)))
            <==> words <= 65538
  {
    hide IcmpValue, Htons, RfcChecksum;
    if words <= 65538 {
      forall s: seq<Byte> | |s| == 2 * words
        ensures IcmpValue(host, s) == Htons(host, RfcChecksum(s))
      {
        IcmpIsRfc(host, s);
      }
    } else {
      var s := TooLong(host, words);
      assert IcmpValue(host, s) != Htons(host, RfcChecksum(s));
    }
  }

  /** A buffer on which the second fold loses a carry: 65538 words of ones, then the word 1. */
  lemma TooLong(host: Host, words: nat) returns (s: seq<Byte>)
    requires words > 65538
    ensures |s| == 2 * words && IcmpValue(host, s) != Htons(host, RfcChecksum(s))
  {
    var ones: seq<Byte> := seq(2 * 65538, _ => 0xFF);
    var one: seq<Byte> := if host == LittleEndian then [1, 0] else [0, 1];
    var rest := Zeros(2 * (words - 65539));
    s := ones + one + rest;
    NativeSumAppend(host, ones + one, rest);
    NativeSumAppend(host, ones, one);
    NativeSumOfConstant(host, 65538, 0xFF);
    NativeSumOfConstant(host, words - 65539, 0);
    assert rest == seq(2 * (words - 65539), _ => 0);
    assert one[2..] == [];
    OneCarryTooMany(host, s);
  }

  lemma OneCarryTooMany(host: Host, s: seq<Byte>)
    requires |s| % 2 == 0 && NativeSum(host, s) == TWO_TO_THE_32 + 0xFFFF
    ensures IcmpValue(host, s) == 0xFFFF != Htons(host, RfcChecksum(s))
  {
    hide NativeSum, WordSum, OnesSum, RfcChecksum, Htons, Norm, TwoFolds;
    NormOfNative(host, s);
    LostFold();
  }

  lemma LostFold()
    ensures TwoFolds(TWO_TO_THE_32 + 0xFFFF) == 0 && Norm(TWO_TO_THE_32 + 0xFFFF) == 1
  {
  }

  lemma {:induction false} NativeSumOfConstant(host: Host, words: nat, b: Byte)
    ensures NativeSum(host, seq(2 * words, _ => b)) == words * (0x101 * b as int)
  {
    hide NativeSum;
    var s: seq<Byte> := seq(2 * words, _ => b);
    NoNativeWords(host, s);
    if words > 0 {
      FirstWord(host, s);
      assert s[2..] == seq(2 * (words - 1), _ => b);
      NativeSumOfConstant(host, words - 1, b);
      OneMore(words, 0x101 * b as int);
    }
  }

  lemma OneMore(n: int, x: int)
    ensures n * x == (n - 1) * x + x
  {
  }

  /** Sums 16-bit words in host order.  For an odd size the program loads a whole word at the
      last byte, so the byte after the buffer is read and summed too. */
  method IcmpChecksum(host: Host, mem: array<Byte>, start: nat, size: nat) returns (r: Word16)
    requires start + size + size % 2 <= mem.Length
    ensures r == IcmpValue(host, mem[start..start + size + size % 2])
    ensures size <= 2 * 65538 ==> r == Htons(host, RfcChecksum(mem[start..start + size + size % 2]))
  {
    hide NativeSum, RfcChecksum, Add64, NativeAccumulated, Htons, Load16, TwoFolds;
    ghost var s := mem[start..start + size + size % 2];
    var cksum := 0;
    var data, left := start, size;
    ghost var k := 0;
    NativeAccumulatedNothing(host, s);
    while left > 1
      invariant data == start + 2 * k && left == size - 2 * k
      invariant 2 * k <= |s| && cksum == NativeAccumulated(host, s, k)
    {
      NativeStep(host, s, k);
      cksum := Add64(cksum, Load16(host, mem[data], mem[data + 1]));
      data, left, k := data + 2, left - 2, k + 1;
    }
    if left != 0 {
      NativeStep(host, s, k);
      cksum := Add64(cksum, Load16(host, mem[data], mem[data + 1]));
      k := k + 1;
    }
    AllAccumulated(host, s, k);
    FoldedTwice(cksum);
    cksum := cksum / 0x1_0000 + cksum % 0x1_0000;
    cksum := cksum + cksum / 0x1_0000;
    r := (TWO_TO_THE_64 - 1 - cksum) % 0x1_0000;
    if size <= 2 * 65538 {
      IcmpIsRfc(host, s);
    }
  }

  /** The accumulator after `k` words. */
  function NativeAccumulated(host: Host, s: seq<Byte>, k: nat): nat
    requires 2 * k <= |s|
  {
    NativeSum(host, s[..2 * k]) % TWO_TO_THE_64
  }

  lemma NativeAccumulatedNothing(host: Host, s: seq<Byte>)
    ensures NativeAccumulated(host, s, 0) == 0
  {
  }

  lemma AllAccumulated(host: Host, s: seq<Byte>, k: nat)
    requires |s| == 2 * k
    ensures NativeAccumulated(host, s, k) == NativeSum(host, s) % TWO_TO_THE_64
  {
    assert s[..2 * k] == s;
  }

  lemma NativeStep(host: Host, s: seq<Byte>, k: nat)
    requires 2 * k + 2 <= |s|
    ensures Add64(NativeAccumulated(host, s, k), Load16(host, s[2 * k], s[2 * k + 1]))
            == NativeAccumulated(host, s, k + 1)
  {
    hide Load16;
    var w := [s[2 * k], s[2 * k + 1]];
    assert s[..2 * k] + w == s[..2 * (k + 1)];
    NativeSumAppend(host, s[..2 * k], w);
    assert w[2..] == [];
    AddModulo(NativeSum(host, s[..2 * k]), Load16(host, w[0], w[1]));
  }

  lemma FoldedTwice(sum: nat)
    requires sum < TWO_TO_THE_64
    ensures var once := sum / 0x1_0000 + sum % 0x1_0000; var twice := once + once / 0x1_0000;
            (TWO_TO_THE_64 - 1 - twice) % 0x1_0000 == 0xFFFF - TwoFolds(sum)
  {
    var once := sum / 0x1_0000 + sum % 0x1_0000;
    LowBitsOfAny(once + once / 0x1_0000);
  }

  lemma LowBitsOfAny(n: nat)
    requires n < TWO_TO_THE_64
    ensures (TWO_TO_THE_64 - 1 - n) % 0x1_0000 == 0xFFFF - n % 0x1_0000
  {
  }
}
