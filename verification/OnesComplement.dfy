/** One's complement arithmetic on 16-bit words: the reference definition of section 1 of
    RFC 1071, and its description by residues modulo 0xFFFF. */
module OnesComplement {
  import opened Bytes

  /** Addition with end-around carry. */
  function AddOnes(a: Word16, b: Word16): Word16 {
    if a + b <= 0xFFFF then a + b else a + b - 0xFFFF
  }

  /** The one's complement sum of the big-endian 16-bit words of `s`, an odd last byte
      being padded with zero. */
  function OnesSum(s: seq<Byte>): Word16 {
    if |s| == 0 then 0
    else if |s| == 1 then Be16(s[0], 0)
    else AddOnes(Be16(s[0], s[1]), OnesSum(s[2..]))
  }

  /** The checksum field RFC 1071 prescribes for `s`. */
  function RfcChecksum(s: seq<Byte>): Word16 {
    0xFFFF - OnesSum(s)
  }

  /** What the program's `ip_checksum` returns: RFC 1071's value, except that the sum
      is kept in [1, 0xFFFF], so that an all-zero buffer gives 0 and never 0xFFFF. */
  function Checksum(s: seq<Byte>): Word16 {
    if OnesSum(s) == 0 then 0 else RfcChecksum(s)
  }

  /** The same words added as unbounded integers. */
  function WordSum(s: seq<Byte>): nat {
    if |s| == 0 then 0
    else if |s| == 1 then Be16(s[0], 0)
    else Be16(s[0], s[1]) + WordSum(s[2..])
  }

  /** The representative of `n` modulo 0xFFFF in [1, 0xFFFF], zero standing for itself only. */
  function Norm(n: nat): Word16 {
    if n == 0 then 0 else 1 + (n - 1) % 0xFFFF
  }

  /** The multiple of the modulus that separates two congruent numbers may be dropped. */
  lemma DropMultiple(x: int, k: int)
    ensures (x + 0xFFFF * k) % 0xFFFF == x % 0xFFFF
  {
  }

  lemma NormUnique(n: nat, x: Word16)
    requires x % 0xFFFF == n % 0xFFFF
    requires x == 0 <==> n == 0
    ensures x == Norm(n)
  {
  }

  lemma NormResidue(n: nat)
    ensures Norm(n) % 0xFFFF == n % 0xFFFF
    ensures Norm(n) == 0 <==> n == 0
  {
  }

  lemma AddOnesNorm(w: Word16, n: nat)
    ensures AddOnes(w, Norm(n)) == Norm(w + n)
  {
    if n > 0 {
      var q, r := (n - 1) / 0xFFFF, (n - 1) % 0xFFFF;
      assert w + n - 1 == w + r + 0xFFFF * q;
      DropMultiple(w + r, q);
    }
  }

  /** The end-around-carry sum is the integer sum brought back into 16 bits. */
  lemma {:induction false} OnesSumIsNorm(s: seq<Byte>)
    ensures OnesSum(s) == Norm(WordSum(s))
  {
    if |s| > 1 {
      OnesSumIsNorm(s[2..]);
      AddOnesNorm(Be16(s[0], s[1]), WordSum(s[2..]));
    }
  }

  /** A buffer passes the program's check exactly when its words add up to a multiple of 0xFFFF. */
  lemma VerifiesIffMultiple(s: seq<Byte>)
    ensures Checksum(s) == 0 <==> WordSum(s) % 0xFFFF == 0
  {
    hide OnesSum, WordSum;
    OnesSumIsNorm(s);
  }

  lemma ChecksumResidue(s: seq<Byte>)
    ensures Checksum(s) < 0xFFFF
    ensures (Checksum(s) + WordSum(s)) % 0xFFFF == 0
  {
    hide WordSum, OnesSum;
    OnesSumIsNorm(s);
    NormComplement(WordSum(s));
  }

  lemma NormComplement(n: nat)
    ensures n > 0 ==> 0 < Norm(n)
    ensures (0xFFFF - Norm(n) + n) % 0xFFFF == 0
  {
    if n > 0 {
      var q := (n - 1) / 0xFFFF;
      assert 0xFFFF - Norm(n) + n == 0xFFFF * (q + 1);
      DropMultiple(0, q + 1);
    }
  }

  /** `ip_checksum` differs from RFC 1071 on all-zero data, and only there. */
  lemma AgreesWithRfc(s: seq<Byte>)
    ensures Checksum(s) == RfcChecksum(s) <==> exists i :: 0 <= i < |s| && s[i] != 0
  {
    OnesSumIsNorm(s);
    WordSumZero(s);
  }

  lemma {:induction false} WordSumZero(s: seq<Byte>)
    ensures WordSum(s) == 0 <==> forall i :: 0 <= i < |s| ==> s[i] == 0
  {
    if |s| > 1 {
      WordSumZero(s[2..]);
      assert forall i :: 2 <= i < |s| ==> s[i] == s[2..][i - 2];
    }
  }

  lemma WordSumOfZeros(n: nat)
    ensures WordSum(Zeros(n)) == 0
  {
    WordSumZero(Zeros(n));
  }

  lemma {:induction false} PadSum(s: seq<Byte>, n: nat)
    ensures WordSum(s + Zeros(n)) == WordSum(s)
  {
    if |s| > 1 {
      assert (s + Zeros(n))[2..] == s[2..] + Zeros(n);
      PadSum(s[2..], n);
    } else if |s| == 1 && n > 0 {
      assert (s + Zeros(n))[2..] == Zeros(n - 1);
      WordSumOfZeros(n - 1);
    } else if |s| == 0 {
      assert s + Zeros(n) == Zeros(n);
      WordSumOfZeros(n);
    } else {
      assert s + Zeros(n) == s;
    }
  }

  /** Trailing zeros never change the sum, so a longer zero-filled buffer has the same checksum. */
  lemma TrailingZeros(s: seq<Byte>, n: nat)
    ensures Checksum(s + Zeros(n)) == Checksum(s)
  {
    PadSum(s, n);
    OnesSumIsNorm(s);
    OnesSumIsNorm(s + Zeros(n));
  }

  lemma WordSumUncons(s: seq<Byte>)
    requires |s| > 0
    ensures WordSum(s) == 0x100 * s[0] as int + WordSum([0] + s[1..])
    ensures WordSum([0] + s) == s[0] + WordSum(s[1..])
  {
    assert ([0] + s)[2..] == s[1..];
    if |s| > 1 {
      assert ([0] + s[1..])[2..] == s[2..];
    }
  }

  lemma Scale(a: int, b: int)
    requires a % 0xFFFF == b % 0xFFFF
    ensures (0x100 * a) % 0xFFFF == (0x100 * b) % 0xFFFF
  {
    var k := a / 0xFFFF - b / 0xFFFF;
    assert 0x100 * a == 0x100 * b + 0xFFFF * (0x100 * k);
    DropMultiple(0x100 * b, 0x100 * k);
  }

  lemma ShiftStep(b: int, tail: int, shifted: int)
    requires shifted % 0xFFFF == (0x100 * tail) % 0xFFFF
    ensures (b + tail) % 0xFFFF == (0x100 * (0x100 * b + shifted)) % 0xFFFF
  {
    var k := shifted / 0xFFFF - 0x100 * tail / 0xFFFF;
    assert shifted == 0x100 * tail + 0xFFFF * k;
    assert 0x100 * (0x100 * b + shifted) == b + tail + 0xFFFF * (b + tail + 0x100 * k);
    DropMultiple(b + tail, b + tail + 0x100 * k);
  }

  /** Shifting the data by one byte multiplies the sum by 0x100 (section 2(B) of RFC 1071). */
  lemma {:induction false} ShiftByOne(s: seq<Byte>)
    ensures WordSum([0] + s) % 0xFFFF == (0x100 * WordSum(s)) % 0xFFFF
  {
    if |s| > 0 {
      WordSumUncons(s);
      ShiftByOne(s[1..]);
      var tail: int, shifted: int := WordSum(s[1..]), WordSum([0] + s[1..]);
      ShiftStep(s[0], tail, shifted);
    }
  }

  /** Exchanging the two bytes of a word multiplies it by 0x100. */
  lemma SwapResidue(x: Word16)
    ensures Swap16(x) % 0xFFFF == (0x100 * x) % 0xFFFF
    ensures Swap16(x) == 0 <==> x == 0
  {
    var hi, lo := x / 0x100, x % 0x100;
    assert 0x100 * x == Swap16(x) + 0xFFFF * hi;
    DropMultiple(Swap16(x), hi);
  }

  /** Swapping undoes the one-byte shift. */
  lemma SwapUndoesShift(s: seq<Byte>, x: Word16)
    requires x % 0xFFFF == WordSum([0] + s) % 0xFFFF
    ensures Swap16(x) % 0xFFFF == WordSum(s) % 0xFFFF
  {
    var n := WordSum(s);
    ShiftByOne(s);
    SwapResidue(x);
    Scale(x, 0x100 * n);
    assert 0x100 * (0x100 * n) == n + 0xFFFF * n;
    DropMultiple(n, n);
  }

  /** Overwriting one of the 16-bit words moves the sum by the difference. */
  lemma {:induction false} WordSumUpdate(s: seq<Byte>, k: nat, hi: Byte, lo: Byte)
    requires 2 * k + 2 <= |s|
    ensures WordSum(s[2 * k := hi][2 * k + 1 := lo]) == WordSum(s) + Be16(hi, lo) - Be16(s[2 * k], s[2 * k + 1])
  {
    var t := s[2 * k := hi][2 * k + 1 := lo];
    if k > 0 {
      assert t[2..] == s[2..][2 * (k - 1) := hi][2 * (k - 1) + 1 := lo];
      WordSumUpdate(s[2..], k - 1, hi, lo);
    } else {
      assert t[2..] == s[2..];
    }
  }
}
