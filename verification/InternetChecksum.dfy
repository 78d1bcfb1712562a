/** `ip_checksum`: word-wise sums over a buffer at any address, with deferred carries, against
    the byte-order and alignment free definition of RFC 1071. */
module InternetChecksum {
  import opened Bytes
  import opened OnesComplement

  const TWO_TO_THE_32: int := 0x1_0000_0000

  const TWO_TO_THE_64: int := 0x1_0000_0000_0000_0000

  /** The sum of the big-endian 32-bit words of `s`. */
  function Sum32(s: seq<Byte>): nat
    requires |s| % 4 == 0
  {
    if |s| == 0 then 0 else Be32(s[..4]) + Sum32(s[4..])
  }

  /** The data as the word loop sees it: whole 32-bit blocks, filled up with zeros on both
      sides when it starts at `offset` bytes past a word boundary. */
  function Padded(s: seq<Byte>, offset: nat): (p: seq<Byte>)
    requires offset < 4
    ensures |p| % 4 == 0 && offset + |s| <= |p| < offset + |s| + 4
  {
    Zeros(offset) + s + Zeros((4 - (offset + |s|) % 4) % 4)
  }

  lemma FirstWord32(s: seq<Byte>)
    requires |s| >= 4 && |s| % 4 == 0
    ensures var hi, lo := Be16(s[0], s[1]), Be16(s[2], s[3]);
            && Sum32(s) == 0x1_0000 * hi + lo + Sum32(s[4..])
            && WordSum(s) == hi + lo + WordSum(s[4..])
  {
    hide Be16;
    assert s[..4][0] == s[0] && s[..4][1] == s[1] && s[..4][2] == s[2] && s[..4][3] == s[3];
    assert s[2..][0] == s[2] && s[2..][1] == s[3] && s[2..][2..] == s[4..];
  }

  /** 0x1_0000 is congruent to 1. */
  lemma HalvesResidue(hi: int, lo: int, a: int, b: int)
    requires a % 0xFFFF == b % 0xFFFF
    ensures (0x1_0000 * hi + lo + a) % 0xFFFF == (hi + lo + b) % 0xFFFF
  {
    var k := a / 0xFFFF - b / 0xFFFF;
    assert 0x1_0000 * hi + lo + a == hi + lo + b + 0xFFFF * (hi + k);
    DropMultiple(hi + lo + b, hi + k);
  }

  /** Every 32-bit word stands for its two halves. */
  lemma {:induction false} Sum32Residue(s: seq<Byte>)
    requires |s| % 4 == 0
    ensures Sum32(s) % 0xFFFF == WordSum(s) % 0xFFFF
  {
    hide Sum32, WordSum, Be16;
    if |s| > 0 {
      Sum32Residue(s[4..]);
      FirstWord32(s);
      HalvesResidue(Be16(s[0], s[1]), Be16(s[2], s[3]), Sum32(s[4..]), WordSum(s[4..]));
    } else {
      NoWords(s);
    }
  }

  lemma NoWords(s: seq<Byte>)
    requires |s| == 0
    ensures Sum32(s) == 0 && WordSum(s) == 0
  {
  }

  lemma {:induction false} Sum32Bound(s: seq<Byte>)
    requires |s| % 4 == 0
    ensures Sum32(s) <= |s| / 4 * 0xFFFF_FFFF
  {
    if |s| > 0 {
      Sum32Bound(s[4..]);
    }
  }

  lemma {:induction false} Sum32Append(s: seq<Byte>, w: seq<Byte>, t: seq<Byte>)
    requires |s| % 4 == 0 && |w| == 4 && t == s + w
    ensures Sum32(t) == Sum32(s) + Be32(w)
  {
    if |s| == 0 {
      assert t == w && w[..4] == w;
    } else {
      assert t[..4] == s[..4] && t[4..] == s[4..] + w;
      Sum32Append(s[4..], w, t[4..]);
    }
  }

  /** The padded data has the residue of the data, times 0x100 when it starts at an odd address. */
  lemma PaddedResidue(s: seq<Byte>, offset: nat)
    requires offset < 4
    ensures WordSum(Padded(s, offset)) == if offset % 2 == 0 then WordSum(s) else WordSum([0] + s)
  {
    var tail := Zeros((4 - (offset + |s|) % 4) % 4);
    var p := Padded(s, offset);
    if offset == 0 {
      assert p == s + tail;
      PadSum(s, |tail|);
    } else if offset == 1 {
      assert p == ([0] + s) + tail;
      PadSum([0] + s, |tail|);
    } else if offset == 2 {
      assert p[2..] == s + tail;
      PadSum(s, |tail|);
    } else {
      assert p[2..] == ([0] + s) + tail;
      PadSum([0] + s, |tail|);
    }
  }

  /** The folding loop: add the carries back until none are left. */
  function Fold(acc: nat): Word16 {
    if acc / 0x1_0000 == 0 then acc else Fold(acc % 0x1_0000 + acc / 0x1_0000)
  }

  lemma CarryResidue(acc: nat)
    ensures (acc % 0x1_0000 + acc / 0x1_0000) % 0xFFFF == acc % 0xFFFF
  {
    var lo, hi := acc % 0x1_0000, acc / 0x1_0000;
    assert acc == lo + hi + 0xFFFF * hi;
    DropMultiple(lo + hi, hi);
  }

  lemma {:induction false} FoldIsNorm(acc: nat)
    ensures Fold(acc) == Norm(acc)
  {
    hide Norm;
    if acc / 0x1_0000 != 0 {
      var next := acc % 0x1_0000 + acc / 0x1_0000;
      FoldIsNorm(next);
      CarryResidue(acc);
      NormSame(next, acc);
    } else {
      NormUnique(acc, acc);
    }
  }

  /** Everything `ip_checksum` does with the accumulated sum, before `htons`. */
  function Finish(acc: nat, odd: bool): Word16 {
    var folded := Fold(acc % TWO_TO_THE_32 + acc / TWO_TO_THE_32);
    0xFFFF - (if odd then Swap16(folded) else folded)
  }

  lemma SplitResidue(lo: int, hi: int)
    ensures (lo + hi) % 0xFFFF == (lo + TWO_TO_THE_32 * hi) % 0xFFFF
  {
    assert lo + TWO_TO_THE_32 * hi == lo + hi + 0xFFFF * (0x1_0001 * hi);
    DropMultiple(lo + hi, 0x1_0001 * hi);
  }

  /** Splitting off the high half and folding the rest computes one end-around-carry value. */
  lemma FinishFolds(acc: nat)
    ensures Fold(acc % TWO_TO_THE_32 + acc / TWO_TO_THE_32) == Norm(acc)
  {
    var lo, hi := acc % TWO_TO_THE_32, acc / TWO_TO_THE_32;
    FoldIsNorm(lo + hi);
    SplitResidue(lo, hi);
    NormSame(lo + hi, acc);
  }

  lemma NormSame(m: nat, n: nat)
    requires m % 0xFFFF == n % 0xFFFF
    requires m == 0 <==> n == 0
    ensures Norm(m) == Norm(n)
  {
    hide Norm;
    NormResidue(m);
    NormUnique(n, Norm(m));
  }

  /** The sum of the words in memory, seeded with 0xFFFF as in the program, finishes as the
      one's complement checksum of the data, wherever the data starts. */
  lemma AlignmentFree(s: seq<Byte>, offset: nat)
    requires offset < 4
    ensures Finish(0xFFFF + Sum32(Padded(s, offset)), offset % 2 == 1) == Checksum(s)
  {
    Sum32Residue(Padded(s, offset));
    PaddedResidue(s, offset);
    FinishResidue(s, Sum32(Padded(s, offset)), offset % 2 == 1);
  }

  lemma FinishResidue(s: seq<Byte>, words: nat, odd: bool)
    requires words % 0xFFFF == WordSum(if odd then [0] + s else s) % 0xFFFF
    ensures Finish(0xFFFF + words, odd) == Checksum(s)
  {
    FinishFolds(0xFFFF + words);
    SeededNorm(words);
    var x := Norm(0xFFFF + words);
    if odd {
      SwapUndoesShift(s, x);
      SwapResidue(x);
      x := Swap16(x);
    }
    ComplementOfResidue(s, x);
  }

  lemma SeededNorm(n: nat)
    ensures 0 < Norm(0xFFFF + n) && Norm(0xFFFF + n) % 0xFFFF == n % 0xFFFF
  {
  }

  /** The complement of any nonzero word with the residue of the data is its checksum. */
  lemma ComplementOfResidue(s: seq<Byte>, x: Word16)
    requires 0 < x && x % 0xFFFF == WordSum(s) % 0xFFFF
    ensures 0xFFFF - x == Checksum(s)
  {
    OnesSumIsNorm(s);
    if WordSum(s) > 0 {
      NormUnique(WordSum(s), x);
    }
  }

  /** No sum of at most 2^32 words overflows the 64-bit accumulator. */
  lemma AccumulatorFits(s: seq<Byte>, offset: nat)
    requires offset < 4 && offset + |s| <= 0x4_0000_0000
    ensures Total(s, offset) == 0xFFFF + Sum32(Padded(s, offset))
  {
    var p := Padded(s, offset);
    assert p[..4 * (|p| / 4)] == p;
    Sum32Bound(p);
  }

  /** What a wrapped accumulator is worth: each of the `lost` carries would have counted as 1, since
      2^64 is congruent to 1.  So over any data the program is right if and only if the number of
      lost carries is a multiple of 0xFFFF, and what is left in the accumulator is not zero. */
  lemma ExactUntilWrap(s: seq<Byte>, offset: nat)
    requires offset < 4
    ensures var sum := 0xFFFF + Sum32(Padded(s, offset)); var lost := sum / TWO_TO_THE_64;
            Finish(Total(s, offset), offset % 2 == 1) == Checksum(s) <==>
            lost % 0xFFFF == 0 && sum % TWO_TO_THE_64 != 0
  {
    hide Padded, Sum32, Fold, Norm, Checksum, TWO_TO_THE_64, TWO_TO_THE_32;
    var p := Padded(s, offset);
    assert p[..4 * (|p| / 4)] == p;
    var sum := 0xFFFF + Sum32(p);
    AlignmentFree(s, offset);
    FinishFolds(sum);
    FinishFolds(Total(s, offset));
    LostCarries(sum);
    SwapInjective(Norm(sum), Norm(Total(s, offset)));
  }

  lemma LostCarries(sum: int)
    requires sum > 0
    ensures Norm(sum) == Norm(sum % TWO_TO_THE_64) <==>
            sum / TWO_TO_THE_64 % 0xFFFF == 0 && sum % TWO_TO_THE_64 != 0
  {
    var kept, lost := sum % TWO_TO_THE_64, sum / TWO_TO_THE_64;
    NormEqual(sum, kept);
    assert sum == kept + lost + 0xFFFF * (0x1_0001_0001_0001 * lost);
    DropMultiple(kept + lost, 0x1_0001_0001_0001 * lost);
    SameResidue(kept, lost);
  }

  lemma SameResidue(n: int, d: int)
    ensures (n + d) % 0xFFFF == n % 0xFFFF <==> d % 0xFFFF == 0
  {
    if d % 0xFFFF == 0 {
      DropMultiple(n, d / 0xFFFF);
    }
  }

  lemma NormEqual(m: nat, n: nat)
    requires m > 0
    ensures Norm(m) == Norm(n) <==> n > 0 && m % 0xFFFF == n % 0xFFFF
  {
    NormResidue(m);
    NormResidue(n);
  }

  lemma SwapInjective(x: Word16, y: Word16)
    ensures Swap16(x) == Swap16(y) <==> x == y
  {
    if Swap16(x) == Swap16(y) {
      SplitByte(x % 0x100, x / 0x100);
      SplitByte(y % 0x100, y / 0x100);
    }
  }

  /** Addition in a `uint64_t`. */
  function Add64(a: nat, b: nat): nat {
    (a + b) % TWO_TO_THE_64
  }

  /** The 64-bit accumulator after adding the first `k` words of `p` to its seed. */
  function Accumulated(p: seq<Byte>, k: nat): nat
    requires 4 * k <= |p|
  {
    (0xFFFF + Sum32(p[..4 * k])) % TWO_TO_THE_64
  }

  /** The accumulator when all the data has been added. */
  function Total(s: seq<Byte>, offset: nat): nat
    requires offset < 4
  {
    Accumulated(Padded(s, offset), |Padded(s, offset)| / 4)
  }

  lemma Accumulate(p: seq<Byte>, k: nat, acc: nat, word: seq<Byte>)
    requires 4 * k + 4 <= |p| && word == p[4 * k..4 * k + 4]
    requires acc == Accumulated(p, k)
    ensures Add64(acc, Be32(word)) == Accumulated(p, k + 1)
  {
    hide Sum32, Be32;
    assert p[..4 * (k + 1)] == p[..4 * k] + word;
    Sum32Append(p[..4 * k], word, p[..4 * (k + 1)]);
    AddModulo(0xFFFF + Sum32(p[..4 * k]), Be32(word));
  }

  lemma AccumulatedNothing(p: seq<Byte>)
    ensures Accumulated(p, 0) == 0xFFFF
  {
    assert p[..0] == [];
  }

  lemma AddModulo(n: nat, w: nat)
    ensures (n % TWO_TO_THE_64 + w) % TWO_TO_THE_64 == (n + w) % TWO_TO_THE_64
  {
    var q, r := n / TWO_TO_THE_64, n % TWO_TO_THE_64;
    var q', r' := (r + w) / TWO_TO_THE_64, (r + w) % TWO_TO_THE_64;
    assert n + w == TWO_TO_THE_64 * (q + q') + r';
  }

  /** The partial block at the start, as the program assembles it, is the first padded block;
      an empty buffer adds a block of zeros. */
  lemma FirstBlock(s: seq<Byte>, offset: nat, count: nat)
    requires 0 < offset < 4 && count == if 4 - offset > |s| then |s| else 4 - offset
    ensures |Padded(s, offset)| >= 4
    ensures Padded(s, offset)[4 * 0..4 * 0 + 4] == Zeros(offset) + s[0..count] + Zeros(4 - offset - count)
  {
  }

  lemma MiddleBlock(s: seq<Byte>, offset: nat, k: nat)
    requires offset < 4 && offset <= 4 * k && 4 * k - offset + 4 <= |s|
    ensures 4 * k + 4 <= |Padded(s, offset)|
    ensures Padded(s, offset)[4 * k..4 * k + 4] == s[4 * k - offset..4 * k - offset + 4]
  {
    var tail := Zeros((4 - (offset + |s|) % 4) % 4);
    SliceOfMiddle(Zeros(offset), s, tail, 4 * k, 4 * k + 4);
  }

  lemma LastBlock(s: seq<Byte>, offset: nat, k: nat)
    requires offset < 4 && offset <= 4 * k && 4 * k - offset < |s| < 4 * k - offset + 4
    ensures 4 * k + 4 <= |Padded(s, offset)| && |Padded(s, offset)| / 4 == k + 1
    ensures Padded(s, offset)[4 * k..4 * k + 4] == s[4 * k - offset..|s|] + Zeros(4 - (|s| - (4 * k - offset)))
  {
    var n := 4 * k + 4 - (offset + |s|);
    assert (4 - (offset + |s|) % 4) % 4 == n;
    assert Padded(s, offset) == Zeros(offset) + (s + Zeros(n));
    SliceOfMiddle(Zeros(offset), s + Zeros(n), [], 4 * k, 4 * k + 4);
    assert Zeros(offset) + (s + Zeros(n)) + [] == Padded(s, offset);
    assert (s + Zeros(n))[4 * k - offset..] == s[4 * k - offset..] + Zeros(n);
  }

  /** When `k` blocks cover the data, there are no more. */
  lemma NoMoreBlocks(s: seq<Byte>, offset: nat, k: nat)
    requires offset < 4 && 4 * k <= |Padded(s, offset)| && |s| <= 4 * k - offset
    ensures |Padded(s, offset)| / 4 == k
  {
  }

  /** How many of `size` data bytes the first `k` blocks hold. */
  function Covered(size: nat, offset: nat, k: nat): int {
    if 4 * k - offset < size then 4 * k - offset else size
  }

  /** The low two bits of the address of `mem[start]`, when `mem[0]` lies at `base`. */
  function Offset(base: nat, start: nat): (o: nat)
    ensures o < 4
  {
    (base + start) % 4
  }

  /** The first half of `ip_checksum`: the 32-bit words of `size` bytes at `mem[start..]`,
      where `mem[0]` lies at the address `base`, added to 0xFFFF.  The accumulator is the
      program's 64-bit one and wraps; `word` is the variable blocks are copied into. */
  method AddWords(host: Host, mem: array<Byte>, base: nat, start: nat, size: nat) returns (acc: nat)
    requires start + size <= mem.Length
    ensures acc == Total(mem[start..start + size], Offset(base, start))
  {
    hide *;
    var offset := Offset(base, start);
    ghost var s := mem[start..start + size];
    var data, left := start, size;
    ghost var k := 0;
    acc := 0xFFFF;
    AccumulatedNothing(Padded(s, offset));
    FirstCovered(size, offset);
    if offset != 0 {
      var count;
      count, acc := AddLeading(host, mem, start, size, offset, acc);
      data, left, k := data + count, left - count, 1;
    }
    data, left, acc, k := AddWholeWords(host, mem, start, size, data, left, acc, offset, k);
    if left != 0 {
      acc := AddTrailing(host, mem, start, size, data, left, acc, offset, k);
    } else {
      NoMoreBlocks(s, offset, k);
    }
    TotalIsLast(s, offset);
  }

  /** The partial block before the first word boundary. */
  method AddLeading(host: Host, mem: array<Byte>, start: nat, size: nat, offset: nat, sum: nat)
    returns (count: nat, acc: nat)
    requires 0 < offset < 4 && start + size <= mem.Length
    requires sum == Accumulated(Padded(mem[start..start + size], offset), 0)
    ensures count == if 4 - offset > size then size else 4 - offset
    ensures 4 <= |Padded(mem[start..start + size], offset)|
    ensures acc == Accumulated(Padded(mem[start..start + size], offset), 1)
  {
    hide *;
    count := if 4 - offset > size then size else 4 - offset;
    var word := Zeros(offset) + mem[start..start + count] + Zeros(4 - offset - count);
    FirstBlock(mem[start..start + size], offset, count);
    SliceOfSlice(mem[..], start, start + size, 0, count);
    acc := AddWord(host, sum, word, Padded(mem[start..start + size], offset), 0);
  }

  /** The partial block after the last word boundary. */
  method AddTrailing(host: Host, mem: array<Byte>, ghost start: nat, ghost size: nat, data: nat, left: nat, sum: nat,
                     ghost offset: nat, ghost k: nat)
    returns (acc: nat)
    requires offset < 4 && offset <= 4 * k && 0 < left < 4
    requires data + left == start + size <= mem.Length && data - start == 4 * k - offset
    requires 4 * k <= |Padded(mem[start..start + size], offset)|
    requires sum == Accumulated(Padded(mem[start..start + size], offset), k)
    ensures |Padded(mem[start..start + size], offset)| / 4 == k + 1
    ensures acc == Accumulated(Padded(mem[start..start + size], offset), k + 1)
  {
    hide *;
    var word := mem[data..data + left] + Zeros(4 - left);
    LastBlock(mem[start..start + size], offset, k);
    SliceOfSlice(mem[..], start, start + size, data - start, size);
    acc := AddWord(host, sum, word, Padded(mem[start..start + size], offset), k);
  }

  lemma FirstCovered(size: nat, offset: nat)
    requires offset < 4
    ensures Covered(size, offset, if offset == 0 then 0 else 1) ==
            if offset == 0 then 0 else if 4 - offset > size then size else 4 - offset
  {
  }

  lemma TotalIsLast(s: seq<Byte>, offset: nat)
    requires offset < 4
    ensures Total(s, offset) == Accumulated(Padded(s, offset), |Padded(s, offset)| / 4)
  {
  }

  /** The loop over the complete 32-bit blocks of the `size` bytes from `from` on. */
  method AddWholeWords(host: Host, mem: array<Byte>, ghost start: nat, ghost whole: nat, from: nat, size: nat, sum: nat,
                       ghost offset: nat, ghost first: nat)
    returns (data: nat, left: nat, acc: nat, ghost k: nat)
    requires offset < 4 && offset <= 4 * first && from + size == start + whole <= mem.Length
    requires from == start + Covered(whole, offset, first)
    requires 4 * first <= |Padded(mem[start..start + whole], offset)|
    requires sum == Accumulated(Padded(mem[start..start + whole], offset), first)
    ensures left < 4 && data + left == start + whole && offset <= 4 * k
    ensures if left == 0 then whole <= 4 * k - offset else data - start == 4 * k - offset
    ensures 4 * k <= |Padded(mem[start..start + whole], offset)|
    ensures acc == Accumulated(Padded(mem[start..start + whole], offset), k)
  {
    hide Accumulated, Padded;
    ghost var s := mem[start..start + whole];
    ghost var p := Padded(s, offset);
    data, acc, k := from, sum, first;
    ghost var blocks: nat := size / 4;
    var dataEnd := data + size / 4 * 4;
    while data != dataEnd
      invariant data + 4 * blocks == dataEnd && offset <= 4 * k
      invariant data == start + Covered(whole, offset, k)
      invariant 4 * k <= |p| && acc == Accumulated(p, k)
      decreases blocks
    {
      var word := mem[data..data + 4];
      MiddleBlock(s, offset, k);
      SliceOfSlice(mem[..], start, start + whole, data - start, data - start + 4);
      acc := AddWord(host, acc, word, p, k);
      data, k, blocks := data + 4, k + 1, blocks - 1;
    }
    left := size % 4;
  }

  /** `acc += ntohl(word)`, where `word` is the `k`th block of `p`. */
  method AddWord(host: Host, acc: nat, word: seq<Byte>, ghost p: seq<Byte>, ghost k: nat) returns (sum: nat)
    requires |word| == 4 && 4 * k + 4 <= |p| && word == p[4 * k..4 * k + 4]
    requires acc == Accumulated(p, k)
    ensures sum == Accumulated(p, k + 1)
  {
    hide Accumulated, Be32, Add64;
    Accumulate(p, k, acc, word);
    NtohlOfLoad(host, word);
    assert word == [word[0], word[1], word[2], word[3]];
    DecodeFour(BigEndian, word[0], word[1], word[2], word[3]);
    sum := Add64(acc, Ntohl(host, Load32(host, word)));
  }

  /** The deferred-carry part of `ip_checksum`. */
  method FoldCarries(sum: nat) returns (acc: nat)
    ensures acc == Fold(sum % TWO_TO_THE_32 + sum / TWO_TO_THE_32)
  {
    acc := sum % TWO_TO_THE_32 + sum / TWO_TO_THE_32;
    while acc / 0x1_0000 != 0
      invariant Fold(acc) == Fold(sum % TWO_TO_THE_32 + sum / TWO_TO_THE_32)
      decreases acc
    {
      acc := acc % 0x1_0000 + acc / 0x1_0000;
    }
  }

  /** Up to 2^32 words the result is the RFC 1071 checksum of the data in network order,
      at every alignment and on either host; beyond, the wrapped sum is what is finished. */
  method IpChecksum(host: Host, mem: array<Byte>, base: nat, start: nat, size: nat) returns (r: Word16)
    requires start + size <= mem.Length
    ensures r == Htons(host, Finish(Total(mem[start..start + size], Offset(base, start)), Offset(base, start) % 2 == 1))
    ensures Offset(base, start) + size <= 0x4_0000_0000 ==> r == Htons(host, Checksum(mem[start..start + size]))
  {
    hide Total, Fold, Htons, Checksum, Sum32, Padded, Accumulated, Be32;
    var offset := Offset(base, start);
    ghost var s := mem[start..start + size];
    var sum := AddWords(host, mem, base, start, size);
    var acc := FoldCarries(sum);
    // If the data began at an odd address, reverse the byte order.
    if offset % 2 == 1 {
      acc := Swap16(acc);
    }
    LowBitsOfComplement(acc);
    r := Htons(host, (TWO_TO_THE_64 - 1 - acc) % 0x1_0000);
    if offset + size <= 0x4_0000_0000 {
      AccumulatorFits(s, offset);
      AlignmentFree(s, offset);
    }
  }

  lemma LowBitsOfComplement(acc: Word16)
    ensures (TWO_TO_THE_64 - 1 - acc) % 0x1_0000 == 0xFFFF - acc
  {
  }
}
