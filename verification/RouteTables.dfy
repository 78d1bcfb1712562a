/** Routing tables as they are read: the octets of prefixes and masks in memory order, loaded as
    numbers in the byte order of the host. */
module RouteTables {
  import opened Bytes
  import opened Headers
  import opened Routes

  /** The number whose highest `k` of eight bits are set. */
  function ByteMask(k: int): Byte {
    if k <= 0 then 0
    else if k == 1 then 0x80 else if k == 2 then 0xC0 else if k == 3 then 0xE0
    else if k == 4 then 0xF0 else if k == 5 then 0xF8 else if k == 6 then 0xFC
    else if k == 7 then 0xFE else 0xFF
  }

  /** The octets of the mask of a prefix of `n` bits. */
  function MaskOf(n: nat): Ip4 {
    [ByteMask(n), ByteMask(n - 8), ByteMask(n - 16), ByteMask(n - 24)]
  }

  lemma ByteMaskOnes(k: int)
    ensures OnesThenZeros(ByteMask(k), 8)
  {
    assert Pow2(8) == 0x100;
    assert OnesThenZeros(0, 8) && OnesThenZeros(0x80, 8) && OnesThenZeros(0xC0, 8) && OnesThenZeros(0xE0, 8);
    assert OnesThenZeros(0xF0, 8) && OnesThenZeros(0xF8, 8) && OnesThenZeros(0xFC, 8);
    assert OnesThenZeros(0xFE, 8) && OnesThenZeros(0xFF, 8);
  }

  lemma ByteMasksNested(k: int, l: int)
    requires k <= l
    ensures Nested(ByteMask(k), ByteMask(l))
  {
    hide Nested, OnesThenZeros;
    ByteMaskOnes(k);
    ByteMaskOnes(l);
    OnesNested(ByteMask(k), ByteMask(l), 8);
  }

  lemma {:induction false} AndSplit(k: nat, q: nat, r: nat, q': nat, r': nat)
    requires r < Pow2(k) && r' < Pow2(k)
    decreases k
    ensures And(Pow2(k) * q + r, Pow2(k) * q' + r') == Pow2(k) * And(q, q') + And(r, r')
  {
    hide And, Pow2;
    PowOnce(k);
    if k > 0 {
      var p := Pow2(k - 1);
      AndSplit(k - 1, q, r / 2, q', r' / 2);
      Halve(p, q, r);
      Halve(p, q', r');
      AndOnce(2 * p * q + r, 2 * p * q' + r');
      AndOnce(r, r');
      Double(p, And(q, q'));
    }
  }

  lemma PowOnce(k: nat)
    ensures Pow2(k) == if k == 0 then 1 else 2 * Pow2(k - 1)
  {
  }

  lemma Halve(p: nat, q: nat, r: nat)
    ensures (2 * p * q + r) / 2 == p * q + r / 2 && (2 * p * q + r) % 2 == r % 2
  {
    Double(p, q);
  }

  lemma Double(p: nat, q: nat)
    ensures 2 * p * q == 2 * (p * q)
  {
  }

  lemma NestedBytes(q: nat, r: Byte, q': nat, r': Byte)
    requires Nested(q, q') && Nested(r, r')
    ensures Nested(0x100 * q + r, 0x100 * q' + r')
  {
    hide And;
    assert Pow2(8) == 0x100;
    AndSplit(8, q, r, q', r');
  }

  /** The number that four bytes denote on either host has its bits where the bytes have theirs. */
  lemma NestedLoads(h: Host, a: Ip4, b: Ip4)
    requires forall i :: 0 <= i < 4 ==> Nested(a[i], b[i])
    ensures Nested(Load32(h, a), Load32(h, b))
  {
    hide Nested;
    hide Decode;
    assert a == [a[0], a[1], a[2], a[3]] && b == [b[0], b[1], b[2], b[3]];
    DecodeFour(h, a[0], a[1], a[2], a[3]);
    DecodeFour(h, b[0], b[1], b[2], b[3]);
    if h == BigEndian {
      NestedWords(a, b);
    } else {
      NestedWords([a[3], a[2], a[1], a[0]], [b[3], b[2], b[1], b[0]]);
    }
  }

  lemma NestedWords(a: Ip4, b: Ip4)
    requires forall i :: 0 <= i < 4 ==> Nested(a[i], b[i])
    ensures Nested(Be32(a), Be32(b))
  {
    hide Nested;
    var a1: nat, b1: nat := Be16(a[0], a[1]), Be16(b[0], b[1]);
    NestedBytes(a[0], a[1], b[0], b[1]);
    NestedBytes(a1, a[2], b1, b[2]);
    NestedBytes(0x100 * a1 + a[2], a[3], 0x100 * b1 + b[2], b[3]);
  }

  /** Every mask in the table is that of some prefix. */
  ghost predicate Loaded(host: Host, t: Table) {
    forall i :: 0 <= i < |t| ==> exists n: nat :: n <= 32 && t[i].mask == Load32(host, MaskOf(n))
  }

  lemma MasksNested(h: Host, m: nat, n: nat)
    requires m <= n
    ensures Nested(Load32(h, MaskOf(m)), Load32(h, MaskOf(n)))
  {
    hide Nested, ByteMask, Load32;
    ByteMasksNested(m, n);
    ByteMasksNested(m - 8, n - 8);
    ByteMasksNested(m - 16, n - 16);
    ByteMasksNested(m - 24, n - 24);
    NestedLoads(h, MaskOf(m), MaskOf(n));
  }

  /** On either host the masks of prefixes are nested, so `LongestIfProbed` holds of every table
      that is read. */
  lemma LoadedNested(h: Host, t: Table)
    requires Loaded(h, t)
    ensures NestedMasks(t)
  {
    hide Nested, And, MaskOf, Load32;
    forall i, j | 0 <= i < |t| && 0 <= j < |t| && t[i].mask <= t[j].mask
      ensures Nested(t[i].mask, t[j].mask)
    {
      var m: nat :| m <= 32 && t[i].mask == Load32(h, MaskOf(m));
      var n: nat :| n <= 32 && t[j].mask == Load32(h, MaskOf(n));
      if m <= n {
        MasksNested(h, m, n);
      } else {
        MasksNested(h, n, m);
        NestedSame(t[j].mask, t[i].mask);
      }
    }
  }

  lemma NestedSame(m: nat, n: nat)
    requires Nested(m, n) && n <= m
    ensures m == n && Nested(n, m)
  {
    hide And;
  }

  // ----- ones followed by zeros -----

  lemma {:induction false} TopBitSet(m: nat, width: nat)
    requires OnesThenZeros(m, width) && m > 0 && width > 0
    ensures 2 * m >= Pow2(width)
  {
    if m % 2 == 0 {
      TopBitSet(m / 2, width - 1);
    }
  }

  /** On a little-endian host no mask but 0.0.0.0 and 255.255.255.255 is ones followed by zeros. */
  lemma LittleEndianMasks(n: nat)
    requires n <= 32
    ensures Contiguous(Load32(LittleEndian, MaskOf(n))) <==> n == 0 || n == 32
  {
    hide OnesThenZeros;
    var m := Load32(LittleEndian, MaskOf(n));
    DecodeFour(LittleEndian, ByteMask(n), ByteMask(n - 8), ByteMask(n - 16), ByteMask(n - 24));
    Width32(0);
    if n == 0 {
      NoOnes(32);
    } else if n == 32 {
      AllOnes(0);
    } else if Contiguous(m) {
      TopBitSet(m, 32);
      if n >= 8 {
        OddOnes(m, 32);
      }
    }
  }

  lemma OddOnes(m: nat, width: nat)
    requires OnesThenZeros(m, width) && m % 2 == 1
    ensures m == Pow2(width) - 1
  {
  }

  lemma {:induction false} Pow2Sum(w: nat, k: nat)
    ensures Pow2(w + k) == Pow2(k) * Pow2(w)
    decreases k
  {
    if k > 0 {
      Pow2Sum(w, k - 1);
      Double(Pow2(k - 1), Pow2(w));
    }
  }

  lemma {:induction false} HighOnes(n: nat, width: nat)
    requires n <= width
    ensures Pow2(width - n) <= Pow2(width) && OnesThenZeros(Pow2(width) - Pow2(width - n), width)
    decreases width
  {
    hide Pow2, OnesThenZeros;
    PowOnce(width);
    PowOnce(width - n);
    OnesOnce(Pow2(width) - Pow2(width - n), width);
    if n < width {
      HighOnes(n, width - 1);
    }
  }

  lemma OnesOnce(m: int, width: nat)
    ensures m >= 0 ==>
              (OnesThenZeros(m, width) <==>
               if width == 0 then m == 0
               else if m % 2 == 0 then OnesThenZeros(m / 2, width - 1)
               else m == Pow2(width) - 1)
  {
  }

  lemma ByteMaskIs(k: int)
    requires 0 <= k <= 8
    ensures ByteMask(k) == 0x100 - Pow2(8 - k)
  {
    assert Pow2(4) == 0x10 && Pow2(5) == 0x20 && Pow2(6) == 0x40 && Pow2(7) == 0x80 && Pow2(8) == 0x100;
  }

  lemma ByteMaskEnds(k: int)
    ensures k <= 0 ==> ByteMask(k) == 0
    ensures k >= 8 ==> ByteMask(k) == 0xFF
  {
  }

  /** The mask as a number: what is missing are the powers below 2^(32 - n). */
  lemma BigEndianMask(n: nat)
    requires n <= 32
    ensures Load32(BigEndian, MaskOf(n)) == 0x1_0000_0000 - Pow2(32 - n)
  {
    hide Pow2, ByteMask;
    DecodeFour(BigEndian, ByteMask(n), ByteMask(n - 8), ByteMask(n - 16), ByteMask(n - 24));
    EighthPowers();
    ByteMaskEnds(n);
    ByteMaskEnds(n - 8);
    ByteMaskEnds(n - 16);
    ByteMaskEnds(n - 24);
    if n >= 24 {
      ByteMaskIs(n - 24);
    } else if n >= 16 {
      ByteMaskIs(n - 16);
      Pow2Sum(24 - n, 8);
    } else if n >= 8 {
      ByteMaskIs(n - 8);
      Pow2Sum(16 - n, 16);
    } else {
      ByteMaskIs(n);
      Pow2Sum(8 - n, 24);
    }
  }

  /** On a big-endian host all of them are. */
  lemma BigEndianMasks(n: nat)
    requires n <= 32
    ensures Contiguous(Load32(BigEndian, MaskOf(n)))
  {
    hide OnesThenZeros, Pow2, Load32, MaskOf;
    Width32(0);
    HighOnes(n, 32);
    BigEndianMask(n);
  }

  lemma EighthPowers()
    ensures Pow2(0) == 1 && Pow2(8) == 0x100 && Pow2(16) == 0x1_0000 && Pow2(24) == 0x100_0000
  {
    assert Pow2(8) == 0x100 && Pow2(16) == 0x1_0000;
  }

  // ----- two destinations of one table -----

  /** 192.168.1.0/24 and 10.0.0.0/8 on a little-endian host. */
  function TwoNets(hop: Ip4): Table {
    [Route(Load32(LittleEndian, [192, 168, 1, 0]), hop, Load32(LittleEndian, MaskOf(24)), 0),
     Route(Load32(LittleEndian, [10, 0, 0, 0]), hop, Load32(LittleEndian, MaskOf(8)), 1)]
  }

  lemma AndLowOnes(k: nat, q: nat, r: nat)
    requires r < Pow2(k)
    ensures And(Pow2(k) * q + r, Pow2(k) - 1) == r
  {
    hide And, Pow2;
    AndSplit(k, q, r, 0, Pow2(k) - 1);
    AndAllOnes(r, k);
    AndZero(q);
  }

  lemma AndZero(q: nat)
    ensures And(q, 0) == 0
  {
  }

  /** 10.0.0.200 and 10.5.6.7, masked. */
  lemma TwoHosts()
    ensures And(0xC800_000A, 0xFF) == And(0x0706_050A, 0xFF) == 0x0A
    ensures And(0xC800_000A, 0xFF_FFFF) == 0x0A && And(0x0706_050A, 0xFF_FFFF) == 0x06_050A
  {
    hide And, Pow2;
    EighthPowers();
    AndLowOnes(8, 0xC8_0000, 0x0A);
    AndLowOnes(8, 0x07_0605, 0x0A);
    AndLowOnes(24, 0xC8, 0x0A);
    AndLowOnes(24, 0x07, 0x06_050A);
  }

  lemma TwoNetsAre(hop: Ip4)
    ensures TwoNets(hop) == [Route(0x1_A8C0, hop, 0xFF_FFFF, 0), Route(0x0A, hop, 0xFF, 1)]
    ensures Load32(LittleEndian, [10, 0, 0, 200]) == 0xC800_000A && Load32(LittleEndian, [10, 5, 6, 7]) == 0x0706_050A
    ensures Loaded(LittleEndian, TwoNets(hop))
  {
    hide And, Load32;
    var t := TwoNets(hop);
    LittleEndianLoad(192, 168, 1, 0);
    LittleEndianLoad(10, 0, 0, 0);
    LittleEndianLoad(10, 0, 0, 200);
    LittleEndianLoad(10, 5, 6, 7);
    LittleEndianLoad(255, 255, 255, 0);
    LittleEndianLoad(255, 0, 0, 0);
    assert MaskOf(24) == [255, 255, 255, 0] && MaskOf(8) == [255, 0, 0, 0];
    assert t[0].mask == Load32(LittleEndian, MaskOf(24)) && t[1].mask == Load32(LittleEndian, MaskOf(8));
  }

  lemma LittleEndianLoad(a: Byte, b: Byte, c: Byte, d: Byte)
    ensures Load32(LittleEndian, [a, b, c, d]) ==
            0x100_0000 * d as int + 0x1_0000 * c as int + 0x100 * b as int + a as int
  {
    DecodeFour(LittleEndian, a, b, c, d);
  }

  /** There the comparison with the first prefix decides nothing: 10.0.0.200 is not below it and is
      found, while for 10.5.6.7, which has a route too, the search leaves the table. */
  lemma FirstPrefixDecidesNothing(hop: Ip4)
    ensures var t := TwoNets(hop);
            var near, far := Load32(LittleEndian, [10, 0, 0, 200]), Load32(LittleEndian, [10, 5, 6, 7]);
            && Sorted(t) && Loaded(LittleEndian, t) && t[0].prefix <= near && t[0].prefix <= far
            && BestRoute(t, near) == Found(1) && IsLongestMatch(t, near, 1)
            && BestRoute(t, far) == OutOfBounds && IsLongestMatch(t, far, 1)
  {
    hide And, Search, MaskOf, Load32, TwoNets, Loaded;
    TwoNetsAre(hop);
    TwoHosts();
    var t := TwoNets(hop);
    SearchOnce(t, 0xC800_000A, 0, 1, -1);
    SearchOnce(t, 0xC800_000A, 1, 1, -1);
    SearchDone(t, 0xC800_000A, 1, 0, 1);
    SearchOnce(t, 0x0706_050A, 0, 1, -1);
    SearchOnce(t, 0x0706_050A, 0, UINT_MAX, -1);
  }
}
