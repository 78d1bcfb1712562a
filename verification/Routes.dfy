/** The routing table: the comparator it is sorted with, and the binary search over it. */
module Routes {
  import opened Bytes
  import opened Headers

  /** Prefix and mask are the 32-bit numbers the program compares; the next hop is only copied. */
  datatype Route = Route(prefix: Word32, nextHop: Ip4, mask: Word32, interface: int)

  const RTABLE_ENTRIES: nat := 100000

  const UINT_MAX: Word32 := 0xFFFF_FFFF

  /** The table fits the array `main` allocates. */
  type Table = t: seq<Route> | |t| <= RTABLE_ENTRIES

  /** What a lookup comes to.  `OutOfBounds` is a probe past the end of the table, where the
      program reads memory it does not own. */
  datatype Lookup = Found(index: nat) | Nothing | OutOfBounds

  /** `a / 2`, without a division for the verifier to unfold. */
  function Half(a: nat): (h: nat)
    ensures 2 * h <= a <= 2 * h + 1
  {
    assert 2 * (a / 2) <= a <= 2 * (a / 2) + 1;
    var h: nat :| 2 * h <= a <= 2 * h + 1;
    h
  }

  predicate Odd(a: nat) {
    a != 2 * Half(a)
  }

  lemma HalfIs(a: nat)
    ensures Half(a) == a / 2 && (Odd(a) <==> a % 2 == 1)
  {
  }

  /** Bitwise and, bit by bit from the low end. */
  function And(a: nat, b: nat): (r: nat)
    ensures r <= a && r <= b
  {
    if a == 0 || b == 0 then 0
    else (if Odd(a) && Odd(b) then 1 else 0) + 2 * And(Half(a), Half(b))
  }

  lemma AndOnce(a: nat, b: nat)
    ensures And(a, b) == (if a % 2 == 1 && b % 2 == 1 then 1 else 0) + 2 * And(a / 2, b / 2)
  {
    HalfIs(a);
    HalfIs(b);
    if a == 0 || b == 0 {
      assert And(a / 2, b / 2) <= 0;
    }
  }

  predicate Matches(r: Route, dest: Word32) {
    And(dest, r.mask) == r.prefix
  }

  /** The search goes left at `r`. */
  predicate AtOrBelow(r: Route, dest: Word32) {
    r.prefix <= And(dest, r.mask)
  }

  lemma MatchIsAtOrBelow(r: Route, dest: Word32)
    requires Matches(r, dest)
    ensures AtOrBelow(r, dest)
  {
  }

  // ----- the search -----

  /** Subtracting 1 from an `unsigned int`. */
  function Minus1(x: Word32): Word32 {
    if x == 0 then UINT_MAX else x - 1
  }

  /** The loop of `get_best_route`, from the values of its variables on.  Once `right` has
      wrapped, the next probe lies far outside the table. */
  function Search(t: Table, dest: Word32, left: Word32, right: Word32, best: int): Lookup
    requires -1 <= best < |t|
    requires right < |t| || (left == 0 && right == UINT_MAX)
    decreases if right < |t| then right - left + 2 else 0
  {
    if left > right then
      if best == -1 then Nothing else Found(best)
    else
      var mid := left + Half(right - left);
      if mid >= |t| then OutOfBounds
      else if Matches(t[mid], dest) then Search(t, dest, left, Minus1(mid), mid)
      else if AtOrBelow(t[mid], dest) then Search(t, dest, left, Minus1(mid), best)
      else Search(t, dest, mid + 1, right, best)
  }

  function BestRoute(t: Table, dest: Word32): Lookup {
    Search(t, dest, 0, Minus1(|t|), -1)
  }

  method GetBestRoute(t: Table, dest: Word32) returns (r: Lookup)
    ensures r == BestRoute(t, dest)
  {
    hide Matches, AtOrBelow, Search;
    var left, right := 0, Minus1(|t|);
    var best := -1;
    while left <= right
      invariant -1 <= best < |t| && 0 <= left <= |t| && 0 <= right <= UINT_MAX
      invariant right < |t| || (left == 0 && right == UINT_MAX)
      invariant Search(t, dest, left, right, best) == BestRoute(t, dest)
      decreases if right < |t| then right - left + 2 else 0
    {
      SearchOnce(t, dest, left, right, best);
      var mid := left + (right - left) / 2;
      if mid >= |t| {
        return OutOfBounds;
      }
      if Matches(t[mid], dest) {
        best := mid;
        right := Minus1(mid);
      } else if AtOrBelow(t[mid], dest) {
        right := Minus1(mid);
      } else {
        left := mid + 1;
      }
    }
    SearchDone(t, dest, left, right, best);
    r := if best == -1 then Nothing else Found(best);
  }

  lemma SearchOnce(t: Table, dest: Word32, left: Word32, right: Word32, best: int)
    requires -1 <= best < |t| && left <= right
    requires right < |t| || (left == 0 && right == UINT_MAX)
    ensures var mid := left + (right - left) / 2;
            Search(t, dest, left, right, best) ==
            if mid >= |t| then OutOfBounds
            else if Matches(t[mid], dest) then Search(t, dest, left, Minus1(mid), mid)
            else if AtOrBelow(t[mid], dest) then Search(t, dest, left, Minus1(mid), best)
            else Search(t, dest, mid + 1, right, best)
  {
    hide Matches, AtOrBelow, Half;
    HalfIs(right - left);
  }

  lemma SearchDone(t: Table, dest: Word32, left: Word32, right: Word32, best: int)
    requires -1 <= best < |t| && right < left
    requires right < |t| || (left == 0 && right == UINT_MAX)
    ensures Search(t, dest, left, right, best) == if best == -1 then Nothing else Found(best)
  {
  }

  // ----- what the search finds -----

  /** The entries before `f` send the search right, those from `f` on send it left. */
  ghost predicate Separates(t: Table, dest: Word32, f: nat) {
    && f <= |t|
    && (forall i :: 0 <= i < f ==> !AtOrBelow(t[i], dest))
    && (forall i :: f <= i < |t| ==> AtOrBelow(t[i], dest))
  }

  /** Whatever the table, an entry that is found matches. */
  lemma {:induction false} FoundMatches(t: Table, dest: Word32, left: Word32, right: Word32, best: int)
    requires -1 <= best < |t| && (best >= 0 ==> Matches(t[best], dest))
    requires right < |t| || (left == 0 && right == UINT_MAX)
    ensures var r := Search(t, dest, left, right, best); r.Found? ==> r.index < |t| && Matches(t[r.index], dest)
    decreases if right < |t| then right - left + 2 else 0
  {
    hide Matches, AtOrBelow;
    if left <= right {
      var mid := left + (right - left) / 2;
      if mid < |t| {
        if Matches(t[mid], dest) {
          FoundMatches(t, dest, left, Minus1(mid), mid);
        } else if AtOrBelow(t[mid], dest) {
          FoundMatches(t, dest, left, Minus1(mid), best);
        } else {
          FoundMatches(t, dest, mid + 1, right, best);
        }
      }
    }
  }

  /** A table whose first entry lies above the destination is searched within its bounds. */
  lemma {:induction false} StaysInBounds(t: Table, dest: Word32, left: Word32, right: Word32, best: int)
    requires |t| > 0 && !AtOrBelow(t[0], dest)
    requires -1 <= best < |t| && right < |t|
    ensures Search(t, dest, left, right, best) != OutOfBounds
    decreases right - left + 1
  {
    hide Matches, AtOrBelow;
    if left <= right {
      var mid := left + (right - left) / 2;
      if Matches(t[mid], dest) {
        MatchIsAtOrBelow(t[mid], dest);
        StaysInBounds(t, dest, left, mid - 1, mid);
      } else if AtOrBelow(t[mid], dest) {
        StaysInBounds(t, dest, left, mid - 1, best);
      } else {
        StaysInBounds(t, dest, mid + 1, right, best);
      }
    }
  }

  /** When every entry sends the search left, `right` wraps below the first one. */
  lemma {:induction false} RunsOff(t: Table, dest: Word32, right: Word32, best: int)
    requires Separates(t, dest, 0) && -1 <= best < |t| && right < |t|
    ensures Search(t, dest, 0, right, best) == OutOfBounds
  {
    hide Matches, AtOrBelow;
    var mid := right / 2;
    if mid > 0 {
      RunsOff(t, dest, mid - 1, if Matches(t[mid], dest) then mid else best);
    }
  }

  /** The search looks at entry `i`. */
  predicate Probes(t: Table, dest: Word32, left: Word32, right: Word32, i: int)
    requires right < |t|
    decreases right - left + 1
  {
    left <= right &&
    var mid := left + (right - left) / 2;
    mid == i ||
    if !AtOrBelow(t[mid], dest) then Probes(t, dest, mid + 1, right, i)
    else mid > 0 && Probes(t, dest, left, mid - 1, i)
  }

  /** Position `j` is among the midpoints of a binary search for position `f`. */
  predicate OnPath(f: nat, left: int, right: int, j: int)
    decreases right - left + 1
  {
    left <= right &&
    var mid := left + (right - left) / 2;
    mid == j || if mid < f then OnPath(f, mid + 1, right, j) else OnPath(f, left, mid - 1, j)
  }

  /** Once the search has gone right, it cannot leave the table. */
  lemma {:induction false} StaysRight(t: Table, dest: Word32, left: Word32, right: Word32, best: int)
    requires 0 < left && -1 <= best < |t| && right < |t|
    ensures Search(t, dest, left, right, best) != OutOfBounds
    decreases right - left + 1
  {
    hide Matches, AtOrBelow;
    if left <= right {
      var mid := left + (right - left) / 2;
      if Matches(t[mid], dest) {
        StaysRight(t, dest, left, mid - 1, mid);
      } else if AtOrBelow(t[mid], dest) {
        StaysRight(t, dest, left, mid - 1, best);
      } else {
        StaysRight(t, dest, mid + 1, right, best);
      }
    }
  }

  lemma {:induction false} LeavesFrom(t: Table, dest: Word32, right: Word32, best: int)
    requires -1 <= best < |t| && right < |t|
    ensures Search(t, dest, 0, right, best) == OutOfBounds <==>
            forall j :: 0 <= j < |t| && OnPath(0, 0, right, j) ==> AtOrBelow(t[j], dest)
    decreases right
  {
    hide Matches, AtOrBelow, Search;
    var mid := right / 2;
    SearchOnce(t, dest, 0, right, best);
    if Matches(t[mid], dest) {
      MatchIsAtOrBelow(t[mid], dest);
    }
    var best' := if Matches(t[mid], dest) then mid else best;
    assert OnPath(0, 0, right, mid);
    if !AtOrBelow(t[mid], dest) {
      StaysRight(t, dest, mid + 1, right, best);
    } else if mid > 0 {
      LeavesFrom(t, dest, mid - 1, best');
    } else {
      SearchOnce(t, dest, 0, UINT_MAX, best');
    }
  }

  /** On any table whatever: the search leaves it if and only if every entry on the way of a
      binary search for position 0 sends it left. */
  lemma LeavesTableIff(t: Table, dest: Word32)
    ensures BestRoute(t, dest) == OutOfBounds <==>
            forall j :: 0 <= j < |t| && OnPath(0, 0, |t| - 1, j) ==> AtOrBelow(t[j], dest)
  {
    hide AtOrBelow, Search, OnPath;
    if |t| == 0 {
      EmptySearch(t, dest);
    } else {
      LeavesFrom(t, dest, |t| - 1, -1);
    }
  }

  lemma {:induction false} EndsAtZero(right: int)
    requires right >= 0
    ensures OnPath(0, 0, right, 0)
  {
    if right / 2 > 0 {
      EndsAtZero(right / 2 - 1);
    }
  }

  /** On a separated table the search probes entry `f`, and keeps it if it matches. */
  lemma {:induction false} ProbesFirst(t: Table, dest: Word32, f: nat, left: Word32, right: Word32, best: int)
    requires Separates(t, dest, f) && 1 <= f
    requires -1 <= best < |t| && right < |t| && left <= f <= right + 1
    ensures f <= right ==> Probes(t, dest, left, right, f)
    ensures f <= right && Matches(t[f], dest) ==> Search(t, dest, left, right, best) == Found(f)
    ensures f == right + 1 ==> Search(t, dest, left, right, best) == if best == -1 then Nothing else Found(best)
    decreases right - left + 1
  {
    hide Matches, AtOrBelow, Search;
    if left <= right {
      var mid := left + (right - left) / 2;
      SearchOnce(t, dest, left, right, best);
      if mid < f {
        if Matches(t[mid], dest) {
          MatchIsAtOrBelow(t[mid], dest);
        }
        ProbesFirst(t, dest, f, mid + 1, right, best);
      } else {
        var best' := if Matches(t[mid], dest) then mid else best;
        ProbesFirst(t, dest, f, left, mid - 1, best');
      }
    } else {
      SearchDone(t, dest, left, right, best);
    }
  }

  /** The simple definition: the first matching entry from `i` on. */
  function LinearScan(t: Table, dest: Word32, i: nat): (r: Lookup)
    requires i <= |t|
    ensures r.Found? ==> i <= r.index < |t| && Matches(t[r.index], dest)
    ensures forall j :: i <= j < (if r.Found? then r.index else |t|) ==> !Matches(t[j], dest)
    ensures r != OutOfBounds
    decreases |t| - i
  {
    if i == |t| then Nothing else if Matches(t[i], dest) then Found(i) else LinearScan(t, dest, i + 1)
  }

  lemma ScanUnique(t: Table, dest: Word32, i: nat)
    requires i < |t| && Matches(t[i], dest) && forall j :: 0 <= j < i ==> !Matches(t[j], dest)
    ensures LinearScan(t, dest, 0) == Found(i)
  {
    hide Matches;
  }

  /** On a separated table where an entry after `f` matches only if `f` does, the search is the
      linear scan, provided it stays in bounds; it does so exactly when `f` is not 0. */
  lemma SearchIsScan(t: Table, dest: Word32, f: nat)
    requires Separates(t, dest, f)
    requires forall j :: f < j < |t| && Matches(t[j], dest) ==> Matches(t[f], dest)
    ensures BestRoute(t, dest) == if f == 0 then OutOfBounds else LinearScan(t, dest, 0)
  {
    hide Matches, AtOrBelow, Search, LinearScan, Probes, And;
    if |t| > 0 && f == 0 {
      RunsOff(t, dest, |t| - 1, -1);
    } else if |t| > 0 {
      forall j | 0 <= j < f
        ensures !Matches(t[j], dest)
      {
        if Matches(t[j], dest) {
          MatchIsAtOrBelow(t[j], dest);
        }
      }
      ProbesFirst(t, dest, f, 0, |t| - 1, -1);
      if f < |t| && Matches(t[f], dest) {
        ScanUnique(t, dest, f);
      } else {
        FoundMatches(t, dest, 0, |t| - 1, -1);
        StaysInBounds(t, dest, 0, |t| - 1, -1);
      }
    } else {
      EmptySearch(t, dest);
    }
  }

  lemma EmptySearch(t: Table, dest: Word32)
    requires |t| == 0
    ensures BestRoute(t, dest) == OutOfBounds
  {
  }

  /** It is the bitwise and: a bit of the result is set if and only if it is set in both. */
  lemma {:induction false} AndBits(a: nat, b: nat, k: nat)
    ensures Bit(And(a, b), k) <==> Bit(a, k) && Bit(b, k)
    decreases k
  {
    hide And;
    AndOnce(a, b);
    if k > 0 {
      AndBits(a / 2, b / 2, k - 1);
    }
  }

  predicate Bit(a: nat, k: nat) {
    if k == 0 then a % 2 == 1 else Bit(a / 2, k - 1)
  }

  // ----- sorted tables with prefix masks -----

  /** The order the program means to sort by: prefix descending, then mask descending. */
  predicate Before(a: Route, b: Route) {
    a.prefix > b.prefix || (a.prefix == b.prefix && b.mask <= a.mask)
  }

  ghost predicate Sorted(t: Table) {
    forall i, j :: 0 <= i < j < |t| ==> Before(t[i], t[j])
  }

  function Pow2(n: nat): (p: nat)
    ensures p > 0
  {
    if n == 0 then 1 else 2 * Pow2(n - 1)
  }

  /** The lowest `width` bits of the number are ones followed by zeros, and it has no others. */
  predicate OnesThenZeros(m: nat, width: nat) {
    if width == 0 then m == 0
    else if m % 2 == 0 then OnesThenZeros(m / 2, width - 1)
    else m == Pow2(width) - 1
  }

  predicate Contiguous(m: Word32) {
    OnesThenZeros(m, 32)
  }

  predicate IsPrefixRoute(r: Route) {
    Contiguous(r.mask) && And(r.prefix, r.mask) == r.prefix
  }

  ghost predicate PrefixTable(t: Table) {
    forall i :: 0 <= i < |t| ==> IsPrefixRoute(t[i])
  }

  lemma {:induction false} AndAllOnes(x: nat, width: nat)
    requires x < Pow2(width)
    ensures And(x, Pow2(width) - 1) == x
  {
    if width > 0 && x > 0 {
      AndAllOnes(x / 2, width - 1);
      assert (Pow2(width) - 1) / 2 == Pow2(width - 1) - 1;
    }
  }

  lemma {:induction false} OnesThenZerosFits(m: nat, width: nat)
    requires OnesThenZeros(m, width)
    ensures m < Pow2(width)
  {
    if width > 0 && m % 2 == 0 {
      OnesThenZerosFits(m / 2, width - 1);
    }
  }

  /** Masking with a contiguous mask keeps the order. */
  lemma {:induction false} MaskMonotone(x: nat, y: nat, m: nat, width: nat)
    requires OnesThenZeros(m, width) && x <= y < Pow2(width)
    ensures And(x, m) <= And(y, m)
  {
    hide And;
    if width > 0 && m % 2 == 0 {
      MaskMonotone(x / 2, y / 2, m / 2, width - 1);
      AndOnce(x, m);
      AndOnce(y, m);
    } else if width > 0 {
      AndAllOnes(x, width);
      AndAllOnes(y, width);
    }
  }

  lemma Width32(x: Word32)
    ensures x < Pow2(32) == UINT_MAX + 1
  {
    assert Pow2(8) == 0x100;
    assert Pow2(16) == 0x1_0000;
    assert Pow2(24) == 0x100_0000;
  }

  /** With a prefix mask, the masked comparison is the comparison with the destination itself. */
  lemma AtOrBelowIsLe(r: Route, dest: Word32)
    requires IsPrefixRoute(r)
    ensures AtOrBelow(r, dest) <==> r.prefix <= dest
  {
    hide And;
    Width32(dest);
    if r.prefix <= dest {
      MaskMonotone(r.prefix, dest, r.mask, 32);
    }
  }

  /** The first entry whose prefix does not exceed `dest`. */
  function FirstAtOrBelow(t: Table, dest: Word32, i: nat): (f: nat)
    requires i <= |t|
    ensures i <= f <= |t|
    ensures forall j :: i <= j < f ==> t[j].prefix > dest
    ensures f < |t| ==> t[f].prefix <= dest
    decreases |t| - i
  {
    if i == |t| || t[i].prefix <= dest then i else FirstAtOrBelow(t, dest, i + 1)
  }

  /** The entries at or below `dest` are those from the first one on. */
  lemma SortedSplit(t: Table, dest: Word32, i: nat)
    requires Sorted(t) && i < |t|
    ensures t[i].prefix <= dest <==> FirstAtOrBelow(t, dest, 0) <= i
  {
    hide And, FirstAtOrBelow;
    var f := FirstAtOrBelow(t, dest, 0);
    if f < i {
      assert Before(t[f], t[i]);
    }
  }

  lemma SortedSeparates(t: Table, dest: Word32)
    requires Sorted(t) && PrefixTable(t)
    ensures Separates(t, dest, FirstAtOrBelow(t, dest, 0))
  {
    hide And, AtOrBelow, FirstAtOrBelow, IsPrefixRoute, Before;
    forall i | 0 <= i < |t|
      ensures AtOrBelow(t[i], dest) <==> FirstAtOrBelow(t, dest, 0) <= i
    {
      AtOrBelowIsLe(t[i], dest);
      SortedSplit(t, dest, i);
    }
  }

  /** On a sorted table of prefixes the search leaves the table exactly when the destination is
      not below the first prefix, or the table is empty. */
  lemma OutOfBoundsExactly(t: Table, dest: Word32)
    requires Sorted(t) && PrefixTable(t)
    ensures BestRoute(t, dest) == OutOfBounds <==> |t| == 0 || t[0].prefix <= dest
  {
    hide And, AtOrBelow, IsPrefixRoute, Before, Search, FirstAtOrBelow, OnPath;
    LeavesTableIff(t, dest);
    if |t| > 0 {
      SortedSeparates(t, dest);
      EndsAtZero(|t| - 1);
    }
  }

  /** A longest match among all entries of the table. */
  ghost predicate IsLongestMatch(t: Table, dest: Word32, i: nat) {
    && i < |t| && Matches(t[i], dest)
    && forall j :: 0 <= j < |t| && Matches(t[j], dest) ==> t[j].mask <= t[i].mask
  }

  /** Of any two masks the smaller one's bits are among the other's. */
  ghost predicate NestedMasks(t: Table) {
    forall i, j :: 0 <= i < |t| && 0 <= j < |t| && t[i].mask <= t[j].mask ==> Nested(t[i].mask, t[j].mask)
  }

  predicate Nested(m: nat, n: nat) {
    And(m, n) == m
  }

  lemma NestedHalves(m: nat, n: nat)
    requires Nested(m, n)
    ensures Nested(m / 2, n / 2) && (m % 2 == 1 ==> n % 2 == 1)
  {
    hide And;
    AndOnce(m, n);
  }

  lemma {:induction false} NestedKeepsLess(x: nat, m: nat, n: nat)
    requires Nested(m, n)
    ensures And(x, m) <= And(x, n)
  {
    hide Nested;
    if x != 0 && m != 0 {
      hide And;
      NestedHalves(m, n);
      NestedKeepsLess(x / 2, m / 2, n / 2);
      AndOnce(x, m);
      AndOnce(x, n);
    }
  }

  lemma EarlierIsLonger(a: Route, b: Route, dest: Word32)
    requires Before(a, b) && (a.mask <= b.mask ==> Nested(a.mask, b.mask)) && Matches(a, dest) && Matches(b, dest)
    ensures b.mask <= a.mask
  {
    hide And, Nested;
    if b.mask > a.mask {
      NestedKeepsLess(dest, a.mask, b.mask);
    }
  }

  lemma {:induction false} OnesNested(m: nat, n: nat, width: nat)
    requires OnesThenZeros(m, width) && OnesThenZeros(n, width) && m <= n
    ensures Nested(m, n)
  {
    OnesThenZerosFits(m, width);
    OnesThenZerosFits(n, width);
    if width > 0 && n % 2 == 1 {
      AndAllOnes(m, width);
    } else if width > 0 && m % 2 == 0 {
      OnesNested(m / 2, n / 2, width - 1);
    }
  }

  lemma PrefixTableNested(t: Table)
    requires PrefixTable(t)
    ensures NestedMasks(t)
  {
    hide And, OnesThenZeros, Nested;
    forall i, j | 0 <= i < |t| && 0 <= j < |t| && t[i].mask <= t[j].mask
      ensures Nested(t[i].mask, t[j].mask)
    {
      assert IsPrefixRoute(t[i]) && IsPrefixRoute(t[j]);
      OnesNested(t[i].mask, t[j].mask, 32);
    }
  }

  /** In a sorted table the first match is the longest. */
  lemma FirstMatchIsLongest(t: Table, dest: Word32)
    requires Sorted(t) && NestedMasks(t) && LinearScan(t, dest, 0).Found?
    ensures IsLongestMatch(t, dest, LinearScan(t, dest, 0).index)
  {
    hide And, Matches, Nested, Before, LinearScan;
    var i := LinearScan(t, dest, 0).index;
    forall j | 0 <= j < |t| && Matches(t[j], dest)
      ensures t[j].mask <= t[i].mask
    {
      if i < j {
        EarlierIsLonger(t[i], t[j], dest);
      }
    }
  }

  /** The search returns the longest match whenever the first entry with a prefix not above
      the destination matches. */
  lemma FirstEntryWins(t: Table, dest: Word32)
    requires Sorted(t) && PrefixTable(t)
    ensures var f := FirstAtOrBelow(t, dest, 0);
            0 < f < |t| && Matches(t[f], dest) ==> BestRoute(t, dest) == Found(f) && IsLongestMatch(t, dest, f)
  {
    hide And, Matches, AtOrBelow, IsPrefixRoute, Before, Search, FirstAtOrBelow, LinearScan;
    var f := FirstAtOrBelow(t, dest, 0);
    if 0 < f < |t| && Matches(t[f], dest) {
      SortedSeparates(t, dest);
      ProbesFirst(t, dest, f, 0, |t| - 1, -1);
      forall j | 0 <= j < f
        ensures !Matches(t[j], dest)
      {
        if Matches(t[j], dest) {
          MatchIsAtOrBelow(t[j], dest);
        }
      }
      ScanUnique(t, dest, f);
      PrefixTableNested(t);
      FirstMatchIsLongest(t, dest);
    }
  }

  /** The prefix of `a` lies in the block of `b`. */
  predicate Inside(a: Route, b: Route) {
    And(a.prefix, b.mask) == b.prefix
  }

  /** No entry's prefix lies in another entry's block. */
  ghost predicate Disjoint(t: Table) {
    forall i, j :: 0 <= i < |t| && 0 <= j < |t| && i != j ==> !Inside(t[i], t[j])
  }

  /** An entry between a block's prefix and one of its members lies in the block. */
  lemma BetweenIsInside(a: Route, b: Route, dest: Word32)
    requires Before(a, b) && IsPrefixRoute(b) && Matches(b, dest) && a.prefix <= dest
    ensures Inside(a, b)
  {
    hide And, OnesThenZeros;
    Width32(a.prefix);
    Width32(dest);
    MaskMonotone(b.prefix, a.prefix, b.mask, 32);
    MaskMonotone(a.prefix, dest, b.mask, 32);
  }

  /** On non-overlapping prefixes the search is a linear longest-prefix scan for every
      destination below the first prefix, and runs out of the table for all others. */
  lemma DisjointSearch(t: Table, dest: Word32)
    requires Sorted(t) && PrefixTable(t) && Disjoint(t)
    ensures BestRoute(t, dest) == if |t| == 0 || t[0].prefix <= dest then OutOfBounds else LinearScan(t, dest, 0)
    ensures BestRoute(t, dest).Found? ==> IsLongestMatch(t, dest, BestRoute(t, dest).index)
  {
    hide And, Matches, AtOrBelow, IsPrefixRoute, Before, Inside, Search, FirstAtOrBelow, LinearScan;
    var f := FirstAtOrBelow(t, dest, 0);
    SortedSeparates(t, dest);
    forall j | f < j < |t|
      ensures !Matches(t[j], dest)
    {
      if Matches(t[j], dest) {
        BetweenIsInside(t[f], t[j], dest);
        assert false;
      }
    }
    SearchIsScan(t, dest, f);
    if LinearScan(t, dest, 0).Found? {
      PrefixTableNested(t);
      FirstMatchIsLongest(t, dest);
    }
  }

  /** With one mask for all entries, contiguous or not, the same holds of the masked destination. */
  lemma UniformSearch(t: Table, dest: Word32, mask: Word32)
    requires Sorted(t) && forall i :: 0 <= i < |t| ==> t[i].mask == mask
    ensures BestRoute(t, dest) ==
            if |t| == 0 || t[0].prefix <= And(dest, mask) then OutOfBounds else LinearScan(t, dest, 0)
  {
    hide And, Search, FirstAtOrBelow, LinearScan;
    var masked := And(dest, mask);
    var f := FirstAtOrBelow(t, masked, 0);
    forall i | 0 <= i < |t|
      ensures AtOrBelow(t[i], dest) <==> f <= i
    {
      SortedSplit(t, masked, i);
    }
    forall j | f < j < |t| && Matches(t[j], dest)
      ensures Matches(t[f], dest)
    {
      assert Before(t[f], t[j]);
    }
    SearchIsScan(t, dest, f);
  }

  // ----- nested prefixes -----

  lemma {:induction false} ProbesAreOnPath(t: Table, dest: Word32, f: nat, left: Word32, right: Word32, j: int)
    requires Separates(t, dest, f) && 0 < f && right < |t|
    ensures Probes(t, dest, left, right, j) <==> OnPath(f, left, right, j)
    decreases right - left + 1
  {
    hide AtOrBelow;
    if left <= right {
      var mid := left + (right - left) / 2;
      if mid < f {
        ProbesAreOnPath(t, dest, f, mid + 1, right, j);
      } else {
        ProbesAreOnPath(t, dest, f, left, mid - 1, j);
      }
    }
  }

  lemma {:induction false} ProbedWithin(t: Table, dest: Word32, left: Word32, right: Word32)
    requires right < |t|
    ensures forall j :: Probes(t, dest, left, right, j) ==> left <= j <= right
    decreases right - left + 1
  {
    hide AtOrBelow;
    if left <= right {
      var mid := left + (right - left) / 2;
      ProbedWithin(t, dest, mid + 1, right);
      if mid > 0 {
        ProbedWithin(t, dest, left, mid - 1);
      }
    }
  }

  /** What the search on the entries from `left` to `right` comes to: the smallest probed match, or
      what was found before. */
  ghost predicate SmallestProbed(t: Table, dest: Word32, left: Word32, right: Word32, best: int, r: Lookup)
    requires right < |t| && best >= -1
  {
    if r.Found? && Probes(t, dest, left, right, r.index) then
      && r.index < |t| && Matches(t[r.index], dest)
      && forall j :: 0 <= j < r.index && Probes(t, dest, left, right, j) ==> !Matches(t[j], dest)
    else
      && r == (if best == -1 then Nothing else Found(best))
      && forall j :: 0 <= j < |t| && Probes(t, dest, left, right, j) ==> !Matches(t[j], dest)
  }

  lemma ProbesOnce(t: Table, dest: Word32, left: Word32, right: Word32, j: int)
    requires left <= right < |t|
    ensures var mid := left + (right - left) / 2;
            Probes(t, dest, left, right, j) <==>
            j == mid || if !AtOrBelow(t[mid], dest) then Probes(t, dest, mid + 1, right, j)
                        else mid > 0 && Probes(t, dest, left, mid - 1, j)
  {
    hide AtOrBelow;
  }

  /** From the part of the table that the search goes on with, to the whole. */
  lemma SmallestOfWhole(t: Table, dest: Word32, left: Word32, right: Word32, mid: nat, best: int,
                        low: Word32, high: Word32, best': int, r: Lookup)
    requires mid <= right < |t| && high < |t| && best >= -1
    requires forall j :: Probes(t, dest, left, right, j) <==> j == mid || Probes(t, dest, low, high, j)
    requires forall j :: Probes(t, dest, low, high, j) ==> j <= high
    requires best > right || best == -1
    requires if Matches(t[mid], dest) then best' == mid && high < mid else best' == best && high <= right
    requires SmallestProbed(t, dest, low, high, best', r)
    ensures SmallestProbed(t, dest, left, right, best, r)
  {
    hide Matches, AtOrBelow, Probes;
  }

  /** Whenever an entry matches, the search goes on below it.  So on any table, if it does not leave
      it, it finds the smallest probed match. */
  lemma {:induction false} FindsSmallestProbed(
      t: Table, dest: Word32, left: Word32, right: Word32, best: int)
    requires -1 <= best < |t| && right < |t| && (best > right || best == -1)
    requires Search(t, dest, left, right, best) != OutOfBounds
    ensures SmallestProbed(t, dest, left, right, best, Search(t, dest, left, right, best))
    decreases right - left + 1
  {
    hide Matches, AtOrBelow, Search, Probes, SmallestProbed;
    if left > right {
      SearchDone(t, dest, left, right, best);
      NothingProbed(t, dest, left, right, best);
      return;
    }
    var mid := left + (right - left) / 2;
    SearchOnce(t, dest, left, right, best);
    if Matches(t[mid], dest) {
      MatchIsAtOrBelow(t[mid], dest);
    }
    var best' := if Matches(t[mid], dest) then mid else best;
    if AtOrBelow(t[mid], dest) && mid == 0 {
      SearchOnce(t, dest, 0, UINT_MAX, best');
      assert false;
    } else {
      var goesLeft := AtOrBelow(t[mid], dest);
      var low, high := if goesLeft then left else mid + 1, if goesLeft then mid - 1 else right;
      FindsSmallestProbed(t, dest, low, high, best');
      ProbedWithin(t, dest, low, high);
      forall j
        ensures Probes(t, dest, left, right, j) <==> j == mid || Probes(t, dest, low, high, j)
      {
        ProbesOnce(t, dest, left, right, j);
      }
      SmallestOfWhole(t, dest, left, right, mid, best, low, high, best', Search(t, dest, low, high, best'));
    }
  }

  lemma NothingProbed(t: Table, dest: Word32, left: Word32, right: Word32, best: int)
    requires right < |t| && right < left && best >= -1
    ensures SmallestProbed(t, dest, left, right, best, if best == -1 then Nothing else Found(best))
  {
    hide Matches;
  }

  /** On any sorted table with nested masks that it does not leave, the search is longest-prefix
      match if and only if it probes a longest match, and finds nothing if and only if it probes no
      match. */
  lemma LongestIfProbed(t: Table, dest: Word32)
    requires Sorted(t) && NestedMasks(t) && BestRoute(t, dest) != OutOfBounds
    ensures |t| > 0
    ensures var r, last := BestRoute(t, dest), |t| - 1;
            && (r.Found? && IsLongestMatch(t, dest, r.index) <==>
                exists j: nat :: IsLongestMatch(t, dest, j) && Probes(t, dest, 0, last, j))
            && (r == Nothing <==> forall j :: 0 <= j < |t| && Probes(t, dest, 0, last, j) ==> !Matches(t[j], dest))
  {
    hide And, Matches, AtOrBelow, Before, Search, Probes, Nested;
    if |t| == 0 {
      EmptySearch(t, dest);
    } else {
      var r, last := BestRoute(t, dest), |t| - 1;
      FindsSmallestProbed(t, dest, 0, last, -1);
      forall j: nat | IsLongestMatch(t, dest, j) && Probes(t, dest, 0, last, j)
        ensures r.Found? && IsLongestMatch(t, dest, r.index)
      {
        if r.index < j {
          EarlierIsLonger(t[r.index], t[j], dest);
        }
      }
      if r.Found? && IsLongestMatch(t, dest, r.index) {
        assert Probes(t, dest, 0, last, r.index);
      }
    }
  }

  /** Where the masks are ones followed by zeros, what is probed is a matter of positions alone: for
      any destination below the first prefix, the search is longest-prefix match if and only if a
      longest match lies at a midpoint of the binary search for the first prefix not above the
      destination.  It finds nothing if and only if no entry there matches; in particular when no
      entry matches at all. */
  lemma LongestExact(t: Table, dest: Word32)
    requires Sorted(t) && PrefixTable(t) && |t| > 0 && t[0].prefix > dest
    ensures var r, f, last := BestRoute(t, dest), FirstAtOrBelow(t, dest, 0), |t| - 1;
            && (r.Found? && IsLongestMatch(t, dest, r.index) <==>
                exists j: nat :: IsLongestMatch(t, dest, j) && OnPath(f, 0, last, j))
            && (r == Nothing <==> forall j :: 0 <= j < |t| && OnPath(f, 0, last, j) ==> !Matches(t[j], dest))
            && ((forall j :: 0 <= j < |t| ==> !Matches(t[j], dest)) ==> r == Nothing)
  {
    hide And, Matches, AtOrBelow, IsPrefixRoute, Before, Search, FirstAtOrBelow, Probes, OnPath, Nested;
    hide IsLongestMatch, NestedMasks, Sorted;
    var f, last := FirstAtOrBelow(t, dest, 0), |t| - 1;
    PrefixTableNested(t);
    OutOfBoundsExactly(t, dest);
    LongestIfProbed(t, dest);
    SortedSeparates(t, dest);
    forall j: int
      ensures Probes(t, dest, 0, last, j) <==> OnPath(f, 0, last, j)
    {
      ProbesAreOnPath(t, dest, f, 0, last, j);
    }
  }

  lemma {:induction false} NoOnes(width: nat)
    ensures OnesThenZeros(0, width)
  {
    if width > 0 {
      NoOnes(width - 1);
    }
  }

  lemma AllOnes(x: Word32)
    ensures Contiguous(UINT_MAX) && And(x, UINT_MAX) == x
  {
    Width32(x);
    AndAllOnes(x, 32);
  }

  /** The search is not longest-prefix match on nested prefixes: a default route matches every
      destination, but the host route 1 before it sends the search for 2 past it. */
  lemma DefaultRouteMissed(hop: Ip4)
    ensures exists t: Table :: Sorted(t) && PrefixTable(t) && IsLongestMatch(t, 2, 2) && BestRoute(t, 2) == Nothing
  {
    var t: Table := [Route(3, hop, UINT_MAX, 0), Route(1, hop, UINT_MAX, 1), Route(0, hop, 0, 2)];
    NoOnes(32);
    AllOnes(1);
    AllOnes(2);
    AllOnes(3);
    assert PrefixTable(t);
    assert Search(t, 2, 1, 0, -1) == Nothing;
    assert Search(t, 2, 0, 0, -1) == Search(t, 2, 1, 0, -1);
    assert Search(t, 2, 0, 2, -1) == Search(t, 2, 0, 0, -1);
    assert IsLongestMatch(t, 2, 2);
  }

  // ----- the comparator -----

  /** The difference of two `unsigned int`s, converted to `int`. */
  function DifferenceAsInt(b: Word32, a: Word32): int {
    var d := if b >= a then b - a else b + (UINT_MAX + 1) - a;
    if d <= 0x7FFF_FFFF then d else d - (UINT_MAX + 1)
  }

  /** `lpm_comparator`; `qsort` puts `a` before `b` when the result is negative. */
  function LpmComparator(a: Route, b: Route): int {
    if a.prefix == b.prefix then DifferenceAsInt(b.mask, a.mask) else DifferenceAsInt(b.prefix, a.prefix)
  }

  /** The true difference is in the range of an `int`. */
  predicate DifferenceFits(b: Word32, a: Word32) {
    -0x8000_0000 <= b - a <= 0x7FFF_FFFF
  }

  /** The difference that the comparator takes of two entries fits an `int`. */
  predicate Comparable(a: Route, b: Route) {
    if a.prefix == b.prefix then DifferenceFits(b.mask, a.mask) else DifferenceFits(b.prefix, a.prefix)
  }

  /** The comparator orders two entries as intended exactly when the difference it computes fits an `int`. */
  lemma ComparatorExact(a: Route, b: Route)
    ensures (LpmComparator(a, b) <= 0 <==> Before(a, b)) <==> Comparable(a, b)
  {
  }

  /** A table that `qsort` leaves in comparator order is in the intended order if and only if no
      difference taken between its entries overflows. */
  lemma ComparatorSorts(t: Table)
    requires forall i, j :: 0 <= i < j < |t| ==> LpmComparator(t[i], t[j]) <= 0
    ensures Sorted(t) <==> forall i, j :: 0 <= i < j < |t| ==> Comparable(t[i], t[j])
  {
    hide LpmComparator, Comparable, Before;
    forall i, j | 0 <= i < j < |t|
      ensures Before(t[i], t[j]) <==> Comparable(t[i], t[j])
    {
      ComparatorExact(t[i], t[j]);
    }
  }

  /** Otherwise there may be no order at all: these three entries each have to come before the next. */
  lemma ComparatorCycle(a: Route, b: Route, c: Route)
    requires a.prefix == 0 && b.prefix == 0xAAAA_AAAA && c.prefix == 0x5555_5555
    ensures LpmComparator(a, b) < 0 && LpmComparator(b, c) < 0 && LpmComparator(c, a) < 0
  {
  }
}
