/** qsort: median-of-three quicksort on an explicit stack of 40 slots, with insertion
    sort for seven elements or fewer. */
module QSort {
  import opened Bits

  const THRESH: nat := 7
  const STACKSIZE: nat := 40

  // ---- the order ----

  ghost predicate Leq<T>(cmp: (T, T) -> int, x: T, y: T) {
    cmp(x, y) <= 0
  }

  /** A comparison function: its sign is antisymmetric and "not greater" is transitive. */
  ghost predicate TotalPreorder<T(!new)>(cmp: (T, T) -> int) {
    && (forall x, y :: cmp(x, y) > 0 <==> cmp(y, x) < 0)
    && (forall x, y, z :: Leq(cmp, x, y) && Leq(cmp, y, z) ==> Leq(cmp, x, z))
  }

  ghost predicate SortedBetween<T>(cmp: (T, T) -> int, s: seq<T>, lo: nat, hi: nat)
    requires lo <= hi <= |s|
  {
    forall x, y | lo <= x < y < hi :: Leq(cmp, s[x], s[y])
  }

  // ---- permuting part of an array ----

  /** `t` is `s` with the elements from lo to hi - 1 rearranged. */
  ghost predicate Permuted<T>(s: seq<T>, t: seq<T>, lo: nat, hi: nat) {
    && |s| == |t| && lo <= hi <= |s|
    && s[..lo] == t[..lo] && s[hi..] == t[hi..]
    && multiset(s[lo..hi]) == multiset(t[lo..hi])
  }

  function Swap<T>(s: seq<T>, i: nat, j: nat): (t: seq<T>)
    requires i < |s| && j < |s|
    ensures |t| == |s| && t[i] == s[j] && t[j] == s[i]
    ensures forall k | 0 <= k < |s| && k != i && k != j :: t[k] == s[k]
  {
    s[i := s[j]][j := s[i]]
  }

  lemma SwapPermuted<T>(s: seq<T>, i: nat, j: nat, lo: nat, hi: nat)
    requires lo <= i < hi <= |s| && lo <= j < hi
    ensures Permuted(s, Swap(s, i, j), lo, hi)
  {
    var t, u := Swap(s, i, j), s[lo..hi];
    assert t[lo..hi] == u[i - lo := u[j - lo]][j - lo := u[i - lo]];
    assert t[..lo] == s[..lo] && t[hi..] == s[hi..];
  }

  /** Every element of a rearranged part was in that part before. */
  lemma ComesFrom<T>(s: seq<T>, t: seq<T>, lo: nat, hi: nat, x: nat) returns (y: nat)
    requires Permuted(s, t, lo, hi) && lo <= x < hi
    ensures lo <= y < hi && t[x] == s[y]
  {
    assert t[x] == t[lo..hi][x - lo];
    assert t[x] in multiset(t[lo..hi]);
    assert t[x] in s[lo..hi];
    var k :| 0 <= k < hi - lo && s[lo..hi][k] == t[x];
    y := lo + k;
  }

  lemma Elsewhere<T>(s: seq<T>, t: seq<T>, lo: nat, hi: nat, x: nat)
    requires Permuted(s, t, lo, hi) && x < |s| && !(lo <= x < hi)
    ensures t[x] == s[x]
  {
    if x < lo {
      assert s[..lo][x] == t[..lo][x];
    } else {
      assert s[hi..][x - hi] == t[hi..][x - hi];
    }
  }

  /** Rearranging a part rearranges the whole. */
  lemma PermutedAll<T>(s: seq<T>, t: seq<T>, lo: nat, hi: nat)
    requires Permuted(s, t, lo, hi)
    ensures multiset(s) == multiset(t)
  {
    assert s == s[..lo] + s[lo..hi] + s[hi..];
    assert t == t[..lo] + t[lo..hi] + t[hi..];
  }

  // ---- what is left to sort ----

  datatype Part = Part(lo: nat, hi: nat)

  ghost predicate Covers(parts: seq<Part>, x: nat, y: nat) {
    exists k :: 0 <= k < |parts| && parts[k].lo <= x && y < parts[k].hi
  }

  /** Any two elements are in order unless some part still holds both. */
  ghost predicate Ordered<T>(cmp: (T, T) -> int, s: seq<T>, parts: seq<Part>) {
    forall x, y | 0 <= x < y < |s| && !Covers(parts, x, y) :: Leq(cmp, s[x], s[y])
  }

  ghost predicate Apart(parts: seq<Part>, lo: nat, hi: nat) {
    forall k | 0 <= k < |parts| :: parts[k].hi <= lo || hi <= parts[k].lo
  }

  /** Within lo..hi everything is in order unless one of `parts` holds both elements. */
  ghost predicate InnerOrdered<T>(cmp: (T, T) -> int, s: seq<T>, lo: nat, hi: nat, parts: seq<Part>)
    requires lo <= hi <= |s|
  {
    forall x, y | lo <= x < y < hi && !Covers(parts, x, y) :: Leq(cmp, s[x], s[y])
  }

  /** Work inside one part replaces that part by what it leaves unsorted. */
  lemma OrderedStep<T(!new)>(cmp: (T, T) -> int, s: seq<T>, t: seq<T>, rest: seq<Part>, lo: nat, hi: nat, inner: seq<Part>)
    requires Ordered(cmp, s, rest + [Part(lo, hi)]) && Permuted(s, t, lo, hi)
    requires Apart(rest, lo, hi) && InnerOrdered(cmp, t, lo, hi, inner)
    ensures Ordered(cmp, t, rest + inner)
  {
    forall x, y | 0 <= x < y < |t| && !Covers(rest + inner, x, y) ensures Leq(cmp, t[x], t[y]) {
      CoversSplit(rest, inner, x, y);
      if lo <= x < hi && lo <= y < hi {
      } else {
        OrderedOutside(cmp, s, t, rest, lo, hi, x, y);
      }
    }
  }

  lemma CoversSplit(p: seq<Part>, q: seq<Part>, x: nat, y: nat)
    ensures Covers(p + q, x, y) <==> Covers(p, x, y) || Covers(q, x, y)
  {
    if Covers(p, x, y) {
      var k :| 0 <= k < |p| && p[k].lo <= x && y < p[k].hi;
      assert (p + q)[k] == p[k];
    }
    if Covers(q, x, y) {
      var k :| 0 <= k < |q| && q[k].lo <= x && y < q[k].hi;
      assert (p + q)[|p| + k] == q[k];
    }
  }

  lemma OrderedOutside<T(!new)>(cmp: (T, T) -> int, s: seq<T>, t: seq<T>, rest: seq<Part>, lo: nat, hi: nat, x: nat, y: nat)
    requires Ordered(cmp, s, rest + [Part(lo, hi)]) && Permuted(s, t, lo, hi) && Apart(rest, lo, hi)
    requires x < y < |t| && !Covers(rest, x, y) && !(lo <= x < hi && lo <= y < hi)
    ensures Leq(cmp, t[x], t[y])
  {
    var x', y' := x, y;
    if lo <= x < hi {
      x' := ComesFrom(s, t, lo, hi, x);
      Elsewhere(s, t, lo, hi, y);
    } else if lo <= y < hi {
      y' := ComesFrom(s, t, lo, hi, y);
      Elsewhere(s, t, lo, hi, x);
    } else {
      Elsewhere(s, t, lo, hi, x);
      Elsewhere(s, t, lo, hi, y);
    }
    CoversSplit(rest, [Part(lo, hi)], x', y');
    assert !Covers([Part(lo, hi)], x', y');
    assert !Covers(rest, x', y');
  }

  // ---- the pieces of qsort ----

  lemma PermutedTrans<T>(s: seq<T>, t: seq<T>, u: seq<T>, lo: nat, hi: nat)
    requires Permuted(s, t, lo, hi) && Permuted(t, u, lo, hi)
    ensures Permuted(s, u, lo, hi)
  {
  }

  /** Swap two elements of the part lo..hi; `o` is the array as it was at the start. */
  method Memswp<T>(a: array<T>, i: nat, j: nat, ghost o: seq<T>, ghost lo: nat, ghost hi: nat)
    requires lo <= i < hi <= a.Length && lo <= j < hi && Permuted(o, a[..], lo, hi)
    modifies a
    ensures a[..] == Swap(old(a[..]), i, j) && Permuted(o, a[..], lo, hi)
  {
    ghost var s := a[..];
    SwapPermuted(s, i, j, lo, hi);
    PermutedTrans(o, s, Swap(s, i, j), lo, hi);
    var ch := a[i];
    a[i] := a[j];
    a[j] := ch;
    assert a[..] == Swap(s, i, j);
  }

  function PairOrdered<T>(cmp: (T, T) -> int, s: seq<T>, i: nat, j: nat): (t: seq<T>)
    requires i < |s| && j < |s|
    ensures |t| == |s|
  {
    if cmp(s[i], s[j]) > 0 then Swap(s, i, j) else s
  }

  /** if (compar(i, j) > 0) swap them. */
  method OrderPair<T(!new)>(a: array<T>, cmp: (T, T) -> int, i: nat, j: nat, ghost o: seq<T>, ghost lo: nat, ghost hi: nat)
    requires lo <= i < hi <= a.Length && lo <= j < hi && Permuted(o, a[..], lo, hi)
    modifies a
    ensures Permuted(o, a[..], lo, hi) && a[..] == PairOrdered(cmp, old(a[..]), i, j)
  {
    if cmp(a[i], a[j]) > 0 {
      Memswp(a, i, j, o, lo, hi);
    }
  }

  /** In order from base to hi - 1, except that the element at `e` may be too far right. */
  ghost predicate OrderedBut<T>(cmp: (T, T) -> int, s: seq<T>, base: nat, hi: nat, e: nat)
    requires base <= hi <= |s|
  {
    forall x, y | base <= x < y < hi && y != e :: Leq(cmp, s[x], s[y])
  }

  lemma OrderedButStep<T(!new)>(cmp: (T, T) -> int, s: seq<T>, base: nat, hi: nat, j: nat)
    requires TotalPreorder(cmp) && base <= j && j + 1 < hi <= |s|
    requires OrderedBut(cmp, s, base, hi, j + 1) && cmp(s[j], s[j + 1]) > 0
    ensures OrderedBut(cmp, Swap(s, j, j + 1), base, hi, j)
  {
    var t := Swap(s, j, j + 1);
    forall x, y | base <= x < y < hi && y != j ensures Leq(cmp, t[x], t[y]) {
      if y == j + 1 {
        assert x < j ==> Leq(cmp, s[x], s[j]);
        assert cmp(s[j + 1], s[j]) < 0;
      } else if y > j + 1 {
        assert Leq(cmp, s[j], s[y]) && Leq(cmp, s[j + 1], s[y]) && Leq(cmp, s[x], s[y]);
      }
    }
  }

  lemma OrderedButDone<T(!new)>(cmp: (T, T) -> int, s: seq<T>, base: nat, hi: nat, j: nat)
    requires TotalPreorder(cmp) && base <= j && j + 1 < hi <= |s|
    requires OrderedBut(cmp, s, base, hi, j + 1) && cmp(s[j], s[j + 1]) <= 0
    ensures SortedBetween(cmp, s, base, hi)
  {
    forall x | base <= x < j + 1 ensures Leq(cmp, s[x], s[j + 1]) {
      assert Leq(cmp, s[j], s[j + 1]);
      assert x < j ==> Leq(cmp, s[x], s[j]);
    }
  }

  /** One step of the insertion: swap an element with its smaller successor. */
  method InsertStep<T(!new)>(a: array<T>, cmp: (T, T) -> int, base: nat, j: nat, hi: nat, ghost o: seq<T>, ghost limit: nat)
    requires TotalPreorder(cmp) && base <= j && j + 1 < hi <= limit <= a.Length && Permuted(o, a[..], base, limit)
    requires OrderedBut(cmp, a[..], base, hi, j + 1) && cmp(a[j], a[j + 1]) > 0
    modifies a
    ensures Permuted(o, a[..], base, limit) && OrderedBut(cmp, a[..], base, hi, j)
  {
    OrderedButStep(cmp, a[..], base, hi, j);
    Memswp(a, j, j + 1, o, base, limit);
  }

  /** Move the element after `j0` down to its place. */
  method InsertOne<T(!new)>(a: array<T>, cmp: (T, T) -> int, base: nat, j0: nat, ghost o: seq<T>, ghost limit: nat)
    requires TotalPreorder(cmp) && base <= j0 && j0 + 2 <= limit <= a.Length && Permuted(o, a[..], base, limit)
    requires SortedBetween(cmp, a[..], base, j0 + 1)
    modifies a
    ensures Permuted(o, a[..], base, limit) && SortedBetween(cmp, a[..], base, j0 + 2)
  {
    var j := j0;
    while cmp(a[j], a[j + 1]) > 0
      invariant base <= j <= j0
      invariant Permuted(o, a[..], base, limit) && OrderedBut(cmp, a[..], base, j0 + 2, j + 1)
      decreases j
    {
      InsertStep(a, cmp, base, j, j0 + 2, o, limit);
      if j == base {
        return;
      }
      j := j - 1;
    }
    OrderedButDone(cmp, a[..], base, j0 + 2, j);
  }

  /** Insertion sort for short parts. */
  method InsertionSort<T(!new)>(a: array<T>, cmp: (T, T) -> int, base: nat, limit: nat)
    requires TotalPreorder(cmp) && base <= limit <= a.Length
    modifies a
    ensures Permuted(old(a[..]), a[..], base, limit) && SortedBetween(cmp, a[..], base, limit)
  {
    ghost var o := a[..];
    var j, i := base, base + 1;
    while i < limit
      invariant j == i - 1 && base <= j && (i <= limit || j == base == limit)
      invariant Permuted(o, a[..], base, limit) && SortedBetween(cmp, a[..], base, if i <= limit then i else limit)
    {
      InsertOne(a, cmp, base, j, o, limit);
      j := i;
      i := i + 1;
    }
  }

  /** Bring the median of first, middle and last to the front, with a smaller or equal
      element second and a larger or equal one last. */
  method MedianOfThree<T(!new)>(a: array<T>, cmp: (T, T) -> int, base: nat, limit: nat)
    requires TotalPreorder(cmp) && base + THRESH < limit <= a.Length
    modifies a
    ensures Permuted(old(a[..]), a[..], base, limit)
    ensures Leq(cmp, a[base + 1], a[base]) && Leq(cmp, a[base], a[limit - 1])
  {
    ghost var o := a[..];
    var i, j := base + 1, limit - 1;
    Memswp(a, (limit - base) / 2 + base, base, o, base, limit);
    ghost var s := a[..];
    OrderPair(a, cmp, i, j, o, base, limit);
    OrderPair(a, cmp, base, j, o, base, limit);
    OrderPair(a, cmp, i, base, o, base, limit);
    MedianFirst(cmp, s, base, i, j);
  }

  /** What the three comparisons of the median of three achieve. */
  lemma MedianFirst<T(!new)>(cmp: (T, T) -> int, s: seq<T>, b: nat, i: nat, j: nat)
    requires TotalPreorder(cmp) && b < i < j < |s|
    ensures var t := PairOrdered(cmp, PairOrdered(cmp, PairOrdered(cmp, s, i, j), b, j), i, b);
      Leq(cmp, t[i], t[b]) && Leq(cmp, t[b], t[j])
  {
    var s1 := PairOrdered(cmp, s, i, j);
    assert Leq(cmp, s1[i], s1[j]);
    var s2 := PairOrdered(cmp, s1, b, j);
    LargestLast(cmp, s1, s2, b, i, j);
  }

  /** After the second comparison the last element is the largest of the three. */
  lemma LargestLast<T(!new)>(cmp: (T, T) -> int, s: seq<T>, t: seq<T>, b: nat, i: nat, j: nat)
    requires TotalPreorder(cmp) && b < i < j < |s| && Leq(cmp, s[i], s[j]) && t == PairOrdered(cmp, s, b, j)
    ensures Leq(cmp, t[b], t[j]) && Leq(cmp, t[i], t[j])
  {
    if cmp(s[b], s[j]) > 0 {
      assert cmp(s[j], s[b]) < 0;
      assert Leq(cmp, s[j], s[b]);
    }
  }

  ghost predicate AllBelow<T>(cmp: (T, T) -> int, s: seq<T>, lo: nat, hi: nat, p: T)
    requires hi <= |s|
  {
    forall x | lo <= x < hi :: Leq(cmp, s[x], p)
  }

  ghost predicate AllAbove<T>(cmp: (T, T) -> int, s: seq<T>, lo: nat, hi: nat, p: T)
    requires hi <= |s|
  {
    forall x | lo <= x < hi :: Leq(cmp, p, s[x])
  }

  /** Move right from i to the first element that is not less than the pivot.  There is
      no bounds test: an element at `stop` is known not to be less. */
  method ScanRight<T(!new)>(a: array<T>, cmp: (T, T) -> int, base: nat, i0: nat, ghost stop: nat) returns (i: nat)
    requires TotalPreorder(cmp) && base <= i0 < stop < a.Length && Leq(cmp, a[base], a[stop])
    requires AllBelow(cmp, a[..], base + 1, i0 + 1, a[base])
    ensures i0 < i <= stop && Leq(cmp, a[base], a[i]) && AllBelow(cmp, a[..], base + 1, i, a[base])
  {
    i := i0 + 1;
    while cmp(a[i], a[base]) < 0
      invariant i0 < i <= stop && AllBelow(cmp, a[..], base + 1, i, a[base])
      decreases stop - i
    {
      assert cmp(a[base], a[i]) > 0;
      i := i + 1;
    }
  }

  /** Move left from j to the first element that is not greater than the pivot. */
  method ScanLeft<T(!new)>(a: array<T>, cmp: (T, T) -> int, base: nat, j0: nat, limit: nat, ghost stop: nat) returns (j: nat)
    requires TotalPreorder(cmp) && base < stop < j0 < limit <= a.Length && Leq(cmp, a[stop], a[base])
    requires AllAbove(cmp, a[..], j0, limit, a[base])
    ensures stop <= j < j0 && Leq(cmp, a[j], a[base]) && AllAbove(cmp, a[..], j + 1, limit, a[base])
  {
    j := j0 - 1;
    while cmp(a[j], a[base]) > 0
      invariant stop <= j < j0 && AllAbove(cmp, a[..], j + 1, limit, a[base])
      decreases j
    {
      assert cmp(a[base], a[j]) < 0;
      j := j - 1;
    }
  }

  /** Exchanging the two elements where the scans stopped extends both sides. */
  lemma Exchange<T(!new)>(cmp: (T, T) -> int, s: seq<T>, base: nat, limit: nat, i: nat, j: nat)
    requires base < i <= j < limit <= |s| && Leq(cmp, s[j], s[base]) && Leq(cmp, s[base], s[i])
    requires AllBelow(cmp, s, base + 1, i, s[base]) && AllAbove(cmp, s, j + 1, limit, s[base])
    ensures var t := Swap(s, i, j);
      t[base] == s[base] && AllBelow(cmp, t, base + 1, i + 1, s[base]) && AllAbove(cmp, t, j, limit, s[base])
  {
  }

  /** The scan from both ends, with exchanges, until the positions cross. */
  method Scan<T(!new)>(a: array<T>, cmp: (T, T) -> int, base: nat, limit: nat, ghost o: seq<T>) returns (i: nat, j: nat)
    requires TotalPreorder(cmp) && base + THRESH < limit <= a.Length && Permuted(o, a[..], base, limit)
    requires Leq(cmp, a[base + 1], a[base]) && Leq(cmp, a[base], a[limit - 1])
    modifies a
    ensures base < j < i < limit && Permuted(o, a[..], base, limit)
    ensures AllBelow(cmp, a[..], base + 1, i, a[base]) && AllAbove(cmp, a[..], j + 1, limit, a[base])
  {
    i, j := base + 1, limit - 1;
    while true
      invariant base < i <= j < limit && (i < j || (base + 1 < i && j < limit - 1))
      invariant Permuted(o, a[..], base, limit)
      invariant AllBelow(cmp, a[..], base + 1, i + 1, a[base]) && AllAbove(cmp, a[..], j, limit, a[base])
      decreases j - i
    {
      ghost var upTo, downTo := if i < j then j else j + 1, if i < j then i else i - 1;
      i := ScanRight(a, cmp, base, i, upTo);
      j := ScanLeft(a, cmp, base, j, limit, downTo);
      if i > j {
        break;
      }
      Exchange(cmp, a[..], base, limit, i, j);
      Memswp(a, i, j, o, base, limit);
    }
  }

  /** Split a part around its pivot: everything before i is at most the pivot and
      everything from j on at least, with j < i. */
  method Partition<T(!new)>(a: array<T>, cmp: (T, T) -> int, base: nat, limit: nat) returns (i: nat, j: nat)
    requires TotalPreorder(cmp) && base + THRESH < limit <= a.Length
    modifies a
    ensures Permuted(old(a[..]), a[..], base, limit)
    ensures base < j < i < limit
    ensures InnerOrdered(cmp, a[..], base, limit, [Part(base, j), Part(i, limit)])
  {
    ghost var o := a[..];
    MedianOfThree(a, cmp, base, limit);
    i, j := Scan(a, cmp, base, limit, o);
    SplitOrdered(cmp, a[..], base, limit, i, j);
    Memswp(a, base, j, o, base, limit);
  }

  lemma SplitOrdered<T(!new)>(cmp: (T, T) -> int, s: seq<T>, base: nat, limit: nat, i: nat, j: nat)
    requires TotalPreorder(cmp) && base < j < i < limit <= |s|
    requires AllBelow(cmp, s, base + 1, i, s[base]) && AllAbove(cmp, s, j + 1, limit, s[base])
    ensures InnerOrdered(cmp, Swap(s, base, j), base, limit, [Part(base, j), Part(i, limit)])
  {
    var t, p, parts := Swap(s, base, j), s[base], [Part(base, j), Part(i, limit)];
    assert cmp(p, p) == 0;
    forall x, y | base <= x < y < limit && !Covers(parts, x, y) ensures Leq(cmp, t[x], t[y]) {
      assert parts[0] == Part(base, j) && parts[1] == Part(i, limit);
      assert Leq(cmp, t[x], p) && Leq(cmp, p, t[y]);
    }
  }

  // ---- qsort itself ----

  /** A part with `depth` parts below it on the stack has at most Room(depth) - 2 elements. */
  function Room(depth: nat): nat
    requires depth <= 20
  {
    9 * Pow2(20 - depth)
  }

  lemma RoomHalves(depth: nat)
    requires depth < 20
    ensures Room(depth) == 2 * Room(depth + 1)
  {
    assert Pow2(20 - depth) == 2 * Pow2(19 - depth);
  }

  function Size(p: Part): int {
    p.hi - p.lo
  }

  function TotalSize(parts: seq<Part>): int {
    if parts == [] then 0 else TotalSize(parts[..|parts| - 1]) + Size(parts[|parts| - 1])
  }

  ghost predicate PartOk(p: Part, depth: nat, n: nat) {
    p.lo <= p.hi <= n && depth <= 20 && Size(p) + 2 <= Room(depth)
  }

  /** Unsorted parts, the one being sorted last: in range, apart from each other, and
      smaller the deeper they are. */
  ghost predicate Pending(parts: seq<Part>, n: nat) {
    && |parts| <= 21
    && (forall k | 0 <= k < |parts| :: PartOk(parts[k], k, n))
    && (forall k | 0 <= k < |parts| :: Apart(parts[..k], parts[k].lo, parts[k].hi))
  }

  lemma PendingPrefix(parts: seq<Part>, p: Part, n: nat)
    requires Pending(parts + [p], n)
    ensures Pending(parts, n) && Apart(parts, p.lo, p.hi) && PartOk(p, |parts|, n)
  {
    var all := parts + [p];
    assert all[|parts|] == p && all[..|parts|] == parts;
    forall k | 0 <= k < |parts| ensures PartOk(parts[k], k, n) && Apart(parts[..k], parts[k].lo, parts[k].hi) {
      assert all[k] == parts[k] && all[..k] == parts[..k];
    }
  }

  lemma PendingAdd(parts: seq<Part>, p: Part, n: nat)
    requires Pending(parts, n) && Apart(parts, p.lo, p.hi) && PartOk(p, |parts|, n)
    ensures Pending(parts + [p], n)
  {
    var all := parts + [p];
    forall k | 0 <= k < |all| ensures PartOk(all[k], k, n) && Apart(all[..k], all[k].lo, all[k].hi) {
      assert all[..k] == parts[..k];
      assert k == |parts| ==> parts[..k] == parts;
    }
  }

  lemma {:induction false} TotalSizeNonNegative(parts: seq<Part>, n: nat)
    requires Pending(parts, n)
    ensures TotalSize(parts) >= 0
  {
    if parts != [] {
      var m := |parts| - 1;
      assert parts == parts[..m] + [parts[m]];
      PendingPrefix(parts[..m], parts[m], n);
      TotalSizeNonNegative(parts[..m], n);
    }
  }

  lemma TotalSizeAdd(parts: seq<Part>, p: Part)
    ensures TotalSize(parts + [p]) == TotalSize(parts) + Size(p)
  {
    assert (parts + [p])[..|parts|] == parts;
  }

  /** The smaller of two sides takes at most half the room. */
  lemma SmallerFits(depth: nat, n: nat, p: Part, big: Part, small: Part)
    requires PartOk(p, depth, n) && Size(p) > THRESH && p.lo <= big.lo <= big.hi <= p.hi && p.lo <= small.lo <= small.hi <= p.hi
    requires Size(small) <= Size(big) && Size(small) + Size(big) < Size(p)
    ensures PartOk(big, depth, n) && PartOk(small, depth + 1, n)
  {
    assert Pow2(0) == 1;
    assert depth < 20;
    RoomHalves(depth);
  }

  /** The larger side goes on the stack, so the stack never outgrows its 40 slots. */
  lemma PushFits(parts: seq<Part>, n: nat, p: Part, big: Part, small: Part)
    requires Pending(parts + [p], n) && Size(p) > THRESH
    requires p.lo <= big.lo <= big.hi <= p.hi && p.lo <= small.lo <= small.hi <= p.hi
    requires big.hi < small.lo || small.hi < big.lo
    requires Size(small) <= Size(big) && Size(small) + Size(big) < Size(p)
    ensures |parts| < 20 && Pending(parts + [big] + [small], n)
    ensures TotalSize(parts + [big] + [small]) < TotalSize(parts + [p])
  {
    PendingPrefix(parts, p, n);
    SmallerFits(|parts|, n, p, big, small);
    PendingAdd(parts, big, n);
    var more := parts + [big];
    assert Apart(more, small.lo, small.hi);
    PendingAdd(more, small, n);
    TotalSizeAdd(parts, p);
    TotalSizeAdd(parts, big);
    TotalSizeAdd(more, small);
  }

  /** The stack holds the pending parts, two slots each. */
  ghost predicate OnStack(stack: seq<nat>, sp: nat, parts: seq<Part>) {
    && |stack| == STACKSIZE && sp == 2 * |parts| && sp <= STACKSIZE
    && forall k | 0 <= k < |parts| :: SlotPair(stack, k, parts[k])
  }

  ghost predicate SlotPair(stack: seq<nat>, k: nat, p: Part) {
    2 * k + 1 < |stack| && stack[2 * k] == p.lo && stack[2 * k + 1] == p.hi
  }

  method Push(stack: array<nat>, sp: nat, base: nat, limit: nat, ghost parts: seq<Part>) returns (sp': nat)
    requires OnStack(stack[..], sp, parts) && |parts| < 20
    modifies stack
    ensures OnStack(stack[..], sp', parts + [Part(base, limit)])
  {
    stack[sp] := base;
    stack[sp + 1] := limit;
    sp' := sp + 2;
  }

  method Pop(stack: array<nat>, sp: nat, ghost parts: seq<Part>, ghost p: Part) returns (sp': nat, base: nat, limit: nat)
    requires OnStack(stack[..], sp, parts + [p])
    ensures OnStack(stack[..], sp', parts) && base == p.lo && limit == p.hi
  {
    ghost var k := |parts|;
    assert (parts + [p])[k] == p;
    assert SlotPair(stack[..], k, p);
    sp' := sp - 2;
    base, limit := stack[sp'], stack[sp' + 1];
    forall m | 0 <= m < k ensures SlotPair(stack[..], m, parts[m]) {
      assert (parts + [p])[m] == parts[m];
    }
  }

  /** What holds between two rounds: `parts` wait on the stack, `cur` is being sorted. */
  ghost predicate Progress<T(!new)>(cmp: (T, T) -> int, o: seq<T>, s: seq<T>, parts: seq<Part>, cur: Part) {
    && multiset(o) == multiset(s) && |o| == |s|
    && Pending(parts + [cur], |s|) && Ordered(cmp, s, parts + [cur])
  }

  lemma PartitionStep<T(!new)>(cmp: (T, T) -> int, o: seq<T>, s: seq<T>, t: seq<T>, parts: seq<Part>, p: Part, big: Part, small: Part)
    requires Progress(cmp, o, s, parts, p) && Permuted(s, t, p.lo, p.hi) && Size(p) > THRESH
    requires p.lo <= big.lo <= big.hi <= p.hi && p.lo <= small.lo <= small.hi <= p.hi
    requires big.hi < small.lo || small.hi < big.lo
    requires Size(small) <= Size(big)
    requires InnerOrdered(cmp, t, p.lo, p.hi, [big, small])
    ensures |parts| < 20 && Progress(cmp, o, t, parts + [big], small)
    ensures TotalSize(parts + [big] + [small]) < TotalSize(parts + [p])
  {
    PendingPrefix(parts, p, |s|);
    PushFits(parts, |s|, p, big, small);
    OrderedStep(cmp, s, t, parts, p.lo, p.hi, [big, small]);
    assert parts + [big] + [small] == parts + [big, small];
    PermutedAll(s, t, p.lo, p.hi);
  }

  lemma InnerSwapped<T(!new)>(cmp: (T, T) -> int, s: seq<T>, lo: nat, hi: nat, p: Part, q: Part)
    requires lo <= hi <= |s| && InnerOrdered(cmp, s, lo, hi, [p, q])
    ensures InnerOrdered(cmp, s, lo, hi, [q, p])
  {
    forall x: nat, y: nat | Covers([p, q], x, y) ensures Covers([q, p], x, y) {
      CoversSplit([p], [q], x, y);
      CoversSplit([q], [p], x, y);
      assert [p] + [q] == [p, q] && [q] + [p] == [q, p];
    }
  }

  lemma SortedStep<T(!new)>(cmp: (T, T) -> int, o: seq<T>, s: seq<T>, t: seq<T>, parts: seq<Part>, p: Part)
    requires Progress(cmp, o, s, parts, p) && Permuted(s, t, p.lo, p.hi) && SortedBetween(cmp, t, p.lo, p.hi)
    ensures multiset(o) == multiset(t) && Pending(parts, |t|) && Ordered(cmp, t, parts)
  {
    PendingPrefix(parts, p, |s|);
    OrderedStep(cmp, s, t, parts, p.lo, p.hi, []);
    assert parts + [] == parts;
    PermutedAll(s, t, p.lo, p.hi);
  }

  /** One round on a part of more than seven elements: partition it, push the larger side
      and go on with the smaller one. */
  method Divide<T(!new)>(a: array<T>, cmp: (T, T) -> int, base: nat, limit: nat, stack: array<nat>, sp: nat, ghost o: seq<T>, ghost parts: seq<Part>)
      returns (base': nat, limit': nat, sp': nat, ghost parts': seq<Part>)
    requires TotalPreorder(cmp) && base <= limit <= a.Length && limit - base > THRESH
    requires (a as object) != stack
    requires OnStack(stack[..], sp, parts) && Progress(cmp, o, a[..], parts, Part(base, limit))
    modifies a, stack
    ensures base' <= limit' <= a.Length && OnStack(stack[..], sp', parts')
    ensures Progress(cmp, o, a[..], parts', Part(base', limit'))
    ensures TotalSize(parts' + [Part(base', limit')]) < TotalSize(parts + [Part(base, limit)])
  {
    ghost var s, p := a[..], Part(base, limit);
    var i, j := Partition(a, cmp, base, limit);
    if j - base > limit - i {
      PartitionStep(cmp, o, s, a[..], parts, p, Part(base, j), Part(i, limit));
      sp' := Push(stack, sp, base, j, parts);
      parts' := parts + [Part(base, j)];
      base', limit' := i, limit;
    } else {
      InnerSwapped(cmp, a[..], base, limit, Part(base, j), Part(i, limit));
      PartitionStep(cmp, o, s, a[..], parts, p, Part(i, limit), Part(base, j));
      sp' := Push(stack, sp, i, limit, parts);
      parts' := parts + [Part(i, limit)];
      base', limit' := base, j;
    }
  }

  /** Go on with the part on top of the stack. */
  method Resume(stack: array<nat>, sp: nat, ghost parts: seq<Part>, ghost cur: Part, ghost n: nat)
      returns (sp': nat, base: nat, limit: nat, ghost parts': seq<Part>)
    requires sp > 0 && OnStack(stack[..], sp, parts) && Pending(parts, n) && cur.lo <= cur.hi
    ensures parts == parts' + [Part(base, limit)] && OnStack(stack[..], sp', parts') && base <= limit <= n
    ensures |parts'| < |parts| && TotalSize(parts) <= TotalSize(parts + [cur])
  {
    ghost var m := |parts| - 1;
    ghost var top := parts[m];
    parts' := parts[..m];
    assert parts == parts' + [top];
    PendingPrefix(parts', top, n);
    TotalSizeAdd(parts, cur);
    sp', base, limit := Pop(stack, sp, parts', top);
  }

  /** qsort: for any total preorder the result is a sorted permutation, and with fewer
      than 9437183 (hence with fewer than 2^23) elements the stack keeps within its slots. */
  method QSort<T(!new)>(a: array<T>, cmp: (T, T) -> int)
    requires TotalPreorder(cmp) && a.Length + 2 <= Room(0)
    modifies a
    ensures multiset(a[..]) == multiset(old(a[..])) && SortedBetween(cmp, a[..], 0, a.Length)
  {
    ghost var o := a[..];
    var stack := new nat[STACKSIZE];
    var base: nat, limit: nat, sp: nat := 0, a.Length, 0;
    ghost var parts: seq<Part> := [];
    Start(cmp, o);
    while true
      invariant base <= limit <= a.Length && OnStack(stack[..], sp, parts)
      invariant Progress(cmp, o, a[..], parts, Part(base, limit))
      decreases TotalSize(parts + [Part(base, limit)]), |parts|
    {
      ghost var s, all := a[..], parts + [Part(base, limit)];
      TotalSizeNonNegative(all, |s|);
      if limit - base > THRESH {
        base, limit, sp, parts := Divide(a, cmp, base, limit, stack, sp, o, parts);
        TotalSizeNonNegative(parts + [Part(base, limit)], |s|);
      } else {
        InsertionSort(a, cmp, base, limit);
        SortedStep(cmp, o, s, a[..], parts, Part(base, limit));
        if sp == 0 {
          break;
        }
        sp, base, limit, parts := Resume(stack, sp, parts, Part(base, limit), a.Length);
      }
    }
    assert forall x: nat, y: nat :: !Covers([], x, y);
  }

  lemma Start<T(!new)>(cmp: (T, T) -> int, s: seq<T>)
    requires |s| + 2 <= Room(0)
    ensures Progress(cmp, s, s, [], Part(0, |s|))
  {
    var all := [] + [Part(0, |s|)];
    assert all == [Part(0, |s|)];
    forall x: nat, y: nat | x < y < |s| ensures Covers(all, x, y) {
      assert all[0].lo <= x && y < all[0].hi;
    }
  }

  /** The room covers every array of fewer than 2^23 elements. */
  lemma RoomEnough(n: nat)
    requires n < 0x80_0000
    ensures n + 2 <= Room(0)
  {
    SmallPowers();
    Pow2Add(10, 10);
  }
}
