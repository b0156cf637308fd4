/** The physical memory manager: a list of ranges changed in place by the loops of
    memory.c, proved against the functions of RangeMap. */
module MemoryMap {
  import opened Bits
  import opened Common
  import opened RangeMap

  /** Two lists that stand for the same function. */
  ghost predicate SameFunction(x: seq<Range>, y: seq<Range>) {
    forall a: nat :: TypeAt(x, a) == TypeAt(y, a)
  }

  /** Neighbours differ, except possibly at the listed places. */
  ghost predicate MergedExcept(rs: seq<Range>, bad: set<int>) {
    forall k: nat | k + 1 < |rs| && k !in bad :: ApartAt(rs, k)
  }

  /** The list after `rs[i]` and its predecessor have become one range. */
  function Join(rs: seq<Range>, i: nat): seq<Range>
    requires 0 < i < |rs|
  {
    rs[..i - 1] + [Range(rs[i - 1].start, rs[i - 1].size + rs[i].size, rs[i].kind)] + rs[i + 1..]
  }

  lemma JoinSorted(rs: seq<Range>, i: nat)
    requires Sorted(rs) && 0 < i < |rs| && !Apart(rs[i - 1], rs[i])
    ensures Sorted(Join(rs, i))
  {
    var j := Join(rs, i);
    assert j[i - 1].Ok() && j[i - 1].End() == rs[i].End();
    assert forall k | 0 <= k < i - 1 :: j[k] == rs[k];
    assert forall k | i <= k < |j| :: j[k] == rs[k + 1];
  }

  lemma JoinFunction(rs: seq<Range>, i: nat)
    requires Sorted(rs) && 0 < i < |rs| && !Apart(rs[i - 1], rs[i])
    ensures SameFunction(rs, Join(rs, i))
  {
    var j, x, y, p := Join(rs, i), rs[..i - 1], rs[i + 1..], [rs[i - 1], rs[i]];
    assert rs == x + p + y && j == x + [j[i - 1]] + y;
    forall a: nat ensures TypeAt(rs, a) == TypeAt(j, a) {
      TypeAtConcat(x + p, y, a);
      TypeAtConcat(x, p, a);
      TypeAtConcat(x + [j[i - 1]], y, a);
      TypeAtConcat(x, [j[i - 1]], a);
      assert p[1..] == [rs[i]] && p[1..][1..] == [];
    }
  }

  lemma JoinPaged(rs: seq<Range>, i: nat)
    requires AllPaged(rs) && 0 < i < |rs|
    ensures AllPaged(Join(rs, i))
  {
  }

  /** Joining a range with the one before it leaves only its far side unmerged. */
  lemma JoinLeft(rs: seq<Range>, i: nat)
    requires 0 < i < |rs| && !Apart(rs[i - 1], rs[i]) && MergedExcept(rs, {i - 1, i})
    ensures MergedExcept(Join(rs, i), {i - 1})
  {
    var j := Join(rs, i);
    forall k: nat | k + 1 < |j| && k !in {i - 1} ensures ApartAt(j, k) {
      if k < i - 1 {
        assert ApartAt(rs, k);
      } else {
        assert ApartAt(rs, k + 1);
      }
    }
  }

  lemma JoinRight(rs: seq<Range>, i: nat)
    requires i + 1 < |rs| && !Apart(rs[i], rs[i + 1]) && MergedExcept(rs, {i})
    ensures Merged(Join(rs, i + 1))
  {
    var j := Join(rs, i + 1);
    forall k: nat | k + 1 < |j| ensures ApartAt(j, k) {
      if k < i {
        assert ApartAt(rs, k);
      } else {
        assert ApartAt(rs, k + 1);
      }
    }
  }

  lemma NoneLeft(rs: seq<Range>, i: nat)
    requires MergedExcept(rs, {i}) && (i + 1 < |rs| ==> Apart(rs[i], rs[i + 1]))
    ensures Merged(rs)
  {
    assert i + 1 < |rs| ==> ApartAt(rs, i);
  }

  /** The end of a range wraps to 0 only at the top of the address space, where no
      range can follow. */
  lemma WrappedEnd(rs: seq<Range>, i: nat)
    requires Sorted(rs) && i + 1 < |rs|
    ensures ((rs[i].start + rs[i].size) % U64 == rs[i + 1].start) == (rs[i].End() == rs[i + 1].start)
  {
  }

  /** What laying a range over a map leaves to be merged. */
  lemma OverlayMerged(rs: seq<Range>, r: Range)
    requires Canonical(rs) && r.Ok()
    ensures var i := |Below(rs, r.start)|; MergedExcept(Overlay(rs, r), {i - 1, i})
  {
    var x, y, o := Below(rs, r.start), Above(rs, r.End()), Overlay(rs, r);
    BelowMerged(rs, r.start);
    AboveMerged(rs, r.End());
    forall k: nat | k + 1 < |o| && k !in {|x| - 1, |x|} ensures ApartAt(o, k) {
      if k < |x| - 1 {
        assert ApartAt(x, k);
      } else {
        assert ApartAt(y, k - |x| - 1);
      }
    }
  }

  /** Only the addresses from s to e - 1 change, and they all become `v`. */
  ghost predicate Updated(x: seq<Range>, y: seq<Range>, s: nat, e: nat, v: Option<nat>) {
    forall a: nat :: TypeAt(y, a) == if s <= a < e then v else TypeAt(x, a)
  }

  // ---- searching for a block ----

  predicate Aligned(a: nat, n: nat)
    requires n > 0
  {
    a % n == 0
  }

  /** Where an allocation may be placed. */
  datatype Limits = Limits(size: nat, align: nat, minAddr: nat, maxAddr: nat) {
    /** What memory_alloc asserts or arranges before it searches.  The difference of the
        limits wraps around when they are the wrong way round. */
    predicate Ok() {
      && size > 0 && size % PAGE_SIZE == 0
      && align > 0 && align % PAGE_SIZE == 0 && align <= 0x8000_0000_0000_0000
      && minAddr < U64 && maxAddr < 0x1_0000_0000
      && size - 1 <= (if minAddr <= maxAddr then maxAddr - minAddr else maxAddr + U64 - minAddr)
    }

    /** Every byte of the block at `a` is free and within the limits, and `a` is aligned. */
    ghost predicate Fits(rs: seq<Range>, a: nat)
      requires align > 0
    {
      && Aligned(a, align) && minAddr <= a && a + size - 1 <= maxAddr
      && forall x: nat | a <= x < a + size :: TypeAt(rs, x) == Some(FREE)
    }

    /** The block at `a` lies inside range `r`. */
    predicate FitsIn(r: Range, a: nat)
      requires align > 0
    {
      && r.kind == FREE && Aligned(a, align) && minAddr <= a && a + size - 1 <= maxAddr
      && r.start <= a && a + size <= r.End()
    }

    function MatchStart(r: Range): nat {
      if minAddr < r.start then r.start else minAddr
    }

    function MatchEnd(r: Range): int {
      if maxAddr < r.start + r.size - 1 then maxAddr else r.start + r.size - 1
    }

    /** A free range that meets the limits but ends so low that the subtraction for
        a high allocation goes below zero. */
    predicate Underflows(r: Range) {
      r.kind == FREE && MatchStart(r) < MatchEnd(r) && MatchEnd(r) + 1 < size
    }
  }

  function RoundDown(x: nat, nearest: nat): nat
    requires nearest > 0
  {
    x - x % nearest
  }

  function RoundUp(x: nat, nearest: nat): nat
    requires nearest > 0
  {
    if x % nearest != 0 then x - x % nearest + nearest else x
  }

  lemma RoundToMultiple(x: nat, n: nat) returns (d: nat)
    requires n > 0
    ensures d == x - x % n && d % n == 0 && d <= x < d + n
  {
    var q, r := x / n, x % n;
    assert n * q + r == x;
    d := x - r;
    DivUnique(d, n, q, 0);
  }

  /** Rounding down gives the largest multiple that is not above. */
  lemma RoundDownIsLargest(x: nat, n: nat)
    requires n > 0
    ensures Aligned(RoundDown(x, n), n) && RoundDown(x, n) <= x < RoundDown(x, n) + n
    ensures forall a: nat | Aligned(a, n) && a <= x :: a <= RoundDown(x, n)
  {
    var d := RoundToMultiple(x, n);
    forall a: nat | Aligned(a, n) && a <= x ensures a <= d {
      if d < a {
        MultiplesApart(d, a, n);
      }
    }
  }

  /** Two different multiples are at least one step apart. */
  lemma MultiplesApart(b: nat, a: nat, n: nat)
    requires n > 0 && a % n == 0 && b % n == 0 && b < a
    ensures b + n <= a
  {
    var p, q := a / n, b / n;
    assert n * p == a && n * q == b;
    assert n * (p - q) == a - b;
    MulGap(n, p - q);
  }

  /** Rounding up gives the smallest multiple that is not below. */
  lemma RoundUpIsSmallest(x: nat, n: nat)
    requires n > 0
    ensures Aligned(RoundUp(x, n), n) && x <= RoundUp(x, n) < x + n
    ensures forall a: nat | Aligned(a, n) && x <= a :: RoundUp(x, n) <= a
  {
    var d := RoundToMultiple(x, n);
    NextCongruent(d, n);
    forall a: nat | Aligned(a, n) && x <= a ensures RoundUp(x, n) <= a {
      if d < a {
        MultiplesApart(d, a, n);
      }
    }
  }

  /** The answer for one range is right: a block that fits, and the best one. */
  ghost predicate RightChoice(r: Range, lim: Limits, high: bool, ok: bool, phys: nat)
    requires lim.align > 0
  {
    && (ok ==> lim.FitsIn(r, phys))
    && (forall a: nat | lim.FitsIn(r, a) :: ok && if high then a <= phys else phys <= a)
  }

  function HighStart(lim: Limits, matchEnd: nat): nat
    requires lim.align > 0
  {
    RoundDown((matchEnd - lim.size + 1) % U64, lim.align)
  }

  /** Rounding down from the end of the match gives the highest block. */
  lemma HighChoice(r: Range, lim: Limits)
    requires r.Ok() && lim.Ok() && r.kind == FREE && lim.MatchStart(r) < lim.MatchEnd(r) && !lim.Underflows(r)
    ensures var start := HighStart(lim, lim.MatchEnd(r));
            RightChoice(r, lim, true, start >= lim.MatchStart(r), start)
  {
    hide Aligned, RoundDown;
    var x := lim.MatchEnd(r) - lim.size + 1;
    assert x % U64 == x;
    RoundDownIsLargest(x, lim.align);
  }

  /** Rounding up from the start of the match gives the lowest block. */
  lemma LowChoice(r: Range, lim: Limits)
    requires r.Ok() && lim.Ok() && r.kind == FREE && lim.MatchStart(r) < lim.MatchEnd(r)
    ensures var start := RoundUp(lim.MatchStart(r), lim.align);
            RightChoice(r, lim, false, start + lim.size - 1 <= lim.MatchEnd(r), start)
  {
    RoundUpIsSmallest(lim.MatchStart(r), lim.align);
  }

  /** Below zero the subtraction wraps to an address far above any limit. */
  lemma UnderflowChoice(r: Range, lim: Limits)
    requires r.Ok() && lim.Ok() && lim.Underflows(r)
    ensures HighStart(lim, lim.MatchEnd(r)) > lim.maxAddr
  {
    var x := (lim.MatchEnd(r) - lim.size + 1) % U64;
    assert x == lim.MatchEnd(r) - lim.size + 1 + U64;
    RoundDownIsLargest(x, lim.align);
  }

  /** Can a block be taken from this range, and where?  Machine words wrap. */
  method IsSuitableRange(r: Range, lim: Limits, high: bool) returns (ok: bool, phys: nat)
    requires r.Ok() && lim.Ok()
    ensures !(high && lim.Underflows(r)) ==> RightChoice(r, lim, high, ok, phys)
    ensures high && lim.Underflows(r) ==> ok && phys > lim.maxAddr
  {
    ok, phys := false, 0;
    if r.kind != FREE {
      return;
    }
    var matchStart := if lim.minAddr < r.start then r.start else lim.minAddr;
    var last := (r.start + r.size - 1) % U64;
    assert last == r.start + r.size - 1;
    var matchEnd := if lim.maxAddr < last then lim.maxAddr else last;
    if matchEnd <= matchStart {
      return;
    }
    if high {
      ok, phys := PickHigh(r, lim, matchStart, matchEnd);
    } else {
      ok, phys := PickLow(r, lim, matchStart, matchEnd);
    }
  }

  method PickHigh(r: Range, lim: Limits, matchStart: nat, matchEnd: nat) returns (ok: bool, phys: nat)
    requires r.Ok() && lim.Ok() && r.kind == FREE
    requires matchStart == lim.MatchStart(r) < matchEnd == lim.MatchEnd(r)
    ensures !lim.Underflows(r) ==> RightChoice(r, lim, true, ok, phys)
    ensures lim.Underflows(r) ==> ok && phys > lim.maxAddr
  {
    phys := HighStart(lim, matchEnd);
    ok := phys >= matchStart;
    if lim.Underflows(r) {
      UnderflowChoice(r, lim);
    } else {
      HighChoice(r, lim);
    }
  }

  method PickLow(r: Range, lim: Limits, matchStart: nat, matchEnd: nat) returns (ok: bool, phys: nat)
    requires r.Ok() && lim.Ok() && r.kind == FREE
    requires matchStart == lim.MatchStart(r) < matchEnd == lim.MatchEnd(r)
    ensures RightChoice(r, lim, false, ok, phys)
  {
    phys := RoundUp(matchStart, lim.align);
    ok := phys + lim.size - 1 <= matchEnd;
    LowChoice(r, lim);
  }

  // ---- the search as a whole ----

  /** A block fits the map exactly when it fits one of its ranges. */
  lemma FitsSomewhere(rs: seq<Range>, lim: Limits, a: nat)
    requires Canonical(rs) && lim.Ok()
    ensures lim.Fits(rs, a) <==> exists j :: 0 <= j < |rs| && lim.FitsIn(rs[j], a)
  {
    if lim.Fits(rs, a) {
      var j := BlockInRange(rs, a, lim.size, FREE);
      assert lim.FitsIn(rs[j], a);
    }
    if j :| 0 <= j < |rs| && lim.FitsIn(rs[j], a) {
      forall x: nat | a <= x < a + lim.size ensures TypeAt(rs, x) == Some(FREE) {
        TypeAtIndex(rs, j, x);
      }
    }
  }

  /** The search as a whole is right: it fails only if nothing fits, and otherwise
      finds the best block. */
  ghost predicate RightAnswer(rs: seq<Range>, lim: Limits, high: bool, found: bool, phys: nat)
    requires lim.align > 0
  {
    && (found ==> lim.Fits(rs, phys))
    && (forall a: nat | lim.Fits(rs, a) :: found && if high then a <= phys else phys <= a)
  }

  /** A high search goes wrong exactly here: nothing fits, and some free range within
      the limits ends before address size - 1. */
  ghost predicate Misled(rs: seq<Range>, lim: Limits, high: bool)
    requires lim.align > 0
  {
    high && (forall a: nat :: !lim.Fits(rs, a)) && exists r :: r in rs && lim.Underflows(r)
  }

  /** A request no larger than the lowest permitted address is never misled. */
  lemma SmallNeverMisled(rs: seq<Range>, lim: Limits, high: bool)
    requires lim.Ok() && lim.size <= lim.minAddr
    ensures !Misled(rs, lim, high)
  {
  }

  /** The concrete case: one free page at 4096 and a request for two pages. */
  lemma MisledExample()
    ensures var rs, lim := [Range(4096, 4096, FREE)], Limits(16384, 4096, 4096, 0xffff_ffff);
            Canonical(rs) && lim.Ok() && Misled(rs, lim, true)
  {
    var rs, lim := [Range(4096, 4096, FREE)], Limits(16384, 4096, 4096, 0xffff_ffff);
    assert rs[0] in rs && lim.Underflows(rs[0]);
    forall a: nat ensures !lim.Fits(rs, a) {
      FitsSomewhere(rs, lim, a);
    }
  }

  /** Nothing fits at or below a range whose match ends before address size - 1. */
  lemma UnderflowMeansNoFit(rs: seq<Range>, lim: Limits, i: nat, a: nat)
    requires Canonical(rs) && lim.Ok() && i < |rs| && lim.Underflows(rs[i])
    requires forall j | i < j < |rs| :: !lim.FitsIn(rs[j], a)
    ensures !lim.Fits(rs, a)
  {
    FitsSomewhere(rs, lim, a);
    forall j | 0 <= j <= i ensures !lim.FitsIn(rs[j], a) {
      if j < i {
        assert rs[j].End() <= rs[i].start;
      }
    }
  }

  /** The first range that answers gives the answer for the whole map. */
  lemma FirstIsBest(rs: seq<Range>, lim: Limits, high: bool, i: nat, phys: nat)
    requires Canonical(rs) && lim.Ok() && i < |rs| && RightChoice(rs[i], lim, high, true, phys)
    requires forall j, a: nat | 0 <= j < |rs| && (if high then i < j else j < i) :: !lim.FitsIn(rs[j], a)
    ensures RightAnswer(rs, lim, high, true, phys)
  {
    FitsSomewhere(rs, lim, phys);
    assert lim.FitsIn(rs[i], phys);
    forall a: nat | lim.Fits(rs, a) ensures if high then a <= phys else phys <= a {
      FitsSomewhere(rs, lim, a);
      var j :| 0 <= j < |rs| && lim.FitsIn(rs[j], a);
      if j < i {
        assert rs[j].End() <= rs[i].start;
      } else if i < j {
        assert rs[i].End() <= rs[j].start;
      }
    }
  }

  lemma {:induction false} TakenOut(x: seq<Range>, r: Range, y: seq<Range>)
    ensures var s := x + [r] + y; s[..|x|] + s[|x| + 1..] == x + y
  {
  }

  lemma CutPaged(rs: seq<Range>, s: nat, e: nat)
    requires AllPaged(rs) && s % PAGE_SIZE == 0 && e % PAGE_SIZE == 0
    ensures AllPaged(Below(rs, s) + Above(rs, e))
  {
    BelowPaged(rs, s);
    AbovePaged(rs, e);
  }

  // ---- allocating and freeing ----

  const PHYS_MAX: nat := 0xffff_ffff    // TARGET_PHYS_MAX

  /** The limits memory_alloc works with: 0 asks for the default, which for the lowest address
      is TARGET_PHYS_MIN of the platform. */
  function EffectiveLimits(physMin: nat, size: nat, align: nat, minAddr: nat, maxAddr: nat): Limits {
    Limits(size,
           if align == 0 then PAGE_SIZE else align,
           if minAddr == 0 then physMin else minAddr,
           if maxAddr == 0 || maxAddr > PHYS_MAX then PHYS_MAX else maxAddr)
  }

  /** The block at `a` is what the caller asked for: free memory below 4 GiB, within the limits
      that were given, and aligned as asked or else to a page. */
  ghost predicate Wanted(rs: seq<Range>, physMin: nat, size: nat, align: nat, minAddr: nat, maxAddr: nat, a: nat) {
    && AllOfType(rs, a, size, FREE) && a + size <= 0x1_0000_0000
    && (minAddr != 0 ==> minAddr <= a) && (minAddr == 0 ==> physMin <= a)
    && (maxAddr != 0 ==> a + size - 1 <= maxAddr)
    && if align != 0 then a % align == 0 else a % 4096 == 0
  }

  /** There is no wanted block further up, or down. */
  ghost predicate BestWanted(rs: seq<Range>, physMin: nat, size: nat, align: nat, minAddr: nat, maxAddr: nat, high: bool, a: nat) {
    && Wanted(rs, physMin, size, align, minAddr, maxAddr, a)
    && forall b: nat | Wanted(rs, physMin, size, align, minAddr, maxAddr, b) :: if high then b <= a else a <= b
  }

  ghost predicate NoneWanted(rs: seq<Range>, physMin: nat, size: nat, align: nat, minAddr: nat, maxAddr: nat) {
    forall a: nat :: !Wanted(rs, physMin, size, align, minAddr, maxAddr, a)
  }

  /** A free range, more than a byte of it above the lowest address, that ends below `size`. */
  predicate TooLow(r: Range, size: nat, lowest: nat) {
    r.kind == FREE && r.size > 1 && r.End() < size && lowest + 1 < r.End()
  }

  /** The limits of the search are those of the request. */
  lemma WantedIsFits(rs: seq<Range>, physMin: nat, size: nat, align: nat, minAddr: nat, maxAddr: nat, a: nat)
    requires size > 0
    ensures Wanted(rs, physMin, size, align, minAddr, maxAddr, a) <==> EffectiveLimits(physMin, size, align, minAddr, maxAddr).Fits(rs, a)
  {
  }

  /** The lowest address that is permitted is no higher than the highest. */
  predicate InOrder(lowest: nat, maxAddr: nat) {
    lowest < 0x1_0000_0000 && (maxAddr != 0 ==> lowest <= maxAddr)
  }

  /** A search is misled exactly if it is one from the top, no block is wanted, and a free range
      ends below the size of the request. */
  lemma MisledExact(rs: seq<Range>, physMin: nat, size: nat, align: nat, minAddr: nat, maxAddr: nat, high: bool)
    requires EffectiveLimits(physMin, size, align, minAddr, maxAddr).Ok()
    ensures Misled(rs, EffectiveLimits(physMin, size, align, minAddr, maxAddr), high) <==>
      (var lowest := if minAddr == 0 then physMin else minAddr;
       && high && NoneWanted(rs, physMin, size, align, minAddr, maxAddr)
       && InOrder(lowest, maxAddr) && exists r :: r in rs && TooLow(r, size, lowest))
  {
    hide TypeAt;
    var lim := EffectiveLimits(physMin, size, align, minAddr, maxAddr);
    forall a: nat ensures Wanted(rs, physMin, size, align, minAddr, maxAddr, a) <==> lim.Fits(rs, a) {
      WantedIsFits(rs, physMin, size, align, minAddr, maxAddr, a);
    }
    assert forall r: Range :: lim.Underflows(r) <==> InOrder(lim.minAddr, maxAddr) && TooLow(r, size, lim.minAddr);
  }

  lemma PageMultiple(a: nat, align: nat)
    requires align > 0 && align % PAGE_SIZE == 0 && Aligned(a, align)
    ensures a % PAGE_SIZE == 0
  {
    var k, m := a / align, align / PAGE_SIZE;
    assert align * k == a && PAGE_SIZE * m == align;
    assert a == PAGE_SIZE * (m * k) by {
      assert PAGE_SIZE * m * k == PAGE_SIZE * (m * k);
    }
    DivUnique(a, PAGE_SIZE, m * k, 0);
  }

  ghost predicate AllOfType(rs: seq<Range>, s: nat, n: nat, k: nat) {
    forall a: nat | s <= a < s + n :: TypeAt(rs, a) == Some(k)
  }

  predicate Inside(r: Range, s: nat, n: nat) {
    r.start <= s && s + n <= r.End()
  }

  lemma InsideIsType(rs: seq<Range>, i: nat, s: nat, n: nat)
    requires Sorted(rs) && i < |rs| && Inside(rs[i], s, n)
    ensures AllOfType(rs, s, n, rs[i].kind)
  {
    forall a: nat | s <= a < s + n ensures TypeAt(rs, a) == Some(rs[i].kind) {
      TypeAtIndex(rs, i, a);
    }
  }

  // ---- reclaiming internal memory ----

  function Reclaimed(t: Option<nat>): Option<nat> {
    if t == Some(INTERNAL) then Some(FREE) else t
  }

  /** `y` is `x` with INTERNAL turned into FREE below address `b`, and only there. */
  ghost predicate ReclaimedBelow(x: seq<Range>, y: seq<Range>, b: nat) {
    forall a: nat :: TypeAt(y, a) == if a < b then Reclaimed(TypeAt(x, a)) else TypeAt(x, a)
  }

  /** The first address the loop has not dealt with when it is at index `i`. */
  function Bound(rs: seq<Range>, i: nat): nat
    requires i <= |rs|
  {
    if i == 0 then 0 else rs[i - 1].End()
  }

  /** No range covers the gap before range `i`, or anything after the last one. */
  lemma GapIsUnmapped(rs: seq<Range>, i: nat, a: nat)
    requires Sorted(rs) && i <= |rs| && Bound(rs, i) <= a && (i < |rs| ==> a < rs[i].start)
    ensures TypeAt(rs, a) == None
  {
    forall j | 0 <= j < |rs| ensures a < rs[j].start || rs[j].End() <= a {
      if j < i - 1 {
        assert rs[j].End() <= rs[i - 1].start;
      } else if j > i {
        assert rs[i].End() <= rs[j].start;
      }
    }
    TypeAtOutside(rs, a);
  }

  lemma ReclaimSkip(x: seq<Range>, y: seq<Range>, i: nat)
    requires Sorted(y) && i < |y| && y[i].kind != INTERNAL && ReclaimedBelow(x, y, Bound(y, i))
    ensures ReclaimedBelow(x, y, y[i].End())
  {
    forall a: nat | Bound(y, i) <= a < y[i].End() ensures TypeAt(y, a) == Reclaimed(TypeAt(x, a)) {
      if a < y[i].start {
        GapIsUnmapped(y, i, a);
      } else {
        TypeAtIndex(y, i, a);
      }
    }
    assert Bound(y, i) <= y[i].End();
  }

  lemma ReclaimStep(x: seq<Range>, y: seq<Range>, i: nat, mid: seq<Range>, z: seq<Range>, j: nat)
    requires Sorted(y) && i < |y| && y[i].kind == INTERNAL && ReclaimedBelow(x, y, Bound(y, i))
    requires Updated(y, mid, y[i].start, y[i].End(), Some(FREE)) && SameFunction(mid, z)
    requires Sorted(z) && j < |z| && z[j].kind == FREE
    requires z[j].start <= y[i].start && y[i].End() <= z[j].End()
    ensures ReclaimedBelow(x, z, z[j].End())
  {
    forall a: nat ensures TypeAt(z, a) == if a < z[j].End() then Reclaimed(TypeAt(x, a)) else TypeAt(x, a) {
      assert TypeAt(z, a) == TypeAt(mid, a);
      if Bound(y, i) <= a < y[i].start {
        GapIsUnmapped(y, i, a);
      } else if y[i].start <= a < y[i].End() {
        TypeAtIndex(y, i, a);
      } else if y[i].End() <= a < z[j].End() {
        TypeAtIndex(z, j, a);
      }
    }
  }

  lemma RetypeOk(rs: seq<Range>, i: nat, k: nat)
    requires Canonical(rs) && i < |rs|
    ensures var y := rs[i := rs[i].(kind := k)];
            Sorted(y) && MergedExcept(y, {i - 1, i})
            && Updated(rs, y, rs[i].start, rs[i].End(), Some(k))
  {
    var y := rs[i := rs[i].(kind := k)];
    forall j: nat | j + 1 < |y| && j !in {i - 1, i} ensures ApartAt(y, j) {
      assert ApartAt(rs, j);
    }
    forall a: nat ensures TypeAt(y, a) == if rs[i].start <= a < rs[i].End() then Some(k) else TypeAt(rs, a) {
      if rs[i].start <= a < rs[i].End() {
        TypeAtIndex(y, i, a);
      } else {
        RetypeElsewhere(rs, i, k, a);
      }
    }
  }

  lemma {:induction false} RetypeElsewhere(rs: seq<Range>, i: nat, k: nat, a: nat)
    requires i < |rs| && !(rs[i].start <= a < rs[i].End())
    ensures TypeAt(rs[i := rs[i].(kind := k)], a) == TypeAt(rs, a)
  {
    if i > 0 {
      RetypeElsewhere(rs[1..], i - 1, k, a);
      assert rs[i := rs[i].(kind := k)][1..] == rs[1..][i - 1 := rs[i].(kind := k)];
    } else {
      assert rs[0 := rs[0].(kind := k)][1..] == rs[1..];
    }
  }

  class RangeList {
    var ranges: seq<Range>

    /** TARGET_PHYS_MIN */
    const physMin: nat

    ghost predicate Valid()
      reads this
    {
      Canonical(ranges) && AllPaged(ranges)
    }

    constructor (physMin: nat)
      ensures Valid() && ranges == [] && this.physMin == physMin
    {
      this.physMin := physMin;
      ranges := [];
    }

    /** First half of merge_ranges: the range before.  The sum wraps like a 64-bit
        machine word. */
    method MergePrevious(i: nat) returns (i': nat)
      requires Sorted(ranges) && AllPaged(ranges) && i < |ranges| && MergedExcept(ranges, {i - 1, i})
      modifies this
      ensures Sorted(ranges) && AllPaged(ranges) && SameFunction(old(ranges), ranges)
      ensures MergedExcept(ranges, {i'})
      ensures i' <= i && i' < |ranges| && ranges[i'].kind == old(ranges[i].kind)
      ensures ranges[i'].start <= old(ranges[i].start) && old(ranges[i].End()) == ranges[i'].End()
      ensures |ranges| - i' == old(|ranges|) - i
    {
      i' := i;
      if i != 0 {
        var other, range := ranges[i - 1], ranges[i];
        var end := (other.start + other.size) % U64;
        WrappedEnd(ranges, i - 1);
        if end == range.start && other.kind == range.kind {
          JoinSorted(ranges, i);
          JoinFunction(ranges, i);
          JoinPaged(ranges, i);
          JoinLeft(ranges, i);
          ranges := ranges[..i - 1] + [Range(other.start, other.size + range.size, range.kind)] + ranges[i + 1..];
          i' := i - 1;
        } else {
          assert ApartAt(ranges, i - 1);
        }
      }
    }

    /** Second half of merge_ranges: the range after. */
    method MergeNext(i: nat)
      requires Sorted(ranges) && AllPaged(ranges) && i < |ranges| && MergedExcept(ranges, {i})
      modifies this
      ensures Valid() && SameFunction(old(ranges), ranges)
      ensures i < |ranges| && ranges[i].kind == old(ranges[i].kind)
      ensures ranges[i].start == old(ranges[i].start) && old(ranges[i].End()) <= ranges[i].End()
      ensures |ranges| <= old(|ranges|)
    {
      hide Sorted, Merged, MergedExcept, ApartAt, AllPaged, TypeAt;
      if i != |ranges| - 1 {
        var range, other := ranges[i], ranges[i + 1];
        var end := (range.start + range.size) % U64;
        WrappedEnd(ranges, i);
        if other.start == end && other.kind == range.kind {
          JoinSorted(ranges, i + 1);
          JoinFunction(ranges, i + 1);
          JoinPaged(ranges, i + 1);
          JoinRight(ranges, i);
          ranges := ranges[..i] + [Range(range.start, range.size + other.size, range.kind)] + ranges[i + 2..];
        } else {
          NoneLeft(ranges, i);
        }
      } else {
        NoneLeft(ranges, i);
      }
    }

    /** Merge the range at `i` with its neighbours where they touch and agree. */
    method MergeRanges(i: nat) returns (i': nat)
      requires Sorted(ranges) && AllPaged(ranges) && i < |ranges| && MergedExcept(ranges, {i - 1, i})
      modifies this
      ensures Valid() && SameFunction(old(ranges), ranges)
      ensures i' <= i && i' < |ranges| && ranges[i'].kind == old(ranges[i].kind)
      ensures ranges[i'].start <= old(ranges[i].start) && old(ranges[i].End()) <= ranges[i'].End()
      ensures |ranges| - i' <= old(|ranges|) - i
    {
      i' := MergePrevious(i);
      MergeNext(i');
    }

    /** Put a new range into the list, overwriting whatever it overlaps; returns its
        position.  No merging is done. */
    method InsertRange(start: nat, size: nat, kind: nat) returns (idx: nat)
      requires Sorted(ranges) && Range(start, size, kind).Ok()
      modifies this
      ensures ranges == Overlay(old(ranges), Range(start, size, kind))
      ensures idx == |Below(old(ranges), start)|
    {
      ghost var rs := ranges;
      var rangeEnd := start + size - 1;
      idx := 0;
      while idx < |ranges| && !(start <= ranges[idx].start)
        invariant idx <= |ranges| && (idx > 0 ==> ranges[idx - 1].start < start)
      {
        idx := idx + 1;
      }
      ranges := ranges[..idx] + [Range(start, size, kind)] + ranges[idx..];
      ghost var r := Range(start, size, kind);
      ClipPrevious(idx, rangeEnd, rs, r);
      ClippedParts(rs, idx, r);
      SwallowFollowing(idx, rangeEnd);
    }

    /** Remove or cut the ranges after the new one that it overlaps. */
    method SwallowFollowing(idx: nat, rangeEnd: nat)
      requires idx < |ranges| && Sorted(ranges[idx + 1..])
      modifies this
      ensures ranges == old(ranges[..idx + 1]) + Above(old(ranges[idx + 1..]), rangeEnd + 1)
    {
      ghost var head, tail, e := ranges[..idx + 1], ranges[idx + 1..], rangeEnd + 1;
      while idx + 1 < |ranges|
        invariant idx < |ranges| && ranges == head + tail && Sorted(tail)
        invariant Above(tail, e) == Above(old(ranges[idx + 1..]), e)
        decreases |ranges|
      {
        var other := ranges[idx + 1];
        var otherEnd := other.start + other.size - 1;
        assert other == tail[0];
        if other.start > rangeEnd {
          break;
        } else if otherEnd > rangeEnd {
          ranges := ranges[idx + 1 := Range(rangeEnd + 1, otherEnd - rangeEnd, other.kind)];
          assert ranges == head + Above(tail, e);
          return;
        } else {
          ranges := ranges[..idx + 1] + ranges[idx + 2..];
          tail := tail[1..];
          assert ranges == head + tail;
        }
      }
      assert Above(tail, e) == tail;
    }

    /** Cut the range before the new one back, splitting it if it reaches beyond. */
    method ClipPrevious(idx: nat, rangeEnd: nat, ghost rs: seq<Range>, ghost r: Range)
      requires idx <= |rs| && (idx > 0 ==> rs[idx - 1].start < r.start)
      requires ranges == rs[..idx] + [r] + rs[idx..] && rangeEnd == r.End() - 1 && r.size > 0
      modifies this
      ensures ranges == Clipped(rs, idx, r)
    {
      if idx != 0 {
        var other := ranges[idx - 1];
        var otherEnd := other.start + other.size - 1;
        if ranges[idx].start <= otherEnd {
          if otherEnd > rangeEnd {
            ranges := ranges[..idx + 1] + [Range(rangeEnd + 1, otherEnd - rangeEnd, other.kind)] + ranges[idx + 1..];
          }
          ranges := ranges[idx - 1 := other.(size := ranges[idx].start - other.start)];
        }
      }
    }

    /** Add a range of memory. */
    method MapInsert(start: nat, size: nat, kind: nat)
      requires Valid() && Range(start, size, kind).Ok() && Range(start, size, kind).Paged()
      modifies this
      ensures Valid() && Updated(old(ranges), ranges, start, start + size, Some(kind))
    {
      ghost var rs, r := ranges, Range(start, size, kind);
      var idx := InsertRange(start, size, kind);
      OverlayOk(rs, r);
      OverlayPaged(rs, r);
      OverlayMerged(rs, r);
      forall a: nat { OverlayType(rs, r, a); }
      idx := MergeRanges(idx);
    }

    /** Remove a range of memory: insert it and take it out again. */
    method MapRemove(start: nat, size: nat)
      requires Valid() && Range(start, size, INTERNAL).Ok() && Range(start, size, INTERNAL).Paged()
      modifies this
      ensures Valid() && Updated(old(ranges), ranges, start, start + size, None)
    {
      hide Below, Above, TypeAt, Merged, Sorted;
      ghost var rs, e := ranges, start + size;
      var idx := InsertRange(start, size, INTERNAL);
      TakenOut(Below(rs, start), Range(start, size, INTERNAL), Above(rs, e));
      ranges := ranges[..idx] + ranges[idx + 1..];
      CutOut(rs, start, e);
      CutPaged(rs, start, e);
    }

    /** Search for a free block, from the top of the list or from the bottom. */
    method FindFree(lim: Limits, high: bool) returns (found: bool, phys: nat)
      requires Valid() && lim.Ok()
      ensures RightAnswer(ranges, lim, high, found, phys) <==> !Misled(ranges, lim, high)
      ensures Misled(ranges, lim, high) ==> found && phys > lim.maxAddr
    {
      var i := if high then |ranges| - 1 else 0;
      found, phys := false, 0;
      while 0 <= i < |ranges|
        invariant -1 <= i <= |ranges|
        invariant forall j, a: nat | 0 <= j < |ranges| && (if high then i < j else j < i) ::
                    !lim.FitsIn(ranges[j], a)
        invariant high ==> forall j | i < j < |ranges| :: !lim.Underflows(ranges[j])
        decreases if high then i else |ranges| - i
      {
        found, phys := IsSuitableRange(ranges[i], lim, high);
        if found {
          if high && lim.Underflows(ranges[i]) {
            forall a: nat { UnderflowMeansNoFit(ranges, lim, i, a); }
            assert ranges[i] in ranges;
          } else {
            FirstIsBest(ranges, lim, high, i, phys);
          }
          return;
        }
        i := if high then i - 1 else i + 1;
      }
      forall a: nat { FitsSomewhere(ranges, lim, a); }
    }

    /** Allocate physical memory.  None is the NULL result or, without the can-fail
        flag, the boot error.  `wild` says that the search was misled to a block outside the
        limits, which the loader would enter in the map; the model stops there. */
    method MemoryAlloc(size: nat, align: nat, minAddr: nat, maxAddr: nat, kind: nat, high: bool)
      returns (r: Option<nat>, wild: bool)
      requires Valid() && kind != FREE && EffectiveLimits(physMin, size, align, minAddr, maxAddr).Ok()
      modifies this
      ensures Valid()
      ensures wild <==> Misled(old(ranges), EffectiveLimits(physMin, size, align, minAddr, maxAddr), high)
      ensures r == None ==> ranges == old(ranges) && NoneWanted(ranges, physMin, size, align, minAddr, maxAddr)
      ensures r.Some? ==> BestWanted(old(ranges), physMin, size, align, minAddr, maxAddr, high, r.value)
      ensures r.Some? ==> Updated(old(ranges), ranges, r.value, r.value + size, Some(kind))
    {
      hide TypeAt, Sorted, Merged;
      var effAlign := if align == 0 then PAGE_SIZE else align;
      var effMin := if minAddr == 0 then physMin else minAddr;
      var effMax := if maxAddr == 0 || maxAddr > PHYS_MAX then PHYS_MAX else maxAddr;
      var lim := Limits(size, effAlign, effMin, effMax);
      forall a: nat ensures Wanted(ranges, physMin, size, align, minAddr, maxAddr, a) <==> lim.Fits(ranges, a) {
        WantedIsFits(ranges, physMin, size, align, minAddr, maxAddr, a);
      }
      var found, start := FindFree(lim, high);
      r, wild := None, found && start > effMax;
      if found && !wild {
        PageMultiple(start, effAlign);
        MapInsert(start, size, kind);
        r := Some(start);
      }
    }

    /** Free physical memory.  `ok` is false where the source reports a bad address:
        when the block is not wholly of one type other than FREE. */
    method MemoryFree(phys: nat, size: nat) returns (ok: bool)
      requires Valid() && Range(phys, size, FREE).Ok() && Range(phys, size, FREE).Paged()
      modifies this
      ensures Valid()
      ensures ok == exists k :: k != FREE && AllOfType(old(ranges), phys, size, k)
      ensures if ok then Updated(old(ranges), ranges, phys, phys + size, Some(FREE)) else ranges == old(ranges)
    {
      var i := 0;
      while i < |ranges|
        invariant i <= |ranges| && ranges == old(ranges)
        invariant forall j | 0 <= j < i :: !(ranges[j].kind != FREE && Inside(ranges[j], phys, size))
      {
        var range := ranges[i];
        if range.kind != FREE {
          if phys >= range.start && phys + size - 1 <= range.start + range.size - 1 {
            InsideIsType(ranges, i, phys, size);
            MapInsert(phys, size, FREE);
            return true;
          }
        }
        i := i + 1;
      }
      if k :| k != FREE && AllOfType(ranges, phys, size, k) {
        var j := BlockInRange(ranges, phys, size, k);
        assert Inside(ranges[j], phys, size);
      }
      return false;
    }

    /** Turn all internal memory into free memory before the kernel is entered. */
    method Finalize()
      requires Valid()
      modifies this
      ensures Valid()
      ensures forall a: nat :: TypeAt(ranges, a)
                            == Reclaimed(TypeAt(old(ranges), a))
    {
      var i: nat := 0;
      while i < |ranges|
        invariant i <= |ranges| && Valid() && ReclaimedBelow(old(ranges), ranges, Bound(ranges, i))
        decreases |ranges| - i
      {
        ghost var before, at := ranges, i;
        if ranges[i].kind == INTERNAL {
          ranges := ranges[i := ranges[i].(kind := FREE)];
          ghost var mid := ranges;
          RetypeOk(before, i, FREE);
          i := MergeRanges(i);
          ReclaimStep(old(ranges), before, at, mid, ranges, i);
        } else {
          ReclaimSkip(old(ranges), ranges, i);
        }
        i := i + 1;
      }
      forall a: nat | Bound(ranges, i) <= a ensures TypeAt(ranges, a) == None {
        GapIsUnmapped(ranges, i, a);
      }
    }
  }

  /** The list after the new range `r` went in at `idx` and its predecessor was cut. */
  function Clipped(rs: seq<Range>, idx: nat, r: Range): seq<Range>
    requires idx <= |rs| && (idx > 0 ==> rs[idx - 1].start < r.start)
  {
    (if idx == 0 then [] else rs[..idx - 1] + [ClipEnd(rs[idx - 1], r.start)])
    + [r] + Remainder(rs, idx, r.End()) + rs[idx..]
  }

  /** What is left of the range before `idx` from `e` on. */
  function Remainder(rs: seq<Range>, idx: nat, e: nat): seq<Range>
    requires idx <= |rs|
  {
    if idx > 0 && rs[idx - 1].End() > e then [Range(e, rs[idx - 1].End() - e, rs[idx - 1].kind)] else []
  }

  /** The ranges after the new one still say what the map says from its end on. */
  lemma RemainderAbove(rs: seq<Range>, idx: nat, e: nat)
    requires Sorted(rs) && idx <= |rs| && (idx > 0 ==> rs[idx - 1].start < e)
    ensures Sorted(Remainder(rs, idx, e) + rs[idx..])
    ensures Above(Remainder(rs, idx, e) + rs[idx..], e) == Above(rs, e)
  {
    if idx > 0 && rs[idx - 1].End() > e {
      AboveSplit(rs, idx, e);
      AboveOk(rs, e);
    } else {
      assert Remainder(rs, idx, e) + rs[idx..] == rs[idx..];
      BeforeEnds(rs, idx, e);
      AboveDrop(rs, idx, e);
    }
  }

  /** Ranges that end by `e` do not matter to what is left from `e` on. */
  lemma {:induction false} AboveDrop(rs: seq<Range>, idx: nat, e: nat)
    requires idx <= |rs| && forall i | 0 <= i < idx :: rs[i].End() <= e
    ensures Above(rs, e) == Above(rs[idx..], e)
  {
    if idx > 0 {
      AboveDrop(rs[1..], idx - 1, e);
      assert rs[1..][idx - 1..] == rs[idx..];
    } else {
      assert rs[0..] == rs;
    }
  }

  /** When the range before `idx` reaches beyond `e`, its rest comes first. */
  lemma AboveSplit(rs: seq<Range>, idx: nat, e: nat)
    requires Sorted(rs) && 0 < idx <= |rs| && rs[idx - 1].start < e < rs[idx - 1].End()
    ensures Above(rs, e) == [Range(e, rs[idx - 1].End() - e, rs[idx - 1].kind)] + rs[idx..]
    ensures Above(Above(rs, e), e) == Above(rs, e)
  {
    AboveDrop(rs, idx - 1, e);
    assert rs[idx - 1..][1..] == rs[idx..];
  }

  lemma ClippedParts(rs: seq<Range>, idx: nat, r: Range)
    requires Sorted(rs) && r.Ok() && idx <= |rs|
    requires (idx > 0 ==> rs[idx - 1].start < r.start) && (idx < |rs| ==> r.start <= rs[idx].start)
    ensures idx == |Below(rs, r.start)| && |Clipped(rs, idx, r)| > idx
    ensures Clipped(rs, idx, r)[..idx + 1] == Below(rs, r.start) + [r]
    ensures Sorted(Clipped(rs, idx, r)[idx + 1..])
    ensures Above(Clipped(rs, idx, r)[idx + 1..], r.End()) == Above(rs, r.End())
  {
    BelowForm(rs, r.start, idx);
    RemainderAbove(rs, idx, r.End());
    BehindNew(if idx == 0 then [] else rs[..idx - 1] + [ClipEnd(rs[idx - 1], r.start)], r, Remainder(rs, idx, r.End()), rs[idx..]);
  }

  lemma {:induction false} BehindNew(x: seq<Range>, r: Range, y: seq<Range>, z: seq<Range>)
    ensures var s := x + [r] + y + z; s[..|x| + 1] == x + [r] && s[|x| + 1..] == y + z
  {
  }

  lemma BeforeEnds(rs: seq<Range>, idx: nat, e: nat)
    requires Sorted(rs) && idx <= |rs| && (idx > 0 ==> rs[idx - 1].End() <= e)
    ensures forall i | 0 <= i < idx :: rs[i].End() <= e
  {
    forall i | 0 <= i < idx ensures rs[i].End() <= e {
      if i < idx - 1 {
        assert rs[i].End() <= rs[idx - 1].start;
      }
    }
  }
}
