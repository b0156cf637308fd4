/** The virtual space allocator: a list of regions, free or allocated, that tiles the managed
    space.  The space may be the whole 64-bit address space, whose size is stored as 0. */
module SpaceAllocator {
  import opened Common
  import opened RangeMap
  import MemoryMap

  /** The kinds of a region. */
  const AVAILABLE: nat := 0
  const ALLOCATED: nat := 1

  // ---- 64-bit sizes ----

  /** The size field of a region. */
  function Stored(r: Range): nat {
    r.size % U64
  }

  /** The region with that size field. */
  function Made(start: nat, stored: nat, kind: nat): Range {
    Range(start, if stored == 0 then U64 else stored, kind)
  }

  /** start + size - 1, in 64 bits. */
  function LastOf(start: nat, stored: nat): (r: nat)
    ensures r < U64
  {
    (start + stored + U64 - 1) % U64
  }

  function Last(r: Range): nat {
    LastOf(r.start, Stored(r))
  }

  lemma {:induction false} LastIs(r: Range)
    requires r.Ok()
    ensures Last(r) == r.End() - 1 && r == Made(r.start, Stored(r), r.kind)
  {
  }

  // ---- the lists an allocator can have ----

  /** Every address of the space is in some region and no other address is. */
  ghost predicate Covers(rs: seq<Range>, from: nat, to: nat) {
    forall a: nat :: TypeAt(rs, a).Some? <==> from <= a < to
  }

  predicate FreeApart(r: Range, q: Range) {
    !(r.End() == q.start && r.kind == AVAILABLE && q.kind == AVAILABLE)
  }

  predicate FreeApartAt(rs: seq<Range>, i: nat)
    requires i + 1 < |rs|
  {
    FreeApart(rs[i], rs[i + 1])
  }

  /** No two free regions touch. */
  predicate NoTouchingFree(rs: seq<Range>) {
    forall i: nat | i + 1 < |rs| :: FreeApartAt(rs, i)
  }

  predicate Kinds(rs: seq<Range>) {
    forall i | 0 <= i < |rs| :: rs[i].kind == AVAILABLE || rs[i].kind == ALLOCATED
  }

  ghost predicate Tiling(rs: seq<Range>, from: nat, to: nat) {
    Sorted(rs) && Covers(rs, from, to) && NoTouchingFree(rs) && Kinds(rs)
  }

  /** Laying an allocated region over the space keeps it tiled, without touching free regions. */
  lemma {:induction false} OverlayTiling(rs: seq<Range>, from: nat, to: nat, r: Range)
    requires Tiling(rs, from, to) && r.Ok() && r.kind == ALLOCATED && from <= r.start && r.End() <= to
    ensures Tiling(Overlay(rs, r), from, to)
  {
    OverlayOk(rs, r);
    forall a: nat ensures TypeAt(Overlay(rs, r), a).Some? <==> from <= a < to {
      OverlayType(rs, r, a);
    }
    OverlayApart(rs, r);
  }

  lemma {:induction false} OverlayApart(rs: seq<Range>, r: Range)
    requires Sorted(rs) && NoTouchingFree(rs) && Kinds(rs) && r.Ok() && r.kind == ALLOCATED
    ensures NoTouchingFree(Overlay(rs, r)) && Kinds(Overlay(rs, r))
  {
    var k := StartIndex(rs, r.start);
    var m := EndIndex(rs, r.End());
    BelowForm(rs, r.start, k);
    AboveForm(rs, r.End(), m);
    var x, y := Below(rs, r.start), Above(rs, r.End());
    BelowApart(rs, r.start, k, x);
    AboveApart(rs, r.End(), m, y);
    JoinApart(x, r, y);
  }

  lemma {:induction false} BelowApart(rs: seq<Range>, s: nat, k: nat, x: seq<Range>)
    requires Sorted(rs) && NoTouchingFree(rs) && Kinds(rs) && k <= |rs|
    requires (k > 0 ==> rs[k - 1].start < s) && x == if k == 0 then [] else rs[..k - 1] + [ClipEnd(rs[k - 1], s)]
    ensures NoTouchingFree(x) && Kinds(x)
  {
    forall i: nat | i + 1 < |x| ensures FreeApartAt(x, i) {
      assert FreeApartAt(rs, i);
      assert x[i] == rs[i] && x[i + 1].start == rs[i + 1].start && x[i + 1].kind == rs[i + 1].kind;
    }
  }

  lemma {:induction false} AboveApart(rs: seq<Range>, e: nat, m: nat, y: seq<Range>)
    requires Sorted(rs) && NoTouchingFree(rs) && Kinds(rs) && m <= |rs|
    requires (m < |rs| ==> e < rs[m].End()) && y == if m == |rs| then [] else [ClipStart(rs[m], e)] + rs[m + 1..]
    ensures NoTouchingFree(y) && Kinds(y)
  {
    forall i: nat | i + 1 < |y| ensures FreeApartAt(y, i) {
      assert FreeApartAt(rs, m + i);
      assert y[i].End() == rs[m + i].End() && y[i].kind == rs[m + i].kind && y[i + 1] == rs[m + i + 1];
    }
    forall i | 0 <= i < |y| ensures y[i].kind == AVAILABLE || y[i].kind == ALLOCATED {
      assert y[i].kind == rs[m + i].kind;
    }
  }

  lemma {:induction false} JoinApart(x: seq<Range>, r: Range, y: seq<Range>)
    requires NoTouchingFree(x) && NoTouchingFree(y) && Kinds(x) && Kinds(y) && r.kind == ALLOCATED
    ensures NoTouchingFree(x + [r] + y) && Kinds(x + [r] + y)
  {
    var s := x + [r] + y;
    forall i: nat | i + 1 < |s| ensures FreeApartAt(s, i) {
      if i + 1 < |x| {
        assert FreeApartAt(x, i);
      } else if i > |x| {
        assert FreeApartAt(y, i - |x| - 1);
      }
    }
  }

  // ---- requests ----

  /** round_up in 64 bits. */
  function RoundUp64(v: nat, align: nat): (r: nat)
    requires align > 0
    ensures r < U64
  {
    (if v % align != 0 then v - v % align + align else v) % U64
  }

  datatype Request = Request(size: nat, align: nat) {
    predicate Ok() {
      0 < size < U64 && 0 < align < U64
    }

    /** The address is aligned and the block lies wholly in available space. */
    ghost predicate Fits(rs: seq<Range>, a: nat)
      requires align > 0
    {
      a % align == 0 && forall x: nat | a <= x < a + size :: TypeAt(rs, x) == Some(AVAILABLE)
    }

    /** The same within one region. */
    predicate FitsIn(r: Range, a: nat)
      requires align > 0
    {
      r.kind == AVAILABLE && a % align == 0 && r.start <= a && a + size <= r.End()
    }

    /** The first aligned address from the start of a region on. */
    function First(r: Range): nat
      requires align > 0
    {
      MemoryMap.RoundUp(r.start, align)
    }

    /** The test of the source, in 64 bits. */
    predicate Passes(r: Range)
      requires align > 0
    {
      r.kind == AVAILABLE && LastOf(RoundUp64(r.start, align), size % U64) <= Last(r)
    }

    /** The test wraps around: the block would end beyond the last address. */
    predicate Wraps(r: Range)
      requires align > 0
    {
      First(r) + size > U64
    }
  }

  /** Free regions do not touch, so a free block lies in one region. */
  lemma {:induction false} BlockInRegion(rs: seq<Range>, a: nat, n: nat) returns (j: nat)
    requires Sorted(rs) && NoTouchingFree(rs) && n > 0
    requires forall x: nat | a <= x < a + n :: TypeAt(rs, x) == Some(AVAILABLE)
    ensures j < |rs| && rs[j].kind == AVAILABLE && rs[j].start <= a && a + n <= rs[j].End()
  {
    assert TypeAt(rs, a) == Some(AVAILABLE);
    j := FindIndex(rs, a);
    var e := rs[j].End();
    if e < a + n {
      assert TypeAt(rs, e) == Some(AVAILABLE);
      var k := FindIndex(rs, e);
      NextInLine(rs, j, k);
    }
  }

  lemma {:induction false} NextInLine(rs: seq<Range>, j: nat, k: nat)
    requires Sorted(rs) && j < |rs| && k < |rs| && rs[k].start <= rs[j].End() < rs[k].End()
    ensures k == j + 1 && rs[k].start == rs[j].End()
    ensures FreeApartAt(rs, j) ==> rs[j].kind != AVAILABLE || rs[k].kind != AVAILABLE
  {
    EndsInOrder(rs, k, j);
    Between(rs, j, k);
  }

  lemma {:induction false} EndsInOrder(rs: seq<Range>, i: nat, j: nat)
    requires Sorted(rs) && i < |rs| && j < |rs|
    ensures i <= j ==> rs[i].End() <= rs[j].End()
  {
  }

  lemma {:induction false} Between(rs: seq<Range>, j: nat, k: nat)
    requires Sorted(rs) && j < k < |rs|
    ensures k == j + 1 || (rs[j].End() < rs[j + 1].End() <= rs[k].start)
    ensures rs[j].End() <= rs[k].start
  {
  }

  lemma {:induction false} FitsSomewhere(rs: seq<Range>, q: Request, a: nat)
    requires Sorted(rs) && NoTouchingFree(rs) && q.Ok()
    ensures q.Fits(rs, a) <==> exists j :: 0 <= j < |rs| && q.FitsIn(rs[j], a)
  {
    if q.Fits(rs, a) {
      var j := BlockInRegion(rs, a, q.size);
      assert q.FitsIn(rs[j], a);
    }
    if j :| 0 <= j < |rs| && q.FitsIn(rs[j], a) {
      forall x: nat | a <= x < a + q.size ensures TypeAt(rs, x) == Some(AVAILABLE) {
        TypeAtIndex(rs, j, x);
      }
    }
  }

  /** The 64-bit test is right for a region where it does not wrap around, and where it does
      nothing fits the region. */
  lemma {:induction false} PassesExact(r: Range, q: Request)
    requires r.Ok() && q.Ok()
    ensures forall a: nat | q.FitsIn(r, a) :: q.First(r) <= a && !q.Wraps(r)
    ensures !q.Wraps(r) ==> RoundUp64(r.start, q.align) == q.First(r) && (q.Passes(r) <==> q.FitsIn(r, q.First(r)))
    ensures !q.Wraps(r) && !q.Passes(r) ==> forall a: nat :: !q.FitsIn(r, a)
  {
    MemoryMap.RoundUpIsSmallest(r.start, q.align);
    LastIs(r);
    RoundUpFits(r.start, q.align, q.size);
    forall a: nat | q.FitsIn(r, a) ensures q.First(r) <= a && !q.Wraps(r) {
      assert MemoryMap.Aligned(a, q.align);
    }
  }

  lemma {:induction false} RoundUpFits(v: nat, align: nat, size: nat)
    requires align > 0 && 0 < size < U64
    ensures var w := MemoryMap.RoundUp(v, align);
      w + size <= U64 ==> RoundUp64(v, align) == w && LastOf(w, size % U64) == w + size - 1
  {
  }

  /** The wrap-around shows in its result: an address below the region, or a block that ends
      beyond the last address. */
  lemma {:induction false} WrapSeen(r: Range, q: Request)
    requires r.Ok() && q.Ok()
    ensures var addr := RoundUp64(r.start, q.align);
      q.Wraps(r) <==> addr < r.start || addr + q.size > U64
  {
    MemoryMap.RoundUpIsSmallest(r.start, q.align);
  }

  /** Behind a region where the test wraps around it wraps around everywhere. */
  lemma {:induction false} WrapsOn(rs: seq<Range>, q: Request, i: nat, j: nat)
    requires Sorted(rs) && q.Ok() && i <= j < |rs| && q.Wraps(rs[i])
    ensures q.Wraps(rs[j])
  {
    MemoryMap.RoundUpIsSmallest(rs[i].start, q.align);
    MemoryMap.RoundUpIsSmallest(rs[j].start, q.align);
    assert MemoryMap.Aligned(q.First(rs[j]), q.align);
  }

  /** The lowest address that fits, or none if nothing fits. */
  ghost predicate RightAnswer(rs: seq<Range>, q: Request, found: bool, addr: nat)
    requires q.align > 0
  {
    && (found ==> q.Fits(rs, addr))
    && (forall a: nat | q.Fits(rs, a) :: found && addr <= a)
  }

  /** Nothing fits, but some region passes the test because it wraps around. */
  ghost predicate Misled(rs: seq<Range>, q: Request)
    requires q.align > 0
  {
    (forall a: nat :: !q.Fits(rs, a)) && exists r :: r in rs && q.Passes(r) && q.Wraps(r)
  }

  /** In a space that ends early enough the test never wraps around. */
  lemma {:induction false} RoomNeverMisled(rs: seq<Range>, q: Request, to: nat)
    requires Sorted(rs) && q.Ok() && (forall r | r in rs :: r.End() <= to) && to + q.align + q.size <= U64
    ensures !Misled(rs, q)
  {
    forall r | r in rs ensures !q.Wraps(r) {
      MemoryMap.RoundUpIsSmallest(r.start, q.align);
    }
  }

  /** The concrete case: the last page of the address space and an alignment of two pages. */
  lemma {:induction false} MisledExample()
    ensures var rs, q := [Range(U64 - 4096, 4096, AVAILABLE)], Request(4096, 8192);
      Sorted(rs) && NoTouchingFree(rs) && q.Ok() && Misled(rs, q)
  {
    var rs, q := [Range(U64 - 4096, 4096, AVAILABLE)], Request(4096, 8192);
    assert rs[0] in rs && q.Wraps(rs[0]) && q.Passes(rs[0]);
    forall a: nat ensures !q.Fits(rs, a) {
      FitsSomewhere(rs, q, a);
      PassesExact(rs[0], q);
    }
  }

  /** The first region that passes gives the answer for the whole space, unless it wraps. */
  lemma {:induction false} FirstIsBest(rs: seq<Range>, q: Request, i: nat)
    requires Sorted(rs) && NoTouchingFree(rs) && q.Ok() && i < |rs| && q.Passes(rs[i])
    requires forall j | 0 <= j < i :: !q.Passes(rs[j])
    ensures RightAnswer(rs, q, true, RoundUp64(rs[i].start, q.align)) <==> !Misled(rs, q)
    ensures q.Wraps(rs[i]) ==> Misled(rs, q)
  {
    var addr := RoundUp64(rs[i].start, q.align);
    PassesExact(rs[i], q);
    if q.Wraps(rs[i]) {
      NothingFits(rs, q, i);
      assert rs[i] in rs;
    } else {
      FitsSomewhere(rs, q, addr);
      forall a: nat | q.Fits(rs, a) ensures addr <= a {
        FitsSomewhere(rs, q, a);
        var j :| 0 <= j < |rs| && q.FitsIn(rs[j], a);
        PassesExact(rs[j], q);
        if i < j {
          assert rs[i].End() <= rs[j].start;
        }
      }
    }
  }

  /** Where the search stops, the wrap-around tells whether it was misled. */
  lemma {:induction false} SearchEnds(rs: seq<Range>, q: Request, i: nat)
    requires Sorted(rs) && NoTouchingFree(rs) && q.Ok() && i < |rs| && q.Passes(rs[i])
    requires forall j | 0 <= j < i :: !q.Passes(rs[j])
    ensures var addr := RoundUp64(rs[i].start, q.align);
      && (RightAnswer(rs, q, true, addr) <==> !Misled(rs, q))
      && (addr < rs[i].start || addr + q.size > U64 <==> Misled(rs, q))
      && (!Misled(rs, q) ==> q.FitsIn(rs[i], addr))
  {
    var addr := RoundUp64(rs[i].start, q.align);
    FirstIsBest(rs, q, i);
    PassesExact(rs[i], q);
    WrapSeen(rs[i], q);
    if !q.Wraps(rs[i]) {
      FitsSomewhere(rs, q, addr);
      assert q.FitsIn(rs[i], addr);
    }
  }

  lemma {:induction false} NothingFits(rs: seq<Range>, q: Request, i: nat)
    requires Sorted(rs) && NoTouchingFree(rs) && q.Ok() && i <= |rs|
    requires forall j | 0 <= j < i :: !q.Passes(rs[j])
    requires i < |rs| ==> q.Wraps(rs[i])
    ensures forall a: nat :: !q.Fits(rs, a)
  {
    forall a: nat ensures !q.Fits(rs, a) {
      FitsSomewhere(rs, q, a);
      forall j | 0 <= j < |rs| ensures !q.FitsIn(rs[j], a) {
        PassesExact(rs[j], q);
        if i <= j {
          WrapsOn(rs, q, i, j);
        }
      }
    }
  }

  lemma {:induction false} BehindHead(head: seq<Range>, tail: seq<Range>, r: Range)
    requires tail != []
    ensures var rs, k := head + tail, |head|;
      && rs[k] == tail[0] && rs[..k] + rs[k + 1..] == head + tail[1..]
      && rs[k := r] == head + ([r] + tail[1..])
  {
  }

  // ---- the allocator ----

  class Allocator {
    var start: nat
    var size: nat
    var regions: seq<Range>

    /** The end of the space: one past its last address, which may be 2^64. */
    ghost function Limit(): nat
      reads this
    {
      Made(start, size, AVAILABLE).End()
    }

    ghost predicate Valid()
      reads this
    {
      && size < U64 && Made(start, size, AVAILABLE).Ok() && Tiling(regions, start, Limit())
    }

    /** insert_region; `location` is the region to insert at, if it is known already. */
    method InsertRegion(rstart: nat, rsize: nat, kind: nat, location: int)
      requires rsize < U64 && Made(rstart, rsize, kind).Ok() && Sorted(regions)
      requires location < |regions| && (location >= 0 ==> regions[location].start <= rstart < regions[location].End())
      modifies this`regions
      ensures regions == Overlay(old(regions), Made(rstart, rsize, kind))
    {
      ghost var rs := regions;
      var region := Made(rstart, rsize, kind);
      LastIs(region);
      var end := Last(region);
      var idx := Place(rstart, location);
      regions := regions[..idx] + [region] + regions[idx..];
      ClipPrevious(idx, end, rs, region);
      MemoryMap.ClippedParts(rs, idx, region);
      SwallowFollowing(idx, end);
    }

    /** Where the new region goes: in front of the first region that does not start below it,
        or right behind the given one. */
    method Place(rstart: nat, location: int) returns (idx: nat)
      requires Sorted(regions)
      requires location < |regions| && (location >= 0 ==> regions[location].start <= rstart < regions[location].End())
      ensures idx <= |regions| && (idx > 0 ==> regions[idx - 1].start < rstart) && (idx < |regions| ==> rstart <= regions[idx].start)
    {
      idx := 0;
      if location < 0 {
        while idx < |regions| && !(rstart <= regions[idx].start)
          invariant idx <= |regions| && (idx > 0 ==> regions[idx - 1].start < rstart)
        {
          idx := idx + 1;
        }
      } else {
        idx := if rstart <= regions[location].start then location else location + 1;
        assert forall i, j | 0 <= i < j < |regions| :: regions[i].End() <= regions[j].start;
      }
    }

    /** Cut the region before the new one back, splitting it if it reaches beyond. */
    method ClipPrevious(idx: nat, end: nat, ghost rs: seq<Range>, ghost r: Range)
      requires idx <= |rs| && (idx > 0 ==> rs[idx - 1].start < r.start && rs[idx - 1].Ok())
      requires regions == rs[..idx] + [r] + rs[idx..] && end == r.End() - 1 && r.Ok()
      modifies this`regions
      ensures regions == MemoryMap.Clipped(rs, idx, r)
    {
      if idx != 0 {
        var exist := regions[idx - 1];
        LastIs(exist);
        var existEnd := Last(exist);
        if regions[idx].start <= existEnd {
          if existEnd > end {
            regions := regions[..idx + 1] + [Made(end + 1, existEnd - end, exist.kind)] + regions[idx + 1..];
          }
          regions := regions[idx - 1 := Made(exist.start, regions[idx].start - exist.start, exist.kind)];
        }
      }
    }

    /** Remove or cut the regions after the new one that it overlaps. */
    method SwallowFollowing(idx: nat, end: nat)
      requires idx < |regions| && Sorted(regions[idx + 1..])
      modifies this`regions
      ensures regions == old(regions[..idx + 1]) + Above(old(regions[idx + 1..]), end + 1)
    {
      ghost var head, tail, e := regions[..idx + 1], regions[idx + 1..], end + 1;
      while idx + 1 < |regions|
        invariant |head| == idx + 1 && regions == head + tail && Sorted(tail)
        invariant Above(tail, e) == Above(old(regions[idx + 1..]), e)
        decreases |regions|
      {
        var exist := regions[idx + 1];
        LastIs(exist);
        var existEnd := Last(exist);
        BehindHead(head, tail, if existEnd > end then Made(end + 1, existEnd - end, exist.kind) else exist);
        if exist.start > end {
          break;
        } else if existEnd > end {
          regions := regions[idx + 1 := Made(end + 1, existEnd - end, exist.kind)];
          return;
        } else {
          regions := regions[..idx + 1] + regions[idx + 2..];
          tail := tail[1..];
        }
      }
      assert Above(tail, e) == tail;
    }

    /** allocator_init: one free region over the whole space. */
    constructor (start: nat, size: nat)
      requires size < U64 && Made(start, size, AVAILABLE).Ok()
      ensures Valid() && this.start == start && this.size == size
      ensures forall a: nat :: TypeAt(regions, a) == if start <= a < Limit() then Some(AVAILABLE) else None
    {
      this.start := start;
      this.size := size;
      regions := [];
      new;
      InsertRegion(start, size, AVAILABLE, -1);
      assert regions == [Made(start, size, AVAILABLE)];
      assert regions[1..] == [];
    }

    /** Only addresses of the range [from, to) change, and they become allocated. */
    ghost predicate Taken(rs: seq<Range>, from: nat, to: nat)
      reads this
    {
      forall a: nat :: TypeAt(regions, a) == if from <= a < to then Some(ALLOCATED) else TypeAt(rs, a)
    }

    /** The search of allocator_alloc: its answer is right, exactly unless it is misled by a
        test that wraps around.  `wild` says that this happened. */
    method Search(asize: nat, align: nat) returns (i: nat, addr: nat, wild: bool)
      requires Sorted(regions) && NoTouchingFree(regions) && Request(asize, align).Ok()
      ensures i <= |regions| && (RightAnswer(regions, Request(asize, align), i < |regions|, addr) <==> !Misled(regions, Request(asize, align)))
      ensures wild <==> Misled(regions, Request(asize, align))
      ensures i < |regions| && !wild ==> Request(asize, align).FitsIn(regions[i], addr)
    {
      ghost var q := Request(asize, align);
      i := 0;
      while i < |regions|
        invariant i <= |regions| && forall j | 0 <= j < i :: !q.Passes(regions[j])
      {
        var region := regions[i];
        if region.kind == AVAILABLE {
          addr := RoundUp64(region.start, align);
          if LastOf(addr, asize % U64) <= Last(region) {
            wild := addr < region.start || addr + asize > U64;
            SearchEnds(regions, q, i);
            return;
          }
        }
        i := i + 1;
      }
      NothingFits(regions, q, |regions|);
      assert forall r | r in regions :: !q.Passes(r);
      addr, wild := 0, false;
    }

    /** allocator_alloc: it takes the lowest aligned free block of the space, and fails exactly
        if there is none.  When the search is misled the loader enters a region that is not
        free, or runs over the last address; the model stops there. */
    method Alloc(asize: nat, align0: nat) returns (found: bool, addr: nat, wild: bool)
      requires Valid() && 0 < asize < U64 && align0 < U64 && asize % PAGE_SIZE == 0 && align0 % PAGE_SIZE == 0
      modifies this`regions
      ensures Valid()
      ensures wild <==> Misled(old(regions), Request(asize, if align0 == 0 then PAGE_SIZE else align0))
      ensures !wild ==> RightAnswer(old(regions), Request(asize, if align0 == 0 then PAGE_SIZE else align0), found, addr)
      ensures !wild && found ==> Taken(old(regions), addr, addr + asize)
      ensures wild || !found ==> regions == old(regions)
    {
      var align := if align0 == 0 then PAGE_SIZE else align0;
      var i;
      i, addr, wild := Search(asize, align);
      found := i < |regions|;
      if found && !wild {
        FitInSpace(regions, Request(asize, align), i, addr, start, Limit());
        TakeRegion(addr, asize, i);
      }
    }

    /** The new allocated region, laid over the space. */
    method TakeRegion(addr: nat, asize: nat, location: int)
      requires Valid() && 0 < asize && start <= addr && addr + asize <= Limit()
      requires location < |regions| && (location >= 0 ==> regions[location].start <= addr < regions[location].End())
      modifies this`regions
      ensures Valid() && Taken(old(regions), addr, addr + asize)
    {
      ghost var rs, r := regions, Range(addr, asize, ALLOCATED);
      assert Made(addr, asize % U64, ALLOCATED) == r;
      InsertRegion(addr, asize % U64, ALLOCATED, location);
      OverlayTiling(rs, start, Limit(), r);
      forall a: nat ensures TypeAt(regions, a) == if addr <= a < addr + asize then Some(ALLOCATED) else TypeAt(rs, a) {
        OverlayType(rs, r, a);
      }
    }

    /** allocator_reserve: the part of the range that lies in the space becomes allocated; a range
        that runs over the last address reserves nothing at all. */
    method Reserve(addr0: nat, rsize: nat)
      requires Valid() && addr0 < U64 && 0 < rsize < U64 && addr0 % PAGE_SIZE == 0 && rsize % PAGE_SIZE == 0
      modifies this`regions
      ensures Valid()
      ensures addr0 + rsize <= U64 ==>
        Taken(old(regions), Max(addr0, start), Min(addr0 + rsize, Limit()))
      ensures addr0 + rsize > U64 ==> regions == old(regions)
    {
      var regionEnd, allocEnd := LastOf(addr0, rsize), LastOf(start, size);
      assert allocEnd == Limit() - 1;
      var addr, end := Max(addr0, start), Min(regionEnd, allocEnd);
      if end < addr {
        return;
      }
      hide Taken;
      TakeRegion(addr, end - addr + 1, -1);
    }

    /** allocator_insert: it succeeds exactly if no allocated address lies in the range, and
        then takes it. A range that runs over the last address always succeeds and takes nothing. */
    method Insert(addr: nat, isize: nat) returns (ok: bool)
      requires Valid() && addr < U64 && 0 < isize < U64 && addr % PAGE_SIZE == 0 && isize % PAGE_SIZE == 0
      modifies this`regions
      ensures Valid()
      ensures addr + isize <= U64 ==> (ok <==> forall a: nat | addr <= a < addr + isize :: TypeAt(old(regions), a) != Some(ALLOCATED))
      ensures addr + isize <= U64 && ok ==> Taken(old(regions), Max(addr, start), Min(addr + isize, Limit()))
      ensures !ok ==> regions == old(regions)
      ensures addr + isize > U64 ==> ok && regions == old(regions)
    {
      var regionEnd := LastOf(addr, isize);
      var i := 0;
      while i < |regions|
        invariant Valid() && regions == old(regions) && start == old(start) && size == old(size)
        invariant i <= |regions| && (addr + isize <= U64 ==> forall j | 0 <= j < i :: !Overlaps(regions[j], addr, addr + isize))
      {
        var exist := regions[i];
        LastIs(exist);
        if exist.kind == ALLOCATED && Max(addr, exist.start) <= Min(regionEnd, Last(exist)) {
          TypeAtIndex(regions, i, Max(addr, exist.start));
          return false;
        }
        i := i + 1;
      }
      if addr + isize <= U64 {
        NoOverlap(regions, addr, addr + isize);
      }
      Reserve(addr, isize);
      return true;
    }
  }

  function Max(a: nat, b: nat): nat {
    if a < b then b else a
  }

  predicate Overlaps(r: Range, from: nat, to: nat) {
    r.kind == ALLOCATED && r.start < to && from < r.End()
  }

  lemma {:induction false} NoOverlap(rs: seq<Range>, from: nat, to: nat)
    requires forall j | 0 <= j < |rs| :: !Overlaps(rs[j], from, to)
    ensures forall a: nat | from <= a < to :: TypeAt(rs, a) != Some(ALLOCATED)
  {
    forall a: nat | from <= a < to ensures TypeAt(rs, a) != Some(ALLOCATED) {
      if TypeAt(rs, a).Some? {
        var i := FindIndex(rs, a);
        assert !Overlaps(rs[i], from, to);
      }
    }
  }

  /** A block that fits lies in the space. */
  lemma {:induction false} FitInSpace(rs: seq<Range>, q: Request, i: nat, addr: nat, from: nat, to: nat)
    requires Tiling(rs, from, to) && q.Ok() && i < |rs| && q.FitsIn(rs[i], addr)
    ensures from <= addr && addr + q.size <= to
  {
    TypeAtIndex(rs, i, addr);
    TypeAtIndex(rs, i, addr + q.size - 1);
  }
}
