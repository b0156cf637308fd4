/** The physical memory map as a value: a sorted list of typed page ranges, the
    address-to-type function it stands for, and the canonical form in which equal
    functions have equal lists. */
module RangeMap {
  import opened Common

  const PAGE_SIZE: nat := 4096

  const FREE: nat := 0
  const INTERNAL: nat := 6

  datatype Range = Range(start: nat, size: nat, kind: nat) {
    /** One past the last address. */
    function End(): nat {
      start + size
    }

    predicate Ok() {
      size > 0 && End() <= U64
    }

    predicate Paged() {
      start % PAGE_SIZE == 0 && size % PAGE_SIZE == 0
    }
  }

  predicate Sorted(rs: seq<Range>) {
    && (forall i | 0 <= i < |rs| :: rs[i].Ok())
    && (forall i, j | 0 <= i < j < |rs| :: rs[i].End() <= rs[j].start)
  }

  /** Neighbours that touch differ in type. */
  predicate Apart(r: Range, q: Range) {
    r.End() == q.start ==> r.kind != q.kind
  }

  predicate ApartAt(rs: seq<Range>, i: nat)
    requires i + 1 < |rs|
  {
    Apart(rs[i], rs[i + 1])
  }

  predicate Merged(rs: seq<Range>) {
    forall i: nat | i + 1 < |rs| :: ApartAt(rs, i)
  }

  predicate Canonical(rs: seq<Range>) {
    Sorted(rs) && Merged(rs)
  }

  predicate AllPaged(rs: seq<Range>) {
    forall i | 0 <= i < |rs| :: rs[i].Paged()
  }

  /** The type of address `a`, if the map covers it. */
  function TypeAt(rs: seq<Range>, a: nat): Option<nat> {
    if rs == [] then None
    else if rs[0].start <= a < rs[0].End() then Some(rs[0].kind)
    else TypeAt(rs[1..], a)
  }

  /** The part of the map below address `s`. */
  function Below(rs: seq<Range>, s: nat): seq<Range> {
    if rs == [] then []
    else if rs[0].End() <= s then [rs[0]] + Below(rs[1..], s)
    else if rs[0].start < s then [rs[0].(size := s - rs[0].start)]
    else []
  }

  /** The part of the map from address `e` on. */
  function Above(rs: seq<Range>, e: nat): seq<Range> {
    if rs == [] then []
    else if rs[0].End() <= e then Above(rs[1..], e)
    else if rs[0].start < e then [Range(e, rs[0].End() - e, rs[0].kind)] + rs[1..]
    else rs
  }

  /** Laying `r` over the map. */
  function Overlay(rs: seq<Range>, r: Range): seq<Range> {
    Below(rs, r.start) + [r] + Above(rs, r.End())
  }

  // ---- the function of a map ----

  lemma {:induction false} TypeAtConcat(x: seq<Range>, y: seq<Range>, a: nat)
    ensures TypeAt(x + y, a) == if TypeAt(x, a).Some? then TypeAt(x, a) else TypeAt(y, a)
  {
    if x == [] {
      assert x + y == y;
    } else {
      assert (x + y)[1..] == x[1..] + y;
      TypeAtConcat(x[1..], y, a);
    }
  }

  lemma {:induction false} TypeAtIndex(rs: seq<Range>, i: nat, a: nat)
    requires Sorted(rs) && i < |rs| && rs[i].start <= a < rs[i].End()
    ensures TypeAt(rs, a) == Some(rs[i].kind)
  {
    if i > 0 {
      assert rs[0].End() <= rs[i].start;
      TypeAtIndex(rs[1..], i - 1, a);
    }
  }

  lemma {:induction false} FindIndex(rs: seq<Range>, a: nat) returns (i: nat)
    requires TypeAt(rs, a).Some?
    ensures i < |rs| && rs[i].start <= a < rs[i].End() && TypeAt(rs, a) == Some(rs[i].kind)
  {
    if rs[0].start <= a < rs[0].End() {
      i := 0;
    } else {
      i := FindIndex(rs[1..], a);
      i := i + 1;
    }
  }

  lemma {:induction false} TypeAtOutside(rs: seq<Range>, a: nat)
    requires forall i | 0 <= i < |rs| :: a < rs[i].start || rs[i].End() <= a
    ensures TypeAt(rs, a) == None
  {
    if rs != [] {
      TypeAtOutside(rs[1..], a);
    }
  }

  // ---- cutting a map at an address ----

  function ClipEnd(r: Range, s: nat): Range
    requires r.start < s
  {
    if r.End() <= s then r else r.(size := s - r.start)
  }

  function ClipStart(r: Range, e: nat): Range
    requires e < r.End()
  {
    if r.start < e then Range(e, r.End() - e, r.kind) else r
  }

  /** Below keeps the ranges that start before `s` and cuts the last of them. */
  lemma {:induction false} BelowForm(rs: seq<Range>, s: nat, k: nat)
    requires Sorted(rs) && k <= |rs|
    requires k > 0 ==> rs[k - 1].start < s
    requires k < |rs| ==> s <= rs[k].start
    ensures Below(rs, s) == if k == 0 then [] else rs[..k - 1] + [ClipEnd(rs[k - 1], s)]
  {
    if k > 1 {
      assert rs[0].End() <= rs[k - 1].start;
      BelowForm(rs[1..], s, k - 1);
      assert [rs[0]] + rs[1..][..k - 2] == rs[..k - 1];
    } else if k == 1 && rs[0].End() <= s && |rs| > 1 {
      assert rs[1..] != [] && Below(rs[1..], s) == [];
    }
  }

  /** Above keeps the ranges that end after `e` and cuts the first of them. */
  lemma {:induction false} AboveForm(rs: seq<Range>, e: nat, m: nat)
    requires Sorted(rs) && m <= |rs|
    requires m > 0 ==> rs[m - 1].End() <= e
    requires m < |rs| ==> e < rs[m].End()
    ensures Above(rs, e) == if m == |rs| then [] else [ClipStart(rs[m], e)] + rs[m + 1..]
  {
    if m > 0 {
      assert m > 1 ==> rs[0].End() <= rs[m - 1].start;
      AboveForm(rs[1..], e, m - 1);
      assert m < |rs| ==> rs[1..][m..] == rs[m + 1..];
    } else if rs != [] && rs[0].start >= e {
      assert rs == [rs[0]] + rs[1..];
    }
  }

  lemma {:induction false} StartIndex(rs: seq<Range>, s: nat) returns (k: nat)
    requires Sorted(rs)
    ensures k <= |rs| && (k > 0 ==> rs[k - 1].start < s) && (k < |rs| ==> s <= rs[k].start)
  {
    k := 0;
    while k < |rs| && rs[k].start < s
      invariant k <= |rs| && (k > 0 ==> rs[k - 1].start < s)
    {
      k := k + 1;
    }
  }

  lemma {:induction false} EndIndex(rs: seq<Range>, e: nat) returns (m: nat)
    requires Sorted(rs)
    ensures m <= |rs| && (m > 0 ==> rs[m - 1].End() <= e) && (m < |rs| ==> e < rs[m].End())
  {
    m := 0;
    while m < |rs| && rs[m].End() <= e
      invariant m <= |rs| && (m > 0 ==> rs[m - 1].End() <= e)
    {
      m := m + 1;
    }
  }

  lemma BelowOk(rs: seq<Range>, s: nat)
    requires Sorted(rs)
    ensures Sorted(Below(rs, s)) && forall i | 0 <= i < |Below(rs, s)| :: Below(rs, s)[i].End() <= s
  {
    var k := StartIndex(rs, s);
    BelowForm(rs, s, k);
    var b := Below(rs, s);
    if k > 0 {
      ClipEndOk(rs[k - 1], s);
      assert forall i | 0 <= i < k - 1 :: b[i] == rs[i] && b[i].End() <= rs[k - 1].start;
    }
  }

  lemma ClipEndOk(r: Range, s: nat)
    requires r.Ok() && r.start < s
    ensures ClipEnd(r, s).Ok() && ClipEnd(r, s).start == r.start && ClipEnd(r, s).End() <= s
    ensures ClipEnd(r, s).End() <= r.End() && ClipEnd(r, s).kind == r.kind
  {
  }

  lemma ClipStartOk(r: Range, e: nat)
    requires r.Ok() && e < r.End()
    ensures ClipStart(r, e).Ok() && ClipStart(r, e).End() == r.End() && e <= ClipStart(r, e).start
    ensures r.start <= ClipStart(r, e).start && ClipStart(r, e).kind == r.kind
  {
  }

  lemma BelowMerged(rs: seq<Range>, s: nat)
    requires Canonical(rs)
    ensures Merged(Below(rs, s))
  {
    hide Below;
    var k := StartIndex(rs, s);
    BelowForm(rs, s, k);
    var b := Below(rs, s);
    if k > 0 {
      ClipEndOk(rs[k - 1], s);
    }
    forall i: nat | i + 1 < |b| ensures ApartAt(b, i) {
      assert ApartAt(rs, i);
      assert b[i] == rs[i] && b[i + 1].start == rs[i + 1].start && b[i + 1].kind == rs[i + 1].kind;
    }
  }

  lemma AboveOk(rs: seq<Range>, e: nat)
    requires Sorted(rs)
    ensures Sorted(Above(rs, e)) && forall i | 0 <= i < |Above(rs, e)| :: e <= Above(rs, e)[i].start
  {
    hide Above;
    var m := EndIndex(rs, e);
    AboveForm(rs, e, m);
    var b := Above(rs, e);
    if m < |rs| {
      ClipStartOk(rs[m], e);
      assert forall i | 0 < i < |b| :: b[i] == rs[m + i] && b[0].End() <= b[i].start;
    }
  }

  lemma AboveMerged(rs: seq<Range>, e: nat)
    requires Canonical(rs)
    ensures Merged(Above(rs, e))
  {
    var m := EndIndex(rs, e);
    AboveForm(rs, e, m);
    var b := Above(rs, e);
    if m < |rs| {
      ClipStartOk(rs[m], e);
    }
    forall i: nat | i + 1 < |b| ensures ApartAt(b, i) {
      assert ApartAt(rs, m + i);
      assert b[i].End() == rs[m + i].End() && b[i].kind == rs[m + i].kind && b[i + 1] == rs[m + i + 1];
    }
  }

  lemma {:induction false} BelowType(rs: seq<Range>, s: nat, a: nat)
    requires Sorted(rs)
    ensures TypeAt(Below(rs, s), a) == if a < s then TypeAt(rs, a) else None
  {
    if rs != [] {
      BelowType(rs[1..], s, a);
      if rs[0].End() > s && a < s {
        TypeAtOutside(rs[1..], a);
      }
    }
  }

  lemma {:induction false} AboveType(rs: seq<Range>, e: nat, a: nat)
    requires Sorted(rs)
    ensures TypeAt(Above(rs, e), a) == if a < e then None else TypeAt(rs, a)
  {
    if rs != [] {
      if rs[0].End() <= e {
        AboveType(rs[1..], e, a);
      } else if rs[0].start < e {
        assert Above(rs, e)[1..] == rs[1..];
        if a < e {
          TypeAtOutside(rs[1..], a);
        }
      } else if a < e {
        TypeAtOutside(rs, a);
      }
    }
  }

  /** Laying a range over a map changes the function exactly inside the range. */
  lemma OverlayType(rs: seq<Range>, r: Range, a: nat)
    requires Sorted(rs) && r.Ok()
    ensures TypeAt(Overlay(rs, r), a) == if r.start <= a < r.End() then Some(r.kind) else TypeAt(rs, a)
  {
    var x, y := Below(rs, r.start), Above(rs, r.End());
    BelowType(rs, r.start, a);
    AboveType(rs, r.End(), a);
    TypeAtConcat(x + [r], y, a);
    TypeAtConcat(x, [r], a);
  }

  lemma {:induction false} BelowPaged(rs: seq<Range>, s: nat)
    requires AllPaged(rs) && s % PAGE_SIZE == 0
    ensures AllPaged(Below(rs, s))
  {
    if rs != [] {
      BelowPaged(rs[1..], s);
    }
  }

  lemma {:induction false} AbovePaged(rs: seq<Range>, e: nat)
    requires AllPaged(rs) && e % PAGE_SIZE == 0
    ensures AllPaged(Above(rs, e))
  {
    if rs != [] {
      AbovePaged(rs[1..], e);
    }
  }

  lemma OverlayPaged(rs: seq<Range>, r: Range)
    requires AllPaged(rs) && r.Paged()
    ensures AllPaged(Overlay(rs, r))
  {
    BelowPaged(rs, r.start);
    AbovePaged(rs, r.End());
  }

  lemma OverlayOk(rs: seq<Range>, r: Range)
    requires Sorted(rs) && r.Ok()
    ensures Sorted(Overlay(rs, r))
  {
    BelowOk(rs, r.start);
    AboveOk(rs, r.End());
  }

  /** Cutting a range out of a canonical map leaves it canonical. */
  lemma CutOut(rs: seq<Range>, s: nat, e: nat)
    requires Canonical(rs) && s < e
    ensures Canonical(Below(rs, s) + Above(rs, e))
    ensures forall a: nat ::
              TypeAt(Below(rs, s) + Above(rs, e), a) == if s <= a < e then None else TypeAt(rs, a)
  {
    var x, y := Below(rs, s), Above(rs, e);
    BelowOk(rs, s);
    BelowMerged(rs, s);
    AboveOk(rs, e);
    AboveMerged(rs, e);
    forall i: nat | i + 1 < |x + y| ensures ApartAt(x + y, i) {
      if i + 1 < |x| {
        assert ApartAt(x, i);
      } else if i >= |x| {
        assert ApartAt(y, i - |x|);
      }
    }
    forall a: nat ensures TypeAt(x + y, a) == if s <= a < e then None else TypeAt(rs, a) {
      BelowType(rs, s, a);
      AboveType(rs, e, a);
      TypeAtConcat(x, y, a);
    }
  }

  // ---- canonical maps are determined by their functions ----

  lemma FirstMapped(x: seq<Range>, y: seq<Range>)
    requires Sorted(x) && Sorted(y) && x != []
    requires forall a: nat :: TypeAt(x, a) == TypeAt(y, a)
    ensures y != [] && y[0].start <= x[0].start
  {
    var a := x[0].start;
    assert TypeAt(x, a) == Some(x[0].kind);
    var j := FindIndex(y, a);
  }

  /** The range that holds the address right after range `j` is its neighbour, so in
      a canonical map it has another type. */
  lemma NextTouches(rs: seq<Range>, j: nat, k: nat)
    requires Canonical(rs) && j < |rs| && k < |rs| && rs[k].start <= rs[j].End() < rs[k].End()
    ensures k == j + 1 && rs[k].kind != rs[j].kind
  {
    assert k > j;
    assert rs[j + 1].Ok();
    assert ApartAt(rs, j);
  }

  lemma FirstNotShorter(x: seq<Range>, y: seq<Range>)
    requires Canonical(x) && Canonical(y) && x != [] && y != []
    requires x[0].start == y[0].start
    requires forall a: nat :: TypeAt(x, a) == TypeAt(y, a)
    ensures y[0].End() <= x[0].End() && x[0].kind == y[0].kind
  {
    assert TypeAt(x, x[0].start) == TypeAt(y, x[0].start);
    var a := x[0].End();
    if a < y[0].End() {
      assert TypeAt(y, a) == Some(y[0].kind) == TypeAt(x, a);
      var j := FindIndex(x, a);
      NextTouches(x, 0, j);
    }
  }

  lemma TailCanonical(x: seq<Range>)
    requires Canonical(x) && x != []
    ensures Canonical(x[1..])
  {
    forall i: nat | i + 1 < |x[1..]| ensures ApartAt(x[1..], i) {
      assert ApartAt(x, i + 1);
    }
  }

  lemma {:induction false} CanonicalUnique(x: seq<Range>, y: seq<Range>)
    requires Canonical(x) && Canonical(y)
    requires forall a: nat :: TypeAt(x, a) == TypeAt(y, a)
    ensures x == y
  {
    if x == [] {
      if y != [] {
        FirstMapped(y, x);
      }
    } else {
      FirstMapped(x, y);
      FirstMapped(y, x);
      FirstNotShorter(x, y);
      FirstNotShorter(y, x);
      assert x[0] == y[0];
      forall a: nat ensures TypeAt(x[1..], a) == TypeAt(y[1..], a) {
        if a < x[0].End() {
          TypeAtOutside(x[1..], a);
          TypeAtOutside(y[1..], a);
        } else {
          assert TypeAt(x, a) == TypeAt(y, a);
        }
      }
      TailCanonical(x);
      TailCanonical(y);
      CanonicalUnique(x[1..], y[1..]);
      assert x == [x[0]] + x[1..] && y == [y[0]] + y[1..];
    }
  }

  /** In a canonical map a block of one type lies within one range. */
  lemma BlockInRange(rs: seq<Range>, s: nat, n: nat, kind: nat) returns (j: nat)
    requires Canonical(rs) && n > 0
    requires forall a: nat | s <= a < s + n :: TypeAt(rs, a) == Some(kind)
    ensures j < |rs| && rs[j].kind == kind && rs[j].start <= s && s + n <= rs[j].End()
  {
    j := FindIndex(rs, s);
    var a := rs[j].End();
    if a < s + n {
      assert TypeAt(rs, a) == Some(kind);
      var k := FindIndex(rs, a);
      NextTouches(rs, j, k);
    }
  }
}
