/** What a client of the device tree library sees: a tree written with the sequential writer
    and read back with node and property walks is the same tree. */
module FdtRoundTrip {
  import opened Bits
  import opened Common
  import opened FdtFormat
  import opened FdtTree
  import opened FdtBlob
  import opened FdtReader
  import W = FdtWriter

  predicate PropsWritable(props: Props) {
    forall k | 0 <= k < |props| :: PropWritable(props[k])
  }

  predicate PropWritable(p: (seq<Byte>, seq<Byte>)) {
    NoNul(p.0) && |p.1| <= INT_MAX
  }

  /** Names and keys are C strings, and every value has a length an int can hold. */
  predicate Writable(t: Tree)
    decreases t
  {
    NoNul(t.name) && PropsWritable(t.props) && AllWritable(t.children)
  }

  predicate AllWritable(ts: seq<Tree>)
    decreases ts
  {
    ts == [] || (Writable(ts[0]) && AllWritable(ts[1..]))
  }

  // ---- how much room a tree takes ----

  /** The strings block once all names of the properties are in it. */
  function PropsNames(strings: seq<Byte>, props: Props, dedup: bool): (r: seq<Byte>)
    ensures |r| >= |strings|
    decreases |props|
  {
    if props == [] then strings else PropsNames(W.WithName(strings, props[0].0, dedup), props[1..], dedup)
  }

  function TreeNames(strings: seq<Byte>, t: Tree, dedup: bool): (r: seq<Byte>)
    ensures |r| >= |strings|
    decreases t
  {
    ForestNames(PropsNames(strings, t.props, dedup), t.children, dedup)
  }

  function ForestNames(strings: seq<Byte>, ts: seq<Tree>, dedup: bool): (r: seq<Byte>)
    ensures |r| >= |strings|
    decreases ts
  {
    if ts == [] then strings else ForestNames(TreeNames(strings, ts[0], dedup), ts[1..], dedup)
  }

  /** Items and new names together. */
  ghost function Cost(items: seq<Item>, strings: seq<Byte>, after: seq<Byte>): int {
    SizeOf(items) + |after| - |strings|
  }

  lemma {:induction false} CostOfBoth(x: seq<Item>, y: seq<Item>, a: seq<Byte>, b: seq<Byte>, c: seq<Byte>)
    ensures Cost(x + y, a, c) == Cost(x, a, b) + Cost(y, b, c)
  {
    SizeOfAppend(x, y);
  }

  /** All names of a tree, each with its NUL. */
  function NameBytes(props: Props): nat {
    if props == [] then 0 else |props[0].0| + 1 + NameBytes(props[1..])
  }

  function TreeNameBytes(t: Tree): nat
    decreases t
  {
    NameBytes(t.props) + ForestNameBytes(t.children)
  }

  function ForestNameBytes(ts: seq<Tree>): nat
    decreases ts
  {
    if ts == [] then 0 else TreeNameBytes(ts[0]) + ForestNameBytes(ts[1..])
  }

  /** The strings block grows by all names without deduplication and by no more with it. */
  lemma {:induction false} PropsNamesSize(strings: seq<Byte>, props: Props, dedup: bool)
    ensures |PropsNames(strings, props, dedup)| <= |strings| + NameBytes(props)
    ensures !dedup ==> |PropsNames(strings, props, dedup)| == |strings| + NameBytes(props)
    decreases |props|
  {
    if props != [] {
      PropsNamesSize(W.WithName(strings, props[0].0, dedup), props[1..], dedup);
    }
  }

  lemma {:induction false} TreeNamesSize(strings: seq<Byte>, t: Tree, dedup: bool)
    ensures |TreeNames(strings, t, dedup)| <= |strings| + TreeNameBytes(t)
    ensures !dedup ==> |TreeNames(strings, t, dedup)| == |strings| + TreeNameBytes(t)
    decreases t
  {
    PropsNamesSize(strings, t.props, dedup);
    ForestNamesSize(PropsNames(strings, t.props, dedup), t.children, dedup);
  }

  lemma {:induction false} ForestNamesSize(strings: seq<Byte>, ts: seq<Tree>, dedup: bool)
    ensures |ForestNames(strings, ts, dedup)| <= |strings| + ForestNameBytes(ts)
    ensures !dedup ==> |ForestNames(strings, ts, dedup)| == |strings| + ForestNameBytes(ts)
    decreases ts
  {
    if ts != [] {
      TreeNamesSize(strings, ts[0], dedup);
      ForestNamesSize(TreeNames(strings, ts[0], dedup), ts[1..], dedup);
    }
  }

  // ---- writing ----

  /** Where the writer stands: the items so far, the strings block, and the room left. */
  datatype Mark = Mark(items: seq<Item>, names: seq<Byte>, room: int)

  ghost function Now(f: Fdt): Mark
    reads f, f.buf
  {
    Mark(f.items, W.Names(f), W.Room(f))
  }

  /** From one mark to another by writing these items, which fit. */
  ghost predicate Moved(m: Mark, m': Mark, x: seq<Item>, names: seq<Byte>) {
    m' == Mark(m.items + x, names, m.room - Cost(x, m.names, names)) && m'.room >= 0
  }

  /** Writing items from a mark on fails exactly if there is too little room for them. */
  ghost function Outcome(f: Fdt, err: int, m: Mark, x: seq<Item>, names: seq<Byte>): Condition
    reads f, f.buf
  {
    if && W.InStruct(f) && (err == 0 || err == NOSPACE || err == W.OUTSIDE)
       && (err == 0 <==> Cost(x, m.names, names) <= m.room) && (err == 0 ==> Moved(m, Now(f), x, names))
    then Intact else Broken
  }

  /** One more piece, after one that fitted. */
  lemma {:induction false} Both(f: Fdt, err: int, m: Mark, m': Mark, x: seq<Item>, mid: seq<Byte>, y: seq<Item>, names: seq<Byte>)
    requires Moved(m, m', x, mid) && Outcome(f, err, m', y, names) == Intact
    ensures Outcome(f, err, m, x + y, names) == Intact
  {
    hide W.InStruct, Cost, Now;
    CostOfBoth(x, y, m.names, mid, names);
    Assoc(m.items, x, y);
  }

  /** Where the first piece does not fit the whole does not. */
  lemma {:induction false} Neither(f: Fdt, err: int, m: Mark, x: seq<Item>, mid: seq<Byte>, y: seq<Item>, names: seq<Byte>)
    requires Outcome(f, err, m, x, mid) == Intact && err != 0 && |mid| <= |names|
    ensures Outcome(f, err, m, x + y, names) == Intact
  {
    CostOfBoth(x, y, m.names, mid, names);
  }

  method WriteProperty(f: Fdt, p: (seq<Byte>, seq<Byte>)) returns (err: int)
    requires W.InStruct(f) && PropWritable(p)
    modifies f, f.buf
    ensures f.buf == old(f.buf) && W.Rest(f) == old(W.Rest(f))
    ensures Outcome(f, err, old(Now(f)), [Property(p.0, p.1)], W.WithName(old(W.Names(f)), p.0, W.Dedup(f))) == Intact
  {
    hide W.State, PlaceFrom;
    SizeOfOne(Property(p.0, p.1));
    err := W.FdtProperty(f, p.0, p.1);
  }

  method WriteBegin(f: Fdt, name: seq<Byte>) returns (err: int)
    requires W.InStruct(f) && NoNul(name)
    modifies f, f.buf
    ensures f.buf == old(f.buf) && W.Rest(f) == old(W.Rest(f))
    ensures Outcome(f, err, old(Now(f)), [BeginNode(name)], old(W.Names(f))) == Intact
  {
    SizeOfOne(BeginNode(name));
    err := W.FdtBeginNode(f, name);
  }

  method WriteEnd(f: Fdt) returns (err: int)
    requires W.InStruct(f)
    modifies f, f.buf
    ensures f.buf == old(f.buf) && W.Rest(f) == old(W.Rest(f))
    ensures Outcome(f, err, old(Now(f)), [EndNode], old(W.Names(f))) == Intact
  {
    SizeOfOne(EndNode);
    err := W.FdtEndNode(f);
  }

  method WriteProps(f: Fdt, props: Props) returns (err: int)
    requires W.InStruct(f) && PropsWritable(props)
    modifies f, f.buf
    ensures f.buf == old(f.buf) && W.Rest(f) == old(W.Rest(f))
    ensures Outcome(f, err, old(Now(f)), PropItems(props), PropsNames(old(W.Names(f)), props, W.Dedup(f))) == Intact
    decreases |props|
  {
    hide W.State, PlaceFrom, W.WithName;
    ghost var m, d := Now(f), W.Dedup(f);
    err := 0;
    if props != [] {
      ghost var x, mid := [Property(props[0].0, props[0].1)], W.WithName(m.names, props[0].0, d);
      ghost var y, names := PropItems(props[1..]), PropsNames(m.names, props, d);
      assert PropWritable(props[0]) && PropsWritable(props[1..]);
      err := WriteProperty(f, props[0]);
      if err == 0 {
        ghost var m' := Now(f);
        err := WriteProps(f, props[1..]);
        Both(f, err, m, m', x, mid, y, names);
      } else {
        Neither(f, err, m, x, mid, y, names);
      }
    }
  }

  /** A node, its properties, its children in order, and its end. */
  method WriteTree(f: Fdt, t: Tree) returns (err: int)
    requires W.InStruct(f) && Writable(t)
    modifies f, f.buf
    ensures f.buf == old(f.buf) && W.Rest(f) == old(W.Rest(f))
    ensures Outcome(f, err, old(Now(f)), Items(t), TreeNames(old(W.Names(f)), t, W.Dedup(f))) == Intact
    decreases t
  {
    hide W.State, SizeOf;
    ghost var m, d := Now(f), W.Dedup(f);
    ghost var b, p, c, e := [BeginNode(t.name)], PropItems(t.props), Forest(t.children), [EndNode];
    ghost var mid, names := PropsNames(m.names, t.props, d), TreeNames(m.names, t, d);
    Regrouped(b, p, c, e);
    err := WriteBegin(f, t.name);
    if err != 0 {
      Neither(f, err, m, b, m.names, p + (c + e), names);
      return;
    }
    ghost var m' := Now(f);
    err := WriteProps(f, t.props);
    Both(f, err, m, m', b, m.names, p, mid);
    if err != 0 {
      Neither(f, err, m, b + p, mid, c + e, names);
      return;
    }
    m' := Now(f);
    err := WriteForest(f, t.children);
    Both(f, err, m, m', b + p, mid, c, names);
    if err != 0 {
      Neither(f, err, m, b + p + c, names, e, names);
      return;
    }
    m' := Now(f);
    err := WriteEnd(f);
    Both(f, err, m, m', b + p + c, names, e, names);
  }

  lemma {:induction false} Regrouped<T>(a: seq<T>, b: seq<T>, c: seq<T>, d: seq<T>)
    ensures a + b + c + d == a + (b + (c + d)) == a + b + (c + d)
  {
  }

  method WriteForest(f: Fdt, ts: seq<Tree>) returns (err: int)
    requires W.InStruct(f) && AllWritable(ts)
    modifies f, f.buf
    ensures f.buf == old(f.buf) && W.Rest(f) == old(W.Rest(f))
    ensures Outcome(f, err, old(Now(f)), Forest(ts), ForestNames(old(W.Names(f)), ts, W.Dedup(f))) == Intact
    decreases ts
  {
    hide W.State;
    ghost var m, d := Now(f), W.Dedup(f);
    err := 0;
    if ts != [] {
      ghost var mid, names := TreeNames(m.names, ts[0], d), ForestNames(m.names, ts, d);
      err := WriteTree(f, ts[0]);
      if err == 0 {
        ghost var m' := Now(f);
        err := WriteForest(f, ts[1..]);
        Both(f, err, m, m', Items(ts[0]), mid, Forest(ts[1..]), names);
      } else {
        Neither(f, err, m, Items(ts[0]), mid, Forest(ts[1..]), names);
      }
    }
  }

  // ---- reading ----

  /** fdt_getprop_by_offset: name and value of the property that is item m. */
  method GetPropByOffset(f: Fdt, offset: nat, ghost items: seq<Item>, ghost m: nat) returns (p: (seq<Byte>, seq<Byte>))
    requires Encoded(f, items) && m < |items| && items[m].Property? && offset == Off(items, m)
    ensures p == (items[m].key, items[m].data)
  {
    var len, nameoff := PropFields(f, offset, items, m);
    var data := StructBytes(f, offset + 12, offset + 12 + len);
    var key := StringBytesAt(f, nameoff, items[m].key);
    return (key, data);
  }

  method StringBytesAt(f: Fdt, nameoff: nat, ghost key: seq<Byte>) returns (s: seq<Byte>)
    requires Readable(f) && f.magic == FDT_MAGIC && f.totalsize < INT_MAX && f.off_dt_strings + f.size_dt_strings <= f.totalsize
    requires NamedAt(f.Strings(), nameoff, key) == Intact
    ensures s == key
  {
    StringEnd(f.Strings(), nameoff, key);
    var len := GetString(f, nameoff);
    SliceSlice(f.buf[..], f.off_dt_strings, f.off_dt_strings + f.size_dt_strings, nameoff, nameoff + len);
    return f.buf[..][f.off_dt_strings + nameoff..f.off_dt_strings + nameoff + len];
  }

  /** All properties of node k, by fdt_first_property_offset and fdt_next_property_offset. */
  method ReadProps(f: Fdt, nodeoffset: nat, ghost items: seq<Item>, ghost k: nat) returns (props: Props)
    requires Encoded(f, items) && k < |items| && items[k].BeginNode? && nodeoffset == Off(items, k)
    ensures props == PropsOf(items[k + 1..])
  {
    hide Reads, NextProp, PropsOf, Off, Encodes, Encoded;
    props := [];
    ghost var j := k + 1;
    var offset := FirstPropertyOffset(f, nodeoffset, items, k);
    while offset >= 0
      invariant k + 1 <= j <= |items| && PropReported(items, NextProp(items, j), offset)
      invariant props + PropsOf(items[j..]) == PropsOf(items[k + 1..])
      decreases |items| - j
    {
      PropsByNext(items, j);
      ghost var m := NextProp(items, j).at;
      var p := GetPropByOffset(f, offset, items, m);
      Onwards(props, p, PropsOf(items[m + 1..]));
      props := props + [p];
      offset := NextPropertyOffset(f, offset, items, m);
      j := m + 1;
    }
    PropsByNext(items, j);
  }

  lemma {:induction false} Onwards<T>(a: seq<T>, x: T, b: seq<T>)
    ensures a + ([x] + b) == a + [x] + b
  {
  }

  /** Every node with its depth, name and properties, by fdt_next_node from the root on. */
  method Dump(f: Fdt, ghost items: seq<Item>) returns (entries: seq<Entry>)
    requires Encoded(f, items) && items != [] && items[0].BeginNode?
    ensures entries == [Describe(items, 0, 0)] + WalkAt(items, 1, 0)
  {
    hide Reads, PropsOf, WalkAt, NextNode, Off, Encodes;
    entries := [];
    var offset, depth := 0, 0;
    ghost var k: nat := 0;
    ghost var all := [Describe(items, 0, 0)] + WalkAt(items, 1, 0);
    OffStart(items);
    while offset >= 0 && depth >= 0
      invariant if offset >= 0 && depth >= 0 then At(items, k, offset, depth, entries, all) else entries == all
      decreases if offset >= 0 && depth >= 0 then |items| - k else -1
    {
      var name := GetName(f, offset, items, k);
      var props := ReadProps(f, offset, items, k);
      WalkIsNextNode(items, k + 1, depth);
      NextNodeFacts(items, k + 1, depth, true);
      entries := entries + [Entry(depth, name, props)];
      ghost var s := NextNode(items, k + 1, depth, true);
      offset, depth := FdtNextNode(f, offset, depth, true, items, k);
      if s.Node? {
        Onwards(entries, Describe(items, s.at, s.depth), WalkAt(items, s.at + 1, s.depth));
        k := s.at;
      }
    }
  }

  ghost predicate At(items: seq<Item>, k: nat, offset: int, depth: int, entries: seq<Entry>, all: seq<Entry>) {
    && k < |items| && items[k].BeginNode? && offset == Off(items, k)
    && entries + [Describe(items, k, depth)] + WalkAt(items, k + 1, depth) == all
  }

  // ---- the reserve map ----

  /** How many entries stand before the first one of size zero. */
  function BeforeEmpty(entries: seq<(nat, nat)>): (n: nat)
    ensures n <= |entries|
  {
    if entries == [] || entries[0].1 == 0 then 0 else 1 + BeforeEmpty(entries[1..])
  }

  /** fdt_mem_rsv: is there room for the n-th entry? */
  method MemRsv(f: Fdt, n: nat) returns (ok: bool)
    requires Readable(f) && f.off_mem_rsvmap < U32 && 16 * n < U32 && f.totalsize >= HDRSIZE
    ensures ok <==> f.off_mem_rsvmap + 16 * n + 16 <= f.totalsize
  {
    var offset := 16 * n;
    var absoffset := (f.off_mem_rsvmap + offset) % U32;
    if absoffset < f.off_mem_rsvmap {
      return false;
    }
    return absoffset <= f.totalsize - 16;
  }

  method Load64(f: Fdt, at: nat) returns (w: nat)
    requires at + 8 <= f.buf.Length
    ensures w == Word64(f.buf[..], at)
  {
    w := Word64(f.buf[..], at);
  }

  /** fdt_get_mem_rsv */
  method GetMemRsv(f: Fdt, n: nat) returns (err: int, e: (nat, nat))
    requires Readable(f) && f.off_mem_rsvmap < U32 && 16 * n < U32 && f.totalsize >= HDRSIZE
    ensures err == if f.off_mem_rsvmap + 16 * n + 16 <= f.totalsize then 0 else BADOFFSET
    ensures err == 0 ==> EntryAt(f.buf[..], f.off_mem_rsvmap + 16 * n, e)
  {
    e := (0, 0);
    var ok := MemRsv(f, n);
    if !ok {
      return BADOFFSET, e;
    }
    var at := f.off_mem_rsvmap + 16 * n;
    var address := Load64(f, at);
    var size := Load64(f, at + 8);
    return 0, (address, size);
  }

  /** How many entries stand from `at` on before the first one of size zero; TRUNCATED if the
      bytes end before there is one. */
  function EmptyFrom(b: seq<Byte>, at: nat, total: nat): (r: int)
    requires total <= |b|
    ensures r == TRUNCATED || 0 <= r
    decreases total - at
  {
    if at + 16 > total then TRUNCATED
    else if Word64(b, at + 8) == 0 then 0
    else (var r := EmptyFrom(b, at + 16, total); if r < 0 then r else r + 1)
  }

  /** fdt_num_mem_rsv, on any bytes. */
  method NumMemRsv(f: Fdt) returns (r: int)
    requires Readable(f) && f.off_mem_rsvmap < U32 && f.totalsize >= HDRSIZE
    ensures r == EmptyFrom(f.buf[..], f.off_mem_rsvmap, f.totalsize)
  {
    ghost var b, at, total := f.buf[..], f.off_mem_rsvmap, f.totalsize;
    var i := 0;
    while true
      invariant i == 0 || at + 16 * i <= total
      invariant var e := EmptyFrom(b, at + 16 * i, total); EmptyFrom(b, at, total) == if e < 0 then e else i + e
      decreases total - i
    {
      var ok := MemRsv(f, i);
      if !ok {
        return TRUNCATED;
      }
      var size := Load64(f, f.off_mem_rsvmap + 16 * i + 8);
      if size == 0 {
        return i;
      }
      i := i + 1;
    }
  }

  /** On a map of entries that is the index of the first empty one. */
  lemma {:induction false} EmptyOfMap(b: seq<Byte>, at: nat, total: nat, entries: seq<(nat, nat)>)
    requires Reserved(b, at, entries) && at + 16 * |entries| <= total <= |b| && BeforeEmpty(entries) < |entries|
    ensures EmptyFrom(b, at, total) == BeforeEmpty(entries)
    decreases |entries|
  {
    assert EntryAt(b, at + 16 * 0, entries[0]);
    if entries[0].1 != 0 {
      forall k | 0 <= k < |entries| - 1 ensures EntryAt(b, at + 16 + 16 * k, entries[1..][k]) {
        assert EntryAt(b, at + 16 * (k + 1), entries[k + 1]);
      }
      EmptyOfMap(b, at + 16, total, entries[1..]);
    }
  }

  /** The reserve map reads back in full exactly when no entry of it has size zero. */
  lemma {:induction false} MapReadsBack(rsv: seq<(nat, nat)>)
    ensures BeforeEmpty(rsv + [(0, 0)]) <= |rsv|
    ensures BeforeEmpty(rsv + [(0, 0)]) == |rsv| <==> forall k | 0 <= k < |rsv| :: rsv[k].1 != 0
  {
    if rsv != [] {
      assert (rsv + [(0, 0)])[1..] == rsv[1..] + [(0, 0)];
      MapReadsBack(rsv[1..]);
      if rsv[0].1 != 0 && BeforeEmpty(rsv + [(0, 0)]) == |rsv| {
        forall k | 0 <= k < |rsv| ensures rsv[k].1 != 0 {
          assert k > 0 ==> rsv[k] == rsv[1..][k - 1];
        }
      }
      assert forall k | 0 <= k < |rsv| - 1 :: rsv[1..][k] == rsv[k + 1];
    }
  }

  /** All entries that fdt_num_mem_rsv counts. */
  method ReadMap(f: Fdt, ghost entries: seq<(nat, nat)>) returns (rsv: seq<(nat, nat)>)
    requires Readable(f) && Map(f.buf[..], f.off_mem_rsvmap, entries) == Intact && f.totalsize >= HDRSIZE
    requires f.off_mem_rsvmap + 16 * |entries| <= f.totalsize && BeforeEmpty(entries) < |entries|
    ensures rsv == entries[..BeforeEmpty(entries)]
  {
    hide Word64, EmptyFrom;
    EmptyOfMap(f.buf[..], f.off_mem_rsvmap, f.totalsize, entries);
    var n := NumMemRsv(f);
    rsv := [];
    while |rsv| < n
      invariant |rsv| <= n && rsv == entries[..|rsv|]
    {
      ghost var k := |rsv|;
      assert EntryAt(f.buf[..], f.off_mem_rsvmap + 16 * k, entries[k]);
      var _, e := GetMemRsv(f, |rsv|);
      rsv := rsv + [e];
    }
  }

  // ---- the round trip ----

  lemma {:induction false} FinishedIsEncoded(f: Fdt)
    requires W.Complete(f) && f.totalsize < INT_MAX
    ensures Encoded(f, f.items + [End])
    ensures Map(f.buf[..], f.off_mem_rsvmap, f.rsv + [(0, 0)]) == Intact
    ensures f.off_mem_rsvmap + 16 * |f.rsv + [(0, 0)]| <= f.totalsize
  {
  }

  /** A listing as the walk gives it is the tree's own. */
  lemma {:induction false} WalkIsListing(t: Tree)
    ensures var items := Items(t) + [End];
      items[0].BeginNode? && [Describe(items, 0, 0)] + WalkAt(items, 1, 0) == Listing(t, 0)
  {
    var items := Items(t) + [End];
    assert items[1..] == Items(t)[1..] + [End];
    WalkAtIsWalk(items, 1, 0);
    WalkRoot(t, [End]);
  }

  /** The bytes of a finished tree: header, reserve map with its terminator, structure with its
      terminator, and strings. */
  ghost function FinalSize(rsv: seq<(nat, nat)>, t: Tree, dedup: bool): nat {
    W.RSVMAP_START + 16 * (|rsv| + 1) + SizeOf(Items(t)) + |TreeNames([], t, dedup)| + TAGSIZE
  }

  /** It is the sum of the parts without deduplication, and at most that with it. */
  lemma {:induction false} FinalSizeIs(rsv: seq<(nat, nat)>, t: Tree, dedup: bool)
    ensures FinalSize(rsv, t, dedup) <= W.RSVMAP_START + 16 * (|rsv| + 1) + SizeOf(Items(t)) + TreeNameBytes(t) + TAGSIZE
    ensures !dedup ==> FinalSize(rsv, t, dedup) == W.RSVMAP_START + 16 * (|rsv| + 1) + SizeOf(Items(t)) + TreeNameBytes(t) + TAGSIZE
  {
    TreeNamesSize([], t, dedup);
  }

  /** The smallest tree takes eighty bytes.  A name that two properties share is kept once with
      deduplication and twice without. */
  lemma {:induction false} SizeExamples(key: seq<Byte>, dedup: bool)
    requires NoNul(key)
    ensures FinalSize([], Tree([], [], []), dedup) == 80
    ensures PropsNames([], [(key, []), (key, [])], dedup) == if dedup then key + [0] else key + [0] + (key + [0])
  {
    assert Items(Tree([], [], [])) == [BeginNode([]), EndNode] && [BeginNode([]), EndNode][1..] == [EndNode] && [EndNode][1..] == [];
    var p: Props := [(key, []), (key, [])];
    assert p[1..] == [(key, [])] && p[1..][1..] == [];
    assert key + [0] + [] == key + [0];
    assert StringAt(key + [0], 0, key);
    PlaceIsFirst(key + [0], key, 0, 0);
    assert PlaceFrom([], key, 0) < 0 && W.WithName([], key, dedup) == key + [0];
    var names := W.WithName(key + [0], key, dedup);
    assert PropsNames(key + [0], [(key, [])], dedup) == PropsNames(names, [], dedup) == names;
    assert PropsNames([], p, dedup) == PropsNames(key + [0], p[1..], dedup);
  }

  /** Write a tree and finish it: this succeeds exactly if the buffer is large enough. */
  method WriteAll(f: Fdt, bufsize: nat, flags: nat, rsv: seq<(nat, nat)>, t: Tree) returns (err: int)
    requires bufsize <= f.buf.Length && bufsize <= INT_MAX && Writable(t)
    requires forall k | 0 <= k < |rsv| :: rsv[k].0 < U64 && rsv[k].1 < U64
    modifies f, f.buf
    ensures f.buf == old(f.buf)
    ensures err == 0 <==> flags <= NO_NAME_DEDUP && FinalSize(rsv, t, flags == 0) <= bufsize
    ensures err == BADFLAGS <==> flags > NO_NAME_DEDUP && bufsize >= W.RSVMAP_START
    ensures err == 0 || err == BADFLAGS || err == NOSPACE || err == W.OUTSIDE
    ensures err == 0 ==> W.Complete(f) && f.items == Items(t) && f.rsv == rsv && f.totalsize == FinalSize(rsv, t, flags == 0)
    ensures err == 0 ==> W.Names(f) == TreeNames([], t, flags == 0)
  {
    hide W.State, W.Final;
    err := W.CreateWithFlags(f, bufsize, flags);
    if err != 0 {
      return;
    }
    err := WriteMap(f, rsv);
    if err != 0 {
      return;
    }
    assert W.Names(f) == [];
    err := WriteTree(f, t);
    if err != 0 {
      return;
    }
    assert f.items == Items(t);
    err := W.FdtFinish(f);
  }

  /** Write a tree, finish it, and read it back. */
  method WriteAndRead(buf: array<Byte>, bufsize: nat, flags: nat, rsv: seq<(nat, nat)>, t: Tree)
      returns (err: int, f: Fdt, entries: seq<Entry>, mapEntries: seq<(nat, nat)>)
    requires bufsize <= buf.Length && bufsize < INT_MAX && Writable(t)
    requires forall k | 0 <= k < |rsv| :: rsv[k].0 < U64 && rsv[k].1 < U64
    modifies buf
    ensures err == 0 <==> flags <= NO_NAME_DEDUP && FinalSize(rsv, t, flags == 0) <= bufsize
    ensures err == 0 ==> W.Complete(f) && f.items == Items(t) && f.rsv == rsv && f.totalsize == FinalSize(rsv, t, flags == 0)
    ensures err == 0 ==> entries == Listing(t, 0)
    ensures err == 0 ==> (mapEntries == rsv <==> forall k | 0 <= k < |rsv| :: rsv[k].1 != 0)
    ensures err == 0 ==> forall u :: Listing(u, 0) == entries ==> u == t
  {
    f := new Fdt(buf);
    entries, mapEntries := [], [];
    err := WriteAll(f, bufsize, flags, rsv, t);
    if err != 0 {
      return;
    }
    FinishedIsEncoded(f);
    WalkIsListing(t);
    entries := Dump(f, f.items + [End]);
    MapReadsBack(rsv);
    mapEntries := ReadMap(f, rsv + [(0, 0)]);
    assert (rsv + [(0, 0)])[..|rsv|] == rsv;
    forall u | Listing(u, 0) == entries ensures u == t {
      assert Listing(u, 0) + [] == Listing(t, 0) + [];
      ListingInjective(u, t, 0, [], []);
    }
  }

  /** fdt_add_reservemap_entry for each entry, and fdt_finish_reservemap. */
  method WriteMap(f: Fdt, rsv: seq<(nat, nat)>) returns (err: int)
    requires W.InMemrsv(f) && f.rsv == []
    requires forall k | 0 <= k < |rsv| :: rsv[k].0 < U64 && rsv[k].1 < U64
    modifies f, f.buf
    ensures f.buf == old(f.buf) && f.totalsize == old(f.totalsize) && f.last_comp_version == old(f.last_comp_version)
    ensures err == if W.RSVMAP_START + 16 * (|rsv| + 1) <= f.totalsize then 0 else NOSPACE
    ensures err == 0 ==> W.InStruct(f) && f.rsv == rsv && f.items == [] && f.size_dt_struct == 0 && f.size_dt_strings == 0
  {
    var k := 0;
    while k < |rsv|
      invariant k <= |rsv| && f.buf == old(f.buf) && W.InMemrsv(f) && f.rsv == rsv[..k]
      invariant f.totalsize == old(f.totalsize) && f.last_comp_version == old(f.last_comp_version)
    {
      err := W.AddReservemapEntry(f, rsv[k].0, rsv[k].1);
      if err != 0 {
        return;
      }
      assert rsv[..k + 1] == rsv[..k] + [rsv[k]];
      k := k + 1;
    }
    assert rsv[..k] == rsv;
    err := W.FinishReservemap(f);
  }
}
