/** Editing a finished device tree in place: pieces of the structure block and of the strings
    block are opened and closed by moving everything behind them. */
module FdtEdit {
  import opened Bits
  import opened Common
  import opened FdtFormat
  import opened FdtTree
  import opened FdtBlob
  import opened FdtReader
  import W = FdtWriter

  // ---- a tree that can be edited ----

  /** The blocks in order (fdt_blocks_misordered_), with room behind them. */
  ghost predicate Ordered(f: Fdt)
    reads f
  {
    && f.magic == FDT_MAGIC && f.totalsize < INT_MAX && f.totalsize <= f.buf.Length
    && f.off_mem_rsvmap >= HDRSIZE && f.off_mem_rsvmap + 16 <= f.off_dt_struct
    && f.off_dt_struct + f.size_dt_struct <= f.off_dt_strings
    && f.off_dt_strings + f.size_dt_strings <= f.totalsize
  }

  /** fdt_data_size_ */
  function DataSize(f: Fdt): nat
    reads f
  {
    f.off_dt_strings + f.size_dt_strings
  }

  /** The blocks of a tree: reserve map at `at`, `n` bytes of structure at `lo`, `strs` bytes
      of strings at `so`. */
  ghost function Blocks(b: seq<Byte>, at: nat, rsv: seq<(nat, nat)>, items: seq<Item>, lo: nat, n: nat, so: nat, strs: nat): Condition {
    if && at + 16 * |rsv| <= lo && lo + n <= so && so + strs <= |b|
       && Map(b, at, rsv) == Intact && Reads(b[lo..lo + n], items, b[so..so + strs]) == Intact
    then Intact else Broken
  }

  ghost predicate Editable(f: Fdt, items: seq<Item>)
    reads f, f.buf
  {
    Standing(f, items) == Intact
  }

  ghost function Standing(f: Fdt, items: seq<Item>): Condition
    reads f, f.buf
  {
    if Ordered(f)
    then Blocks(f.buf[..], f.off_mem_rsvmap, f.rsv, items, f.off_dt_struct, f.size_dt_struct, f.off_dt_strings, f.size_dt_strings)
    else Broken
  }

  lemma {:induction false} EditableIsEncoded(f: Fdt, items: seq<Item>)
    requires Editable(f, items)
    ensures Encoded(f, items)
  {
  }

  /** What an edit leaves alone. */
  ghost function Fixed(f: Fdt): (nat, nat, nat, nat, seq<(nat, nat)>)
    reads f
  {
    (f.magic, f.totalsize, f.off_mem_rsvmap, f.off_dt_struct, f.rsv)
  }

  // ---- splicing ----

  /** The bytes after fdt_splice_: what follows the old piece moves to follow the new one. */
  function Spliced(b: seq<Byte>, p: nat, oldlen: nat, newlen: nat, dsize: nat): (c: seq<Byte>)
    requires p + oldlen <= dsize && dsize <= |b| && dsize - oldlen + newlen <= |b|
    ensures |c| == |b|
  {
    Overwritten(b, p + newlen, b[p + oldlen..dsize])
  }

  method Splice(f: Fdt, p: nat, oldlen: nat, newlen: nat) returns (err: int)
    requires Ordered(f)
    modifies f.buf
    ensures err == if p + oldlen > DataSize(f) then BADOFFSET else if DataSize(f) - oldlen + newlen > f.totalsize then NOSPACE else 0
    ensures err == 0 ==> f.buf[..] == Spliced(old(f.buf[..]), p, oldlen, newlen, DataSize(f))
    ensures err != 0 ==> unchanged(f.buf)
  {
    var dsize := DataSize(f);
    if p + oldlen > dsize {
      return BADOFFSET;
    }
    if dsize - oldlen + newlen > f.totalsize {
      return NOSPACE;
    }
    var src, len := p + oldlen, dsize - (p + oldlen);
    assert src + len == dsize;
    Memmove(f.buf, p + newlen, src, len);
    return 0;
  }

  method SpliceStruct(f: Fdt, p: nat, oldlen: nat, newlen: nat) returns (err: int)
    requires Ordered(f) && f.off_dt_struct <= p && p + oldlen <= f.off_dt_struct + f.size_dt_struct
    modifies f`size_dt_struct, f`off_dt_strings, f.buf
    ensures err == if old(DataSize(f)) - oldlen + newlen > f.totalsize then NOSPACE else 0
    ensures err == 0 ==> f.buf[..] == old(Spliced(f.buf[..], p, oldlen, newlen, DataSize(f)))
    ensures err == 0 ==> f.size_dt_struct == old(f.size_dt_struct) - oldlen + newlen && f.off_dt_strings == old(f.off_dt_strings) - oldlen + newlen
    ensures err != 0 ==> unchanged(f) && unchanged(f.buf)
  {
    err := Splice(f, p, oldlen, newlen);
    if err != 0 {
      return;
    }
    f.size_dt_struct := f.size_dt_struct - oldlen + newlen;
    f.off_dt_strings := f.off_dt_strings - oldlen + newlen;
  }

  /** Where the pieces are after a splice within the structure block: it ended the old piece
      at q and ends the new one at q', and all that follows has moved by the difference. */
  lemma {:induction false} SplicedBytes(b: seq<Byte>, c: seq<Byte>, p: nat, oldlen: nat, newlen: nat, q: nat, q': nat, hi: nat, hi': nat, so: nat, so': nat, se: nat, se': nat)
    requires q == p + oldlen && q' == p + newlen && q <= hi <= so <= se <= |b| && se' <= |b|
    requires hi' - q' == hi - q && so' - q' == so - q && se' - q' == se - q
    requires c == Spliced(b, p, oldlen, newlen, se)
    ensures |c| == |b| && c[..q'] == b[..q'] && c[q'..hi'] == b[q..hi] && c[so'..se'] == b[so..se]
  {
    var s := b[q..se];
    OverwrittenSame(b, q', s);
    assert c[q'..se'] == s;
    SliceSlice(c, q', se', 0, hi - q);
    SliceSlice(b, q, se, 0, hi - q);
    SliceSlice(c, q', se', so - q, se - q);
    SliceSlice(b, q, se, so - q, se - q);
  }

  /** The structure block before and after, in three parts each. */
  lemma {:induction false} SplicedParts(b: seq<Byte>, c: seq<Byte>, lo: nat, hi: nat, hi': nat, p: nat, q: nat, q': nat)
    requires lo <= p <= q <= hi <= |b| && p <= q' <= hi' <= |c| && c[..p] == b[..p] && c[q'..hi'] == b[q..hi]
    ensures b[lo..hi] == b[lo..p] + b[p..q] + b[q..hi]
    ensures c[lo..hi'] == b[lo..p] + c[p..q'] + b[q..hi]
    ensures c[..lo] == b[..lo]
  {
    Prefix(b, c, lo, p);
    Cut3(b, lo, p, q, hi);
    Cut3(c, lo, p, q', hi');
  }

  lemma {:induction false} StructSpliced(b: seq<Byte>, c: seq<Byte>, lo: nat, n: nat, so: nat, strs: nat, n': nat, so': nat,
                      p: nat, q: nat, q': nat, oldlen: nat, newlen: nat, dsize: nat)
    requires dsize == so + strs <= |b| && lo + n <= so && so' + strs <= |b|
    requires lo <= p && q == p + oldlen <= lo + n && q' == p + newlen && n' == n - oldlen + newlen && so' == so - oldlen + newlen
    requires c == Spliced(b, p, oldlen, newlen, dsize)
    ensures |c| == |b| && c[..p] == b[..p] && c[..lo] == b[..lo]
    ensures b[lo..lo + n] == b[lo..p] + b[p..q] + b[q..lo + n]
    ensures c[lo..lo + n'] == b[lo..p] + c[p..q'] + b[q..lo + n]
    ensures c[q'..lo + n'] == b[q..lo + n] && c[so'..so' + strs] == b[so..so + strs]
  {
    SplicedBytes(b, c, p, oldlen, newlen, q, q', lo + n, lo + n', so, so', dsize, so' + strs);
    assert c[..p] == c[..q'][..p] && b[..p] == b[..q'][..p];
    SplicedParts(b, c, lo, lo + n, lo + n', p, q, q');
  }

  /** A run of items replaced: the bytes of the new run stand where the old run stood, what
      followed has moved along, and the strings have moved with it. */
  lemma {:induction false} BlocksReplaced(b: seq<Byte>, c: seq<Byte>, at: nat, rsv: seq<(nat, nat)>, x: seq<Item>, y: seq<Item>, y': seq<Item>, z: seq<Item>,
                       lo: nat, n: nat, so: nat, strs: nat, n': nat, so': nat,
                       x0: seq<Byte>, y0: seq<Byte>, z0: seq<Byte>, piece: seq<Byte>)
    requires Blocks(b, at, rsv, x + y + z, lo, n, so, strs) == Intact && |b| == |c|
    requires b[lo..lo + n] == x0 + y0 + z0 && |x0| == SizeOf(x) && |y0| == SizeOf(y)
    requires lo + n' <= so' && so' + strs <= |c| && c[lo..lo + n'] == x0 + piece + z0
    requires c[..lo] == b[..lo] && c[so'..so' + strs] == b[so..so + strs]
    requires Reads(piece, y', b[so..so + strs]) == Intact
    ensures Blocks(c, at, rsv, x + y' + z, lo, n', so', strs) == Intact
  {
    RunReplaced(x0, y0, z0, piece, x, y, y', z, b[so..so + strs]);
    ReservedKept(b, c, at, rsv, lo);
  }

  lemma {:induction false} RunReplaced(x0: seq<Byte>, y0: seq<Byte>, z0: seq<Byte>, piece: seq<Byte>, x: seq<Item>, y: seq<Item>, y': seq<Item>, z: seq<Item>, strings: seq<Byte>)
    requires Reads(x0 + y0 + z0, x + y + z, strings) == Intact && Reads(piece, y', strings) == Intact && |x0| == SizeOf(x) && |y0| == SizeOf(y)
    ensures Reads(x0 + piece + z0, x + y' + z, strings) == Intact
  {
    var s := x0 + y0 + z0;
    EncodesSplice(s, piece, x, y, y', z, |x0|, |y0|, strings, 0);
    assert s[..|x0|] == x0 && s[|x0| + |y0|..] == z0;
  }

  lemma {:induction false} Prefix<T>(b: seq<T>, c: seq<T>, lo: nat, p: nat)
    requires lo <= p <= |b| && p <= |c| && b[..p] == c[..p]
    ensures b[lo..p] == c[lo..p] && b[..lo] == c[..lo]
  {
    assert b[lo..p] == b[..p][lo..] && c[lo..p] == c[..p][lo..];
    assert b[..lo] == b[..p][..lo] && c[..lo] == c[..p][..lo];
  }

  lemma {:induction false} Cut3<T>(c: seq<T>, lo: nat, p: nat, q: nat, hi: nat)
    requires lo <= p <= q <= hi <= |c|
    ensures c[lo..hi] == c[lo..p] + c[p..q] + c[q..hi]
  {
  }

  // ---- fdt_del_node ----

  /** Everything but items k up to e. */
  function Without(items: seq<Item>, k: nat, e: nat): seq<Item>
    requires k <= e <= |items|
  {
    items[..k] + items[e..]
  }

  /** Items k up to e closed up. */
  lemma {:induction false} BlocksClosed(b: seq<Byte>, c: seq<Byte>, at: nat, rsv: seq<(nat, nat)>, items: seq<Item>, k: nat, e: nat,
                     lo: nat, n: nat, so: nat, strs: nat, m: nat, p: nat, oldlen: nat, n': nat, so': nat, dsize: nat)
    requires Blocks(b, at, rsv, items, lo, n, so, strs) == Intact && k <= e <= |items| && dsize == so + strs && p == lo + m
    requires m == Off(items, k) && m + oldlen == Off(items, e) <= n && n' == n - oldlen && so' == so - oldlen
    requires c == Spliced(b, p, oldlen, 0, dsize)
    ensures Blocks(c, at, rsv, Without(items, k, e), lo, n', so', strs) == Intact
  {
    var x, y, z, q := items[..k], items[k..e], items[e..], p + oldlen;
    ThreeParts(items, k, e);
    SizeOfAppend(x, y);
    StructSpliced(b, c, lo, n, so, strs, n', so', p, q, p, oldlen, 0, dsize);
    NothingEncoded([], b[so..so + strs]);
    BlocksReplaced(b, c, at, rsv, x, y, [], z, lo, n, so, strs, n', so', b[lo..p], b[p..q], b[q..lo + n], []);
  }

  lemma {:induction false} ThreeParts(items: seq<Item>, k: nat, e: nat)
    requires k <= e <= |items|
    ensures items == items[..k] + items[k..e] + items[e..] && items[..e] == items[..k] + items[k..e]
    ensures items[..k] + [] + items[e..] == items[..k] + items[e..]
  {
  }

  lemma {:induction false} NothingEncoded(b: seq<Byte>, strings: seq<Byte>)
    requires b == []
    ensures Reads(b, [], strings) == Intact
  {
  }

  /** fdt_del_node: the node that is item k, up to its end. */
  method FdtDelNode(f: Fdt, nodeoffset: nat, ghost items: seq<Item>, ghost k: nat) returns (err: int)
    requires Editable(f, items) && k < |items| && items[k].BeginNode? && nodeoffset == Off(items, k)
    modifies f, f.buf
    ensures f.buf == old(f.buf) && Fixed(f) == old(Fixed(f))
    ensures err == 0 <==> EndAt(items, k + 1, 0).Some?
    ensures err == 0 ==> Editable(f, Without(items, k, EndAt(items, k + 1, 0).value))
    ensures err != 0 ==> unchanged(f) && unchanged(f.buf)
  {
    EditableIsEncoded(f, items);
    var endoffset := NodeEndOffset(f, nodeoffset, items, k);
    if endoffset < 0 {
      return endoffset;
    }
    err := CloseItems(f, nodeoffset, endoffset, items, k, EndAt(items, k + 1, 0).value);
  }

  /** Splice the items from k up to e out of the tree. */
  method CloseItems(f: Fdt, from: nat, to: nat, ghost items: seq<Item>, ghost k: nat, ghost e: nat) returns (err: int)
    requires Editable(f, items) && k <= e <= |items| && from == Off(items, k) && to == Off(items, e)
    modifies f, f.buf
    ensures f.buf == old(f.buf) && Fixed(f) == old(Fixed(f))
    ensures err == 0 && Editable(f, Without(items, k, e))
  {
    OffMono(items, k, e);
    OffLast(f.Struct(), items, e, f.Strings());
    ghost var b, n, so, dsize := f.buf[..], f.size_dt_struct, f.off_dt_strings, DataSize(f);
    var p, oldlen := f.off_dt_struct + from, to - from;
    err := SpliceStruct(f, p, oldlen, 0);
    BlocksClosed(b, f.buf[..], f.off_mem_rsvmap, f.rsv, items, k, e, f.off_dt_struct, n, so, f.size_dt_strings,
                 from, p, oldlen, f.size_dt_struct, f.off_dt_strings, dsize);
  }

  lemma {:induction false} OffLast(s: seq<Byte>, items: seq<Item>, e: nat, strings: seq<Byte>)
    requires Reads(s, items, strings) == Intact && e <= |items|
    ensures Off(items, e) <= |s|
  {
    OffBounds(s, items, e, strings);
  }

  lemma {:induction false} OffMono(items: seq<Item>, k: nat, e: nat)
    requires k <= e <= |items|
    ensures Off(items, k) <= Off(items, e)
  {
    assert items[..e] == items[..k] + items[k..e];
    SizeOfAppend(items[..k], items[k..e]);
  }

  // ---- pieces written into the gap ----

  /** After a splice, and writes from w on up to the end of the new piece. */
  lemma {:induction false} StructOpened(b: seq<Byte>, c: seq<Byte>, d: seq<Byte>, lo: nat, n: nat, so: nat, strs: nat, n': nat, so': nat,
                     w: nat, p: nat, q: nat, q': nat, oldlen: nat, newlen: nat, dsize: nat)
    requires dsize == so + strs <= |b| && lo + n <= so && so' + strs <= |b|
    requires lo <= w <= p && q == p + oldlen <= lo + n && q' == p + newlen && n' == n - oldlen + newlen && so' == so - oldlen + newlen
    requires c == Spliced(b, p, oldlen, newlen, dsize) && Frame(c, d, w, q') == Intact
    ensures |d| == |b| && d[..lo] == b[..lo]
    ensures b[lo..lo + n] == b[lo..w] + b[w..q] + b[q..lo + n]
    ensures d[lo..lo + n'] == b[lo..w] + d[w..q'] + b[q..lo + n]
    ensures d[so'..so' + strs] == b[so..so + strs]
  {
    hide Spliced;
    StructSpliced(b, c, lo, n, so, strs, n', so', p, q, q', oldlen, newlen, dsize);
    Prefix(b, c, w, p);
    KeptSlice(c, d, w, q', q', lo + n');
    KeptSlice(c, d, w, q', so', so' + strs);
    SplicedParts(b, d, lo, lo + n, lo + n', w, q, q');
  }

  lemma {:induction false} OneRead(b: seq<Byte>, it: Item, strings: seq<Byte>)
    requires ItemState(b, it, strings, 0) == Intact
    ensures Reads(b, [it], strings) == Intact
  {
    EncodesOne(b, it, strings, 0);
  }

  /** Items k up to e replaced by a run of new items, written at w. */
  lemma {:induction false} BlocksOpened(b: seq<Byte>, c: seq<Byte>, d: seq<Byte>, at: nat, rsv: seq<(nat, nat)>, items: seq<Item>, k: nat, e: nat, more: seq<Item>,
                     lo: nat, n: nat, so: nat, strs: nat, n': nat, so': nat,
                     w: nat, p: nat, q: nat, q': nat, oldlen: nat, newlen: nat, dsize: nat)
    requires Blocks(b, at, rsv, items, lo, n, so, strs) == Intact && k <= e <= |items|
    requires dsize == so + strs && so' + strs <= |b| && w == lo + Off(items, k) && q == lo + Off(items, e) <= lo + n
    requires w <= p && q == p + oldlen && q' == p + newlen && n' == n - oldlen + newlen && so' == so - oldlen + newlen
    requires c == Spliced(b, p, oldlen, newlen, dsize) && Frame(c, d, w, q') == Intact
    requires Reads(d[w..q'], more, b[so..so + strs]) == Intact
    ensures Blocks(d, at, rsv, items[..k] + more + items[e..], lo, n', so', strs) == Intact
  {
    var x, y, z := items[..k], items[k..e], items[e..];
    ThreeParts(items, k, e);
    SizeOfAppend(x, y);
    StructOpened(b, c, d, lo, n, so, strs, n', so', w, p, q, q', oldlen, newlen, dsize);
    BlocksReplaced(b, d, at, rsv, x, y, more, z, lo, n, so, strs, n', so', b[lo..w], b[w..q], b[q..lo + n], d[w..q']);
  }

  // ---- fdt_setprop: an existing property ----

  /** A property with other data and its length to match. */
  function Rewritten(c: seq<Byte>, prop: nat, val: seq<Byte>): (d: seq<Byte>)
    requires prop + 12 + |val| <= |c| && |val| < U32
    ensures |d| == |c|
  {
    Overwritten(Overwritten(c, prop + 4, WordBytes(|val|)), prop + 12, val)
  }

  lemma {:induction false} RewrittenParts(c: seq<Byte>, prop: nat, val: seq<Byte>, end: nat)
    requires prop + 12 + |val| <= end <= |c| && |val| < U32
    ensures var d := Rewritten(c, prop, val);
      Frame(c, d, prop, end) == Intact && d[prop..prop + 4] == c[prop..prop + 4] && d[prop + 8..prop + 12] == c[prop + 8..prop + 12] &&
      d[prop + 4..prop + 8] == WordBytes(|val|) && d[prop + 12..prop + 12 + |val|] == val
  {
    var x := WordBytes(|val|);
    var e := Overwritten(c, prop + 4, x);
    KeptWrite(c, prop + 4, x, prop, end);
    KeptWrite(e, prop + 12, val, prop, end);
    KeptTrans(c, e, Rewritten(c, prop, val), prop, end);
    OverwrittenBefore(c, prop + 4, x, prop, prop + 4);
    OverwrittenAfter(c, prop + 4, x, prop + 8, prop + 12);
    OverwrittenSame(c, prop + 4, x);
    OverwrittenBefore(e, prop + 12, val, prop, prop + 4);
    OverwrittenBefore(e, prop + 12, val, prop + 4, prop + 8);
    OverwrittenBefore(e, prop + 12, val, prop + 8, prop + 12);
    OverwrittenSame(e, prop + 12, val);
  }

  lemma {:induction false} PieceRewritten(b: seq<Byte>, d: seq<Byte>, prop: nat, q: nat, q': nat, key: seq<Byte>, was: seq<Byte>, val: seq<Byte>, strings: seq<Byte>)
    requires prop <= q <= |b| && q' == prop + 12 + Align4(|val|) <= |d| && |val| < U32
    requires ItemState(b[prop..q], Property(key, was), strings, 0) == Intact
    requires d[prop..prop + 4] == b[prop..prop + 4] && d[prop + 8..prop + 12] == b[prop + 8..prop + 12]
    requires d[prop + 4..prop + 8] == WordBytes(|val|) && d[prop + 12..prop + 12 + |val|] == val
    ensures ItemState(d[prop..q'], Property(key, val), strings, 0) == Intact
  {
    var x, y := b[prop..q], d[prop..q'];
    SliceSlice(b, prop, q, 0, 4);
    SliceSlice(b, prop, q, 8, 12);
    SliceSlice(d, prop, q', 0, 4);
    SliceSlice(d, prop, q', 4, 8);
    SliceSlice(d, prop, q', 8, 12);
    SliceSlice(d, prop, q', 12, 12 + |val|);
    WordAt(x[0..4], x, 0, 0);
    WordAt(x[0..4], y, 0, 0);
    WordAt(x[8..12], x, 0, 8);
    WordAt(x[8..12], y, 0, 8);
    WordRoundTrip(|val|);
    WordAt(WordBytes(|val|), y, 0, 4);
  }

  /** All of it on the blocks. */
  lemma {:induction false} BlocksRewritten(b: seq<Byte>, c: seq<Byte>, d: seq<Byte>, at: nat, rsv: seq<(nat, nat)>, items: seq<Item>, m: nat, val: seq<Byte>,
                        lo: nat, n: nat, so: nat, strs: nat, n': nat, so': nat, prop: nat, p: nat, oldlen: nat, newlen: nat, dsize: nat)
    requires Blocks(b, at, rsv, items, lo, n, so, strs) == Intact && m < |items| && items[m].Property? && |val| < U32
    requires dsize == so + strs && so' + strs <= |b| && prop == lo + Off(items, m) && p == prop + 12
    requires oldlen == Align4(|items[m].data|) && newlen == Align4(|val|) && n' == n - oldlen + newlen && so' == so - oldlen + newlen
    requires p + oldlen <= dsize && c == Spliced(b, p, oldlen, newlen, dsize) && p + newlen <= |c| && d == Rewritten(c, prop, val)
    ensures Blocks(d, at, rsv, items[..m] + [Property(items[m].key, val)] + items[m + 1..], lo, n', so', strs) == Intact
  {
    var q, q', it := p + oldlen, p + newlen, items[m];
    ItemPlace(b, at, rsv, items, m, lo, n, so, strs);
    assert b[prop..q] == b[lo + Off(items, m)..lo + Off(items, m + 1)];
    assert it == Property(it.key, it.data);
    SplicedPrefix(b, c, p, oldlen, newlen, dsize);
    PieceSpliced(b, c, d, prop, p, q, q', it.key, it.data, val, b[so..so + strs]);
    OneRead(d[prop..q'], Property(it.key, val), b[so..so + strs]);
    BlocksOpened(b, c, d, at, rsv, items, m, m + 1, [Property(it.key, val)], lo, n, so, strs, n', so', prop, p, q, q', oldlen, newlen, dsize);
  }

  lemma {:induction false} SplicedPrefix(b: seq<Byte>, c: seq<Byte>, p: nat, oldlen: nat, newlen: nat, dsize: nat)
    requires p + oldlen <= dsize <= |b| && dsize - oldlen + newlen <= |b| && c == Spliced(b, p, oldlen, newlen, dsize)
    ensures |c| == |b| && c[..p] == b[..p]
  {
  }

  lemma {:induction false} PieceSpliced(b: seq<Byte>, c: seq<Byte>, d: seq<Byte>, prop: nat, p: nat, q: nat, q': nat, key: seq<Byte>, was: seq<Byte>, val: seq<Byte>, strings: seq<Byte>)
    requires p == prop + 12 <= q <= |b| && q' == p + Align4(|val|) <= |c| && |val| < U32 && |c| == |b| && c[..p] == b[..p]
    requires ItemState(b[prop..q], Property(key, was), strings, 0) == Intact && d == Rewritten(c, prop, val)
    ensures Frame(c, d, prop, q') == Intact
    ensures ItemState(d[prop..q'], Property(key, val), strings, 0) == Intact
  {
    Prefix(b, c, prop, p);
    SliceSlice(b, prop, p, 0, 4);
    SliceSlice(c, prop, p, 0, 4);
    SliceSlice(b, prop, p, 8, 12);
    SliceSlice(c, prop, p, 8, 12);
    RewrittenParts(c, prop, val, q');
    PieceRewritten(b, d, prop, q, q', key, was, val, strings);
  }

  lemma {:induction false} OffInBlocks(b: seq<Byte>, at: nat, rsv: seq<(nat, nat)>, items: seq<Item>, k: nat, lo: nat, n: nat, so: nat, strs: nat)
    requires Blocks(b, at, rsv, items, lo, n, so, strs) == Intact && k <= |items|
    ensures Off(items, k) <= n
  {
    OffBounds(b[lo..lo + n], items, k, b[so..so + strs]);
  }

  lemma {:induction false} ItemPlace(b: seq<Byte>, at: nat, rsv: seq<(nat, nat)>, items: seq<Item>, m: nat, lo: nat, n: nat, so: nat, strs: nat)
    requires Blocks(b, at, rsv, items, lo, n, so, strs) == Intact && m < |items|
    ensures Off(items, m) + Size(items[m]) == Off(items, m + 1) <= n
    ensures ItemState(b[lo + Off(items, m)..lo + Off(items, m + 1)], items[m], b[so..so + strs], 0) == Intact
  {
    OffBounds(b[lo..lo + n], items, m, b[so..so + strs]);
    SliceSlice(b, lo, lo + n, Off(items, m), Off(items, m + 1));
  }

  /** fdt_resize_property_ and the copy of fdt_setprop, for the property that is item m. */
  method SetExisting(f: Fdt, propoffset: nat, oldlen: nat, val: seq<Byte>, ghost items: seq<Item>, ghost m: nat) returns (err: int)
    requires Editable(f, items) && m < |items| && items[m].Property? && |val| <= INT_MAX
    requires propoffset == Off(items, m) && oldlen == |items[m].data|
    modifies f, f.buf
    ensures f.buf == old(f.buf) && Fixed(f) == old(Fixed(f))
    ensures err == if old(DataSize(f)) - Align4(oldlen) + Align4(|val|) > f.totalsize then NOSPACE else 0
    ensures err == 0 ==> Editable(f, items[..m] + [Property(items[m].key, val)] + items[m + 1..])
    ensures err != 0 ==> unchanged(f) && unchanged(f.buf)
  {
    hide Blocks, ItemState;
    ghost var b, n, so, dsize := f.buf[..], f.size_dt_struct, f.off_dt_strings, DataSize(f);
    ItemPlace(b, f.off_mem_rsvmap, f.rsv, items, m, f.off_dt_struct, n, so, f.size_dt_strings);
    var prop := f.off_dt_struct + propoffset;
    var p, space, newspace := prop + 12, Align4(oldlen), Align4(|val|);
    err := SpliceStruct(f, p, space, newspace);
    if err != 0 {
      return;
    }
    ghost var c := f.buf[..];
    StoreRewritten(f.buf, prop, val);
    BlocksRewritten(b, c, f.buf[..], f.off_mem_rsvmap, f.rsv, items, m, val, f.off_dt_struct, n, so, f.size_dt_strings,
                    f.size_dt_struct, f.off_dt_strings, prop, p, space, newspace, dsize);
  }

  method StoreRewritten(buf: array<Byte>, prop: nat, val: seq<Byte>)
    requires prop + 12 + |val| <= buf.Length && |val| < U32
    modifies buf
    ensures buf[..] == Rewritten(old(buf[..]), prop, val)
  {
    Memcpy(buf, prop + 4, WordBytes(|val|));
    if |val| > 0 {
      Memcpy(buf, prop + 12, val);
    } else {
      assert val == [];
      assert Overwritten(buf[..], prop + 12, []) == buf[..];
    }
  }

  // ---- fdt_setprop: a new property ----

  /** A string added behind the strings block. */
  lemma {:induction false} BlocksWithString(b: seq<Byte>, c: seq<Byte>, at: nat, rsv: seq<(nat, nat)>, items: seq<Item>, lo: nat, n: nat, so: nat, strs: nat, strs': nat, s: seq<Byte>)
    requires Blocks(b, at, rsv, items, lo, n, so, strs) == Intact && NoNul(s) && strs' == strs + |s| + 1
    requires so + strs' <= |b| && c == Overwritten(b, so + strs, s + [0])
    ensures Blocks(c, at, rsv, items, lo, n, so, strs') == Intact && Blocks(c, at, rsv, items, lo, n, so, strs) == Intact
    ensures NamedAt(c[so..so + strs'], strs, s) == Intact
    ensures c[so..so + strs] == b[so..so + strs] && c[so..so + strs'] == b[so..so + strs] + (s + [0])
  {
    var end, t := so + strs, s + [0];
    KeptWrite(b, end, t, end, end + |t|);
    KeptSlice(b, c, end, end + |t|, lo, lo + n);
    KeptSlice(b, c, end, end + |t|, so, end);
    ReservedKept(b, c, at, rsv, lo);
    OverwrittenSame(b, end, t);
    Cut(c, so, strs, |t|);
    ReadsMore(b[lo..lo + n], items, b[so..end], t);
    LastString(b[so..end], s);
  }

  lemma {:induction false} ReadsMore(s: seq<Byte>, items: seq<Item>, strings: seq<Byte>, more: seq<Byte>)
    requires Reads(s, items, strings) == Intact
    ensures Reads(s, items, strings + more) == Intact
  {
    AppendKeeps(strings, more);
    EncodesKept(s, items, strings, 0, strings + more, 0);
  }

  lemma {:induction false} LastString(strings: seq<Byte>, s: seq<Byte>)
    requires NoNul(s)
    ensures NamedAt(strings + (s + [0]), |strings|, s) == Intact
  {
    var t := strings + (s + [0]);
    assert t[|strings|..|strings| + |s| + 1] == s + [0];
    StringBytes(t, |strings|, s);
  }

  /** The blocks without the last string. */
  ghost function Before(f: Fdt, items: seq<Item>, strs: nat): Condition
    reads f, f.buf
  {
    Blocks(f.buf[..], f.off_mem_rsvmap, f.rsv, items, f.off_dt_struct, f.size_dt_struct, f.off_dt_strings, strs)
  }

  /** The strings block. */
  ghost function Names(f: Fdt): seq<Byte>
    reads f, f.buf
  {
    BytesAt(f.buf[..], f.off_dt_strings, f.size_dt_strings)
  }

  /** fdt_find_add_string_: the offset of the name, or NOSPACE. */
  method FindAddString(f: Fdt, s: seq<Byte>, ghost items: seq<Item>) returns (r: int, added: bool)
    requires Editable(f, items) && NoNul(s)
    modifies f`size_dt_strings, f.buf
    ensures added <==> r >= 0 && old(PlaceFrom(f.Strings(), s, 0)) < 0
    ensures r < 0 <==> old(PlaceFrom(f.Strings(), s, 0)) < 0 && old(DataSize(f)) + |s| + 1 > f.totalsize
    ensures r < 0 ==> r == NOSPACE && unchanged(f) && unchanged(f.buf)
    ensures Editable(f, items) && Before(f, items, old(f.size_dt_strings)) == Intact
    ensures f.size_dt_strings == old(f.size_dt_strings) + if added then |s| + 1 else 0
    ensures BytesAt(f.buf[..], f.off_dt_strings, old(f.size_dt_strings)) == old(Names(f))
    ensures Names(f) == old(Names(f)) + if added then s + [0] else []
    ensures r >= 0 ==> NamedAt(f.Strings(), r, s) == Intact && r < f.size_dt_strings
  {
    hide Blocks, PlaceFrom;
    added := false;
    r := FindString(f.buf, f.off_dt_strings, f.size_dt_strings, s);
    if r >= 0 {
      return;
    }
    if DataSize(f) + |s| + 1 > f.totalsize {
      return NOSPACE, false;
    }
    r := f.size_dt_strings;
    added := true;
    AppendString(f, s, items);
  }

  /** fdt_splice_string_ and the copy behind it. */
  method AppendString(f: Fdt, s: seq<Byte>, ghost items: seq<Item>)
    requires Editable(f, items) && NoNul(s) && DataSize(f) + |s| + 1 <= f.totalsize
    modifies f`size_dt_strings, f.buf
    ensures Editable(f, items) && Before(f, items, old(f.size_dt_strings)) == Intact
    ensures f.size_dt_strings == old(f.size_dt_strings) + |s| + 1
    ensures BytesAt(f.buf[..], f.off_dt_strings, old(f.size_dt_strings)) == old(Names(f))
    ensures Names(f) == old(Names(f)) + (s + [0])
    ensures NamedAt(f.Strings(), old(f.size_dt_strings), s) == Intact
  {
    hide Blocks;
    ghost var b, strs := f.buf[..], f.size_dt_strings;
    var end := f.off_dt_strings + f.size_dt_strings;
    Memcpy(f.buf, end, s + [0]);
    f.size_dt_strings := f.size_dt_strings + |s| + 1;
    BlocksWithString(b, f.buf[..], f.off_mem_rsvmap, f.rsv, items, f.off_dt_struct, f.size_dt_struct, f.off_dt_strings, strs, f.size_dt_strings, s);
  }

  /** The new property's bytes. */
  function PropWritten(c: seq<Byte>, prop: nat, nameoff: nat, val: seq<Byte>): (d: seq<Byte>)
    requires prop + 12 + Align4(|val|) <= |c| && nameoff < U32 && |val| < U32
    ensures |d| == |c|
  {
    Overwritten(W.PropertyStored(c, prop, nameoff, |val|), prop + 12, val)
  }

  lemma {:induction false} PropWrittenPiece(c: seq<Byte>, prop: nat, nameoff: nat, val: seq<Byte>, end: nat, key: seq<Byte>, strings: seq<Byte>)
    requires end == prop + 12 + Align4(|val|) <= |c| && nameoff < U32 && |val| < U32 && NamedAt(strings, nameoff, key) == Intact
    ensures var d := PropWritten(c, prop, nameoff, val);
      Frame(c, d, prop, end) == Intact && ItemState(d[prop..end], Property(key, val), strings, 0) == Intact
  {
    W.StoredItem(c, prop, nameoff, |val|, key, strings, 0, end);
    var e := W.PropertyStored(c, prop, nameoff, |val|);
    W.ItemData(e[prop..end], key, BytesAt(e, prop + 12, |val|), val, strings, 0);
    OverwrittenInside(e, prop + 12, val, prop, end);
    KeptWrite(e, prop + 12, val, prop, end);
    KeptTrans(c, e, PropWritten(c, prop, nameoff, val), prop, end);
  }

  lemma {:induction false} PropWrittenRead(c: seq<Byte>, d: seq<Byte>, prop: nat, nameoff: nat, val: seq<Byte>, end: nat, key: seq<Byte>, strings: seq<Byte>)
    requires end == prop + 12 + Align4(|val|) <= |c| && nameoff < U32 && |val| < U32 && NamedAt(strings, nameoff, key) == Intact
    requires d == PropWritten(c, prop, nameoff, val)
    ensures Frame(c, d, prop, end) == Intact && Reads(d[prop..end], [Property(key, val)], strings) == Intact
  {
    PropWrittenPiece(c, prop, nameoff, val, end, key, strings);
    OneRead(d[prop..end], Property(key, val), strings);
  }

  lemma {:induction false} BlocksAdded(b: seq<Byte>, c: seq<Byte>, d: seq<Byte>, at: nat, rsv: seq<(nat, nat)>, items: seq<Item>, k: nat, key: seq<Byte>, val: seq<Byte>,
                    lo: nat, n: nat, so: nat, strs: nat, n': nat, so': nat, prop: nat, newlen: nat, dsize: nat, nameoff: nat)
    requires Blocks(b, at, rsv, items, lo, n, so, strs) == Intact && k <= |items| && |val| < U32 && nameoff < U32
    requires dsize == so + strs && so' + strs <= |b| && prop == lo + Off(items, k) <= lo + n
    requires newlen == 12 + Align4(|val|) && n' == n + newlen && so' == so + newlen
    requires c == Spliced(b, prop, 0, newlen, dsize) && prop + newlen <= |c| && d == PropWritten(c, prop, nameoff, val)
    requires NamedAt(b[so..so + strs], nameoff, key) == Intact
    ensures Blocks(d, at, rsv, items[..k] + [Property(key, val)] + items[k..], lo, n', so', strs) == Intact
  {
    var end, strings := prop + newlen, b[so..so + strs];
    PropWrittenRead(c, d, prop, nameoff, val, end, key, strings);
    BlocksOpened(b, c, d, at, rsv, items, k, k, [Property(key, val)], lo, n, so, strs, n', so', prop, prop, prop, end, 0, newlen, dsize);
  }

  method StorePropWritten(buf: array<Byte>, prop: nat, nameoff: nat, val: seq<Byte>)
    requires prop + 12 + Align4(|val|) <= buf.Length && nameoff < U32 && |val| < U32
    modifies buf
    ensures buf[..] == PropWritten(old(buf[..]), prop, nameoff, val)
  {
    W.StoreProperty(buf, prop, nameoff, |val|);
    Memcpy(buf, prop + 12, val);
  }

  /** Open the gap and write the property in front of item k. */
  method InsertProp(f: Fdt, offset: nat, nameoff: nat, key: seq<Byte>, val: seq<Byte>, ghost items: seq<Item>, ghost k: nat) returns (err: int)
    requires Editable(f, items) && k <= |items| && offset == Off(items, k) && |val| <= INT_MAX
    requires nameoff <= INT_MAX && NamedAt(f.Strings(), nameoff, key) == Intact
    modifies f`size_dt_struct, f`off_dt_strings, f.buf
    ensures err == if old(DataSize(f)) + 12 + Align4(|val|) > f.totalsize then NOSPACE else 0
    ensures err == 0 ==> Editable(f, items[..k] + [Property(key, val)] + items[k..])
    ensures err != 0 ==> unchanged(f) && unchanged(f.buf)
  {
    hide Blocks, NamedAt;
    ghost var b, n, so, dsize := f.buf[..], f.size_dt_struct, f.off_dt_strings, DataSize(f);
    OffInBlocks(b, f.off_mem_rsvmap, f.rsv, items, k, f.off_dt_struct, n, so, f.size_dt_strings);
    assert NamedAt(b[so..so + f.size_dt_strings], nameoff, key) == Intact;
    var prop, newlen := f.off_dt_struct + offset, 12 + Align4(|val|);
    err := SpliceStruct(f, prop, 0, newlen);
    if err != 0 {
      return;
    }
    FillProp(f, prop, nameoff, key, val, newlen, items, k, b, n, so, dsize);
  }

  /** Write the property into the gap. */
  method FillProp(f: Fdt, prop: nat, nameoff: nat, key: seq<Byte>, val: seq<Byte>, newlen: nat, ghost items: seq<Item>, ghost k: nat,
                  ghost b: seq<Byte>, ghost n: nat, ghost so: nat, ghost dsize: nat)
    requires Ordered(f) && k <= |items| && |val| < U32 && nameoff < U32 && prop + newlen <= f.buf.Length
    requires Blocks(b, f.off_mem_rsvmap, f.rsv, items, f.off_dt_struct, n, so, f.size_dt_strings) == Intact
    requires dsize == so + f.size_dt_strings && prop == f.off_dt_struct + Off(items, k) <= f.off_dt_struct + n
    requires newlen == 12 + Align4(|val|) && f.size_dt_struct == n + newlen && f.off_dt_strings == so + newlen && |b| == f.buf.Length
    requires f.buf[..] == Spliced(b, prop, 0, newlen, dsize)
    requires NamedAt(b[so..so + f.size_dt_strings], nameoff, key) == Intact
    modifies f.buf
    ensures Editable(f, items[..k] + [Property(key, val)] + items[k..])
  {
    hide Blocks, NamedAt;
    ghost var c := f.buf[..];
    StorePropWritten(f.buf, prop, nameoff, val);
    BlocksAdded(b, c, f.buf[..], f.off_mem_rsvmap, f.rsv, items, k, key, val, f.off_dt_struct, n, so, f.size_dt_strings,
                f.size_dt_struct, f.off_dt_strings, prop, newlen, dsize, nameoff);
  }

  /** How many bytes a new property takes, its name included when that is not there yet. */
  ghost function NewSize(f: Fdt, name: seq<Byte>, val: seq<Byte>): int
    requires f.off_dt_strings + f.size_dt_strings <= f.buf.Length
    reads f, f.buf
  {
    12 + Align4(|val|) + if PlaceFrom(f.Strings(), name, 0) < 0 then |name| + 1 else 0
  }

  /** fdt_del_last_string_ */
  method DelLastString(f: Fdt, s: seq<Byte>, ghost items: seq<Item>, ghost strs: nat)
    requires Ordered(f) && Before(f, items, strs) == Intact && f.size_dt_strings == strs + |s| + 1
    modifies f`size_dt_strings
    ensures Editable(f, items) && Names(f) == BytesAt(f.buf[..], f.off_dt_strings, strs) && f.size_dt_strings == strs
  {
    ghost var b := f.buf[..];
    f.size_dt_strings := f.size_dt_strings - (|s| + 1);
    assert f.buf[..] == b;
  }

  /** The property in front of item k; a name that was added for it goes out again when there
      is no room. */
  method InsertNamed(f: Fdt, offset: nat, nameoff: nat, added: bool, name: seq<Byte>, val: seq<Byte>, ghost items: seq<Item>, ghost k: nat, ghost strs: nat) returns (err: int)
    requires Editable(f, items) && k <= |items| && offset == Off(items, k) && |val| <= INT_MAX
    requires nameoff <= INT_MAX && NamedAt(f.Strings(), nameoff, name) == Intact
    requires Before(f, items, strs) == Intact && f.size_dt_strings == strs + if added then |name| + 1 else 0
    modifies f`size_dt_struct, f`off_dt_strings, f`size_dt_strings, f.buf
    ensures err == if old(DataSize(f)) + 12 + Align4(|val|) > f.totalsize then NOSPACE else 0
    ensures err == 0 ==> Editable(f, items[..k] + [Property(name, val)] + items[k..])
    ensures err != 0 ==> Editable(f, items) && Names(f) == old(BytesAt(f.buf[..], f.off_dt_strings, strs))
    ensures err != 0 ==> DataSize(f) == old(f.off_dt_strings) + strs
  {
    hide Blocks, NamedAt;
    err := InsertProp(f, offset, nameoff, name, val, items, k);
    if err != 0 && added {
      DelLastString(f, name, items, strs);
    }
  }

  /** fdt_add_property_ and the copy of fdt_setprop: a new first property of the node that is
      item k.  When there is no room for it, a name it had added goes out again. */
  method AddProperty(f: Fdt, nodeoffset: nat, name: seq<Byte>, val: seq<Byte>, ghost items: seq<Item>, ghost k: nat) returns (err: int)
    requires Editable(f, items) && k < |items| && items[k].BeginNode? && nodeoffset == Off(items, k)
    requires NoNul(name) && |val| <= INT_MAX
    modifies f, f.buf
    ensures f.buf == old(f.buf) && Fixed(f) == old(Fixed(f))
    ensures err == if old(DataSize(f)) + old(NewSize(f, name, val)) > f.totalsize then NOSPACE else 0
    ensures err == 0 ==> Editable(f, items[..k + 1] + [Property(name, val)] + items[k + 1..])
    ensures err != 0 ==> Editable(f, items) && Names(f) == old(Names(f)) && DataSize(f) == old(DataSize(f))
  {
    hide Blocks, PlaceFrom, NamedAt, Reads, Standing, Before, Align4;
    EditableIsEncoded(f, items);
    var nextoffset := IntoNode(f, nodeoffset, items, k);
    ghost var strs := f.size_dt_strings;
    var namestroff, added := FindAddString(f, name, items);
    if namestroff < 0 {
      return namestroff;
    }
    err := InsertNamed(f, nextoffset, namestroff, added, name, val, items, k + 1, strs);
  }

  // ---- fdt_setprop and fdt_delprop ----

  /** What fdt_setprop makes of the items: the first property of that name in node k gets the
      new value, and if there is none a new property comes first in the node. */
  function PropSet(items: seq<Item>, k: nat, name: seq<Byte>, val: seq<Byte>): seq<Item>
    requires k < |items|
  {
    match FindProp(items, k + 1, name)
    case Here(m) => items[..m] + [Property(items[m].key, val)] + items[m + 1..]
    case Stop(_) => items[..k + 1] + [Property(name, val)] + items[k + 1..]
  }

  /** By how much fdt_setprop makes the tree grow. */
  ghost function Growth(f: Fdt, items: seq<Item>, k: nat, name: seq<Byte>, val: seq<Byte>): int
    requires k < |items| && f.off_dt_strings + f.size_dt_strings <= f.buf.Length
    reads f, f.buf
  {
    match FindProp(items, k + 1, name)
    case Here(m) => Align4(|val|) - Align4(|items[m].data|)
    case Stop(_) => NewSize(f, name, val)
  }

  /** The error that stops fdt_setprop before it changes anything, 0 if there is none. */
  function LookupError(items: seq<Item>, k: nat, name: seq<Byte>): int
    requires k < |items|
  {
    match FindProp(items, k + 1, name)
    case Here(_) => 0
    case Stop(e) => if e == NOTFOUND then 0 else e
  }

  method FdtSetprop(f: Fdt, nodeoffset: nat, name: seq<Byte>, val: seq<Byte>, ghost items: seq<Item>, ghost k: nat) returns (err: int)
    requires Editable(f, items) && k < |items| && items[k].BeginNode? && nodeoffset == Off(items, k)
    requires NoNul(name) && |val| <= INT_MAX
    modifies f, f.buf
    ensures f.buf == old(f.buf) && Fixed(f) == old(Fixed(f))
    ensures err == if LookupError(items, k, name) != 0 then LookupError(items, k, name)
      else if old(DataSize(f)) + old(Growth(f, items, k, name, val)) > f.totalsize then NOSPACE else 0
    ensures err == 0 ==> Editable(f, PropSet(items, k, name, val))
    ensures err != 0 ==> Editable(f, items) && Names(f) == old(Names(f)) && DataSize(f) == old(DataSize(f))
  {
    hide Blocks, PlaceFrom, FindProp, Reads;
    EditableIsEncoded(f, items);
    var prop, len := GetProperty(f, nodeoffset, name, items, k);
    if prop >= 0 {
      err := SetExisting(f, prop, len, val, items, FindProp(items, k + 1, name).at);
    } else {
      err := len;
      if err == NOTFOUND {
        err := AddProperty(f, nodeoffset, name, val, items, k);
      }
    }
  }

  /** fdt_delprop */
  method FdtDelprop(f: Fdt, nodeoffset: nat, name: seq<Byte>, ghost items: seq<Item>, ghost k: nat) returns (err: int)
    requires Editable(f, items) && k < |items| && items[k].BeginNode? && nodeoffset == Off(items, k)
    modifies f, f.buf
    ensures f.buf == old(f.buf) && Fixed(f) == old(Fixed(f))
    ensures match FindProp(items, k + 1, name)
      case Here(m) => err == 0 && Editable(f, Without(items, m, m + 1))
      case Stop(e) => err == e && unchanged(f) && unchanged(f.buf)
  {
    EditableIsEncoded(f, items);
    var prop, len := GetProperty(f, nodeoffset, name, items, k);
    if prop < 0 {
      return len;
    }
    ghost var m := FindProp(items, k + 1, name).at;
    OffBounds(f.Struct(), items, m, f.Strings());
    err := CloseItems(f, prop, prop + 12 + Align4(len), items, m, m + 1);
  }

  // ---- fdt_add_subnode ----

  const AT: Byte := 64

  /** fdt_nodename_eq_: the whole name, or the name up to its unit address when the one asked
      for has none. */
  predicate NameMatches(n: seq<Byte>, s: seq<Byte>) {
    |s| <= |n| && n[..|s|] == s && (|n| == |s| || (AT !in s && n[|s|] == AT))
  }

  /** fdt_subnode_offset_namelen from item j on, `depth` levels below the parent. */
  function FindSub(items: seq<Item>, j: nat, depth: int, name: seq<Byte>): (s: PropStep)
    requires j <= |items|
    ensures s.Here? ==> j <= s.at < |items| && items[s.at].BeginNode?
    ensures s.Stop? ==> s.error < 0
    decreases |items| - j
  {
    if j == |items| then Stop(TRUNCATED)
    else match items[j]
      case BeginNode(n) => if depth == 0 && NameMatches(n, name) then Here(j) else FindSub(items, j + 1, depth + 1, name)
      case EndNode => if depth <= 0 then Stop(NOTFOUND) else FindSub(items, j + 1, depth - 1, name)
      case End => Stop(NOTFOUND)
      case _ => FindSub(items, j + 1, depth, name)
  }

  lemma {:induction false} FindSubByNext(items: seq<Item>, j: nat, depth: int, name: seq<Byte>)
    requires j <= |items|
    ensures FindSub(items, j, depth, name) == match NextNode(items, j, depth, true)
      case Node(m, d) => if d == 1 && NameMatches(items[m].name, name) then Here(m) else FindSub(items, m + 1, d, name)
      case Left(_) => Stop(NOTFOUND)
      case Failed(e) => Stop(e)
    decreases |items| - j
  {
    if j < |items| && !items[j].End? && !items[j].BeginNode? && !(items[j].EndNode? && depth <= 0) {
      FindSubByNext(items, j + 1, if items[j].EndNode? then depth - 1 else depth, name);
    }
  }

  method NodenameEq(f: Fdt, offset: nat, s: seq<Byte>, ghost items: seq<Item>, ghost k: nat) returns (eq: bool)
    requires Encoded(f, items) && k < |items| && items[k].BeginNode? && offset == Off(items, k)
    ensures eq <==> NameMatches(items[k].name, s)
  {
    var p := GetName(f, offset, items, k);
    var olen := |p|;
    if olen < |s| {
      return false;
    }
    if p[..|s|] != s {
      return false;
    }
    if olen == |s| {
      return true;
    }
    return AT !in s && p[|s|] == AT;
  }

  /** At node j, `depth` levels below the parent, with the search still open. */
  ghost predicate Searching(items: seq<Item>, k: nat, j: nat, offset: int, depth: int, name: seq<Byte>) {
    && k < |items| && j < |items| && items[j].BeginNode? && offset == Off(items, j) && depth >= 0
    && FindSub(items, k + 1, 0, name)
       == if depth == 1 && NameMatches(items[j].name, name) then Here(j) else FindSub(items, j + 1, depth, name)
  }

  lemma {:induction false} SubStep(items: seq<Item>, k: nat, j: nat, offset: int, depth: int, name: seq<Byte>, r: int, depth': int)
    requires Searching(items, k, j, offset, depth, name) && !(depth == 1 && NameMatches(items[j].name, name))
    requires Reported(items, NextNode(items, j + 1, depth, true), r, depth') && (r < 0 ==> depth' >= 0)
    ensures var s := NextNode(items, j + 1, depth, true);
      if s.Node? then r >= 0 && Searching(items, k, s.at, r, depth', name)
      else (r < 0 || depth' < 0) && FindSub(items, k + 1, 0, name) == Stop(if depth' < 0 then NOTFOUND else r)
  {
    FindSubByNext(items, j + 1, depth, name);
    NextNodeFacts(items, j + 1, depth, true);
  }

  /** fdt_subnode_offset_namelen: the first child of node k whose name matches. */
  method SubnodeOffset(f: Fdt, parentoffset: nat, name: seq<Byte>, ghost items: seq<Item>, ghost k: nat) returns (offset: int)
    requires Encoded(f, items) && k < |items| && items[k].BeginNode? && parentoffset == Off(items, k)
    ensures PropReported(items, FindSub(items, k + 1, 0, name), offset)
  {
    var depth := 0;
    offset := parentoffset;
    ghost var j := k;
    while offset >= 0 && depth >= 0
      invariant if offset >= 0 && depth >= 0 then Searching(items, k, j, offset, depth, name)
        else FindSub(items, k + 1, 0, name) == Stop(if depth < 0 then NOTFOUND else offset)
      decreases if offset >= 0 && depth >= 0 then |items| - j else -1
    {
      if depth == 1 {
        var eq := NodenameEq(f, offset, name, items, j);
        if eq {
          return;
        }
      }
      ghost var o, d, s := offset, depth, NextNode(items, j + 1, depth, true);
      offset, depth := FdtNextNode(f, offset, depth, true, items, j);
      SubStep(items, k, j, o, d, name, offset, depth);
      j := if s.Node? then s.at else j;
    }
    if depth < 0 {
      offset := NOTFOUND;
    }
  }

  /** The first item from j on that is neither a property nor a NOP. */
  function AfterProps(items: seq<Item>, j: nat): (m: nat)
    requires j <= |items|
    ensures j <= m <= |items|
    decreases |items| - j
  {
    if j < |items| && (items[j].Property? || items[j].Nop?) then AfterProps(items, j + 1) else j
  }

  /** Where a new child goes: behind the parent's properties. */
  method SkipProps(f: Fdt, parentoffset: nat, ghost items: seq<Item>, ghost k: nat) returns (offset: nat)
    requires Encoded(f, items) && k < |items| && items[k].BeginNode? && parentoffset == Off(items, k)
    ensures offset == Off(items, AfterProps(items, k + 1))
  {
    var tag, nextoffset := TagAt(f, parentoffset, items, k);
    ghost var j := k + 1;
    while true
      invariant k + 1 <= j <= |items| && nextoffset == Off(items, j) && AfterProps(items, k + 1) == AfterProps(items, j)
      decreases |items| - j
    {
      offset := nextoffset;
      tag, nextoffset := TagAt(f, offset, items, j);
      if tag != FDT_PROP && tag != FDT_NOP {
        return;
      }
      j := j + 1;
    }
  }

  /** n zero bytes. */
  function Zeros(n: nat): (s: seq<Byte>)
    ensures |s| == n
  {
    seq(n, _ => 0)
  }

  /** The new node's bytes: tag, cleared name, name, end tag. */
  function NodeWritten(c: seq<Byte>, nh: nat, name: seq<Byte>): (d: seq<Byte>)
    requires nh + 8 + Align4(|name| + 1) <= |c|
    ensures |d| == |c|
  {
    var n := Align4(|name| + 1);
    Overwritten(Overwritten(Overwritten(Overwritten(c, nh, WordBytes(FDT_BEGIN_NODE)), nh + 4, Zeros(n)), nh + 4, name), nh + 4 + n, WordBytes(FDT_END_NODE))
  }

  lemma {:induction false} NodeWrittenParts(c: seq<Byte>, nh: nat, name: seq<Byte>, mid: nat, end: nat)
    requires mid == nh + 4 + Align4(|name| + 1) && end == mid + 4 <= |c|
    ensures var d := NodeWritten(c, nh, name);
      Frame(c, d, nh, end) == Intact && d[nh..nh + 4] == WordBytes(FDT_BEGIN_NODE) &&
      d[nh + 4..nh + 4 + |name| + 1] == name + [0] && d[mid..end] == WordBytes(FDT_END_NODE)
  {
    var n, x, z, y := Align4(|name| + 1), WordBytes(FDT_BEGIN_NODE), Zeros(Align4(|name| + 1)), WordBytes(FDT_END_NODE);
    var c1 := Overwritten(c, nh, x);
    var c2 := Overwritten(c1, nh + 4, z);
    var c3 := Overwritten(c2, nh + 4, name);
    var d := Overwritten(c3, mid, y);
    KeptWrite(c, nh, x, nh, end);
    KeptWrite(c1, nh + 4, z, nh, end);
    KeptWrite(c2, nh + 4, name, nh, end);
    KeptWrite(c3, mid, y, nh, end);
    KeptTrans(c, c1, c2, nh, end);
    KeptTrans(c, c2, c3, nh, end);
    KeptTrans(c, c3, d, nh, end);
    OverwrittenSame(c, nh, x);
    OverwrittenBefore(c1, nh + 4, z, nh, nh + 4);
    OverwrittenBefore(c2, nh + 4, name, nh, nh + 4);
    OverwrittenBefore(c3, mid, y, nh, nh + 4);
    OverwrittenBefore(c3, mid, y, nh + 4, nh + 4 + |name| + 1);
    OverwrittenSame(c3, mid, y);
    NameInZeros(c1, c2, c3, nh + 4, name, n);
  }

  lemma {:induction false} NameInZeros(c1: seq<Byte>, c2: seq<Byte>, c3: seq<Byte>, at: nat, name: seq<Byte>, n: nat)
    requires |name| < n && at + n <= |c1| && c2 == Overwritten(c1, at, Zeros(n)) && c3 == Overwritten(c2, at, name)
    ensures c3[at..at + |name| + 1] == name + [0]
  {
    OverwrittenSame(c2, at, name);
    assert c3[at + |name|] == c2[at + |name|] == 0;
    assert c3[at..at + |name| + 1] == c3[at..at + |name|] + [c3[at + |name|]];
  }

  lemma {:induction false} NodePiece(c: seq<Byte>, d: seq<Byte>, nh: nat, mid: nat, end: nat, name: seq<Byte>, strings: seq<Byte>)
    requires NoNul(name) && mid == nh + 4 + Align4(|name| + 1) && end == mid + 4 <= |c| && d == NodeWritten(c, nh, name)
    ensures Frame(c, d, nh, end) == Intact
    ensures Reads(d[nh..end], [BeginNode(name), EndNode], strings) == Intact
  {
    NodeWrittenParts(c, nh, name, mid, end);
    var x, y := d[nh..mid], d[mid..end];
    SliceSlice(d, nh, mid, 0, 4);
    SliceSlice(d, nh, mid, 4, 4 + |name| + 1);
    BeginBytes(x, name, strings, 0);
    TagBytes(y, EndNode, strings, 0);
    EncodesOne(x, BeginNode(name), strings, 0);
    W.AppendOne(x, y, [BeginNode(name)], EndNode, strings, 0);
    Cut(d, nh, mid - nh, 4);
    assert [BeginNode(name)] + [EndNode] == [BeginNode(name), EndNode];
  }

  lemma {:induction false} BlocksNode(b: seq<Byte>, c: seq<Byte>, d: seq<Byte>, at: nat, rsv: seq<(nat, nat)>, items: seq<Item>, k: nat, name: seq<Byte>,
                   lo: nat, n: nat, so: nat, strs: nat, n': nat, so': nat, nh: nat, newlen: nat, dsize: nat)
    requires Blocks(b, at, rsv, items, lo, n, so, strs) == Intact && k <= |items| && NoNul(name)
    requires dsize == so + strs && so' + strs <= |b| && nh == lo + Off(items, k) <= lo + n
    requires newlen == 4 + Align4(|name| + 1) + 4 && n' == n + newlen && so' == so + newlen
    requires c == Spliced(b, nh, 0, newlen, dsize) && nh + newlen <= |c| && d == NodeWritten(c, nh, name)
    ensures Blocks(d, at, rsv, items[..k] + [BeginNode(name), EndNode] + items[k..], lo, n', so', strs) == Intact
  {
    NodePiece(c, d, nh, nh + newlen - 4, nh + newlen, name, b[so..so + strs]);
    BlocksOpened(b, c, d, at, rsv, items, k, k, [BeginNode(name), EndNode], lo, n, so, strs, n', so', nh, nh, nh, nh + newlen, 0, newlen, dsize);
  }

  method StoreNode(buf: array<Byte>, nh: nat, name: seq<Byte>)
    requires nh + 8 + Align4(|name| + 1) <= buf.Length
    modifies buf
    ensures buf[..] == NodeWritten(old(buf[..]), nh, name)
  {
    var n := Align4(|name| + 1);
    Memcpy(buf, nh, WordBytes(FDT_BEGIN_NODE));
    Memcpy(buf, nh + 4, Zeros(n));
    Memcpy(buf, nh + 4, name);
    Memcpy(buf, nh + 4 + n, WordBytes(FDT_END_NODE));
  }

  /** Open the gap and write an empty node in front of item k. */
  method InsertNode(f: Fdt, offset: nat, name: seq<Byte>, ghost items: seq<Item>, ghost k: nat) returns (err: int)
    requires Editable(f, items) && k <= |items| && offset == Off(items, k) && NoNul(name)
    modifies f`size_dt_struct, f`off_dt_strings, f.buf
    ensures err == if old(DataSize(f)) + 8 + Align4(|name| + 1) > f.totalsize then NOSPACE else 0
    ensures err == 0 ==> Editable(f, items[..k] + [BeginNode(name), EndNode] + items[k..])
    ensures err != 0 ==> unchanged(f) && unchanged(f.buf)
  {
    ghost var b, n, so, dsize := f.buf[..], f.size_dt_struct, f.off_dt_strings, DataSize(f);
    OffInBlocks(b, f.off_mem_rsvmap, f.rsv, items, k, f.off_dt_struct, n, so, f.size_dt_strings);
    var nh, nodelen := f.off_dt_struct + offset, 4 + Align4(|name| + 1) + 4;
    err := SpliceStruct(f, nh, 0, nodelen);
    if err != 0 {
      return;
    }
    FillNode(f, nh, name, nodelen, items, k, b, n, so, dsize);
  }

  method FillNode(f: Fdt, nh: nat, name: seq<Byte>, newlen: nat, ghost items: seq<Item>, ghost k: nat,
                  ghost b: seq<Byte>, ghost n: nat, ghost so: nat, ghost dsize: nat)
    requires Ordered(f) && k <= |items| && NoNul(name) && nh + newlen <= f.buf.Length
    requires Blocks(b, f.off_mem_rsvmap, f.rsv, items, f.off_dt_struct, n, so, f.size_dt_strings) == Intact
    requires dsize == so + f.size_dt_strings && nh == f.off_dt_struct + Off(items, k) <= f.off_dt_struct + n
    requires newlen == 4 + Align4(|name| + 1) + 4 && f.size_dt_struct == n + newlen && f.off_dt_strings == so + newlen && |b| == f.buf.Length
    requires f.buf[..] == Spliced(b, nh, 0, newlen, dsize)
    modifies f.buf
    ensures Editable(f, items[..k] + [BeginNode(name), EndNode] + items[k..])
  {
    ghost var c := f.buf[..];
    StoreNode(f.buf, nh, name);
    BlocksNode(b, c, f.buf[..], f.off_mem_rsvmap, f.rsv, items, k, name, f.off_dt_struct, n, so, f.size_dt_strings,
               f.size_dt_struct, f.off_dt_strings, nh, newlen, dsize);
  }

  /** What fdt_add_subnode makes of the items. */
  function NodeAdded(items: seq<Item>, k: nat, name: seq<Byte>): seq<Item>
    requires k < |items|
  {
    var m := AfterProps(items, k + 1);
    items[..m] + [BeginNode(name), EndNode] + items[m..]
  }

  /** fdt_add_subnode_namelen: the offset of the new node, or an error. */
  method FdtAddSubnode(f: Fdt, parentoffset: nat, name: seq<Byte>, ghost items: seq<Item>, ghost k: nat) returns (r: int)
    requires Editable(f, items) && k < |items| && items[k].BeginNode? && parentoffset == Off(items, k) && NoNul(name)
    modifies f, f.buf
    ensures f.buf == old(f.buf) && Fixed(f) == old(Fixed(f)) && f.size_dt_strings == old(f.size_dt_strings)
    ensures match FindSub(items, k + 1, 0, name)
      case Here(_) => r == EXISTS
      case Stop(e) =>
        if e != NOTFOUND then r == e
        else if old(DataSize(f)) + 8 + Align4(|name| + 1) > f.totalsize then r == NOSPACE
        else r == Off(items, AfterProps(items, k + 1)) && Editable(f, NodeAdded(items, k, name))
    ensures r < 0 ==> unchanged(f) && unchanged(f.buf)
  {
    EditableIsEncoded(f, items);
    r := SubnodeOffset(f, parentoffset, name, items, k);
    if r >= 0 {
      return EXISTS;
    }
    if r != NOTFOUND {
      return;
    }
    var offset := SkipProps(f, parentoffset, items, k);
    var err := InsertNode(f, offset, name, items, AfterProps(items, k + 1));
    if err != 0 {
      return err;
    }
    return offset;
  }
}
