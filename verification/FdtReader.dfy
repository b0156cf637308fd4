/** Reading a device tree blob: tags, nodes and properties. */
module FdtReader {
  import opened Bits
  import opened Common
  import opened FdtFormat
  import opened FdtTree
  import opened FdtBlob

  /** The structure block lies within the tree. */
  ghost predicate Readable(f: Fdt)
    reads f
  {
    f.off_dt_struct + f.size_dt_struct <= f.totalsize <= f.buf.Length && f.totalsize <= INT_MAX
  }

  /** fdt_offset_ptr: is there room for `len` bytes at `offset`? */
  method OffsetPtr(f: Fdt, offset: int, len: nat) returns (ok: bool)
    requires Readable(f) && -0x8000_0000 <= offset <= INT_MAX && len < U32
    ensures ok <==> InBounds(f.size_dt_struct, offset, len)
  {
    OffsetPtrInBounds(offset, len, f.off_dt_struct, f.size_dt_struct, f.totalsize);
    ok := OffsetPtrOk(offset, len, f.off_dt_struct, f.size_dt_struct, f.totalsize);
  }

  /** fdt32_to_cpu(*p) */
  method LoadWord(f: Fdt, offset: nat) returns (w: nat)
    requires Readable(f) && offset + 4 <= f.size_dt_struct
    ensures w == Word(f.Struct(), offset) < U32
  {
    var p := f.off_dt_struct + offset;
    ghost var s := f.Struct();
    assert s[offset] == f.buf[p] && s[offset + 1] == f.buf[p + 1];
    assert s[offset + 2] == f.buf[p + 2] && s[offset + 3] == f.buf[p + 3];
    var b0: nat, b1: nat, b2: nat, b3: nat := f.buf[p], f.buf[p + 1], f.buf[p + 2], f.buf[p + 3];
    w := b0 * 0x100_0000 + b1 * 0x1_0000 + b2 * 0x100 + b3;
  }

  /** The name loop of fdt_next_tag: the offset behind the NUL, -1 if there is none. */
  method SkipName(f: Fdt, start: nat) returns (offset: int)
    requires Readable(f) && start <= f.size_dt_struct
    ensures var e := NulFrom(f.Struct(), start); offset == if e < f.size_dt_struct then e + 1 else -1
  {
    offset := start;
    ghost var s := f.Struct();
    while true
      invariant start <= offset <= f.size_dt_struct && NulFrom(s, start) == NulFrom(s, offset)
      decreases f.size_dt_struct - offset
    {
      var p := OffsetPtr(f, offset, 1);
      if !p {
        return -1;
      }
      assert s[offset] == f.buf[f.off_dt_struct + offset];
      offset := offset + 1;
      if f.buf[f.off_dt_struct + offset - 1] == 0 {
        return;
      }
    }
  }

  /** The end of a property, in 32-bit arithmetic. */
  lemma {:induction false} PropEnd(start: nat, len: nat, size: nat)
    requires start <= size <= INT_MAX && len < U32
    ensures Ends(start, Int32(start + 12 + len), (12 + len) % U32, size)
  {
  }

  /** `offset` is where `n` bytes from `start` end, as far as fdt_next_tag needs to know. */
  ghost predicate Ends(start: nat, offset: int, n: nat, size: nat) {
    (offset - start) % U32 == n && (start + n <= size ==> offset == start + n)
  }

  lemma {:induction false} EndsPlain(start: nat, offset: nat, size: nat)
    requires start <= offset <= INT_MAX
    ensures Ends(start, offset, offset - start, size)
  {
  }

  /** The switch of fdt_next_tag: step over the item at `start`. */
  method SkipItem(f: Fdt, start: nat, tag: nat) returns (ok: bool, offset: int)
    requires Readable(f) && start + TAGSIZE <= f.size_dt_struct && tag == Word(f.Struct(), start)
    ensures ok <==> Extent(f.Struct(), start) >= 0
    ensures ok ==> Ends(start, offset, Extent(f.Struct(), start), f.size_dt_struct)
  {
    ok, offset := true, start + TAGSIZE;
    if tag == FDT_BEGIN_NODE {
      offset := SkipName(f, offset);
      if offset < 0 {
        return false, 0;
      }
      EndsPlain(start, offset, f.size_dt_struct);
    } else if tag == FDT_PROP {
      var lenp := OffsetPtr(f, offset, 4);
      if !lenp {
        return false, 0;
      }
      var len := LoadWord(f, offset);
      offset := Int32(offset + 8 + len);
      PropEnd(start, len, f.size_dt_struct);
    } else if tag == FDT_END || tag == FDT_END_NODE || tag == FDT_NOP {
      EndsPlain(start, offset, f.size_dt_struct);
    } else {
      return false, 0;
    }
  }

  /** fdt_next_tag */
  method FdtNextTag(f: Fdt, startoffset: int) returns (tag: nat, nextoffset: int)
    requires Readable(f) && -0x8000_0000 <= startoffset <= INT_MAX
    ensures (tag, nextoffset) == NextTag(f.Struct(), startoffset)
  {
    var tagp := OffsetPtr(f, startoffset, TAGSIZE);
    if !tagp {
      return FDT_END, TRUNCATED;
    }
    tag := LoadWord(f, startoffset);
    var ok, offset := SkipItem(f, startoffset, tag);
    if !ok {
      return FDT_END, BADSTRUCTURE;
    }
    var whole := OffsetPtr(f, startoffset, (offset - startoffset) % U32);
    if !whole {
      return FDT_END, BADSTRUCTURE;
    }
    nextoffset := Int32(Align4(offset));
  }

  // ---- a tree that can be read ----

  /** The blob is a finished tree whose structure block encodes `items`. */
  ghost predicate Encoded(f: Fdt, items: seq<Item>)
    reads f, f.buf
  {
    && Readable(f) && f.magic == FDT_MAGIC && f.totalsize < INT_MAX
    && f.off_dt_strings + f.size_dt_strings <= f.totalsize
    && Reads(f.Struct(), items, f.Strings()) == Intact
  }

  ghost function Reads(s: seq<Byte>, items: seq<Item>, strings: seq<Byte>): Condition {
    if Encodes(s, items, strings, 0) then Intact else Broken
  }

  /** The offset of the k-th item. */
  function Off(items: seq<Item>, k: nat): (n: nat)
    requires k <= |items|
  {
    SizeOf(items[..k])
  }

  lemma {:induction false} OffStart(items: seq<Item>)
    ensures Off(items, 0) == 0
  {
  }

  lemma {:induction false} OffBounds(s: seq<Byte>, items: seq<Item>, k: nat, strings: seq<Byte>)
    requires Reads(s, items, strings) == Intact && k <= |items|
    ensures Off(items, k) <= |s| && Off(items, k) % 4 == 0
    ensures k < |items| ==> Off(items, k) + Size(items[k]) == Off(items, k + 1) <= |s|
    ensures k < |items| ==> ItemState(s[Off(items, k)..Off(items, k + 1)], items[k], strings, 0) == Intact
  {
    SizeOfAligned(items[..k]);
    if k < |items| {
      assert Stands(s, items, k, strings, 0);
      assert items[..k + 1] == items[..k] + [items[k]];
      SizeOfAppend(items[..k], [items[k]]);
      SizeOfOne(items[k]);
    } else {
      assert items[..k] == items;
    }
  }

  /** The k-th tag. */
  method TagAt(f: Fdt, offset: nat, ghost items: seq<Item>, ghost k: nat) returns (tag: nat, nextoffset: int)
    requires Encoded(f, items) && k <= |items| && offset == Off(items, k)
    ensures k < |items| ==> tag == Tag(items[k]) && nextoffset == Off(items, k + 1)
    ensures k == |items| ==> tag == FDT_END && nextoffset == TRUNCATED
  {
    OffBounds(f.Struct(), items, k, f.Strings());
    if k < |items| {
      NextTagItem(f.Struct(), items, k, f.Strings(), 0);
    } else {
      assert items[..k] == items;
      NextTagPastEnd(f.Struct(), items, f.Strings(), 0);
    }
    tag, nextoffset := FdtNextTag(f, offset);
  }

  /** fdt_check_node_offset_: on any offset at all. */
  method CheckNodeOffset(f: Fdt, offset: int) returns (r: int)
    requires Readable(f) && -0x8000_0000 <= offset <= INT_MAX
    ensures var t := NextTag(f.Struct(), offset);
      r == if offset < 0 || offset % 4 != 0 || t.0 != FDT_BEGIN_NODE then BADOFFSET else t.1
  {
    if offset < 0 || offset % TAGSIZE != 0 {
      return BADOFFSET;
    }
    var tag, next := FdtNextTag(f, offset);
    if tag != FDT_BEGIN_NODE {
      return BADOFFSET;
    }
    return next;
  }

  method CheckPropOffset(f: Fdt, offset: int) returns (r: int)
    requires Readable(f) && -0x8000_0000 <= offset <= INT_MAX
    ensures var t := NextTag(f.Struct(), offset);
      r == if offset < 0 || offset % 4 != 0 || t.0 != FDT_PROP then BADOFFSET else t.1
  {
    if offset < 0 || offset % TAGSIZE != 0 {
      return BADOFFSET;
    }
    var tag, next := FdtNextTag(f, offset);
    if tag != FDT_PROP {
      return BADOFFSET;
    }
    return next;
  }

  /** Behind the k-th item, a node. */
  method IntoNode(f: Fdt, offset: nat, ghost items: seq<Item>, ghost k: nat) returns (next: nat)
    requires Encoded(f, items) && k < |items| && offset == Off(items, k) && items[k].BeginNode?
    ensures next == Off(items, k + 1)
  {
    OffBounds(f.Struct(), items, k, f.Strings());
    NextTagItem(f.Struct(), items, k, f.Strings(), 0);
    next := CheckNodeOffset(f, offset);
  }

  /** Behind the k-th item, a property. */
  method PastProp(f: Fdt, offset: nat, ghost items: seq<Item>, ghost k: nat) returns (next: nat)
    requires Encoded(f, items) && k < |items| && offset == Off(items, k) && items[k].Property?
    ensures next == Off(items, k + 1)
  {
    OffBounds(f.Struct(), items, k, f.Strings());
    NextTagItem(f.Struct(), items, k, f.Strings(), 0);
    next := CheckPropOffset(f, offset);
  }

  // ---- fdt_next_node ----

  /** What fdt_next_node returns for an outcome. */
  ghost predicate Reported(items: seq<Item>, s: Step, r: int, depth: int) {
    match s
    case Node(m, d) => m < |items| && r == Off(items, m) && depth == d
    case Left(m) => m <= |items| && r == Off(items, m) && depth < 0
    case Failed(e) => r == e
  }

  /** Where the loop of fdt_next_node ends on any structure block: with a result and a depth, or
      nowhere, because fdt_next_tag stays where it is. */
  datatype Scan = Arrived(r: int, depth: int) | Stays

  /** A tag other than FDT_END comes with the next offset, which only a property may leave in
      place, and which wraps around at the very end of the int range. */
  lemma {:induction false} TagCases(s: seq<Byte>, offset: int)
    requires |s| <= INT_MAX && offset % 4 == 0
    ensures var (tag, next) := NextTag(s, offset);
      tag != FDT_END ==>
        && offset >= 0 && next % 4 == 0 && (offset <= next <= INT_MAX || next == -0x8000_0000)
        && (next == offset ==> tag == FDT_PROP)
  {
    var (tag, next) := NextTag(s, offset);
    if tag != FDT_END && next >= 0 {
      NextTagProgress(s, offset);
    }
  }

  /** Offsets that are still to come: a wrapped one is the last. */
  function ToCome(offset: int): nat
    requires offset <= INT_MAX
  {
    if offset < 0 then 0 else INT_MAX + 1 - offset
  }

  function ScanBytes(s: seq<Byte>, offset: int, depth: int, tracked: bool): Scan
    requires |s| <= INT_MAX && offset % 4 == 0 && offset <= INT_MAX
    decreases ToCome(offset)
  {
    var (tag, next) := NextTag(s, offset);
    if tag == FDT_BEGIN_NODE then Arrived(offset, depth + 1)
    else if tag == FDT_END then Arrived(if next >= 0 || (next == TRUNCATED && !tracked) then NOTFOUND else next, depth)
    else
      TagCases(s, offset);
      if next == offset then Stays
      else if tag != FDT_END_NODE then ScanBytes(s, next, depth, tracked)
      else if tracked && depth <= 0 then Arrived(next, depth - 1)
      else ScanBytes(s, next, depth - 1, tracked)
  }

  /** The loop of fdt_next_node, on any bytes. */
  method ScanNodes(f: Fdt, offset0: nat, depth0: int, tracked: bool) returns (r: int, depth: int, stays: bool)
    requires Readable(f) && offset0 % 4 == 0 && offset0 <= INT_MAX
    ensures ScanBytes(f.Struct(), offset0, depth0, tracked) == if stays then Stays else Arrived(r, depth)
  {
    var offset: int, nextoffset: int := offset0, offset0;
    depth := depth0;
    while true
      invariant nextoffset % 4 == 0 && -0x8000_0000 <= nextoffset <= INT_MAX
      invariant ScanBytes(f.Struct(), offset0, depth0, tracked) == ScanBytes(f.Struct(), nextoffset, depth, tracked)
      decreases ToCome(nextoffset)
    {
      offset := nextoffset;
      var tag;
      tag, nextoffset := FdtNextTag(f, offset);
      TagCases(f.Struct(), offset);
      if tag == FDT_BEGIN_NODE {
        return offset, depth + 1, false;
      } else if tag == FDT_END_NODE {
        depth := depth - 1;
        if tracked && depth < 0 {
          return nextoffset, depth, false;
        }
      } else if tag == FDT_END {
        if nextoffset >= 0 || (nextoffset == TRUNCATED && !tracked) {
          return NOTFOUND, depth, false;
        }
        return nextoffset, depth, false;
      }
      if nextoffset == offset {
        // The same tag again, for ever.
        return 0, depth, true;
      }
    }
  }

  /** fdt_next_node from any offset of any structure block, or from the start for a negative
      one; `tracked` says whether a depth was passed. */
  method NextNodeAt(f: Fdt, offset: int, depth: int, tracked: bool) returns (r: int, depth': int, stays: bool)
    requires Readable(f) && -0x8000_0000 <= offset <= INT_MAX
    ensures
      var t := NextTag(f.Struct(), offset);
      if offset >= 0 && (offset % 4 != 0 || t.0 != FDT_BEGIN_NODE) then r == BADOFFSET && depth' == depth && !stays
      else if offset >= 0 && t.1 < 0 then r == t.1 && depth' == depth && !stays
      else
        var start := if offset >= 0 then t.1 else 0;
        && start % 4 == 0 && 0 <= start <= INT_MAX
        && ScanBytes(f.Struct(), start, depth, tracked) == if stays then Stays else Arrived(r, depth')
  {
    var nextoffset := 0;
    if offset >= 0 {
      nextoffset := CheckNodeOffset(f, offset);
      if offset % 4 == 0 {
        TagCases(f.Struct(), offset);
      }
      if nextoffset < 0 {
        return nextoffset, depth, false;
      }
    }
    r, depth', stays := ScanNodes(f, nextoffset, depth, tracked);
  }

  /** On a block that encodes items the scan is the scan of the items. */
  lemma {:induction false} ScanOfItems(s: seq<Byte>, items: seq<Item>, j: nat, depth: int, tracked: bool, strings: seq<Byte>)
    requires Reads(s, items, strings) == Intact && j <= |items| && |s| <= INT_MAX
    ensures Off(items, j) % 4 == 0 && Off(items, j) <= INT_MAX
    ensures var e := ScanBytes(s, Off(items, j), depth, tracked);
      e.Arrived? && Reported(items, NextNode(items, j, depth, tracked), e.r, e.depth)
    ensures tracked && depth >= 0 && ScanBytes(s, Off(items, j), depth, tracked).r < 0 ==>
      ScanBytes(s, Off(items, j), depth, tracked).depth >= 0
    decreases |items| - j
  {
    hide Encodes, Reads, ItemState, NextTag, Off, SizeOf;
    OffBounds(s, items, j, strings);
    TagOfItem(s, items, j, strings);
    if j < |items| && !items[j].BeginNode? && !items[j].End? && !(items[j].EndNode? && tracked && depth <= 0) {
      ScanOfItems(s, items, j + 1, if items[j].EndNode? then depth - 1 else depth, tracked, strings);
    }
  }

  lemma {:induction false} TagOfItem(s: seq<Byte>, items: seq<Item>, k: nat, strings: seq<Byte>)
    requires Reads(s, items, strings) == Intact && k <= |items| && |s| <= INT_MAX
    ensures k < |items| ==> NextTag(s, Off(items, k)) == (Tag(items[k]), Off(items, k + 1))
    ensures k == |items| ==> NextTag(s, Off(items, k)) == (FDT_END, TRUNCATED)
  {
    if k < |items| {
      NextTagItem(s, items, k, strings, 0);
    } else {
      assert items[..k] == items;
      NextTagPastEnd(s, items, strings, 0);
    }
  }

  /** fdt_next_node from the node that is item k, or from the start of the tree for a
      negative offset. */
  method FdtNextNode(f: Fdt, offset: int, depth: int, tracked: bool, ghost items: seq<Item>, ghost k: nat) returns (r: int, depth': int)
    requires Encoded(f, items) && -0x8000_0000 <= offset
    requires offset >= 0 ==> k < |items| && offset == Off(items, k) && items[k].BeginNode?
    ensures Reported(items, NextNode(items, if offset >= 0 then k + 1 else 0, depth, tracked), r, depth')
    ensures tracked && depth >= 0 && r < 0 ==> depth' >= 0
  {
    ghost var s, strings := f.Struct(), f.Strings();
    OffStart(items);
    if offset >= 0 {
      OffBounds(s, items, k, strings);
      TagOfItem(s, items, k, strings);
    }
    ScanOfItems(s, items, if offset >= 0 then k + 1 else 0, depth, tracked, strings);
    var stays;
    r, depth', stays := NextNodeAt(f, offset, depth, tracked);
  }

  // ---- the end of a node ----

  /** Before a call of fdt_next_node: at node k, with what is still to come. */
  ghost predicate Underway(items: seq<Item>, k: nat, offset: int, depth: int, result: Option<nat>) {
    && k < |items| && items[k].BeginNode? && offset == Off(items, k) && depth >= 0
    && result == EndAt(items, k + 1, depth)
  }

  ghost predicate Outcome(items: seq<Item>, result: Option<nat>, offset: int) {
    match result
    case Some(m) => m <= |items| && offset == Off(items, m)
    case None => offset < 0
  }

  lemma {:induction false} EndStep(items: seq<Item>, k: nat, offset: int, depth: int, result: Option<nat>, r: int, depth': int)
    requires Underway(items, k, offset, depth, result) && Reported(items, NextNode(items, k + 1, depth, true), r, depth')
    ensures var s := NextNode(items, k + 1, depth, true);
      if s.Node? then r >= 0 && Underway(items, s.at, r, depth', result)
      else (r < 0 || depth' < 0) && Outcome(items, result, r)
  {
    EndIsNextNode(items, k + 1, depth);
    NextNodeFacts(items, k + 1, depth, true);
  }

  /** fdt_node_end_offset_: fdt_next_node until the depth falls below zero. */
  method NodeEndOffset(f: Fdt, offset0: int, ghost items: seq<Item>, ghost k0: nat) returns (offset: int)
    requires Encoded(f, items) && k0 < |items| && items[k0].BeginNode? && offset0 == Off(items, k0)
    ensures Outcome(items, EndAt(items, k0 + 1, 0), offset)
  {
    var depth := 0;
    offset := offset0;
    ghost var k, result := k0, EndAt(items, k0 + 1, 0);
    while offset >= 0 && depth >= 0
      invariant if offset >= 0 && depth >= 0 then Underway(items, k, offset, depth, result) else Outcome(items, result, offset)
      decreases if offset >= 0 && depth >= 0 then |items| - k else -1
    {
      ghost var o, d, s := offset, depth, NextNode(items, k + 1, depth, true);
      offset, depth := FdtNextNode(f, offset, depth, true, items, k);
      EndStep(items, k, o, d, result, offset, depth);
      k := if s.Node? then s.at else k;
    }
  }

  // ---- strings and names ----

  /** memchr(p, 0, n): how far the first NUL is, -1 if there is none.  The bytes are seen as
      the end of a block that starts at `lo`. */
  method Memchr(a: array<Byte>, at: nat, n: nat, ghost lo: nat) returns (len: int)
    requires lo <= at && at + n <= a.Length
    ensures var e := NulFrom(a[..][lo..at + n], at - lo); len == if e < at + n - lo then e - (at - lo) else -1
  {
    ghost var s := a[..][lo..at + n];
    len := 0;
    while len < n
      invariant 0 <= len <= n && NulFrom(s, at - lo) == NulFrom(s, at - lo + len)
    {
      assert s[at - lo + len] == a[at + len];
      if a[at + len] == 0 {
        return;
      }
      len := len + 1;
    }
    return -1;
  }

  /** fdt_ro_probe_: the size of a tree that can be read, or an error. */
  ghost function Probed(f: Fdt): int
    reads f
  {
    if f.magic == FDT_SW_MAGIC && f.size_dt_struct == 0 then BADSTATE
    else if f.magic != FDT_MAGIC && f.magic != FDT_SW_MAGIC then BADMAGIC
    else if f.totalsize < INT_MAX then f.totalsize
    else TRUNCATED
  }

  method RoProbe(f: Fdt) returns (r: int)
    ensures r == Probed(f)
  {
    if f.magic == FDT_MAGIC {
    } else if f.magic == FDT_SW_MAGIC {
      if f.size_dt_struct == 0 {
        return BADSTATE;
      }
    } else {
      return BADMAGIC;
    }
    return if f.totalsize < INT_MAX then f.totalsize else TRUNCATED;
  }

  /** The strings block: behind the structure in a finished tree, at the end of the buffer in
      an unfinished one. */
  ghost predicate StringsPlaced(f: Fdt)
    reads f
  {
    && Readable(f)
    && (f.magic == FDT_MAGIC ==> f.off_dt_strings + f.size_dt_strings <= f.totalsize)
    && (f.magic == FDT_SW_MAGIC && f.size_dt_struct > 0 ==> f.off_dt_strings == f.totalsize && f.size_dt_strings <= f.totalsize)
  }

  /** A sum as a 32-bit unsigned number. */
  method Unsigned(n: int) returns (w: nat)
    requires 0 <= n + U32 && n < U32
    ensures w == if n < 0 then n + U32 else n
  {
    w := n % U32;
  }

  /** How long the string at a place of a block is. */
  function LengthAt(strings: seq<Byte>, at: nat): int
    requires at <= |strings|
  {
    var e := NulFrom(strings, at);
    if e < |strings| then e - at else TRUNCATED
  }

  /** fdt_get_string: the length of the string, or an error.  Unfinished trees count offsets
      from the end of the strings block, below zero. */
  method GetString(f: Fdt, stroffset: int) returns (len: int)
    requires StringsPlaced(f) && -0x8000_0000 <= stroffset <= INT_MAX
    ensures len ==
      if Probed(f) < 0 then Probed(f)
      else if f.magic == FDT_MAGIC then
        if 0 <= stroffset < f.size_dt_strings then LengthAt(f.Strings(), stroffset) else BADOFFSET
      else if 0 < -stroffset <= f.size_dt_strings then LengthAt(f.Tail(), f.size_dt_strings + stroffset) else BADOFFSET
  {
    hide LengthAt;
    var totalsize := RoProbe(f);
    if totalsize < 0 {
      return totalsize;
    }
    var absoffset := Unsigned(stroffset + f.off_dt_strings);
    if absoffset >= totalsize {
      return BADOFFSET;
    }
    var room := totalsize - absoffset;
    if f.magic == FDT_MAGIC {
      if stroffset < 0 || stroffset >= f.size_dt_strings {
        return BADOFFSET;
      }
      if f.size_dt_strings - stroffset < room {
        room := f.size_dt_strings - stroffset;
      }
      len := LengthIn(f, absoffset, room, f.off_dt_strings, f.size_dt_strings, stroffset);
    } else {
      var swStroffset := -stroffset;
      if stroffset >= 0 || swStroffset > f.size_dt_strings {
        return BADOFFSET;
      }
      if swStroffset < room {
        room := swStroffset;
      }
      len := LengthIn(f, absoffset, room, f.totalsize - f.size_dt_strings, f.size_dt_strings, f.size_dt_strings + stroffset);
    }
  }

  /** The search for the NUL, within the `size` bytes at `lo`. */
  method LengthIn(f: Fdt, absoffset: nat, room: nat, ghost lo: nat, ghost size: nat, ghost at: nat) returns (len: int)
    requires lo + size <= f.buf.Length && at + room == size && absoffset == lo + at
    ensures len == LengthAt(f.buf[..][lo..lo + size], at)
  {
    assert absoffset + room == lo + size;
    len := Memchr(f.buf, absoffset, room, lo);
    if len < 0 {
      return TRUNCATED;
    }
  }

  /** fdt_string_eq_ */
  method StringEq(f: Fdt, stroffset: nat, s: seq<Byte>, ghost key: seq<Byte>) returns (same: bool)
    requires Readable(f) && f.magic == FDT_MAGIC && f.totalsize < INT_MAX
    requires f.off_dt_strings + f.size_dt_strings <= f.totalsize && NamedAt(f.Strings(), stroffset, key) == Intact
    ensures same <==> s == key
  {
    StringEnd(f.Strings(), stroffset, key);
    var slen := GetString(f, stroffset);
    if slen != |s| {
      return false;
    }
    same := Memcmp(f.buf, f.off_dt_strings + stroffset, s);
    SliceSlice(f.buf[..], f.off_dt_strings, f.off_dt_strings + f.size_dt_strings, stroffset, stroffset + slen);
  }

  // ---- properties ----

  lemma {:induction false} PropWords(s: seq<Byte>, items: seq<Item>, k: nat, strings: seq<Byte>)
    requires Reads(s, items, strings) == Intact && k < |items| && items[k].Property? && |strings| <= INT_MAX
    ensures var at, it := Off(items, k), items[k];
      at + 12 + |it.data| <= |s| && Word(s, at + 4) == |it.data| && s[at + 12..at + 12 + |it.data|] == it.data &&
      NamedAt(strings, Word(s, at + 8), it.key) == Intact && Word(s, at + 8) <= INT_MAX
  {
    OffBounds(s, items, k, strings);
    var at, end := Off(items, k), Off(items, k + 1);
    WordAt(s[at..end], s, 4, at);
    WordAt(s[at..end], s, 8, at);
    SliceSlice(s, at, end, 12, 12 + |items[k].data|);
  }

  method LoadTwo(f: Fdt, at: nat) returns (first: nat, second: nat)
    requires Readable(f) && at + 8 <= f.size_dt_struct
    ensures first == Word(f.Struct(), at) && second == Word(f.Struct(), at + 4)
  {
    first := LoadWord(f, at);
    second := LoadWord(f, at + 4);
  }

  /** The fields of the property that is item k. */
  method PropFields(f: Fdt, offset: nat, ghost items: seq<Item>, ghost k: nat) returns (len: nat, nameoff: nat)
    requires Encoded(f, items) && k < |items| && items[k].Property? && offset == Off(items, k)
    ensures len == |items[k].data| && offset + 12 + len <= f.size_dt_struct && nameoff <= INT_MAX
    ensures NamedAt(f.Strings(), nameoff, items[k].key) == Intact
    ensures f.Struct()[offset + 12..offset + 12 + len] == items[k].data
  {
    ghost var s, strings, at := f.Struct(), f.Strings(), offset;
    PropWords(s, items, k, strings);
    len, nameoff := LoadTwo(f, offset + 4);
    assert s[at + 12..at + 12 + len] == items[k].data && NamedAt(strings, nameoff, items[k].key) == Intact;
  }

  ghost predicate PropReported(items: seq<Item>, s: PropStep, r: int) {
    match s
    case Here(m) => m < |items| && r == Off(items, m)
    case Stop(e) => r == e
  }

  /** nextprop_ */
  method NextPropFrom(f: Fdt, offset0: nat, ghost items: seq<Item>, ghost start: nat) returns (offset: int)
    requires Encoded(f, items) && start <= |items| && offset0 == Off(items, start)
    ensures PropReported(items, NextProp(items, start), offset)
  {
    offset := offset0;
    ghost var j := start;
    while true
      invariant start <= j <= |items| && offset == Off(items, j)
      invariant NextProp(items, start) == NextProp(items, j)
      decreases |items| - j
    {
      var tag, nextoffset := TagAt(f, offset, items, j);
      if tag == FDT_END {
        if nextoffset >= 0 {
          return BADSTRUCTURE;
        }
        return nextoffset;
      } else if tag == FDT_PROP {
        return;
      } else if tag != FDT_NOP {
        return NOTFOUND;
      }
      offset := nextoffset;
      j := j + 1;
    }
  }

  method FirstPropertyOffset(f: Fdt, nodeoffset: nat, ghost items: seq<Item>, ghost k: nat) returns (offset: int)
    requires Encoded(f, items) && k < |items| && items[k].BeginNode? && nodeoffset == Off(items, k)
    ensures PropReported(items, NextProp(items, k + 1), offset)
  {
    var next := IntoNode(f, nodeoffset, items, k);
    offset := NextPropFrom(f, next, items, k + 1);
  }

  method NextPropertyOffset(f: Fdt, offset0: nat, ghost items: seq<Item>, ghost k: nat) returns (offset: int)
    requires Encoded(f, items) && k < |items| && items[k].Property? && offset0 == Off(items, k)
    ensures PropReported(items, NextProp(items, k + 1), offset)
  {
    var next := PastProp(f, offset0, items, k);
    offset := NextPropFrom(f, next, items, k + 1);
  }

  /** Does the property that is item m have that name?  The length of its data. */
  method PropMatches(f: Fdt, prop: nat, name: seq<Byte>, ghost items: seq<Item>, ghost m: nat) returns (same: bool, len: nat)
    requires Encoded(f, items) && m < |items| && items[m].Property? && prop == Off(items, m)
    ensures same <==> items[m].key == name
    ensures len == |items[m].data|
  {
    var nameoff;
    len, nameoff := PropFields(f, prop, items, m);
    same := StringEq(f, nameoff, name, items[m].key);
  }

  /** fdt_get_property: the offset of the first property of node k with that name and the
      length of its data; otherwise an error in its place. */
  method GetProperty(f: Fdt, nodeoffset: nat, name: seq<Byte>, ghost items: seq<Item>, ghost k: nat) returns (prop: int, lenp: int)
    requires Encoded(f, items) && k < |items| && items[k].BeginNode? && nodeoffset == Off(items, k)
    ensures PropReported(items, FindProp(items, k + 1, name), prop)
    ensures match FindProp(items, k + 1, name)
      case Here(m) => lenp == |items[m].data|
      case Stop(e) => lenp == e
  {
    ghost var j := k + 1;
    prop := FirstPropertyOffset(f, nodeoffset, items, k);
    FindByNext(items, j, name);
    while prop >= 0
      invariant k + 1 <= j <= |items| && FindProp(items, k + 1, name) == FindProp(items, j, name)
      invariant PropReported(items, NextProp(items, j), prop)
      decreases |items| - j
    {
      FindByNext(items, j, name);
      ghost var m := NextProp(items, j).at;
      var same, len := PropMatches(f, prop, name, items, m);
      if same {
        return prop, len;
      }
      prop := NextPropertyOffset(f, prop, items, m);
      j := m + 1;
    }
    FindByNext(items, j, name);
    lenp := prop;
  }

  /** fdt_getprop: the value of the named property of node k. */
  method FdtGetprop(f: Fdt, nodeoffset: nat, name: seq<Byte>, ghost items: seq<Item>, ghost k: nat) returns (value: Option<seq<Byte>>)
    requires Encoded(f, items) && k < |items| && items[k].BeginNode? && nodeoffset == Off(items, k)
    ensures value == Lookup(PropsOf(items[k + 1..]), name)
  {
    hide Reads, PropsOf, Lookup, Off, NamedAt;
    FindIsLookup(items, k + 1, name);
    var prop, lenp := GetProperty(f, nodeoffset, name, items, k);
    if prop < 0 {
      return None;
    }
    var len, _ := PropFields(f, prop, items, FindProp(items, k + 1, name).at);
    var data := StructBytes(f, prop + 12, prop + 12 + len);
    return Some(data);
  }

  lemma {:induction false} NameOf(s: seq<Byte>, items: seq<Item>, k: nat, strings: seq<Byte>)
    requires Reads(s, items, strings) == Intact && k < |items| && items[k].BeginNode?
    ensures NamedAt(s, Off(items, k) + 4, items[k].name) == Intact
  {
    OffBounds(s, items, k, strings);
    var b := s[Off(items, k)..Off(items, k + 1)];
    assert StringAt(b, 4, items[k].name);
    StringMoved(b, s, 4, Off(items, k), items[k].name);
  }

  /** fdt_get_name */
  method GetName(f: Fdt, nodeoffset: nat, ghost items: seq<Item>, ghost k: nat) returns (name: seq<Byte>)
    requires Encoded(f, items) && k < |items| && items[k].BeginNode? && nodeoffset == Off(items, k)
    ensures name == items[k].name
  {
    NameOf(f.Struct(), items, k, f.Strings());
    var next := IntoNode(f, nodeoffset, items, k);
    name := NameFrom(f, nodeoffset + 4, items[k].name);
  }

  /** The string at a place of the structure block. */
  method NameFrom(f: Fdt, at: nat, ghost it: seq<Byte>) returns (name: seq<Byte>)
    requires Readable(f) && NamedAt(f.Struct(), at, it) == Intact
    ensures name == it
  {
    StringEnd(f.Struct(), at, it);
    var end := SkipName(f, at);
    name := StructBytes(f, at, end - 1);
  }

  /** The bytes from `from` up to `to` of the structure block. */
  method StructBytes(f: Fdt, from: nat, to: nat) returns (s: seq<Byte>)
    requires Readable(f) && from <= to <= f.size_dt_struct
    ensures s == f.Struct()[from..to]
  {
    var lo := f.off_dt_struct;
    SliceSlice(f.buf[..], lo, lo + f.size_dt_struct, from, to);
    return f.buf[..][lo + from..lo + to];
  }
}
