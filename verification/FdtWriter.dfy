/** The sequential writer: reserve map entries first, then the structure block growing up
    while the strings block grows down from the end of the buffer, and at the end the two
    are joined. */
module FdtWriter {
  import opened Bits
  import opened Common
  import opened FdtFormat
  import opened FdtTree
  import opened FdtBlob
  import opened FdtReader

  /** Where the reserve map starts: the header, rounded up to the size of a map entry. */
  const RSVMAP_START: nat := 48

  /** Not an error of the library: it would write below its buffer. */
  const OUTSIDE: int := 1

  // ---- the three states ----

  ghost predicate InMemrsv(f: Fdt)
    reads f, f.buf
  {
    && f.magic == FDT_SW_MAGIC && f.off_dt_strings == 0 && f.totalsize <= f.buf.Length && f.totalsize <= INT_MAX
    && f.off_mem_rsvmap == RSVMAP_START && f.off_dt_struct == RSVMAP_START + 16 * |f.rsv| <= f.totalsize
    && f.size_dt_struct == 0 && f.size_dt_strings == 0 && f.items == []
    && Map(f.buf[..], RSVMAP_START, f.rsv) == Intact
  }

  ghost predicate Layout(f: Fdt)
    reads f
  {
    && f.magic == FDT_SW_MAGIC && f.off_dt_strings == f.totalsize <= f.buf.Length && f.totalsize <= INT_MAX
    && f.off_mem_rsvmap == RSVMAP_START && f.off_dt_struct == RSVMAP_START + 16 * (|f.rsv| + 1)
    && f.off_dt_struct + f.size_dt_struct + f.size_dt_strings <= f.totalsize
  }

  ghost predicate NoEnd(items: seq<Item>) {
    forall k | 0 <= k < |items| :: !items[k].End?
  }

  /** The struct state: reserve map finished, the two blocks growing towards each other. */
  ghost predicate InStruct(f: Fdt)
    reads f, f.buf
  {
    Writing(f) == Intact
  }

  ghost function Writing(f: Fdt): Condition
    reads f, f.buf
  {
    if Layout(f) then State(f.buf[..], f.rsv, f.items, f.off_dt_struct, f.size_dt_struct, f.size_dt_strings, f.totalsize)
    else Broken
  }

  /** Whether the blocks hold what they should, as a value. */
  ghost function State(b: seq<Byte>, rsv: seq<(nat, nat)>, items: seq<Item>, lo: nat, n: nat, strs: nat, total: nat): Condition {
    if strs <= total && Holds(b, rsv, items, lo, n, total - strs, total) then Intact else Broken
  }

  /** The bytes of an unfinished tree: reserve map, `n` bytes of structure from `lo` on, and
      strings from `tail` up to the end. */
  ghost predicate Holds(b: seq<Byte>, rsv: seq<(nat, nat)>, items: seq<Item>, lo: nat, n: nat, tail: nat, total: nat) {
    && lo == RSVMAP_START + 16 * (|rsv| + 1) && lo + n <= tail <= total <= |b|
    && NoEnd(items) && Reserved(b, RSVMAP_START, rsv + [(0, 0)])
    && Encodes(b[lo..lo + n], items, b[tail..total], total - tail)
  }

  /** A finished tree, its blocks back to back. */
  ghost predicate Complete(f: Fdt)
    reads f, f.buf
  {
    && f.magic == FDT_MAGIC && f.off_mem_rsvmap == RSVMAP_START
    && f.off_dt_strings == f.off_dt_struct + f.size_dt_struct
    && f.totalsize == f.off_dt_strings + f.size_dt_strings <= f.buf.Length && f.totalsize <= INT_MAX
    && Final(f.buf[..], f.rsv, f.items, f.off_dt_struct, f.size_dt_struct, f.off_dt_strings, f.size_dt_strings, 0) == Intact
  }

  /** Whether the blocks of a tree with its terminator hold what they should. */
  ghost function Final(b: seq<Byte>, rsv: seq<(nat, nat)>, items: seq<Item>, lo: nat, n: nat, at: nat, strs: nat, bias: nat): Condition {
    if && lo == RSVMAP_START + 16 * (|rsv| + 1) && lo + n <= at && at + strs <= |b|
       && NoEnd(items) && Reserved(b, RSVMAP_START, rsv + [(0, 0)])
       && Encodes(b[lo..lo + n], items + [End], b[at..at + strs], bias)
    then Intact else Broken
  }

  ghost predicate Valid(f: Fdt)
    reads f, f.buf
  {
    InMemrsv(f) || InStruct(f) || Complete(f)
  }

  /** Bytes between the two growing blocks. */
  ghost function Room(f: Fdt): int
    reads f
  {
    f.totalsize - f.off_dt_struct - f.size_dt_struct - f.size_dt_strings
  }

  /** The strings block, while it stands at the end of the buffer. */
  ghost function Names(f: Fdt): seq<Byte>
    reads f, f.buf
  {
    if f.size_dt_strings <= f.totalsize <= f.buf.Length then f.Tail() else []
  }

  /** The strings block once a name is in it, with or without looking for it first. */
  function WithName(strings: seq<Byte>, name: seq<Byte>, dedup: bool): seq<Byte> {
    if dedup && PlaceFrom(strings, name, 0) >= 0 then strings else name + [0] + strings
  }

  // ---- creation and the reserve map ----

  method CreateWithFlags(f: Fdt, bufsize: int, flags: nat) returns (err: int)
    requires bufsize <= f.buf.Length && bufsize <= INT_MAX
    modifies f, f.buf
    ensures f.buf == old(f.buf)
    ensures err == if bufsize < RSVMAP_START then NOSPACE else if flags > NO_NAME_DEDUP then BADFLAGS else 0
    ensures err == 0 ==> InMemrsv(f) && f.rsv == [] && f.totalsize == bufsize && f.last_comp_version == flags
    ensures err != 0 ==> unchanged(f) && unchanged(f.buf)
  {
    if bufsize < RSVMAP_START {
      return NOSPACE;
    }
    if flags > NO_NAME_DEDUP {
      return BADFLAGS;
    }
    Memset(f.buf, 0, bufsize);
    f.magic := FDT_SW_MAGIC;
    f.last_comp_version := flags;
    f.totalsize := bufsize;
    f.off_mem_rsvmap := RSVMAP_START;
    f.off_dt_struct := f.off_mem_rsvmap;
    f.off_dt_strings := 0;
    f.size_dt_struct, f.size_dt_strings := 0, 0;
    f.rsv, f.items := [], [];
    return 0;
  }

  /** FDT_SW_PROBE */
  method SwProbe(f: Fdt) returns (err: int)
    requires Valid(f)
    ensures err == if Complete(f) then BADSTATE else 0
  {
    if f.magic == FDT_MAGIC {
      return BADSTATE;
    }
    return 0;
  }

  method SwProbeMemrsv(f: Fdt) returns (err: int)
    requires Valid(f)
    ensures err == if InMemrsv(f) then 0 else BADSTATE
  {
    err := SwProbe(f);
    if err == 0 && f.off_dt_strings != 0 {
      return BADSTATE;
    }
  }

  method SwProbeStruct(f: Fdt) returns (err: int)
    requires Valid(f)
    ensures err == if InStruct(f) then 0 else BADSTATE
  {
    err := SwProbe(f);
    if err == 0 && f.off_dt_strings != f.totalsize {
      return BADSTATE;
    }
  }

  method AddReservemapEntry(f: Fdt, addr: nat, size: nat) returns (err: int)
    requires Valid(f) && addr < U64 && size < U64
    modifies f, f.buf
    ensures f.buf == old(f.buf)
    ensures err == if !old(InMemrsv(f)) then BADSTATE else if old(f.off_dt_struct) + 16 > old(f.totalsize) then NOSPACE else 0
    ensures err == 0 ==> InMemrsv(f) && f.rsv == old(f.rsv) + [(addr, size)]
    ensures err == 0 ==> f.totalsize == old(f.totalsize) && f.last_comp_version == old(f.last_comp_version)
    ensures err != 0 ==> unchanged(f) && unchanged(f.buf)
  {
    err := SwProbeMemrsv(f);
    if err == 0 {
      err := PutEntry(f, (addr, size));
    }
  }

  method PutEntry(f: Fdt, e: (nat, nat)) returns (err: int)
    requires InMemrsv(f) && e.0 < U64 && e.1 < U64
    modifies f, f.buf
    ensures f.buf == old(f.buf)
    ensures err == if old(f.off_dt_struct) + 16 > old(f.totalsize) then NOSPACE else 0
    ensures err == 0 ==> InMemrsv(f) && f.rsv == old(f.rsv) + [e]
    ensures err == 0 ==> f.totalsize == old(f.totalsize) && f.last_comp_version == old(f.last_comp_version)
    ensures err != 0 ==> unchanged(f) && unchanged(f.buf)
  {
    hide Reserved;
    var offset := f.off_dt_struct;
    if offset + 16 > f.totalsize {
      return NOSPACE;
    }
    ReservedAdded(f.buf[..], RSVMAP_START, f.rsv, e);
    Memcpy(f.buf, offset, EntryBytes(e));
    f.off_dt_struct := offset + 16;
    f.rsv := f.rsv + [e];
    return 0;
  }

  /** Ends the reserve map with an empty entry and enters the struct state. */
  method FinishReservemap(f: Fdt) returns (err: int)
    requires Valid(f)
    modifies f, f.buf
    ensures f.buf == old(f.buf)
    ensures err == if !old(InMemrsv(f)) then BADSTATE else if old(f.off_dt_struct) + 16 > old(f.totalsize) then NOSPACE else 0
    ensures err == 0 ==> InStruct(f) && f.rsv == old(f.rsv) && f.items == []
    ensures err == 0 ==> f.totalsize == old(f.totalsize) && f.size_dt_strings == 0 && f.size_dt_struct == 0
    ensures err == 0 ==> f.last_comp_version == old(f.last_comp_version)
    ensures err != 0 ==> unchanged(f) && unchanged(f.buf)
  {
    ghost var rsv := f.rsv;
    err := AddReservemapEntry(f, 0, 0);
    if err != 0 {
      return;
    }
    f.off_dt_strings := f.totalsize;
    f.rsv := rsv;
  }

  // ---- growing the structure block ----

  /** fdt_grab_space_: the place of `len` more bytes of structure block, -1 if there is no
      room. */
  method GrabSpace(f: Fdt, len: nat) returns (ptr: int)
    requires Layout(f)
    modifies f`size_dt_struct
    ensures ptr == if len <= old(Room(f)) then f.off_dt_struct + old(f.size_dt_struct) else -1
    ensures f.size_dt_struct == old(f.size_dt_struct) + if ptr >= 0 then len else 0
  {
    var offset := f.size_dt_struct;
    var spaceleft := f.totalsize - f.off_dt_struct - f.size_dt_strings;
    if offset + len > spaceleft {
      return -1;
    }
    f.size_dt_struct := offset + len;
    return f.off_dt_struct + offset;
  }

  /** A new item written behind the structure block, with nothing else changed. */
  lemma {:induction false} ItemAdded(b: seq<Byte>, c: seq<Byte>, lo: nat, n: nat, tail: nat, total: nat, items: seq<Item>, it: Item)
    requires lo + n + Size(it) <= tail <= total <= |b| && Kept(b, c, lo + n, lo + n + Size(it))
    requires Encodes(b[lo..lo + n], items, b[tail..total], total - tail)
    requires ItemState(c[lo + n..lo + n + Size(it)], it, b[tail..total], total - tail) == Intact
    ensures Encodes(c[lo..lo + n + Size(it)], items + [it], c[tail..total], total - tail)
  {
    hide Encodes, ItemState;
    var m, strings := Size(it), b[tail..total];
    KeptSlice(b, c, lo + n, lo + n + m, lo, lo + n);
    KeptSlice(b, c, lo + n, lo + n + m, tail, total);
    Cut(c, lo, n, m);
    AppendOne(c[lo..lo + n], c[lo + n..lo + n + m], items, it, strings, total - tail);
  }

  lemma {:induction false} AppendOne(x: seq<Byte>, y: seq<Byte>, items: seq<Item>, it: Item, strings: seq<Byte>, bias: nat)
    requires Encodes(x, items, strings, bias) && ItemState(y, it, strings, bias) == Intact
    ensures Encodes(x + y, items + [it], strings, bias)
  {
    EncodesOne(y, it, strings, bias);
    EncodesAppend(x, y, items, [it], strings, bias);
  }

  /** A new item in the struct state, `m` bytes of structure then: what is already there
      keeps its meaning. */
  lemma {:induction false} HoldsMore(b: seq<Byte>, c: seq<Byte>, rsv: seq<(nat, nat)>, items: seq<Item>, it: Item, lo: nat, n: nat, m: nat, tail: nat, total: nat)
    requires Holds(b, rsv, items, lo, n, tail, total) && !it.End?
    requires m == n + Size(it) && lo + m <= tail && Kept(b, c, lo + n, lo + m)
    requires ItemState(c[lo + n..lo + m], it, b[tail..total], total - tail) == Intact
    ensures Holds(c, rsv, items + [it], lo, m, tail, total)
    ensures b[tail..total] == c[tail..total]
  {
    hide Encodes, Reserved, ItemState;
    ItemAdded(b, c, lo, n, tail, total, items, it);
    KeptSlice(b, c, lo + n, lo + m, tail, total);
    ReservedKept(b, c, RSVMAP_START, rsv + [(0, 0)], lo + n);
  }

  lemma {:induction false} StateMore(b: seq<Byte>, c: seq<Byte>, rsv: seq<(nat, nat)>, items: seq<Item>, it: Item, lo: nat, n: nat, m: nat, strs: nat, total: nat, at: nat, end: nat)
    requires State(b, rsv, items, lo, n, strs, total) == Intact && !it.End?
    requires at == lo + n && end == lo + m && m == n + Size(it) && lo + m + strs <= total
    requires Frame(b, c, at, end) == Intact
    requires ItemState(c[at..end], it, b[total - strs..total], strs) == Intact
    ensures State(c, rsv, items + [it], lo, m, strs, total) == Intact
    ensures b[total - strs..total] == c[total - strs..total]
  {
    HoldsMore(b, c, rsv, items, it, lo, n, m, total - strs, total);
  }

  /** The same as a step of the writer: `b`, `items` and `n` are from before it. */
  lemma {:induction false} Grown(f: Fdt, b: seq<Byte>, items: seq<Item>, it: Item, n: nat, at: nat, end: nat, names: seq<Byte>)
    requires Layout(f) && !it.End? && f.items == items + [it]
    requires at == f.off_dt_struct + n && end == f.off_dt_struct + f.size_dt_struct && end == at + Size(it)
    requires State(b, f.rsv, items, f.off_dt_struct, n, f.size_dt_strings, f.totalsize) == Intact
    requires names == b[f.totalsize - f.size_dt_strings..f.totalsize]
    requires Frame(b, f.buf[..], at, end) == Intact
    requires ItemState(f.buf[..][at..end], it, names, f.size_dt_strings) == Intact
    ensures InStruct(f) && Names(f) == names
  {
    StateMore(b, f.buf[..], f.rsv, items, it, f.off_dt_struct, n, f.size_dt_struct, f.size_dt_strings, f.totalsize, at, end);
  }

  /** Room for a BEGIN_NODE tag and the name, written in two pieces. */
  lemma {:induction false} BeginWritten(b: seq<Byte>, c: seq<Byte>, d: seq<Byte>, at: nat, name: seq<Byte>, strings: seq<Byte>, bias: nat)
    requires NoNul(name) && at + Size(BeginNode(name)) <= |b|
    requires c == Overwritten(b, at, WordBytes(FDT_BEGIN_NODE)) && d == Overwritten(c, at + 4, name + [0])
    ensures Kept(b, d, at, at + Size(BeginNode(name)))
    ensures ItemBytes(d[at..at + Size(BeginNode(name))], BeginNode(name), strings, bias)
  {
    var w, s, n := WordBytes(FDT_BEGIN_NODE), name + [0], Size(BeginNode(name));
    KeptWrite(b, at, w, at, at + n);
    KeptWrite(c, at + 4, s, at, at + n);
    KeptTrans(b, c, d, at, at + n);
    OverwrittenSame(b, at, w);
    OverwrittenBefore(c, at + 4, s, at, at + 4);
    OverwrittenSame(c, at + 4, s);
    SliceSlice(d, at, at + n, 0, 4);
    SliceSlice(d, at, at + n, 4, 4 + |name| + 1);
    BeginBytes(d[at..at + n], name, strings, bias);
  }

  /** What no operation of the struct state changes. */
  ghost function Rest(f: Fdt): (nat, nat, seq<(nat, nat)>)
    reads f
  {
    (f.totalsize, f.last_comp_version, f.rsv)
  }

  method FdtBeginNode(f: Fdt, name: seq<Byte>) returns (err: int)
    requires Valid(f) && NoNul(name)
    modifies f, f.buf
    ensures f.buf == old(f.buf)
    ensures err == if !old(InStruct(f)) then BADSTATE else if Size(BeginNode(name)) > old(Room(f)) then NOSPACE else 0
    ensures err == 0 ==> InStruct(f) && f.items == old(f.items) + [BeginNode(name)] && Names(f) == old(Names(f))
    ensures err == 0 ==> Room(f) == old(Room(f)) - Size(BeginNode(name)) && Rest(f) == old(Rest(f))
    ensures err != 0 ==> unchanged(f) && unchanged(f.buf)
  {
    err := SwProbeStruct(f);
    if err == 0 {
      err := PutBegin(f, name);
    }
  }

  method StoreBegin(buf: array<Byte>, nh: nat, name: seq<Byte>, ghost strings: seq<Byte>, ghost bias: nat)
    requires nh + Size(BeginNode(name)) <= buf.Length && NoNul(name)
    modifies buf
    ensures Frame(old(buf[..]), buf[..], nh, nh + Size(BeginNode(name))) == Intact
    ensures ItemState(buf[..][nh..nh + Size(BeginNode(name))], BeginNode(name), strings, bias) == Intact
  {
    ghost var b := buf[..];
    Memcpy(buf, nh, WordBytes(FDT_BEGIN_NODE));
    ghost var c := buf[..];
    Memcpy(buf, nh + 4, name + [0]);
    BeginWritten(b, c, buf[..], nh, name, strings, bias);
  }

  method PutBegin(f: Fdt, name: seq<Byte>) returns (err: int)
    requires InStruct(f) && NoNul(name)
    modifies f, f.buf
    ensures f.buf == old(f.buf)
    ensures err == if Size(BeginNode(name)) > old(Room(f)) then NOSPACE else 0
    ensures err == 0 ==> InStruct(f) && f.items == old(f.items) + [BeginNode(name)] && Names(f) == old(Names(f))
    ensures err == 0 ==> Room(f) == old(Room(f)) - Size(BeginNode(name)) && Rest(f) == old(Rest(f))
    ensures err != 0 ==> unchanged(f) && unchanged(f.buf)
  {
    hide State, ItemState;
    ghost var b, n, items, names := f.buf[..], f.size_dt_struct, f.items, Names(f);
    assert names == b[f.totalsize - f.size_dt_strings..f.totalsize];
    var namelen := |name| + 1;
    var nh := GrabSpace(f, 4 + Align4(namelen));
    if nh < 0 {
      return NOSPACE;
    }
    StoreBegin(f.buf, nh, name, names, f.size_dt_strings);
    f.items := f.items + [BeginNode(name)];
    Grown(f, b, items, BeginNode(name), n, nh, nh + Size(BeginNode(name)), names);
    return 0;
  }

  method FdtEndNode(f: Fdt) returns (err: int)
    requires Valid(f)
    modifies f, f.buf
    ensures f.buf == old(f.buf)
    ensures err == if !old(InStruct(f)) then BADSTATE else if TAGSIZE > old(Room(f)) then NOSPACE else 0
    ensures err == 0 ==> InStruct(f) && f.items == old(f.items) + [EndNode] && Names(f) == old(Names(f))
    ensures err == 0 ==> Room(f) == old(Room(f)) - TAGSIZE && Rest(f) == old(Rest(f))
    ensures err != 0 ==> unchanged(f) && unchanged(f.buf)
  {
    err := SwProbeStruct(f);
    if err == 0 {
      err := PutEnd(f);
    }
  }

  method PutEnd(f: Fdt) returns (err: int)
    requires InStruct(f)
    modifies f, f.buf
    ensures f.buf == old(f.buf)
    ensures err == if TAGSIZE > old(Room(f)) then NOSPACE else 0
    ensures err == 0 ==> InStruct(f) && f.items == old(f.items) + [EndNode] && Names(f) == old(Names(f))
    ensures err == 0 ==> Room(f) == old(Room(f)) - TAGSIZE && Rest(f) == old(Rest(f))
    ensures err != 0 ==> unchanged(f) && unchanged(f.buf)
  {
    hide State, ItemBytes, WordBytes, Overwritten, Kept;
    ghost var b, n, items, names := f.buf[..], f.size_dt_struct, f.items, Names(f);
    assert names == b[f.totalsize - f.size_dt_strings..f.totalsize];
    var en := GrabSpace(f, TAGSIZE);
    if en < 0 {
      return NOSPACE;
    }
    Memcpy(f.buf, en, WordBytes(FDT_END_NODE));
    TagWritten(b, en, EndNode, names, f.size_dt_strings);
    f.items := f.items + [EndNode];
    Grown(f, b, items, EndNode, n, en, en + 4, names);
    return 0;
  }

  lemma {:induction false} TagWritten(b: seq<Byte>, at: nat, it: Item, strings: seq<Byte>, bias: nat)
    requires it.EndNode? || it.End?
    requires at + 4 <= |b|
    ensures Kept(b, Overwritten(b, at, WordBytes(Tag(it))), at, at + 4)
    ensures ItemBytes(Overwritten(b, at, WordBytes(Tag(it)))[at..at + Size(it)], it, strings, bias)
  {
    var w := WordBytes(Tag(it));
    KeptWrite(b, at, w, at, at + 4);
    OverwrittenSame(b, at, w);
    TagBytes(w, it, strings, bias);
  }

  // ---- the strings block ----

  /** The test that fdt_add_string_ makes, in 32-bit unsigned arithmetic. */
  predicate NoRoomForString(totalsize: nat, structTop: nat, offset: nat) {
    (totalsize - offset) % U32 < structTop
  }

  /** It finds every string that does not fit, unless the string is longer than all the
      buffer below the strings block: then the difference wraps around and the test passes. */
  lemma {:induction false} StringTestExact(totalsize: nat, structTop: nat, offset: nat)
    requires structTop <= totalsize <= INT_MAX && offset < U32 - INT_MAX
    ensures (NoRoomForString(totalsize, structTop, offset) <==> structTop + offset > totalsize) <==> offset <= totalsize
  {
  }

  /** A string of 64 bytes for a buffer of 64 bytes that is full up to its end. */
  lemma {:induction false} StringTestExample()
    ensures !NoRoomForString(64, 64, 65) && 64 + 65 > 64
  {
    assert (64 - 65) % U32 == U32 - 1;
  }

  /** The state with only the last `strs` bytes of the strings block. */
  ghost function Without(f: Fdt, strs: nat): Condition
    reads f, f.buf
  {
    State(f.buf[..], f.rsv, f.items, f.off_dt_struct, f.size_dt_struct, strs, f.totalsize)
  }

  /** Would the string be written below the buffer? */
  ghost predicate Below(f: Fdt, s: seq<Byte>)
    reads f
  {
    var offset := f.size_dt_strings + |s| + 1;
    offset > f.totalsize && !NoRoomForString(f.totalsize, f.off_dt_struct + f.size_dt_struct, offset)
  }

  /** fdt_add_string_: a new string in front of the strings block; its offset, or 0 when
      there is no room. */
  method AddString(f: Fdt, s: seq<Byte>) returns (off: int, outside: bool)
    requires InStruct(f) && NoNul(s)
    modifies f`size_dt_strings, f.buf
    ensures off == 0 <==> |s| + 1 > old(Room(f))
    ensures outside == old(Below(f, s))
    ensures off != 0 ==> off + f.size_dt_strings == 0
    ensures off == 0 ==> f.size_dt_strings == old(f.size_dt_strings) && unchanged(f.buf)
    ensures off != 0 ==> InStruct(f) && f.size_dt_strings == old(f.size_dt_strings) + |s| + 1
    ensures off != 0 ==> Names(f) == s + [0] + old(Names(f))
    ensures off != 0 ==> NamedAt(f.Tail(), f.size_dt_strings + off, s) == Intact
    ensures Without(f, old(f.size_dt_strings)) == Intact
  {
    hide State, NamedAt;
    var strtabsize, len := f.size_dt_strings, |s| + 1;
    var offset := strtabsize + len;
    var structTop := f.off_dt_struct + f.size_dt_struct;
    if (f.totalsize - offset) % U32 < structTop {
      return 0, false;
    }
    if offset > f.totalsize {
      return 0, true;
    }
    PutString(f, s, offset);
    return -offset, false;
  }

  method PutString(f: Fdt, s: seq<Byte>, offset: nat)
    requires InStruct(f) && NoNul(s) && offset == f.size_dt_strings + |s| + 1 && |s| + 1 <= Room(f)
    modifies f`size_dt_strings, f.buf
    ensures InStruct(f) && f.size_dt_strings == offset && Names(f) == s + [0] + old(Names(f))
    ensures NamedAt(f.Tail(), 0, s) == Intact && Without(f, old(f.size_dt_strings)) == Intact
  {
    hide State;
    ghost var b, names, strs := f.buf[..], Names(f), f.size_dt_strings;
    assert names == b[f.totalsize - strs..f.totalsize];
    Memcpy(f.buf, f.totalsize - offset, s + [0]);
    f.size_dt_strings := offset;
    Prepended(f, b, s + [0], strs);
    FirstString(f.Tail(), s, names);
  }

  lemma {:induction false} TailGrown(b: seq<Byte>, c: seq<Byte>, rsv: seq<(nat, nat)>, items: seq<Item>, lo: nat, n: nat, tail: nat, total: nat, s: seq<Byte>)
    requires Holds(b, rsv, items, lo, n, tail, total) && total <= INT_MAX
    requires lo + n + |s| <= tail && c == Overwritten(b, tail - |s|, s)
    ensures c[tail - |s|..total] == s + b[tail..total] && c[lo..lo + n] == b[lo..lo + n]
    ensures Holds(c, rsv, items, lo, n, tail - |s|, total)
  {
    hide Encodes, Reserved, NoEnd;
    TailBytes(b, c, lo, n, tail, total, s);
    ReservedKept(b, c, RSVMAP_START, rsv + [(0, 0)], lo);
    var oldStrings := b[tail..total];
    PrependKeeps(oldStrings, s);
    EncodesKept(b[lo..lo + n], items, oldStrings, total - tail, s + oldStrings, |s| + |oldStrings|);
  }

  /** The same as a step of the writer: `b` and `strs` are from before it. */
  lemma {:induction false} Prepended(f: Fdt, b: seq<Byte>, s: seq<Byte>, strs: nat)
    requires Layout(f) && f.size_dt_strings == strs + |s|
    requires State(b, f.rsv, f.items, f.off_dt_struct, f.size_dt_struct, strs, f.totalsize) == Intact
    requires f.buf[..] == Overwritten(b, f.totalsize - f.size_dt_strings, s)
    ensures InStruct(f) && f.Tail() == s + b[f.totalsize - strs..f.totalsize]
    ensures Without(f, strs) == Intact
  {
    hide Encodes, Reserved, NoEnd;
    KeptWrite(b, f.totalsize - f.size_dt_strings, s, f.off_dt_struct + f.size_dt_struct, f.totalsize - strs);
    HoldsKept(b, f.buf[..], f.rsv, f.items, f.off_dt_struct, f.size_dt_struct, f.totalsize - strs, f.totalsize);
    TailGrown(b, f.buf[..], f.rsv, f.items, f.off_dt_struct, f.size_dt_struct, f.totalsize - strs, f.totalsize, s);
  }

  lemma {:induction false} FirstString(strings: seq<Byte>, s: seq<Byte>, more: seq<Byte>)
    requires NoNul(s) && strings == s + [0] + more
    ensures StringAt(strings, 0, s)
  {
    StringBytes(strings, 0, s);
    assert strings[0..|s| + 1] == s + [0];
  }

  lemma {:induction false} TailBytes(b: seq<Byte>, c: seq<Byte>, lo: nat, n: nat, tail: nat, total: nat, s: seq<Byte>)
    requires lo + n + |s| <= tail <= total <= |b| && c == Overwritten(b, tail - |s|, s)
    ensures c[tail - |s|..total] == s + b[tail..total] && c[lo..lo + n] == b[lo..lo + n] && c[..lo] == b[..lo]
  {
    var at := tail - |s|;
    KeptWrite(b, at, s, at, tail);
    KeptSlice(b, c, at, tail, lo, lo + n);
    KeptSlice(b, c, at, tail, tail, total);
    KeptSlice(b, c, at, tail, 0, lo);
    OverwrittenSame(b, at, s);
    Cut(c, at, |s|, total - tail);
  }

  /** fdt_del_last_string_ */
  method DelLastString(f: Fdt, s: seq<Byte>)
    requires |s| + 1 <= f.size_dt_strings
    modifies f`size_dt_strings
    ensures f.size_dt_strings == old(f.size_dt_strings) - (|s| + 1)
  {
    f.size_dt_strings := f.size_dt_strings - (|s| + 1);
  }

  /** Does the writer look for names before it adds them? */
  predicate Dedup(f: Fdt)
    reads f
  {
    f.last_comp_version == 0
  }

  /** Does a property of that name need a new string? */
  ghost predicate NeedsString(f: Fdt, name: seq<Byte>)
    reads f, f.buf
  {
    !(Dedup(f) && PlaceFrom(Names(f), name, 0) >= 0)
  }

  /** The name of a property as an offset from the end of the strings block, found there
      or added, with or without deduplication; 0 when there is no room. */
  method NameOffset(f: Fdt, name: seq<Byte>) returns (nameoff: int, added: bool, outside: bool)
    requires InStruct(f) && NoNul(name)
    modifies f`size_dt_strings, f.buf
    ensures added <==> old(NeedsString(f, name))
    ensures nameoff == 0 <==> added && |name| + 1 > old(Room(f))
    ensures outside == (added && old(Below(f, name)))
    ensures InStruct(f)
    ensures nameoff != 0 ==> nameoff < 0 && NamedAt(f.Tail(), f.size_dt_strings + nameoff, name) == Intact
    ensures Names(f) == if nameoff != 0 then WithName(old(Names(f)), name, Dedup(f)) else old(Names(f))
    ensures f.size_dt_strings == old(f.size_dt_strings) + if added && nameoff != 0 then |name| + 1 else 0
    ensures Without(f, old(f.size_dt_strings)) == Intact
  {
    hide State, NamedAt, PlaceFrom;
    if f.last_comp_version != 0 {
      added := true;
      nameoff, outside := AddString(f, name);
    } else {
      nameoff, added, outside := FindAddString(f, name);
    }
  }

  method FindInTail(f: Fdt, s: seq<Byte>) returns (p: int)
    requires f.size_dt_strings <= f.totalsize <= f.buf.Length && NoNul(s)
    ensures p == PlaceFrom(f.Tail(), s, 0)
  {
    p := FindString(f.buf, f.totalsize - f.size_dt_strings, f.size_dt_strings, s);
    assert f.totalsize - f.size_dt_strings + f.size_dt_strings == f.totalsize;
  }

  /** fdt_find_add_string_ */
  method FindAddString(f: Fdt, s: seq<Byte>) returns (off: int, added: bool, outside: bool)
    requires InStruct(f) && NoNul(s)
    modifies f`size_dt_strings, f.buf
    ensures added <==> PlaceFrom(old(Names(f)), s, 0) < 0
    ensures off == 0 <==> added && |s| + 1 > old(Room(f))
    ensures outside == (added && old(Below(f, s)))
    ensures InStruct(f)
    ensures off != 0 ==> off < 0 && NamedAt(f.Tail(), f.size_dt_strings + off, s) == Intact
    ensures Names(f) == if off != 0 then WithName(old(Names(f)), s, true) else old(Names(f))
    ensures f.size_dt_strings == old(f.size_dt_strings) + if added && off != 0 then |s| + 1 else 0
    ensures Without(f, old(f.size_dt_strings)) == Intact
  {
    hide State, PlaceFrom;
    var p := FindInTail(f, s);
    if p >= 0 {
      return p - f.size_dt_strings, false, false;
    }
    added := true;
    off, outside := AddString(f, s);
  }

  // ---- properties ----

  /** Bytes between the two blocks do not matter. */
  lemma {:induction false} HoldsKept(b: seq<Byte>, c: seq<Byte>, rsv: seq<(nat, nat)>, items: seq<Item>, lo: nat, n: nat, tail: nat, total: nat)
    requires Holds(b, rsv, items, lo, n, tail, total) && Kept(b, c, lo + n, tail)
    ensures Holds(c, rsv, items, lo, n, tail, total)
    ensures b[lo..lo + n] == c[lo..lo + n] && b[tail..total] == c[tail..total]
  {
    KeptSlice(b, c, lo + n, tail, lo, lo + n);
    KeptSlice(b, c, lo + n, tail, tail, total);
    ReservedKept(b, c, RSVMAP_START, rsv + [(0, 0)], lo + n);
  }

  /** The buffer with a property's fixed part written: tag, name offset and length, in that
      order.  The data stays what it was. */
  function PropertyStored(b: seq<Byte>, prop: nat, nameoff: nat, len: nat): (c: seq<Byte>)
    requires prop + 12 + Align4(len) <= |b| && nameoff < U32 && len < U32
    ensures |c| == |b|
  {
    Overwritten(Overwritten(Overwritten(b, prop, WordBytes(FDT_PROP)), prop + 8, WordBytes(nameoff)), prop + 4, WordBytes(len))
  }

  method StoreProperty(buf: array<Byte>, prop: nat, nameoff: nat, len: nat)
    requires prop + 12 + Align4(len) <= buf.Length && nameoff < U32 && len < U32
    modifies buf
    ensures buf[..] == PropertyStored(old(buf[..]), prop, nameoff, len)
  {
    Memcpy(buf, prop, WordBytes(FDT_PROP));
    Memcpy(buf, prop + 8, WordBytes(nameoff));
    Memcpy(buf, prop + 4, WordBytes(len));
  }

  lemma {:induction false} StoredItem(b: seq<Byte>, prop: nat, nameoff: nat, len: nat, key: seq<Byte>, strings: seq<Byte>, bias: nat, end: nat)
    requires end == prop + 12 + Align4(len) <= |b| && nameoff < U32 && len < U32
    requires StringAt(strings, Unbias(nameoff, bias), key)
    ensures var c := PropertyStored(b, prop, nameoff, len);
      Frame(b, c, prop, end) == Intact &&
      ItemState(c[prop..end], Property(key, BytesAt(c, prop + 12, len)), strings, bias) == Intact
  {
    var x, y, z := WordBytes(FDT_PROP), WordBytes(nameoff), WordBytes(len);
    var c := Overwritten(b, prop, x);
    var d := Overwritten(c, prop + 8, y);
    ThreeWords(b, c, d, PropertyStored(b, prop, nameoff, len), prop, x, y, z, Align4(len));
    PropertyWritten(PropertyStored(b, prop, nameoff, len), prop, nameoff, len, key, strings, bias);
  }

  /** The state with that property added. */
  lemma {:induction false} StateProperty(b: seq<Byte>, rsv: seq<(nat, nat)>, items: seq<Item>, lo: nat, n: nat, m: nat, strs: nat, total: nat,
                      prop: nat, nameoff: int, len: nat, key: seq<Byte>)
    requires State(b, rsv, items, lo, n, strs, total) == Intact && len < U32 && total <= INT_MAX
    requires prop == lo + n && m == n + 12 + Align4(len) && lo + m + strs <= total
    requires nameoff < 0 && NamedAt(b[total - strs..total], strs + nameoff, key) == Intact
    ensures var c := PropertyStored(b, prop, nameoff % U32, len);
      State(c, rsv, items + [Property(key, BytesAt(c, prop + 12, len))], lo, m, strs, total) == Intact &&
      b[total - strs..total] == c[total - strs..total]
  {
    var end := lo + m;
    NegativeOffset(strs, nameoff);
    StoredItem(b, prop, nameoff % U32, len, key, b[total - strs..total], strs, end);
    var c := PropertyStored(b, prop, nameoff % U32, len);
    StateMore(b, c, rsv, items, Property(key, BytesAt(c, prop + 12, len)), lo, n, m, strs, total, prop, end);
  }

  lemma {:induction false} ThreeWords(b: seq<Byte>, c: seq<Byte>, d: seq<Byte>, e: seq<Byte>, at: nat, x: seq<Byte>, y: seq<Byte>, z: seq<Byte>, n: nat)
    requires at + 12 + n <= |b| && |x| == |y| == |z| == 4
    requires c == Overwritten(b, at, x) && d == Overwritten(c, at + 8, y) && e == Overwritten(d, at + 4, z)
    ensures Kept(b, e, at, at + 12 + n)
    ensures e[at..at + 4] == x && e[at + 4..at + 8] == z && e[at + 8..at + 12] == y
  {
    KeptWrite(b, at, x, at, at + 12 + n);
    KeptWrite(c, at + 8, y, at, at + 12 + n);
    KeptWrite(d, at + 4, z, at, at + 12 + n);
    KeptTrans(b, c, d, at, at + 12 + n);
    KeptTrans(b, d, e, at, at + 12 + n);
    OverwrittenSame(b, at, x);
    OverwrittenBefore(c, at + 8, y, at, at + 4);
    OverwrittenBefore(d, at + 4, z, at, at + 4);
    OverwrittenSame(c, at + 8, y);
    OverwrittenAfter(d, at + 4, z, at + 8, at + 12);
    OverwrittenSame(d, at + 4, z);
  }

  lemma {:induction false} PropertyWritten(b: seq<Byte>, at: nat, nameoff: nat, len: nat, key: seq<Byte>, strings: seq<Byte>, bias: nat)
    requires at + 12 + Align4(len) <= |b| && nameoff < U32 && len < U32 && StringAt(strings, Unbias(nameoff, bias), key)
    requires b[at..at + 4] == WordBytes(FDT_PROP) && b[at + 4..at + 8] == WordBytes(len) && b[at + 8..at + 12] == WordBytes(nameoff)
    ensures ItemBytes(b[at..at + 12 + Align4(len)], Property(key, b[at + 12..at + 12 + len]), strings, bias)
  {
    hide ItemBytes, WordBytes, StringAt, Word, Align4, Unbias;
    var n := 12 + Align4(len);
    SliceSlice(b, at, at + n, 0, 4);
    SliceSlice(b, at, at + n, 4, 8);
    SliceSlice(b, at, at + n, 8, 12);
    SliceSlice(b, at, at + n, 12, 12 + len);
    PropertyBytes(b[at..at + n], key, b[at + 12..at + 12 + len], nameoff, strings, bias);
  }

  /** An offset below zero as an unsigned word, counted from the end of the strings block. */
  lemma {:induction false} NegativeOffset(size: nat, nameoff: int)
    requires size <= INT_MAX && nameoff < 0 && 0 <= size + nameoff
    ensures nameoff % U32 == U32 + nameoff && Unbias(nameoff % U32, size) == size + nameoff
  {
  }

  /** The bytes a property takes, its name included when that is not there yet. */
  ghost function Needed(f: Fdt, name: seq<Byte>, len: nat): int
    reads f, f.buf
  {
    12 + Align4(len) + if NeedsString(f, name) then |name| + 1 else 0
  }

  /** What a property that does not fit is answered with. */
  ghost function PropertyError(f: Fdt, name: seq<Byte>): int
    reads f, f.buf
  {
    if NeedsString(f, name) && Below(f, name) then OUTSIDE else NOSPACE
  }

  /** Taking a string off the front again uncovers the strings block behind it. */
  lemma {:induction false} TailBehind(b: seq<Byte>, s: seq<Byte>, names: seq<Byte>, total: nat)
    requires |s| + |names| <= total <= |b| && b[total - (|s| + |names|)..total] == s + names
    ensures b[total - |names|..total] == names
  {
    var n := |s| + |names|;
    SliceSlice(b, total - n, total, |s|, n);
  }

  /** Grab the space and fill the fixed part; roll the name back if there is no room. */
  method PutProperty(f: Fdt, name: seq<Byte>, len: nat, nameoff: int, added: bool, ghost names: seq<Byte>) returns (ptr: int)
    requires InStruct(f) && len <= INT_MAX && Names(f) == (if added then name + [0] + names else names)
    requires Without(f, |names|) == Intact
    requires nameoff < 0 && NamedAt(f.Tail(), f.size_dt_strings + nameoff, name) == Intact
    modifies f, f.buf
    ensures f.buf == old(f.buf) && Rest(f) == old(Rest(f))
    ensures (ptr < 0) == (12 + Align4(len) > old(Room(f)))
    ensures ptr < 0 ==> Names(f) == names
    ensures ptr < 0 ==> f.size_dt_struct == old(f.size_dt_struct) && f.items == old(f.items) && unchanged(f.buf)
    ensures InStruct(f)
    ensures ptr >= 0 ==> ptr == f.off_dt_struct + old(f.size_dt_struct) + 12
    ensures ptr >= 0 ==> f.size_dt_struct == old(f.size_dt_struct) + 12 + Align4(len)
    ensures ptr >= 0 ==> Names(f) == old(Names(f))
    ensures ptr >= 0 ==> f.items == old(f.items) + [Property(name, BytesAt(f.buf[..], ptr, len))]
  {
    hide State, NamedAt;
    ghost var n := f.size_dt_struct;
    var prop := GrabSpace(f, 12 + Align4(len));
    if prop < 0 {
      if added {
        TakeOut(f, name, names);
      }
      return -1;
    }
    ptr := FillProperty(f, name, len, nameoff, prop, n);
  }

  /** The name goes out of the strings block again. */
  method TakeOut(f: Fdt, name: seq<Byte>, ghost names: seq<Byte>)
    requires InStruct(f) && Names(f) == name + [0] + names && Without(f, |names|) == Intact
    modifies f`size_dt_strings
    ensures InStruct(f) && Names(f) == names
  {
    hide State;
    DelLastString(f, name);
    TailBehind(f.buf[..], name + [0], names, f.totalsize);
  }

  method FillProperty(f: Fdt, name: seq<Byte>, len: nat, nameoff: int, prop: nat, ghost n: nat) returns (ptr: nat)
    requires Layout(f) && len <= INT_MAX && prop == f.off_dt_struct + n && f.size_dt_struct == n + 12 + Align4(len)
    requires State(f.buf[..], f.rsv, f.items, f.off_dt_struct, n, f.size_dt_strings, f.totalsize) == Intact
    requires nameoff < 0 && NamedAt(f.Tail(), f.size_dt_strings + nameoff, name) == Intact
    modifies f`items, f.buf
    ensures InStruct(f) && ptr == prop + 12 && Names(f) == old(Names(f))
    ensures f.items == old(f.items) + [Property(name, BytesAt(f.buf[..], ptr, len))]
  {
    hide State, NamedAt;
    ghost var b, items, names := f.buf[..], f.items, Names(f);
    assert names == b[f.totalsize - f.size_dt_strings..f.totalsize];
    StoreProperty(f.buf, prop, nameoff % U32, len);
    ptr := prop + 12;
    f.items := f.items + [Property(name, BytesAt(f.buf[..], ptr, len))];
    Filled(f, b, items, n, prop, nameoff, len, name, names);
  }

  /** The property as a step of the writer: `b`, `items` and `n` are from before it. */
  lemma {:induction false} Filled(f: Fdt, b: seq<Byte>, items: seq<Item>, n: nat, prop: nat, nameoff: int, len: nat, name: seq<Byte>, names: seq<Byte>)
    requires Layout(f) && len < U32 && prop == f.off_dt_struct + n && f.size_dt_struct == n + 12 + Align4(len)
    requires State(b, f.rsv, items, f.off_dt_struct, n, f.size_dt_strings, f.totalsize) == Intact
    requires names == b[f.totalsize - f.size_dt_strings..f.totalsize]
    requires nameoff < 0 && NamedAt(names, f.size_dt_strings + nameoff, name) == Intact
    requires prop + 12 + Align4(len) <= |b| && f.buf[..] == PropertyStored(b, prop, nameoff % U32, len)
    requires f.items == items + [Property(name, BytesAt(f.buf[..], prop + 12, len))]
    ensures InStruct(f) && Names(f) == names
  {
    hide State, NamedAt;
    StateProperty(b, f.rsv, items, f.off_dt_struct, n, f.size_dt_struct, f.size_dt_strings, f.totalsize, prop, nameoff, len, name);
  }

  /** Name and property together. */
  method AddProperty(f: Fdt, name: seq<Byte>, len: nat) returns (err: int, ptr: int)
    requires InStruct(f) && NoNul(name) && len <= INT_MAX
    modifies f, f.buf
    ensures f.buf == old(f.buf) && InStruct(f) && Rest(f) == old(Rest(f))
    ensures err == if old(Needed(f, name, len)) > old(Room(f)) then old(PropertyError(f, name)) else 0
    ensures err != 0 ==> f.items == old(f.items) && Room(f) == old(Room(f)) && Names(f) == old(Names(f))
    ensures err == 0 ==> 0 <= ptr && ptr + Align4(len) == f.off_dt_struct + f.size_dt_struct
    ensures err == 0 ==> f.items == old(f.items) + [Property(name, BytesAt(f.buf[..], ptr, len))]
    ensures err == 0 ==> Names(f) == WithName(old(Names(f)), name, Dedup(f))
    ensures err == 0 ==> Room(f) == old(Room(f)) - old(Needed(f, name, len))
  {
    hide State, NamedAt, PlaceFrom;
    ghost var names := Names(f);
    var nameoff, added, outside := NameOffset(f, name);
    if nameoff == 0 {
      return if outside then OUTSIDE else NOSPACE, -1;
    }
    ptr := PutProperty(f, name, len, nameoff, added, names);
    err := if ptr < 0 then NOSPACE else 0;
  }

  /** fdt_property_placeholder: room for a property whose data the caller fills in.  A
      failure takes a name it had added out again. */
  method PropertyPlaceholder(f: Fdt, name: seq<Byte>, len: nat) returns (err: int, ptr: int)
    requires Valid(f) && NoNul(name) && len <= INT_MAX
    modifies f, f.buf
    ensures f.buf == old(f.buf)
    ensures !old(InStruct(f)) ==> err == BADSTATE && unchanged(f) && unchanged(f.buf)
    ensures old(InStruct(f)) ==> InStruct(f) && Rest(f) == old(Rest(f))
    ensures old(InStruct(f)) ==> err == if old(Needed(f, name, len)) > old(Room(f)) then old(PropertyError(f, name)) else 0
    ensures err != 0 ==> f.items == old(f.items) && Room(f) == old(Room(f)) && Names(f) == old(Names(f))
    ensures err == 0 ==> 0 <= ptr && ptr + Align4(len) == f.off_dt_struct + f.size_dt_struct
    ensures err == 0 ==> f.items == old(f.items) + [Property(name, BytesAt(f.buf[..], ptr, len))]
    ensures err == 0 ==> Names(f) == WithName(old(Names(f)), name, Dedup(f))
    ensures err == 0 ==> Room(f) == old(Room(f)) - old(Needed(f, name, len))
  {
    hide State, PlaceFrom;
    ptr := -1;
    err := SwProbeStruct(f);
    if err == 0 {
      err, ptr := AddProperty(f, name, len);
    }
  }

  /** Taking the last item off again. */
  lemma {:induction false} HoldsLess(b: seq<Byte>, rsv: seq<(nat, nat)>, items: seq<Item>, it: Item, lo: nat, m: nat, tail: nat, total: nat)
    requires Holds(b, rsv, items + [it], lo, m, tail, total)
    ensures |b[lo..lo + m]| == m && Size(it) <= m && Holds(b, rsv, items, lo, m - Size(it), tail, total)
    ensures ItemState(b[lo + m - Size(it)..lo + m], it, b[tail..total], total - tail) == Intact
  {
    hide Encodes, Reserved, ItemState;
    var s, n := b[lo..lo + m], m - Size(it);
    EncodesLess(s, items, it, b[tail..total], total - tail);
    SliceSlice(b, lo, lo + m, 0, n);
    SliceSlice(b, lo, lo + m, n, m);
    assert s[0..n] == s[..n];
    NoEndPrefix(items, it);
  }

  lemma {:induction false} EncodesLess(s: seq<Byte>, items: seq<Item>, it: Item, strings: seq<Byte>, bias: nat)
    requires Encodes(s, items + [it], strings, bias)
    ensures Size(it) <= |s| && Encodes(s[..|s| - Size(it)], items, strings, bias)
    ensures ItemState(s[|s| - Size(it)..|s|], it, strings, bias) == Intact
  {
    assert items + [it] + [] == items + [it];
    SizeOfOne(it);
    SizeOfAppend(items, [it]);
    EncodesSplit3(s, items, [it], [], SizeOf(items), Size(it), strings, bias);
    OneEncoded(s[SizeOf(items)..SizeOf(items) + Size(it)], it, strings, bias);
  }

  lemma {:induction false} NoEndPrefix(items: seq<Item>, it: Item)
    requires NoEnd(items + [it])
    ensures NoEnd(items)
  {
    forall k | 0 <= k < |items| ensures !items[k].End? {
      assert (items + [it])[k] == items[k];
    }
  }

  /** Other data in a property's place. */
  lemma {:induction false} ItemData(b: seq<Byte>, key: seq<Byte>, was: seq<Byte>, data: seq<Byte>, strings: seq<Byte>, bias: nat)
    requires ItemBytes(b, Property(key, was), strings, bias) && |data| == |was|
    ensures ItemBytes(Overwritten(b, 12, data), Property(key, data), strings, bias)
  {
    var c := Overwritten(b, 12, data);
    OverwrittenSame(b, 12, data);
    OverwrittenBefore(b, 12, data, 0, 12);
    var head := b[0..12];
    WordAt(head, b, 0, 0);
    WordAt(head, b, 4, 0);
    WordAt(head, b, 8, 0);
    WordAt(head, c, 0, 0);
    WordAt(head, c, 4, 0);
    WordAt(head, c, 8, 0);
  }

  /** The same as values. */
  lemma {:induction false} ItemDataState(b: seq<Byte>, key: seq<Byte>, was: seq<Byte>, data: seq<Byte>, strings: seq<Byte>, bias: nat)
    requires ItemState(b, Property(key, was), strings, bias) == Intact && |data| == |was|
    ensures |b| == Size(Property(key, was)) && ItemState(Overwritten(b, 12, data), Property(key, data), strings, bias) == Intact
  {
    ItemData(b, key, was, data, strings, bias);
  }

  /** The data written into a property made with a placeholder. */
  lemma {:induction false} StateData(b: seq<Byte>, rsv: seq<(nat, nat)>, items: seq<Item>, key: seq<Byte>, was: seq<Byte>, data: seq<Byte>,
                  lo: nat, m: nat, strs: nat, total: nat, ptr: nat)
    requires State(b, rsv, items + [Property(key, was)], lo, m, strs, total) == Intact
    requires |data| == |was| && ptr + Align4(|data|) == lo + m
    ensures ptr + |data| <= |b|
    ensures State(Overwritten(b, ptr, data), rsv, items + [Property(key, data)], lo, m, strs, total) == Intact
    ensures Overwritten(b, ptr, data)[total - strs..total] == b[total - strs..total]
  {
    hide Encodes, Reserved, NoEnd, ItemState;
    var it, newIt, end := Property(key, was), Property(key, data), lo + m;
    HoldsLess(b, rsv, items, it, lo, m, total - strs, total);
    var at, c := ptr - 12, Overwritten(b, ptr, data);
    ItemDataState(b[at..end], key, was, data, b[total - strs..total], strs);
    OverwrittenInside(b, ptr, data, at, end);
    KeptWrite(b, ptr, data, at, end);
    StateMore(b, c, rsv, items, newIt, lo, m - Size(it), m, strs, total, at, end);
  }

  /** fdt_property */
  method FdtProperty(f: Fdt, name: seq<Byte>, val: seq<Byte>) returns (err: int)
    requires Valid(f) && NoNul(name) && |val| <= INT_MAX
    modifies f, f.buf
    ensures f.buf == old(f.buf)
    ensures !old(InStruct(f)) ==> err == BADSTATE && unchanged(f) && unchanged(f.buf)
    ensures old(InStruct(f)) ==> InStruct(f) && Rest(f) == old(Rest(f))
    ensures old(InStruct(f)) ==> err == if old(Needed(f, name, |val|)) > old(Room(f)) then old(PropertyError(f, name)) else 0
    ensures err != 0 ==> f.items == old(f.items) && Room(f) == old(Room(f)) && Names(f) == old(Names(f))
    ensures err == 0 ==> f.items == old(f.items) + [Property(name, val)]
    ensures err == 0 ==> Names(f) == WithName(old(Names(f)), name, Dedup(f))
    ensures err == 0 ==> Room(f) == old(Room(f)) - old(Needed(f, name, |val|))
  {
    hide State, PlaceFrom;
    ghost var items := f.items;
    var ptr;
    err, ptr := PropertyPlaceholder(f, name, |val|);
    if err == 0 {
      FillData(f, name, val, ptr, items);
    }
  }

  method FillData(f: Fdt, name: seq<Byte>, val: seq<Byte>, ptr: nat, ghost items: seq<Item>)
    requires InStruct(f) && ptr + Align4(|val|) == f.off_dt_struct + f.size_dt_struct
    requires f.items == items + [Property(name, BytesAt(f.buf[..], ptr, |val|))]
    modifies f`items, f.buf
    ensures InStruct(f) && f.items == items + [Property(name, val)] && Names(f) == old(Names(f))
  {
    hide State;
    StateData(f.buf[..], f.rsv, items, name, BytesAt(f.buf[..], ptr, |val|), val, f.off_dt_struct, f.size_dt_struct, f.size_dt_strings, f.totalsize, ptr);
    Memcpy(f.buf, ptr, val);
    f.items := items + [Property(name, val)];
  }

  // ---- finishing ----

  /** While names are being corrected: the first k items count their name offsets from the
      start of the strings, the others still from the end. */
  ghost predicate Halfway(s: seq<Byte>, items: seq<Item>, k: nat, off: nat, strings: seq<Byte>) {
    && k <= |items| && off <= |s|
    && Encodes(s[..off], items[..k], strings, 0) && Encodes(s[off..], items[k..], strings, |strings|)
  }

  /** What the loop of fdt_finish does at one item. */
  ghost function Corrected(s: seq<Byte>, it: Item, off: nat, size: nat): (t: seq<Byte>)
    requires off + Size(it) <= |s| && (it.Property? ==> Unbias(Word(s, off + 8), size) < U32)
    ensures |t| == |s|
  {
    if it.Property? then Overwritten(s, off + 8, WordBytes(Unbias(Word(s, off + 8), size))) else s
  }

  /** The same on the item's own bytes. */
  lemma {:induction false} ItemCorrected(b: seq<Byte>, it: Item, strings: seq<Byte>)
    requires ItemBytes(b, it, strings, |strings|) && |strings| < U32
    ensures it.Property? ==> 0 <= Unbias(Word(b, 8), |strings|) < U32
    ensures ItemBytes(Corrected(b, it, 0, |strings|), it, strings, 0)
  {
    if it.Property? {
      var w := Unbias(Word(b, 8), |strings|);
      var x := WordBytes(w);
      var c := Overwritten(b, 8, x);
      OverwrittenBefore(b, 8, x, 0, 8);
      OverwrittenAfter(b, 8, x, 12, 12 + |it.data|);
      OverwrittenSame(b, 8, x);
      var head := b[0..8];
      WordAt(head, b, 0, 0);
      WordAt(head, b, 4, 0);
      WordAt(head, c, 0, 0);
      WordAt(head, c, 4, 0);
      WordRoundTrip(w);
      WordAt(x, c, 0, 8);
    }
  }

  lemma {:induction false} HalfwayTag(s: seq<Byte>, items: seq<Item>, k: nat, off: nat, strings: seq<Byte>)
    requires Halfway(s, items, k, off, strings) && k < |items| && |s| <= INT_MAX
    ensures NextTag(s, off) == (Tag(items[k]), off + Size(items[k])) && off + Size(items[k]) <= |s|
    ensures ItemState(s[off..off + Size(items[k])], items[k], strings, |strings|) == Intact
    ensures Encodes(s[off + Size(items[k])..], items[k + 1..], strings, |strings|)
  {
    hide Encodes, ItemState;
    var it, n, c := items[k], Size(items[k]), s[off..];
    assert items[k..] == [it] + items[k + 1..];
    FirstEncoded(c, it, items[k + 1..], strings, |strings|);
    assert c[..n] == s[off..off + n] && c[n..] == s[off + n..];
    SizeOfAligned(items[..k]);
    OffsetIsSize(s, items, k, off, strings);
    NextTagState(s, off, it, strings, |strings|);
  }

  lemma {:induction false} OffsetIsSize(s: seq<Byte>, items: seq<Item>, k: nat, off: nat, strings: seq<Byte>)
    requires Halfway(s, items, k, off, strings)
    ensures off == SizeOf(items[..k])
  {
  }

  lemma {:induction false} NextTagState(s: seq<Byte>, start: nat, it: Item, strings: seq<Byte>, bias: nat)
    requires |s| <= INT_MAX && start % 4 == 0 && start + Size(it) <= |s|
    requires ItemState(s[start..start + Size(it)], it, strings, bias) == Intact
    ensures NextTag(s, start) == (Tag(it), start + Size(it))
  {
    NextTagOf(s, start, it, strings, bias);
  }

  lemma {:induction false} FirstEncoded(b: seq<Byte>, it: Item, rest: seq<Item>, strings: seq<Byte>, bias: nat)
    requires Encodes(b, [it] + rest, strings, bias)
    ensures Size(it) <= |b| && ItemState(b[..Size(it)], it, strings, bias) == Intact
    ensures Encodes(b[Size(it)..], rest, strings, bias)
  {
    ToChain(b, [it] + rest, strings, bias);
    ChainCons(b, it, rest, Reading(strings, bias));
    ToEncodes(b[Size(it)..], rest, strings, bias);
  }

  /** One item more on the corrected side. */
  lemma {:induction false} HalfwayMore(s: seq<Byte>, t: seq<Byte>, items: seq<Item>, k: nat, off: nat, end: nat, piece: seq<Byte>, strings: seq<Byte>)
    requires k < |items| && off <= end <= |s| == |t| && Encodes(s[..off], items[..k], strings, 0)
    requires ItemState(piece, items[k], strings, 0) == Intact && t[..end] == s[..off] + piece
    requires t[end..] == s[end..] && Encodes(s[end..], items[k + 1..], strings, |strings|)
    ensures Halfway(t, items, k + 1, end, strings)
  {
    hide Encodes, ItemState;
    AppendOne(s[..off], piece, items[..k], items[k], strings, 0);
    assert items[..k + 1] == items[..k] + [items[k]];
  }

  /** The same on the item's own bytes, as values. */
  lemma {:induction false} ItemCorrectedState(b: seq<Byte>, it: Item, strings: seq<Byte>)
    requires ItemState(b, it, strings, |strings|) == Intact && |strings| < U32
    ensures |b| == Size(it) && (it.Property? ==> 0 <= Unbias(Word(b, 8), |strings|) < U32)
    ensures ItemState(Corrected(b, it, 0, |strings|), it, strings, 0) == Intact
  {
    ItemCorrected(b, it, strings);
  }

  /** One round of the loop moves one item to the corrected side. */
  lemma {:induction false} HalfwayStep(s: seq<Byte>, items: seq<Item>, k: nat, off: nat, strings: seq<Byte>)
    requires Halfway(s, items, k, off, strings) && k < |items| && |s| <= INT_MAX && |strings| <= INT_MAX
    ensures off + Size(items[k]) <= |s| && (items[k].Property? ==> 0 <= Unbias(Word(s, off + 8), |strings|) < U32)
    ensures Halfway(Corrected(s, items[k], off, |strings|), items, k + 1, off + Size(items[k]), strings)
  {
    hide Encodes, ItemState;
    var it, n := items[k], Size(items[k]);
    HalfwayTag(s, items, k, off, strings);
    var piece, end := s[off..off + n], off + n;
    ItemCorrectedState(piece, it, strings);
    CorrectedPieces(s, it, off, |strings|);
    HalfwayMore(s, Corrected(s, it, off, |strings|), items, k, off, end, Corrected(piece, it, 0, |strings|), strings);
  }

  lemma {:induction false} CorrectedPieces(s: seq<Byte>, it: Item, off: nat, size: nat)
    requires off + Size(it) <= |s|
    requires it.Property? ==> Unbias(Word(s[off..off + Size(it)], 8), size) < U32
    ensures it.Property? ==> Word(s, off + 8) == Word(s[off..off + Size(it)], 8)
    ensures var t, n := Corrected(s, it, off, size), Size(it);
      t[..off + n] == s[..off] + Corrected(s[off..off + n], it, 0, size) && t[off + n..] == s[off + n..]
  {
    hide Word, WordBytes;
    var n := Size(it);
    var piece := s[off..off + n];
    if it.Property? {
      WordAt(piece, s, 8, off);
      var x := WordBytes(Unbias(Word(piece, 8), size));
      var t := Overwritten(s, off + 8, x);
      OverwrittenInside(s, off + 8, x, off, off + n);
      OverwrittenBefore(s, off + 8, x, 0, off);
      assert t[..off + n] == t[0..off] + t[off..off + n];
      assert s[..off] == s[0..off];
    } else {
      assert s[..off + n] == s[..off] + piece;
    }
  }

  method StoreWord(buf: array<Byte>, at: nat, w: nat)
    requires at + 4 <= buf.Length && w < U32
    modifies buf
    ensures buf[..] == Overwritten(old(buf[..]), at, WordBytes(w))
  {
    Memcpy(buf, at, WordBytes(w));
  }

  lemma {:induction false} UnbiasMasks(w: nat, size: nat)
    requires w < U32 && size <= INT_MAX && Unbias(w, size) < U32
    ensures (w + size) % U32 == Unbias(w, size)
  {
  }

  /** Add the size of the strings block to the name offset of a property. */
  method CorrectName(f: Fdt, offset: nat)
    requires Readable(f) && f.size_dt_strings <= INT_MAX && offset + 12 <= f.size_dt_struct
    requires 0 <= Unbias(Word(f.Struct(), offset + 8), f.size_dt_strings) < U32
    modifies f.buf
    ensures f.Struct() == old(Overwritten(f.Struct(), offset + 8, WordBytes(Unbias(Word(f.Struct(), offset + 8), f.size_dt_strings))))
    ensures Frame(old(f.buf[..]), f.buf[..], f.off_dt_struct, f.off_dt_struct + f.size_dt_struct) == Intact
  {
    hide Frame, Word, WordBytes, Overwritten;
    ghost var b := f.buf[..];
    var nameoff := LoadWord(f, offset + 8);
    UnbiasMasks(nameoff, f.size_dt_strings);
    nameoff := (nameoff + f.size_dt_strings) % U32;
    StoreWord(f.buf, f.off_dt_struct + offset + 8, nameoff);
    WrittenInStruct(b, f.off_dt_struct + offset + 8, WordBytes(nameoff), f.off_dt_struct, f.off_dt_struct + f.size_dt_struct);
  }

  lemma {:induction false} WrittenInStruct(b: seq<Byte>, at: nat, s: seq<Byte>, lo: nat, hi: nat)
    requires lo <= at && at + |s| <= hi <= |b|
    ensures Frame(b, Overwritten(b, at, s), lo, hi) == Intact
    ensures Overwritten(b, at, s)[lo..hi] == Overwritten(b[lo..hi], at - lo, s)
  {
    OverwrittenInside(b, at, s, lo, hi);
    KeptWrite(b, at, s, lo, hi);
  }

  /** The body of the loop of fdt_finish. */
  method CorrectItem(f: Fdt, tag: nat, offset: nat, ghost items: seq<Item>, ghost k: nat, ghost strings: seq<Byte>)
    requires Readable(f) && |strings| == f.size_dt_strings <= INT_MAX && k < |items| && tag == Tag(items[k])
    requires Progress(f.Struct(), items, k, offset, strings) == Intact
    modifies f.buf
    ensures Progress(f.Struct(), items, k + 1, offset + Size(items[k]), strings) == Intact
    ensures Frame(old(f.buf[..]), f.buf[..], f.off_dt_struct, f.off_dt_struct + f.size_dt_struct) == Intact
  {
    HalfwayStep(f.Struct(), items, k, offset, strings);
    if tag == FDT_PROP {
      CorrectName(f, offset);
    }
  }

  lemma {:induction false} FrameTrans(b: seq<Byte>, c: seq<Byte>, d: seq<Byte>, lo: nat, hi: nat)
    requires Frame(b, c, lo, hi) == Intact && Frame(c, d, lo, hi) == Intact
    ensures Frame(b, d, lo, hi) == Intact
  {
  }

  lemma {:induction false} FrameSame(b: seq<Byte>, lo: nat, hi: nat)
    requires lo <= hi <= |b|
    ensures Frame(b, b, lo, hi) == Intact
  {
  }

  /** Halfway as a value. */
  ghost function Progress(s: seq<Byte>, items: seq<Item>, k: nat, off: nat, strings: seq<Byte>): Condition {
    if Halfway(s, items, k, off, strings) then Intact else Broken
  }

  /** The loop of fdt_finish: walk the structure, correcting name offsets. */
  method CorrectNames(f: Fdt, ghost items: seq<Item>, ghost strings: seq<Byte>)
    requires Readable(f) && |strings| == f.size_dt_strings <= INT_MAX && NoEnd(items)
    requires Progress(f.Struct(), items + [End], 0, 0, strings) == Intact
    modifies f.buf
    ensures Encodes(f.Struct(), items + [End], strings, 0)
    ensures Frame(old(f.buf[..]), f.buf[..], f.off_dt_struct, f.off_dt_struct + f.size_dt_struct) == Intact
  {
    hide Progress, Frame, NoEnd, Encodes;
    ghost var all, k: nat, b := items + [End], 0, f.buf[..];
    ghost var lo, hi := f.off_dt_struct, f.off_dt_struct + f.size_dt_struct;
    var offset: nat := 0;
    FrameSame(b, lo, hi);
    var tag, nextoffset := ItemTag(f, offset, all, k, strings);
    while tag != FDT_END
      invariant k <= |items| && Progress(f.Struct(), all, k, offset, strings) == Intact
      invariant tag == Tag(all[k]) && nextoffset == offset + Size(all[k])
      invariant Frame(b, f.buf[..], lo, hi) == Intact
      decreases |items| - k
    {
      NotLast(items, k);
      ghost var c := f.buf[..];
      CorrectItem(f, tag, offset, all, k, strings);
      FrameTrans(b, c, f.buf[..], lo, hi);
      offset, k := nextoffset, k + 1;
      tag, nextoffset := ItemTag(f, offset, all, k, strings);
    }
    AllCorrected(f.Struct(), items, k, offset, strings);
  }

  lemma {:induction false} NotLast(items: seq<Item>, k: nat)
    requires k <= |items| && Tag((items + [End])[k]) != FDT_END
    ensures k < |items|
  {
  }

  method ItemTag(f: Fdt, offset: nat, ghost items: seq<Item>, ghost k: nat, ghost strings: seq<Byte>) returns (tag: nat, nextoffset: nat)
    requires Readable(f) && k < |items| && Progress(f.Struct(), items, k, offset, strings) == Intact
    ensures tag == Tag(items[k]) && nextoffset == offset + Size(items[k])
  {
    HalfwayTag(f.Struct(), items, k, offset, strings);
    tag, nextoffset := FdtNextTag(f, offset);
  }

  /** At the terminator nothing is left to correct. */
  lemma {:induction false} AllCorrected(s: seq<Byte>, items: seq<Item>, k: nat, off: nat, strings: seq<Byte>)
    requires NoEnd(items) && k <= |items| && Tag((items + [End])[k]) == FDT_END && Progress(s, items + [End], k, off, strings) == Intact
    requires |s| <= INT_MAX
    ensures Encodes(s, items + [End], strings, 0)
  {
    var all := items + [End];
    LastIsEnd(items, k);
    HalfwayTag(s, all, k, off, strings);
    assert all[..k] == items && all[k + 1..] == [];
    var n := off + 4;
    assert s[n..] == [];
    assert s == s[..off] + s[off..n];
    AppendOne(s[..off], s[off..n], items, End, strings, 0);
  }

  lemma {:induction false} LastIsEnd(items: seq<Item>, k: nat)
    requires NoEnd(items) && k <= |items| && Tag((items + [End])[k]) == FDT_END
    ensures k == |items|
  {
  }

  /** The terminator behind the structure block. */
  lemma {:induction false} Terminated(b: seq<Byte>, c: seq<Byte>, rsv: seq<(nat, nat)>, items: seq<Item>, lo: nat, n: nat, strs: nat, total: nat, at: nat)
    requires State(b, rsv, items, lo, n, strs, total) == Intact && lo + n + 4 <= at && at + strs == total
    requires c == Overwritten(b, lo + n, WordBytes(FDT_END))
    ensures Final(c, rsv, items, lo, n + 4, at, strs, strs) == Intact
  {
    hide Encodes, Reserved;
    TagWritten(b, lo + n, End, b[at..total], strs);
    ItemAdded(b, c, lo, n, at, total, items, End);
    ReservedKept(b, c, RSVMAP_START, rsv + [(0, 0)], lo + n);
  }

  /** The strings block moved down to where the structure block ends. */
  lemma {:induction false} StringsMoved(b: seq<Byte>, rsv: seq<(nat, nat)>, items: seq<Item>, lo: nat, n: nat, at: nat, strs: nat, to: nat)
    requires Final(b, rsv, items, lo, n, at, strs, strs) == Intact && to == lo + n
    ensures Final(Overwritten(b, to, b[at..at + strs]), rsv, items, lo, n, to, strs, strs) == Intact
  {
    var s := b[at..at + strs];
    var c := Overwritten(b, to, s);
    KeptWrite(b, to, s, to, to + strs);
    KeptSlice(b, c, to, to + strs, lo, lo + n);
    OverwrittenSame(b, to, s);
    ReservedKept(b, c, RSVMAP_START, rsv + [(0, 0)], to);
  }

  lemma {:induction false} NamesCorrected(b: seq<Byte>, c: seq<Byte>, rsv: seq<(nat, nat)>, items: seq<Item>, lo: nat, n: nat, at: nat, strs: nat)
    requires Final(b, rsv, items, lo, n, at, strs, strs) == Intact && Frame(b, c, lo, lo + n) == Intact
    requires Encodes(c[lo..lo + n], items + [End], b[at..at + strs], 0)
    ensures Final(c, rsv, items, lo, n, at, strs, 0) == Intact && BytesAt(c, at, strs) == BytesAt(b, at, strs)
  {
    KeptSlice(b, c, lo, lo + n, at, at + strs);
    ReservedKept(b, c, RSVMAP_START, rsv + [(0, 0)], lo);
  }

  lemma {:induction false} BeforeCorrection(b: seq<Byte>, rsv: seq<(nat, nat)>, items: seq<Item>, lo: nat, n: nat, at: nat, strs: nat)
    requires Final(b, rsv, items, lo, n, at, strs, strs) == Intact
    ensures Progress(b[lo..lo + n], items + [End], 0, 0, b[at..at + strs]) == Intact && NoEnd(items)
  {
    var s, all := b[lo..lo + n], items + [End];
    assert s[..0] == [] && s[0..] == s && all[..0] == [] && all[0..] == all;
  }

  /** fdt_finish: terminate the structure block, move the strings down to it and count name
      offsets from their start. */
  method FdtFinish(f: Fdt) returns (err: int)
    requires Valid(f)
    modifies f, f.buf
    ensures f.buf == old(f.buf)
    ensures err == if !old(InStruct(f)) then BADSTATE else if TAGSIZE > old(Room(f)) then NOSPACE else 0
    ensures err == 0 ==> Complete(f) && f.items == old(f.items) && f.rsv == old(f.rsv) && Names(f) == old(Names(f))
    ensures err == 0 ==> f.totalsize == old(f.totalsize - Room(f)) + TAGSIZE
    ensures err != 0 ==> unchanged(f) && unchanged(f.buf)
  {
    err := SwProbeStruct(f);
    if err == 0 {
      err := PutTerminator(f);
    }
    if err == 0 {
      Relocate(f);
    }
  }

  const LAST_COMPATIBLE_VERSION: nat := 0x10

  /** Terminated, the strings block still at the end of the buffer. */
  ghost predicate ReadyToMove(f: Fdt)
    reads f, f.buf
  {
    && f.off_mem_rsvmap == RSVMAP_START && f.totalsize <= INT_MAX
    && f.off_dt_struct + f.size_dt_struct + f.size_dt_strings <= f.totalsize <= f.buf.Length
    && Final(f.buf[..], f.rsv, f.items, f.off_dt_struct, f.size_dt_struct, f.totalsize - f.size_dt_strings, f.size_dt_strings, f.size_dt_strings) == Intact
  }

  method PutTerminator(f: Fdt) returns (err: int)
    requires InStruct(f)
    modifies f, f.buf
    ensures f.buf == old(f.buf)
    ensures err == if TAGSIZE > old(Room(f)) then NOSPACE else 0
    ensures err == 0 ==> ReadyToMove(f) && f.items == old(f.items) && f.rsv == old(f.rsv) && Names(f) == old(Names(f))
    ensures err == 0 ==> f.off_dt_struct + f.size_dt_struct + f.size_dt_strings == old(f.totalsize - Room(f)) + TAGSIZE
    ensures err != 0 ==> unchanged(f) && unchanged(f.buf)
  {
    hide State, Final;
    ghost var b, n := f.buf[..], f.size_dt_struct;
    var end := GrabSpace(f, TAGSIZE);
    if end < 0 {
      return NOSPACE;
    }
    Memcpy(f.buf, end, WordBytes(FDT_END));
    OverwrittenAfter(b, end, WordBytes(FDT_END), f.totalsize - f.size_dt_strings, f.totalsize);
    Terminated(b, f.buf[..], f.rsv, f.items, f.off_dt_struct, n, f.size_dt_strings, f.totalsize, f.totalsize - f.size_dt_strings);
    return 0;
  }

  /** The strings block moved down. */
  method MoveStrings(f: Fdt)
    requires ReadyToMove(f)
    modifies f`off_dt_strings, f.buf
    ensures f.off_dt_strings == f.off_dt_struct + f.size_dt_struct
    ensures BytesAt(f.buf[..], f.off_dt_strings, f.size_dt_strings) == old(Names(f))
    ensures Final(f.buf[..], f.rsv, f.items, f.off_dt_struct, f.size_dt_struct, f.off_dt_strings, f.size_dt_strings, f.size_dt_strings) == Intact
  {
    hide Final;
    var oldstroffset := f.totalsize - f.size_dt_strings;
    var newstroffset := f.off_dt_struct + f.size_dt_struct;
    ghost var b := f.buf[..];
    assert Final(b, f.rsv, f.items, f.off_dt_struct, f.size_dt_struct, oldstroffset, f.size_dt_strings, f.size_dt_strings) == Intact;
    StringsMoved(b, f.rsv, f.items, f.off_dt_struct, f.size_dt_struct, oldstroffset, f.size_dt_strings, newstroffset);
    OverwrittenSame(b, newstroffset, b[oldstroffset..oldstroffset + f.size_dt_strings]);
    Memmove(f.buf, newstroffset, oldstroffset, f.size_dt_strings);
    f.off_dt_strings := newstroffset;
  }

  /** Walk the structure, correcting name offsets. */
  method CorrectAll(f: Fdt)
    requires Readable(f) && f.off_dt_strings == f.off_dt_struct + f.size_dt_struct && f.off_dt_strings + f.size_dt_strings <= f.totalsize
    requires Final(f.buf[..], f.rsv, f.items, f.off_dt_struct, f.size_dt_struct, f.off_dt_strings, f.size_dt_strings, f.size_dt_strings) == Intact
    modifies f.buf
    ensures Final(f.buf[..], f.rsv, f.items, f.off_dt_struct, f.size_dt_struct, f.off_dt_strings, f.size_dt_strings, 0) == Intact
    ensures BytesAt(f.buf[..], f.off_dt_strings, f.size_dt_strings) == old(BytesAt(f.buf[..], f.off_dt_strings, f.size_dt_strings))
  {
    hide Final, Progress, Encodes;
    ghost var c := f.buf[..];
    BeforeCorrection(c, f.rsv, f.items, f.off_dt_struct, f.size_dt_struct, f.off_dt_strings, f.size_dt_strings);
    CorrectNames(f, f.items, c[f.off_dt_strings..f.off_dt_strings + f.size_dt_strings]);
    NamesCorrected(c, f.buf[..], f.rsv, f.items, f.off_dt_struct, f.size_dt_struct, f.off_dt_strings, f.size_dt_strings);
  }

  /** The rest of fdt_finish. */
  method Relocate(f: Fdt)
    requires ReadyToMove(f)
    modifies f`off_dt_strings, f`totalsize, f`last_comp_version, f`magic, f.buf
    ensures Complete(f) && f.totalsize == f.off_dt_struct + f.size_dt_struct + f.size_dt_strings && Names(f) == old(Names(f))
  {
    hide Final;
    MoveStrings(f);
    CorrectAll(f);
    f.totalsize := f.off_dt_strings + f.size_dt_strings;
    f.last_comp_version := LAST_COMPATIBLE_VERSION;
    f.magic := FDT_MAGIC;
  }

  // ---- resizing ----

  /** A copy that keeps the distance of the head from the start and of the strings from the
      end is the same tree. */
  lemma {:induction false} StateCopied(b: seq<Byte>, c: seq<Byte>, rsv: seq<(nat, nat)>, items: seq<Item>, lo: nat, n: nat, strs: nat, total: nat, size: nat)
    requires State(b, rsv, items, lo, n, strs, total) == Intact && lo + n + strs <= size <= |c|
    requires c[..lo + n] == b[..lo + n] && c[size - strs..size] == b[total - strs..total]
    ensures State(c, rsv, items, lo, n, strs, size) == Intact
  {
    hide Encodes, Reserved, NoEnd;
    MapCopied(b, c, RSVMAP_START, rsv + [(0, 0)], lo + n);
    assert c[lo..lo + n] == c[..lo + n][lo..] && b[lo..lo + n] == b[..lo + n][lo..];
  }

  lemma {:induction false} MapCopied(b: seq<Byte>, c: seq<Byte>, at: nat, entries: seq<(nat, nat)>, n: nat)
    requires Map(b, at, entries) == Intact && at + 16 * |entries| <= n <= |b| && n <= |c| && c[..n] == b[..n]
    ensures Map(c, at, entries) == Intact
  {
    forall k | 0 <= k < |entries| ensures EntryAt(c, at + 16 * k, entries[k]) {
      var i := at + 16 * k;
      assert b[..n][i..i + 16] == b[i..i + 16] && c[..n][i..i + 16] == c[i..i + 16];
      EntryKept(b, c, i, entries[k]);
    }
  }

  /** memmove of head and tail into `buf`, which may be the old buffer. */
  method CopyEnds(oldBuf: array<Byte>, buf: array<Byte>, headsize: nat, tailsize: nat, total: nat, size: nat)
    requires headsize + tailsize <= total <= oldBuf.Length && headsize + tailsize <= size <= buf.Length
    modifies buf
    ensures buf[..][..headsize] == old(oldBuf[..][..headsize])
    ensures buf[..][size - tailsize..size] == old(oldBuf[..][total - tailsize..total])
  {
    ghost var b, c := oldBuf[..], buf[..];
    var tail := oldBuf[total - tailsize..total];
    assert tail == b[total - tailsize..total];
    Memcpy(buf, 0, oldBuf[..headsize]);
    ghost var d := buf[..];
    Memcpy(buf, size - tailsize, tail);
    OverwrittenSame(c, 0, b[..headsize]);
    OverwrittenBefore(d, size - tailsize, tail, 0, headsize);
    OverwrittenSame(d, size - tailsize, tail);
    assert buf[..][0..headsize] == buf[..][..headsize] && b[0..headsize] == b[..headsize];
  }

  /** fdt_resize */
  method FdtResize(f: Fdt, buf: array<Byte>, bufsize: nat) returns (err: int)
    requires Valid(f) && bufsize <= buf.Length && bufsize <= INT_MAX
    modifies f, buf
    ensures err == if old(Complete(f)) then BADSTATE else if old(f.totalsize - Room(f)) > bufsize then NOSPACE else 0
    ensures err == 0 && old(InStruct(f)) ==> InStruct(f) && Room(f) == old(Room(f)) + bufsize - old(f.totalsize) && Names(f) == old(Names(f))
    ensures err == 0 && old(InMemrsv(f)) ==> InMemrsv(f)
    ensures err == 0 ==> f.buf == buf && f.totalsize == bufsize && f.items == old(f.items) && f.rsv == old(f.rsv)
    ensures err != 0 ==> unchanged(f) && unchanged(buf)
  {
    err := SwProbe(f);
    if err != 0 {
      return;
    }
    var headsize := f.off_dt_struct + f.size_dt_struct;
    var tailsize := f.size_dt_strings;
    if headsize + tailsize > bufsize {
      return NOSPACE;
    }
    if f.off_dt_strings == 0 {
      ResizeMap(f, buf, bufsize);
    } else {
      ResizeTree(f, buf, bufsize);
    }
  }

  method ResizeTree(f: Fdt, buf: array<Byte>, bufsize: nat)
    requires InStruct(f) && f.off_dt_struct + f.size_dt_struct + f.size_dt_strings <= bufsize <= buf.Length && bufsize <= INT_MAX
    modifies f`buf, f`totalsize, f`off_dt_strings, buf
    ensures InStruct(f) && f.buf == buf && f.totalsize == bufsize && Names(f) == old(Names(f))
  {
    hide State;
    ghost var b, total := f.buf[..], f.totalsize;
    CopyEnds(f.buf, buf, f.off_dt_struct + f.size_dt_struct, f.size_dt_strings, f.totalsize, bufsize);
    StateCopied(b, buf[..], f.rsv, f.items, f.off_dt_struct, f.size_dt_struct, f.size_dt_strings, total, bufsize);
    f.buf := buf;
    f.totalsize := bufsize;
    f.off_dt_strings := bufsize;
  }

  method ResizeMap(f: Fdt, buf: array<Byte>, bufsize: nat)
    requires InMemrsv(f) && f.off_dt_struct <= bufsize <= buf.Length && bufsize <= INT_MAX
    modifies f`buf, f`totalsize, buf
    ensures InMemrsv(f) && f.buf == buf && f.totalsize == bufsize
  {
    ghost var b := f.buf[..];
    CopyEnds(f.buf, buf, f.off_dt_struct + f.size_dt_struct, f.size_dt_strings, f.totalsize, bufsize);
    MapCopied(b, buf[..], RSVMAP_START, f.rsv, f.off_dt_struct);
    f.buf := buf;
    f.totalsize := bufsize;
  }
}
