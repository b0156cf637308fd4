/** Writer, editor and reader together: a tree written into a buffer, opened for editing, changed,
    and read back. */
module FdtClient {
  import opened Bits
  import opened Common
  import opened FdtFormat
  import opened FdtTree
  import opened FdtBlob
  import opened FdtReader
  import opened FdtEdit
  import opened FdtTreeEdit
  import R = FdtRoundTrip
  import W = FdtWriter

  /** What fdt_finish leaves can be edited, and its strings are those that were written. */
  lemma {:induction false} CompleteIsEditable(f: Fdt)
    requires W.Complete(f) && f.totalsize < INT_MAX
    ensures Editable(f, f.items + [End]) && Terminated(f)
    ensures Names(f) == W.Names(f) && DataSize(f) == f.totalsize
  {
    hide Encodes;
    ghost var b, rsv := f.buf[..], f.rsv + [(0, 0)];
    forall k | 0 <= k < |f.rsv| ensures EntryAt(b, f.off_mem_rsvmap + 16 * k, f.rsv[k]) {
      assert rsv[k] == f.rsv[k];
    }
  }

  /** The reserve map has its terminator, in front of the structure block. */
  ghost predicate Terminated(f: Fdt)
    reads f, f.buf
  {
    && f.off_mem_rsvmap + 16 * (|f.rsv| + 1) <= f.off_dt_struct <= f.totalsize <= f.buf.Length
    && Map(f.buf[..], f.off_mem_rsvmap, f.rsv + [(0, 0)]) == Intact
  }

  /** fdt_blocks_misordered_ */
  predicate Misordered(f: Fdt, mapSize: nat)
    reads f
  {
    || f.off_mem_rsvmap < HDRSIZE || f.off_dt_struct < f.off_mem_rsvmap + mapSize
    || f.off_dt_strings < f.off_dt_struct + f.size_dt_struct || f.totalsize < f.off_dt_strings + f.size_dt_strings
  }

  /** fdt_open_into, in place: the same tree in a buffer of another size. */
  method OpenInto(f: Fdt, bufsize: nat, ghost items: seq<Item>) returns (err: int)
    requires Editable(f, items) && Terminated(f) && bufsize <= f.buf.Length && bufsize < INT_MAX
    modifies f`totalsize
    ensures err == if old(f.totalsize) > bufsize then NOSPACE else 0
    ensures f.totalsize == if err == 0 then bufsize else old(f.totalsize)
    ensures Editable(f, items) && Names(f) == old(Names(f)) && DataSize(f) == old(DataSize(f))
  {
    hide Reads, Word64, R.EmptyFrom;
    R.MapReadsBack(f.rsv);
    R.EmptyOfMap(f.buf[..], f.off_mem_rsvmap, f.totalsize, f.rsv + [(0, 0)]);
    var entries := R.NumMemRsv(f);
    var mapSize := (entries + 1) * 16;
    assert !Misordered(f, mapSize);
    if f.totalsize > bufsize {
      return NOSPACE;
    }
    f.totalsize := bufsize;
    return 0;
  }

  /** Write a tree, open it in the whole buffer, set a property of one node, and list what is
      there then. */
  method WriteSetAndDump(buf: array<Byte>, size: nat, bufsize: nat, flags: nat, rsv: seq<(nat, nat)>, t: Tree,
                         path: seq<nat>, nodeoffset: nat, name: seq<Byte>, val: seq<Byte>)
      returns (err: int, entries: seq<Entry>)
    requires size <= bufsize <= buf.Length && bufsize < INT_MAX && R.Writable(t)
    requires forall k | 0 <= k < |rsv| :: rsv[k].0 < U64 && rsv[k].1 < U64
    requires PathOk(t, path) && nodeoffset == SizeOf(Ahead(t, path)) && NoNul(name) && |val| <= INT_MAX
    modifies buf
    ensures err == 0 <==>
      (&& flags <= NO_NAME_DEDUP && R.FinalSize(rsv, t, flags == 0) <= size
       && R.FinalSize(rsv, t, flags == 0) + PropGrowth(R.TreeNames([], t, flags == 0), NodeOf(t, path).props, name, val) <= bufsize)
    ensures err == 0 ==> entries == Listing(WithProp(t, path, name, val), 0)
  {
    entries := [];
    var f := new Fdt(buf);
    err := R.WriteAll(f, size, flags, rsv, t);
    if err != 0 {
      return;
    }
    CompleteIsEditable(f);
    err := OpenInto(f, bufsize, Items(t) + [End]);
    if err != 0 {
      return;
    }
    err := SetPropInTree(f, nodeoffset, name, val, t, path);
    if err == 0 {
      entries := List(f, WithProp(t, path, name, val));
    }
  }

  method List(f: Fdt, ghost t: Tree) returns (entries: seq<Entry>)
    requires Editable(f, Items(t) + [End])
    ensures entries == Listing(t, 0)
  {
    EditableIsEncoded(f, Items(t) + [End]);
    R.WalkIsListing(t);
    entries := R.Dump(f, Items(t) + [End]);
  }
}
