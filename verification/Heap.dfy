/** The boot loader's heap: a list of chunks, free or allocated, laid end to end over a fixed
    area.  Requests are served first fit, chunks are split when the rest can hold another
    header, and freed chunks join their free neighbours. */
module BootHeap {
  import opened Bits
  import opened Common

  const HEAP_SIZE: nat := 131072

  datatype Chunk = Chunk(addr: nat, size: nat, used: bool)

  function End(c: Chunk): nat {
    c.addr + c.size
  }

  // ---- chunk lists ----

  /** The chunks lie end to end from `from` up to `to`, each with room for its header and of
      a size divisible by eight. */
  predicate Tiles(cs: seq<Chunk>, hdr: nat, from: nat, to: nat) {
    if cs == [] then from == to
    else cs[0].addr == from && Sized(cs[0], hdr) && Tiles(cs[1..], hdr, End(cs[0]), to)
  }

  predicate Sized(c: Chunk, hdr: nat) {
    c.size >= hdr && c.size > 0 && c.size % 8 == 0
  }

  predicate NoTwoFree(cs: seq<Chunk>) {
    |cs| < 2 || ((cs[0].used || cs[1].used) && NoTwoFree(cs[1..]))
  }

  function Allocated(cs: seq<Chunk>): seq<Chunk> {
    if cs == [] then [] else (if cs[0].used then [cs[0]] else []) + Allocated(cs[1..])
  }

  /** The gap between two addresses as a list of at most one free chunk. */
  function Gap(from: nat, to: nat): seq<Chunk> {
    if from < to then [Chunk(from, to - from, false)] else []
  }

  /** The list that has these allocated chunks and one free chunk in every gap. */
  function Fill(live: seq<Chunk>, from: nat, to: nat): seq<Chunk> {
    if live == [] then Gap(from, to)
    else Gap(from, live[0].addr) + [live[0]] + Fill(live[1..], End(live[0]), to)
  }

  /** What is allocated determines the whole list: all free space between two allocated
      chunks is one chunk. */
  lemma {:induction false} FillUnique(cs: seq<Chunk>, hdr: nat, from: nat, to: nat)
    requires Tiles(cs, hdr, from, to) && NoTwoFree(cs)
    ensures cs == Fill(Allocated(cs), from, to) && from <= to
  {
    if cs != [] {
      var c, rest := cs[0], cs[1..];
      FillUnique(rest, hdr, End(c), to);
      assert cs == [c] + rest;
      if c.used {
        FillUsed(c, Allocated(rest), to);
      } else if rest == [] {
        assert Allocated(rest) == [];
      } else {
        assert rest[0].used;
        assert Allocated(rest) == [rest[0]] + Allocated(rest[1..]);
        assert Allocated(cs) == Allocated(rest);
        FillFree(c, Allocated(rest), to);
      }
    }
  }

  lemma {:induction false} FillUsed(c: Chunk, live: seq<Chunk>, to: nat)
    ensures Fill([c] + live, c.addr, to) == [c] + Fill(live, End(c), to)
  {
    assert ([c] + live)[1..] == live && Gap(c.addr, c.addr) == [];
  }

  lemma {:induction false} FillFree(c: Chunk, live: seq<Chunk>, to: nat)
    requires !c.used && c.size > 0 && live != [] && live[0].addr == End(c)
    ensures Fill(live, c.addr, to) == [c] + Fill(live, End(c), to)
  {
    assert Gap(c.addr, live[0].addr) == [c] && Gap(End(c), live[0].addr) == [];
  }

  /** When nothing is allocated, one free chunk covers the heap. */
  lemma {:induction false} AllFree(cs: seq<Chunk>, hdr: nat)
    requires Tiles(cs, hdr, 0, HEAP_SIZE) && NoTwoFree(cs) && Allocated(cs) == []
    ensures cs == [Chunk(0, HEAP_SIZE, false)]
  {
    FillUnique(cs, hdr, 0, HEAP_SIZE);
  }

  // ---- taking lists apart ----

  lemma {:induction false} TilesSplit(x: seq<Chunk>, y: seq<Chunk>, hdr: nat, from: nat, to: nat) returns (mid: nat)
    requires Tiles(x + y, hdr, from, to)
    ensures Tiles(x, hdr, from, mid) && Tiles(y, hdr, mid, to)
  {
    if x == [] {
      assert x + y == y;
      mid := from;
    } else {
      assert (x + y)[1..] == x[1..] + y;
      mid := TilesSplit(x[1..], y, hdr, End(x[0]), to);
    }
  }

  lemma {:induction false} TilesJoin(x: seq<Chunk>, y: seq<Chunk>, hdr: nat, from: nat, mid: nat, to: nat)
    requires Tiles(x, hdr, from, mid) && Tiles(y, hdr, mid, to)
    ensures Tiles(x + y, hdr, from, to)
  {
    if x == [] {
      assert x + y == y;
    } else {
      assert (x + y)[1..] == x[1..] + y;
      TilesJoin(x[1..], y, hdr, End(x[0]), mid, to);
    }
  }

  lemma {:induction false} AllocatedJoin(x: seq<Chunk>, y: seq<Chunk>)
    ensures Allocated(x + y) == Allocated(x) + Allocated(y)
  {
    if x == [] {
      assert x + y == y;
    } else {
      assert (x + y)[1..] == x[1..] + y;
      AllocatedJoin(x[1..], y);
      Assoc(if x[0].used then [x[0]] else [], Allocated(x[1..]), Allocated(y));
    }
  }

  /** The last chunk of one list and the first of the next. */
  predicate Meet(x: seq<Chunk>, y: seq<Chunk>) {
    x == [] || y == [] || x[|x| - 1].used || y[0].used
  }

  lemma {:induction false} NoTwoFreeJoin(x: seq<Chunk>, y: seq<Chunk>)
    ensures NoTwoFree(x + y) <==> NoTwoFree(x) && NoTwoFree(y) && Meet(x, y)
  {
    if x == [] {
      assert x + y == y;
    } else {
      assert (x + y)[1..] == x[1..] + y;
      NoTwoFreeJoin(x[1..], y);
      if |x| == 1 {
        assert x[1..] == [];
      } else {
        assert (x + y)[1] == x[1] && x[1..][|x| - 2] == x[|x| - 1];
      }
    }
  }

  // ---- one list operation at a time ----

  /** round_up(n, 8) */
  function RoundUp8(n: nat): (r: nat)
    ensures n <= r < n + 8 && r % 8 == 0
  {
    (n + 7) / 8 * 8
  }

  /** The sum of two sizes in 64-bit arithmetic. */
  function Wrap(n: nat): (r: nat)
    requires n < 2 * U64
    ensures r < U64
  {
    if n < U64 then n else n - U64
  }

  /** round_up(size, 8) in 64 bits: the last seven sizes become 0. */
  function Rounded(size: nat): (r: nat)
    requires size < U64
    ensures r < U64 && r % 8 == 0
  {
    Wrap(RoundUp8(size))
  }

  /** What malloc thinks a request takes: its size in units of eight bytes, and a header. */
  function Total(size: nat, hdr: nat): (r: nat)
    requires size < U64 && hdr <= HEAP_SIZE && hdr % 8 == 0
    ensures r < U64 && r % 8 == 0
  {
    Wrap(Rounded(size) + hdr)
  }

  /** Rounding a second time changes nothing; and where a total is no less than a header it is
      the sum it stands for. */
  lemma {:induction false} RoundedTotal(size: nat, hdr: nat)
    requires size < U64 && 0 < hdr <= HEAP_SIZE && hdr % 8 == 0
    ensures Rounded(Rounded(size)) == Rounded(size) && Total(Rounded(size), hdr) == Total(size, hdr)
    ensures Total(size, hdr) >= hdr ==> Total(size, hdr) == Rounded(size) + hdr
    ensures Rounded(size) == 0 <==> size == 0 || size > U64 - 8
    ensures Rounded(size) >= size <==> size <= U64 - 8
  {
  }

  /** The first free chunk that is large enough; |cs| if there is none. */
  function FirstFit(cs: seq<Chunk>, total: nat): (i: nat)
    ensures i <= |cs| && (i < |cs| ==> !cs[i].used && cs[i].size >= total)
    ensures forall k | 0 <= k < i :: cs[k].used || cs[k].size < total
  {
    if cs == [] || (!cs[0].used && cs[0].size >= total) then 0 else 1 + FirstFit(cs[1..], total)
  }

  /** A free chunk after the allocation: all of it, or the front of it with a free rest. */
  function Served(c: Chunk, total: nat, hdr: nat): seq<Chunk> {
    if c.size >= total + hdr
    then [Chunk(c.addr, total, true), Chunk(c.addr + total, c.size - total, false)]
    else [c.(used := true)]
  }

  /** List y in the place of the i-th chunk. */
  function Put(cs: seq<Chunk>, i: nat, y: seq<Chunk>): seq<Chunk>
    requires i < |cs|
  {
    cs[..i] + y + cs[i + 1..]
  }

  lemma {:induction false} Around(cs: seq<Chunk>, i: nat, hdr: nat, to: nat) returns (from: nat)
    requires Tiles(cs, hdr, 0, to) && NoTwoFree(cs) && i < |cs|
    ensures cs == cs[..i] + [cs[i]] + cs[i + 1..]
    ensures Tiles(cs[..i], hdr, 0, from) && from == cs[i].addr && Sized(cs[i], hdr) && Tiles(cs[i + 1..], hdr, End(cs[i]), to)
    ensures NoTwoFree(cs[..i]) && NoTwoFree(cs[i + 1..]) && Meet(cs[..i], [cs[i]]) && Meet([cs[i]], cs[i + 1..])
  {
    var x, y, z := cs[..i], [cs[i]], cs[i + 1..];
    assert cs == x + (y + z) && (y + z)[1..] == z;
    from := TilesSplit(x, y + z, hdr, 0, to);
    NoTwoFreeJoin(x, y + z);
    NoTwoFreeJoin(y, z);
  }

  /** Serving a request from the i-th chunk keeps the heap tiled and adds one allocated chunk. */
  lemma {:induction false} ServedOk(cs: seq<Chunk>, i: nat, total: nat, hdr: nat)
    requires Tiles(cs, hdr, 0, HEAP_SIZE) && NoTwoFree(cs) && i < |cs| && !cs[i].used && 0 < hdr <= total && total % 8 == 0
    ensures var newCs := Put(cs, i, Served(cs[i], total, hdr));
      Tiles(newCs, hdr, 0, HEAP_SIZE) && NoTwoFree(newCs) &&
      Allocated(newCs) == Allocated(cs[..i]) + [Served(cs[i], total, hdr)[0]] + Allocated(cs[i + 1..]) &&
      Allocated(cs) == Allocated(cs[..i]) + Allocated(cs[i + 1..])
  {
    var x, c, z, y := cs[..i], cs[i], cs[i + 1..], Served(cs[i], total, hdr);
    var from := Around(cs, i, hdr, HEAP_SIZE);
    ServedTiles(c, total, hdr);
    ThreeLists(x, y, z, hdr, from, End(c), HEAP_SIZE);
    assert Allocated([c]) == [];
    ThreeAllocated(x, [c], z);
    assert Allocated(x) + [] == Allocated(x);
  }

  lemma {:induction false} ServedTiles(c: Chunk, total: nat, hdr: nat)
    requires Sized(c, hdr) && 0 < hdr <= total && total % 8 == 0
    ensures var y := Served(c, total, hdr);
      Tiles(y, hdr, c.addr, End(c)) && NoTwoFree(y) && Allocated(y) == [y[0]] && y[0].used
  {
    var y := Served(c, total, hdr);
    if |y| == 2 {
      assert y[1..] == [y[1]] && y[1..][1..] == [];
      assert Allocated(y[1..]) == [];
    } else {
      assert y[1..] == [];
    }
  }

  lemma {:induction false} ThreeAllocated(x: seq<Chunk>, y: seq<Chunk>, z: seq<Chunk>)
    ensures Allocated(x + y + z) == Allocated(x) + Allocated(y) + Allocated(z)
  {
    AllocatedJoin(x, y);
    AllocatedJoin(x + y, z);
  }

  lemma {:induction false} ThreeLists(x: seq<Chunk>, y: seq<Chunk>, z: seq<Chunk>, hdr: nat, from: nat, mid: nat, to: nat)
    requires Tiles(x, hdr, 0, from) && Tiles(y, hdr, from, mid) && Tiles(z, hdr, mid, to)
    requires NoTwoFree(x) && NoTwoFree(y) && NoTwoFree(z) && y != [] && Meet(x, y) && Meet(y, z)
    ensures Tiles(x + y + z, hdr, 0, to) && NoTwoFree(x + y + z) && Allocated(x + y + z) == Allocated(x) + Allocated(y) + Allocated(z)
  {
    TilesJoin(x, y, hdr, 0, from, mid);
    TilesJoin(x + y, z, hdr, 0, mid, to);
    NoTwoFreeJoin(x, y);
    NoTwoFreeJoin(x + y, z);
    ThreeAllocated(x, y, z);
  }

  function JoinBack(x: seq<Chunk>, c: Chunk, z: seq<Chunk>): seq<Chunk> {
    var m := |x| - 1;
    if x != [] && !x[m].used then x[..m] + [x[m].(size := x[m].size + c.size)] + z else x + [c] + z
  }

  function JoinBoth(x: seq<Chunk>, c: Chunk, z: seq<Chunk>): seq<Chunk> {
    if z != [] && !z[0].used then JoinBack(x, c.(size := c.size + z[0].size), z[1..]) else JoinBack(x, c, z)
  }

  /** What freeing the i-th chunk leaves: it joins a free successor, then a free predecessor. */
  function Joined(cs: seq<Chunk>, i: nat): seq<Chunk>
    requires i < |cs|
  {
    JoinBoth(cs[..i], cs[i].(used := false), cs[i + 1..])
  }

  /** Two free neighbours as one chunk. */
  lemma {:induction false} MergedTiles(c: Chunk, d: Chunk, z: seq<Chunk>, hdr: nat, from: nat, to: nat)
    requires Tiles([c] + ([d] + z), hdr, from, to) && !c.used && !d.used
    ensures Tiles([c.(size := c.size + d.size)] + z, hdr, from, to)
    ensures Allocated([c.(size := c.size + d.size)] + z) == Allocated([c] + ([d] + z))
  {
    var e := c.(size := c.size + d.size);
    assert ([c] + ([d] + z))[1..] == [d] + z && ([d] + z)[1..] == z && ([e] + z)[1..] == z;
  }

  lemma {:induction false} MergeOk(x: seq<Chunk>, c: Chunk, d: Chunk, z: seq<Chunk>, hdr: nat, to: nat)
    requires Tiles(x + [c] + [d] + z, hdr, 0, to) && !c.used && !d.used
    ensures Tiles(x + [c.(size := c.size + d.size)] + z, hdr, 0, to)
    ensures Allocated(x + [c.(size := c.size + d.size)] + z) == Allocated(x + [c] + [d] + z)
  {
    var e := c.(size := c.size + d.size);
    assert x + [c] + [d] + z == x + ([c] + ([d] + z));
    var from := TilesSplit(x, [c] + ([d] + z), hdr, 0, to);
    MergedTiles(c, d, z, hdr, from, to);
    TilesJoin(x, [e] + z, hdr, 0, from, to);
    assert x + [e] + z == x + ([e] + z);
    AllocatedJoin(x, [c] + ([d] + z));
    AllocatedJoin(x, [e] + z);
  }

  lemma {:induction false} OneAllocated(c: Chunk)
    ensures Allocated([c]) == if c.used then [c] else []
  {
    assert [c][1..] == [];
  }

  /** Freeing keeps the heap tiled and fully joined, and takes out one allocated chunk. */
  lemma {:induction false} JoinedOk(cs: seq<Chunk>, i: nat, hdr: nat)
    requires Tiles(cs, hdr, 0, HEAP_SIZE) && NoTwoFree(cs) && i < |cs| && cs[i].used
    ensures Tiles(Joined(cs, i), hdr, 0, HEAP_SIZE) && NoTwoFree(Joined(cs, i))
    ensures Allocated(Joined(cs, i)) == Allocated(cs[..i]) + Allocated(cs[i + 1..])
    ensures Allocated(cs) == Allocated(cs[..i]) + [cs[i]] + Allocated(cs[i + 1..])
  {
    var x, c, z := cs[..i], cs[i].(used := false), cs[i + 1..];
    var from := Around(cs, i, hdr, HEAP_SIZE);
    TilesJoin(x, [c], hdr, 0, from, End(c));
    TilesJoin(x + [c], z, hdr, 0, End(c), HEAP_SIZE);
    OneAllocated(c);
    OneAllocated(cs[i]);
    assert Allocated(x) + [] == Allocated(x);
    ThreeAllocated(x, [c], z);
    ThreeAllocated(x, [cs[i]], z);
    JoinNext(x, c, z, hdr);
  }

  lemma {:induction false} FrontFree(z: seq<Chunk>)
    requires NoTwoFree(z) && z != [] && !z[0].used
    ensures NoTwoFree(z[1..]) && (z[1..] == [] || z[1..][0].used)
  {
  }

  /** The two joins on a list whose only free neighbours are around c. */
  lemma {:induction false} JoinNext(x: seq<Chunk>, c: Chunk, z: seq<Chunk>, hdr: nat)
    requires Tiles(x + [c] + z, hdr, 0, HEAP_SIZE) && NoTwoFree(x) && NoTwoFree(z) && !c.used
    ensures var r := JoinBoth(x, c, z);
      Tiles(r, hdr, 0, HEAP_SIZE) && NoTwoFree(r) && Allocated(r) == Allocated(x + [c] + z)
  {
    hide Tiles, NoTwoFree, Allocated;
    if z != [] && !z[0].used {
      var d, z' := c.(size := c.size + z[0].size), z[1..];
      assert x + [c] + z == x + [c] + [z[0]] + z';
      MergeOk(x, c, z[0], z', hdr, HEAP_SIZE);
      FrontFree(z);
      JoinPrev(x, d, z', hdr);
    } else {
      JoinPrev(x, c, z, hdr);
    }
  }

  lemma {:induction false} JoinPrev(x: seq<Chunk>, c: Chunk, z: seq<Chunk>, hdr: nat)
    requires Tiles(x + [c] + z, hdr, 0, HEAP_SIZE) && NoTwoFree(x) && NoTwoFree(z) && !c.used && (z == [] || z[0].used)
    ensures var r := JoinBack(x, c, z);
      Tiles(r, hdr, 0, HEAP_SIZE) && NoTwoFree(r) && Allocated(r) == Allocated(x + [c] + z)
  {
    hide Tiles, Allocated;
    var m := |x| - 1;
    if x != [] && !x[m].used {
      var b, w := x[m], x[..m];
      var e := b.(size := b.size + c.size);
      assert x == w + [b];
      assert x + [c] + z == w + [b] + [c] + z;
      MergeOk(w, b, c, z, hdr, HEAP_SIZE);
      NoTwoFreeJoin(w, [b]);
      NoTwoFreeJoin(w, [e]);
      NoTwoFreeJoin(w + [e], z);
    } else {
      NoTwoFreeJoin(x, [c]);
      NoTwoFreeJoin(x + [c], z);
    }
  }

  // ---- live allocations do not overlap ----

  lemma {:induction false} TilesApart(cs: seq<Chunk>, hdr: nat, from: nat, to: nat, i: nat, j: nat)
    requires Tiles(cs, hdr, from, to) && i < j < |cs|
    ensures from <= cs[i].addr && End(cs[i]) <= cs[j].addr && End(cs[j]) <= to
  {
    if i == 0 {
      TilesBounds(cs[1..], hdr, End(cs[0]), to, j - 1);
    } else {
      TilesApart(cs[1..], hdr, End(cs[0]), to, i - 1, j - 1);
    }
  }

  lemma {:induction false} TilesBounds(cs: seq<Chunk>, hdr: nat, from: nat, to: nat, i: nat)
    requires Tiles(cs, hdr, from, to) && i < |cs|
    ensures from <= cs[i].addr && End(cs[i]) <= to && Sized(cs[i], hdr)
  {
    if i > 0 {
      TilesBounds(cs[1..], hdr, End(cs[0]), to, i - 1);
    } else {
      EndsBelow(cs[1..], hdr, End(cs[0]), to);
    }
  }

  lemma {:induction false} EndsBelow(cs: seq<Chunk>, hdr: nat, from: nat, to: nat)
    requires Tiles(cs, hdr, from, to)
    ensures from <= to
  {
    if cs != [] {
      EndsBelow(cs[1..], hdr, End(cs[0]), to);
    }
  }

  /** The index of the chunk with that address; |cs| if there is none. */
  function ChunkAt(cs: seq<Chunk>, addr: nat): (i: nat)
    ensures i <= |cs| && (i < |cs| ==> cs[i].addr == addr)
  {
    if cs == [] || cs[0].addr == addr then 0 else 1 + ChunkAt(cs[1..], addr)
  }

  /** Looking an allocated chunk up by its address finds it. */
  lemma {:induction false} LiveAt(cs: seq<Chunk>, hdr: nat, from: nat, to: nat, c: Chunk)
    requires Tiles(cs, hdr, from, to) && c in Allocated(cs)
    ensures from <= c.addr && ChunkAt(cs, c.addr) < |cs| && cs[ChunkAt(cs, c.addr)] == c && c.used
  {
    if cs[0].used && c == cs[0] {
    } else {
      LiveAt(cs[1..], hdr, End(cs[0]), to, c);
    }
  }

  lemma {:induction false} UsedIsLive(cs: seq<Chunk>, i: nat)
    requires i < |cs| && cs[i].used
    ensures cs[i] in Allocated(cs)
  {
    if i > 0 {
      UsedIsLive(cs[1..], i - 1);
      assert cs[i] == cs[1..][i - 1];
    }
  }

  /** `a` is the address of a live allocation. */
  predicate HasPayload(cs: seq<Chunk>, a: nat, hdr: nat) {
    a >= hdr && ChunkAt(cs, a - hdr) < |cs| && cs[ChunkAt(cs, a - hdr)].used
  }

  function PayloadSize(cs: seq<Chunk>, a: nat, hdr: nat): int
    requires HasPayload(cs, a, hdr)
  {
    cs[ChunkAt(cs, a - hdr)].size - hdr
  }

  /** The size of the live allocation at `a`; -1 if there is none. */
  function LiveSize(cs: seq<Chunk>, a: nat, hdr: nat): int {
    if HasPayload(cs, a, hdr) then PayloadSize(cs, a, hdr) else -1
  }

  /** Every live allocation that is still allocated keeps its place and size. */
  lemma {:induction false} StillThere(cs: seq<Chunk>, cs': seq<Chunk>, hdr: nat, a: nat)
    requires HasPayload(cs, a, hdr) && Tiles(cs', hdr, 0, HEAP_SIZE)
    requires cs[ChunkAt(cs, a - hdr)] in Allocated(cs')
    ensures LiveSize(cs', a, hdr) == LiveSize(cs, a, hdr) >= 0
  {
    var c := cs[ChunkAt(cs, a - hdr)];
    LiveAt(cs', hdr, 0, HEAP_SIZE, c);
    TilesBounds(cs', hdr, 0, HEAP_SIZE, ChunkAt(cs', c.addr));
  }

  lemma {:induction false} TilesEither(cs: seq<Chunk>, hdr: nat, i: nat, k: nat)
    requires Tiles(cs, hdr, 0, HEAP_SIZE) && i < |cs| && k < |cs| && i != k
    ensures End(cs[k]) <= cs[i].addr || End(cs[i]) <= cs[k].addr
    ensures End(cs[i]) <= HEAP_SIZE && End(cs[k]) <= HEAP_SIZE && cs[k].size >= hdr
  {
    TilesBounds(cs, hdr, 0, HEAP_SIZE, i);
    TilesBounds(cs, hdr, 0, HEAP_SIZE, k);
    if k < i {
      TilesApart(cs, hdr, 0, HEAP_SIZE, k, i);
    } else {
      TilesApart(cs, hdr, 0, HEAP_SIZE, i, k);
    }
  }

  // ---- how much is free ----

  /** The bytes of all free chunks, their headers included. */
  function FreeBytes(cs: seq<Chunk>): nat {
    if cs == [] then 0 else (if cs[0].used then 0 else cs[0].size) + FreeBytes(cs[1..])
  }

  lemma {:induction false} FreeBytesJoin(x: seq<Chunk>, y: seq<Chunk>)
    ensures FreeBytes(x + y) == FreeBytes(x) + FreeBytes(y)
  {
    if x == [] {
      assert x + y == y;
    } else {
      assert (x + y)[1..] == x[1..] + y;
      FreeBytesJoin(x[1..], y);
    }
  }

  lemma {:induction false} ServedBytes(cs: seq<Chunk>, i: nat, total: nat, hdr: nat)
    requires i < |cs| && !cs[i].used && cs[i].size >= total
    ensures FreeBytes(Put(cs, i, Served(cs[i], total, hdr))) + Served(cs[i], total, hdr)[0].size == FreeBytes(cs)
  {
    var x, z, y := cs[..i], cs[i + 1..], Served(cs[i], total, hdr);
    assert cs == x + [cs[i]] + z;
    FreeBytesJoin(x, [cs[i]]);
    FreeBytesJoin(x + [cs[i]], z);
    FreeBytesJoin(x, y);
    FreeBytesJoin(x + y, z);
    assert FreeBytes([]) == 0 && [cs[i]][1..] == [];
    if |y| == 2 {
      assert y[1..] == [y[1]] && [y[1]][1..] == [];
    } else {
      assert y[1..] == [];
    }
  }

  predicate Room(c: Chunk, n: nat) {
    !c.used && c.size >= n
  }

  /** The i-th chunk is the first with so much room. */
  predicate FirstRoom(cs: seq<Chunk>, i: nat, n: nat) {
    i < |cs| && Room(cs[i], n) && forall k | 0 <= k < i :: !Room(cs[k], n)
  }

  /** The answer to a request for `size` bytes that does not wrap around: no chunk has room for it
      and a header, or the payload of the first that has.  This allocation is less than a header
      larger than the request, and what is left of the chunk stays free.  As a value. */
  ghost function Answered(cs: seq<Chunk>, cs': seq<Chunk>, size: nat, hdr: nat, r: Option<nat>): Condition {
    var n := RoundUp8(size);
    if match r
       case None => cs' == cs && forall k | 0 <= k < |cs| :: !Room(cs[k], n + hdr)
       case Some(a) => exists i :: AnsweredFrom(cs, cs', i, n, hdr, a)
    then Intact else Broken
  }

  ghost predicate AnsweredFrom(cs: seq<Chunk>, cs': seq<Chunk>, i: int, n: nat, hdr: nat, a: nat) {
    && 0 <= i && FirstRoom(cs, i, n + hdr) && a == cs[i].addr + hdr
    && n <= LiveSize(cs', a, hdr) < n + hdr && (LiveSize(cs', a, hdr) == n || LiveSize(cs', a, hdr) + hdr == cs[i].size)
    && FreeBytes(cs') + LiveSize(cs', a, hdr) + hdr == FreeBytes(cs)
  }

  /** The search for a request that does not wrap around; as a value. */
  ghost function Sound(cs: seq<Chunk>, i: nat, size: nat, total: nat, hdr: nat): Condition {
    if && Tiles(cs, hdr, 0, HEAP_SIZE) && NoTwoFree(cs) && 0 < size && 0 < hdr <= HEAP_SIZE && hdr % 8 == 0
       && RoundUp8(size) + hdr == total && i == FirstFit(cs, total)
    then Intact else Broken
  }

  lemma {:induction false} GrantedIsAnswered(cs: seq<Chunk>, cs': seq<Chunk>, i: nat, size: nat, total: nat, hdr: nat, r: Option<nat>)
    requires Sound(cs, i, size, total, hdr) == Intact && (r == None ==> cs' == cs)
    requires Granted(cs, cs', i, total, hdr, r.Some?, r) == Intact
    ensures Answered(cs, cs', size, hdr, r) == Intact
  {
    hide Tiles, NoTwoFree, Put, LiveSize, FreeBytes, RoundUp8;
    var n := RoundUp8(size);
    if i < |cs| {
      ServedNew(cs, cs', i, n, hdr, r.value);
      assert AnsweredFrom(cs, cs', i, n, hdr, r.value);
    }
  }

  /** A request of `size` bytes, header not counted, served from the i-th chunk. */
  ghost predicate ServedFrom(cs: seq<Chunk>, cs': seq<Chunk>, i: nat, size: nat, hdr: nat) {
    && Tiles(cs, hdr, 0, HEAP_SIZE) && NoTwoFree(cs) && i < |cs| && !cs[i].used && cs[i].size >= size + hdr
    && 0 < hdr && hdr % 8 == 0 && size > 0 && size % 8 == 0 && cs' == Put(cs, i, Served(cs[i], size + hdr, hdr))
  }

  /** The new allocation is live, as large as was asked for and less than a header larger, and
      within the heap. */
  lemma {:induction false} ServedNew(cs: seq<Chunk>, cs': seq<Chunk>, i: nat, size: nat, hdr: nat, r: nat)
    requires ServedFrom(cs, cs', i, size, hdr) && r == cs[i].addr + hdr
    ensures Tiles(cs', hdr, 0, HEAP_SIZE) && NoTwoFree(cs') && size <= LiveSize(cs', r, hdr) < size + hdr && r + size <= HEAP_SIZE
    ensures LiveSize(cs', r, hdr) == size || LiveSize(cs', r, hdr) + hdr == cs[i].size
    ensures FreeBytes(cs') + LiveSize(cs', r, hdr) + hdr == FreeBytes(cs)
  {
    hide Tiles, NoTwoFree, Put;
    var s := Served(cs[i], size + hdr, hdr)[0];
    ServedOk(cs, i, size + hdr, hdr);
    ServedBytes(cs, i, size + hdr, hdr);
    assert s in Allocated(cs');
    LiveAt(cs', hdr, 0, HEAP_SIZE, s);
    TilesBounds(cs, hdr, 0, HEAP_SIZE, i);
  }

  /** Every other live allocation stays, and the new one does not overlap it. */
  lemma {:induction false} ServedKeeps(cs: seq<Chunk>, cs': seq<Chunk>, i: nat, size: nat, hdr: nat, r: nat, a: nat)
    requires ServedFrom(cs, cs', i, size, hdr) && r == cs[i].addr + hdr && HasPayload(cs, a, hdr)
    ensures LiveSize(cs', a, hdr) == LiveSize(cs, a, hdr) >= 0 && a + LiveSize(cs, a, hdr) <= HEAP_SIZE
    ensures a + LiveSize(cs, a, hdr) <= r || r + size <= a
    ensures a != r
  {
    hide Tiles, NoTwoFree, Put;
    var k := ChunkAt(cs, a - hdr);
    ServedOk(cs, i, size + hdr, hdr);
    UsedIsLive(cs, k);
    assert cs[k] in Allocated(cs');
    StillThere(cs, cs', hdr, a);
    TilesEither(cs, hdr, i, k);
  }

  /** A freed chunk: every other live allocation stays. */
  lemma {:induction false} FreedKeeps(cs: seq<Chunk>, f: nat, hdr: nat, a: nat)
    requires Tiles(cs, hdr, 0, HEAP_SIZE) && NoTwoFree(cs) && HasPayload(cs, f, hdr)
    requires HasPayload(cs, a, hdr) && a != f
    ensures LiveSize(Joined(cs, ChunkAt(cs, f - hdr)), a, hdr) == LiveSize(cs, a, hdr) >= 0
  {
    var i := ChunkAt(cs, f - hdr);
    JoinedOk(cs, i, hdr);
    UsedIsLive(cs, ChunkAt(cs, a - hdr));
    StillThere(cs, Joined(cs, i), hdr, a);
  }

  /** The same `n` bytes at two places. */
  ghost predicate SameBytes(m: seq<Byte>, a: nat, m': seq<Byte>, a': nat, n: int) {
    0 <= n && a + n <= |m| && a' + n <= |m'| && m[a..a + n] == m'[a'..a' + n]
  }

  /** The live allocation at `a` is still there, with the same bytes. */
  ghost predicate KeptOne(cs: seq<Chunk>, cs': seq<Chunk>, hdr: nat, a: nat, m: seq<Byte>, m': seq<Byte>) {
    LiveSize(cs', a, hdr) == LiveSize(cs, a, hdr) >= 0 && SameBytes(m, a, m', a, LiveSize(cs, a, hdr))
  }

  /** So are all live allocations but the one at `addr`. */
  ghost predicate OthersKept(cs: seq<Chunk>, cs': seq<Chunk>, hdr: nat, addr: nat, m: seq<Byte>, m': seq<Byte>) {
    forall a: nat | HasPayload(cs, a, hdr) && a != addr :: KeptOne(cs, cs', hdr, a, m, m')
  }

  ghost predicate SameOutside(m: seq<Byte>, m': seq<Byte>, r: nat, n: nat) {
    |m| == |m'| && forall k | 0 <= k < |m| && !(r <= k < r + n) :: m'[k] == m[k]
  }

  lemma {:induction false} BytesOutside(m: seq<Byte>, m': seq<Byte>, r: nat, n: nat, a: nat, len: nat)
    requires SameOutside(m, m', r, n) && a + len <= |m| && (a + len <= r || r + n <= a)
    ensures SameBytes(m, a, m', a, len)
  {
  }

  /** A copy of as much of an allocation as fits into another, and no other byte changed; as a
      value. */
  ghost function Copied(m: seq<Byte>, m': seq<Byte>, addr: nat, r: nat, oldSize: int, size: nat): Condition {
    if SameBytes(m, addr, m', r, Min(oldSize, size)) && SameOutside(m, m', r, size) then Intact else Broken
  }

  /** What moving an allocation of the list `cs` from `addr` to `r` promises: room for `size`
      bytes, the old contents as far as they fit, and nothing else changed.  As a value, which
      proofs carry around without looking into it. */
  ghost function Moved(cs: seq<Chunk>, cs': seq<Chunk>, hdr: nat, addr: nat, r: nat, size: nat, m: seq<Byte>, m': seq<Byte>): Condition {
    if && size <= LiveSize(cs', r, hdr) < size + hdr && SameBytes(m, addr, m', r, Min(LiveSize(cs, addr, hdr), size))
       && OthersKept(cs, cs', hdr, addr, m, m')
    then Intact else Broken
  }

  lemma {:induction false} Widen(m: seq<Byte>, m': seq<Byte>, r: nat, n: nat, size: nat)
    requires SameOutside(m, m', r, n) && n <= size
    ensures SameOutside(m, m', r, size)
  {
  }

  /** The live allocation at `addr`, of that size, lies beside the `size` bytes at `r`; as a
      value. */
  ghost function Movable(cs: seq<Chunk>, hdr: nat, addr: nat, r: nat, size: nat, oldSize: int): Condition {
    if && r + size <= HEAP_SIZE && LiveSize(cs, addr, hdr) == oldSize >= 0
       && addr + oldSize <= HEAP_SIZE && (addr + oldSize <= r || r + size <= addr)
    then Intact else Broken
  }

  lemma {:induction false} ReadyToMove(cs: seq<Chunk>, cs': seq<Chunk>, i: nat, size: nat, hdr: nat, r: nat, addr: nat)
    requires ServedFrom(cs, cs', i, size, hdr) && r == cs[i].addr + hdr && HasPayload(cs, addr, hdr)
    ensures Movable(cs', hdr, addr, r, size, LiveSize(cs, addr, hdr)) == Intact
  {
    ServedNew(cs, cs', i, size, hdr, r);
    ServedKeeps(cs, cs', i, size, hdr, r, addr);
  }

  /** After a request is served, its payload filled, and the chunk at `addr` freed. */
  lemma {:induction false} MoveKeeps(cs: seq<Chunk>, cs': seq<Chunk>, i: nat, size: nat, hdr: nat, addr: nat, r: nat, m: seq<Byte>, m': seq<Byte>)
    requires ServedFrom(cs, cs', i, size, hdr) && HasPayload(cs, addr, hdr) && r == cs[i].addr + hdr
    requires |m| == HEAP_SIZE && Copied(m, m', addr, r, LiveSize(cs, addr, hdr), size) == Intact
    ensures HasPayload(cs', addr, hdr) && Moved(cs, Joined(cs', ChunkAt(cs', addr - hdr)), hdr, addr, r, size, m, m') == Intact
  {
    ServedNew(cs, cs', i, size, hdr, r);
    ServedKeeps(cs, cs', i, size, hdr, r, addr);
    FreedKeeps(cs', addr, hdr, r);
    forall a: nat | HasPayload(cs, a, hdr) && a != addr
      ensures KeptOne(cs, Joined(cs', ChunkAt(cs', addr - hdr)), hdr, a, m, m')
    {
      ServedKeeps(cs, cs', i, size, hdr, r, a);
      FreedKeeps(cs', addr, hdr, a);
      BytesOutside(m, m', r, size, a, LiveSize(cs, a, hdr));
    }
  }

  /** The chunks after a request is served from the i-th one and the allocation at `addr` freed. */
  function Replaced(cs: seq<Chunk>, i: nat, total: nat, hdr: nat, addr: nat): seq<Chunk>
    requires i < |cs|
  {
    var served := Put(cs, i, Served(cs[i], total, hdr));
    if addr >= hdr && ChunkAt(served, addr - hdr) < |served| then Joined(served, ChunkAt(served, addr - hdr)) else served
  }

  /** A request answered from the i-th chunk, or refused because there is none; as a value. */
  ghost function Granted(cs: seq<Chunk>, cs': seq<Chunk>, i: nat, total: nat, hdr: nat, ok: bool, r: Option<nat>): Condition {
    if if i < |cs| then ok && r == Some(cs[i].addr + hdr) && cs' == Put(cs, i, Served(cs[i], total, hdr)) else !ok
    then Intact else Broken
  }

  /** One more live chunk, in its place among the others; as a value. */
  ghost function Added(cs: seq<Chunk>, i: nat, total: nat, hdr: nat, live: seq<Chunk>, live': seq<Chunk>): Condition {
    if && i < |cs| && live == Allocated(cs[..i]) + Allocated(cs[i + 1..])
       && live' == Allocated(cs[..i]) + [Served(cs[i], total, hdr)[0]] + Allocated(cs[i + 1..])
    then Intact else Broken
  }

  /** An allocation resized: left alone if it has that size already, moved to the first fit if
      there is one, and refused otherwise; as a value. */
  ghost function Resized(cs: seq<Chunk>, cs': seq<Chunk>, hdr: nat, addr: nat, size: nat, ok: bool, r: nat): Condition {
    var i := FirstFit(cs, size + hdr);
    if if LiveSize(cs, addr, hdr) == size then ok && r == addr && cs' == cs
       else if 0 < size && size + hdr < U64 && i < |cs| then ok && r == cs[i].addr + hdr && cs' == Replaced(cs, i, size + hdr, hdr, addr)
       else !ok && cs' == cs
    then Intact else Broken
  }

  /** The whole heap as one free chunk. */
  lemma {:induction false} FreshHeap(hdr: nat)
    requires 0 < hdr <= HEAP_SIZE && hdr % 8 == 0
    ensures Tiles([Chunk(0, HEAP_SIZE, false)], hdr, 0, HEAP_SIZE) && NoTwoFree([Chunk(0, HEAP_SIZE, false)])
  {
    assert [Chunk(0, HEAP_SIZE, false)][1..] == [];
  }

  lemma {:induction false} WrappedTotal(size: nat, hdr: nat)
    requires size < U64 && size % 8 == 0 && 0 < hdr <= HEAP_SIZE && hdr % 8 == 0
    ensures Rounded(size) == size && Total(size, hdr) == Wrap(size + hdr)
    ensures Total(size, hdr) < hdr <==> size + hdr >= U64
  {
  }

  /** A total that does not wrap around is a sum, and the whole heap the first fit of what fits. */
  lemma {:induction false} FirstOfAll(size: nat, hdr: nat)
    requires size < U64 && 0 < hdr <= HEAP_SIZE && hdr % 8 == 0
    ensures RoundUp8(size) + hdr < U64 ==> Total(size, hdr) == RoundUp8(size) + hdr
    ensures RoundUp8(size) + hdr <= HEAP_SIZE ==> FirstFit([Chunk(0, HEAP_SIZE, false)], RoundUp8(size) + hdr) == 0
  {
  }

  lemma {:induction false} Refused(cs: seq<Chunk>, cs': seq<Chunk>, i: nat, total: nat, hdr: nat)
    ensures i >= |cs| ==> Granted(cs, cs', i, total, hdr, false, None) == Intact
  {
  }

  // ---- the heap ----

  class Heap {
    var chunks: seq<Chunk>
    const mem: array<Byte>
    const hdr: nat

    /** sizeof(heap_chunk_t) is a positive multiple of eight. */
    ghost predicate Valid()
      reads this
    {
      && mem.Length == HEAP_SIZE && 0 < hdr <= HEAP_SIZE && hdr % 8 == 0
      && (chunks == [] || (Tiles(chunks, hdr, 0, HEAP_SIZE) && NoTwoFree(chunks)))
    }

    /** The allocated chunks in address order.  They are the whole state of the heap. */
    ghost function Live(): seq<Chunk>
      reads this
    {
      Allocated(chunks)
    }

    constructor (hdr: nat)
      requires 0 < hdr <= HEAP_SIZE && hdr % 8 == 0
      ensures Valid() && chunks == [] && fresh(mem) && this.hdr == hdr
    {
      this.hdr := hdr;
      mem := new Byte[HEAP_SIZE];
      chunks := [];
    }

    /** The search loop of malloc. */
    method Search(total: nat) returns (i: nat)
      ensures i == FirstFit(chunks, total)
    {
      i := 0;
      assert chunks[0..] == chunks;
      while i < |chunks|
        invariant i <= |chunks| && FirstFit(chunks, total) == i + FirstFit(chunks[i..], total)
      {
        if !chunks[i].used && chunks[i].size >= total {
          return;
        }
        assert chunks[i..][1..] == chunks[i + 1..];
        i := i + 1;
      }
    }

    /** Where malloc serves a request from: the first chunk of the whole heap on the first
        request, the first fit later. */
    ghost function Start(): seq<Chunk>
      reads this
    {
      if chunks == [] then [Chunk(0, HEAP_SIZE, false)] else chunks
    }

    ghost function Choice(total: nat): nat
      reads this
    {
      if chunks == [] then 0 else FirstFit(chunks, total)
    }

    /** A request whose total wraps around to less than a header, although some chunk would do
        for that. */
    ghost predicate Wrapped(size: nat)
      requires Valid() && size < U64
      reads this, mem
    {
      size > 0 && Total(size, hdr) < hdr && Choice(Total(size, hdr)) < |Start()|
    }

    /** A request that does not wrap around and, if it is the first, fits the heap. */
    ghost predicate Plain(size: nat)
      reads this
    {
      RoundUp8(size) + hdr < U64 && (chunks == [] ==> RoundUp8(size) + hdr <= HEAP_SIZE)
    }

    /** malloc: the payload address, or None for the internal error.  The first request of
        all is served without looking at its size.  Wild stands for a total that wrapped around
        to less than a header: the source then cuts a chunk inside its own header, and the
        model stops. */
    method Malloc(size0: nat) returns (r: Option<nat>, wild: bool)
      requires Valid() && size0 < U64
      modifies this
      ensures Valid()
      ensures wild <==> old(Wrapped(size0))
      ensures r == None ==> chunks == old(chunks)
      ensures size0 == 0 || wild ==> r == None
      ensures 0 < size0 && old(Plain(size0)) ==> !wild && Answered(old(Start()), chunks, size0, hdr, r) == Intact
      ensures size0 > 0 && !wild ==>
        Granted(old(Start()), chunks, old(Choice(Total(size0, hdr))), Total(size0, hdr), hdr, r.Some?, r) == Intact
      ensures r.Some? ==> Added(old(Start()), old(Choice(Total(size0, hdr))), Total(size0, hdr), hdr, old(Live()), Live()) == Intact
    {
      if size0 == 0 {
        return None, false;
      }
      PlainChoice(size0);
      hide Tiles, NoTwoFree, Rounded, RoundUp8, Wrap, FirstFit, Granted, Added, Allocated, Choice, Start, Plain, Answered, Sound;
      ghost var cs, plain := Start(), Plain(size0);
      var size := Rounded(size0);
      var total := Wrap(size + hdr);
      assert total == Total(size0, hdr);
      hide Total;
      var i, found := Find(total);
      Refused(Start(), chunks, i, total, hdr);
      if !found || total < hdr {
        if plain {
          GrantedIsAnswered(cs, chunks, i, size0, total, hdr, None);
        }
        return None, found;
      }
      var addr := Grant(i, total);
      if plain {
        GrantedIsAnswered(cs, chunks, i, size0, total, hdr, Some(addr + hdr));
      }
      return Some(addr + hdr), false;
    }

    /** The search of malloc.  The first request needs none. */
    method Find(total: nat) returns (i: nat, found: bool)
      ensures i == Choice(total) && found == (i < |Start()|)
    {
      i := 0;
      if chunks != [] {
        i := Search(total);
      }
      found := chunks == [] || i < |chunks|;
    }

    /** The initial free chunk where there is none yet, and the allocation. */
    method Grant(i: nat, total: nat) returns (addr: nat)
      requires Valid() && hdr <= total && total % 8 == 0 && i == Choice(total) && i < |Start()|
      modifies this
      ensures Valid() && Granted(old(Start()), chunks, i, total, hdr, true, Some(addr + hdr)) == Intact
      ensures Added(old(Start()), i, total, hdr, old(Live()), Live()) == Intact
    {
      FreshHeap(hdr);
      hide Tiles, NoTwoFree;
      if chunks == [] {
        chunks := [Chunk(0, HEAP_SIZE, false)];
      }
      addr := Take(i, total);
    }

    /** A plain request takes the first fit, also if it is the first. */
    lemma PlainChoice(size: nat)
      requires Valid() && 0 < size < U64
      ensures Plain(size) ==> Total(size, hdr) >= hdr && Sound(Start(), Choice(Total(size, hdr)), size, Total(size, hdr), hdr) == Intact
      ensures Choice(Total(size, hdr)) >= |Start()| ==> Start() == chunks
    {
      FirstOfAll(size, hdr);
      FreshHeap(hdr);
      hide RoundUp8, Total;
    }

    /** The second half of malloc: split the chunk if the rest can hold a header, and mark it. */
    method Take(i: nat, total: nat) returns (addr: nat)
      requires mem.Length == HEAP_SIZE && 0 < hdr <= total && hdr <= HEAP_SIZE && hdr % 8 == 0 && total % 8 == 0
      requires Tiles(chunks, hdr, 0, HEAP_SIZE) && NoTwoFree(chunks) && i < |chunks| && !chunks[i].used
      modifies this
      ensures Valid() && addr == old(chunks[i].addr) && chunks == old(Put(chunks, i, Served(chunks[i], total, hdr)))
      ensures Live() == old(Allocated(chunks[..i]) + [Served(chunks[i], total, hdr)[0]] + Allocated(chunks[i + 1..]))
      ensures old(Live()) == old(Allocated(chunks[..i]) + Allocated(chunks[i + 1..]))
    {
      hide Tiles, NoTwoFree;
      ghost var cs := chunks;
      ServedOk(cs, i, total, hdr);
      var chunk := chunks[i];
      addr := chunk.addr;
      if chunk.size >= total + hdr {
        var newChunk := Chunk(chunk.addr + total, chunk.size - total, false);
        chunk := chunk.(size := total);
        chunks := chunks[..i] + [chunk, newChunk] + chunks[i + 1..];
      }
      chunks := chunks[i := chunk.(used := true)];
      PutSplit(cs, i, chunk.(used := true), Chunk(addr + total, cs[i].size - chunk.size, false));
      assert chunks == Put(cs, i, Served(cs[i], total, hdr));
    }

    /** free: false for the internal error about a double free. */
    method Free(addr: Option<nat>) returns (ok: bool)
      requires Valid() && (addr.Some? ==> addr.value >= hdr && ChunkAt(chunks, addr.value - hdr) < |chunks|)
      modifies this
      ensures Valid()
      ensures addr.None? ==> ok && chunks == old(chunks)
      ensures addr.Some? ==> var i := old(ChunkAt(chunks, addr.value - hdr));
        ok == old(chunks)[i].used && chunks == if ok then Joined(old(chunks), i) else old(chunks)
      ensures ok && addr.Some? ==> var i := old(ChunkAt(chunks, addr.value - hdr));
        Live() == Allocated(old(chunks)[..i]) + Allocated(old(chunks)[i + 1..]) &&
        old(Live()) == Allocated(old(chunks)[..i]) + [old(chunks)[i]] + Allocated(old(chunks)[i + 1..])
    {
      if addr.None? {
        return true;
      }
      var i := ChunkAt(chunks, addr.value - hdr);
      if !chunks[i].used {
        return false;
      }
      Release(i);
      return true;
    }

    /** The second half of free: mark the chunk and join it with free neighbours. */
    method Release(i0: nat)
      requires Valid() && i0 < |chunks| && chunks[i0].used
      modifies this
      ensures Valid() && chunks == old(Joined(chunks, i0))
      ensures Live() == old(Allocated(chunks[..i0]) + Allocated(chunks[i0 + 1..]))
      ensures old(Live()) == old(Allocated(chunks[..i0]) + [chunks[i0]] + Allocated(chunks[i0 + 1..]))
    {
      ghost var cs := chunks;
      JoinedOk(cs, i0, hdr);
      chunks := chunks[i0 := chunks[i0].(used := false)];
      ghost var x, c, z := cs[..i0], cs[i0].(used := false), cs[i0 + 1..];
      assert chunks == x + [c] + z;
      Settle(i0, x, c, z);
    }

    method Settle(i: nat, ghost x: seq<Chunk>, ghost c: Chunk, ghost z: seq<Chunk>)
      requires chunks == x + [c] + z && i == |x|
      modifies this
      ensures chunks == JoinBoth(x, c, z)
    {
      JoinNextChunk(i, x, c, z);
      ghost var joins := z != [] && !z[0].used;
      JoinPrevChunk(i, x, if joins then c.(size := c.size + z[0].size) else c, if joins then z[1..] else z);
    }

    method JoinNextChunk(i: nat, ghost x: seq<Chunk>, ghost c: Chunk, ghost z: seq<Chunk>)
      requires chunks == x + [c] + z && i == |x|
      modifies this
      ensures chunks == if z != [] && !z[0].used then x + [c.(size := c.size + z[0].size)] + z[1..] else x + [c] + z
    {
      if i + 1 < |chunks| && !chunks[i + 1].used {
        var adj := chunks[i + 1];
        chunks := chunks[..i] + [chunks[i].(size := chunks[i].size + adj.size)] + chunks[i + 2..];
      }
    }

    method JoinPrevChunk(i: nat, ghost x: seq<Chunk>, ghost c: Chunk, ghost z: seq<Chunk>)
      requires chunks == x + [c] + z && i == |x|
      modifies this
      ensures chunks == JoinBack(x, c, z)
    {
      if i > 0 && !chunks[i - 1].used {
        var adj := chunks[i - 1];
        BackAt(x, c, z);
        chunks := chunks[..i - 1] + [adj.(size := adj.size + chunks[i].size)] + chunks[i + 1..];
      }
    }

    /** memcpy between two payloads. */
    method Copy(dst: nat, src: nat, n: nat)
      requires dst + n <= mem.Length && src + n <= mem.Length && (dst + n <= src || src + n <= dst)
      modifies mem
      ensures SameBytes(old(mem[..]), src, mem[..], dst, n)
      ensures SameOutside(old(mem[..]), mem[..], dst, n)
    {
      forall k | 0 <= k < n {
        mem[dst + k] := mem[src + k];
      }
    }

    /** realloc to another size: a new allocation with the contents of the old one, which is
        freed.  Not ok stands for the internal error of malloc. */
    method Move(addr: nat, size: nat) returns (ok: bool, r: nat, wild: bool)
      requires Valid() && HasPayload(chunks, addr, hdr) && size < U64 && size % 8 == 0
      modifies this, mem
      ensures Valid()
      ensures wild <==> old(Wrapped(size))
      ensures !wild ==> ok == (0 < size && size + hdr < U64 && FirstFit(old(chunks), size + hdr) < |old(chunks)|)
      ensures ok ==> var cs, i := old(chunks), FirstFit(old(chunks), size + hdr);
        !wild && i < |cs| && r == cs[i].addr + hdr && chunks == Replaced(cs, i, size + hdr, hdr, addr)
      ensures !ok ==> chunks == old(chunks) && mem[..] == old(mem[..])
      ensures ok ==> Moved(old(chunks), chunks, hdr, addr, r, size, old(mem[..]), mem[..]) == Intact
    {
      hide Tiles, NoTwoFree, Moved, Joined, Allocated, Served, Put, Total, Rounded, Wrap, FirstFit, Added;
      ghost var cs, i := chunks, FirstFit(chunks, size + hdr);
      RoundedTotal(size, hdr);
      WrappedTotal(size, hdr);
      var newAddr;
      newAddr, wild := Malloc(size);
      if newAddr == None {
        return false, 0, wild;
      }
      r := newAddr.value;
      ReadyToMove(cs, chunks, i, size, hdr, r, addr);
      MoveData(addr, r, size, cs, i);
      ok := true;
    }

    method FreeLive(addr: nat)
      requires Valid() && HasPayload(chunks, addr, hdr)
      modifies this
      ensures Valid() && chunks == old(Joined(chunks, ChunkAt(chunks, addr - hdr)))
    {
      var _ := Free(Some(addr));
    }

    /** memcpy of as much as both allocations hold. */
    method CopyData(addr: nat, r: nat, size: nat)
      requires mem.Length == HEAP_SIZE && HasPayload(chunks, addr, hdr) && LiveSize(chunks, addr, hdr) >= 0
      requires r + size <= HEAP_SIZE && addr + LiveSize(chunks, addr, hdr) <= HEAP_SIZE
      requires addr + LiveSize(chunks, addr, hdr) <= r || r + size <= addr
      modifies mem
      ensures Copied(old(mem[..]), mem[..], addr, r, LiveSize(chunks, addr, hdr), size) == Intact
    {
      ghost var m := mem[..];
      var oldSize := chunks[ChunkAt(chunks, addr - hdr)].size - hdr;
      var n := Min(oldSize, size);
      Copy(r, addr, n);
      Widen(m, mem[..], r, n, size);
    }

    /** memcpy and free, with the new allocation in place. */
    method MoveData(addr: nat, r: nat, size: nat, ghost cs: seq<Chunk>, ghost i: nat)
      requires Valid() && ServedFrom(cs, chunks, i, size, hdr) && HasPayload(cs, addr, hdr) && r == cs[i].addr + hdr
      requires Movable(chunks, hdr, addr, r, size, LiveSize(cs, addr, hdr)) == Intact
      modifies this, mem
      ensures Valid() && chunks == old(Joined(chunks, ChunkAt(chunks, addr - hdr)))
      ensures Moved(cs, chunks, hdr, addr, r, size, old(mem[..]), mem[..]) == Intact
    {
      ghost var m := mem[..];
      CopyData(addr, r, size);
      MoveKeeps(cs, chunks, i, size, hdr, addr, r, m, mem[..]);
      FreeLive(addr);
    }

    /** realloc.  Not ok stands for the internal error of malloc, wild for its wrapped total. */
    method Realloc(addr: Option<nat>, size0: nat) returns (ok: bool, r: Option<nat>, wild: bool)
      requires Valid() && size0 < U64 && (addr.Some? ==> HasPayload(chunks, addr.value, hdr))
      modifies this, mem
      ensures Valid()
      ensures wild <==> old(Wrapped(Rounded(size0)) && !(addr.Some? && LiveSize(chunks, addr.value, hdr) == Rounded(size0)))
      ensures size0 == 0 ==> ok && r == None && mem[..] == old(mem[..])
      ensures size0 == 0 && addr.Some? ==> chunks == Joined(old(chunks), ChunkAt(old(chunks), addr.value - hdr))
      ensures size0 > 0 && !ok ==> chunks == old(chunks) && mem[..] == old(mem[..])
      ensures wild ==> !ok
      ensures size0 > 0 && addr.None? ==> mem[..] == old(mem[..])
      ensures size0 > 0 && addr.None? && Rounded(size0) == 0 ==> !ok
      ensures Rounded(size0) > 0 && addr.None? && !wild ==>
        Granted(old(Start()), chunks, old(Choice(Total(size0, hdr))), Total(size0, hdr), hdr, ok, r) == Intact
      ensures size0 > 0 && addr.Some? ==> r.Some?
      ensures size0 > 0 && addr.Some? && !wild ==> Resized(old(chunks), chunks, hdr, addr.value, Rounded(size0), ok, r.value) == Intact
      ensures size0 > 0 && ok && addr.Some? ==>
        Moved(old(chunks), chunks, hdr, addr.value, r.value, Rounded(size0), old(mem[..]), mem[..]) == Intact
      ensures size0 > 0 && addr.Some? && old(LiveSize(chunks, addr.value, hdr)) == Rounded(size0) ==> mem[..] == old(mem[..])
    {
      RoundedTotal(size0, hdr);
      hide Tiles, NoTwoFree, Moved, Rounded, Total;
      if size0 == 0 {
        ok := Free(addr);
        return ok, None, false;
      }
      var size := Rounded(size0);
      if addr.None? {
        r, wild := Malloc(size);
        return r.Some?, r, wild;
      }
      var a;
      ok, a, wild := Resize(addr.value, size);
      r := Some(a);
    }

    /** realloc of a live allocation: nothing to do if it has that size. */
    method Resize(addr: nat, size: nat) returns (ok: bool, r: nat, wild: bool)
      requires Valid() && HasPayload(chunks, addr, hdr) && size < U64 && size % 8 == 0
      modifies this, mem
      ensures Valid()
      ensures wild <==> old(LiveSize(chunks, addr, hdr)) != size && old(Wrapped(size))
      ensures wild ==> !ok
      ensures !ok ==> chunks == old(chunks) && mem[..] == old(mem[..])
      ensures !wild ==> Resized(old(chunks), chunks, hdr, addr, size, ok, r) == Intact
      ensures old(LiveSize(chunks, addr, hdr)) == size ==> mem[..] == old(mem[..])
      ensures ok ==> Moved(old(chunks), chunks, hdr, addr, r, size, old(mem[..]), mem[..]) == Intact
    {
      hide Wrapped;
      var chunk := chunks[ChunkAt(chunks, addr - hdr)];
      if chunk.size - hdr == size {
        AllWithin(chunks, hdr, addr, mem[..]);
        return true, addr, false;
      }
      ok, r, wild := Move(addr, size);
    }
  }

  lemma {:induction false} AllWithin(cs: seq<Chunk>, hdr: nat, addr: nat, m: seq<Byte>)
    requires Tiles(cs, hdr, 0, HEAP_SIZE) && |m| == HEAP_SIZE && HasPayload(cs, addr, hdr)
    ensures OthersKept(cs, cs, hdr, addr, m, m) && SameBytes(m, addr, m, addr, LiveSize(cs, addr, hdr))
  {
    TilesBounds(cs, hdr, 0, HEAP_SIZE, ChunkAt(cs, addr - hdr));
    forall a: nat | HasPayload(cs, a, hdr) && a != addr ensures KeptOne(cs, cs, hdr, a, m, m) {
      TilesBounds(cs, hdr, 0, HEAP_SIZE, ChunkAt(cs, a - hdr));
    }
  }

  lemma {:induction false} BackAt(x: seq<Chunk>, c: Chunk, z: seq<Chunk>)
    requires x != [] && !x[|x| - 1].used
    ensures var cs, i := x + [c] + z, |x|;
      cs[..i - 1] + [cs[i - 1].(size := cs[i - 1].size + cs[i].size)] + cs[i + 1..] == JoinBack(x, c, z)
  {
    assert (x + [c] + z)[..|x| - 1] == x[..|x| - 1] && (x + [c] + z)[|x| + 1..] == z;
  }

  lemma {:induction false} PutSplit(cs: seq<Chunk>, i: nat, c: Chunk, d: Chunk)
    requires i < |cs|
    ensures cs[i := c] == Put(cs, i, [c])
    ensures forall b :: (cs[..i] + [b, d] + cs[i + 1..])[i := c] == Put(cs, i, [c, d])
  {
  }

  /** What malloc hands out has room for the request and a header exactly if the sum of the two
      does not wrap around, and a first request is not for more than the heap. */
  lemma {:induction false} ServedFits(cs: seq<Chunk>, first: bool, size: nat, hdr: nat)
    requires cs != [] && Tiles(cs, hdr, 0, HEAP_SIZE) && (first ==> cs == [Chunk(0, HEAP_SIZE, false)])
    requires 0 < size < U64 && 0 < hdr <= HEAP_SIZE && hdr % 8 == 0
    ensures var i := if first then 0 else FirstFit(cs, Total(size, hdr));
      i < |cs| ==> (Served(cs[i], Total(size, hdr), hdr)[0].size >= size + hdr <==>
        RoundUp8(size) + hdr < U64 && !(first && RoundUp8(size) + hdr > HEAP_SIZE))
  {
    var i := if first then 0 else FirstFit(cs, Total(size, hdr));
    if i < |cs| {
      TilesBounds(cs, hdr, 0, HEAP_SIZE, i);
      ServedRoom(cs[i], first, size, hdr);
    }
  }

  lemma {:induction false} ServedRoom(c: Chunk, first: bool, size: nat, hdr: nat)
    requires 0 < size < U64 && 0 < hdr <= HEAP_SIZE && hdr % 8 == 0
    requires c.size <= HEAP_SIZE && (if first then c.size == HEAP_SIZE else c.size >= Total(size, hdr))
    ensures Served(c, Total(size, hdr), hdr)[0].size >= size + hdr <==>
      RoundUp8(size) + hdr < U64 && !(first && RoundUp8(size) + hdr > HEAP_SIZE)
  {
  }

  /** A first request for all bytes of the heap is granted a chunk that lacks its header. */
  lemma {:induction false} ServedFitsExample()
    ensures var cs, total, hdr := [Chunk(0, HEAP_SIZE, false)], Total(HEAP_SIZE, 16), 16;
      Served(cs[0], total, hdr)[0].size == total - hdr
  {
    assert HEAP_SIZE % 8 == 0;
  }

  /** A fresh heap with headers of 32 bytes: a request for 80000 bytes leaves 51040 bytes free, and
      from these the next one is served. */
  lemma {:induction false} SplitExample()
    ensures HEAP_SIZE == 131072
    ensures Served(Chunk(0, 131072, false), Total(80000, 32), 32) == [Chunk(0, 80032, true), Chunk(80032, 51040, false)]
    ensures FirstFit([Chunk(0, 80032, true), Chunk(80032, 51040, false)], Total(8, 32)) == 1
    ensures Served(Chunk(80032, 51040, false), Total(8, 32), 32) == [Chunk(80032, 40, true), Chunk(80072, 51000, false)]
  {
    var cs := [Chunk(0, 80032, true), Chunk(80032, 51040, false)];
    assert Total(80000, 32) == 80032 && Total(8, 32) == 40 && cs[1..] == [Chunk(80032, 51040, false)];
  }

  /** The largest size of all is granted a bare header, by any free chunk; a size eight less
      makes a chunk smaller than its header. */
  lemma {:induction false} WrappedExample(c: Chunk)
    requires c.size >= 32
    ensures Served(c, Total(U64 - 1, 16), 16)[0].size == 16
    ensures Total(U64 - 8, 16) == 8
  {
    assert RoundUp8(U64 - 1) == U64 && RoundUp8(U64 - 8) == U64 - 8;
  }

  // ---- freeing everything ----

  /** free called for a list of addresses, one after the other. */
  function FreeRun(cs: seq<Chunk>, order: seq<nat>, hdr: nat): seq<Chunk>
    decreases |order|
  {
    if order == [] then cs
    else if !HasPayload(cs, order[0], hdr) then cs
    else FreeRun(Joined(cs, ChunkAt(cs, order[0] - hdr)), order[1..], hdr)
  }

  /** The payload addresses of a list of chunks. */
  function Addresses(live: seq<Chunk>, hdr: nat): (r: seq<nat>)
    ensures |r| == |live|
  {
    if live == [] then [] else [live[0].addr + hdr] + Addresses(live[1..], hdr)
  }

  lemma {:induction false} AddressesJoin(x: seq<Chunk>, y: seq<Chunk>, hdr: nat)
    ensures Addresses(x + y, hdr) == Addresses(x, hdr) + Addresses(y, hdr)
  {
    if x == [] {
      assert x + y == y;
    } else {
      assert (x + y)[1..] == x[1..] + y;
      AddressesJoin(x[1..], y, hdr);
    }
  }

  lemma {:induction false} AddressLive(live: seq<Chunk>, hdr: nat, a: nat) returns (c: Chunk)
    requires a in Addresses(live, hdr)
    ensures c in live && c.addr + hdr == a
  {
    if live[0].addr + hdr == a {
      c := live[0];
    } else {
      c := AddressLive(live[1..], hdr, a);
    }
  }

  /** Freeing every live allocation, in any order, gives back one free chunk. */
  lemma {:induction false} AllFreed(cs: seq<Chunk>, order: seq<nat>, hdr: nat)
    requires Tiles(cs, hdr, 0, HEAP_SIZE) && NoTwoFree(cs) && multiset(Addresses(Allocated(cs), hdr)) == multiset(order)
    ensures FreeRun(cs, order, hdr) == [Chunk(0, HEAP_SIZE, false)]
    decreases |order|
  {
    if order == [] {
      assert |multiset(Addresses(Allocated(cs), hdr))| == |multiset(order)| == 0;
      AllFree(cs, hdr);
    } else {
      FreeFirst(cs, order, hdr);
      AllFreed(Joined(cs, ChunkAt(cs, order[0] - hdr)), order[1..], hdr);
    }
  }

  lemma {:induction false} FreeFirst(cs: seq<Chunk>, order: seq<nat>, hdr: nat)
    requires Tiles(cs, hdr, 0, HEAP_SIZE) && NoTwoFree(cs) && multiset(Addresses(Allocated(cs), hdr)) == multiset(order) && order != []
    ensures HasPayload(cs, order[0], hdr)
    ensures var r := Joined(cs, ChunkAt(cs, order[0] - hdr));
      Tiles(r, hdr, 0, HEAP_SIZE) && NoTwoFree(r) && multiset(Addresses(Allocated(r), hdr)) == multiset(order[1..])
  {
    hide Tiles, NoTwoFree, Addresses, Allocated, Joined;
    var a := order[0];
    Counted(Addresses(Allocated(cs), hdr), order, a);
    var c := AddressLive(Allocated(cs), hdr, a);
    LiveAt(cs, hdr, 0, HEAP_SIZE, c);
    var i := ChunkAt(cs, a - hdr);
    JoinedOk(cs, i, hdr);
    OneLess(Allocated(cs[..i]), c, Allocated(cs[i + 1..]), hdr, order);
  }

  lemma {:induction false} Counted(x: seq<nat>, y: seq<nat>, a: nat)
    requires multiset(x) == multiset(y) && a in y
    ensures a in x
  {
    assert a in multiset(y);
  }

  lemma {:induction false} AddressesThree(x: seq<Chunk>, c: Chunk, z: seq<Chunk>, hdr: nat)
    ensures Addresses(x + [c] + z, hdr) == Addresses(x, hdr) + [c.addr + hdr] + Addresses(z, hdr)
  {
    AddressesJoin(x + [c], z, hdr);
    AddressesJoin(x, [c], hdr);
  }

  lemma {:induction false} OneLess(x: seq<Chunk>, c: Chunk, z: seq<Chunk>, hdr: nat, order: seq<nat>)
    requires order != [] && order[0] == c.addr + hdr && multiset(Addresses(x + [c] + z, hdr)) == multiset(order)
    ensures multiset(Addresses(x + z, hdr)) == multiset(order[1..])
  {
    hide Addresses;
    AddressesThree(x, c, z, hdr);
    AddressesJoin(x, z, hdr);
    MultisetLess(Addresses(x, hdr), order[0], Addresses(z, hdr), order, Addresses(x + [c] + z, hdr), Addresses(x + z, hdr));
  }

  lemma {:induction false} MultisetLess(x: seq<nat>, a: nat, z: seq<nat>, order: seq<nat>, all: seq<nat>, less: seq<nat>)
    requires order != [] && order[0] == a && all == x + [a] + z && less == x + z && multiset(all) == multiset(order)
    ensures multiset(less) == multiset(order[1..])
  {
    assert order == [a] + order[1..];
    assert multiset(all) == multiset(x) + multiset{a} + multiset(z);
    assert multiset(less) == multiset(all) - multiset{a};
    assert multiset(order[1..]) == multiset(order) - multiset{a};
  }

  /** An allocation freed at once leaves the list it found, chunk for chunk. */
  lemma {:induction false} MallocFree(cs: seq<Chunk>, i: nat, total: nat, hdr: nat)
    requires Tiles(cs, hdr, 0, HEAP_SIZE) && NoTwoFree(cs) && i < |cs| && !cs[i].used && 0 < hdr <= total && total % 8 == 0
    ensures var cs' := Put(cs, i, Served(cs[i], total, hdr)); Joined(cs', i) == cs
  {
    var x, c, z, s := cs[..i], cs[i], cs[i + 1..], Served(cs[i], total, hdr);
    var _ := Around(cs, i, hdr, HEAP_SIZE);
    PutParts(cs, i, s);
    BackToOne(x, c, z, s[0].(used := false), s[1..]);
  }

  lemma {:induction false} PutParts(cs: seq<Chunk>, i: nat, y: seq<Chunk>)
    requires i < |cs| && y != []
    ensures Put(cs, i, y)[..i] == cs[..i] && Put(cs, i, y)[i] == y[0] && Put(cs, i, y)[i + 1..] == y[1..] + cs[i + 1..]
  {
  }

  lemma {:induction false} BackToOne(x: seq<Chunk>, c: Chunk, z: seq<Chunk>, d: Chunk, rest: seq<Chunk>)
    requires Meet(x, [c]) && Meet([c], z) && !c.used
    requires (rest == [] && d == c) || (|rest| == 1 && !rest[0].used && d.(size := d.size + rest[0].size) == c)
    ensures JoinBoth(x, d, rest + z) == x + [c] + z
  {
    if rest == [] {
      assert rest + z == z;
    } else {
      assert (rest + z)[1..] == z;
    }
  }
}
