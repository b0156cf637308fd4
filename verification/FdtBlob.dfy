/** A device tree blob: one byte buffer holding header, reserve map, structure block and
    strings block, with the header's fields kept beside it. */
module FdtBlob {
  import opened Bits
  import opened Common
  import opened FdtFormat

  const FDT_MAGIC: nat := 0xd00d_feed
  const FDT_SW_MAGIC: nat := 0x2ff2_0112
  const HDRSIZE: nat := 40
  const NO_NAME_DEDUP: nat := 1

  // ---- the buffer ----

  function Overwritten(b: seq<Byte>, at: nat, s: seq<Byte>): (c: seq<Byte>)
    requires at + |s| <= |b|
    ensures |c| == |b|
  {
    b[..at] + s + b[at + |s|..]
  }

  lemma {:induction false} OverwrittenSame(b: seq<Byte>, at: nat, s: seq<Byte>)
    requires at + |s| <= |b|
    ensures Overwritten(b, at, s)[at..at + |s|] == s
  {
  }

  lemma {:induction false} OverwrittenBefore(b: seq<Byte>, at: nat, s: seq<Byte>, i: nat, j: nat)
    requires at + |s| <= |b| && i <= j <= at
    ensures Overwritten(b, at, s)[i..j] == b[i..j]
  {
  }

  lemma {:induction false} OverwrittenAfter(b: seq<Byte>, at: nat, s: seq<Byte>, i: nat, j: nat)
    requires at + |s| <= i <= j <= |b|
    ensures Overwritten(b, at, s)[i..j] == b[i..j]
  {
  }

  /** Writing inside a slice is writing in the slice. */
  lemma {:induction false} OverwrittenInside(b: seq<Byte>, at: nat, s: seq<Byte>, i: nat, j: nat)
    requires i <= at && at + |s| <= j <= |b|
    ensures Overwritten(b, at, s)[i..j] == Overwritten(b[i..j], at - i, s)
  {
  }

  lemma {:induction false} SliceSlice<T>(b: seq<T>, i: nat, j: nat, k: nat, l: nat)
    requires i <= j <= |b| && k <= l <= j - i
    ensures b[i..j][k..l] == b[i + k..i + l]
  {
    forall m | 0 <= m < l - k ensures b[i..j][k..l][m] == b[i + k..i + l][m] {
      assert b[i..j][k + m] == b[i + (k + m)];
    }
  }

  /** Nothing outside lo..hi differs. */
  ghost predicate Kept(b: seq<Byte>, c: seq<Byte>, lo: nat, hi: nat) {
    |b| == |c| && lo <= hi <= |b| && b[..lo] == c[..lo] && b[hi..] == c[hi..]
  }

  /** The same as a value. */
  ghost function Frame(b: seq<Byte>, c: seq<Byte>, lo: nat, hi: nat): Condition {
    if Kept(b, c, lo, hi) then Intact else Broken
  }

  lemma {:induction false} KeptWrite(b: seq<Byte>, at: nat, s: seq<Byte>, lo: nat, hi: nat)
    requires lo <= at && at + |s| <= hi <= |b|
    ensures Kept(b, Overwritten(b, at, s), lo, hi)
  {
    var c := Overwritten(b, at, s);
    assert c[..lo] == b[..lo] && c[hi..] == b[hi..];
  }

  lemma {:induction false} KeptTrans(b: seq<Byte>, c: seq<Byte>, d: seq<Byte>, lo: nat, hi: nat)
    requires Kept(b, c, lo, hi) && Kept(c, d, lo, hi)
    ensures Kept(b, d, lo, hi)
  {
  }

  lemma {:induction false} KeptSlice(b: seq<Byte>, c: seq<Byte>, lo: nat, hi: nat, i: nat, j: nat)
    requires Kept(b, c, lo, hi) && i <= j <= |b| && (j <= lo || hi <= i)
    ensures b[i..j] == c[i..j]
  {
    if j <= lo {
      SliceSlice(b, 0, lo, i, j);
      SliceSlice(c, 0, lo, i, j);
      assert b[0..lo] == b[..lo] && c[0..lo] == c[..lo];
    } else {
      SliceSlice(b, hi, |b|, i - hi, j - hi);
      SliceSlice(c, hi, |c|, i - hi, j - hi);
      assert b[hi..|b|] == b[hi..] && c[hi..|c|] == c[hi..];
    }
  }

  /** The `n` bytes at a place, none if it is not one. */
  ghost function BytesAt(b: seq<Byte>, at: int, n: nat): seq<Byte> {
    if 0 <= at && at + n <= |b| then b[at..at + n] else []
  }

  method Memcpy(a: array<Byte>, at: nat, s: seq<Byte>)
    requires at + |s| <= a.Length
    modifies a
    ensures a[..] == Overwritten(old(a[..]), at, s)
  {
    var k := 0;
    while k < |s|
      invariant k <= |s|
      invariant a[..] == Overwritten(old(a[..]), at, s[..k])
    {
      a[at + k] := s[k];
      k := k + 1;
    }
    assert s[..k] == s;
  }

  method Memset(a: array<Byte>, v: Byte, n: nat)
    requires n <= a.Length
    modifies a
    ensures forall k | 0 <= k < n :: a[k] == v
  {
    forall k | 0 <= k < n {
      a[k] := v;
    }
  }

  /** memmove: the bytes from `src` on, `n` of them, also where the two ranges overlap. */
  method Memmove(a: array<Byte>, dst: nat, src: nat, n: nat)
    requires dst + n <= a.Length && src + n <= a.Length
    modifies a
    ensures a[..] == Overwritten(old(a[..]), dst, old(a[..])[src..src + n])
  {
    ghost var b := a[..];
    forall k | 0 <= k < n {
      a[dst + k] := a[src + k];
    }
    assert a[..dst] == b[..dst] && a[dst..dst + n] == b[src..src + n] && a[dst + n..] == b[dst + n..];
    assert a[..] == a[..dst] + a[dst..dst + n] + a[dst + n..];
    assert a[..] == Overwritten(old(a[..]), dst, old(a[..])[src..src + n]);
  }

  // ---- the blob ----

  class Fdt {
    var buf: array<Byte>
    var magic: nat
    var totalsize: nat
    var off_mem_rsvmap: nat
    var off_dt_struct: nat
    var off_dt_strings: nat
    var size_dt_strings: nat
    var size_dt_struct: nat
    var last_comp_version: nat
    ghost var rsv: seq<(nat, nat)>
    ghost var items: seq<Item>

    constructor (buf: array<Byte>)
      ensures this.buf == buf
    {
      this.buf := buf;
      magic, totalsize, off_mem_rsvmap, off_dt_struct, off_dt_strings := 0, 0, 0, 0, 0;
      size_dt_strings, size_dt_struct, last_comp_version := 0, 0, 0;
    }

    /** The structure block. */
    ghost function Struct(): (s: seq<Byte>)
      requires off_dt_struct + size_dt_struct <= buf.Length
      reads this, buf
      ensures |s| == size_dt_struct
    {
      buf[..][off_dt_struct..off_dt_struct + size_dt_struct]
    }

    /** The strings block while the tree is being written: it ends where the buffer ends. */
    ghost function Tail(): (s: seq<Byte>)
      requires size_dt_strings <= totalsize <= buf.Length
      reads this, buf
      ensures |s| == size_dt_strings
    {
      buf[..][totalsize - size_dt_strings..totalsize]
    }

    /** The strings block of a finished tree. */
    ghost function Strings(): (s: seq<Byte>)
      requires off_dt_strings + size_dt_strings <= buf.Length
      reads this, buf
      ensures |s| == size_dt_strings
    {
      buf[..][off_dt_strings..off_dt_strings + size_dt_strings]
    }
  }

  // ---- the reserve map ----

  /** Entries of 16 bytes each stand at `at`. */
  ghost predicate Reserved(b: seq<Byte>, at: nat, entries: seq<(nat, nat)>) {
    forall k | 0 <= k < |entries| :: EntryAt(b, at + 16 * k, entries[k])
  }

  /** The same as a value. */
  ghost function Map(b: seq<Byte>, at: nat, entries: seq<(nat, nat)>): Condition {
    if Reserved(b, at, entries) then Intact else Broken
  }

  lemma {:induction false} ReservedKept(b: seq<Byte>, c: seq<Byte>, at: nat, entries: seq<(nat, nat)>, lo: nat)
    requires Reserved(b, at, entries) && at + 16 * |entries| <= lo <= |b| == |c| && b[..lo] == c[..lo]
    ensures Reserved(c, at, entries)
  {
    forall k | 0 <= k < |entries| ensures EntryAt(c, at + 16 * k, entries[k]) {
      var i := at + 16 * k;
      assert b[..lo][i..i + 16] == b[i..i + 16] && c[..lo][i..i + 16] == c[i..i + 16];
      EntryKept(b, c, i, entries[k]);
    }
  }

  function Word64(s: seq<Byte>, at: nat): (w: nat)
    requires at + 8 <= |s|
    ensures w < U64
  {
    Word(s, at) * U32 + Word(s, at + 4)
  }

  predicate EntryAt(b: seq<Byte>, at: nat, e: (nat, nat)) {
    at + 16 <= |b| && Word64(b, at) == e.0 && Word64(b, at + 8) == e.1
  }

  function Word64Bytes(w: nat): (s: seq<Byte>)
    requires w < U64
    ensures |s| == 8
  {
    WordBytes(w / U32) + WordBytes(w % U32)
  }

  function EntryBytes(e: (nat, nat)): (s: seq<Byte>)
    requires e.0 < U64 && e.1 < U64
    ensures |s| == 16
  {
    Word64Bytes(e.0) + Word64Bytes(e.1)
  }

  lemma {:induction false} Word64RoundTrip(w: nat)
    requires w < U64
    ensures Word64(Word64Bytes(w), 0) == w
  {
    WordRoundTrip(w / U32);
    WordRoundTrip(w % U32);
    var b := Word64Bytes(w);
    assert b[0..4] == WordBytes(w / U32) && b[4..8] == WordBytes(w % U32);
    WordAt(WordBytes(w / U32), b, 0, 0);
    WordAt(WordBytes(w % U32), b, 0, 4);
  }

  lemma {:induction false} Word64At(s: seq<Byte>, t: seq<Byte>, at: nat, shift: nat)
    requires at + 8 <= |s| && shift + |s| <= |t| && t[shift..shift + |s|] == s
    ensures Word64(t, shift + at) == Word64(s, at)
  {
    WordAt(s, t, at, shift);
    WordAt(s, t, at + 4, shift);
  }

  lemma {:induction false} EntryRoundTrip(b: seq<Byte>, at: nat, e: (nat, nat))
    requires e.0 < U64 && e.1 < U64 && at + 16 <= |b| && b[at..at + 16] == EntryBytes(e)
    ensures EntryAt(b, at, e)
  {
    var c, x, y := EntryBytes(e), Word64Bytes(e.0), Word64Bytes(e.1);
    assert c[0..8] == x && c[8..16] == y;
    Word64RoundTrip(e.0);
    Word64RoundTrip(e.1);
    Word64At(x, c, 0, 0);
    Word64At(y, c, 0, 8);
    Word64At(c, b, 0, at);
    Word64At(c, b, 8, at);
  }

  /** An entry survives when its bytes do. */
  lemma {:induction false} EntryKept(b: seq<Byte>, c: seq<Byte>, at: nat, e: (nat, nat))
    requires EntryAt(b, at, e) && at + 16 <= |c| && b[at..at + 16] == c[at..at + 16]
    ensures EntryAt(c, at, e)
  {
    var s := b[at..at + 16];
    Word64At(s, b, 0, at);
    Word64At(s, b, 8, at);
    Word64At(s, c, 0, at);
    Word64At(s, c, 8, at);
  }

  /** An entry written behind the others. */
  lemma {:induction false} ReservedAdded(b: seq<Byte>, at: nat, entries: seq<(nat, nat)>, e: (nat, nat))
    requires Reserved(b, at, entries) && e.0 < U64 && e.1 < U64 && at + 16 * |entries| + 16 <= |b|
    ensures Reserved(Overwritten(b, at + 16 * |entries|, EntryBytes(e)), at, entries + [e])
  {
    hide EntryAt, EntryBytes, Overwritten;
    var i, s := at + 16 * |entries|, EntryBytes(e);
    var c := Overwritten(b, i, s);
    KeptWrite(b, i, s, i, i + 16);
    ReservedKept(b, c, at, entries, i);
    OverwrittenSame(b, i, s);
    EntryRoundTrip(c, i, e);
    var all := entries + [e];
    forall k | 0 <= k < |all| ensures EntryAt(c, at + 16 * k, all[k]) {
      if k < |entries| {
        assert all[k] == entries[k];
      }
    }
  }

  /** The item made of tag and name. */
  lemma {:induction false} BeginBytes(b: seq<Byte>, name: seq<Byte>, strings: seq<Byte>, bias: nat)
    requires |b| == Size(BeginNode(name)) && NoNul(name)
    requires b[0..4] == WordBytes(FDT_BEGIN_NODE) && b[4..4 + |name| + 1] == name + [0]
    ensures ItemBytes(b, BeginNode(name), strings, bias)
  {
    WordRoundTrip(FDT_BEGIN_NODE);
    WordAt(WordBytes(FDT_BEGIN_NODE), b, 0, 0);
    var c := b[4..4 + |name| + 1];
    assert c[..|name|] == name && c[|name|] == 0;
    SliceSlice(b, 4, 4 + |name| + 1, 0, |name|);
  }

  /** The item made of tag, length, name offset and data. */
  lemma {:induction false} PropertyBytes(b: seq<Byte>, key: seq<Byte>, data: seq<Byte>, nameoff: nat, strings: seq<Byte>, bias: nat)
    requires |b| == Size(Property(key, data)) && |data| < U32 && nameoff < U32
    requires b[0..4] == WordBytes(FDT_PROP) && b[4..8] == WordBytes(|data|) && b[8..12] == WordBytes(nameoff)
    requires b[12..12 + |data|] == data && StringAt(strings, Unbias(nameoff, bias), key)
    ensures ItemBytes(b, Property(key, data), strings, bias)
  {
    WordRoundTrip(FDT_PROP);
    WordRoundTrip(|data|);
    WordRoundTrip(nameoff);
    WordAt(WordBytes(FDT_PROP), b, 0, 0);
    WordAt(WordBytes(|data|), b, 0, 4);
    WordAt(WordBytes(nameoff), b, 0, 8);
  }

  /** The items that are a tag and nothing else. */
  lemma {:induction false} TagBytes(b: seq<Byte>, it: Item, strings: seq<Byte>, bias: nat)
    requires it.EndNode? || it.Nop? || it.End?
    requires b == WordBytes(Tag(it))
    ensures ItemBytes(b, it, strings, bias)
  {
    WordRoundTrip(Tag(it));
  }

  // ---- fdt_find_string_ ----

  /** StringAt as a value. */
  function NamedAt(strings: seq<Byte>, i: int, name: seq<Byte>): Condition {
    if StringAt(strings, i, name) then Intact else Broken
  }

  /** The first index from `i` on where `s` and its NUL stand, -1 if there is none. */
  function PlaceFrom(strings: seq<Byte>, s: seq<Byte>, i: nat): (r: int)
    ensures r >= 0 ==> StringAt(strings, r, s) && i <= r
    decreases |strings| - i
  {
    if i + |s| + 1 > |strings| then -1
    else if StringAt(strings, i, s) then i
    else PlaceFrom(strings, s, i + 1)
  }

  lemma {:induction false} PlaceIsFirst(strings: seq<Byte>, s: seq<Byte>, i: nat, k: nat)
    requires i <= k && StringAt(strings, k, s)
    ensures 0 <= PlaceFrom(strings, s, i) <= k
    decreases k - i
  {
    if i < k && !StringAt(strings, i, s) {
      PlaceIsFirst(strings, s, i + 1, k);
    }
  }

  /** A string is found exactly if it stands somewhere in the block, and then at its first
      place. */
  lemma {:induction false} PlaceExact(strings: seq<Byte>, s: seq<Byte>)
    ensures var r := PlaceFrom(strings, s, 0);
      if r < 0 then forall k: nat :: NamedAt(strings, k, s) == Broken
      else NamedAt(strings, r, s) == Intact && forall k: nat | k < r :: NamedAt(strings, k, s) == Broken
  {
    forall k: nat | PlaceFrom(strings, s, 0) < 0 || k < PlaceFrom(strings, s, 0) ensures NamedAt(strings, k, s) == Broken {
      if NamedAt(strings, k, s) == Intact {
        PlaceIsFirst(strings, s, 0, k);
      }
    }
  }

  /** memcmp(p, s, len) == 0 */
  method Memcmp(a: array<Byte>, at: nat, s: seq<Byte>) returns (same: bool)
    requires at + |s| <= a.Length
    ensures same <==> a[at..at + |s|] == s
  {
    var k := 0;
    while k < |s|
      invariant k <= |s| && forall m | 0 <= m < k :: a[at + m] == s[m]
    {
      if a[at + k] != s[k] {
        assert a[at..at + |s|][k] != s[k];
        return false;
      }
      k := k + 1;
    }
    return true;
  }

  method FindString(a: array<Byte>, strtab: nat, tabsize: nat, s: seq<Byte>) returns (r: int)
    requires strtab + tabsize <= a.Length && NoNul(s)
    ensures r == PlaceFrom(a[..][strtab..strtab + tabsize], s, 0)
  {
    hide StringAt;
    ghost var strings := a[..][strtab..strtab + tabsize];
    var len := |s| + 1;
    var p: nat := 0;
    while p + len <= tabsize
      invariant PlaceFrom(strings, s, 0) == PlaceFrom(strings, s, p)
    {
      StringBytes(strings, p, s);
      SliceSlice(a[..], strtab, strtab + tabsize, p, p + len);
      assert a[..][strtab + p..strtab + p + len] == a[strtab + p..strtab + p + len];
      var same := Memcmp(a, strtab + p, s + [0]);
      if same {
        return p;
      }
      p := p + 1;
    }
    return -1;
  }

  lemma {:induction false} StringBytes(strings: seq<Byte>, i: nat, s: seq<Byte>)
    requires NoNul(s) && i + |s| + 1 <= |strings|
    ensures StringAt(strings, i, s) <==> strings[i..i + |s| + 1] == s + [0]
  {
    var c, d := strings[i..i + |s| + 1], s + [0];
    assert c == strings[i..i + |s|] + [strings[i + |s|]];
    if c == d {
      assert c[..|s|] == d[..|s|] && c[|s|] == d[|s|];
    }
  }
}
