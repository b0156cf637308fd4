/** The flattened device tree format: the structure block as a run of items, each aligned
    to four bytes, with property names held in a separate strings block. */
module FdtFormat {
  import opened Bits
  import opened Common

  const TAGSIZE: nat := 4
  const FDT_BEGIN_NODE: nat := 1
  const FDT_END_NODE: nat := 2
  const FDT_PROP: nat := 3
  const FDT_NOP: nat := 4
  const FDT_END: nat := 9

  const NOTFOUND: int := -1
  const EXISTS: int := -2
  const NOSPACE: int := -3
  const BADOFFSET: int := -4
  const BADSTATE: int := -7
  const TRUNCATED: int := -8
  const BADMAGIC: int := -9
  const BADSTRUCTURE: int := -11
  const BADFLAGS: int := -18

  const U32: nat := 0x1_0000_0000
  const INT_MAX: nat := 0x7FFF_FFFF

  /** FDT_TAGALIGN */
  function Align4(n: nat): (r: nat)
    ensures n <= r < n + 4 && r % 4 == 0
  {
    (n + 3) / 4 * 4
  }

  lemma {:induction false} AlignShift(m: nat, n: nat)
    requires m % 4 == 0
    ensures Align4(m + n) == m + Align4(n)
  {
  }

  // ---- big-endian words ----

  function Word(s: seq<Byte>, at: nat): (w: nat)
    requires at + 4 <= |s|
    ensures w < U32
  {
    var b0: nat, b1: nat, b2: nat, b3: nat := s[at], s[at + 1], s[at + 2], s[at + 3];
    b0 * 0x100_0000 + b1 * 0x1_0000 + b2 * 0x100 + b3
  }

  function WordBytes(w: nat): (s: seq<Byte>)
    requires w < U32
    ensures |s| == 4
  {
    [w / 0x100_0000, w / 0x1_0000 % 0x100, w / 0x100 % 0x100, w % 0x100]
  }

  lemma {:induction false} WordRoundTrip(w: nat)
    requires w < U32
    ensures Word(WordBytes(w), 0) == w
  {
    var a, b := w / 0x1_0000, w % 0x1_0000;
    assert w == a * 0x1_0000 + b;
    assert w / 0x100_0000 == a / 0x100 && w / 0x100 % 0x100 == b / 0x100 && w % 0x100 == b % 0x100;
    assert a == a / 0x100 * 0x100 + a % 0x100 && b == b / 0x100 * 0x100 + b % 0x100;
  }

  lemma {:induction false} WordAt(s: seq<Byte>, t: seq<Byte>, at: nat, shift: nat)
    requires at + 4 <= |s| && shift + |s| <= |t| && t[shift..shift + |s|] == s
    ensures Word(t, shift + at) == Word(s, at)
  {
    var u := t[shift..shift + |s|];
    assert u[at] == t[shift + at] && u[at + 1] == t[shift + at + 1];
    assert u[at + 2] == t[shift + at + 2] && u[at + 3] == t[shift + at + 3];
  }

  // ---- items ----

  datatype Item =
    | BeginNode(name: seq<Byte>)
    | EndNode
    | Property(key: seq<Byte>, data: seq<Byte>)
    | Nop
    | End

  function Size(it: Item): (n: nat)
    ensures n >= 4
  {
    match it
    case BeginNode(name) => 4 + Align4(|name| + 1)
    case Property(_, data) => 12 + Align4(|data|)
    case _ => 4
  }

  function Tag(it: Item): (t: nat)
    ensures t < U32
  {
    match it
    case BeginNode(_) => FDT_BEGIN_NODE
    case EndNode => FDT_END_NODE
    case Property(_, _) => FDT_PROP
    case Nop => FDT_NOP
    case End => FDT_END
  }

  /** A C string: no byte of it is zero. */
  predicate NoNul(s: seq<Byte>) {
    forall k | 0 <= k < |s| :: s[k] != 0
  }

  /** The NUL-terminated string `name` stands at index i of the strings block. */
  predicate StringAt(strings: seq<Byte>, i: int, name: seq<Byte>) {
    && 0 <= i && i + |name| < |strings| && strings[i..i + |name|] == name
    && strings[i + |name|] == 0 && NoNul(name)
  }

  /** Index of the first NUL from `i` on; |s| if there is none. */
  function NulFrom(s: seq<Byte>, i: nat): (r: nat)
    requires i <= |s|
    ensures i <= r <= |s| && (forall k | i <= k < r :: s[k] != 0) && (r < |s| ==> s[r] == 0)
    decreases |s| - i
  {
    if i == |s| || s[i] == 0 then i else NulFrom(s, i + 1)
  }

  lemma {:induction false} StringEnd(strings: seq<Byte>, i: nat, name: seq<Byte>)
    requires StringAt(strings, i, name)
    ensures NulFrom(strings, i) == i + |name|
  {
    forall k | i <= k < i + |name| ensures strings[k] != 0 {
      assert strings[k] == strings[i..i + |name|][k - i];
    }
  }

  lemma {:induction false} StringAtUnique(strings: seq<Byte>, i: int, s: seq<Byte>, t: seq<Byte>)
    requires StringAt(strings, i, s) && StringAt(strings, i, t)
    ensures s == t
  {
    StringEnd(strings, i, s);
    StringEnd(strings, i, t);
  }

  lemma {:induction false} StringMoved(s: seq<Byte>, t: seq<Byte>, i: nat, shift: nat, name: seq<Byte>)
    requires StringAt(s, i, name) && shift + |s| <= |t| && t[shift..shift + |s|] == s
    ensures StringAt(t, shift + i, name)
  {
    assert t[shift + i + |name|] == t[shift..shift + |s|][i + |name|];
    forall k | 0 <= k < |name| ensures t[shift + i..shift + i + |name|][k] == name[k] {
      assert t[shift..shift + |s|][i + k] == t[shift + i + k];
    }
    assert t[shift + i..shift + i + |name|] == s[i..i + |name|];
  }

  /** A name offset is relative to `bias`, with 32-bit wrap-around: the end of the strings
      block while the tree is being written, its start afterwards. */
  function Unbias(w: nat, bias: nat): int
  {
    if w + bias >= U32 then w + bias - U32 else w + bias
  }

  /** The bytes `b` encode one item.  Padding bytes may be anything. */
  predicate ItemBytes(b: seq<Byte>, it: Item, strings: seq<Byte>, bias: nat) {
    && |b| == Size(it) && Word(b, 0) == Tag(it)
    && match it
       case BeginNode(name) => StringAt(b, 4, name)
       case Property(key, data) =>
         Word(b, 4) == |data| && StringAt(strings, Unbias(Word(b, 8), bias), key) && b[12..12 + |data|] == data
       case _ => true
  }

  /** The same as a value, which proofs carry around without looking into it. */
  function ItemState(b: seq<Byte>, it: Item, strings: seq<Byte>, bias: nat): Condition {
    if ItemBytes(b, it, strings, bias) then Intact else Broken
  }

  function SizeOf(items: seq<Item>): (n: nat)
    ensures items != [] ==> n > 0
  {
    if items == [] then 0 else Size(items[0]) + SizeOf(items[1..])
  }

  lemma {:induction false} SizeOfAligned(items: seq<Item>)
    ensures SizeOf(items) % 4 == 0 && SizeOf(items) >= 4 * |items|
  {
    if items != [] {
      SizeOfAligned(items[1..]);
    }
  }

  type Rule = (seq<Byte>, Item) -> bool

  /** The bytes `b` are pieces for `items`, each obeying the rule: `Encodes` by recursion. */
  predicate Chain(b: seq<Byte>, items: seq<Item>, ok: Rule) {
    if items == [] then b == []
    else
      && Size(items[0]) <= |b| && ok(b[..Size(items[0])], items[0])
      && Chain(b[Size(items[0])..], items[1..], ok)
  }

  function Reading(strings: seq<Byte>, bias: nat): Rule {
    (b, it) => ItemBytes(b, it, strings, bias)
  }

  /** The k-th item stands where the sizes of the items before it put it. */
  predicate Stands(b: seq<Byte>, items: seq<Item>, k: nat, strings: seq<Byte>, bias: nat) {
    && k < |items| && SizeOf(items[..k]) <= SizeOf(items[..k + 1]) <= |b|
    && ItemState(b[SizeOf(items[..k])..SizeOf(items[..k + 1])], items[k], strings, bias) == Intact
  }

  /** The bytes `b` are the encodings of `items`, one after the other. */
  ghost predicate Encodes(b: seq<Byte>, items: seq<Item>, strings: seq<Byte>, bias: nat) {
    |b| == SizeOf(items) && forall k: nat | k < |items| :: Stands(b, items, k, strings, bias)
  }

  lemma {:induction false} SizeOfAppend(x: seq<Item>, y: seq<Item>)
    ensures SizeOf(x + y) == SizeOf(x) + SizeOf(y)
  {
    if x == [] {
      assert x + y == y;
    } else {
      assert (x + y)[1..] == x[1..] + y;
      SizeOfAppend(x[1..], y);
    }
  }

  lemma {:induction false} SizeOfOne(it: Item)
    ensures SizeOf([it]) == Size(it)
  {
  }

  lemma {:induction false} ChainSize(b: seq<Byte>, items: seq<Item>, ok: Rule)
    requires Chain(b, items, ok)
    ensures |b| == SizeOf(items)
  {
    if items != [] {
      ChainSize(b[Size(items[0])..], items[1..], ok);
    }
  }

  lemma {:induction false} ChainCons(b: seq<Byte>, it: Item, items: seq<Item>, ok: Rule)
    ensures Chain(b, [it] + items, ok) <==>
      Size(it) <= |b| && ok(b[..Size(it)], it) && Chain(b[Size(it)..], items, ok)
  {
    assert ([it] + items)[1..] == items;
  }

  lemma {:induction false} TakeDropAppend<T>(a: seq<T>, b: seq<T>, n: nat)
    requires n <= |a|
    ensures (a + b)[..n] == a[..n] && (a + b)[n..] == a[n..] + b
  {
  }

  lemma {:induction false} TakeDrop<T>(b: seq<T>, n: nat, m: nat)
    requires n + m <= |b|
    ensures b[..n + m][..n] == b[..n] && b[..n + m][n..] == b[n..][..m] == b[n..n + m] && b[n + m..] == b[n..][m..]
  {
  }

  lemma {:induction false} ChainAppend(a: seq<Byte>, b: seq<Byte>, x: seq<Item>, y: seq<Item>, ok: Rule)
    requires Chain(a, x, ok) && Chain(b, y, ok)
    ensures Chain(a + b, x + y, ok)
  {
    if x == [] {
      assert a + b == b && x + y == y;
    } else {
      var it, rest := x[0], x[1..];
      assert x == [it] + rest && x + y == [it] + (rest + y);
      ChainCons(a, it, rest, ok);
      ChainAppend(a[Size(it)..], b, rest, y, ok);
      TakeDropAppend(a, b, Size(it));
      ChainCons(a + b, it, rest + y, ok);
    }
  }

  lemma {:induction false} ChainSplit(b: seq<Byte>, x: seq<Item>, y: seq<Item>, ok: Rule)
    requires Chain(b, x + y, ok)
    ensures SizeOf(x) <= |b|
    ensures Chain(b[..SizeOf(x)], x, ok) && Chain(b[SizeOf(x)..], y, ok)
  {
    if x == [] {
      assert x + y == y && b[SizeOf(x)..] == b;
    } else {
      var it, rest := x[0], x[1..];
      assert x == [it] + rest && x + y == [it] + (rest + y);
      ChainCons(b, it, rest + y, ok);
      ChainSplit(b[Size(it)..], rest, y, ok);
      TakeDrop(b, Size(it), SizeOf(rest));
      ChainCons(b[..SizeOf(x)], it, rest, ok);
    }
  }

  lemma {:induction false} ChainSplit3(b: seq<Byte>, x: seq<Item>, y: seq<Item>, z: seq<Item>, n: nat, m: nat, ok: Rule)
    requires Chain(b, x + y + z, ok) && n == SizeOf(x) && m == SizeOf(y)
    ensures n + m <= |b|
    ensures Chain(b[..n], x, ok) && Chain(b[n..n + m], y, ok) && Chain(b[n + m..], z, ok)
  {
    var yz := y + z;
    assert x + y + z == x + yz;
    ChainSplit(b, x, yz, ok);
    var c := b[n..];
    ChainSplit(c, y, z, ok);
    DropSlices(b, n, m);
  }

  lemma {:induction false} DropSlices<T>(b: seq<T>, n: nat, m: nat)
    requires n + m <= |b|
    ensures b[n..][..m] == b[n..n + m] && b[n..][m..] == b[n + m..]
  {
  }

  lemma {:induction false} ChainOne(b: seq<Byte>, it: Item, ok: Rule)
    ensures Chain(b, [it], ok) <==> |b| == Size(it) && ok(b, it)
  {
    assert [it] == [it] + [];
    ChainCons(b, it, [], ok);
    if |b| == Size(it) {
      assert b[..Size(it)] == b;
    }
  }

  /** The k-th item and the bytes that encode it. */
  lemma {:induction false} ChainAt(b: seq<Byte>, items: seq<Item>, k: nat, ok: Rule)
    requires Chain(b, items, ok) && k < |items|
    ensures SizeOf(items[..k]) + Size(items[k]) == SizeOf(items[..k + 1]) <= |b|
    ensures ok(b[SizeOf(items[..k])..SizeOf(items[..k + 1])], items[k])
  {
    hide Chain, Size;
    var x, z, n := items[..k], items[k..], SizeOf(items[..k]);
    assert items == x + z && items[..k + 1] == x + [items[k]];
    SizeOfAppend(x, [items[k]]);
    SizeOfOne(items[k]);
    ChainSplit(b, x, z, ok);
    TakeFirst(b, n, Size(z[0]));
  }

  lemma {:induction false} TakeFirst<T>(b: seq<T>, n: nat, m: nat)
    requires n <= |b| && m <= |b[n..]|
    ensures n + m <= |b| && b[n..][..m] == b[n..n + m]
  {
  }

  // ---- the two views of a run of items ----

  lemma {:induction false} ToEncodes(b: seq<Byte>, items: seq<Item>, strings: seq<Byte>, bias: nat)
    requires Chain(b, items, Reading(strings, bias))
    ensures Encodes(b, items, strings, bias)
  {
    var ok := Reading(strings, bias);
    ChainSize(b, items, ok);
    forall k: nat | k < |items| ensures Stands(b, items, k, strings, bias) {
      ChainAt(b, items, k, ok);
    }
  }

  lemma {:induction false} ToChain(b: seq<Byte>, items: seq<Item>, strings: seq<Byte>, bias: nat)
    requires Encodes(b, items, strings, bias)
    ensures Chain(b, items, Reading(strings, bias))
  {
    if items != [] {
      var n, rest := Size(items[0]), items[1..];
      assert Stands(b, items, 0, strings, bias);
      SizeOfShift(items, 0);
      assert items[..0] == [] && rest[..0] == [];
      forall k: nat | k < |rest| ensures Stands(b[n..], rest, k, strings, bias) {
        StandsShift(b, items, k, strings, bias);
      }
      ToChain(b[n..], rest, strings, bias);
    }
  }

  lemma {:induction false} StandsShift(b: seq<Byte>, items: seq<Item>, k: nat, strings: seq<Byte>, bias: nat)
    requires items != [] && Size(items[0]) <= |b| && k < |items[1..]| && Stands(b, items, k + 1, strings, bias)
    ensures Stands(b[Size(items[0])..], items[1..], k, strings, bias)
  {
    hide ItemState, Size, SizeOf;
    SizeOfShift(items, k);
    SizeOfShift(items, k + 1);
    DropSlice(b, Size(items[0]), SizeOf(items[1..][..k]), SizeOf(items[1..][..k + 1]));
  }

  lemma {:induction false} SizeOfShift(items: seq<Item>, k: nat)
    requires k < |items|
    ensures SizeOf(items[..k + 1]) == Size(items[0]) + SizeOf(items[1..][..k])
  {
    assert items[..k + 1][1..] == items[1..][..k];
  }

  lemma {:induction false} DropSlice<T>(b: seq<T>, n: nat, i: nat, j: nat)
    requires n <= |b| && i <= j <= |b| - n
    ensures b[n..][i..j] == b[n + i..n + j]
  {
  }

  lemma {:induction false} EncodesAppend(a: seq<Byte>, b: seq<Byte>, x: seq<Item>, y: seq<Item>, strings: seq<Byte>, bias: nat)
    requires Encodes(a, x, strings, bias) && Encodes(b, y, strings, bias)
    ensures Encodes(a + b, x + y, strings, bias)
  {
    ToChain(a, x, strings, bias);
    ToChain(b, y, strings, bias);
    ChainAppend(a, b, x, y, Reading(strings, bias));
    ToEncodes(a + b, x + y, strings, bias);
  }

  lemma {:induction false} EncodesOne(b: seq<Byte>, it: Item, strings: seq<Byte>, bias: nat)
    requires ItemBytes(b, it, strings, bias)
    ensures Encodes(b, [it], strings, bias)
  {
    ChainOne(b, it, Reading(strings, bias));
    ToEncodes(b, [it], strings, bias);
  }

  lemma {:induction false} OneEncoded(b: seq<Byte>, it: Item, strings: seq<Byte>, bias: nat)
    requires Encodes(b, [it], strings, bias)
    ensures |b| == Size(it) && ItemState(b, it, strings, bias) == Intact
  {
    SizeOfOne(it);
    assert Stands(b, [it], 0, strings, bias);
    assert [it][..1] == [it] && [it][..0] == [] && b[0..Size(it)] == b;
  }

  lemma {:induction false} EncodesSplit3(b: seq<Byte>, x: seq<Item>, y: seq<Item>, z: seq<Item>, n: nat, m: nat, strings: seq<Byte>, bias: nat)
    requires Encodes(b, x + y + z, strings, bias) && n == SizeOf(x) && m == SizeOf(y)
    ensures n + m <= |b|
    ensures Encodes(b[..n], x, strings, bias) && Encodes(b[n..n + m], y, strings, bias) && Encodes(b[n + m..], z, strings, bias)
  {
    ToChain(b, x + y + z, strings, bias);
    ChainSplit3(b, x, y, z, n, m, Reading(strings, bias));
    ToEncodes(b[..n], x, strings, bias);
    ToEncodes(b[n..n + m], y, strings, bias);
    ToEncodes(b[n + m..], z, strings, bias);
  }

  /** Replacing a run of items replaces the bytes that encode it and no others. */
  lemma {:induction false} EncodesSplice(b: seq<Byte>, c: seq<Byte>, x: seq<Item>, y: seq<Item>, y': seq<Item>, z: seq<Item>, n: nat, m: nat, strings: seq<Byte>, bias: nat)
    requires Encodes(b, x + y + z, strings, bias) && Encodes(c, y', strings, bias) && n == SizeOf(x) && m == SizeOf(y)
    ensures n + m <= |b|
    ensures Encodes(b[..n] + c + b[n + m..], x + y' + z, strings, bias)
  {
    EncodesSplit3(b, x, y, z, n, m, strings, bias);
    EncodesAppend(b[..n], c, x, y', strings, bias);
    EncodesAppend(b[..n] + c, b[n + m..], x + y', z, strings, bias);
  }

  /** Items keep their meaning when the strings block changes, as long as every string it
      held can still be found at the same distance from the bias. */
  ghost predicate StringsKept(s: seq<Byte>, bias: nat, s': seq<Byte>, bias': nat) {
    forall w, name | 0 <= w < U32 && StringAt(s, Unbias(w, bias), name) :: StringAt(s', Unbias(w, bias'), name)
  }

  lemma {:induction false} EncodesKept(b: seq<Byte>, items: seq<Item>, s: seq<Byte>, bias: nat, s': seq<Byte>, bias': nat)
    requires Encodes(b, items, s, bias) && StringsKept(s, bias, s', bias')
    ensures Encodes(b, items, s', bias')
  {
    forall k: nat | k < |items| ensures Stands(b, items, k, s', bias') {
      assert Stands(b, items, k, s, bias);
    }
  }

  /** A string added in front of the block, with offsets counted from its end. */
  lemma {:induction false} PrependKeeps(s: seq<Byte>, more: seq<Byte>)
    requires |s| + |more| < U32
    ensures StringsKept(s, |s|, more + s, |more| + |s|)
  {
    var s', n := more + s, |more|;
    forall w, name | 0 <= w < U32 && StringAt(s, Unbias(w, |s|), name)
      ensures StringAt(s', Unbias(w, n + |s|), name)
    {
      var i := Unbias(w, |s|);
      assert s'[n + i..n + i + |name|] == s[i..i + |name|];
    }
  }

  /** A string added at the end of the block, with offsets counted from its start. */
  lemma {:induction false} AppendKeeps(s: seq<Byte>, more: seq<Byte>)
    ensures StringsKept(s, 0, s + more, 0)
  {
    forall w, name | 0 <= w < U32 && StringAt(s, Unbias(w, 0), name)
      ensures StringAt(s + more, Unbias(w, 0), name)
    {
      assert (s + more)[w..w + |name|] == s[w..w + |name|];
    }
  }

  /** Two item runs with the same bytes and the same strings are the same run, except for
      property names that no one reads: the encoding loses nothing. */
  lemma {:induction false} EncodesInjective(b: seq<Byte>, x: seq<Item>, y: seq<Item>, strings: seq<Byte>, bias: nat)
    requires Encodes(b, x, strings, bias) && Encodes(b, y, strings, bias)
    ensures x == y
  {
    ToChain(b, x, strings, bias);
    ToChain(b, y, strings, bias);
    ChainInjective(b, x, y, strings, bias);
  }

  lemma {:induction false} ChainInjective(b: seq<Byte>, x: seq<Item>, y: seq<Item>, strings: seq<Byte>, bias: nat)
    requires Chain(b, x, Reading(strings, bias)) && Chain(b, y, Reading(strings, bias))
    ensures x == y
  {
    if x != [] && y != [] {
      ItemInjective(b, x[0], y[0], strings, bias);
      ChainInjective(b[Size(x[0])..], x[1..], y[1..], strings, bias);
      assert x == [x[0]] + x[1..] && y == [y[0]] + y[1..];
    }
  }

  lemma {:induction false} ItemInjective(b: seq<Byte>, x: Item, y: Item, strings: seq<Byte>, bias: nat)
    requires Size(x) <= |b| && ItemBytes(b[..Size(x)], x, strings, bias)
    requires Size(y) <= |b| && ItemBytes(b[..Size(y)], y, strings, bias)
    ensures x == y
  {
    WordAt(b[..Size(x)], b, 0, 0);
    WordAt(b[..Size(y)], b, 0, 0);
    match x {
      case BeginNode(name) =>
        StringMoved(b[..Size(x)], b, 4, 0, name);
        StringMoved(b[..Size(y)], b, 4, 0, y.name);
        StringAtUnique(b, 4, name, y.name);
      case Property(key, data) =>
        WordAt(b[..Size(x)], b, 4, 0);
        WordAt(b[..Size(y)], b, 4, 0);
        WordAt(b[..Size(x)], b, 8, 0);
        WordAt(b[..Size(y)], b, 8, 0);
        StringAtUnique(strings, Unbias(Word(b, 8), bias), key, y.key);
        assert b[..Size(x)][12..12 + |data|] == b[12..12 + |data|];
      case _ =>
    }
  }

  // ---- fdt_next_tag ----

  /** fdt_offset_ptr for a version 17 tree, in 32-bit unsigned arithmetic. */
  predicate OffsetPtrOk(offset: int, len: nat, off_dt_struct: nat, size_dt_struct: nat, totalsize: nat)
    requires -0x8000_0000 <= offset <= INT_MAX && len < U32
  {
    var uoffset := offset % U32;
    var absoffset := (uoffset + off_dt_struct) % U32;
    && offset >= 0
    && !(absoffset < uoffset || (absoffset + len) % U32 < absoffset || (absoffset + len) % U32 > totalsize)
    && !((uoffset + len) % U32 < uoffset || (offset + len) % U32 > size_dt_struct)
  }

  /** For a tree whose structure block lies within it, that is the plain bounds test. */
  lemma {:induction false} OffsetPtrInBounds(offset: int, len: nat, off_dt_struct: nat, size_dt_struct: nat, totalsize: nat)
    requires -0x8000_0000 <= offset <= INT_MAX && len < U32
    requires off_dt_struct + size_dt_struct <= totalsize <= INT_MAX
    ensures OffsetPtrOk(offset, len, off_dt_struct, size_dt_struct, totalsize) <==> InBounds(size_dt_struct, offset, len)
  {
  }

  /** The int that has the low 32 bits of n. */
  function Int32(n: int): (r: int)
    ensures -0x8000_0000 <= r <= INT_MAX
  {
    var m := n % U32;
    if m <= INT_MAX then m else m - U32
  }

  predicate InBounds(size: nat, offset: int, len: nat) {
    0 <= offset && offset + len <= size
  }

  /** How many bytes the item at `start` claims to have, before padding; -1 if it is not an
      item.  The length word of a property is added in 32-bit arithmetic. */
  function Extent(s: seq<Byte>, start: nat): (n: int)
    requires start + TAGSIZE <= |s|
    ensures n < U32 || n <= |s|
  {
    var tag := Word(s, start);
    if tag == FDT_BEGIN_NODE then
      var e := NulFrom(s, start + 4);
      if e == |s| then -1 else e + 1 - start
    else if tag == FDT_PROP then
      if !InBounds(|s|, start + 4, 4) then -1 else (12 + Word(s, start + 4)) % U32
    else if tag == FDT_END || tag == FDT_END_NODE || tag == FDT_NOP then 4
    else -1
  }

  /** fdt_next_tag on the structure block `s`: the tag at `start`, and where the next one
      starts or an error. */
  function NextTag(s: seq<Byte>, start: int): (r: (nat, int)) {
    if !InBounds(|s|, start, TAGSIZE) then (FDT_END, TRUNCATED)
    else
      var n := Extent(s, start);
      if n < 0 || !InBounds(|s|, start, n) then (FDT_END, BADSTRUCTURE)
      else (Word(s, start), Int32(Align4(start + n)))
  }

  /** On any structure block, well-formed or not, a successful fdt_next_tag moves forward,
      except over a property whose length word makes the 32-bit sum come back to zero. */
  lemma {:induction false} NextTagProgress(s: seq<Byte>, start: nat)
    requires |s| <= INT_MAX && start % 4 == 0 && NextTag(s, start).1 >= 0
    ensures NextTag(s, start).1 <= start <==>
      NextTag(s, start).0 == FDT_PROP && Word(s, start + 4) == 0xFFFF_FFF4
    ensures NextTag(s, start).1 >= start && NextTag(s, start).1 % 4 == 0 && NextTag(s, start).1 <= Align4(|s|)
  {
    hide Word, Align4;
    var (tag, next) := NextTag(s, start);
    if tag == FDT_PROP {
      PropProgress(start, Word(s, start + 4), |s|);
    } else {
      AlignBetween(start, Extent(s, start), |s|);
    }
  }

  lemma {:induction false} AlignBetween(start: nat, n: nat, size: nat)
    requires start % 4 == 0 && 0 < n && start + n <= size
    ensures start < Align4(start + n) <= Align4(size)
  {
  }

  lemma {:induction false} PropProgress(start: nat, len: nat, size: nat)
    requires start % 4 == 0 && len < U32 && start + (12 + len) % U32 <= size
    ensures var next := Align4(start + (12 + len) % U32);
      start <= next <= Align4(size) && (next == start <==> len == 0xFFFF_FFF4)
  {
    assert (12 + len) % U32 == if len < 0xFFFF_FFF4 then 12 + len else len - 0xFFFF_FFF4;
  }

  /** A block of twelve bytes on which fdt_next_tag stays where it is. */
  lemma {:induction false} NextTagExample()
    ensures NextTag([0, 0, 0, 3, 255, 255, 255, 244, 0, 0, 0, 0], 0) == (FDT_PROP, 0)
  {
    var s: seq<Byte> := [0, 0, 0, 3, 255, 255, 255, 244, 0, 0, 0, 0];
    assert Word(s, 0) == FDT_PROP && Word(s, 4) == 0xFFFF_FFF4;
    assert (12 + 0xFFFF_FFF4) % U32 == 0;
    assert InBounds(|s|, 0, 4) && InBounds(|s|, 4, 4) && InBounds(|s|, 0, 0);
  }

  /** In a block that encodes items, fdt_next_tag steps from each item to the next. */
  lemma {:induction false} NextTagItem(s: seq<Byte>, items: seq<Item>, k: nat, strings: seq<Byte>, bias: nat)
    requires |s| <= INT_MAX && Encodes(s, items, strings, bias) && k < |items|
    ensures NextTag(s, SizeOf(items[..k])) == (Tag(items[k]), SizeOf(items[..k + 1]))
  {
    assert Stands(s, items, k, strings, bias);
    assert items[..k + 1] == items[..k] + [items[k]];
    SizeOfAppend(items[..k], [items[k]]);
    SizeOfOne(items[k]);
    SizeOfAligned(items[..k]);
    NextTagOf(s, SizeOf(items[..k]), items[k], strings, bias);
  }

  lemma {:induction false} NextTagOf(s: seq<Byte>, start: nat, it: Item, strings: seq<Byte>, bias: nat)
    requires |s| <= INT_MAX && start % 4 == 0 && start + Size(it) <= |s|
    requires ItemBytes(s[start..start + Size(it)], it, strings, bias)
    ensures NextTag(s, start) == (Tag(it), start + Size(it))
  {
    hide Word, StringAt, NextTag;
    var b := s[start..start + Size(it)];
    WordAt(b, s, 0, start);
    if it.BeginNode? {
      StringMoved(b, s, 4, start, it.name);
      NextTagBegin(s, start, it.name);
    } else if it.Property? {
      WordAt(b, s, 4, start);
      NextTagProp(s, start, |it.data|);
    } else {
      NextTagPlain(s, start);
    }
  }

  lemma {:induction false} NextTagPlain(s: seq<Byte>, start: nat)
    requires start % 4 == 0 && start + 4 <= |s| <= INT_MAX
    requires Word(s, start) == FDT_END_NODE || Word(s, start) == FDT_NOP || Word(s, start) == FDT_END
    ensures NextTag(s, start) == (Word(s, start), start + 4)
  {
    hide Word;
  }

  lemma {:induction false} NextTagBegin(s: seq<Byte>, start: nat, name: seq<Byte>)
    requires start % 4 == 0 && start + 4 + Align4(|name| + 1) <= |s| <= INT_MAX
    requires Word(s, start) == FDT_BEGIN_NODE && StringAt(s, start + 4, name)
    ensures NextTag(s, start) == (FDT_BEGIN_NODE, start + 4 + Align4(|name| + 1))
  {
    StringEnd(s, start + 4, name);
    AlignShift(start + 4, |name| + 1);
  }

  lemma {:induction false} NextTagProp(s: seq<Byte>, start: nat, len: nat)
    requires start % 4 == 0 && start + 12 + Align4(len) <= |s| <= INT_MAX
    requires Word(s, start) == FDT_PROP && Word(s, start + 4) == len
    ensures NextTag(s, start) == (FDT_PROP, start + 12 + Align4(len))
  {
    hide Word;
    AlignShift(start + 12, len);
  }

  lemma {:induction false} NextTagPastEnd(s: seq<Byte>, items: seq<Item>, strings: seq<Byte>, bias: nat)
    requires Encodes(s, items, strings, bias)
    ensures NextTag(s, SizeOf(items)) == (FDT_END, TRUNCATED)
  {
  }
}
