/** Device trees byte by byte: what the structure block and the reserve map look like in memory,
    with the numbers of the Devicetree Specification written out. */
module FdtBytes {
  import opened Bits
  import opened Common
  import opened FdtFormat
  import opened FdtTree
  import opened FdtBlob

  /** The numbers that fdt.h and libfdt.h give to tokens and errors. */
  lemma {:induction false} Numbers()
    ensures [FDT_BEGIN_NODE, FDT_END_NODE, FDT_PROP, FDT_NOP, FDT_END] == [1, 2, 3, 4, 9]
    ensures [NOTFOUND, EXISTS, NOSPACE, BADOFFSET, BADSTATE] == [-1, -2, -3, -4, -7]
    ensures [TRUNCATED, BADMAGIC, BADSTRUCTURE, BADFLAGS] == [-8, -9, -11, -18]
    ensures [FDT_MAGIC, HDRSIZE, NO_NAME_DEDUP] == [0xd00d_feed, 40, 1]
  {
  }

  // ---- words ----

  lemma {:induction false} WordOf(s: seq<Byte>, at: nat, a: Byte, b: Byte, c: Byte, d: Byte)
    requires at + 4 <= |s|
    ensures s[at..at + 4] == [a, b, c, d] <==> Word(s, at) == a * 0x100_0000 + b * 0x1_0000 + c * 0x100 + d
  {
    var t := s[at..at + 4];
    assert t == [s[at], s[at + 1], s[at + 2], s[at + 3]];
    Digits(s[at], s[at + 1], s[at + 2], s[at + 3], a, b, c, d);
  }

  lemma {:induction false} Digits(p: Byte, q: Byte, r: Byte, s: Byte, a: Byte, b: Byte, c: Byte, d: Byte)
    ensures p * 0x100_0000 + q * 0x1_0000 + r * 0x100 + s == a * 0x100_0000 + b * 0x1_0000 + c * 0x100 + d
      ==> p == a && q == b && r == c && s == d
  {
  }

  // ---- fdt_next_tag ----

  /** The tokens without contents: end of a node, nothing, and end of the block. */
  lemma {:induction false} PlainToken(s: seq<Byte>, start: nat)
    requires start % 4 == 0 && start + 4 <= |s| <= INT_MAX
    ensures s[start..start + 4] == [0, 0, 0, 2] ==> NextTag(s, start) == (2, start + 4)
    ensures s[start..start + 4] == [0, 0, 0, 4] ==> NextTag(s, start) == (4, start + 4)
    ensures s[start..start + 4] == [0, 0, 0, 9] ==> NextTag(s, start) == (9, start + 4)
  {
    hide Word, NextTag;
    WordOf(s, start, 0, 0, 0, 2);
    WordOf(s, start, 0, 0, 0, 4);
    WordOf(s, start, 0, 0, 0, 9);
    if Word(s, start) == 2 || Word(s, start) == 4 || Word(s, start) == 9 {
      NextTagPlain(s, start);
    }
  }

  /** The begin of a node, its name and a NUL, padded to a multiple of four. */
  lemma {:induction false} BeginToken(s: seq<Byte>, start: nat, name: seq<Byte>)
    requires start % 4 == 0 && start + 5 + |name| <= |s| <= 0x7FFF_FFFC && NoNul(name)
    requires s[start..start + 5 + |name|] == [0, 0, 0, 1] + name + [0]
    ensures NextTag(s, start).0 == 1 && NextTag(s, start).1 % 4 == 0
    ensures start + 5 + |name| <= NextTag(s, start).1 <= start + 5 + |name| + 3
  {
    hide Word, NextTag;
    var t, c := s[start..start + 5 + |name|], [0, 0, 0, 1] + name + [0];
    SliceSlice(s, start, start + 5 + |name|, 0, 4);
    SliceSlice(s, start, start + 5 + |name|, 4, 4 + |name|);
    assert c[0..4] == [0, 0, 0, 1] && c[4..4 + |name|] == name;
    assert s[start + 4 + |name|] == t[4 + |name|] && c[4 + |name|] == 0;
    WordOf(s, start, 0, 0, 0, 1);
    StringEnd(s, start + 4, name);
    BeginOfName(s, start, |name|);
  }

  lemma {:induction false} BeginOfName(s: seq<Byte>, start: nat, n: nat)
    requires start % 4 == 0 && start + 5 + n <= |s| <= 0x7FFF_FFFC && Word(s, start) == 1 && NulFrom(s, start + 4) == start + 4 + n
    ensures NextTag(s, start).0 == 1 && NextTag(s, start).1 % 4 == 0 && start + 5 + n <= NextTag(s, start).1 <= start + 5 + n + 3
  {
    hide Word, NulFrom;
  }

  /** A name that does not end is an error. */
  lemma {:induction false} EndlessName(s: seq<Byte>, start: nat)
    requires start % 4 == 0 && start + 4 <= |s| <= INT_MAX && s[start..start + 4] == [0, 0, 0, 1] && 0 !in s[start + 4..]
    ensures NextTag(s, start) == (9, -11)
  {
    hide Word;
    WordOf(s, start, 0, 0, 0, 1);
    forall i | start + 4 <= i < |s| ensures s[i] != 0 {
      assert s[start + 4..][i - start - 4] == s[i];
    }
  }

  /** A property: its length, the place of its name and its bytes, padded to a multiple of four;
      one that does not lie within the block is an error, if its size does not wrap around. */
  lemma {:induction false} PropToken(s: seq<Byte>, start: nat, a: Byte, b: Byte, c: Byte, d: Byte)
    requires start % 4 == 0 && start + 8 <= |s| <= 0x7FFF_FFFC
    requires s[start..start + 8] == [0, 0, 0, 3, a, b, c, d]
    ensures var len := a * 0x100_0000 + b * 0x1_0000 + c * 0x100 + d;
      && (start + 12 + len <= |s| ==>
        NextTag(s, start).0 == 3 && NextTag(s, start).1 % 4 == 0 && start + 12 + len <= NextTag(s, start).1 <= start + 12 + len + 3)
      && (start + 12 + len > |s| && len < 0xFFFF_FFF4 ==> NextTag(s, start) == (9, -11))
  {
    hide Word, NextTag;
    var t: seq<Byte> := [0, 0, 0, 3, a, b, c, d];
    SliceSlice(s, start, start + 8, 0, 4);
    SliceSlice(s, start, start + 8, 4, 8);
    assert t[0..4] == [0, 0, 0, 3] && t[4..8] == [a, b, c, d];
    WordOf(s, start, 0, 0, 0, 3);
    WordOf(s, start + 4, a, b, c, d);
    PropOfLength(s, start, Word(s, start + 4));
  }

  lemma {:induction false} PropOfLength(s: seq<Byte>, start: nat, len: nat)
    requires start % 4 == 0 && start + 8 <= |s| <= 0x7FFF_FFFC && Word(s, start) == 3 && Word(s, start + 4) == len
    ensures start + 12 + len <= |s| ==>
      NextTag(s, start).0 == 3 && NextTag(s, start).1 % 4 == 0 && start + 12 + len <= NextTag(s, start).1 <= start + 12 + len + 3
    ensures start + 12 + len > |s| && len < 0xFFFF_FFF4 ==> NextTag(s, start) == (9, -11)
  {
    hide Word;
  }

  /** No other word is a token, and behind the end of the block there is none. */
  lemma {:induction false} NoToken(s: seq<Byte>, start: nat)
    requires |s| <= INT_MAX
    ensures start + 4 > |s| ==> NextTag(s, start) == (9, -8)
    ensures start + 4 <= |s| && s[start..start + 4] !in [[0, 0, 0, 1], [0, 0, 0, 2], [0, 0, 0, 3], [0, 0, 0, 4], [0, 0, 0, 9]]
      ==> NextTag(s, start) == (9, -11)
  {
    hide Word;
    if start + 4 <= |s| {
      WordOf(s, start, 0, 0, 0, 1);
      WordOf(s, start, 0, 0, 0, 2);
      WordOf(s, start, 0, 0, 0, 3);
      WordOf(s, start, 0, 0, 0, 4);
      WordOf(s, start, 0, 0, 0, 9);
    }
  }

  // ---- whole blocks ----

  /** A tree of one node without name, properties and children has sixteen bytes, of which only
      the padding behind its name is free. */
  lemma {:induction false} SmallestTree(b: seq<Byte>, strings: seq<Byte>, bias: nat)
    ensures Encodes(b, Items(Tree([], [], [])) + [End], strings, bias) <==>
      |b| == 16 && b[0..4] == [0, 0, 0, 1] && b[4] == 0 && b[8..16] == [0, 0, 0, 2, 0, 0, 0, 9]
  {
    var x: seq<Item> := [BeginNode([]), EndNode, End];
    assert Items(Tree([], [], [])) + [End] == x;
    assert x[1..] == [EndNode, End] && x[1..][1..] == [End] && x[1..][1..][1..] == [];
    assert SizeOf([End]) == 4 && SizeOf([EndNode, End]) == 8 && SizeOf(x) == 16;
    if |b| == 16 {
      var t: seq<Byte> := [0, 0, 0, 2, 0, 0, 0, 9];
      assert b[8..16] == b[8..12] + b[12..16] && t == [0, 0, 0, 2] + [0, 0, 0, 9];
      SliceSlice(b, 8, 16, 0, 4);
      SliceSlice(b, 8, 16, 4, 8);
      assert t[0..4] == [0, 0, 0, 2] && t[4..8] == [0, 0, 0, 9];
      SmallestParts(b, strings, bias);
      WordOf(b, 0, 0, 0, 0, 1);
      WordOf(b, 8, 0, 0, 0, 2);
      WordOf(b, 12, 0, 0, 0, 9);
    }
  }

  lemma {:induction false} SmallestParts(b: seq<Byte>, strings: seq<Byte>, bias: nat)
    requires |b| == 16
    ensures Encodes(b, [BeginNode([]), EndNode, End], strings, bias) <==>
      Word(b, 0) == 1 && b[4] == 0 && Word(b, 8) == 2 && Word(b, 12) == 9
  {
    hide Word, Encodes;
    var p, q, r := b[..8], b[8..12], b[12..16];
    var ok := Reading(strings, bias);
    assert p + q + r == b && b[8..] == q + r && (q + r)[4..] == r && r[4..] == [] && (q + r)[..4] == q && r[..4] == r;
    assert [BeginNode([]), EndNode, End] == [BeginNode([])] + ([EndNode] + [End]);
    ChainCons(b, BeginNode([]), [EndNode] + [End], ok);
    ChainCons(q + r, EndNode, [End], ok);
    ChainOne(r, End, ok);
    WordAt(p, b, 0, 0);
    WordAt(q, b, 0, 8);
    WordAt(r, b, 0, 12);
    if Chain(b, [BeginNode([]), EndNode, End], ok) {
      ToEncodes(b, [BeginNode([]), EndNode, End], strings, bias);
    }
    if Encodes(b, [BeginNode([]), EndNode, End], strings, bias) {
      ToChain(b, [BeginNode([]), EndNode, End], strings, bias);
    }
  }

  /** A block with two properties and two child nodes, and the strings block with their names. */
  const NAMES: seq<Byte> := [114, 115, 0, 114, 0]
  const SAMPLE: Tree := Tree([], [([114], [7]), ([114, 115], [1, 2, 3, 4, 5])], [Tree([110], [], []), Tree([109, 110, 111], [], [])])

  lemma {:induction false} SampleItems()
    ensures Items(SAMPLE) + [End] ==
      [BeginNode([])] + [Property([114], [7])] + [Property([114, 115], [1, 2, 3, 4, 5])]
      + [BeginNode([110])] + [EndNode] + [BeginNode([109, 110, 111])] + [EndNode] + [EndNode] + [End]
  {
    var c, d := SAMPLE.children[0], SAMPLE.children[1];
    assert Items(c) == [BeginNode([110]), EndNode] && Items(d) == [BeginNode([109, 110, 111]), EndNode];
    assert Forest([]) == [] && SAMPLE.children[1..] == [d] && [d][1..] == [];
    assert Forest([d]) == Items(d) && Forest(SAMPLE.children) == Items(c) + Items(d);
    assert SAMPLE.props[1..] == [([114, 115], [1, 2, 3, 4, 5])] && SAMPLE.props[1..][1..] == [];
    assert PropItems(SAMPLE.props) == [Property([114], [7]), Property([114, 115], [1, 2, 3, 4, 5])];
  }

  lemma {:induction false} AppendItem(b: seq<Byte>, items: seq<Item>, c: seq<Byte>, it: Item, strings: seq<Byte>, bias: nat)
    requires Encodes(b, items, strings, bias) && ItemBytes(c, it, strings, bias)
    ensures Encodes(b + c, items + [it], strings, bias)
  {
    EncodesOne(c, it, strings, bias);
    EncodesAppend(b, c, items, [it], strings, bias);
  }

  lemma {:induction false} AppendPlain(b: seq<Byte>, items: seq<Item>, last: Byte, it: Item, strings: seq<Byte>, bias: nat)
    requires Encodes(b, items, strings, bias)
    requires (last == 2 && it == EndNode) || (last == 9 && it == End)
    ensures Encodes(b + [0, 0, 0, last], items + [it], strings, bias)
  {
    AppendItem(b, items, [0, 0, 0, last], it, strings, bias);
  }

  lemma {:induction false} SampleNodes()
    ensures ItemBytes([0, 0, 0, 1, 0, 0, 0, 0], BeginNode([]), NAMES, 0)
    ensures ItemBytes([0, 0, 0, 1, 110, 0, 0, 0], BeginNode([110]), NAMES, 0)
    ensures ItemBytes([0, 0, 0, 1, 109, 110, 111, 0], BeginNode([109, 110, 111]), NAMES, 0)
  {
  }

  lemma {:induction false} SampleProps()
    ensures ItemBytes([0, 0, 0, 3, 0, 0, 0, 1, 0, 0, 0, 3, 7, 0, 0, 0], Property([114], [7]), NAMES, 0)
    ensures ItemBytes([0, 0, 0, 3, 0, 0, 0, 5, 0, 0, 0, 0, 1, 2, 3, 4, 5, 0, 0, 0], Property([114, 115], [1, 2, 3, 4, 5]), NAMES, 0)
  {
    hide StringAt, Word;
    SampleNames();
    PropertyWords(1, 3, [7, 0, 0, 0]);
    PropertyWords(5, 0, [1, 2, 3, 4, 5, 0, 0, 0]);
    assert [0, 0, 0, 3, 0, 0, 0, 1, 0, 0, 0, 3] + [7, 0, 0, 0] == [0, 0, 0, 3, 0, 0, 0, 1, 0, 0, 0, 3, 7, 0, 0, 0];
    assert [0, 0, 0, 3, 0, 0, 0, 5, 0, 0, 0, 0] + [1, 2, 3, 4, 5, 0, 0, 0] == [0, 0, 0, 3, 0, 0, 0, 5, 0, 0, 0, 0, 1, 2, 3, 4, 5, 0, 0, 0];
  }

  lemma {:induction false} SampleNames()
    ensures StringAt(NAMES, 3, [114]) && StringAt(NAMES, 0, [114, 115])
  {
    assert NAMES[3..4] == [114] && NAMES[0..2] == [114, 115];
  }

  lemma {:induction false} PropertyWords(len: Byte, off: Byte, data: seq<Byte>)
    ensures var b := [0, 0, 0, 3, 0, 0, 0, len, 0, 0, 0, off] + data;
      Word(b, 0) == 3 && Word(b, 4) == len && Word(b, 8) == off
  {
  }

  /** The bytes of that block; by EncodesInjective it is the block of no other tree. */
  lemma {:induction false} SampleBlock()
    ensures Encodes([0, 0, 0, 1, 0, 0, 0, 0]
      + [0, 0, 0, 3, 0, 0, 0, 1, 0, 0, 0, 3, 7, 0, 0, 0]
      + [0, 0, 0, 3, 0, 0, 0, 5, 0, 0, 0, 0, 1, 2, 3, 4, 5, 0, 0, 0]
      + [0, 0, 0, 1, 110, 0, 0, 0] + [0, 0, 0, 2]
      + [0, 0, 0, 1, 109, 110, 111, 0] + [0, 0, 0, 2] + [0, 0, 0, 2] + [0, 0, 0, 9],
      Items(SAMPLE) + [End], NAMES, 0)
  {
    hide Encodes, ItemBytes, Items;
    SampleItems();
    SampleNodes();
    SampleProps();
    var b0: seq<Byte> := [0, 0, 0, 1, 0, 0, 0, 0];
    var i0 := [BeginNode([])];
    EncodesOne(b0, BeginNode([]), NAMES, 0);
    var b1, i1 := b0 + [0, 0, 0, 3, 0, 0, 0, 1, 0, 0, 0, 3, 7, 0, 0, 0], i0 + [Property([114], [7])];
    AppendItem(b0, i0, [0, 0, 0, 3, 0, 0, 0, 1, 0, 0, 0, 3, 7, 0, 0, 0], Property([114], [7]), NAMES, 0);
    var b2, i2 := b1 + [0, 0, 0, 3, 0, 0, 0, 5, 0, 0, 0, 0, 1, 2, 3, 4, 5, 0, 0, 0], i1 + [Property([114, 115], [1, 2, 3, 4, 5])];
    AppendItem(b1, i1, [0, 0, 0, 3, 0, 0, 0, 5, 0, 0, 0, 0, 1, 2, 3, 4, 5, 0, 0, 0], Property([114, 115], [1, 2, 3, 4, 5]), NAMES, 0);
    var b3, i3 := b2 + [0, 0, 0, 1, 110, 0, 0, 0], i2 + [BeginNode([110])];
    AppendItem(b2, i2, [0, 0, 0, 1, 110, 0, 0, 0], BeginNode([110]), NAMES, 0);
    AppendPlain(b3, i3, 2, EndNode, NAMES, 0);
    var b4, i4 := b3 + [0, 0, 0, 2], i3 + [EndNode];
    var b5, i5 := b4 + [0, 0, 0, 1, 109, 110, 111, 0], i4 + [BeginNode([109, 110, 111])];
    AppendItem(b4, i4, [0, 0, 0, 1, 109, 110, 111, 0], BeginNode([109, 110, 111]), NAMES, 0);
    AppendPlain(b5, i5, 2, EndNode, NAMES, 0);
    AppendPlain(b5 + [0, 0, 0, 2], i5 + [EndNode], 2, EndNode, NAMES, 0);
    AppendPlain(b5 + [0, 0, 0, 2] + [0, 0, 0, 2], i5 + [EndNode] + [EndNode], 9, End, NAMES, 0);
  }

  /** An entry of the reserve map: address and size, most significant byte first. */
  lemma {:induction false} EntryExample(b: seq<Byte>, at: nat)
    requires at + 16 <= |b|
    ensures b[at..at + 16] == [0, 0, 0, 1, 0, 2, 0, 0, 0, 0, 0, 0, 0, 3, 16, 0] <==> EntryAt(b, at, (0x1_0002_0000, 0x3_1000))
  {
    var t: seq<Byte> := [0, 0, 0, 1, 0, 2, 0, 0, 0, 0, 0, 0, 0, 3, 16, 0];
    assert b[at..at + 16] == b[at..at + 4] + b[at + 4..at + 8] + b[at + 8..at + 12] + b[at + 12..at + 16];
    assert t == [0, 0, 0, 1] + [0, 2, 0, 0] + [0, 0, 0, 0] + [0, 3, 16, 0];
    SliceSlice(b, at, at + 16, 0, 4);
    SliceSlice(b, at, at + 16, 4, 8);
    SliceSlice(b, at, at + 16, 8, 12);
    SliceSlice(b, at, at + 16, 12, 16);
    assert t[0..4] == [0, 0, 0, 1] && t[4..8] == [0, 2, 0, 0] && t[8..12] == [0, 0, 0, 0] && t[12..16] == [0, 3, 16, 0];
    WordOf(b, at, 0, 0, 0, 1);
    WordOf(b, at + 4, 0, 2, 0, 0);
    WordOf(b, at + 8, 0, 0, 0, 0);
    WordOf(b, at + 12, 0, 3, 16, 0);
  }
}
