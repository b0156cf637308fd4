/** The decoding tables of tinfl: a 1024-entry table on the next ten bits and a
    binary tree, in an array of slot pairs, for longer codes.  Building them from
    code lengths and decoding through them are proved against the canonical code. */
module HuffmanTable {
  import opened Bits
  import opened CanonicalCode
  import opened Common

  const FAST_BITS: nat := 10
  const FAST_SIZE: nat := 1024
  const TREE_SIZE: nat := 576

  // ---- what the two arrays mean, as predicates on their contents ----

  /** Tree nodes are numbered from 0; node k is stored in a table as -(2k + 1),
      and its two slots are 2k and 2k + 1.  `nodes[k]` is the bit string that
      leads to node k. */
  function NodeRef(k: nat): int {
    -(2 * k + 1)
  }

  predicate IsNodeRef(nodes: seq<seq<bool>>, v: int, path: seq<bool>) {
    v < 0 && v % 2 == 1 && (-v - 1) / 2 < |nodes| && nodes[(-v - 1) / 2] == path
  }

  /** No symbol below `m` has a code that starts with `path`. */
  predicate NoneBelow(lens: seq<nat>, m: nat, path: seq<bool>)
    requires m <= |lens|
  {
    forall s: nat | s < m && Used(lens, s) :: !(path <= Code(lens, s))
  }

  /** No symbol below `m` has a code that `path` starts with. */
  predicate NoneAbove(lens: seq<nat>, m: nat, path: seq<bool>)
    requires m <= |lens|
  {
    forall s: nat | s < m && Used(lens, s) :: !(Code(lens, s) <= path)
  }

  /** Meaning of the lookup entry for the ten bits `path`, once the symbols below
      `m` are in. */
  predicate LookEntry(lens: seq<nat>, m: nat, nodes: seq<seq<bool>>, v: int, path: seq<bool>)
    requires m <= |lens|
  {
    if v > 0 then
      var s, l := v % 512, v / 512;
      s < m && 1 <= l <= FAST_BITS && lens[s] == l && Code(lens, s) <= path
    else if v < 0 then
      IsNodeRef(nodes, v, path)
    else
      NoneBelow(lens, m, path) && NoneAbove(lens, m, path)
  }

  /** Meaning of the tree slot reached by the bits `path`. */
  predicate Slot(lens: seq<nat>, m: nat, nodes: seq<seq<bool>>, v: int, path: seq<bool>)
    requires m <= |lens|
  {
    if v > 0 then
      v < m && Used(lens, v) && Code(lens, v) == path
    else if v < 0 then
      IsNodeRef(nodes, v, path)
    else
      (0 < m && Used(lens, 0) && Code(lens, 0) == path) || NoneBelow(lens, m, path)
  }

  /** Nodes are distinct proper prefixes, at least ten bits long, of codes of the
      symbols below `m`. */
  ghost predicate NodesOk(lens: seq<nat>, m: nat, nodes: seq<seq<bool>>)
    requires m <= |lens|
  {
    && (forall j, k | 0 <= j < k < |nodes| :: nodes[j] != nodes[k])
    && (forall k | 0 <= k < |nodes| :: IsInner(lens, m, nodes[k]))
  }

  ghost predicate IsInner(lens: seq<nat>, m: nat, path: seq<bool>)
    requires m <= |lens|
  {
    |path| >= FAST_BITS && exists s: nat :: s < m && Used(lens, s) && path < Code(lens, s)
  }

  ghost predicate LookOk(lens: seq<nat>, m: nat, nodes: seq<seq<bool>>, look: seq<int>)
    requires m <= |lens| && |look| == FAST_SIZE
  {
    forall i: nat | i < FAST_SIZE :: LookEntry(lens, m, nodes, look[i], BitsOf(i, FAST_BITS))
  }

  predicate SlotAt(lens: seq<nat>, m: nat, nodes: seq<seq<bool>>, tree: seq<int>, k: nat, b: bool)
    requires m <= |lens| && |tree| == TREE_SIZE && 2 * |nodes| <= TREE_SIZE && k < |nodes|
  {
    Slot(lens, m, nodes, tree[2 * k + Bit(b)], nodes[k] + [b])
  }

  ghost predicate TreeOk(lens: seq<nat>, m: nat, nodes: seq<seq<bool>>, tree: seq<int>)
    requires m <= |lens| && |tree| == TREE_SIZE && 2 * |nodes| <= TREE_SIZE
  {
    && (forall k: nat, b | k < |nodes| && b in {false, true} ::
          SlotAt(lens, m, nodes, tree, k, b))
    && (forall j: nat | 2 * |nodes| <= j < TREE_SIZE :: tree[j] == 0)
  }

  /** The tables are right for the symbols below `m`. */
  ghost predicate TablesOk(lens: seq<nat>, m: nat, nodes: seq<seq<bool>>, look: seq<int>, tree: seq<int>)
    requires m <= |lens| && |look| == FAST_SIZE && |tree| == TREE_SIZE
  {
    && NodesOk(lens, m, nodes)
    && 2 * |nodes| <= TREE_SIZE
    && LookOk(lens, m, nodes, look)
    && TreeOk(lens, m, nodes, tree)
  }

  // ---- the number of nodes ----

  lemma {:induction false} Pigeonhole(xs: seq<nat>, n: nat)
    requires forall i | 0 <= i < |xs| :: xs[i] < n
    requires forall i, j | 0 <= i < j < |xs| :: xs[i] != xs[j]
    ensures |xs| <= n
  {
    if xs != [] {
      assert xs[0] < n;
      if n - 1 in xs {
        var k :| 0 <= k < |xs| && xs[k] == n - 1;
        var ys := xs[..k] + xs[k + 1..];
        assert forall i | 0 <= i < |ys| :: ys[i] == xs[if i < k then i else i + 1];
        Pigeonhole(ys, n - 1);
      } else {
        Pigeonhole(xs, n - 1);
      }
    }
  }

  function Zeros(n: nat): (r: seq<bool>)
    ensures |r| == n && forall i | 0 <= i < n :: !r[i]
  {
    seq(n, i => false)
  }

  /** `s` is the symbol whose code is `path`, a one, and then only zeros. */
  ghost predicate Owns(lens: seq<nat>, s: nat, path: seq<bool>) {
    && Used(lens, s) && |path| < lens[s]
    && Code(lens, s) == path + [true] + Zeros(lens[s] - |path| - 1)
  }

  /** Every proper prefix of a code is owned by some symbol. */
  lemma InnerHasOwner(lens: seq<nat>, m: nat, path: seq<bool>) returns (s: nat)
    requires ValidLengths(lens) && Complete(lens) && m <= |lens| && IsInner(lens, m, path)
    ensures Owns(lens, s, path)
  {
    var u: nat :| u < m && Used(lens, u) && path < Code(lens, u);
    var w := path + [true] + Zeros(14 - |path|);
    s := SomeMatches(lens, w);
    if lens[s] <= |path| {
      assert Code(lens, s) <= path;
      assert Code(lens, s) <= Code(lens, u);
      PrefixFree(lens, s, u);
      assert false;
    }
    assert Code(lens, s) == w[..lens[s]];
  }

  lemma OwnerIsUnique(lens: seq<nat>, s: nat, p: seq<bool>, q: seq<bool>)
    requires Owns(lens, s, p) && Owns(lens, s, q)
    ensures p == q
  {
    var c := Code(lens, s);
    assert c[|p|] && c[|q|];
    assert |p| == |q|;
    assert p == c[..|p|] == q;
  }

  lemma {:induction false} OwnersOf(lens: seq<nat>, m: nat, nodes: seq<seq<bool>>) returns (owners: seq<nat>)
    requires ValidLengths(lens) && Complete(lens) && m <= |lens| && NodesOk(lens, m, nodes)
    ensures |owners| == |nodes| && forall k | 0 <= k < |nodes| :: Owns(lens, owners[k], nodes[k])
  {
    if nodes == [] {
      owners := [];
    } else {
      var n := |nodes| - 1;
      owners := OwnersOf(lens, m, nodes[..n]);
      var s := InnerHasOwner(lens, m, nodes[n]);
      owners := owners + [s];
    }
  }

  /** A tree never needs more nodes than there are symbols, so its slot pairs fit. */
  lemma NodesFit(lens: seq<nat>, m: nat, nodes: seq<seq<bool>>)
    requires ValidLengths(lens) && Accepted(lens) && m <= |lens| && NodesOk(lens, m, nodes)
    ensures 2 * |nodes| <= TREE_SIZE
  {
    if Complete(lens) {
      var owners := OwnersOf(lens, m, nodes);
      forall i, j | 0 <= i < j < |owners| ensures owners[i] != owners[j] {
        if owners[i] == owners[j] {
          OwnerIsUnique(lens, owners[i], nodes[i], nodes[j]);
        }
      }
      Pigeonhole(owners, |lens|);
    } else {
      var depths := seq(|nodes|, k requires 0 <= k < |nodes| => |nodes[k]|);
      forall i, j | 0 <= i <= j < |nodes| ensures depths[i] < 15 && (i < j ==> depths[i] != depths[j]) {
        var s: nat :| s < m && Used(lens, s) && nodes[i] < Code(lens, s);
        var u: nat :| u < m && Used(lens, u) && nodes[j] < Code(lens, u);
        OnlyOneUsed(lens, s, u);
        assert nodes[i] == Code(lens, s)[..|nodes[i]|];
        assert nodes[j] == Code(lens, s)[..|nodes[j]|];
      }
      Pigeonhole(depths, 15);
    }
  }

  // ---- inserting one symbol ----

  /** The ten-bit table while the code `c` of symbol `m` is being threaded through
      the tree: everything below `m` is right, every table entry passed on the way
      leads on, and node `(-cur - 1) / 2` stands for the first `d` bits of `c`. */
  ghost predicate Threading(lens: seq<nat>, m: nat, c: seq<bool>, d: nat, cur: int,
                            nodes: seq<seq<bool>>, look: seq<int>, tree: seq<int>)
    requires m < |lens| && |look| == FAST_SIZE && |tree| == TREE_SIZE
  {
    && Used(lens, m) && c == Code(lens, m) && FAST_BITS <= d < |c|
    && 2 * |nodes| <= TREE_SIZE
    && NodesOk(lens, m + 1, nodes)
    && LookOk(lens, m, nodes, look)
    && TreeOk(lens, m, nodes, tree)
    && IsNodeRef(nodes, cur, c[..d])
    && (forall i: nat | i < FAST_SIZE && BitsOf(i, FAST_BITS) <= c :: look[i] != 0)
    && (forall k: nat | k < |nodes| && |nodes[k]| > d :: IsInner(lens, m, nodes[k]))
    && (forall k: nat | k < |nodes| && |nodes[k]| < d && nodes[k] < c ::
          tree[2 * k + Bit(c[|nodes[k]|])] != 0)
  }

  lemma NodesGrow(lens: seq<nat>, m: nat, nodes: seq<seq<bool>>, p: seq<bool>)
    requires ValidLengths(lens) && Accepted(lens) && m < |lens| && Used(lens, m)
    requires NodesOk(lens, m + 1, nodes) && |p| >= FAST_BITS && p < Code(lens, m)
    requires forall k | 0 <= k < |nodes| && |nodes[k]| >= |p| :: IsInner(lens, m, nodes[k])
    requires NoneBelow(lens, m, p)
    ensures NodesOk(lens, m + 1, nodes + [p]) && 2 * |nodes| + 2 <= TREE_SIZE
  {
    var grown := nodes + [p];
    forall j, k | 0 <= j < k < |grown| ensures grown[j] != grown[k] {
      if k == |nodes| && grown[j] == p {
        assert false;
      }
    }
    NodesFit(lens, m + 1, grown);
  }

  lemma NodeRefsGrow(nodes: seq<seq<bool>>, p: seq<bool>)
    ensures forall v, q | IsNodeRef(nodes, v, q) :: IsNodeRef(nodes + [p], v, q)
    ensures IsNodeRef(nodes + [p], NodeRef(|nodes|), p)
  {
  }

  /** Growing the tree by a node that nothing below `m` uses keeps the tree right. */
  lemma TreeGrow(lens: seq<nat>, m: nat, nodes: seq<seq<bool>>, tree: seq<int>, p: seq<bool>)
    requires m <= |lens| && |tree| == TREE_SIZE && 2 * |nodes| + 2 <= TREE_SIZE
    requires TreeOk(lens, m, nodes, tree) && NoneBelow(lens, m, p)
    ensures TreeOk(lens, m, nodes + [p], tree)
  {
    var grown := nodes + [p];
    NodeRefsGrow(nodes, p);
    forall k: nat, b | k < |grown| && b in {false, true}
      ensures SlotAt(lens, m, grown, tree, k, b)
    {
      if k < |nodes| {
        assert SlotAt(lens, m, nodes, tree, k, b);
      } else {
        assert tree[2 * k + Bit(b)] == 0;
        forall s: nat | s < m && Used(lens, s) ensures !(p + [b] <= Code(lens, s)) {
          assert p <= p + [b];
        }
      }
    }
  }

  /** The entry for the first ten bits of a long code is never a short symbol. */
  lemma LookNotShort(lens: seq<nat>, m: nat, nodes: seq<seq<bool>>, v: int, i: nat)
    requires ValidLengths(lens) && Accepted(lens) && m < |lens| && Used(lens, m)
    requires lens[m] > FAST_BITS && i < FAST_SIZE && BitsOf(i, FAST_BITS) <= Code(lens, m)
    requires LookEntry(lens, m, nodes, v, BitsOf(i, FAST_BITS))
    ensures v <= 0
  {
    if v > 0 {
      PrefixFree(lens, v % 512, m);
    }
  }

  lemma StartThreading(lens: seq<nat>, m: nat, nodes: seq<seq<bool>>, look: seq<int>, tree: seq<int>, i: nat)
    requires ValidLengths(lens) && Accepted(lens) && m < |lens| && Used(lens, m)
    requires lens[m] > FAST_BITS && i < FAST_SIZE && |look| == FAST_SIZE && |tree| == TREE_SIZE
    requires BitsOf(i, FAST_BITS) == Code(lens, m)[..FAST_BITS]
    requires TablesOk(lens, m, nodes, look, tree)
    ensures look[i] <= 0
    ensures look[i] < 0 ==>
              Threading(lens, m, Code(lens, m), FAST_BITS, look[i], nodes, look, tree)
    ensures look[i] == 0 ==>
              var v := NodeRef(|nodes|);
              Threading(lens, m, Code(lens, m), FAST_BITS, v, nodes + [BitsOf(i, FAST_BITS)], look[i := v], tree)
  {
    var c, p := Code(lens, m), BitsOf(i, FAST_BITS);
    assert p <= c;
    assert LookEntry(lens, m, nodes, look[i], p);
    LookNotShort(lens, m, nodes, look[i], i);
    forall j: nat | j < FAST_SIZE && BitsOf(j, FAST_BITS) <= c ensures j == i {
      assert BitsOf(j, FAST_BITS) == c[..FAST_BITS];
      assert Pow2(FAST_BITS) == FAST_SIZE;
      BitsOfInjective(i, j, FAST_BITS);
    }
    NodesOkMono(lens, m, nodes);
    if look[i] == 0 {
      var v := NodeRef(|nodes|);
      NodesGrow(lens, m, nodes, p);
      NodeRefsGrow(nodes, p);
      TreeGrow(lens, m, nodes, tree, p);
      forall j: nat | j < FAST_SIZE
        ensures LookEntry(lens, m, nodes + [p], look[i := v][j], BitsOf(j, FAST_BITS))
      {
        assert LookEntry(lens, m, nodes, look[j], BitsOf(j, FAST_BITS));
      }
    }
  }

  lemma NodesOkMono(lens: seq<nat>, m: nat, nodes: seq<seq<bool>>)
    requires m < |lens| && NodesOk(lens, m, nodes)
    ensures NodesOk(lens, m + 1, nodes)
  {
    forall k | 0 <= k < |nodes| ensures IsInner(lens, m + 1, nodes[k]) {
      assert IsInner(lens, m, nodes[k]);
    }
  }

  /** One step down the tree, to an existing node or to a new one. */
  lemma StepThreading(lens: seq<nat>, m: nat, c: seq<bool>, d: nat, cur: int,
                      nodes: seq<seq<bool>>, look: seq<int>, tree: seq<int>, slot: nat)
    requires ValidLengths(lens) && Accepted(lens)
    requires m < |lens| && |look| == FAST_SIZE && |tree| == TREE_SIZE
    requires Threading(lens, m, c, d, cur, nodes, look, tree) && d + 1 < |c|
    requires slot == -(cur - Bit(c[d])) - 1
    ensures slot < TREE_SIZE && tree[slot] <= 0
    ensures tree[slot] < 0 ==> Threading(lens, m, c, d + 1, tree[slot], nodes, look, tree)
    ensures tree[slot] == 0 ==>
              var v := NodeRef(|nodes|);
              Threading(lens, m, c, d + 1, v, nodes + [c[..d + 1]], look, tree[slot := v])
  {
    var p := c[..d + 1];
    CurSlot(lens, m, c, d, cur, nodes, look, tree, slot);
    if tree[slot] > 0 {
      assert Code(lens, tree[slot]) <= c;
      PrefixFree(lens, tree[slot], m);
    } else if tree[slot] < 0 {
      AdvanceThreading(lens, m, c, d, cur, nodes, look, tree, slot);
    } else {
      if 0 < m && Used(lens, 0) && Code(lens, 0) == p {
        assert Code(lens, 0) <= c;
        PrefixFree(lens, 0, m);
        assert false;
      }
      GrowThreading(lens, m, c, d, cur, nodes, look, tree, slot);
    }
  }

  /** The slot the decoder computes belongs to the node it is at. */
  lemma CurSlot(lens: seq<nat>, m: nat, c: seq<bool>, d: nat, cur: int,
                nodes: seq<seq<bool>>, look: seq<int>, tree: seq<int>, slot: nat)
    requires m < |lens| && |look| == FAST_SIZE && |tree| == TREE_SIZE
    requires Threading(lens, m, c, d, cur, nodes, look, tree) && d < |c|
    requires slot == -(cur - Bit(c[d])) - 1
    ensures slot < 2 * |nodes| && Slot(lens, m, nodes, tree[slot], c[..d + 1])
    ensures var k := (-cur - 1) / 2;
            slot == 2 * k + Bit(c[d]) && nodes[k] == c[..d] && c[..d + 1] == nodes[k] + [c[d]]
    ensures forall j: nat | j < |nodes| && |nodes[j]| == d && nodes[j] < c :: j == (-cur - 1) / 2
  {
    var k := (-cur - 1) / 2;
    assert SlotAt(lens, m, nodes, tree, k, c[d]);
    assert c[..d + 1] == nodes[k] + [c[d]];
    forall j: nat | j < |nodes| && |nodes[j]| == d && nodes[j] < c ensures j == k {
      assert nodes[j] == c[..d];
    }
  }

  lemma AdvanceThreading(lens: seq<nat>, m: nat, c: seq<bool>, d: nat, cur: int,
                         nodes: seq<seq<bool>>, look: seq<int>, tree: seq<int>, slot: nat)
    requires m < |lens| && |look| == FAST_SIZE && |tree| == TREE_SIZE
    requires Threading(lens, m, c, d, cur, nodes, look, tree) && d + 1 < |c|
    requires slot == -(cur - Bit(c[d])) - 1 && slot < TREE_SIZE && tree[slot] < 0
    ensures Threading(lens, m, c, d + 1, tree[slot], nodes, look, tree)
  {
    CurSlot(lens, m, c, d, cur, nodes, look, tree, slot);
    forall j: nat | j < |nodes| && |nodes[j]| < d + 1 && nodes[j] < c
      ensures tree[2 * j + Bit(c[|nodes[j]|])] != 0
    {
      if |nodes[j]| == d {
        assert j == (-cur - 1) / 2;
      }
    }
  }

  lemma GrowThreading(lens: seq<nat>, m: nat, c: seq<bool>, d: nat, cur: int,
                      nodes: seq<seq<bool>>, look: seq<int>, tree: seq<int>, slot: nat)
    requires ValidLengths(lens) && Accepted(lens)
    requires m < |lens| && |look| == FAST_SIZE && |tree| == TREE_SIZE
    requires Threading(lens, m, c, d, cur, nodes, look, tree) && d + 1 < |c|
    requires slot == -(cur - Bit(c[d])) - 1 && slot < TREE_SIZE && tree[slot] == 0
    requires NoneBelow(lens, m, c[..d + 1])
    ensures var v := NodeRef(|nodes|);
            Threading(lens, m, c, d + 1, v, nodes + [c[..d + 1]], look, tree[slot := v])
  {
    var k, p, v := (-cur - 1) / 2, c[..d + 1], NodeRef(|nodes|);
    var grown, tree' := nodes + [p], tree[slot := v];
    CurSlot(lens, m, c, d, cur, nodes, look, tree, slot);
    NodesGrow(lens, m, nodes, p);
    NodeRefsGrow(nodes, p);
    TreeGrow(lens, m, nodes, tree, p);
    TreeWrite(lens, m, grown, tree, k, c[d], v);
    LookGrow(lens, m, nodes, look, p);
    PathGrow(lens, m, c, d, cur, nodes, look, tree, slot);
    assert c[..d + 1] == grown[|nodes|];
  }

  /** After the new node every slot on the path down to it leads on, and deeper
      nodes are still those of earlier symbols. */
  lemma PathGrow(lens: seq<nat>, m: nat, c: seq<bool>, d: nat, cur: int,
                 nodes: seq<seq<bool>>, look: seq<int>, tree: seq<int>, slot: nat)
    requires m < |lens| && |look| == FAST_SIZE && |tree| == TREE_SIZE && 2 * |nodes| + 2 <= TREE_SIZE
    requires Threading(lens, m, c, d, cur, nodes, look, tree) && d + 1 < |c|
    requires slot == -(cur - Bit(c[d])) - 1 && slot < TREE_SIZE
    ensures var grown, tree' := nodes + [c[..d + 1]], tree[slot := NodeRef(|nodes|)];
            && (forall j: nat | j < |grown| && |grown[j]| < d + 1 && grown[j] < c ::
                  tree'[2 * j + Bit(c[|grown[j]|])] != 0)
            && (forall j: nat | j < |grown| && |grown[j]| > d + 1 :: IsInner(lens, m, grown[j]))
  {
    var grown, tree' := nodes + [c[..d + 1]], tree[slot := NodeRef(|nodes|)];
    CurSlot(lens, m, c, d, cur, nodes, look, tree, slot);
    forall j: nat | j < |grown| && |grown[j]| < d + 1 && grown[j] < c
      ensures tree'[2 * j + Bit(c[|grown[j]|])] != 0
    {
      assert j < |nodes| && grown[j] == nodes[j];
      if |nodes[j]| == d {
        assert j == (-cur - 1) / 2;
      }
    }
    forall j: nat | j < |grown| && |grown[j]| > d + 1 ensures IsInner(lens, m, grown[j]) {
      assert j < |nodes|;
    }
  }

  /** Overwriting one slot by something right for it. */
  lemma TreeWrite(lens: seq<nat>, m: nat, nodes: seq<seq<bool>>, tree: seq<int>, k: nat, bit: bool, v: int)
    requires m <= |lens| && |tree| == TREE_SIZE && 2 * |nodes| <= TREE_SIZE
    requires TreeOk(lens, m, nodes, tree) && k < |nodes|
    requires Slot(lens, m, nodes, v, nodes[k] + [bit])
    ensures TreeOk(lens, m, nodes, tree[2 * k + Bit(bit) := v])
  {
    var slot := 2 * k + Bit(bit);
    var tree' := tree[slot := v];
    forall j: nat, b | j < |nodes| && b in {false, true}
      ensures SlotAt(lens, m, nodes, tree', j, b)
    {
      if 2 * j + Bit(b) == slot {
        assert j == k && b == bit;
      } else {
        assert SlotAt(lens, m, nodes, tree, j, b);
      }
    }
  }

  lemma LookGrow(lens: seq<nat>, m: nat, nodes: seq<seq<bool>>, look: seq<int>, p: seq<bool>)
    requires m <= |lens| && |look| == FAST_SIZE && LookOk(lens, m, nodes, look)
    ensures LookOk(lens, m, nodes + [p], look)
  {
    NodeRefsGrow(nodes, p);
    forall i: nat | i < FAST_SIZE ensures LookEntry(lens, m, nodes + [p], look[i], BitsOf(i, FAST_BITS)) {
      assert LookEntry(lens, m, nodes, look[i], BitsOf(i, FAST_BITS));
    }
  }

  lemma SlotMono(lens: seq<nat>, m: nat, nodes: seq<seq<bool>>, v: int, path: seq<bool>)
    requires m < |lens| && Slot(lens, m, nodes, v, path)
    requires Used(lens, m) && v == 0 ==> !(path <= Code(lens, m))
    ensures Slot(lens, m + 1, nodes, v, path)
  {
  }

  lemma LookEntryMono(lens: seq<nat>, m: nat, nodes: seq<seq<bool>>, v: int, path: seq<bool>)
    requires m < |lens| && LookEntry(lens, m, nodes, v, path)
    requires Used(lens, m) && v == 0 ==> !(path <= Code(lens, m)) && !(Code(lens, m) <= path)
    ensures LookEntry(lens, m + 1, nodes, v, path)
  {
  }

  /** Writing the symbol into the last slot completes its insertion. */
  lemma EndThreading(lens: seq<nat>, m: nat, c: seq<bool>, cur: int,
                     nodes: seq<seq<bool>>, look: seq<int>, tree: seq<int>, slot: nat)
    requires m < |lens| && |look| == FAST_SIZE && |tree| == TREE_SIZE && |c| > FAST_BITS
    requires Threading(lens, m, c, |c| - 1, cur, nodes, look, tree)
    requires slot == -(cur - Bit(c[|c| - 1])) - 1
    ensures slot < TREE_SIZE && TablesOk(lens, m + 1, nodes, look, tree[slot := m])
  {
    EndLook(lens, m, c, cur, nodes, look, tree);
    EndTree(lens, m, c, cur, nodes, look, tree, slot);
  }

  lemma EndLook(lens: seq<nat>, m: nat, c: seq<bool>, cur: int,
                nodes: seq<seq<bool>>, look: seq<int>, tree: seq<int>)
    requires m < |lens| && |look| == FAST_SIZE && |tree| == TREE_SIZE && |c| > FAST_BITS
    requires Threading(lens, m, c, |c| - 1, cur, nodes, look, tree)
    ensures LookOk(lens, m + 1, nodes, look)
  {
    forall i: nat | i < FAST_SIZE ensures LookEntry(lens, m + 1, nodes, look[i], BitsOf(i, FAST_BITS)) {
      assert LookEntry(lens, m, nodes, look[i], BitsOf(i, FAST_BITS));
      LookEntryMono(lens, m, nodes, look[i], BitsOf(i, FAST_BITS));
    }
  }

  lemma EndTree(lens: seq<nat>, m: nat, c: seq<bool>, cur: int,
                nodes: seq<seq<bool>>, look: seq<int>, tree: seq<int>, slot: nat)
    requires m < |lens| && |look| == FAST_SIZE && |tree| == TREE_SIZE && |c| > FAST_BITS
    requires Threading(lens, m, c, |c| - 1, cur, nodes, look, tree)
    requires slot == -(cur - Bit(c[|c| - 1])) - 1
    ensures slot < TREE_SIZE && TreeOk(lens, m + 1, nodes, tree[slot := m])
  {
    var k, d, tree', n := (-cur - 1) / 2, |c| - 1, tree[slot := m], m + 1;
    CurSlot(lens, m, c, d, cur, nodes, look, tree, slot);
    assert c[..d + 1] == c;
    forall j: nat, b | j < |nodes| && b in {false, true}
      ensures SlotAt(lens, n, nodes, tree', j, b)
    {
      EndSlot(lens, m, c, cur, nodes, look, tree, slot, j, b);
    }
  }

  lemma EndSlot(lens: seq<nat>, m: nat, c: seq<bool>, cur: int,
                nodes: seq<seq<bool>>, look: seq<int>, tree: seq<int>, slot: nat, j: nat, b: bool)
    requires m < |lens| && |look| == FAST_SIZE && |tree| == TREE_SIZE && |c| > FAST_BITS
    requires Threading(lens, m, c, |c| - 1, cur, nodes, look, tree)
    requires slot == -(cur - Bit(c[|c| - 1])) - 1 && j < |nodes|
    ensures slot < TREE_SIZE && SlotAt(lens, m + 1, nodes, tree[slot := m], j, b)
  {
    hide NodesOk, LookOk, IsInner;
    var k, d := (-cur - 1) / 2, |c| - 1;
    CurSlot(lens, m, c, d, cur, nodes, look, tree, slot);
    assert c[..d + 1] == c;
    assert SlotAt(lens, m, nodes, tree, j, b);
    if 2 * j + Bit(b) == slot {
      assert j == k && b == c[d];
    } else {
      if nodes[j] + [b] <= c {
        OffPath(lens, m, c, cur, nodes, look, tree, slot, j, b);
      }
      SlotMono(lens, m, nodes, tree[2 * j + Bit(b)], nodes[j] + [b]);
    }
  }

  /** A slot on the path of `c`, other than the last, is not empty. */
  lemma OffPath(lens: seq<nat>, m: nat, c: seq<bool>, cur: int, nodes: seq<seq<bool>>,
                look: seq<int>, tree: seq<int>, slot: nat, j: nat, b: bool)
    requires m < |lens| && |look| == FAST_SIZE && |tree| == TREE_SIZE && |c| > FAST_BITS
    requires Threading(lens, m, c, |c| - 1, cur, nodes, look, tree)
    requires slot == -(cur - Bit(c[|c| - 1])) - 1
    requires j < |nodes| && 2 * j + Bit(b) != slot && nodes[j] + [b] <= c
    ensures tree[2 * j + Bit(b)] != 0
  {
    CurSlot(lens, m, c, |c| - 1, cur, nodes, look, tree, slot);
    var q := nodes[j] + [b];
    assert q[..|nodes[j]|] == nodes[j] && q[|nodes[j]|] == b;
    assert b == c[|nodes[j]|] && nodes[j] < c;
  }

  /** A symbol that is unused changes nothing. */
  lemma SkipUnused(lens: seq<nat>, m: nat, nodes: seq<seq<bool>>, look: seq<int>, tree: seq<int>)
    requires m < |lens| && !Used(lens, m) && |look| == FAST_SIZE && |tree| == TREE_SIZE
    requires TablesOk(lens, m, nodes, look, tree)
    ensures TablesOk(lens, m + 1, nodes, look, tree)
  {
    var n := m + 1;
    NodesOkMono(lens, m, nodes);
    forall i: nat | i < FAST_SIZE ensures LookEntry(lens, m + 1, nodes, look[i], BitsOf(i, FAST_BITS)) {
      LookEntryMono(lens, m, nodes, look[i], BitsOf(i, FAST_BITS));
    }
    forall j: nat, b | j < |nodes| && b in {false, true}
      ensures SlotAt(lens, n, nodes, tree, j, b)
    {
      assert SlotAt(lens, m, nodes, tree, j, b);
      SlotMono(lens, m, nodes, tree[2 * j + Bit(b)], nodes[j] + [b]);
    }
  }

  /** Filling every entry that starts with a short code inserts it. */
  lemma ShortInserted(lens: seq<nat>, m: nat, nodes: seq<seq<bool>>, look: seq<int>, look': seq<int>, tree: seq<int>)
    requires m < |lens| && Used(lens, m) && lens[m] <= FAST_BITS && m < 512
    requires |look| == |look'| == FAST_SIZE && |tree| == TREE_SIZE
    requires TablesOk(lens, m, nodes, look, tree)
    requires forall i: nat | i < FAST_SIZE ::
               look'[i] == if Code(lens, m) <= BitsOf(i, FAST_BITS) then lens[m] * 512 + m else look[i]
    ensures TablesOk(lens, m + 1, nodes, look', tree)
  {
    var n := m + 1;
    NodesOkMono(lens, m, nodes);
    forall i: nat | i < FAST_SIZE ensures LookEntry(lens, m + 1, nodes, look'[i], BitsOf(i, FAST_BITS)) {
      var path := BitsOf(i, FAST_BITS);
      if Code(lens, m) <= path {
        assert look'[i] % 512 == m && look'[i] / 512 == lens[m];
      } else {
        if path <= Code(lens, m) {
          assert false;
        }
        assert LookEntry(lens, m, nodes, look[i], path);
        LookEntryMono(lens, m, nodes, look[i], path);
      }
    }
    forall j: nat, b | j < |nodes| && b in {false, true}
      ensures SlotAt(lens, n, nodes, tree, j, b)
    {
      assert SlotAt(lens, m, nodes, tree, j, b);
      assert IsInner(lens, m, nodes[j]);
      SlotMono(lens, m, nodes, tree[2 * j + Bit(b)], nodes[j] + [b]);
    }
  }

  lemma TotalFits(lens: seq<nat>)
    requires ValidLengths(lens)
    ensures First(lens, 16) < 0x1_0000_0000
  {
    FirstBound(lens, 16);
    SmallPowers();
  }

  /** The next unused code of every length, before symbol `m` is looked at. */
  ghost predicate NextCodes(lens: seq<nat>, m: nat, nextCode: seq<nat>)
    requires m <= |lens|
  {
    |nextCode| == 17 && forall l | 1 <= l <= 15 :: nextCode[l] == First(lens, l) + Count(lens, l, m)
  }

  lemma NextCodesStep(lens: seq<nat>, m: nat, nextCode: seq<nat>)
    requires ValidLengths(lens) && m < |lens| && NextCodes(lens, m, nextCode)
    ensures var l := lens[m];
            if l == 0 then NextCodes(lens, m + 1, nextCode)
            else nextCode[l] == CodeNum(lens, m) && NextCodes(lens, m + 1, nextCode[l := nextCode[l] + 1])
  {
  }

  // ---- reading a symbol back ----

  /** What a decoder must find in the bits `w`: the symbol whose code they start
      with, and that code's length.  When no code does (possible only if a single
      symbol is used) the decoder reports symbol 0. */
  ghost predicate Decodes(lens: seq<nat>, w: seq<bool>, sym: nat, len: nat) {
    && (forall t: nat | Used(lens, t) && Code(lens, t) <= w :: sym == t && len == lens[t])
    && (NoneAbove(lens, |lens|, w) ==> sym == 0)
  }

  /** The bits taken off the front of `s` are the code of the symbol; when no code is there
      they count as symbol 0. */
  ghost predicate Found(lens: seq<nat>, s: seq<bool>, sym: nat, code: seq<bool>) {
    (Used(lens, sym) && code == Code(lens, sym)) || (sym == 0 && NoneAbove(lens, |lens|, s))
  }

  /** Under a complete code there is always exactly one answer. */
  lemma DecodesUnique(lens: seq<nat>, w: seq<bool>, sym: nat, len: nat)
    requires ValidLengths(lens) && Complete(lens) && |w| >= 15 && Decodes(lens, w, sym, len)
    ensures Used(lens, sym) && Code(lens, sym) <= w && len == lens[sym]
    ensures forall t: nat | Used(lens, t) && Code(lens, t) <= w :: t == sym
  {
    var t := SomeMatches(lens, w[..15]);
    assert Code(lens, t) <= w;
  }

  /** An entry for a leaf of the fast table decodes every string through it. */
  lemma LookDecodes(lens: seq<nat>, nodes: seq<seq<bool>>, v: int, w: seq<bool>)
    requires ValidLengths(lens) && Accepted(lens) && |w| >= FAST_BITS && v >= 0
    requires LookEntry(lens, |lens|, nodes, v, w[..FAST_BITS])
    ensures Decodes(lens, w, v % 512, v / 512)
  {
    var path := w[..FAST_BITS];
    forall t: nat | Used(lens, t) && Code(lens, t) <= w ensures v % 512 == t && v / 512 == lens[t] {
      assert Code(lens, t) <= path || path <= Code(lens, t);
      if v > 0 {
        assert Code(lens, v % 512) <= w;
        AtMostOneMatches(lens, v % 512, t, w);
      }
    }
    if v > 0 {
      assert Code(lens, v % 512) <= w;
    }
  }

  /** The bits that lead to a tree node start no code. */
  lemma InnerMatchesNone(lens: seq<nat>, path: seq<bool>, t: nat)
    requires ValidLengths(lens) && Accepted(lens) && IsInner(lens, |lens|, path) && Used(lens, t)
    ensures !(Code(lens, t) <= path)
  {
    var u: nat :| u < |lens| && Used(lens, u) && path < Code(lens, u);
    if Code(lens, t) <= path {
      assert Code(lens, t) <= Code(lens, u);
      PrefixFree(lens, t, u);
    }
  }

  /** A leaf slot of the tree decodes every string that reaches it. */
  lemma SlotDecodes(lens: seq<nat>, nodes: seq<seq<bool>>, v: int, d: nat, w: seq<bool>)
    requires ValidLengths(lens) && Accepted(lens) && d < |w| && v >= 0
    requires Slot(lens, |lens|, nodes, v, w[..d + 1]) && IsInner(lens, |lens|, w[..d])
    ensures Decodes(lens, w, v, d + 1)
  {
    var path := w[..d + 1];
    forall t: nat | Used(lens, t) && Code(lens, t) <= w ensures v == t && d + 1 == lens[t] {
      InnerMatchesNone(lens, w[..d], t);
      assert path <= Code(lens, t);
      assert Used(lens, v) && Code(lens, v) == path;
      PrefixFree(lens, v, t);
    }
    if v > 0 {
      assert Code(lens, v) <= w;
    }
  }

  /** One step of the decoder down the tree. */
  lemma DecodeStep(lens: seq<nat>, nodes: seq<seq<bool>>, look: seq<int>, tree: seq<int>,
                   temp: int, d: nat, w: seq<bool>)
    requires ValidLengths(lens) && |look| == FAST_SIZE && |tree| == TREE_SIZE && d < |w|
    requires TablesOk(lens, |lens|, nodes, look, tree) && IsNodeRef(nodes, temp, w[..d])
    ensures IsInner(lens, |lens|, w[..d]) && d <= 14
    ensures 0 <= -temp - 1 + Bit(w[d]) < TREE_SIZE
    ensures Slot(lens, |lens|, nodes, tree[-temp - 1 + Bit(w[d])], w[..d + 1])
  {
    var n, k := |lens|, (-temp - 1) / 2;
    assert IsInner(lens, n, nodes[k]);
    assert SlotAt(lens, n, nodes, tree, k, w[d]);
    assert w[..d + 1] == nodes[k] + [w[d]];
  }

  // ---- the input bytes behind the bit buffer ----

  /** Byte `i` of the input; past its end the decoder reads zeros. */
  function InputByte(input: seq<nat>, i: nat): nat {
    if i < |input| then input[i] else 0
  }

  predicate IsBytes(input: seq<nat>) {
    forall i | 0 <= i < |input| :: input[i] < 256
  }

  /** The bits of input bytes from..to, in stream order. */
  function InputBits(input: seq<nat>, from: nat, to: nat): seq<bool>
    requires from <= to
  {
    if from == to then [] else InputBits(input, from, to - 1) + BitsOf(InputByte(input, to - 1), 8)
  }

  lemma InputBitsSnoc(input: seq<nat>, start: seq<bool>, from: nat, to: nat)
    requires from <= to
    ensures start + InputBits(input, from, to + 1)
         == start + InputBits(input, from, to) + BitsOf(InputByte(input, to), 8)
    ensures start + InputBits(input, from, from) == start
  {
    hide BitsOf;
    var x, y := InputBits(input, from, to), BitsOf(InputByte(input, to), 8);
    assert InputBits(input, from, to + 1) == x + y;
    Assoc(start, x, y);
  }

  /** How many bits of `w` the walk from table value `temp` at depth `d` reads. */
  ghost function WalkLen(tree: seq<int>, temp: int, w: seq<bool>, d: nat): nat
    decreases |w| - d
  {
    if temp >= 0 || d >= |w| || !(0 <= -temp - 1 + Bit(w[d]) < |tree|) then d
    else WalkLen(tree, tree[-temp - 1 + Bit(w[d])], w, d + 1)
  }

  ghost predicate WalksTo(tree: seq<int>, temp: int, w: seq<bool>, d: nat, temp': int) {
    && temp < 0 && d < |w| && 0 <= -temp - 1 + Bit(w[d]) < |tree|
    && temp' == tree[-temp - 1 + Bit(w[d])]
  }

  lemma WalkStep(tree: seq<int>, temp: int, w: seq<bool>, d: nat, temp': int)
    requires WalksTo(tree, temp, w, d, temp')
    ensures WalkLen(tree, temp, w, d) == WalkLen(tree, temp', w, d + 1)
  {
  }

  ghost function DecodeLen(look: seq<int>, tree: seq<int>, bitBuf: nat): nat
    requires |look| == FAST_SIZE
  {
    var v := look[bitBuf % FAST_SIZE];
    if v >= 0 then v / 512 else WalkLen(tree, v, BitsOf(bitBuf, 15), FAST_BITS)
  }

  /** A table entry whose code is longer than the bits at hand decodes none of them. */
  lemma EntryTooLong(lens: seq<nat>, nodes: seq<seq<bool>>, v: int, w: seq<bool>, n: nat)
    requires ValidLengths(lens) && Accepted(lens) && FAST_BITS <= |w| && n <= |w| && v >= 0
    requires LookEntry(lens, |lens|, nodes, v, w[..FAST_BITS]) && (v / 512 == 0 || n < v / 512)
    ensures NoneAbove(lens, |lens|, w[..n])
  {
    LookDecodes(lens, nodes, v, w);
    assert forall u: nat | u < |lens| && Used(lens, u) && Code(lens, u) <= w[..n] :: Code(lens, u) <= w;
  }

  /** Fewer bits than lead to a tree node decode nothing. */
  lemma InnerTooShort(lens: seq<nat>, w: seq<bool>, n: nat, d: nat)
    requires ValidLengths(lens) && Accepted(lens) && n <= d <= |w|
    requires IsInner(lens, |lens|, w[..d])
    ensures NoneAbove(lens, |lens|, w[..n])
  {
    forall u: nat | u < |lens| && Used(lens, u) ensures !(Code(lens, u) <= w[..n]) {
      InnerMatchesNone(lens, w[..d], u);
      assert w[..n] <= w[..d];
    }
  }

  lemma FirstStep(lens: seq<nat>, k: nat)
    ensures First(lens, k + 1) == if k == 0 then 0 else 2 * (First(lens, k) + Count(lens, k, |lens|))
  {
  }

  class HuffTable {
    const codeSize: array<nat>     // m_code_size
    const lookUp: array<int>       // m_look_up
    const tree: array<int>         // m_tree
    ghost var lens: seq<nat>       // the code lengths the tables were built from
    ghost var nodes: seq<seq<bool>>

    ghost predicate Shape() {
      && codeSize.Length == 288 && lookUp.Length == FAST_SIZE && tree.Length == TREE_SIZE
      && lookUp != tree && codeSize as object != lookUp && codeSize as object != tree
    }

    /** The tables decode the code given by `lens`. */
    ghost predicate Valid()
      reads this, lookUp, tree
    {
      && Shape() && ValidLengths(lens) && Accepted(lens)
      && TablesOk(lens, |lens|, nodes, lookUp[..], tree[..])
    }

    constructor ()
      ensures Shape() && fresh(codeSize) && fresh(lookUp) && fresh(tree)
    {
      codeSize := new nat[288];
      lookUp := new int[FAST_SIZE];
      tree := new int[TREE_SIZE];
    }

    /** How many of the first `size` symbols have each length. */
    method CountLengths(size: nat) returns (totalSyms: array<nat>)
      requires Shape() && size <= 288 && ValidLengths(codeSize[..size])
      ensures fresh(totalSyms) && totalSyms.Length == 16
      ensures forall l | 0 <= l < 16 :: totalSyms[l] == Count(codeSize[..size], l, size)
    {
      ghost var ls := codeSize[..size];
      totalSyms := new nat[16];
      for l := 0 to 16
        invariant forall m | 0 <= m < l :: totalSyms[m] == 0
      {
        totalSyms[l] := 0;
      }
      var i := 0;
      while i < size
        invariant 0 <= i <= size
        invariant forall l | 0 <= l < 16 :: totalSyms[l] == Count(ls, l, i)
      {
        var l := codeSize[i];
        assert l == ls[i];
        totalSyms[l] := totalSyms[l] + 1;
        i := i + 1;
      }
    }

    /** The first code of each length, the final running total, and the number of
        used symbols. */
    method FirstCodes(totalSyms: array<nat>, ghost ls: seq<nat>)
      returns (nextCode: array<nat>, total: nat, usedSyms: nat)
      requires totalSyms.Length == 16 && ValidLengths(ls)
      requires forall l | 0 <= l < 16 :: totalSyms[l] == Count(ls, l, |ls|)
      ensures fresh(nextCode) && nextCode.Length == 17
      ensures forall l | 1 <= l <= 15 :: nextCode[l] == First(ls, l)
      ensures total == First(ls, 16) && total < 0x1_0000_0000
      ensures usedSyms == UsedCount(ls, |ls|)
    {
      hide Count, UsedBelow, UsedCount, First;
      nextCode := new nat[17];
      FirstStep(ls, 0);
      nextCode[0], nextCode[1] := 0, 0;
      total, usedSyms := 0, 0;
      UsedBelowStep(ls, 1, |ls|);
      for k := 1 to 16
        invariant total == First(ls, k) && usedSyms == UsedBelow(ls, k, |ls|)
        invariant forall l | 1 <= l <= k :: nextCode[l] == First(ls, l)
      {
        UsedBelowStep(ls, k, |ls|);
        FirstStep(ls, k);
        usedSyms := usedSyms + totalSyms[k];
        total := (total + totalSyms[k]) * 2;
        nextCode[k + 1] := total;
      }
      UsedBelowAll(ls, |ls|);
      TotalFits(ls);
    }

    /** Reverse the low `size` bits of a code. */
    method ReverseCode(code: nat, size: nat) returns (rev: nat)
      ensures rev < Pow2(size) && BitsOf(rev, size) == CodeBits(code, size)
    {
      rev := 0;
      var cur, l := code, size;
      while l > 0
        invariant 0 <= l <= size && rev < Pow2(size - l)
        invariant CodeBits(code, size) == CodeBits(cur, l) + BitsOf(rev, size - l)
      {
        ghost var oldRev, bit := rev, cur % 2;
        assert CodeBits(cur, l) + BitsOf(rev, size - l)
            == CodeBits(cur / 2, l - 1) + ([bit == 1] + BitsOf(rev, size - l));
        rev := rev * 2 + cur % 2;
        assert BitsOf(rev, size - l + 1) == [bit == 1] + BitsOf(oldRev, size - l);
        cur := cur / 2;
        l := l - 1;
      }
    }

    /** Write `k` into every entry of the lookup table that the code `c` starts. */
    method FillLookUp(k: int, size: nat, rev: nat, ghost c: seq<bool>)
      requires Shape() && size <= FAST_BITS && rev < Pow2(size) && BitsOf(rev, size) == c
      modifies lookUp
      ensures forall i: nat | i < FAST_SIZE ::
                lookUp[i] == if c <= BitsOf(i, FAST_BITS) then k else old(lookUp[i])
    {
      var r, step := rev, Pow2(size);
      StepStart(size, rev);
      while r < FAST_SIZE
        invariant r % step == rev
        invariant forall i: nat | i < FAST_SIZE ::
                    lookUp[i] == if i < r && c <= BitsOf(i, FAST_BITS) then k else old(lookUp[i])
        decreases FAST_SIZE - r
      {
        StepAhead(r, size, rev);
        lookUp[r] := k;
        r := r + step;
      }
    }

    /** Enter a code of at most ten bits into every table entry it starts. */
    method InsertShort(sym: nat, size: nat, rev: nat)
      requires Shape() && ValidLengths(lens) && sym < |lens|
      requires Used(lens, sym) && lens[sym] == size <= FAST_BITS
      requires rev < Pow2(size) && BitsOf(rev, size) == Code(lens, sym)
      requires TablesOk(lens, sym, nodes, lookUp[..], tree[..])
      modifies lookUp
      ensures TablesOk(lens, sym + 1, nodes, lookUp[..], tree[..])
    {
      ghost var look, tr := lookUp[..], tree[..];
      FillLookUp(size * 512 + sym, size, rev, Code(lens, sym));
      assert tree[..] == tr;
      ShortInserted(lens, sym, nodes, look, lookUp[..], tr);
    }

    /** Find or make the node for the first ten bits of a long code. */
    method StartNode(sym: nat, idx: nat, treeNext: int) returns (cur: int, treeNext': int)
      requires Shape() && ValidLengths(lens) && Accepted(lens) && sym < |lens|
      requires Used(lens, sym) && lens[sym] > FAST_BITS && idx < FAST_SIZE
      requires BitsOf(idx, FAST_BITS) == Code(lens, sym)[..FAST_BITS]
      requires TablesOk(lens, sym, nodes, lookUp[..], tree[..]) && treeNext == NodeRef(|nodes|)
      modifies this`nodes, lookUp
      ensures treeNext' == NodeRef(|nodes|)
      ensures Threading(lens, sym, Code(lens, sym), FAST_BITS, cur, nodes, lookUp[..], tree[..])
    {
      ghost var look, tr := lookUp[..], tree[..];
      StartThreading(lens, sym, nodes, look, tr, idx);
      cur, treeNext' := lookUp[idx], treeNext;
      if cur == 0 {
        lookUp[idx] := treeNext;
        assert lookUp[..] == look[idx := treeNext] && tree[..] == tr;
        cur, treeNext' := treeNext, treeNext - 2;
        nodes := nodes + [BitsOf(idx, FAST_BITS)];
      }
    }

    /** Shift out the next code bit, then follow or make the node it leads to. */
    method StepNode(sym: nat, cur0: int, rev0: nat, treeNext: int, ghost revCode: nat, ghost d: nat)
      returns (cur: int, rev: nat, treeNext': int)
      requires Shape() && ValidLengths(lens) && Accepted(lens) && sym < |lens| && Used(lens, sym)
      requires 0 < d && d + 1 < lens[sym] && BitsOf(revCode, lens[sym]) == Code(lens, sym)
      requires Threading(lens, sym, Code(lens, sym), d, cur0, nodes, lookUp[..], tree[..])
      requires treeNext == NodeRef(|nodes|) && rev0 == Shr(revCode, d - 1)
      modifies this`nodes, tree
      ensures treeNext' == NodeRef(|nodes|) && rev == Shr(revCode, d)
      ensures Threading(lens, sym, Code(lens, sym), d + 1, cur, nodes, lookUp[..], tree[..])
    {
      ghost var c, look, tr := Code(lens, sym), lookUp[..], tree[..];
      NextCodeBit(revCode, |c|, d);
      rev := rev0 / 2;
      cur := cur0 - rev % 2;
      StepThreading(lens, sym, c, d, cur0, nodes, look, tr, -cur - 1);
      if tree[-cur - 1] == 0 {
        tree[-cur - 1] := treeNext;
        assert tree[..] == tr[-cur - 1 := treeNext] && lookUp[..] == look;
        cur, treeNext' := treeNext, treeNext - 2;
        nodes := nodes + [c[..d + 1]];
      } else {
        cur, treeNext' := tree[-cur - 1], treeNext;
      }
    }

    /** Store the symbol in slot -cur - 1. */
    method EndNode(sym: nat, cur: int, ghost c: seq<bool>)
      requires Shape() && sym < |lens| && |c| > FAST_BITS
      requires Threading(lens, sym, c, |c| - 1, cur + Bit(c[|c| - 1]), nodes, lookUp[..], tree[..])
      modifies tree
      ensures TablesOk(lens, sym + 1, nodes, lookUp[..], tree[..])
    {
      ghost var look, tr := lookUp[..], tree[..];
      EndThreading(lens, sym, c, cur + Bit(c[|c| - 1]), nodes, look, tr, -cur - 1);
      tree[-cur - 1] := sym;
      assert tree[..] == tr[-cur - 1 := sym] && lookUp[..] == look;
    }

    /** Thread a code longer than ten bits through the tree. */
    method InsertLong(sym: nat, size: nat, revCode: nat, treeNext: int) returns (treeNext': int)
      requires Shape() && ValidLengths(lens) && Accepted(lens) && sym < |lens|
      requires Used(lens, sym) && lens[sym] == size > FAST_BITS
      requires BitsOf(revCode, size) == Code(lens, sym)
      requires TablesOk(lens, sym, nodes, lookUp[..], tree[..]) && treeNext == NodeRef(|nodes|)
      modifies this`nodes, lookUp, tree
      ensures TablesOk(lens, sym + 1, nodes, lookUp[..], tree[..]) && treeNext' == NodeRef(|nodes|)
    {
      hide TablesOk, Threading, BitsOf, Pow2, Code;
      ghost var c := Code(lens, sym);
      LowTenBits(revCode, size);
      var cur;
      cur, treeNext' := StartNode(sym, revCode % FAST_SIZE, treeNext);
      var rev, j := Shr(revCode, FAST_BITS - 1), size;
      while j > FAST_BITS + 1
        invariant FAST_BITS + 1 <= j <= size
        invariant rev == Shr(revCode, FAST_BITS - 1 + (size - j))
        invariant treeNext' == NodeRef(|nodes|)
        invariant Threading(lens, sym, c, FAST_BITS + (size - j), cur, nodes, lookUp[..], tree[..])
      {
        cur, rev, treeNext' := StepNode(sym, cur, rev, treeNext', revCode, FAST_BITS + (size - j));
        j := j - 1;
      }
      NextCodeBit(revCode, size, size - 1);
      rev := rev / 2;
      EndNode(sym, cur - rev % 2, c);
    }

    /** Enter one used symbol, given its code number. */
    method InsertSymbol(sym: nat, size: nat, code: nat, treeNext: int) returns (treeNext': int)
      requires Shape() && ValidLengths(lens) && Accepted(lens) && sym < |lens|
      requires Used(lens, sym) && lens[sym] == size && code == CodeNum(lens, sym)
      requires TablesOk(lens, sym, nodes, lookUp[..], tree[..]) && treeNext == NodeRef(|nodes|)
      modifies this`nodes, lookUp, tree
      ensures TablesOk(lens, sym + 1, nodes, lookUp[..], tree[..]) && treeNext' == NodeRef(|nodes|)
    {
      var revCode := ReverseCode(code, size);
      if size <= FAST_BITS {
        InsertShort(sym, size, revCode);
        treeNext' := treeNext;
      } else {
        treeNext' := InsertLong(sym, size, revCode, treeNext);
      }
    }

    /** Clear both tables. */
    method Clear(ghost ls: seq<nat>)
      requires Shape()
      modifies this`nodes, lookUp, tree
      ensures nodes == [] && TablesOk(ls, 0, nodes, lookUp[..], tree[..])
    {
      nodes := [];
      forall i | 0 <= i < FAST_SIZE { lookUp[i] := 0; }
      forall i | 0 <= i < TREE_SIZE { tree[i] := 0; }
    }

    /** Enter every used symbol of `lens`, in order. */
    method InsertAll(nextCode: array<nat>, size: nat)
      requires Shape() && ValidLengths(lens) && Accepted(lens)
      requires size <= 288 && codeSize[..size] == lens
      requires nextCode.Length == 17 && nextCode != codeSize
      requires nextCode as object != lookUp && nextCode as object != tree
      requires forall l | 1 <= l <= 15 :: nextCode[l] == First(lens, l)
      requires nodes == [] && TablesOk(lens, 0, nodes, lookUp[..], tree[..])
      modifies this`nodes, lookUp, tree, nextCode
      ensures TablesOk(lens, |lens|, nodes, lookUp[..], tree[..])
    {
      var treeNext, sym := -1, 0;
      while sym < size
        invariant 0 <= sym <= size && codeSize[..size] == lens
        invariant NextCodes(lens, sym, nextCode[..])
        invariant TablesOk(lens, sym, nodes, lookUp[..], tree[..]) && treeNext == NodeRef(|nodes|)
      {
        var cs := codeSize[sym];
        assert cs == lens[sym];
        ghost var nc := nextCode[..];
        NextCodesStep(lens, sym, nc);
        if cs == 0 {
          SkipUnused(lens, sym, nodes, lookUp[..], tree[..]);
        } else {
          var curCode := nextCode[cs];
          treeNext := InsertSymbol(sym, cs, curCode, treeNext);
          nextCode[cs] := curCode + 1;
          assert nextCode[..] == nc[cs := nc[cs] + 1];
        }
        sym := sym + 1;
      }
    }

    /** Build both tables from the first `size` code lengths. */
    method Build(size: nat) returns (ok: bool)
      requires Shape() && size <= 288 && ValidLengths(codeSize[..size])
      modifies this, lookUp, tree
      ensures ok == Accepted(codeSize[..size])
      ensures ok ==> Valid() && lens == codeSize[..size]
    {
      ghost var ls := codeSize[..size];
      Clear(ls);
      lens := ls;
      assert codeSize[..size] == ls;
      var totalSyms := CountLengths(size);
      var nextCode, total, usedSyms := FirstCodes(totalSyms, ls);
      FirstIsKraft(ls, 16);
      if total != 65536 && usedSyms > 1 {
        return false;
      }
      InsertAll(nextCode, size);
      return true;
    }

    /** Read the next symbol from a bit buffer; its low fifteen bits decide. */
    method Decode(bitBuf: nat) returns (sym: nat, codeLen: nat)
      requires Valid()
      ensures Decodes(lens, BitsOf(bitBuf, 15), sym, codeLen) && codeLen <= 15
      ensures codeLen == DecodeLen(lookUp[..], tree[..], bitBuf)
    {
      ghost var w := BitsOf(bitBuf, 15);
      LowTenBits(bitBuf, 15);
      var idx := bitBuf % FAST_SIZE;
      var temp := lookUp[idx];
      assert LookEntry(lens, |lens|, nodes, lookUp[..][idx], w[..FAST_BITS]);
      if temp >= 0 {
        LookDecodes(lens, nodes, temp, w);
        codeLen := temp / 512;
        sym := temp % 512;
      } else {
        codeLen := FAST_BITS;
        while temp < 0
          invariant FAST_BITS <= codeLen <= 15
          invariant temp < 0 ==> IsNodeRef(nodes, temp, w[..codeLen])
          invariant temp >= 0 ==> Decodes(lens, w, temp, codeLen)
          invariant DecodeLen(lookUp[..], tree[..], bitBuf) == WalkLen(tree[..], temp, w, codeLen)
          decreases temp < 0, 15 - codeLen
        {
          ghost var prev := temp;
          temp := NextSlot(temp, bitBuf, codeLen, 15);
          WalkStep(tree[..], prev, w, codeLen, temp);
          codeLen := codeLen + 1;
        }
        sym := temp;
      }
    }

    /** Can the next symbol be decoded from the `numBits` bits at hand? */
    method Decodable(bitBuf: nat, numBits: nat) returns (enough: bool)
      requires Valid() && numBits < 15
      ensures enough ==> DecodeLen(lookUp[..], tree[..], bitBuf) <= numBits
      ensures !enough ==> NoneAbove(lens, |lens|, BitsOf(bitBuf, numBits))
      ensures enough && Complete(lens) ==> !NoneAbove(lens, |lens|, BitsOf(bitBuf, numBits))
    {
      ghost var w := BitsOf(bitBuf, 15);
      LowTenBits(bitBuf, 15);
      BitsOfPrefix(bitBuf, 15, numBits);
      var idx := bitBuf % FAST_SIZE;
      var temp := lookUp[idx];
      assert LookEntry(lens, |lens|, nodes, lookUp[..][idx], w[..FAST_BITS]);
      if temp >= 0 {
        var codeLen := temp / 512;
        enough := codeLen != 0 && numBits >= codeLen;
        if !enough {
          EntryTooLong(lens, nodes, temp, w, numBits);
        } else {
          LookDecodes(lens, nodes, temp, w);
          WholeCode(lens, bitBuf, numBits, temp % 512, codeLen);
        }
      } else if numBits > FAST_BITS {
        ghost var sym, len;
        enough, sym, len := WalkAvailable(temp, bitBuf, numBits);
        if enough {
          WholeCode(lens, bitBuf, numBits, sym, len);
        }
      } else {
        enough := false;
        assert IsInner(lens, |lens|, nodes[(-temp - 1) / 2]);
        InnerTooShort(lens, w, numBits, FAST_BITS);
      }
    }

    /** Walk the tree as far as the bits at hand allow. */
    method WalkAvailable(start: int, bitBuf: nat, numBits: nat) returns (leaf: bool, ghost sym: nat, ghost len: nat)
      requires Valid() && FAST_BITS < numBits < 15
      requires IsNodeRef(nodes, start, BitsOf(bitBuf, 15)[..FAST_BITS])
      ensures leaf ==> WalkLen(tree[..], start, BitsOf(bitBuf, 15), FAST_BITS) <= numBits
      ensures !leaf ==> NoneAbove(lens, |lens|, BitsOf(bitBuf, 15)[..numBits])
      ensures leaf ==> Decodes(lens, BitsOf(bitBuf, 15), sym, len) && len <= numBits
    {
      ghost var w := BitsOf(bitBuf, 15);
      var temp, codeLen := start, FAST_BITS;
      while temp < 0 && numBits >= codeLen + 1
        invariant FAST_BITS <= codeLen <= numBits
        invariant temp < 0 ==> IsNodeRef(nodes, temp, w[..codeLen])
        invariant temp >= 0 ==> Decodes(lens, w, temp, codeLen)
        invariant WalkLen(tree[..], start, w, FAST_BITS) == WalkLen(tree[..], temp, w, codeLen)
        decreases numBits - codeLen
      {
        ghost var prev := temp;
        temp := NextSlot(temp, bitBuf, codeLen, 15);
        WalkStep(tree[..], prev, w, codeLen, temp);
        codeLen := codeLen + 1;
      }
      leaf := temp >= 0;
      sym, len := if leaf then temp else 0, codeLen;
      if !leaf {
        assert IsInner(lens, |lens|, nodes[(-temp - 1) / 2]);
        InnerTooShort(lens, w, numBits, numBits);
      }
    }

    /** Fetch bytes one at a time until the next symbol can be decoded or fifteen
        bits are at hand: the path used at the very end of the input. */
    method FillBits(input: seq<nat>, bitBuf: nat, numBits: nat, pos: nat)
      returns (bitBuf': nat, numBits': nat, pos': nat)
      requires Valid() && IsBytes(input) && numBits < 15 && bitBuf < Pow2(numBits)
      ensures bitBuf' < Pow2(numBits') && pos <= pos' && numBits' == numBits + 8 * (pos' - pos) < 23
      ensures BitsOf(bitBuf', numBits') == BitsOf(bitBuf, numBits) + InputBits(input, pos, pos')
      ensures numBits' >= 15 || DecodeLen(lookUp[..], tree[..], bitBuf') <= numBits'
      ensures pos' > pos ==>
                NoneAbove(lens, |lens|, BitsOf(bitBuf, numBits) + InputBits(input, pos, pos' - 1))
    {
      bitBuf', numBits', pos' := bitBuf, numBits, pos;
      ghost var start := BitsOf(bitBuf, numBits);
      ghost var short := start;
      while numBits' < 15
        invariant bitBuf' < Pow2(numBits') && pos <= pos' && numBits' == numBits + 8 * (pos' - pos) < 23
        invariant BitsOf(bitBuf', numBits') == start + InputBits(input, pos, pos')
        invariant pos' > pos ==>
                    short == start + InputBits(input, pos, pos' - 1) && NoneAbove(lens, |lens|, short)
        decreases 15 - numBits'
      {
        var enough := Decodable(bitBuf', numBits');
        if enough {
          break;
        }
        short := BitsOf(bitBuf', numBits');
        bitBuf' := AddByte(input, bitBuf', numBits', pos');
        InputBitsSnoc(input, start, pos, pos');
        numBits' := numBits' + 8;
        pos' := pos' + 1;
      }
    }

    /** Put the next input byte on top of the bit buffer.  The two parts have no
        bits in common, so the bitwise OR is a sum. */
    static method AddByte(input: seq<nat>, bitBuf: nat, numBits: nat, pos: nat) returns (bitBuf': nat)
      requires IsBytes(input) && bitBuf < Pow2(numBits)
      ensures bitBuf' < Pow2(numBits + 8)
      ensures BitsOf(bitBuf', numBits + 8) == BitsOf(bitBuf, numBits) + BitsOf(InputByte(input, pos), 8)
    {
      var c := InputByte(input, pos);
      assert c < Pow2(8);
      BitsOfAppend(bitBuf, numBits, c, 8);
      bitBuf' := bitBuf + c * Pow2(numBits);
    }

    /** Make sure the next symbol is in the bit buffer. */
    method Refill(input: seq<nat>, bitBuf: nat, numBits: nat, pos: nat)
      returns (bitBuf': nat, numBits': nat, pos': nat)
      requires Valid() && IsBytes(input) && bitBuf < Pow2(numBits)
      ensures bitBuf' < Pow2(numBits') && pos <= pos' && numBits' == numBits + 8 * (pos' - pos)
      ensures BitsOf(bitBuf', numBits') == BitsOf(bitBuf, numBits) + InputBits(input, pos, pos')
      ensures numBits' >= 15 || DecodeLen(lookUp[..], tree[..], bitBuf') <= numBits'
      ensures numBits >= 15 ==> pos' == pos
      ensures numBits < 15 ==> numBits' <= 30
      ensures |input| < pos + 2 && pos' > pos ==>
                NoneAbove(lens, |lens|, BitsOf(bitBuf, numBits) + InputBits(input, pos, pos' - 1))
    {
      hide BitsOf, Pow2, NoneAbove, DecodeLen;
      bitBuf', numBits', pos' := bitBuf, numBits, pos;
      if numBits < 15 {
        if |input| < pos + 2 {
          bitBuf', numBits', pos' := FillBits(input, bitBuf, numBits, pos);
        } else {
          bitBuf' := AddByte(input, bitBuf, numBits, pos);
          bitBuf' := AddByte(input, bitBuf', numBits + 8, pos + 1);
          numBits', pos' := numBits + 16, pos + 2;
          InputBitsSnoc(input, BitsOf(bitBuf, numBits), pos, pos);
          InputBitsSnoc(input, BitsOf(bitBuf, numBits), pos, pos + 1);
        }
      }
    }

    /** Decode one symbol from the stream formed by the bit buffer and the input
        bytes from `pos` on.  The code is taken off the front of that stream and
        nothing else is lost; close to the end of the input no byte is fetched
        unless the bits at hand are not enough. */
    method HuffDecode(input: seq<nat>, bitBuf: nat, numBits: nat, pos: nat)
      returns (sym: nat, bitBuf': nat, numBits': nat, pos': nat, ghost code: seq<bool>)
      requires Valid() && IsBytes(input) && bitBuf < Pow2(numBits)
      ensures bitBuf' < Pow2(numBits') && pos <= pos'
      ensures BitsOf(bitBuf, numBits) + InputBits(input, pos, pos') == code + BitsOf(bitBuf', numBits')
      ensures Found(lens, BitsOf(bitBuf, numBits) + InputBits(input, pos, pos'), sym, code)
      ensures Complete(lens) ==> Used(lens, sym) && code == Code(lens, sym)
      ensures numBits >= 15 ==> pos' == pos
      ensures |input| < pos + 2 && pos' > pos ==>
                NoneAbove(lens, |lens|, BitsOf(bitBuf, numBits) + InputBits(input, pos, pos' - 1))
    {
      var buf, n;
      buf, n, pos' := Refill(input, bitBuf, numBits, pos);
      var codeLen;
      sym, codeLen := Decode(buf);
      TakeCode(lens, buf, n, sym, codeLen);
      bitBuf', numBits' := Shr(buf, codeLen), n - codeLen;
      code := BitsOf(buf, codeLen);
    }

    /** The slot one bit further on. */
    method NextSlot(temp: int, bitBuf: nat, d: nat, n: nat) returns (temp': int)
      requires Valid() && d < n && IsNodeRef(nodes, temp, BitsOf(bitBuf, n)[..d])
      ensures IsInner(lens, |lens|, BitsOf(bitBuf, n)[..d]) && d <= 14
      ensures temp' < 0 ==> IsNodeRef(nodes, temp', BitsOf(bitBuf, n)[..d + 1])
      ensures temp' >= 0 ==> Decodes(lens, BitsOf(bitBuf, n), temp', d + 1)
      ensures WalksTo(tree[..], temp, BitsOf(bitBuf, n), d, temp')
    {
      ghost var w := BitsOf(bitBuf, n);
      DecodeStep(lens, nodes, lookUp[..], tree[..], temp, d, w);
      BitsOfAt(bitBuf, n, d);
      temp' := tree[-temp - 1 + Shr(bitBuf, d) % 2];
      assert temp' == tree[..][-temp - 1 + Bit(w[d])];
      if temp' >= 0 {
        SlotDecodes(lens, nodes, temp', d, w);
      }
    }
  }

  /** Shifting a decoded code out of the buffer leaves the bits after it. */
  lemma TakeCode(lens: seq<nat>, buf: nat, n: nat, sym: nat, codeLen: nat)
    requires ValidLengths(lens) && buf < Pow2(n) && codeLen <= n && codeLen <= 15
    requires Decodes(lens, BitsOf(buf, 15), sym, codeLen)
    ensures BitsOf(buf, n) == BitsOf(buf, codeLen) + BitsOf(Shr(buf, codeLen), n - codeLen)
    ensures Shr(buf, codeLen) < Pow2(n - codeLen)
    ensures Found(lens, BitsOf(buf, n), sym, BitsOf(buf, codeLen))
    ensures Complete(lens) ==> Used(lens, sym) && BitsOf(buf, codeLen) == Code(lens, sym)
  {
    ShiftOut(buf, codeLen, n - codeLen);
    FoundInBuffer(lens, buf, n, sym, codeLen);
    if Complete(lens) {
      CodeAtFront(lens, buf, sym, codeLen);
    }
  }

  /** Under a complete code, an answer within the bits at hand is a whole code among them. */
  lemma WholeCode(lens: seq<nat>, buf: nat, n: nat, sym: nat, len: nat)
    requires ValidLengths(lens) && len <= n <= 15 && Decodes(lens, BitsOf(buf, 15), sym, len)
    ensures Complete(lens) ==> !NoneAbove(lens, |lens|, BitsOf(buf, n))
  {
    if Complete(lens) {
      DecodesUnique(lens, BitsOf(buf, 15), sym, len);
      BitsOfPrefix(buf, 15, n);
      assert Code(lens, sym) <= BitsOf(buf, n);
    }
  }

  /** A code found in the low fifteen bits is found in the buffer, and the other way round. */
  lemma FoundInBuffer(lens: seq<nat>, buf: nat, n: nat, sym: nat, codeLen: nat)
    requires ValidLengths(lens) && codeLen <= n && codeLen <= 15 && Decodes(lens, BitsOf(buf, 15), sym, codeLen)
    ensures Found(lens, BitsOf(buf, n), sym, BitsOf(buf, codeLen))
  {
    hide BitsOf, Code;
    var w := BitsOf(buf, 15);
    if t: nat :| t < |lens| && Used(lens, t) && Code(lens, t) <= w {
      BitsOfPrefix(buf, 15, codeLen);
    } else {
      forall t: nat | t < |lens| && Used(lens, t) ensures !(Code(lens, t) <= BitsOf(buf, n)) {
        if Code(lens, t) <= BitsOf(buf, n) {
          BitsOfPrefix(buf, n, lens[t]);
          BitsOfPrefix(buf, 15, lens[t]);
        }
      }
    }
  }

  lemma CodeAtFront(lens: seq<nat>, buf: nat, sym: nat, codeLen: nat)
    requires ValidLengths(lens) && Complete(lens) && codeLen <= 15
    requires Decodes(lens, BitsOf(buf, 15), sym, codeLen)
    ensures Used(lens, sym) && BitsOf(buf, codeLen) == Code(lens, sym)
  {
    DecodesUnique(lens, BitsOf(buf, 15), sym, codeLen);
    BitsOfPrefix(buf, 15, codeLen);
  }

  lemma ShiftOut(buf: nat, m: nat, n: nat)
    requires buf < Pow2(m + n)
    ensures BitsOf(buf, m + n) == BitsOf(buf, m) + BitsOf(Shr(buf, m), n) && Shr(buf, m) < Pow2(n)
  {
    BitsOfSplit(buf, m, n);
    ShrBound(buf, m, n);
  }

  /** A ten-bit string starts with `rev` exactly when it is congruent to it. */
  lemma PrefixIsCongruence(i: nat, size: nat, rev: nat)
    requires size <= FAST_BITS && rev < Pow2(size)
    ensures (BitsOf(rev, size) <= BitsOf(i, FAST_BITS)) == (i % Pow2(size) == rev)
  {
    BitsOfPrefix(i, FAST_BITS, size);
    BitsOfMod(i, size, size);
    if BitsOf(rev, size) <= BitsOf(i, FAST_BITS) {
      assert BitsOf(i, size) == BitsOf(rev, size);
      BitsOfInjective(i % Pow2(size), rev, size);
    }
  }

  /** No entry before `rev` starts with it. */
  lemma StepStart(size: nat, rev: nat)
    requires size <= FAST_BITS && rev < Pow2(size)
    ensures rev % Pow2(size) == rev
    ensures forall i: nat | i < rev :: !(BitsOf(rev, size) <= BitsOf(i, FAST_BITS))
  {
    ModSmall(rev, Pow2(size));
    forall i: nat | i < rev ensures !(BitsOf(rev, size) <= BitsOf(i, FAST_BITS)) {
      PrefixIsCongruence(i, size, rev);
      ModSmall(i, Pow2(size));
    }
  }

  /** From one entry that starts with `rev` the next one is Pow2(size) further on. */
  lemma StepAhead(r: nat, size: nat, rev: nat)
    requires size <= FAST_BITS && rev < Pow2(size) && r % Pow2(size) == rev
    ensures BitsOf(rev, size) <= BitsOf(r, FAST_BITS) && (r + Pow2(size)) % Pow2(size) == rev
    ensures forall i: nat | r < i < r + Pow2(size) :: !(BitsOf(rev, size) <= BitsOf(i, FAST_BITS))
  {
    hide BitsOf, Pow2;
    PrefixIsCongruence(r, size, rev);
    NextCongruent(r, Pow2(size));
    forall i: nat | r < i < r + Pow2(size) ensures !(BitsOf(rev, size) <= BitsOf(i, FAST_BITS)) {
      PrefixIsCongruence(i, size, rev);
    }
  }

  lemma LowTenBits(x: nat, n: nat)
    requires n >= FAST_BITS
    ensures BitsOf(x % FAST_SIZE, FAST_BITS) == BitsOf(x, n)[..FAST_BITS]
  {
    assert Pow2(FAST_BITS) == FAST_SIZE;
    BitsOfMod(x, FAST_BITS, FAST_BITS);
    BitsOfPrefix(x, n, FAST_BITS);
  }

  /** Shifting once more exposes the next bit of the code. */
  lemma NextCodeBit(x: nat, n: nat, d: nat)
    requires 0 < d < n
    ensures Shr(x, d - 1) / 2 == Shr(x, d)
    ensures Bit(BitsOf(x, n)[d]) == Shr(x, d) % 2
  {
    ShrAdd(x, d - 1, 1);
    BitsOfAt(x, n, d);
  }
}
