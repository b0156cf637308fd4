/** Nodes of a tree by their paths: how the reading functions get from one to another, and what
    writing into a property in place leaves as it is. */
module FdtNodes {
  import opened Bits
  import opened Common
  import opened FdtFormat
  import opened FdtTree
  import opened FdtBlob
  import opened FdtReader
  import opened FdtEdit
  import opened FdtTreeEdit
  import R = FdtRoundTrip

  /** The offset of the node at a path. */
  ghost function At(t: Tree, path: seq<nat>): nat
    requires PathOk(t, path)
  {
    SizeOf(Ahead(t, path))
  }

  /** The blob of a tree. */
  ghost predicate Holds(f: Fdt, t: Tree)
    reads f, f.buf
  {
    Editable(f, Items(t) + [End])
  }

  // ---- trees that differ in data only ----

  predicate AlikeProps(a: Props, b: Props) {
    |a| == |b| && forall i | 0 <= i < |a| :: a[i].0 == b[i].0 && |a[i].1| == |b[i].1|
  }

  /** The same nodes, names and property names, and data of the same lengths. */
  predicate Alike(t: Tree, u: Tree)
    decreases t
  {
    && t.name == u.name && AlikeProps(t.props, u.props) && |t.children| == |u.children|
    && forall i | 0 <= i < |t.children| :: Alike(t.children[i], u.children[i])
  }

  lemma {:induction false} AlikeSelf(t: Tree)
    ensures Alike(t, t)
    decreases t
  {
    forall i | 0 <= i < |t.children| ensures Alike(t.children[i], t.children[i]) {
      AlikeSelf(t.children[i]);
    }
  }

  lemma {:induction false} AlikeTrans(t: Tree, u: Tree, v: Tree)
    requires Alike(t, u) && Alike(u, v)
    ensures Alike(t, v)
    decreases t
  {
    forall i | 0 <= i < |t.children| ensures Alike(t.children[i], v.children[i]) {
      AlikeTrans(t.children[i], u.children[i], v.children[i]);
    }
  }

  lemma {:induction false} AlikePropItems(a: Props, b: Props)
    requires AlikeProps(a, b)
    ensures SizeOf(PropItems(a)) == SizeOf(PropItems(b))
  {
    if a != [] {
      AlikePropItems(a[1..], b[1..]);
      SizeOfCons(Property(a[0].0, a[0].1), PropItems(a[1..]));
      SizeOfCons(Property(b[0].0, b[0].1), PropItems(b[1..]));
    }
  }

  lemma {:induction false} SizeOfCons(it: Item, r: seq<Item>)
    ensures SizeOf([it] + r) == Size(it) + SizeOf(r)
  {
    assert ([it] + r)[1..] == r;
  }

  lemma {:induction false} SizeOfThree(a: seq<Item>, b: seq<Item>, c: seq<Item>)
    ensures SizeOf(a + b + c) == SizeOf(a) + SizeOf(b) + SizeOf(c)
  {
    SizeOfAppend(a + b, c);
    SizeOfAppend(a, b);
  }

  lemma {:induction false} AlikeItems(t: Tree, u: Tree)
    requires Alike(t, u)
    ensures SizeOf(Items(t)) == SizeOf(Items(u))
    decreases t, 1
  {
    AlikePropItems(t.props, u.props);
    AlikeForest(t.children, u.children);
    SizeOfThree([BeginNode(t.name)], PropItems(t.props), Forest(t.children));
    SizeOfThree([BeginNode(u.name)], PropItems(u.props), Forest(u.children));
    SizeOfAppend([BeginNode(t.name)] + PropItems(t.props) + Forest(t.children), [EndNode]);
    SizeOfAppend([BeginNode(u.name)] + PropItems(u.props) + Forest(u.children), [EndNode]);
  }

  predicate AlikeAll(ts: seq<Tree>, us: seq<Tree>) {
    |ts| == |us| && forall i | 0 <= i < |ts| :: Alike(ts[i], us[i])
  }

  lemma {:induction false} AlikeForest(ts: seq<Tree>, us: seq<Tree>)
    requires AlikeAll(ts, us)
    ensures SizeOf(Forest(ts)) == SizeOf(Forest(us))
    decreases ts, 0
  {
    if ts != [] {
      AlikeItems(ts[0], us[0]);
      AlikeForest(ts[1..], us[1..]);
      SizeOfAppend(Items(ts[0]), Forest(ts[1..]));
      SizeOfAppend(Items(us[0]), Forest(us[1..]));
    }
  }

  /** Paths lead to the same offsets in both. */
  lemma {:induction false} AlikeAt(t: Tree, u: Tree, path: seq<nat>)
    requires Alike(t, u) && PathOk(t, path)
    ensures PathOk(u, path) && At(u, path) == At(t, path) && Alike(NodeOf(t, path), NodeOf(u, path))
    decreases path
  {
    if path != [] {
      var i, rest := path[0], path[1..];
      AlikeAt(t.children[i], u.children[i], rest);
      AlikePropItems(t.props, u.props);
      AlikeForest(t.children[..i], u.children[..i]);
      AheadSize(t, path);
      AheadSize(u, path);
    }
  }

  lemma {:induction false} AheadSize(t: Tree, path: seq<nat>)
    requires PathOk(t, path) && path != []
    ensures var i := path[0];
      At(t, path) == Size(BeginNode(t.name)) + SizeOf(PropItems(t.props)) + SizeOf(Forest(t.children[..i])) + At(t.children[i], path[1..])
  {
    var i := path[0];
    var h, p, f := [BeginNode(t.name)], PropItems(t.props), Forest(t.children[..i]);
    SizeOfOne(BeginNode(t.name));
    SizeOfThree(h, p, f);
    SizeOfAppend(h + p + f, Ahead(t.children[i], path[1..]));
  }

  lemma {:induction false} AlikeReplace(t: Tree, path: seq<nat>, n: Tree)
    requires PathOk(t, path) && Alike(NodeOf(t, path), n)
    ensures Alike(t, Replace(t, path, n))
    decreases path
  {
    if path != [] {
      AlikeReplace(t.children[path[0]], path[1..], n);
      forall i | 0 <= i < |t.children| && i != path[0] ensures Alike(t.children[i], t.children[i]) {
        AlikeSelf(t.children[i]);
      }
    }
  }

  lemma {:induction false} AlikeSet(props: Props, name: seq<Byte>, val: seq<Byte>)
    requires Lookup(props, name).Some? && |Lookup(props, name).value| == |val|
    ensures AlikeProps(props, SetProp(props, name, val))
  {
    LookupIndex(props, name);
  }

  lemma {:induction false} LookupIndex(props: Props, name: seq<Byte>)
    ensures var i := PropIndex(props, name); Lookup(props, name) == if i < |props| then Some(props[i].1) else None
  {
    if props != [] && props[0].0 != name {
      LookupIndex(props[1..], name);
    }
  }

  lemma {:induction false} AlikeWithProp(t: Tree, path: seq<nat>, name: seq<Byte>, val: seq<Byte>)
    requires PathOk(t, path) && Lookup(NodeOf(t, path).props, name).Some? && |Lookup(NodeOf(t, path).props, name).value| == |val|
    ensures Alike(t, WithProp(t, path, name, val))
  {
    var n := NodeOf(t, path);
    AlikeSet(n.props, name, val);
    AlikeSelf(n);
    AlikeReplace(t, path, n.(props := SetProp(n.props, name, val)));
  }

  // ---- reading a node ----

  /** What stands at index k: a node, its properties, and its end. */
  ghost predicate NodeIs(items: seq<Item>, k: nat, n: Tree) {
    && k < |items| && items[k] == BeginNode(n.name) && PropsOf(items[k + 1..]) == n.props
    && Stand(items, k, Items(n)) && EndAt(items, k + 1, 0) == Some(k + |Items(n)|)
  }

  lemma {:induction false} NodeAmong(pre: seq<Item>, n: Tree, post: seq<Item>)
    ensures NodeIs(pre + Items(n) + post, |pre|, n) && Off(pre + Items(n) + post, |pre|) == SizeOf(pre)
  {
    hide Stand, EndAt, PropsOf, Off;
    NodeAt(pre, n, post);
    OffOf(pre, Items(n), post);
    StandMiddle(pre, Items(n), post);
    EndInTree(pre, n, post);
    PropsInNode(pre, n, post);
  }

  /** The node at a path among the items of its tree. */
  lemma {:induction false} InTree(t: Tree, path: seq<nat>)
    requires PathOk(t, path)
    ensures NodeIs(Items(t) + [End], |Ahead(t, path)|, NodeOf(t, path))
    ensures Off(Items(t) + [End], |Ahead(t, path)|) == At(t, path)
  {
    hide NodeIs, Off;
    WithEnd(t, path, NodeOf(t, path));
    NodeAmong(Ahead(t, path), NodeOf(t, path), Behind(t, path) + [End]);
  }

  lemma {:induction false} PropsInNode(pre: seq<Item>, n: Tree, post: seq<Item>)
    ensures PropsOf((pre + Items(n) + post)[|pre| + 1..]) == n.props
  {
    TailOf(pre, Items(n), post);
    Unroll(n, post);
    WalkProps(n.props, Tail(n, post), 0);
    ContentsEnd(n.children, [EndNode] + post);
    assert n.props + [] == n.props;
  }

  /** fdt_getprop on a node of a tree. */
  method NodeProp(f: Fdt, offset: nat, name: seq<Byte>, ghost t: Tree, ghost path: seq<nat>) returns (value: Option<seq<Byte>>)
    requires PathOk(t, path) && Holds(f, t) && offset == At(t, path)
    ensures value == Lookup(NodeOf(t, path).props, name)
  {
    hide Standing, PropsOf, Lookup;
    InTree(t, path);
    EditableIsEncoded(f, Items(t) + [End]);
    value := FdtGetprop(f, offset, name, Items(t) + [End], |Ahead(t, path)|);
  }

  /** fdt_get_name on a node of a tree. */
  method NodeName(f: Fdt, offset: nat, ghost t: Tree, ghost path: seq<nat>) returns (name: seq<Byte>)
    requires PathOk(t, path) && Holds(f, t) && offset == At(t, path)
    ensures name == NodeOf(t, path).name
  {
    hide Standing, PropsOf;
    InTree(t, path);
    EditableIsEncoded(f, Items(t) + [End]);
    name := GetName(f, offset, Items(t) + [End], |Ahead(t, path)|);
  }

  // ---- children ----

  /** Where the scan for the next node one level below the parent ends, `depth` levels below
      it. */
  function NextSub(items: seq<Item>, j: nat, depth: int): (s: PropStep)
    requires j <= |items|
    ensures s.Here? ==> j <= s.at < |items| && items[s.at].BeginNode?
    decreases |items| - j
  {
    if j == |items| then Stop(NOTFOUND)
    else match items[j]
      case BeginNode(_) => if depth <= 0 then Here(j) else NextSub(items, j + 1, depth + 1)
      case EndNode => if depth <= 0 then Stop(NOTFOUND) else NextSub(items, j + 1, depth - 1)
      case End => Stop(NOTFOUND)
      case _ => NextSub(items, j + 1, depth)
  }

  lemma {:induction false} NextSubByNext(items: seq<Item>, j: nat, depth: int)
    requires j <= |items| && depth >= 0
    ensures NextSub(items, j, depth) == match NextNode(items, j, depth, true)
      case Node(m, d) => if d <= 1 then Here(m) else NextSub(items, m + 1, d)
      case _ => Stop(NOTFOUND)
    decreases |items| - j
  {
    if j < |items| && !items[j].End? && !items[j].BeginNode? && !(items[j].EndNode? && depth <= 0) {
      NextSubByNext(items, j + 1, if items[j].EndNode? then depth - 1 else depth);
    }
  }

  /** Inside a node the scan goes on behind its end. */
  lemma {:induction false} NextSubBehind(items: seq<Item>, j: nat, depth: int)
    requires j <= |items| && depth >= 0
    ensures NextSub(items, j, depth + 1) == match EndAt(items, j, depth)
      case Some(e) => NextSub(items, e, 0)
      case None => Stop(NOTFOUND)
    decreases |items| - j
  {
    if j < |items| && !items[j].End? {
      if !(items[j].EndNode? && depth == 0) {
        NextSubBehind(items, j + 1, if items[j].BeginNode? then depth + 1 else if items[j].EndNode? then depth - 1 else depth);
      }
    }
  }

  lemma {:induction false} NextSubProps(items: seq<Item>, j: nat, props: Props)
    requires Stand(items, j, PropItems(props))
    ensures j + |props| <= |items| && NextSub(items, j, 0) == NextSub(items, j + |props|, 0)
    decreases props
  {
    if props != [] {
      var p := [Property(props[0].0, props[0].1)];
      StandSplit(items, j, p, PropItems(props[1..]));
      StandFirst(items, j, p);
      NextSubProps(items, j + 1, props[1..]);
    }
  }

  lemma {:induction false} FirstIsChild(items: seq<Item>, j: nat)
    requires j <= |items|
    ensures var s := NextNode(items, j, 0, true); s.Node? ==> s.depth == 1
    decreases |items| - j
  {
    if j < |items| {
      FirstIsChild(items, j + 1);
    }
  }

  /** fdt_first_subnode: NOTFOUND stands for every failure. */
  method FirstSubnode(f: Fdt, offset0: nat, ghost items: seq<Item>, ghost k: nat) returns (offset: int)
    requires Encoded(f, items) && k < |items| && items[k].BeginNode? && offset0 == Off(items, k)
    ensures PropReported(items, NextSub(items, k + 1, 0), offset)
  {
    NextSubByNext(items, k + 1, 0);
    NextNodeFacts(items, k + 1, 0, true);
    FirstIsChild(items, k + 1);
    var depth;
    offset, depth := FdtNextNode(f, offset0, 0, true, items, k);
    if offset < 0 || depth != 1 {
      return NOTFOUND;
    }
  }

  /** fdt_next_subnode */
  method NextSubnode(f: Fdt, offset0: nat, ghost items: seq<Item>, ghost k0: nat) returns (offset: int)
    requires Encoded(f, items) && k0 < |items| && items[k0].BeginNode? && offset0 == Off(items, k0)
    ensures PropReported(items, NextSub(items, k0 + 1, 1), offset)
  {
    var depth := 1;
    offset := offset0;
    ghost var k := k0;
    while true
      invariant k < |items| && items[k].BeginNode? && offset == Off(items, k) && depth >= 1
      invariant NextSub(items, k0 + 1, 1) == NextSub(items, k + 1, depth)
      decreases |items| - k
    {
      NextSubByNext(items, k + 1, depth);
      NextNodeFacts(items, k + 1, depth, true);
      ghost var s := NextNode(items, k + 1, depth, true);
      offset, depth := FdtNextNode(f, offset, depth, true, items, k);
      if offset < 0 || depth < 1 {
        return NOTFOUND;
      }
      k := s.at;
      if depth <= 1 {
        return;
      }
    }
  }

  // ---- children by their paths ----

  lemma {:induction false} ChildPath(t: Tree, path: seq<nat>, i: nat)
    requires PathOk(t, path) && i < |NodeOf(t, path).children|
    ensures PathOk(t, path + [i]) && NodeOf(t, path + [i]) == NodeOf(t, path).children[i]
    ensures Ahead(t, path + [i]) == Ahead(t, path) + Ahead(NodeOf(t, path), [i])
    decreases path
  {
    if path == [] {
      assert [] + [i] == [i] && [i][1..] == [];
      assert [] + Ahead(t, [i]) == Ahead(t, [i]);
    } else {
      var j, rest := path[0], path[1..];
      ChildPath(t.children[j], rest, i);
      assert (path + [i])[1..] == rest + [i];
      var h := [BeginNode(t.name)] + PropItems(t.props) + Forest(t.children[..j]);
      Assoc(h, Ahead(t.children[j], rest), Ahead(NodeOf(t, path), [i]));
    }
  }

  /** How many items of a node stand before its i-th child. */
  function Before(n: Tree, i: nat): nat
    requires i <= |n.children|
  {
    1 + |n.props| + |Forest(n.children[..i])|
  }

  /** Where the children of a node that stands at k stand themselves. */
  lemma {:induction false} ChildIndex(items: seq<Item>, k: nat, n: Tree, i: nat)
    requires Stand(items, k, Items(n)) && i < |n.children|
    ensures Stand(items, k + Before(n, i), Items(n.children[i])) && Before(n, i) + |Items(n.children[i])| == Before(n, i + 1)
  {
    hide Stand, Items;
    StandNode(items, k, n);
    ForestAt(n.children, i);
    ForestUpTo(n.children, i);
    ThreeStand(items, k + 1 + |n.props|, Forest(n.children[..i]), Items(n.children[i]), Forest(n.children[i + 1..]));
  }

  lemma {:induction false} ThreeStand(items: seq<Item>, f: nat, x: seq<Item>, y: seq<Item>, z: seq<Item>)
    requires Stand(items, f, x + y + z)
    ensures Stand(items, f + |x|, y)
  {
    StandSplit(items, f, x + y, z);
    StandSplit(items, f, x, y);
  }

  lemma {:induction false} EndIndex(items: seq<Item>, k: nat, n: Tree)
    requires Stand(items, k, Items(n))
    ensures Stand(items, k + Before(n, |n.children|), [EndNode])
  {
    StandNode(items, k, n);
    assert n.children[..|n.children|] == n.children;
  }

  lemma {:induction false} ForestUpTo(ts: seq<Tree>, i: nat)
    requires i < |ts|
    ensures Forest(ts[..i + 1]) == Forest(ts[..i]) + Items(ts[i])
  {
    assert ts[..i + 1] == ts[..i] + [ts[i]];
    ForestAppend(ts[..i], [ts[i]]);
    ForestOne(ts[i]);
  }

  lemma {:induction false} ForestOne(t: Tree)
    ensures Forest([t]) == Items(t)
  {
    assert [t][1..] == [] && Items(t) + [] == Items(t);
  }

  /** The i-th child of a node, or that there is none. */
  ghost predicate IsChild(t: Tree, path: seq<nat>, i: nat, r: int)
    requires PathOk(t, path)
  {
    if PathOk(t, path + [i]) then r == At(t, path + [i]) else r == NOTFOUND
  }

  lemma {:induction false} NoChild(t: Tree, path: seq<nat>, i: nat)
    requires PathOk(t, path)
    ensures PathOk(t, path + [i]) <==> i < |NodeOf(t, path).children|
    decreases path
  {
    if path == [] {
      assert [] + [i] == [i] && [i][1..] == [];
    } else {
      NoChild(t.children[path[0]], path[1..], i);
      assert (path + [i])[1..] == path[1..] + [i];
    }
  }

  /** The item of the i-th child, by its path and by its place in the node. */
  lemma {:induction false} ChildPlace(t: Tree, path: seq<nat>, i: nat)
    requires PathOk(t, path) && i < |NodeOf(t, path).children|
    ensures PathOk(t, path + [i]) && NodeOf(t, path + [i]) == NodeOf(t, path).children[i]
    ensures |Ahead(t, path + [i])| == |Ahead(t, path)| + Before(NodeOf(t, path), i)
  {
    ChildPath(t, path, i);
    OneStep(NodeOf(t, path), i);
    PropItemsSize(NodeOf(t, path).props);
  }

  lemma {:induction false} ScanHere(items: seq<Item>, j: nat, c: Tree)
    requires Stand(items, j, Items(c))
    ensures j < |items| && NextSub(items, j, 0) == Here(j)
  {
    StandBegin(items, j, c);
  }

  lemma {:induction false} ScanEnd(items: seq<Item>, j: nat)
    requires Stand(items, j, [EndNode])
    ensures j < |items| && NextSub(items, j, 0) == Stop(NOTFOUND)
  {
    StandFirst(items, j, [EndNode]);
  }

  /** A scan that starts where the i-th child would be finds it. */
  lemma {:induction false} ScanChild(t: Tree, path: seq<nat>, i: nat, items: seq<Item>, j: nat, r: int)
    requires PathOk(t, path) && i <= |NodeOf(t, path).children|
    requires items == Items(t) + [End] && j == |Ahead(t, path)| + Before(NodeOf(t, path), i)
    requires j <= |items| && PropReported(items, NextSub(items, j, 0), r)
    ensures IsChild(t, path, i, r)
  {
    hide Stand, Items, Ahead, Before, NextSub, Off, At, PropsOf, EndAt;
    var n := NodeOf(t, path);
    InTree(t, path);
    NoChild(t, path, i);
    if i < |n.children| {
      ChildIndex(items, |Ahead(t, path)|, n, i);
      ScanHere(items, j, n.children[i]);
      ChildPlace(t, path, i);
      InTree(t, path + [i]);
    } else {
      EndIndex(items, |Ahead(t, path)|, n);
      ScanEnd(items, j);
    }
  }

  lemma {:induction false} ScanFirst(items: seq<Item>, k: nat, n: Tree)
    requires Stand(items, k, Items(n))
    ensures k + Before(n, 0) <= |items| && NextSub(items, k + 1, 0) == NextSub(items, k + Before(n, 0), 0)
  {
    StandNode(items, k, n);
    NextSubProps(items, k + 1, n.props);
    assert n.children[..0] == [];
  }

  /** fdt_first_subnode on a node of a tree. */
  method FirstChild(f: Fdt, offset0: nat, ghost t: Tree, ghost path: seq<nat>) returns (offset: int)
    requires PathOk(t, path) && Holds(f, t) && offset0 == At(t, path)
    ensures IsChild(t, path, 0, offset)
  {
    hide Standing, Stand, Items, Ahead, Before, NextSub, Off, At, PropsOf, EndAt;
    ghost var items, k := Items(t) + [End], |Ahead(t, path)|;
    InTree(t, path);
    EditableIsEncoded(f, items);
    ScanFirst(items, k, NodeOf(t, path));
    offset := FirstSubnode(f, offset0, items, k);
    ScanChild(t, path, 0, items, k + Before(NodeOf(t, path), 0), offset);
  }

  /** fdt_next_subnode on the i-th child of a node of a tree. */
  method NextChild(f: Fdt, offset0: nat, ghost t: Tree, ghost path: seq<nat>, ghost i: nat) returns (offset: int)
    requires PathOk(t, path) && Holds(f, t) && i < |NodeOf(t, path).children| && IsChild(t, path, i, offset0)
    ensures IsChild(t, path, i + 1, offset)
  {
    hide Standing, Stand, Items, Ahead, Before, NextSub, Off, At, PropsOf;
    ghost var items, k, n := Items(t) + [End], |Ahead(t, path + [i])|, NodeOf(t, path);
    InTree(t, path);
    ChildPlace(t, path, i);
    InTree(t, path + [i]);
    ChildIndex(items, |Ahead(t, path)|, n, i);
    EditableIsEncoded(f, items);
    NextSubBehind(items, k + 1, 0);
    offset := NextSubnode(f, offset0, items, k);
    ScanChild(t, path, i + 1, items, |Ahead(t, path)| + Before(n, i + 1), offset);
  }

  /** The first child whose name matches; |ts| if there is none. */
  function FirstMatch(ts: seq<Tree>, name: seq<Byte>): (x: nat)
    ensures x <= |ts| && (x < |ts| ==> NameMatches(ts[x].name, name))
    ensures forall y | 0 <= y < x :: !NameMatches(ts[y].name, name)
  {
    if ts == [] || NameMatches(ts[0].name, name) then 0 else 1 + FirstMatch(ts[1..], name)
  }

  lemma {:induction false} FindFirst(items: seq<Item>, j: nat, ts: seq<Tree>, m: nat, name: seq<Byte>)
    requires m == j + |Forest(ts)| && Stand(items, j, Forest(ts)) && Stand(items, m, [EndNode])
    ensures var x := FirstMatch(ts, name);
      FindSub(items, j, 0, name) == if x < |ts| then Here(j + |Forest(ts[..x])|) else Stop(NOTFOUND)
    decreases ts
  {
    if ts == [] {
      StandFirst(items, j, [EndNode]);
    } else {
      var n := j + |Items(ts[0])|;
      StandForest(items, j, ts, n, m);
      if NameMatches(ts[0].name, name) {
        assert ts[..0] == [];
      } else {
        SkipInside(items, j, ts[0], n, 1, name);
        FindFirst(items, n, ts[1..], m, name);
        var x := FirstMatch(ts[1..], name);
        assert ts[..x + 1][0] == ts[0] && ts[..x + 1][1..] == ts[1..][..x];
      }
    }
  }

  lemma {:induction false} FindInside(items: seq<Item>, k: nat, n: Tree, name: seq<Byte>)
    requires Stand(items, k, Items(n))
    ensures k < |items|
    ensures var x := FirstMatch(n.children, name);
      FindSub(items, k + 1, 0, name) == if x < |n.children| then Here(k + Before(n, x)) else Stop(NOTFOUND)
  {
    hide Stand, Items, FindSub, FirstMatch, PropItems;
    StandNode(items, k, n);
    StandBegin(items, k, n);
    var f := k + 1 + |n.props|;
    SkipPropsSub(items, k + 1, n.props, 0, name);
    FindFirst(items, f, n.children, f + |Forest(n.children)|, name);
  }

  /** fdt_subnode_offset on a node of a tree. */
  method ChildNamed(f: Fdt, offset0: nat, name: seq<Byte>, ghost t: Tree, ghost path: seq<nat>) returns (offset: int)
    requires PathOk(t, path) && Holds(f, t) && offset0 == At(t, path)
    ensures IsChild(t, path, FirstMatch(NodeOf(t, path).children, name), offset)
  {
    hide Standing, Stand, Items, Ahead, Before, FindSub, Off, At, PropsOf, EndAt, FirstMatch;
    ghost var items, k, n := Items(t) + [End], |Ahead(t, path)|, NodeOf(t, path);
    ghost var x := FirstMatch(n.children, name);
    InTree(t, path);
    NoChild(t, path, x);
    EditableIsEncoded(f, items);
    FindInside(items, k, n, name);
    if x < |n.children| {
      ChildPlace(t, path, x);
      InTree(t, path + [x]);
    }
    offset := SubnodeOffset(f, offset0, name, items, k);
  }

  // ---- properties by their places ----

  /** The offset of the j-th property of a node, or of what follows the properties. */
  ghost function PropAt(t: Tree, path: seq<nat>, j: nat): nat
    requires PathOk(t, path) && j <= |NodeOf(t, path).props|
  {
    At(t, path) + Size(BeginNode(NodeOf(t, path).name)) + SizeOf(PropItems(NodeOf(t, path).props[..j]))
  }

  lemma {:induction false} AlikePropAt(t: Tree, u: Tree, path: seq<nat>, j: nat)
    requires Alike(t, u) && PathOk(t, path) && j <= |NodeOf(t, path).props|
    ensures PathOk(u, path) && j <= |NodeOf(u, path).props| && PropAt(u, path, j) == PropAt(t, path, j)
  {
    AlikeAt(t, u, path);
    AlikePropItems(NodeOf(t, path).props[..j], NodeOf(u, path).props[..j]);
  }

  /** The j-th property of a node that stands at k, and what follows the last one. */
  lemma {:induction false} PropIndexed(items: seq<Item>, k: nat, n: Tree, j: nat)
    requires Stand(items, k, Items(n)) && j <= |n.props|
    ensures k + 1 + j < |items|
    ensures NextProp(items, k + 1 + j) == if j < |n.props| then Here(k + 1 + j) else Stop(NOTFOUND)
    ensures j < |n.props| ==> items[k + 1 + j] == Property(n.props[j].0, n.props[j].1)
  {
    hide Stand, Items, PropItems;
    StandNode(items, k, n);
    PropItemsAt(n.props, j);
    if j < |n.props| {
      StandSplit(items, k + 1, PropItems(n.props[..j]), PropItems(n.props[j..]));
      StandFirst(items, k + 1 + j, PropItems(n.props[j..]));
    } else {
      AfterLast(items, k + 1 + j, n.children);
    }
  }

  lemma {:induction false} AfterLast(items: seq<Item>, f: nat, ts: seq<Tree>)
    requires Stand(items, f, Forest(ts)) && Stand(items, f + |Forest(ts)|, [EndNode])
    ensures f < |items| && NextProp(items, f) == Stop(NOTFOUND)
  {
    if ts == [] {
      StandFirst(items, f, [EndNode]);
    } else {
      StandForest(items, f, ts, f + |Items(ts[0])|, f + |Forest(ts)|);
    }
  }

  /** The offset of item k + 1 + j is that of the j-th property. */
  lemma {:induction false} PropOffset(t: Tree, path: seq<nat>, j: nat)
    requires PathOk(t, path) && j <= |NodeOf(t, path).props|
    ensures |Ahead(t, path)| + 1 + j <= |Items(t) + [End]|
    ensures Off(Items(t) + [End], |Ahead(t, path)| + 1 + j) == PropAt(t, path, j)
  {
    hide Items, Ahead, Behind, Forest, PropItems, Size;
    var n, pre, post := NodeOf(t, path), Ahead(t, path), Behind(t, path) + [End];
    var h, p, q := [BeginNode(n.name)], PropItems(n.props[..j]), PropItems(n.props[j..]);
    WithEnd(t, path, n);
    InsideOf(pre, n, post);
    PropItemsAt(n.props, j);
    UpTo(pre, h, p, q, Forest(n.children) + ([EndNode] + post));
    SizeOfThree(pre, h, p);
    SizeOfOne(BeginNode(n.name));
  }

  lemma {:induction false} UpTo<T>(pre: seq<T>, h: seq<T>, p: seq<T>, q: seq<T>, rest: seq<T>)
    ensures ((pre + h) + (p + q) + rest)[..|pre| + |h| + |p|] == pre + h + p
  {
  }

  ghost predicate IsProp(t: Tree, path: seq<nat>, j: nat, r: int)
    requires PathOk(t, path)
  {
    if j < |NodeOf(t, path).props| then r == PropAt(t, path, j) else r == NOTFOUND
  }

  /** fdt_first_property_offset and fdt_next_property_offset on a node of a tree. */
  method FirstProp(f: Fdt, offset0: nat, ghost t: Tree, ghost path: seq<nat>) returns (offset: int)
    requires PathOk(t, path) && Holds(f, t) && offset0 == At(t, path)
    ensures IsProp(t, path, 0, offset)
  {
    hide Standing, Stand, Items, Ahead, Off, At, PropsOf, EndAt, PropAt, NextProp;
    ghost var items, k, n := Items(t) + [End], |Ahead(t, path)|, NodeOf(t, path);
    InTree(t, path);
    EditableIsEncoded(f, items);
    PropIndexed(items, k, n, 0);
    PropOffset(t, path, 0);
    offset := FirstPropertyOffset(f, offset0, items, k);
  }

  method NextPropOf(f: Fdt, offset0: nat, ghost t: Tree, ghost path: seq<nat>, ghost j: nat) returns (offset: int)
    requires PathOk(t, path) && Holds(f, t) && j < |NodeOf(t, path).props| && offset0 == PropAt(t, path, j)
    ensures IsProp(t, path, j + 1, offset)
  {
    hide Standing, Stand, Items, Ahead, Off, At, PropsOf, EndAt, PropAt, NextProp;
    ghost var items, k, n := Items(t) + [End], |Ahead(t, path)|, NodeOf(t, path);
    InTree(t, path);
    EditableIsEncoded(f, items);
    PropIndexed(items, k, n, j);
    PropIndexed(items, k, n, j + 1);
    PropOffset(t, path, j);
    PropOffset(t, path, j + 1);
    offset := NextPropertyOffset(f, offset0, items, k + 1 + j);
  }

  /** fdt_getprop_by_offset */
  method PropBy(f: Fdt, offset: nat, ghost t: Tree, ghost path: seq<nat>, ghost j: nat) returns (p: (seq<Byte>, seq<Byte>))
    requires PathOk(t, path) && Holds(f, t) && j < |NodeOf(t, path).props| && offset == PropAt(t, path, j)
    ensures p == NodeOf(t, path).props[j]
  {
    hide Standing, Stand, Items, Ahead, Off, At, PropsOf, EndAt, PropAt, NextProp;
    ghost var items, k, n := Items(t) + [End], |Ahead(t, path)|, NodeOf(t, path);
    InTree(t, path);
    EditableIsEncoded(f, items);
    PropIndexed(items, k, n, j);
    PropOffset(t, path, j);
    p := R.GetPropByOffset(f, offset, items, k + 1 + j);
  }

  // ---- writing into a property ----

  /** A piece of the data of a property overwritten. */
  lemma {:induction false} PieceWritten(b: seq<Byte>, prop: nat, q: nat, key: seq<Byte>, was: seq<Byte>, idx: nat, val: seq<Byte>, strings: seq<Byte>)
    requires prop <= q <= |b| && ItemState(b[prop..q], Property(key, was), strings, 0) == Intact
    requires idx + |val| <= |was| && prop + 12 + |was| <= q
    ensures ItemState(Overwritten(b, prop + 12 + idx, val)[prop..q], Property(key, Overwritten(was, idx, val)), strings, 0) == Intact
  {
    hide Word, Overwritten, StringAt, Align4;
    var x, at := b[prop..q], 12 + idx;
    OverwrittenInside(b, prop + at, val, prop, q);
    var y := Overwritten(x, at, val);
    OverwrittenBefore(x, at, val, 0, 12);
    WordAt(x[0..12], x, 0, 0);
    WordAt(x[0..12], x, 4, 0);
    WordAt(x[0..12], x, 8, 0);
    WordAt(x[0..12], y, 0, 0);
    WordAt(x[0..12], y, 4, 0);
    WordAt(x[0..12], y, 8, 0);
    OverwrittenInside(x, at, val, 12, 12 + |was|);
  }

  /** The same on the blocks. */
  lemma {:induction false} BlocksWritten(b: seq<Byte>, at: nat, rsv: seq<(nat, nat)>, items: seq<Item>, m: nat, idx: nat, val: seq<Byte>,
                                         lo: nat, n: nat, so: nat, strs: nat, p: nat)
    requires Blocks(b, at, rsv, items, lo, n, so, strs) == Intact && m < |items| && items[m].Property?
    requires idx + |val| <= |items[m].data| && p == lo + Off(items, m) + 12 + idx
    ensures p + |val| <= |b|
    ensures Blocks(Overwritten(b, p, val), at, rsv, items[..m] + [Property(items[m].key, Overwritten(items[m].data, idx, val))] + items[m + 1..], lo, n, so, strs) == Intact
  {
    hide Encodes, ItemBytes, Off, Map;
    var it, prop, q, strings := items[m], lo + Off(items, m), lo + Off(items, m + 1), b[so..so + strs];
    ItemPlace(b, at, rsv, items, m, lo, n, so, strs);
    assert it == Property(it.key, it.data);
    var c, more := Overwritten(b, p, val), [Property(it.key, Overwritten(it.data, idx, val))];
    PieceWritten(b, prop, q, it.key, it.data, idx, val, strings);
    OneRead(c[prop..q], more[0], strings);
    KeptWrite(b, p, val, prop, q);
    KeptSlice(b, c, prop, q, so, so + strs);
    KeptSlice(b, c, prop, q, lo, prop);
    KeptSlice(b, c, prop, q, q, lo + n);
    Cut3(b, lo, prop, q, lo + n);
    Cut3(c, lo, prop, q, lo + n);
    Prefix(b, c, lo, prop);
    ThreeParts(items, m, m + 1);
    SizeOfAppend(items[..m], items[m..m + 1]);
    OffSlices(items, m);
    BlocksReplaced(b, c, at, rsv, items[..m], items[m..m + 1], more, items[m + 1..], lo, n, so, strs, n, so,
                   b[lo..prop], b[prop..q], b[q..lo + n], c[prop..q]);
  }

  lemma {:induction false} OffSlices(items: seq<Item>, m: nat)
    requires m < |items|
    ensures Off(items, m) == SizeOf(items[..m]) && Off(items, m + 1) == SizeOf(items[..m + 1])
    ensures items[..m + 1] == items[..m] + items[m..m + 1]
  {
  }

  /** memcpy into the data of the property that is item m. */
  method WriteData(f: Fdt, prop: nat, idx: nat, val: seq<Byte>, ghost items: seq<Item>, ghost m: nat)
    requires Editable(f, items) && m < |items| && items[m].Property? && prop == Off(items, m) && idx + |val| <= |items[m].data|
    modifies f.buf
    ensures Editable(f, items[..m] + [Property(items[m].key, Overwritten(items[m].data, idx, val))] + items[m + 1..])
  {
    hide Blocks;
    ghost var b := f.buf[..];
    BlocksWritten(b, f.off_mem_rsvmap, f.rsv, items, m, idx, val, f.off_dt_struct, f.size_dt_struct, f.off_dt_strings, f.size_dt_strings,
                  f.off_dt_struct + prop + 12 + idx);
    Memcpy(f.buf, f.off_dt_struct + prop + 12 + idx, val);
  }

  /** What becomes of a write into a property: it is done, or refused, or its 32-bit end wraps
      around and it goes astray. */
  datatype Written = Done(t: Tree) | Refused(err: int) | Astray

  /** fdt_setprop_inplace_namelen_partial */
  function WriteInto(t: Tree, path: seq<nat>, name: seq<Byte>, idx: nat, val: seq<Byte>): Written
    requires PathOk(t, path)
  {
    match Lookup(NodeOf(t, path).props, name)
    case None => Refused(NOTFOUND)
    case Some(data) =>
      if idx + |val| <= |data| then Done(WithProp(t, path, name, Overwritten(data, idx, val)))
      else if (idx + |val|) % U32 <= |data| then Astray
      else Refused(NOSPACE)
  }

  /** A write that is done leaves a tree that differs in data only. */
  lemma {:induction false} WriteAlike(t: Tree, path: seq<nat>, name: seq<Byte>, idx: nat, val: seq<Byte>)
    requires PathOk(t, path) && WriteInto(t, path, name, idx, val).Done?
    ensures Alike(t, WriteInto(t, path, name, idx, val).t)
  {
    AlikeWithProp(t, path, name, Overwritten(Lookup(NodeOf(t, path).props, name).value, idx, val));
  }

  /** Where the property search of a node ends. */
  lemma {:induction false} FoundHere(t: Tree, path: seq<nat>, name: seq<Byte>)
    requires PathOk(t, path)
    ensures var items, k := Items(t) + [End], |Ahead(t, path)|;
      && k + 1 <= |items|
      && match Lookup(NodeOf(t, path).props, name)
         case None => FindProp(items, k + 1, name) == Stop(NOTFOUND)
         case Some(data) => FindProp(items, k + 1, name).Here? && items[FindProp(items, k + 1, name).at] == Property(name, data)
  {
    hide Items, Ahead, Behind, FindProp, Lookup, PropIndex;
    var n, pre, post := NodeOf(t, path), Ahead(t, path), Behind(t, path) + [End];
    WithEnd(t, path, n);
    NodeAt(pre, n, post);
    FoundInNode(pre, n, post, name);
    LookupIndex(n.props, name);
  }

  /** The items with other data in that property. */
  lemma {:induction false} SetHere(t: Tree, path: seq<nat>, name: seq<Byte>, val: seq<Byte>)
    requires PathOk(t, path) && Lookup(NodeOf(t, path).props, name).Some?
    ensures var items, k := Items(t) + [End], |Ahead(t, path)|;
      && k + 1 <= |items| && FindProp(items, k + 1, name).Here?
      && var m := FindProp(items, k + 1, name).at; items[..m] + [Property(name, val)] + items[m + 1..] == Items(WithProp(t, path, name, val)) + [End]
  {
    hide Items, Ahead, Behind, FindProp, Lookup, SetProp, Replace;
    var n, pre, post := NodeOf(t, path), Ahead(t, path), Behind(t, path) + [End];
    FoundHere(t, path, name);
    WithEnd(t, path, n);
    NodeAt(pre, n, post);
    SetInNode(pre, n, post, name, val);
    WithEnd(t, path, n.(props := SetProp(n.props, name, val)));
  }

  /** fdt_setprop_inplace_namelen_partial on a node of a tree.  The error is 0 where the write is
      done; where it would go astray the model stops. */
  method SetPartial(f: Fdt, offset: nat, name: seq<Byte>, idx: nat, val: seq<Byte>, ghost t: Tree, ghost path: seq<nat>) returns (err: int, astray: bool)
    requires PathOk(t, path) && Holds(f, t) && offset == At(t, path) && idx < U32 && |val| <= INT_MAX
    modifies f.buf
    ensures match WriteInto(t, path, name, idx, val)
      case Done(u) => err == 0 && !astray && Holds(f, u)
      case Refused(e) => err == e < 0 && !astray && unchanged(f.buf)
      case Astray => err == 0 && astray && unchanged(f.buf)
  {
    hide Standing, Items, Ahead, PropsOf, Off, At, EndAt, Stand, Lookup, WithProp, Overwritten, FindProp;
    ghost var items, k, n := Items(t) + [End], |Ahead(t, path)|, NodeOf(t, path);
    InTree(t, path);
    EditableIsEncoded(f, items);
    FoundHere(t, path, name);
    var prop, len := GetProperty(f, offset, name, items, k);
    if prop < 0 {
      return len, false;
    }
    if len < (idx + |val|) % U32 {
      return NOSPACE, false;
    }
    if idx + |val| > len {
      return 0, true;
    }
    ghost var m, data := FindProp(items, k + 1, name).at, Lookup(n.props, name).value;
    WriteData(f, prop, idx, val, items, m);
    SetHere(t, path, name, Overwritten(data, idx, val));
    return 0, false;
  }
}
