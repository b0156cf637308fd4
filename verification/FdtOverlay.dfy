/** The first steps of applying an overlay: its phandles are moved out of the way of those of the
    base tree, and the references inside the overlay follow them. */
module FdtOverlay {
  import opened Bits
  import opened Common
  import opened FdtFormat
  import opened FdtTree
  import opened FdtBlob
  import opened FdtReader
  import opened FdtEdit
  import opened FdtTreeEdit
  import opened FdtNodes

  const BADPHANDLE: int := -6
  const BADOVERLAY: int := -16
  const NOPHANDLES: int := -17

  /** "phandle" and "linux,phandle" */
  const PHANDLE: seq<Byte> := [112, 104, 97, 110, 100, 108, 101]
  const LINUX_PHANDLE: seq<Byte> := [108, 105, 110, 117, 120, 44, 112, 104, 97, 110, 100, 108, 101]

  // ---- phandles of a tree ----

  /** fdt_get_phandle, from the properties of a node; 0 if it has none. */
  function PhandleOf(props: Props): (r: nat)
    ensures r < U32
  {
    var a, b := Lookup(props, PHANDLE), Lookup(props, LINUX_PHANDLE);
    if a.Some? && |a.value| == 4 then Word(a.value, 0)
    else if b.Some? && |b.value| == 4 then Word(b.value, 0)
    else 0
  }

  function Max(a: nat, b: nat): nat {
    if a < b then b else a
  }

  /** The largest phandle of a tree. */
  function MaxPhandle(t: Tree): (r: nat)
    ensures r < U32
    decreases t
  {
    Max(PhandleOf(t.props), MaxOfAll(t.children))
  }

  function MaxOfAll(ts: seq<Tree>): (r: nat)
    ensures r < U32
    decreases ts
  {
    if ts == [] then 0 else Max(MaxPhandle(ts[0]), MaxOfAll(ts[1..]))
  }

  /** It is no less than that of any node. */
  lemma {:induction false} MaxIsBound(t: Tree, path: seq<nat>)
    requires PathOk(t, path)
    ensures PhandleOf(NodeOf(t, path).props) <= MaxPhandle(t)
    decreases path
  {
    hide PhandleOf;
    if path != [] {
      MaxIsBound(t.children[path[0]], path[1..]);
      MaxOfEach(t.children, path[0]);
    }
  }

  lemma {:induction false} MaxOfEach(ts: seq<Tree>, i: nat)
    requires i < |ts|
    ensures MaxPhandle(ts[i]) <= MaxOfAll(ts)
  {
    hide PhandleOf;
    if i > 0 {
      MaxOfEach(ts[1..], i - 1);
    }
  }

  /** And some node has it. */
  lemma {:induction false} MaxIsReached(t: Tree) returns (path: seq<nat>)
    ensures PathOk(t, path) && PhandleOf(NodeOf(t, path).props) == MaxPhandle(t)
    decreases t, 1
  {
    hide PhandleOf;
    path := [];
    if PhandleOf(t.props) < MaxOfAll(t.children) {
      var i, rest := MaxOfSome(t.children);
      path := [i] + rest;
      assert path[1..] == rest;
    }
  }

  lemma {:induction false} MaxOfSome(ts: seq<Tree>) returns (i: nat, path: seq<nat>)
    requires ts != []
    ensures i < |ts| && PathOk(ts[i], path) && PhandleOf(NodeOf(ts[i], path).props) == MaxOfAll(ts)
    decreases ts, 0
  {
    hide PhandleOf;
    if MaxPhandle(ts[0]) >= MaxOfAll(ts[1..]) {
      i := 0;
      path := MaxIsReached(ts[0]);
    } else {
      i, path := MaxOfSome(ts[1..]);
      i := i + 1;
    }
  }

  /** The largest phandle of the nodes that a walk without depth still comes to. */
  function MaxFrom(r: seq<Item>): nat {
    if r == [] then 0
    else match r[0]
      case BeginNode(_) => Max(PhandleOf(PropsOf(r[1..])), MaxFrom(r[1..]))
      case End => 0
      case _ => MaxFrom(r[1..])
  }

  lemma {:induction false} MaxByNext(items: seq<Item>, j: nat, depth: int)
    requires j <= |items|
    ensures MaxFrom(items[j..]) == match NextNode(items, j, depth, false)
      case Node(m, _) => Max(PhandleOf(PropsOf(items[m + 1..])), MaxFrom(items[m + 1..]))
      case _ => 0
    ensures var s := NextNode(items, j, depth, false); s.Node? || s == Failed(NOTFOUND)
    decreases |items| - j
  {
    hide PhandleOf, PropsOf;
    if j < |items| {
      Rest(items, j);
      if !items[j].BeginNode? && !items[j].End? {
        MaxByNext(items, j + 1, if items[j].EndNode? then depth - 1 else depth);
      }
    }
  }

  lemma {:induction false} MaxCons(it: Item, r: seq<Item>)
    ensures MaxFrom([it] + r) == match it
      case BeginNode(_) => Max(PhandleOf(PropsOf(r)), MaxFrom(r))
      case End => 0
      case _ => MaxFrom(r)
  {
    assert ([it] + r)[1..] == r;
  }

  lemma {:induction false} MaxOfProps(props: Props, rest: seq<Item>)
    ensures MaxFrom(PropItems(props) + rest) == MaxFrom(rest)
  {
    if props == [] {
      assert PropItems(props) + rest == rest;
    } else {
      assert PropItems(props) + rest == [Property(props[0].0, props[0].1)] + (PropItems(props[1..]) + rest);
      MaxCons(Property(props[0].0, props[0].1), PropItems(props[1..]) + rest);
      MaxOfProps(props[1..], rest);
    }
  }

  /** The walk over the items of a tree finds the largest phandle of the tree. */
  lemma {:induction false} MaxOfTree(t: Tree, rest: seq<Item>)
    ensures MaxFrom(Items(t) + rest) == Max(MaxPhandle(t), MaxFrom(rest))
    decreases t, 1
  {
    hide PhandleOf, PropsOf, MaxFrom;
    var r := PropItems(t.props) + Tail(t, rest);
    Unroll(t, rest);
    MaxCons(BeginNode(t.name), r);
    WalkProps(t.props, Tail(t, rest), 0);
    ContentsEnd(t.children, [EndNode] + rest);
    assert t.props + [] == t.props;
    MaxOfProps(t.props, Tail(t, rest));
    MaxOfForest(t.children, [EndNode] + rest);
    MaxCons(EndNode, rest);
  }

  lemma {:induction false} MaxOfForest(ts: seq<Tree>, rest: seq<Item>)
    ensures MaxFrom(Forest(ts) + rest) == Max(MaxOfAll(ts), MaxFrom(rest))
    decreases ts, 0
  {
    hide PhandleOf, MaxFrom;
    if ts == [] {
      assert Forest(ts) + rest == rest;
    } else {
      assert Forest(ts) + rest == Items(ts[0]) + (Forest(ts[1..]) + rest);
      MaxOfTree(ts[0], Forest(ts[1..]) + rest);
      MaxOfForest(ts[1..], rest);
    }
  }

  method GetPhandle(f: Fdt, offset: nat, ghost items: seq<Item>, ghost k: nat) returns (r: nat)
    requires Encoded(f, items) && k < |items| && items[k].BeginNode? && offset == Off(items, k)
    ensures r == PhandleOf(PropsOf(items[k + 1..]))
  {
    hide Reads, PropsOf, Lookup, Off;
    var php := FdtGetprop(f, offset, PHANDLE, items, k);
    if php == None || |php.value| != 4 {
      php := FdtGetprop(f, offset, LINUX_PHANDLE, items, k);
      if php == None || |php.value| != 4 {
        return 0;
      }
    }
    return Word(php.value, 0);
  }

  /** fdt_find_max_phandle */
  method FindMaxPhandle(f: Fdt, ghost t: Tree) returns (max: nat)
    requires Holds(f, t)
    ensures max == MaxPhandle(t)
  {
    hide Standing, PhandleOf, PropsOf, MaxFrom, Reads, Off, NextNode;
    ghost var items, j := Items(t) + [End], 0;
    EditableIsEncoded(f, items);
    MaxOfTree(t, [End]);
    MaxCons(End, []);
    assert [End] + [] == [End] && items[0..] == items;
    max := 0;
    var offset := -1;
    while true
      invariant 0 <= j <= |items| && (if offset < 0 then j == 0 else j > 0 && offset == Off(items, j - 1) && items[j - 1].BeginNode?)
      invariant Max(max, MaxFrom(items[j..])) == MaxFrom(items)
      decreases |items| - j
    {
      MaxByNext(items, j, 0);
      ghost var s := NextNode(items, j, 0, false);
      var next, _ := FdtNextNode(f, offset, 0, false, items, if offset < 0 then 0 else j - 1);
      offset := next;
      if offset < 0 {
        return;
      }
      var value := GetPhandle(f, offset, items, s.at);
      if value > max {
        max := value;
      }
      j := s.at + 1;
    }
  }

  // ---- phandles moved ----

  /** An error, or 0, and what the node is then. */
  datatype Adjusted = Adjusted(err: int, node: Tree)

  /** overlay_phandle_add_offset */
  function AddOffset(n: Tree, name: seq<Byte>, delta: nat): Adjusted {
    match Lookup(n.props, name)
    case None => Adjusted(NOTFOUND, n)
    case Some(v) =>
      if |v| != 4 then Adjusted(BADPHANDLE, n)
      else if Word(v, 0) + delta >= U32 - 1 then Adjusted(NOPHANDLES, n)
      else Adjusted(0, n.(props := SetProp(n.props, name, WordBytes(Word(v, 0) + delta))))
  }

  /** Both names: the node's own part of overlay_adjust_node_phandles. */
  function AddOffsets(n: Tree, delta: nat): Adjusted {
    var a := AddOffset(n, PHANDLE, delta);
    if a.err != 0 && a.err != NOTFOUND then a
    else
      var b := AddOffset(a.node, LINUX_PHANDLE, delta);
      if b.err == NOTFOUND then Adjusted(0, b.node) else b
  }

  /** overlay_adjust_node_phandles: the first error in preorder stops it, with what was done so
      far left in the tree. */
  function AdjustNode(n: Tree, delta: nat): Adjusted
    decreases n, 1
  {
    var a := AddOffsets(n, delta);
    if a.err != 0 then a
    else
      var (err, cs) := AdjustAll(n.children, delta);
      Adjusted(err, a.node.(children := cs))
  }

  function AdjustAll(ts: seq<Tree>, delta: nat): (r: (int, seq<Tree>))
    ensures |r.1| == |ts|
    decreases ts, 0
  {
    if ts == [] then (0, [])
    else
      var a := AdjustNode(ts[0], delta);
      if a.err != 0 then (a.err, [a.node] + ts[1..])
      else
        var (err, rest) := AdjustAll(ts[1..], delta);
        (err, [a.node] + rest)
  }

  lemma {:induction false} AddOffsetAlike(n: Tree, name: seq<Byte>, delta: nat)
    ensures var a := AddOffset(n, name, delta); Alike(n, a.node) && a.node.children == n.children
  {
    AlikeSelf(n);
    var v := Lookup(n.props, name);
    if v.Some? && |v.value| == 4 && Word(v.value, 0) + delta < U32 - 1 {
      AlikeSet(n.props, name, WordBytes(Word(v.value, 0) + delta));
    }
  }

  lemma {:induction false} AddOffsetsAlike(n: Tree, delta: nat)
    ensures var a := AddOffsets(n, delta); Alike(n, a.node) && a.node.children == n.children
  {
    hide AddOffset;
    var a := AddOffset(n, PHANDLE, delta);
    AddOffsetAlike(n, PHANDLE, delta);
    AddOffsetAlike(a.node, LINUX_PHANDLE, delta);
    AlikeTrans(n, a.node, AddOffset(a.node, LINUX_PHANDLE, delta).node);
  }

  /** Shifting phandles changes data only. */
  lemma {:induction false} AdjustAlike(n: Tree, delta: nat)
    ensures Alike(n, AdjustNode(n, delta).node)
    decreases n, 1
  {
    hide AddOffsets;
    AddOffsetsAlike(n, delta);
    AdjustAllAlike(n.children, delta);
  }

  lemma {:induction false} AdjustAllAlike(ts: seq<Tree>, delta: nat)
    ensures AlikeAll(ts, AdjustAll(ts, delta).1)
    decreases ts, 0
  {
    if ts != [] {
      AdjustAlike(ts[0], delta);
      AdjustAllAlike(ts[1..], delta);
      SelfAlike(ts[1..]);
    }
  }

  lemma {:induction false} SelfAlike(ts: seq<Tree>)
    ensures AlikeAll(ts, ts)
  {
    forall i | 0 <= i < |ts| ensures Alike(ts[i], ts[i]) {
      AlikeSelf(ts[i]);
    }
  }

  // ---- the same on the blob ----

  lemma {:induction false} ReplaceSame(t: Tree, path: seq<nat>)
    requires PathOk(t, path)
    ensures Replace(t, path, NodeOf(t, path)) == t
    decreases path
  {
    if path != [] {
      ReplaceSame(t.children[path[0]], path[1..]);
      assert t.children[path[0] := t.children[path[0]]] == t.children;
    }
  }

  lemma {:induction false} ReplaceTwice(t: Tree, path: seq<nat>, n: Tree, m: Tree)
    requires PathOk(t, path)
    ensures PathOk(Replace(t, path, n), path) && NodeOf(Replace(t, path, n), path) == n
    ensures Replace(Replace(t, path, n), path, m) == Replace(t, path, m)
    decreases path
  {
    if path != [] {
      ReplaceTwice(t.children[path[0]], path[1..], n, m);
      var i := path[0];
      var x, y := Replace(t.children[i], path[1..], n), Replace(t.children[i], path[1..], m);
      assert t.children[i := x][i := y] == t.children[i := y];
    }
  }

  /** Replacing a child of the node at a path. */
  lemma {:induction false} ReplaceChild(t: Tree, path: seq<nat>, i: nat, c: Tree)
    requires PathOk(t, path) && i < |NodeOf(t, path).children|
    ensures PathOk(t, path + [i])
    ensures var n := NodeOf(t, path); Replace(t, path + [i], c) == Replace(t, path, n.(children := n.children[i := c]))
    decreases path
  {
    if path == [] {
      assert [] + [i] == [i] && [i][1..] == [];
    } else {
      ReplaceChild(t.children[path[0]], path[1..], i, c);
      assert (path + [i])[1..] == path[1..] + [i];
    }
  }

  method AddOffsetAt(f: Fdt, offset: nat, name: seq<Byte>, delta: nat, ghost t: Tree, ghost path: seq<nat>) returns (err: int)
    requires PathOk(t, path) && Holds(f, t) && offset == At(t, path) && delta < U32
    modifies f.buf
    ensures err == AddOffset(NodeOf(t, path), name, delta).err
    ensures Holds(f, Replace(t, path, AddOffset(NodeOf(t, path), name, delta).node))
  {
    hide Standing, Items, At, Lookup, Word;
    ReplaceSame(t, path);
    var val := NodeProp(f, offset, name, t, path);
    if val == None {
      return NOTFOUND;
    }
    if |val.value| != 4 {
      return BADPHANDLE;
    }
    var adjVal := Word(val.value, 0);
    if (adjVal + delta) % U32 < adjVal {
      return NOPHANDLES;
    }
    adjVal := adjVal + delta;
    if adjVal == U32 - 1 {
      return NOPHANDLES;
    }
    WholeValue(val.value, WordBytes(adjVal));
    var astray;
    err, astray := SetPartial(f, offset, name, 0, WordBytes(adjVal), t, path);
  }

  lemma {:induction false} WholeValue(was: seq<Byte>, val: seq<Byte>)
    requires |was| == |val|
    ensures Overwritten(was, 0, val) == val
  {
  }

  /** A node with its first children as they have become. */
  function Midway(n: Tree, done: seq<Tree>): Tree
    requires |done| <= |n.children|
  {
    n.(children := done + n.children[|done|..])
  }

  /** The children from the i-th on, one at a time. */
  lemma {:induction false} AdjustStep(ts: seq<Tree>, i: nat, delta: nat)
    requires i < |ts|
    ensures var a, (err, rest) := AdjustNode(ts[i], delta), AdjustAll(ts[i + 1..], delta);
      AdjustAll(ts[i..], delta) == if a.err != 0 then (a.err, [a.node] + ts[i + 1..]) else (err, [a.node] + rest)
  {
    Rest(ts, i);
  }

  /** Child |done| of a node replaced midway. */
  lemma {:induction false} MidwayStep(t: Tree, path: seq<nat>, n: Tree, done: seq<Tree>, c: Tree)
    requires PathOk(t, path) && |done| < |n.children| && Alike(n.children[|done|], c)
    ensures var u := Replace(t, path, Midway(n, done));
      && PathOk(u, path + [|done|]) && NodeOf(u, path + [|done|]) == n.children[|done|]
      && Replace(u, path + [|done|], c) == Replace(t, path, Midway(n, done + [c])) && Alike(u, Replace(u, path + [|done|], c))
  {
    var i, m := |done|, Midway(n, done);
    var u := Replace(t, path, m);
    ReplaceTwice(t, path, m, m.(children := m.children[i := c]));
    ReplaceChild(u, path, i, c);
    ChildPath(u, path, i);
    AlikeReplace(u, path + [i], c);
    Onward(done, n.children, c);
  }

  lemma {:induction false} Onward<T>(done: seq<T>, ts: seq<T>, c: T)
    requires |done| < |ts|
    ensures (done + ts[|done|..])[|done| := c] == (done + [c]) + ts[|done| + 1..]
    ensures (done + ts[|done|..])[|done|] == ts[|done|]
  {
  }

  /** The result for all children, from what is done and what is to come. */
  ghost predicate Coming(ts: seq<Tree>, done: seq<Tree>, delta: nat) {
    && |done| <= |ts| && AdjustAll(ts, delta).0 == AdjustAll(ts[|done|..], delta).0
    && AdjustAll(ts, delta).1 == done + AdjustAll(ts[|done|..], delta).1
  }

  lemma {:induction false} ComingStep(ts: seq<Tree>, done: seq<Tree>, delta: nat)
    requires Coming(ts, done, delta) && |done| < |ts|
    ensures var a := AdjustNode(ts[|done|], delta);
      if a.err == 0 then Coming(ts, done + [a.node], delta)
      else AdjustAll(ts, delta) == (a.err, (done + [a.node]) + ts[|done| + 1..])
  {
    var i := |done|;
    AdjustStep(ts, i, delta);
    Assoc(done, [AdjustNode(ts[i], delta).node], ts[i + 1..]);
    Assoc(done, [AdjustNode(ts[i], delta).node], AdjustAll(ts[i + 1..], delta).1);
  }

  lemma {:induction false} ComingEnd(n: Tree, done: seq<Tree>, delta: nat)
    requires Coming(n.children, done, delta) && |done| == |n.children|
    ensures AdjustAll(n.children, delta) == (0, done) && Midway(n, done) == n.(children := done)
  {
    assert n.children[|done|..] == [] && done + [] == done;
  }

  method AdjustNodePhandles(f: Fdt, node: nat, delta: nat, ghost t: Tree, ghost path: seq<nat>) returns (err: int)
    requires PathOk(t, path) && Holds(f, t) && node == At(t, path) && delta < U32
    modifies f.buf
    ensures err == AdjustNode(NodeOf(t, path), delta).err && Holds(f, Replace(t, path, AdjustNode(NodeOf(t, path), delta).node))
    decreases NodeOf(t, path), 1
  {
    hide Standing, Items, At, AddOffset;
    ghost var n := NodeOf(t, path);
    ghost var a := AddOffset(n, PHANDLE, delta);
    err := AddOffsetAt(f, node, PHANDLE, delta, t, path);
    if err != 0 && err != NOTFOUND {
      return;
    }
    ghost var u := Replace(t, path, a.node);
    ghost var b := AddOffset(a.node, LINUX_PHANDLE, delta);
    AddOffsetAlike(n, PHANDLE, delta);
    AlikeReplace(t, path, a.node);
    AlikeAt(t, u, path);
    ReplaceTwice(t, path, a.node, b.node);
    err := AddOffsetAt(f, node, LINUX_PHANDLE, delta, u, path);
    if err != 0 && err != NOTFOUND {
      return;
    }
    ghost var v := Replace(t, path, b.node);
    AddOffsetAlike(a.node, LINUX_PHANDLE, delta);
    AlikeReplace(u, path, b.node);
    AlikeAt(u, v, path);
    ReplaceTwice(t, path, b.node, b.node);
    ReplaceTwice(t, path, b.node, b.node.(children := AdjustAll(n.children, delta).1));
    err := AdjustChildren(f, node, delta, v, path);
  }

  method AdjustChildren(f: Fdt, node: nat, delta: nat, ghost t: Tree, ghost path: seq<nat>) returns (err: int)
    requires PathOk(t, path) && Holds(f, t) && node == At(t, path) && delta < U32
    modifies f.buf
    ensures var n, (e, cs) := NodeOf(t, path), AdjustAll(NodeOf(t, path).children, delta);
      err == e && Holds(f, Replace(t, path, n.(children := cs)))
    decreases NodeOf(t, path).children, 0
  {
    hide Standing, Items, At, AdjustNode, AdjustAll, Replace;
    ghost var n, done: seq<Tree>, u := NodeOf(t, path), [], t;
    ReplaceSame(t, path);
    assert Midway(n, []) == n && n.children[0..] == n.children;
    var child := FirstChild(f, node, t, path);
    while child >= 0
      invariant |done| <= |n.children| && u == Replace(t, path, Midway(n, done)) && PathOk(u, path) && NodeOf(u, path) == Midway(n, done)
      invariant Holds(f, u) && IsChild(u, path, |done|, child) && Coming(n.children, done, delta)
      decreases |n.children| - |done|, if child >= 0 then 1 else 0
    {
      NoChild(u, path, |done|);
      ghost var i, a := |done|, AdjustNode(n.children[|done|], delta);
      AdjustAlike(n.children[i], delta);
      MidwayStep(t, path, n, done, a.node);
      ComingStep(n.children, done, delta);
      err := AdjustNodePhandles(f, child, delta, u, path + [i]);
      if err != 0 {
        return;
      }
      AlikeAt(u, Replace(t, path, Midway(n, done + [a.node])), path + [i]);
      done := done + [a.node];
      u := Replace(t, path, Midway(n, done));
      ReplaceTwice(t, path, Midway(n, done), Midway(n, done));
      child := NextChild(f, child, u, path, i);
    }
    NoChild(u, path, |done|);
    ComingEnd(n, done, delta);
    err := 0;
  }

  // ---- what the shift does ----

  predicate HasPhandle(props: Props) {
    Lookup(props, PHANDLE).Some? || Lookup(props, LINUX_PHANDLE).Some?
  }

  /** A phandle property has four bytes, and its value has room for the shift. */
  predicate Room(props: Props, name: seq<Byte>, delta: nat) {
    match Lookup(props, name)
    case None => true
    case Some(v) => |v| == 4 && Word(v, 0) + delta < U32 - 1
  }

  predicate Shiftable(n: Tree, delta: nat)
    decreases n
  {
    && Room(n.props, PHANDLE, delta) && Room(n.props, LINUX_PHANDLE, delta)
    && forall i | 0 <= i < |n.children| :: Shiftable(n.children[i], delta)
  }

  lemma {:induction false} OffsetsExact(n: Tree, delta: nat)
    ensures AddOffsets(n, delta).err == 0 <==> Room(n.props, PHANDLE, delta) && Room(n.props, LINUX_PHANDLE, delta)
  {
    hide Word, WordBytes, Lookup, SetProp;
    var v := Lookup(n.props, PHANDLE);
    if v.Some? && |v.value| == 4 {
      OtherName();
      LookupSet(n.props, PHANDLE, WordBytes((Word(v.value, 0) + delta) % U32), LINUX_PHANDLE);
    }
  }

  lemma {:induction false} OtherName()
    ensures PHANDLE != LINUX_PHANDLE
  {
    assert |PHANDLE| != |LINUX_PHANDLE|;
  }

  /** The shift succeeds exactly if every phandle of the overlay has room for it. */
  lemma {:induction false} AdjustExact(n: Tree, delta: nat)
    ensures AdjustNode(n, delta).err == 0 <==> Shiftable(n, delta)
    decreases n, 1
  {
    hide AddOffsets, Room;
    OffsetsExact(n, delta);
    AddOffsetsAlike(n, delta);
    AdjustAllExact(n.children, delta);
  }

  lemma {:induction false} AdjustAllExact(ts: seq<Tree>, delta: nat)
    ensures AdjustAll(ts, delta).0 == 0 <==> forall i | 0 <= i < |ts| :: Shiftable(ts[i], delta)
    decreases ts, 0
  {
    if ts != [] {
      AdjustExact(ts[0], delta);
      AdjustAllExact(ts[1..], delta);
      assert forall i | 0 < i < |ts| :: ts[i] == ts[1..][i - 1];
      assert forall i | 0 <= i < |ts| - 1 :: ts[1..][i] == ts[i + 1];
    }
  }

  /** The data of a property after the shift. */
  function ShiftedData(v: Option<seq<Byte>>, delta: nat): Option<seq<Byte>> {
    match v
    case None => None
    case Some(v) => if |v| == 4 && Word(v, 0) + delta < U32 then Some(WordBytes(Word(v, 0) + delta)) else None
  }

  predicate IsPhandle(key: seq<Byte>) {
    key == PHANDLE || key == LINUX_PHANDLE
  }

  /** The properties of a node before and after: both phandle properties are shifted, all others
      are as before. */
  ghost predicate Shifted(p: Props, q: Props, delta: nat) {
    && Room(p, PHANDLE, delta) && Room(p, LINUX_PHANDLE, delta)
    && forall key :: Lookup(q, key) == if IsPhandle(key) then ShiftedData(Lookup(p, key), delta) else Lookup(p, key)
  }

  lemma {:induction false} OffsetShifts(n: Tree, name: seq<Byte>, delta: nat, key: seq<Byte>)
    requires Room(n.props, name, delta)
    ensures Lookup(AddOffset(n, name, delta).node.props, key)
      == if key == name then ShiftedData(Lookup(n.props, name), delta) else Lookup(n.props, key)
  {
    hide Word;
    var v := Lookup(n.props, name);
    if v.Some? {
      LookupSet(n.props, name, WordBytes(Word(v.value, 0) + delta), key);
    }
  }

  lemma {:induction false} OffsetsShift(n: Tree, delta: nat)
    requires AddOffsets(n, delta).err == 0
    ensures Shifted(n.props, AddOffsets(n, delta).node.props, delta)
  {
    hide Word, ShiftedData;
    OffsetsExact(n, delta);
    OtherName();
    var a := AddOffset(n, PHANDLE, delta).node;
    OffsetShifts(n, PHANDLE, delta, LINUX_PHANDLE);
    forall key ensures Lookup(AddOffsets(n, delta).node.props, key)
      == if IsPhandle(key) then ShiftedData(Lookup(n.props, key), delta) else Lookup(n.props, key)
    {
      OffsetShifts(n, PHANDLE, delta, key);
      OffsetShifts(a, LINUX_PHANDLE, delta, key);
    }
  }

  /** Every node of an overlay after a shift that succeeds. */
  lemma {:induction false} ShiftedAt(n: Tree, delta: nat, path: seq<nat>)
    requires AdjustNode(n, delta).err == 0 && PathOk(n, path)
    ensures var m := AdjustNode(n, delta).node;
      PathOk(m, path) && Shifted(NodeOf(n, path).props, NodeOf(m, path).props, delta)
    decreases path
  {
    hide AddOffsets, Shifted;
    AddOffsetsAlike(n, delta);
    if path == [] {
      OffsetsShift(n, delta);
    } else {
      AdjustAllEach(n.children, delta, path[0]);
      ShiftedAt(n.children[path[0]], delta, path[1..]);
    }
  }

  lemma {:induction false} AdjustAllEach(ts: seq<Tree>, delta: nat, i: nat)
    requires AdjustAll(ts, delta).0 == 0 && i < |ts|
    ensures AdjustNode(ts[i], delta).err == 0 && AdjustAll(ts, delta).1[i] == AdjustNode(ts[i], delta).node
    decreases ts
  {
    hide AdjustNode;
    if i > 0 {
      AdjustAllEach(ts[1..], delta, i - 1);
    }
  }

  lemma {:induction false} PhandleShifts(p: Props, q: Props, delta: nat)
    requires Shifted(p, q, delta)
    ensures PhandleOf(q) == if HasPhandle(p) then PhandleOf(p) + delta else 0
    ensures HasPhandle(p) ==> PhandleOf(p) + delta < U32 - 1
    ensures HasPhandle(q) == HasPhandle(p)
  {
    hide Word, WordBytes;
    var a, b := Lookup(p, PHANDLE), Lookup(p, LINUX_PHANDLE);
    if a.Some? {
      WordRoundTrip(Word(a.value, 0) + delta);
    }
    if b.Some? {
      WordRoundTrip(Word(b.value, 0) + delta);
    }
  }

  /** After the shift by the largest phandle of the base: the phandle of a node of the overlay is
      distinct from those of all nodes of the base exactly if it was not 0 before. */
  lemma {:induction false} ApartFromBase(base: Tree, over: Tree, q: seq<nat>)
    requires AdjustNode(over, MaxPhandle(base)).err == 0 && PathOk(over, q) && HasPhandle(NodeOf(over, q).props)
    ensures var over' := AdjustNode(over, MaxPhandle(base)).node;
      PathOk(over', q) &&
      (PhandleOf(NodeOf(over, q).props) != 0 <==>
        forall p | PathOk(base, p) :: PhandleOf(NodeOf(base, p).props) != PhandleOf(NodeOf(over', q).props))
  {
    hide PhandleOf, Shifted, AdjustNode, HasPhandle;
    var delta := MaxPhandle(base);
    var over' := AdjustNode(over, delta).node;
    ShiftedAt(over, delta, q);
    PhandleShifts(NodeOf(over, q).props, NodeOf(over', q).props, delta);
    forall p | PathOk(base, p) ensures PhandleOf(NodeOf(base, p).props) <= delta {
      MaxIsBound(base, p);
    }
    var top := MaxIsReached(base);
    assert PathOk(base, top);
  }

  /** Distinct phandles of an overlay stay distinct, and equal ones equal. */
  lemma {:induction false} DistinctStay(over: Tree, delta: nat, p: seq<nat>, q: seq<nat>)
    requires AdjustNode(over, delta).err == 0 && PathOk(over, p) && PathOk(over, q)
    requires HasPhandle(NodeOf(over, p).props) && HasPhandle(NodeOf(over, q).props)
    ensures var over' := AdjustNode(over, delta).node;
      PathOk(over', p) && PathOk(over', q) &&
      (PhandleOf(NodeOf(over', p).props) == PhandleOf(NodeOf(over', q).props) <==>
        PhandleOf(NodeOf(over, p).props) == PhandleOf(NodeOf(over, q).props))
  {
    hide PhandleOf, Shifted, AdjustNode, HasPhandle;
    var over' := AdjustNode(over, delta).node;
    ShiftedAt(over, delta, p);
    ShiftedAt(over, delta, q);
    PhandleShifts(NodeOf(over, p).props, NodeOf(over', p).props, delta);
    PhandleShifts(NodeOf(over, q).props, NodeOf(over', q).props, delta);
  }

  /** A phandle of 0 in the overlay becomes the largest one of the base. */
  lemma {:induction false} ZeroExample()
    ensures var base, over := Tree([], [(PHANDLE, [0, 0, 0, 5])], []), Tree([], [(PHANDLE, [0, 0, 0, 0])], []);
      && MaxPhandle(base) == 5 && AdjustNode(over, 5).err == 0
      && PhandleOf(AdjustNode(over, 5).node.props) == PhandleOf(base.props) == 5
  {
    var base, over := Tree([], [(PHANDLE, [0, 0, 0, 5])], []), Tree([], [(PHANDLE, [0, 0, 0, 0])], []);
    OtherName();
    assert Lookup(base.props, PHANDLE) == Some([0, 0, 0, 5]) && Lookup(over.props, PHANDLE) == Some([0, 0, 0, 0]);
    assert over.props[1..] == [] && Lookup(over.props, LINUX_PHANDLE) == None;
    assert MaxOfAll(base.children) == 0 && PhandleOf(base.props) == 5 && PhandleOf(over.props) == 0;
    AdjustExact(over, 5);
    ShiftedAt(over, 5, []);
    PhandleShifts(over.props, AdjustNode(over, 5).node.props, 5);
  }
}
