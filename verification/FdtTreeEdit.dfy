/** Edits of a device tree seen as edits of the tree: exactly the node asked for changes. */
module FdtTreeEdit {
  import opened Bits
  import opened Common
  import opened FdtFormat
  import opened FdtTree
  import opened FdtBlob
  import opened FdtReader
  import opened FdtEdit

  // ---- one node changed somewhere in a tree ----

  /** A path of child indices from the root down. */
  predicate PathOk(t: Tree, path: seq<nat>)
    decreases path
  {
    path == [] || (path[0] < |t.children| && PathOk(t.children[path[0]], path[1..]))
  }

  function NodeOf(t: Tree, path: seq<nat>): Tree
    requires PathOk(t, path)
    decreases path
  {
    if path == [] then t else NodeOf(t.children[path[0]], path[1..])
  }

  /** The tree with the node at the path replaced. */
  function Replace(t: Tree, path: seq<nat>, u: Tree): Tree
    requires PathOk(t, path)
    decreases path
  {
    if path == [] then u
    else t.(children := t.children[path[0] := Replace(t.children[path[0]], path[1..], u)])
  }

  /** The items before and behind the node at the path. */
  function Ahead(t: Tree, path: seq<nat>): seq<Item>
    requires PathOk(t, path)
    decreases path
  {
    if path == [] then []
    else [BeginNode(t.name)] + PropItems(t.props) + Forest(t.children[..path[0]]) + Ahead(t.children[path[0]], path[1..])
  }

  function Behind(t: Tree, path: seq<nat>): seq<Item>
    requires PathOk(t, path)
    decreases path
  {
    if path == [] then []
    else Behind(t.children[path[0]], path[1..]) + Forest(t.children[path[0] + 1..]) + [EndNode]
  }

  lemma {:induction false} ForestAppend(x: seq<Tree>, y: seq<Tree>)
    ensures Forest(x + y) == Forest(x) + Forest(y)
  {
    if x == [] {
      assert x + y == y;
    } else {
      assert (x + y)[1..] == x[1..] + y;
      ForestAppend(x[1..], y);
    }
  }

  lemma {:induction false} ForestAt(ts: seq<Tree>, i: nat)
    requires i < |ts|
    ensures Forest(ts) == Forest(ts[..i]) + Items(ts[i]) + Forest(ts[i + 1..])
  {
    var x, y := ts[..i], ts[i..];
    assert ts == x + y && y[1..] == ts[i + 1..];
    ForestAppend(x, y);
    Assoc(Forest(x), Items(y[0]), Forest(y[1..]));
  }

  /** A tree's items with the node at the path in the middle; replacing the node replaces
      its items and nothing else. */
  lemma {:induction false} Context(t: Tree, path: seq<nat>, u: Tree)
    requires PathOk(t, path)
    ensures Items(t) == Ahead(t, path) + Items(NodeOf(t, path)) + Behind(t, path)
    ensures Items(Replace(t, path, u)) == Ahead(t, path) + Items(u) + Behind(t, path)
    decreases path
  {
    hide Forest, PropItems;
    if path == [] {
      assert [] + Items(t) + [] == Items(t) && [] + Items(u) + [] == Items(u);
    } else {
      var i, rest, c := path[0], path[1..], t.children[path[0]];
      Context(c, rest, u);
      var c' := Replace(c, rest, u);
      ForestAt(t.children, i);
      var ts := t.children[i := c'];
      ForestAt(ts, i);
      assert ts[..i] == t.children[..i] && ts[i + 1..] == t.children[i + 1..];
      var h, p, f, g := [BeginNode(t.name)], PropItems(t.props), Forest(t.children[..i]), Forest(t.children[i + 1..]);
      Nest(h, p, f, Ahead(c, rest), Items(NodeOf(c, rest)), Behind(c, rest), g, [EndNode]);
      Nest(h, p, f, Ahead(c, rest), Items(u), Behind(c, rest), g, [EndNode]);
    }
  }

  lemma {:induction false} Nest<T>(h: seq<T>, p: seq<T>, f: seq<T>, a: seq<T>, m: seq<T>, b: seq<T>, g: seq<T>, e: seq<T>)
    ensures h + p + (f + (a + m + b) + g) + e == (h + p + f + a) + m + (b + g + e)
  {
  }

  /** Does the one path lead to or through the node at the other? */
  predicate Through(path: seq<nat>, other: seq<nat>) {
    |other| <= |path| && path[..|other|] == other
  }

  /** Replacing a node: it reads back as the new one, every node that lies neither above nor
      below it is the old one, and the nodes above it keep name, properties and the number of
      their children. */
  lemma {:induction false} ReplaceNode(t: Tree, path: seq<nat>, u: Tree, other: seq<nat>)
    requires PathOk(t, path)
    ensures PathOk(Replace(t, path, u), path) && NodeOf(Replace(t, path, u), path) == u
    ensures !Through(other, path) ==> (PathOk(Replace(t, path, u), other) <==> PathOk(t, other))
    ensures !Through(other, path) && !Through(path, other) && PathOk(t, other) ==> NodeOf(Replace(t, path, u), other) == NodeOf(t, other)
    ensures !Through(other, path) && Through(path, other) && PathOk(t, other) ==>
      var n, n' := NodeOf(t, other), NodeOf(Replace(t, path, u), other);
      n'.name == n.name && n'.props == n.props && |n'.children| == |n.children|
    decreases path
  {
    if path != [] {
      ReplaceNode(t.children[path[0]], path[1..], u, if other == [] then [] else other[1..]);
      if other != [] && other[0] == path[0] {
        ThroughTail(other, path);
        ThroughTail(path, other);
      }
    }
  }

  lemma {:induction false} ThroughTail(path: seq<nat>, other: seq<nat>)
    requires path != [] && other != [] && path[0] == other[0]
    ensures Through(path, other) <==> Through(path[1..], other[1..])
  {
    assert path == [path[0]] + path[1..] && other == [other[0]] + other[1..];
    if Through(path[1..], other[1..]) {
      assert path[..|other|] == [path[0]] + path[1..][..|other| - 1];
    }
  }

  // ---- properties ----

  /** The index of the first property of that name; |props| if there is none. */
  function PropIndex(props: Props, name: seq<Byte>): (i: nat)
    ensures i <= |props| && (i < |props| ==> props[i].0 == name)
  {
    if props == [] || props[0].0 == name then 0 else 1 + PropIndex(props[1..], name)
  }

  /** A property list with one value set. */
  function SetProp(props: Props, name: seq<Byte>, val: seq<Byte>): Props {
    var i := PropIndex(props, name);
    if i < |props| then props[i := (name, val)] else [(name, val)] + props
  }

  /** Looking a property up after a set: the new value for that name, the old one for all
      others. */
  lemma {:induction false} LookupSet(props: Props, name: seq<Byte>, val: seq<Byte>, other: seq<Byte>)
    ensures Lookup(SetProp(props, name, val), other) == if other == name then Some(val) else Lookup(props, other)
  {
    var i := PropIndex(props, name);
    if i == |props| {
      LookupCons(props, (name, val), other);
    } else if i > 0 {
      LookupSet(props[1..], name, val, other);
      assert SetProp(props, name, val)[0] == props[0];
      assert SetProp(props, name, val)[1..] == SetProp(props[1..], name, val);
    } else {
      assert SetProp(props, name, val) == [(name, val)] + props[1..];
      LookupCons(props[1..], (name, val), other);
    }
  }

  lemma {:induction false} PropItemsAt(props: Props, i: nat)
    requires i <= |props|
    ensures PropItems(props) == PropItems(props[..i]) + PropItems(props[i..]) && |PropItems(props[..i])| == i
    ensures i < |props| ==> PropItems(props[i..]) == [Property(props[i].0, props[i].1)] + PropItems(props[i + 1..])
    ensures |PropItems(props)| == |props|
  {
    assert props == props[..i] + props[i..];
    PropItemsAppend(props[..i], props[i..]);
    PropItemsSize(props[..i]);
    PropItemsSize(props);
    assert i < |props| ==> props[i..][1..] == props[i + 1..];
  }

  lemma {:induction false} PropItemsSize(props: Props)
    ensures |PropItems(props)| == |props|
  {
    if props != [] {
      PropItemsSize(props[1..]);
    }
  }

  /** The items of the node at index |pre| searched for a property. */
  lemma {:induction false} FindInProps(pre: seq<Item>, props: Props, rest: seq<Item>, name: seq<Byte>)
    requires rest != [] && (rest[0].BeginNode? || rest[0].EndNode?)
    ensures var items, i := pre + PropItems(props) + rest, PropIndex(props, name);
      FindProp(items, |pre|, name) == if i < |props| then Here(|pre| + i) else Stop(NOTFOUND)
    decreases props
  {
    var items := pre + PropItems(props) + rest;
    if props == [] {
      assert items[|pre|] == rest[0];
    } else {
      var p := Property(props[0].0, props[0].1);
      assert items[|pre|] == p;
      assert items == (pre + [p]) + PropItems(props[1..]) + rest;
      FindInProps(pre + [p], props[1..], rest, name);
    }
  }

  lemma {:induction false} SkipInProps(pre: seq<Item>, props: Props, rest: seq<Item>)
    requires rest != [] && (rest[0].BeginNode? || rest[0].EndNode?)
    ensures AfterProps(pre + PropItems(props) + rest, |pre|) == |pre| + |props|
    decreases props
  {
    var items := pre + PropItems(props) + rest;
    if props == [] {
      assert items[|pre|] == rest[0];
    } else {
      var p := Property(props[0].0, props[0].1);
      assert items[|pre|] == p;
      assert items == (pre + [p]) + PropItems(props[1..]) + rest;
      SkipInProps(pre + [p], props[1..], rest);
    }
  }

  /** What follows a node's properties, inside it and behind it. */
  lemma {:induction false} InsideOf(pre: seq<Item>, t: Tree, post: seq<Item>)
    ensures var rest := Forest(t.children) + ([EndNode] + post);
      pre + Items(t) + post == (pre + [BeginNode(t.name)]) + PropItems(t.props) + rest &&
      rest != [] && (rest[0].BeginNode? || rest[0].EndNode?)
  {
    var rest := Forest(t.children) + ([EndNode] + post);
    Unroll(t, post);
    assert pre + Items(t) + post == pre + (Items(t) + post);
    assert pre + ([BeginNode(t.name)] + (PropItems(t.props) + rest)) == (pre + [BeginNode(t.name)]) + PropItems(t.props) + rest;
    if t.children != [] {
      assert rest[0] == Items(t.children[0])[0];
    }
  }

  /** The same among the items of a node: `h` ends with its tag. */
  lemma {:induction false} SetInProps(h: seq<Item>, props: Props, rest: seq<Item>, name: seq<Byte>, val: seq<Byte>)
    requires h != [] && rest != [] && (rest[0].BeginNode? || rest[0].EndNode?)
    ensures var items := h + PropItems(props) + rest;
      LookupError(items, |h| - 1, name) == 0 &&
      PropSet(items, |h| - 1, name, val) == h + PropItems(SetProp(props, name, val)) + rest
  {
    var items, i := h + PropItems(props) + rest, PropIndex(props, name);
    FindInProps(h, props, rest, name);
    if i < |props| {
      SetOld(h, props, rest, i, val);
    } else {
      SetNew(h, PropItems(props), rest, Property(name, val));
      assert ([(name, val)] + props)[1..] == props;
    }
  }

  lemma {:induction false} SetNew<T>(h: seq<T>, p: seq<T>, rest: seq<T>, x: T)
    ensures var s := h + p + rest; s[..|h|] + [x] + s[|h|..] == h + ([x] + p) + rest
  {
    var s := h + p + rest;
    assert s[..|h|] == h && s[|h|..] == p + rest;
  }

  lemma {:induction false} SetOld(h: seq<Item>, props: Props, rest: seq<Item>, i: nat, val: seq<Byte>)
    requires i < |props|
    ensures var items, m, name := h + PropItems(props) + rest, |h| + i, props[i].0;
      m < |items| && items[m] == Property(name, props[i].1) &&
      items[..m] + [Property(name, val)] + items[m + 1..] == h + PropItems(props[i := (name, val)]) + rest
  {
    var q := props[i := (props[i].0, val)];
    Updated(props, i, (props[i].0, val));
    PropItemsAt(props, i);
    PropItemsAt(q, i);
    var a, b := PropItems(props[..i]), PropItems(props[i + 1..]);
    SetMiddle(h, a, Property(props[i].0, props[i].1), Property(props[i].0, val), b, rest);
  }

  lemma {:induction false} SetMiddle<T>(h: seq<T>, a: seq<T>, x: T, y: T, b: seq<T>, rest: seq<T>)
    ensures var s, m := h + (a + ([x] + b)) + rest, |h| + |a|;
      m < |s| && s[m] == x && s[..m] + [y] + s[m + 1..] == h + (a + ([y] + b)) + rest
  {
    Around(h, a, x, b, rest);
    Around(h, a, y, b, rest);
    Middle(h + a, x, b + rest, h + (a + ([x] + b)) + rest);
  }

  lemma {:induction false} Updated<T>(s: seq<T>, i: nat, x: T)
    requires i < |s|
    ensures s[i := x][..i] == s[..i] && s[i := x][i + 1..] == s[i + 1..] && s[i := x][i] == x
  {
  }

  lemma {:induction false} Around<T>(h: seq<T>, a: seq<T>, x: T, b: seq<T>, rest: seq<T>)
    ensures h + (a + ([x] + b)) + rest == (h + a) + [x] + (b + rest)
  {
  }

  /** fdt_setprop on a node of a tree sets that property of that node. */
  lemma {:induction false} SetInNode(pre: seq<Item>, t: Tree, post: seq<Item>, name: seq<Byte>, val: seq<Byte>)
    ensures var items := pre + Items(t) + post;
      LookupError(items, |pre|, name) == 0 &&
      PropSet(items, |pre|, name, val) == pre + Items(t.(props := SetProp(t.props, name, val))) + post
  {
    var h, rest := pre + [BeginNode(t.name)], Forest(t.children) + ([EndNode] + post);
    InsideOf(pre, t, post);
    InsideOf(pre, t.(props := SetProp(t.props, name, val)), post);
    SetInProps(h, t.props, rest, name, val);
  }

  /** What the search for a property of a node finds. */
  lemma {:induction false} FoundInNode(pre: seq<Item>, t: Tree, post: seq<Item>, name: seq<Byte>)
    ensures var items, i := pre + Items(t) + post, PropIndex(t.props, name);
      if i < |t.props| then FindProp(items, |pre| + 1, name) == Here(|pre| + 1 + i) && items[|pre| + 1 + i] == Property(name, t.props[i].1)
      else FindProp(items, |pre| + 1, name) == Stop(NOTFOUND)
  {
    var h, rest, i := pre + [BeginNode(t.name)], Forest(t.children) + ([EndNode] + post), PropIndex(t.props, name);
    InsideOf(pre, t, post);
    FindInProps(h, t.props, rest, name);
    if i < |t.props| {
      SetOld(h, t.props, rest, i, []);
    }
  }

  /** How many bytes more a tree takes with that property set, when these names are there. */
  function PropGrowth(names: seq<Byte>, props: Props, name: seq<Byte>, val: seq<Byte>): int {
    var i := PropIndex(props, name);
    if i < |props| then Align4(|val|) - Align4(|props[i].1|)
    else 12 + Align4(|val|) + if PlaceFrom(names, name, 0) < 0 then |name| + 1 else 0
  }

  /** That is what the properties take more, and a new string if the name stands nowhere yet. */
  lemma {:induction false} GrowthIsSize(names: seq<Byte>, props: Props, name: seq<Byte>, val: seq<Byte>)
    ensures PropGrowth(names, props, name, val) == SizeOf(PropItems(SetProp(props, name, val))) - SizeOf(PropItems(props))
      + if Lookup(props, name).None? && PlaceFrom(names, name, 0) < 0 then |name| + 1 else 0
  {
    hide Align4, Lookup;
    SetShape(props, name, val);
    var i := PropIndex(props, name);
    if i < |props| {
      OtherData(props, i, val);
    } else {
      assert ([(name, val)] + props)[1..] == props;
      assert PropItems([(name, val)] + props)[1..] == PropItems(props);
    }
  }

  lemma {:induction false} OtherData(props: Props, i: nat, val: seq<Byte>)
    requires i < |props|
    ensures SizeOf(PropItems(props[i := (props[i].0, val)])) - SizeOf(PropItems(props)) == Align4(|val|) - Align4(|props[i].1|)
  {
    hide Align4;
    var q := props[i := (props[i].0, val)];
    assert PropItems(q)[1..] == PropItems(q[1..]) && PropItems(props)[1..] == PropItems(props[1..]);
    if i > 0 {
      OtherData(props[1..], i - 1, val);
      assert q[1..] == props[1..][i - 1 := (props[1..][i - 1].0, val)];
    } else {
      assert q[1..] == props[1..];
    }
  }

  /** The node that fdt_add_subnode adds takes as much as it asks for. */
  lemma {:induction false} EmptyNodeSize(name: seq<Byte>)
    ensures SizeOf(Items(Tree(name, [], []))) == 8 + Align4(|name| + 1)
  {
    var x := [BeginNode(name), EndNode];
    assert Items(Tree(name, [], [])) == x && x[1..] == [EndNode] && x[1..][1..] == [];
    assert SizeOf([EndNode]) == 4;
  }

  /** A new property comes first; otherwise the first of that name gets the value. */
  lemma {:induction false} SetShape(props: Props, name: seq<Byte>, val: seq<Byte>)
    ensures Lookup(props, name).None? <==> SetProp(props, name, val) == [(name, val)] + props
    ensures Lookup(props, name).None? <==> forall k | 0 <= k < |props| :: props[k].0 != name
    ensures forall i | 0 <= i < |props| && props[i].0 == name && (forall k | 0 <= k < i :: props[k].0 != name) ::
      SetProp(props, name, val) == props[i := (name, val)] && Lookup(props, name) == Some(props[i].1)
    ensures Lookup(props, name).None? <==> PropIndex(props, name) == |props|
  {
    PropIndexExact(props, name);
    assert |props| < |[(name, val)] + props|;
  }

  lemma {:induction false} PropIndexExact(props: Props, name: seq<Byte>)
    ensures forall k | 0 <= k < PropIndex(props, name) :: props[k].0 != name
    ensures PropIndex(props, name) < |props| ==>
      props[PropIndex(props, name)].0 == name && Lookup(props, name) == Some(props[PropIndex(props, name)].1)
    ensures Lookup(props, name).None? <==> PropIndex(props, name) == |props|
  {
    if props != [] && props[0].0 != name {
      PropIndexExact(props[1..], name);
      assert forall k | 0 < k < |props| :: props[k] == props[1..][k - 1];
    }
  }

  lemma {:induction false} GrowthIs(f: Fdt, pre: seq<Item>, t: Tree, post: seq<Item>, name: seq<Byte>, val: seq<Byte>)
    requires Ordered(f) && |pre| < |pre + Items(t) + post|
    ensures Growth(f, pre + Items(t) + post, |pre|, name, val) == PropGrowth(Names(f), t.props, name, val)
  {
    FoundInNode(pre, t, post, name);
  }

  // ---- children ----

  /** fdt_add_subnode on a node of a tree adds an empty first child. */
  lemma {:induction false} AddInNode(pre: seq<Item>, t: Tree, post: seq<Item>, name: seq<Byte>)
    ensures NodeAdded(pre + Items(t) + post, |pre|, name)
      == pre + Items(t.(children := [Tree(name, [], [])] + t.children)) + post
  {
    var h, rest := pre + [BeginNode(t.name)], Forest(t.children) + ([EndNode] + post);
    var u, x := t.(children := [Tree(name, [], [])] + t.children), [BeginNode(name), EndNode];
    InsideOf(pre, t, post);
    InsideOf(pre, u, post);
    SkipInProps(h, t.props, rest);
    PropItemsSize(t.props);
    assert u.children[1..] == t.children;
    EmptyNode(name);
    assert Forest(u.children) == x + Forest(t.children);
    Inserted(h + PropItems(t.props), x, Forest(t.children), [EndNode] + post);
  }

  lemma {:induction false} EmptyNode(name: seq<Byte>)
    ensures Items(Tree(name, [], [])) == [BeginNode(name), EndNode]
  {
  }

  lemma {:induction false} Inserted<T>(a: seq<T>, x: seq<T>, b: seq<T>, c: seq<T>)
    ensures var s := a + (b + c); s[..|a|] + x + s[|a|..] == a + ((x + b) + c)
  {
    var s := a + (b + c);
    assert s[..|a|] == a && s[|a|..] == b + c;
  }

  /** fdt_del_node finds the end of a node right behind its items. */
  lemma {:induction false} EndInTree(pre: seq<Item>, t: Tree, post: seq<Item>)
    ensures |pre| < |pre + Items(t) + post| && EndAt(pre + Items(t) + post, |pre| + 1, 0) == Some(|pre| + |Items(t)|)
  {
    NodeEnd(t, post);
    TailOf(pre, Items(t), post);
    EndFrom(pre + Items(t) + post, |pre| + 1, Items(t)[1..] + post, |Items(t)| - 1);
  }

  lemma {:induction false} EndFrom(items: seq<Item>, j: nat, r: seq<Item>, n: nat)
    requires j <= |items| && items[j..] == r && EndOf(r, 0) == Some(n)
    ensures EndAt(items, j, 0) == Some(j + n)
  {
    EndAtIsEndOf(items, j, 0);
  }

  lemma {:induction false} TailOf<T>(a: seq<T>, b: seq<T>, c: seq<T>)
    requires b != []
    ensures (a + b + c)[|a| + 1..] == b[1..] + c
  {
  }

  lemma {:induction false} CutOut(a: seq<Item>, b: seq<Item>, c: seq<Item>)
    ensures Without(a + b + c, |a|, |a| + |b|) == a + c
  {
  }

  /** A tree without the i-th child of its root. */
  function WithoutChild(t: Tree, i: nat): Tree
    requires i < |t.children|
  {
    t.(children := t.children[..i] + t.children[i + 1..])
  }

  /** Taking the items of a child out leaves the items of the node without that child. */
  lemma {:induction false} ChildItems(t: Tree, i: nat)
    requires i < |t.children|
    ensures Items(t) == Ahead(t, [i]) + Items(t.children[i]) + Behind(t, [i])
    ensures Items(WithoutChild(t, i)) == Ahead(t, [i]) + Behind(t, [i])
  {
    Context(t, [i], t.children[i]);
    assert NodeOf(t, [i]) == t.children[i] by {
      assert [i][1..] == [];
    }
    OneStep(t, i);
    ItemsWithoutChild(t, i);
  }

  lemma {:induction false} OneStep(t: Tree, i: nat)
    requires i < |t.children|
    ensures Ahead(t, [i]) == [BeginNode(t.name)] + PropItems(t.props) + Forest(t.children[..i])
    ensures Behind(t, [i]) == Forest(t.children[i + 1..]) + [EndNode]
  {
    var c := t.children[i];
    assert [i][1..] == [] && Ahead(c, []) == [] && Behind(c, []) == [];
    var h, g := [BeginNode(t.name)] + PropItems(t.props) + Forest(t.children[..i]), Forest(t.children[i + 1..]);
    assert h + [] == h && [] + g == g;
  }

  lemma {:induction false} ItemsWithoutChild(t: Tree, i: nat)
    requires i < |t.children|
    ensures Items(WithoutChild(t, i))
      == ([BeginNode(t.name)] + PropItems(t.props) + Forest(t.children[..i])) + (Forest(t.children[i + 1..]) + [EndNode])
  {
    ForestAppend(t.children[..i], t.children[i + 1..]);
    Joined([BeginNode(t.name)] + PropItems(t.props), Forest(t.children[..i]), Forest(t.children[i + 1..]), [EndNode]);
  }

  lemma {:induction false} Joined<T>(a: seq<T>, f: seq<T>, g: seq<T>, e: seq<T>)
    ensures a + (f + g) + e == (a + f) + (g + e)
  {
  }

  /** The items `x` stand at index j. */
  predicate Stand(items: seq<Item>, j: nat, x: seq<Item>) {
    j + |x| <= |items| && items[j..j + |x|] == x
  }

  lemma {:induction false} StandSplit(items: seq<Item>, j: nat, x: seq<Item>, y: seq<Item>)
    requires Stand(items, j, x + y)
    ensures Stand(items, j, x) && Stand(items, j + |x|, y)
  {
    var s := x + y;
    assert items[j..j + |x|] == items[j..j + |s|][..|x|];
    assert items[j + |x|..j + |s|] == items[j..j + |s|][|x|..];
  }

  lemma {:induction false} StandFirst(items: seq<Item>, j: nat, x: seq<Item>)
    requires Stand(items, j, x) && x != []
    ensures items[j] == x[0]
  {
    assert items[j] == items[j..j + |x|][0];
  }

  lemma {:induction false} StandBegin(items: seq<Item>, j: nat, t: Tree)
    requires Stand(items, j, Items(t))
    ensures j < |items| && items[j] == BeginNode(t.name)
  {
    StandFirst(items, j, Items(t));
  }

  /** The parts of a node that stands at j. */
  lemma {:induction false} StandNode(items: seq<Item>, j: nat, t: Tree)
    requires Stand(items, j, Items(t))
    ensures var f := j + 1 + |t.props|;
      Stand(items, j, [BeginNode(t.name)]) && Stand(items, j + 1, PropItems(t.props)) && Stand(items, f, Forest(t.children)) &&
      Stand(items, f + |Forest(t.children)|, [EndNode]) && |Items(t)| == f + |Forest(t.children)| + 1 - j
  {
    PropItemsSize(t.props);
    StandFour(items, j, [BeginNode(t.name)], PropItems(t.props), Forest(t.children), [EndNode]);
  }

  lemma {:induction false} StandFour(items: seq<Item>, j: nat, h: seq<Item>, p: seq<Item>, f: seq<Item>, e: seq<Item>)
    requires Stand(items, j, h + p + f + e)
    ensures Stand(items, j, h) && Stand(items, j + |h|, p) && Stand(items, j + |h| + |p|, f) && Stand(items, j + |h| + |p| + |f|, e)
  {
    StandSplit(items, j, h + p + f, e);
    StandSplit(items, j, h + p, f);
    StandSplit(items, j, h, p);
  }

  /** A forest that stands at j: its first tree, and the others behind it. */
  lemma {:induction false} StandForest(items: seq<Item>, j: nat, ts: seq<Tree>, n: nat, m: nat)
    requires Stand(items, j, Forest(ts)) && ts != [] && n == j + |Items(ts[0])| && m == j + |Forest(ts)|
    ensures Stand(items, j, Items(ts[0])) && Stand(items, n, Forest(ts[1..])) && n + |Forest(ts[1..])| == m
    ensures j < |items| && items[j] == BeginNode(ts[0].name)
  {
    StandSplit(items, j, Items(ts[0]), Forest(ts[1..]));
    StandBegin(items, j, ts[0]);
  }

  /** The search for a child by name fails exactly when no child matches. */
  lemma {:induction false} FindAmong(items: seq<Item>, j: nat, ts: seq<Tree>, m: nat, name: seq<Byte>)
    requires m == j + |Forest(ts)| && Stand(items, j, Forest(ts)) && Stand(items, m, [EndNode])
    ensures Answers(FindSub(items, j, 0, name), ts, name)
    decreases ts
  {
    if ts == [] {
      StandFirst(items, j, [EndNode]);
    } else {
      var n := j + |Items(ts[0])|;
      StandForest(items, j, ts, n, m);
      if !NameMatches(ts[0].name, name) {
        SkipInside(items, j, ts[0], n, 1, name);
        FindAmong(items, n, ts[1..], m, name);
      }
    }
  }

  predicate NoneMatches(ts: seq<Tree>, name: seq<Byte>) {
    ts == [] || (!NameMatches(ts[0].name, name) && NoneMatches(ts[1..], name))
  }

  /** The answer of a search for a child: NOTFOUND if none matches, and a child otherwise. */
  predicate Answers(s: PropStep, ts: seq<Tree>, name: seq<Byte>) {
    if NoneMatches(ts, name) then s == Stop(NOTFOUND) else s.Here?
  }

  /** From behind the tag of a node at a depth of 1 or more, up to behind its end. */
  lemma {:induction false} SkipInside(items: seq<Item>, j: nat, t: Tree, n: nat, depth: int, name: seq<Byte>)
    requires depth >= 1 && Stand(items, j, Items(t)) && n == j + |Items(t)|
    ensures FindSub(items, j + 1, depth, name) == FindSub(items, n, depth - 1, name)
    decreases t, 2
  {
    StandNode(items, j, t);
    var f := j + 1 + |t.props|;
    SkipParts(items, j, t.props, t.children, f, f + |Forest(t.children)|, depth, name);
  }

  lemma {:induction false} SkipParts(items: seq<Item>, j: nat, props: Props, ts: seq<Tree>, f: nat, m: nat, depth: int, name: seq<Byte>)
    requires depth >= 1 && f == j + 1 + |props| && m == f + |Forest(ts)| && Stand(items, j + 1, PropItems(props))
    requires Stand(items, f, Forest(ts)) && Stand(items, m, [EndNode])
    ensures FindSub(items, j + 1, depth, name) == FindSub(items, m + 1, depth - 1, name)
    decreases ts, 1
  {
    SkipPropsSub(items, j + 1, props, depth, name);
    SkipForest(items, f, ts, m, depth, name);
    CloseStep(items, m, depth, name);
  }

  lemma {:induction false} OpenStep(items: seq<Item>, j: nat, depth: int, name: seq<Byte>)
    requires j < |items| && items[j].BeginNode? && depth >= 1
    ensures FindSub(items, j, depth, name) == FindSub(items, j + 1, depth + 1, name)
  {
  }

  lemma {:induction false} CloseStep(items: seq<Item>, j: nat, depth: int, name: seq<Byte>)
    requires Stand(items, j, [EndNode]) && depth >= 1
    ensures FindSub(items, j, depth, name) == FindSub(items, j + 1, depth - 1, name)
  {
    StandFirst(items, j, [EndNode]);
  }

  lemma {:induction false} SkipForest(items: seq<Item>, j: nat, ts: seq<Tree>, m: nat, depth: int, name: seq<Byte>)
    requires depth >= 1 && m == j + |Forest(ts)| && Stand(items, j, Forest(ts))
    ensures FindSub(items, j, depth, name) == FindSub(items, m, depth, name)
    decreases ts, 0
  {
    hide Stand, FindSub, Items;
    if ts != [] {
      var n := j + |Items(ts[0])|;
      StandForest(items, j, ts, n, m);
      OpenStep(items, j, depth, name);
      SkipInside(items, j, ts[0], n, depth + 1, name);
      SkipForest(items, n, ts[1..], m, depth, name);
    }
  }

  lemma {:induction false} SkipPropsSub(items: seq<Item>, j: nat, props: Props, depth: int, name: seq<Byte>)
    requires Stand(items, j, PropItems(props))
    ensures j + |props| <= |items| && FindSub(items, j, depth, name) == FindSub(items, j + |props|, depth, name)
    decreases props
  {
    if props != [] {
      var p := [Property(props[0].0, props[0].1)];
      StandSplit(items, j, p, PropItems(props[1..]));
      StandFirst(items, j, p);
      SkipPropsSub(items, j + 1, props[1..], depth, name);
    }
  }

  /** fdt_add_subnode refuses a name exactly when some child of the node already matches it. */
  lemma {:induction false} ChildExists(pre: seq<Item>, t: Tree, post: seq<Item>, name: seq<Byte>)
    ensures Answers(FindSub(pre + Items(t) + post, |pre| + 1, 0, name), t.children, name)
  {
    StandMiddle(pre, Items(t), post);
    ChildAbsent(pre + Items(t) + post, |pre|, t, name);
  }

  lemma {:induction false} StandMiddle(pre: seq<Item>, x: seq<Item>, post: seq<Item>)
    ensures Stand(pre + x + post, |pre|, x)
  {
  }

  lemma {:induction false} FindBehind(items: seq<Item>, j: nat, props: Props, ts: seq<Tree>, f: nat, m: nat, name: seq<Byte>)
    requires f == j + 1 + |props| && m == f + |Forest(ts)| && Stand(items, j + 1, PropItems(props))
    requires Stand(items, f, Forest(ts)) && Stand(items, m, [EndNode])
    ensures Answers(FindSub(items, j + 1, 0, name), ts, name)
  {
    SkipPropsSub(items, j + 1, props, 0, name);
    FindAmong(items, f, ts, m, name);
  }

  lemma {:induction false} ChildAbsent(items: seq<Item>, j: nat, t: Tree, name: seq<Byte>)
    requires Stand(items, j, Items(t))
    ensures j < |items| && Answers(FindSub(items, j + 1, 0, name), t.children, name)
  {
    StandNode(items, j, t);
    var f := j + 1 + |t.props|;
    FindBehind(items, j, t.props, t.children, f, f + |Forest(t.children)|, name);
  }

  lemma {:induction false} Middle<T>(a: seq<T>, x: T, b: seq<T>, s: seq<T>)
    requires s == a + [x] + b
    ensures |a| < |s| && s[|a|] == x && s[..|a|] == a && s[|a| + 1..] == b
  {
  }

  // ---- the operations on a tree ----

  lemma {:induction false} OffOf(pre: seq<Item>, x: seq<Item>, post: seq<Item>)
    ensures Off(pre + x + post, |pre|) == SizeOf(pre)
  {
    assert (pre + x + post)[..|pre|] == pre;
  }

  lemma {:induction false} WithEnd(t: Tree, path: seq<nat>, u: Tree)
    requires PathOk(t, path)
    ensures Items(t) + [End] == Ahead(t, path) + Items(NodeOf(t, path)) + (Behind(t, path) + [End])
    ensures Items(Replace(t, path, u)) + [End] == Ahead(t, path) + Items(u) + (Behind(t, path) + [End])
  {
    Context(t, path, u);
    Assoc(Ahead(t, path) + Items(NodeOf(t, path)), Behind(t, path), [End]);
    Assoc(Ahead(t, path) + Items(u), Behind(t, path), [End]);
  }

  lemma {:induction false} NodeAt(pre: seq<Item>, t: Tree, post: seq<Item>)
    ensures |pre| < |pre + Items(t) + post| && (pre + Items(t) + post)[|pre|] == BeginNode(t.name)
  {
  }

  /** The tree with one property of the node at the path set. */
  function WithProp(t: Tree, path: seq<nat>, name: seq<Byte>, val: seq<Byte>): Tree
    requires PathOk(t, path)
  {
    var n := NodeOf(t, path);
    Replace(t, path, n.(props := SetProp(n.props, name, val)))
  }

  /** Reading any property of any node after a set: only that property of that node differs,
      and the tree has the same nodes with the same names. */
  lemma {:induction false} PropReads(t: Tree, path: seq<nat>, name: seq<Byte>, val: seq<Byte>, other: seq<nat>, key: seq<Byte>)
    requires PathOk(t, path)
    ensures PathOk(WithProp(t, path, name, val), other) <==> PathOk(t, other)
    ensures PathOk(t, other) ==> var n, n' := NodeOf(t, other), NodeOf(WithProp(t, path, name, val), other);
      n'.name == n.name && Lookup(n'.props, key) == if other == path && key == name then Some(val) else Lookup(n.props, key)
    decreases path
  {
    if path == [] {
      LookupSet(t.props, name, val, key);
    } else if other != [] && other[0] == path[0] {
      PropReads(t.children[path[0]], path[1..], name, val, other[1..], key);
      assert path == [path[0]] + path[1..] && other == [other[0]] + other[1..];
    }
  }

  /** The tree with an empty first child under the node at the path. */
  function WithChild(t: Tree, path: seq<nat>, name: seq<Byte>): Tree
    requires PathOk(t, path)
  {
    var n := NodeOf(t, path);
    Replace(t, path, n.(children := [Tree(name, [], [])] + n.children))
  }

  /** fdt_setprop on the blob of a tree: the blob of the tree with that property of that node
      set, or, if there is no room, still the blob of the same tree. */
  method SetPropInTree(f: Fdt, nodeoffset: nat, name: seq<Byte>, val: seq<Byte>, ghost t: Tree, ghost path: seq<nat>) returns (err: int)
    requires PathOk(t, path) && Editable(f, Items(t) + [End]) && nodeoffset == SizeOf(Ahead(t, path))
    requires NoNul(name) && |val| <= INT_MAX
    modifies f, f.buf
    ensures f.buf == old(f.buf) && Fixed(f) == old(Fixed(f))
    ensures err == if old(DataSize(f)) + PropGrowth(old(Names(f)), NodeOf(t, path).props, name, val) > f.totalsize then NOSPACE else 0
    ensures err == 0 ==> Editable(f, Items(WithProp(t, path, name, val)) + [End])
    ensures err != 0 ==> Editable(f, Items(t) + [End]) && Names(f) == old(Names(f)) && DataSize(f) == old(DataSize(f))
  {
    ghost var n, pre, post := NodeOf(t, path), Ahead(t, path), Behind(t, path) + [End];
    ghost var u := n.(props := SetProp(n.props, name, val));
    WithEnd(t, path, u);
    NodeAt(pre, n, post);
    SetInNode(pre, n, post, name, val);
    GrowthIs(f, pre, n, post, name, val);
    err := SetPropAt(f, nodeoffset, name, val, pre, Items(n), post, Items(u));
  }

  /** The same with the items of the node, and what becomes of them, as they are. */
  method SetPropAt(f: Fdt, nodeoffset: nat, name: seq<Byte>, val: seq<Byte>, ghost pre: seq<Item>, ghost x: seq<Item>, ghost post: seq<Item>, ghost y: seq<Item>)
      returns (err: int)
    requires Editable(f, pre + x + post) && nodeoffset == SizeOf(pre) && NoNul(name) && |val| <= INT_MAX
    requires x != [] && (pre + x + post)[|pre|].BeginNode?
    requires LookupError(pre + x + post, |pre|, name) == 0 && PropSet(pre + x + post, |pre|, name, val) == pre + y + post
    modifies f, f.buf
    ensures f.buf == old(f.buf) && Fixed(f) == old(Fixed(f))
    ensures err == if old(DataSize(f)) + old(Growth(f, pre + x + post, |pre|, name, val)) > f.totalsize then NOSPACE else 0
    ensures Editable(f, if err == 0 then pre + y + post else pre + x + post)
    ensures err != 0 ==> Names(f) == old(Names(f)) && DataSize(f) == old(DataSize(f))
  {
    OffOf(pre, x, post);
    err := FdtSetprop(f, nodeoffset, name, val, pre + x + post, |pre|);
  }

  /** Where a node's properties end. */
  lemma {:induction false} BehindProps(pre: seq<Item>, t: Tree, post: seq<Item>)
    ensures var items := pre + Items(t) + post;
      |pre| + 1 <= |items| && Off(items, AfterProps(items, |pre| + 1)) == SizeOf(pre) + Size(BeginNode(t.name)) + SizeOf(PropItems(t.props))
  {
    var h, p, rest := pre + [BeginNode(t.name)], PropItems(t.props), Forest(t.children) + ([EndNode] + post);
    InsideOf(pre, t, post);
    SkipInProps(h, t.props, rest);
    PropItemsSize(t.props);
    assert (h + p + rest)[..|h + p|] == h + p;
    SizeOfAppend(h, p);
    SizeOfAppend(pre, [BeginNode(t.name)]);
    SizeOfOne(BeginNode(t.name));
  }

  /** fdt_add_subnode on the blob of a tree: refused if a child matches the name or there is
      no room; otherwise the offset of the new node, behind the parent's properties. */
  method AddSubnodeInTree(f: Fdt, parentoffset: nat, name: seq<Byte>, ghost t: Tree, ghost path: seq<nat>) returns (r: int)
    requires PathOk(t, path) && Editable(f, Items(t) + [End]) && parentoffset == SizeOf(Ahead(t, path))
    requires NoNul(name)
    modifies f, f.buf
    ensures f.buf == old(f.buf) && Fixed(f) == old(Fixed(f))
    ensures r == if !NoneMatches(NodeOf(t, path).children, name) then EXISTS
      else if old(DataSize(f)) + 8 + Align4(|name| + 1) > f.totalsize then NOSPACE
      else parentoffset + Size(BeginNode(NodeOf(t, path).name)) + SizeOf(PropItems(NodeOf(t, path).props))
    ensures r >= 0 ==> Editable(f, Items(WithChild(t, path, name)) + [End])
    ensures r < 0 ==> unchanged(f) && unchanged(f.buf)
  {
    ghost var n, pre, post := NodeOf(t, path), Ahead(t, path), Behind(t, path) + [End];
    ghost var u := n.(children := [Tree(name, [], [])] + n.children);
    WithEnd(t, path, u);
    NodeAt(pre, n, post);
    AddInNode(pre, n, post, name);
    ChildExists(pre, n, post, name);
    BehindProps(pre, n, post);
    r := AddSubnodeAt(f, parentoffset, name, pre, Items(n), post, Items(u));
  }

  method AddSubnodeAt(f: Fdt, parentoffset: nat, name: seq<Byte>, ghost pre: seq<Item>, ghost x: seq<Item>, ghost post: seq<Item>, ghost y: seq<Item>)
      returns (r: int)
    requires Editable(f, pre + x + post) && parentoffset == SizeOf(pre) && NoNul(name)
    requires x != [] && (pre + x + post)[|pre|].BeginNode? && NodeAdded(pre + x + post, |pre|, name) == pre + y + post
    modifies f, f.buf
    ensures f.buf == old(f.buf) && Fixed(f) == old(Fixed(f))
    ensures match FindSub(pre + x + post, |pre| + 1, 0, name)
      case Here(_) => r == EXISTS
      case Stop(e) =>
        r == if e != NOTFOUND then e
          else if old(DataSize(f)) + 8 + Align4(|name| + 1) > f.totalsize then NOSPACE
          else Off(pre + x + post, AfterProps(pre + x + post, |pre| + 1))
    ensures r >= 0 ==> Editable(f, pre + y + post)
    ensures r < 0 ==> unchanged(f) && unchanged(f.buf)
  {
    OffOf(pre, x, post);
    r := FdtAddSubnode(f, parentoffset, name, pre + x + post, |pre|);
  }

  /** fdt_del_node on the blob of a tree, for the i-th child of the node at the path. */
  method DelNodeInTree(f: Fdt, nodeoffset: nat, ghost t: Tree, ghost path: seq<nat>, ghost i: nat) returns (err: int)
    requires PathOk(t, path) && i < |NodeOf(t, path).children| && Editable(f, Items(t) + [End])
    requires nodeoffset == SizeOf(Ahead(t, path) + Ahead(NodeOf(t, path), [i]))
    modifies f, f.buf
    ensures f.buf == old(f.buf) && Fixed(f) == old(Fixed(f))
    ensures err == 0 && Editable(f, Items(Replace(t, path, WithoutChild(NodeOf(t, path), i))) + [End])
  {
    ghost var pre, x, post := SplitAtChild(t, path, i);
    err := DelNodeAt(f, nodeoffset, pre, x, post);
  }

  /** The items around and of the i-th child of the node at the path. */
  lemma {:induction false} SplitAtChild(t: Tree, path: seq<nat>, i: nat) returns (pre: seq<Item>, x: seq<Item>, post: seq<Item>)
    requires PathOk(t, path) && i < |NodeOf(t, path).children|
    ensures pre == Ahead(t, path) + Ahead(NodeOf(t, path), [i]) && x != []
    ensures Items(t) + [End] == pre + x + post
    ensures (pre + x + post)[|pre|].BeginNode? && EndAt(pre + x + post, |pre| + 1, 0) == Some(|pre| + |x|)
    ensures Items(Replace(t, path, WithoutChild(NodeOf(t, path), i))) + [End] == pre + post
  {
    var n, p, q := NodeOf(t, path), Ahead(t, path), Behind(t, path) + [End];
    var a, b, c := Ahead(n, [i]), Behind(n, [i]), n.children[i];
    pre, x, post := p + a, Items(c), b + q;
    WithEnd(t, path, WithoutChild(n, i));
    ChildItems(n, i);
    Regroup5(p, a, Items(c), b, q);
    NodeAt(pre, c, post);
    EndInTree(pre, c, post);
  }

  method DelNodeAt(f: Fdt, nodeoffset: nat, ghost pre: seq<Item>, ghost x: seq<Item>, ghost post: seq<Item>) returns (err: int)
    requires Editable(f, pre + x + post) && nodeoffset == SizeOf(pre) && x != []
    requires (pre + x + post)[|pre|].BeginNode? && EndAt(pre + x + post, |pre| + 1, 0) == Some(|pre| + |x|)
    modifies f, f.buf
    ensures f.buf == old(f.buf) && Fixed(f) == old(Fixed(f))
    ensures err == 0 && Editable(f, pre + post)
  {
    OffOf(pre, x, post);
    CutOut(pre, x, post);
    err := FdtDelNode(f, nodeoffset, pre + x + post, |pre|);
  }

  lemma {:induction false} Regroup5<T>(p: seq<T>, a: seq<T>, m: seq<T>, b: seq<T>, q: seq<T>)
    ensures p + (a + m + b) + q == (p + a) + m + (b + q) && p + (a + b) + q == (p + a) + (b + q)
  {
  }
}
