/** Device trees as items, and what walking the items with fdt_next_node finds. */
module FdtTree {
  import opened Bits
  import opened Common
  import opened FdtFormat

  type Props = seq<(seq<Byte>, seq<Byte>)>

  datatype Tree = Tree(name: seq<Byte>, props: Props, children: seq<Tree>)

  function PropItems(props: Props): seq<Item> {
    if props == [] then [] else [Property(props[0].0, props[0].1)] + PropItems(props[1..])
  }

  /** The items of a tree, in the order in which it is written. */
  function Items(t: Tree): (items: seq<Item>)
    ensures |items| >= 2 && items[0] == BeginNode(t.name)
    decreases t
  {
    [BeginNode(t.name)] + PropItems(t.props) + Forest(t.children) + [EndNode]
  }

  function Forest(ts: seq<Tree>): seq<Item>
    decreases ts
  {
    if ts == [] then [] else Items(ts[0]) + Forest(ts[1..])
  }

  lemma {:induction false} PropItemsAppend(x: Props, y: Props)
    ensures PropItems(x + y) == PropItems(x) + PropItems(y)
  {
    if x == [] {
      assert x + y == y;
    } else {
      assert (x + y)[1..] == x[1..] + y;
      PropItemsAppend(x[1..], y);
    }
  }

  // ---- fdt_next_node ----

  /** Where a scan stops: at a node; past the end of the node it started in; or with an
      error. */
  datatype Step = Node(at: nat, depth: int) | Left(at: nat) | Failed(error: int)

  /** The loop of fdt_next_node from item j on; `tracked` says whether the caller passed a
      depth. */
  function NextNode(items: seq<Item>, j: nat, depth: int, tracked: bool): (s: Step)
    requires j <= |items|
    ensures s.Node? ==> j <= s.at < |items| && items[s.at].BeginNode?
    ensures s.Left? ==> j < s.at <= |items|
    decreases |items| - j
  {
    if j == |items| then Failed(if tracked then TRUNCATED else NOTFOUND)
    else match items[j]
      case BeginNode(_) => Node(j, depth + 1)
      case EndNode => if tracked && depth <= 0 then Left(j + 1) else NextNode(items, j + 1, depth - 1, tracked)
      case End => Failed(NOTFOUND)
      case _ => NextNode(items, j + 1, depth, tracked)
  }

  lemma {:induction false} NextNodeFacts(items: seq<Item>, j: nat, depth: int, tracked: bool)
    requires j <= |items|
    ensures var s := NextNode(items, j, depth, tracked);
      (s.Node? && tracked && depth >= 0 ==> s.depth > 0) && (s.Failed? ==> s.error < 0)
    decreases |items| - j
  {
    if j < |items| {
      NextNodeFacts(items, j + 1, if items[j].EndNode? then depth - 1 else depth, tracked);
    }
  }

  // ---- properties ----

  /** Where a property walk stops: at a property, or not at all. */
  datatype PropStep = Here(at: nat) | Stop(error: int)

  /** nextprop_ from item j on. */
  function NextProp(items: seq<Item>, j: nat): (s: PropStep)
    requires j <= |items|
    ensures s.Here? ==> j <= s.at < |items| && items[s.at].Property?
    ensures s.Stop? ==> s.error < 0
    decreases |items| - j
  {
    if j == |items| then Stop(TRUNCATED)
    else match items[j]
      case Property(_, _) => Here(j)
      case Nop => NextProp(items, j + 1)
      case End => Stop(BADSTRUCTURE)
      case _ => Stop(NOTFOUND)
  }

  /** The first property with the given name from item j on, within the same node. */
  function FindProp(items: seq<Item>, j: nat, name: seq<Byte>): (s: PropStep)
    requires j <= |items|
    ensures s.Here? ==> j <= s.at < |items| && items[s.at].Property? && items[s.at].key == name
    ensures s.Stop? ==> s.error < 0
    decreases |items| - j
  {
    if j == |items| then Stop(TRUNCATED)
    else match items[j]
      case Property(key, _) => if key == name then Here(j) else FindProp(items, j + 1, name)
      case Nop => FindProp(items, j + 1, name)
      case End => Stop(BADSTRUCTURE)
      case _ => Stop(NOTFOUND)
  }

  /** A search is one property after the other. */
  lemma {:induction false} FindByNext(items: seq<Item>, j: nat, name: seq<Byte>)
    requires j <= |items|
    ensures FindProp(items, j, name) == match NextProp(items, j)
      case Here(m) => if items[m].key == name then Here(m) else FindProp(items, m + 1, name)
      case Stop(e) => Stop(e)
    decreases |items| - j
  {
    if j < |items| && items[j].Nop? {
      FindByNext(items, j + 1, name);
    }
  }

  /** The properties at the head of a node's contents, as a property walk reports them. */
  function PropsOf(r: seq<Item>): Props {
    if r == [] then []
    else match r[0]
      case Property(key, data) => [(key, data)] + PropsOf(r[1..])
      case Nop => PropsOf(r[1..])
      case _ => []
  }

  /** The value of the first property with that name. */
  function Lookup(props: Props, name: seq<Byte>): Option<seq<Byte>> {
    if props == [] then None
    else if props[0].0 == name then Some(props[0].1)
    else Lookup(props[1..], name)
  }

  lemma {:induction false} Rest<T>(items: seq<T>, j: nat)
    requires j < |items|
    ensures items[j..] != [] && items[j..][0] == items[j] && items[j..][1..] == items[j + 1..]
  {
  }

  lemma {:induction false} PropsByNext(items: seq<Item>, j: nat)
    requires j <= |items|
    ensures PropsOf(items[j..]) == match NextProp(items, j)
      case Here(m) => [(items[m].key, items[m].data)] + PropsOf(items[m + 1..])
      case Stop(_) => []
    decreases |items| - j
  {
    if j < |items| {
      Rest(items, j);
      if items[j].Nop? {
        PropsByNext(items, j + 1);
      }
    }
  }

  /** A search finds what a lookup in the node's list of properties finds. */
  lemma {:induction false} FindIsLookup(items: seq<Item>, j: nat, name: seq<Byte>)
    requires j <= |items|
    ensures Lookup(PropsOf(items[j..]), name) == match FindProp(items, j, name)
      case Here(m) => Some(items[m].data)
      case Stop(_) => None
    decreases |items| - j
  {
    if j < |items| {
      Rest(items, j);
      if items[j].Property? || items[j].Nop? {
        FindIsLookup(items, j + 1, name);
        LookupCons(PropsOf(items[j + 1..]), (if items[j].Property? then (items[j].key, items[j].data) else ([], [])), name);
      }
    }
  }

  lemma {:induction false} LookupCons(props: Props, p: (seq<Byte>, seq<Byte>), name: seq<Byte>)
    ensures Lookup([p] + props, name) == if p.0 == name then Some(p.1) else Lookup(props, name)
  {
    assert ([p] + props)[1..] == props;
  }

  // ---- a whole walk ----

  /** What the walk reports of one node. */
  datatype Entry = Entry(depth: int, name: seq<Byte>, props: Props)

  /** All nodes that repeated fdt_next_node calls report, until one leaves the start node. */
  function Walk(r: seq<Item>, depth: int): seq<Entry> {
    if r == [] then []
    else match r[0]
      case BeginNode(name) => [Entry(depth + 1, name, PropsOf(r[1..]))] + Walk(r[1..], depth + 1)
      case EndNode => if depth <= 0 then [] else Walk(r[1..], depth - 1)
      case End => []
      case _ => Walk(r[1..], depth)
  }

  /** What the walk reports of item m. */
  function Describe(items: seq<Item>, m: nat, depth: int): Entry
    requires m < |items| && items[m].BeginNode?
  {
    Entry(depth, items[m].name, PropsOf(items[m + 1..]))
  }

  /** The same from item j on. */
  function WalkAt(items: seq<Item>, j: nat, depth: int): seq<Entry>
    requires j <= |items|
    decreases |items| - j
  {
    if j == |items| then []
    else match items[j]
      case BeginNode(_) => [Describe(items, j, depth + 1)] + WalkAt(items, j + 1, depth + 1)
      case EndNode => if depth <= 0 then [] else WalkAt(items, j + 1, depth - 1)
      case End => []
      case _ => WalkAt(items, j + 1, depth)
  }

  lemma {:induction false} WalkAtIsWalk(items: seq<Item>, j: nat, depth: int)
    requires j <= |items|
    ensures WalkAt(items, j, depth) == Walk(items[j..], depth)
    decreases |items| - j
  {
    if j < |items| {
      Rest(items, j);
      WalkAtIsWalk(items, j + 1, if items[j].BeginNode? then depth + 1 else if items[j].EndNode? then depth - 1 else depth);
    }
  }

  /** A walk is one fdt_next_node after the other. */
  lemma {:induction false} WalkIsNextNode(items: seq<Item>, j: nat, depth: int)
    requires j <= |items|
    ensures WalkAt(items, j, depth) == match NextNode(items, j, depth, true)
      case Node(m, d) => [Describe(items, m, d)] + WalkAt(items, m + 1, d)
      case _ => []
    decreases |items| - j
  {
    if j < |items| && !items[j].End? && !items[j].BeginNode? && !(items[j].EndNode? && depth <= 0) {
      WalkIsNextNode(items, j + 1, if items[j].EndNode? then depth - 1 else depth);
    }
  }

  /** The tree's own account: every node in preorder with its depth and properties. */
  function Listing(t: Tree, depth: int): seq<Entry>
    decreases t
  {
    [Entry(depth, t.name, t.props)] + ForestListing(t.children, depth + 1)
  }

  function ForestListing(ts: seq<Tree>, depth: int): seq<Entry>
    decreases ts
  {
    if ts == [] then [] else Listing(ts[0], depth) + ForestListing(ts[1..], depth)
  }

  lemma {:induction false} WalkCons(it: Item, r: seq<Item>, depth: int)
    ensures Walk([it] + r, depth) == match it
      case BeginNode(name) => [Entry(depth + 1, name, PropsOf(r))] + Walk(r, depth + 1)
      case EndNode => if depth <= 0 then [] else Walk(r, depth - 1)
      case End => []
      case _ => Walk(r, depth)
    ensures PropsOf([it] + r) == match it
      case Property(key, data) => [(key, data)] + PropsOf(r)
      case Nop => PropsOf(r)
      case _ => []
  {
    assert ([it] + r)[1..] == r;
  }

  /** What follows the properties of a node, inside it and behind it. */
  function Tail(t: Tree, rest: seq<Item>): seq<Item> {
    Forest(t.children) + ([EndNode] + rest)
  }

  lemma {:induction false} Unroll(t: Tree, rest: seq<Item>)
    ensures Items(t) + rest == [BeginNode(t.name)] + (PropItems(t.props) + Tail(t, rest))
    ensures Items(t)[1..] + rest == PropItems(t.props) + Tail(t, rest)
  {
    Regroup([BeginNode(t.name)], PropItems(t.props), Forest(t.children), [EndNode], rest);
  }

  lemma {:induction false} Regroup<T>(a: seq<T>, b: seq<T>, c: seq<T>, d: seq<T>, e: seq<T>)
    requires |a| == 1
    ensures a + b + c + d + e == a + (b + (c + (d + e)))
    ensures (a + b + c + d)[1..] + e == b + (c + (d + e))
  {
  }

  lemma {:induction false} Head<T>(x: seq<T>, y: seq<T>)
    requires x != []
    ensures x + y == [x[0]] + (x[1..] + y)
  {
  }

  /** Walking the items of a tree lists exactly that tree. */
  lemma {:induction false} WalkTree(t: Tree, rest: seq<Item>, depth: int)
    requires depth >= 0
    ensures Walk(Items(t) + rest, depth) == Listing(t, depth + 1) + Walk(rest, depth)
    decreases t
  {
    Unroll(t, rest);
    WalkCons(BeginNode(t.name), PropItems(t.props) + Tail(t, rest), depth);
    WalkProps(t.props, Tail(t, rest), depth + 1);
    ContentsEnd(t.children, [EndNode] + rest);
    WalkForest(t.children, [EndNode] + rest, depth + 1);
    WalkCons(EndNode, rest, depth + 1);
    assert t.props + [] == t.props;
    assert Listing(t, depth + 1) + Walk(rest, depth)
      == [Entry(depth + 1, t.name, t.props)] + (ForestListing(t.children, depth + 2) + Walk(rest, depth));
  }

  lemma {:induction false} WalkForest(ts: seq<Tree>, rest: seq<Item>, depth: int)
    requires depth >= 0
    ensures Walk(Forest(ts) + rest, depth) == ForestListing(ts, depth + 1) + Walk(rest, depth)
    decreases ts
  {
    if ts == [] {
      assert Forest(ts) + rest == rest;
    } else {
      assert Forest(ts) + rest == Items(ts[0]) + (Forest(ts[1..]) + rest);
      WalkTree(ts[0], Forest(ts[1..]) + rest, depth);
      WalkForest(ts[1..], rest, depth);
    }
  }

  lemma {:induction false} WalkProps(props: Props, rest: seq<Item>, depth: int)
    ensures Walk(PropItems(props) + rest, depth) == Walk(rest, depth)
    ensures PropsOf(PropItems(props) + rest) == props + PropsOf(rest)
  {
    if props == [] {
      assert PropItems(props) + rest == rest;
    } else {
      var p := props[0];
      assert PropItems(props) + rest == [Property(p.0, p.1)] + (PropItems(props[1..]) + rest);
      WalkCons(Property(p.0, p.1), PropItems(props[1..]) + rest, depth);
      WalkProps(props[1..], rest, depth);
      Head(props, PropsOf(rest));
    }
  }

  /** After its properties a node holds nodes or ends, so its property walk stops there. */
  lemma {:induction false} ContentsEnd(ts: seq<Tree>, rest: seq<Item>)
    requires rest != [] && rest[0].EndNode?
    ensures PropsOf(Forest(ts) + rest) == []
  {
    if ts != [] {
      assert (Forest(ts) + rest)[0] == BeginNode(ts[0].name);
    } else {
      assert Forest(ts) + rest == rest;
    }
  }

  // ---- a listing determines its tree ----

  /** What may follow the listing of a node at `depth`: nothing, or a node no deeper. */
  predicate Follows(x: seq<Entry>, depth: int) {
    x == [] || x[0].depth <= depth
  }

  lemma {:induction false} ListingInjective(t: Tree, u: Tree, depth: int, x: seq<Entry>, y: seq<Entry>)
    requires Listing(t, depth) + x == Listing(u, depth) + y && Follows(x, depth) && Follows(y, depth)
    ensures t == u && x == y
    decreases t
  {
    var a, b := ForestListing(t.children, depth + 1), ForestListing(u.children, depth + 1);
    assert Listing(t, depth) + x == [Entry(depth, t.name, t.props)] + (a + x);
    assert Listing(u, depth) + y == [Entry(depth, u.name, u.props)] + (b + y);
    HeadAndTail(Entry(depth, t.name, t.props), a + x, Entry(depth, u.name, u.props), b + y);
    ForestInjective(t.children, u.children, depth + 1, x, y);
  }

  lemma {:induction false} HeadAndTail<T>(h: T, x: seq<T>, k: T, y: seq<T>)
    requires [h] + x == [k] + y
    ensures h == k && x == y
  {
    assert ([h] + x)[0] == ([k] + y)[0] && ([h] + x)[1..] == ([k] + y)[1..];
  }

  lemma {:induction false} ForestInjective(ts: seq<Tree>, us: seq<Tree>, depth: int, x: seq<Entry>, y: seq<Entry>)
    requires ForestListing(ts, depth) + x == ForestListing(us, depth) + y && Follows(x, depth - 1) && Follows(y, depth - 1)
    ensures ts == us && x == y
    decreases ts
  {
    ForestHead(ts, depth, x);
    ForestHead(us, depth, y);
    if ts == [] {
      assert us == [];
    } else {
      assert us != [];
      ForestHead(ts[1..], depth, x);
      ForestHead(us[1..], depth, y);
      var x', y' := ForestListing(ts[1..], depth) + x, ForestListing(us[1..], depth) + y;
      ForestCons(ts, depth, x);
      ForestCons(us, depth, y);
      ListingInjective(ts[0], us[0], depth, x', y');
      ForestInjective(ts[1..], us[1..], depth, x, y);
      SameSeq(ts, us);
    }
  }

  lemma {:induction false} SameSeq<T>(x: seq<T>, y: seq<T>)
    requires x != [] && y != [] && x[0] == y[0] && x[1..] == y[1..]
    ensures x == y
  {
    assert x == [x[0]] + x[1..] && y == [y[0]] + y[1..];
  }

  lemma {:induction false} ForestCons(ts: seq<Tree>, depth: int, x: seq<Entry>)
    requires ts != []
    ensures ForestListing(ts, depth) + x == Listing(ts[0], depth) + (ForestListing(ts[1..], depth) + x)
  {
  }

  lemma {:induction false} ForestHead(ts: seq<Tree>, depth: int, x: seq<Entry>)
    requires Follows(x, depth - 1)
    ensures var l := ForestListing(ts, depth) + x;
      Follows(l, depth) && (if ts == [] then l == x else l != [] && l[0].depth == depth)
  {
    var l := ForestListing(ts, depth) + x;
    if ts == [] {
      assert l == x;
    } else {
      assert Listing(ts[0], depth)[0].depth == depth;
      assert l[0] == Listing(ts[0], depth)[0];
    }
  }

  lemma {:induction false} WalkRoot(t: Tree, rest: seq<Item>)
    ensures PropsOf(Items(t)[1..] + rest) == t.props
    ensures [Entry(0, t.name, t.props)] + Walk(Items(t)[1..] + rest, 0) == Listing(t, 0)
  {
    Unroll(t, rest);
    WalkProps(t.props, Tail(t, rest), 0);
    ContentsEnd(t.children, [EndNode] + rest);
    WalkForest(t.children, [EndNode] + rest, 0);
    WalkCons(EndNode, rest, 0);
  }

  // ---- leaving a node ----

  function Plus(n: nat, m: Option<nat>): Option<nat> {
    match m
    case None => None
    case Some(k) => Some(n + k)
  }

  /** fdt_node_end_offset_: how many items fdt_next_node passes until it leaves the node. */
  function EndOf(r: seq<Item>, depth: int): (n: Option<nat>)
    ensures n.Some? ==> n.value <= |r|
  {
    if r == [] then None
    else match r[0]
      case BeginNode(_) => Plus(1, EndOf(r[1..], depth + 1))
      case EndNode => if depth <= 0 then Some(1) else Plus(1, EndOf(r[1..], depth - 1))
      case End => None
      case _ => Plus(1, EndOf(r[1..], depth))
  }

  /** The same from item j on, as the index of the item behind the end. */
  function EndAt(items: seq<Item>, j: nat, depth: int): (n: Option<nat>)
    requires j <= |items|
    ensures n.Some? ==> j < n.value <= |items|
    decreases |items| - j
  {
    if j == |items| then None
    else match items[j]
      case BeginNode(_) => EndAt(items, j + 1, depth + 1)
      case EndNode => if depth <= 0 then Some(j + 1) else EndAt(items, j + 1, depth - 1)
      case End => None
      case _ => EndAt(items, j + 1, depth)
  }

  lemma {:induction false} EndAtIsEndOf(items: seq<Item>, j: nat, depth: int)
    requires j <= |items|
    ensures EndAt(items, j, depth) == Plus(j, EndOf(items[j..], depth))
    decreases |items| - j
  {
    if j < |items| {
      Rest(items, j);
      EndAtIsEndOf(items, j + 1, if items[j].BeginNode? then depth + 1 else if items[j].EndNode? then depth - 1 else depth);
    }
  }

  /** That is fdt_next_node called until the depth falls below zero. */
  lemma {:induction false} EndIsNextNode(items: seq<Item>, j: nat, depth: int)
    requires j <= |items|
    ensures EndAt(items, j, depth) == match NextNode(items, j, depth, true)
      case Node(m, d) => EndAt(items, m + 1, d)
      case Left(m) => Some(m)
      case Failed(_) => None
    decreases |items| - j
  {
    if j < |items| && !items[j].End? && !items[j].BeginNode? && !(items[j].EndNode? && depth <= 0) {
      EndIsNextNode(items, j + 1, if items[j].EndNode? then depth - 1 else depth);
    }
  }

  lemma {:induction false} EndOfCons(it: Item, r: seq<Item>, depth: int)
    ensures EndOf([it] + r, depth) == match it
      case BeginNode(_) => Plus(1, EndOf(r, depth + 1))
      case EndNode => if depth <= 0 then Some(1) else Plus(1, EndOf(r, depth - 1))
      case End => None
      case _ => Plus(1, EndOf(r, depth))
  {
    assert ([it] + r)[1..] == r;
  }

  lemma {:induction false} EndOfTree(t: Tree, rest: seq<Item>, depth: int)
    requires depth >= 0
    ensures EndOf(Items(t) + rest, depth) == Plus(|Items(t)|, EndOf(rest, depth))
    decreases t
  {
    Unroll(t, rest);
    EndOfCons(BeginNode(t.name), PropItems(t.props) + Tail(t, rest), depth);
    EndOfProps(t.props, Tail(t, rest), depth + 1);
    EndOfForest(t.children, [EndNode] + rest, depth + 1);
    EndOfCons(EndNode, rest, depth + 1);
  }

  lemma {:induction false} EndOfForest(ts: seq<Tree>, rest: seq<Item>, depth: int)
    requires depth >= 0
    ensures EndOf(Forest(ts) + rest, depth) == Plus(|Forest(ts)|, EndOf(rest, depth))
    decreases ts
  {
    if ts == [] {
      assert Forest(ts) + rest == rest;
    } else {
      assert Forest(ts) + rest == Items(ts[0]) + (Forest(ts[1..]) + rest);
      EndOfTree(ts[0], Forest(ts[1..]) + rest, depth);
      EndOfForest(ts[1..], rest, depth);
    }
  }

  lemma {:induction false} EndOfProps(props: Props, rest: seq<Item>, depth: int)
    ensures EndOf(PropItems(props) + rest, depth) == Plus(|PropItems(props)|, EndOf(rest, depth))
  {
    if props == [] {
      assert PropItems(props) + rest == rest;
    } else {
      var p := props[0];
      assert PropItems(props) + rest == [Property(p.0, p.1)] + (PropItems(props[1..]) + rest);
      EndOfCons(Property(p.0, p.1), PropItems(props[1..]) + rest, depth);
      EndOfProps(props[1..], rest, depth);
    }
  }

  /** From inside a node, the walk leaves it exactly behind its end. */
  lemma {:induction false} NodeEnd(t: Tree, rest: seq<Item>)
    ensures EndOf(Items(t)[1..] + rest, 0) == Some(|Items(t)| - 1)
  {
    Unroll(t, rest);
    EndOfProps(t.props, Tail(t, rest), 0);
    EndOfForest(t.children, [EndNode] + rest, 0);
    EndOfCons(EndNode, rest, 0);
  }
}
