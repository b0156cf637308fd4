/** The references inside an overlay: the words that its __local_fixups__ node lists are shifted
    together with the phandles. */
module FdtFixups {
  import opened Bits
  import opened Common
  import opened FdtFormat
  import opened FdtTree
  import opened FdtBlob
  import opened FdtReader
  import opened FdtEdit
  import opened FdtTreeEdit
  import opened FdtNodes
  import opened FdtOverlay

  // ---- the fixups as a function of the tree ----

  /** How far the fixups got: an error, a write that goes astray, or neither, and the tree as it
      is then. */
  datatype Fixed = Fixed(err: int, astray: bool, tree: Tree)

  predicate Fine(r: Fixed) {
    r.err == 0 && !r.astray
  }

  /** The word at a place of some data, shifted; where there is no word the value is of no
      account. */
  function ShiftedWord(data: seq<Byte>, at: nat, delta: nat): (s: seq<Byte>)
    ensures |s| == 4
  {
    WordBytes((if at + 4 <= |data| then Word(data, at) + delta else delta) % U32)
  }

  /** One word of one property. */
  function FixWord(t: Tree, path: seq<nat>, name: seq<Byte>, at: nat, delta: nat): (r: Fixed)
    requires PathOk(t, path) && Lookup(NodeOf(t, path).props, name).Some?
    ensures Alike(t, r.tree)
  {
    AlikeSelf(t);
    var val := ShiftedWord(Lookup(NodeOf(t, path).props, name).value, at, delta);
    match WriteInto(t, path, name, at, val)
    case Done(u) => WriteAlike(t, path, name, at, val); Fixed(0, false, u)
    case Refused(e) => Fixed(if e == NOSPACE then BADOVERLAY else e, false, t)
    case Astray => Fixed(0, true, t)
  }

  /** The data of the j-th property of a node. */
  function DataOf(t: Tree, path: seq<nat>, j: nat): seq<Byte>
    requires PathOk(t, path) && j < |NodeOf(t, path).props|
  {
    NodeOf(t, path).props[j].1
  }

  /** The words from the i-th on that the j-th property of the fixup node at `fix` lists for the
      property of that name of the node at `path`. */
  function FixWords(t: Tree, path: seq<nat>, name: seq<Byte>, fix: seq<nat>, j: nat, i: nat, n: nat, delta: nat): (r: Fixed)
    requires PathOk(t, path) && PathOk(t, fix) && j < |NodeOf(t, fix).props| && i <= n && 4 * n <= |DataOf(t, fix, j)|
    requires Lookup(NodeOf(t, path).props, name).Some?
    ensures Alike(t, r.tree)
    decreases n - i
  {
    AlikeSelf(t);
    if i == n then Fixed(0, false, t)
    else
      var r := FixWord(t, path, name, Word(DataOf(t, fix, j), 4 * i), delta);
      if !Fine(r) then r
      else
        AlikeAt(t, r.tree, path);
        AlikeAt(t, r.tree, fix);
        AlikeLookup(NodeOf(t, path).props, NodeOf(r.tree, path).props, name);
        var s := FixWords(r.tree, path, name, fix, j, i + 1, n, delta);
        AlikeTrans(t, r.tree, s.tree);
        s
  }

  lemma {:induction false} AlikeLookup(p: Props, q: Props, name: seq<Byte>)
    requires AlikeProps(p, q)
    ensures Lookup(p, name).Some? <==> Lookup(q, name).Some?
    ensures Lookup(p, name).Some? ==> |Lookup(p, name).value| == |Lookup(q, name).value|
  {
    if p != [] && p[0].0 != name {
      AlikeLookup(p[1..], q[1..], name);
    }
  }

  /** The properties of the fixup node from the j-th on. */
  function FixProps(t: Tree, path: seq<nat>, fix: seq<nat>, j: nat, delta: nat): (r: Fixed)
    requires PathOk(t, path) && PathOk(t, fix) && j <= |NodeOf(t, fix).props|
    ensures Alike(t, r.tree)
    decreases |NodeOf(t, fix).props| - j
  {
    AlikeSelf(t);
    if j == |NodeOf(t, fix).props| then Fixed(0, false, t)
    else
      var (name, data) := NodeOf(t, fix).props[j];
      if |data| % 4 != 0 then Fixed(BADOVERLAY, false, t)
      else if Lookup(NodeOf(t, path).props, name) == None then Fixed(BADOVERLAY, false, t)
      else
        var r := FixWords(t, path, name, fix, j, 0, |data| / 4, delta);
        if !Fine(r) then r
        else
          AlikeAt(t, r.tree, path);
          AlikeAt(t, r.tree, fix);
          var s := FixProps(r.tree, path, fix, j + 1, delta);
          AlikeTrans(t, r.tree, s.tree);
          s
  }

  /** overlay_update_local_node_references, for a fixup node that is alike `s`. */
  function FixNode(t: Tree, path: seq<nat>, fix: seq<nat>, delta: nat, s: Tree): (r: Fixed)
    requires PathOk(t, path) && PathOk(t, fix) && Alike(s, NodeOf(t, fix))
    ensures Alike(t, r.tree)
    decreases s, 3, 0
  {
    var r := FixProps(t, path, fix, 0, delta);
    if !Fine(r) then r
    else
      AlikeAt(t, r.tree, path);
      AlikeAt(t, r.tree, fix);
      AlikeTrans(s, NodeOf(t, fix), NodeOf(r.tree, fix));
      var q := FixKids(r.tree, path, fix, 0, delta, s);
      AlikeTrans(t, r.tree, q.tree);
      q
  }

  /** Its children from the c-th on. */
  function FixKids(t: Tree, path: seq<nat>, fix: seq<nat>, c: nat, delta: nat, s: Tree): (r: Fixed)
    requires PathOk(t, path) && PathOk(t, fix) && Alike(s, NodeOf(t, fix)) && c <= |s.children|
    ensures Alike(t, r.tree)
    decreases s, 2, |s.children| - c
  {
    AlikeSelf(t);
    if c == |s.children| then Fixed(0, false, t)
    else
      var r := FixKid(t, path, fix, c, delta, s);
      if !Fine(r) then r
      else
        AlikeAt(t, r.tree, path);
        AlikeAt(t, r.tree, fix);
        AlikeTrans(s, NodeOf(t, fix), NodeOf(r.tree, fix));
        var q := FixKids(r.tree, path, fix, c + 1, delta, s);
        AlikeTrans(t, r.tree, q.tree);
        q
  }

  /** One child, with the child of the node that its name matches. */
  function FixKid(t: Tree, path: seq<nat>, fix: seq<nat>, c: nat, delta: nat, s: Tree): (r: Fixed)
    requires PathOk(t, path) && PathOk(t, fix) && Alike(s, NodeOf(t, fix)) && c < |s.children|
    ensures Alike(t, r.tree)
    decreases s, 1, 0
  {
    AlikeSelf(t);
    var x := FirstMatch(NodeOf(t, path).children, s.children[c].name);
    if x == |NodeOf(t, path).children| then Fixed(BADOVERLAY, false, t)
    else
      ChildPath(t, path, x);
      ChildPath(t, fix, c);
      FixNode(t, path + [x], fix + [c], delta, s.children[c])
  }

  // ---- the same on the blob ----

  /** The blob as the fixups leave it. */
  ghost predicate Came(f: Fdt, r: Fixed, err: int, astray: bool)
    reads f, f.buf
  {
    err == r.err && astray == r.astray && Holds(f, r.tree)
  }

  method FixWordAt(f: Fdt, node: nat, name: seq<Byte>, at: nat, delta: nat, ghost t: Tree, ghost path: seq<nat>) returns (err: int, astray: bool)
    requires PathOk(t, path) && Holds(f, t) && node == At(t, path) && at < U32
    requires Lookup(NodeOf(t, path).props, name).Some?
    modifies f.buf
    ensures Came(f, FixWord(t, path, name, at, delta), err, astray)
  {
    hide Standing, Items, At, Lookup, ShiftedWord, Alike;
    var data := NodeProp(f, node, name, t, path);
    var val := ShiftedWord(data.value, at, delta);
    err, astray := SetPartial(f, node, name, at, val, t, path);
    if err == NOSPACE {
      err := BADOVERLAY;
    }
  }

  /** The inner loop of overlay_update_local_node_references. */
  method FixWordsAt(f: Fdt, node: nat, name: seq<Byte>, prop: nat, n: nat, delta: nat,
                    ghost t: Tree, ghost path: seq<nat>, ghost fix: seq<nat>, ghost j: nat) returns (err: int, astray: bool)
    requires PathOk(t, path) && PathOk(t, fix) && Holds(f, t) && node == At(t, path)
    requires j < |NodeOf(t, fix).props| && 4 * n <= |DataOf(t, fix, j)| && prop == PropAt(t, fix, j)
    requires Lookup(NodeOf(t, path).props, name).Some?
    modifies f.buf
    ensures Came(f, FixWords(t, path, name, fix, j, 0, n, delta), err, astray)
  {
    hide Standing, Items, At, PropAt, FixWord;
    ghost var u := t;
    var i := 0;
    AlikeSelf(t);
    while i < n
      invariant i <= n && PathOk(u, path) && PathOk(u, fix) && Holds(f, u) && Alike(t, u) && node == At(u, path)
      invariant j < |NodeOf(u, fix).props| && 4 * n <= |DataOf(u, fix, j)| && prop == PropAt(u, fix, j)
      invariant Lookup(NodeOf(u, path).props, name).Some?
      invariant FixWords(t, path, name, fix, j, 0, n, delta) == FixWords(u, path, name, fix, j, i, n, delta)
    {
      var p := PropBy(f, prop, u, fix, j);
      var poffset := Word(p.1, 4 * i);
      ghost var r := FixWord(u, path, name, poffset, delta);
      err, astray := FixWordAt(f, node, name, poffset, delta, u, path);
      if err != 0 || astray {
        return;
      }
      WordDone(t, u, r.tree, path, name, fix, j);
      u := r.tree;
      i := i + 1;
    }
    err, astray := 0, false;
  }

  /** What a word fixed leaves as it is. */
  lemma {:induction false} WordDone(t: Tree, u: Tree, v: Tree, path: seq<nat>, name: seq<Byte>, fix: seq<nat>, j: nat)
    requires Alike(t, u) && Alike(u, v) && PathOk(u, path) && PathOk(u, fix) && j < |NodeOf(u, fix).props|
    requires Lookup(NodeOf(u, path).props, name).Some?
    ensures Alike(t, v) && PathOk(v, path) && PathOk(v, fix) && At(v, path) == At(u, path) && At(v, fix) == At(u, fix)
    ensures j < |NodeOf(v, fix).props| && PropAt(v, fix, j) == PropAt(u, fix, j) && |DataOf(v, fix, j)| == |DataOf(u, fix, j)|
    ensures Lookup(NodeOf(v, path).props, name).Some?
  {
    hide At, PropAt;
    AlikeTrans(t, u, v);
    AlikeAt(u, v, path);
    AlikeAt(u, v, fix);
    AlikePropAt(u, v, fix, j);
    AlikeLookup(NodeOf(u, path).props, NodeOf(v, path).props, name);
  }

  /** The loop over the properties of the fixup node. */
  method FixPropsAt(f: Fdt, node: nat, fixup: nat, delta: nat, ghost t: Tree, ghost path: seq<nat>, ghost fix: seq<nat>) returns (err: int, astray: bool)
    requires PathOk(t, path) && PathOk(t, fix) && Holds(f, t) && node == At(t, path) && fixup == At(t, fix)
    modifies f.buf
    ensures Came(f, FixProps(t, path, fix, 0, delta), err, astray)
  {
    hide Standing, Items, At, PropAt, FixWords;
    ghost var u, j: nat := t, 0;
    var prop := FirstProp(f, fixup, t, fix);
    while prop >= 0
      invariant PathOk(u, path) && PathOk(u, fix) && Holds(f, u) && node == At(u, path)
      invariant j <= |NodeOf(u, fix).props| && IsProp(u, fix, j, prop)
      invariant FixProps(t, path, fix, 0, delta) == FixProps(u, path, fix, j, delta)
      decreases |NodeOf(u, fix).props| - j, if prop >= 0 then 1 else 0
    {
      var p := PropBy(f, prop, u, fix, j);
      if |p.1| % 4 != 0 {
        return BADOVERLAY, false;
      }
      var treeVal := NodeProp(f, node, p.0, u, path);
      if treeVal == None {
        return BADOVERLAY, false;
      }
      ghost var r := FixWords(u, path, p.0, fix, j, 0, |p.1| / 4, delta);
      err, astray := FixWordsAt(f, node, p.0, prop, |p.1| / 4, delta, u, path, fix, j);
      if err != 0 || astray {
        return;
      }
      AlikeAt(u, r.tree, path);
      AlikeAt(u, r.tree, fix);
      AlikePropAt(u, r.tree, fix, j);
      u := r.tree;
      prop := NextPropOf(f, prop, u, fix, j);
      j := j + 1;
    }
    err, astray := 0, false;
  }

  /** overlay_update_local_node_references */
  method UpdateNodeReferences(f: Fdt, node: nat, fixup: nat, delta: nat, ghost t: Tree, ghost path: seq<nat>, ghost fix: seq<nat>, ghost s: Tree)
      returns (err: int, astray: bool)
    requires PathOk(t, path) && PathOk(t, fix) && Holds(f, t) && node == At(t, path) && fixup == At(t, fix)
    requires Alike(s, NodeOf(t, fix))
    modifies f.buf
    ensures Came(f, FixNode(t, path, fix, delta, s), err, astray)
    decreases s, 3, 0
  {
    hide Standing, Items, At, FixProps, FixKids;
    ghost var r := FixProps(t, path, fix, 0, delta);
    err, astray := FixPropsAt(f, node, fixup, delta, t, path, fix);
    if err != 0 || astray {
      return;
    }
    AlikeAt(t, r.tree, path);
    AlikeAt(t, r.tree, fix);
    AlikeTrans(s, NodeOf(t, fix), NodeOf(r.tree, fix));
    err, astray := FixKidsAt(f, node, fixup, delta, r.tree, path, fix, s);
  }

  /** The loop over the children of the fixup node. */
  method FixKidsAt(f: Fdt, node: nat, fixup: nat, delta: nat, ghost t: Tree, ghost path: seq<nat>, ghost fix: seq<nat>, ghost s: Tree)
      returns (err: int, astray: bool)
    requires PathOk(t, path) && PathOk(t, fix) && Holds(f, t) && node == At(t, path) && fixup == At(t, fix)
    requires Alike(s, NodeOf(t, fix))
    modifies f.buf
    ensures Came(f, FixKids(t, path, fix, 0, delta, s), err, astray)
    decreases s, 2, 0
  {
    hide Standing, Items, At, FixKid;
    ghost var u, c: nat := t, 0;
    var child := FirstChild(f, fixup, t, fix);
    while child >= 0
      invariant PathOk(u, path) && PathOk(u, fix) && Holds(f, u) && node == At(u, path) && Alike(s, NodeOf(u, fix))
      invariant c <= |s.children| && IsChild(u, fix, c, child)
      invariant FixKids(t, path, fix, 0, delta, s) == FixKids(u, path, fix, c, delta, s)
      decreases |s.children| - c, if child >= 0 then 1 else 0
    {
      NoChild(u, fix, c);
      ghost var r := FixKid(u, path, fix, c, delta, s);
      err, astray := FixKidAt(f, node, child, delta, u, path, fix, c, s);
      if err != 0 || astray {
        return;
      }
      KidDone(u, r.tree, path, fix, c, s);
      u := r.tree;
      child := NextChild(f, child, u, fix, c);
      c := c + 1;
    }
    NoChild(u, fix, c);
    err, astray := 0, false;
  }

  lemma {:induction false} KidDone(u: Tree, v: Tree, path: seq<nat>, fix: seq<nat>, c: nat, s: Tree)
    requires Alike(u, v) && PathOk(u, path) && PathOk(u, fix) && PathOk(u, fix + [c]) && Alike(s, NodeOf(u, fix))
    ensures PathOk(v, path) && PathOk(v, fix) && PathOk(v, fix + [c]) && Alike(s, NodeOf(v, fix))
    ensures At(v, path) == At(u, path) && At(v, fix + [c]) == At(u, fix + [c])
  {
    hide At;
    AlikeAt(u, v, path);
    AlikeAt(u, v, fix);
    AlikeAt(u, v, fix + [c]);
    AlikeTrans(s, NodeOf(u, fix), NodeOf(v, fix));
  }

  method FixKidAt(f: Fdt, node: nat, child: nat, delta: nat, ghost t: Tree, ghost path: seq<nat>, ghost fix: seq<nat>, ghost c: nat, ghost s: Tree)
      returns (err: int, astray: bool)
    requires PathOk(t, path) && PathOk(t, fix) && Holds(f, t) && node == At(t, path)
    requires Alike(s, NodeOf(t, fix)) && c < |s.children| && PathOk(t, fix + [c]) && child == At(t, fix + [c])
    modifies f.buf
    ensures Came(f, FixKid(t, path, fix, c, delta, s), err, astray)
    decreases s, 1, 0
  {
    hide Standing, Items, At, FixNode;
    ChildPath(t, fix, c);
    var name := NodeName(f, child, t, fix + [c]);
    ghost var x := FirstMatch(NodeOf(t, path).children, name);
    NoChild(t, path, x);
    var treeChild := ChildNamed(f, node, name, t, path);
    if treeChild == NOTFOUND {
      return BADOVERLAY, false;
    }
    ChildPath(t, path, x);
    err, astray := UpdateNodeReferences(f, treeChild, child, delta, t, path + [x], fix + [c], s.children[c]);
  }

  // ---- the words that are listed ----

  datatype Site = Site(path: seq<nat>, key: seq<Byte>, at: nat)

  /** The words from the i-th on of the data of a fixup property. */
  function WordSites(path: seq<nat>, key: seq<Byte>, data: seq<Byte>, i: nat, n: nat): seq<Site>
    requires i <= n && 4 * n <= |data|
    decreases n - i
  {
    if i == n then [] else [Site(path, key, Word(data, 4 * i))] + WordSites(path, key, data, i + 1, n)
  }

  function PropSites(path: seq<nat>, props: Props, j: nat): seq<Site>
    requires j <= |props|
    decreases |props| - j
  {
    if j == |props| then []
    else WordSites(path, props[j].0, props[j].1, 0, |props[j].1| / 4) + PropSites(path, props, j + 1)
  }

  /** All words that the fixup node `s` lists for the node `n` at a path. */
  function SitesOf(n: Tree, path: seq<nat>, s: Tree): seq<Site>
    decreases s, 3, 0
  {
    PropSites(path, s.props, 0) + KidSites(n, path, s, 0)
  }

  function KidSites(n: Tree, path: seq<nat>, s: Tree, c: nat): seq<Site>
    requires c <= |s.children|
    decreases s, 2, |s.children| - c
  {
    if c == |s.children| then [] else KidSite(n, path, s, c) + KidSites(n, path, s, c + 1)
  }

  function KidSite(n: Tree, path: seq<nat>, s: Tree, c: nat): seq<Site>
    requires c < |s.children|
    decreases s, 1, 0
  {
    var x := FirstMatch(n.children, s.children[c].name);
    if x == |n.children| then [] else SitesOf(n.children[x], path + [x], s.children[c])
  }

  lemma {:induction false} MatchAlike(ts: seq<Tree>, us: seq<Tree>, name: seq<Byte>)
    requires AlikeAll(ts, us)
    ensures FirstMatch(ts, name) == FirstMatch(us, name)
  {
    if ts != [] && !NameMatches(ts[0].name, name) {
      MatchAlike(ts[1..], us[1..], name);
    }
  }

  /** They depend on the names of the nodes only. */
  lemma {:induction false} SitesAlike(n: Tree, m: Tree, path: seq<nat>, s: Tree)
    requires Alike(n, m)
    ensures SitesOf(n, path, s) == SitesOf(m, path, s)
    decreases s, 3, 0
  {
    KidsAlike(n, m, path, s, 0);
  }

  lemma {:induction false} KidsAlike(n: Tree, m: Tree, path: seq<nat>, s: Tree, c: nat)
    requires Alike(n, m) && c <= |s.children|
    ensures KidSites(n, path, s, c) == KidSites(m, path, s, c)
    decreases s, 2, |s.children| - c
  {
    if c < |s.children| {
      var x := FirstMatch(n.children, s.children[c].name);
      MatchAlike(n.children, m.children, s.children[c].name);
      if x < |n.children| {
        SitesAlike(n.children[x], m.children[x], path + [x], s.children[c]);
      }
      KidsAlike(n, m, path, s, c + 1);
    }
  }

  // ---- what fixing them does to the data ----

  function DataAt(t: Tree, path: seq<nat>, key: seq<Byte>): Option<seq<Byte>> {
    if PathOk(t, path) then Lookup(NodeOf(t, path).props, key) else None
  }

  /** One word of some data shifted, if the site is in it. */
  function Patch(data: seq<Byte>, path: seq<nat>, key: seq<Byte>, x: Site, delta: nat): (r: seq<Byte>)
    ensures |r| == |data|
  {
    if x.path == path && x.key == key && x.at + 4 <= |data| then Overwritten(data, x.at, ShiftedWord(data, x.at, delta)) else data
  }

  /** One site after the other. */
  function Patched(data: seq<Byte>, path: seq<nat>, key: seq<Byte>, xs: seq<Site>, delta: nat): (r: seq<Byte>)
    ensures |r| == |data|
    decreases |xs|
  {
    if xs == [] then data else Patched(Patch(data, path, key, xs[0], delta), path, key, xs[1..], delta)
  }

  function PatchedIn(t: Tree, path: seq<nat>, key: seq<Byte>, xs: seq<Site>, delta: nat): Option<seq<Byte>> {
    match DataAt(t, path, key)
    case None => None
    case Some(data) => Some(Patched(data, path, key, xs, delta))
  }

  /** The site is a word of some property of the tree. */
  predicate Within(t: Tree, x: Site) {
    DataAt(t, x.path, x.key).Some? && x.at + 4 <= |DataAt(t, x.path, x.key).value|
  }

  /** All sites are words of the tree, and they have been fixed one after the other. */
  ghost predicate Effects(t: Tree, u: Tree, xs: seq<Site>, delta: nat) {
    && (forall k | 0 <= k < |xs| :: Within(t, xs[k]))
    && forall path, key :: DataAt(u, path, key) == PatchedIn(t, path, key, xs, delta)
  }

  lemma {:induction false} PatchedJoin(data: seq<Byte>, path: seq<nat>, key: seq<Byte>, xs: seq<Site>, ys: seq<Site>, delta: nat)
    ensures Patched(data, path, key, xs + ys, delta) == Patched(Patched(data, path, key, xs, delta), path, key, ys, delta)
    decreases |xs|
  {
    hide Patch;
    if xs == [] {
      assert xs + ys == ys;
    } else {
      assert (xs + ys)[1..] == xs[1..] + ys;
      PatchedJoin(Patch(data, path, key, xs[0], delta), path, key, xs[1..], ys, delta);
    }
  }

  lemma {:induction false} EffectsNone(t: Tree, delta: nat)
    ensures Effects(t, t, [], delta)
  {
  }

  lemma {:induction false} EffectsJoin(t: Tree, u: Tree, v: Tree, xs: seq<Site>, ys: seq<Site>, delta: nat)
    requires Effects(t, u, xs, delta) && Effects(u, v, ys, delta)
    ensures Effects(t, v, xs + ys, delta)
  {
    hide DataAt, Patched;
    forall k | 0 <= k < |ys| ensures Within(t, ys[k]) {
      assert Within(u, ys[k]);
    }
    forall path, key ensures DataAt(v, path, key) == PatchedIn(t, path, key, xs + ys, delta) {
      if DataAt(t, path, key).Some? {
        PatchedJoin(DataAt(t, path, key).value, path, key, xs, ys, delta);
      }
    }
  }

  lemma {:induction false} EffectsOne(t: Tree, path: seq<nat>, name: seq<Byte>, at: nat, delta: nat)
    requires PathOk(t, path) && Lookup(NodeOf(t, path).props, name).Some? && Fine(FixWord(t, path, name, at, delta))
    ensures Effects(t, FixWord(t, path, name, at, delta).tree, [Site(path, name, at)], delta)
  {
    hide Lookup, ShiftedWord, Word;
    var u, x, data := FixWord(t, path, name, at, delta).tree, Site(path, name, at), Lookup(NodeOf(t, path).props, name).value;
    var val := Overwritten(data, at, ShiftedWord(data, at, delta));
    assert u == WithProp(t, path, name, val);
    forall other, key ensures DataAt(u, other, key) == PatchedIn(t, other, key, [x], delta) {
      PropReads(t, path, name, val, other, key);
      if DataAt(t, other, key).Some? {
        PatchedOne(DataAt(t, other, key).value, other, key, x, delta);
      }
    }
  }

  lemma {:induction false} PatchedOne(data: seq<Byte>, path: seq<nat>, key: seq<Byte>, x: Site, delta: nat)
    ensures Patched(data, path, key, [x], delta) == Patch(data, path, key, x, delta)
  {
    assert [x][1..] == [];
  }

  // ---- fixups that leave the fixups alone ----

  /** No site lies in the node at `top` or below it. */
  ghost predicate Outside(xs: seq<Site>, top: seq<nat>) {
    forall k | 0 <= k < |xs| :: !Through(xs[k].path, top)
  }

  lemma {:induction false} OutsideParts(xs: seq<Site>, ys: seq<Site>, top: seq<nat>)
    requires Outside(xs + ys, top)
    ensures Outside(xs, top) && Outside(ys, top)
  {
    forall k | 0 <= k < |xs| ensures !Through(xs[k].path, top) {
      assert (xs + ys)[k] == xs[k];
    }
    forall k | 0 <= k < |ys| ensures !Through(ys[k].path, top) {
      assert (xs + ys)[|xs| + k] == ys[k];
    }
  }

  /** The node at a path is the same. */
  ghost predicate Keeps(t: Tree, u: Tree, path: seq<nat>) {
    PathOk(t, path) && PathOk(u, path) && NodeOf(u, path) == NodeOf(t, path)
  }

  lemma {:induction false} PropElsewhere(t: Tree, path: seq<nat>, name: seq<Byte>, val: seq<Byte>, top: seq<nat>)
    requires PathOk(t, path) && PathOk(t, top) && !Through(path, top)
    ensures Keeps(t, WithProp(t, path, name, val), top)
    decreases path
  {
    if path != [] {
      if top[0] == path[0] {
        ThroughTail(path, top);
        PropElsewhere(t.children[path[0]], path[1..], name, val, top[1..]);
      }
    }
  }

  /** And so is every node below it. */
  lemma {:induction false} BelowKept(t: Tree, u: Tree, top: seq<nat>, path: seq<nat>)
    requires Keeps(t, u, top) && Through(path, top) && PathOk(t, path)
    ensures Keeps(t, u, path)
    decreases top
  {
    if top != [] {
      ThroughTail(path, top);
      BelowKept(t.children[top[0]], u.children[top[0]], top[1..], path[1..]);
    }
  }

  /** The sites have been fixed and the node at `top` left alone. */
  ghost predicate Good(t: Tree, u: Tree, xs: seq<Site>, delta: nat, top: seq<nat>) {
    Effects(t, u, xs, delta) && Keeps(t, u, top)
  }

  lemma {:induction false} GoodNone(t: Tree, delta: nat, top: seq<nat>)
    requires PathOk(t, top)
    ensures Good(t, t, [], delta, top)
  {
    EffectsNone(t, delta);
  }

  lemma {:induction false} GoodJoin(t: Tree, u: Tree, v: Tree, xs: seq<Site>, ys: seq<Site>, delta: nat, top: seq<nat>)
    requires Good(t, u, xs, delta, top) && Good(u, v, ys, delta, top)
    ensures Good(t, v, xs + ys, delta, top)
  {
    hide Effects;
    EffectsJoin(t, u, v, xs, ys, delta);
  }

  lemma {:induction false} GoodOne(t: Tree, path: seq<nat>, name: seq<Byte>, at: nat, delta: nat, top: seq<nat>)
    requires PathOk(t, path) && Lookup(NodeOf(t, path).props, name).Some? && Fine(FixWord(t, path, name, at, delta))
    requires PathOk(t, top) && !Through(path, top)
    ensures Good(t, FixWord(t, path, name, at, delta).tree, [Site(path, name, at)], delta, top)
  {
    hide Effects, ShiftedWord, Lookup;
    var data := Lookup(NodeOf(t, path).props, name).value;
    EffectsOne(t, path, name, at, delta);
    PropElsewhere(t, path, name, Overwritten(data, at, ShiftedWord(data, at, delta)), top);
  }

  lemma {:induction false} WordsGood(t: Tree, path: seq<nat>, name: seq<Byte>, fix: seq<nat>, j: nat, i: nat, n: nat, delta: nat, top: seq<nat>)
    requires PathOk(t, path) && PathOk(t, fix) && j < |NodeOf(t, fix).props| && i <= n && 4 * n <= |DataOf(t, fix, j)|
    requires Lookup(NodeOf(t, path).props, name).Some? && Fine(FixWords(t, path, name, fix, j, i, n, delta))
    requires PathOk(t, top) && Through(fix, top) && Outside(WordSites(path, name, DataOf(t, fix, j), i, n), top)
    ensures Good(t, FixWords(t, path, name, fix, j, i, n, delta).tree, WordSites(path, name, DataOf(t, fix, j), i, n), delta, top)
    decreases n - i
  {
    hide Good, FixWord, Word, Lookup;
    if i == n {
      GoodNone(t, delta, top);
    } else {
      var data := DataOf(t, fix, j);
      var at, rest := Word(data, 4 * i), WordSites(path, name, data, i + 1, n);
      var u := FixWord(t, path, name, at, delta).tree;
      OutsideParts([Site(path, name, at)], rest, top);
      assert Outside([Site(path, name, at)], top) && !Through([Site(path, name, at)][0].path, top);
      GoodOne(t, path, name, at, delta, top);
      GoodKeeps(t, u, [Site(path, name, at)], delta, top);
      BelowKept(t, u, top, fix);
      AlikeAt(t, u, path);
      AlikeLookup(NodeOf(t, path).props, NodeOf(u, path).props, name);
      WordsGood(u, path, name, fix, j, i + 1, n, delta, top);
      GoodJoin(t, u, FixWords(u, path, name, fix, j, i + 1, n, delta).tree, [Site(path, name, at)], rest, delta, top);
    }
  }

  lemma {:induction false} GoodKeeps(t: Tree, u: Tree, xs: seq<Site>, delta: nat, top: seq<nat>)
    requires Good(t, u, xs, delta, top)
    ensures Keeps(t, u, top)
  {
  }

  lemma {:induction false} PropsGood(t: Tree, path: seq<nat>, fix: seq<nat>, j: nat, delta: nat, top: seq<nat>, s: Tree)
    requires PathOk(t, path) && PathOk(t, fix) && s == NodeOf(t, fix) && j <= |s.props| && Fine(FixProps(t, path, fix, j, delta))
    requires PathOk(t, top) && Through(fix, top) && Outside(PropSites(path, s.props, j), top)
    ensures Good(t, FixProps(t, path, fix, j, delta).tree, PropSites(path, s.props, j), delta, top)
    decreases |s.props| - j
  {
    hide Good, FixWords, WordSites, Lookup;
    if j == |s.props| {
      GoodNone(t, delta, top);
    } else {
      var (name, data) := s.props[j];
      var xs, ys := WordSites(path, name, data, 0, |data| / 4), PropSites(path, s.props, j + 1);
      var u := FixWords(t, path, name, fix, j, 0, |data| / 4, delta).tree;
      OutsideParts(xs, ys, top);
      WordsGood(t, path, name, fix, j, 0, |data| / 4, delta, top);
      GoodKeeps(t, u, xs, delta, top);
      BelowKept(t, u, top, fix);
      AlikeAt(t, u, path);
      PropsGood(u, path, fix, j + 1, delta, top, s);
      GoodJoin(t, u, FixProps(u, path, fix, j + 1, delta).tree, xs, ys, delta, top);
    }
  }

  /** Fixups that succeed fix exactly the listed words, if none of these lies in the fixups
      themselves. */
  lemma {:induction false} NodeGood(t: Tree, path: seq<nat>, fix: seq<nat>, delta: nat, top: seq<nat>, s: Tree)
    requires PathOk(t, path) && PathOk(t, fix) && s == NodeOf(t, fix) && Alike(s, s) && Fine(FixNode(t, path, fix, delta, s))
    requires PathOk(t, top) && Through(fix, top) && Outside(SitesOf(NodeOf(t, path), path, s), top)
    ensures Good(t, FixNode(t, path, fix, delta, s).tree, SitesOf(NodeOf(t, path), path, s), delta, top)
    decreases s, 3, 0
  {
    hide Good, FixProps, PropSites, FixKids, KidSites;
    var n := NodeOf(t, path);
    var xs, ys := PropSites(path, s.props, 0), KidSites(n, path, s, 0);
    var u := FixProps(t, path, fix, 0, delta).tree;
    OutsideParts(xs, ys, top);
    PropsGood(t, path, fix, 0, delta, top, s);
    GoodKeeps(t, u, xs, delta, top);
    BelowKept(t, u, top, fix);
    AlikeAt(t, u, path);
    KidsAlike(n, NodeOf(u, path), path, s, 0);
    KidsGood(u, path, fix, 0, delta, top, s);
    GoodJoin(t, u, FixKids(u, path, fix, 0, delta, s).tree, xs, ys, delta, top);
  }

  lemma {:induction false} KidsGood(t: Tree, path: seq<nat>, fix: seq<nat>, c: nat, delta: nat, top: seq<nat>, s: Tree)
    requires PathOk(t, path) && PathOk(t, fix) && s == NodeOf(t, fix) && Alike(s, s) && c <= |s.children|
    requires Fine(FixKids(t, path, fix, c, delta, s))
    requires PathOk(t, top) && Through(fix, top) && Outside(KidSites(NodeOf(t, path), path, s, c), top)
    ensures Good(t, FixKids(t, path, fix, c, delta, s).tree, KidSites(NodeOf(t, path), path, s, c), delta, top)
    decreases s, 2, |s.children| - c
  {
    hide Good, FixKid, KidSite;
    var n := NodeOf(t, path);
    if c == |s.children| {
      GoodNone(t, delta, top);
    } else {
      var xs, ys := KidSite(n, path, s, c), KidSites(n, path, s, c + 1);
      var u := FixKid(t, path, fix, c, delta, s).tree;
      OutsideParts(xs, ys, top);
      KidGood(t, path, fix, c, delta, top, s);
      GoodKeeps(t, u, xs, delta, top);
      BelowKept(t, u, top, fix);
      AlikeAt(t, u, path);
      KidsAlike(n, NodeOf(u, path), path, s, c + 1);
      KidsGood(u, path, fix, c + 1, delta, top, s);
      GoodJoin(t, u, FixKids(u, path, fix, c + 1, delta, s).tree, xs, ys, delta, top);
    }
  }

  lemma {:induction false} KidGood(t: Tree, path: seq<nat>, fix: seq<nat>, c: nat, delta: nat, top: seq<nat>, s: Tree)
    requires PathOk(t, path) && PathOk(t, fix) && s == NodeOf(t, fix) && Alike(s, s) && c < |s.children|
    requires Fine(FixKid(t, path, fix, c, delta, s))
    requires PathOk(t, top) && Through(fix, top) && Outside(KidSite(NodeOf(t, path), path, s, c), top)
    ensures Good(t, FixKid(t, path, fix, c, delta, s).tree, KidSite(NodeOf(t, path), path, s, c), delta, top)
    decreases s, 1, 0
  {
    hide Good, FixNode, SitesOf;
    var x := FirstMatch(NodeOf(t, path).children, s.children[c].name);
    if x < |NodeOf(t, path).children| {
      ChildPath(t, path, x);
      ChildPath(t, fix, c);
      ThroughMore(fix, top, c);
      NodeGood(t, path + [x], fix + [c], delta, top, s.children[c]);
    }
  }

  lemma {:induction false} ThroughMore(path: seq<nat>, top: seq<nat>, c: nat)
    requires Through(path, top)
    ensures Through(path + [c], top)
  {
    assert (path + [c])[..|top|] == path[..|top|];
  }

  // ---- the words after the fixups ----

  /** How often a site is listed. */
  function Times(xs: seq<Site>, x: Site): nat {
    if xs == [] then 0 else (if xs[0] == x then 1 else 0) + Times(xs[1..], x)
  }

  /** No site overlaps this one without being the same. */
  predicate Clear(xs: seq<Site>, x: Site) {
    forall k | 0 <= k < |xs| :: xs[k] == x || ApartFrom(xs[k], x)
  }

  predicate ApartFrom(x: Site, y: Site) {
    x.path != y.path || x.key != y.key || x.at + 4 <= y.at || y.at + 4 <= x.at
  }

  lemma {:induction false} PatchApart(data: seq<Byte>, x: Site, y: Site, delta: nat)
    requires x.at + 4 <= |data| && ApartFrom(y, x)
    ensures Word(Patch(data, x.path, x.key, y, delta), x.at) == Word(data, x.at)
  {
    hide ShiftedWord;
    var d := Patch(data, x.path, x.key, y, delta);
    assert forall i | x.at <= i < x.at + 4 :: d[i] == data[i];
  }

  lemma {:induction false} PatchHere(data: seq<Byte>, x: Site, delta: nat)
    requires x.at + 4 <= |data|
    ensures Word(Patch(data, x.path, x.key, x, delta), x.at) == (Word(data, x.at) + delta) % U32
  {
    hide Word, WordBytes;
    var w := (Word(data, x.at) + delta) % U32;
    OverwrittenSame(data, x.at, WordBytes(w));
    WordAt(WordBytes(w), Overwritten(data, x.at, WordBytes(w)), 0, x.at);
    WordRoundTrip(w);
  }

  /** A word that is listed several times is shifted as often. */
  lemma {:induction false} PatchedWord(data: seq<Byte>, xs: seq<Site>, x: Site, delta: nat)
    requires x.at + 4 <= |data| && Clear(xs, x)
    ensures Word(Patched(data, x.path, x.key, xs, delta), x.at) == (Word(data, x.at) + Times(xs, x) * delta) % U32
    decreases |xs|
  {
    hide Word, Patch, ApartFrom;
    if xs != [] {
      var d, n := Patch(data, x.path, x.key, xs[0], delta), Times(xs[1..], x);
      PatchedWord(d, xs[1..], x, delta);
      if xs[0] == x {
        PatchHere(data, x, delta);
        OneMore(Word(data, x.at), n, delta);
      } else {
        PatchApart(data, x, xs[0], delta);
      }
    } else {
      ModWord(data, x.at);
    }
  }

  lemma {:induction false} ModWord(data: seq<Byte>, at: nat)
    requires at + 4 <= |data|
    ensures (Word(data, at) + 0) % U32 == Word(data, at)
  {
  }

  lemma {:induction false} OneMore(w: nat, n: nat, delta: nat)
    ensures ((w + delta) % U32 + n * delta) % U32 == (w + (1 + n) * delta) % U32
  {
    MulDistribute(1, n, delta);
    ModAny(w + delta, n * delta);
  }

  lemma {:induction false} ModAny(a: nat, b: nat)
    ensures (a % U32 + b) % U32 == (a + b) % U32
  {
  }

  // ---- the first steps of fdt_overlay_apply ----

  /** "__local_fixups__" */
  const LOCAL_FIXUPS: seq<Byte> := [95, 95, 108, 111, 99, 97, 108, 95, 102, 105, 120, 117, 112, 115, 95, 95]

  /** The index of the node of that name below the root. */
  function FixupsOf(t: Tree): nat {
    FirstMatch(t.children, LOCAL_FIXUPS)
  }

  /** overlay_update_local_references */
  function UpdateReferences(t: Tree, delta: nat): Fixed {
    var x := FixupsOf(t);
    if x == |t.children| then Fixed(0, false, t)
    else
      AlikeSelf(t.children[x]);
      FixNode(t, [], [x], delta, t.children[x])
  }

  method UpdateLocalReferences(f: Fdt, delta: nat, ghost t: Tree) returns (err: int, astray: bool)
    requires Holds(f, t)
    modifies f.buf
    ensures Came(f, UpdateReferences(t, delta), err, astray)
  {
    hide Standing, Items, FixNode;
    ghost var x := FixupsOf(t);
    NoChild(t, [], x);
    assert [] + [x] == [x];
    var fixups := ChildNamed(f, 0, LOCAL_FIXUPS, t, []);
    if fixups < 0 {
      return 0, false;
    }
    AlikeSelf(t.children[x]);
    err, astray := UpdateNodeReferences(f, 0, fixups, delta, t, [], [x], t.children[x]);
  }

  /** The largest phandle of the base, the shift of the overlay by it, and the references inside
      the overlay. */
  method ShiftOverlay(fdt: Fdt, fdto: Fdt, ghost base: Tree, ghost over: Tree) returns (err: int, astray: bool)
    requires Holds(fdt, base) && Holds(fdto, over) && fdt.buf != fdto.buf
    modifies fdto.buf
    ensures Holds(fdt, base)
    ensures var a := AdjustNode(over, MaxPhandle(base));
      if a.err != 0 then err == a.err && !astray && Holds(fdto, a.node)
      else Came(fdto, UpdateReferences(a.node, MaxPhandle(base)), err, astray)
  {
    hide Standing, Items, AdjustNode, UpdateReferences, MaxPhandle;
    var delta := FindMaxPhandle(fdt, base);
    err := AdjustNodePhandles(fdto, 0, delta, over, []);
    if err != 0 {
      return err, false;
    }
    err, astray := UpdateLocalReferences(fdto, delta, AdjustNode(over, delta).node);
  }

  // ---- references follow their nodes ----

  /** The value of the reference at a site. */
  function ReferenceAt(t: Tree, x: Site): nat
    requires Within(t, x)
  {
    Word(DataAt(t, x.path, x.key).value, x.at)
  }

  /** The words that the overlay lists once its phandles are shifted. */
  function Listed(t: Tree): seq<Site> {
    if FixupsOf(t) < |t.children| then SitesOf(t, [], t.children[FixupsOf(t)]) else []
  }

  /** None of them lies in the fixups, and none in a phandle. */
  ghost predicate Harmless(t: Tree) {
    Outside(Listed(t), [FixupsOf(t)]) && forall k | 0 <= k < |Listed(t)| :: !IsPhandle(Listed(t)[k].key)
  }

  lemma {:induction false} UpdateGood(t: Tree, delta: nat)
    requires Fine(UpdateReferences(t, delta)) && Harmless(t)
    ensures Effects(t, UpdateReferences(t, delta).tree, Listed(t), delta)
  {
    hide Effects, FixNode, SitesOf;
    var x := FixupsOf(t);
    if x < |t.children| {
      AlikeSelf(t.children[x]);
      assert [x][1..] == [] && Through([x], [x]);
      NodeGood(t, [], [x], delta, [x], t.children[x]);
    } else {
      EffectsNone(t, delta);
    }
  }

  /** Data that no site is in. */
  lemma {:induction false} PatchedNowhere(data: seq<Byte>, path: seq<nat>, key: seq<Byte>, xs: seq<Site>, delta: nat)
    requires forall k | 0 <= k < |xs| :: xs[k].path != path || xs[k].key != key
    ensures Patched(data, path, key, xs, delta) == data
    decreases |xs|
  {
    if xs != [] {
      PatchedNowhere(data, path, key, xs[1..], delta);
    }
  }

  /** The fixups change no phandle. */
  lemma {:induction false} PhandlesStay(t: Tree, delta: nat, q: seq<nat>)
    requires Fine(UpdateReferences(t, delta)) && Harmless(t) && PathOk(t, q)
    ensures var u := UpdateReferences(t, delta).tree; PathOk(u, q) && PhandleOf(NodeOf(u, q).props) == PhandleOf(NodeOf(t, q).props)
  {
    hide UpdateReferences, Listed, Patched, Lookup, Word;
    var u := UpdateReferences(t, delta).tree;
    UpdateGood(t, delta);
    SamePaths(t, delta, q);
    assert DataAt(u, q, PHANDLE) == PatchedIn(t, q, PHANDLE, Listed(t), delta);
    assert DataAt(u, q, LINUX_PHANDLE) == PatchedIn(t, q, LINUX_PHANDLE, Listed(t), delta);
    if DataAt(t, q, PHANDLE).Some? {
      PatchedNowhere(DataAt(t, q, PHANDLE).value, q, PHANDLE, Listed(t), delta);
    }
    if DataAt(t, q, LINUX_PHANDLE).Some? {
      PatchedNowhere(DataAt(t, q, LINUX_PHANDLE).value, q, LINUX_PHANDLE, Listed(t), delta);
    }
  }

  lemma {:induction false} SamePaths(t: Tree, delta: nat, q: seq<nat>)
    requires PathOk(t, q)
    ensures PathOk(UpdateReferences(t, delta).tree, q)
  {
    hide FixNode;
    AlikeSelf(t);
    AlikeAt(t, UpdateReferences(t, delta).tree, q);
  }

  /** What the fixups make of a listed word that no other listed word overlaps partly. */
  lemma {:induction false} ListedWord(t: Tree, delta: nat, k: nat)
    requires Fine(UpdateReferences(t, delta)) && Harmless(t) && k < |Listed(t)| && Clear(Listed(t), Listed(t)[k])
    ensures var u, x := UpdateReferences(t, delta).tree, Listed(t)[k];
      Within(t, x) && Within(u, x) && ReferenceAt(u, x) == (ReferenceAt(t, x) + Times(Listed(t), x) * delta) % U32
  {
    hide UpdateReferences, Listed, Patched, DataAt, Clear;
    var u, x := UpdateReferences(t, delta).tree, Listed(t)[k];
    UpdateGood(t, delta);
    assert Within(t, x);
    assert DataAt(u, x.path, x.key) == PatchedIn(t, x.path, x.key, Listed(t), delta);
    PatchedWord(DataAt(t, x.path, x.key).value, Listed(t), x, delta);
  }

  /** A word of a property that is no phandle is not shifted with the phandles. */
  lemma {:induction false} WordStays(over: Tree, delta: nat, x: Site)
    requires AdjustNode(over, delta).err == 0 && !IsPhandle(x.key) && Within(AdjustNode(over, delta).node, x)
    ensures Within(over, x) && ReferenceAt(over, x) == ReferenceAt(AdjustNode(over, delta).node, x)
  {
    hide AdjustNode, Word;
    var t := AdjustNode(over, delta).node;
    AdjustAlike(over, delta);
    PathsBack(over, t, x.path);
    ShiftedAt(over, delta, x.path);
  }

  lemma {:induction false} PathsBack(t: Tree, u: Tree, path: seq<nat>)
    requires Alike(t, u) && PathOk(u, path)
    ensures PathOk(t, path)
    decreases path
  {
    if path != [] {
      PathsBack(t.children[path[0]], u.children[path[0]], path[1..]);
    }
  }

  /** References follow their nodes: where the overlay refers to a node by its phandle, it still
      does so after the shift and the fixups, exactly if the word is listed so often that the
      shifts add up to one.  A word that is listed once refers to the same nodes as before. */
  lemma {:induction false} ReferencesFollow(over: Tree, delta: nat, k: nat, q: seq<nat>)
    requires delta < U32 && AdjustNode(over, delta).err == 0
    requires var t := AdjustNode(over, delta).node;
      && Fine(UpdateReferences(t, delta)) && Harmless(t) && k < |Listed(t)| && Clear(Listed(t), Listed(t)[k])
    requires PathOk(over, q) && HasPhandle(NodeOf(over, q).props)
    ensures var t := AdjustNode(over, delta).node;
      var u, x := UpdateReferences(t, delta).tree, Listed(t)[k];
      var n := Times(Listed(t), x);
      && Within(over, x) && Within(u, x) && PathOk(u, q)
      && (ReferenceAt(over, x) == PhandleOf(NodeOf(over, q).props) ==>
           (ReferenceAt(u, x) == PhandleOf(NodeOf(u, q).props) <==> (n * delta) % U32 == delta))
      && (n == 1 ==>
           (ReferenceAt(u, x) == PhandleOf(NodeOf(u, q).props) <==> ReferenceAt(over, x) == PhandleOf(NodeOf(over, q).props)))
  {
    hide AdjustNode, UpdateReferences, Listed, Clear, ReferenceAt, PhandleOf, HasPhandle, Shifted, Times;
    var t := AdjustNode(over, delta).node;
    var u, x, ph := UpdateReferences(t, delta).tree, Listed(t)[k], PhandleOf(NodeOf(over, q).props);
    ListedWord(t, delta, k);
    var w := ReferenceAt(t, x);
    WordStays(over, delta, x);
    ShiftedAt(over, delta, q);
    PhandleShifts(NodeOf(over, q).props, NodeOf(t, q).props, delta);
    PhandlesStay(t, delta, q);
    WordBound(t, x);
    SumsMeet(w, ph, Times(Listed(t), x) * delta, delta);
  }

  lemma {:induction false} WordBound(t: Tree, x: Site)
    requires Within(t, x)
    ensures ReferenceAt(t, x) < U32
  {
  }

  lemma {:induction false} SumsMeet(w: nat, ph: nat, shift: nat, delta: nat)
    requires w < U32 && ph + delta < U32
    ensures w == ph ==> ((w + shift) % U32 == ph + delta <==> shift % U32 == delta)
    ensures shift == delta ==> ((w + shift) % U32 == ph + delta <==> w == ph)
  {
    ModAny(shift, w);
  }

  /** An overlay with a node "a" that refers to itself, and that lists this reference twice. */
  const SELF: Tree := Tree([97], [(PHANDLE, [0, 0, 0, 1]), ([114], [0, 0, 0, 1])], [])
  const TWO_WORDS: seq<Byte> := [0, 0, 0, 0, 0, 0, 0, 0]
  const FIXUPS: Tree := Tree(LOCAL_FIXUPS, [], [Tree([97], [([114], TWO_WORDS)], [])])
  const TWICE: Tree := Tree([], [], [SELF, FIXUPS])

  lemma {:induction false} TwiceFixups()
    ensures FixupsOf(TWICE) == 1
  {
    assert |SELF.name| < |LOCAL_FIXUPS|;
    assert TWICE.children[1..] == [FIXUPS] && FirstMatch([FIXUPS], LOCAL_FIXUPS) == 0;
  }

  lemma {:induction false} TwiceWords(x: Site)
    requires x == Site([0], [114], 0)
    ensures WordSites([0], [114], TWO_WORDS, 0, 2) == [x, x]
  {
    assert Word(TWO_WORDS, 0) == 0 && Word(TWO_WORDS, 4) == 0;
    assert WordSites([0], [114], TWO_WORDS, 2, 2) == [];
    assert WordSites([0], [114], TWO_WORDS, 1, 2) == [x];
  }

  lemma {:induction false} TwiceSites(x: Site)
    requires x == Site([0], [114], 0)
    ensures SitesOf(TWICE, [], FIXUPS) == [x, x]
  {
    hide WordSites;
    var b := FIXUPS.children[0];
    TwiceWords(x);
    assert PropSites([0], b.props, 1) == [] && PropSites([0], b.props, 0) == [x, x] + [];
    assert KidSites(SELF, [0], b, 0) == [] && SitesOf(SELF, [0], b) == [x, x];
    assert TWICE.children[0] == SELF && FirstMatch(TWICE.children, [97]) == 0 && [] + [0] == [0];
    assert KidSite(TWICE, [], FIXUPS, 0) == [x, x];
    assert KidSites(TWICE, [], FIXUPS, 1) == [] && PropSites([], [], 0) == [];
  }

  /** Shifted twice, it is no reference to that node any more, unless the shift is 0. */
  lemma {:induction false} TwiceExample(delta: nat)
    requires delta < U32
    ensures var x := Site([0], [114], 0);
      && Listed(TWICE) == [x, x] && Times(Listed(TWICE), x) == 2
      && Within(TWICE, x) && ReferenceAt(TWICE, x) == PhandleOf(NodeOf(TWICE, [0]).props) == 1
      && ((2 * delta) % U32 == delta <==> delta == 0)
  {
    hide SitesOf, FirstMatch;
    var x := Site([0], [114], 0);
    TwiceFixups();
    TwiceSites(x);
    assert [x, x][1..] == [x] && [x][1..] == [] && Times([x], x) == 1;
    assert SELF.props[1..] == [([114], [0, 0, 0, 1])] && Lookup(SELF.props, [114]) == Some([0, 0, 0, 1]);
    assert [0][1..] == [] && NodeOf(TWICE, [0]) == SELF && Lookup(SELF.props, PHANDLE) == Some([0, 0, 0, 1]);
  }
}
