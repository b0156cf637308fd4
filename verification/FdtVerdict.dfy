/** When the fixups of an overlay succeed, and what they answer when they do not: read off the
    overlay, check by check. */
module FdtVerdict {
  import opened Bits
  import opened Common
  import opened FdtFormat
  import opened FdtTree
  import opened FdtBlob
  import opened FdtEdit
  import opened FdtTreeEdit
  import opened FdtNodes
  import opened FdtOverlay
  import opened FdtFixups

  // ---- the checks in their order ----

  /** A property or child that cannot be used, or a word that is listed. */
  datatype Check = Unusable | Listing(site: Site)

  function Marks(xs: seq<Site>): seq<Check> {
    if xs == [] then [] else [Listing(xs[0])] + Marks(xs[1..])
  }

  /** The properties of a fixup node from the j-th on: each has whole words and names a property
      of the node, or it is unusable. */
  function PropChecks(n: Tree, path: seq<nat>, props: Props, j: nat): seq<Check>
    requires j <= |props|
    decreases |props| - j
  {
    if j == |props| then []
    else
      var (name, data) := props[j];
      (if |data| % 4 == 0 && Lookup(n.props, name).Some? then Marks(WordSites(path, name, data, 0, |data| / 4)) else [Unusable])
      + PropChecks(n, path, props, j + 1)
  }

  function ChecksOf(n: Tree, path: seq<nat>, s: Tree): seq<Check>
    decreases s, 3, 0
  {
    PropChecks(n, path, s.props, 0) + KidsChecks(n, path, s, 0)
  }

  function KidsChecks(n: Tree, path: seq<nat>, s: Tree, c: nat): seq<Check>
    requires c <= |s.children|
    decreases s, 2, |s.children| - c
  {
    if c == |s.children| then [] else KidChecks(n, path, s, c) + KidsChecks(n, path, s, c + 1)
  }

  function KidChecks(n: Tree, path: seq<nat>, s: Tree, c: nat): seq<Check>
    requires c < |s.children|
    decreases s, 1, 0
  {
    var x := FirstMatch(n.children, s.children[c].name);
    if x == |n.children| then [Unusable] else ChecksOf(n.children[x], path + [x], s.children[c])
  }

  // ---- the verdict ----

  datatype Answer = Answer(err: int, astray: bool)

  const SUCCESS: Answer := Answer(0, false)

  function AnswerOf(r: Fixed): Answer {
    Answer(r.err, r.astray)
  }

  /** A word that lies in its property is fixed.  Another one is refused, unless its 32-bit end
      wraps around to a place in the property. */
  function WordVerdict(t: Tree, x: Site): Answer {
    match DataAt(t, x.path, x.key)
    case None => Answer(BADOVERLAY, false)
    case Some(data) =>
      if x.at + 4 <= |data| then SUCCESS
      else if (x.at + 4) % 0x1_0000_0000 <= |data| then Answer(0, true)
      else Answer(BADOVERLAY, false)
  }

  /** The first check that fails decides. */
  function Verdict(t: Tree, cs: seq<Check>): Answer {
    if cs == [] then SUCCESS
    else
      var a := if cs[0].Unusable? then Answer(BADOVERLAY, false) else WordVerdict(t, cs[0].site);
      if a == SUCCESS then Verdict(t, cs[1..]) else a
  }

  lemma {:induction false} VerdictJoin(t: Tree, xs: seq<Check>, ys: seq<Check>)
    ensures Verdict(t, xs + ys) == if Verdict(t, xs) == SUCCESS then Verdict(t, ys) else Verdict(t, xs)
  {
    hide WordVerdict;
    if xs == [] {
      assert xs + ys == ys;
    } else {
      assert (xs + ys)[1..] == xs[1..] + ys;
      VerdictJoin(t, xs[1..], ys);
    }
  }

  lemma {:induction false} WordAlike(t: Tree, u: Tree, x: Site)
    requires Alike(t, u)
    ensures WordVerdict(t, x) == WordVerdict(u, x)
  {
    if PathOk(t, x.path) {
      AlikeAt(t, u, x.path);
      AlikeLookup(NodeOf(t, x.path).props, NodeOf(u, x.path).props, x.key);
    } else if PathOk(u, x.path) {
      PathsBack(t, u, x.path);
    }
  }

  lemma {:induction false} VerdictAlike(t: Tree, u: Tree, cs: seq<Check>)
    requires Alike(t, u)
    ensures Verdict(t, cs) == Verdict(u, cs)
  {
    hide WordVerdict;
    if cs != [] {
      if cs[0].Listing? {
        WordAlike(t, u, cs[0].site);
      }
      VerdictAlike(t, u, cs[1..]);
    }
  }

  /** Everything passes exactly if nothing is unusable and every listed word is there. */
  lemma {:induction false} VerdictFine(t: Tree, cs: seq<Check>)
    ensures Verdict(t, cs) == SUCCESS <==> forall k | 0 <= k < |cs| :: cs[k].Listing? && Within(t, cs[k].site)
  {
    hide DataAt;
    if cs != [] {
      VerdictFine(t, cs[1..]);
      assert forall k | 0 < k < |cs| :: cs[k] == cs[1..][k - 1];
      assert forall k | 0 <= k < |cs| - 1 :: cs[1..][k] == cs[k + 1];
    }
  }

  // ---- the fixups give that verdict ----

  lemma {:induction false} OneVerdict(t: Tree, path: seq<nat>, name: seq<Byte>, at: nat, delta: nat)
    requires PathOk(t, path) && Lookup(NodeOf(t, path).props, name).Some?
    ensures AnswerOf(FixWord(t, path, name, at, delta)) == Verdict(t, [Listing(Site(path, name, at))])
  {
    hide Lookup, ShiftedWord;
    assert [Listing(Site(path, name, at))][1..] == [];
  }

  lemma {:induction false} WordsVerdict(t: Tree, path: seq<nat>, name: seq<Byte>, fix: seq<nat>, j: nat, i: nat, n: nat, delta: nat, top: seq<nat>)
    requires PathOk(t, path) && PathOk(t, fix) && j < |NodeOf(t, fix).props| && i <= n && 4 * n <= |DataOf(t, fix, j)|
    requires Lookup(NodeOf(t, path).props, name).Some?
    requires PathOk(t, top) && Through(fix, top) && Outside(WordSites(path, name, DataOf(t, fix, j), i, n), top)
    ensures AnswerOf(FixWords(t, path, name, fix, j, i, n, delta)) == Verdict(t, Marks(WordSites(path, name, DataOf(t, fix, j), i, n)))
    decreases n - i
  {
    hide Good, FixWord, Word, Lookup, Verdict;
    if i == n {
      assert Verdict(t, []) == SUCCESS by { EmptyVerdict(t); }
    } else {
      var data := DataOf(t, fix, j);
      var at, rest := Word(data, 4 * i), WordSites(path, name, data, i + 1, n);
      var x := Site(path, name, at);
      var r := FixWord(t, path, name, at, delta);
      OneVerdict(t, path, name, at, delta);
      MarksCons(x, rest);
      VerdictJoin(t, [Listing(x)], Marks(rest));
      if Fine(r) {
        OutsideParts([x], rest, top);
        assert !Through([x][0].path, top);
        GoodOne(t, path, name, at, delta, top);
        GoodKeeps(t, r.tree, [x], delta, top);
        BelowKept(t, r.tree, top, fix);
        AlikeAt(t, r.tree, path);
        AlikeLookup(NodeOf(t, path).props, NodeOf(r.tree, path).props, name);
        WordsVerdict(r.tree, path, name, fix, j, i + 1, n, delta, top);
        VerdictAlike(t, r.tree, Marks(rest));
      }
    }
  }

  lemma {:induction false} EmptyVerdict(t: Tree)
    ensures Verdict(t, []) == SUCCESS
  {
  }

  lemma {:induction false} UnusableVerdict(t: Tree, cs: seq<Check>)
    ensures Verdict(t, [Unusable] + cs) == Answer(BADOVERLAY, false)
  {
  }

  lemma {:induction false} MarksCons(x: Site, xs: seq<Site>)
    ensures Marks([x] + xs) == [Listing(x)] + Marks(xs)
  {
    assert ([x] + xs)[1..] == xs;
  }

  lemma {:induction false} PropsVerdict(t: Tree, path: seq<nat>, fix: seq<nat>, j: nat, delta: nat, top: seq<nat>, s: Tree)
    requires PathOk(t, path) && PathOk(t, fix) && s == NodeOf(t, fix) && j <= |s.props|
    requires PathOk(t, top) && Through(fix, top) && Outside(PropSites(path, s.props, j), top)
    ensures AnswerOf(FixProps(t, path, fix, j, delta)) == Verdict(t, PropChecks(NodeOf(t, path), path, s.props, j))
    decreases |s.props| - j
  {
    hide Good, FixWords, WordSites, Lookup, Verdict, Marks;
    var n := NodeOf(t, path);
    if j == |s.props| {
      EmptyVerdict(t);
    } else {
      var (name, data) := s.props[j];
      var cs := PropChecks(n, path, s.props, j + 1);
      if |data| % 4 == 0 && Lookup(n.props, name).Some? {
        var xs := WordSites(path, name, data, 0, |data| / 4);
        var r := FixWords(t, path, name, fix, j, 0, |data| / 4, delta);
        OutsideParts(xs, PropSites(path, s.props, j + 1), top);
        WordsVerdict(t, path, name, fix, j, 0, |data| / 4, delta, top);
        VerdictJoin(t, Marks(xs), cs);
        if Fine(r) {
          WordsGood(t, path, name, fix, j, 0, |data| / 4, delta, top);
          GoodKeeps(t, r.tree, xs, delta, top);
          BelowKept(t, r.tree, top, fix);
          AlikeAt(t, r.tree, path);
          PropsVerdict(r.tree, path, fix, j + 1, delta, top, s);
          PropsAlike(n, NodeOf(r.tree, path), path, s.props, j + 1);
          VerdictAlike(t, r.tree, cs);
        }
      } else {
        UnusableVerdict(t, cs);
      }
    }
  }

  /** The checks depend on the names of nodes and properties only. */
  lemma {:induction false} PropsAlike(n: Tree, m: Tree, path: seq<nat>, props: Props, j: nat)
    requires Alike(n, m) && j <= |props|
    ensures PropChecks(n, path, props, j) == PropChecks(m, path, props, j)
    decreases |props| - j
  {
    hide Lookup, Marks, WordSites;
    if j < |props| {
      AlikeLookup(n.props, m.props, props[j].0);
      PropsAlike(n, m, path, props, j + 1);
    }
  }

  lemma {:induction false} ChecksAlike(n: Tree, m: Tree, path: seq<nat>, s: Tree)
    requires Alike(n, m)
    ensures ChecksOf(n, path, s) == ChecksOf(m, path, s)
    decreases s, 3, 0
  {
    hide PropChecks;
    PropsAlike(n, m, path, s.props, 0);
    KidsChecksAlike(n, m, path, s, 0);
  }

  lemma {:induction false} KidsChecksAlike(n: Tree, m: Tree, path: seq<nat>, s: Tree, c: nat)
    requires Alike(n, m) && c <= |s.children|
    ensures KidsChecks(n, path, s, c) == KidsChecks(m, path, s, c)
    decreases s, 2, |s.children| - c
  {
    if c < |s.children| {
      var x := FirstMatch(n.children, s.children[c].name);
      MatchAlike(n.children, m.children, s.children[c].name);
      if x < |n.children| {
        ChecksAlike(n.children[x], m.children[x], path + [x], s.children[c]);
      }
      KidsChecksAlike(n, m, path, s, c + 1);
    }
  }

  /** The answer of the fixups is the verdict, if no listed word lies in the fixups themselves. */
  lemma {:induction false} NodeVerdict(t: Tree, path: seq<nat>, fix: seq<nat>, delta: nat, top: seq<nat>, s: Tree)
    requires PathOk(t, path) && PathOk(t, fix) && s == NodeOf(t, fix) && Alike(s, s)
    requires PathOk(t, top) && Through(fix, top) && Outside(SitesOf(NodeOf(t, path), path, s), top)
    ensures AnswerOf(FixNode(t, path, fix, delta, s)) == Verdict(t, ChecksOf(NodeOf(t, path), path, s))
    decreases s, 3, 0
  {
    hide Good, FixProps, PropSites, FixKids, KidSites, PropChecks, KidsChecks, Verdict;
    var n := NodeOf(t, path);
    var xs, ys := PropSites(path, s.props, 0), KidSites(n, path, s, 0);
    var cs, ds := PropChecks(n, path, s.props, 0), KidsChecks(n, path, s, 0);
    var r := FixProps(t, path, fix, 0, delta);
    OutsideParts(xs, ys, top);
    PropsVerdict(t, path, fix, 0, delta, top, s);
    VerdictJoin(t, cs, ds);
    if Fine(r) {
      PropsGood(t, path, fix, 0, delta, top, s);
      GoodKeeps(t, r.tree, xs, delta, top);
      BelowKept(t, r.tree, top, fix);
      AlikeAt(t, r.tree, path);
      KidsAlike(n, NodeOf(r.tree, path), path, s, 0);
      KidsChecksAlike(n, NodeOf(r.tree, path), path, s, 0);
      KidsVerdict(r.tree, path, fix, 0, delta, top, s);
      VerdictAlike(t, r.tree, ds);
    }
  }

  lemma {:induction false} KidsVerdict(t: Tree, path: seq<nat>, fix: seq<nat>, c: nat, delta: nat, top: seq<nat>, s: Tree)
    requires PathOk(t, path) && PathOk(t, fix) && s == NodeOf(t, fix) && Alike(s, s) && c <= |s.children|
    requires PathOk(t, top) && Through(fix, top) && Outside(KidSites(NodeOf(t, path), path, s, c), top)
    ensures AnswerOf(FixKids(t, path, fix, c, delta, s)) == Verdict(t, KidsChecks(NodeOf(t, path), path, s, c))
    decreases s, 2, |s.children| - c
  {
    hide Good, FixKid, KidSite, KidChecks, Verdict;
    var n := NodeOf(t, path);
    if c == |s.children| {
      EmptyVerdict(t);
    } else {
      var xs, ys := KidSite(n, path, s, c), KidSites(n, path, s, c + 1);
      var cs, ds := KidChecks(n, path, s, c), KidsChecks(n, path, s, c + 1);
      var r := FixKid(t, path, fix, c, delta, s);
      OutsideParts(xs, ys, top);
      KidVerdict(t, path, fix, c, delta, top, s);
      VerdictJoin(t, cs, ds);
      if Fine(r) {
        KidGood(t, path, fix, c, delta, top, s);
        GoodKeeps(t, r.tree, xs, delta, top);
        BelowKept(t, r.tree, top, fix);
        AlikeAt(t, r.tree, path);
        KidsAlike(n, NodeOf(r.tree, path), path, s, c + 1);
        KidsChecksAlike(n, NodeOf(r.tree, path), path, s, c + 1);
        KidsVerdict(r.tree, path, fix, c + 1, delta, top, s);
        VerdictAlike(t, r.tree, ds);
      }
    }
  }

  lemma {:induction false} KidVerdict(t: Tree, path: seq<nat>, fix: seq<nat>, c: nat, delta: nat, top: seq<nat>, s: Tree)
    requires PathOk(t, path) && PathOk(t, fix) && s == NodeOf(t, fix) && Alike(s, s) && c < |s.children|
    requires PathOk(t, top) && Through(fix, top) && Outside(KidSite(NodeOf(t, path), path, s, c), top)
    ensures AnswerOf(FixKid(t, path, fix, c, delta, s)) == Verdict(t, KidChecks(NodeOf(t, path), path, s, c))
    decreases s, 1, 0
  {
    hide Good, FixNode, SitesOf, ChecksOf, Verdict;
    var x := FirstMatch(NodeOf(t, path).children, s.children[c].name);
    if x < |NodeOf(t, path).children| {
      ChildPath(t, path, x);
      ChildPath(t, fix, c);
      ThroughMore(fix, top, c);
      NodeVerdict(t, path + [x], fix + [c], delta, top, s.children[c]);
    } else {
      UnusableVerdict(t, []);
      assert [Unusable] + [] == [Unusable];
    }
  }

  // ---- when they succeed ----

  /** Every property of the fixups has whole words and names a property of its node, and every
      child matches a child of its node. */
  predicate Usable(n: Tree, s: Tree)
    decreases s, 2
  {
    UsableProps(n, s.props, 0) && UsableChildren(n, s, 0)
  }

  predicate UsableProps(n: Tree, props: Props, j: nat) {
    forall i | j <= i < |props| :: UsableProp(n, props[i])
  }

  predicate UsableProp(n: Tree, p: (seq<Byte>, seq<Byte>)) {
    |p.1| % 4 == 0 && Lookup(n.props, p.0).Some?
  }

  predicate UsableChildren(n: Tree, s: Tree, c: nat)
    decreases s, 1
  {
    forall i | c <= i < |s.children| :: UsableChild(n, s, i)
  }

  predicate UsableChild(n: Tree, s: Tree, c: nat)
    requires c < |s.children|
    decreases s, 0
  {
    exists x :: 0 <= x < |n.children| && FirstNamed(n.children, x, s.children[c].name) && Usable(n.children[x], s.children[c])
  }

  /** The x-th node is the first whose name matches. */
  predicate FirstNamed(ts: seq<Tree>, x: nat, name: seq<Byte>)
    requires x < |ts|
  {
    NameMatches(ts[x].name, name) && forall y | 0 <= y < x :: !NameMatches(ts[y].name, name)
  }

  lemma {:induction false} MarksJoin(xs: seq<Site>, ys: seq<Site>)
    ensures Marks(xs + ys) == Marks(xs) + Marks(ys)
  {
    if xs == [] {
      assert xs + ys == ys;
    } else {
      assert (xs + ys)[1..] == xs[1..] + ys;
      MarksJoin(xs[1..], ys);
    }
  }

  lemma {:induction false} MarksAt(xs: seq<Site>)
    ensures |Marks(xs)| == |xs| && forall k | 0 <= k < |xs| :: Marks(xs)[k] == Listing(xs[k])
  {
    if xs != [] {
      MarksAt(xs[1..]);
    }
  }

  /** Either nothing is unusable, and then the checks are the listed words, or something is; and no
      other words are checked. */
  ghost predicate Sorted(usable: bool, cs: seq<Check>, xs: seq<Site>) {
    && (if usable then cs == Marks(xs) else Unusable in cs)
    && forall x | Listing(x) in cs :: x in xs
  }

  lemma {:induction false} MarksSorted(xs: seq<Site>)
    ensures Sorted(true, Marks(xs), xs)
  {
    MarksAt(xs);
  }

  lemma {:induction false} SortedJoin(a: bool, cs: seq<Check>, xs: seq<Site>, b: bool, ds: seq<Check>, ys: seq<Site>)
    requires Sorted(a, cs, xs) && Sorted(b, ds, ys)
    ensures Sorted(a && b, cs + ds, xs + ys)
  {
    MarksJoin(xs, ys);
  }

  lemma {:induction false} PropsSorted(n: Tree, path: seq<nat>, props: Props, j: nat)
    requires j <= |props|
    ensures Sorted(UsableProps(n, props, j), PropChecks(n, path, props, j), PropSites(path, props, j))
    decreases |props| - j
  {
    hide Lookup, WordSites, Marks;
    if j == |props| {
      assert Marks([]) == [] by { MarksAt([]); }
    } else {
      var (name, data) := props[j];
      var a := UsableProp(n, props[j]);
      var b := UsableProps(n, props, j + 1);
      var xs := WordSites(path, name, data, 0, |data| / 4);
      MarksSorted(xs);
      PropsSorted(n, path, props, j + 1);
      SortedJoin(a, if a then Marks(xs) else [Unusable], xs, b, PropChecks(n, path, props, j + 1), PropSites(path, props, j + 1));
    }
  }

  lemma {:induction false} ChecksSorted(n: Tree, path: seq<nat>, s: Tree)
    ensures Sorted(Usable(n, s), ChecksOf(n, path, s), SitesOf(n, path, s))
    decreases s, 3, 0
  {
    hide Sorted, PropChecks, KidsChecks, PropSites, KidSites, UsableProps, UsableChildren;
    var a, b := UsableProps(n, s.props, 0), UsableChildren(n, s, 0);
    PropsSorted(n, path, s.props, 0);
    KidsSorted(n, path, s, 0);
    SortedJoin(a, PropChecks(n, path, s.props, 0), PropSites(path, s.props, 0), b, KidsChecks(n, path, s, 0), KidSites(n, path, s, 0));
  }

  lemma {:induction false} KidsSorted(n: Tree, path: seq<nat>, s: Tree, c: nat)
    requires c <= |s.children|
    ensures Sorted(UsableChildren(n, s, c), KidsChecks(n, path, s, c), KidSites(n, path, s, c))
    decreases s, 2, |s.children| - c
  {
    hide KidChecks, KidSite, UsableChild;
    if c == |s.children| {
      assert Marks([]) == [] by { MarksAt([]); }
    } else {
      var a, b := UsableChild(n, s, c), UsableChildren(n, s, c + 1);
      KidSorted(n, path, s, c);
      KidsSorted(n, path, s, c + 1);
      SortedJoin(a, KidChecks(n, path, s, c), KidSite(n, path, s, c), b, KidsChecks(n, path, s, c + 1), KidSites(n, path, s, c + 1));
    }
  }

  lemma {:induction false} KidSorted(n: Tree, path: seq<nat>, s: Tree, c: nat)
    requires c < |s.children|
    ensures Sorted(UsableChild(n, s, c), KidChecks(n, path, s, c), KidSite(n, path, s, c))
    decreases s, 1, 0
  {
    hide ChecksOf, SitesOf, Usable, NameMatches;
    var x := FirstMatch(n.children, s.children[c].name);
    if x < |n.children| {
      ChecksSorted(n.children[x], path + [x], s.children[c]);
      assert FirstNamed(n.children, x, s.children[c].name);
      assert forall y | 0 <= y < |n.children| && FirstNamed(n.children, y, s.children[c].name) :: y == x;
    }
  }

  /** The references of an overlay are brought up to date exactly if its fixups are usable and
      every word they list lies within its property; without fixups there is nothing to do. */
  lemma {:induction false} FixupsSucceed(t: Tree, delta: nat)
    requires Harmless(t)
    ensures Fine(UpdateReferences(t, delta)) <==>
      (|| FixupsOf(t) == |t.children|
       || (Usable(t, t.children[FixupsOf(t)]) && forall k | 0 <= k < |Listed(t)| :: Within(t, Listed(t)[k])))
  {
    hide Usable, ChecksOf, SitesOf, Verdict, Within;
    var x := FixupsOf(t);
    if x < |t.children| {
      FixupsAnswer(t, delta);
      ChecksSorted(t, [], t.children[x]);
      var cs := ChecksOf(t, [], t.children[x]);
      VerdictFine(t, cs);
      MarksAt(Listed(t));
    }
  }

  /** What they answer in every case is the verdict. */
  lemma {:induction false} FixupsAnswer(t: Tree, delta: nat)
    requires Harmless(t) && FixupsOf(t) < |t.children|
    ensures AnswerOf(UpdateReferences(t, delta)) == Verdict(t, ChecksOf(t, [], t.children[FixupsOf(t)]))
  {
    hide FixNode, SitesOf, Verdict, ChecksOf;
    var x := FixupsOf(t);
    AlikeSelf(t.children[x]);
    assert [x][1..] == [] && Through([x], [x]);
    NodeVerdict(t, [], [x], delta, [x], t.children[x]);
  }

  /** The cases of a failure.  A listed word that is not within its property decides, by whether
      its end wraps around 32 bits, or else something unusable; and with usable fixups it is the
      first such word. */
  lemma {:induction false} FixupsFail(t: Tree, delta: nat) returns (k: nat)
    requires Harmless(t) && !Fine(UpdateReferences(t, delta))
    ensures FixupsOf(t) < |t.children|
    ensures k < |Listed(t)| ==> !Within(t, Listed(t)[k]) && AnswerOf(UpdateReferences(t, delta)) == WordVerdict(t, Listed(t)[k])
    ensures k >= |Listed(t)| ==> !Usable(t, t.children[FixupsOf(t)]) && AnswerOf(UpdateReferences(t, delta)) == Answer(BADOVERLAY, false)
    ensures Usable(t, t.children[FixupsOf(t)]) ==> k < |Listed(t)| && forall i | 0 <= i < k :: Within(t, Listed(t)[i])
  {
    hide Usable, ChecksOf, Verdict, WordVerdict, SitesOf, UpdateReferences, Within;
    var x := FixupsOf(t);
    NothingToDo(t, delta);
    FixupsAnswer(t, delta);
    var cs := ChecksOf(t, [], t.children[x]);
    ChecksSorted(t, [], t.children[x]);
    k := Decided(t, cs);
    if Usable(t, t.children[x]) {
      MarksAt(Listed(t));
    } else if cs[k].Unusable? {
      k := |Listed(t)|;
    } else {
      assert Listing(cs[k].site) in cs;
      var site := cs[k].site;
      k :| 0 <= k < |Listed(t)| && Listed(t)[k] == site;
    }
  }

  lemma {:induction false} NothingToDo(t: Tree, delta: nat)
    ensures !Fine(UpdateReferences(t, delta)) ==> FixupsOf(t) < |t.children|
  {
  }

  /** The check that decides a verdict. */
  lemma {:induction false} Decided(t: Tree, cs: seq<Check>) returns (j: nat)
    requires Verdict(t, cs) != SUCCESS
    ensures j < |cs| && forall i | 0 <= i < j :: cs[i].Listing? && Within(t, cs[i].site)
    ensures if cs[j].Unusable? then Verdict(t, cs) == Answer(BADOVERLAY, false)
      else Verdict(t, cs) == WordVerdict(t, cs[j].site) && !Within(t, cs[j].site)
  {
    hide DataAt;
    if cs[0].Listing? && Within(t, cs[0].site) {
      j := Decided(t, cs[1..]);
      j := j + 1;
      assert forall i | 0 < i < j :: cs[i] == cs[1..][i - 1];
    } else {
      j := 0;
    }
  }

  // ---- an overlay with one reference ----

  /** A node "a" that refers to itself, and the fixups that list this reference once. */
  const LIST: Tree := Tree(LOCAL_FIXUPS, [], [Tree([97], [([114], [0, 0, 0, 0])], [])])
  const ONCE: Tree := Tree([], [], [SELF, LIST])

  lemma {:induction false} OnceListed(x: Site)
    requires x == Site([0], [114], 0)
    ensures FixupsOf(ONCE) == 1 && Listed(ONCE) == [x] && Harmless(ONCE)
  {
    var b := LIST.children[0];
    assert |SELF.name| < |LOCAL_FIXUPS|;
    assert ONCE.children[1..] == [LIST] && FirstMatch([LIST], LOCAL_FIXUPS) == 0;
    assert Word([0, 0, 0, 0], 0) == 0;
    assert WordSites([0], [114], [0, 0, 0, 0], 1, 1) == [] && WordSites([0], [114], [0, 0, 0, 0], 0, 1) == [x];
    assert PropSites([0], b.props, 1) == [] && PropSites([0], b.props, 0) == [x] + [];
    assert KidSites(SELF, [0], b, 0) == [] && SitesOf(SELF, [0], b) == [x];
    assert ONCE.children[0] == SELF && FirstMatch(ONCE.children, [97]) == 0 && [] + [0] == [0];
    assert KidSite(ONCE, [], LIST, 0) == [x];
    assert KidSites(ONCE, [], LIST, 1) == [] && PropSites([], [], 0) == [];
    assert |[114]| != |PHANDLE| && |[114]| != |LINUX_PHANDLE|;
  }

  lemma {:induction false} OnceWithin(x: Site)
    requires x == Site([0], [114], 0)
    ensures DataAt(ONCE, [0], [114]) == Some([0, 0, 0, 1]) && Within(ONCE, x) && Usable(ONCE, LIST)
  {
    var b := LIST.children[0];
    assert SELF.props[1..] == [([114], [0, 0, 0, 1])] && Lookup(SELF.props, [114]) == Some([0, 0, 0, 1]);
    assert [0][1..] == [] && NodeOf(ONCE, [0]) == SELF;
    assert Usable(SELF, b);
    assert FirstNamed(ONCE.children, 0, [97]);
  }

  /** Its reference follows the node by any shift. */
  lemma {:induction false} OnceExample(delta: nat)
    ensures var u, x := UpdateReferences(ONCE, delta), Site([0], [114], 0);
      Fine(u) && Within(u.tree, x) && ReferenceAt(u.tree, x) == (1 + delta) % 0x1_0000_0000
  {
    hide UpdateReferences, Harmless, Listed, Usable, Within, DataAt;
    var x := Site([0], [114], 0);
    OnceListed(x);
    OnceWithin(x);
    FixupsSucceed(ONCE, delta);
    ListedWord(ONCE, delta, 0);
    assert Listed(ONCE)[0] == x && [x][1..] == [] && Times([], x) == 0 && Times([x], x) == 1;
    assert Word([0, 0, 0, 1], 0) == 1;
  }
}
