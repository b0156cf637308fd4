/** Whole histories of the physical memory manager: blocks allocated and freed in any order. */
module MemoryHistory {
  import opened Common
  import opened RangeMap
  import opened MemoryMap

  datatype Block = Block(start: nat, size: nat, kind: nat) {
    predicate Holds(a: nat) {
      start <= a < start + size
    }
  }

  function HeldType(x: seq<Range>, bs: seq<Block>, a: nat): Option<nat> {
    if bs == [] then TypeAt(x, a)
    else if bs[0].Holds(a) then Some(bs[0].kind)
    else HeldType(x, bs[1..], a)
  }

  /** Map `y` is map `x` with the blocks `bs` allocated from its free memory. */
  ghost predicate Holding(x: seq<Range>, y: seq<Range>, bs: seq<Block>) {
    && (forall i | 0 <= i < |bs| :: bs[i].kind != FREE && AllOfType(x, bs[i].start, bs[i].size, FREE))
    && (forall i, j, a: nat | 0 <= i < j < |bs| && bs[i].Holds(a) :: !bs[j].Holds(a))
    && (forall a: nat :: TypeAt(y, a) == HeldType(x, bs, a))
  }

  lemma {:induction false} HeldAt(x: seq<Range>, bs: seq<Block>, i: nat, a: nat)
    requires i < |bs| && bs[i].Holds(a) && forall j | 0 <= j < i :: !bs[j].Holds(a)
    ensures HeldType(x, bs, a) == Some(bs[i].kind)
  {
    if i > 0 {
      HeldAt(x, bs[1..], i - 1, a);
    }
  }

  lemma {:induction false} HeldNot(x: seq<Range>, bs: seq<Block>, a: nat)
    requires forall i | 0 <= i < |bs| :: !bs[i].Holds(a)
    ensures HeldType(x, bs, a) == TypeAt(x, a)
  {
    if bs != [] {
      HeldNot(x, bs[1..], a);
    }
  }

  /** A successful allocation adds a block that no other block overlaps. */
  lemma AllocHolds(x: seq<Range>, y: seq<Range>, z: seq<Range>, bs: seq<Block>, b: Block)
    requires Holding(x, y, bs) && b.kind != FREE && AllOfType(y, b.start, b.size, FREE)
    requires Updated(y, z, b.start, b.start + b.size, Some(b.kind))
    ensures Holding(x, z, [b] + bs)
  {
    var cs := [b] + bs;
    forall i, a: nat | 0 <= i < |bs| && bs[i].Holds(a) ensures TypeAt(y, a).Some? && TypeAt(y, a) != Some(FREE) {
      forall j | 0 <= j < i ensures !bs[j].Holds(a) {
      }
      HeldAt(x, bs, i, a);
    }
    forall a: nat | b.Holds(a) ensures TypeAt(x, a) == Some(FREE) {
      assert TypeAt(y, a) == Some(FREE);
      HeldNot(x, bs, a);
    }
    forall i, j, a: nat | 0 <= i < j < |cs| && cs[i].Holds(a) ensures !cs[j].Holds(a) {
      if i == 0 {
        assert TypeAt(y, a) == Some(FREE) && cs[j] == bs[j - 1];
      } else {
        assert bs[i - 1].Holds(a);
      }
    }
    assert cs[1..] == bs;
  }

  /** Freeing any of the held blocks gives the map without that block. */
  lemma FreeHolds(x: seq<Range>, y: seq<Range>, z: seq<Range>, bs: seq<Block>, i: nat)
    requires Holding(x, y, bs) && i < |bs|
    requires Updated(y, z, bs[i].start, bs[i].start + bs[i].size, Some(FREE))
    ensures Holding(x, z, bs[..i] + bs[i + 1..])
  {
    var cs := bs[..i] + bs[i + 1..];
    assert forall j | 0 <= j < |cs| :: cs[j] == bs[if j < i then j else j + 1];
    forall a: nat ensures TypeAt(z, a) == HeldType(x, cs, a) {
      if bs[i].Holds(a) {
        HeldNot(x, cs, a);
      } else if j :| 0 <= j < |cs| && cs[j].Holds(a) {
        HeldAt(x, cs, j, a);
        HeldAt(x, bs, if j < i then j else j + 1, a);
      } else {
        HeldNot(x, cs, a);
        forall j | 0 <= j < |bs| ensures !bs[j].Holds(a) {
          if j < i {
            assert cs[j] == bs[j];
          } else if j > i {
            assert cs[j - 1] == bs[j];
          }
        }
        HeldNot(x, bs, a);
      }
    }
  }

  /** A held block can always be freed. */
  lemma HeldCanBeFreed(x: seq<Range>, y: seq<Range>, bs: seq<Block>, i: nat)
    requires Holding(x, y, bs) && i < |bs|
    ensures AllOfType(y, bs[i].start, bs[i].size, bs[i].kind)
  {
    forall a: nat | bs[i].Holds(a) ensures TypeAt(y, a) == Some(bs[i].kind) {
      forall j | 0 <= j < i ensures !bs[j].Holds(a) {
      }
      HeldAt(x, bs, i, a);
    }
  }

  // ---- a run, whatever the strategy ----

  /** A block of free memory becomes one in use. */
  ghost predicate Takes(y: seq<Range>, bs: seq<Block>, z: seq<Range>, bs': seq<Block>) {
    && bs' != [] && bs'[1..] == bs && bs'[0].kind != FREE && AllOfType(y, bs'[0].start, bs'[0].size, FREE)
    && Updated(y, z, bs'[0].start, bs'[0].start + bs'[0].size, Some(bs'[0].kind))
  }

  /** The i-th block in use is given back. */
  ghost predicate Frees(y: seq<Range>, bs: seq<Block>, i: nat, z: seq<Range>, bs': seq<Block>) {
    i < |bs| && bs' == bs[..i] + bs[i + 1..] && Updated(y, z, bs[i].start, bs[i].start + bs[i].size, Some(FREE))
  }

  ghost predicate Idles(y: seq<Range>, bs: seq<Block>, z: seq<Range>, bs': seq<Block>) {
    z == y && bs' == bs
  }

  ghost predicate Step(y: seq<Range>, bs: seq<Block>, z: seq<Range>, bs': seq<Block>) {
    Idles(y, bs, z, bs') || Takes(y, bs, z, bs') || exists i :: Frees(y, bs, i, z, bs')
  }

  /** A history: the maps and the blocks in use before, between and after the steps. */
  ghost predicate Run(maps: seq<seq<Range>>, inUse: seq<seq<Block>>) {
    && |maps| == |inUse| > 0 && inUse[0] == [] && (forall k | 0 <= k < |maps| :: Canonical(maps[k]))
    && forall k: nat | k + 1 < |maps| :: StepAt(maps, inUse, k)
  }

  ghost predicate StepAt(maps: seq<seq<Range>>, inUse: seq<seq<Block>>, k: nat)
    requires k + 1 < |maps| == |inUse|
  {
    Step(maps[k], inUse[k], maps[k + 1], inUse[k + 1])
  }

  /** After any part of a run the map is the first one with the blocks in use taken from its
      free memory. */
  lemma {:induction false} RunHolds(maps: seq<seq<Range>>, inUse: seq<seq<Block>>, k: nat)
    requires Run(maps, inUse) && k < |maps|
    ensures Holding(maps[0], maps[k], inUse[k])
  {
    if k > 0 {
      RunHolds(maps, inUse, k - 1);
      assert StepAt(maps, inUse, k - 1);
      StepHolds(maps[0], maps[k - 1], inUse[k - 1], maps[k], inUse[k]);
    }
  }

  lemma {:induction false} StepHolds(x: seq<Range>, y: seq<Range>, bs: seq<Block>, z: seq<Range>, bs': seq<Block>)
    requires Holding(x, y, bs) && Step(y, bs, z, bs')
    ensures Holding(x, z, bs')
  {
    if Takes(y, bs, z, bs') {
      AllocHolds(x, y, z, bs, bs'[0]);
      assert [bs'[0]] + bs == bs';
    } else if !Idles(y, bs, z, bs') {
      var i :| Frees(y, bs, i, z, bs');
      FreeHolds(x, y, z, bs, i);
    }
  }

  /** At any point of a run each block in use can be freed. */
  lemma {:induction false} RunFreeable(maps: seq<seq<Range>>, inUse: seq<seq<Block>>, k: nat, i: nat)
    requires Run(maps, inUse) && k < |maps| && i < |inUse[k]|
    ensures Freeable(maps[k], inUse[k][i])
  {
    RunHolds(maps, inUse, k);
    HeldCanBeFreed(maps[0], maps[k], inUse[k], i);
  }

  /** The condition under which memory_free accepts a block. */
  ghost predicate Freeable(y: seq<Range>, b: Block) {
    b.kind != FREE && AllOfType(y, b.start, b.size, b.kind)
  }

  /** Whenever no block is in use any more, the range list is the one at the start: allocations
      and frees may come in any order. */
  lemma {:induction false} AllFreedRestores(maps: seq<seq<Range>>, inUse: seq<seq<Block>>, k: nat)
    requires Run(maps, inUse) && k < |maps| && inUse[k] == []
    ensures maps[k] == maps[0]
  {
    RunHolds(maps, inUse, k);
    NothingHeld(maps[0], maps[k]);
  }

  lemma {:induction false} NothingHeld(x: seq<Range>, y: seq<Range>)
    requires Canonical(x) && Canonical(y) && Holding(x, y, [])
    ensures x == y
  {
    forall a: nat ensures TypeAt(x, a) == TypeAt(y, a) {
      assert TypeAt(y, a) == HeldType(x, [], a);
    }
    CanonicalUnique(x, y);
  }

  // ---- a run of the methods ----

  datatype Command =
    | Allocate(size: nat, align: nat, minAddr: nat, maxAddr: nat, kind: nat, high: bool)
    | Release(which: nat)

  function LimitsOf(c: Command, physMin: nat): Limits
    requires c.Allocate?
  {
    EffectiveLimits(physMin, c.size, c.align, c.minAddr, c.maxAddr)
  }

  /** What memory_alloc asserts. */
  predicate Allowed(c: Command, physMin: nat) {
    c.Allocate? ==> c.kind != FREE && LimitsOf(c, physMin).Ok()
  }

  predicate PagedBlock(b: Block) {
    Range(b.start, b.size, FREE).Ok() && Range(b.start, b.size, FREE).Paged()
  }

  /** An allocation takes the best of the blocks that are wanted, if there is one. */
  ghost predicate Allocates(c: Command, physMin: nat, y: seq<Range>, bs: seq<Block>, z: seq<Range>, bs': seq<Block>)
    requires c.Allocate? && Allowed(c, physMin)
  {
    if NoneWanted(y, physMin, c.size, c.align, c.minAddr, c.maxAddr) then Idles(y, bs, z, bs')
    else
      && Takes(y, bs, z, bs') && bs'[0] == Block(bs'[0].start, c.size, c.kind)
      && BestWanted(y, physMin, c.size, c.align, c.minAddr, c.maxAddr, c.high, bs'[0].start)
  }

  /** What a command makes of a map and the blocks in use. */
  ghost predicate Does(c: Command, physMin: nat, y: seq<Range>, bs: seq<Block>, z: seq<Range>, bs': seq<Block>)
    requires Allowed(c, physMin)
  {
    if c.Allocate? then Allocates(c, physMin, y, bs, z, bs')
    else if c.which < |bs| then Frees(y, bs, c.which, z, bs')
    else Idles(y, bs, z, bs')
  }

  lemma {:induction false} DoesIsStep(c: Command, physMin: nat, y: seq<Range>, bs: seq<Block>, z: seq<Range>, bs': seq<Block>)
    requires Allowed(c, physMin) && Does(c, physMin, y, bs, z, bs')
    ensures Step(y, bs, z, bs')
  {
  }

  ghost predicate DoneAt(c: Command, physMin: nat, maps: seq<seq<Range>>, inUse: seq<seq<Block>>, k: nat)
    requires Allowed(c, physMin) && k + 1 < |maps| == |inUse|
  {
    Does(c, physMin, maps[k], inUse[k], maps[k + 1], inUse[k + 1])
  }

  /** A run that does these commands, one after the other. */
  ghost predicate Trace(commands: seq<Command>, physMin: nat, maps: seq<seq<Range>>, inUse: seq<seq<Block>>)
    requires forall c | c in commands :: Allowed(c, physMin)
  {
    && |maps| == |inUse| == |commands| + 1 && Run(maps, inUse)
    && forall k: nat | k < |commands| :: DoneAt(commands[k], physMin, maps, inUse, k)
  }

  lemma {:induction false} TraceMore(commands: seq<Command>, physMin: nat, maps: seq<seq<Range>>, inUse: seq<seq<Block>>,
                                     c: Command, z: seq<Range>, bs: seq<Block>)
    requires (forall d | d in commands :: Allowed(d, physMin)) && Trace(commands, physMin, maps, inUse)
    requires Allowed(c, physMin) && Canonical(z) && Does(c, physMin, maps[|commands|], inUse[|commands|], z, bs)
    ensures Trace(commands + [c], physMin, maps + [z], inUse + [bs])
  {
    hide Does, Step, Canonical;
    var cs, ms, us, n := commands + [c], maps + [z], inUse + [bs], |commands|;
    DoesIsStep(c, physMin, maps[n], inUse[n], z, bs);
    forall k: nat | k + 1 < |ms| ensures StepAt(ms, us, k) && DoneAt(cs[k], physMin, ms, us, k) {
      if k < n {
        assert StepAt(maps, inUse, k) && DoneAt(commands[k], physMin, maps, inUse, k);
      }
    }
  }

  /** Any sequence of calls, each free of one of the blocks still held: every call does what
      it should, every free succeeds, and once nothing is held the range list is the one at
      the start. */
  method Session(m: RangeList, commands: seq<Command>)
    returns (held: seq<Block>, ghost maps: seq<seq<Range>>, ghost inUse: seq<seq<Block>>)
    requires m.Valid() && forall c | c in commands :: Allowed(c, m.physMin)
    modifies m
    ensures m.Valid() && Trace(commands, m.physMin, maps, inUse)
    ensures maps[0] == old(m.ranges) && maps[|commands|] == m.ranges && inUse[|commands|] == held
    ensures Holding(old(m.ranges), m.ranges, held)
    ensures held == [] ==> m.ranges == old(m.ranges)
  {
    held, maps, inUse := [], [m.ranges], [[]];
    var k := 0;
    assert Trace(commands[..k], m.physMin, maps, inUse);
    while k < |commands|
      invariant k <= |commands| && m.Valid() && Trace(commands[..k], m.physMin, maps, inUse)
      invariant maps[0] == old(m.ranges) && maps[k] == m.ranges && inUse[k] == held
      invariant forall b | b in held :: PagedBlock(b)
    {
      RunHolds(maps, inUse, k);
      held := Obey(m, commands[k], held, maps[0]);
      TraceMore(commands[..k], m.physMin, maps, inUse, commands[k], m.ranges, held);
      assert commands[..k] + [commands[k]] == commands[..k + 1];
      maps, inUse := maps + [m.ranges], inUse + [held];
      k := k + 1;
    }
    assert commands[..k] == commands;
    RunHolds(maps, inUse, k);
    if held == [] {
      AllFreedRestores(maps, inUse, k);
    }
  }

  /** One call. */
  method Obey(m: RangeList, c: Command, held: seq<Block>, ghost x: seq<Range>) returns (held': seq<Block>)
    requires m.Valid() && Allowed(c, m.physMin) && Holding(x, m.ranges, held)
    requires forall b | b in held :: PagedBlock(b)
    modifies m
    ensures m.Valid() && Does(c, m.physMin, old(m.ranges), held, m.ranges, held')
    ensures forall b | b in held' :: PagedBlock(b)
  {
    match c {
      case Allocate(_, _, _, _, _, _) =>
        held' := AllocateOne(m, c, held);
      case Release(which) =>
        held' := held;
        if which < |held| {
          ReleaseOne(m, held[which], held, which, x);
          held' := held[..which] + held[which + 1..];
        }
    }
  }

  method AllocateOne(m: RangeList, c: Command, held: seq<Block>) returns (held': seq<Block>)
    requires m.Valid() && c.Allocate? && Allowed(c, m.physMin)
    requires forall b | b in held :: PagedBlock(b)
    modifies m
    ensures m.Valid() && Allocates(c, m.physMin, old(m.ranges), held, m.ranges, held')
    ensures forall b | b in held' :: PagedBlock(b)
  {
    var r, _ := m.MemoryAlloc(c.size, c.align, c.minAddr, c.maxAddr, c.kind, c.high);
    held' := held;
    if r.Some? {
      PageMultiple(r.value, LimitsOf(c, m.physMin).align);
      held' := [Block(r.value, c.size, c.kind)] + held;
    }
  }

  method ReleaseOne(m: RangeList, b: Block, ghost held: seq<Block>, ghost i: nat, ghost x: seq<Range>)
    requires m.Valid() && i < |held| && held[i] == b && PagedBlock(b) && Holding(x, m.ranges, held)
    modifies m
    ensures m.Valid() && Updated(old(m.ranges), m.ranges, b.start, b.start + b.size, Some(FREE))
  {
    HeldCanBeFreed(x, m.ranges, held, i);
    var ok := m.MemoryFree(b.start, b.size);
  }

  /** A block allocated and freed at once leaves the range list it found. */
  lemma {:induction false} FreedAtOnce(x: seq<Range>, y: seq<Range>, z: seq<Range>, b: Block)
    requires Canonical(x) && Canonical(z) && b.kind != FREE && AllOfType(x, b.start, b.size, FREE)
    requires Updated(x, y, b.start, b.start + b.size, Some(b.kind)) && Updated(y, z, b.start, b.start + b.size, Some(FREE))
    ensures z == x
  {
    forall a: nat ensures TypeAt(x, a) == TypeAt(z, a) {
      assert TypeAt(y, a) == if b.Holds(a) then Some(b.kind) else TypeAt(x, a);
    }
    CanonicalUnique(x, z);
  }
}
