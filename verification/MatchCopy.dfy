/** Copying a DEFLATE match inside the output window of tinfl.  Three loops do the
    copying; each is proved to continue the output stream as section 3.2.3 of
    RFC 1951 says: one byte at a time, from `dist` bytes back, overlap included. */
module MatchCopy {
  import opened Bits

  /** The output stream after a match: `n` more bytes, each the one `dist` back. */
  function Expand(h: seq<Byte>, dist: nat, n: nat): (r: seq<Byte>)
    requires 1 <= dist <= |h|
    ensures |r| == |h| + n && r[..|h|] == h
  {
    if n == 0 then h
    else
      var g := Expand(h, dist, n - 1);
      g + [g[|g| - dist]]
  }

  /** What Expand means: every new byte equals the byte `dist` before it. */
  lemma {:induction false} ExpandRepeats(h: seq<Byte>, dist: nat, n: nat, i: nat)
    requires 1 <= dist <= |h| <= i < |h| + n
    ensures Expand(h, dist, n)[i] == Expand(h, dist, n)[i - dist]
  {
    if i < |h| + n - 1 {
      ExpandRepeats(h, dist, n - 1, i);
    }
  }

  /** A match is the repetition of the last `dist` bytes, however much it overlaps. */
  lemma {:induction false} ExpandPeriodic(h: seq<Byte>, dist: nat, n: nat, k: nat)
    requires 1 <= dist <= |h| && k < n
    ensures Expand(h, dist, n)[|h| + k] == h[|h| - dist + k % dist]
    decreases k
  {
    ExpandRepeats(h, dist, n, |h| + k);
    if k < dist {
      ModSmall(k, dist);
      assert Expand(h, dist, n)[..|h|] == h;
    } else {
      ExpandPeriodic(h, dist, n, k - dist);
      NextCongruent(k - dist, dist);
    }
  }

  /** The buffer holds the last |out| bytes of the stream `h`, wrapped around. */
  ghost predicate Window(out: seq<Byte>, h: seq<Byte>)
    requires |out| > 0
  {
    forall i: nat | |h| - |out| <= i < |h| :: out[i % |out|] == h[i]
  }

  /** Writing the next byte of the stream at its place keeps the window. */
  lemma WindowStep(out: seq<Byte>, h: seq<Byte>, cur: nat, b: Byte)
    requires |out| > 0 && Window(out, h) && cur < |out| && cur == |h| % |out|
    ensures Window(out[cur := b], h + [b])
  {
    var h', out', n := h + [b], out[cur := b], |out|;
    forall i: nat | |h'| - n <= i < |h'| ensures out'[i % n] == h'[i] {
      if i < |h| && i % n == cur {
        ModApart(i, |h|, n);
      }
    }
  }

  /** The byte `dist` back is in the window. */
  lemma WindowBack(out: seq<Byte>, g: seq<Byte>, dist: nat)
    requires |out| > 0 && Window(out, g) && 1 <= dist <= |g| && dist <= |out|
    ensures out[(|g| - dist) % |out|] == g[|g| - dist]
  {
  }

  /** State of a copy: `h` was the stream when the match began, `done` bytes of the
      match have been written and `cur` is where the next one goes. */
  ghost predicate Copying(out: seq<Byte>, h: seq<Byte>, dist: nat, done: nat, cur: nat)
    requires |out| > 0 && 1 <= dist <= |h|
  {
    dist <= |out| && Window(out, Expand(h, dist, done)) && cur % |out| == (|h| + done) % |out|
  }

  /** One byte of a match. */
  lemma CopyByte(out: seq<Byte>, h: seq<Byte>, dist: nat, done: nat, cur: nat, src: nat)
    requires |out| > 0 && 1 <= dist <= |h| && cur < |out|
    requires Copying(out, h, dist, done, cur) && src == (|h| + done - dist) % |out|
    ensures Copying(out[cur := out[src]], h, dist, done + 1, cur + 1)
  {
    var g, n := Expand(h, dist, done), |out|;
    ModSmall(cur, n);
    WindowBack(out, g, dist);
    WindowStep(out, g, cur, out[src]);
    assert (cur + 1) % n == (|h| + done + 1) % n by {
      ModSuccessor(cur, |h| + done, n);
    }
  }

  lemma ModSuccessor(a: nat, b: nat, n: nat)
    requires n > 0 && a % n == b % n
    ensures (a + 1) % n == (b + 1) % n
  {
    var r := a % n;
    assert n * (a / n) + r == a && n * (b / n) + r == b;
    if r + 1 < n {
      DivUnique(a + 1, n, a / n, r + 1);
      DivUnique(b + 1, n, b / n, r + 1);
    } else {
      MulDistribute(a / n, 1, n);
      MulDistribute(b / n, 1, n);
      DivUnique(a + 1, n, a / n + 1, 0);
      DivUnique(b + 1, n, b / n + 1, 0);
    }
  }

  /** A source that does not wrap within the match moves along with the copy. */
  lemma SourceMoves(n: nat, end: nat, dist: nat, k: nat)
    requires n > 0 && (end - dist) % n + k < n
    ensures (end + k - dist) % n == (end - dist) % n + k
  {
    ModAdd(end - dist, k, n);
  }

  /** The same place in a buffer of n bytes. */
  predicate SamePlace(a: nat, b: nat, n: nat)
    requires n > 0
  {
    a % n == b % n
  }

  /** One byte, its source found from a position that may run past the buffer. */
  lemma WrappedStep(o: seq<Byte>, h: seq<Byte>, dist: nat, done: nat, cur: nat, from: nat)
    requires |o| > 0 && 1 <= dist <= |h| && cur < |o|
    requires Copying(o, h, dist, done, cur) && SamePlace(from, cur, |o|)
    ensures Copying(o[cur := o[(from - dist) % |o|]], h, dist, done + 1, cur + 1)
    ensures SamePlace(from + 1, cur + 1, |o|)
  {
    SameSource(from, |h| + done, dist, |o|);
    CopyByte(o, h, dist, done, cur, (from - dist) % |o|);
    ModSuccessor(from, cur, |o|);
  }

  /** The byte loop with wrap-around.  It stops early when the buffer is full; the
      decoder is then called again with the next write position. */
  method CopyWrapped(out: array<Byte>, cur0: nat, dist: nat, counter: nat, from0: nat, ghost h: seq<Byte>, ghost done0: nat)
    returns (cur: nat, left: nat, from: nat)
    requires out.Length > 0 && 1 <= dist <= |h| && cur0 <= out.Length
    requires Copying(out[..], h, dist, done0, cur0) && SamePlace(from0, cur0, out.Length)
    modifies out
    ensures left <= counter && cur == cur0 + (counter - left) <= out.Length && from == from0 + (counter - left)
    ensures left > 0 ==> cur == out.Length
    ensures Copying(out[..], h, dist, done0 + counter - left, cur) && SamePlace(from, cur, out.Length)
    ensures forall i | 0 <= i < out.Length && !(cur0 <= i < cur) :: out[i] == old(out[i])
  {
    hide Copying, SamePlace;
    cur, left, from := cur0, counter, from0;
    while left > 0 && cur < out.Length
      invariant left <= counter && cur == cur0 + (counter - left) <= out.Length && from == from0 + (counter - left)
      invariant Copying(out[..], h, dist, done0 + counter - left, cur) && SamePlace(from, cur, out.Length)
      invariant forall i | 0 <= i < out.Length && !(cur0 <= i < cur) :: out[i] == old(out[i])
    {
      ghost var o := out[..];
      WrappedStep(o, h, dist, done0 + counter - left, cur, from);
      out[cur] := out[(from - dist) % out.Length];
      assert out[..] == o[cur := o[(from - dist) % out.Length]];
      cur, from, left := cur + 1, from + 1, left - 1;
    }
  }

  lemma SameSource(a: int, b: int, dist: int, n: nat)
    requires n > 0 && a % n == b % n
    ensures (a - dist) % n == (b - dist) % n
  {
    var k := b / n - a / n;
    assert n * (a / n) + a % n == a && n * (b / n) + b % n == b;
    assert b - a == n * k;
    var x := a - dist;
    assert n * (x / n) + x % n == x;
    assert n * (x / n + k) == n * (x / n) + n * k;
    DivUnique(b - dist, n, x / n + k, x % n);
  }

  // ---- the fast loops: neither end of the copy wraps ----

  /** Copying `n` bytes one after the other from `src` to `cur`. */
  function Run(o: seq<Byte>, cur: nat, src: nat, n: nat): (r: seq<Byte>)
    requires cur + n <= |o| && src + n <= |o|
    ensures |r| == |o| && forall i | 0 <= i < |o| && !(cur <= i < cur + n) :: r[i] == o[i]
  {
    if n == 0 then o
    else
      var p := Run(o, cur, src, n - 1);
      p[cur + n - 1 := p[src + n - 1]]
  }

  lemma {:induction false} RunSplit(o: seq<Byte>, cur: nat, src: nat, m: nat, n: nat)
    requires cur + m + n <= |o| && src + m + n <= |o|
    ensures Run(o, cur, src, m + n) == Run(Run(o, cur, src, m), cur + m, src + m, n)
  {
    if n > 0 {
      RunSplit(o, cur, src, m, n - 1);
    }
  }

  /** Such a run is part of a match when it starts at the right source. */
  lemma {:induction false} RunCopies(o: seq<Byte>, h: seq<Byte>, dist: nat, cur: nat, src: nat, n: nat)
    requires |o| > 0 && 1 <= dist <= |h| && cur + n <= |o| && src + n <= |o|
    requires Copying(o, h, dist, 0, cur) && src == (|h| - dist) % |o|
    ensures Copying(Run(o, cur, src, n), h, dist, n, cur + n)
  {
    hide Copying;
    if n > 0 {
      RunCopies(o, h, dist, cur, src, n - 1);
      SourceMoves(|o|, |h|, dist, n - 1);
      CopyByte(Run(o, cur, src, n - 1), h, dist, n - 1, cur + n - 1, src + n - 1);
    }
  }

  /** Three bytes at a time, then what is left.  The loop tests after its first
      round, so it never copies fewer than three bytes. */
  method CopyTriples(out: array<Byte>, cur0: nat, src0: nat, counter: nat) returns (cur: nat)
    requires cur0 + counter <= out.Length && src0 + counter <= out.Length
    requires cur0 + 3 <= out.Length && src0 + 3 <= out.Length
    modifies out
    ensures var copied := if counter < 3 then 3 else counter;
            cur == cur0 + copied && out[..] == Run(old(out[..]), cur0, src0, copied)
  {
    var src, left: int := src0, counter;
    ghost var o, copied := out[..], 0;
    cur := cur0;
    while true
      invariant copied == 0 || 3 <= left
      invariant copied + left == counter && cur == cur0 + copied && src == src0 + copied
      invariant out[..] == Run(o, cur0, src0, copied)
      decreases left
    {
      CopyThree(out, cur, src, o, cur0, src0, copied);
      cur, src, left, copied := cur + 3, src + 3, left - 3, copied + 3;
      if !(left > 2) {
        break;
      }
    }
    if left > 0 {
      CopyFew(out, cur, src, left, o, cur0, src0, copied);
      cur, copied := cur + left, copied + left;
    }
  }

  /** Three more bytes of a run of which `done` bytes have been copied. */
  method CopyThree(out: array<Byte>, cur: nat, src: nat,
                   ghost o: seq<Byte>, ghost cur0: nat, ghost src0: nat, ghost done: nat)
    requires |o| == out.Length && cur + 3 <= |o| && src + 3 <= |o| && cur == cur0 + done && src == src0 + done
    requires out[..] == Run(o, cur0, src0, done)
    modifies out
    ensures out[..] == Run(o, cur0, src0, done + 3)
  {
    CopyOne(out, cur, src, o, cur0, src0, done);
    CopyOne(out, cur + 1, src + 1, o, cur0, src0, done + 1);
    CopyOne(out, cur + 2, src + 2, o, cur0, src0, done + 2);
  }

  method CopyOne(out: array<Byte>, cur: nat, src: nat,
                 ghost o: seq<Byte>, ghost cur0: nat, ghost src0: nat, ghost done: nat)
    requires |o| == out.Length && cur < |o| && src < |o| && cur == cur0 + done && src == src0 + done
    requires out[..] == Run(o, cur0, src0, done)
    modifies out
    ensures out[..] == Run(o, cur0, src0, done + 1)
  {
    out[cur] := out[src];
  }

  /** The one or two bytes at the end of a match. */
  method CopyFew(out: array<Byte>, cur: nat, src: nat, n: nat,
                 ghost o: seq<Byte>, ghost cur0: nat, ghost src0: nat, ghost done: nat)
    requires 1 <= n <= 2 && |o| == out.Length && cur + n <= |o| && src + n <= |o|
    requires cur == cur0 + done && src == src0 + done && out[..] == Run(o, cur0, src0, done)
    modifies out
    ensures out[..] == Run(o, cur0, src0, done + n)
  {
    CopyOne(out, cur, src, o, cur0, src0, done);
    if n > 1 {
      CopyOne(out, cur + 1, src + 1, o, cur0, src0, done + 1);
    }
  }

  /** Four bytes through one 32-bit load and store: the same as one by one, because
      the source is not in the three bytes after an earlier write. */
  method CopyWord(out: array<Byte>, cur: nat, src: nat)
    requires cur + 4 <= out.Length && src + 4 <= out.Length && (cur <= src || src + 4 <= cur)
    modifies out
    ensures out[..] == Run(old(out[..]), cur, src, 4)
  {
    ghost var o := out[..];
    out[cur], out[cur + 1], out[cur + 2], out[cur + 3] := out[src], out[src + 1], out[src + 2], out[src + 3];
    assert Run(o, cur, src, 1) == o[cur := o[src]];
    assert Run(o, cur, src, 2) == o[cur := o[src]][cur + 1 := o[src + 1]];
    assert Run(o, cur, src, 3) == o[cur := o[src]][cur + 1 := o[src + 1]][cur + 2 := o[src + 2]];
    assert out[..] == o[cur := o[src]][cur + 1 := o[src + 1]][cur + 2 := o[src + 2]][cur + 3 := o[src + 3]];
  }

  method CopyEight(out: array<Byte>, cur: nat, src: nat)
    requires cur + 8 <= out.Length && src + 8 <= out.Length && (cur <= src || src + 4 <= cur)
    modifies out
    ensures out[..] == Run(old(out[..]), cur, src, 8)
  {
    RunSplit(out[..], cur, src, 4, 4);
    CopyWord(out, cur, src);
    CopyWord(out, cur + 4, src + 4);
  }

  /** Eight bytes at a time; reports how far it got and how many bytes are left. */
  method CopyBlocks(out: array<Byte>, cur0: nat, src0: nat, counter: nat)
    returns (cur: nat, src: nat, left: nat)
    requires counter >= 9 && cur0 + counter <= out.Length && src0 + counter <= out.Length
    requires cur0 <= src0 || src0 + 4 <= cur0
    modifies out
    ensures left == counter % 8 && cur == cur0 + (counter - left) && src == src0 + (counter - left)
    ensures out[..] == Run(old(out[..]), cur0, src0, counter - left)
  {
    hide Run;
    ghost var o, d := out[..], 0;
    var srcEnd := src0 + (counter - counter % 8);
    cur, src := cur0, src0;
    while src < srcEnd
      invariant cur == cur0 + d && src == src0 + d <= srcEnd && d % 8 == 0
      invariant out[..] == Run(o, cur0, src0, d)
    {
      CopyEight(out, cur, src);
      RunSplit(o, cur0, src0, d, 8);
      cur, src, d := cur + 8, src + 8, d + 8;
    }
    left := counter % 8;
  }

  /** Dispatch between the fast loops. */
  method CopyFast(out: array<Byte>, cur0: nat, src0: nat, dist: nat, counter: nat) returns (cur: nat)
    requires counter >= 3 && cur0 + counter <= out.Length && src0 + counter <= out.Length
    requires cur0 <= src0 || src0 + dist == cur0
    modifies out
    ensures cur == cur0 + counter && out[..] == Run(old(out[..]), cur0, src0, counter)
  {
    if counter >= 9 && counter <= dist {
      ghost var o := out[..];
      var src, left;
      cur, src, left := CopyBlocks(out, cur0, src0, counter);
      if left < 3 {
        if left > 0 {
          CopyFew(out, cur, src, left, o, cur0, src0, counter - left);
        }
        cur := cur + left;
      } else {
        RunSplit(o, cur0, src0, counter - left, left);
        cur := CopyTriples(out, cur, src, left);
      }
    } else {
      cur := CopyTriples(out, cur0, src0, counter);
    }
  }

  /** Where the source of a match lies relative to the write position. */
  lemma SourcePlace(n: nat, cur: nat, dist: nat)
    requires cur < n && 1 <= dist <= n
    ensures (cur - dist) % n == if dist <= cur then cur - dist else cur - dist + n
  {
    if dist <= cur {
      ModSmall(cur - dist, n);
    } else {
      DivUnique(cur - dist, n, -1, cur - dist + n);
    }
  }

  /** The whole match copy: the bytes written continue the stream `h` exactly as the
      format demands, whichever loops ran; only the bytes between the old and the
      new write position change.  `ok` is false exactly when the distance reaches
      before the start of a buffer that does not wrap, and bytes are left over
      exactly when the buffer is full. */
  method CopyMatch(out: array<Byte>, cur0: nat, dist: nat, counter: nat, wrapping: bool, ghost h: seq<Byte>)
    returns (ok: bool, cur: nat, left: nat)
    requires out.Length > 0 && cur0 <= out.Length && counter >= 3 && 1 <= dist <= out.Length
    requires Window(out[..], h) && cur0 % out.Length == |h| % out.Length
    requires if wrapping then dist <= |h| else |h| == cur0
    modifies out
    ensures ok == (wrapping || dist <= cur0)
    ensures !ok ==> out[..] == old(out[..]) && cur == cur0
    ensures ok ==> left <= counter && cur == cur0 + (counter - left) <= out.Length
    ensures ok ==> (left > 0 ==> cur == out.Length)
    ensures ok ==> 1 <= dist <= |h| && Window(out[..], Expand(h, dist, counter - left))
    ensures forall i | 0 <= i < out.Length && !(cur0 <= i < cur) :: out[i] == old(out[i])
  {
    hide Copying, Window, Expand, Run;
    ok, cur, left := true, cur0, counter;
    if dist > cur0 && !wrapping {
      ok := false;
      return;
    }
    ghost var o := out[..];
    NothingCopied(o, h, dist, cur0);
    SameSource(cur0, |h|, dist, out.Length);
    var src := (cur0 - dist) % out.Length;
    if (if cur0 > src then cur0 else src) + counter > out.Length {
      var from;
      cur, left, from := CopyWrapped(out, cur0, dist, counter, cur0, h, 0);
    } else {
      SourcePlace(out.Length, cur0, dist);
      RunCopies(o, h, dist, cur0, src, counter);
      cur := CopyFast(out, cur0, src, dist, counter);
      left := 0;
    }
    AllCopied(out[..], h, dist, counter - left, cur);
  }

  /** Whatever stands in a wrapping buffer is the window of some stream that reaches back as far
      as any distance: a distance beyond the bytes put out so far copies what stood there. */
  lemma StaleWindow(o: seq<Byte>, cur: nat)
    requires cur <= |o| && |o| > 0
    ensures var h := o + o[..cur]; Window(o, h) && cur % |o| == |h| % |o| && |o| <= |h|
  {
    var h, n := o + o[..cur], |o|;
    forall i: nat | |h| - n <= i < |h| ensures o[i % n] == h[i] {
      StaleAt(o, h, cur, i);
    }
    OneTurn(cur, n);
  }

  lemma StaleAt(o: seq<Byte>, h: seq<Byte>, cur: nat, i: nat)
    requires cur <= |o| && |o| > 0 && h == o + o[..cur] && i < |h|
    ensures o[i % |o|] == h[i]
  {
    if i < |o| {
      ModSmall(i, |o|);
    } else {
      ModSmall(i - |o|, |o|);
      OneTurn(i - |o|, |o|);
    }
  }

  lemma OneTurn(i: nat, n: nat)
    requires n > 0
    ensures (i + n) % n == i % n
  {
    var q := i / n;
    assert n * q + i % n == i;
    assert i + n == n * (q + 1) + i % n;
    DivUnique(i + n, n, q + 1, i % n);
  }

  lemma NothingCopied(o: seq<Byte>, h: seq<Byte>, dist: nat, cur: nat)
    requires 1 <= dist <= |o| && dist <= |h| && Window(o, h) && cur % |o| == |h| % |o|
    ensures Copying(o, h, dist, 0, cur)
  {
  }

  lemma AllCopied(o: seq<Byte>, h: seq<Byte>, dist: nat, done: nat, cur: nat)
    requires |o| > 0 && 1 <= dist <= |h| && Copying(o, h, dist, done, cur)
    ensures Window(o, Expand(h, dist, done))
  {
  }

  // ---- how long and how far a match may be ----

  const LENGTH_BASE: seq<nat> := [3, 4, 5, 6, 7, 8, 9, 10, 11, 13, 15, 17, 19, 23, 27, 31, 35, 43, 51, 59,
                                  67, 83, 99, 115, 131, 163, 195, 227, 258, 0, 0]
  const LENGTH_EXTRA: seq<nat> := [0, 0, 0, 0, 0, 0, 0, 0, 1, 1, 1, 1, 2, 2, 2, 2, 3, 3, 3, 3,
                                   4, 4, 4, 4, 5, 5, 5, 5, 0, 0, 0]
  const DIST_BASE: seq<nat> := [1, 2, 3, 4, 5, 7, 9, 13, 17, 25, 33, 49, 65, 97, 129, 193, 257, 385, 513, 769,
                                1025, 1537, 2049, 3073, 4097, 6145, 8193, 12289, 16385, 24577, 0, 0]
  const DIST_EXTRA: seq<nat> := [0, 0, 0, 0, 1, 1, 2, 2, 3, 3, 4, 4, 5, 5, 6, 6, 7, 7, 8, 8,
                                 9, 9, 10, 10, 11, 11, 12, 12, 13, 13]

  /** The length of a match: length symbol and the value of its extra bits. */
  function MatchLength(sym: nat, extra: nat): nat
    requires 257 <= sym <= 287
  {
    LENGTH_BASE[sym - 257] + extra
  }

  function MatchDistance(sym: nat, extra: nat): nat
    requires sym < 30
  {
    DIST_BASE[sym] + extra
  }

  /** How many extra bits a symbol has: one more for every four length symbols and for every two
      distance symbols. */
  lemma ExtraBits(i: nat)
    ensures i < 31 ==> LENGTH_EXTRA[i] == if i < 8 || i >= 28 then 0 else (i - 4) / 4
    ensures i < 30 ==> DIST_EXTRA[i] == if i < 4 then 0 else (i - 2) / 2
    ensures MatchLength(257, 0) == 3 && MatchLength(285, 0) == 258 && MatchDistance(0, 0) == 1
  {
  }

  /** Length symbols 257 to 285 give lengths 3 to 258; the two symbols that RFC 1951
      says never occur give length 0. */
  lemma MatchLengths(sym: nat, extra: nat)
    requires 257 <= sym <= 287 && extra < Pow2(LENGTH_EXTRA[sym - 257])
    ensures if sym <= 285 then 3 <= MatchLength(sym, extra) <= 258 else MatchLength(sym, extra) == 0
  {
    ExtraPowers();
  }

  /** The lengths follow each other without a gap or an overlap, except that 258 has two
      spellings: the last one of symbol 284, and symbol 285. */
  lemma LengthsContiguous(sym: nat)
    requires 257 <= sym <= 284
    ensures var last := MatchLength(sym, Pow2(LENGTH_EXTRA[sym - 257]) - 1);
      if sym == 284 then last == MatchLength(285, 0) == 258 else last + 1 == MatchLength(sym + 1, 0)
  {
    ExtraPowers();
    if sym < 269 {
    } else if sym < 277 {
    } else {
    }
  }

  /** Distance symbols cover 1 to 32768. */
  lemma MatchDistances(sym: nat, extra: nat)
    requires sym < 30 && extra < Pow2(DIST_EXTRA[sym])
    ensures 1 <= MatchDistance(sym, extra) <= 32768
  {
    hide Pow2;
    ExtraPowers();
  }

  /** The distances follow each other without a gap or an overlap, up to 32768. */
  lemma DistancesContiguous(sym: nat)
    requires sym < 30
    ensures var last := MatchDistance(sym, Pow2(DIST_EXTRA[sym]) - 1);
            if sym == 29 then last == 32768 else last + 1 == MatchDistance(sym + 1, 0)
  {
    hide Pow2;
    ExtraPowers();
  }

  lemma ExtraPowers()
    ensures Pow2(0) == 1 && Pow2(1) == 2 && Pow2(2) == 4 && Pow2(3) == 8 && Pow2(4) == 16
    ensures Pow2(5) == 32 && Pow2(6) == 64 && Pow2(7) == 128 && Pow2(8) == 256 && Pow2(9) == 512
    ensures Pow2(10) == 1024 && Pow2(11) == 2048 && Pow2(12) == 4096 && Pow2(13) == 8192
  {
  }
}
