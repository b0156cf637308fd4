/** The names that device trees use, as texts: unit addresses, and the properties and nodes that
    overlays rely on. */
module FdtNames {
  import opened Bits
  import opened Common
  import opened FdtFormat
  import opened FdtTree
  import opened FdtEdit
  import opened FdtOverlay
  import opened FdtFixups

  /** A text as bytes. */
  function Ascii(s: string): (r: seq<Byte>)
    ensures |r| == |s|
  {
    seq(|s|, i requires 0 <= i < |s| => s[i] as int % 256)
  }

  /** A node is found by its whole name, or by its name without the unit address: "@" and what
      follows it. */
  lemma {:induction false} MatchExact(n: seq<Byte>, s: seq<Byte>)
    ensures NameMatches(n, s) <==> n == s || exists unit: seq<Byte> :: n == s + [64] + unit && 64 !in s
  {
    if NameMatches(n, s) && n != s {
      assert n == s + [64] + n[|s| + 1..];
    }
  }

  lemma {:induction false} MatchExample()
    ensures NameMatches(Ascii("uart@10"), Ascii("uart@10")) && NameMatches(Ascii("uart@10"), Ascii("uart"))
    ensures !NameMatches(Ascii("uart@10"), Ascii("uart@1")) && !NameMatches(Ascii("uart"), Ascii("uart@10"))
    ensures !NameMatches(Ascii("uarts"), Ascii("uart"))
  {
    assert Ascii("uart@10")[..4] == Ascii("uart") && Ascii("uart@10")[4] == 64 && Ascii("uart@10")[6] == 48;
    assert forall i | 0 <= i < 4 :: Ascii("uart")[i] != 64;
    assert Ascii("uart@1")[4] == 64 && Ascii("uarts")[4] == 115;
  }

  lemma {:induction false} Names()
    ensures PHANDLE == Ascii("phandle") && LINUX_PHANDLE == Ascii("linux,phandle")
    ensures LOCAL_FIXUPS == Ascii("__local_fixups__")
  {
  }

  /** "phandle" counts, whichever comes first; "linux,phandle" only where there is no "phandle" of
      four bytes. */
  lemma {:induction false} PhandleFirst()
    ensures PhandleOf([(Ascii("linux,phandle"), [0, 0, 1, 7]), (Ascii("phandle"), [0, 0, 1, 5])]) == 0x105
    ensures PhandleOf([(Ascii("phandle"), [0, 0, 5]), (Ascii("linux,phandle"), [0, 0, 1, 7])]) == 0x107
    ensures PhandleOf([(Ascii("reg"), [0, 0, 1, 5])]) == 0
  {
    Names();
    OtherName();
    var p: Props := [(Ascii("linux,phandle"), [0, 0, 1, 7]), (Ascii("phandle"), [0, 0, 1, 5])];
    assert p[1..][1..] == [] && Lookup(p, PHANDLE) == Some([0, 0, 1, 5]);
    var q: Props := [(Ascii("phandle"), [0, 0, 5]), (Ascii("linux,phandle"), [0, 0, 1, 7])];
    assert Lookup(q, PHANDLE) == Some([0, 0, 5]) && q[1..][0] == (LINUX_PHANDLE, [0, 0, 1, 7]) && Lookup(q, LINUX_PHANDLE) == Some([0, 0, 1, 7]);
    var r: Props := [(Ascii("reg"), [0, 0, 1, 5])];
    assert |Ascii("reg")| == 3 && r[1..] == [] && Lookup(r, PHANDLE) == None && Lookup(r, LINUX_PHANDLE) == None;
  }

  /** A node with this phandle and nothing else. */
  function WithPhandle(value: seq<Byte>): Tree {
    Tree([], [(PHANDLE, value)], [])
  }

  /** A phandle may become anything but 0xffffffff, and must not wrap around. */
  lemma {:induction false} ShiftLimits()
    ensures AdjustNode(WithPhandle([255, 255, 255, 254]), 0).err == 0 && AdjustNode(WithPhandle([255, 255, 255, 254]), 1).err == -17
    ensures AdjustNode(WithPhandle([255, 255, 255, 254]), 3).err == -17 && AdjustNode(WithPhandle([255, 255, 254]), 0).err == -6
  {
    hide Word;
    OtherName();
    assert Word([255, 255, 255, 254], 0) == 0xffff_fffe by {
      TopWord();
    }
    OnePhandle([255, 255, 255, 254]);
    OnePhandle([255, 255, 254]);
    AdjustExact(WithPhandle([255, 255, 255, 254]), 0);
  }

  lemma {:induction false} TopWord()
    ensures Word([255, 255, 255, 254], 0) == 0xffff_fffe
  {
  }

  lemma {:induction false} OnePhandle(value: seq<Byte>)
    ensures Lookup(WithPhandle(value).props, PHANDLE) == Some(value) && Lookup(WithPhandle(value).props, LINUX_PHANDLE) == None
  {
    OtherName();
    assert WithPhandle(value).props[1..] == [];
  }
}
