/** What several modules use. */
module Common {

  /** 2^64: machine words, physical addresses and sizes wrap here. */
  const U64: nat := 0x1_0000_0000_0000_0000

  function Min(a: int, b: int): int {
    if a < b then a else b
  }

  datatype Option<+T> = None | Some(value: T)

  /** Whether a state is as it should be, as a value. */
  datatype Condition = Intact | Broken

  lemma {:induction false} Assoc<T>(a: seq<T>, b: seq<T>, c: seq<T>)
    ensures (a + b) + c == a + (b + c)
  {
  }

  /** Two neighbouring slices. */
  lemma {:induction false} Cut<T>(c: seq<T>, lo: nat, n: nat, m: nat)
    requires lo + n + m <= |c|
    ensures c[lo..lo + n + m] == c[lo..lo + n] + c[lo + n..lo + n + m]
  {
  }
}
